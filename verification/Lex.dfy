/** Lexicographic order of byte strings and of strings of code units, and lowercase hex. */
module Lex {
  import opened Bytes

  /** `a < b` for Rust slices, and `<` for JavaScript strings of code units. */
  predicate Less(a: seq<int>, b: seq<int>) {
    b != [] && (a == [] || a[0] < b[0] || (a[0] == b[0] && Less(a[1..], b[1..])))
  }

  lemma {:induction false} Irreflexive(a: seq<int>)
    ensures !Less(a, a)
  {
    if a != [] {
      Irreflexive(a[1..]);
    }
  }

  lemma {:induction false} Transitive(a: seq<int>, b: seq<int>, c: seq<int>)
    requires Less(a, b) && Less(b, c)
    ensures Less(a, c)
  {
    if a != [] && a[0] == b[0] == c[0] {
      Transitive(a[1..], b[1..], c[1..]);
    }
  }

  lemma {:induction false} Total(a: seq<int>, b: seq<int>)
    ensures Less(a, b) || a == b || Less(b, a)
  {
    if a != [] && b != [] && a[0] == b[0] {
      Total(a[1..], b[1..]);
      assert a == [a[0]] + a[1..] && b == [b[0]] + b[1..];
    }
  }

  /** Exactly one of less, equal and greater holds. */
  lemma Trichotomy(a: seq<int>, b: seq<int>)
    ensures Less(a, b) ==> a != b && !Less(b, a)
    ensures a == b ==> !Less(a, b)
    ensures Less(a, b) || a == b || Less(b, a)
  {
    Irreflexive(a);
    Total(a, b);
    if Less(a, b) && Less(b, a) {
      Transitive(a, b, a);
    }
  }

  lemma {:induction false} LessAfterPrefix(p: seq<int>, a: seq<int>, b: seq<int>)
    ensures Less(p + a, p + b) <==> Less(a, b)
  {
    if p == [] {
      assert p + a == a && p + b == b;
    } else {
      LessAfterPrefix(p[1..], a, b);
      assert (p + a)[1..] == p[1..] + a && (p + b)[1..] == p[1..] + b;
    }
  }

  /** `compareBytes` and `compareIdentifierBytes`: first differing byte, else difference of lengths. */
  method CompareBytes(a: seq<byte>, b: seq<byte>) returns (c: int)
    ensures c < 0 <==> Less(a, b)
    ensures c == 0 <==> a == b
    ensures c > 0 <==> Less(b, a)
  {
    var len := if |a| < |b| then |a| else |b|;
    var i := 0;
    while i < len
      invariant 0 <= i <= len
      invariant a[..i] == b[..i]
    {
      var diff: int := (a[i] as int) - (b[i] as int);
      if diff != 0 {
        SplitAt(a, b, i);
        Trichotomy(a, b);
        return diff;
      }
      i := i + 1;
    }
    SplitAt(a, b, len);
    Trichotomy(a, b);
    return |a| - |b|;
  }

  lemma SplitAt(a: seq<int>, b: seq<int>, i: nat)
    requires i <= |a| && i <= |b| && a[..i] == b[..i]
    ensures Less(a, b) <==> Less(a[i..], b[i..])
    ensures Less(b, a) <==> Less(b[i..], a[i..])
  {
    assert a == a[..i] + a[i..] && b == a[..i] + b[i..];
    LessAfterPrefix(a[..i], a[i..], b[i..]);
    LessAfterPrefix(a[..i], b[i..], a[i..]);
  }

  /** The character code of one lowercase hex digit, `'0'..'9'` then `'a'..'f'`. */
  function HexDigit(n: int): (c: byte)
    requires 0 <= n < 16
  {
    if n < 10 then 48 + n else 87 + n
  }

  const HEX_DIGITS := "0123456789abcdef"

  lemma DigitOfTable(n: int)
    requires 0 <= n < 16
    ensures HexDigit(n) == HEX_DIGITS[n] as int
  {
  }

  /** Two lowercase hex digits a byte: `hex_push`, `to_hex` and `bytesToHex` without the `0x`. */
  function Hex(b: seq<byte>): (h: seq<byte>)
    ensures |h| == 2 * |b|
    decreases |b|
  {
    if b == [] then [] else [HexDigit(b[0] / 16), HexDigit(b[0] % 16)] + Hex(b[1..])
  }

  lemma {:induction false} HexAppend(a: seq<byte>, b: seq<byte>)
    ensures Hex(a + b) == Hex(a) + Hex(b)
  {
    if a == [] {
      assert a + b == b;
    } else {
      assert (a + b)[1..] == a[1..] + b;
      HexAppend(a[1..], b);
    }
  }

  /** Hex is injective. */
  lemma {:induction false} HexInjective(a: seq<byte>, b: seq<byte>)
    requires Hex(a) == Hex(b)
    ensures a == b
  {
    if a != [] && b != [] {
      assert Hex(a)[0] == Hex(b)[0] && Hex(a)[1] == Hex(b)[1];
      assert a[0] / 16 == b[0] / 16 && a[0] % 16 == b[0] % 16;
      assert Hex(a)[2..] == Hex(a[1..]) && Hex(b)[2..] == Hex(b[1..]);
      HexInjective(a[1..], b[1..]);
      assert a == [a[0]] + a[1..] && b == [b[0]] + b[1..];
    }
  }

  /** Comparing lowercase hex strings is comparing the bytes they spell, prefixes included. */
  lemma {:induction false} HexPreservesOrder(a: seq<byte>, b: seq<byte>)
    ensures Less(Hex(a), Hex(b)) <==> Less(a, b)
  {
    if a != [] && b != [] {
      var (ha, hb) := (Hex(a), Hex(b));
      assert ha[2..] == Hex(a[1..]) && hb[2..] == Hex(b[1..]);
      assert ha[1..][1..] == ha[2..] && hb[1..][1..] == hb[2..];
      HexPreservesOrder(a[1..], b[1..]);
    }
  }
}
