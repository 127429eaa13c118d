/** The byte buffers the TypeScript builders fill in place. */
module Buffer {
  import opened Bytes
  import opened Seqs

  /** The part of a buffer that has been filled. */
  function Written(buf: array<byte>, off: nat): (w: seq<byte>)
    requires off <= buf.Length
    reads buf
    ensures |w| == off
  {
    buf[..off]
  }

  lemma AllWritten(buf: array<byte>)
    ensures Written(buf, buf.Length) == buf[..] && Written(buf, 0) == []
  {
  }

  /** `buf.set(part, off); off += part.length`: extends what has been written so far. */
  method Append(buf: array<byte>, off: nat, part: seq<byte>) returns (next: nat)
    requires off + |part| <= buf.Length
    modifies buf
    ensures next == off + |part|
    ensures Written(buf, next) == old(Written(buf, off)) + part
  {
    var i := 0;
    while i < |part|
      invariant 0 <= i <= |part|
      invariant buf[..off + i] == old(buf[..off]) + part[..i]
    {
      buf[off + i] := part[i];
      i := i + 1;
    }
    next := off + |part|;
  }

  /** The byte loops that write a u64, least significant byte first. */
  method AppendU64(buf: array<byte>, off: nat, value: u64) returns (next: nat)
    requires off + 8 <= buf.Length
    modifies buf
    ensures next == off + 8
    ensures Written(buf, next) == old(Written(buf, off)) + Le8(value)
  {
    hide Le8;
    ghost var bytes := Le(value, 8);
    var rest: nat := value;
    for i := 0 to 8
      invariant buf[..off] == old(buf[..off])
      invariant forall k :: 0 <= k < i ==> buf[off + k] == bytes[k]
      invariant Le(rest, 8 - i) == bytes[i..]
    {
      LeStep(rest, 8 - i);
      assert bytes[i] == rest % 256;
      DropTwice(bytes, i, 1);
      buf[off + i] := rest % 256;
      rest := rest / 256;
    }
    assert buf[off..off + 8] == bytes;
    assert Le8(value) == bytes by { LeEight(value); }
    assert buf[..off + 8] == buf[..off] + buf[off..off + 8];
    next := off + 8;
  }

  lemma LeEight(n: nat)
    ensures Le8(n) == Le(n, 8)
  {
  }

  lemma LeStep(n: nat, k: nat)
    requires k > 0
    ensures Le(n, k)[0] == n % 256 && Le(n, k)[1..] == Le(n / 256, k - 1)
  {
  }
}
