/** Scripts and their Molecule table encoding (RFC 0008, Table and FixVec layouts). */
module Molecule {
  import opened Bytes
  import opened Buffer
  import opened Seqs

  datatype Script = Script(codeHash: Bytes32, hashType: byte, args: seq<byte>)

  /** Field offsets of a canonical Script table. */
  function ScriptHead(argsLen: nat): (b: seq<byte>)
    ensures |b| == 16
  {
    Le4(53 + argsLen) + Le4(16) + Le4(48) + Le4(49)
  }

  /** `scriptToMoleculeBytes`: total | offsets | code_hash(32) | hash_type(1) | args FixVec. */
  function EncodeScript(s: Script): (b: seq<byte>)
    ensures |b| == 53 + |s.args|
  {
    ScriptHead(|s.args|) + (s.codeHash + [s.hashType]) + (Le4(|s.args|) + s.args)
  }

  /** `moleculeBytesToScript`: only the canonical offsets are accepted. */
  function DecodeScript(raw: seq<byte>): Option<Script> {
    if |raw| < 53 then None
    else if U32At(raw, 0) != |raw| || U32At(raw, 4) != 16 || U32At(raw, 8) != 48 || U32At(raw, 12) != 49 then None
    else if 53 + U32At(raw, 49) != |raw| then None
    else Some(Script(raw[16..48], raw[48], raw[53..]))
  }

  /** The builder writes each byte of the table into a zeroed buffer of the final size. */
  method ScriptToMoleculeBytes(s: Script) returns (out: array<byte>)
    ensures fresh(out) && out[..] == EncodeScript(s)
  {
    hide Le4, Written;
    var argsLen := |s.args|;
    out := new byte[53 + argsLen](_ => 0);
    var off := 0;
    AllWritten(out);
    off := Append(out, off, Le4(53 + argsLen));
    off := Append(out, off, Le4(16));
    off := Append(out, off, Le4(48));
    off := Append(out, off, Le4(49));
    off := Append(out, off, s.codeHash);
    off := Append(out, off, [s.hashType]);
    off := Append(out, off, Le4(argsLen));
    off := Append(out, off, s.args);
    Regroup<byte>(ScriptHead(argsLen), s.codeHash, [s.hashType], Le4(argsLen), s.args);
    AllWritten(out);
  }

  lemma Regroup<T>(h: seq<T>, a: seq<T>, b: seq<T>, c: seq<T>, d: seq<T>)
    ensures h + a + b + c + d == h + (a + b) + (c + d)
  {
  }

  lemma EncodedScriptFields(s: Script)
    requires |s.args| + 53 < 0x1_0000_0000
    ensures var b := EncodeScript(s);
            U32At(b, 0) == |b| && U32At(b, 4) == 16 && U32At(b, 8) == 48 && U32At(b, 12) == 49
            && b[16..48] == s.codeHash && b[48] == s.hashType
            && U32At(b, 49) == |s.args| && b[53..] == s.args
  {
    hide Le4;
    var b := EncodeScript(s);
    var (h, m, t) := (ScriptHead(|s.args|), s.codeHash + [s.hashType], Le4(|s.args|) + s.args);
    Parts(b, h, m, t);
    assert b[0..4] == h[0..4] && b[4..8] == h[4..8] && b[8..12] == h[8..12] && b[12..16] == h[12..16];
    assert b[49..53] == t[..4] && b[53..] == t[4..];
    assert b[16..48] == m[..32];
    U32Written(b, 0, 53 + |s.args|);
    U32Written(b, 4, 16);
    U32Written(b, 8, 48);
    U32Written(b, 12, 49);
    U32Written(b, 49, |s.args|);
  }

  /** Decoding an encoded script gives it back. */
  lemma DecodeOfEncodeScript(s: Script)
    requires |s.args| + 53 < 0x1_0000_0000
    ensures DecodeScript(EncodeScript(s)) == Some(s)
  {
    hide EncodeScript;
    EncodedScriptFields(s);
  }

  /** Any table the decoder accepts is the canonical encoding of what it returns. */
  lemma EncodeOfDecodeScript(raw: seq<byte>)
    requires DecodeScript(raw).Some?
    ensures EncodeScript(DecodeScript(raw).value) == raw
  {
    hide Le4;
    U32Bytes(raw, 0);
    U32Bytes(raw, 4);
    U32Bytes(raw, 8);
    U32Bytes(raw, 12);
    U32Bytes(raw, 49);
    assert raw == raw[0..4] + raw[4..8] + raw[8..12] + raw[12..16] + (raw[16..48] + [raw[48]])
      + (raw[49..53] + raw[53..]);
  }
}
