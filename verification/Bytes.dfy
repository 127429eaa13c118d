/** Bytes, machine integers and the little-endian fields of every on-chain format. */
module Bytes {
  type byte = b: int | 0 <= b < 0x100
  type u16 = n: int | 0 <= n < 0x1_0000
  type u32 = n: int | 0 <= n < 0x1_0000_0000
  type u64 = n: int | 0 <= n < 0x1_0000_0000_0000_0000

  const U64_MAX: u64 := 0xFFFF_FFFF_FFFF_FFFF

  /** A 32-byte digest, code hash or Type ID. */
  type Bytes32 = b: seq<byte> | |b| == 32 witness seq(32, _ => 0)

  /** A compressed secp256k1 public key. */
  type Pubkey = b: seq<byte> | |b| == 33 witness seq(33, _ => 0)

  const ZERO_32: Bytes32 := [
    0, 0, 0, 0, 0, 0, 0, 0, 0, 0, 0, 0, 0, 0, 0, 0,
    0, 0, 0, 0, 0, 0, 0, 0, 0, 0, 0, 0, 0, 0, 0, 0]

  /** blake2b-256 with the CKB personalisation: any function to 32 bytes. */
  type Hasher = seq<byte> -> Bytes32

  datatype Option<+T> = None | Some(value: T)

  /** Ok, or the exit code a script stops with. */
  datatype Result<+T, +E> = Ok(value: T) | Err(error: E)

  function Pow256(k: nat): (p: nat)
    ensures p > 0
  {
    if k == 0 then 1 else 256 * Pow256(k - 1)
  }

  /** The k low bytes of n, least significant first (`to_le_bytes`, and the TypeScript byte loops). */
  function Le(n: nat, k: nat): (b: seq<byte>)
    ensures |b| == k
  {
    if k == 0 then [] else [n % 256] + Le(n / 256, k - 1)
  }

  /** `from_le_bytes` on a slice of any width. */
  function FromLe(b: seq<byte>): nat {
    if b == [] then 0 else b[0] + 256 * FromLe(b[1..])
  }

  lemma {:induction false} FromLeBound(b: seq<byte>)
    ensures FromLe(b) < Pow256(|b|)
  {
    if b != [] {
      FromLeBound(b[1..]);
    }
  }

  /** Encoding the decoded value gives the bytes back. */
  lemma {:induction false} LeOfFromLe(b: seq<byte>)
    ensures Le(FromLe(b), |b|) == b
  {
    if b != [] {
      LeOfFromLe(b[1..]);
      assert FromLe(b) % 256 == b[0] && FromLe(b) / 256 == FromLe(b[1..]);
      assert [b[0]] + b[1..] == b;
    }
  }

  /** Decoding a written value gives it back when it fits the width. */
  lemma {:induction false} FromLeOfLe(n: nat, k: nat)
    requires n < Pow256(k)
    ensures FromLe(Le(n, k)) == n
  {
    if k != 0 {
      FromLeOfLe(n / 256, k - 1);
      assert Le(n, k)[1..] == Le(n / 256, k - 1);
    }
  }

  lemma Pow256Values()
    ensures Pow256(1) == 0x100 && Pow256(2) == 0x1_0000 && Pow256(4) == 0x1_0000_0000
    ensures Pow256(8) == 0x1_0000_0000_0000_0000
  {
    assert Pow256(2) == 256 * Pow256(1);
    assert Pow256(3) == 256 * Pow256(2);
    assert Pow256(4) == 256 * Pow256(3);
    assert Pow256(5) == 256 * Pow256(4);
    assert Pow256(6) == 256 * Pow256(5);
    assert Pow256(7) == 256 * Pow256(6);
    assert Pow256(8) == 256 * Pow256(7);
  }

  /** A little-endian u16 field. */
  function U16At(data: seq<byte>, off: nat): (n: nat)
    requires off + 2 <= |data|
    ensures n < 0x1_0000
  {
    FromLeBound(data[off..off + 2]); Pow256Values();
    FromLe(data[off..off + 2])
  }

  /** A little-endian u32 field. */
  function U32At(data: seq<byte>, off: nat): (n: nat)
    requires off + 4 <= |data|
    ensures n < 0x1_0000_0000
  {
    FromLeBound(data[off..off + 4]); Pow256Values();
    FromLe(data[off..off + 4])
  }

  /** A little-endian u64 field. */
  function U64At(data: seq<byte>, off: nat): (n: u64)
    requires off + 8 <= |data|
  {
    FromLeBound(data[off..off + 8]); Pow256Values();
    FromLe(data[off..off + 8])
  }

  function Le2(n: nat): (b: seq<byte>) ensures |b| == 2 { Le(n, 2) }
  function Le4(n: nat): (b: seq<byte>) ensures |b| == 4 { Le(n, 4) }
  function Le8(n: nat): (b: seq<byte>) ensures |b| == 8 { Le(n, 8) }

  lemma U16Written(data: seq<byte>, off: nat, n: nat)
    requires off + 2 <= |data| && data[off..off + 2] == Le2(n) && n < 0x1_0000
    ensures U16At(data, off) == n
  {
    Pow256Values();
    FromLeOfLe(n, 2);
  }

  lemma U32Written(data: seq<byte>, off: nat, n: nat)
    requires off + 4 <= |data| && data[off..off + 4] == Le4(n) && n < 0x1_0000_0000
    ensures U32At(data, off) == n
  {
    Pow256Values();
    FromLeOfLe(n, 4);
  }

  lemma U64Written(data: seq<byte>, off: nat, n: u64)
    requires off + 8 <= |data| && data[off..off + 8] == Le8(n)
    ensures U64At(data, off) == n
  {
    Pow256Values();
    FromLeOfLe(n, 8);
  }

  lemma U16Bytes(data: seq<byte>, off: nat)
    requires off + 2 <= |data|
    ensures Le2(U16At(data, off)) == data[off..off + 2]
  {
    LeOfFromLe(data[off..off + 2]);
  }

  lemma U32Bytes(data: seq<byte>, off: nat)
    requires off + 4 <= |data|
    ensures Le4(U32At(data, off)) == data[off..off + 4]
  {
    LeOfFromLe(data[off..off + 4]);
  }

  lemma U64Bytes(data: seq<byte>, off: nat)
    requires off + 8 <= |data|
    ensures Le8(U64At(data, off)) == data[off..off + 8]
  {
    LeOfFromLe(data[off..off + 8]);
  }
}
