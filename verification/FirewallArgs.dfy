/** firewall-lock's args: the TypeScript builder and the lock's parser. */
module FirewallArgs {
  import opened Bytes
  import opened Seqs
  import opened Buffer

  const INVALID_ARGS_LAYOUT := 5

  datatype RegistrySpec = RegistrySpec(codeHash: Bytes32, hashType: byte, typeId: Bytes32, required: bool)

  datatype LockArgs = LockArgs(
    version: byte, flags: byte, specs: seq<RegistrySpec>,
    innerCodeHash: Bytes32, innerHashType: byte, innerArgs: seq<byte>)

  /** `RegistrySpec::parse` on its 66 bytes: code_hash(32) | hash_type(1) | type_id_value(32) | required(1). */
  function ParseSpec(b: seq<byte>): RegistrySpec
    requires |b| == 66
  {
    RegistrySpec(b[0..32], b[32], b[33..65], b[65] != 0)
  }

  function ParseSpecs(b: seq<byte>, n: nat): (specs: seq<RegistrySpec>)
    requires |b| == 66 * n
    ensures |specs| == n
  {
    if n == 0 then [] else ParseSpecs(b[..66 * (n - 1)], n - 1) + [ParseSpec(b[66 * (n - 1)..])]
  }

  /** `FirewallLockArgs::parse`. */
  function Parse(args: seq<byte>): Result<LockArgs, int> {
    if |args| < 38 then Err(INVALID_ARGS_LAYOUT)
    else
      var count: nat := args[2];
      var end := 3 + count * 66;
      if |args| < end + 35 then Err(INVALID_ARGS_LAYOUT)
      else if |args| != end + 35 + U16At(args, end + 33) then Err(INVALID_ARGS_LAYOUT)
      else Ok(LockArgs(args[0], args[1], ParseSpecs(args[3..end], count), args[end..end + 32], args[end + 32],
        args[end + 35..]))
  }

  lemma Refused(args: seq<byte>)
    requires Parse(args).Err?
    ensures Parse(args) == Err(5)
  {
    hide U16At, ParseSpecs;
  }

  /** `FirewallLockArgs::parse` with its loop over the specs. */
  method ParseArgs(args: seq<byte>) returns (r: Result<LockArgs, int>)
    ensures r == Parse(args)
  {
    hide U16At, ParseSpec;
    if |args| < 38 {
      return Err(INVALID_ARGS_LAYOUT);
    }
    var registryCount: nat := args[2];
    var registriesEnd := 3 + registryCount * 66;
    if |args| < registriesEnd + 35 {
      return Err(INVALID_ARGS_LAYOUT);
    }
    var registries := TakeSpecs(args, registryCount);
    var innerArgsLen := U16At(args, registriesEnd + 33);
    if |args| != registriesEnd + 35 + innerArgsLen {
      return Err(INVALID_ARGS_LAYOUT);
    }
    return Ok(LockArgs(args[0], args[1], registries, args[registriesEnd..registriesEnd + 32], args[registriesEnd + 32],
                       args[registriesEnd + 35..]));
  }

  method TakeSpecs(args: seq<byte>, count: nat) returns (registries: seq<RegistrySpec>)
    requires 3 + count * 66 <= |args|
    ensures registries == ParseSpecs(args[3..3 + count * 66], count)
  {
    hide ParseSpec;
    registries := [];
    for i := 0 to count
      invariant registries == ParseSpecs(args[3..3 + i * 66], i)
    {
      var start := 3 + i * 66;
      SliceOfSlice(args, 3, start + 66, 0, 66 * i);
      SliceOfSlice(args, 3, start + 66, 66 * i, 66 * (i + 1));
      registries := registries + [ParseSpec(args[start..start + 66])];
    }
  }

  // ---- the builder ----

  function EncodeSpec(s: RegistrySpec): (b: seq<byte>)
    ensures |b| == 66
  {
    s.codeHash + [s.hashType] + s.typeId + [if s.required then 1 else 0]
  }

  function EncodeSpecs(specs: seq<RegistrySpec>): (b: seq<byte>)
    ensures |b| == 66 * |specs|
  {
    if specs == [] then [] else EncodeSpecs(specs[..|specs| - 1]) + EncodeSpec(specs[|specs| - 1])
  }

  /** When `buildFirewallLockArgs` does not throw. */
  predicate Buildable(flags: byte, specs: seq<RegistrySpec>, innerArgs: seq<byte>) {
    flags % 4 != 0 && |specs| <= 255 && |innerArgs| <= 0xffff
  }

  /** The bytes it writes, for args of version 2. */
  function Encode(a: LockArgs): (b: seq<byte>)
    requires |a.specs| <= 255
    ensures |b| == 38 + 66 * |a.specs| + |a.innerArgs|
  {
    [0x02, a.flags, |a.specs|] + EncodeSpecs(a.specs)
    + (a.innerCodeHash + [a.innerHashType] + Le2(|a.innerArgs|) + a.innerArgs)
  }

  /** `buildFirewallLockArgs`: None where it throws. */
  method BuildFirewallLockArgs(
      flags: byte, specs: seq<RegistrySpec>, innerCodeHash: Bytes32, innerHashType: byte, innerArgs: seq<byte>)
    returns (r: Option<seq<byte>>)
    ensures r == if Buildable(flags, specs, innerArgs)
                 then Some(Encode(LockArgs(0x02, flags, specs, innerCodeHash, innerHashType, innerArgs))) else None
  {
    hide Written, Le2, EncodeSpecs;
    if flags % 4 == 0 || |specs| > 255 || |innerArgs| > 0xffff {
      return None;
    }
    var n := |specs|;
    var buf := new byte[3 + n * 66 + 32 + 1 + 2 + |innerArgs|](_ => 0);
    AllWritten(buf);
    ghost var head := [0x02, flags, n];
    var off := Append(buf, 0, [0x02, flags, n]);
    off := PutSpecs(buf, off, specs, head);
    off := Append(buf, off, innerCodeHash);
    off := Append(buf, off, [innerHashType]);
    off := Append(buf, off, Le2(|innerArgs|));
    off := Append(buf, off, innerArgs);
    FourMore<byte>(head + EncodeSpecs(specs), innerCodeHash, [innerHashType], Le2(|innerArgs|), innerArgs);
    AllWritten(buf);
    return Some(buf[..]);
  }

  lemma FourMore<T>(o: seq<T>, a: seq<T>, b: seq<T>, c: seq<T>, d: seq<T>)
    ensures o + a + b + c + d == o + (a + b + c + d)
  {
  }

  /** The loop over the registries. */
  method PutSpecs(buf: array<byte>, start: nat, specs: seq<RegistrySpec>, ghost before: seq<byte>) returns (off: nat)
    requires start + 66 * |specs| <= buf.Length && Written(buf, start) == before
    modifies buf
    ensures off == start + 66 * |specs| && Written(buf, off) == before + EncodeSpecs(specs)
  {
    hide Written;
    off := start;
    for i := 0 to |specs|
      invariant off == start + 66 * i
      invariant Written(buf, off) == before + EncodeSpecs(specs[..i])
    {
      assert specs[..i + 1][..i] == specs[..i];
      var reg := specs[i];
      off := Append(buf, off, reg.codeHash);
      off := Append(buf, off, [reg.hashType]);
      off := Append(buf, off, reg.typeId);
      off := Append(buf, off, [if reg.required then 1 else 0]);
      SpecAppended<byte>(before, EncodeSpecs(specs[..i]), reg.codeHash, [reg.hashType], reg.typeId,
                         [if reg.required then 1 else 0]);
    }
    assert specs[..|specs|] == specs;
  }

  lemma SpecAppended<T>(o: seq<T>, p: seq<T>, a: seq<T>, b: seq<T>, c: seq<T>, d: seq<T>)
    ensures o + p + a + b + c + d == o + (p + (a + b + c + d))
  {
  }

  // ---- round trip ----

  lemma SpecRead(s: RegistrySpec)
    ensures ParseSpec(EncodeSpec(s)) == s
  {
    var flag: byte := if s.required then 1 else 0;
    SpecParts<byte>(EncodeSpec(s), s.codeHash, [s.hashType], s.typeId, [flag]);
  }

  lemma SpecParts<T>(s: seq<T>, a: seq<T>, b: seq<T>, c: seq<T>, d: seq<T>)
    requires s == a + b + c + d && |a| == |c| == 32 && |b| == |d| == 1
    ensures s[0..32] == a && s[32] == b[0] && s[33..65] == c && s[65] == d[0]
  {
  }

  lemma {:induction false} SpecsRead(specs: seq<RegistrySpec>)
    ensures ParseSpecs(EncodeSpecs(specs), |specs|) == specs
  {
    hide EncodeSpec, ParseSpec;
    if specs != [] {
      var (init, last) := (specs[..|specs| - 1], specs[|specs| - 1]);
      SpecsRead(init);
      SpecRead(last);
      Parts(EncodeSpecs(specs), EncodeSpecs(init), EncodeSpec(last), []);
      Nil(EncodeSpecs(specs));
      InitLast(specs);
    }
  }

  /** The lock reads back exactly the args that were built. */
  lemma RoundTrip(a: LockArgs)
    requires a.version == 0x02 && |a.specs| <= 255 && |a.innerArgs| <= 0xffff
    ensures Parse(Encode(a)) == Ok(a)
  {
    hide EncodeSpecs, ParseSpecs, Le2;
    var b := Encode(a);
    var n := |a.specs|;
    var (head, tail) := ([0x02, a.flags, n as byte],
      a.innerCodeHash + [a.innerHashType] + Le2(|a.innerArgs|) + a.innerArgs);
    Parts(b, head, EncodeSpecs(a.specs), tail);
    var end := 3 + 66 * n;
    TailParts<byte>(tail, a.innerCodeHash, [a.innerHashType], Le2(|a.innerArgs|), a.innerArgs);
    SliceOfDrop(b, end, 0, 32);
    SliceOfDrop(b, end, 33, 35);
    DropTwice(b, end, 35);
    U16Written(b, end + 33, |a.innerArgs|);
    assert b[end + 32] == b[end..][32];
    SpecsRead(a.specs);
  }

  lemma TailParts<T>(s: seq<T>, a: seq<T>, b: seq<T>, c: seq<T>, d: seq<T>)
    requires s == a + b + c + d && |a| == 32 && |b| == 1 && |c| == 2
    ensures s[0..32] == a && s[32] == b[0] && s[33..35] == c && s[35..] == d
  {
  }
}
