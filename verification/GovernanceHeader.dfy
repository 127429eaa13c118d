/** The governance header inside a BLKL payload, and its four independent readers. */
module GovernanceHeader {
  import opened Bytes
  import opened Seqs
  import opened Buffer
  import opened Molecule
  import RF = RegistryFormat

  const ERR_INVALID_BLKL := 2
  const ERR_REGISTRY_PAYLOAD := 22
  const ERR_REGISTRY_DATA := 9

  // ---- governance-lock ----

  datatype LockHeader = LockHeader(threshold: byte, validatorCount: u16, root: Bytes32)

  /** End of the legacy signer block: 3 + 33 bytes a signer. */
  function PubkeysEnd(gh: seq<byte>): nat
    requires |gh| >= 3
  {
    var signers: nat := gh[1];
    3 + signers * 33
  }

  /** The header slice of a payload whose magic, version and length field are in order. */
  function HeaderSlice(data: seq<byte>): Option<seq<byte>> {
    if |data| < 11 || data[0..4] != RF.BLKL || data[4] != 0x02 then None
    else if 7 + U16At(data, 5) > |data| then None
    else Some(data[7..7 + U16At(data, 5)])
  }

  /** A header is found iff the payload has room for a count and begins with magic, version, length and header. */
  lemma HeaderSliceExact(data: seq<byte>, gh: seq<byte>)
    ensures HeaderSlice(data) == Some(gh)
       <==> |data| >= 11 && |gh| < 0x1_0000 && 7 + |gh| <= |data|
            && data[..7 + |gh|] == [0x42, 0x4c, 0x4b, 0x4c, 2] + Le2(|gh|) + gh
  {
    hide Le2, U16At;
    if |data| >= 11 {
      U16Bytes(data, 5);
      if |gh| < 0x1_0000 && 7 + |gh| <= |data| {
        HeadSplit(data[..7 + |gh|], [0x42, 0x4c, 0x4b, 0x4c, 2], Le2(|gh|), gh);
        SliceOfSlice(data, 0, 7 + |gh|, 5, 7);
        SliceOfSlice(data, 0, 7 + |gh|, 7, 7 + |gh|);
        assert data[..7 + |gh|][..5] == data[..5] == data[0..4] + [data[4]];
        if data[5..7] == Le2(|gh|) {
          U16Written(data, 5, |gh|);
        }
      }
    }
  }

  lemma HeadSplit<T>(s: seq<T>, a: seq<T>, b: seq<T>, c: seq<T>)
    requires |s| == |a| + |b| + |c|
    ensures s == a + b + c <==> s[..|a|] == a && s[|a|..|a| + |b|] == b && s[|a| + |b|..] == c
  {
    assert s == s[..|a|] + s[|a|..|a| + |b|] + s[|a| + |b|..];
    if s == a + b + c {
      Parts(s, a, b, c);
    }
  }

  function LockHeaderOf(gh: seq<byte>): Result<LockHeader, int> {
    if |gh| < 3 || (gh[0] != 0x01 && gh[0] != 0x02 && gh[0] != 0x03) then Err(ERR_INVALID_BLKL)
    else
      var end := PubkeysEnd(gh);
      if end + 34 > |gh| then Err(ERR_INVALID_BLKL)
      else if gh[0] == 0x02 && end + 34 + 32 > |gh| then Err(ERR_INVALID_BLKL)
      else if gh[0] == 0x03 && end + 34 + 2 > |gh| then Err(ERR_INVALID_BLKL)
      else if gh[0] == 0x03 && end + 34 + 2 + U16At(gh, end + 34) != |gh| then Err(ERR_INVALID_BLKL)
      else
        var (threshold, count) := (gh[2], U16At(gh, end));
        if threshold == 0 || count == 0 || threshold > count then Err(ERR_INVALID_BLKL)
        else Ok(LockHeader(threshold, count, gh[end + 2..end + 34]))
  }

  /** `parse_governance_header` of governance-lock. */
  function ParseLockHeader(data: seq<byte>): Result<LockHeader, int> {
    match HeaderSlice(data)
    case None => Err(ERR_INVALID_BLKL)
    case Some(gh) => LockHeaderOf(gh)
  }

  // ---- blacklist-registry ----

  function TreasuryHashOf(gh: seq<byte>, blake: Hasher): Result<Option<Bytes32>, int> {
    if |gh| < 3 || (gh[0] != 0x01 && gh[0] != 0x02 && gh[0] != 0x03) then Err(ERR_REGISTRY_PAYLOAD)
    else
      var baseEnd := PubkeysEnd(gh) + 2 + 32;
      if baseEnd > |gh| then Err(ERR_REGISTRY_PAYLOAD)
      else if gh[0] == 0x01 then Ok(None)
      else if gh[0] == 0x02 then
        if baseEnd + 32 > |gh| then Err(ERR_REGISTRY_PAYLOAD) else Ok(Some(gh[baseEnd..baseEnd + 32]))
      else if baseEnd + 2 > |gh| then Err(ERR_REGISTRY_PAYLOAD)
      else
        var len := U16At(gh, baseEnd);
        if baseEnd + 2 + len != |gh| || len == 0 then Err(ERR_REGISTRY_PAYLOAD)
        else Ok(Some(blake(gh[baseEnd + 2..])))
  }

  /** `parse_treasury_lock_hash` of blacklist-registry. */
  function ParseTreasuryHash(data: seq<byte>, blake: Hasher): Result<Option<Bytes32>, int> {
    match HeaderSlice(data)
    case None => Err(ERR_REGISTRY_PAYLOAD)
    case Some(gh) => TreasuryHashOf(gh, blake)
  }

  lemma TreasuryRefused(data: seq<byte>, blake: Hasher)
    requires ParseTreasuryHash(data, blake).Err?
    ensures ParseTreasuryHash(data, blake) == Err(22)
  {
    hide HeaderSlice;
  }

  // ---- Rust SDK ----

  datatype SdkHeader = SdkHeader(signerCount: byte, threshold: byte, pubkeys: seq<Pubkey>, validatorCount: u16,
        root: Bytes32)

  /** Consecutive 33-byte keys. */
  function SplitKeys(b: seq<byte>, n: nat): (ks: seq<Pubkey>)
    requires |b| == 33 * n
    ensures |ks| == n
  {
    if n == 0 then [] else SplitKeys(b[..33 * (n - 1)], n - 1) + [b[33 * (n - 1)..]]
  }

  function JoinKeys(ks: seq<Pubkey>): (b: seq<byte>)
    ensures |b| == 33 * |ks|
  {
    if ks == [] then [] else JoinKeys(ks[..|ks| - 1]) + ks[|ks| - 1]
  }

  function SdkHeaderOf(gh: seq<byte>): Result<SdkHeader, int> {
    if |gh| < 3 || (gh[0] != 0x01 && gh[0] != 0x02 && gh[0] != 0x03) then Err(ERR_REGISTRY_DATA)
    else
      var end := PubkeysEnd(gh);
      if end + 2 + 32 > |gh| then Err(ERR_REGISTRY_DATA)
      else Ok(SdkHeader(gh[1], gh[2], SplitKeys(gh[3..end], gh[1]), U16At(gh, end), gh[end + 2..end + 34]))
  }

  lemma SdkRefused(gh: seq<byte>)
    requires SdkHeaderOf(gh).Err?
    ensures SdkHeaderOf(gh) == Err(9)
  {
    hide SplitKeys, U16At;
  }

  /** `parse_governance_header` of the Rust SDK, with absolute offsets and a loop over the keys. */
  method ParseSdkHeader(data: seq<byte>, offset: nat, govLen: nat) returns (r: Result<SdkHeader, int>)
    ensures r == if |data| < offset + govLen then Err(ERR_REGISTRY_DATA)
                 else SdkHeaderOf(data[offset..offset + govLen])
  {
    hide SplitKeys;
    if |data| < offset + govLen || govLen < 3 {
      return Err(ERR_REGISTRY_DATA);
    }
    ghost var gh := data[offset..offset + govLen];
    if data[offset] != 0x01 && data[offset] != 0x02 && data[offset] != 0x03 {
      return Err(ERR_REGISTRY_DATA);
    }
    var signerCount: nat := data[offset + 1];
    var pubkeysEnd := offset + 3 + signerCount * 33;
    if pubkeysEnd + 2 + 32 > offset + govLen {
      return Err(ERR_REGISTRY_DATA);
    }
    var pubkeys := TakeKeys(data, offset + 3, signerCount);
    SliceOfSlice(data, offset, offset + govLen, 3, 3 + signerCount * 33);
    SliceOfSlice(data, offset, offset + govLen, pubkeysEnd - offset, pubkeysEnd - offset + 2);
    SliceOfSlice(data, offset, offset + govLen, pubkeysEnd - offset + 2, pubkeysEnd - offset + 34);
    return Ok(SdkHeader(data[offset + 1], data[offset + 2], pubkeys, U16At(data, pubkeysEnd),
                        data[pubkeysEnd + 2..pubkeysEnd + 34]));
  }

  /** The loop over the legacy keys. */
  method TakeKeys(data: seq<byte>, from: nat, count: nat) returns (pubkeys: seq<Pubkey>)
    requires from + 33 * count <= |data|
    ensures pubkeys == SplitKeys(data[from..from + 33 * count], count)
  {
    pubkeys := [];
    for i := 0 to count
      invariant pubkeys == SplitKeys(data[from..from + 33 * i], i)
    {
      var start := from + i * 33;
      SliceOfSlice(data, from, from + 33 * (i + 1), 0, 33 * i);
      SliceOfSlice(data, from, from + 33 * (i + 1), 33 * i, 33 * (i + 1));
      pubkeys := pubkeys + [data[start..start + 33]];
    }
  }

  /** `encode_governance_header` of the Rust SDK: always version 1. */
  function SdkEncodeHeader(h: SdkHeader): seq<byte> {
    [0x01, h.signerCount, h.threshold] + JoinKeys(h.pubkeys) + (Le2(h.validatorCount) + h.root)
  }

  lemma {:induction false} SplitOfJoin(ks: seq<Pubkey>)
    ensures SplitKeys(JoinKeys(ks), |ks|) == ks
  {
    if ks != [] {
      var init := ks[..|ks| - 1];
      SplitOfJoin(init);
      Parts(JoinKeys(ks), JoinKeys(init), ks[|ks| - 1], []);
      Nil(JoinKeys(ks));
      assert ks == init + [ks[|ks| - 1]];
    }
  }

  /** The SDK reads back every header it writes whose signer count matches its keys. */
  lemma SdkHeaderRoundTrip(h: SdkHeader)
    requires h.signerCount == |h.pubkeys|
    ensures SdkHeaderOf(SdkEncodeHeader(h)) == Ok(h)
  {
    hide SplitKeys, JoinKeys, Le2, U16At;
    var gh := SdkEncodeHeader(h);
    var (a, b, c) := ([0x01, h.signerCount, h.threshold], JoinKeys(h.pubkeys), Le2(h.validatorCount) + h.root);
    Parts(gh, a, b, c);
    var end := PubkeysEnd(gh);
    assert gh[end..end + 2] == c[..2] && gh[end + 2..end + 34] == c[2..34] == h.root by {
      SliceOfDrop(gh, end, 0, 2);
      SliceOfDrop(gh, end, 2, 34);
    }
    U16Written(gh, end, h.validatorCount);
    SplitOfJoin(h.pubkeys);
  }

  // ---- CLI ----

  datatype CliHeader = CliHeader(
    threshold: byte, validatorCount: u16, root: Bytes32,
    treasuryLockHash: Option<Bytes32>, treasuryLockScript: Option<Script>)

  function CliSuffix(h: CliHeader): seq<byte> {
    if h.treasuryLockScript.Some? then
      var s := EncodeScript(h.treasuryLockScript.value);
      Le2(|s|) + s
    else if h.treasuryLockHash.Some? then h.treasuryLockHash.value
    else []
  }

  function CliVersion(h: CliHeader): byte {
    if h.treasuryLockScript.Some? then 0x03 else if h.treasuryLockHash.Some? then 0x02 else 0x01
  }

  /** The bytes `encodeGovernanceHeader` of the CLI writes: no legacy signers, and a suffix by version. */
  function CliEncodeHeader(h: CliHeader): (b: seq<byte>)
    ensures |b| == 37 + |CliSuffix(h)|
  {
    [CliVersion(h), 0, h.threshold] + (Le2(h.validatorCount) + h.root) + CliSuffix(h)
  }

  /** `encodeGovernanceHeader` of the CLI: the buffer and the moving offset. */
  method CliEncodeHeaderBuffer(h: CliHeader) returns (buf: array<byte>)
    ensures fresh(buf) && buf[..] == CliEncodeHeader(h)
  {
    hide Written, Le2, EncodeScript;
    var script: seq<byte> := [];
    if h.treasuryLockScript.Some? {
      var out := ScriptToMoleculeBytes(h.treasuryLockScript.value);
      script := out[..];
    }
    var size := 37
      + (if h.treasuryLockHash.Some? && h.treasuryLockScript.None? then 32 else 0)
      + (if h.treasuryLockScript.Some? then 2 + |script| else 0);
    buf := new byte[size](_ => 0);
    var off := 0;
    AllWritten(buf);
    off := Append(buf, off, [CliVersion(h), 0, h.threshold]);
    off := Append(buf, off, Le2(h.validatorCount));
    off := Append(buf, off, h.root);
    if h.treasuryLockScript.Some? {
      off := Append(buf, off, Le2(|script|));
      off := Append(buf, off, script);
    } else if h.treasuryLockHash.Some? {
      off := Append(buf, off, h.treasuryLockHash.value);
    }
    Regroup<byte>([CliVersion(h), 0, h.threshold], Le2(h.validatorCount), h.root, Le2(|script|), script);
    AllWritten(buf);
  }

  lemma Regroup<T>(a: seq<T>, b: seq<T>, c: seq<T>, d: seq<T>, e: seq<T>)
    ensures a + b + c == a + (b + c)
    ensures a + b + c + d + e == a + (b + c) + (d + e)
  {
  }

  /** `parseGovernanceHeader` of the CLI. */
  function CliParseHeader(raw: seq<byte>): Option<CliHeader> {
    if |raw| < 3 || (raw[0] != 0x01 && raw[0] != 0x02 && raw[0] != 0x03) then None
    else
      var end := PubkeysEnd(raw);
      var baseEnd := end + 2 + 32;
      if |raw| < baseEnd then None
      else
        var (count, root) := (U16At(raw, end), raw[end + 2..end + 34]);
        if raw[0] == 0x02 then
          if |raw| < baseEnd + 32 then None
          else Some(CliHeader(raw[2], count, root, Some(raw[baseEnd..baseEnd + 32]), None))
        else if raw[0] == 0x03 then
          if baseEnd + 2 > |raw| || baseEnd + 2 + U16At(raw, baseEnd) != |raw| then None
          else
            match DecodeScript(raw[baseEnd + 2..])
            case None => None
            case Some(s) => Some(CliHeader(raw[2], count, root, None, Some(s)))
        else Some(CliHeader(raw[2], count, root, None, None))
  }

  /** `governanceTreasuryLockHash`: the stored hash, or the hash of the stored script. */
  function CliTreasuryHash(h: CliHeader, blake: Hasher): Option<Bytes32> {
    if h.treasuryLockHash.Some? then h.treasuryLockHash
    else if h.treasuryLockScript.Some? then Some(blake(EncodeScript(h.treasuryLockScript.value)))
    else None
  }

  // ---- the readers agree ----

  /** A v3 header whose script length field is zero: the one header only the registry refuses. */
  predicate EmptyTreasuryScript(gh: seq<byte>) {
    |gh| >= 3 && gh[0] == 0x03 && PubkeysEnd(gh) + 36 == |gh| && U16At(gh, PubkeysEnd(gh) + 34) == 0
  }

  /**
   * governance-lock accepts a header iff the SDK does, the threshold is met by the validator count,
   * and the registry reads a treasury from it (or the script is empty); the shared fields are the same.
   */
  lemma ReadersAgree(gh: seq<byte>, blake: Hasher)
    ensures LockHeaderOf(gh).Ok?
       <==> SdkHeaderOf(gh).Ok? && 1 <= SdkHeaderOf(gh).value.threshold <= SdkHeaderOf(gh).value.validatorCount
            && (TreasuryHashOf(gh, blake).Ok? || EmptyTreasuryScript(gh))
    ensures LockHeaderOf(gh).Ok? ==>
              var (l, s) := (LockHeaderOf(gh).value, SdkHeaderOf(gh).value);
              l == LockHeader(s.threshold, s.validatorCount, s.root)
    ensures TreasuryHashOf(gh, blake).Ok? ==> SdkHeaderOf(gh).Ok? && !EmptyTreasuryScript(gh)
  {
  }

  /** Whatever header the CLI parses, the SDK reads the same, and its treasury is the one the registry enforces. */
  lemma CliReadsWhatIsEnforced(gh: seq<byte>, blake: Hasher)
    requires CliParseHeader(gh).Some?
    ensures SdkHeaderOf(gh).Ok?
    ensures var (c, s) := (CliParseHeader(gh).value, SdkHeaderOf(gh).value);
            (c.threshold, c.validatorCount, c.root) == (s.threshold, s.validatorCount, s.root)
    ensures TreasuryHashOf(gh, blake) == Ok(CliTreasuryHash(CliParseHeader(gh).value, blake))
  {
    if gh[0] == 0x03 {
      EncodeOfDecodeScript(gh[PubkeysEnd(gh) + 36..]);
    }
  }

  /**
   * governance-lock accepts a header the CLI parses iff 1 <= threshold <= validator count, and reads the same fields.
   */
  lemma CliReadsWhatIsAuthorised(gh: seq<byte>)
    requires CliParseHeader(gh).Some?
    ensures var h := CliParseHeader(gh).value;
            LockHeaderOf(gh) == if 1 <= h.threshold <= h.validatorCount
              then Ok(LockHeader(h.threshold, h.validatorCount, h.root))
                                else Err(ERR_INVALID_BLKL)
  {
    hide DecodeScript, U16At;
  }

  /** A header the CLI can write without overflowing any length field. */
  predicate CliWritable(h: CliHeader) {
    (h.treasuryLockHash.None? || h.treasuryLockScript.None?) && 37 + |CliSuffix(h)| < 0x1_0000
  }

  lemma CliEncodedFields(h: CliHeader)
    ensures var gh := CliEncodeHeader(h);
            PubkeysEnd(gh) == 3 && gh[0] == CliVersion(h) && gh[2] == h.threshold
            && U16At(gh, 3) == h.validatorCount && gh[5..37] == h.root && gh[37..] == CliSuffix(h)
  {
    hide CliSuffix, Le2;
    var gh := CliEncodeHeader(h);
    var (a, b, c) := ([CliVersion(h), 0, h.threshold], Le2(h.validatorCount) + h.root, CliSuffix(h));
    Parts(gh, a, b, c);
    assert gh[3..5] == b[..2] && gh[5..37] == b[2..];
    U16Written(gh, 3, h.validatorCount);
  }

  lemma CliEncodedScript(h: CliHeader)
    requires CliWritable(h) && h.treasuryLockScript.Some?
    ensures var (gh, s) := (CliEncodeHeader(h), EncodeScript(h.treasuryLockScript.value));
            |gh| == 39 + |s| && U16At(gh, 37) == |s| && gh[39..] == s && |s| >= 53
  {
    hide EncodeScript, Le2;
    CliEncodedFields(h);
    var gh := CliEncodeHeader(h);
    var s := EncodeScript(h.treasuryLockScript.value);
    DropTwice(gh, 37, 2);
    assert gh[37..39] == gh[37..][..2];
    U16Written(gh, 37, |s|);
  }

  /** The CLI reads back every header it can write. */
  lemma CliHeaderRoundTrip(h: CliHeader)
    requires CliWritable(h)
    ensures CliParseHeader(CliEncodeHeader(h)) == Some(h)
  {
    hide EncodeScript, DecodeScript, CliEncodeHeader;
    CliEncodedFields(h);
    var gh := CliEncodeHeader(h);
    if h.treasuryLockScript.Some? {
      CliEncodedScript(h);
      DecodeOfEncodeScript(h.treasuryLockScript.value);
    } else if h.treasuryLockHash.Some? {
      assert gh[37..69] == gh[37..];
    }
  }

  /** governance-lock accepts a header written by the CLI iff 1 <= threshold <= validator count. */
  lemma CliHeaderAccepted(h: CliHeader)
    requires CliWritable(h)
    ensures LockHeaderOf(CliEncodeHeader(h))
         == if 1 <= h.threshold <= h.validatorCount then Ok(LockHeader(h.threshold, h.validatorCount, h.root))
            else Err(ERR_INVALID_BLKL)
  {
    hide EncodeScript;
    CliEncodedFields(h);
    if h.treasuryLockScript.Some? {
      CliEncodedScript(h);
    }
  }
}
