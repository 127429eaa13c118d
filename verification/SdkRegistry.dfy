/** The Rust SDK's own reader and writer of BLKL v2 payloads. */
module SdkRegistry {
  import opened Bytes
  import opened Seqs
  import RF = RegistryFormat
  import GH = GovernanceHeader

  const INVALID_REGISTRY_DATA := 9
  const REGISTRY_NOT_SORTED := 10

  datatype Payload = Payload(entries: seq<RF.Entry>, header: GH.SdkHeader)

  /** `parse_registry_payload`, in the order of its checks. */
  function Parse(data: seq<byte>): Result<Payload, int> {
    if |data| < 7 || data[0..4] != RF.BLKL || data[4] != 0x02 then Err(INVALID_REGISTRY_DATA)
    else if |data| < 7 + U16At(data, 5) + 4 then Err(INVALID_REGISTRY_DATA)
    else
      match GH.SdkHeaderOf(data[7..7 + U16At(data, 5)])
      case Err(_) => Err(INVALID_REGISTRY_DATA)
      case Ok(header) =>
        match RF.ParseEntries(data, 7 + U16At(data, 5), true)
        case Err(e) => Err(if e == RF.NotSorted then REGISTRY_NOT_SORTED else INVALID_REGISTRY_DATA)
        case Ok(entries) => Ok(Payload(entries, header))
  }

  /** `parse_registry_payload` with the header and entry loops. */
  method ParseRegistryPayload(data: seq<byte>) returns (r: Result<Payload, int>)
    ensures r == Parse(data)
  {
    hide U16At, GH.SdkHeaderOf, RF.ParseEntries;
    if |data| < 7 || data[0..4] != RF.BLKL || data[4] != 0x02 {
      return Err(INVALID_REGISTRY_DATA);
    }
    var govLen := U16At(data, 5);
    if |data| < 7 + govLen + 4 {
      return Err(INVALID_REGISTRY_DATA);
    }
    var header := GH.ParseSdkHeader(data, 7, govLen);
    if header.Err? {
      return Err(INVALID_REGISTRY_DATA);
    }
    var entries := RF.ParseEntriesLoop(data, 7 + govLen, true);
    if entries.Err? {
      return Err(if entries.error == RF.NotSorted then REGISTRY_NOT_SORTED else INVALID_REGISTRY_DATA);
    }
    return Ok(Payload(entries.value, header.value));
  }

  /** The header bytes written: the given header, or the placeholder with no signers and no validators. */
  function HeaderBytes(header: Option<GH.SdkHeader>): seq<byte> {
    match header
    case Some(h) => GH.SdkEncodeHeader(h)
    case None => [0x01, 0x00, 0x00, 0x00, 0x00] + ZERO_32
  }

  /** `encode_governance_header`: pushes the fields. */
  method EncodeGovernanceHeader(h: GH.SdkHeader) returns (out: seq<byte>)
    ensures out == GH.SdkEncodeHeader(h)
  {
    hide Le2;
    var start := [0x01, h.signerCount, h.threshold];
    out := start;
    for i := 0 to |h.pubkeys|
      invariant out == start + GH.JoinKeys(h.pubkeys[..i])
    {
      assert h.pubkeys[..i + 1][..i] == h.pubkeys[..i];
      Assoc(start, GH.JoinKeys(h.pubkeys[..i]), h.pubkeys[i]);
      out := out + h.pubkeys[i];
    }
    assert h.pubkeys[..|h.pubkeys|] == h.pubkeys;
    Assoc(out, Le2(h.validatorCount), h.root);
    out := out + Le2(h.validatorCount);
    out := out + h.root;
  }


  /** `encode_registry_payload`: appends to the output, and fails on the first identifier over 255 bytes. */
  method EncodeRegistryPayload(entries: seq<RF.Entry>, header: Option<GH.SdkHeader>) returns (r: Result<seq<byte>, int>)
    ensures r == if RF.WellSized(entries) then Ok(RF.EncodePayload(HeaderBytes(header), entries))
            else Err(INVALID_REGISTRY_DATA)
  {
    hide Le2, Le4, Le8, RF.EncodeEntries, GH.SdkEncodeHeader;
    var govBytes: seq<byte>;
    match header {
      case Some(h) => govBytes := EncodeGovernanceHeader(h);
      case None => govBytes := [0x01, 0x00, 0x00, 0x00, 0x00] + ZERO_32;
    }
    var out := RF.BLKL + [0x02] + Le2(|govBytes|) + govBytes + Le4(|entries|);
    ghost var start := out;
    NoEntries(start);
    for i := 0 to |entries|
      invariant RF.WellSized(entries[..i])
      invariant out == start + RF.EncodeEntries(entries[..i])
    {
      var entry := entries[i];
      assert entry in entries;
      if |entry.id| > 255 {
        return Err(INVALID_REGISTRY_DATA);
      }
      RF.EntriesSnoc(entries[..i], entry);
      assert entries[..i + 1] == entries[..i] + [entry];
      AppendEntry(start, RF.EncodeEntries(entries[..i]), entry);
      out := out + [|entry.id|];
      out := out + entry.id;
      out := out + Le8(entry.expiresAt);
    }
    assert entries[..|entries|] == entries;
    Assoc(RF.BLKL + [0x02] + Le2(|govBytes|) + govBytes, Le4(|entries|), RF.EncodeEntries(entries));
    return Ok(out);
  }

  lemma NoEntries(start: seq<byte>)
    ensures RF.EncodeEntries([]) == [] && start + [] == start
  {
    Nil(start);
  }

  lemma AppendEntry(start: seq<byte>, before: seq<byte>, e: RF.Entry)
    requires |e.id| <= 255
    ensures start + before + [|e.id|] + e.id + Le8(e.expiresAt) == start + (before + RF.EncodeEntry(e))
  {
    FiveParts<byte>(start, before, [|e.id|], e.id, Le8(e.expiresAt));
  }

  lemma FiveParts<T>(a: seq<T>, b: seq<T>, c: seq<T>, d: seq<T>, e: seq<T>)
    ensures a + b + c + d + e == a + (b + (c + d + e))
  {
  }

  /**
   * Writing then reading is the identity exactly on canonical entries under a header whose signer count matches its
   * keys.
   */
  lemma RoundTripExact(p: Payload)
    requires RF.WellSized(p.entries)
    ensures Parse(RF.EncodePayload(HeaderBytes(Some(p.header)), p.entries)) == Ok(p)
       <==> RF.Canonical(p.entries) && p.header.signerCount == |p.header.pubkeys|
  {
    hide Parse, RF.EncodePayload, GH.SdkEncodeHeader, RF.WellSized, RF.Ascending;
    if RF.Canonical(p.entries) && p.header.signerCount == |p.header.pubkeys| {
      WrittenIsRead(p);
    }
    if Parse(RF.EncodePayload(HeaderBytes(Some(p.header)), p.entries)) == Ok(p) {
      ReadIsCanonical(RF.EncodePayload(HeaderBytes(Some(p.header)), p.entries));
    }
  }

  lemma WrittenIsRead(p: Payload)
    requires RF.Canonical(p.entries) && p.header.signerCount == |p.header.pubkeys|
    ensures Parse(RF.EncodePayload(GH.SdkEncodeHeader(p.header), p.entries)) == Ok(p)
  {
    hide RF.ParseEntries, RF.EntryBlock, GH.SdkHeaderOf, GH.SdkEncodeHeader, RF.WellSized, RF.Ascending,
      RF.ReadEntries;
    var gh := GH.SdkEncodeHeader(p.header);
    var d := RF.EncodePayload(gh, p.entries);
    HeaderLength(p.header);
    RF.PayloadFields(gh, p.entries, []);
    Nil(d);
    Nil(RF.EntryBlock(p.entries));
    RF.StrictExact(d, 7 + |gh|, p.entries);
    RF.BlockIsRead(d, 7 + |gh|, p.entries, []);
    GH.SdkHeaderRoundTrip(p.header);
  }

  lemma ReadIsCanonical(d: seq<byte>)
    requires Parse(d).Ok?
    ensures RF.Canonical(Parse(d).value.entries)
    ensures Parse(d).value.header.signerCount == |Parse(d).value.header.pubkeys|
  {
    hide RF.ParseEntries, GH.SdkHeaderOf, RF.Ascending, RF.ReadEntries, RF.EntryBlock;
    RF.ReadIsBlock(d, 7 + U16At(d, 5), true);
    SignersMatch(d[7..7 + U16At(d, 5)]);
  }

  lemma HeaderLength(h: GH.SdkHeader)
    requires h.signerCount == |h.pubkeys|
    ensures |GH.SdkEncodeHeader(h)| == 37 + 33 * |h.pubkeys| < 0x1_0000
  {
  }

  lemma SignersMatch(gh: seq<byte>)
    requires GH.SdkHeaderOf(gh).Ok?
    ensures GH.SdkHeaderOf(gh).value.signerCount == |GH.SdkHeaderOf(gh).value.pubkeys|
  {
  }

  /** A payload written without a header is read back with the placeholder: no signers, threshold and count zero. */
  lemma PlaceholderIsRead(es: seq<RF.Entry>)
    requires RF.Canonical(es)
    ensures Parse(RF.EncodePayload(HeaderBytes(None), es)) == Ok(Payload(es, GH.SdkHeader(0, 0, [], 0, ZERO_32)))
  {
    var h := GH.SdkHeader(0, 0, [], 0, ZERO_32);
    assert HeaderBytes(None) == GH.SdkEncodeHeader(h) by { Placeholder(h); }
    RoundTripExact(Payload(es, h));
  }

  lemma Placeholder(h: GH.SdkHeader)
    requires h == GH.SdkHeader(0, 0, [], 0, ZERO_32)
    ensures HeaderBytes(None) == GH.SdkEncodeHeader(h)
  {
    assert Le2(0) == [0, 0] by { assert Le(0, 2) == [0] + Le(0, 1) && Le(0, 1) == [0] + Le(0, 0); }
    assert GH.JoinKeys([]) == [];
  }

  /** The shared decoder's error as the SDK reports it: one code for everything but the order. */
  function SdkCode(e: RF.ParseError): int {
    if e == RF.NotSorted then REGISTRY_NOT_SORTED else INVALID_REGISTRY_DATA
  }

  /** The header slice, where the payload is long enough to have one, is one the SDK reads. */
  predicate HeaderReadable(data: seq<byte>) {
    |data| >= 7 && |data| >= 7 + U16At(data, 5) + 4 ==> GH.SdkHeaderOf(data[7..7 + U16At(data, 5)]).Ok?
  }

  /**
   * The SDK reads a payload iff the strict on-chain decoder does and the header is readable, and then the same
   * entries; on a readable header the two fail together, the SDK with its coarser code.
   */
  lemma SameAsChain(data: seq<byte>)
    ensures Parse(data).Ok? <==> RF.ParseStrict(data).Ok? && HeaderReadable(data)
    ensures Parse(data).Ok? ==> Parse(data).value.entries == RF.ParseStrict(data).value.entries
    ensures HeaderReadable(data) && RF.ParseStrict(data).Err? ==>
            Parse(data) == Err(SdkCode(RF.ParseStrict(data).error))
  {
    hide GH.SdkHeaderOf, U16At, RF.Ascending, RF.ReadEntries;
  }
}
