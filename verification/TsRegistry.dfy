/** The TypeScript SDK's reader of BLKL v2 payloads, which the CLI works with. */
module TsRegistry {
  import opened Bytes
  import RF = RegistryFormat
  import GH = GovernanceHeader

  datatype Payload = Payload(entries: seq<RF.Entry>, headerVersion: byte, header: GH.SdkHeader)

  /** `parseGovernanceHeader` of the TypeScript SDK: any version byte, and bounds on the data, not on the header. */
  function HeaderAt(data: seq<byte>, offset: nat): Option<(byte, GH.SdkHeader)> {
    if offset + 3 > |data| then None
    else
      var signers: nat := data[offset + 1];
      var end := offset + 3 + 33 * signers;
      if end + 2 + 32 > |data| then None
      else Some((data[offset], GH.SdkHeader(data[offset + 1], data[offset + 2],
        GH.SplitKeys(data[offset + 3..end], signers),
                                            U16At(data, end), data[end + 2..end + 34])))
  }

  /** The entries behind the count field; no guard on the count, and whatever follows them is ignored. */
  function EntriesAt(data: seq<byte>, offset: nat): Option<seq<RF.Entry>>
    requires offset + 4 <= |data|
  {
    match RF.ReadEntries(data[offset + 4..], U32At(data, offset))
    case None => None
    case Some((es, _)) => if RF.Ascending(es) then Some(es) else None
  }

  /** `parseRegistryPayload` of the TypeScript SDK; None where it throws. */
  function Parse(data: seq<byte>): Option<Payload> {
    if |data| < 9 || data[0..4] != RF.BLKL || data[4] != 0x02 then None
    else if |data| < 7 + U16At(data, 5) + 4 then None
    else
      match HeaderAt(data, 7)
      case None => None
      case Some((version, header)) =>
        match EntriesAt(data, 7 + U16At(data, 5))
        case None => None
        case Some(entries) => Some(Payload(entries, version, header))
  }

  /** The entry loop: moves `offset` over the data and pushes entries, then checks their order. */
  method EntryLoop(data: seq<byte>, start: nat) returns (r: Option<seq<RF.Entry>>)
    requires start + 4 <= |data|
    ensures r == EntriesAt(data, start)
  {
    hide RF.ReadEntries, RF.HasEntry, RF.FirstEntry, RF.EntryEnd, RF.Ascending;
    var count := U32At(data, start);
    var offset := start + 4;
    var entries: seq<RF.Entry> := [];
    ghost var whole := RF.ReadEntries(data[start + 4..], count);
    RF.PrependNothing(whole);
    for i := 0 to count
      invariant start + 4 <= offset <= |data|
      invariant whole == RF.Prepend(entries, RF.ReadEntries(data[offset..], count - i))
    {
      RF.EntryAt(data, offset);
      RF.PrependStep(entries, data[offset..], count - i);
      if offset >= |data| {
        return None;
      }
      var idLen: nat := data[offset];
      offset := offset + 1;
      if offset + idLen + 8 > |data| {
        return None;
      }
      var id := data[offset..offset + idLen];
      offset := offset + idLen;
      var expiresAt := U64At(data, offset);
      offset := offset + 8;
      entries := entries + [RF.Entry(id, expiresAt)];
    }
    RF.PrependToNothing(entries, data[offset..]);
    var ordered := RF.InOrder(entries);
    return if ordered then Some(entries) else None;
  }

  /** `parseRegistryPayload` with its loops over keys and entries. */
  method ParseRegistryPayload(data: seq<byte>) returns (r: Option<Payload>)
    ensures r == Parse(data)
  {
    hide U16At, EntriesAt, GH.SplitKeys;
    if |data| < 9 || data[0..4] != RF.BLKL || data[4] != 0x02 {
      return None;
    }
    var govLen := U16At(data, 5);
    if |data| < 7 + govLen + 4 {
      return None;
    }
    if 7 + 3 > |data| {
      return None;
    }
    var signers: nat := data[8];
    var pos := 10;
    if pos + 33 * signers + 2 + 32 > |data| {
      return None;
    }
    var pubkeys := GH.TakeKeys(data, pos, signers);
    pos := pos + 33 * signers;
    var header := GH.SdkHeader(data[8], data[9], pubkeys, U16At(data, pos), data[pos + 2..pos + 34]);
    var entries := EntryLoop(data, 7 + govLen);
    return match entries case None => None case Some(es) => Some(Payload(es, data[7], header));
  }

  /** Leaving out the guard on the count changes nothing: a count the guard refuses runs past the end. */
  lemma GuardIsRedundant(data: seq<byte>, offset: nat)
    requires offset + 4 <= |data|
    ensures EntriesAt(data, offset).Some? <==> RF.ParseEntries(data, offset, false).Ok?
    ensures EntriesAt(data, offset).Some? ==> RF.ParseEntries(data, offset, false) == Ok(EntriesAt(data, offset).value)
  {
    hide RF.ReadEntries, RF.Ascending, RF.EncodeEntries;
    var count := U32At(data, offset);
    if RF.ReadEntries(data[offset + 4..], count).Some? {
      RF.EncodeOfRead(data[offset + 4..], count);
      RF.EncodedLength(RF.ReadEntries(data[offset + 4..], count).value.0);
    }
  }

  /**
   * The TypeScript reader returns a list iff the payload is the encoding of some header and that canonical list
   * followed by any bytes, and its header reader finds a header in the data.
   */
  lemma ParseExact(data: seq<byte>, es: seq<RF.Entry>)
    ensures Parse(data).Some? && Parse(data).value.entries == es
       <==> RF.Canonical(es) && HeaderAt(data, 7).Some?
            && exists header :: |header| < 0x1_0000 && RF.EncodePayload(header, es) <= data
  {
    hide RF.EncodePayload, EntriesAt, HeaderAt, RF.ParseEntries, RF.EntryBlock, RF.Ascending, RF.WellSized;
    if Parse(data).Some? && Parse(data).value.entries == es {
      ParsedPrefix(data);
    }
    if RF.Canonical(es) && HeaderAt(data, 7).Some? {
      forall header | |header| < 0x1_0000 && RF.EncodePayload(header, es) <= data
        ensures Parse(data).Some? && Parse(data).value.entries == es
      {
        ReadsPrefix(data, header, es);
      }
    }
  }

  /** What was read stands at the front of the data under the header the length field delimits. */
  lemma ParsedPrefix(data: seq<byte>)
    requires Parse(data).Some?
    ensures RF.Canonical(Parse(data).value.entries) && |data| >= 11 && 7 + U16At(data, 5) <= |data|
    ensures RF.EncodePayload(data[7..7 + U16At(data, 5)], Parse(data).value.entries) <= data
  {
    hide RF.EncodePayload, EntriesAt, HeaderAt, RF.ParseEntries, RF.EntryBlock, RF.Ascending, RF.WellSized;
    var (n, es) := (U16At(data, 5), Parse(data).value.entries);
    GuardIsRedundant(data, 7 + n);
    RF.LenientExact(data, 7 + n, es);
    PrefixOfSplit(data, es);
  }

  lemma PrefixOfSplit(data: seq<byte>, es: seq<RF.Entry>)
    requires |data| >= 11 && data[0..4] == RF.BLKL && data[4] == 0x02 && 7 + U16At(data, 5) <= |data|
    requires RF.WellSized(es) && RF.EntryBlock(es) <= data[7 + U16At(data, 5)..]
    ensures RF.EncodePayload(data[7..7 + U16At(data, 5)], es) <= data
  {
    hide RF.EntryBlock, U16At;
    RF.PayloadSplit(data);
    var n := U16At(data, 5);
    PrefixOfRest(RF.BLKL + [0x02] + Le2(n) + data[7..7 + n], data[7 + n..], RF.EntryBlock(es));
  }

  lemma PrefixOfRest<T>(a: seq<T>, b: seq<T>, c: seq<T>)
    requires c <= b
    ensures a + c <= a + b
  {
  }

  /** An encoded canonical payload, whatever follows it, is read back. */
  lemma ReadsPrefix(data: seq<byte>, header: seq<byte>, es: seq<RF.Entry>)
    requires RF.Canonical(es) && |header| < 0x1_0000 && RF.EncodePayload(header, es) <= data
    requires HeaderAt(data, 7).Some?
    ensures Parse(data).Some? && Parse(data).value.entries == es
    ensures U16At(data, 5) == |header| && |data| >= 7 + |header| && data[7..7 + |header|] == header
  {
    hide EntriesAt, HeaderAt, RF.ParseEntries, RF.EntryBlock, RF.Ascending, RF.WellSized;
    var d := RF.EncodePayload(header, es);
    var more := data[|d|..];
    assert data == d + more;
    RF.PayloadFields(header, es, more);
    RF.BlockIsRead(data, 7 + |header|, es, more);
    GuardIsRedundant(data, 7 + |header|);
    RF.LenientExact(data, 7 + |header|, es);
  }
}
