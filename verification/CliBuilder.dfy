/** The CLI's new registry payload for a proposal, and that the registry script accepts it. */
module CliBuilder {
  import opened Bytes
  import opened Lex
  import opened Seqs
  import opened Buffer
  import opened Molecule
  import opened GovernanceHeader
  import opened Transition
  import PC = ProposalCell
  import RF = RegistryFormat
  import TS = TsRegistry

  // ---- the two list edits ----

  /** The list with an entry placed before the first one that is not below it. */
  function Inserted(es: seq<RF.Entry>, e: RF.Entry): (r: seq<RF.Entry>)
    ensures |r| == |es| + 1
  {
    if es == [] || !Less(es[0].id, e.id) then [e] + es else [es[0]] + Inserted(es[1..], e)
  }

  lemma {:induction false} InsertedSplit(es: seq<RF.Entry>, e: RF.Entry, at: nat)
    requires at <= |es| && forall k :: 0 <= k < at ==> Less(es[k].id, e.id)
    requires at < |es| ==> !Less(es[at].id, e.id)
    ensures Inserted(es, e) == es[..at] + [e] + es[at..]
  {
    if at > 0 {
      assert forall k :: 0 <= k < at - 1 ==> es[1..][k] == es[k + 1];
      InsertedSplit(es[1..], e, at - 1);
      Unshift(es, at, e);
    }
  }

  lemma Unshift<T>(s: seq<T>, at: nat, x: T)
    requires 0 < at <= |s|
    ensures [s[0]] + (s[1..][..at - 1] + [x] + s[1..][at - 1..]) == s[..at] + [x] + s[at..]
  {
  }

  /** `insertSorted`: `findIndex` over byte comparisons, then a splice. */
  method InsertSorted(entries: seq<RF.Entry>, newEntry: RF.Entry) returns (result: seq<RF.Entry>)
    ensures result == Inserted(entries, newEntry)
  {
    var insertAt := 0;
    while insertAt < |entries|
      invariant 0 <= insertAt <= |entries|
      invariant forall k :: 0 <= k < insertAt ==> Less(entries[k].id, newEntry.id)
    {
      var c := CompareBytes(entries[insertAt].id, newEntry.id);
      if c >= 0 {
        Trichotomy(entries[insertAt].id, newEntry.id);
        break;
      }
      insertAt := insertAt + 1;
    }
    InsertedSplit(entries, newEntry, insertAt);
    result := entries[..insertAt] + [newEntry] + entries[insertAt..];
  }

  lemma {:induction false} InsertedKeeps(es: seq<RF.Entry>, e: RF.Entry, x: RF.Entry)
    ensures x in Inserted(es, e) <==> x == e || x in es
  {
    if es != [] && Less(es[0].id, e.id) {
      InsertedKeeps(es[1..], e, x);
      HeadTail(es);
    }
  }

  /** Inserting a new identifier keeps the list strictly ascending. */
  lemma {:induction false} InsertedAscending(es: seq<RF.Entry>, e: RF.Entry)
    requires RF.Ascending(es) && !HasId(es, e.id)
    ensures RF.Ascending(Inserted(es, e))
  {
    if es == [] {
      Nil([e]);
    } else if !Less(es[0].id, e.id) {
      Total(es[0].id, e.id);
      ConsAscending(e, es);
    } else {
      var rest := Inserted(es[1..], e);
      HeadAndTailMap(es);
      assert forall x <- es[1..] :: x in es;
      InsertedAscending(es[1..], e);
      InsertedKeeps(es[1..], e, rest[0]);
      if rest[0] != e {
        HeadIsLeast(es, rest[0].id);
      }
      ConsAscending(es[0], rest);
    }
  }

  lemma {:induction false} NothingWithout(es: seq<RF.Entry>, id: seq<byte>)
    requires !HasId(es, id)
    ensures Without(es, id) == es && Count(es, id) == 0
  {
    if es != [] {
      assert forall x <- es[1..] :: x in es;
      NothingWithout(es[1..], id);
      HeadTail(es);
    }
  }

  /** Taking the inserted entry out again gives the list back: one entry more, no other change. */
  lemma {:induction false} InsertedIsOneMore(es: seq<RF.Entry>, e: RF.Entry)
    requires !HasId(es, e.id)
    ensures OneMore(Inserted(es, e), es, e.id)
  {
    NothingWithout(es, e.id);
    if es != [] && Less(es[0].id, e.id) {
      var rest := Inserted(es[1..], e);
      assert forall x <- es[1..] :: x in es;
      InsertedIsOneMore(es[1..], e);
      ConsTail(es[0], rest);
      HeadTail(es);
    } else {
      ConsTail(e, es);
      Nil(es);
    }
  }

  lemma InsertedExpiry(es: seq<RF.Entry>, e: RF.Entry)
    requires !HasId(es, e.id)
    ensures ExpiryOf(Inserted(es, e), e.id, e.expiresAt)
  {
    forall x | x in Inserted(es, e) && x.id == e.id
      ensures x.expiresAt == e.expiresAt
    {
      InsertedKeeps(es, e, x);
    }
  }

  // ---- the payload encoder ----

  /** The concatenation of the per-entry buffers. */
  function Flat(parts: seq<seq<byte>>): seq<byte> {
    if parts == [] then [] else Flat(parts[..|parts| - 1]) + parts[|parts| - 1]
  }

  lemma {:induction false} FlatPrefix(parts: seq<seq<byte>>, i: nat)
    requires i < |parts|
    ensures Flat(parts[..i + 1]) == Flat(parts[..i]) + parts[i]
    ensures |Flat(parts[..i + 1])| <= |Flat(parts)|
    decreases |parts| - i
  {
    assert parts[..i + 1][..i] == parts[..i];
    if i + 1 < |parts| {
      FlatPrefix(parts, i + 1);
    } else {
      assert parts[..i + 1] == parts;
    }
  }

  /** The buffer of one entry. */
  method EncodedEntry(e: RF.Entry) returns (b: seq<byte>)
    requires |e.id| <= 255
    ensures b == RF.EncodeEntry(e)
  {
    hide Written, Le8;
    var buf := new byte[1 + |e.id| + 8](_ => 0);
    AllWritten(buf);
    var off := Append(buf, 0, [|e.id|]);
    off := Append(buf, off, e.id);
    off := AppendU64(buf, off, e.expiresAt);
    AllWritten(buf);
    b := buf[..];
  }

  method EncodedEntries(entries: seq<RF.Entry>) returns (r: Option<seq<seq<byte>>>)
    ensures r.Some? <==> RF.WellSized(entries)
    ensures r.Some? ==> Flat(r.value) == RF.EncodeEntries(entries)
  {
    hide RF.EncodeEntry;
    var parts: seq<seq<byte>> := [];
    for i := 0 to |entries|
      invariant RF.WellSized(entries[..i]) && Flat(parts) == RF.EncodeEntries(entries[..i])
    {
      var e := entries[i];
      assert e in entries;
      if |e.id| > 255 {
        return None;
      }
      RF.EntriesSnoc(entries[..i], e);
      assert entries[..i + 1] == entries[..i] + [e];
      var part := EncodedEntry(e);
      SnocInit(parts, part);
      parts := parts + [part];
    }
    assert entries[..|entries|] == entries;
    return Some(parts);
  }

  /** `encodeRegistryPayload` with a governance header: None where it throws on an identifier over 255 bytes. */
  method EncodeRegistryPayload(entries: seq<RF.Entry>, header: seq<byte>) returns (r: Option<seq<byte>>)
    ensures r == if RF.WellSized(entries) then Some(RF.EncodePayload(header, entries)) else None
  {
    hide RF.EncodeEntries, Written, Le2, Le4, RF.WellSized;
    var encoded := EncodedEntries(entries);
    if encoded.None? {
      return None;
    }
    var parts := encoded.value;
    var entriesSize := SizeOf(parts);
    var out := new byte[4 + 1 + 2 + |header| + 4 + entriesSize](_ => 0);
    AllWritten(out);
    var off := Append(out, 0, RF.BLKL);
    off := Append(out, off, [0x02]);
    off := Append(out, off, Le2(|header|));
    off := Append(out, off, header);
    off := Append(out, off, Le4(|entries|));
    ghost var head := RF.BLKL + [0x02] + Le2(|header|) + header + Le4(|entries|);
    off := PutAll(out, off, parts, head);
    Assoc(RF.BLKL + [0x02] + Le2(|header|) + header, Le4(|entries|), Flat(parts));
    AllWritten(out);
    return Some(out[..]);
  }

  /** The `reduce` over the lengths of the entry buffers. */
  method SizeOf(parts: seq<seq<byte>>) returns (size: nat)
    ensures size == |Flat(parts)|
  {
    size := 0;
    for i := 0 to |parts|
      invariant size == |Flat(parts[..i])|
    {
      FlatPrefix(parts, i);
      size := size + |parts[i]|;
    }
    assert parts[..|parts|] == parts;
  }

  /** The loop that copies the entry buffers one after the other. */
  method PutAll(out: array<byte>, start: nat, parts: seq<seq<byte>>, ghost before: seq<byte>) returns (off: nat)
    requires start + |Flat(parts)| <= out.Length && Written(out, start) == before
    modifies out
    ensures off == start + |Flat(parts)| && Written(out, off) == before + Flat(parts)
  {
    hide Written;
    off := start;
    Nil(before);
    for i := 0 to |parts|
      invariant off == start + |Flat(parts[..i])| <= out.Length
      invariant Written(out, off) == before + Flat(parts[..i])
    {
      FlatPrefix(parts, i);
      Assoc(before, Flat(parts[..i]), parts[i]);
      off := Append(out, off, parts[i]);
    }
    assert parts[..|parts|] == parts;
  }

  // ---- the state transformation ----

  /** `extractGovernanceHeaderRaw`. */
  function ExtractHeader(data: seq<byte>): Option<seq<byte>> {
    if |data| < 7 || data[4] != 0x02 then None
    else if |data| < 7 + U16At(data, 5) then None
    else Some(data[7..7 + U16At(data, 5)])
  }

  datatype Registry = Registry(header: seq<byte>, entries: seq<RF.Entry>)

  /** The entry an add proposal asks for; the writer keeps the low 64 bits of the expiry. */
  function NewEntry(p: PC.CliProposal): RF.Entry {
    RF.Entry(p.lockArgs, p.expiresAt % 0x1_0000_0000_0000_0000)
  }

  /** The header of a set-treasury proposal: the old one with the script as its only treasury field. */
  function WithTreasury(h: CliHeader, script: Script): CliHeader {
    CliHeader(h.threshold, h.validatorCount, h.root, None, Some(script))
  }

  /** The branches of `loadRegistryStateForProposal`; None where it throws. */
  function Transformed(old_: Registry, p: PC.CliProposal): Option<Registry> {
    match p.action
    case CliAdd =>
      if HasId(old_.entries, p.lockArgs) then None
      else Some(Registry(old_.header, Inserted(old_.entries, NewEntry(p))))
    case SetTreasury =>
      (match CliParseHeader(old_.header)
       case None => None
       case Some(h) =>
         if p.treasuryLockScript.None? then None
         else Some(Registry(CliEncodeHeader(WithTreasury(h, p.treasuryLockScript.value)), old_.entries)))
    case CliRemove =>
      var rest := Without(old_.entries, p.lockArgs);
      if |rest| == |old_.entries| then None else Some(Registry(old_.header, rest))
  }

  /** The current registry as the CLI reads it: entries by the TypeScript SDK, header bytes by the length field. */
  function Current(data: seq<byte>): Option<Registry> {
    match TS.Parse(data)
    case None => None
    case Some(payload) => match ExtractHeader(data) case None => None case Some(h) => Some(Registry(h, payload.entries))
  }

  /** The new payload bytes; None where `loadRegistryStateForProposal` throws. */
  function NewData(data: seq<byte>, p: PC.CliProposal): Option<seq<byte>> {
    match Current(data)
    case None => None
    case Some(old_) =>
      match Transformed(old_, p)
      case None => None
      case Some(new_) => if RF.WellSized(new_.entries) then Some(RF.EncodePayload(new_.header, new_.entries)) else None
  }

  /** `loadRegistryStateForProposal` from the cell data on. */
  method LoadRegistryStateForProposal(data: seq<byte>, p: PC.CliProposal) returns (r: Option<seq<byte>>)
    ensures r == NewData(data, p)
  {
    hide TS.Parse, ExtractHeader, Without, Count, CliParseHeader, CliEncodeHeader, RF.EncodePayload, Inserted;
    var payload := TS.ParseRegistryPayload(data);
    var header := ExtractHeader(data);
    if payload.None? || header.None? {
      return None;
    }
    var entries := payload.value.entries;
    var newEntries := entries;
    var newHeader := header.value;
    if p.action == PC.CliAdd {
      if HasId(entries, p.lockArgs) {
        return None;
      }
      newEntries := InsertSorted(entries, NewEntry(p));
    } else if p.action == PC.SetTreasury {
      var parsed := CliParseHeader(header.value);
      if parsed.None? || p.treasuryLockScript.None? {
        return None;
      }
      var buf := CliEncodeHeaderBuffer(WithTreasury(parsed.value, p.treasuryLockScript.value));
      newHeader := buf[..];
    } else {
      newEntries := RemoveEntry(entries, p.lockArgs);
      if |newEntries| == |entries| {
        return None;
      }
    }
    r := EncodeRegistryPayload(newEntries, newHeader);
  }

  /** `removeEntry`: a filter over the entries. */
  method RemoveEntry(entries: seq<RF.Entry>, id: seq<byte>) returns (kept: seq<RF.Entry>)
    ensures kept == Without(entries, id)
  {
    hide Without;
    kept := [];
    WithoutNothing(id);
    for i := 0 to |entries|
      invariant kept == Without(entries[..i], id)
    {
      assert entries[..i + 1] == entries[..i] + [entries[i]];
      WithoutSnoc(entries[..i], entries[i], id);
      Nil(kept);
      if entries[i].id != id {
        kept := kept + [entries[i]];
      }
    }
    assert entries[..|entries|] == entries;
  }

  lemma WithoutNothing(id: seq<byte>)
    ensures Without([], id) == []
  {
  }

  // ---- the builder is accepted ----

  /**
   * The CLI reads a header and entries iff the payload is their encoding followed by any bytes, the entries are
   * canonical, and the SDK's header reader finds a header in the data.
   */
  lemma CurrentExact(data: seq<byte>, old_: Registry)
    ensures Current(data) == Some(old_)
       <==> RF.Canonical(old_.entries) && |old_.header| < 0x1_0000 && TS.HeaderAt(data, 7).Some?
            && RF.EncodePayload(old_.header, old_.entries) <= data
  {
    hide TS.Parse, TS.HeaderAt, RF.EncodePayload, RF.Ascending, RF.WellSized;
    if Current(data) == Some(old_) {
      TS.ParsedPrefix(data);
      TS.ParseExact(data, old_.entries);
    }
    if RF.Canonical(old_.entries) && |old_.header| < 0x1_0000 && TS.HeaderAt(data, 7).Some?
       && RF.EncodePayload(old_.header, old_.entries) <= data {
      TS.ReadsPrefix(data, old_.header, old_.entries);
      PrefixFields(data, old_);
    }
  }

  /** The header slice of a payload is found whatever follows the entries. */
  lemma PrefixFields(data: seq<byte>, r: Registry)
    requires RF.WellSized(r.entries) && |r.header| < 0x1_0000 && RF.EncodePayload(r.header, r.entries) <= data
    ensures |data| >= 11 && data[0..4] == RF.BLKL
    ensures ExtractHeader(data) == Some(r.header) && HeaderSlice(data) == Some(r.header)
  {
    hide RF.EntryBlock;
    var d := RF.EncodePayload(r.header, r.entries);
    assert data == d + data[|d|..];
    RF.PayloadFields(r.header, r.entries, data[|d|..]);
  }

  /** On a payload the scripts accept, the CLI reads exactly what they read, and nothing follows it. */
  lemma StrictCurrent(data: seq<byte>, old_: Registry)
    requires Current(data) == Some(old_) && RF.ParseStrict(data).Ok?
    ensures RF.Canonical(old_.entries) && data == RF.EncodePayload(old_.header, old_.entries)
    ensures RF.ParseStrict(data) == Ok(RF.Payload(0x02, old_.entries))
  {
    hide TS.Parse, TS.HeaderAt, RF.EncodePayload, RF.ParsePayload, RF.Ascending, RF.WellSized;
    CurrentExact(data, old_);
    RF.EncodeOfStrict(data);
    var es := RF.ParseStrict(data).value.entries;
    TS.ReadsPrefix(data, data[7..7 + U16At(data, 5)], es);
    TS.ReadsPrefix(data, old_.header, old_.entries);
  }

  lemma HeaderOfPayload(r: Registry)
    requires RF.WellSized(r.entries) && |r.header| < 0x1_0000
    ensures ExtractHeader(RF.EncodePayload(r.header, r.entries)) == Some(r.header)
    ensures HeaderSlice(RF.EncodePayload(r.header, r.entries)) == Some(r.header)
  {
    hide RF.EntryBlock;
    RF.PayloadFields(r.header, r.entries, []);
    Nil(RF.EncodePayload(r.header, r.entries));
  }

  /** The proposals the CLI has a new state for. */
  predicate Applicable(old_: Registry, p: PC.CliProposal) {
    match p.action
    case CliAdd => !HasId(old_.entries, p.lockArgs)
    case CliRemove => HasId(old_.entries, p.lockArgs)
    case SetTreasury => CliParseHeader(old_.header).Some?
  }

  /** The one way a new payload can outgrow its length fields. */
  predicate Fits(old_: Registry, p: PC.CliProposal)
    requires p.action == PC.SetTreasury ==> p.treasuryLockScript.Some?
  {
    match p.action
    case CliAdd => |old_.entries| + 1 < 0x1_0000_0000
    case CliRemove => true
    case SetTreasury => 92 + |p.treasuryLockScript.value.args| < 0x1_0000
  }

  lemma {:induction false} WithoutSome(es: seq<RF.Entry>, id: seq<byte>)
    ensures |Without(es, id)| == |es| <==> !HasId(es, id)
  {
    if !HasId(es, id) {
      NothingWithout(es, id);
    } else {
      var e :| e in es && e.id == id;
      CountSome(es, e);
    }
  }

  lemma {:induction false} CountSome(es: seq<RF.Entry>, e: RF.Entry)
    requires e in es
    ensures Count(es, e.id) > 0
  {
    if es[0] != e {
      CountSome(es[1..], e);
    }
  }

  lemma {:induction false} WithoutSized(es: seq<RF.Entry>, id: seq<byte>)
    requires RF.WellSized(es)
    ensures RF.WellSized(Without(es, id))
  {
    forall e | e in Without(es, id)
      ensures e in es
    {
      WithoutKeeps(es, id, e);
    }
  }

  lemma InsertedSized(es: seq<RF.Entry>, e: RF.Entry)
    requires RF.WellSized(es) && |e.id| <= 255
    ensures RF.WellSized(Inserted(es, e))
  {
    forall x | x in Inserted(es, e)
      ensures |x.id| <= 255
    {
      InsertedKeeps(es, e, x);
    }
  }

  /** The builder has a new state for exactly the applicable proposals. */
  lemma TransformedWhen(old_: Registry, p: PC.CliProposal)
    requires RF.WellSized(old_.entries) && PC.Encodable(p)
    ensures Transformed(old_, p).Some? <==> Applicable(old_, p)
    ensures Applicable(old_, p) ==> RF.WellSized(Transformed(old_, p).value.entries)
  {
    hide CliParseHeader, CliEncodeHeader, Without, HasId, RF.WellSized, Inserted;
    match p.action
    case CliAdd => InsertedSized(old_.entries, NewEntry(p));
    case CliRemove =>
      WithoutSome(old_.entries, p.lockArgs);
      WithoutSized(old_.entries, p.lockArgs);
    case SetTreasury =>
  }

  /** The new entry list is ascending and one step of the proposal away from the old one. */
  lemma EntriesMatch(old_: Registry, p: PC.CliProposal, typeId: Bytes32, newData: seq<byte>, blake: Hasher)
    requires RF.Ascending(old_.entries) && PC.Encodable(p) && Transformed(old_, p).Some? && p.action != PC.SetTreasury
    ensures RF.Ascending(Transformed(old_, p).value.entries) && Transformed(old_, p).value.header == old_.header
    ensures Matches(old_.entries, Transformed(old_, p).value.entries, newData, PC.Meaning(p, typeId, blake), blake)
  {
    hide Without, Count, Inserted, HasId, RF.Ascending;
    if p.action == PC.CliAdd {
      var e := NewEntry(p);
      InsertedAscending(old_.entries, e);
      InsertedIsOneMore(old_.entries, e);
      InsertedExpiry(old_.entries, e);
    } else {
      WithoutAscending(old_.entries, p.lockArgs);
      RemovedIsOneLess(old_.entries, p.lockArgs);
    }
  }

  lemma RemovedIsOneLess(es: seq<RF.Entry>, id: seq<byte>)
    requires RF.Ascending(es) && |Without(es, id)| != |es|
    ensures OneMore(es, Without(es, id), id)
  {
    hide RF.Ascending;
    CountInAscending(es, id);
  }

  /** What the registry reads from a payload with the CLI's set-treasury header. */
  lemma TreasuryHeaderRead(h: CliHeader, script: Script, entries: seq<RF.Entry>, blake: Hasher)
    requires RF.WellSized(entries) && 92 + |script.args| < 0x1_0000
    ensures var gh := CliEncodeHeader(WithTreasury(h, script));
            |gh| == 92 + |script.args|
            && CliParseHeader(gh) == Some(WithTreasury(h, script))
            && ParseTreasuryHash(RF.EncodePayload(gh, entries), blake) == Ok(Some(blake(EncodeScript(script))))
  {
    hide EncodeScript, CliEncodeHeader, CliParseHeader, TreasuryHashOf, RF.EncodePayload;
    var h' := WithTreasury(h, script);
    CliHeaderRoundTrip(h');
    CliReadsWhatIsEnforced(CliEncodeHeader(h'), blake);
    HeaderOfPayload(Registry(CliEncodeHeader(h'), entries));
  }

  /**
   * The registry script accepts what the builder makes: for a canonical registry and an applicable proposal the
   * new bytes parse strictly to the transformed entries and the transition matches the proposal the PBLK cell
   * states. Add and remove keep the header; set-treasury keeps entries, threshold, validator count and root and
   * yields the proposed treasury.
   */
  lemma BuilderIsAccepted(data: seq<byte>, old_: Registry, p: PC.CliProposal, typeId: Bytes32, blake: Hasher)
    returns (new_: Registry)
    requires Current(data) == Some(old_) && PC.Encodable(p) && Applicable(old_, p) && Fits(old_, p)
    ensures RF.WellSized(new_.entries) && NewData(data, p) == Some(RF.EncodePayload(new_.header, new_.entries))
    ensures HeaderSlice(NewData(data, p).value) == Some(new_.header)
    ensures RF.ParseStrict(NewData(data, p).value) == Ok(RF.Payload(0x02, new_.entries))
    ensures PC.Parse(PC.Encode(p, typeId, blake)).Ok?
    ensures Matches(old_.entries, new_.entries, NewData(data, p).value, PC.Parse(PC.Encode(p, typeId, blake)).value,
            blake)
    ensures p.action != PC.SetTreasury ==> new_.header == old_.header
    ensures p.action == PC.SetTreasury ==>
              new_.entries == old_.entries
              && CliParseHeader(new_.header)
                 == Some(WithTreasury(CliParseHeader(old_.header).value, p.treasuryLockScript.value))
              && ParseTreasuryHash(NewData(data, p).value, blake)
                == Ok(Some(blake(EncodeScript(p.treasuryLockScript.value))))
  {
    hide RF.ParsePayload, RF.EncodePayload, ExtractHeader, Without, Inserted, HasId, CliParseHeader, CliEncodeHeader,
      PC.Encode, PC.Parse, EncodeScript, ParseTreasuryHash, Matches, RF.Ascending, RF.WellSized;
    CurrentExact(data, old_);
    TransformedWhen(old_, p);
    new_ := Transformed(old_, p).value;
    PC.EncodedCellIsRead(p, typeId, blake);
    var newData := RF.EncodePayload(new_.header, new_.entries);
    if p.action == PC.SetTreasury {
      TreasuryHeaderRead(CliParseHeader(old_.header).value, p.treasuryLockScript.value, new_.entries, blake);
      MatchesTreasury(old_.entries, newData, PC.Meaning(p, typeId, blake), blake);
    } else {
      EntriesMatch(old_, p, typeId, newData, blake);
    }
    HeaderOfPayload(new_);
    RF.StrictOfEncode(new_.header, new_.entries);
  }

  lemma MatchesTreasury(es: seq<RF.Entry>, newData: seq<byte>, p: PC.Proposal, blake: Hasher)
    requires p.action == PC.SetGovernanceHeader && p.treasuryLockHash.Some?
    ensures Matches(es, es, newData, p, blake) <==> ParseTreasuryHash(newData, blake) == Ok(p.treasuryLockHash)
  {
  }

  // ---- and only while the length fields hold it ----

  /** At 2^32 entries the count field wraps to zero and the new payload no longer parses. */
  lemma FullRegistryRejected(data: seq<byte>, old_: Registry, p: PC.CliProposal)
    requires Current(data) == Some(old_) && PC.Encodable(p) && Applicable(old_, p) && p.action == PC.CliAdd
    requires !Fits(old_, p)
    ensures NewData(data, p).Some? && RF.ParseStrict(NewData(data, p).value) == Err(RF.TrailingBytes)
  {
    hide RF.ParsePayload, RF.EncodePayload, ExtractHeader, Inserted, HasId, RF.WellSized, RF.Ascending,
      RF.EncodeEntries;
    CurrentExact(data, old_);
    TransformedWhen(old_, p);
    var new_ := Transformed(old_, p).value;
    WrappedCount(new_.header, new_.entries);
  }

  lemma WrappedCount(header: seq<byte>, es: seq<RF.Entry>)
    requires RF.WellSized(es) && |header| < 0x1_0000 && |es| == 0x1_0000_0000
    ensures RF.ParseStrict(RF.EncodePayload(header, es)) == Err(RF.TrailingBytes)
  {
    hide RF.EncodeEntries, Le4;
    var d := RF.EncodePayload(header, es);
    var off := 7 + |header|;
    RF.PayloadFields(header, es, []);
    Nil(d);
    Nil(RF.EntryBlock(es));
    RF.EncodedLength(es);
    Parts(d[off..], Le4(|es|), RF.EncodeEntries(es), []);
    Nil(RF.EntryBlock(es));
    DropTwice(d, off, 4);
    LowBytes(0x1_0000_0000);
    U32Written(d, off, 0);
  }

  lemma LowBytes(n: nat)
    requires n == 0x1_0000_0000
    ensures Le4(n) == Le4(0)
  {
    assert Le(n, 4) == [n % 256] + Le(n / 256, 3);
    assert Le(n / 256, 3) == [n / 256 % 256] + Le(n / 256 / 256, 2);
    assert Le(n / 256 / 256, 2) == [n / 256 / 256 % 256] + Le(n / 256 / 256 / 256, 1);
    assert Le(n / 256 / 256 / 256, 1) == [n / 256 / 256 / 256 % 256] + Le(1, 0);
    assert Le(0, 4) == [0] + Le(0, 3) && Le(0, 3) == [0] + Le(0, 2) && Le(0, 2) == [0] + Le(0, 1);
  }

  /** No strict prefix of the bytes hashes like the whole. */
  ghost predicate PrefixFree(blake: Hasher, s: seq<byte>) {
    forall cut :: 0 <= cut < |s| ==> blake(s[..cut]) != blake(s)
  }

  lemma CutHeader(h: CliHeader, n: nat)
    requires h.treasuryLockScript.Some? && 39 <= n <= |CliEncodeHeader(h)|
    ensures CliEncodeHeader(h)[0] == 0x03 && CliEncodeHeader(h)[1] == 0
    ensures var s := EncodeScript(h.treasuryLockScript.value);
            |CliEncodeHeader(h)| == 39 + |s| && CliEncodeHeader(h)[..n][39..] == s[..n - 39]
  {
    hide EncodeScript, Le2;
    CliEncodedFields(h);
    var (gh, s) := (CliEncodeHeader(h), EncodeScript(h.treasuryLockScript.value));
    CutSuffix(gh, gh[..37], Le2(|s|), s, n);
  }

  lemma CutSuffix<T>(g: seq<T>, a: seq<T>, b: seq<T>, s: seq<T>, n: nat)
    requires |a| == 37 && |b| == 2 && |g| >= 39 && g[..37] == a && g[37..] == b + s && 39 <= n <= |g|
    ensures g[..n][39..] == s[..n - 39]
  {
    assert g == a + (b + s);
  }

  /** A treasury script too long for the 16-bit length fields: the registry reads another hash, or none, and refuses. */
  lemma OversizedTreasuryRejected(
      data: seq<byte>, old_: Registry, p: PC.CliProposal, typeId: Bytes32, blake: Hasher, newEntries: seq<RF.Entry>)
    requires Current(data) == Some(old_) && PC.Encodable(p) && Applicable(old_, p) && p.action == PC.SetTreasury
    requires !Fits(old_, p)
    requires PrefixFree(blake, EncodeScript(p.treasuryLockScript.value))
    ensures NewData(data, p).Some?
    ensures !Matches(old_.entries, newEntries, NewData(data, p).value, PC.Meaning(p, typeId, blake), blake)
  {
    hide RF.ParsePayload, RF.EncodePayload, ExtractHeader, Without, HasId, CliParseHeader, CliEncodeHeader,
      EncodeScript, PrefixFree, RF.Ascending, RF.WellSized, TreasuryHashOf;
    CurrentExact(data, old_);
    TransformedWhen(old_, p);
    var new_ := Transformed(old_, p).value;
    var newData := RF.EncodePayload(new_.header, new_.entries);
    var h' := WithTreasury(CliParseHeader(old_.header).value, p.treasuryLockScript.value);
    WrappedHeader(new_.header, new_.entries);
    WrongTreasury(h', |new_.header| % 0x1_0000, blake);
  }

  lemma WrappedHeader(header: seq<byte>, es: seq<RF.Entry>)
    requires RF.WellSized(es)
    ensures HeaderSlice(RF.EncodePayload(header, es)) == Some(header[..|header| % 0x1_0000])
  {
    hide Le2, RF.EntryBlock;
    var (d, n) := (RF.EncodePayload(header, es), |header| % 0x1_0000);
    Parts(d, RF.BLKL + [0x02] + Le2(|header|), header, RF.EntryBlock(es));
    assert d[5..7] == Le2(|header|);
    LowTwo(|header|);
    U16Written(d, 5, n);
    assert |RF.EntryBlock(es)| >= 4 by { BlockSize(es); }
    assert d[7..7 + n] == header[..n];
  }

  lemma BlockSize(es: seq<RF.Entry>)
    requires RF.WellSized(es)
    ensures |RF.EntryBlock(es)| >= 4
  {
  }

  lemma LowTwo(n: nat)
    ensures Le2(n) == Le2(n % 0x1_0000)
  {
    TwoBytes(n);
    TwoBytes(n % 0x1_0000);
    LowBytesOf(n, n / 0x1_0000, n % 0x1_0000);
  }

  lemma TwoBytes(n: nat)
    ensures Le2(n) == [n % 256, n / 256 % 256]
  {
    assert Le(n, 2) == [n % 256] + Le(n / 256, 1);
    assert Le(n / 256, 1) == [n / 256 % 256] + Le(n / 256 / 256, 0);
  }

  lemma LowBytesOf(n: nat, q: nat, m: nat)
    requires n == 0x1_0000 * q + m && m < 0x1_0000
    ensures m % 256 == n % 256 && m / 256 % 256 == n / 256 % 256
  {
    var (low, high) := (m % 256, m / 256);
    assert m == 256 * high + low;
    assert n == 256 * (256 * q + high) + low;
    assert n / 256 == 256 * q + high;
  }

  lemma WrongTreasury(h: CliHeader, n: nat, blake: Hasher)
    requires h.treasuryLockScript.Some? && n < |CliEncodeHeader(h)|
    requires PrefixFree(blake, EncodeScript(h.treasuryLockScript.value))
    ensures TreasuryHashOf(CliEncodeHeader(h)[..n], blake) != Ok(Some(blake(EncodeScript(h.treasuryLockScript.value))))
  {
    hide CliEncodeHeader, EncodeScript;
    var gh := CliEncodeHeader(h)[..n];
    if n >= 39 {
      CutHeader(h, n);
    } else if n >= 3 {
      CutHeader(h, 39);
    }
  }
}
