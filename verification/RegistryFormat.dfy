/** The BLKL v2 payload: the shared on-chain decoder and what a canonical payload is. */
module RegistryFormat {
  import opened Bytes
  import opened Lex
  import opened Seqs

  datatype Entry = Entry(id: seq<byte>, expiresAt: u64)

  datatype ParseError = InvalidPayload | UnsupportedVersion | NotSorted | TrailingBytes

  const BLKL: seq<byte> := [0x42, 0x4c, 0x4b, 0x4c]

  /** One entry on the wire: id_len(1) | id | expires_at(8 LE). */
  function EncodeEntry(e: Entry): (b: seq<byte>)
    requires |e.id| <= 255
    ensures |b| == |e.id| + 9
  {
    [|e.id|] + e.id + Le8(e.expiresAt)
  }

  predicate WellSized(es: seq<Entry>) {
    forall e <- es :: |e.id| <= 255
  }

  function EncodeEntries(es: seq<Entry>): seq<byte>
    requires WellSized(es)
  {
    if es == [] then [] else EncodeEntry(es[0]) + EncodeEntries(es[1..])
  }

  /** Strictly ascending identifiers, stated on neighbours as the parser checks it. */
  predicate Ascending(es: seq<Entry>) {
    forall i :: 0 < i < |es| ==> Less(es[i - 1].id, es[i].id)
  }

  /** Neighbours in order puts every pair in order. */
  lemma {:induction false} AscendingPairs(es: seq<Entry>, i: nat, j: nat)
    requires Ascending(es) && i < j < |es|
    ensures Less(es[i].id, es[j].id)
  {
    if i + 1 < j {
      AscendingPairs(es, i, j - 1);
      Transitive(es[i].id, es[j - 1].id, es[j].id);
    }
  }

  /** The entry list of a canonical payload: sorted, and small enough for its length fields. */
  predicate Canonical(es: seq<Entry>) {
    Ascending(es) && WellSized(es) && |es| < 0x1_0000_0000
  }

  function EntryEnd(b: seq<byte>): nat
    requires b != []
  {
    var idLen: nat := b[0];
    1 + idLen + 8
  }

  /** A whole entry, as long as its length byte says, stands at the front of `b`. */
  predicate HasEntry(b: seq<byte>) {
    b != [] && EntryEnd(b) <= |b|
  }

  function FirstEntry(b: seq<byte>): Entry
    requires HasEntry(b)
  {
    Entry(b[1..EntryEnd(b) - 8], U64At(b, EntryEnd(b) - 8))
  }

  /** Reads `n` entries from the front of `b`; None when an entry runs past the end. */
  function ReadEntries(b: seq<byte>, n: nat): Option<(seq<Entry>, seq<byte>)> {
    if n == 0 then Some(([], b))
    else if !HasEntry(b) then None
    else
      match ReadEntries(b[EntryEnd(b)..], n - 1)
      case None => None
      case Some((es, rest)) => Some(([FirstEntry(b)] + es, rest))
  }

  /** The result of `parse_entries` as a function of its arguments. */
  function ParseEntries(data: seq<byte>, countOffset: nat, strict: bool): Result<seq<Entry>, ParseError> {
    if countOffset + 4 > |data| then Err(InvalidPayload)
    else
      var count := U32At(data, countOffset);
      if count > (|data| - countOffset - 4) / 9 then Err(InvalidPayload)
      else
        match ReadEntries(data[countOffset + 4..], count)
        case None => Err(InvalidPayload)
        case Some((es, rest)) =>
          if !Ascending(es) then Err(NotSorted)
          else if strict && rest != [] then Err(TrailingBytes)
          else Ok(es)
  }

  /** `parse_entries`: moves `offset` over the data and pushes entries, then checks their order. */
  method ParseEntriesLoop(data: seq<byte>, countOffset: nat, strict: bool)
    returns (r: Result<seq<Entry>, ParseError>)
    ensures r == ParseEntries(data, countOffset, strict)
  {
    hide ReadEntries, HasEntry, FirstEntry, EntryEnd, Ascending;
    if countOffset + 4 > |data| {
      return Err(InvalidPayload);
    }
    var entryCount := U32At(data, countOffset);
    var offset := countOffset + 4;
    var remaining := |data| - offset;
    if entryCount > remaining / 9 {
      return Err(InvalidPayload);
    }
    var entries: seq<Entry> := [];
    ghost var whole := ReadEntries(data[countOffset + 4..], entryCount);
    PrependNothing(whole);
    for k := 0 to entryCount
      invariant countOffset + 4 <= offset <= |data|
      invariant |entries| == k
      invariant whole == Prepend(entries, ReadEntries(data[offset..], entryCount - k))
    {
      EntryAt(data, offset);
      PrependStep(entries, data[offset..], entryCount - k);
      if offset >= |data| {
        return Err(InvalidPayload);
      }
      var idLen: nat := data[offset];
      offset := offset + 1;
      if idLen + 8 > |data| - offset {
        return Err(InvalidPayload);
      }
      var identifier := data[offset..offset + idLen];
      offset := offset + idLen;
      var expiresAt := U64At(data, offset);
      offset := offset + 8;
      entries := entries + [Entry(identifier, expiresAt)];
    }
    PrependToNothing(entries, data[offset..]);
    var ordered := InOrder(entries);
    if !ordered {
      return Err(NotSorted);
    }
    if strict && offset != |data| {
      return Err(TrailingBytes);
    }
    return Ok(entries);
  }

  /** The order check at the end of `parse_entries`. */
  method InOrder(entries: seq<Entry>) returns (ordered: bool)
    ensures ordered == Ascending(entries)
  {
    var i := 1;
    while i < |entries|
      invariant 1 <= i
      invariant forall j :: 0 < j < i && j < |entries| ==> Less(entries[j - 1].id, entries[j].id)
    {
      Trichotomy(entries[i - 1].id, entries[i].id);
      if entries[i].id == entries[i - 1].id || Less(entries[i].id, entries[i - 1].id) {
        return false;
      }
      i := i + 1;
    }
    return true;
  }

  ghost function Prepend(es: seq<Entry>, r: Option<(seq<Entry>, seq<byte>)>): Option<(seq<Entry>, seq<byte>)> {
    match r
    case None => None
    case Some((fs, rest)) => Some((es + fs, rest))
  }

  lemma PrependToNothing(es: seq<Entry>, b: seq<byte>)
    ensures Prepend(es, ReadEntries(b, 0)) == Some((es, b))
  {
    Nil(es);
  }

  lemma PrependNothing(r: Option<(seq<Entry>, seq<byte>)>)
    ensures Prepend([], r) == r
  {
    if r.Some? {
      assert [] + r.value.0 == r.value.0;
    }
  }

  /** Reading an entry at an offset is reading it from the front of what is left. */
  lemma EntryAt(data: seq<byte>, off: nat)
    requires off <= |data|
    ensures HasEntry(data[off..]) ==> off < |data|
    ensures off < |data| ==>
              var idLen: nat := data[off];
              HasEntry(data[off..]) <==> idLen + 8 <= |data| - (off + 1)
    ensures HasEntry(data[off..]) ==>
              var idLen: nat := data[off];
              FirstEntry(data[off..]) == Entry(data[off + 1..off + 1 + idLen], U64At(data, off + 1 + idLen))
              && data[off..][EntryEnd(data[off..])..] == data[off + 1 + idLen + 8..]
  {
    var b := data[off..];
    if HasEntry(b) {
      var end := EntryEnd(b);
      DropTwice(data, off, end);
      SliceOfDrop(data, off, 1, end - 8);
      SliceOfDrop(data, off, end - 8, end);
    }
  }

  lemma PrependStep(es: seq<Entry>, b: seq<byte>, n: nat)
    requires n > 0
    ensures !HasEntry(b) ==> ReadEntries(b, n) == None
    ensures HasEntry(b) ==>
              Prepend(es, ReadEntries(b, n))
              == Prepend(es + [FirstEntry(b)], ReadEntries(b[EntryEnd(b)..], n - 1))
  {
    if HasEntry(b) {
      match ReadEntries(b[EntryEnd(b)..], n - 1)
      case None =>
      case Some((fs, rest)) => assert es + ([FirstEntry(b)] + fs) == es + [FirstEntry(b)] + fs;
    }
  }

  // ---- the decoder is exactly inverse to the encoding ----

  lemma EntryFields(e: Entry, rest: seq<byte>)
    requires |e.id| <= 255
    ensures var b := EncodeEntry(e) + rest;
            HasEntry(b) && FirstEntry(b) == e && b[EntryEnd(b)..] == rest
  {
    var b := EncodeEntry(e) + rest;
    assert b[1 + |e.id|..1 + |e.id| + 8] == Le8(e.expiresAt);
    U64Written(b, 1 + |e.id|, e.expiresAt);
  }

  /** Reading back what was written. */
  lemma {:induction false} ReadOfEncode(es: seq<Entry>, rest: seq<byte>)
    requires WellSized(es)
    ensures ReadEntries(EncodeEntries(es) + rest, |es|) == Some((es, rest))
  {
    if es == [] {
      Nil(rest);
    } else {
      Assoc(EncodeEntry(es[0]), EncodeEntries(es[1..]), rest);
      EntryFields(es[0], EncodeEntries(es[1..]) + rest);
      ReadOfEncode(es[1..], rest);
      HeadTail(es);
    }
  }

  lemma FirstEntryWritten(b: seq<byte>)
    requires HasEntry(b)
    ensures |FirstEntry(b).id| <= 255 && b == EncodeEntry(FirstEntry(b)) + b[EntryEnd(b)..]
  {
    var end := EntryEnd(b);
    U64Bytes(b, end - 8);
    assert b == [b[0]] + b[1..end - 8] + b[end - 8..end] + b[end..];
  }

  /** Whatever is read was written that way: no second encoding decodes to the same entries. */
  lemma {:induction false} EncodeOfRead(b: seq<byte>, n: nat)
    requires ReadEntries(b, n).Some?
    ensures var (es, rest) := ReadEntries(b, n).value;
            |es| == n && WellSized(es) && b == EncodeEntries(es) + rest
  {
    if n == 0 {
      Nil(b);
    } else {
      var (e, tail) := (FirstEntry(b), b[EntryEnd(b)..]);
      FirstEntryWritten(b);
      EncodeOfRead(tail, n - 1);
      var (fs, rest) := ReadEntries(tail, n - 1).value;
      ConsTail(e, fs);
      Assoc(EncodeEntry(e), EncodeEntries(fs), rest);
    }
  }

  lemma {:induction false} EntriesSnoc(es: seq<Entry>, e: Entry)
    requires WellSized(es) && |e.id| <= 255
    ensures WellSized(es + [e])
    ensures EncodeEntries(es + [e]) == EncodeEntries(es) + EncodeEntry(e)
  {
    hide EncodeEntry;
    if es == [] {
      Nil([e]);
      Nil(EncodeEntry(e));
    } else {
      HeadOfSnoc(es, e);
      assert forall x <- es[1..] :: x in es;
      EntriesSnoc(es[1..], e);
      Assoc(EncodeEntry(es[0]), EncodeEntries(es[1..]), EncodeEntry(e));
    }
  }

  lemma {:induction false} EncodedLength(es: seq<Entry>)
    requires WellSized(es)
    ensures |EncodeEntries(es)| >= 9 * |es|
  {
    if es != [] {
      EncodedLength(es[1..]);
    }
  }

  /** The count field followed by the entries, as every encoder writes them. */
  function EntryBlock(es: seq<Entry>): seq<byte>
    requires WellSized(es)
  {
    Le4(|es|) + EncodeEntries(es)
  }

  lemma BlockIsRead(data: seq<byte>, off: nat, es: seq<Entry>, rest: seq<byte>)
    requires off <= |data| && WellSized(es) && |es| < 0x1_0000_0000 && data[off..] == EntryBlock(es) + rest
    ensures off + 4 <= |data| && U32At(data, off) == |es| <= (|data| - off - 4) / 9
    ensures ReadEntries(data[off + 4..], |es|) == Some((es, rest))
  {
    Parts(data[off..], Le4(|es|), EncodeEntries(es), rest);
    DropTwice(data, off, 4);
    EncodedLength(es);
    U32Written(data, off, |es|);
    ReadOfEncode(es, rest);
  }

  lemma ReadIsBlock(data: seq<byte>, off: nat, strict: bool)
    requires ParseEntries(data, off, strict).Ok?
    ensures off + 4 <= |data| && Canonical(ParseEntries(data, off, strict).value)
    ensures var es := ParseEntries(data, off, strict).value;
            ReadEntries(data[off + 4..], |es|).Some?
            && var rest := ReadEntries(data[off + 4..], |es|).value.1;
               data[off..] == EntryBlock(es) + rest && (strict ==> rest == [])
  {
    hide ReadEntries, EncodeEntries, Ascending;
    EncodeOfRead(data[off + 4..], U32At(data, off));
    U32Bytes(data, off);
    var (es, rest) := ReadEntries(data[off + 4..], U32At(data, off)).value;
    Join(data, off, off + 4, Le4(|es|), EncodeEntries(es), rest);
  }

  /** Lenient parsing accepts exactly an encoded ascending list followed by any bytes at all. */
  lemma LenientExact(data: seq<byte>, off: nat, es: seq<Entry>)
    requires off <= |data|
    ensures ParseEntries(data, off, false) == Ok(es)
       <==> Canonical(es) && EntryBlock(es) <= data[off..]
  {
    if ParseEntries(data, off, false) == Ok(es) {
      ReadIsBlock(data, off, false);
    } else if Canonical(es) && EntryBlock(es) <= data[off..] {
      BlockIsRead(data, off, es, data[off..][|EntryBlock(es)|..]);
      assert false;
    }
  }

  /** Strict parsing succeeds exactly on the one encoding of an ascending list, and returns that list. */
  lemma StrictExact(data: seq<byte>, off: nat, es: seq<Entry>)
    requires off <= |data|
    ensures ParseEntries(data, off, true) == Ok(es)
       <==> Canonical(es) && data[off..] == EntryBlock(es)
  {
    if ParseEntries(data, off, true) == Ok(es) {
      ReadIsBlock(data, off, true);
      assert EntryBlock(es) + [] == EntryBlock(es);
    } else if Canonical(es) && data[off..] == EntryBlock(es) {
      assert EntryBlock(es) + [] == EntryBlock(es);
      BlockIsRead(data, off, es, []);
      assert false;
    }
  }

  // ---- whole payloads ----

  datatype Payload = Payload(version: byte, entries: seq<Entry>)

  /** `parse_inner`: the header is skipped by its length, its contents are not read here. */
  function ParsePayload(data: seq<byte>, strict: bool): Result<Payload, ParseError> {
    if |data| < 11 then Err(InvalidPayload)
    else if data[0..4] != BLKL then Err(InvalidPayload)
    else if data[4] != 0x02 then Err(UnsupportedVersion)
    else
      match ParseEntries(data, 7 + U16At(data, 5), strict)
      case Err(e) => Err(e)
      case Ok(es) => Ok(Payload(data[4], es))
  }

  /** What the errors say: another version behind the magic; readable but for bytes that follow. */
  lemma ErrorsMean(data: seq<byte>, strict: bool)
    ensures ParsePayload(data, strict) == Err(UnsupportedVersion)
       <==> |data| >= 11 && data[..4] == [0x42, 0x4c, 0x4b, 0x4c] && data[4] != 2
    ensures ParseStrict(data) == Err(TrailingBytes) <==> ParseStrict(data).Err? && ParsePayload(data, false).Ok?
    ensures |data| < 11 || data[..4] != [0x42, 0x4c, 0x4b, 0x4c] ==> ParsePayload(data, strict) == Err(InvalidPayload)
  {
    hide U16At, ReadEntries, Ascending;
  }

  function ParseStrict(data: seq<byte>): Result<Payload, ParseError> { ParsePayload(data, true) }

  /** The bytes of a BLKL v2 payload with the given governance header and entries. */
  function EncodePayload(header: seq<byte>, es: seq<Entry>): seq<byte>
    requires WellSized(es)
  {
    BLKL + [0x02] + Le2(|header|) + header + EntryBlock(es)
  }

  lemma PayloadFields(header: seq<byte>, es: seq<Entry>, more: seq<byte>)
    requires WellSized(es) && |header| < 0x1_0000
    ensures var d := EncodePayload(header, es) + more;
            |d| >= 11 && d[0..4] == BLKL && d[4] == 0x02 && U16At(d, 5) == |header|
            && d[7..7 + |header|] == header && d[7 + |header|..] == EntryBlock(es) + more
  {
    var d := EncodePayload(header, es) + more;
    assert d[5..7] == Le2(|header|);
    U16Written(d, 5, |header|);
  }

  /** The bytes around the entry block of any payload that passes the fixed checks. */
  lemma PayloadSplit(data: seq<byte>)
    requires |data| >= 11 && data[0..4] == BLKL && data[4] == 0x02 && 7 + U16At(data, 5) <= |data|
    ensures var n := U16At(data, 5);
            data == BLKL + [0x02] + Le2(n) + data[7..7 + n] + data[7 + n..]
  {
    U16Bytes(data, 5);
    var n := U16At(data, 5);
    assert data == data[0..4] + [data[4]] + data[5..7] + data[7..7 + n] + data[7 + n..];
  }

  /** Encoding then parsing returns the entries, for every canonical list and every header. */
  lemma StrictOfEncode(header: seq<byte>, es: seq<Entry>)
    requires Canonical(es) && |header| < 0x1_0000
    ensures ParseStrict(EncodePayload(header, es)) == Ok(Payload(0x02, es))
  {
    var d := EncodePayload(header, es);
    PayloadFields(header, es, []);
    assert d + [] == d && EntryBlock(es) + [] == EntryBlock(es);
    StrictExact(d, 7 + |header|, es);
  }

  /** Whatever parses strictly is the encoding of its own header bytes and entries. */
  lemma EncodeOfStrict(data: seq<byte>)
    requires ParseStrict(data).Ok?
    ensures var p := ParseStrict(data).value;
            p.version == 0x02 && Canonical(p.entries)
    ensures |data| >= 7 && 7 + U16At(data, 5) <= |data|
    ensures data == EncodePayload(data[7..7 + U16At(data, 5)], ParseStrict(data).value.entries)
  {
    var off := 7 + U16At(data, 5);
    ReadIsBlock(data, off, true);
    StrictExact(data, off, ParseStrict(data).value.entries);
    PayloadSplit(data);
  }

  /** A payload parses strictly iff it is the encoding of some header and some ascending list. */
  lemma StrictPayloadExact(data: seq<byte>, es: seq<Entry>)
    ensures ParseStrict(data) == Ok(Payload(0x02, es))
       <==> Canonical(es) && exists header :: |header| < 0x1_0000 && data == EncodePayload(header, es)
  {
    hide ParsePayload, EncodePayload;
    if ParseStrict(data) == Ok(Payload(0x02, es)) {
      EncodeOfStrict(data);
    }
    if Canonical(es) {
      forall header | |header| < 0x1_0000 && data == EncodePayload(header, es) {
        StrictOfEncode(header, es);
      }
    }
  }

  /** Appended bytes are invisible to lenient parsing and are the only thing strict parsing reports. */
  lemma AppendedBytes(header: seq<byte>, es: seq<Entry>, more: seq<byte>)
    requires Canonical(es) && |header| < 0x1_0000 && more != []
    ensures ParsePayload(EncodePayload(header, es) + more, false) == Ok(Payload(0x02, es))
    ensures ParsePayload(EncodePayload(header, es) + more, true) == Err(TrailingBytes)
  {
    PayloadFields(header, es, more);
    BlockIsRead(EncodePayload(header, es) + more, 7 + |header|, es, more);
  }

  /** No strict prefix of a canonical payload parses, even leniently. */
  lemma StrictPrefixRejected(header: seq<byte>, es: seq<Entry>, cut: nat)
    requires Canonical(es) && |header| < 0x1_0000 && cut < |EncodePayload(header, es)|
    ensures ParsePayload(EncodePayload(header, es)[..cut], false).Err?
  {
    hide ReadEntries, EntryBlock, EncodePayload, ParseEntries, Ascending;
    var full := EncodePayload(header, es);
    var (d, off) := (full[..cut], 7 + |header|);
    if ParsePayload(d, false).Ok? {
      PayloadFields(header, es, []);
      Nil(full);
      assert d[5..7] == full[5..7];
      ReadIsBlock(d, off, false);
      var fs := ParsePayload(d, false).value.entries;
      var rest := ReadEntries(d[off + 4..], |fs|).value.1;
      PrefixDrop(full, off, cut, EntryBlock(fs), rest);
      BlockIsRead(full, off, fs, rest + full[cut..]);
      BlockIsRead(full, off, es, []);
      assert false;
    }
  }
}
