/** The WitnessArgs table (RFC 0008), its builders and two readers. */
module WitnessArgs {
  import opened Bytes
  import opened Seqs
  import opened Buffer
  import opened Witness

  // ---- GOV1 v4 ----

  const GOV1: seq<byte> := [0x47, 0x4f, 0x56, 0x31]

  datatype Gov1 = Gov1(
    proposalIdHash: Bytes32, voteDigestHash: Bytes32, oldRoot: Bytes32, newRoot: Bytes32,
    proposalDataHash: Bytes32, reviewDelayMs: u64)

  /** The 173 bytes of `buildGov1WitnessV4`. */
  function EncodeGov1(g: Gov1): (b: seq<byte>)
    ensures |b| == 173
  {
    GOV1 + [0x04] + g.proposalIdHash + g.voteDigestHash + g.oldRoot + g.newRoot + g.proposalDataHash
      + Le8(g.reviewDelayMs)
  }

  /** `parse_gov1_binding` of governance-lock. */
  function ParseGov1(p: seq<byte>): Option<Gov1> {
    if |p| != 173 || p[0..4] != GOV1 || p[4] != 0x04 then None
    else Some(Gov1(p[5..37], p[37..69], p[69..101], p[101..133], p[133..165], U64At(p, 165)))
  }

  /** `buildGov1WitnessV4`. */
  method BuildGov1WitnessV4(g: Gov1) returns (buf: array<byte>)
    ensures fresh(buf) && buf[..] == EncodeGov1(g)
  {
    hide Written, Le8;
    buf := new byte[173](_ => 0);
    AllWritten(buf);
    var off := 0;
    off := Append(buf, off, GOV1);
    off := Append(buf, off, [0x04]);
    off := Append(buf, off, g.proposalIdHash);
    off := Append(buf, off, g.voteDigestHash);
    off := Append(buf, off, g.oldRoot);
    off := Append(buf, off, g.newRoot);
    off := Append(buf, off, g.proposalDataHash);
    off := AppendU64(buf, off, g.reviewDelayMs);
    AllWritten(buf);
  }

  lemma Gov1Fields(g: Gov1)
    ensures var p := EncodeGov1(g);
            p[0..4] == GOV1 && p[4] == 0x04 && p[5..37] == g.proposalIdHash && p[37..69] == g.voteDigestHash
            && p[69..101] == g.oldRoot && p[101..133] == g.newRoot && p[133..165] == g.proposalDataHash
            && p[165..173] == Le8(g.reviewDelayMs)
  {
    hide Le8;
    SevenParts<byte>(EncodeGov1(g), GOV1 + [0x04], g.proposalIdHash, g.voteDigestHash, g.oldRoot, g.newRoot,
                     g.proposalDataHash, Le8(g.reviewDelayMs));
    SliceOfSlice(EncodeGov1(g), 0, 5, 0, 4);
  }

  lemma SevenParts<T>(s: seq<T>, a: seq<T>, b: seq<T>, c: seq<T>, d: seq<T>, e: seq<T>, f: seq<T>, g: seq<T>)
    requires s == a + b + c + d + e + f + g
    requires |a| == 5 && |b| == |c| == |d| == |e| == |f| == 32 && |g| == 8
    ensures s[0..5] == a && s[5..37] == b && s[37..69] == c && s[69..101] == d && s[101..133] == e
    ensures s[133..165] == f && s[165..173] == g
  {
  }

  /** GOV1 payloads and bindings are in exact correspondence. */
  lemma Gov1Exact(p: seq<byte>, g: Gov1)
    ensures ParseGov1(p) == Some(g) <==> p == EncodeGov1(g)
    ensures EncodeGov1(g)[..5] == [0x47, 0x4f, 0x56, 0x31, 4]
  {
    Gov1Magic(g);
    if p == EncodeGov1(g) {
      Gov1Fields(g);
      U64Written(p, 165, g.reviewDelayMs);
    }
    if ParseGov1(p) == Some(g) {
      U64Bytes(p, 165);
      SliceUp(p);
      assert [p[4]] == [0x04 as byte];
    }
  }

  lemma Gov1Magic(g: Gov1)
    ensures EncodeGov1(g)[..5] == [0x47, 0x4f, 0x56, 0x31, 4]
  {
    hide Le8;
    Gov1Fields(g);
    assert EncodeGov1(g)[..5] == EncodeGov1(g)[0..4] + [EncodeGov1(g)[4]];
  }

  lemma SliceUp<T>(p: seq<T>)
    requires |p| == 173
    ensures p == p[0..4] + [p[4]] + p[5..37] + p[37..69] + p[69..101] + p[101..133] + p[133..165] + p[165..173]
  {
  }

  // ---- the table ----

  /** An optional Bytes field: nothing, or a length and that many bytes. */
  function BytesOpt(data: Option<seq<byte>>): seq<byte> {
    match data
    case None => []
    case Some(d) => Le4(|d|) + d
  }

  /** `decode_bytesopt`, in both scripts: Err on a bad length, None on an empty field. */
  function DecodeBytesOpt(field: seq<byte>): Result<Option<seq<byte>>, ()> {
    if field == [] then Ok(None)
    else if |field| < 4 then Err(())
    else if |field| != 4 + U32At(field, 0) then Err(())
    else Ok(Some(field[4..]))
  }

  /** A field decodes iff it is what the builder writes for the result. */
  lemma BytesOptExact(field: seq<byte>, o: Option<seq<byte>>)
    requires o.Some? ==> |o.value| < 0x1_0000_0000
    ensures DecodeBytesOpt(field) == Ok(o) <==> field == BytesOpt(o)
  {
    hide Le4, U32At;
    if o.Some? && field == BytesOpt(o) {
      DecodeOfBytesOpt(o.value);
    }
    if o.Some? && DecodeBytesOpt(field) == Ok(o) {
      U32Bytes(field, 0);
      assert field == field[0..4] + field[4..];
    }
  }

  function TableHead(size: nat, offInputType: nat, offOutputType: nat): (b: seq<byte>)
    ensures |b| == 16
  {
    Le4(size) + Le4(16) + Le4(offInputType) + Le4(offOutputType)
  }

  /** The bytes of `buildWitnessArgs`. */
  function EncodeArgs(lock: Option<seq<byte>>, inputType: Option<seq<byte>>, outputType: Option<seq<byte>>): seq<byte> {
    var (l, i, o) := (BytesOpt(lock), BytesOpt(inputType), BytesOpt(outputType));
    TableHead(16 + |l| + |i| + |o|, 16 + |l|, 16 + |l| + |i|) + l + i + o
  }

  method PutTableHead(buf: array<byte>, size: nat, offInputType: nat, offOutputType: nat)
    requires buf.Length >= 16
    modifies buf
    ensures Written(buf, 16) == TableHead(size, offInputType, offOutputType)
  {
    hide Written, Le4;
    var off := Append(buf, 0, Le4(size));
    off := Append(buf, off, Le4(16));
    off := Append(buf, off, Le4(offInputType));
    off := Append(buf, off, Le4(offOutputType));
  }

  /** `buildWitnessArgs`. */
  method BuildWitnessArgs(lock: Option<seq<byte>>, inputType: Option<seq<byte>>, outputType: Option<seq<byte>>)
    returns (buf: array<byte>)
    ensures fresh(buf) && buf[..] == EncodeArgs(lock, inputType, outputType)
  {
    hide Written, TableHead, BytesOpt;
    var (lockOpt, inputTypeOpt, outputTypeOpt) := (BytesOpt(lock), BytesOpt(inputType), BytesOpt(outputType));
    var offLock := 16;
    var offInputType := offLock + |lockOpt|;
    var offOutputType := offInputType + |inputTypeOpt|;
    var totalSize := offOutputType + |outputTypeOpt|;
    buf := new byte[totalSize](_ => 0);
    AllWritten(buf);
    PutTableHead(buf, totalSize, offInputType, offOutputType);
    var off := Append(buf, offLock, lockOpt);
    off := Append(buf, off, inputTypeOpt);
    off := Append(buf, off, outputTypeOpt);
    AllWritten(buf);
  }

  /** The witness fields governance-lock works with. */
  datatype Fields = Fields(votes: seq<Vote>, gov1Payload: seq<byte>)

  /** `load_witness_fields` of governance-lock, from the witness bytes; None is ERR_INVALID_WITNESS. */
  function LockReads(buf: seq<byte>): Option<Fields> {
    if |buf| < 16 || U32At(buf, 0) != |buf| then None
    else
      var (offLock, offInputType, offOutputType) := (U32At(buf, 4), U32At(buf, 8), U32At(buf, 12));
      if !(16 <= offLock <= offInputType <= offOutputType <= |buf|) then None
      else
        match DecodeBytesOpt(buf[offLock..offInputType])
        case Ok(Some(lockData)) =>
          (match DecodeVotes(lockData)
           case None => None
           case Some(votes) =>
             match DecodeBytesOpt(buf[offInputType..offOutputType])
             case Ok(Some(payload)) => if payload == [] then None else Some(Fields(votes, payload))
             case _ => None)
        case _ => None
  }

  /** The same with the vote loop run on the lock field. */
  method LoadWitnessFields(buf: seq<byte>) returns (r: Option<Fields>)
    ensures r == LockReads(buf)
  {
    hide DecodeVotes, U32At;
    if |buf| < 16 {
      return None;
    }
    var fullSize := U32At(buf, 0);
    if fullSize != |buf| {
      return None;
    }
    var offLock := U32At(buf, 4);
    var offInputType := U32At(buf, 8);
    var offOutputType := U32At(buf, 12);
    if !(16 <= offLock && offLock <= offInputType && offInputType <= offOutputType && offOutputType <= |buf|) {
      return None;
    }
    match DecodeBytesOpt(buf[offLock..offInputType])
    case Ok(Some(lockData)) =>
      var votes := DecodeVotesLoop(lockData);
      if votes.None? {
        return None;
      }
      match DecodeBytesOpt(buf[offInputType..offOutputType]) {
        case Ok(Some(payload)) => return if payload == [] then None else Some(Fields(votes.value, payload));
        case _ => return None;
      }
    case _ =>
      return None;
  }

  /** `load_governance_witness_payload` of blacklist-registry: it never looks at the lock field or its offset. */
  function RegistryReads(buf: seq<byte>): Option<seq<byte>> {
    if |buf| < 16 || U32At(buf, 0) != |buf| then None
    else
      var (offInputType, offOutputType) := (U32At(buf, 8), U32At(buf, 12));
      if offInputType < 16 || offOutputType < offInputType || offOutputType > |buf| then None
      else
        match DecodeBytesOpt(buf[offInputType..offOutputType])
        case Ok(Some(payload)) => if payload == [] then None else Some(payload)
        case _ => None
  }

  /** The same, check by check. */
  method LoadGovernanceWitnessPayload(buf: seq<byte>) returns (r: Option<seq<byte>>)
    ensures r == RegistryReads(buf)
  {
    hide U32At;
    if |buf| < 16 {
      return None;
    }
    var fullSize := U32At(buf, 0);
    if fullSize != |buf| {
      return None;
    }
    var offInputType := U32At(buf, 8);
    var offOutputType := U32At(buf, 12);
    if offInputType < 16 || offOutputType < offInputType || offOutputType > fullSize {
      return None;
    }
    var field := buf[offInputType..offOutputType];
    if field == [] || |field| < 4 || |field| != 4 + U32At(field, 0) {
      return None;
    }
    var payload := field[4..];
    return if payload == [] then None else Some(payload);
  }

  /**
   * The lock reads a witness iff the registry does and the lock field holds decodable votes between the
   * table head and the input_type field; the payload is then the same.
   */
  lemma ReadersAgree(buf: seq<byte>)
    ensures LockReads(buf).Some?
       <==> RegistryReads(buf).Some? && 16 <= U32At(buf, 4) <= U32At(buf, 8)
            && DecodeBytesOpt(buf[U32At(buf, 4)..U32At(buf, 8)]).Ok?
            && DecodeBytesOpt(buf[U32At(buf, 4)..U32At(buf, 8)]).value.Some?
            && DecodeVotes(DecodeBytesOpt(buf[U32At(buf, 4)..U32At(buf, 8)]).value.value).Some?
    ensures LockReads(buf).Some? ==> RegistryReads(buf) == Some(LockReads(buf).value.gov1Payload)
  {
    hide DecodeVotes, U32At, DecodeBytesOpt;
  }

  // ---- round trip ----

  lemma DecodeOfBytesOpt(d: seq<byte>)
    requires |d| < 0x1_0000_0000
    ensures DecodeBytesOpt(BytesOpt(Some(d))) == Ok(Some(d))
  {
    hide Le4;
    var field := BytesOpt(Some(d));
    Nil(field);
    Parts(field, Le4(|d|), d, []);
    U32Written(field, 0, |d|);
  }

  lemma ArgsFields(lock: Option<seq<byte>>, inputType: Option<seq<byte>>, outputType: Option<seq<byte>>)
    requires |EncodeArgs(lock, inputType, outputType)| < 0x1_0000_0000
    ensures var (b, l, i) := (EncodeArgs(lock, inputType, outputType), |BytesOpt(lock)|, |BytesOpt(inputType)|);
            |b| >= 16 + l + i && U32At(b, 0) == |b| && U32At(b, 4) == 16 && U32At(b, 8) == 16 + l
              && U32At(b, 12) == 16 + l + i
            && b[16..16 + l] == BytesOpt(lock) && b[16 + l..16 + l + i] == BytesOpt(inputType)
  {
    hide Le4, BytesOpt, TableHead, U32At;
    var b := EncodeArgs(lock, inputType, outputType);
    var (l, i, o) := (BytesOpt(lock), BytesOpt(inputType), BytesOpt(outputType));
    var size := 16 + |l| + |i| + |o|;
    ThreeFields(b, TableHead(size, 16 + |l|, 16 + |l| + |i|), l, i, o);
    TableWords(b, size, 16 + |l|, 16 + |l| + |i|);
  }

  lemma ThreeFields<T>(b: seq<T>, head: seq<T>, l: seq<T>, i: seq<T>, o: seq<T>)
    requires b == head + l + i + o && |head| == 16
    ensures |b| == 16 + |l| + |i| + |o| && b[..16] == head
    ensures b[16..16 + |l|] == l && b[16 + |l|..16 + |l| + |i|] == i
  {
    Parts(b, head + l, i, o);
    Assoc(head + l, i, o);
    Parts(b, head, l, i + o);
  }

  lemma TableWords(b: seq<byte>, size: nat, offInputType: nat, offOutputType: nat)
    requires |b| >= 16 && b[..16] == TableHead(size, offInputType, offOutputType)
    requires size < 0x1_0000_0000 && offInputType < 0x1_0000_0000 && offOutputType < 0x1_0000_0000
    ensures U32At(b, 0) == size && U32At(b, 4) == 16 && U32At(b, 8) == offInputType && U32At(b, 12) == offOutputType
  {
    hide Le4, U32At;
    HeadWords(b, Le4(size), Le4(16), Le4(offInputType), Le4(offOutputType));
    U32Written(b, 0, size);
    U32Written(b, 4, 16);
    U32Written(b, 8, offInputType);
    U32Written(b, 12, offOutputType);
  }

  lemma HeadWords<T>(b: seq<T>, p: seq<T>, q: seq<T>, r: seq<T>, s: seq<T>)
    requires |b| >= 16 && |p| == |q| == |r| == |s| == 4 && b[..16] == p + q + r + s
    ensures b[0..4] == p && b[4..8] == q && b[8..12] == r && b[12..16] == s
  {
    Parts(b[..16], p + q, r, s);
    SliceOfSlice(b, 0, 16, 0, 4);
    SliceOfSlice(b, 0, 16, 4, 8);
    SliceOfSlice(b, 0, 16, 8, 12);
    SliceOfSlice(b, 0, 16, 12, 16);
  }

  /** The witness of an execute transaction. */
  function GovernanceWitness(vs: seq<Vote>, g: Gov1): seq<byte>
    requires Buildable(vs)
  {
    EncodeArgs(Some(VoteWitness(vs)), Some(EncodeGov1(g)), None)
  }

  /** governance-lock gets exactly the votes and the binding back, and blacklist-registry the same binding. */
  lemma RoundTrip(vs: seq<Vote>, g: Gov1)
    requires Buildable(vs)
    ensures LockReads(GovernanceWitness(vs, g)) == Some(Fields(vs, EncodeGov1(g)))
    ensures RegistryReads(GovernanceWitness(vs, g)) == Some(EncodeGov1(g))
    ensures ParseGov1(EncodeGov1(g)) == Some(g)
  {
    hide DecodeVotes, U32At, EncodeGov1, ParseGov1, EncodeVotes, DecodeBytesOpt;
    var (lock, payload) := (VoteWitness(vs), EncodeGov1(g));
    VotesSize(vs);
    DecodeOfVoteWitness(vs);
    Gov1Exact(payload, g);
    DecodeOfBytesOpt(lock);
    DecodeOfBytesOpt(payload);
    ArgsFields(Some(lock), Some(payload), None);
  }
}
