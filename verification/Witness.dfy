/** The governance witness: the validator votes in its lock field. */
module Witness {
  import opened Bytes
  import opened Seqs
  import opened Buffer

  type Sig = b: seq<byte> | |b| == 65 witness [
    0, 0, 0, 0, 0, 0, 0, 0, 0, 0, 0, 0, 0, 0, 0, 0, 0, 0, 0, 0, 0, 0, 0, 0, 0, 0, 0, 0, 0, 0, 0, 0, 0,
    0, 0, 0, 0, 0, 0, 0, 0, 0, 0, 0, 0, 0, 0, 0, 0, 0, 0, 0, 0, 0, 0, 0, 0, 0, 0, 0, 0, 0, 0, 0, 0]

  datatype Vote = Vote(
    pubkey: Pubkey, vote: byte, timestamp: seq<byte>, sig: Sig, leafIndex: u32, proof: seq<Bytes32>)

  // ---- one vote ----

  function JoinHashes(hs: seq<Bytes32>): (b: seq<byte>)
    ensures |b| == 32 * |hs|
  {
    if hs == [] then [] else JoinHashes(hs[..|hs| - 1]) + hs[|hs| - 1]
  }

  function SplitHashes(b: seq<byte>, n: nat): (hs: seq<Bytes32>)
    requires |b| == 32 * n
    ensures |hs| == n
  {
    if n == 0 then [] else SplitHashes(b[..32 * (n - 1)], n - 1) + [b[32 * (n - 1)..]]
  }

  lemma {:induction false} SplitOfJoin(hs: seq<Bytes32>)
    ensures SplitHashes(JoinHashes(hs), |hs|) == hs
  {
    if hs != [] {
      var init := hs[..|hs| - 1];
      SplitOfJoin(init);
      Parts(JoinHashes(hs), JoinHashes(init), hs[|hs| - 1], []);
      Nil(JoinHashes(hs));
      InitLast(hs);
    }
  }

  lemma {:induction false} JoinOfSplit(b: seq<byte>, n: nat)
    requires |b| == 32 * n
    ensures JoinHashes(SplitHashes(b, n)) == b
  {
    if n > 0 {
      var (init, last) := (SplitHashes(b[..32 * (n - 1)], n - 1), b[32 * (n - 1)..]);
      JoinOfSplit(b[..32 * (n - 1)], n - 1);
      SnocInit(init, last);
      TakeDrop(b, 32 * (n - 1));
    }
  }

  /** The sizes the one- and two-byte length fields and the lock's timestamp limit allow. */
  predicate Encodable(v: Vote) {
    |v.timestamp| <= 100 && |v.proof| <= 255
  }

  function VoteHead(v: Vote): (b: seq<byte>)
    ensures |b| == 36
  {
    v.pubkey + [v.vote] + Le2(|v.timestamp|)
  }

  /**
   * pubkey(33) | vote(1) | timestamp_len(2 LE) | timestamp | signature(65) | leaf_index(4 LE) | proof_count(1) |
   * hashes.
   */
  function EncodeVote(v: Vote): (b: seq<byte>)
    requires Encodable(v)
    ensures |b| == 106 + |v.timestamp| + 32 * |v.proof|
  {
    VoteHead(v) + v.timestamp + v.sig + Le4(v.leafIndex) + [|v.proof|] + JoinHashes(v.proof)
  }

  predicate HasHead(b: seq<byte>) {
    |b| >= 36 && U16At(b, 34) <= 100 && 36 + U16At(b, 34) + 70 <= |b|
  }

  function ProofCount(b: seq<byte>): nat
    requires HasHead(b)
  {
    b[U16At(b, 34) + 105]
  }

  function VoteEnd(b: seq<byte>): nat
    requires HasHead(b)
  {
    106 + U16At(b, 34) + ProofCount(b) * 32
  }

  /** A whole vote stands at the front of `b`. */
  predicate HasVote(b: seq<byte>) {
    HasHead(b) && VoteEnd(b) <= |b|
  }

  function FirstVote(b: seq<byte>): Vote
    requires HasVote(b)
  {
    var t := U16At(b, 34);
    Vote(b[0..33], b[33], b[36..36 + t], b[36 + t..101 + t], U32At(b, 101 + t),
         SplitHashes(b[106 + t..VoteEnd(b)], ProofCount(b)))
  }

  lemma EncodedVoteIsRead(v: Vote, rest: seq<byte>)
    requires Encodable(v)
    ensures var b := EncodeVote(v) + rest;
            HasVote(b) && FirstVote(b) == v && b[VoteEnd(b)..] == rest
  {
    hide JoinHashes, Le2, Le4;
    var b := EncodeVote(v) + rest;
    var t := |v.timestamp|;
    var (h, hashes) := (VoteHead(v), JoinHashes(v.proof));
    var (l, c) := (Le4(v.leafIndex), [|v.proof| as byte]);
    SixParts(b, h, v.timestamp, v.sig, l, c, hashes, rest);
    HeadParts(b, v);
    U32Written(b, 101 + t, v.leafIndex);
    SplitOfJoin(v.proof);
  }

  lemma SixParts<T>(s: seq<T>, a: seq<T>, b: seq<T>, c: seq<T>, d: seq<T>, e: seq<T>, f: seq<T>, rest: seq<T>)
    requires s == a + b + c + d + e + f + rest
    ensures s[..|a|] == a && s[|a|..|a + b|] == b && s[|a + b|..|a + b + c|] == c
    ensures s[|a + b + c|..|a + b + c + d|] == d && s[|a + b + c + d|..|a + b + c + d + e|] == e
    ensures s[|a + b + c + d + e|..|a + b + c + d + e + f|] == f && s[|a + b + c + d + e + f|..] == rest
  {
  }

  lemma HeadParts(b: seq<byte>, v: Vote)
    requires |b| >= 36 && b[..36] == VoteHead(v) && |v.timestamp| <= 100
    ensures b[0..33] == v.pubkey && b[33] == v.vote && U16At(b, 34) == |v.timestamp|
  {
    hide Le2;
    Parts(b[..36], v.pubkey, [v.vote], Le2(|v.timestamp|));
    SliceOfSlice(b, 0, 36, 34, 36);
    U16Written(b, 34, |v.timestamp|);
  }

  // ---- the vote list ----

  predicate AllEncodable(vs: seq<Vote>) {
    forall i :: 0 <= i < |vs| ==> Encodable(vs[i])
  }

  function EncodeVotes(vs: seq<Vote>): seq<byte>
    requires AllEncodable(vs)
  {
    if vs == [] then [] else EncodeVote(vs[0]) + EncodeVotes(vs[1..])
  }

  function ReadVotes(b: seq<byte>, n: nat): Option<(seq<Vote>, seq<byte>)> {
    if n == 0 then Some(([], b))
    else if !HasVote(b) then None
    else
      match ReadVotes(b[VoteEnd(b)..], n - 1)
      case None => None
      case Some((vs, rest)) => Some(([FirstVote(b)] + vs, rest))
  }

  /** The votes in a lock field: the count byte, the 106-byte pre-check, exactly that many votes and nothing after. */
  function DecodeVotes(lock: seq<byte>): Option<seq<Vote>> {
    if lock == [] then None
    else
      var n: nat := lock[0];
      if 1 + n * 106 > |lock| then None
      else
        match ReadVotes(lock[1..], n)
        case None => None
        case Some((vs, rest)) => if rest == [] then Some(vs) else None
  }

  /** The content `buildValidatorVoteWitness` writes. */
  function VoteWitness(vs: seq<Vote>): seq<byte>
    requires AllEncodable(vs) && |vs| <= 255
  {
    [|vs|] + EncodeVotes(vs)
  }

  lemma {:induction false} ReadOfEncode(vs: seq<Vote>, rest: seq<byte>)
    requires AllEncodable(vs)
    ensures ReadVotes(EncodeVotes(vs) + rest, |vs|) == Some((vs, rest))
  {
    hide HasVote, FirstVote, VoteEnd, EncodeVote;
    if vs == [] {
      Nil(rest);
    } else {
      Assoc(EncodeVote(vs[0]), EncodeVotes(vs[1..]), rest);
      EncodedVoteIsRead(vs[0], EncodeVotes(vs[1..]) + rest);
      ReadOfEncode(vs[1..], rest);
      HeadTail(vs);
    }
  }

  lemma {:induction false} VotesSize(vs: seq<Vote>)
    requires AllEncodable(vs)
    ensures 106 * |vs| <= |EncodeVotes(vs)| <= 8366 * |vs|
  {
    if vs != [] {
      VotesSize(vs[1..]);
    }
  }

  /** What the builder writes is decoded to the same votes; the pre-check does not reject it. */
  lemma DecodeOfVoteWitness(vs: seq<Vote>)
    requires AllEncodable(vs) && |vs| <= 255
    ensures DecodeVotes(VoteWitness(vs)) == Some(vs)
  {
    var lock := VoteWitness(vs);
    VotesSize(vs);
    ReadOfEncode(vs, []);
    Nil(EncodeVotes(vs));
    ConsTail(lock[0], EncodeVotes(vs));
  }

  lemma ReadVoteWasWritten(b: seq<byte>)
    requires HasVote(b)
    ensures Encodable(FirstVote(b)) && EncodeVote(FirstVote(b)) == b[..VoteEnd(b)]
  {
    hide SplitHashes, JoinHashes, Le2, Le4;
    var t := U16At(b, 34);
    U16Bytes(b, 34);
    U32Bytes(b, 101 + t);
    JoinOfSplit(b[106 + t..VoteEnd(b)], ProofCount(b));
    Reassemble(b, t, VoteEnd(b));
  }

  lemma Reassemble<T>(b: seq<T>, t: nat, end: nat)
    requires 106 + t <= end <= |b|
    ensures b[..end] == (b[0..33] + [b[33]] + b[34..36]) + b[36..36 + t] + b[36 + t..101 + t]
                        + b[101 + t..105 + t] + [b[105 + t]] + b[106 + t..end]
  {
  }

  /** Whatever decodes was written that way. */
  lemma {:induction false} EncodeOfRead(b: seq<byte>, n: nat)
    requires ReadVotes(b, n).Some?
    ensures var (vs, rest) := ReadVotes(b, n).value;
            |vs| == n && AllEncodable(vs) && b == EncodeVotes(vs) + rest
  {
    hide HasHead, FirstVote, VoteEnd, EncodeVote;
    if n == 0 {
      Nil(b);
    } else {
      var (v, tail) := (FirstVote(b), b[VoteEnd(b)..]);
      ReadVoteWasWritten(b);
      TakeDrop(b, VoteEnd(b));
      EncodeOfRead(tail, n - 1);
      var (ws, rest) := ReadVotes(tail, n - 1).value;
      ConsTail(v, ws);
      Assoc(EncodeVote(v), EncodeVotes(ws), rest);
    }
  }

  /** A lock field decodes to some votes iff it is what the builder writes for them. */
  lemma DecodeVotesExact(lock: seq<byte>, vs: seq<Vote>)
    ensures DecodeVotes(lock) == Some(vs)
       <==> AllEncodable(vs) && |vs| <= 255 && lock == VoteWitness(vs)
  {
    if DecodeVotes(lock) == Some(vs) {
      EncodeOfRead(lock[1..], lock[0]);
      Nil(EncodeVotes(vs));
      HeadTail(lock);
    }
    if AllEncodable(vs) && |vs| <= 255 && lock == VoteWitness(vs) {
      DecodeOfVoteWitness(vs);
    }
  }

  // ---- the decoding loop ----

  ghost function Prepend(vs: seq<Vote>, r: Option<(seq<Vote>, seq<byte>)>): Option<(seq<Vote>, seq<byte>)> {
    match r
    case None => None
    case Some((ws, rest)) => Some((vs + ws, rest))
  }

  lemma PrependStep(vs: seq<Vote>, b: seq<byte>, n: nat)
    requires n > 0
    ensures !HasVote(b) ==> ReadVotes(b, n) == None
    ensures HasVote(b) ==>
              Prepend(vs, ReadVotes(b, n)) == Prepend(vs + [FirstVote(b)], ReadVotes(b[VoteEnd(b)..], n - 1))
  {
    hide HasHead, FirstVote, VoteEnd;
    if HasVote(b) {
      match ReadVotes(b[VoteEnd(b)..], n - 1)
      case None =>
      case Some((ws, rest)) => Assoc(vs, [FirstVote(b)], ws);
    }
  }

  lemma PrependEnds(vs: seq<Vote>, b: seq<byte>, r: Option<(seq<Vote>, seq<byte>)>)
    ensures Prepend([], r) == r && Prepend(vs, ReadVotes(b, 0)) == Some((vs, b))
  {
    Nil(vs);
    if r.Some? {
      Nil(r.value.0);
    }
  }

  /** Reading a vote at an offset is reading it from the front of what is left. */
  lemma VoteAt(data: seq<byte>, off: nat)
    requires off <= |data|
    ensures HasHead(data[off..])
       <==> off + 36 <= |data| && U16At(data, off + 34) <= 100 && off + 36 + U16At(data, off + 34) + 70 <= |data|
    ensures HasHead(data[off..]) ==>
              var t := U16At(data, off + 34);
              U16At(data[off..], 34) == t
              && ProofCount(data[off..]) == data[off + 105 + t]
              && VoteEnd(data[off..]) == 106 + t + ProofCount(data[off..]) * 32
    ensures HasVote(data[off..]) ==>
              var (t, n) := (U16At(data, off + 34), ProofCount(data[off..]));
              off + 106 + t + 32 * n <= |data|
              && data[off..][VoteEnd(data[off..])..] == data[off + 106 + t + 32 * n..]
              && FirstVote(data[off..]) == Vote(
                   data[off..off + 33], data[off + 33], data[off + 36..off + 36 + t], data[off + 36 + t..off + 101 + t],
                   U32At(data, off + 101 + t), SplitHashes(data[off + 106 + t..off + 106 + t + 32 * n], n))
  {
    hide SplitHashes;
    if off + 36 <= |data| {
      SliceOfDrop(data, off, 34, 36);
      var t := U16At(data, off + 34);
      if HasVote(data[off..]) {
        var n := ProofCount(data[off..]);
        DropTwice(data, off, 106 + t + 32 * n);
        SliceOfDrop(data, off, 0, 33);
        SliceOfDrop(data, off, 36, 36 + t);
        SliceOfDrop(data, off, 36 + t, 101 + t);
        SliceOfDrop(data, off, 101 + t, 105 + t);
        SliceOfDrop(data, off, 106 + t, 106 + t + 32 * n);
      }
    }
  }

  /** The inner loop: `count` hashes of 32 bytes. */
  method TakeHashes(data: seq<byte>, start: nat, count: nat) returns (hashes: seq<Bytes32>)
    requires start + 32 * count <= |data|
    ensures hashes == SplitHashes(data[start..start + 32 * count], count)
  {
    hashes := [];
    var off := start;
    for i := 0 to count
      invariant off == start + 32 * i
      invariant hashes == SplitHashes(data[start..start + 32 * i], i)
    {
      var hash := data[off..off + 32];
      SliceOfSlice(data, start, start + 32 * (i + 1), 0, 32 * i);
      SliceOfSlice(data, start, start + 32 * (i + 1), 32 * i, 32 * (i + 1));
      off := off + 32;
      hashes := hashes + [hash];
    }
  }

  /** The vote part of `load_witness_fields`: `off` moves over the field, votes are pushed. */
  method DecodeVotesLoop(lock: seq<byte>) returns (r: Option<seq<Vote>>)
    ensures r == DecodeVotes(lock)
  {
    hide ReadVotes, HasVote, HasHead, FirstVote, VoteEnd, ProofCount, SplitHashes;
    if lock == [] {
      return None;
    }
    var voteCount: nat := lock[0];
    if 1 + voteCount * 106 > |lock| {
      return None;
    }
    var votes: seq<Vote> := [];
    var off := 1;
    ghost var whole := ReadVotes(lock[1..], voteCount);
    PrependEnds([], [], whole);
    for k := 0 to voteCount
      invariant 1 <= off <= |lock|
      invariant whole == Prepend(votes, ReadVotes(lock[off..], voteCount - k))
    {
      VoteAt(lock, off);
      PrependStep(votes, lock[off..], voteCount - k);
      HasVoteMeans(lock[off..]);
      if off + 33 + 1 + 2 > |lock| {
        return None;
      }
      var pubkey := lock[off..off + 33];
      off := off + 33;
      var vote := lock[off];
      off := off + 1;
      var timestampLen := U16At(lock, off);
      if timestampLen > 100 {
        return None;
      }
      off := off + 2;
      if off + timestampLen + 65 + 4 + 1 > |lock| {
        return None;
      }
      var timestamp := lock[off..off + timestampLen];
      off := off + timestampLen;
      var sig := lock[off..off + 65];
      off := off + 65;
      var leafIndex := U32At(lock, off);
      off := off + 4;
      var proofCount: nat := lock[off];
      off := off + 1;
      if off + proofCount * 32 > |lock| {
        return None;
      }
      var proof := TakeHashes(lock, off, proofCount);
      off := off + proofCount * 32;
      votes := votes + [Vote(pubkey, vote, timestamp, sig, leafIndex, proof)];
    }
    PrependEnds(votes, lock[off..], whole);
    if off != |lock| {
      return None;
    }
    return Some(votes);
  }

  lemma HasVoteMeans(b: seq<byte>)
    ensures HasVote(b) <==> HasHead(b) && VoteEnd(b) <= |b|
  {
  }

  // ---- the builder ----

  /** When `buildValidatorVoteWitness` does not throw. */
  predicate Buildable(vs: seq<Vote>) {
    |vs| <= 255 && AllEncodable(vs)
  }

  function SizeOf(vs: seq<Vote>): nat {
    if vs == [] then 0 else 106 + |vs[0].timestamp| + 32 * |vs[0].proof| + SizeOf(vs[1..])
  }

  lemma {:induction false} SizeIsLength(vs: seq<Vote>)
    requires AllEncodable(vs)
    ensures SizeOf(vs) == |EncodeVotes(vs)|
  {
    if vs != [] {
      SizeIsLength(vs[1..]);
    }
  }

  lemma {:induction false} EncodeSnoc(vs: seq<Vote>, v: Vote)
    requires AllEncodable(vs) && Encodable(v)
    ensures AllEncodable(vs + [v]) && EncodeVotes(vs + [v]) == EncodeVotes(vs) + EncodeVote(v)
  {
    hide EncodeVote;
    if vs == [] {
      Nil([v]);
      Nil(EncodeVote(v));
    } else {
      HeadOfSnoc(vs, v);
      EncodeSnoc(vs[1..], v);
      Assoc(EncodeVote(vs[0]), EncodeVotes(vs[1..]), EncodeVote(v));
    }
  }

  lemma {:induction false} SizeOfPrefix(vs: seq<Vote>, i: nat)
    requires i < |vs| && AllEncodable(vs)
    ensures |EncodeVotes(vs[..i])| + |EncodeVote(vs[i])| <= SizeOf(vs)
  {
    hide EncodeVote;
    assert vs == vs[..i] + vs[i..];
    if i > 0 {
      SizeOfPrefix(vs[1..], i - 1);
      assert vs[..i][1..] == vs[1..][..i - 1];
    }
  }

  /** One pass of the builder's loop: every field of a vote at the moving offset. */
  method PutVote(buf: array<byte>, start: nat, v: Vote) returns (off: nat)
    requires Encodable(v) && start + |EncodeVote(v)| <= buf.Length
    modifies buf
    ensures off == start + |EncodeVote(v)|
    ensures Written(buf, off) == old(Written(buf, start)) + EncodeVote(v)
  {
    hide VoteHead, JoinHashes, Written;
    off := PutFields(buf, start, v);
    ghost var fields := VoteHead(v) + v.timestamp + v.sig + Le4(v.leafIndex) + [|v.proof|];
    PutHashes(buf, off, v.proof);
    Assoc(old(Written(buf, start)), fields, JoinHashes(v.proof));
    off := off + 32 * |v.proof|;
  }

  method PutFields(buf: array<byte>, start: nat, v: Vote) returns (off: nat)
    requires Encodable(v) && start + 106 + |v.timestamp| <= buf.Length
    modifies buf
    ensures off == start + 106 + |v.timestamp|
    ensures Written(buf, off) == old(Written(buf, start))
            + (VoteHead(v) + v.timestamp + v.sig + Le4(v.leafIndex) + [|v.proof|])
  {
    hide Le2, Le4, Written;
    off := start;
    off := Append(buf, off, v.pubkey);
    off := Append(buf, off, [v.vote]);
    off := Append(buf, off, Le2(|v.timestamp|));
    off := Append(buf, off, v.timestamp);
    off := Append(buf, off, v.sig);
    off := Append(buf, off, Le4(v.leafIndex));
    off := Append(buf, off, [|v.proof|]);
    AssocVote(old(Written(buf, start)), v);
  }

  lemma AssocVote(before: seq<byte>, v: Vote)
    requires Encodable(v)
    ensures before + v.pubkey + [v.vote] + Le2(|v.timestamp|) + v.timestamp + v.sig + Le4(v.leafIndex) + [|v.proof|]
         == before + (VoteHead(v) + v.timestamp + v.sig + Le4(v.leafIndex) + [|v.proof|])
  {
    AssocSeven<byte>(before, v.pubkey, [v.vote], Le2(|v.timestamp|), v.timestamp, v.sig, Le4(v.leafIndex), [|v.proof|]);
  }

  lemma AssocSeven<T>(o: seq<T>, a: seq<T>, b: seq<T>, c: seq<T>, d: seq<T>, e: seq<T>, f: seq<T>, g: seq<T>)
    ensures o + a + b + c + d + e + f + g == o + (a + b + c + d + e + f + g)
  {
  }

  method PutHashes(buf: array<byte>, start: nat, hashes: seq<Bytes32>)
    requires start + 32 * |hashes| <= buf.Length
    modifies buf
    ensures Written(buf, start + 32 * |hashes|) == old(Written(buf, start)) + JoinHashes(hashes)
  {
    hide Written;
    var off := start;
    for i := 0 to |hashes|
      invariant off == start + 32 * i
      invariant Written(buf, off) == old(Written(buf, start)) + JoinHashes(hashes[..i])
    {
      off := Append(buf, off, hashes[i]);
      JoinSnoc(hashes, i);
      Assoc(old(Written(buf, start)), JoinHashes(hashes[..i]), hashes[i]);
    }
    assert hashes[..|hashes|] == hashes;
  }

  lemma JoinSnoc(hashes: seq<Bytes32>, i: nat)
    requires i < |hashes|
    ensures JoinHashes(hashes[..i + 1]) == JoinHashes(hashes[..i]) + hashes[i]
  {
    assert hashes[..i + 1][..i] == hashes[..i];
  }

  /** `buildValidatorVoteWitness`: None where it throws. */
  method BuildValidatorVoteWitness(vs: seq<Vote>) returns (r: Option<seq<byte>>)
    ensures r == if Buildable(vs) then Some(VoteWitness(vs)) else None
  {
    hide EncodeVote, Written;
    if |vs| > 255 {
      return None;
    }
    for i := 0 to |vs|
      invariant AllEncodable(vs[..i])
    {
      if |vs[i].proof| > 255 || |vs[i].timestamp| > 100 {
        assert !Encodable(vs[i]);
        return None;
      }
      assert vs[..i + 1] == vs[..i] + [vs[i]];
    }
    assert vs[..|vs|] == vs;
    var size := 1 + SizeOf(vs);
    var buf := new byte[size](_ => 0);
    AllWritten(buf);
    var off := Append(buf, 0, [|vs|]);
    SizeIsLength(vs);
    for i := 0 to |vs|
      invariant AllEncodable(vs[..i])
      invariant off == 1 + |EncodeVotes(vs[..i])| <= buf.Length
      invariant Written(buf, off) == [|vs| as byte] + EncodeVotes(vs[..i])
    {
      SizeOfPrefix(vs, i);
      EncodeSnoc(vs[..i], vs[i]);
      assert vs[..i + 1] == vs[..i] + [vs[i]];
      off := PutVote(buf, off, vs[i]);
      Assoc([|vs| as byte], EncodeVotes(vs[..i]), EncodeVote(vs[i]));
    }
    AllWritten(buf);
    return Some(buf[..]);
  }
}
