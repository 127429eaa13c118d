/** `import`: merging the votes of an exchanged proposal file into the local copy. */
module VoteImport {
  import opened Bytes
  import opened Lex
  import opened Seqs

  /** One recorded vote; `rest` stands for the choice, the signature and the Merkle proof. */
  datatype Ballot = Ballot(pubkey: seq<byte>, timestamp: seq<byte>, rest: seq<byte>)

  /** `toLowerCase` on the ASCII of a hex key. */
  function Lower(s: seq<byte>): (l: seq<byte>)
    ensures |l| == |s|
  {
    if s == [] then [] else [LowerChar(s[0])] + Lower(s[1..])
  }

  function LowerChar(c: byte): byte {
    if 65 <= c <= 90 then c + 32 else c
  }

  function Key(v: Ballot): seq<byte> { Lower(v.pubkey) }

  type Votes = map<seq<byte>, Ballot>

  /** `new Map(votes.map(...))`: a later vote with the same key replaces an earlier one. */
  function Table(votes: seq<Ballot>): Votes {
    if votes == [] then map[] else Table(votes[..|votes| - 1])[Key(votes[|votes| - 1]) := votes[|votes| - 1]]
  }

  /** `v.timestamp > prev.timestamp` on strings. */
  predicate Newer(v: Ballot, prev: Ballot) {
    Less(prev.timestamp, v.timestamp)
  }

  /** One pass of the merge loop. */
  function Absorb(m: Votes, v: Ballot): Votes {
    if Key(v) !in m || Newer(v, m[Key(v)]) then m[Key(v) := v] else m
  }

  function AbsorbAll(m: Votes, votes: seq<Ballot>): Votes {
    if votes == [] then m else Absorb(AbsorbAll(m, votes[..|votes| - 1]), votes[|votes| - 1])
  }

  /** The merge as an operation on vote tables: per key the newer vote, the left one on a tie. */
  function Join(a: Votes, b: Votes): Votes {
    map k | k in a.Keys + b.Keys :: Pick(a, b, k)
  }

  function Pick(a: Votes, b: Votes, k: seq<byte>): Ballot
    requires k in a || k in b
  {
    if k !in a then b[k] else if k !in b then a[k] else Newest(a[k], b[k])
  }

  /** The newer of two votes, the first on a tie. */
  function Newest(x: Ballot, y: Ballot): Ballot {
    if Newer(y, x) then y else x
  }

  /** At most one vote a key. */
  ghost predicate OneVoteEach(votes: seq<Ballot>) {
    forall i, j :: 0 <= i < j < |votes| ==> Key(votes[i]) != Key(votes[j])
  }

  // ---- the loop ----

  /** The values of an insertion-ordered `Map`. */
  function Values(order: seq<seq<byte>>, m: Votes): (vs: seq<Ballot>)
    requires forall k <- order :: k in m
    ensures |vs| == |order| && forall i :: 0 <= i < |order| ==> vs[i] == m[order[i]]
  {
    if order == [] then []
    else
      assert forall k <- order[..|order| - 1] :: k in order;
      assert order[|order| - 1] in order;
      Values(order[..|order| - 1], m) + [m[order[|order| - 1]]]
  }

  /** `order` lists the keys of `m`, each once, and every vote stands under its own key. */
  ghost predicate Listing(order: seq<seq<byte>>, m: Votes) {
    && (forall k :: k in order <==> k in m)
    && (forall i, j :: 0 <= i < j < |order| ==> order[i] != order[j])
    && (forall k :: k in m ==> Key(m[k]) == k)
  }

  /** `Map.set`: a new key goes to the end, an old one keeps its place. */
  method SetVote(order: seq<seq<byte>>, m: Votes, v: Ballot) returns (order': seq<seq<byte>>, m': Votes)
    requires Listing(order, m)
    ensures m' == m[Key(v) := v] && Listing(order', m')
  {
    order' := if Key(v) in m then order else order + [Key(v)];
    m' := m[Key(v) := v];
  }

  lemma {:induction false} TableOfFirst(votes: seq<Ballot>, k: seq<byte>)
    requires OneVoteEach(votes)
    ensures k in Table(votes) <==> exists i :: 0 <= i < |votes| && Key(votes[i]) == k
    ensures forall i :: 0 <= i < |votes| && Key(votes[i]) == k ==> Table(votes)[k] == votes[i]
  {
    hide Key;
    if votes != [] {
      var init := votes[..|votes| - 1];
      assert forall i :: 0 <= i < |init| ==> init[i] == votes[i];
      TableOfFirst(init, k);
      if k in Table(votes) && k != Key(votes[|votes| - 1]) {
        var i :| 0 <= i < |init| && Key(init[i]) == k;
        assert Key(votes[i]) == k;
      }
    }
  }

  /** The values of a listing are its table again. */
  lemma TableOfValues(order: seq<seq<byte>>, m: Votes)
    requires Listing(order, m)
    ensures OneVoteEach(Values(order, m)) && Table(Values(order, m)) == m
  {
    hide Key, Table, Values;
    var vs := Values(order, m);
    forall i | 0 <= i < |vs|
      ensures vs[i] == m[order[i]] && Key(vs[i]) == order[i]
    {
      assert order[i] in order;
    }
    forall k
      ensures k in Table(vs) <==> k in m
      ensures k in m ==> Table(vs)[k] == m[k]
    {
      TableOfFirst(vs, k);
      if k in m {
        var i :| 0 <= i < |order| && order[i] == k;
        assert Key(vs[i]) == k;
      }
      if k in Table(vs) {
        var i :| 0 <= i < |vs| && Key(vs[i]) == k;
        assert order[i] in order;
      }
    }
  }

  /** The merge of `importCommand`: the existing votes as a `Map`, then the loop over the imported ones. */
  method MergeVotes(existing: seq<Ballot>, imported: seq<Ballot>) returns (merged: seq<Ballot>)
    ensures OneVoteEach(merged) && Table(merged) == AbsorbAll(Table(existing), imported)
  {
    hide Key, Less;
    var order: seq<seq<byte>> := [];
    var votesByPubkey: Votes := map[];
    for i := 0 to |existing|
      invariant Listing(order, votesByPubkey) && votesByPubkey == Table(existing[..i])
    {
      assert existing[..i + 1][..i] == existing[..i];
      order, votesByPubkey := SetVote(order, votesByPubkey, existing[i]);
    }
    assert existing[..|existing|] == existing;
    for i := 0 to |imported|
      invariant Listing(order, votesByPubkey) && votesByPubkey == AbsorbAll(Table(existing), imported[..i])
    {
      var v := imported[i];
      assert imported[..i + 1][..i] == imported[..i];
      if Key(v) !in votesByPubkey || Less(votesByPubkey[Key(v)].timestamp, v.timestamp) {
        order, votesByPubkey := SetVote(order, votesByPubkey, v);
      }
    }
    assert imported[..|imported|] == imported;
    TableOfValues(order, votesByPubkey);
    merged := Values(order, votesByPubkey);
  }

  // ---- the laws ----

  /** No two different votes of one key carry the same timestamp. */
  ghost predicate Compatible(a: Votes, b: Votes) {
    forall k :: k in a && k in b && a[k].timestamp == b[k].timestamp ==> a[k] == b[k]
  }

  /** Merging commutes exactly on compatible tables. */
  lemma JoinCommutes(a: Votes, b: Votes)
    ensures Join(a, b) == Join(b, a) <==> Compatible(a, b)
  {
    forall k | k in a && k in b
      ensures Pick(a, b, k) == Pick(b, a, k) <==> (a[k].timestamp == b[k].timestamp ==> a[k] == b[k])
    {
      Trichotomy(a[k].timestamp, b[k].timestamp);
    }
    if Join(a, b) == Join(b, a) {
      forall k | k in a && k in b
        ensures Pick(a, b, k) == Pick(b, a, k)
      {
        assert Join(a, b)[k] == Join(b, a)[k];
      }
    }
  }

  lemma NewestAssociates(x: Ballot, y: Ballot, z: Ballot)
    ensures Newest(Newest(x, y), z) == Newest(x, Newest(y, z))
  {
    hide Less;
    var (p, q, r) := (x.timestamp, y.timestamp, z.timestamp);
    Trichotomy(p, q);
    Trichotomy(q, r);
    Trichotomy(p, r);
    if Less(p, q) && Less(q, r) {
      Transitive(p, q, r);
    }
    if Less(r, q) && Less(q, p) {
      Transitive(r, q, p);
    }
    if Less(p, r) && Less(r, q) {
      Transitive(p, r, q);
    }
  }

  /** Merging is associative, with no condition at all. */
  lemma JoinAssociates(a: Votes, b: Votes, c: Votes)
    ensures Join(Join(a, b), c) == Join(a, Join(b, c))
  {
    hide Newest;
    forall k | k in a && k in b && k in c
      ensures Pick(Join(a, b), c, k) == Pick(a, Join(b, c), k)
    {
      NewestAssociates(a[k], b[k], c[k]);
    }
  }

  /** Merging is idempotent: importing what one already has changes nothing. */
  lemma JoinIdempotent(a: Votes)
    ensures Join(a, a) == a
  {
    forall k | k in a
      ensures Pick(a, a, k) == a[k]
    {
    }
  }

  // ---- what the loop computes ----

  /** The newest vote of each key in a list, the first of them on a tie. */
  function NewestOf(votes: seq<Ballot>): Votes {
    AbsorbAll(map[], votes)
  }

  lemma AbsorbIsJoin(m: Votes, v: Ballot)
    ensures Absorb(m, v) == Join(m, map[Key(v) := v])
  {
    hide Key, Newer;
  }

  lemma JoinNothing(m: Votes)
    ensures Join(m, map[]) == m
  {
  }

  /** The merge loop joins the local table with the newest imported vote of each key, for every imported file. */
  lemma {:induction false} LoopIsJoin(m: Votes, votes: seq<Ballot>)
    ensures AbsorbAll(m, votes) == Join(m, NewestOf(votes))
  {
    hide Key, Newer, Join, Absorb;
    if votes == [] {
      JoinNothing(m);
    } else {
      var (init, v) := (votes[..|votes| - 1], votes[|votes| - 1]);
      LoopIsJoin(m, init);
      AbsorbIsJoin(AbsorbAll(m, init), v);
      AbsorbIsJoin(NewestOf(init), v);
      JoinAssociates(m, NewestOf(init), map[Key(v) := v]);
    }
  }

  // ---- which vote is kept ----

  /** The votes of one key in a list, in order. */
  function VotesOf(votes: seq<Ballot>, k: seq<byte>): (vs: seq<Ballot>)
    ensures forall v :: v in vs <==> v in votes && Lower(v.pubkey) == k
  {
    if votes == [] then []
    else
      InitLast(votes);
      VotesOf(votes[..|votes| - 1], k)
      + if Lower(votes[|votes| - 1].pubkey) == k then [votes[|votes| - 1]] else []
  }

  /** Of these votes the one with the latest timestamp; of several with that timestamp the first. */
  ghost predicate Latest(v: Ballot, votes: seq<Ballot>) {
    exists i :: 0 <= i < |votes| && votes[i] == v
      && (forall j :: 0 <= j < i ==> Less(votes[j].timestamp, v.timestamp))
      && (forall j :: i < j < |votes| ==> !Less(v.timestamp, votes[j].timestamp))
  }

  /** What competes for a key: the local vote first, then the imported ones. */
  function Candidates(m: Votes, imported: seq<Ballot>, k: seq<byte>): seq<Ballot> {
    (if k in m then [m[k]] else []) + VotesOf(imported, k)
  }

  lemma LatestOfOne(v: Ballot)
    ensures Latest(v, [v])
  {
    assert [v][0] == v;
  }

  lemma LatestSnoc(v: Ballot, votes: seq<Ballot>, w: Ballot)
    requires Latest(v, votes)
    ensures Latest(if Less(v.timestamp, w.timestamp) then w else v, votes + [w])
  {
    hide Less;
    var i :| 0 <= i < |votes| && votes[i] == v
      && (forall j :: 0 <= j < i ==> Less(votes[j].timestamp, v.timestamp))
      && (forall j :: i < j < |votes| ==> !Less(v.timestamp, votes[j].timestamp));
    var all := votes + [w];
    if Less(v.timestamp, w.timestamp) {
      forall j | 0 <= j < |votes|
        ensures Less(all[j].timestamp, w.timestamp)
      {
        Trichotomy(v.timestamp, votes[j].timestamp);
        if j < i || votes[j].timestamp != v.timestamp {
          Transitive(votes[j].timestamp, v.timestamp, w.timestamp);
        }
      }
      assert all[|votes|] == w;
    } else {
      assert all[i] == v;
    }
  }

  /** The merge keeps, of every key, the latest of the local vote and the imported ones, the local one on a tie. */
  lemma {:induction false} LoopKeepsLatest(m: Votes, imported: seq<Ballot>, k: seq<byte>)
    ensures k in AbsorbAll(m, imported) <==> Candidates(m, imported, k) != []
    ensures k in AbsorbAll(m, imported) ==> Latest(AbsorbAll(m, imported)[k], Candidates(m, imported, k))
  {
    hide Lower, Less, Latest, Candidates, Absorb;
    if imported == [] {
      NoneImported(m, k);
    } else {
      var (init, v) := (imported[..|imported| - 1], imported[|imported| - 1]);
      LoopKeepsLatest(m, init, k);
      CandidatesSnoc(m, imported, k);
      StepKeepsLatest(AbsorbAll(m, init), Candidates(m, init, k), v, k);
    }
  }

  lemma NoneImported(m: Votes, k: seq<byte>)
    ensures Candidates(m, [], k) == if k in m then [m[k]] else []
    ensures k in m ==> Latest(m[k], Candidates(m, [], k))
  {
    hide Less, Latest;
    if k in m {
      LatestOfOne(m[k]);
      Nil([m[k]]);
    }
  }

  lemma CandidatesSnoc(m: Votes, imported: seq<Ballot>, k: seq<byte>)
    requires imported != []
    ensures var (init, v) := (imported[..|imported| - 1], imported[|imported| - 1]);
            Candidates(m, imported, k) == Candidates(m, init, k) + if Lower(v.pubkey) == k then [v] else []
  {
    hide Lower;
    var (init, v) := (imported[..|imported| - 1], imported[|imported| - 1]);
    Assoc(if k in m then [m[k]] else [], VotesOf(init, k), if Lower(v.pubkey) == k then [v] else []);
  }

  /** One vote more. */
  lemma StepKeepsLatest(t: Votes, before: seq<Ballot>, v: Ballot, k: seq<byte>)
    requires (k in t <==> before != []) && (k in t ==> Latest(t[k], before))
    ensures var after := before + if Lower(v.pubkey) == k then [v] else [];
            (k in Absorb(t, v) <==> after != []) && (k in Absorb(t, v) ==> Latest(Absorb(t, v)[k], after))
  {
    hide Lower, Less, Latest;
    Nil(before);
    if Lower(v.pubkey) == k {
      if before == [] {
        LatestOfOne(v);
        Nil([v]);
      } else {
        LatestSnoc(t[k], before, v);
      }
    }
  }

  /** The table of a local file holds, of every key, the last vote it lists. */
  lemma {:induction false} TableKeepsLast(votes: seq<Ballot>, k: seq<byte>)
    ensures k in Table(votes) <==> VotesOf(votes, k) != []
    ensures k in Table(votes) ==> Table(votes)[k] == VotesOf(votes, k)[|VotesOf(votes, k)| - 1]
  {
    hide Lower;
    if votes != [] {
      TableKeepsLast(votes[..|votes| - 1], k);
    }
  }

  /** One after another is the same as all at once. */
  lemma {:induction false} AbsorbConcat(m: Votes, a: seq<Ballot>, b: seq<Ballot>)
    ensures AbsorbAll(m, a + b) == AbsorbAll(AbsorbAll(m, a), b)
  {
    hide Absorb;
    if b == [] {
      Nil(a);
    } else {
      AbsorbConcat(m, a, b[..|b| - 1]);
      ConcatInit(a, b);
    }
  }

  /** Where each key votes once, that is the plain table. */
  lemma {:induction false} NewestIsTable(votes: seq<Ballot>)
    requires OneVoteEach(votes)
    ensures NewestOf(votes) == Table(votes)
  {
    hide Key, Newer;
    if votes != [] {
      var (init, v) := (votes[..|votes| - 1], votes[|votes| - 1]);
      assert forall i :: 0 <= i < |init| ==> init[i] == votes[i];
      NewestIsTable(init);
      TableOfFirst(init, Key(v));
    }
  }

  // ---- status ----

  datatype Status = PendingReview | Voting | Approved | Rejected | Executed

  /** `rankStatus`. */
  function Rank(s: Status): nat {
    match s case PendingReview => 0 case Voting => 1 case Approved => 2 case Rejected => 3 case Executed => 4
  }

  function Further(a: Status, b: Status): Status {
    if Rank(a) >= Rank(b) then a else b
  }

  /** The statuses as `rankStatus` lists them. */
  const STATUS_ORDER: seq<Status> := [PendingReview, Voting, Approved, Rejected, Executed]

  /** The rank of a status is its place in that list; of two statuses the one listed later is kept. */
  lemma RankIsPlace(i: nat, j: nat)
    requires i <= j < |STATUS_ORDER|
    ensures Rank(STATUS_ORDER[i]) == i && STATUS_ORDER[Rank(STATUS_ORDER[i])] == STATUS_ORDER[i]
    ensures Further(STATUS_ORDER[i], STATUS_ORDER[j]) == Further(STATUS_ORDER[j], STATUS_ORDER[i]) == STATUS_ORDER[j]
  {
  }

  /** Upper-case hex digits. */
  function UpperDigit(n: int): (c: byte)
    requires 0 <= n < 16
  {
    if n < 10 then 48 + n else 55 + n
  }

  function UpperHex(b: seq<byte>): (h: seq<byte>) {
    if b == [] then [] else [UpperDigit(b[0] / 16), UpperDigit(b[0] % 16)] + UpperHex(b[1..])
  }

  /** Keys are compared whatever the case of their hex digits: both spellings have the lowercase one for their key. */
  lemma {:induction false} KeyOfHex(b: seq<byte>)
    ensures Lower(UpperHex(b)) == Hex(b) && Lower(Hex(b)) == Hex(b)
  {
    if b != [] {
      KeyOfHex(b[1..]);
      LowerTwo(UpperDigit(b[0] / 16), UpperDigit(b[0] % 16), UpperHex(b[1..]));
      LowerTwo(HexDigit(b[0] / 16), HexDigit(b[0] % 16), Hex(b[1..]));
    }
  }

  /** Only the capitals change. */
  lemma LowerLetters(c: byte)
    ensures LowerChar(c)
         == if 'A' as int <= c <= 'Z' as int then 'a' as int + (c - 'A' as int) else c
  {
  }

  lemma LowerTwo(a: byte, b: byte, s: seq<byte>)
    ensures Lower([a, b] + s) == [LowerChar(a), LowerChar(b)] + Lower(s)
  {
    assert ([a, b] + s)[1..] == [b] + s && ([b] + s)[1..] == s;
  }

  // ---- whole exchanges ----

  datatype Copy = Copy(votes: Votes, status: Status)

  /** The local copy after importing another. */
  function Merge(a: Copy, b: Copy): Copy {
    Copy(Join(a.votes, b.votes), Further(a.status, b.status))
  }

  function MergeAll(start: Copy, files: seq<Copy>): Copy {
    if files == [] then start else Merge(MergeAll(start, files[..|files| - 1]), files[|files| - 1])
  }

  /** All votes ever cast on a proposal: no two of one key share a timestamp. */
  ghost predicate Honest(pool: set<Ballot>) {
    forall x, y :: x in pool && y in pool && Key(x) == Key(y) && x.timestamp == y.timestamp ==> x == y
  }

  /** A copy holds only votes of the pool, each under its key. */
  ghost predicate From(c: Copy, pool: set<Ballot>) {
    forall k :: k in c.votes ==> c.votes[k] in pool && Key(c.votes[k]) == k
  }

  lemma MergeStays(a: Copy, b: Copy, pool: set<Ballot>)
    requires From(a, pool) && From(b, pool)
    ensures From(Merge(a, b), pool)
  {
  }

  lemma MergeCommutes(a: Copy, b: Copy, pool: set<Ballot>)
    requires From(a, pool) && From(b, pool) && Honest(pool)
    ensures Merge(a, b) == Merge(b, a)
  {
    JoinCommutes(a.votes, b.votes);
  }

  lemma MergeAssociates(a: Copy, b: Copy, c: Copy)
    ensures Merge(Merge(a, b), c) == Merge(a, Merge(b, c))
  {
    hide Join;
    JoinAssociates(a.votes, b.votes, c.votes);
  }

  lemma {:induction false} AllStay(start: Copy, files: seq<Copy>, pool: set<Ballot>)
    requires From(start, pool) && forall f <- files :: From(f, pool)
    ensures From(MergeAll(start, files), pool)
  {
    hide From, Merge;
    if files != [] {
      var init := files[..|files| - 1];
      assert forall f <- init :: f in files;
      assert files[|files| - 1] in files;
      AllStay(start, init, pool);
      MergeStays(MergeAll(start, init), files[|files| - 1], pool);
    }
  }

  /** A file may as well be imported last. */
  lemma {:induction false} ImportLast(start: Copy, files: seq<Copy>, i: nat, pool: set<Ballot>)
    requires Honest(pool) && From(start, pool) && (forall f <- files :: From(f, pool)) && i < |files|
    ensures MergeAll(start, files) == Merge(MergeAll(start, files[..i] + files[i + 1..]), files[i])
    decreases |files|
  {
    hide From, Merge, Honest;
    var last := |files| - 1;
    var init := files[..last];
    assert forall f <- init :: f in files;
    assert files[last] in files && files[i] in files;
    if i == last {
      assert files[..i] + files[i + 1..] == init;
    } else {
      var rest := init[..i] + init[i + 1..];
      ImportLast(start, init, i, pool);
      RestOf(files, i);
      assert forall f <- rest :: f in files;
      var m := MergeAll(start, rest);
      AllStay(start, rest, pool);
      MergeAssociates(m, files[i], files[last]);
      MergeCommutes(files[i], files[last], pool);
      MergeAssociates(m, files[last], files[i]);
    }
  }

  lemma RestOf<T>(s: seq<T>, i: nat)
    requires i < |s| - 1
    ensures var (init, rest) := (s[..|s| - 1], s[..i] + s[i + 1..]);
            rest != [] && rest[..|rest| - 1] == init[..i] + init[i + 1..] && rest[|rest| - 1] == s[|s| - 1]
  {
  }

  /** Any order of imports of the same files gives the same votes and the same status. */
  lemma {:induction false} AnyOrder(start: Copy, files: seq<Copy>, files': seq<Copy>, pool: set<Ballot>)
    requires Honest(pool) && From(start, pool) && (forall f <- files :: From(f, pool))
            && (forall f <- files' :: From(f, pool))
    requires multiset(files) == multiset(files')
    ensures MergeAll(start, files) == MergeAll(start, files')
    decreases |files|
  {
    hide From, Merge, Honest;
    SameLength(files, files');
    if files != [] {
      var last := |files| - 1;
      var i := TakeOut(files, files');
      var (init, rest) := (files[..last], files'[..i] + files'[i + 1..]);
      assert forall f <- init :: f in files;
      assert forall f <- rest :: f in files';
      ImportLast(start, files', i, pool);
      AnyOrder(start, init, rest, pool);
    }
  }

  /** Importing a file again, at any later time, changes nothing. */
  lemma ImportAgain(start: Copy, files: seq<Copy>, f: Copy, pool: set<Ballot>)
    requires Honest(pool) && From(start, pool) && (forall g <- files :: From(g, pool)) && f in files
    ensures Merge(MergeAll(start, files), f) == MergeAll(start, files)
  {
    hide Honest, Merge, From;
    var i :| 0 <= i < |files| && files[i] == f;
    ImportLast(start, files, i, pool);
    MergeAssociates(MergeAll(start, files[..i] + files[i + 1..]), f, f);
    assert Merge(f, f) == f by { MergeIdempotent(f); }
  }

  lemma MergeIdempotent(f: Copy)
    ensures Merge(f, f) == f
  {
    JoinIdempotent(f.votes);
  }

  /** Two replicas that start from each other's files end with the same copy. */
  lemma ReplicasConverge(a: Copy, b: Copy, files: seq<Copy>, pool: set<Ballot>)
    requires Honest(pool) && From(a, pool) && From(b, pool) && forall f <- files :: From(f, pool)
    ensures MergeAll(a, files + [b]) == MergeAll(b, files + [a])
  {
    hide From, Merge, Honest;
    StartMoves(a, files, b, pool);
    SnocInit(files, b);
    SnocInit(files, a);
  }

  lemma {:induction false} StartMoves(a: Copy, files: seq<Copy>, b: Copy, pool: set<Ballot>)
    requires Honest(pool) && From(a, pool) && From(b, pool) && forall f <- files :: From(f, pool)
    ensures Merge(MergeAll(a, files), b) == Merge(MergeAll(b, files), a)
  {
    hide From, Merge, Honest;
    if files == [] {
      MergeCommutes(a, b, pool);
    } else {
      var (init, f) := (files[..|files| - 1], files[|files| - 1]);
      assert forall g <- init :: g in files;
      assert f in files;
      StartMoves(a, init, b, pool);
      MergeAssociates(MergeAll(a, init), f, b);
      MergeCommutes(f, b, pool);
      MergeAssociates(MergeAll(a, init), b, f);
      MergeAssociates(MergeAll(b, init), a, f);
      MergeCommutes(a, f, pool);
      MergeAssociates(MergeAll(b, init), f, a);
    }
  }

  // ---- the digest ----

  /** `localeCompare(a, b) < 0` on keys, as some strict total order. */
  type KeyOrder = (seq<byte>, seq<byte>) -> bool

  ghost predicate StrictOrder(before: KeyOrder) {
    && (forall a: seq<byte> :: !before(a, a))
    && (forall a: seq<byte>, b: seq<byte>, c: seq<byte> :: before(a, b) && before(b, c) ==> before(a, c))
    && (forall a: seq<byte>, b: seq<byte> :: before(a, b) || a == b || before(b, a))
  }

  /** Insertion by key. */
  function PutVote(votes: seq<Ballot>, v: Ballot, before: KeyOrder): (r: seq<Ballot>)
    ensures |r| == |votes| + 1
  {
    if votes == [] || before(v.pubkey, votes[0].pubkey) then [v] + votes
      else [votes[0]] + PutVote(votes[1..], v, before)
  }

  function SortVotes(votes: seq<Ballot>, before: KeyOrder): (r: seq<Ballot>)
    ensures |r| == |votes|
  {
    if votes == [] then [] else PutVote(SortVotes(votes[..|votes| - 1], before), votes[|votes| - 1], before)
  }

  /** How a digest is made: the key order, the JSON text of the sorted votes, and the hash. */
  datatype Digester = Digester(before: KeyOrder, json: seq<Ballot> -> seq<byte>, blake: Hasher)

  /** `computeVoteDigestHash`. */
  function Digest(votes: seq<Ballot>, d: Digester): Bytes32 {
    (d.blake)((d.json)(SortVotes(votes, d.before)))
  }

  ghost predicate AscendingKeys(votes: seq<Ballot>, before: KeyOrder) {
    forall i, j :: 0 <= i < j < |votes| ==> before(votes[i].pubkey, votes[j].pubkey)
  }

  lemma {:induction false} PutVoteKeeps(votes: seq<Ballot>, v: Ballot, before: KeyOrder, x: Ballot)
    ensures x in PutVote(votes, v, before) <==> x == v || x in votes
  {
    if votes != [] && !before(v.pubkey, votes[0].pubkey) {
      PutVoteKeeps(votes[1..], v, before, x);
      HeadTail(votes);
    }
  }

  lemma {:induction false} SortKeeps(votes: seq<Ballot>, before: KeyOrder, x: Ballot)
    ensures x in SortVotes(votes, before) <==> x in votes
  {
    if votes != [] {
      SortKeeps(votes[..|votes| - 1], before, x);
      PutVoteKeeps(SortVotes(votes[..|votes| - 1], before), votes[|votes| - 1], before, x);
      InitLast(votes);
    }
  }

  lemma ConsAscending(v: Ballot, votes: seq<Ballot>, before: KeyOrder)
    requires AscendingKeys(votes, before) && forall x <- votes :: before(v.pubkey, x.pubkey)
    ensures AscendingKeys([v] + votes, before)
  {
    var r := [v] + votes;
    forall i, j | 0 <= i < j < |r|
      ensures before(r[i].pubkey, r[j].pubkey)
    {
      assert r[j] == votes[j - 1] && votes[j - 1] in votes;
      if i > 0 {
        assert r[i] == votes[i - 1];
      }
    }
  }

  lemma TailAscending(votes: seq<Ballot>, before: KeyOrder)
    requires AscendingKeys(votes, before) && votes != []
    ensures AscendingKeys(votes[1..], before) && forall x <- votes[1..] :: before(votes[0].pubkey, x.pubkey)
  {
    var tail := votes[1..];
    forall x | x in tail
      ensures before(votes[0].pubkey, x.pubkey)
    {
      var i :| 0 <= i < |tail| && tail[i] == x;
      assert votes[i + 1] == x;
    }
  }

  lemma {:induction false} PutVoteAscending(votes: seq<Ballot>, v: Ballot, before: KeyOrder)
    requires StrictOrder(before) && AscendingKeys(votes, before) && forall x <- votes :: x.pubkey != v.pubkey
    ensures AscendingKeys(PutVote(votes, v, before), before)
  {
    hide AscendingKeys;
    if votes == [] {
      ConsAscending(v, votes, before);
    } else {
      TailAscending(votes, before);
      assert votes[0] in votes;
      if before(v.pubkey, votes[0].pubkey) {
        HeadTail(votes);
        ConsAscending(v, votes, before);
      } else {
        assert before(votes[0].pubkey, v.pubkey);
        assert forall x <- votes[1..] :: x in votes;
        PutVoteAscending(votes[1..], v, before);
        var rest := PutVote(votes[1..], v, before);
        forall x | x in rest
          ensures before(votes[0].pubkey, x.pubkey)
        {
          PutVoteKeeps(votes[1..], v, before, x);
        }
        ConsAscending(votes[0], rest, before);
      }
    }
  }

  lemma {:induction false} SortAscending(votes: seq<Ballot>, before: KeyOrder)
    requires OneVoteEach(votes) && StrictOrder(before)
    ensures AscendingKeys(SortVotes(votes, before), before)
  {
    hide StrictOrder;
    if votes != [] {
      var (init, v) := (votes[..|votes| - 1], votes[|votes| - 1]);
      assert forall i :: 0 <= i < |init| ==> init[i] == votes[i];
      SortAscending(init, before);
      forall x | x in SortVotes(init, before)
        ensures x.pubkey != v.pubkey
      {
        SortKeeps(init, before, x);
        var i :| 0 <= i < |init| && init[i] == x;
        assert Key(votes[i]) != Key(v);
      }
      PutVoteAscending(SortVotes(init, before), v, before);
    }
  }

  /** Two ascending lists of the same votes are the same list. */
  lemma {:induction false} AscendingUnique(a: seq<Ballot>, b: seq<Ballot>, before: KeyOrder)
    requires StrictOrder(before) && AscendingKeys(a, before) && AscendingKeys(b, before)
    requires forall x :: x in a <==> x in b
    ensures a == b
  {
    hide AscendingKeys;
    if a != [] {
      assert a[0] in a;
    }
    if b != [] {
      assert b[0] in b;
    }
    if a != [] {
      TailAscending(a, before);
      TailAscending(b, before);
      HeadTail(a);
      HeadTail(b);
      assert a[0] == b[0];
      forall x
        ensures x in a[1..] <==> x in b[1..]
      {
        TailMembers(a, before, x);
        TailMembers(b, before, x);
      }
      AscendingUnique(a[1..], b[1..], before);
    }
  }

  lemma TailMembers(a: seq<Ballot>, before: KeyOrder, x: Ballot)
    requires StrictOrder(before) && AscendingKeys(a, before) && a != []
    ensures x in a[1..] <==> x in a && x != a[0]
  {
    HeadTail(a);
    TailAscending(a, before);
  }

  /** Copies with the same votes have the same digest, whatever order their lists are in. */
  lemma DigestOfTable(a: seq<Ballot>, b: seq<Ballot>, d: Digester)
    requires OneVoteEach(a) && OneVoteEach(b) && Table(a) == Table(b) && StrictOrder(d.before)
    ensures Digest(a, d) == Digest(b, d)
  {
    hide Key, SortVotes, Table, StrictOrder;
    SortAscending(a, d.before);
    SortAscending(b, d.before);
    forall x
      ensures x in SortVotes(a, d.before) <==> x in SortVotes(b, d.before)
    {
      SortKeeps(a, d.before, x);
      SortKeeps(b, d.before, x);
      if x in a {
        SameMembers(a, b, x);
      }
      if x in b {
        SameMembers(b, a, x);
      }
    }
    AscendingUnique(SortVotes(a, d.before), SortVotes(b, d.before), d.before);
  }

  lemma SameMembers(a: seq<Ballot>, b: seq<Ballot>, x: Ballot)
    requires OneVoteEach(a) && OneVoteEach(b) && Table(a) == Table(b) && x in a
    ensures x in b
  {
    hide Key, Table;
    var i :| 0 <= i < |a| && a[i] == x;
    TableOfFirst(a, Key(x));
    TableOfFirst(b, Key(x));
    var j :| 0 <= j < |b| && Key(b[j]) == Key(x);
  }

  /** Order of code units is one such order. */
  lemma CodeUnitOrder()
    ensures StrictOrder((a: seq<byte>, b: seq<byte>) => Less(a, b))
  {
    hide Less;
    forall a: seq<byte>, b: seq<byte>
      ensures !Less(a, a) && (Less(a, b) || a == b || Less(b, a))
    {
      Irreflexive(a);
      Total(a, b);
    }
    forall a: seq<byte>, b: seq<byte>, c: seq<byte> | Less(a, b) && Less(b, c)
      ensures Less(a, c)
    {
      Transitive(a, b, c);
    }
  }

  // ---- saved files ----

  /** A proposal file as it stands on disk: the votes in order, the status, the digest. */
  datatype File = File(votes: seq<Ballot>, status: Status, digest: Bytes32)

  /** All votes of all files, file by file. */
  function AllVotes(files: seq<File>): seq<Ballot> {
    if files == [] then [] else AllVotes(files[..|files| - 1]) + files[|files| - 1].votes
  }

  /** The saved table has, of every key, the latest of the local vote and the imported ones. */
  ghost predicate KeepsLatest(saved: Votes, local: Votes, imported: seq<Ballot>) {
    forall k: seq<byte> ::
      (k in saved <==> Candidates(local, imported, k) != [])
      && (k in saved ==> Latest(saved[k], Candidates(local, imported, k)))
  }

  lemma AbsorbedKeepsLatest(local: Votes, imported: seq<Ballot>)
    ensures KeepsLatest(AbsorbAll(local, imported), local, imported)
  {
    hide Candidates, Latest, Absorb;
    forall k: seq<byte>
      ensures k in AbsorbAll(local, imported) <==> Candidates(local, imported, k) != []
      ensures k in AbsorbAll(local, imported) ==> Latest(AbsorbAll(local, imported)[k], Candidates(local, imported, k))
    {
      LoopKeepsLatest(local, imported, k);
    }
  }

  /**
   * No vote that took part is later than the one kept for its key; the kept one took part; and where the local vote is
   * as late, it is the one kept.
   */
  lemma NoneIsLater(saved: Votes, local: Votes, imported: seq<Ballot>)
    requires KeepsLatest(saved, local, imported)
    ensures forall v <- imported ::
              Lower(v.pubkey) in saved && !Less(saved[Lower(v.pubkey)].timestamp, v.timestamp)
    ensures forall k <- local :: k in saved && !Less(saved[k].timestamp, local[k].timestamp)
    ensures forall k <- saved ::
              (k in local && saved[k] == local[k]) || (saved[k] in imported && Lower(saved[k].pubkey) == k)
    ensures forall k <- local :: k in saved && saved[k].timestamp == local[k].timestamp ==> saved[k] == local[k]
  {
    hide Less, Lower, KeepsLatest, Latest;
    forall v | v in imported
      ensures Lower(v.pubkey) in saved && !Less(saved[Lower(v.pubkey)].timestamp, v.timestamp)
    {
      var k := Lower(v.pubkey);
      assert v in VotesOf(imported, k);
      LatestOf(saved, local, imported, k, v);
    }
    forall k | k in local
      ensures k in saved && !Less(saved[k].timestamp, local[k].timestamp)
      ensures saved[k].timestamp == local[k].timestamp ==> saved[k] == local[k]
    {
      LatestOf(saved, local, imported, k, local[k]);
      FirstOfEqual(saved[k], Candidates(local, imported, k));
    }
    forall k | k in saved
      ensures (k in local && saved[k] == local[k]) || (saved[k] in imported && Lower(saved[k].pubkey) == k)
    {
      KeptIsCandidate(saved, local, imported, k);
    }
  }

  lemma LatestOf(saved: Votes, local: Votes, imported: seq<Ballot>, k: seq<byte>, v: Ballot)
    requires KeepsLatest(saved, local, imported) && v in Candidates(local, imported, k)
    ensures k in saved && !Less(saved[k].timestamp, v.timestamp) && Latest(saved[k], Candidates(local, imported, k))
  {
    hide Less, Lower, Candidates;
    var cs := Candidates(local, imported, k);
    assert k in saved && Latest(saved[k], cs);
    var w := saved[k];
    var j :| 0 <= j < |cs| && cs[j] == v;
    if Less(w.timestamp, v.timestamp) {
      Irreflexive(w.timestamp);
      if Less(v.timestamp, w.timestamp) {
        Transitive(w.timestamp, v.timestamp, w.timestamp);
      }
      assert false;
    }
  }

  lemma FirstOfEqual(w: Ballot, cs: seq<Ballot>)
    requires Latest(w, cs) && cs != []
    ensures w.timestamp == cs[0].timestamp ==> w == cs[0]
  {
    hide Less;
    Irreflexive(w.timestamp);
  }

  lemma KeptIsCandidate(saved: Votes, local: Votes, imported: seq<Ballot>, k: seq<byte>)
    requires KeepsLatest(saved, local, imported) && k in saved
    ensures saved[k] in Candidates(local, imported, k)
  {
    hide Less, Lower, Candidates;
  }

  /** A dishonest pair is two votes of one key at one time. */
  lemma HonestPair(v: Ballot, w: Ballot)
    ensures Honest({v, w}) <==> v == w || Lower(v.pubkey) != Lower(w.pubkey) || v.timestamp != w.timestamp
  {
    hide Lower;
    assert v in {v, w} && w in {v, w};
  }

  /** What an imported file contributes. */
  function Offered(f: File): Copy {
    Copy(NewestOf(f.votes), f.status)
  }

  /** What a local file starts from. */
  function Held(f: File): Copy {
    Copy(Table(f.votes), f.status)
  }

  function AllOffered(files: seq<File>): (cs: seq<Copy>)
    ensures |cs| == |files| && forall i :: 0 <= i < |files| ==> cs[i] == Offered(files[i])
  {
    if files == [] then [] else AllOffered(files[..|files| - 1]) + [Offered(files[|files| - 1])]
  }

  /** The merge branch of `importCommand` as a whole: votes, status and digest of the saved file. */
  method ImportMerge(existing: File, imported: File, d: Digester) returns (saved: File)
    ensures OneVoteEach(saved.votes) && saved.digest == Digest(saved.votes, d)
    ensures Held(saved) == Merge(Held(existing), Offered(imported))
    ensures Table(saved.votes) == AbsorbAll(Table(existing.votes), imported.votes)
    ensures KeepsLatest(Table(saved.votes), Table(existing.votes), imported.votes)
    ensures forall v <- imported.votes ::
              Lower(v.pubkey) in Table(saved.votes)
              && !Less(Table(saved.votes)[Lower(v.pubkey)].timestamp, v.timestamp)
  {
    hide Table, AbsorbAll, Join, SortVotes, KeepsLatest;
    var votes := MergeVotes(existing.votes, imported.votes);
    LoopIsJoin(Table(existing.votes), imported.votes);
    var status := if Rank(existing.status) >= Rank(imported.status) then existing.status else imported.status;
    saved := File(votes, status, Digest(votes, d));
    AbsorbedKeepsLatest(Table(existing.votes), imported.votes);
    NoneIsLater(Table(saved.votes), Table(existing.votes), imported.votes);
  }

  /** Importing one file after another. */
  method ImportAll(start: File, files: seq<File>, d: Digester) returns (saved: File)
    requires OneVoteEach(start.votes) && start.digest == Digest(start.votes, d)
    ensures OneVoteEach(saved.votes) && saved.digest == Digest(saved.votes, d)
    ensures Held(saved) == MergeAll(Held(start), AllOffered(files))
    ensures KeepsLatest(Table(saved.votes), Table(start.votes), AllVotes(files))
    ensures forall v <- AllVotes(files) ::
              Lower(v.pubkey) in Table(saved.votes)
              && !Less(Table(saved.votes)[Lower(v.pubkey)].timestamp, v.timestamp)
  {
    hide Held, Offered, Merge, Digest, Table, AbsorbAll, KeepsLatest, OneVoteEach;
    saved := start;
    NothingAbsorbed(Table(start.votes));
    for i := 0 to |files|
      invariant OneVoteEach(saved.votes) && saved.digest == Digest(saved.votes, d)
      invariant Held(saved) == MergeAll(Held(start), AllOffered(files[..i]))
      invariant Table(saved.votes) == AbsorbAll(Table(start.votes), AllVotes(files[..i]))
    {
      assert files[..i + 1][..i] == files[..i];
      SnocInit(AllOffered(files[..i]), Offered(files[i]));
      AbsorbConcat(Table(start.votes), AllVotes(files[..i]), files[i].votes);
      saved := ImportMerge(saved, files[i], d);
    }
    assert files[..|files|] == files;
    AbsorbedKeepsLatest(Table(start.votes), AllVotes(files));
    NoneIsLater(Table(saved.votes), Table(start.votes), AllVotes(files));
  }

  lemma NothingAbsorbed(m: Votes)
    ensures AbsorbAll(m, []) == m
  {
  }

  /**
   * What two replicas hold after importing the same files in any two orders, from the same file and one import at
   * a time, has the same votes, the same status and the same digest.
   */
  lemma ImportsConverge(start: File, files: seq<File>, files': seq<File>, a: File, b: File, d: Digester,
        pool: set<Ballot>)
    requires Honest(pool) && From(Held(start), pool) && forall f <- files :: From(Offered(f), pool)
    requires multiset(files) == multiset(files') && StrictOrder(d.before)
    requires OneVoteEach(a.votes) && a.digest == Digest(a.votes, d)
            && Held(a) == MergeAll(Held(start), AllOffered(files))
    requires OneVoteEach(b.votes) && b.digest == Digest(b.votes, d)
            && Held(b) == MergeAll(Held(start), AllOffered(files'))
    ensures Table(a.votes) == Table(b.votes) && a.status == b.status && a.digest == b.digest
  {
    hide From, Honest, Offered, Digest, StrictOrder, MergeAll, Table, OneVoteEach;
    forall f | f in files'
      ensures f in files
    {
      assert f in multiset(files');
    }
    OfferedFrom(files, pool);
    OfferedFrom(files', pool);
    OfferedPermuted(files, files');
    AnyOrder(Held(start), AllOffered(files), AllOffered(files'), pool);
    DigestOfTable(a.votes, b.votes, d);
  }

  /** What a file offers and holds comes from any pool its votes are in. */
  lemma {:induction false} FileFrom(votes: seq<Ballot>, status: Status, digest: Bytes32, pool: set<Ballot>)
    requires forall v <- votes :: v in pool
    ensures From(Offered(File(votes, status, digest)), pool) && From(Held(File(votes, status, digest)), pool)
  {
    hide Lower;
    if votes != [] {
      assert forall v <- votes[..|votes| - 1] :: v in votes;
      FileFrom(votes[..|votes| - 1], status, digest, pool);
    }
  }

  lemma OfferedFrom(files: seq<File>, pool: set<Ballot>)
    requires forall f <- files :: From(Offered(f), pool)
    ensures forall c <- AllOffered(files) :: From(c, pool)
  {
    hide From, Offered;
    forall c | c in AllOffered(files)
      ensures From(c, pool)
    {
      var i :| 0 <= i < |files| && AllOffered(files)[i] == c;
      assert files[i] in files;
    }
  }

  lemma Removed<T>(s: seq<T>, i: nat, k: nat)
    requires i < |s| && k < |s| - 1
    ensures (s[..i] + s[i + 1..])[k] == if k < i then s[k] else s[k + 1]
  {
  }

  lemma OfferedRest(files: seq<File>, i: nat)
    requires i < |files|
    ensures AllOffered(files[..i] + files[i + 1..]) == AllOffered(files)[..i] + AllOffered(files)[i + 1..]
  {
    hide Offered, AllOffered;
    var (rest, cs) := (files[..i] + files[i + 1..], AllOffered(files));
    var ds := cs[..i] + cs[i + 1..];
    forall k | 0 <= k < |rest|
      ensures AllOffered(rest)[k] == ds[k]
    {
      Removed(files, i, k);
      Removed(cs, i, k);
    }
  }

  lemma OfferedLast(files: seq<File>)
    requires files != []
    ensures AllOffered(files) == AllOffered(files[..|files| - 1]) + [Offered(files[|files| - 1])]
  {
  }

  lemma PutBack<T>(a: seq<T>, b: seq<T>, i: nat, init: seq<T>)
    requires i < |b| && a == init + [b[i]] && multiset(init) == multiset(b[..i] + b[i + 1..])
    ensures multiset(a) == multiset(b)
  {
    RemoveAt(b, i);
  }

  lemma {:induction false} OfferedPermuted(files: seq<File>, files': seq<File>)
    requires multiset(files) == multiset(files')
    ensures multiset(AllOffered(files)) == multiset(AllOffered(files'))
    decreases |files|
  {
    hide Offered, AllOffered;
    SameLength(files, files');
    if files == [] {
      assert files' == [];
    } else {
      var i := TakeOut(files, files');
      OfferedPermuted(files[..|files| - 1], files'[..i] + files'[i + 1..]);
      OfferedRest(files', i);
      OfferedLast(files);
      PutBack(AllOffered(files), AllOffered(files'), i, AllOffered(files[..|files| - 1]));
    }
  }
}
