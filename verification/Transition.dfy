/** Which registry updates a proposal authorises. A sorted entry list stands for a map. */
module Transition {
  import opened Bytes
  import opened Lex
  import opened Seqs
  import opened RegistryFormat
  import opened ProposalCell
  import GovernanceHeader

  /** The map a strictly ascending entry list stands for. */
  function ToMap(es: seq<Entry>): map<seq<byte>, u64> {
    if es == [] then map[] else map[es[0].id := es[0].expiresAt] + ToMap(es[1..])
  }

  predicate HasId(es: seq<Entry>, id: seq<byte>) {
    exists e <- es :: e.id == id
  }

  /** The entries with another identifier, in order. */
  function Without(es: seq<Entry>, id: seq<byte>): (r: seq<Entry>)
    ensures |r| <= |es|
  {
    if es == [] then [] else (if es[0].id == id then [] else [es[0]]) + Without(es[1..], id)
  }

  /** How many entries carry the identifier. */
  function Count(es: seq<Entry>, id: seq<byte>): (n: nat)
    ensures n + |Without(es, id)| == |es|
  {
    if es == [] then 0 else (if es[0].id == id then 1 else 0) + Count(es[1..], id)
  }

  lemma {:induction false} WithoutSnoc(es: seq<Entry>, e: Entry, id: seq<byte>)
    ensures Without(es + [e], id) == Without(es, id) + if e.id == id then [] else [e]
    ensures Count(es + [e], id) == Count(es, id) + if e.id == id then 1 else 0
  {
    if es == [] {
      Nil([e]);
    } else {
      HeadOfSnoc(es, e);
      WithoutSnoc(es[1..], e, id);
      Assoc(if es[0].id == id then [] else [es[0]], Without(es[1..], id), if e.id == id then [] else [e]);
    }
  }

  lemma {:induction false} WithoutMonotone(es: seq<Entry>, k: nat, id: seq<byte>)
    requires k <= |es|
    ensures Without(es[..k], id) <= Without(es, id) && Count(es[..k], id) <= Count(es, id)
    decreases |es| - k
  {
    if k < |es| {
      WithoutMonotone(es, k + 1, id);
      assert es[..k + 1] == es[..k] + [es[k]];
      WithoutSnoc(es[..k], es[k], id);
    } else {
      assert es[..k] == es;
    }
  }

  /** One list is the other with exactly one entry more, carrying `id` (and satisfying `ok`). */
  predicate OneMore(bigger: seq<Entry>, smaller: seq<Entry>, id: seq<byte>) {
    Count(bigger, id) == 1 && Without(bigger, id) == smaller
  }

  /** `transition_matches_proposal` as a function of its arguments. */
  predicate Matches(old_: seq<Entry>, new_: seq<Entry>, newData: seq<byte>, p: Proposal, blake: Hasher) {
    match p.action
    case Add => OneMore(new_, old_, p.id) && ExpiryOf(new_, p.id, p.expiresAt)
    case Remove => OneMore(old_, new_, p.id)
    case SetGovernanceHeader =>
      old_ == new_ && p.treasuryLockHash.Some?
      && GovernanceHeader.ParseTreasuryHash(newData, blake) == Ok(p.treasuryLockHash)
  }

  /** Every entry of the list with this identifier carries this expiry. */
  predicate ExpiryOf(es: seq<Entry>, id: seq<byte>, expiresAt: u64) {
    forall e <- es :: e.id == id ==> e.expiresAt == expiresAt
  }

  /** The add branch: one pass over the new entries, an index into the old ones. */
  method MatchesAdd(old_: seq<Entry>, new_: seq<Entry>, p: Proposal) returns (ok: bool)
    ensures ok == (OneMore(new_, old_, p.id) && ExpiryOf(new_, p.id, p.expiresAt))
  {
    hide Without, Count;
    if |new_| != |old_| + 1 {
      return false;
    }
    var usedInsert := false;
    var oldI := 0;
    for k := 0 to |new_|
      invariant 0 <= oldI <= |old_|
      invariant Without(new_[..k], p.id) == old_[..oldI]
      invariant Count(new_[..k], p.id) == if usedInsert then 1 else 0
      invariant ExpiryOf(new_[..k], p.id, p.expiresAt)
    {
      var newEntry := new_[k];
      Extend(new_, k, p.id);
      if newEntry.id == p.id {
        if usedInsert || newEntry.expiresAt != p.expiresAt {
          return false;
        }
        usedInsert := true;
      } else {
        if oldI >= |old_| {
          return false;
        }
        var oldEntry := old_[oldI];
        if oldEntry.id != newEntry.id || oldEntry.expiresAt != newEntry.expiresAt {
          return false;
        }
        oldI := oldI + 1;
      }
    }
    assert new_[..|new_|] == new_;
    return usedInsert && oldI == |old_|;
  }

  /** The remove branch: one pass over the old entries, an index into the new ones. */
  method MatchesRemove(old_: seq<Entry>, new_: seq<Entry>, p: Proposal) returns (ok: bool)
    ensures ok == OneMore(old_, new_, p.id)
  {
    hide Without, Count;
    if |old_| != |new_| + 1 {
      return false;
    }
    var usedRemove := false;
    var newI := 0;
    for k := 0 to |old_|
      invariant 0 <= newI <= |new_|
      invariant Without(old_[..k], p.id) == new_[..newI]
      invariant Count(old_[..k], p.id) == if usedRemove then 1 else 0
    {
      var oldEntry := old_[k];
      Extend(old_, k, p.id);
      if oldEntry.id == p.id {
        if usedRemove {
          return false;
        }
        usedRemove := true;
      } else {
        if newI >= |new_| {
          return false;
        }
        var newEntry := new_[newI];
        if oldEntry.id != newEntry.id || oldEntry.expiresAt != newEntry.expiresAt {
          return false;
        }
        newI := newI + 1;
      }
    }
    assert old_[..|old_|] == old_;
    return usedRemove && newI == |new_|;
  }

  /** What one more entry does to a prefix, and what the prefix then says of the whole list. */
  lemma Extend(es: seq<Entry>, k: nat, id: seq<byte>)
    requires k < |es|
    ensures es[..k + 1] == es[..k] + [es[k]] && es[k] in es
    ensures Without(es[..k + 1], id) == Without(es[..k], id) + if es[k].id == id then [] else [es[k]]
    ensures Count(es[..k + 1], id) == Count(es[..k], id) + if es[k].id == id then 1 else 0
    ensures Without(es[..k + 1], id) <= Without(es, id) && Count(es[..k + 1], id) <= Count(es, id)
  {
    assert es[..k + 1] == es[..k] + [es[k]];
    WithoutSnoc(es[..k], es[k], id);
    WithoutMonotone(es, k + 1, id);
  }

  /** `transition_matches_proposal`. */
  method TransitionMatchesProposal(old_: seq<Entry>, new_: seq<Entry>, newData: seq<byte>, p: Proposal, blake: Hasher)
    returns (ok: bool)
    ensures ok == Matches(old_, new_, newData, p, blake)
  {
    match p.action
    case Add =>
      ok := MatchesAdd(old_, new_, p);
    case Remove =>
      ok := MatchesRemove(old_, new_, p);
    case SetGovernanceHeader =>
      ok := old_ == new_;
      if ok {
        match p.treasuryLockHash
        case None => ok := false;
        case Some(expected) =>
          match GovernanceHeader.ParseTreasuryHash(newData, blake)
          case Ok(Some(actual)) => ok := actual == expected;
          case _ => ok := false;
      }
  }

  // ---- lists and maps ----

  lemma DropFromMap<K, V>(k: K, v: V, m: map<K, V>, id: K)
    ensures (map[k := v] + m) - {id} == if k == id then m - {id} else map[k := v] + (m - {id})
    ensures k !in m ==> (map[k := v] + m) - {k} == m && (map[k := v] + m)[k] == v
  {
  }

  /** Dropping an identifier from the list drops it from the map. */
  lemma {:induction false} MapOfWithout(es: seq<Entry>, id: seq<byte>)
    ensures ToMap(Without(es, id)) == ToMap(es) - {id}
  {
    if es != [] {
      MapOfWithout(es[1..], id);
      var rest := Without(es[1..], id);
      DropFromMap(es[0].id, es[0].expiresAt, ToMap(es[1..]), id);
      if es[0].id == id {
        Nil(rest);
      } else {
        ConsTail(es[0], rest);
      }
    }
  }

  lemma {:induction false} KeysAreIds(es: seq<Entry>, id: seq<byte>)
    ensures id in ToMap(es) <==> HasId(es, id)
  {
    if es != [] {
      KeysAreIds(es[1..], id);
      HeadTail(es);
      assert HasId(es, id) <==> es[0].id == id || HasId(es[1..], id);
    }
  }

  /** The head of an ascending list has the least identifier, which the tail does not carry. */
  lemma HeadIsLeast(es: seq<Entry>, id: seq<byte>)
    requires Ascending(es) && es != []
    ensures Ascending(es[1..])
    ensures HasId(es[1..], id) ==> Less(es[0].id, id)
  {
    assert forall i :: 0 < i < |es[1..]| ==> es[1..][i - 1] == es[i] && es[1..][i] == es[i + 1];
    if e :| e in es[1..] && e.id == id {
      var j :| 0 <= j < |es[1..]| && es[1..][j] == e;
      AscendingPairs(es, 0, j + 1);
    }
  }

  lemma HeadAndTailMap(es: seq<Entry>)
    requires Ascending(es) && es != []
    ensures Ascending(es[1..])
    ensures es[0].id in ToMap(es) && ToMap(es)[es[0].id] == es[0].expiresAt
    ensures ToMap(es) - {es[0].id} == ToMap(es[1..])
  {
    HeadIsLeast(es, es[0].id);
    Irreflexive(es[0].id);
    KeysAreIds(es[1..], es[0].id);
    DropFromMap(es[0].id, es[0].expiresAt, ToMap(es[1..]), es[0].id);
  }

  /** The first identifier of an ascending list is below every other identifier of its map. */
  lemma LeastKey(es: seq<Entry>, id: seq<byte>)
    requires Ascending(es) && es != [] && id in ToMap(es)
    ensures id == es[0].id || Less(es[0].id, id)
  {
    HeadAndTailMap(es);
    if id != es[0].id {
      KeysAreIds(es[1..], id);
      HeadIsLeast(es, id);
    }
  }

  /** Two strictly ascending lists that stand for the same map are the same list. */
  lemma {:induction false} MapDeterminesList(a: seq<Entry>, b: seq<Entry>)
    requires Ascending(a) && Ascending(b) && ToMap(a) == ToMap(b)
    ensures a == b
  {
    if a != [] && b != [] {
      HeadAndTailMap(a);
      HeadAndTailMap(b);
      LeastKey(a, b[0].id);
      LeastKey(b, a[0].id);
      Trichotomy(a[0].id, b[0].id);
      MapDeterminesList(a[1..], b[1..]);
      HeadTail(a);
      HeadTail(b);
    } else if a != [] {
      HeadAndTailMap(a);
    } else if b != [] {
      HeadAndTailMap(b);
    }
  }

  lemma {:induction false} CountInAscending(es: seq<Entry>, id: seq<byte>)
    requires Ascending(es)
    ensures Count(es, id) == if id in ToMap(es) then 1 else 0
  {
    if es != [] {
      HeadAndTailMap(es);
      CountInAscending(es[1..], id);
    }
  }

  lemma {:induction false} MapValue(es: seq<Entry>, e: Entry)
    requires Ascending(es) && e in es
    ensures e.id in ToMap(es) && ToMap(es)[e.id] == e.expiresAt
  {
    HeadAndTailMap(es);
    if e != es[0] {
      MapValue(es[1..], e);
    }
  }

  lemma {:induction false} WithoutKeeps(es: seq<Entry>, id: seq<byte>, e: Entry)
    requires e in Without(es, id)
    ensures e in es
  {
    if e in Without(es[1..], id) {
      WithoutKeeps(es[1..], id, e);
    }
  }

  lemma {:induction false} WithoutAscending(es: seq<Entry>, id: seq<byte>)
    requires Ascending(es)
    ensures Ascending(Without(es, id))
  {
    if es != [] {
      var rest := Without(es[1..], id);
      HeadAndTailMap(es);
      WithoutAscending(es[1..], id);
      Nil(rest);
      if es[0].id != id && rest != [] {
        WithoutKeeps(es[1..], id, rest[0]);
        HeadIsLeast(es, rest[0].id);
        ConsAscending(es[0], rest);
      }
    }
  }

  lemma ConsAscending(e: Entry, es: seq<Entry>)
    requires Ascending(es) && es != [] && Less(e.id, es[0].id)
    ensures Ascending([e] + es)
  {
    var r := [e] + es;
    forall i | 0 < i < |r|
      ensures Less(r[i - 1].id, r[i].id)
    {
      if i > 1 {
        assert r[i] == es[i - 1] && r[i - 1] == es[i - 2];
      }
    }
  }

  /** For sorted lists, `OneMore` says the smaller map is the bigger one minus a present identifier. */
  lemma OneMoreIsMapRemoval(bigger: seq<Entry>, smaller: seq<Entry>, id: seq<byte>)
    requires Ascending(bigger) && Ascending(smaller)
    ensures OneMore(bigger, smaller, id) <==> id in ToMap(bigger) && ToMap(smaller) == ToMap(bigger) - {id}
  {
    hide Ascending, Without, ToMap, Count;
    CountInAscending(bigger, id);
    MapOfWithout(bigger, id);
    if id in ToMap(bigger) && ToMap(smaller) == ToMap(bigger) - {id} {
      WithoutAscending(bigger, id);
      MapDeterminesList(Without(bigger, id), smaller);
    }
  }

  lemma ExpiryIsMapValue(es: seq<Entry>, id: seq<byte>, expiresAt: u64)
    requires Ascending(es) && id in ToMap(es)
    ensures ExpiryOf(es, id, expiresAt) <==> ToMap(es)[id] == expiresAt
  {
    hide Ascending, ToMap;
    KeysAreIds(es, id);
    var e :| e in es && e.id == id;
    MapValue(es, e);
    forall f | f in es && f.id == id
      ensures f.expiresAt == ToMap(es)[id]
    {
      MapValue(es, f);
    }
  }

  lemma AddOrRemove<K, V>(m: map<K, V>, n: map<K, V>, id: K, v: V)
    ensures (id in n && m == n - {id} && n[id] == v) <==> (id !in m && n == m[id := v])
  {
  }

  /**
   * Add is accepted iff the identifier is absent from the old map and the new map is the old one
   * with the proposed entry; Remove iff it is present and the new map is the old one without it.
   */
  lemma MatchesAsMaps(old_: seq<Entry>, new_: seq<Entry>, newData: seq<byte>, p: Proposal, blake: Hasher)
    requires Ascending(old_) && Ascending(new_)
    ensures p.action == Add ==>
              (Matches(old_, new_, newData, p, blake)
               <==> p.id !in ToMap(old_) && ToMap(new_) == ToMap(old_)[p.id := p.expiresAt])
    ensures p.action == Remove ==>
              (Matches(old_, new_, newData, p, blake)
               <==> p.id in ToMap(old_) && ToMap(new_) == ToMap(old_) - {p.id})
  {
    hide Ascending, ToMap, OneMore, ExpiryOf;
    if p.action == Remove {
      OneMoreIsMapRemoval(old_, new_, p.id);
    } else if p.action == Add {
      OneMoreIsMapRemoval(new_, old_, p.id);
      if p.id in ToMap(new_) {
        ExpiryIsMapValue(new_, p.id, p.expiresAt);
      }
      AddOrRemove(ToMap(old_), ToMap(new_), p.id, p.expiresAt);
    }
  }

  /** What an accepted proposal does to the map. */
  function Apply(m: map<seq<byte>, u64>, p: Proposal): map<seq<byte>, u64> {
    match p.action
    case Add => m[p.id := p.expiresAt]
    case Remove => m - {p.id}
    case SetGovernanceHeader => m
  }

  lemma AcceptedAppliesProposal(old_: seq<Entry>, new_: seq<Entry>, newData: seq<byte>, p: Proposal, blake: Hasher)
    requires Ascending(old_) && Ascending(new_) && Matches(old_, new_, newData, p, blake)
    ensures ToMap(new_) == Apply(ToMap(old_), p)
    ensures p.action == Add ==> p.id !in ToMap(old_)
    ensures p.action == Remove ==> p.id in ToMap(old_)
  {
    hide Ascending, ToMap, OneMore, ExpiryOf;
    MatchesAsMaps(old_, new_, newData, p, blake);
  }
}
