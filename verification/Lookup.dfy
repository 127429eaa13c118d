/** The four ways the repository looks an identifier up in a sorted entry list. */
module Lookup {
  import opened Bytes
  import opened Lex
  import opened RegistryFormat

  /** An entry that never expires, or has not expired at `now`. */
  predicate Active(e: Entry, now: nat) {
    e.expiresAt == 0 || now < e.expiresAt
  }

  /** What every search must answer: some active entry carries the identifier. */
  predicate Listed(es: seq<Entry>, id: seq<byte>, now: nat) {
    exists e <- es :: e.id == id && Active(e, now)
  }

  /** An entry without expiry never ends, any other exactly at its expiry. */
  lemma EndsAtExpiry(e: Entry, now: nat)
    ensures e.expiresAt == 0 ==> Active(e, now)
    ensures e.expiresAt != 0 ==> !Active(e, e.expiresAt) && Active(e, e.expiresAt - 1)
    ensures e.expiresAt != 0 && now > e.expiresAt ==> !Active(e, now)
  {
  }

  /** In an ascending list an identifier occurs at most once. */
  lemma UniqueId(es: seq<Entry>, i: nat, j: nat)
    requires Ascending(es) && i < |es| && j < |es| && es[i].id == es[j].id
    ensures i == j
  {
    if i < j {
      AscendingPairs(es, i, j);
      Trichotomy(es[i].id, es[j].id);
    } else if j < i {
      AscendingPairs(es, j, i);
      Trichotomy(es[i].id, es[j].id);
    }
  }

  lemma ListedAt(es: seq<Entry>, i: nat, now: nat)
    requires Ascending(es) && i < |es|
    ensures Listed(es, es[i].id, now) <==> Active(es[i], now)
  {
    if e :| e in es && e.id == es[i].id && Active(e, now) {
      var j :| 0 <= j < |es| && es[j] == e;
      UniqueId(es, i, j);
    }
  }

  /** Every entry outside [lo, hi) is on its own side of the target. */
  ghost predicate Narrowed(es: seq<Entry>, target: seq<byte>, lo: int, hi: int)
    requires 0 <= lo <= |es| && 0 <= hi <= |es|
  {
    (forall i :: 0 <= i < lo ==> Less(es[i].id, target))
    && (forall i :: hi <= i < |es| ==> Less(target, es[i].id))
  }

  lemma NarrowUp(es: seq<Entry>, target: seq<byte>, lo: int, mid: int, hi: int)
    requires Ascending(es) && 0 <= lo <= mid < hi <= |es|
    requires Narrowed(es, target, lo, hi) && Less(es[mid].id, target)
    ensures Narrowed(es, target, mid + 1, hi)
  {
    forall i | 0 <= i < mid ensures Less(es[i].id, target) {
      AscendingPairs(es, i, mid);
      Transitive(es[i].id, es[mid].id, target);
    }
  }

  lemma NarrowDown(es: seq<Entry>, target: seq<byte>, lo: int, mid: int, hi: int)
    requires Ascending(es) && 0 <= lo <= mid < hi <= |es|
    requires Narrowed(es, target, lo, hi) && Less(target, es[mid].id)
    ensures Narrowed(es, target, lo, mid)
  {
    forall i | mid < i < |es| ensures Less(target, es[i].id) {
      AscendingPairs(es, mid, i);
      Transitive(target, es[mid].id, es[i].id);
    }
  }

  lemma NarrowedToNothing(es: seq<Entry>, target: seq<byte>, at: nat, now: nat)
    requires at <= |es| && Narrowed(es, target, at, at)
    ensures !Listed(es, target, now)
  {
    if e :| e in es && e.id == target && Active(e, now) {
      var i :| 0 <= i < |es| && es[i] == e;
      Irreflexive(target);
    }
  }

  /** `search_entries` of the Rust SDK: half-open interval. */
  method SearchHalfOpen(es: seq<Entry>, target: seq<byte>, now: u64) returns (found: bool)
    requires Ascending(es)
    ensures found == Listed(es, target, now)
  {
    var lo, hi := 0, |es|;
    while lo < hi
      invariant 0 <= lo <= hi <= |es|
      invariant Narrowed(es, target, lo, hi)
    {
      var mid := lo + (hi - lo) / 2;
      if es[mid].id == target {
        ListedAt(es, mid, now);
        return es[mid].expiresAt == 0 || es[mid].expiresAt > now;
      }
      Total(es[mid].id, target);
      if Less(es[mid].id, target) {
        NarrowUp(es, target, lo, mid, hi);
        lo := mid + 1;
      } else {
        NarrowDown(es, target, lo, mid, hi);
        hi := mid;
      }
    }
    NarrowedToNothing(es, target, lo, now);
    return false;
  }

  /** `searchEntries` of the TypeScript SDK: closed interval, byte comparison by difference. */
  method SearchClosed(es: seq<Entry>, target: seq<byte>, now: u64) returns (found: bool)
    requires Ascending(es)
    ensures found == Listed(es, target, now)
  {
    var lo, hi := 0, |es| - 1;
    while lo <= hi
      invariant 0 <= lo <= hi + 1 <= |es|
      invariant Narrowed(es, target, lo, hi + 1)
    {
      var mid := (lo + hi) / 2;
      var cmp := CompareBytes(es[mid].id, target);
      if cmp == 0 {
        ListedAt(es, mid, now);
        return es[mid].expiresAt == 0 || es[mid].expiresAt > now;
      }
      if cmp < 0 {
        NarrowUp(es, target, lo, mid, hi + 1);
        lo := mid + 1;
      } else {
        NarrowDown(es, target, lo, mid, hi + 1);
        hi := mid - 1;
      }
    }
    NarrowedToNothing(es, target, lo, now);
    return false;
  }

  /** The search of `check`: it compares lowercase hex strings and exits with 2 on an active entry, else 0. */
  method CheckExitCode(es: seq<Entry>, targetHex: seq<byte>, now: u64, ghost target: seq<byte>) returns (code: int)
    requires Ascending(es) && targetHex == Hex(target)
    ensures code == if Listed(es, target, now) then 2 else 0
  {
    var lo, hi := 0, |es| - 1;
    var found: Option<Entry> := None;
    while lo <= hi
      invariant 0 <= lo <= hi + 1 <= |es|
      invariant found == None && Narrowed(es, target, lo, hi + 1)
    {
      var mid := (lo + hi) / 2;
      var entryHex := Hex(es[mid].id);
      if entryHex == targetHex {
        HexInjective(es[mid].id, target);
        ListedAt(es, mid, now);
        found := Some(es[mid]);
        break;
      }
      HexPreservesOrder(es[mid].id, target);
      Total(es[mid].id, target);
      if Less(entryHex, targetHex) {
        NarrowUp(es, target, lo, mid, hi + 1);
        lo := mid + 1;
      } else {
        NarrowDown(es, target, lo, mid, hi + 1);
        hi := mid - 1;
      }
    }
    if found == None {
      NarrowedToNothing(es, target, lo, now);
      return 0;
    }
    var isPermanent := found.value.expiresAt == 0;
    var isExpired := !isPermanent && found.value.expiresAt <= now;
    return if isExpired then 0 else 2;
  }

  /**
   * What the library's binary search may answer on a sorted slice: the position of some match, or none if there is
   * none.
   */
  predicate MayReturn(es: seq<Entry>, id: seq<byte>, p: Option<nat>) {
    match p
    case Some(i) => i < |es| && es[i].id == id
    case None => forall e <- es :: e.id != id
  }

  type Search = (seq<Entry>, seq<byte>) -> Option<nat>

  /** A search that answers as documented on every sorted slice; on others it may answer anything. */
  ghost predicate Documented(search: Search) {
    forall es: seq<Entry>, id: seq<byte> :: Ascending(es) ==> MayReturn(es, id, search(es, id))
  }

  /** `RegistryPayload::is_blacklisted`. */
  predicate IsBlacklisted(es: seq<Entry>, id: seq<byte>, now: nat, search: Search)
    requires Ascending(es) && Documented(search)
  {
    match search(es, id)
    case Some(i) => Active(es[i], now)
    case None => false
  }

  /** Whatever matching position the library picks, the answer is whether the identifier is listed. */
  lemma IsBlacklistedIsListed(es: seq<Entry>, id: seq<byte>, now: nat, search: Search)
    requires Ascending(es) && Documented(search)
    ensures IsBlacklisted(es, id, now, search) <==> Listed(es, id, now)
  {
    hide Ascending, Active;
    assert MayReturn(es, id, search(es, id));
    match search(es, id)
    case Some(i) => ListedAt(es, i, now);
    case None =>
  }

  /** An entry that has expired stays expired: moving time forward never lists more. */
  lemma ListedAntitone(es: seq<Entry>, id: seq<byte>, now: nat, later: nat)
    requires now <= later && Listed(es, id, later)
    ensures Listed(es, id, now)
  {
    var e :| e in es && e.id == id && Active(e, later);
    assert Active(e, now);
  }
}
