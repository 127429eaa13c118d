/** The time firewall-lock compares expiries with: the median of the header timestamps it is given. */
module MedianTime {
  import opened Bytes
  import opened Seqs
  import opened RegistryFormat
  import opened Lookup

  function Put(s: seq<u64>, t: u64): (r: seq<u64>)
    ensures |r| == |s| + 1
  {
    if s == [] || t <= s[0] then [t] + s else [s[0]] + Put(s[1..], t)
  }

  /** The timestamps in ascending order. */
  function Sorted(ts: seq<u64>): (r: seq<u64>)
    ensures |r| == |ts|
  {
    if ts == [] then [] else Put(Sorted(ts[..|ts| - 1]), ts[|ts| - 1])
  }

  /** `get_median_time`: zero without headers; None where the checked addition of the two middle values overflows. */
  function Median(ts: seq<u64>): Option<u64> {
    var (s, mid) := (Sorted(ts), |ts| / 2);
    if ts == [] then Some(0)
    else if |ts| % 2 == 1 then Some(s[mid])
    else if s[mid - 1] + s[mid] > U64_MAX then None
    else Some((s[mid - 1] + s[mid]) / 2)
  }

  /** How many timestamps are at most `v`. */
  function AtMost(ts: seq<u64>, v: nat): (n: nat)
    ensures n <= |ts|
  {
    if ts == [] then 0 else AtMost(ts[..|ts| - 1], v) + if ts[|ts| - 1] <= v then 1 else 0
  }

  /** `get_median_time`: the loop over the header deps, then the middle of the sorted vector. */
  method GetMedianTime(headers: seq<u64>) returns (r: Option<u64>)
    ensures r == Median(headers)
  {
    var timestamps: seq<u64> := [];
    for index := 0 to |headers|
      invariant timestamps == headers[..index]
    {
      timestamps := timestamps + [headers[index]];
    }
    assert headers[..|headers|] == headers;
    if timestamps == [] {
      return Some(0);
    }
    timestamps := Sorted(timestamps);
    if |timestamps| % 2 == 1 {
      return Some(timestamps[|timestamps| / 2]);
    }
    var mid := |timestamps| / 2;
    var (low: nat, high: nat) := (timestamps[mid - 1], timestamps[mid]);
    var total := low + high;
    return if total > U64_MAX then None else Some(total / 2);
  }

  // ---- order statistics ----

  lemma {:induction false} AtMostConcat(a: seq<u64>, b: seq<u64>, v: nat)
    ensures AtMost(a + b, v) == AtMost(a, v) + AtMost(b, v)
  {
    if b == [] {
      Nil(a);
    } else {
      AtMostConcat(a, b[..|b| - 1], v);
      ConcatInit(a, b);
    }
  }

  lemma AtMostCons(t: u64, s: seq<u64>, v: nat)
    ensures AtMost([t] + s, v) == AtMost(s, v) + if t <= v then 1 else 0
  {
    AtMostConcat([t], s, v);
    assert AtMost([t][..0], v) == 0;
  }

  lemma {:induction false} PutCounts(s: seq<u64>, t: u64, v: nat)
    ensures AtMost(Put(s, t), v) == AtMost(s, v) + if t <= v then 1 else 0
  {
    if s == [] || t <= s[0] {
      AtMostCons(t, s, v);
    } else {
      PutCounts(s[1..], t, v);
      AtMostCons(s[0], Put(s[1..], t), v);
      AtMostCons(s[0], s[1..], v);
      HeadTail(s);
    }
  }

  /** Sorting does not change how many timestamps are at most `v`. */
  lemma {:induction false} SortedCounts(ts: seq<u64>, v: nat)
    ensures AtMost(Sorted(ts), v) == AtMost(ts, v)
  {
    if ts != [] {
      SortedCounts(ts[..|ts| - 1], v);
      PutCounts(Sorted(ts[..|ts| - 1]), ts[|ts| - 1], v);
    }
  }

  ghost predicate Ordered(s: seq<u64>) {
    forall i, j :: 0 <= i < j < |s| ==> s[i] <= s[j]
  }

  lemma {:induction false} PutKeeps(s: seq<u64>, t: u64, x: u64)
    requires x in Put(s, t)
    ensures x == t || x in s
  {
    if s != [] && t > s[0] {
      if x != s[0] {
        PutKeeps(s[1..], t, x);
      }
    }
  }

  lemma OrderedCons(x: u64, s: seq<u64>)
    requires Ordered(s) && forall y <- s :: x <= y
    ensures Ordered([x] + s)
  {
    var r := [x] + s;
    forall i, j | 0 <= i < j < |r|
      ensures r[i] <= r[j]
    {
      assert r[j] == s[j - 1] && s[j - 1] in s;
      if i > 0 {
        assert r[i] == s[i - 1];
      }
    }
  }

  lemma OrderedTail(s: seq<u64>)
    requires Ordered(s) && s != []
    ensures Ordered(s[1..]) && forall y <- s[1..] :: s[0] <= y
  {
    var tail := s[1..];
    forall y | y in tail
      ensures s[0] <= y
    {
      var i :| 0 <= i < |tail| && tail[i] == y;
      assert s[i + 1] == y;
    }
  }

  lemma {:induction false} PutOrdered(s: seq<u64>, t: u64)
    requires Ordered(s)
    ensures Ordered(Put(s, t))
  {
    hide Ordered;
    if s == [] {
      OrderedCons(t, s);
    } else {
      OrderedTail(s);
      if t <= s[0] {
        HeadTail(s);
        OrderedCons(t, s);
      } else {
        PutOrdered(s[1..], t);
        forall y | y in Put(s[1..], t)
          ensures s[0] <= y
        {
          PutKeeps(s[1..], t, y);
        }
        OrderedCons(s[0], Put(s[1..], t));
      }
    }
  }

  lemma {:induction false} SortedOrdered(ts: seq<u64>)
    ensures Ordered(Sorted(ts))
  {
    hide Put;
    if ts != [] {
      SortedOrdered(ts[..|ts| - 1]);
      PutOrdered(Sorted(ts[..|ts| - 1]), ts[|ts| - 1]);
    }
  }

  lemma {:induction false} RankInOrdered(s: seq<u64>, k: nat, v: nat)
    requires Ordered(s) && k < |s|
    ensures s[k] <= v <==> AtMost(s, v) > k
  {
    var last := |s| - 1;
    if k < last {
      RankInOrdered(s[..last], k, v);
    } else if last > 0 {
      RankInOrdered(s[..last], last - 1, v);
    }
  }

  /** The k-th timestamp is at most `v` iff more than k timestamps are. */
  lemma RankExact(ts: seq<u64>, k: nat, v: nat)
    requires k < |ts|
    ensures Sorted(ts)[k] <= v <==> AtMost(ts, v) > k
  {
    hide Sorted, AtMost;
    SortedOrdered(ts);
    SortedCounts(ts, v);
    RankInOrdered(Sorted(ts), k, v);
  }

  // ---- the properties of the median ----

  lemma {:induction false} Occurrences(a: seq<u64>, v: nat, t: u64, i: nat)
    requires i < |a| && a[i] == t
    ensures AtMost(a, v) == AtMost(a[..i] + a[i + 1..], v) + if t <= v then 1 else 0
  {
    AtMostConcat(a[..i], a[i..], v);
    AtMostCons(t, a[i + 1..], v);
    AtMostConcat(a[..i], a[i + 1..], v);
    assert a == a[..i] + a[i..] && a[i..] == [t] + a[i + 1..];
  }

  /** Counts depend on the timestamps only, not on their order. */
  lemma {:induction false} CountsOfPermutation(a: seq<u64>, b: seq<u64>, v: nat)
    requires multiset(a) == multiset(b)
    ensures AtMost(a, v) == AtMost(b, v) && |a| == |b|
  {
    SameLength(a, b);
    if a != [] {
      var i := TakeOut(a, b);
      CountsOfPermutation(a[..|a| - 1], b[..i] + b[i + 1..], v);
      Occurrences(b, v, b[i], i);
    }
  }

  lemma {:induction false} CountsAntitone(a: seq<u64>, b: seq<u64>, v: nat)
    requires |a| == |b| && forall i :: 0 <= i < |a| ==> a[i] <= b[i]
    ensures AtMost(a, v) >= AtMost(b, v)
  {
    if a != [] {
      CountsAntitone(a[..|a| - 1], b[..|b| - 1], v);
    }
  }

  /** Moving timestamps forward moves every order statistic forward. */
  lemma RankMonotone(a: seq<u64>, b: seq<u64>, k: nat)
    requires |a| == |b| && forall i :: 0 <= i < |a| ==> a[i] <= b[i]
    requires k < |a|
    ensures Sorted(a)[k] <= Sorted(b)[k]
  {
    hide Sorted, AtMost;
    var v := Sorted(b)[k];
    RankExact(b, k, v);
    CountsAntitone(a, b, v);
    RankExact(a, k, v);
  }

  /** The median does not depend on the order of the headers. */
  lemma OrderIndependent(a: seq<u64>, b: seq<u64>)
    requires multiset(a) == multiset(b)
    ensures Median(a) == Median(b)
  {
    hide Sorted, AtMost;
    CountsOfPermutation(a, b, 0);
    forall k | 0 <= k < |a|
      ensures Sorted(a)[k] == Sorted(b)[k]
    {
      CountsOfPermutation(a, b, Sorted(a)[k]);
      CountsOfPermutation(a, b, Sorted(b)[k]);
      RankExact(a, k, Sorted(b)[k]);
      RankExact(b, k, Sorted(b)[k]);
      RankExact(a, k, Sorted(a)[k]);
      RankExact(b, k, Sorted(a)[k]);
    }
  }

  /** The median is monotone in every timestamp. */
  lemma Monotone(a: seq<u64>, b: seq<u64>)
    requires |a| == |b| && forall i :: 0 <= i < |a| ==> a[i] <= b[i]
    requires Median(b).Some?
    ensures Median(a).Some? && Median(a).value <= Median(b).value
  {
    hide Sorted;
    if a != [] {
      RankMonotone(a, b, |a| / 2);
      if |a| % 2 == 0 {
        RankMonotone(a, b, |a| / 2 - 1);
      }
    }
  }

  lemma {:induction false} AllAtMost(ts: seq<u64>, v: nat)
    ensures (forall t <- ts :: t <= v) ==> AtMost(ts, v) == |ts|
    ensures (forall t <- ts :: t > v) ==> AtMost(ts, v) == 0
  {
    if ts != [] {
      var init := ts[..|ts| - 1];
      assert forall t <- init :: t in ts;
      assert ts[|ts| - 1] in ts;
      AllAtMost(init, v);
    }
  }

  /** The median lies between the least and the greatest timestamp. */
  lemma BetweenExtremes(ts: seq<u64>, lo: nat, hi: nat)
    requires ts != [] && forall t <- ts :: lo <= t <= hi
    requires Median(ts).Some?
    ensures lo <= Median(ts).value <= hi
  {
    hide Sorted, AtMost;
    forall k | 0 <= k < |ts|
      ensures lo <= Sorted(ts)[k] <= hi
    {
      RankExact(ts, k, hi);
      AllAtMost(ts, hi);
      if lo > 0 {
        RankExact(ts, k, lo - 1);
        AllAtMost(ts, lo - 1);
      }
    }
  }

  /**
   * Of an odd number of timestamps, fewer than half lie strictly below the median and fewer than half strictly above.
   */
  lemma MedianSplits(ts: seq<u64>)
    requires |ts| % 2 == 1
    ensures var m: nat := Median(ts).value;
            2 * AtMost(ts, m) > |ts| && (m > 0 ==> 2 * AtMost(ts, m - 1) < |ts|)
  {
    hide Sorted, AtMost;
    var m: nat := Median(ts).value;
    RankExact(ts, |ts| / 2, m);
    if m > 0 {
      RankExact(ts, |ts| / 2, m - 1);
    }
  }

  /** The timestamp of this rank: fewer than `k + 1` are below it, more than `k` are at most it. */
  predicate HasRank(ts: seq<u64>, k: nat, v: nat) {
    AtMost(ts, v) > k && (v > 0 ==> AtMost(ts, v - 1) <= k)
  }

  lemma SortedHasRank(ts: seq<u64>, k: nat)
    requires k < |ts|
    ensures HasRank(ts, k, Sorted(ts)[k])
  {
    hide Sorted, AtMost;
    var v: nat := Sorted(ts)[k];
    RankExact(ts, k, v);
    if v > 0 {
      RankExact(ts, k, v - 1);
    }
  }

  lemma {:induction false} AtMostGrows(ts: seq<u64>, v: nat, w: nat)
    requires v <= w
    ensures AtMost(ts, v) <= AtMost(ts, w)
  {
    if ts != [] {
      AtMostGrows(ts[..|ts| - 1], v, w);
    }
  }

  /** No two timestamps have one rank. */
  lemma RankIsUnique(ts: seq<u64>, k: nat, v: nat, w: nat)
    requires HasRank(ts, k, v) && HasRank(ts, k, w)
    ensures v == w
  {
    hide AtMost;
    if v < w {
      AtMostGrows(ts, v, w - 1);
    } else if w < v {
      AtMostGrows(ts, w, v - 1);
    }
  }

  /**
   * Of an even number of timestamps the median is the mean of the two middle ones, rounded down, and there is none iff
   * their sum does not fit 64 bits; of an odd number it is the middle one.
   */
  lemma MedianExact(ts: seq<u64>, low: nat, high: nat)
    requires ts != [] && HasRank(ts, (|ts| - 1) / 2, low) && HasRank(ts, |ts| / 2, high)
    ensures |ts| % 2 == 1 ==> low == high && Median(ts).Some? && Median(ts).value == low
    ensures |ts| % 2 == 0 ==>
              (Median(ts).None? <==> low + high > 0xFFFF_FFFF_FFFF_FFFF)
              && (Median(ts).Some? ==> 2 * Median(ts).value <= low + high <= 2 * Median(ts).value + 1)
  {
    hide Sorted, AtMost, HasRank;
    var n := |ts|;
    SortedHasRank(ts, (n - 1) / 2);
    SortedHasRank(ts, n / 2);
    RankIsUnique(ts, (n - 1) / 2, low, Sorted(ts)[(n - 1) / 2]);
    RankIsUnique(ts, n / 2, high, Sorted(ts)[n / 2]);
  }

  /** Later headers never put an expired entry back: what is listed at the later time was listed at the earlier. */
  lemma NeverReactivates(es: seq<Entry>, id: seq<byte>, a: seq<u64>, b: seq<u64>)
    requires |a| == |b| && forall i :: 0 <= i < |a| ==> a[i] <= b[i]
    requires Median(b).Some? && Listed(es, id, Median(b).value)
    ensures Median(a).Some? && Listed(es, id, Median(a).value)
  {
    hide Median;
    Monotone(a, b);
    ListedAntitone(es, id, Median(a).value, Median(b).value);
  }

  /** Without headers every entry counts as active. */
  lemma NoHeadersAllActive(es: seq<Entry>, id: seq<byte>)
    ensures Median([]) == Some(0)
    ensures Listed(es, id, Median([]).value) <==> exists e <- es :: e.id == id
  {
    if e :| e in es && e.id == id {
      assert Active(e, 0);
    }
  }
}
