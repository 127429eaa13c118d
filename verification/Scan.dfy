/** Scans over cells that collect the indices of those that match. */
module Scan {
  import opened Bytes

  /** The indices of the elements that satisfy `p`, ascending. */
  function Positions<T>(s: seq<T>, p: T -> bool): (ps: seq<nat>)
    ensures |ps| <= |s|
  {
    if s == [] then []
    else
      var last := |s| - 1;
      Positions(s[..last], p) + if p(s[last]) then [last] else []
  }

  lemma {:induction false} PositionsExact<T>(s: seq<T>, p: T -> bool, i: nat)
    ensures i in Positions(s, p) <==> i < |s| && p(s[i])
  {
    if s != [] {
      PositionsExact(s[..|s| - 1], p, i);
    }
  }

  lemma {:induction false} PositionsDistinct<T>(s: seq<T>, p: T -> bool, a: nat, b: nat)
    requires a < b < |Positions(s, p)|
    ensures Positions(s, p)[a] < Positions(s, p)[b]
  {
    var init := Positions(s[..|s| - 1], p);
    if b < |init| {
      PositionsDistinct(s[..|s| - 1], p, a, b);
    } else {
      PositionsExact(s[..|s| - 1], p, init[a]);
    }
  }

  lemma PositionsStep<T>(s: seq<T>, p: T -> bool, i: nat)
    requires i < |s|
    ensures Positions(s[..i + 1], p) == Positions(s[..i], p) + if p(s[i]) then [i] else []
  {
    assert s[..i + 1][..i] == s[..i];
  }

  lemma {:induction false} PositionsOfPrefix<T>(s: seq<T>, p: T -> bool, i: nat)
    requires i <= |s|
    ensures Positions(s[..i], p) <= Positions(s, p)
    decreases |s| - i
  {
    if i < |s| {
      PositionsOfPrefix(s, p, i + 1);
      PositionsStep(s, p, i);
    } else {
      assert s[..i] == s;
    }
  }

  /** The one index that matches, if there is exactly one. */
  function Unique<T>(s: seq<T>, p: T -> bool): (u: Option<nat>)
    ensures u.Some? ==> u.value < |s|
  {
    var ps := Positions(s, p);
    if |ps| == 1 then
      PositionsExact(s, p, ps[0]);
      Some(ps[0])
    else None
  }

  lemma UniqueExact<T>(s: seq<T>, p: T -> bool, i: nat)
    ensures Unique(s, p) == Some(i)
       <==> i < |s| && p(s[i]) && forall j :: 0 <= j < |s| && p(s[j]) ==> j == i
  {
    var ps := Positions(s, p);
    PositionsExact(s, p, i);
    if Unique(s, p) == Some(i) {
      forall j | 0 <= j < |s| && p(s[j])
        ensures j == i
      {
        PositionsExact(s, p, j);
      }
    }
    if i < |s| && p(s[i]) && forall j :: 0 <= j < |s| && p(s[j]) ==> j == i {
      if |ps| > 1 {
        PositionsDistinct(s, p, 0, 1);
        PositionsExact(s, p, ps[0]);
        PositionsExact(s, p, ps[1]);
      }
    }
  }

  /** The positions are one index, or none, as soon as that index alone matches, or nothing does. */
  lemma PositionsAre<T>(s: seq<T>, p: T -> bool, at: Option<nat>)
    requires at.Some? ==> at.value < |s| && p(s[at.value])
    requires forall j :: 0 <= j < |s| && p(s[j]) ==> at == Some(j)
    ensures Positions(s, p) == if at.Some? then [at.value] else []
  {
    var ps := Positions(s, p);
    if at.Some? {
      PositionsExact(s, p, at.value);
    }
    if |ps| > 0 {
      PositionsExact(s, p, ps[0]);
    }
    if |ps| > 1 {
      PositionsDistinct(s, p, 0, 1);
      PositionsExact(s, p, ps[1]);
    }
  }

  /** A loop that pushes every matching index. */
  method CollectPositions<T>(s: seq<T>, p: T -> bool) returns (matches: seq<nat>)
    ensures matches == Positions(s, p)
  {
    matches := [];
    var i := 0;
    while i < |s|
      invariant 0 <= i <= |s| && matches == Positions(s[..i], p)
    {
      PositionsStep(s, p, i);
      if p(s[i]) {
        matches := matches + [i];
      }
      i := i + 1;
    }
    assert s[..i] == s;
  }

  /** A loop that stops at a second match. */
  method FindUnique<T>(s: seq<T>, p: T -> bool) returns (found: Option<nat>)
    ensures found == Unique(s, p)
  {
    found := None;
    var i := 0;
    while i < |s|
      invariant 0 <= i <= |s|
      invariant Positions(s[..i], p) == if found.Some? then [found.value] else []
    {
      PositionsStep(s, p, i);
      PositionsOfPrefix(s, p, i + 1);
      if p(s[i]) {
        if found.Some? {
          return None;
        }
        found := Some(i);
      }
      i := i + 1;
    }
    assert s[..i] == s;
  }
}
