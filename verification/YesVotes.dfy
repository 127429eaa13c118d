/** The yes-votes of a proposal file: who cast them, and the order they are submitted in. */
module YesVotes {
  import opened Bytes
  import opened Lex
  import opened Seqs
  import opened Witness
  import GL = GovernanceLock

  /** The filter of `isVoteApproved` and of the submission. */
  function Yes(votes: seq<Vote>): (ys: seq<Vote>)
    ensures |ys| <= |votes|
  {
    if votes == [] then []
    else Yes(votes[..|votes| - 1]) + if votes[|votes| - 1].vote == GL.YES then [votes[|votes| - 1]] else []
  }

  /** The keys of a vote list. */
  function Voters(votes: seq<Vote>): (s: set<Pubkey>)
    ensures |s| <= |votes|
  {
    if votes == [] then {} else Voters(votes[..|votes| - 1]) + {votes[|votes| - 1].pubkey}
  }

  /** Stable insertion by key; the lowercase hex of keys of one length is ordered as their bytes are. */
  function PutByKey(votes: seq<Vote>, v: Vote): (r: seq<Vote>)
    ensures |r| == |votes| + 1
  {
    if votes == [] || Less(v.pubkey, votes[0].pubkey) then [v] + votes else [votes[0]] + PutByKey(votes[1..], v)
  }

  function ByKey(votes: seq<Vote>): (r: seq<Vote>)
    ensures |r| == |votes|
  {
    if votes == [] then [] else PutByKey(ByKey(votes[..|votes| - 1]), votes[|votes| - 1])
  }

  /** The votes of the witness: the yes-votes in the order of their keys. */
  function Submitted(votes: seq<Vote>): seq<Vote> {
    ByKey(Yes(votes))
  }

  /** The filter as a loop. */
  method SelectYes(votes: seq<Vote>) returns (ys: seq<Vote>)
    ensures ys == Yes(votes)
  {
    ys := [];
    for i := 0 to |votes|
      invariant ys == Yes(votes[..i])
    {
      assert votes[..i + 1][..i] == votes[..i];
      Nil(ys);
      if votes[i].vote == GL.YES {
        ys := ys + [votes[i]];
      }
    }
    assert votes[..|votes|] == votes;
  }

  /** `new Set(...)` over the keys of a list. */
  method CollectVoters(votes: seq<Vote>) returns (keys: set<Pubkey>)
    ensures keys == Voters(votes)
  {
    keys := {};
    for i := 0 to |votes|
      invariant keys == Voters(votes[..i])
    {
      assert votes[..i + 1][..i] == votes[..i];
      keys := keys + {votes[i].pubkey};
    }
    assert votes[..|votes|] == votes;
  }

  // ---- the same votes in another order ----

  lemma {:induction false} YesExact(votes: seq<Vote>, x: Vote)
    ensures x in Yes(votes) <==> x in votes && x.vote == GL.YES
  {
    if votes != [] {
      YesExact(votes[..|votes| - 1], x);
      InitLast(votes);
    }
  }

  lemma {:induction false} PutKeeps(votes: seq<Vote>, v: Vote, x: Vote)
    ensures x in PutByKey(votes, v) <==> x == v || x in votes
  {
    if votes != [] && !Less(v.pubkey, votes[0].pubkey) {
      PutKeeps(votes[1..], v, x);
      HeadTail(votes);
    }
  }

  lemma {:induction false} ByKeyKeeps(votes: seq<Vote>, x: Vote)
    ensures x in ByKey(votes) <==> x in votes
  {
    if votes != [] {
      ByKeyKeeps(votes[..|votes| - 1], x);
      PutKeeps(ByKey(votes[..|votes| - 1]), votes[|votes| - 1], x);
      InitLast(votes);
    }
  }

  lemma {:induction false} VotersExact(votes: seq<Vote>, pk: Pubkey)
    ensures pk in Voters(votes) <==> exists v <- votes :: v.pubkey == pk
  {
    if votes != [] {
      var (init, last) := (votes[..|votes| - 1], votes[|votes| - 1]);
      VotersExact(init, pk);
      InitLast(votes);
      assert last in votes && forall v <- init :: v in votes;
    }
  }

  /** No key votes twice iff there are as many keys as votes. */
  lemma {:induction false} DistinctIffAsMany(votes: seq<Vote>)
    ensures GL.DistinctKeys(votes) <==> |Voters(votes)| == |votes|
  {
    if votes != [] {
      var (init, last) := (votes[..|votes| - 1], votes[|votes| - 1]);
      DistinctIffAsMany(init);
      VotersExact(init, last.pubkey);
      if GL.DistinctKeys(votes) {
        DistinctInit(votes);
      }
      if |Voters(votes)| == |votes| {
        assert last.pubkey !in Voters(init);
        DistinctSnoc(votes);
      }
    }
  }

  lemma DistinctInit(votes: seq<Vote>)
    requires votes != [] && GL.DistinctKeys(votes)
    ensures GL.DistinctKeys(votes[..|votes| - 1])
    ensures forall v <- votes[..|votes| - 1] :: v.pubkey != votes[|votes| - 1].pubkey
  {
  }

  lemma DistinctSnoc(votes: seq<Vote>)
    requires votes != [] && GL.DistinctKeys(votes[..|votes| - 1])
    requires !exists v <- votes[..|votes| - 1] :: v.pubkey == votes[|votes| - 1].pubkey
    ensures GL.DistinctKeys(votes)
  {
    var init := votes[..|votes| - 1];
    assert forall i :: 0 <= i < |init| ==> init[i] == votes[i] && init[i] in init;
  }

  /** Sorting by key changes neither the keys, nor how many votes there are, nor whether a key votes twice. */
  lemma SortedAlike(votes: seq<Vote>)
    ensures Voters(ByKey(votes)) == Voters(votes)
    ensures GL.DistinctKeys(ByKey(votes)) <==> GL.DistinctKeys(votes)
  {
    hide GL.DistinctKeys, ByKey, Voters;
    forall pk
      ensures pk in Voters(ByKey(votes)) <==> pk in Voters(votes)
    {
      VotersExact(ByKey(votes), pk);
      VotersExact(votes, pk);
      forall v: Vote
        ensures v in ByKey(votes) <==> v in votes
      {
        ByKeyKeeps(votes, v);
      }
    }
    DistinctIffAsMany(votes);
    DistinctIffAsMany(ByKey(votes));
  }

  ghost predicate KeysAscend(votes: seq<Vote>) {
    forall i, k :: 0 <= i < k < |votes| ==> !Less(votes[k].pubkey, votes[i].pubkey)
  }

  lemma {:induction false} PutAscends(votes: seq<Vote>, v: Vote)
    requires KeysAscend(votes)
    ensures KeysAscend(PutByKey(votes, v))
  {
    hide Less;
    if votes == [] {
    } else if Less(v.pubkey, votes[0].pubkey) {
      forall k | 0 <= k < |votes|
        ensures !Less(votes[k].pubkey, v.pubkey)
      {
        if Less(votes[k].pubkey, v.pubkey) {
          Transitive(votes[k].pubkey, v.pubkey, votes[0].pubkey);
          Irreflexive(votes[0].pubkey);
        }
      }
    } else {
      var rest := PutByKey(votes[1..], v);
      PutAscends(votes[1..], v);
      forall k | 0 <= k < |rest|
        ensures !Less(rest[k].pubkey, votes[0].pubkey)
      {
        PutKeeps(votes[1..], v, rest[k]);
      }
    }
  }

  /** The submitted votes are in the order of their keys. */
  lemma {:induction false} ByKeyAscends(votes: seq<Vote>)
    ensures KeysAscend(ByKey(votes))
  {
    if votes != [] {
      ByKeyAscends(votes[..|votes| - 1]);
      PutAscends(ByKey(votes[..|votes| - 1]), votes[|votes| - 1]);
    }
  }

  lemma ByKeyOne(v: Vote)
    ensures ByKey([v]) == [v]
  {
    assert [v][..0] == [];
    assert ByKey([v]) == PutByKey(ByKey([]), v);
  }

  /** Every submitted vote is one of the file's yes-votes, and every yes-vote is submitted. */
  lemma SubmittedExact(votes: seq<Vote>, x: Vote)
    ensures x in Submitted(votes) <==> x in votes && x.vote == GL.YES
  {
    ByKeyKeeps(Yes(votes), x);
    YesExact(votes, x);
  }
}
