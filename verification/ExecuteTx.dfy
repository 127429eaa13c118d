/** The transaction `execute` builds for an approved proposal. */
module ExecuteTx {
  import opened Bytes
  import opened Seqs
  import opened Chain
  import opened Molecule
  import opened ExecutePlan
  import opened YesVotes
  import AT = AnchorType
  import BR = BlacklistRegistry
  import CB = CliBuilder
  import GH = GovernanceHeader
  import GL = GovernanceLock
  import MT = MerkleTree
  import PC = ProposalCell
  import RD = ReviewDelay
  import VD = VoteDigest
  import VM = VoteMessage
  import WA = WitnessArgs
  import WI = Witness

  /**
   * What `execute` has loaded: the two live cells, the proposal with all its votes and the digest stored beside them,
   * the treasury cells on offer, and the anchor code's outpoint if the options name one.
   */
  datatype Job = Job(
    registry: LiveCell, anchor: LiveCell, proposal: PC.CliProposal, delayMs: u64, votes: seq<WI.Vote>,
    idHash: Bytes32, digest: Bytes32, given: seq<LiveCell>, pool: seq<LiveCell>, anchorCode: Option<OutPoint>)

  /** The capacity of every cell a job could spend. */
  function Reach(j: Job): nat {
    j.registry.cell.capacity + j.anchor.cell.capacity + CapSum(j.given) + CapSum(j.pool)
  }

  /** Where the money goes: the capacities, and the lock of the second output. */
  datatype Payout = Payout(plan: Plan, lock: Script)

  function RequestOf(j: Job, newData: seq<byte>, treasury: Bytes32): Request {
    Request(j.registry.cell, |newData|, j.anchor.cell.capacity, treasury, j.given, j.pool)
  }

  /** `assertProposalAnchorTypeMatches`. */
  predicate AnchorTypeMatches(j: Job, typeId: Bytes32, treasury: Bytes32) {
    j.anchor.cell.typ.Some? && j.anchor.cell.typ.value.args == AT.EncodeArgs(AT.AnchorArgs(typeId, treasury, j.delayMs))
  }

  /** The capacity part of `execute`, with and without a treasury; None where it throws. */
  function PayoutOf(j: Job, h: GH.CliHeader, typeId: Bytes32, newData: seq<byte>, blake: Hasher): Option<Payout> {
    match GH.CliTreasuryHash(h, blake)
    case None =>
      if j.anchor.cell.capacity < FEE + Occupied(j.anchor.cell.lock, None, 0) then None
      else Some(Payout(Plan([], j.registry.cell.capacity, j.anchor.cell.capacity - FEE, 0), j.anchor.cell.lock))
    case Some(treasury) =>
      if h.treasuryLockScript.None? || !AnchorTypeMatches(j, typeId, treasury) || j.anchorCode.None? then None
      else if !Plannable(RequestOf(j, newData, treasury), blake) then None
      else Some(Payout(Planned(RequestOf(j, newData, treasury)), h.treasuryLockScript.value))
  }

  method FindPayout(j: Job, h: GH.CliHeader, typeId: Bytes32, newData: seq<byte>,
      blake: Hasher) returns (r: Option<Payout>)
    ensures r == PayoutOf(j, h, typeId, newData, blake)
  {
    hide Planned, Plannable, Occupied, GH.CliTreasuryHash;
    var treasury := GH.CliTreasuryHash(h, blake);
    if treasury.None? {
      if j.anchor.cell.capacity < FEE + Occupied(j.anchor.cell.lock, None, 0) {
        return None;
      }
      return Some(Payout(Plan([], j.registry.cell.capacity, j.anchor.cell.capacity - FEE, 0), j.anchor.cell.lock));
    }
    if h.treasuryLockScript.None? || !AnchorTypeMatches(j, typeId, treasury.value) || j.anchorCode.None? {
      return None;
    }
    var plan := PlanCapacities(RequestOf(j, newData, treasury.value), blake);
    return match plan case None => None case Some(p) => Some(Payout(p, h.treasuryLockScript.value));
  }

  /** The checks of one vote, whatever its choice: the path, and the key its signature recovers to. */
  predicate VoteVerifies(v: WI.Vote, root: Bytes32, idHash: Bytes32, blake: Hasher, recover: GL.Recover) {
    MT.Verifies(root, v.pubkey, v.proof, v.leafIndex, blake)
    && match VM.VoteWord(v.vote)
       case None => false
       case Some(word) => recover(blake(VM.CliCanonical(idHash, word, v.timestamp, v.pubkey)), v.sig) == Some(v.pubkey)
  }

  /** `isVoteApproved` with the on-chain threshold, the checks of every recorded vote, and the digest over them. */
  predicate Approved(j: Job, h: GH.CliHeader, blake: Hasher, recover: GL.Recover) {
    |Voters(Yes(j.votes))| >= h.threshold && h.validatorCount != 0
    && (forall i :: 0 <= i < |j.votes| ==> VoteVerifies(j.votes[i], h.root, j.idHash, blake, recover))
    && VD.Digest(j.votes, blake) == j.digest
  }

  method CheckVotes(j: Job, h: GH.CliHeader, blake: Hasher, recover: GL.Recover) returns (ok: bool)
    ensures ok == Approved(j, h, blake, recover)
  {
    hide VoteVerifies, Yes, Voters, VD.Text;
    var yes := SelectYes(j.votes);
    var uniqueYesPubkeys := CollectVoters(yes);
    if |uniqueYesPubkeys| < h.threshold || h.validatorCount == 0 {
      return false;
    }
    var recomputedDigest := VD.Digest(j.votes, blake);
    if recomputedDigest != j.digest {
      return false;
    }
    ok := VerifyVotes(j.votes, h.root, j.idHash, blake, recover);
  }

  method VerifyVotes(votes: seq<WI.Vote>, root: Bytes32, idHash: Bytes32, blake: Hasher, recover: GL.Recover)
    returns (ok: bool)
    ensures ok == forall i :: 0 <= i < |votes| ==> VoteVerifies(votes[i], root, idHash, blake, recover)
  {
    hide VM.CliCanonical, MT.Verifies, VM.VoteWord;
    for i := 0 to |votes|
      invariant forall k :: 0 <= k < i ==> VoteVerifies(votes[k], root, idHash, blake, recover)
    {
      var v := votes[i];
      var word := VM.VoteWord(v.vote);
      if word.None? {
        assert !VoteVerifies(v, root, idHash, blake, recover);
        return false;
      }
      var recovered := recover(blake(VM.CliCanonical(idHash, word.value, v.timestamp, v.pubkey)), v.sig);
      if recovered != Some(v.pubkey) {
        assert !VoteVerifies(v, root, idHash, blake, recover);
        return false;
      }
      var member := MT.VerifyMerkleProof(root, v.pubkey, v.proof, v.leafIndex, blake);
      if !member {
        assert !VoteVerifies(v, root, idHash, blake, recover);
        return false;
      }
    }
    return true;
  }

  function Inputs(cs: seq<LiveCell>): (is_: seq<Input>)
    ensures |is_| == |cs|
    ensures forall i :: 0 <= i < |cs| ==> is_[i] == Input(cs[i].outPoint, 0, cs[i].cell)
  {
    if cs == [] then [] else Inputs(cs[..|cs| - 1]) + [Input(cs[|cs| - 1].outPoint, 0, cs[|cs| - 1].cell)]
  }

  function Repeat(w: seq<byte>, n: nat): (ws: seq<seq<byte>>)
    ensures |ws| == n
  {
    if n == 0 then [] else Repeat(w, n - 1) + [w]
  }

  const NO_WITNESS: seq<byte> := WA.EncodeArgs(None, None, None)

  /** The transaction: registry first, proposal cell second, treasury cells after; registry and one treasury output. */
  function Assembled(j: Job, newData: seq<byte>, pay: Payout, proof: seq<byte>): Tx
    requires pay.plan.registryOut <= U64_MAX && pay.plan.change + pay.plan.extra <= U64_MAX
  {
    Tx([Input(j.registry.outPoint, 0, j.registry.cell),
      Input(j.anchor.outPoint, RD.EncodeSince(j.delayMs), j.anchor.cell)]
       + Inputs(pay.plan.treasuryCells),
       [Cell(pay.plan.registryOut, j.registry.cell.lock, j.registry.cell.typ, newData),
        Cell(pay.plan.change + pay.plan.extra, pay.lock, None, [])],
       [proof, NO_WITNESS] + Repeat(NO_WITNESS, |pay.plan.treasuryCells|))
  }

  /** The binding in the input_type field of the registry's witness. */
  function Gov1Of(j: Job, newData: seq<byte>, blake: Hasher): WA.Gov1 {
    WA.Gov1(j.idHash, j.digest, blake(j.registry.cell.data), blake(newData), blake(j.anchor.cell.data), j.delayMs)
  }

  /** Everything `execute` derives before it assembles the transaction. */
  datatype Draft = Draft(typeId: Bytes32, header: GH.CliHeader, newData: seq<byte>, pay: Payout)

  /** None where `execute` throws or exits. */
  function DraftOf(j: Job, blake: Hasher, recover: GL.Recover): Option<Draft> {
    if j.registry.cell.typ.None? || BR.ParseTypeArgs(j.registry.cell.typ.value.args).None? then None
    else
      var typeId := BR.ParseTypeArgs(j.registry.cell.typ.value.args).value.typeId;
      match CB.Current(j.registry.cell.data)
      case None => None
      case Some(current) =>
        match CB.NewData(j.registry.cell.data, j.proposal)
        case None => None
        case Some(newData) =>
          match GH.CliParseHeader(current.header)
          case None => None
          case Some(h) =>
            if !PC.Encodable(j.proposal) || j.anchor.cell.data != PC.Encode(j.proposal, typeId, blake) then None
            else
              match PayoutOf(j, h, typeId, newData, blake)
              case None => None
              case Some(pay) =>
                if !Approved(j, h, blake, recover) || !WI.Buildable(Submitted(j.votes)) then None
                  else Some(Draft(typeId, h, newData, pay))
  }

  /** The discovered cells are part of the pool. */
  lemma {:induction false} ChosenCostsLess(cs: seq<LiveCell>, have: nat, growth: nat)
    ensures CapSum(Chosen(cs, have, growth)) <= CapSum(cs)
  {
    if cs != [] {
      var c := cs[0];
      CapSumOne(c, cs[1..]);
      HeadTail(cs);
      if !Usable(c) {
        ChosenCostsLess(cs[1..], have, growth);
      } else if have + c.cell.capacity >= growth {
        CapSumOne(c, []);
        Nil([c]);
      } else {
        CapSumOne(c, Chosen(cs[1..], have + c.cell.capacity, growth));
        ChosenCostsLess(cs[1..], have + c.cell.capacity, growth);
      }
    }
  }

  /** Inputs minus outputs is the fee, with and without a treasury; so every amount fits 64 bits when the inputs do. */
  lemma PayoutBalances(j: Job, h: GH.CliHeader, typeId: Bytes32, newData: seq<byte>, blake: Hasher)
    requires PayoutOf(j, h, typeId, newData, blake).Some?
    ensures var p := PayoutOf(j, h, typeId, newData, blake).value.plan;
            j.registry.cell.capacity + j.anchor.cell.capacity + CapSum(p.treasuryCells)
              == p.registryOut + (p.change + p.extra) + 100_000
    ensures CapSum(PayoutOf(j, h, typeId, newData, blake).value.plan.treasuryCells) <= CapSum(j.given) + CapSum(j.pool)
  {
    hide Occupied, Chosen, CapSum, PlainTreasury;
    match GH.CliTreasuryHash(h, blake)
    case None => CapSumNil();
    case Some(treasury) =>
      var q := RequestOf(j, newData, treasury);
      PlanBalances(q, blake);
      ChosenCostsLess(q.pool, 0, Needed(q));
  }

  lemma DraftBalances(j: Job, blake: Hasher, recover: GL.Recover)
    requires DraftOf(j, blake, recover).Some?
    ensures var p := DraftOf(j, blake, recover).value.pay.plan;
            j.registry.cell.capacity + j.anchor.cell.capacity + CapSum(p.treasuryCells)
              == p.registryOut + (p.change + p.extra) + 100_000
            && p.registryOut + (p.change + p.extra) <= Reach(j)
  {
    hide CapSum, PayoutOf, CB.Current, CB.NewData, BR.ParseTypeArgs, GH.CliParseHeader, PC.Encode, Approved;
    var d := DraftOf(j, blake, recover).value;
    PayoutBalances(j, d.header, d.typeId, d.newData, blake);
  }

  function WitnessOf(j: Job, newData: seq<byte>, blake: Hasher): seq<byte>
    requires WI.Buildable(Submitted(j.votes))
  {
    WA.GovernanceWitness(Submitted(j.votes), Gov1Of(j, newData, blake))
  }

  /** The transaction `execute` builds, if it builds one. */
  function Built(j: Job, blake: Hasher, recover: GL.Recover): Option<Tx>
    requires Reach(j) <= U64_MAX
  {
    match DraftOf(j, blake, recover)
    case None => None
    case Some(d) =>
      DraftBalances(j, blake, recover);
      Some(Assembled(j, d.newData, d.pay, WitnessOf(j, d.newData, blake)))
  }

  /** The witness of the registry input: three builders, one after the other. */
  method BuildWitness(votes: seq<WI.Vote>, gov: WA.Gov1) returns (r: Option<seq<byte>>)
    ensures r == if WI.Buildable(votes) then Some(WA.GovernanceWitness(votes, gov)) else None
  {
    hide WI.VoteWitness, WA.EncodeGov1, WA.EncodeArgs;
    var gov1 := WA.BuildGov1WitnessV4(gov);
    var voteWitness := WI.BuildValidatorVoteWitness(votes);
    if voteWitness.None? {
      return None;
    }
    var args := WA.BuildWitnessArgs(voteWitness, Some(gov1[..]), None);
    return Some(args[..]);
  }

  method AssembleTx(j: Job, newData: seq<byte>, pay: Payout, proof: seq<byte>) returns (tx: Tx)
    requires pay.plan.registryOut <= U64_MAX && pay.plan.change + pay.plan.extra <= U64_MAX
    ensures tx == Assembled(j, newData, pay, proof)
  {
    hide RD.EncodeSince, WA.EncodeArgs;
    var inputs: seq<Input> := [];
    var witnesses: seq<seq<byte>> := [];
    var cells := pay.plan.treasuryCells;
    var empty := NO_WITNESS;
    for i := 0 to |cells|
      invariant inputs == Inputs(cells[..i]) && witnesses == Repeat(NO_WITNESS, i)
    {
      assert cells[..i + 1][..i] == cells[..i];
      inputs := inputs + [Input(cells[i].outPoint, 0, cells[i].cell)];
      witnesses := witnesses + [empty];
    }
    assert cells[..|cells|] == cells;
    tx := Tx([Input(j.registry.outPoint, 0, j.registry.cell),
              Input(j.anchor.outPoint, RD.EncodeSince(j.delayMs), j.anchor.cell)] + inputs,
             [Cell(pay.plan.registryOut, j.registry.cell.lock, j.registry.cell.typ, newData),
              Cell(pay.plan.change + pay.plan.extra, pay.lock, None, [])],
             [proof, empty] + witnesses);
  }

  /** `execute` from the loaded cells to the transaction; None where it throws or exits. */
  method Execute(j: Job, blake: Hasher, recover: GL.Recover) returns (r: Option<Tx>)
    requires Reach(j) <= U64_MAX
    ensures r == Built(j, blake, recover)
  {
    hide CB.Current, CB.NewData, BR.ParseTypeArgs, GH.CliParseHeader, PC.Encode, Approved, PayoutOf, Reach,
      WA.GovernanceWitness, Assembled, CapSum, WI.AllEncodable;
    if j.registry.cell.typ.None? {
      return None;
    }
    var t := BR.ParseTypeArgs(j.registry.cell.typ.value.args);
    var current := CB.Current(j.registry.cell.data);
    if t.None? || current.None? {
      return None;
    }
    var newData := CB.LoadRegistryStateForProposal(j.registry.cell.data, j.proposal);
    if newData.None? {
      return None;
    }
    var header := GH.CliParseHeader(current.value.header);
    if header.None? {
      return None;
    }
    var expected := PC.EncodeProposalCellData(j.proposal, t.value.typeId, blake);
    if expected.None? || j.anchor.cell.data != expected.value {
      return None;
    }
    var pay := FindPayout(j, header.value, t.value.typeId, newData.value, blake);
    if pay.None? {
      return None;
    }
    var approved := CheckVotes(j, header.value, blake, recover);
    if !approved {
      return None;
    }
    var yesVotes := SelectYes(j.votes);
    var proof := BuildWitness(ByKey(yesVotes), Gov1Of(j, newData.value, blake));
    if proof.None? {
      return None;
    }
    assert DraftOf(j, blake, recover) == Some(Draft(t.value.typeId, header.value, newData.value, pay.value));
    DraftBalances(j, blake, recover);
    var tx := AssembleTx(j, newData.value, pay.value, proof.value);
    return Some(tx);
  }
}
