/**
 * An approved proposal can be executed on any ledger that keeps the invariant of runs, whatever happened on it before,
 * and the registry cell then stands for the map it stood for with the proposal applied.
 */
module ExecuteOnLedger {
  import opened Bytes
  import opened Seqs
  import opened Chain
  import opened Molecule
  import opened ExecutePlan
  import opened ExecuteTx
  import opened YesVotes
  import opened ExecuteAccepted
  import opened Ledger
  import opened Capacity
  import AT = AnchorType
  import BR = BlacklistRegistry
  import CB = CliBuilder
  import CO = Conservation
  import GH = GovernanceHeader
  import GL = GovernanceLock
  import PC = ProposalCell
  import RD = ReviewDelay
  import RF = RegistryFormat
  import TR = Transition
  import WA = WitnessArgs
  import WI = Witness

  predicate Lives(s: State, c: LiveCell) {
    c.outPoint in s.live && s.live[c.outPoint] == c.cell
  }

  predicate Distinct(cs: seq<LiveCell>) {
    forall i, k :: 0 <= i < k < |cs| ==> cs[i].outPoint != cs[k].outPoint
  }

  lemma {:induction false} ChosenDistinct(cs: seq<LiveCell>, have: nat, growth: nat)
    requires Distinct(cs)
    ensures Distinct(Chosen(cs, have, growth))
  {
    if cs != [] {
      var c := cs[0];
      TailDistinct(cs);
      if !Usable(c) {
        ChosenDistinct(cs[1..], have, growth);
      } else if have + c.cell.capacity < growth {
        var rest := Chosen(cs[1..], have + c.cell.capacity, growth);
        ChosenDistinct(cs[1..], have + c.cell.capacity, growth);
        forall i | 0 <= i < |rest|
          ensures rest[i].outPoint != c.outPoint
        {
          ChosenAreUsable(cs[1..], have + c.cell.capacity, growth, rest[i]);
        }
        ConsTail(c, rest);
      }
    }
  }

  lemma TailDistinct(cs: seq<LiveCell>)
    requires Distinct(cs) && cs != []
    ensures Distinct(cs[1..]) && forall x <- cs[1..] :: x.outPoint != cs[0].outPoint
  {
    assert forall i :: 0 <= i < |cs[1..]| ==> cs[1..][i] == cs[i + 1];
  }

  /** The job's cells are live, the two lists without repetition, and the codes are told apart. */
  ghost predicate OnChain(r: Rules, s: State, j: Job, self: Script, treasury: Script) {
    && Lives(s, j.registry) && Lives(s, j.anchor)
    && (forall c <- j.given :: Lives(s, c)) && (forall c <- j.pool :: Lives(s, c))
    && Distinct(j.given) && Distinct(j.pool)
    && IsRegistry(r, j.registry.cell) && !IsRegistry(r, j.anchor.cell)
    && (treasury.codeHash, treasury.hashType) !in r.governanceCodes
  }

  /** The treasury inputs are live and distinct. */
  lemma SpentLive(r: Rules, s: State, j: Job, d: Draft, tx: Tx, self: Script, treasury: Script)
    requires UnderTreasury(j, d, tx, self, treasury, r.blake, r.recover) && OnChain(r, s, j, self, treasury)
    ensures Distinct(d.pay.plan.treasuryCells) && forall c <- d.pay.plan.treasuryCells :: Lives(s, c)
  {
    hide UnderTreasury, Distinct, Lives, ScriptHash, Plannable, Needed, Chosen, PC.Encodable, PC.ValidatePblk,
      PC.Parse;
    var anchor, a := AnchorOf(j, d, tx, self, treasury, r.blake, r.recover);
    var q := RequestOf(j, d.newData, ScriptHash(treasury, r.blake));
    ChosenDistinct(q.pool, 0, Needed(q));
    forall c | c in d.pay.plan.treasuryCells
      ensures Lives(s, c)
    {
      if c !in j.given {
        ChosenAreUsable(q.pool, 0, Needed(q), c);
      }
    }
  }

  /** Where the outpoints of the inputs come from. */
  lemma OutPointsOf(j: Job, newData: seq<byte>, pay: Payout, proof: seq<byte>)
    requires pay.plan.registryOut <= U64_MAX && pay.plan.change + pay.plan.extra <= U64_MAX
    ensures var ins := Assembled(j, newData, pay, proof).inputs;
            |ins| == 2 + |pay.plan.treasuryCells|
            && ins[0].outPoint == j.registry.outPoint && ins[1].outPoint == j.anchor.outPoint
            && forall k :: 2 <= k < |ins| ==> ins[k].outPoint == pay.plan.treasuryCells[k - 2].outPoint
                                              && ins[k].cell == pay.plan.treasuryCells[k - 2].cell
  {
    hide RD.EncodeSince;
  }

  /** All inputs are live and no outpoint is spent twice. */
  lemma InputsLive(r: Rules, s: State, j: Job, d: Draft, tx: Tx, self: Script, treasury: Script)
    requires UnderTreasury(j, d, tx, self, treasury, r.blake, r.recover) && OnChain(r, s, j, self, treasury)
    ensures forall i :: 0 <= i < |tx.inputs| ==>
            tx.inputs[i].outPoint in s.live && s.live[tx.inputs[i].outPoint] == tx.inputs[i].cell
    ensures forall i, k :: 0 <= i < k < |tx.inputs| ==> tx.inputs[i].outPoint != tx.inputs[k].outPoint
  {
    hide UnderTreasury, ScriptHash, WitnessOf, WI.AllEncodable, Assembled, RD.EncodeSince, IsRegistry, PC.Encodable,
      PC.ValidatePblk, PC.Parse, Plannable, Planned;
    SpentLive(r, s, j, d, tx, self, treasury);
    AssemblyUnder(j, d, tx, self, treasury, r.blake, r.recover);
    OutPointsOf(j, d.newData, d.pay, WitnessOf(j, d.newData, r.blake));
    Shape(j, d, tx, self, treasury, r.blake, r.recover);
    IsGenuine(j, d, tx, self, treasury, r.blake, r.recover);
    var anchor, a := AnchorOf(j, d, tx, self, treasury, r.blake, r.recover);
    forall i | 0 <= i < |tx.inputs|
      ensures tx.inputs[i].outPoint in s.live && s.live[tx.inputs[i].outPoint] == tx.inputs[i].cell
    {
      if i >= 2 {
        assert d.pay.plan.treasuryCells[i - 2] in d.pay.plan.treasuryCells;
      }
    }
  }

  lemma ReadyUnder(j: Job, d: Draft, tx: Tx, self: Script, treasury: Script, blake: Hasher, recover: GL.Recover)
    requires Ready(j, d, tx, self, treasury, blake, recover)
    ensures UnderTreasury(j, d, tx, self, treasury, blake, recover) && TreasuryOwned(j, treasury)
    ensures PC.Encodable(j.proposal)
  {
    hide UnderTreasury, TreasuryOwned, VotesAdmissible, CoversItself, NamesAnchor;
  }

  /** The scripts the ledger runs on the transaction accept it. */
  lemma ScriptsAccept(r: Rules, s: State, j: Job, d: Draft, tx: Tx, self: Script, treasury: Script)
    requires Ready(j, d, tx, self, treasury, r.blake, r.recover) && OnChain(r, s, j, self, treasury)
    ensures RegistryScriptsAccept(r, tx) && GovernanceLocksAccept(r, tx)
  {
    hide Ready, UnderTreasury, TreasuryOwned, BR.Entry, GL.Entry, ScriptHash, TotalCapacity, PC.Encodable, OnChain,
      BR.ParseTypeArgs, IsGoverned, IsRegistry, GovernanceLocksAccept, RegistryScriptsAccept;
    ReadyUnder(j, d, tx, self, treasury, r.blake, r.recover);
    AllScriptsAccept(j, d, tx, self, treasury, r.blake, r.recover);
    IsGenuine(j, d, tx, self, treasury, r.blake, r.recover);
    OnlyZeroRuns(r, s, j, d, tx, self, treasury);
    OneRegistryAccepts(r, tx, self);
    OneLockAccepts(r, tx);
  }

  lemma OneRegistryAccepts(r: Rules, tx: Tx, self: Script)
    requires |tx.inputs| > 0 && |tx.outputs| > 0 && tx.inputs[0].cell.typ == tx.outputs[0].typ == Some(self)
    requires forall i :: 0 <= i < |tx.inputs| && IsRegistry(r, tx.inputs[i].cell) ==> i == 0
    requires forall o :: 0 <= o < |tx.outputs| && IsRegistry(r, tx.outputs[o]) ==> o == 0
    requires BR.Entry(self, tx, r.blake).Ok?
    ensures RegistryScriptsAccept(r, tx)
  {
    hide BR.Entry;
  }

  lemma OneLockAccepts(r: Rules, tx: Tx)
    requires |tx.inputs| > 0 && GL.Entry(tx.inputs[0].cell.lock.args, tx, 0, r.blake, r.recover).Ok?
    requires forall i :: 0 <= i < |tx.inputs| && IsGoverned(r, tx.inputs[i].cell) ==> i == 0
    ensures GovernanceLocksAccept(r, tx)
  {
    hide GL.Entry, IsGoverned;
  }

  /** Only the registry cell runs the registry script and the governance lock. */
  lemma OnlyZeroRuns(r: Rules, s: State, j: Job, d: Draft, tx: Tx, self: Script, treasury: Script)
    requires UnderTreasury(j, d, tx, self, treasury, r.blake, r.recover) && TreasuryOwned(j, treasury)
    requires OnChain(r, s, j, self, treasury)
    ensures |tx.inputs| > 0 && |tx.outputs| > 0 && tx.outputs[0].typ == j.registry.cell.typ
    ensures tx.inputs[0].cell == j.registry.cell
    ensures forall i :: 0 <= i < |tx.inputs| && IsGoverned(r, tx.inputs[i].cell) ==> i == 0
    ensures forall i :: 0 <= i < |tx.inputs| && IsRegistry(r, tx.inputs[i].cell) ==> i == 0
    ensures forall o :: 0 <= o < |tx.outputs| && IsRegistry(r, tx.outputs[o]) ==> o == 0
  {
    hide UnderTreasury, ScriptHash, Distinct, Lives;
    Shape(j, d, tx, self, treasury, r.blake, r.recover);
    OwnedInputs(j, d, tx, self, treasury, r.blake, r.recover);
  }

  /** The proposal the registry script executes is the one the CLI was given. */
  lemma ExecutedIs(r: Rules, j: Job, d: Draft, tx: Tx, self: Script, treasury: Script)
    requires UnderTreasury(j, d, tx, self, treasury, r.blake, r.recover) && PC.Encodable(j.proposal)
    ensures Executed(self, tx, r.blake) == [PC.Meaning(j.proposal, d.typeId, r.blake)]
  {
    hide UnderTreasury, ScriptHash, WI.AllEncodable, WA.RegistryReads, WA.ParseGov1, WA.EncodeGov1,
      WA.GovernanceWitness, FindInput, PC.Parse, PC.Meaning, PC.ValidatePblk, Plannable, Planned, PC.Encodable,
      BR.RegistryInputs, BR.RegistryOutputs;
    Shape(j, d, tx, self, treasury, r.blake, r.recover);
    IsGenuine(j, d, tx, self, treasury, r.blake, r.recover);
    var anchor, a := AnchorOf(j, d, tx, self, treasury, r.blake, r.recover);
    OnlyRegistry(tx, self, anchor);
    WitnessUnder(j, d, tx, self, treasury, r.blake, r.recover);
    WA.RoundTrip(Submitted(j.votes), Gov1Of(j, d.newData, r.blake));
    FindsAnchor(j, d, tx, self, treasury, r.blake, r.recover);
  }

  /**
   * On every ledger that keeps the invariant, a ready job's transaction can be applied under any new hash; the same
   * registry is then live, and its entries stand for the old map with the proposal applied.
   */
  lemma ExecuteApplies(r: Rules, s: State, j: Job, d: Draft, tx: Tx, h: Bytes32, self: Script, treasury: Script)
    returns (q: OutPoint)
    requires Inv(r, s) && Ready(j, d, tx, self, treasury, r.blake, r.recover) && OnChain(r, s, j, self, treasury)
    requires forall p :: p in s.used ==> p.txHash != h
    ensures CanApply(r, s, tx, h)
    ensures PC.Encodable(j.proposal) && RF.ParseStrict(j.registry.cell.data).Ok?
    ensures RegistryAt(r, Next(s, tx, h), q, self)
    ensures TR.ToMap(Entries(Next(s, tx, h).live[q]))
         == TR.Apply(TR.ToMap(Entries(j.registry.cell)), PC.Meaning(j.proposal, d.typeId, r.blake))
  {
    hide Ready, UnderTreasury, Inv, ScriptHash, RegistryScriptsAccept, GovernanceLocksAccept, OnChain, TR.ToMap,
      TR.Apply, PC.Meaning, PC.Encodable, RegistryAt, Next, Entries;
    ReadyUnder(j, d, tx, self, treasury, r.blake, r.recover);
    InputsLive(r, s, j, d, tx, self, treasury);
    ScriptsAccept(r, s, j, d, tx, self, treasury);
    Shape(j, d, tx, self, treasury, r.blake, r.recover);
    IsGenuine(j, d, tx, self, treasury, r.blake, r.recover);
    RegistryLives(r, s, j, self, treasury);
    LiveRegistryAt(r, s, j.registry.outPoint);
    q := StepFollows(r, s, tx, h, j.registry.outPoint, self);
    ExecutedIs(r, j, d, tx, self, treasury);
    RegistryEntries(r, s, j.registry.outPoint, self);
    OneApplied(TR.ToMap(Entries(j.registry.cell)), PC.Meaning(j.proposal, d.typeId, r.blake));
  }

  /** The built transaction is one of the updates whose capacity runs conserve. */
  lemma ExecuteConserves(r: Rules, j: Job, d: Draft, tx: Tx, self: Script, treasury: Script)
    requires Ready(j, d, tx, self, treasury, r.blake, r.recover)
    ensures CO.TreasuryUpdate(tx, self, ScriptHash(treasury, r.blake), r.blake)
    ensures CO.CapacitySafe(tx, self, ScriptHash(treasury, r.blake), r.blake)
  {
    hide Ready, UnderTreasury, ScriptHash, BR.Entry, GL.Entry, TotalCapacity, PC.Encodable, PC.Meaning, PC.Parse,
      PC.ValidatePblk, InputCells, CO.WeightOf, GH.ParseTreasuryHash, Executed, BR.ParseTypeArgs,
      CO.TreasuryUpdate;
    ReadyUnder(j, d, tx, self, treasury, r.blake, r.recover);
    IsTreasuryUpdate(r, j, d, tx, self, treasury);
    WeighsLittle(j, d, tx, self, treasury, r.blake, r.recover);
  }

  lemma IsTreasuryUpdate(r: Rules, j: Job, d: Draft, tx: Tx, self: Script, treasury: Script)
    requires Ready(j, d, tx, self, treasury, r.blake, r.recover)
    ensures CO.TreasuryUpdate(tx, self, ScriptHash(treasury, r.blake), r.blake)
  {
    hide Ready, UnderTreasury, ScriptHash, BR.Entry, GL.Entry, TotalCapacity, PC.Parse, PC.Encodable, PC.Meaning,
      PC.ValidatePblk, GH.ParseTreasuryHash, Executed, BR.ParseTypeArgs, TreasuryOwned, PayloadFits, CB.Current,
      CB.Fits, TR.Matches, RF.ParsePayload, BR.GovernanceScript, CO.TreasuryUpdate, Plannable, Planned,
      BR.RegistryInputs, BR.RegistryOutputs, InputCells, Genuine, AT.EncodeArgs;
    ReadyUnder(j, d, tx, self, treasury, r.blake, r.recover);
    ReadyFits(j, d, tx, self, treasury, r.blake, r.recover);
    AllScriptsAccept(j, d, tx, self, treasury, r.blake, r.recover);
    Shape(j, d, tx, self, treasury, r.blake, r.recover);
    IsGenuine(j, d, tx, self, treasury, r.blake, r.recover);
    var anchor, a := AnchorOf(j, d, tx, self, treasury, r.blake, r.recover);
    OnlyRegistry(tx, self, anchor);
    FitsGives(j);
    var old_, new_ := PayloadsUnder(j, d, tx, self, treasury, r.blake, r.recover);
    ExecutedIs(r, j, d, tx, self, treasury);
    MeansNoTreasury(j.proposal, d.typeId, r.blake);
    UpdateIs(tx, self, ScriptHash(treasury, r.blake), r.blake, PC.Meaning(j.proposal, d.typeId, r.blake));
  }

  lemma UpdateIs(tx: Tx, self: Script, treasury: Bytes32, blake: Hasher, p: PC.Proposal)
    requires BR.Entry(self, tx, blake).Ok? && BR.RegistryInputs(tx, self) == [0] && |tx.outputs| == 2
    requires GH.ParseTreasuryHash(tx.outputs[0].data, blake) == Ok(Some(treasury)) && tx.outputs[1].typ == None
    requires Executed(self, tx, blake) == [p] && p.action != PC.SetGovernanceHeader
    ensures CO.TreasuryUpdate(tx, self, treasury, blake)
  {
    hide BR.Entry, BR.RegistryInputs, Executed, GH.ParseTreasuryHash;
  }

  lemma ReadyFits(j: Job, d: Draft, tx: Tx, self: Script, treasury: Script, blake: Hasher, recover: GL.Recover)
    requires Ready(j, d, tx, self, treasury, blake, recover)
    ensures PayloadFits(j) && j.proposal.action != PC.SetTreasury
  {
    hide UnderTreasury, PayloadFits, VotesAdmissible, TreasuryOwned, CoversItself, NamesAnchor;
  }

  lemma MeansNoTreasury(p: PC.CliProposal, typeId: Bytes32, blake: Hasher)
    requires PC.Encodable(p) && p.action != PC.SetTreasury
    ensures PC.Meaning(p, typeId, blake).action != PC.SetGovernanceHeader
  {
  }

  /** Registry and treasury together put in what fits 64 bits. */
  lemma WeighsLittle(j: Job, d: Draft, tx: Tx, self: Script, treasury: Script, blake: Hasher, recover: GL.Recover)
    requires UnderTreasury(j, d, tx, self, treasury, blake, recover)
    ensures CO.WeightOf(InputCells(tx.inputs), self, ScriptHash(treasury, blake), blake) <= U64_MAX
  {
    hide UnderTreasury, ScriptHash, Sum, CapSum, InputCells, PC.Encodable, PC.Parse, PC.ValidatePblk, Plannable;
    var h := ScriptHash(treasury, blake);
    var cells := InputCells(tx.inputs);
    Shape(j, d, tx, self, treasury, blake, recover);
    IsGenuine(j, d, tx, self, treasury, blake, recover);
    var anchor, a := AnchorOf(j, d, tx, self, treasury, blake, recover);
    TreasurySums(j, d, tx, self, treasury, blake, recover);
    InWithinReach(j, d, tx, self, treasury, blake, recover);
    CO.WeightIsSums(cells, self, h, blake);
    CO.OneTyped(cells, self, 0);
  }

  lemma RegistryLives(r: Rules, s: State, j: Job, self: Script, treasury: Script)
    requires OnChain(r, s, j, self, treasury)
    ensures j.registry.outPoint in s.live && s.live[j.registry.outPoint] == j.registry.cell
    ensures IsRegistry(r, j.registry.cell)
  {
    hide Distinct, IsRegistry;
  }

  lemma OneApplied(m: map<seq<byte>, u64>, p: PC.Proposal)
    ensures ApplyAll(m, [p]) == TR.Apply(m, p)
  {
    assert ApplyAll(m, [p]) == ApplyAll(TR.Apply(m, p), []);
  }
}
