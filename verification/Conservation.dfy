/** Registry plus treasury capacity over runs of accepted transactions: at most 1 CKB is lost with each update. */
module Conservation {
  import opened Bytes
  import opened Chain
  import opened Molecule
  import opened Scan
  import opened Capacity
  import opened BlacklistRegistry
  import opened Ledger
  import opened Seqs
  import GH = GovernanceHeader
  import LT = LedgerTotal
  import PC = ProposalCell
  import RF = RegistryFormat
  import TR = Transition
  import WA = WitnessArgs

  /** What one cell adds to registry plus treasury capacity. */
  function Weight(self: Script, treasury: Bytes32, blake: Hasher): LT.Weight {
    (c: Cell) =>
      (if c.typ == Some(self) then c.capacity as int else 0)
      + (if LockedBy(c, treasury, blake) then c.capacity as int else 0)
  }

  function WeightOf(cells: seq<Cell>, self: Script, treasury: Bytes32, blake: Hasher): nat {
    LT.WeightOf(cells, Weight(self, treasury, blake))
  }

  /** Registry plus treasury capacity of all live cells. */
  ghost function Total(live: map<OutPoint, Cell>, self: Script, treasury: Bytes32, blake: Hasher): nat {
    LT.Total(live, Weight(self, treasury, blake))
  }

  // ---- one update ----

  lemma {:induction false} WeightIsSums(cells: seq<Cell>, self: Script, treasury: Bytes32, blake: Hasher)
    ensures WeightOf(cells, self, treasury, blake) == TypedSum(cells, self) + Sum(cells, treasury, blake)
  {
    if cells != [] {
      WeightIsSums(cells[..|cells| - 1], self, treasury, blake);
    }
  }

  function TypedSum(cells: seq<Cell>, self: Script): nat {
    if cells == [] then 0
    else
      TypedSum(cells[..|cells| - 1], self)
      + if cells[|cells| - 1].typ == Some(self) then cells[|cells| - 1].capacity else 0
  }

  lemma {:induction false} NoneTyped(cells: seq<Cell>, self: Script)
    requires forall i :: 0 <= i < |cells| ==> cells[i].typ != Some(self)
    ensures TypedSum(cells, self) == 0
  {
    if cells != [] {
      NoneTyped(cells[..|cells| - 1], self);
    }
  }

  lemma {:induction false} OneTyped(cells: seq<Cell>, self: Script, o: nat)
    requires o < |cells| && cells[o].typ == Some(self)
    requires forall i :: 0 <= i < |cells| && cells[i].typ == Some(self) ==> i == o
    ensures TypedSum(cells, self) == cells[o].capacity
  {
    var last := |cells| - 1;
    if o < last {
      OneTyped(cells[..last], self, o);
    } else {
      NoneTyped(cells[..last], self);
    }
  }

  /** An accepted update of `self` that is no treasury change, under an output header naming this treasury. */
  ghost predicate TreasuryUpdate(tx: Tx, self: Script, treasury: Bytes32, blake: Hasher) {
    && Entry(self, tx, blake).Ok? && RegistryInputs(tx, self) != []
    && (forall o :: 0 <= o < |tx.outputs| && tx.outputs[o].typ == Some(self) ==>
          GH.ParseTreasuryHash(tx.outputs[o].data, blake) == Ok(Some(treasury)))
    && (forall p :: p in Executed(self, tx, blake) ==> p.action != PC.SetGovernanceHeader)
  }

  lemma UpdateReturns(tx: Tx, self: Script, treasury: Bytes32, blake: Hasher) returns (i: nat, o: nat)
    requires TreasuryUpdate(tx, self, treasury, blake)
    ensures i < |tx.inputs| && o < |tx.outputs| && RegistryInputs(tx, self) == [i] && RegistryOutputs(tx, self) == [o]
    ensures Saturated(tx.outputs, treasury, blake)
         >= RequiredReturn(Saturated(InputCells(tx.inputs), treasury, blake), tx.inputs[i].cell.capacity,
           tx.outputs[o].capacity)
  {
    hide Positions, ParseTypeArgs, Saturated, RequiredReturn, ProposalOf, Update, Bootstrap;
    i := RegistryInputs(tx, self)[0];
    o := RegistryOutputs(tx, self)[0];
    PositionsExact(tx.inputs, InputHasType(self), i);
    PositionsExact(tx.outputs, HasType(self), o);
    assert RegistryInputs(tx, self) == [i] && RegistryOutputs(tx, self) == [o];
    var t := ParseTypeArgs(self.args).value;
    var gov, p := UpdateBinding(t, tx, i, o, blake);
    assert ProposalOf(tx, i, blake).value in Executed(self, tx, blake);
    UpdateChecksTreasury(t, tx, i, o, blake, gov, p);
  }

  lemma UpdateChecksTreasury(t: TypeArgs, tx: Tx, i: nat, o: nat, blake: Hasher, gov: WA.Gov1, p: nat)
    requires i < |tx.inputs| && o < |tx.outputs| && Update(t, tx, i, o, blake).Ok?
    requires i < |tx.witnesses| && WA.RegistryReads(tx.witnesses[i]).Some?
    requires WA.ParseGov1(WA.RegistryReads(tx.witnesses[i]).value) == Some(gov)
    requires FindInput(tx.inputs, gov.proposalDataHash, blake) == Some(p) && PC.Parse(tx.inputs[p].cell.data).Ok?
    requires PC.Parse(tx.inputs[p].cell.data).value.action != PC.SetGovernanceHeader
    requires GH.ParseTreasuryHash(tx.outputs[o].data, blake).Ok?
    requires GH.ParseTreasuryHash(tx.outputs[o].data, blake).value.Some?
    ensures TreasuryReturned(tx, i, o, p, GH.ParseTreasuryHash(tx.outputs[o].data, blake).value.value, blake)
  {
    hide TR.Matches, PC.Parse, WA.RegistryReads, WA.ParseGov1, FindInput, RF.ParseStrict, GH.ParseTreasuryHash,
      TreasuryReturned;
  }

  /** An update keeps registry plus treasury capacity up to 1 CKB, in growth, shrink and saturating cases alike. */
  lemma UpdateConserves(tx: Tx, self: Script, treasury: Bytes32, blake: Hasher)
    requires TreasuryUpdate(tx, self, treasury, blake)
    requires WeightOf(InputCells(tx.inputs), self, treasury, blake) <= U64_MAX
    ensures WeightOf(tx.outputs, self, treasury, blake) + 100_000_000
            >= WeightOf(InputCells(tx.inputs), self, treasury, blake)
  {
    hide TreasuryUpdate, Positions, Saturated, RequiredReturn, Sum, TypedSum, WeightOf;
    var i, o := UpdateReturns(tx, self, treasury, blake);
    var cells := InputCells(tx.inputs);
    WeightIsSums(cells, self, treasury, blake);
    WeightIsSums(tx.outputs, self, treasury, blake);
    SaturatedIsCappedSum(cells, treasury, blake);
    SaturatedIsCappedSum(tx.outputs, treasury, blake);
    forall k | 0 <= k < |cells|
      ensures cells[k].typ == Some(self) <==> k == i
    {
      PositionsExact(tx.inputs, InputHasType(self), k);
    }
    forall k | 0 <= k < |tx.outputs|
      ensures tx.outputs[k].typ == Some(self) <==> k == o
    {
      PositionsExact(tx.outputs, HasType(self), k);
    }
    OneTyped(cells, self, i);
    OneTyped(tx.outputs, self, o);
    ReturnConserves(Sum(cells, treasury, blake), tx.inputs[i].cell.capacity, tx.outputs[o].capacity,
      Sum(tx.outputs, treasury, blake));
  }

  // ---- runs ----

  /** A step that spends neither the registry nor any treasury cell. */
  ghost predicate Foreign(tx: Tx, self: Script, treasury: Bytes32, blake: Hasher) {
    forall i :: 0 <= i < |tx.inputs| ==>
      tx.inputs[i].cell.typ != Some(self) && !LockedBy(tx.inputs[i].cell, treasury, blake)
  }

  lemma {:induction false} ForeignWeighsNothing(cells: seq<Cell>, self: Script, treasury: Bytes32, blake: Hasher)
    requires forall i :: 0 <= i < |cells| ==> cells[i].typ != Some(self) && !LockedBy(cells[i], treasury, blake)
    ensures WeightOf(cells, self, treasury, blake) == 0
  {
    if cells != [] {
      ForeignWeighsNothing(cells[..|cells| - 1], self, treasury, blake);
    }
  }

  ghost function Updates(steps: seq<Step>, self: Script, treasury: Bytes32, blake: Hasher): nat {
    if steps == [] then 0
    else
      (if TreasuryUpdate(steps[0].tx, self, treasury, blake) then 1 else 0)
      + Updates(steps[1..], self, treasury, blake)
  }

  /** The count is the sum over the parts of a run, one for each update. */
  lemma {:induction false} UpdatesCount(a: seq<Step>, b: seq<Step>, self: Script, treasury: Bytes32, blake: Hasher)
    ensures Updates(a + b, self, treasury, blake)
         == Updates(a, self, treasury, blake) + Updates(b, self, treasury, blake)
    ensures |b| == 1 ==>
              Updates(b, self, treasury, blake) == if TreasuryUpdate(b[0].tx, self, treasury, blake) then 1 else 0
  {
    hide TreasuryUpdate;
    if a == [] {
      Nil(b);
    } else {
      UpdatesCount(a[1..], b, self, treasury, blake);
      Assoc([a[0]], a[1..], b);
      HeadTail(a);
      ConsTail(a[0], a[1..] + b);
    }
    if |b| == 1 {
      assert b[1..] == [];
    }
  }

  /** What a step may cost: 1 CKB for an update, nothing otherwise. */
  ghost function Cost(tx: Tx, self: Script, treasury: Bytes32, blake: Hasher): nat {
    if TreasuryUpdate(tx, self, treasury, blake) then 100_000_000 else 0
  }

  ghost predicate CapacitySafe(tx: Tx, self: Script, treasury: Bytes32, blake: Hasher) {
    && (TreasuryUpdate(tx, self, treasury, blake) || Foreign(tx, self, treasury, blake))
    && WeightOf(InputCells(tx.inputs), self, treasury, blake) <= U64_MAX
  }

  /** A transaction that spends neither may always stand among the updates. */
  lemma ForeignIsSafe(tx: Tx, self: Script, treasury: Bytes32, blake: Hasher)
    requires forall i :: 0 <= i < |tx.inputs| ==>
               tx.inputs[i].cell.typ != Some(self) && ScriptHash(tx.inputs[i].cell.lock, blake) != treasury
    ensures CapacitySafe(tx, self, treasury, blake)
  {
    hide TreasuryUpdate, ScriptHash;
    ForeignWeighsNothing(InputCells(tx.inputs), self, treasury, blake);
  }

  lemma StepConserves(r: Rules, s: State, tx: Tx, h: Bytes32, self: Script, treasury: Bytes32)
    requires s.live.Keys <= s.used && CanApply(r, s, tx, h) && CapacitySafe(tx, self, treasury, r.blake)
    ensures Total(Next(s, tx, h).live, self, treasury, r.blake) + Cost(tx, self, treasury, r.blake)
         >= Total(s.live, self, treasury, r.blake)
  {
    hide LT.Total, LT.WeightOf, Weight, TreasuryUpdate, RegistryScriptsAccept, GovernanceLocksAccept, Next;
    LT.StepTotal(r, s, tx, h, Weight(self, treasury, r.blake));
    if TreasuryUpdate(tx, self, treasury, r.blake) {
      UpdateConserves(tx, self, treasury, r.blake);
    } else {
      ForeignWeighsNothing(InputCells(tx.inputs), self, treasury, r.blake);
    }
  }

  /**
   * In a run whose steps are treasury-respecting updates of one registry or transactions that spend neither it
   * nor its treasury, k updates lose at most k CKB of registry plus treasury capacity.
   */
  lemma {:induction false} RunConserves(r: Rules, s: State, steps: seq<Step>, self: Script, treasury: Bytes32)
    requires s.live.Keys <= s.used && IsRun(r, s, steps)
    requires forall k :: 0 <= k < |steps| ==> CapacitySafe(steps[k].tx, self, treasury, r.blake)
    ensures Total(Final(r, s, steps).live, self, treasury, r.blake)
            + Updates(steps, self, treasury, r.blake) * 100_000_000
         >= Total(s.live, self, treasury, r.blake)
    decreases |steps|
  {
    hide Total, CapacitySafe, TreasuryUpdate, RegistryScriptsAccept, GovernanceLocksAccept;
    if steps != [] {
      var (tx, h) := (steps[0].tx, steps[0].hash);
      StepConserves(r, s, tx, h, self, treasury);
      assert forall k :: 0 <= k < |steps[1..]| ==> steps[1..][k] == steps[k + 1];
      RunConserves(r, Next(s, tx, h), steps[1..], self, treasury);
    }
  }
}
