/**
 * Runs of accepted transactions on a ledger where every outpoint is spent at most once, and what they all keep: one
 * live cell for each registry, whose entries are what the executed proposals made of them.
 */
module Ledger {
  import opened Bytes
  import opened Chain
  import opened Molecule
  import opened Scan
  import opened Seqs
  import opened BlacklistRegistry
  import GovernanceLock
  import MerkleTree
  import ReviewDelay
  import WA = WitnessArgs
  import PC = ProposalCell
  import RF = RegistryFormat
  import TR = Transition
  import GH = GovernanceHeader

  /** Which code identities are these two scripts; the hash; signature recovery. */
  datatype Rules = Rules(
    registryCodes: set<(Bytes32, byte)>, governanceCodes: set<(Bytes32, byte)>,
    blake: Hasher, recover: GovernanceLock.Recover)

  /** Live cells, and every outpoint that ever existed. */
  datatype State = State(live: map<OutPoint, Cell>, used: set<OutPoint>)

  predicate IsRegistry(r: Rules, c: Cell) {
    c.typ.Some? && (c.typ.value.codeHash, c.typ.value.hashType) in r.registryCodes
  }

  predicate IsGoverned(r: Rules, c: Cell) {
    (c.lock.codeHash, c.lock.hashType) in r.governanceCodes
  }

  /** The first input of the lock group: the one a lock script reads as its group input 0. */
  function FirstOfGroup(inputs: seq<Input>, lock: Script): (g: nat)
    requires exists i :: 0 <= i < |inputs| && inputs[i].cell.lock == lock
    ensures g < |inputs| && inputs[g].cell.lock == lock
    ensures forall i :: 0 <= i < g ==> inputs[i].cell.lock != lock
  {
    if inputs[0].cell.lock == lock then 0
    else
      assert forall i :: 0 < i < |inputs| ==> inputs[i] == inputs[1..][i - 1];
      var g := FirstOfGroup(inputs[1..], lock);
      g + 1
  }

  ghost predicate RegistryScriptsAccept(r: Rules, tx: Tx) {
    && (forall i :: 0 <= i < |tx.inputs| && IsRegistry(r, tx.inputs[i].cell) ==>
      Entry(tx.inputs[i].cell.typ.value, tx, r.blake).Ok?)
    && (forall o :: 0 <= o < |tx.outputs| && IsRegistry(r, tx.outputs[o]) ==>
      Entry(tx.outputs[o].typ.value, tx, r.blake).Ok?)
  }

  ghost predicate GovernanceLocksAccept(r: Rules, tx: Tx) {
    forall i :: 0 <= i < |tx.inputs| && IsGoverned(r, tx.inputs[i].cell) ==>
      var lock := tx.inputs[i].cell.lock;
      GovernanceLock.Entry(lock.args, tx, FirstOfGroup(tx.inputs, lock), r.blake, r.recover).Ok?
  }

  function Spent(inputs: seq<Input>): (s: set<OutPoint>)
    ensures forall i :: 0 <= i < |inputs| ==> inputs[i].outPoint in s
  {
    if inputs == [] then {} else Spent(inputs[..|inputs| - 1]) + {inputs[|inputs| - 1].outPoint}
  }

  lemma {:induction false} SpentExact(inputs: seq<Input>, p: OutPoint) returns (i: nat)
    requires p in Spent(inputs)
    ensures i < |inputs| && inputs[i].outPoint == p
  {
    i := |inputs| - 1;
    if p != inputs[i].outPoint {
      i := SpentExact(inputs[..i], p);
    }
  }

  /** The first `n` outputs under their outpoints. */
  function Created(outputs: seq<Cell>, n: nat, h: Bytes32): (m: map<OutPoint, Cell>)
    requires n <= |outputs| && n < 0x1_0000_0000
    ensures forall p :: p in m <==> p.txHash == h && p.index < n
    ensures forall p :: p in m ==> m[p] == outputs[p.index]
  {
    if n == 0 then map[] else Created(outputs, n - 1, h)[OutPoint(h, n - 1) := outputs[n - 1]]
  }

  /**
   * All of what a transaction with this hash needs but its signatures: live inputs, new outpoints, type scripts that
   * accept.
   */
  ghost predicate Unsigned(r: Rules, s: State, tx: Tx, h: Bytes32) {
    && tx.inputs != [] && |tx.outputs| < 0x1_0000_0000
    && (forall i :: 0 <= i < |tx.inputs| ==>
          tx.inputs[i].outPoint in s.live && s.live[tx.inputs[i].outPoint] == tx.inputs[i].cell)
    && (forall i, j :: 0 <= i < j < |tx.inputs| ==> tx.inputs[i].outPoint != tx.inputs[j].outPoint)
    && (forall p :: p in Created(tx.outputs, |tx.outputs|, h) ==> p !in s.used)
    && RegistryScriptsAccept(r, tx)
  }

  /** A transaction with this hash may be applied: its governance locks accept it too. */
  ghost predicate CanApply(r: Rules, s: State, tx: Tx, h: Bytes32) {
    Unsigned(r, s, tx, h) && GovernanceLocksAccept(r, tx)
  }

  function Next(s: State, tx: Tx, h: Bytes32): State
    requires |tx.outputs| < 0x1_0000_0000
  {
    var created := Created(tx.outputs, |tx.outputs|, h);
    State((s.live - Spent(tx.inputs)) + created, s.used + created.Keys)
  }

  // ---- what every run keeps ----

  /** No two Type ID preimages over these outpoints collide. */
  ghost predicate TypeIdsDistinct(blake: Hasher, outPoints: set<OutPoint>) {
    forall o, o', i: u64, i': u64 | o in outPoints && o' in outPoints ::
      blake(TypeIdPreimage(o, i)) == blake(TypeIdPreimage(o', i')) ==> TypeIdPreimage(o, i) == TypeIdPreimage(o', i')
  }

  lemma SameBirth(blake: Hasher, outPoints: set<OutPoint>, o: OutPoint, i: u64, o': OutPoint, i': u64)
    requires TypeIdsDistinct(blake, outPoints) && o in outPoints && o' in outPoints
    requires blake(TypeIdPreimage(o, i)) == blake(TypeIdPreimage(o', i'))
    ensures o == o' && i == i'
  {
    hide OutPointBytes, Le8;
    CancelFirst(OutPointBytes(o), Le8(i), OutPointBytes(o'), Le8(i'));
    OutPointInjective(o, o');
    U64Written(Le8(i), 0, i);
    U64Written(Le8(i'), 0, i');
  }

  /** The type id was made from an outpoint that existed and is no longer live. */
  ghost predicate Born(r: Rules, s: State, typeId: Bytes32) {
    exists o: OutPoint, i: u64 :: o in s.used && o !in s.live && r.blake(TypeIdPreimage(o, i)) == typeId
  }

  /** What a live registry cell always is. */
  ghost predicate WellKept(r: Rules, s: State, c: Cell)
    requires IsRegistry(r, c)
  {
    && ParseTypeArgs(c.typ.value.args).Some?
    && c.lock == GovernanceScript(ParseTypeArgs(c.typ.value.args).value)
    && RF.ParseStrict(c.data).Ok?
    && Born(r, s, ParseTypeArgs(c.typ.value.args).value.typeId)
  }

  ghost predicate Inv(r: Rules, s: State) {
    && s.live.Keys <= s.used
    && (forall p :: p in s.live && IsRegistry(r, s.live[p]) ==> WellKept(r, s, s.live[p]))
    && (forall p, q | p in s.live && q in s.live && IsRegistry(r, s.live[p]) && IsRegistry(r, s.live[q]) ::
          TypeIdOf(s.live[p]) == TypeIdOf(s.live[q]) ==> p == q)
  }

  /** The type id a cell's type args carry; None for other cells. */
  function TypeIdOf(c: Cell): Option<Bytes32> {
    if c.typ.None? then None
    else match ParseTypeArgs(c.typ.value.args) case None => None case Some(t) => Some(t.typeId)
  }

  /** Where an accepted registry output comes from. */
  datatype Origin = FromBootstrap | FromInput(i: nat)

  lemma OriginOf(r: Rules, tx: Tx, o: nat) returns (origin: Origin)
    requires RegistryScriptsAccept(r, tx) && o < |tx.outputs| && IsRegistry(r, tx.outputs[o])
    ensures var c := tx.outputs[o];
            ParseTypeArgs(c.typ.value.args).Some? && c.lock == GovernanceScript(ParseTypeArgs(c.typ.value.args).value)
            && RF.ParseStrict(c.data).Ok?
    ensures forall o' :: 0 <= o' < |tx.outputs| && tx.outputs[o'].typ == tx.outputs[o].typ ==> o' == o
    ensures origin.FromBootstrap? ==>
              tx.inputs != [] && TypeIdOf(tx.outputs[o]) == Some(r.blake(TypeIdPreimage(tx.inputs[0].outPoint, o)))
    ensures origin.FromInput? ==> origin.i < |tx.inputs| && tx.inputs[origin.i].cell.typ == tx.outputs[o].typ
  {
    hide Positions, RF.ParseStrict, TypeIdPreimage, Binding, Proposed;
    var self := tx.outputs[o].typ.value;
    assert Entry(self, tx, r.blake).Ok?;
    var (ins, outs) := (RegistryInputs(tx, self), RegistryOutputs(tx, self));
    forall o' | 0 <= o' < |tx.outputs| && tx.outputs[o'].typ == tx.outputs[o].typ
      ensures o' == outs[0]
    {
      PositionsExact(tx.outputs, HasType(self), o');
    }
    if ins == [] {
      origin := FromBootstrap;
    } else {
      PositionsExact(tx.inputs, InputHasType(self), ins[0]);
      origin := FromInput(ins[0]);
    }
  }

  /** Two registry outputs of one transaction never share a type id. */
  lemma OutputsDiffer(r: Rules, s: State, tx: Tx, h: Bytes32, all: set<OutPoint>, o: nat, o': nat)
    requires Inv(r, s) && CanApply(r, s, tx, h) && s.used <= all && TypeIdsDistinct(r.blake, all)
    requires o < |tx.outputs| && o' < |tx.outputs| && IsRegistry(r, tx.outputs[o]) && IsRegistry(r, tx.outputs[o'])
    requires TypeIdOf(tx.outputs[o]) == TypeIdOf(tx.outputs[o'])
    ensures o == o'
  {
    hide Created, RegistryScriptsAccept, GovernanceLocksAccept, TypeIdsDistinct, TypeIdPreimage, ParseTypeArgs,
      RF.ParseStrict, GovernanceScript;
    var a := OriginOf(r, tx, o);
    var b := OriginOf(r, tx, o');
    var first := tx.inputs[0].outPoint;
    if a.FromBootstrap? && b.FromBootstrap? {
      SameBirth(r.blake, all, first, o, first, o');
    } else if a.FromInput? && b.FromInput? {
      assert tx.inputs[a.i].outPoint == tx.inputs[b.i].outPoint;
    } else {
      var i := if a.FromInput? then a.i else b.i;
      var made := if a.FromInput? then o' else o;
      assert WellKept(r, s, tx.inputs[i].cell);
      var birth, k: u64 :| birth in s.used && birth !in s.live
        && r.blake(TypeIdPreimage(birth, k)) == TypeIdOf(tx.inputs[i].cell).value;
      SameBirth(r.blake, all, birth, k, first, made);
      assert false;
    }
  }

  /** A registry output shares its type id with no cell that stays live. */
  lemma OutputReplaces(r: Rules, s: State, tx: Tx, h: Bytes32, all: set<OutPoint>, o: nat, p: OutPoint)
    requires Inv(r, s) && CanApply(r, s, tx, h) && s.used <= all && TypeIdsDistinct(r.blake, all)
    requires o < |tx.outputs| && IsRegistry(r, tx.outputs[o])
    requires p in s.live && IsRegistry(r, s.live[p]) && TypeIdOf(s.live[p]) == TypeIdOf(tx.outputs[o])
    ensures p in Spent(tx.inputs)
  {
    hide Created, RegistryScriptsAccept, GovernanceLocksAccept, TypeIdsDistinct, TypeIdPreimage, ParseTypeArgs,
      RF.ParseStrict, GovernanceScript;
    var a := OriginOf(r, tx, o);
    if a.FromInput? {
      assert tx.inputs[a.i].outPoint == p;
    } else {
      var first := tx.inputs[0].outPoint;
      assert WellKept(r, s, s.live[p]);
      var birth, k: u64 :| birth in s.used && birth !in s.live
        && r.blake(TypeIdPreimage(birth, k)) == TypeIdOf(s.live[p]).value;
      SameBirth(r.blake, all, birth, k, first, o);
      assert false;
    }
  }

  /** A type id once born stays born: its outpoint is never live again. */
  lemma BornStays(r: Rules, s: State, tx: Tx, h: Bytes32, typeId: Bytes32)
    requires CanApply(r, s, tx, h) && Born(r, s, typeId)
    ensures Born(r, Next(s, tx, h), typeId)
  {
    hide RegistryScriptsAccept, GovernanceLocksAccept, TypeIdPreimage, Spent;
    var o, i: u64 :| o in s.used && o !in s.live && r.blake(TypeIdPreimage(o, i)) == typeId;
    var s' := Next(s, tx, h);
    assert o in s'.used && o !in s'.live;
  }

  /** A new registry output is well kept in the state after its transaction. */
  lemma OutputWellKept(r: Rules, s: State, tx: Tx, h: Bytes32, o: nat)
    requires Inv(r, s) && CanApply(r, s, tx, h) && o < |tx.outputs| && IsRegistry(r, tx.outputs[o])
    ensures WellKept(r, Next(s, tx, h), tx.outputs[o])
  {
    hide RegistryScriptsAccept, GovernanceLocksAccept, TypeIdPreimage, ParseTypeArgs, RF.ParseStrict,
      GovernanceScript;
    var a := OriginOf(r, tx, o);
    var typeId := TypeIdOf(tx.outputs[o]).value;
    if a.FromInput? {
      assert WellKept(r, s, tx.inputs[a.i].cell);
      BornStays(r, s, tx, h, typeId);
    } else {
      var s' := Next(s, tx, h);
      var first := tx.inputs[0].outPoint;
      assert first in s.live && first in Spent(tx.inputs) && first !in Created(tx.outputs, |tx.outputs|, h);
      assert first in s'.used && first !in s'.live;
    }
  }

  /** Every accepted transaction keeps the invariant. */
  lemma StepKeepsInv(r: Rules, s: State, tx: Tx, h: Bytes32, all: set<OutPoint>)
    requires Inv(r, s) && CanApply(r, s, tx, h) && s.used <= all && TypeIdsDistinct(r.blake, all)
    ensures Inv(r, Next(s, tx, h))
  {
    hide RegistryScriptsAccept, GovernanceLocksAccept, TypeIdsDistinct, WellKept, Spent;
    var s' := Next(s, tx, h);
    var created := Created(tx.outputs, |tx.outputs|, h);
    forall p | p in s'.live && IsRegistry(r, s'.live[p])
      ensures WellKept(r, s', s'.live[p])
    {
      if p in created {
        OutputWellKept(r, s, tx, h, p.index);
      } else {
        KeptStaysWell(r, s, tx, h, s.live[p]);
      }
    }
    forall p, q | p in s'.live && q in s'.live && IsRegistry(r, s'.live[p]) && IsRegistry(r, s'.live[q])
      && TypeIdOf(s'.live[p]) == TypeIdOf(s'.live[q])
      ensures p == q
    {
      if p in created && q in created {
        OutputsDiffer(r, s, tx, h, all, p.index, q.index);
      } else if p in created {
        OutputReplaces(r, s, tx, h, all, p.index, q);
      } else if q in created {
        OutputReplaces(r, s, tx, h, all, q.index, p);
      }
    }
  }

  lemma KeptStaysWell(r: Rules, s: State, tx: Tx, h: Bytes32, c: Cell)
    requires CanApply(r, s, tx, h) && IsRegistry(r, c) && WellKept(r, s, c)
    ensures WellKept(r, Next(s, tx, h), c)
  {
    hide CanApply, Born, Next, ParseTypeArgs, RF.ParseStrict;
    BornStays(r, s, tx, h, TypeIdOf(c).value);
  }

  // ---- runs ----

  datatype Step = Step(tx: Tx, hash: Bytes32)

  ghost predicate IsRun(r: Rules, s: State, steps: seq<Step>)
    decreases |steps|
  {
    steps != [] ==>
      CanApply(r, s, steps[0].tx, steps[0].hash) && IsRun(r, Next(s, steps[0].tx, steps[0].hash), steps[1..])
  }

  ghost function Final(r: Rules, s: State, steps: seq<Step>): State
    requires IsRun(r, s, steps)
    decreases |steps|
  {
    if steps == [] then s else Final(r, Next(s, steps[0].tx, steps[0].hash), steps[1..])
  }

  lemma {:induction false} UsedGrows(r: Rules, s: State, steps: seq<Step>)
    requires IsRun(r, s, steps)
    ensures s.used <= Final(r, s, steps).used
    decreases |steps|
  {
    if steps != [] {
      UsedGrows(r, Next(s, steps[0].tx, steps[0].hash), steps[1..]);
    }
  }

  lemma {:induction false} RunKeepsInv(r: Rules, s: State, steps: seq<Step>, all: set<OutPoint>)
    requires Inv(r, s) && IsRun(r, s, steps) && Final(r, s, steps).used <= all && TypeIdsDistinct(r.blake, all)
    ensures Inv(r, Final(r, s, steps))
    decreases |steps|
  {
    hide Inv, RegistryScriptsAccept, GovernanceLocksAccept, Next, TypeIdsDistinct;
    if steps != [] {
      var (tx, h) := (steps[0].tx, steps[0].hash);
      UsedGrows(r, s, steps);
      StepKeepsInv(r, s, tx, h, all);
      RunKeepsInv(r, Next(s, tx, h), steps[1..], all);
    }
  }

  /** From a ledger without registry cells, no run ever has two live cells with one registry type id. */
  lemma AtMostOneLive(r: Rules, s: State, steps: seq<Step>, p: OutPoint, q: OutPoint)
    requires s.live.Keys <= s.used && (forall x :: x in s.live ==> !IsRegistry(r, s.live[x]))
    requires IsRun(r, s, steps) && TypeIdsDistinct(r.blake, Final(r, s, steps).used)
    requires var live := Final(r, s, steps).live;
             p in live && q in live && IsRegistry(r, live[p]) && IsRegistry(r, live[q])
               && TypeIdOf(live[p]) == TypeIdOf(live[q])
    ensures p == q && TypeIdOf(Final(r, s, steps).live[p]).Some?
  {
    hide IsRun, Final, TypeIdsDistinct;
    RunKeepsInv(r, s, steps, Final(r, s, steps).used);
  }

  // ---- the history of one registry ----

  /**
   * What one transaction does to the registry of type script `self`: the proposal it executes, if it spends the cell.
   */
  function Executed(self: Script, tx: Tx, blake: Hasher): seq<PC.Proposal> {
    var ins := RegistryInputs(tx, self);
    if ins == [] then []
    else match ProposalOf(tx, ins[0], blake) case None => [] case Some(p) => [p]
  }

  function History(self: Script, steps: seq<Step>, blake: Hasher): seq<PC.Proposal> {
    if steps == [] then [] else Executed(self, steps[0].tx, blake) + History(self, steps[1..], blake)
  }

  function ApplyAll(m: map<seq<byte>, u64>, proposals: seq<PC.Proposal>): map<seq<byte>, u64>
    decreases |proposals|
  {
    if proposals == [] then m else ApplyAll(TR.Apply(m, proposals[0]), proposals[1..])
  }

  lemma {:induction false} ApplyAllConcat(m: map<seq<byte>, u64>, a: seq<PC.Proposal>, b: seq<PC.Proposal>)
    ensures ApplyAll(m, a + b) == ApplyAll(ApplyAll(m, a), b)
    decreases |a|
  {
    if a == [] {
      Nil(b);
    } else {
      assert (a + b)[0] == a[0] && (a + b)[1..] == a[1..] + b;
      ApplyAllConcat(TR.Apply(m, a[0]), a[1..], b);
    }
  }

  function Entries(c: Cell): seq<RF.Entry>
    requires RF.ParseStrict(c.data).Ok?
  {
    RF.ParseStrict(c.data).value.entries
  }

  /** The registry cell at `p` in state `s`: type script, governance lock, parsable ascending entries. */
  ghost predicate RegistryAt(r: Rules, s: State, p: OutPoint, self: Script) {
    && p in s.live && s.live[p].typ == Some(self) && IsRegistry(r, s.live[p])
    && ParseTypeArgs(self.args).Some?
    && s.live[p].lock == GovernanceScript(ParseTypeArgs(self.args).value)
    && RF.ParseStrict(s.live[p].data).Ok? && RF.Ascending(Entries(s.live[p]))
  }

  /** One transaction leaves exactly this registry live, its entries changed by what it executed. */
  lemma StepFollows(r: Rules, s: State, tx: Tx, h: Bytes32, p: OutPoint, self: Script) returns (q: OutPoint)
    requires Inv(r, s) && CanApply(r, s, tx, h) && RegistryAt(r, s, p, self)
    ensures RegistryAt(r, Next(s, tx, h), q, self)
    ensures TR.ToMap(Entries(Next(s, tx, h).live[q]))
            == ApplyAll(TR.ToMap(Entries(s.live[p])), Executed(self, tx, r.blake))
  {
    hide GovernanceLocksAccept, RF.ParseStrict, RF.Ascending, TR.ToMap, Update, Entry, RegistryInputs, ParseTypeArgs,
      GovernanceScript, Born, ProposalOf, Created;
    if p in Spent(tx.inputs) {
      var i := SpentExact(tx.inputs, p);
      assert IsRegistry(r, tx.inputs[i].cell);
      assert Entry(self, tx, r.blake).Ok?;
      var o := EntryIsUpdate(self, tx, i, r.blake);
      q := OutPoint(h, o);
      UpdatedCell(r, tx, i, o, self);
      assert Next(s, tx, h).live[q] == tx.outputs[o];
    } else {
      q := p;
      NotSpentNotRun(r, s, tx, h, p, self);
      assert p in s.used && Next(s, tx, h).live[p] == s.live[p];
    }
  }

  lemma NotSpentNotRun(r: Rules, s: State, tx: Tx, h: Bytes32, p: OutPoint, self: Script)
    requires Inv(r, s) && CanApply(r, s, tx, h) && RegistryAt(r, s, p, self) && p !in Spent(tx.inputs)
    ensures RegistryInputs(tx, self) == []
  {
    hide GovernanceLocksAccept, RegistryScriptsAccept, Positions, RF.ParseStrict, RF.Ascending, ParseTypeArgs,
      GovernanceScript, Born;
    var ins := RegistryInputs(tx, self);
    if ins != [] {
      PositionsExact(tx.inputs, InputHasType(self), ins[0]);
      assert false;
    }
  }

  lemma UpdatedCell(r: Rules, tx: Tx, i: nat, o: nat, self: Script)
    requires i < |tx.inputs| && o < |tx.outputs| && ParseTypeArgs(self.args).Some?
    requires RegistryInputs(tx, self) == [i]
    requires Update(ParseTypeArgs(self.args).value, tx, i, o, r.blake).Ok?
    ensures tx.outputs[o].lock == GovernanceScript(ParseTypeArgs(self.args).value)
    ensures RF.ParseStrict(tx.inputs[i].cell.data).Ok? && RF.ParseStrict(tx.outputs[o].data).Ok?
    ensures RF.Ascending(Entries(tx.outputs[o]))
    ensures TR.ToMap(Entries(tx.outputs[o]))
            == ApplyAll(TR.ToMap(Entries(tx.inputs[i].cell)), Executed(self, tx, r.blake))
  {
    hide RF.ParseStrict, RF.Ascending, TR.ToMap, ParseTypeArgs, GovernanceScript, ProposalOf, Proposed, Binding,
      GH.ParseTreasuryHash, TR.Apply;
    var t := ParseTypeArgs(self.args).value;
    UpdateAppliesProposal(t, tx, i, o, r.blake);
    var proposal := ProposalOf(tx, i, r.blake).value;
    assert Executed(self, tx, r.blake) == [proposal];
    var m := TR.ToMap(Entries(tx.inputs[i].cell));
    assert ApplyAll(m, [proposal]) == ApplyAll(TR.Apply(m, proposal), []);
  }

  /**
   * Once live, a registry is live after every run, under one outpoint, with the same type script and the
   * governance lock its args name; its entries are ascending and stand for the fold of the executed proposals.
   */
  lemma {:induction false} RunFollows(r: Rules, s: State, steps: seq<Step>, all: set<OutPoint>, p: OutPoint,
      self: Script)
    returns (q: OutPoint)
    requires Inv(r, s) && IsRun(r, s, steps) && Final(r, s, steps).used <= all && TypeIdsDistinct(r.blake, all)
    requires RegistryAt(r, s, p, self)
    ensures var s' := Final(r, s, steps);
            RegistryAt(r, s', q, self)
            && (forall x :: x in s'.live && IsRegistry(r, s'.live[x])
                            && TypeIdOf(s'.live[x]) == TypeIdOf(s'.live[q]) ==>
                  x == q)
            && TR.ToMap(Entries(s'.live[q])) == ApplyAll(TR.ToMap(Entries(s.live[p])), History(self, steps, r.blake))
    decreases |steps|
  {
    hide Inv, RegistryScriptsAccept, GovernanceLocksAccept, Next, TypeIdsDistinct, RegistryAt, TR.ToMap, Executed,
      ApplyAll, Entries;
    if steps == [] {
      q := p;
      AlreadyThere(r, s, p, self);
    } else {
      var (tx, h) := (steps[0].tx, steps[0].hash);
      UsedGrows(r, s, steps);
      StepKeepsInv(r, s, tx, h, all);
      var mid := StepFollows(r, s, tx, h, p, self);
      RegistryEntries(r, s, p, self);
      RegistryEntries(r, Next(s, tx, h), mid, self);
      q := RunFollows(r, Next(s, tx, h), steps[1..], all, mid, self);
      ApplyAllConcat(TR.ToMap(Entries(s.live[p])), Executed(self, tx, r.blake), History(self, steps[1..], r.blake));
    }
  }

  lemma AlreadyThere(r: Rules, s: State, p: OutPoint, self: Script)
    requires Inv(r, s) && RegistryAt(r, s, p, self)
    ensures p in s.live && RF.ParseStrict(s.live[p].data).Ok?
    ensures forall x :: x in s.live && IsRegistry(r, s.live[x]) && TypeIdOf(s.live[x]) == TypeIdOf(s.live[p]) ==> x == p
    ensures TR.ToMap(Entries(s.live[p])) == ApplyAll(TR.ToMap(Entries(s.live[p])), [])
  {
  }

  lemma RegistryEntries(r: Rules, s: State, p: OutPoint, self: Script)
    requires RegistryAt(r, s, p, self)
    ensures p in s.live && RF.ParseStrict(s.live[p].data).Ok?
  {
  }

  lemma LiveRegistryAt(r: Rules, s: State, p: OutPoint)
    requires Inv(r, s) && p in s.live && IsRegistry(r, s.live[p])
    ensures RegistryAt(r, s, p, s.live[p].typ.value)
  {
    hide RF.ParseStrict, RF.Ascending, Born, ParseTypeArgs, GovernanceScript;
    assert WellKept(r, s, s.live[p]);
    RF.EncodeOfStrict(s.live[p].data);
    CanonicalIsAscending(Entries(s.live[p]));
  }

  /**
   * From a ledger without registry cells: once some run has a registry live at `p`, every longer run has
   * exactly one live cell with its type id, under the same type script and governance lock, and its
   * entries are the fold of the proposals executed since over the entries at `p`.
   */
  lemma SingletonWithHistory(r: Rules, s: State, before: seq<Step>, after: seq<Step>, p: OutPoint)
    returns (q: OutPoint, self: Script)
    requires s.live.Keys <= s.used && (forall x :: x in s.live ==> !IsRegistry(r, s.live[x]))
    requires IsRun(r, s, before) && IsRun(r, Final(r, s, before), after)
    requires TypeIdsDistinct(r.blake, Final(r, Final(r, s, before), after).used)
    requires p in Final(r, s, before).live && IsRegistry(r, Final(r, s, before).live[p])
    ensures var (mid, end) := (Final(r, s, before), Final(r, Final(r, s, before), after));
            RegistryAt(r, mid, p, self) && RegistryAt(r, end, q, self)
            && (forall x :: x in end.live && IsRegistry(r, end.live[x])
                            && TypeIdOf(end.live[x]) == TypeIdOf(end.live[q]) ==>
                  x == q)
            && TR.ToMap(Entries(end.live[q])) == ApplyAll(TR.ToMap(Entries(mid.live[p])), History(self, after, r.blake))
  {
    hide IsRun, Final, TypeIdsDistinct, RegistryAt, TR.ToMap, Entries;
    var mid := Final(r, s, before);
    var all := Final(r, mid, after).used;
    UsedGrows(r, mid, after);
    RunKeepsInv(r, s, before, all);
    LiveRegistryAt(r, mid, p);
    self := mid.live[p].typ.value;
    q := RunFollows(r, mid, after, all, p, self);
  }

  // ---- every update was authorised ----

  /**
   * When the registry is the first governance-locked input of an accepted transaction, the one binding both
   * scripts read names a proposal cell among the inputs, aged at least the review delay; the registry changes
   * as that proposal says; and at least `threshold` distinct listed validators signed yes to its proposal id.
   */
  lemma UpdateIsAuthorised(r: Rules, s: State, tx: Tx, h: Bytes32, i: nat, pubkeys: seq<Pubkey>)
    returns (gov: WA.Gov1, header: GH.LockHeader, signers: set<Pubkey>, p: nat)
    requires CanApply(r, s, tx, h) && i < |tx.inputs|
    requires IsRegistry(r, tx.inputs[i].cell) && IsGoverned(r, tx.inputs[i].cell)
    requires FirstOfGroup(tx.inputs, tx.inputs[i].cell.lock) == i
    requires GH.ParseLockHeader(tx.inputs[i].cell.data).Ok? ==>
               var hd := GH.ParseLockHeader(tx.inputs[i].cell.data).value;
               hd.root == MerkleTree.TreeRoot(pubkeys, r.blake) && hd.validatorCount == |pubkeys|
    requires i < |tx.witnesses| && WA.LockReads(tx.witnesses[i]).Some? ==>
               GovernanceLock.NoCollision(WA.LockReads(tx.witnesses[i]).value.votes, pubkeys, r.blake)
    ensures GH.ParseLockHeader(tx.inputs[i].cell.data) == Ok(header) && 1 <= header.threshold <= |signers|
    ensures forall pk :: pk in signers ==>
            pk in pubkeys && GovernanceLock.SignedYes(pk, gov.proposalIdHash, r.blake, r.recover)
    ensures i < |tx.witnesses| && WA.LockReads(tx.witnesses[i]).Some?
    ensures WA.RegistryReads(tx.witnesses[i]) == Some(WA.LockReads(tx.witnesses[i]).value.gov1Payload)
    ensures WA.ParseGov1(WA.LockReads(tx.witnesses[i]).value.gov1Payload) == Some(gov)
    ensures p < |tx.inputs| && tx.inputs[p].cell.data != []
    ensures r.blake(tx.inputs[p].cell.data) == gov.proposalDataHash
    ensures ReviewDelay.RelativeSeconds(tx.inputs[p].since, gov.reviewDelayMs)
    ensures gov.oldRoot == r.blake(tx.inputs[i].cell.data)
    ensures PC.Parse(tx.inputs[p].cell.data).Ok?
    ensures Executed(tx.inputs[i].cell.typ.value, tx, r.blake) == [PC.Parse(tx.inputs[p].cell.data).value]
  {
    hide WA.LockReads, WA.RegistryReads, WA.ParseGov1, FindInput, PC.Parse, MerkleTree.TreeRoot,
      GovernanceLock.NoCollision, GovernanceLock.SignedYes, GovernanceLock.Entry, GH.ParseLockHeader,
      ReviewDelay.LockAcceptsSince, Update, Entry, RegistryInputs, ProposalOf, ParseTypeArgs;
    var lock := tx.inputs[i].cell.lock;
    assert GovernanceLock.Entry(lock.args, tx, i, r.blake, r.recover).Ok?;
    GovernanceLock.AcceptedReads(lock.args, tx, i, r.blake, r.recover);
    header, gov, signers, p := GovernanceLock.ThresholdAuthorisation(lock.args, tx, i, r.blake, r.recover, pubkeys);
    WA.ReadersAgree(tx.witnesses[i]);
    FoundInput(tx.inputs, gov.proposalDataHash, r.blake, p);
    var self := tx.inputs[i].cell.typ.value;
    assert Entry(self, tx, r.blake).Ok?;
    var o := EntryIsUpdate(self, tx, i, r.blake);
    var gov', p' := UpdateBinding(ParseTypeArgs(self.args).value, tx, i, o, r.blake);
  }
}
