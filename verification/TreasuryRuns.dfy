/** What runs of accepted transactions can take from a treasury. */
module TreasuryRuns {
  import opened Bytes
  import opened Chain
  import opened Molecule
  import opened Capacity
  import opened Ledger
  import opened Seqs
  import LT = LedgerTotal
  import TL = TreasuryLock

  /** The capacity locked to a treasury. */
  function Held(treasury: Bytes32, blake: Hasher): LT.Weight {
    (c: Cell) => if LockedBy(c, treasury, blake) then c.capacity else 0
  }

  lemma {:induction false} HeldIsSum(cells: seq<Cell>, treasury: Bytes32, blake: Hasher)
    ensures LT.WeightOf(cells, Held(treasury, blake)) == Sum(cells, treasury, blake)
  {
    if cells != [] {
      HeldIsSum(cells[..|cells| - 1], treasury, blake);
    }
  }

  /** The transaction spends cells of the treasury lock. */
  predicate SpendsFrom(tx: Tx, treasury: Script) {
    exists i :: 0 <= i < |tx.inputs| && tx.inputs[i].cell.lock == treasury
  }

  /** The chain's part: the lock runs, no other input's lock has its hash, and the inputs' capacity fits 64 bits. */
  predicate LockRuns(tx: Tx, treasury: Script, blake: Hasher) {
    && (SpendsFrom(tx, treasury) ==> TL.Entry(treasury, tx, blake).Ok?)
    && (forall i :: 0 <= i < |tx.inputs| ==>
          (tx.inputs[i].cell.lock == treasury <==> LockedBy(tx.inputs[i].cell, ScriptHash(treasury, blake), blake)))
    && TL.GroupSum(tx.inputs, treasury) <= U64_MAX
  }

  lemma {:induction false} GroupIsSum(inputs: seq<Input>, treasury: Script, blake: Hasher)
    requires forall i :: 0 <= i < |inputs| ==>
               (inputs[i].cell.lock == treasury <==> LockedBy(inputs[i].cell, ScriptHash(treasury, blake), blake))
    ensures Sum(InputCells(inputs), ScriptHash(treasury, blake), blake) == TL.GroupSum(inputs, treasury)
  {
    hide ScriptHash, LockedBy;
    if inputs != [] {
      var last := |inputs| - 1;
      GroupIsSum(inputs[..last], treasury, blake);
      assert InputCells(inputs)[..last] == InputCells(inputs[..last]);
    }
  }

  lemma {:induction false} NoneSpent(inputs: seq<Input>, treasury: Script)
    requires forall i :: 0 <= i < |inputs| ==> inputs[i].cell.lock != treasury
    ensures TL.GroupSum(inputs, treasury) == 0
  {
    if inputs != [] {
      NoneSpent(inputs[..|inputs| - 1], treasury);
    }
  }

  /** What one transaction may take. */
  function Limit(tx: Tx, treasury: Script): nat {
    if SpendsFrom(tx, treasury) then 100_000_000_000 else 0
  }

  lemma StepTakes(r: Rules, s: State, tx: Tx, h: Bytes32, treasury: Script)
    requires s.live.Keys <= s.used && CanApply(r, s, tx, h)
    requires |treasury.args| == 64 && LockRuns(tx, treasury, r.blake)
    ensures var w := Held(ScriptHash(treasury, r.blake), r.blake);
            LT.Total(Next(s, tx, h).live, w) + Limit(tx, treasury) >= LT.Total(s.live, w)
    ensures (forall i :: 0 <= i < |tx.inputs| ==> tx.inputs[i].cell.lock != treasury) ==>
              Limit(tx, treasury) == 0
  {
    hide LT.Total, LT.WeightOf, Sum, TL.GroupSum, TL.Entry, TL.CreatesAnchor, TL.SpendsAnchor, ScriptHash, Next,
      RegistryScriptsAccept, GovernanceLocksAccept, Held;
    var hash := ScriptHash(treasury, r.blake);
    LT.StepTotal(r, s, tx, h, Held(hash, r.blake));
    HeldIsSum(InputCells(tx.inputs), hash, r.blake);
    HeldIsSum(tx.outputs, hash, r.blake);
    GroupIsSum(tx.inputs, treasury, r.blake);
    if SpendsFrom(tx, treasury) {
      TL.SpendExact(treasury, tx, r.blake);
    } else {
      NoneSpent(tx.inputs, treasury);
    }
  }

  /** How many steps spend from the treasury. */
  function Spends(steps: seq<Step>, treasury: Script): nat {
    if steps == [] then 0
    else (if SpendsFrom(steps[0].tx, treasury) then 1 else 0) + Spends(steps[1..], treasury)
  }

  /** The count is the sum over the parts of a run, one for each step that spends. */
  lemma {:induction false} SpendsCount(a: seq<Step>, b: seq<Step>, treasury: Script)
    ensures Spends(a + b, treasury) == Spends(a, treasury) + Spends(b, treasury)
    ensures |b| == 1 ==>
              Spends(b, treasury)
              == if exists i :: 0 <= i < |b[0].tx.inputs| && b[0].tx.inputs[i].cell.lock == treasury then 1 else 0
  {
    if a == [] {
      Nil(b);
    } else {
      SpendsCount(a[1..], b, treasury);
      Assoc([a[0]], a[1..], b);
      HeadTail(a);
      ConsTail(a[0], a[1..] + b);
    }
    if |b| == 1 {
      assert b[1..] == [];
    }
  }

  /** A run in which k transactions spend from the treasury takes at most k times 1000 CKB from it. */
  lemma {:induction false} RunTakes(r: Rules, s: State, steps: seq<Step>, treasury: Script)
    requires s.live.Keys <= s.used && IsRun(r, s, steps) && |treasury.args| == 64
    requires forall k :: 0 <= k < |steps| ==> LockRuns(steps[k].tx, treasury, r.blake)
    ensures var w := Held(ScriptHash(treasury, r.blake), r.blake);
            LT.Total(Final(r, s, steps).live, w) + Spends(steps, treasury) * 100_000_000_000
            >= LT.Total(s.live, w)
    decreases |steps|
  {
    hide LT.Total, Held, ScriptHash, LockRuns, SpendsFrom, RegistryScriptsAccept, GovernanceLocksAccept;
    if steps != [] {
      var (tx, h) := (steps[0].tx, steps[0].hash);
      StepTakes(r, s, tx, h, treasury);
      assert forall k :: 0 <= k < |steps[1..]| ==> steps[1..][k] == steps[k + 1];
      RunTakes(r, Next(s, tx, h), steps[1..], treasury);
    }
  }
}
