/** The total weight of the live cells of a ledger, and how a transaction moves it. */
module LedgerTotal {
  import opened Bytes
  import opened Chain
  import opened Capacity
  import opened Ledger

  /** What one cell counts for. */
  type Weight = Cell -> nat

  function WeightOf(cells: seq<Cell>, w: Weight): nat {
    if cells == [] then 0 else WeightOf(cells[..|cells| - 1], w) + w(cells[|cells| - 1])
  }

  /** The weight of all live cells. */
  ghost function Total(live: map<OutPoint, Cell>, w: Weight): nat
    decreases |live|
  {
    if live == map[] then 0
    else
      var p :| p in live;
      w(live[p]) + Total(live - {p}, w)
  }

  /** The total does not depend on the order in which cells are taken out. */
  lemma {:induction false} TakeOut(live: map<OutPoint, Cell>, p: OutPoint, w: Weight)
    requires p in live
    ensures Total(live, w) == w(live[p]) + Total(live - {p}, w)
    decreases |live|
  {
    var q :| q in live && Total(live, w) == w(live[q]) + Total(live - {q}, w);
    if q != p {
      TakeOut(live - {q}, p, w);
      TakeOut(live - {p}, q, w);
      assert live - {q} - {p} == live - {p} - {q};
    }
  }

  lemma {:induction false} SpendOut(live: map<OutPoint, Cell>, inputs: seq<Input>, w: Weight)
    requires forall i :: 0 <= i < |inputs| ==> inputs[i].outPoint in live && live[inputs[i].outPoint] == inputs[i].cell
    requires forall i, j :: 0 <= i < j < |inputs| ==> inputs[i].outPoint != inputs[j].outPoint
    ensures Total(live, w) == Total(live - Spent(inputs), w) + WeightOf(InputCells(inputs), w)
  {
    if inputs == [] {
      assert live - {} == live;
    } else {
      var last := |inputs| - 1;
      var (init, p) := (inputs[..last], inputs[last].outPoint);
      SpendOut(live, init, w);
      if p in Spent(init) {
        var i := SpentExact(init, p);
        assert false;
      }
      TakeOut(live - Spent(init), p, w);
      assert live - Spent(init) - {p} == live - Spent(inputs);
      assert InputCells(inputs)[..last] == InputCells(init);
    }
  }

  lemma {:induction false} CreateIn(live: map<OutPoint, Cell>, outputs: seq<Cell>, n: nat, h: Bytes32, w: Weight)
    requires n <= |outputs| && n < 0x1_0000_0000
    requires Created(outputs, n, h).Keys !! live.Keys
    ensures Total(live + Created(outputs, n, h), w) == Total(live, w) + WeightOf(outputs[..n], w)
  {
    hide Total, Created, WeightOf;
    CreatedStep(outputs, n, h);
    if n == 0 {
      WeighsNothing(w);
      assert live + map[] == live;
    } else {
      var (p, before) := (OutPoint(h, n - 1), Created(outputs, n - 1, h));
      CreateIn(live, outputs, n - 1, h, w);
      WeighsOneMore(outputs, n, w);
      AddOne(live, before, p, outputs[n - 1]);
      TakeOut(live + Created(outputs, n, h), p, w);
    }
  }

  lemma CreatedStep(outputs: seq<Cell>, n: nat, h: Bytes32)
    requires n <= |outputs| && n < 0x1_0000_0000
    ensures n == 0 ==> Created(outputs, n, h) == map[]
    ensures n > 0 ==> OutPoint(h, n - 1) !in Created(outputs, n - 1, h)
    ensures n > 0 ==> Created(outputs, n, h) == Created(outputs, n - 1, h)[OutPoint(h, n - 1) := outputs[n - 1]]
  {
  }

  lemma WeighsNothing(w: Weight)
    ensures WeightOf([], w) == 0
  {
  }

  lemma WeighsOneMore(cells: seq<Cell>, n: nat, w: Weight)
    requires 0 < n <= |cells|
    ensures WeightOf(cells[..n], w) == WeightOf(cells[..n - 1], w) + w(cells[n - 1])
  {
    assert cells[..n][..n - 1] == cells[..n - 1];
  }

  lemma AddOne<K, V>(m: map<K, V>, n: map<K, V>, k: K, v: V)
    requires k !in m && k !in n
    ensures (m + n[k := v]) - {k} == m + n && (m + n[k := v])[k] == v
  {
  }

  /** One transaction moves the total by what its outputs weigh less what its inputs weigh. */
  lemma StepTotal(r: Rules, s: State, tx: Tx, h: Bytes32, w: Weight)
    requires s.live.Keys <= s.used && CanApply(r, s, tx, h)
    ensures Total(Next(s, tx, h).live, w) + WeightOf(InputCells(tx.inputs), w)
         == Total(s.live, w) + WeightOf(tx.outputs, w)
  {
    hide WeightOf, Total, RegistryScriptsAccept, GovernanceLocksAccept, Created;
    SpendOut(s.live, tx.inputs, w);
    CreateIn(s.live - Spent(tx.inputs), tx.outputs, |tx.outputs|, h, w);
    assert tx.outputs[..|tx.outputs|] == tx.outputs;
  }
}
