/** Saturating u64 capacity sums by lock hash, and the treasury return the registry demands. */
module Capacity {
  import opened Bytes
  import opened Chain

  const MAX_ANCHOR_FEE: u64 := 100_000_000

  function SaturatingAdd(a: u64, b: u64): u64 {
    if a + b > U64_MAX then U64_MAX else a + b
  }

  function SaturatingSub(a: u64, b: u64): u64 {
    if a >= b then a - b else 0
  }

  predicate LockedBy(c: Cell, target: Bytes32, blake: Hasher) {
    ScriptHash(c.lock, blake) == target
  }

  /** What `capacity_for_lock_hash` returns: the saturating sum over the cells with this lock hash. */
  function Saturated(cells: seq<Cell>, target: Bytes32, blake: Hasher): u64 {
    if cells == [] then 0
    else
      var last := |cells| - 1;
      var before := Saturated(cells[..last], target, blake);
      if LockedBy(cells[last], target, blake) then SaturatingAdd(before, cells[last].capacity) else before
  }

  lemma SaturatedStep(cells: seq<Cell>, i: nat, target: Bytes32, blake: Hasher)
    requires i < |cells|
    ensures var before := Saturated(cells[..i], target, blake);
            Saturated(cells[..i + 1], target, blake)
            == if LockedBy(cells[i], target, blake) then SaturatingAdd(before, cells[i].capacity) else before
  {
    assert cells[..i + 1][..i] == cells[..i];
  }

  /** `capacity_for_lock_hash` and `output_capacity_for_lock_hash`. */
  method CapacityForLockHash(cells: seq<Cell>, target: Bytes32, blake: Hasher) returns (total: u64)
    ensures total == Saturated(cells, target, blake)
  {
    total := 0;
    var i := 0;
    while i < |cells|
      invariant 0 <= i <= |cells| && total == Saturated(cells[..i], target, blake)
    {
      assert cells[..i + 1][..i] == cells[..i];
      if ScriptHash(cells[i].lock, blake) == target {
        total := SaturatingAdd(total, cells[i].capacity);
      }
      i := i + 1;
    }
    assert cells[..i] == cells;
  }

  /** The exact sum. */
  function Sum(cells: seq<Cell>, target: Bytes32, blake: Hasher): nat {
    if cells == [] then 0
    else
      var last := |cells| - 1;
      Sum(cells[..last], target, blake) + if LockedBy(cells[last], target, blake) then cells[last].capacity else 0
  }

  lemma {:induction false} SaturatedIsCappedSum(cells: seq<Cell>, target: Bytes32, blake: Hasher)
    ensures Saturated(cells, target, blake)
         == if Sum(cells, target, blake) > U64_MAX then U64_MAX else Sum(cells, target, blake)
  {
    if cells != [] {
      SaturatedIsCappedSum(cells[..|cells| - 1], target, blake);
    }
  }

  function InputCells(inputs: seq<Input>): (cells: seq<Cell>)
    ensures |cells| == |inputs|
    ensures forall i :: 0 <= i < |cells| ==> cells[i] == inputs[i].cell
  {
    if inputs == [] then [] else InputCells(inputs[..|inputs| - 1]) + [inputs[|inputs| - 1].cell]
  }

  /** `required_treasury_return`. */
  function RequiredReturn(treasuryIn: u64, registryIn: u64, registryOut: u64): u64 {
    var afterDelta :=
      if registryOut >= registryIn then SaturatingSub(treasuryIn, registryOut - registryIn)
      else SaturatingAdd(treasuryIn, registryIn - registryOut);
    SaturatingSub(afterDelta, MAX_ANCHOR_FEE)
  }

  /**
   * Any treasury output that meets the bound keeps registry plus treasury capacity within 1 CKB of what
   * went in: growth, shrink and saturation alike, as long as what went in fits 64 bits.
   */
  lemma ReturnConserves(treasuryIn: u64, registryIn: u64, registryOut: u64, treasuryOut: nat)
    requires treasuryIn + registryIn <= U64_MAX
    requires treasuryOut >= RequiredReturn(treasuryIn, registryIn, registryOut)
    ensures treasuryOut + registryOut + 100_000_000 >= treasuryIn + registryIn
  {
  }

  /** The bound is the weakest with that effect: a return that conserves capacity in this sense meets it. */
  lemma ReturnIsWeakest(treasuryIn: u64, registryIn: u64, registryOut: u64, treasuryOut: nat)
    requires treasuryIn + registryIn <= U64_MAX
    requires treasuryOut + registryOut + 100_000_000 >= treasuryIn + registryIn
    ensures treasuryOut >= RequiredReturn(treasuryIn, registryIn, registryOut)
  {
  }
}
