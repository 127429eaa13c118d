/** The capacity arithmetic of `execute`: which treasury cells are spent and what the outputs carry. */
module ExecutePlan {
  import opened Bytes
  import opened Seqs
  import opened Chain
  import opened Molecule

  const SHANNONS_PER_CKB: nat := 100_000_000
  const FEE: nat := 100_000
  const MIN_CHANGE: nat := 125 * SHANNONS_PER_CKB

  datatype LiveCell = LiveCell(outPoint: OutPoint, cell: Cell)

  /** `occupiedCapacityShannons`: the bytes of capacity field, data, lock and type, one CKB each. */
  function Occupied(lock: Script, typ: Option<Script>, dataLength: nat): nat {
    (8 + dataLength + (33 + |lock.args|) + (if typ.Some? then 33 + |typ.value.args| else 0)) * SHANNONS_PER_CKB
  }

  /** A script without its table: the encoding less the four words of its head and the length of its args. */
  function ScriptSize(s: Script): nat { |EncodeScript(s)| - 20 }

  /** The bytes a cell takes on chain: eight for its capacity, then its data and its scripts. */
  function CellSize(lock: Script, typ: Option<Script>, dataLength: nat): nat {
    8 + dataLength + ScriptSize(lock) + match typ case None => 0 case Some(s) => ScriptSize(s)
  }

  /** The capacity is one CKB for each byte the cell takes, a hash, a hash type and the args for each script. */
  lemma OccupiedIsSize(lock: Script, typ: Option<Script>, dataLength: nat)
    ensures Occupied(lock, typ, dataLength) == 100_000_000 * CellSize(lock, typ, dataLength)
    ensures ScriptSize(lock) == |lock.codeHash| + |[lock.hashType]| + |lock.args|
  {
    hide EncodeScript;
  }

  /** The chain's rule: a cell's capacity pays for its own bytes. */
  predicate CoversItself(c: Cell) {
    c.capacity >= 100_000_000 * CellSize(c.lock, c.typ, |c.data|)
  }

  function CapSum(cs: seq<LiveCell>): nat {
    if cs == [] then 0 else CapSum(cs[..|cs| - 1]) + cs[|cs| - 1].cell.capacity
  }

  lemma {:induction false} CapSumConcat(a: seq<LiveCell>, b: seq<LiveCell>)
    ensures CapSum(a + b) == CapSum(a) + CapSum(b)
  {
    if b == [] {
      Nil(a);
    } else {
      CapSumConcat(a, b[..|b| - 1]);
      ConcatInit(a, b);
    }
  }

  /** A cell given on the command line must be locked to the treasury, plain and empty. */
  predicate PlainTreasury(c: LiveCell, treasury: Bytes32, blake: Hasher) {
    ScriptHash(c.cell.lock, blake) == treasury && Usable(c)
  }

  predicate Usable(c: LiveCell) {
    c.cell.typ.None? && c.cell.data == []
  }

  /** The auto-discovered cells: usable candidates in order, until they cover the growth. */
  function Chosen(cs: seq<LiveCell>, have: nat, growth: nat): seq<LiveCell> {
    if cs == [] then []
    else if !Usable(cs[0]) then Chosen(cs[1..], have, growth)
    else if have + cs[0].cell.capacity >= growth then [cs[0]]
    else [cs[0]] + Chosen(cs[1..], have + cs[0].cell.capacity, growth)
  }

  /** The loop over the candidates. */
  method Discover(candidates: seq<LiveCell>, growth: nat) returns (chosen: seq<LiveCell>, total: nat)
    ensures chosen == Chosen(candidates, 0, growth) && total == CapSum(chosen)
  {
    chosen, total := [], 0;
    var k := 0;
    Nil(Chosen(candidates, 0, growth));
    while k < |candidates|
      invariant 0 <= k <= |candidates| && total == CapSum(chosen)
      invariant Chosen(candidates, 0, growth) == chosen + Chosen(candidates[k..], total, growth)
    {
      var c := candidates[k];
      assert candidates[k..][0] == c && candidates[k..][1..] == candidates[k + 1..];
      k := k + 1;
      if Usable(c) {
        Assoc(chosen, [c], Chosen(candidates[k..], total + c.cell.capacity, growth));
        SnocInit(chosen, c);
        chosen := chosen + [c];
        total := total + c.cell.capacity;
        if total >= growth {
          return;
        }
      }
    }
    Nil(chosen);
  }

  /** What an execute transaction will spend from the treasury and pay out. */
  datatype Plan = Plan(treasuryCells: seq<LiveCell>, registryOut: nat, change: nat, extra: nat)

  function Growth(registryOut: nat, registryIn: nat): nat {
    if registryOut > registryIn then registryOut - registryIn else 0
  }

  /** The inputs of the planning: the registry cell, the length of its new data, the proposal cell's capacity. */
  datatype Request = Request(
    registry: Cell, newDataLength: nat, proposalCapacity: u64, treasury: Bytes32, given: seq<LiveCell>,
      pool: seq<LiveCell>)

  function NewCapacity(q: Request): nat {
    Occupied(q.registry.lock, q.registry.typ, q.newDataLength)
  }

  /** How much the registry cell must grow. */
  function Needed(q: Request): nat {
    Growth(NewCapacity(q), q.registry.capacity)
  }

  /** The treasury cells spent: those given, or the discovered ones when none is given and the registry grows. */
  function Spending(q: Request): seq<LiveCell> {
    if q.given == [] && Needed(q) > 0 then Chosen(q.pool, 0, Needed(q)) else q.given
  }

  predicate Plannable(q: Request, blake: Hasher) {
    && q.proposalCapacity >= FEE + MIN_CHANGE
    && (forall c <- q.given :: PlainTreasury(c, q.treasury, blake))
    && CapSum(Spending(q)) >= Needed(q)
  }

  function Planned(q: Request): Plan
    requires q.proposalCapacity >= FEE && CapSum(Spending(q)) >= Needed(q)
  {
    Plan(Spending(q), NewCapacity(q), q.proposalCapacity - FEE,
         CapSum(Spending(q)) - Needed(q) + Growth(q.registry.capacity, NewCapacity(q)))
  }

  /** The treasury branch of `execute`: None where it throws. */
  method PlanCapacities(q: Request, blake: Hasher) returns (r: Option<Plan>)
    ensures r == if Plannable(q, blake) then Some(Planned(q)) else None
  {
    hide ScriptHash;
    var proposalChange: int := q.proposalCapacity - FEE;
    if proposalChange < MIN_CHANGE {
      return None;
    }
    var treasuryCells := q.given;
    var treasuryIn := 0;
    for i := 0 to |q.given|
      invariant treasuryIn == CapSum(q.given[..i])
      invariant forall c <- q.given[..i] :: PlainTreasury(c, q.treasury, blake)
    {
      var c := q.given[i];
      assert c in q.given;
      SnocInit(q.given[..i], c);
      assert q.given[..i + 1] == q.given[..i] + [c];
      if ScriptHash(c.cell.lock, blake) != q.treasury || c.cell.typ.Some? || c.cell.data != [] {
        return None;
      }
      treasuryIn := treasuryIn + c.cell.capacity;
    }
    assert q.given[..|q.given|] == q.given;
    var registryOut := Occupied(q.registry.lock, q.registry.typ, q.newDataLength);
    var growth := if registryOut > q.registry.capacity then registryOut - q.registry.capacity else 0;
    var shrink := if q.registry.capacity > registryOut then q.registry.capacity - registryOut else 0;
    if growth > treasuryIn {
      if q.given == [] {
        treasuryCells, treasuryIn := Discover(q.pool, growth);
      }
      if growth > treasuryIn {
        return None;
      }
    }
    var extra := treasuryIn - growth + shrink;
    return Some(Plan(treasuryCells, registryOut, proposalChange, extra));
  }

  // ---- what a plan guarantees ----

  function UsableOnly(cs: seq<LiveCell>): seq<LiveCell> {
    if cs == [] then [] else (if Usable(cs[0]) then [cs[0]] else []) + UsableOnly(cs[1..])
  }

  lemma CapSumOne(c: LiveCell, cs: seq<LiveCell>)
    ensures CapSum([c] + cs) == c.cell.capacity + CapSum(cs)
  {
    CapSumConcat([c], cs);
    assert [c][..0] == [];
  }

  /** Discovery covers the growth exactly when all usable candidates together would. */
  lemma {:induction false} ChosenSuffices(cs: seq<LiveCell>, have: nat, growth: nat)
    requires have < growth
    ensures have + CapSum(Chosen(cs, have, growth)) >= growth <==> have + CapSum(UsableOnly(cs)) >= growth
  {
    if cs != [] {
      var c := cs[0];
      if !Usable(c) {
        ChosenSuffices(cs[1..], have, growth);
        Nil(UsableOnly(cs[1..]));
      } else {
        CapSumOne(c, UsableOnly(cs[1..]));
        if have + c.cell.capacity >= growth {
          CapSumOne(c, []);
          Nil([c]);
        } else {
          CapSumOne(c, Chosen(cs[1..], have + c.cell.capacity, growth));
          ChosenSuffices(cs[1..], have + c.cell.capacity, growth);
        }
      }
    }
  }

  /** Discovery takes no cell more than needed: without the last one the growth is not covered. */
  lemma {:induction false} ChosenIsMinimal(cs: seq<LiveCell>, have: nat, growth: nat)
    requires have < growth && Chosen(cs, have, growth) != []
    ensures var ch := Chosen(cs, have, growth);
            have + CapSum(ch[..|ch| - 1]) < growth
  {
    var c := cs[0];
    if !Usable(c) {
      ChosenIsMinimal(cs[1..], have, growth);
    } else if have + c.cell.capacity < growth {
      var rest := Chosen(cs[1..], have + c.cell.capacity, growth);
      if rest != [] {
        ChosenIsMinimal(cs[1..], have + c.cell.capacity, growth);
        InitOfCons(c, rest);
        CapSumOne(c, rest[..|rest| - 1]);
      } else {
        Nil([c]);
      }
    }
  }

  lemma InitOfCons<T>(x: T, s: seq<T>)
    requires s != []
    ensures ([x] + s)[..|s|] == [x] + s[..|s| - 1]
  {
  }

  lemma {:induction false} ChosenAreUsable(cs: seq<LiveCell>, have: nat, growth: nat, c: LiveCell)
    requires c in Chosen(cs, have, growth)
    ensures c in cs && Usable(c)
  {
    if !Usable(cs[0]) {
      ChosenAreUsable(cs[1..], have, growth, c);
    } else if have + cs[0].cell.capacity < growth {
      if c != cs[0] {
        ChosenAreUsable(cs[1..], have + cs[0].cell.capacity, growth, c);
      }
    }
  }

  /** With enough capacity given or in the pool, a plan exists; and only then. */
  lemma PlannableWhen(q: Request, blake: Hasher)
    ensures Plannable(q, blake)
       <==> q.proposalCapacity >= 12_500_100_000
            && (forall c <- q.given :: PlainTreasury(c, q.treasury, blake))
            && CapSum(if q.given == [] then UsableOnly(q.pool) else q.given) >= Needed(q)
  {
    hide Needed, Chosen, UsableOnly, ScriptHash;
    if q.given == [] && Needed(q) > 0 {
      ChosenSuffices(q.pool, 0, Needed(q));
    }
  }

  /** Inputs minus outputs is the fee, exactly. */
  lemma PlanBalances(q: Request, blake: Hasher)
    requires Plannable(q, blake)
    ensures var p := Planned(q);
            q.registry.capacity + q.proposalCapacity + CapSum(p.treasuryCells)
              == p.registryOut + (p.change + p.extra) + 100_000
  {
    hide CapSum, Spending, NewCapacity, ScriptHash;
  }

  /**
   * One inserted or removed entry changes the payload by at most 264 bytes: if the registry cell covered the
   * occupied capacity of its old data, it grows by at most 264 CKB.
   */
  lemma GrowthBounded(q: Request, oldDataLength: nat)
    requires q.newDataLength <= oldDataLength + 264
    requires q.registry.capacity >= 100_000_000 * CellSize(q.registry.lock, q.registry.typ, oldDataLength)
    ensures Needed(q) <= 26_400_000_000
  {
    hide Occupied, EncodeScript;
    OccupiedIsSize(q.registry.lock, q.registry.typ, oldDataLength);
    OccupiedIsSize(q.registry.lock, q.registry.typ, q.newDataLength);
  }

  /**
   * The planned registry cell carries what its bytes cost, no more and no less; the change covers a plain cell under a
   * lock of up to 84 bytes of args, such as the 64 of treasury-lock.
   */
  lemma PlanCovers(q: Request, treasury: Script, blake: Hasher)
    requires Plannable(q, blake)
    ensures Planned(q).registryOut == 100_000_000 * CellSize(q.registry.lock, q.registry.typ, q.newDataLength)
    ensures |treasury.args| <= 84 ==>
              Planned(q).change + Planned(q).extra >= 100_000_000 * CellSize(treasury, None, 0)
  {
    hide Spending, CapSum, ScriptHash, EncodeScript;
    OccupiedIsSize(q.registry.lock, q.registry.typ, q.newDataLength);
    OccupiedIsSize(treasury, None, 0);
  }

  /** For longer args the fixed minimum is too little: a plan whose change cannot pay for its own cell. */
  lemma ChangeFallsShort(treasury: Script, blake: Hasher)
    requires |treasury.args| > 84
    ensures var lock := Script(seq(32, _ => 0), 1, [1]);
            var q := Request(Cell(4_200_000_000, lock, None, []), 0, FEE + MIN_CHANGE, ZERO_32, [], []);
            Plannable(q, blake) && Planned(q).change + Planned(q).extra < 100_000_000 * CellSize(treasury, None, 0)
  {
    hide EncodeScript;
    var lock := Script(seq(32, _ => 0), 1, [1]);
    OccupiedIsSize(treasury, None, 0);
    assert Occupied(lock, None, 0) == 4_200_000_000;
    CapSumNil();
  }

  lemma CapSumNil()
    ensures CapSum([]) == 0
  {
  }
}
