/**
 * The transaction `execute` builds balances. Each of the four scripts it runs accepts it under exactly the conditions
 * stated for that script; for an add or remove under a treasury, all of them do.
 */
module ExecuteAccepted {
  import opened Bytes
  import opened Seqs
  import opened Scan
  import opened Chain
  import opened Molecule
  import opened Capacity
  import opened ExecutePlan
  import opened ExecuteTx
  import opened YesVotes
  import AT = AnchorType
  import BR = BlacklistRegistry
  import CB = CliBuilder
  import GH = GovernanceHeader
  import GL = GovernanceLock
  import Lex
  import MT = MerkleTree
  import PC = ProposalCell
  import RD = ReviewDelay
  import RF = RegistryFormat
  import TL = TreasuryLock
  import TR = Transition
  import VM = VoteMessage
  import WA = WitnessArgs
  import WI = Witness

  // ---- the hypotheses ----

  /** The registry cell is one the registry script keeps: its args name its lock and its payload parses strictly. */
  predicate Genuine(j: Job, self: Script) {
    RF.ParseStrict(j.registry.cell.data).Ok? &&
    j.registry.cell.typ == Some(self) && BR.ParseTypeArgs(self.args).Some?
    && j.registry.cell.lock == BR.GovernanceScript(BR.ParseTypeArgs(self.args).value)
  }

  /** The bytes whose hashes the scripts compare for this job. */
  ghost function Hashed(j: Job, self: Script, treasury: Script): set<seq<byte>> {
    {j.registry.cell.data, j.anchor.cell.data, EncodeScript(j.registry.cell.lock), EncodeScript(treasury),
      EncodeScript(self)}
    + (if j.anchor.cell.typ.Some? then {EncodeScript(j.anchor.cell.typ.value)} else {})
  }

  /** The indexer returns cells with the lock it was asked for. */
  predicate PoolLocked(j: Job, treasury: Script) {
    forall c <- j.pool :: c.cell.lock == treasury
  }

  /** A job under a v3 treasury header, its draft, and hashes that tell its strings apart. */
  ghost predicate UnderTreasury(j: Job, d: Draft, tx: Tx, self: Script, treasury: Script, blake: Hasher,
      recover: GL.Recover) {
    && Genuine(j, self) && DraftOf(j, blake, recover) == Some(d)
    && d.header.treasuryLockScript == Some(treasury) && d.header.treasuryLockHash == None
    && PoolLocked(j, treasury) && j.registry.cell.lock != treasury
    && MT.CollisionFree(blake, Hashed(j, self, treasury))
    && Reach(j) <= U64_MAX && Built(j, blake, recover) == Some(tx)
  }

  // ---- what a draft says ----

  lemma DraftSays(j: Job, blake: Hasher, recover: GL.Recover, d: Draft) returns (current: CB.Registry)
    requires DraftOf(j, blake, recover) == Some(d)
    ensures CB.Current(j.registry.cell.data) == Some(current)
    ensures CB.NewData(j.registry.cell.data, j.proposal) == Some(d.newData)
    ensures GH.CliParseHeader(current.header) == Some(d.header)
    ensures PC.Encodable(j.proposal) && j.anchor.cell.data == PC.Encode(j.proposal, d.typeId, blake)
    ensures PayoutOf(j, d.header, d.typeId, d.newData, blake) == Some(d.pay)
    ensures Approved(j, d.header, blake, recover) && WI.Buildable(Submitted(j.votes))
    ensures j.registry.cell.typ.Some? && BR.ParseTypeArgs(j.registry.cell.typ.value.args).Some?
    ensures d.typeId == BR.ParseTypeArgs(j.registry.cell.typ.value.args).value.typeId
  {
    hide CB.Current, CB.NewData, GH.CliParseHeader, PC.Encode, PayoutOf, Approved, BR.ParseTypeArgs, WI.AllEncodable;
    current := CB.Current(j.registry.cell.data).value;
  }

  lemma BuiltIs(j: Job, blake: Hasher, recover: GL.Recover, d: Draft)
    requires DraftOf(j, blake, recover) == Some(d) && Reach(j) <= U64_MAX
    ensures WI.Buildable(Submitted(j.votes))
    ensures d.pay.plan.registryOut <= U64_MAX && d.pay.plan.change + d.pay.plan.extra <= U64_MAX
    ensures Built(j, blake, recover) == Some(Assembled(j, d.newData, d.pay, WitnessOf(j, d.newData, blake)))
  {
    hide DraftOf, CapSum, Reach, Assembled, WitnessOf, WI.AllEncodable;
    var current := DraftSays(j, blake, recover, d);
    DraftBalances(j, blake, recover);
  }

  /** What there is to spend on growth: the cells given, or else every usable cell of the pool. */
  function OnOffer(j: Job): nat {
    CapSum(if j.given == [] then UsableOnly(j.pool) else j.given)
  }

  /** The capacity conditions of the treasury branch, on the cells as loaded. */
  predicate Affordable(j: Job, newData: seq<byte>, treasury: Bytes32, blake: Hasher) {
    && j.anchor.cell.capacity >= 12_500_100_000
    && (forall c <- j.given :: PlainTreasury(c, treasury, blake))
    && j.registry.cell.capacity + OnOffer(j)
       >= 100_000_000 * CellSize(j.registry.cell.lock, j.registry.cell.typ, |newData|)
  }

  /**
   * Under a v3 treasury header, `execute` builds a transaction iff the proposal is encodable and applicable, the
   * proposal cell holds its data under the matching anchor type, the anchor code is named, the capacities suffice, and
   * the votes and their digest check out.
   */
  lemma BuildsExactly(j: Job, self: Script, current: CB.Registry, h: GH.CliHeader, treasury: Script, blake: Hasher,
      recover: GL.Recover)
    requires Genuine(j, self) && Reach(j) <= U64_MAX
    requires CB.Current(j.registry.cell.data) == Some(current) && GH.CliParseHeader(current.header) == Some(h)
    requires h.treasuryLockScript == Some(treasury) && h.treasuryLockHash == None
    ensures var (typeId, hash) := (BR.ParseTypeArgs(self.args).value.typeId, ScriptHash(treasury, blake));
            (Built(j, blake, recover).Some?
             <==> PC.Encodable(j.proposal) && CB.Applicable(current, j.proposal)
                  && j.anchor.cell.data == PC.Encode(j.proposal, typeId, blake) && AnchorTypeMatches(j, typeId, hash)
                  && j.anchorCode.Some?
                  && CB.NewData(j.registry.cell.data, j.proposal).Some?
                  && Affordable(j, CB.NewData(j.registry.cell.data, j.proposal).value, hash, blake)
                  && Approved(j, h, blake, recover) && WI.Buildable(Submitted(j.votes)))
  {
    hide CB.Current, CB.Transformed, CB.Applicable, GH.CliParseHeader, PC.Encode, Approved, BR.ParseTypeArgs,
      WI.AllEncodable, AnchorTypeMatches, Reach, Plannable, Planned, CapSum, Occupied, UsableOnly, EncodeScript,
      Assembled, WitnessOf, CellSize;
    CB.CurrentExact(j.registry.cell.data, current);
    if PC.Encodable(j.proposal) {
      CB.TransformedWhen(current, j.proposal);
    }
    var newData := CB.NewData(j.registry.cell.data, j.proposal);
    if newData.Some? {
      PlannableWhen(RequestOf(j, newData.value, ScriptHash(treasury, blake)), blake);
      OccupiedIsSize(j.registry.cell.lock, j.registry.cell.typ, |newData.value|);
    }
  }

  // ---- balance ----

  function TotalCapacity(cells: seq<Cell>): nat {
    if cells == [] then 0 else TotalCapacity(cells[..|cells| - 1]) + cells[|cells| - 1].capacity
  }

  lemma {:induction false} TotalConcat(a: seq<Cell>, b: seq<Cell>)
    ensures TotalCapacity(a + b) == TotalCapacity(a) + TotalCapacity(b)
  {
    if b == [] {
      Nil(a);
    } else {
      TotalConcat(a, b[..|b| - 1]);
      ConcatInit(a, b);
    }
  }

  lemma InputsInit(cs: seq<LiveCell>)
    requires cs != []
    ensures var cells := InputCells(Inputs(cs));
            |cells| == |cs| && cells[..|cs| - 1] == InputCells(Inputs(cs[..|cs| - 1]))
              && cells[|cs| - 1] == cs[|cs| - 1].cell
  {
    assert Inputs(cs)[..|cs| - 1] == Inputs(cs[..|cs| - 1]);
  }

  lemma {:induction false} TotalOfInputs(cs: seq<LiveCell>)
    ensures TotalCapacity(InputCells(Inputs(cs))) == CapSum(cs)
  {
    if cs != [] {
      TotalOfInputs(cs[..|cs| - 1]);
      InputsInit(cs);
    }
  }

  lemma TwoCells(a: Cell, b: Cell)
    ensures TotalCapacity([a, b]) == a.capacity + b.capacity
  {
    assert [a, b][..1] == [a] && [a][..0] == [];
    assert TotalCapacity([a]) == a.capacity;
  }

  lemma InputsSplit(j: Job, newData: seq<byte>, pay: Payout, proof: seq<byte>)
    requires pay.plan.registryOut <= U64_MAX && pay.plan.change + pay.plan.extra <= U64_MAX
    ensures InputCells(Assembled(j, newData, pay, proof).inputs)
         == [j.registry.cell, j.anchor.cell] + InputCells(Inputs(pay.plan.treasuryCells))
  {
  }

  /** Inputs minus outputs of the built transaction is exactly the fee. */
  lemma Balanced(j: Job, blake: Hasher, recover: GL.Recover)
    requires Reach(j) <= U64_MAX && Built(j, blake, recover).Some?
    ensures var tx := Built(j, blake, recover).value;
            TotalCapacity(InputCells(tx.inputs)) == TotalCapacity(tx.outputs) + 100_000
  {
    hide DraftOf, CapSum, Reach, WitnessOf, TotalCapacity, WI.AllEncodable, InputCells, Assembled;
    var d := DraftOf(j, blake, recover).value;
    BuiltIs(j, blake, recover, d);
    DraftBalances(j, blake, recover);
    AssembledCapacity(j, d.newData, d.pay, WitnessOf(j, d.newData, blake));
  }

  lemma AssembledCapacity(j: Job, newData: seq<byte>, pay: Payout, proof: seq<byte>)
    requires pay.plan.registryOut <= U64_MAX && pay.plan.change + pay.plan.extra <= U64_MAX
    ensures var tx := Assembled(j, newData, pay, proof);
            TotalCapacity(InputCells(tx.inputs))
              == j.registry.cell.capacity + j.anchor.cell.capacity + CapSum(pay.plan.treasuryCells)
            && TotalCapacity(tx.outputs) == pay.plan.registryOut + (pay.plan.change + pay.plan.extra)
  {
    hide TotalCapacity, InputCells, CapSum, RD.EncodeSince;
    InputsSplit(j, newData, pay, proof);
    TotalConcat([j.registry.cell, j.anchor.cell], InputCells(Inputs(pay.plan.treasuryCells)));
    TotalOfInputs(pay.plan.treasuryCells);
    TwoCells(j.registry.cell, j.anchor.cell);
    TwoCells(Cell(pay.plan.registryOut, j.registry.cell.lock, j.registry.cell.typ, newData),
             Cell(pay.plan.change + pay.plan.extra, pay.lock, None, []));
  }

  // ---- the treasury's sums ----

  /** Every treasury cell a payout spends is plain, empty and locked to the treasury. */
  lemma SpentArePlain(j: Job, h: GH.CliHeader, typeId: Bytes32, newData: seq<byte>, blake: Hasher, c: LiveCell)
    requires PayoutOf(j, h, typeId, newData, blake).Some?
    requires h.treasuryLockScript.Some? && h.treasuryLockHash.None? ==> PoolLocked(j, h.treasuryLockScript.value)
    requires c in PayoutOf(j, h, typeId, newData, blake).value.plan.treasuryCells
    ensures GH.CliTreasuryHash(h, blake).Some? && Usable(c)
    ensures h.treasuryLockHash.None? ==> ScriptHash(c.cell.lock, blake) == GH.CliTreasuryHash(h, blake).value
  {
    hide Occupied, CapSum, Chosen, EncodeScript, Usable;
    if GH.CliTreasuryHash(h, blake).Some? {
      var q := RequestOf(j, newData, GH.CliTreasuryHash(h, blake).value);
      if c in Chosen(q.pool, 0, Needed(q)) {
        ChosenAreUsable(q.pool, 0, Needed(q), c);
      }
    }
  }

  lemma {:induction false} SumConcat(a: seq<Cell>, b: seq<Cell>, treasury: Bytes32, blake: Hasher)
    ensures Sum(a + b, treasury, blake) == Sum(a, treasury, blake) + Sum(b, treasury, blake)
  {
    hide LockedBy;
    if b == [] {
      Nil(a);
    } else {
      SumConcat(a, b[..|b| - 1], treasury, blake);
      ConcatInit(a, b);
    }
  }

  lemma {:induction false} SumOfTreasury(cs: seq<LiveCell>, treasury: Bytes32, blake: Hasher)
    requires forall c <- cs :: LockedBy(c.cell, treasury, blake)
    ensures Sum(InputCells(Inputs(cs)), treasury, blake) == CapSum(cs)
  {
    hide LockedBy, InputCells, Inputs;
    if cs != [] {
      var init := cs[..|cs| - 1];
      assert forall c <- init :: c in cs;
      SumOfTreasury(init, treasury, blake);
      InputsInit(cs);
    }
  }

  lemma SumOfTwo(a: Cell, b: Cell, treasury: Bytes32, blake: Hasher)
    ensures Sum([a, b], treasury, blake)
         == (if LockedBy(a, treasury, blake) then a.capacity as int else 0)
            + (if LockedBy(b, treasury, blake) then b.capacity as int else 0)
  {
    assert [a, b][..1] == [a] && [a][..0] == [];
    assert Sum([a], treasury, blake) == if LockedBy(a, treasury, blake) then a.capacity else 0;
  }

  /** Different scripts among the collision-free strings have different hashes. */
  lemma HashesDiffer(s: Script, t: Script, strings: set<seq<byte>>, blake: Hasher)
    requires MT.CollisionFree(blake, strings) && EncodeScript(s) in strings && EncodeScript(t) in strings && s != t
    ensures ScriptHash(s, blake) != ScriptHash(t, blake)
  {
    hide EncodeScript;
    if EncodeScript(s) == EncodeScript(t) {
      EncodeInjective(s, t);
    }
  }

  lemma TreasuryIsNotRegistryLock(j: Job, d: Draft, tx: Tx, self: Script, treasury: Script, blake: Hasher,
      recover: GL.Recover)
    requires UnderTreasury(j, d, tx, self, treasury, blake, recover)
    ensures ScriptHash(j.registry.cell.lock, blake) != ScriptHash(treasury, blake)
    ensures d.pay.lock == treasury && GH.CliTreasuryHash(d.header, blake) == Some(ScriptHash(treasury, blake))
  {
    hide DraftOf, Reach, Genuine, EncodeScript, PoolLocked, Plannable, Planned, MT.CollisionFree, ScriptHash,
      Approved, WI.AllEncodable, PayoutOf, PC.Encodable, CB.Current;
    var current := DraftSays(j, blake, recover, d);
    HashesDiffer(j.registry.cell.lock, treasury, Hashed(j, self, treasury), blake);
    TreasuryPayout(j, d.header, d.typeId, d.newData, blake, treasury);
  }

  lemma TreasuryPayout(j: Job, h: GH.CliHeader, typeId: Bytes32, newData: seq<byte>, blake: Hasher, treasury: Script)
    requires PayoutOf(j, h, typeId, newData, blake).Some?
    requires h.treasuryLockScript == Some(treasury) && h.treasuryLockHash == None
    ensures GH.CliTreasuryHash(h, blake) == Some(ScriptHash(treasury, blake))
    ensures PayoutOf(j, h, typeId, newData, blake).value.lock == treasury
    ensures AnchorTypeMatches(j, typeId, ScriptHash(treasury, blake))
    ensures Plannable(RequestOf(j, newData, ScriptHash(treasury, blake)), blake)
    ensures PayoutOf(j, h, typeId, newData, blake).value.plan
            == Planned(RequestOf(j, newData, ScriptHash(treasury, blake)))
  {
    hide EncodeScript, Plannable, Planned, AnchorTypeMatches;
  }

  lemma EncodeInjective(s: Script, t: Script)
    requires EncodeScript(s) == EncodeScript(t)
    ensures s == t
  {
    hide Le4;
    var (a, b) := (ScriptHead(|s.args|), ScriptHead(|t.args|));
    Assoc(a, s.codeHash + [s.hashType], Le4(|s.args|) + s.args);
    Assoc(b, t.codeHash + [t.hashType], Le4(|t.args|) + t.args);
    CancelFirst(a, (s.codeHash + [s.hashType]) + (Le4(|s.args|) + s.args), b,
      (t.codeHash + [t.hashType]) + (Le4(|t.args|) + t.args));
    CancelFirst(s.codeHash + [s.hashType], Le4(|s.args|) + s.args, t.codeHash + [t.hashType], Le4(|t.args|) + t.args);
    CancelFirst(Le4(|s.args|), s.args, Le4(|t.args|), t.args);
    CancelFirst<byte>(s.codeHash, [s.hashType], t.codeHash, [t.hashType]);
  }

  /**
   * What the treasury puts in and gets back: its cells (and the proposal cell, if it is a treasury cell), and the
   * second output.
   */
  lemma TreasurySums(j: Job, d: Draft, tx: Tx, self: Script, treasury: Script, blake: Hasher, recover: GL.Recover)
    requires UnderTreasury(j, d, tx, self, treasury, blake, recover)
    ensures var h := ScriptHash(treasury, blake);
            Sum(tx.outputs, h, blake) == d.pay.plan.change + d.pay.plan.extra
            && Sum(InputCells(tx.inputs), h, blake)
               == (if LockedBy(j.anchor.cell, h, blake) then j.anchor.cell.capacity as int else 0)
                 + CapSum(d.pay.plan.treasuryCells)
  {
    hide UnderTreasury, CapSum, WitnessOf, Sum, ScriptHash, WI.AllEncodable, InputCells, RD.EncodeSince, Hashed;
    var h := ScriptHash(treasury, blake);
    AssemblyUnder(j, d, tx, self, treasury, blake, recover);
    TreasuryIsNotRegistryLock(j, d, tx, self, treasury, blake, recover);
    AllPlain(j, d, tx, self, treasury, blake, recover);
    var cells := d.pay.plan.treasuryCells;
    InputsSplit(j, d.newData, d.pay, WitnessOf(j, d.newData, blake));
    SumConcat([j.registry.cell, j.anchor.cell], InputCells(Inputs(cells)), h, blake);
    SumOfTwo(j.registry.cell, j.anchor.cell, h, blake);
    SumOfTreasury(cells, h, blake);
    SumOfTwo(Cell(d.pay.plan.registryOut, j.registry.cell.lock, j.registry.cell.typ, d.newData),
             Cell(d.pay.plan.change + d.pay.plan.extra, d.pay.lock, None, []), h, blake);
  }

  /** Which cell stands where. */
  lemma Shape(j: Job, d: Draft, tx: Tx, self: Script, treasury: Script, blake: Hasher, recover: GL.Recover)
    requires UnderTreasury(j, d, tx, self, treasury, blake, recover)
    ensures |tx.inputs| >= 2 && |tx.outputs| == 2 && |tx.witnesses| >= 2
    ensures tx.inputs[0].cell == j.registry.cell && tx.inputs[1].cell == j.anchor.cell
    ensures tx.inputs[1].since == RD.EncodeSince(j.delayMs)
    ensures forall k :: 2 <= k < |tx.inputs| ==> tx.inputs[k].cell.typ == None && tx.inputs[k].cell.data == []
                                                 && ScriptHash(tx.inputs[k].cell.lock, blake)
                                                   == ScriptHash(treasury, blake)
    ensures tx.outputs[0].capacity == d.pay.plan.registryOut && tx.outputs[0].lock == j.registry.cell.lock
    ensures tx.outputs[0].typ == j.registry.cell.typ && tx.outputs[0].data == d.newData
    ensures tx.outputs[1].capacity == d.pay.plan.change + d.pay.plan.extra && tx.outputs[1].lock == treasury
    ensures tx.outputs[1].typ == None && tx.outputs[1].data == []
  {
    hide UnderTreasury, WitnessOf, ScriptHash, WI.AllEncodable, RD.EncodeSince, Assembled;
    AssemblyUnder(j, d, tx, self, treasury, blake, recover);
    AllPlain(j, d, tx, self, treasury, blake, recover);
    AssembledShape(j, d.newData, d.pay, WitnessOf(j, d.newData, blake));
  }

  lemma AssemblyUnder(j: Job, d: Draft, tx: Tx, self: Script, treasury: Script, blake: Hasher, recover: GL.Recover)
    requires UnderTreasury(j, d, tx, self, treasury, blake, recover)
    ensures WI.Buildable(Submitted(j.votes)) && d.pay.lock == treasury
    ensures d.pay.plan.registryOut <= U64_MAX && d.pay.plan.change + d.pay.plan.extra <= U64_MAX
    ensures tx == Assembled(j, d.newData, d.pay, WitnessOf(j, d.newData, blake))
  {
    hide DraftOf, Reach, ScriptHash, MT.CollisionFree, Genuine, WI.AllEncodable, Hashed, Assembled, Built, PoolLocked,
      WitnessOf;
    BuiltIs(j, blake, recover, d);
    TreasuryIsNotRegistryLock(j, d, tx, self, treasury, blake, recover);
  }

  lemma AllPlain(j: Job, d: Draft, tx: Tx, self: Script, treasury: Script, blake: Hasher, recover: GL.Recover)
    requires UnderTreasury(j, d, tx, self, treasury, blake, recover)
    ensures forall k :: 0 <= k < |d.pay.plan.treasuryCells| ==>
              var c := d.pay.plan.treasuryCells[k];
              c.cell.typ == None && c.cell.data == [] && ScriptHash(c.cell.lock, blake) == ScriptHash(treasury, blake)
  {
    hide DraftOf, Reach, EncodeScript, ScriptHash, MT.CollisionFree, Genuine, WI.AllEncodable, PayoutOf, Approved,
      PC.Encodable, CB.Current, Hashed, PoolLocked, GH.CliTreasuryHash;
    var current := DraftSays(j, blake, recover, d);
    TreasuryIsNotRegistryLock(j, d, tx, self, treasury, blake, recover);
    forall k | 0 <= k < |d.pay.plan.treasuryCells|
      ensures Usable(d.pay.plan.treasuryCells[k])
      ensures ScriptHash(d.pay.plan.treasuryCells[k].cell.lock, blake) == ScriptHash(treasury, blake)
    {
      SpentArePlain(j, d.header, d.typeId, d.newData, blake, d.pay.plan.treasuryCells[k]);
    }
  }

  lemma AssembledShape(j: Job, newData: seq<byte>, pay: Payout, proof: seq<byte>)
    requires pay.plan.registryOut <= U64_MAX && pay.plan.change + pay.plan.extra <= U64_MAX
    ensures var tx := Assembled(j, newData, pay, proof);
            |tx.inputs| == 2 + |pay.plan.treasuryCells| && |tx.outputs| == 2 && |tx.witnesses| >= 2
            && tx.inputs[0].cell == j.registry.cell && tx.inputs[1].cell == j.anchor.cell
            && tx.inputs[1].since == RD.EncodeSince(j.delayMs)
            && (forall k :: 2 <= k < |tx.inputs| ==> tx.inputs[k].cell == pay.plan.treasuryCells[k - 2].cell)
            && tx.outputs[0] == Cell(pay.plan.registryOut, j.registry.cell.lock, j.registry.cell.typ, newData)
            && tx.outputs[1] == Cell(pay.plan.change + pay.plan.extra, pay.lock, None, [])
            && tx.witnesses[0] == proof
  {
    hide RD.EncodeSince;
  }

  // ---- proposal-anchor ----

  /** The anchor's type script and its args, under a treasury. */
  lemma AnchorOf(j: Job, d: Draft, tx: Tx, self: Script, treasury: Script, blake: Hasher,
      recover: GL.Recover) returns (anchor: Script, a: AT.AnchorArgs)
    requires UnderTreasury(j, d, tx, self, treasury, blake, recover)
    ensures j.anchor.cell.typ == Some(anchor) && anchor.args == AT.EncodeArgs(a)
    ensures a == AT.AnchorArgs(d.typeId, ScriptHash(treasury, blake), j.delayMs)
    ensures anchor != self && ScriptHash(anchor, blake) != ScriptHash(self, blake)
    ensures PC.ValidatePblk(j.anchor.cell.data, d.typeId) && PC.Encodable(j.proposal)
    ensures PC.Parse(j.anchor.cell.data) == Ok(PC.Meaning(j.proposal, d.typeId, blake))
    ensures Plannable(RequestOf(j, d.newData, ScriptHash(treasury, blake)), blake)
    ensures d.pay.plan == Planned(RequestOf(j, d.newData, ScriptHash(treasury, blake)))
  {
    hide DraftOf, Reach, EncodeScript, PoolLocked, Plannable, Planned, MT.CollisionFree, ScriptHash, Approved,
      WI.AllEncodable, PayoutOf, PC.Encodable, CB.Current, PC.Parse, PC.ValidatePblk, PC.Meaning, PC.Encode,
      AT.EncodeArgs;
    var current := DraftSays(j, blake, recover, d);
    TreasuryPayout(j, d.header, d.typeId, d.newData, blake, treasury);
    anchor := j.anchor.cell.typ.value;
    a := AT.AnchorArgs(d.typeId, ScriptHash(treasury, blake), j.delayMs);
    PC.EncodedCellIsRead(j.proposal, d.typeId, blake);
    assert |anchor.args| == 73 && |self.args| == 66;
    HashesDiffer(anchor, self, Hashed(j, self, treasury), blake);
  }

  /** proposal-anchor accepts the built transaction iff the review delay is a whole number of seconds. */
  lemma AnchorAccepts(j: Job, d: Draft, tx: Tx, self: Script, treasury: Script, blake: Hasher, recover: GL.Recover)
    requires UnderTreasury(j, d, tx, self, treasury, blake, recover)
    ensures j.anchor.cell.typ.Some?
    ensures AT.Entry(j.anchor.cell.typ.value, tx, blake).Ok? <==> j.delayMs % 1000 == 0
  {
    hide Built, DraftOf, CapSum, Sum, Saturated, Reach, ScriptHash, MT.CollisionFree, Genuine, InputCells, Positions,
      PC.ValidatePblk, PC.Parse, PC.Meaning, AT.EncodeArgs, AT.ParseArgs, AT.RunningArgs, RD.EncodeSince,
      RD.AnchorSinceMs, RD.LockAcceptsSince, Hashed, PoolLocked, UnderTreasury, Plannable, Needed, Spending,
      NewCapacity, EncodeScript, PC.Encodable, WI.AllEncodable, WitnessOf;
    IsGenuine(j, d, tx, self, treasury, blake, recover);
    var anchor, a := AnchorOf(j, d, tx, self, treasury, blake, recover);
    Shape(j, d, tx, self, treasury, blake, recover);
    TreasurySums(j, d, tx, self, treasury, blake, recover);
    AT.RunningArgsAre(anchor);
    AT.ArgsExact(anchor.args, a);
    OnlyAnchor(tx, anchor, self, blake);
    RD.BuiltDelayAccepted(j.delayMs, j.delayMs);
    RD.SameWords(RD.EncodeSince(j.delayMs), j.delayMs);
    SaturatedIsCappedSum(tx.outputs, a.treasury, blake);
  }

  lemma IsGenuine(j: Job, d: Draft, tx: Tx, self: Script, treasury: Script, blake: Hasher, recover: GL.Recover)
    requires UnderTreasury(j, d, tx, self, treasury, blake, recover)
    ensures Genuine(j, self) && j.registry.cell.typ == Some(self) && Reach(j) <= U64_MAX
    ensures RF.ParseStrict(j.registry.cell.data).Ok?
  {
  }

  /** Of the cells in the transaction only input 1 carries the anchor type. */
  lemma OnlyAnchor(tx: Tx, anchor: Script, self: Script, blake: Hasher)
    requires |tx.inputs| >= 2 && |tx.outputs| == 2 && ScriptHash(anchor, blake) != ScriptHash(self, blake)
    requires tx.inputs[0].cell.typ == Some(self) && tx.inputs[1].cell.typ == Some(anchor)
    requires forall k :: 2 <= k < |tx.inputs| ==> tx.inputs[k].cell.typ == None
    requires tx.outputs[0].typ == Some(self) && tx.outputs[1].typ == None
    ensures var p := AT.HasTypeHash(ScriptHash(anchor, blake), blake);
            Positions(InputCells(tx.inputs), p) == [1] && Positions(tx.outputs, p) == []
  {
    hide ScriptHash;
    var p := AT.HasTypeHash(ScriptHash(anchor, blake), blake);
    PositionsAre(InputCells(tx.inputs), p, Some(1));
    PositionsAre(tx.outputs, p, None);
  }

  // ---- treasury-lock ----

  lemma {:induction false} GroupIsSum(inputs: seq<Input>, self: Script, blake: Hasher)
    requires forall i :: 0 <= i < |inputs| ==>
               (inputs[i].cell.lock == self <==> ScriptHash(inputs[i].cell.lock, blake) == ScriptHash(self, blake))
    ensures TL.GroupSum(inputs, self) == Sum(InputCells(inputs), ScriptHash(self, blake), blake)
  {
    hide ScriptHash;
    if inputs != [] {
      var last := |inputs| - 1;
      GroupIsSum(inputs[..last], self, blake);
      assert InputCells(inputs)[..last] == InputCells(inputs[..last]);
    }
  }

  /** The treasury cells are under the treasury script itself, and so is the proposal cell, as `anchor` creates it. */
  predicate TreasuryOwned(j: Job, treasury: Script) {
    j.anchor.cell.lock == treasury && forall c <- j.given :: c.cell.lock == treasury
  }

  /** The script the treasury-lock args name as the anchor type. */
  predicate NamesAnchor(treasury: Script, anchor: Script) {
    |treasury.args| == 64 && anchor.codeHash == treasury.args[32..64] && anchor.hashType == 0x01
  }

  function NeededBy(j: Job, d: Draft, treasury: Script, blake: Hasher): nat {
    Needed(RequestOf(j, d.newData, ScriptHash(treasury, blake)))
  }

  function FreedBy(j: Job, d: Draft, treasury: Script, blake: Hasher): nat {
    Growth(j.registry.cell.capacity, NewCapacity(RequestOf(j, d.newData, ScriptHash(treasury, blake))))
  }

  /**
   * treasury-lock accepts the built transaction iff the bytes of the new registry cell and the fee cost at most 1000
   * CKB more than the old cell carries.
   */
  lemma TreasuryAccepts(j: Job, d: Draft, tx: Tx, self: Script, treasury: Script, blake: Hasher, recover: GL.Recover)
    requires UnderTreasury(j, d, tx, self, treasury, blake, recover) && TreasuryOwned(j, treasury)
    requires j.anchor.cell.typ.Some? ==> NamesAnchor(treasury, j.anchor.cell.typ.value)
    ensures TL.Entry(treasury, tx, blake).Ok?
       <==> 100_000_000 * CellSize(j.registry.cell.lock, j.registry.cell.typ, |d.newData|) + 100_000
            <= j.registry.cell.capacity + 100_000_000_000
  {
    hide UnderTreasury, ScriptHash, Sum, CapSum, TL.GroupSum, TL.Entry, Plannable, Needed, NewCapacity, Spending,
      Reach, AT.EncodeArgs, TL.IsAnchorTypeFor, EncodeScript, InputCells, PC.ValidatePblk, PC.Parse, PC.Encodable,
      Growth, CellSize;
    var h := ScriptHash(treasury, blake);
    var anchor, a := AnchorOf(j, d, tx, self, treasury, blake, recover);
    Shape(j, d, tx, self, treasury, blake, recover);
    IsGenuine(j, d, tx, self, treasury, blake, recover);
    TreasurySums(j, d, tx, self, treasury, blake, recover);
    GroupOfBuilt(j, d, tx, self, treasury, blake, recover);
    InWithinReach(j, d, tx, self, treasury, blake, recover);
    TL.CliAnchorIsRecognised(anchor, a, treasury.args[32..64], h);
    TL.SpendExact(treasury, tx, blake);
    assert TL.SpentAnchor(tx.inputs[1], treasury.args[32..64], h);
    TakenIs(j, d, treasury, blake);
  }

  lemma TakenIs(j: Job, d: Draft, treasury: Script, blake: Hasher)
    ensures NeededBy(j, d, treasury, blake) - FreedBy(j, d, treasury, blake)
         == 100_000_000 * CellSize(j.registry.cell.lock, j.registry.cell.typ, |d.newData|) - j.registry.cell.capacity
  {
    hide Occupied, CellSize, EncodeScript;
    OccupiedIsSize(j.registry.cell.lock, j.registry.cell.typ, |d.newData|);
  }

  lemma InWithinReach(j: Job, d: Draft, tx: Tx, self: Script, treasury: Script, blake: Hasher, recover: GL.Recover)
    requires UnderTreasury(j, d, tx, self, treasury, blake, recover)
    ensures j.registry.cell.capacity + j.anchor.cell.capacity + CapSum(d.pay.plan.treasuryCells)
         == d.pay.plan.registryOut + (d.pay.plan.change + d.pay.plan.extra) + FEE
    ensures j.registry.cell.capacity + j.anchor.cell.capacity + CapSum(d.pay.plan.treasuryCells) <= U64_MAX
  {
    hide DraftOf, CapSum, MT.CollisionFree, Hashed, Genuine, PoolLocked, Built, PayoutOf;
    var current := DraftSays(j, blake, recover, d);
    PayoutBalances(j, d.header, d.typeId, d.newData, blake);
  }

  /** The group of the treasury lock is every input locked to the treasury. */
  lemma GroupOfBuilt(j: Job, d: Draft, tx: Tx, self: Script, treasury: Script, blake: Hasher, recover: GL.Recover)
    requires UnderTreasury(j, d, tx, self, treasury, blake, recover) && TreasuryOwned(j, treasury)
    ensures TL.GroupSum(tx.inputs, treasury) == Sum(InputCells(tx.inputs), ScriptHash(treasury, blake), blake)
  {
    hide UnderTreasury, ScriptHash, Sum, CapSum, TL.GroupSum, WitnessOf, WI.AllEncodable, InputCells, RD.EncodeSince,
      TreasuryOwned;
    Shape(j, d, tx, self, treasury, blake, recover);
    TreasuryIsNotRegistryLock(j, d, tx, self, treasury, blake, recover);
    OwnedInputs(j, d, tx, self, treasury, blake, recover);
    GroupIsSum(tx.inputs, treasury, blake);
  }

  lemma OwnedInputs(j: Job, d: Draft, tx: Tx, self: Script, treasury: Script, blake: Hasher, recover: GL.Recover)
    requires UnderTreasury(j, d, tx, self, treasury, blake, recover) && TreasuryOwned(j, treasury)
    ensures |tx.inputs| >= 2 && tx.inputs[1].cell.lock == treasury
    ensures forall k :: 2 <= k < |tx.inputs| ==> tx.inputs[k].cell.lock == treasury
  {
    hide DraftOf, Reach, ScriptHash, MT.CollisionFree, Genuine, WI.AllEncodable, Hashed, Built, WitnessOf,
      RD.EncodeSince, PayoutOf, CapSum, Plannable, Chosen, PC.Encodable, Needed, Assembled, AT.EncodeArgs,
      PC.ValidatePblk, PC.Parse;
    AssemblyUnder(j, d, tx, self, treasury, blake, recover);
    AssembledShape(j, d.newData, d.pay, WitnessOf(j, d.newData, blake));
    var anchor, a := AnchorOf(j, d, tx, self, treasury, blake, recover);
    var q := RequestOf(j, d.newData, ScriptHash(treasury, blake));
    forall c | c in Spending(q)
      ensures c.cell.lock == treasury
    {
      if c !in j.given {
        ChosenAreUsable(q.pool, 0, Needed(q), c);
      }
    }
  }

  // ---- blacklist-registry ----

  /** What the registry script reads from the two payloads of a draft. */
  lemma PayloadsOf(j: Job, d: Draft, self: Script, blake: Hasher, recover: GL.Recover)
    returns (old_: CB.Registry, new_: CB.Registry)
    requires Genuine(j, self) && DraftOf(j, blake, recover) == Some(d) && PC.Encodable(j.proposal)
    requires CB.Current(j.registry.cell.data).Some? ==> CB.Fits(CB.Current(j.registry.cell.data).value, j.proposal)
    ensures RF.ParseStrict(j.registry.cell.data) == Ok(RF.Payload(0x02, old_.entries))
    ensures RF.ParseStrict(d.newData) == Ok(RF.Payload(0x02, new_.entries))
    ensures CB.Current(j.registry.cell.data) == Some(old_)
    ensures TR.Matches(old_.entries, new_.entries, d.newData, PC.Meaning(j.proposal, d.typeId, blake), blake)
    ensures j.proposal.action != PC.SetTreasury ==>
              GH.ParseTreasuryHash(d.newData, blake) == Ok(GH.CliTreasuryHash(d.header, blake))
    ensures j.proposal.action == PC.SetTreasury ==> GH.ParseTreasuryHash(d.newData, blake).Ok?
  {
    hide DraftOf, EncodeScript, TR.Matches, PC.Meaning, GH.ParseTreasuryHash, RF.ParsePayload, CB.Current, CB.NewData,
      CB.Fits, CB.Applicable, PC.Parse, PC.Encode, GH.CliParseHeader, GH.CliTreasuryHash, Approved, WI.AllEncodable,
      PayoutOf;
    old_ := DraftSays(j, blake, recover, d);
    CB.StrictCurrent(j.registry.cell.data, old_);
    AppliedBy(j.registry.cell.data, old_, j.proposal);
    new_ := CB.BuilderIsAccepted(j.registry.cell.data, old_, j.proposal, d.typeId, blake);
    PC.EncodedCellIsRead(j.proposal, d.typeId, blake);
    if j.proposal.action != PC.SetTreasury {
      GH.CliReadsWhatIsEnforced(old_.header, blake);
      TreasuryFromSlice(d.newData, old_.header, d.header, blake);
    }
  }

  lemma PayloadsUnder(j: Job, d: Draft, tx: Tx, self: Script, treasury: Script, blake: Hasher, recover: GL.Recover)
    returns (old_: CB.Registry, new_: CB.Registry)
    requires UnderTreasury(j, d, tx, self, treasury, blake, recover)
    requires PC.Encodable(j.proposal)
    requires CB.Current(j.registry.cell.data).Some? ==> CB.Fits(CB.Current(j.registry.cell.data).value, j.proposal)
    ensures RF.ParseStrict(j.registry.cell.data) == Ok(RF.Payload(0x02, old_.entries))
    ensures RF.ParseStrict(d.newData) == Ok(RF.Payload(0x02, new_.entries))
    ensures CB.Current(j.registry.cell.data) == Some(old_)
    ensures TR.Matches(old_.entries, new_.entries, d.newData, PC.Meaning(j.proposal, d.typeId, blake), blake)
    ensures j.proposal.action != PC.SetTreasury ==>
            GH.ParseTreasuryHash(d.newData, blake) == Ok(Some(ScriptHash(treasury, blake)))
    ensures j.proposal.action == PC.SetTreasury ==> GH.ParseTreasuryHash(d.newData, blake).Ok?
  {
    hide DraftOf, Reach, EncodeScript, MT.CollisionFree, PoolLocked, Hashed, Built, TR.Matches, PC.Meaning,
      GH.ParseTreasuryHash, RF.ParsePayload, CB.Current, CB.Fits, Genuine;
    old_, new_ := PayloadsOf(j, d, self, blake, recover);
  }

  lemma TreasuryFromSlice(data: seq<byte>, header: seq<byte>, h: GH.CliHeader, blake: Hasher)
    requires GH.HeaderSlice(data) == Some(header)
    requires GH.TreasuryHashOf(header, blake) == Ok(GH.CliTreasuryHash(h, blake))
    ensures GH.ParseTreasuryHash(data, blake) == Ok(GH.CliTreasuryHash(h, blake))
  {
    hide GH.HeaderSlice, GH.TreasuryHashOf, EncodeScript;
  }

  lemma AppliedBy(data: seq<byte>, old_: CB.Registry, p: PC.CliProposal)
    requires CB.Current(data) == Some(old_) && CB.NewData(data, p).Some? && PC.Encodable(p)
    ensures CB.Applicable(old_, p)
  {
    hide CB.Current, CB.Transformed, CB.Applicable;
    CB.CurrentExact(data, old_);
    CB.TransformedWhen(old_, p);
  }

  /** The proposal cell is the one input the proposal data hash picks out. */
  lemma FindsAnchor(j: Job, d: Draft, tx: Tx, self: Script, treasury: Script, blake: Hasher, recover: GL.Recover)
    requires UnderTreasury(j, d, tx, self, treasury, blake, recover)
    ensures |tx.inputs| >= 2 && FindInput(tx.inputs, blake(j.anchor.cell.data), blake) == Some(1)
    ensures blake(j.anchor.cell.data) != ZERO_32
  {
    hide UnderTreasury, WitnessOf, ScriptHash, WI.AllEncodable, RD.EncodeSince;
    Shape(j, d, tx, self, treasury, blake, recover);
    DataDiffers(j, d, tx, self, treasury, blake, recover);
    UniqueExact(tx.inputs, HasDataHash(blake(j.anchor.cell.data), blake), 1);
  }

  lemma DataDiffers(j: Job, d: Draft, tx: Tx, self: Script, treasury: Script, blake: Hasher, recover: GL.Recover)
    requires UnderTreasury(j, d, tx, self, treasury, blake, recover)
    ensures j.anchor.cell.data != [] && j.registry.cell.data != []
    ensures blake(j.anchor.cell.data) != blake(j.registry.cell.data) && blake(j.anchor.cell.data) != ZERO_32
  {
    hide DraftOf, Reach, PoolLocked, Built, Genuine, CB.Current, PayoutOf, Approved, PC.Encodable, WI.AllEncodable,
      AT.EncodeArgs, Planned, Plannable;
    var current := DraftSays(j, blake, recover, d);
    var anchor, a := AnchorOf(j, d, tx, self, treasury, blake, recover);
    CB.CurrentExact(j.registry.cell.data, current);
    CB.PrefixFields(j.registry.cell.data, current);
    assert j.anchor.cell.data[0..4][0] == 0x50 && j.registry.cell.data[0..4][0] == 0x42;
  }

  /** The registry is the one input and the one output of its type. */
  lemma OnlyRegistry(tx: Tx, self: Script, anchor: Script)
    requires |tx.inputs| >= 2 && |tx.outputs| == 2 && anchor != self
    requires tx.inputs[0].cell.typ == Some(self) && tx.inputs[1].cell.typ == Some(anchor)
    requires forall k :: 2 <= k < |tx.inputs| ==> tx.inputs[k].cell.typ == None
    requires tx.outputs[0].typ == Some(self) && tx.outputs[1].typ == None
    ensures BR.RegistryInputs(tx, self) == [0] && BR.RegistryOutputs(tx, self) == [0]
  {
    PositionsAre(tx.inputs, BR.InputHasType(self), Some(0));
    PositionsAre(tx.outputs, BR.HasType(self), Some(0));
  }

  /** The registry script reads the binding `execute` wrote; it insists on two non-zero ids. */
  lemma BindingRead(j: Job, tx: Tx, newData: seq<byte>, blake: Hasher)
    requires WI.Buildable(Submitted(j.votes)) && |tx.witnesses| > 0 && tx.witnesses[0] == WitnessOf(j, newData, blake)
    ensures BR.Binding(tx, 0, blake(j.registry.cell.data), blake(newData))
         == if j.idHash == ZERO_32 || j.digest == ZERO_32 then Err(BR.INVALID_WITNESS)
           else Ok(Gov1Of(j, newData, blake))
  {
    hide WA.GovernanceWitness, WA.EncodeGov1, WA.ParseGov1, WA.RegistryReads, WI.AllEncodable;
    WA.RoundTrip(Submitted(j.votes), Gov1Of(j, newData, blake));
  }

  /** The bound on the treasury's return is met. */
  lemma ReturnMet(j: Job, d: Draft, tx: Tx, self: Script, treasury: Script, blake: Hasher, recover: GL.Recover)
    requires UnderTreasury(j, d, tx, self, treasury, blake, recover)
    requires ScriptHash(j.anchor.cell.lock, blake) == ScriptHash(treasury, blake)
    ensures var h := ScriptHash(treasury, blake);
            |tx.outputs| == 2 && Saturated(tx.outputs, h, blake)
            >= RequiredReturn(Saturated(InputCells(tx.inputs), h, blake), j.registry.cell.capacity,
              tx.outputs[0].capacity)
  {
    hide UnderTreasury, ScriptHash, Sum, CapSum, Saturated, InputCells, RequiredReturn;
    var h := ScriptHash(treasury, blake);
    Shape(j, d, tx, self, treasury, blake, recover);
    TreasurySums(j, d, tx, self, treasury, blake, recover);
    InWithinReach(j, d, tx, self, treasury, blake, recover);
    SaturatedIsCappedSum(tx.outputs, h, blake);
    SaturatedIsCappedSum(InputCells(tx.inputs), h, blake);
    ReturnIsWeakest(Sum(InputCells(tx.inputs), h, blake), j.registry.cell.capacity, tx.outputs[0].capacity,
      Sum(tx.outputs, h, blake));
  }

  /** The new payload fits its length fields. */
  predicate PayloadFits(j: Job) {
    PC.Encodable(j.proposal) && CB.Current(j.registry.cell.data).Some?
      && CB.Fits(CB.Current(j.registry.cell.data).value, j.proposal)
  }

  /**
   * blacklist-registry accepts the built transaction iff the two ids are not zero and, for an add or remove, the
   * proposal cell is locked to the treasury.
   */
  lemma RegistryAccepts(j: Job, d: Draft, tx: Tx, self: Script, treasury: Script, blake: Hasher, recover: GL.Recover)
    requires UnderTreasury(j, d, tx, self, treasury, blake, recover) && PayloadFits(j)
    ensures BR.Entry(self, tx, blake).Ok?
       <==> j.idHash != ZERO_32 && j.digest != ZERO_32
            && (j.proposal.action == PC.SetTreasury
              || ScriptHash(j.anchor.cell.lock, blake) == ScriptHash(treasury, blake))
  {
    hide UnderTreasury, PayloadFits, ScriptHash, BR.RegistryInputs, BR.RegistryOutputs, BR.Update, BR.ParseTypeArgs,
      PC.ValidatePblk, PC.Parse, PC.Meaning, AT.EncodeArgs, PC.Encodable, Plannable, BR.GovernanceScript;
    Shape(j, d, tx, self, treasury, blake, recover);
    IsGenuine(j, d, tx, self, treasury, blake, recover);
    var anchor, a := AnchorOf(j, d, tx, self, treasury, blake, recover);
    OnlyRegistry(tx, self, anchor);
    UpdateAccepts(j, d, tx, self, treasury, blake, recover);
  }

  lemma FitsGives(j: Job)
    requires PayloadFits(j)
    ensures PC.Encodable(j.proposal) && CB.Current(j.registry.cell.data).Some?
    ensures CB.Fits(CB.Current(j.registry.cell.data).value, j.proposal)
  {
  }

  lemma UpdateAccepts(j: Job, d: Draft, tx: Tx, self: Script, treasury: Script, blake: Hasher, recover: GL.Recover)
    requires UnderTreasury(j, d, tx, self, treasury, blake, recover) && PayloadFits(j)
    ensures |tx.inputs| > 0 && |tx.outputs| > 0 && BR.ParseTypeArgs(self.args).Some?
    ensures BR.Update(BR.ParseTypeArgs(self.args).value, tx, 0, 0, blake).Ok?
       <==> j.idHash != ZERO_32 && j.digest != ZERO_32
            && (j.proposal.action == PC.SetTreasury
              || ScriptHash(j.anchor.cell.lock, blake) == ScriptHash(treasury, blake))
  {
    hide UnderTreasury, PayloadFits, ScriptHash, BR.ParseTypeArgs, PC.ValidatePblk, PC.Parse, PC.Meaning,
      AT.EncodeArgs, PC.Encodable, Plannable, BR.Binding, BR.Proposed, RF.ParsePayload, GH.ParseTreasuryHash,
      TR.Matches, CB.Current, CB.Fits, BR.GovernanceScript, WitnessOf, WI.AllEncodable;
    FitsGives(j);
    Shape(j, d, tx, self, treasury, blake, recover);
    IsGenuine(j, d, tx, self, treasury, blake, recover);
    var old_, new_ := PayloadsUnder(j, d, tx, self, treasury, blake, recover);
    WitnessUnder(j, d, tx, self, treasury, blake, recover);
    BindingRead(j, tx, d.newData, blake);
    var anchor, a := AnchorOf(j, d, tx, self, treasury, blake, recover);
    ProposedAccepts(j, d, tx, self, treasury, blake, recover, old_, new_);
  }

  lemma WitnessUnder(j: Job, d: Draft, tx: Tx, self: Script, treasury: Script, blake: Hasher, recover: GL.Recover)
    requires UnderTreasury(j, d, tx, self, treasury, blake, recover)
    ensures WI.Buildable(Submitted(j.votes)) && |tx.witnesses| >= 2 && tx.witnesses[0] == WitnessOf(j, d.newData, blake)
  {
    hide UnderTreasury, WitnessOf, ScriptHash, WI.AllEncodable, RD.EncodeSince, Assembled;
    AssemblyUnder(j, d, tx, self, treasury, blake, recover);
    AssembledShape(j, d.newData, d.pay, WitnessOf(j, d.newData, blake));
  }

  lemma ProposedAccepts(j: Job, d: Draft, tx: Tx, self: Script, treasury: Script, blake: Hasher, recover: GL.Recover,
      old_: CB.Registry, new_: CB.Registry)
    requires UnderTreasury(j, d, tx, self, treasury, blake, recover) && PC.Encodable(j.proposal)
    requires BR.ParseTypeArgs(self.args).Some?
    requires TR.Matches(old_.entries, new_.entries, d.newData, PC.Meaning(j.proposal, d.typeId, blake), blake)
    requires j.proposal.action != PC.SetTreasury ==>
            GH.ParseTreasuryHash(d.newData, blake) == Ok(Some(ScriptHash(treasury, blake)))
    requires j.proposal.action == PC.SetTreasury ==> GH.ParseTreasuryHash(d.newData, blake).Ok?
    ensures |tx.inputs| > 0 && |tx.outputs| > 0 && tx.outputs[0].data == d.newData
    ensures BR.Proposed(BR.ParseTypeArgs(self.args).value, tx, 0, 0, old_.entries, new_.entries,
                        GH.ParseTreasuryHash(d.newData, blake).value, Gov1Of(j, d.newData, blake), blake).Ok?
       <==> j.proposal.action == PC.SetTreasury || ScriptHash(j.anchor.cell.lock, blake) == ScriptHash(treasury, blake)
  {
    hide UnderTreasury, ScriptHash, BR.ParseTypeArgs, PC.ValidatePblk, PC.Parse, AT.EncodeArgs, PC.Encodable,
      Plannable, GH.ParseTreasuryHash, TR.Matches, WI.AllEncodable, WitnessOf, FindInput, Saturated, RequiredReturn,
      InputCells;
    Shape(j, d, tx, self, treasury, blake, recover);
    TypeIdUnder(j, d, tx, self, treasury, blake, recover);
    FindsAnchor(j, d, tx, self, treasury, blake, recover);
    var anchor, a := AnchorOf(j, d, tx, self, treasury, blake, recover);
    if ScriptHash(j.anchor.cell.lock, blake) == ScriptHash(treasury, blake) {
      ReturnMet(j, d, tx, self, treasury, blake, recover);
    }
  }

  lemma TypeIdUnder(j: Job, d: Draft, tx: Tx, self: Script, treasury: Script, blake: Hasher, recover: GL.Recover)
    requires UnderTreasury(j, d, tx, self, treasury, blake, recover)
    ensures BR.ParseTypeArgs(self.args).Some? && BR.ParseTypeArgs(self.args).value.typeId == d.typeId
  {
    hide DraftOf, Reach, PoolLocked, Built, CB.Current, PayoutOf, Approved, PC.Encodable, WI.AllEncodable,
      MT.CollisionFree, Hashed, BR.ParseTypeArgs;
    var current := DraftSays(j, blake, recover, d);
  }

  // ---- governance-lock ----

  /** A vote within the bounds only governance-lock checks. */
  predicate InBounds(v: WI.Vote, h: GH.CliHeader) {
    v.leafIndex < h.validatorCount && VM.TimestampOk(v.timestamp)
  }

  /** What governance-lock asks of the yes-votes beyond what `execute` has checked. */
  ghost predicate VotesAdmissible(j: Job, h: GH.CliHeader) {
    GL.DistinctKeys(Yes(j.votes)) && forall v <- j.votes :: v.vote == GL.YES ==> InBounds(v, h)
  }

  /** For an admissible vote the two sides check the same thing. */
  lemma SameVoteCheck(
      v: WI.Vote, lh: GH.LockHeader, h: GH.CliHeader, idHash: Bytes32, blake: Hasher, recover: GL.Recover)
    requires lh == GH.LockHeader(h.threshold, h.validatorCount, h.root)
    requires v.vote == GL.YES && VoteVerifies(v, h.root, idHash, blake, recover)
    ensures GL.Checked(v, lh, idHash, blake, recover) <==> InBounds(v, h)
  {
    hide MT.Verifies, VM.Canonical, VM.CliCanonical, VM.Ascii, VM.TimestampOk;
    assert VM.VoteWord(GL.YES) == Some(VM.Ascii("yes"));
    if VM.TimestampOk(v.timestamp) {
      VM.SameBytesOffChain(idHash, GL.YES, v.timestamp, v.pubkey);
    }
  }

  /** The lock accepts the submitted votes iff the yes-votes are admissible, and then they meet the threshold. */
  lemma VotesCount(j: Job, h: GH.CliHeader, blake: Hasher, recover: GL.Recover)
    requires Approved(j, h, blake, recover) && 1 <= h.threshold <= h.validatorCount
    ensures var lh := GH.LockHeader(h.threshold, h.validatorCount, h.root);
            var seen := GL.CountVotes(Submitted(j.votes), lh, j.idHash, blake, recover);
            (seen.Ok? <==> VotesAdmissible(j, h)) && (seen.Ok? ==> |seen.value| >= h.threshold)
  {
    hide VoteVerifies, GL.Checked, InBounds, GL.DistinctKeys, GL.CountVotes, Voters, Yes, Submitted;
    var lh := GH.LockHeader(h.threshold, h.validatorCount, h.root);
    var vs := Submitted(j.votes);
    GL.CountVotesExact(vs, lh, j.idHash, blake, recover);
    SubmittedKeys(j.votes);
    forall v: WI.Vote
      ensures v in vs <==> v in j.votes && v.vote == GL.YES
      ensures v in vs ==> (GL.Checked(v, lh, j.idHash, blake, recover) <==> InBounds(v, h))
    {
      SubmittedExact(j.votes, v);
      if v in vs {
        SameVoteCheck(v, lh, h, j.idHash, blake, recover);
      }
    }
    AllOrEach(vs, lh, h, j.idHash, blake, recover);
    DistinctIffAsMany(vs);
  }

  lemma SubmittedKeys(votes: seq<WI.Vote>)
    ensures Voters(Submitted(votes)) == Voters(Yes(votes)) && |Submitted(votes)| == |Yes(votes)|
    ensures GL.DistinctKeys(Submitted(votes)) <==> GL.DistinctKeys(Yes(votes))
  {
    hide GL.DistinctKeys, Voters, Yes;
    SortedAlike(Yes(votes));
  }

  lemma AllOrEach(
      vs: seq<WI.Vote>, lh: GH.LockHeader, h: GH.CliHeader, idHash: Bytes32, blake: Hasher, recover: GL.Recover)
    requires forall v <- vs :: GL.Checked(v, lh, idHash, blake, recover) <==> InBounds(v, h)
    ensures (forall i :: 0 <= i < |vs| ==> GL.Checked(vs[i], lh, idHash, blake, recover))
            <==> forall v <- vs :: InBounds(v, h)
  {
    hide GL.Checked, InBounds;
    assert forall i :: 0 <= i < |vs| ==> vs[i] in vs;
  }

  /** What the lock reads from the registry cell it guards. */
  lemma HeaderOf(j: Job, d: Draft, blake: Hasher, recover: GL.Recover)
    requires DraftOf(j, blake, recover) == Some(d)
    ensures GH.ParseLockHeader(j.registry.cell.data)
         == if 1 <= d.header.threshold <= d.header.validatorCount
            then Ok(GH.LockHeader(d.header.threshold, d.header.validatorCount, d.header.root))
            else Err(GH.ERR_INVALID_BLKL)
    ensures Approved(j, d.header, blake, recover)
  {
    hide DraftOf, CB.Current, PayoutOf, Approved, PC.Encodable, WI.AllEncodable, RF.EncodePayload, GH.LockHeaderOf,
      GH.CliParseHeader, GH.HeaderSlice;
    var current := DraftSays(j, blake, recover, d);
    CB.CurrentExact(j.registry.cell.data, current);
    CB.PrefixFields(j.registry.cell.data, current);
    GH.CliReadsWhatIsAuthorised(current.header);
  }

  lemma HeaderRead(j: Job, d: Draft, tx: Tx, self: Script, treasury: Script, blake: Hasher, recover: GL.Recover)
    requires UnderTreasury(j, d, tx, self, treasury, blake, recover)
    ensures GH.ParseLockHeader(j.registry.cell.data)
         == if 1 <= d.header.threshold <= d.header.validatorCount
            then Ok(GH.LockHeader(d.header.threshold, d.header.validatorCount, d.header.root))
            else Err(GH.ERR_INVALID_BLKL)
    ensures Approved(j, d.header, blake, recover)
  {
    hide DraftOf, Reach, PoolLocked, Built, MT.CollisionFree, Hashed, Genuine, Approved, GH.ParseLockHeader;
    HeaderOf(j, d, blake, recover);
  }

  /**
   * governance-lock accepts the built transaction iff the header's threshold is between one and the validator
   * count, the ids are not zero, the delay is a whole number of seconds, no key votes twice, every leaf index is in
   * range and every timestamp keeps to the lock's characters: the conditions `execute` leaves to the chain.
   */
  lemma LockAccepts(j: Job, d: Draft, tx: Tx, self: Script, treasury: Script, blake: Hasher, recover: GL.Recover)
    requires UnderTreasury(j, d, tx, self, treasury, blake, recover)
    ensures |tx.inputs| > 0 && tx.inputs[0].cell == j.registry.cell
    ensures GL.Entry(j.registry.cell.lock.args, tx, 0, blake, recover).Ok?
       <==> 1 <= d.header.threshold <= d.header.validatorCount && j.idHash != ZERO_32 && j.digest != ZERO_32
            && j.delayMs % 1000 == 0 && VotesAdmissible(j, d.header)
  {
    hide UnderTreasury, ScriptHash, WI.AllEncodable, RD.EncodeSince, RD.LockAcceptsSince, Approved, GL.CountVotes,
      FindInput, GH.ParseLockHeader, WA.LockReads, WA.ParseGov1, WA.EncodeGov1, VotesAdmissible, WA.GovernanceWitness,
      BR.ParseTypeArgs;
    var h := d.header;
    Shape(j, d, tx, self, treasury, blake, recover);
    IsGenuine(j, d, tx, self, treasury, blake, recover);
    HeaderRead(j, d, tx, self, treasury, blake, recover);
    WitnessUnder(j, d, tx, self, treasury, blake, recover);
    WA.RoundTrip(Submitted(j.votes), Gov1Of(j, d.newData, blake));
    FindsAnchor(j, d, tx, self, treasury, blake, recover);
    RD.BuiltDelayAccepted(j.delayMs, j.delayMs);
    if 1 <= h.threshold <= h.validatorCount {
      VotesCount(j, h, blake, recover);
    }
  }

  // ---- all four scripts ----

  /** Inserting or removing one entry of at most 255 identifier bytes adds at most 264 bytes. */
  lemma PayloadGrowth(j: Job, d: Draft, tx: Tx, self: Script, treasury: Script, blake: Hasher, recover: GL.Recover)
    requires UnderTreasury(j, d, tx, self, treasury, blake, recover) && j.proposal.action != PC.SetTreasury
    ensures |d.newData| <= |j.registry.cell.data| + 264
  {
    hide DraftOf, Reach, PoolLocked, Built, PayoutOf, Approved, WI.AllEncodable, MT.CollisionFree, Hashed, Genuine,
      CB.Current, GH.CliParseHeader, CB.Inserted, TR.Without, TR.HasId, RF.EncodeEntries, PC.Encode, RF.Ascending;
    var current := DraftSays(j, blake, recover, d);
    CB.CurrentExact(j.registry.cell.data, current);
    if j.proposal.action == PC.CliAdd {
      InsertedLength(current.entries, CB.NewEntry(j.proposal));
    } else {
      WithoutLength(current.entries, j.proposal.lockArgs);
    }
  }

  lemma {:induction false} InsertedLength(es: seq<RF.Entry>, e: RF.Entry)
    requires RF.WellSized(es) && |e.id| <= 255
    ensures RF.WellSized(CB.Inserted(es, e))
    ensures |RF.EncodeEntries(CB.Inserted(es, e))| == |RF.EncodeEntries(es)| + |e.id| + 9
  {
    CB.InsertedSized(es, e);
    if es == [] || !Lex.Less(es[0].id, e.id) {
      ConsTail(e, es);
    } else {
      assert forall x <- es[1..] :: x in es;
      InsertedLength(es[1..], e);
      ConsTail(es[0], CB.Inserted(es[1..], e));
    }
  }

  lemma {:induction false} WithoutLength(es: seq<RF.Entry>, id: seq<byte>)
    requires RF.WellSized(es)
    ensures RF.WellSized(TR.Without(es, id))
    ensures |RF.EncodeEntries(TR.Without(es, id))| <= |RF.EncodeEntries(es)|
  {
    CB.WithoutSized(es, id);
    if es != [] {
      assert forall x <- es[1..] :: x in es;
      WithoutLength(es[1..], id);
      Nil(TR.Without(es[1..], id));
      ConsTail(es[0], TR.Without(es[1..], id));
    }
  }

  lemma SmallGrowth(j: Job, d: Draft, tx: Tx, self: Script, treasury: Script, blake: Hasher, recover: GL.Recover)
    requires UnderTreasury(j, d, tx, self, treasury, blake, recover) && j.proposal.action != PC.SetTreasury
    requires CoversItself(j.registry.cell)
    ensures 100_000_000 * CellSize(j.registry.cell.lock, j.registry.cell.typ, |d.newData|)
         <= j.registry.cell.capacity + 26_400_000_000
  {
    hide UnderTreasury, Needed, ScriptHash, EncodeScript;
    TakenIs(j, d, treasury, blake);
    PayloadGrowth(j, d, tx, self, treasury, blake, recover);
    GrowthBounded(RequestOf(j, d.newData, ScriptHash(treasury, blake)), |j.registry.cell.data|);
  }

  /**
   * Each output of the built transaction pays for its own bytes: the registry cell exactly, the treasury's cell where
   * the treasury script has at most 84 bytes of args.
   */
  lemma OutputsCovered(j: Job, d: Draft, tx: Tx, self: Script, treasury: Script, blake: Hasher, recover: GL.Recover)
    requires UnderTreasury(j, d, tx, self, treasury, blake, recover)
    ensures |tx.outputs| == 2
    ensures tx.outputs[0].capacity
         == 100_000_000 * CellSize(tx.outputs[0].lock, tx.outputs[0].typ, |tx.outputs[0].data|)
    ensures |treasury.args| <= 84 ==> CoversItself(tx.outputs[1])
  {
    hide UnderTreasury, ScriptHash, EncodeScript, Plannable, Planned, PC.ValidatePblk, PC.Parse, PC.Encodable,
      AT.EncodeArgs, RD.EncodeSince;
    Shape(j, d, tx, self, treasury, blake, recover);
    var anchor, a := AnchorOf(j, d, tx, self, treasury, blake, recover);
    PlanCovers(RequestOf(j, d.newData, ScriptHash(treasury, blake)), treasury, blake);
  }

  /** What `execute` leaves to its caller and to the chain, for an add or remove. */
  ghost predicate Ready(j: Job, d: Draft, tx: Tx, self: Script, treasury: Script, blake: Hasher, recover: GL.Recover) {
    && UnderTreasury(j, d, tx, self, treasury, blake, recover) && j.proposal.action != PC.SetTreasury
    && PayloadFits(j) && TreasuryOwned(j, treasury) && CoversItself(j.registry.cell)
    && (j.anchor.cell.typ.Some? ==> NamesAnchor(treasury, j.anchor.cell.typ.value))
    && VotesAdmissible(j, d.header) && 1 <= d.header.threshold <= d.header.validatorCount
    && j.idHash != ZERO_32 && j.digest != ZERO_32 && j.delayMs % 1000 == 0
  }

  /**
   * The execute transaction of an add or remove passes every script it runs: registry, governance lock,
   * proposal anchor and treasury lock, whenever the delay is a whole number of seconds, the votes are admissible,
   * the header's threshold is sound, the anchor is treasury-locked and the registry cell pays for its bytes.
   */
  lemma AllScriptsAccept(j: Job, d: Draft, tx: Tx, self: Script, treasury: Script, blake: Hasher, recover: GL.Recover)
    requires Ready(j, d, tx, self, treasury, blake, recover)
    ensures |tx.inputs| > 0 && tx.inputs[0].cell == j.registry.cell
    ensures BR.Entry(self, tx, blake).Ok?
    ensures GL.Entry(j.registry.cell.lock.args, tx, 0, blake, recover).Ok?
    ensures j.anchor.cell.typ.Some? && AT.Entry(j.anchor.cell.typ.value, tx, blake).Ok?
    ensures TL.Entry(treasury, tx, blake).Ok?
    ensures TotalCapacity(InputCells(tx.inputs)) == TotalCapacity(tx.outputs) + 100_000
  {
    hide UnderTreasury, PayloadFits, ScriptHash, VotesAdmissible, BR.Entry, GL.Entry, AT.Entry, TL.Entry,
      TotalCapacity, InputCells, CoversItself, CellSize, NamesAnchor;
    RegistryAccepts(j, d, tx, self, treasury, blake, recover);
    LockAccepts(j, d, tx, self, treasury, blake, recover);
    AnchorAccepts(j, d, tx, self, treasury, blake, recover);
    SmallGrowth(j, d, tx, self, treasury, blake, recover);
    TreasuryAccepts(j, d, tx, self, treasury, blake, recover);
    BalancedUnder(j, d, tx, self, treasury, blake, recover);
  }

  lemma BalancedUnder(j: Job, d: Draft, tx: Tx, self: Script, treasury: Script, blake: Hasher, recover: GL.Recover)
    requires UnderTreasury(j, d, tx, self, treasury, blake, recover)
    ensures TotalCapacity(InputCells(tx.inputs)) == TotalCapacity(tx.outputs) + 100_000
  {
    hide DraftOf, TotalCapacity, InputCells, Reach, MT.CollisionFree, Hashed, Genuine, PoolLocked, Built;
    Balanced(j, blake, recover);
  }
}
