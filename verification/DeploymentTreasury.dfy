/**
 * The concrete deployment with a treasury again: a transaction that spends an aged anchor and treasury cells, with no
 * witness and no governed input at all. Both scripts it runs accept it, and it takes as much from the treasury as any
 * one transaction may take; what the treasury lock trusts an anchor to have checked, the anchor script does not
 * check.
 */
module DeploymentTreasury {
  import opened Bytes
  import opened Scan
  import opened Capacity
  import opened Chain
  import opened Molecule
  import opened Ledger
  import opened Deployment
  import opened DeploymentRuns
  import opened DeploymentJob
  import opened TreasuryRuns
  import AT = AnchorType
  import EA = ExecuteAccepted
  import LT = LedgerTotal
  import PC = ProposalCell
  import RD = ReviewDelay
  import TL = TreasuryLock

  const FUND: u64 := 200_000_000_000
  const TAKEN: u64 := 100_000_000_000

  /** Anyone's lock. */
  function Anyone(): Script { Script(Code(0x25), 0, []) }

  /** An anchor under that lock. */
  function Loose(): Cell { Cell(1, Anyone(), Some(Anchor()), ProposalData(4, 7)) }

  function Fund(capacity: u64): Cell { Cell(capacity, Treasury(), None, []) }

  function Taken(): Cell { Cell(TAKEN, Anyone(), None, []) }

  function TakingTx(): Tx {
    Tx([Input(At(0x43), RD.EncodeSince(0), Loose()), Input(At(0x46), 0, Fund(FUND))],
       [Fund(FUND - TAKEN), Taken()], [])
  }

  function FundState(): State {
    State(map[At(0x43) := Loose(), At(0x46) := Fund(FUND)], {At(0x43), At(0x46)})
  }

  lemma TakingShape()
    ensures |TakingTx().inputs| == 2 && |TakingTx().outputs| == 2 && TakingTx().witnesses == []
    ensures TakingTx().inputs[0] == Input(At(0x43), RD.EncodeSince(0), Loose())
    ensures TakingTx().inputs[1].outPoint == At(0x46) && TakingTx().inputs[1].cell == Fund(FUND)
    ensures TakingTx().outputs[0] == Fund(FUND - TAKEN) && TakingTx().outputs[1] == Taken()
  {
    hide RD.EncodeSince, Loose, Fund, Taken;
  }

  lemma CellShapes(capacity: u64)
    ensures Loose().lock == Anyone() && Loose().typ == Some(Anchor()) && Loose().data == ProposalData(4, 7)
    ensures Loose().capacity == 1
    ensures Fund(capacity).lock == Treasury() && Fund(capacity).typ == None && Fund(capacity).capacity == capacity
    ensures Taken().lock == Anyone() && Taken().typ == None && Taken().capacity == TAKEN
  {
    hide ProposalData, Treasury, Anchor, Anyone;
  }

  /** Only the fund is locked to the treasury. */
  lemma LocksApart()
    ensures Anyone() != Treasury() && ScriptHash(Anyone(), Toy) != ScriptHash(Treasury(), Toy)
  {
    hide Toy, EncodeScript, Treasury;
    ScriptMark(Anyone());
    ScriptMark(Treasury());
  }

  lemma AnchorArgsAre()
    ensures Anchor().args == AT.EncodeArgs(AT.AnchorArgs(TypeId(4), ScriptHash(Treasury(), Toy), 0))
    ensures Treasury().args[32..64] == Code(0x23)
  {
    hide Toy, EncodeScript, AT.EncodeArgs;
  }

  // ---- the scripts ----

  lemma TakingSums()
    ensures |TakingTx().outputs| == 2
    ensures TL.GroupSum(TakingTx().inputs, Treasury()) == FUND
    ensures Sum(TakingTx().outputs, ScriptHash(Treasury(), Toy), Toy) == FUND - TAKEN
  {
    hide TakingTx, Loose, Fund, Taken, Anyone, Treasury, ScriptHash, Toy;
    TakingShape();
    CellShapes(FUND);
    CellShapes(FUND - TAKEN);
    LocksApart();
    TwoInputSum(TakingTx().inputs, Treasury());
    EA.SumOfTwo(TakingTx().outputs[0], TakingTx().outputs[1], ScriptHash(Treasury(), Toy), Toy);
    assert TakingTx().outputs == [TakingTx().outputs[0], TakingTx().outputs[1]];
  }

  lemma TwoInputSum(inputs: seq<Input>, self: Script)
    requires |inputs| == 2 && inputs[0].cell.lock != self && inputs[1].cell.lock == self
    ensures TL.GroupSum(inputs, self) == inputs[1].cell.capacity
  {
    assert inputs[..1][..0] == [] && inputs[..1][0] == inputs[0];
    assert TL.GroupSum(inputs[..1], self) == 0;
  }

  lemma AnchorSpent()
    ensures |Treasury().args| == 64 && TL.SpendsAnchor(TakingTx(), Treasury(), Toy)
  {
    hide TakingTx, Loose, Fund, Taken, Anyone, Treasury, Anchor, ScriptHash, Toy, TL.IsAnchorTypeFor, EncodeScript,
      Code, AT.EncodeArgs, TypeId;
    TakingShape();
    CellShapes(FUND);
    AnchorArgsAre();
    var hash := ScriptHash(Treasury(), Toy);
    TL.CliAnchorIsRecognised(Anchor(), AT.AnchorArgs(TypeId(4), hash, 0), Treasury().args[32..64], hash);
    assert TL.SpentAnchor(TakingTx().inputs[0], Treasury().args[32..64], hash);
  }

  lemma TreasuryAgrees()
    ensures TL.Entry(Treasury(), TakingTx(), Toy).Ok?
  {
    hide TakingTx, Treasury, ScriptHash, Toy, TL.SpendsAnchor, TL.CreatesAnchor, TL.GroupSum, Sum, TL.Entry;
    AnchorSpent();
    TakingSums();
    TL.SpendExact(Treasury(), TakingTx(), Toy);
  }

  /** The anchor stands alone among the inputs of its type. */
  lemma AnchorAlone()
    ensures |TakingTx().inputs| == 2 && |TakingTx().outputs| == 2
    ensures var p := AT.HasTypeHash(ScriptHash(Anchor(), Toy), Toy);
            Positions(InputCells(TakingTx().inputs), p) == [0] && Positions(TakingTx().outputs, p) == []
  {
    hide TakingTx, Loose, Fund, Taken, Anyone, Treasury, Anchor, ScriptHash, Toy;
    TakingShape();
    CellShapes(FUND);
    CellShapes(FUND - TAKEN);
    var p := AT.HasTypeHash(ScriptHash(Anchor(), Toy), Toy);
    PositionsAre(InputCells(TakingTx().inputs), p, Some(0));
    PositionsAre(TakingTx().outputs, p, None);
  }

  lemma AnchorAgrees()
    ensures AT.Entry(Anchor(), TakingTx(), Toy).Ok?
  {
    hide TakingTx, Loose, Fund, Taken, Treasury, Anchor, ScriptHash, Toy, AT.EncodeArgs, TypeId, PC.ValidatePblk,
      PC.Parse, PC.Meaning, Saturated, AT.RunningArgs, AT.ParseArgs, RD.EncodeSince, RD.AnchorSinceMs, ProposalData,
      InputCells, Positions, RD.LockAcceptsSince;
    var a := AT.AnchorArgs(TypeId(4), ScriptHash(Treasury(), Toy), 0);
    TakingShape();
    CellShapes(FUND);
    AnchorArgsAre();
    AT.RunningArgsAre(Anchor());
    AT.ArgsExact(Anchor().args, a);
    AnchorAlone();
    AnchoredData();
    RD.BuiltDelayAccepted(0, 0);
    RD.SameWords(RD.EncodeSince(0), 0);
  }

  lemma AnchoredData()
    ensures PC.ValidatePblk(ProposalData(4, 7), TypeId(4))
  {
    hide Toy, TypeId, PC.Meaning, PC.Parse, PC.ValidatePblk;
    PC.EncodedCellIsRead(Adding(7), TypeId(4), Toy);
  }

  // ---- the ledger ----

  lemma NothingRuns()
    ensures |TakingTx().inputs| == 2 && |TakingTx().outputs| == 2
    ensures forall i :: 0 <= i < 2 ==> !IsGoverned(Deployed(), TakingTx().inputs[i].cell)
    ensures forall i :: 0 <= i < 2 ==> !IsRegistry(Deployed(), TakingTx().inputs[i].cell)
    ensures forall i :: 0 <= i < 2 ==> !IsRegistry(Deployed(), TakingTx().outputs[i])
  {
    hide TakingTx, Loose, Fund, Taken, Treasury, Anchor, Code;
    TakingShape();
    CellShapes(FUND);
    CellShapes(FUND - TAKEN);
    LocksDiffer();
    CodesDiffer(0x25, GOVERNANCE);
  }

  lemma FundStateShape()
    ensures FundState().live.Keys == {At(0x43), At(0x46)} && At(0x43) != At(0x46)
    ensures FundState().live[At(0x43)] == Loose() && FundState().live[At(0x46)] == Fund(FUND)
    ensures FundState().used == {At(0x43), At(0x46)}
    ensures OutPoint(Code(0x51), 0) !in FundState().used && OutPoint(Code(0x51), 1) !in FundState().used
  {
    hide Loose, Fund, Code;
    CodesDiffer(0x43, 0x46);
    CodesDiffer(0x43, 0x51);
    CodesDiffer(0x46, 0x51);
  }

  lemma FundKept()
    ensures Inv(Deployed(), FundState())
  {
    hide FundState, Loose, Fund, At, Code, IsRegistry, IsGoverned, Deployed, WellKept;
    TakingShape();
    FundStateShape();
    NothingRuns();
  }

  /** Where no cell runs a script of the rules, nothing can refuse. */
  lemma NobodyRefuses(r: Rules, tx: Tx)
    requires forall i :: 0 <= i < |tx.inputs| ==> !IsGoverned(r, tx.inputs[i].cell) && !IsRegistry(r, tx.inputs[i].cell)
    requires forall o :: 0 <= o < |tx.outputs| ==> !IsRegistry(r, tx.outputs[o])
    ensures RegistryScriptsAccept(r, tx) && GovernanceLocksAccept(r, tx)
  {
  }

  lemma TakingApplies()
    ensures Inv(Deployed(), FundState()) && CanApply(Deployed(), FundState(), TakingTx(), Code(0x51))
  {
    hide TakingTx, FundState, Loose, Fund, Taken, At, Code, Created, IsRegistry, IsGoverned, Deployed, Inv,
      RegistryScriptsAccept, GovernanceLocksAccept;
    TakingShape();
    FundStateShape();
    NothingRuns();
    FundKept();
    NobodyRefuses(Deployed(), TakingTx());
  }

  /**
   * Nothing governed is spent and nobody has voted, yet the anchor and the treasury lock accept: the treasury has 1000
   * CKB less afterwards, the most that a transaction can take.
   */
  lemma TakenWithoutVotes()
    ensures Inv(Deployed(), FundState()) && CanApply(Deployed(), FundState(), TakingTx(), Code(0x51))
    ensures TL.Entry(Treasury(), TakingTx(), Toy).Ok? && AT.Entry(Anchor(), TakingTx(), Toy).Ok?
    ensures forall i :: 0 <= i < |TakingTx().inputs| ==> !IsGoverned(Deployed(), TakingTx().inputs[i].cell)
    ensures TakingTx().witnesses == [] && LockRuns(TakingTx(), Treasury(), Toy)
    ensures var w := Held(ScriptHash(Treasury(), Toy), Toy);
            LT.Total(Next(FundState(), TakingTx(), Code(0x51)).live, w) + TAKEN
            == LT.Total(FundState().live, w)
  {
    hide TakingTx, FundState, Treasury, Anchor, ScriptHash, Toy, TL.Entry, AT.Entry, CanApply, Inv, IsGoverned,
      LT.Total, Next, Sum, TL.GroupSum, Held, LT.WeightOf, Code, LockRuns;
    TakingShape();
    TakingApplies();
    TreasuryAgrees();
    AnchorAgrees();
    NothingRuns();
    TakingSums();
    InputsHeld();
    LockDoesRun();
    var (tx, hash) := (TakingTx(), ScriptHash(Treasury(), Toy));
    KeysUsed();
    LT.StepTotal(Deployed(), FundState(), tx, Code(0x51), Held(hash, Toy));
    HeldIsSum(InputCells(tx.inputs), hash, Toy);
    HeldIsSum(tx.outputs, hash, Toy);
  }

  lemma LockDoesRun()
    ensures LockRuns(TakingTx(), Treasury(), Toy)
  {
    hide TakingTx, Loose, Fund, Treasury, ScriptHash, Toy, Anyone, TL.GroupSum, TL.Entry;
    TakingShape();
    CellShapes(FUND);
    LocksApart();
    TakingSums();
    TreasuryAgrees();
  }

  lemma KeysUsed()
    ensures FundState().live.Keys <= FundState().used
  {
    hide At, Loose, Fund;
  }

  lemma InputsHeld()
    ensures Sum(InputCells(TakingTx().inputs), ScriptHash(Treasury(), Toy), Toy) == FUND
  {
    hide TakingTx, Loose, Fund, Treasury, ScriptHash, Toy, Anyone, Sum, TL.GroupSum;
    TakingShape();
    CellShapes(FUND);
    LocksApart();
    TakingSums();
    GroupIsSum(TakingTx().inputs, Treasury(), Toy);
  }
}
