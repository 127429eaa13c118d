/**
 * The concrete deployment again: one registry, two proposal cells, and one vote. The votes for one proposal, cast once,
 * carry out two, since a vote does not say which proposal cell, which roots or which delay it is cast for.
 */
module DeploymentVotes {
  import opened Bytes
  import opened Chain
  import opened Ledger
  import opened Authorisation
  import opened Deployment
  import opened DeploymentRuns
  import opened DeploymentShared
  import BR = BlacklistRegistry
  import GH = GovernanceHeader
  import GL = GovernanceLock
  import MT = MerkleTree
  import PC = ProposalCell
  import RD = ReviewDelay
  import RF = RegistryFormat
  import WA = WitnessArgs
  import WI = Witness

  function AddBound(es: seq<RF.Entry>, id: byte): WA.Gov1
    requires Grows(es, id)
  {
    Bound(4, Data(Plain(2), es), Data(Plain(2), After(es, id)), id)
  }

  /** Registry 4 takes in `id`, by the first validator's vote. */
  function AddTx(es: seq<RF.Entry>, id: byte, from: OutPoint, anchored: OutPoint): Tx
    requires Grows(es, id)
  {
    Tx([Input(from, 0, RegistryCell(4, Plain(2), es, 1)), Input(anchored, RD.EncodeSince(0), ProposalCell(4, id))],
       [RegistryCell(4, Plain(2), After(es, id), 1)],
       [WA.GovernanceWitness([Vote()], AddBound(es, id))])
  }

  ghost predicate IsAddTx(tx: Tx, es: seq<RF.Entry>, id: byte)
    requires Grows(es, id)
  {
    && |tx.inputs| == 2 && |tx.outputs| == |tx.witnesses| == 1
    && tx.inputs[0].cell == RegistryCell(4, Plain(2), es, 1) && tx.inputs[1].cell == ProposalCell(4, id)
    && tx.inputs[1].since == RD.EncodeSince(0) && tx.outputs[0] == RegistryCell(4, Plain(2), After(es, id), 1)
    && tx.witnesses[0] == WA.GovernanceWitness([Vote()], AddBound(es, id))
  }

  lemma IsAdd(es: seq<RF.Entry>, id: byte, from: OutPoint, anchored: OutPoint)
    requires Grows(es, id)
    ensures IsAddTx(AddTx(es, id, from, anchored), es, id)
  {
    hide RegistryCell, ProposalCell, WA.GovernanceWitness, AddBound, RD.EncodeSince, Plain, After, Grows;
  }

  /** The cells, taken apart. */
  lemma AddCells(tx: Tx, es: seq<RF.Entry>, id: byte)
    requires Grows(es, id) && IsAddTx(tx, es, id)
    ensures |tx.inputs| == 2 && |tx.outputs| == |tx.witnesses| == 1 && tx.inputs[1].since == RD.EncodeSince(0)
    ensures tx.witnesses[0] == WA.GovernanceWitness([Vote()], AddBound(es, id))
    ensures var c := tx.inputs[0].cell; c.lock == Lock() && c.typ == Some(Self(4)) && c.data == Data(Plain(2), es)
    ensures var c := tx.outputs[0];
            c.lock == Lock() && c.typ == Some(Self(4)) && c.data == Data(Plain(2), After(es, id))
    ensures var c := tx.inputs[1].cell; c.typ == None && c.data == ProposalData(4, id)
    ensures IsRegistry(Deployed(), tx.inputs[0].cell) && IsGoverned(Deployed(), tx.inputs[0].cell)
    ensures !IsRegistry(Deployed(), tx.inputs[1].cell) && !IsGoverned(Deployed(), tx.inputs[1].cell)
  {
    hide Lock, Self, Data, Plain, ProposalData, After, WA.GovernanceWitness, AddBound, Deployed, IsRegistry, IsGoverned;
    CodesOf(4, Plain(2), es, 1, id);
  }

  lemma AddFound(tx: Tx, es: seq<RF.Entry>, id: byte)
    requires Grows(es, id) && IsAddTx(tx, es, id)
    ensures FindInput(tx.inputs, Toy(ProposalData(4, id)), Toy) == Some(1)
  {
    hide Toy, ProposalData, Data, FindInput, Plain, Lock, Self, After, IsAddTx;
    AddCells(tx, es, id);
    RegistryMark(2, es);
    ProposalMark(4, id);
    FoundAt(tx.inputs, 1, ProposalData(4, id));
  }

  lemma AddUpdates(tx: Tx, es: seq<RF.Entry>, id: byte)
    requires Grows(es, id) && IsAddTx(tx, es, id)
    ensures BR.Update(TypeArgs(4), tx, 0, 0, Toy).Ok?
    ensures BR.ProposalOf(tx, 0, Toy) == Some(PC.Proposal(TypeId(4), PC.Add, [id], 0, None))
  {
    hide Toy, ProposalData, Data, FindInput, Plain, Lock, Self, After, TypeId, BR.Update, BR.ProposalOf, PC.Meaning,
      Bound, WA.GovernanceWitness, GH.CliWritable, WI.AllEncodable, Grows, IsAddTx, RD.EncodeSince, IsRegistry,
      IsGoverned;
    AddCells(tx, es, id);
    AddFound(tx, es, id);
    PlainWritable(2);
    OneVote(4);
    Updates(4, Plain(2), es, id, tx, 0, 0, 1, [Vote()]);
    MeaningIs(4, id);
  }

  lemma AddTypes(tx: Tx, es: seq<RF.Entry>, id: byte)
    requires Grows(es, id) && IsAddTx(tx, es, id)
    ensures RegistryScriptsAccept(Deployed(), tx)
    ensures Executed(Self(4), tx, Toy) == [PC.Proposal(TypeId(4), PC.Add, [id], 0, None)]
  {
    hide Toy, BR.RegistryInputs, BR.RegistryOutputs, TypeId, BR.Update, BR.ProposalOf, Self, BR.ParseTypeArgs,
      TypeArgs, IsRegistry, IsGoverned, IsAddTx, Data, ProposalData, Plain, Lock, After, RegistryScriptsAccept;
    AddCells(tx, es, id);
    AddUpdates(tx, es, id);
    PositionsOf(tx, Self(4), 0);
    SelfArgs(4);
    ScriptsAccept(Deployed(), tx, {Self(4)});
  }

  lemma AddLock(tx: Tx, es: seq<RF.Entry>, id: byte)
    requires Grows(es, id) && IsAddTx(tx, es, id)
    ensures GovernanceLocksAccept(Deployed(), tx) && VotesAt(tx, 0) == [Vote()] && IsFirst(tx, 0)
  {
    hide Lock, GL.Entry, IsGoverned, Toy, Recovers, Data, WA.GovernanceWitness, WA.LockReads, FindInput,
      RD.EncodeSince, Bound, GH.CliWritable, ProposalData, After, Self, IsAddTx;
    AddCells(tx, es, id);
    AddFound(tx, es, id);
    PlainWritable(2);
    LockAccepts(Plain(2), es, Data(Plain(2), After(es, id)), 4, id, tx, 0, 1);
    LockArgs();
  }

  lemma AddBinding(tx: Tx, es: seq<RF.Entry>, id: byte)
    requires Grows(es, id) && IsAddTx(tx, es, id)
    ensures BoundAt(tx, 0) == Some(AddBound(es, id))
  {
    hide Data, WA.GovernanceWitness, WA.RegistryReads, WA.ParseGov1, Bound, BR.Binding, Plain, WI.AllEncodable;
    OneVote(4);
    BindingHolds(4, Data(Plain(2), es), Data(Plain(2), After(es, id)), id, tx, 0, [Vote()]);
  }

  lemma UnsignedOf(r: Rules, s: State, tx: Tx, h: Bytes32)
    requires |tx.inputs| == 2 && |tx.outputs| == 1 && RegistryScriptsAccept(r, tx) && OutPoint(h, 0) !in s.used
    requires tx.inputs[0].outPoint != tx.inputs[1].outPoint
    requires tx.inputs[0].outPoint in s.live && s.live[tx.inputs[0].outPoint] == tx.inputs[0].cell
    requires tx.inputs[1].outPoint in s.live && s.live[tx.inputs[1].outPoint] == tx.inputs[1].cell
    ensures Unsigned(r, s, tx, h)
  {
    hide RegistryScriptsAccept, Created;
  }

  /** Where the cells are live and the outpoint of the output is new, the transaction can be applied. */
  lemma AddApplies(s: State, es: seq<RF.Entry>, id: byte, from: OutPoint, anchored: OutPoint, h: Bytes32)
    requires Grows(es, id) && from != anchored && from in s.live && anchored in s.live
    requires s.live[from] == RegistryCell(4, Plain(2), es, 1) && s.live[anchored] == ProposalCell(4, id)
    requires OutPoint(h, 0) !in s.used
    ensures CanApply(Deployed(), s, AddTx(es, id, from, anchored), h)
  {
    hide RegistryCell, ProposalCell, RegistryScriptsAccept, GovernanceLocksAccept, WA.GovernanceWitness, AddBound,
      RD.EncodeSince, Plain, After, Created, IsAddTx, Grows, Deployed, Unsigned;
    var tx := AddTx(es, id, from, anchored);
    assert IsAddTx(tx, es, id) by {
      IsAdd(es, id, from, anchored);
    }
    AddTypes(tx, es, id);
    AddLock(tx, es, id);
    UnsignedOf(Deployed(), s, tx, h);
  }

  // ---- one vote, two updates ----

  /** Registry 4, and two proposal cells for it. */
  function OneState(): State {
    State(map[At(0x41) := RegistryCell(4, Plain(2), [], 1), At(0x43) := ProposalCell(4, 7),
      At(0x44) := ProposalCell(4, 8)],
          {At(0x41), At(0x43), At(0x44), Seed(4)})
  }

  lemma OneStateShape()
    ensures OneState().live.Keys == {At(0x41), At(0x43), At(0x44)} && Seed(4) !in OneState().live
    ensures OneState().live[At(0x41)] == RegistryCell(4, Plain(2), [], 1)
    ensures OneState().live[At(0x43)] == ProposalCell(4, 7) && OneState().live[At(0x44)] == ProposalCell(4, 8)
    ensures OneState().used == {At(0x41), At(0x43), At(0x44), Seed(4)}
  {
    hide RegistryCell, ProposalCell, At, Seed;
    PointsDiffer();
  }

  lemma OneStateKept()
    ensures Inv(Deployed(), OneState())
  {
    hide OneState, RegistryCell, ProposalCell, At, Seed, WellKept, IsRegistry, IsGoverned, Deployed, TypeIdOf, TypeId,
      GH.CliWritable, Plain;
    OneStateShape();
    PlainWritable(2);
    RegistryKept(OneState(), 4, Plain(2), [], 1);
    CodesOf(4, Plain(2), [], 1, 7);
    CodesOf(4, Plain(2), [], 1, 8);
  }

  function First(): Tx
  {
    FirstAdded(7);
    AddTx([], 7, At(0x41), At(0x43))
  }

  function Second(): Tx
  {
    SecondAdded(7, 8);
    AddTx(Added(7), 8, OutPoint(Code(0x51), 0), At(0x44))
  }

  function Steps(): seq<Step> { [Step(First(), Code(0x51)), Step(Second(), Code(0x52))] }

  lemma CodeByte(b: byte)
    ensures Code(b)[0] == b
  {
  }

  lemma Fresh()
    ensures OutPoint(Code(0x51), 0) !in OneState().used && OutPoint(Code(0x52), 0) !in OneState().used
    ensures At(0x41) != At(0x43) && OutPoint(Code(0x51), 0) != At(0x44)
            && OutPoint(Code(0x51), 0) != OutPoint(Code(0x52), 0)
    ensures At(0x44) != At(0x41) && At(0x44) != At(0x43)
  {
    hide OneState, Code;
    OneStateShape();
    forall b: byte
      ensures Code(b)[0] == b
    {
      CodeByte(b);
    }
  }

  lemma FirstApplies()
    ensures CanApply(Deployed(), OneState(), First(), Code(0x51))
  {
    hide OneState, CanApply, RegistryCell, ProposalCell, AddTx, At, Code, Plain, Grows;
    OneStateShape();
    Fresh();
    FirstAdded(7);
    AddApplies(OneState(), [], 7, At(0x41), At(0x43), Code(0x51));
  }

  /** The ledger in between. */
  function Between(): State {
    IsAdd([], 7, At(0x41), At(0x43));
    Next(OneState(), First(), Code(0x51))
  }

  lemma BetweenShape()
    ensures OutPoint(Code(0x51), 0) in Between().live && At(0x44) in Between().live
    ensures Between().live[OutPoint(Code(0x51), 0)] == RegistryCell(4, Plain(2), Added(7), 1)
    ensures Between().live[At(0x44)] == ProposalCell(4, 8) && OutPoint(Code(0x52), 0) !in Between().used
  {
    hide OneState, RegistryCell, ProposalCell, At, Code, Plain, Grows, Created, Spent, After, WA.GovernanceWitness,
      AddBound, RD.EncodeSince;
    OneStateShape();
    Fresh();
    FirstAdded(7);
    var tx := First();
    if At(0x44) in Spent(tx.inputs) {
      var i := SpentExact(tx.inputs, At(0x44));
      assert false;
    }
  }

  lemma SecondApplies()
    ensures CanApply(Deployed(), Between(), Second(), Code(0x52))
  {
    hide Between, CanApply, RegistryCell, ProposalCell, AddTx, At, Code, Plain, Grows;
    BetweenShape();
    Fresh();
    SecondAdded(7, 8);
    AddApplies(Between(), Added(7), 8, OutPoint(Code(0x51), 0), At(0x44), Code(0x52));
  }

  lemma TargetByte(id: byte)
    ensures Toy(ProposalData(4, id))[27] == id
  {
    hide Fill, TypeId, Le8;
    var d := ProposalData(4, id);
    assert |d| == 80 && d[39] == id && Toy(d)[27] == d[12..43][27];
  }

  /** The three payloads of the run have three hashes. */
  lemma RootsDiffer()
    ensures Toy(Data(Plain(2), []))[31] == 48 && Toy(Data(Plain(2), Added(7)))[31] == 58
    ensures Grows(Added(7), 8) && Toy(Data(Plain(2), After(Added(7), 8)))[31] == 68
  {
    hide Data, Toy;
    var es := [RF.Entry([7], 0), RF.Entry([8], 0)];
    SecondAdded(7, 8);
    DataHashEnds(Plain(2), []);
    DataHashEnds(Plain(2), Added(7));
    DataHashEnds(Plain(2), es);
    assert es[1..] == [RF.Entry([8], 0)] && es[1..][1..] == [] && Added(7)[1..] == [];
    assert |RF.EncodeEntries([])| == 0;
    assert |RF.EncodeEntries(Added(7))| == 10;
    assert |RF.EncodeEntries(es[1..])| == 10;
    assert |GH.CliEncodeHeader(Plain(2))| == 37;
  }

  lemma SameVote()
    ensures VotesAt(First(), 0) == VotesAt(Second(), 0) == [Vote()]
    ensures BoundAt(First(), 0).Some? && BoundAt(Second(), 0).Some?
    ensures BoundAt(First(), 0).value.proposalIdHash == BoundAt(Second(), 0).value.proposalIdHash
    ensures BoundAt(First(), 0).value.proposalDataHash != BoundAt(Second(), 0).value.proposalDataHash
    ensures BoundAt(First(), 0).value.oldRoot != BoundAt(Second(), 0).value.oldRoot
    ensures BoundAt(First(), 0).value.newRoot != BoundAt(Second(), 0).value.newRoot
  {
    hide AddTx, Data, VotesAt, BoundAt, Toy, ProposalData, Plain, Grows, IsAddTx, GovernanceLocksAccept;
    FirstAdded(7);
    SecondAdded(7, 8);
    IsAdd([], 7, At(0x41), At(0x43));
    IsAdd(Added(7), 8, OutPoint(Code(0x51), 0), At(0x44));
    AddLock(First(), [], 7);
    AddLock(Second(), Added(7), 8);
    AddBinding(First(), [], 7);
    AddBinding(Second(), Added(7), 8);
    TargetByte(7);
    TargetByte(8);
    RootsDiffer();
  }

  /**
   * A yes-vote says nothing of what it is for but the proposal id. On a ledger that keeps the invariant, the one vote
   * cast serves twice: bound to one proposal cell it adds an identifier, and the same witness votes, bound to other
   * roots and another proposal cell under the same id, then add a second identifier.
   */
  lemma OneVoteTwice()
    ensures Inv(Deployed(), OneState()) && IsRun(Deployed(), OneState(), Steps())
    ensures VotesAt(First(), 0) == VotesAt(Second(), 0) == [Vote()]
    ensures BoundAt(First(), 0).Some? && BoundAt(Second(), 0).Some?
    ensures BoundAt(First(), 0).value.proposalIdHash == BoundAt(Second(), 0).value.proposalIdHash
    ensures BoundAt(First(), 0).value.proposalDataHash != BoundAt(Second(), 0).value.proposalDataHash
    ensures BoundAt(First(), 0).value.oldRoot != BoundAt(Second(), 0).value.oldRoot
    ensures BoundAt(First(), 0).value.newRoot != BoundAt(Second(), 0).value.newRoot
    ensures History(Self(4), Steps(), Toy)
         == [PC.Proposal(TypeId(4), PC.Add, [7], 0, None), PC.Proposal(TypeId(4), PC.Add, [8], 0, None)]
  {
    hide Inv, CanApply, OneState, AddTx, VotesAt, BoundAt, Next, Executed, Toy, TypeId, Self, ProposalData, Plain,
      Grows, IsAddTx;
    OneStateKept();
    FirstApplies();
    SecondApplies();
    FirstAdded(7);
    SecondAdded(7, 8);
    IsAdd([], 7, At(0x41), At(0x43));
    IsAdd(Added(7), 8, OutPoint(Code(0x51), 0), At(0x44));
    AddTypes(First(), [], 7);
    AddTypes(Second(), Added(7), 8);
    SameVote();
    var rest := [Step(Second(), Code(0x52))];
    assert Steps()[1..] == rest && rest[1..] == [];
    AddCells(First(), [], 7);
    assert IsRun(Deployed(), Between(), rest);
  }

  // ---- whose consent the run had ----

  lemma PlainCommits(c: Cell, es: seq<RF.Entry>)
    requires RF.Canonical(es) && c.data == Data(Plain(2), es)
    ensures Commits(c, [Key(2)], Toy)
  {
    hide Toy, Data, MT.TreeRoot, GH.CliEncodeHeader, GH.HeaderSlice, GH.LockHeaderOf, GH.CliWritable, Key,
      RF.ParsePayload, GH.ParseTreasuryHash;
    PlainWritable(2);
    DataRead(Plain(2), es);
    GH.CliHeaderAccepted(Plain(2));
    OneValidator(2);
  }

  lemma AddInOrder(tx: Tx, es: seq<RF.Entry>, id: byte)
    requires Grows(es, id) && IsAddTx(tx, es, id)
    ensures InOrder(Deployed(), tx, Self(4), [Key(2)])
  {
    hide Data, Toy, Commits, GL.NoCollision, VotesAt, IsFirst, IsAddTx, Self, Plain, Lock, GovernanceLocksAccept,
      RF.Ascending, RF.WellSized, After, IsRegistry, IsGoverned, WA.GovernanceWitness, Key;
    AddCells(tx, es, id);
    AddLock(tx, es, id);
    PlainCommits(tx.inputs[0].cell, es);
    NothingCollides();
  }

  lemma RegistryScript()
    ensures IsRegistryScript(Deployed(), Self(4))
  {
    hide Toy, BR.ParseTypeArgs, Recovers;
    SelfArgs(4);
  }

  /** Still, each of the two proposals was carried out by a step in which the registry's one validator had signed. */
  lemma BothConsented()
    ensures IsRun(Deployed(), OneState(), Steps())
    ensures forall p <- History(Self(4), Steps(), Toy) ::
              CarriedOut(Deployed(), Steps(), Self(4), [[Key(2)], [Key(2)]], p)
    ensures |History(Self(4), Steps(), Toy)| == 2
  {
    hide History, IsRun, InOrder, IsRegistryScript, CarriedOut, AddTx, Grows, IsAddTx, OneState, Self, Key, Toy,
      VotesAt, BoundAt;
    OneVoteTwice();
    RegistryScript();
    FirstAdded(7);
    SecondAdded(7, 8);
    IsAdd([], 7, At(0x41), At(0x43));
    IsAdd(Added(7), 8, OutPoint(Code(0x51), 0), At(0x44));
    AddInOrder(First(), [], 7);
    AddInOrder(Second(), Added(7), 8);
    HistoryConsented(Deployed(), OneState(), Steps(), Self(4), [[Key(2)], [Key(2)]]);
    assert Deployed().blake == Toy;
  }
}
