/**
 * How a registry of the concrete deployment comes about: on a ledger with one plain cell and no registry, the
 * bootstrap transaction that spends that cell is accepted, and the registry it creates is live afterwards with the
 * invariant kept.
 */
module DeploymentBirth {
  import opened Bytes
  import opened Chain
  import opened Molecule
  import opened Ledger
  import opened Seqs
  import opened Deployment
  import opened DeploymentRuns
  import BR = BlacklistRegistry
  import GH = GovernanceHeader
  import RF = RegistryFormat
  import WA = WitnessArgs

  /** The cell the bootstrap spends. */
  function Coin(): Cell { Cell(2, Script(Code(0x25), 0, []), None, []) }

  function EmptyState(): State { State(map[Seed(4) := Coin()], {Seed(4)}) }

  function Born4(): Cell { RegistryCell(4, Plain(2), [], 1) }

  /** The binding of a bootstrap: no old bytes, no proposal. */
  function BirthBound(): WA.Gov1 {
    WA.Gov1(IdHash(4), Digest(), ZERO_32, Toy(Data(Plain(2), [])), ZERO_32, 0)
  }

  function BirthTx(): Tx {
    Tx([Input(Seed(4), 0, Coin())], [Born4()], [WA.GovernanceWitness([], BirthBound())])
  }

  lemma BirthShape()
    ensures |BirthTx().inputs| == |BirthTx().outputs| == |BirthTx().witnesses| == 1
    ensures BirthTx().inputs[0] == Input(Seed(4), 0, Coin()) && Coin().typ == None
    ensures BirthTx().outputs[0] == Born4() && Born4().typ == Some(Self(4)) && Born4().lock == Lock()
    ensures Born4().data == Data(Plain(2), [])
    ensures BirthTx().witnesses[0] == WA.GovernanceWitness([], BirthBound())
  {
    hide WA.GovernanceWitness, BirthBound, Data, Self, Lock, Plain, Seed;
  }

  lemma BirthBinds()
    ensures BR.Binds(BirthTx(), 0, seq(32, _ => 0), Toy(Data(Plain(2), [])))
  {
    hide WA.RegistryReads, WA.EncodeGov1, WA.GovernanceWitness, BirthTx, Toy, Data, Fill, Plain, WA.ParseGov1,
      WA.LockReads;
    BirthShape();
    var zero := seq(32, _ => 0);
    assert zero == ZERO_32;
    NotZero(4);
    NotZero(10);
    WA.RoundTrip([], BirthBound());
    var payload := WA.RegistryReads(BirthTx().witnesses[0]).value;
    WA.Gov1Exact(payload, BirthBound());
  }

  lemma SelfPieces()
    ensures Self(4).args == [2] + TypeArgs(4).govCodeHash + [TypeArgs(4).govHashType] + TypeArgs(4).typeId
    ensures Lock() == Script(TypeArgs(4).govCodeHash, TypeArgs(4).govHashType, [1])
    ensures TypeArgs(4).typeId == Toy(OutPointBytes(Seed(4)) + Le8(0))
  {
    hide Toy, OutPointBytes, Le8;
  }

  lemma BirthAccepted()
    ensures BR.Entry(Self(4), BirthTx(), Toy).Ok?
  {
    hide BirthTx, Toy, Data, Self, Lock, TypeArgs, Coin, Born4, Seed, BR.Entry, BR.Binds, RF.ParsePayload,
      GH.ParseTreasuryHash, GH.CliTreasuryHash, GH.HeaderSlice, GH.CliEncodeHeader, GH.CliParseHeader,
      OutPointBytes, Le8, Plain;
    BirthShape();
    SelfPieces();
    BirthBinds();
    PlainWritable(2);
    DataRead(Plain(2), []);
    BR.BootstrapExact(Self(4), TypeArgs(4), BirthTx(), 0, Toy);
  }

  lemma EmptyShape()
    ensures EmptyState().live.Keys == {Seed(4)} && EmptyState().live[Seed(4)] == Coin()
    ensures EmptyState().used == {Seed(4)}
    ensures !IsRegistry(Deployed(), Coin()) && !IsGoverned(Deployed(), Coin())
    ensures OutPoint(Code(0x61), 0) !in EmptyState().used
  {
    CodesDiffer(0x25, GOVERNANCE);
    CodesDiffer(0x61, 4);
  }

  lemma BirthApplies()
    ensures CanApply(Deployed(), EmptyState(), BirthTx(), Code(0x61))
  {
    hide BirthTx, EmptyState, Coin, Born4, Seed, Code, Self, Lock, Deployed, IsRegistry, IsGoverned, BR.Entry, Toy,
      Data;
    BirthShape();
    EmptyShape();
    BirthAccepted();
    assert Deployed().blake == Toy by { RulesAre(); }
    assert RegistryScriptsAccept(Deployed(), BirthTx());
  }

  lemma RulesAre()
    ensures Deployed().blake == Toy && Deployed().recover == Recovers
  {
    hide Toy, Recovers;
  }

  // ---- the assumption about Type IDs ----

  /** The hash of a Type ID preimage keeps enough of it to tell these outpoints, and any output indices, apart. */
  lemma TypeIdsApart()
    ensures TypeIdsDistinct(Toy, {Seed(4), OutPoint(Code(0x61), 0)})
  {
    hide Toy, Le8, Le4;
    forall o, o', i: u64, i': u64 | o in {Seed(4), OutPoint(Code(0x61), 0)} && o' in {Seed(4), OutPoint(Code(0x61), 0)}
        && Toy(BR.TypeIdPreimage(o, i)) == Toy(BR.TypeIdPreimage(o', i'))
      ensures BR.TypeIdPreimage(o, i) == BR.TypeIdPreimage(o', i')
    {
      SameTail(o, i, o', i');
    }
  }

  /** Outpoints whose hashes are one byte repeated. */
  lemma SameTail(o: OutPoint, i: u64, o': OutPoint, i': u64)
    requires (o.txHash == Code(4) || o.txHash == Code(0x61)) && (o'.txHash == Code(4) || o'.txHash == Code(0x61))
    requires o.index == o'.index && Toy(BR.TypeIdPreimage(o, i)) == Toy(BR.TypeIdPreimage(o', i'))
    ensures BR.TypeIdPreimage(o, i) == BR.TypeIdPreimage(o', i')
  {
    hide Le4, Le8;
    var (x, x') := (BR.TypeIdPreimage(o, i), BR.TypeIdPreimage(o', i'));
    assert |x| == |x'| == 44 && x[12..] == x[12..44] && x'[12..] == x'[12..44];
    assert x[12] == x[12..][0] && x'[12] == x'[12..][0];
    assert x[12] == o.txHash[12] && x'[12] == o'.txHash[12];
    assert x[..12] == o.txHash[..12] && x'[..12] == o'.txHash[..12];
    TakeDrop(x, 12);
    TakeDrop(x', 12);
  }

  lemma UsedAfter()
    ensures Next(EmptyState(), BirthTx(), Code(0x61)).used == {Seed(4), OutPoint(Code(0x61), 0)}
  {
    hide BirthTx, EmptyState, Coin, Born4, Seed, Code, Spent;
    BirthShape();
    EmptyShape();
  }

  lemma BirthKeepsInv()
    ensures Inv(Deployed(), EmptyState()) && Inv(Deployed(), Next(EmptyState(), BirthTx(), Code(0x61)))
    ensures TypeIdsDistinct(Toy, Next(EmptyState(), BirthTx(), Code(0x61)).used)
  {
    hide BirthTx, EmptyState, Coin, Born4, Seed, Code, Deployed, IsRegistry, IsGoverned, Toy, CanApply, Next,
      TypeIdsDistinct, WellKept;
    EmptyShape();
    BirthApplies();
    RulesAre();
    UsedAfter();
    TypeIdsApart();
    StepKeepsInv(Deployed(), EmptyState(), BirthTx(), Code(0x61), {Seed(4), OutPoint(Code(0x61), 0)});
  }

  /** From no registry to one, by an accepted transaction. */
  lemma RegistryIsBorn()
    ensures Inv(Deployed(), EmptyState())
    ensures forall p :: p in EmptyState().live ==> !IsRegistry(Deployed(), EmptyState().live[p])
    ensures CanApply(Deployed(), EmptyState(), BirthTx(), Code(0x61))
    ensures TypeIdsDistinct(Toy, Next(EmptyState(), BirthTx(), Code(0x61)).used)
    ensures Inv(Deployed(), Next(EmptyState(), BirthTx(), Code(0x61)))
    ensures var s := Next(EmptyState(), BirthTx(), Code(0x61));
            RegistryAt(Deployed(), s, OutPoint(Code(0x61), 0), Self(4))
            && Entries(s.live[OutPoint(Code(0x61), 0)]) == [] && Seed(4) !in s.live
  {
    hide BirthTx, EmptyState, Coin, Born4, Seed, Code, Self, Lock, Deployed, IsRegistry, IsGoverned, Toy, Data, Plain,
      RF.ParsePayload, BR.ParseTypeArgs, BR.GovernanceScript, CanApply, TypeArgs, GH.HeaderSlice,
      GH.ParseTreasuryHash, GH.CliTreasuryHash, GH.CliEncodeHeader, GH.CliParseHeader, TypeIdsDistinct, Inv;
    BirthShape();
    EmptyShape();
    BirthApplies();
    SelfArgs(4);
    PlainWritable(2);
    DataRead(Plain(2), []);
    CodesOf(4, Plain(2), [], 1, 7);
    SpentSeed();
    BirthKeepsInv();
  }

  lemma SpentSeed()
    ensures Seed(4) in Spent(BirthTx().inputs) && Seed(4).txHash != Code(0x61)
    ensures Born4() == RegistryCell(4, Plain(2), [], 1)
  {
    hide RegistryCell, Plain;
    CodesDiffer(0x61, 4);
  }
}
