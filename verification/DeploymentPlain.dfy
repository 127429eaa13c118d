/**
 * The concrete deployment without a treasury: a job that meets every hypothesis of `ExecutePlain` at once, on a ledger
 * that keeps the invariant of runs; its transaction can be applied, and the registry then holds the identifier.
 */
module DeploymentPlain {
  import opened Bytes
  import opened Chain
  import opened Molecule
  import opened ExecutePlan
  import opened ExecuteTx
  import opened Ledger
  import opened Deployment
  import opened DeploymentRuns
  import BR = BlacklistRegistry
  import CB = CliBuilder
  import DJ = DeploymentJob
  import EA = ExecuteAccepted
  import EP = ExecutePlain
  import GH = GovernanceHeader
  import GL = GovernanceLock
  import MT = MerkleTree
  import PC = ProposalCell
  import RF = RegistryFormat
  import TR = Transition
  import TS = TsRegistry
  import VD = VoteDigest
  import VM = VoteMessage
  import WI = Witness
  import YV = YesVotes

  function Registry(): LiveCell { LiveCell(At(0x41), RegistryCell(4, Plain(2), [], 10_000_000_000_000)) }

  /** The proposal cell, under anyone's lock. */
  function Proposed(): LiveCell {
    LiveCell(At(0x43), Cell(30_000_000_000, Script(Code(0x25), 0, []), None, ProposalData(4, 7)))
  }

  function PlainJob(): Job {
    Job(Registry(), Proposed(), Adding(7), 0, [Vote()], IdHash(4), Digest(), [], [], None)
  }

  function PlainState(): State {
    State(map[At(0x41) := Registry().cell, At(0x43) := Proposed().cell], {At(0x41), At(0x43), Seed(4)})
  }

  lemma CliReads(es: seq<RF.Entry>)
    requires RF.Canonical(es)
    ensures CB.Current(Data(Plain(2), es)) == Some(CB.Registry(GH.CliEncodeHeader(Plain(2)), es))
  {
    hide RF.EncodePayload, CB.Current, GH.CliEncodeHeader, Plain, GH.CliWritable, RF.Ascending, RF.WellSized,
      RF.ParsePayload, TS.HeaderAt, GH.HeaderSlice, Toy, GH.CliParseHeader, GH.ParseTreasuryHash;
    var (gh, d) := (GH.CliEncodeHeader(Plain(2)), Data(Plain(2), es));
    PlainWritable(2);
    NoSigners();
    DataRead(Plain(2), es);
    RootInData(Plain(2), es);
    DJ.HeaderFound(d, gh);
    CB.CurrentExact(d, CB.Registry(gh, es));
  }

  lemma NoSigners()
    ensures |GH.CliEncodeHeader(Plain(2))| == 37 && GH.CliEncodeHeader(Plain(2))[1] == 0
    ensures Plain(2).threshold == Plain(2).validatorCount == 1 && EP.NoTreasury(Plain(2))
  {
    hide Toy, Key;
  }

  lemma DataApart()
    ensures MT.CollisionFree(Toy, {Registry().cell.data, Proposed().cell.data})
  {
    hide Toy, Data, ProposalData, Plain, GH.CliWritable;
    RegistryMark(2, []);
    ProposalMark(4, 7);
  }

  lemma PlainApproved()
    ensures Approved(PlainJob(), Plain(2), Toy, Recovers) && WI.Buildable(YV.Submitted(PlainJob().votes))
    ensures EA.VotesAdmissible(PlainJob(), Plain(2))
  {
    hide VD.Digest, Toy, Key, MT.Verifies, VM.CliCanonical, VM.Ascii, YV.Yes, YV.Voters, YV.Submitted, Registry,
      Proposed, GL.DistinctKeys, WI.AllEncodable, GL.CountVotes;
    DJ.YesOfOne();
    OneValidator(2);
    OneVote(4);
    DigestIs();
    assert VM.VoteWord(GL.YES) == Some(VM.Ascii("yes"));
    assert VoteVerifies(Vote(), Toy(Key(2)), IdHash(4), Toy, Recovers);
  }

  lemma PlainNewData()
    ensures CB.NewData(Registry().cell.data, Adding(7)) == Some(Data(Plain(2), Added(7)))
    ensures EA.PayloadFits(PlainJob()) && CB.Applicable(CB.Registry(GH.CliEncodeHeader(Plain(2)), []), Adding(7))
  {
    hide CB.Current, GH.CliEncodeHeader, RF.EncodePayload, Plain, Proposed, CB.Inserted, RF.Ascending;
    NoSigners();
    FirstAdded(7);
    CliReads([]);
    assert CB.NewEntry(Adding(7)) == RF.Entry([7], 0);
  }

  lemma PlainGenuine()
    ensures EA.Genuine(PlainJob(), Self(4)) && BR.ParseTypeArgs(Self(4).args) == Some(TypeArgs(4))
    ensures Registry().cell.data == Data(Plain(2), [])
            && GH.CliParseHeader(GH.CliEncodeHeader(Plain(2))) == Some(Plain(2))
  {
    hide Data, RF.ParsePayload, BR.ParseTypeArgs, Self, Lock, Plain, Proposed, BR.GovernanceScript,
      GH.CliEncodeHeader, GH.CliParseHeader, GH.CliWritable;
    PlainWritable(2);
    DataRead(Plain(2), []);
    SelfArgs(4);
  }

  lemma PlainProposed()
    ensures PC.Encodable(Adding(7)) && Proposed().cell.data == PC.Encode(Adding(7), TypeId(4), Toy)
    ensures Proposed().cell.capacity >= 100_000 + 100_000_000 * CellSize(Proposed().cell.lock, None, 0)
    ensures Reach(PlainJob()) <= U64_MAX
  {
    hide Toy, PC.Encode, Fill, Data;
  }

  lemma PlainBuilt()
    ensures Reach(PlainJob()) <= U64_MAX && Built(PlainJob(), Toy, Recovers).Some?
  {
    hide EA.Genuine, Built, Approved, CB.Current, CB.Applicable, CB.NewData, GH.CliParseHeader, Registry, Proposed,
      Plain, GH.CliEncodeHeader, WI.AllEncodable, Toy, BR.ParseTypeArgs, Self, PC.Encode, Reach, Data, YV.Submitted,
      EA.PayloadFits, PC.Encodable, CellSize, EP.NoTreasury;
    PlainGenuine();
    PlainNewData();
    PlainProposed();
    PlainApproved();
    NoSigners();
    CliReads([]);
    EP.BuildsExactly(PlainJob(), Self(4), CB.Registry(GH.CliEncodeHeader(Plain(2)), []), Plain(2), Toy, Recovers);
  }

  lemma PlainDraft() returns (d: Draft, tx: Tx)
    ensures DraftOf(PlainJob(), Toy, Recovers) == Some(d) && d.header == Plain(2)
    ensures Reach(PlainJob()) <= U64_MAX && Built(PlainJob(), Toy, Recovers) == Some(tx)
  {
    hide DraftOf, CB.Current, CB.NewData, GH.CliParseHeader, Registry, Proposed, Plain, GH.CliEncodeHeader,
      Toy, Reach, Data, Assembled, WitnessOf, PayoutOf, Approved, BR.ParseTypeArgs, PC.Encode, PC.Encodable,
      WI.AllEncodable;
    PlainBuilt();
    d, tx := DraftOf(PlainJob(), Toy, Recovers).value, Built(PlainJob(), Toy, Recovers).value;
    var current := EA.DraftSays(PlainJob(), Toy, Recovers, d);
    PlainGenuine();
    CliReads([]);
    assert PlainJob().registry == Registry();
  }

  lemma PlainReady() returns (d: Draft, tx: Tx)
    ensures EP.Ready(PlainJob(), d, tx, Self(4), Toy, Recovers)
  {
    hide DraftOf, Built, EA.PayloadFits, EA.VotesAdmissible, Reach, Toy, Self, Registry, Proposed, IdHash, Digest,
      Plain, Data, Approved, PC.Encodable, CB.Applicable, WI.AllEncodable, EA.Genuine, MT.CollisionFree,
      EP.NoTreasury, YV.Submitted, CB.NewData, GH.CliEncodeHeader;
    d, tx := PlainDraft();
    PlainGenuine();
    DataApart();
    NoSigners();
    PlainNewData();
    PlainApproved();
    DJ.IdsNotZero();
    Untyped();
  }

  lemma Untyped()
    ensures Proposed().cell.typ == None && Proposed().outPoint == At(0x43) && Registry().outPoint == At(0x41)
    ensures PlainJob().registry == Registry() && PlainJob().anchor == Proposed()
  {
    hide ProposalData, RegistryCell, At;
  }

  lemma PlainStateShape()
    ensures PlainState().live.Keys == {At(0x41), At(0x43)} && Seed(4) !in PlainState().live && At(0x41) != At(0x43)
    ensures PlainState().live[At(0x41)] == Registry().cell && PlainState().live[At(0x43)] == Proposed().cell
    ensures PlainState().used == {At(0x41), At(0x43), Seed(4)}
  {
    hide RegistryCell, At, Seed, Plain, ProposalData;
    PointsDiffer();
  }

  lemma ProposedCodes()
    ensures !IsRegistry(Deployed(), Proposed().cell) && !IsGoverned(Deployed(), Proposed().cell)
  {
    hide ProposalData, Code;
    CodesDiffer(0x25, GOVERNANCE);
  }

  lemma PlainStateKept()
    ensures Inv(Deployed(), PlainState())
    ensures EP.OnChain(Deployed(), PlainState(), PlainJob())
  {
    hide PlainState, RegistryCell, Proposed, At, Seed, WellKept, IsRegistry, IsGoverned, Deployed, TypeIdOf, TypeId,
      GH.CliWritable, Plain;
    PlainStateShape();
    PlainWritable(2);
    RegistryKept(PlainState(), 4, Plain(2), [], 10_000_000_000_000);
    CodesOf(4, Plain(2), [], 10_000_000_000_000, 7);
    ProposedCodes();
    Untyped();
  }

  lemma PlainFresh()
    ensures forall p :: p in PlainState().used ==> p.txHash != Code(0x51)
  {
    hide PlainState, Code;
    PlainStateShape();
    FreshCode(0x51);
  }

  lemma PlainMeans(d: Draft)
    ensures RF.ParseStrict(Registry().cell.data).Ok?
    ensures TR.Apply(TR.ToMap(Entries(Registry().cell)), PC.Meaning(Adding(7), d.typeId, Toy)) == map[[7] := 0]
  {
    hide Data, RF.ParsePayload, Plain, GH.CliEncodeHeader, GH.CliParseHeader, GH.CliWritable;
    PlainWritable(2);
    DataRead(Plain(2), []);
  }

  lemma PlainShape(d: Draft, tx: Tx)
    requires EP.Ready(PlainJob(), d, tx, Self(4), Toy, Recovers)
    ensures |tx.outputs| == 2
  {
    hide EP.Plain, PlainJob, Self, Toy, EA.PayloadFits, EA.VotesAdmissible;
    EP.Shape(PlainJob(), d, tx, Self(4), Toy, Recovers);
  }

  /**
   * The hypotheses about `execute` without a treasury hold together: this job is ready, its transaction can be applied,
   * and the registry then stands for the one identifier.
   */
  lemma PlainJobExecutes() returns (d: Draft, tx: Tx, s: State, q: OutPoint)
    ensures Inv(Deployed(), PlainState()) && EP.OnChain(Deployed(), PlainState(), PlainJob())
    ensures EP.Ready(PlainJob(), d, tx, Self(4), Toy, Recovers)
    ensures CanApply(Deployed(), PlainState(), tx, Code(0x51))
    ensures |tx.outputs| == 2 && s == Next(PlainState(), tx, Code(0x51)) && RegistryAt(Deployed(), s, q, Self(4))
    ensures TR.ToMap(Entries(s.live[q])) == map[[7] := 0]
  {
    hide Inv, EP.OnChain, EP.Ready, Built, CanApply, RegistryAt, Next, TR.ToMap, Entries, TR.Apply, PlainState, Toy,
      Registry, Proposed, PC.Meaning, Self, DraftOf;
    PlainStateKept();
    PlainFresh();
    d, tx := PlainReady();
    q := EP.Applies(Deployed(), PlainState(), PlainJob(), d, tx, Code(0x51), Self(4));
    PlainMeans(d);
    PlainShape(d, tx);
    s := Next(PlainState(), tx, Code(0x51));
  }
}
