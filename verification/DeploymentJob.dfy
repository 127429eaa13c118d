/**
 * The concrete deployment with a treasury: a job that meets every hypothesis about `execute` at once, on a ledger that
 * keeps the invariant of runs; its transaction can be applied there, and the registry then holds the identifier.
 */
module DeploymentJob {
  import opened Bytes
  import opened Seqs
  import opened Chain
  import opened Molecule
  import opened ExecutePlan
  import opened ExecuteTx
  import opened YesVotes
  import opened ExecuteAccepted
  import opened ExecuteOnLedger
  import opened Ledger
  import opened Deployment
  import opened DeploymentRuns
  import AT = AnchorType
  import BR = BlacklistRegistry
  import CB = CliBuilder
  import GH = GovernanceHeader
  import GL = GovernanceLock
  import MT = MerkleTree
  import PC = ProposalCell
  import RF = RegistryFormat
  import TS = TsRegistry
  import TR = Transition
  import VD = VoteDigest
  import VM = VoteMessage
  import WI = Witness

  /** A treasury lock whose anchors run the code 0x23. */
  function Treasury(): (s: Script)
    ensures |s.args| == 64 && s.codeHash == Code(0x24) && s.hashType == 1
  {
    Script(Code(0x24), 1, Code(REGISTRY) + Code(0x23))
  }

  function Anchor(): (s: Script)
    ensures s.codeHash == Code(0x23) && s.hashType == 1 && |s.args| == 73
  {
    Script(Code(0x23), 1, AT.EncodeArgs(AT.AnchorArgs(TypeId(4), ScriptHash(Treasury(), Toy), 0)))
  }

  function Funded(): GH.CliHeader { Header(2, Some(Treasury())) }

  function Registry(): LiveCell { LiveCell(At(0x41), RegistryCell(4, Funded(), [], 10_000_000_000_000)) }

  function Anchored(): LiveCell {
    LiveCell(At(0x43), Cell(30_000_000_000, Treasury(), Some(Anchor()), ProposalData(4, 7)))
  }

  /** Adding one identifier to the empty registry, by the only validator's vote. */
  function TheJob(): Job {
    Job(Registry(), Anchored(), Adding(7), 0, [Vote()], IdHash(4), Digest(), [], [], Some(At(0x52)))
  }

  function JobState(): State {
    State(map[At(0x41) := Registry().cell, At(0x43) := Anchored().cell], {At(0x41), At(0x43), Seed(4)})
  }

  // ---- what the CLI reads ----

  lemma FundedWritable()
    ensures GH.CliWritable(Funded()) && Funded().treasuryLockHash.None?
            && Funded().treasuryLockScript == Some(Treasury())
    ensures Funded().threshold == Funded().validatorCount == 1
    ensures |GH.CliEncodeHeader(Funded())| == 156 && GH.CliEncodeHeader(Funded())[1] == 0
  {
    hide Treasury, Toy, Key;
  }

  /** The SDK's reader finds a header without signers at the fixed offset. */
  lemma HeaderFound(d: seq<byte>, gh: seq<byte>)
    requires |d| >= 44 && |gh| >= 2 && GH.HeaderSlice(d) == Some(gh) && gh[1] == 0
    ensures TS.HeaderAt(d, 7).Some?
  {
    hide GH.SplitKeys;
    assert d[8] == gh[1];
  }

  /** The CLI reads back what is in the cell. */
  lemma CliReads(es: seq<RF.Entry>)
    requires RF.Canonical(es)
    ensures CB.Current(Data(Funded(), es)) == Some(CB.Registry(GH.CliEncodeHeader(Funded()), es))
  {
    hide RF.EncodePayload, CB.Current, GH.CliEncodeHeader, Funded, GH.CliWritable, RF.Ascending, RF.WellSized,
      RF.ParsePayload, TS.HeaderAt, GH.HeaderSlice, Toy, GH.CliParseHeader, GH.ParseTreasuryHash;
    var (gh, d) := (GH.CliEncodeHeader(Funded()), Data(Funded(), es));
    FundedWritable();
    DataRead(Funded(), es);
    RootInData(Funded(), es);
    HeaderFound(d, gh);
    CB.CurrentExact(d, CB.Registry(gh, es));
  }

  // ---- hashes ----

  lemma ScriptMark(s: Script)
    requires |s.args| < 100
    ensures Toy(EncodeScript(s))[0] == 49 && Toy(EncodeScript(s))[4] == s.codeHash[0]
  {
    var x := EncodeScript(s);
    assert Toy(x)[0] == x[12] && Toy(x)[4] == x[16];
    assert x[12] == 49 && x[16] == s.codeHash[0];
  }

  /** Strings told apart by two bytes of their hashes do not collide. */
  lemma MarkedApart(blake: Hasher, strings: set<seq<byte>>)
    requires forall x <- strings :: blake(x)[0] != 0
    requires forall x <- strings, y <- strings | blake(x)[0] == blake(y)[0] && blake(x)[4] == blake(y)[4] :: x == y
    ensures MT.CollisionFree(blake, strings)
  {
  }

  /** The hashed strings of the job, with the two bytes that tell them apart. */
  lemma Marks()
    ensures Toy(Registry().cell.data)[0] == 2 && Toy(Anchored().cell.data)[0] == 4
    ensures Toy(EncodeScript(Lock()))[0] == 49 && Toy(EncodeScript(Lock()))[4] == 0x21
    ensures Toy(EncodeScript(Treasury()))[0] == 49 && Toy(EncodeScript(Treasury()))[4] == 0x24
    ensures Toy(EncodeScript(Self(4)))[0] == 49 && Toy(EncodeScript(Self(4)))[4] == 0x22
    ensures Toy(EncodeScript(Anchor()))[0] == 49 && Toy(EncodeScript(Anchor()))[4] == 0x23
  {
    hide Toy, EncodeScript, Data, ProposalData, GH.CliWritable, Anchor, Treasury, PC.Meaning, PC.Parse, TypeId,
      RF.ParsePayload, GH.CliEncodeHeader;
    FundedWritable();
    DataRead(Funded(), []);
    KeyDigest(2);
    ProposalDataRead(4, 7);
    ScriptMark(Lock());
    ScriptMark(Treasury());
    ScriptMark(Self(4));
    ScriptMark(Anchor());
  }

  lemma JobHashed()
    ensures Hashed(TheJob(), Self(4), Treasury())
         == {Registry().cell.data, Anchored().cell.data, EncodeScript(Lock()), EncodeScript(Treasury()),
             EncodeScript(Self(4)), EncodeScript(Anchor())}
  {
    hide EncodeScript, Data, ProposalData, Treasury, Anchor, Self, Lock;
  }

  lemma Collisionless()
    ensures MT.CollisionFree(Toy, Hashed(TheJob(), Self(4), Treasury()))
  {
    hide Toy, EncodeScript, Registry, Anchored, Treasury, Anchor, Self, Lock, Hashed, TheJob, MT.CollisionFree;
    Marks();
    JobHashed();
    MarkedApart(Toy, Hashed(TheJob(), Self(4), Treasury()));
  }

  // ---- the job is built ----

  lemma YesOfOne()
    ensures Yes([Vote()]) == [Vote()] && Submitted([Vote()]) == [Vote()] && |Voters([Vote()])| == 1
    ensures GL.DistinctKeys([Vote()])
  {
    hide Fill;
    Nil([Vote()]);
    assert [Vote()][..0] == [];
    assert Yes([Vote()]) == [Vote()];
    ByKeyOne(Vote());
    assert Voters([Vote()]) == {Key(2)};
  }

  lemma JobApproved()
    ensures Approved(TheJob(), Funded(), Toy, Recovers) && WI.Buildable(Submitted(TheJob().votes))
    ensures VotesAdmissible(TheJob(), Funded())
  {
    hide VD.Digest, Toy, Key, MT.Verifies, VM.CliCanonical, VM.Ascii, Yes, Voters, Submitted, Registry, Anchored,
      GL.DistinctKeys, WI.AllEncodable, GL.CountVotes;
    YesOfOne();
    OneValidator(2);
    OneVote(4);
    DigestIs();
    assert VM.VoteWord(GL.YES) == Some(VM.Ascii("yes"));
    assert VoteVerifies(Vote(), Toy(Key(2)), IdHash(4), Toy, Recovers);
  }

  lemma JobNewData()
    ensures After([], 7) == Added(7)
    ensures CB.NewData(Registry().cell.data, Adding(7)) == Some(Data(Funded(), Added(7)))
    ensures PayloadFits(TheJob()) && CB.Applicable(CB.Registry(GH.CliEncodeHeader(Funded()), []), Adding(7))
  {
    hide CB.Current, GH.CliEncodeHeader, RF.EncodePayload, Funded, Anchored, CB.Inserted, RF.Ascending;
    FirstAdded(7);
    CliReads([]);
    assert CB.NewEntry(Adding(7)) == RF.Entry([7], 0);
  }

  lemma JobLengths()
    ensures |Data(Funded(), [])| == 167 && |Data(Funded(), Added(7))| == 177
  {
    hide Data, GH.CliEncodeHeader, Funded;
    FundedWritable();
    DataLength(Funded(), []);
    DataLength(Funded(), Added(7));
    assert Added(7)[1..] == [] && RF.EncodeEntries([]) == [];
    assert RF.EncodeEntries(Added(7)) == RF.EncodeEntry(Added(7)[0]) + RF.EncodeEntries([]);
  }

  lemma JobAffordable()
    ensures Affordable(TheJob(), Data(Funded(), Added(7)), ScriptHash(Treasury(), Toy), Toy)
    ensures CoversItself(Registry().cell) && Reach(TheJob()) <= U64_MAX
  {
    hide Data, ScriptHash, Anchor, Treasury, Funded;
    JobLengths();
    SelfArgs(4);
    LockArgs();
    assert OnOffer(TheJob()) == 0;
  }

  lemma JobGenuine()
    ensures Genuine(TheJob(), Self(4)) && BR.ParseTypeArgs(Self(4).args) == Some(TypeArgs(4))
    ensures Registry().cell.data == Data(Funded(), [])
            && GH.CliParseHeader(GH.CliEncodeHeader(Funded())) == Some(Funded())
  {
    hide Data, RF.ParsePayload, BR.ParseTypeArgs, Self, Lock, Funded, Anchored, BR.GovernanceScript,
      GH.CliEncodeHeader, GH.CliParseHeader, GH.CliWritable;
    FundedWritable();
    DataRead(Funded(), []);
    SelfArgs(4);
  }

  lemma JobAnchored()
    ensures PC.Encodable(Adding(7)) && Anchored().cell.data == PC.Encode(Adding(7), TypeId(4), Toy)
    ensures AnchorTypeMatches(TheJob(), TypeId(4), ScriptHash(Treasury(), Toy))
    ensures TreasuryOwned(TheJob(), Treasury()) && NamesAnchor(Treasury(), Anchor())
  {
    hide Toy, ScriptHash, AT.EncodeArgs, PC.Encode, Fill;
  }

  lemma JobBuilt()
    ensures Reach(TheJob()) <= U64_MAX && Built(TheJob(), Toy, Recovers).Some?
  {
    hide Genuine, Built, Approved, Affordable, CB.Current, CB.Applicable, CB.NewData, GH.CliParseHeader, Treasury,
      Registry, Anchored, Funded, GH.CliEncodeHeader, AnchorTypeMatches, WI.AllEncodable, Toy, BR.ParseTypeArgs, Self,
      PC.Encode, Reach, Data, Submitted, PayloadFits, PC.Encodable;
    JobGenuine();
    JobNewData();
    JobAffordable();
    JobAnchored();
    JobApproved();
    FundedWritable();
    CliReads([]);
    BuildsExactly(TheJob(), Self(4), CB.Registry(GH.CliEncodeHeader(Funded()), []), Funded(), Treasury(), Toy,
      Recovers);
  }

  lemma JobDraft() returns (d: Draft, tx: Tx)
    ensures DraftOf(TheJob(), Toy, Recovers) == Some(d) && d.header == Funded()
    ensures Reach(TheJob()) <= U64_MAX && Built(TheJob(), Toy, Recovers) == Some(tx)
  {
    hide DraftOf, CB.Current, CB.NewData, GH.CliParseHeader, Treasury, Registry, Anchored, Funded, GH.CliEncodeHeader,
      Toy, Reach, Data, Assembled, WitnessOf, PayoutOf, Approved, BR.ParseTypeArgs, PC.Encode, PC.Encodable,
      WI.AllEncodable;
    JobBuilt();
    d, tx := DraftOf(TheJob(), Toy, Recovers).value, Built(TheJob(), Toy, Recovers).value;
    var current := DraftSays(TheJob(), Toy, Recovers, d);
    JobGenuine();
    CliReads([]);
    assert TheJob().registry == Registry();
  }

  lemma LocksDiffer()
    ensures Lock() != Treasury() && Code(0x24) != Code(GOVERNANCE) && Code(0x23) != Code(REGISTRY)
  {
    CodesDiffer(0x24, GOVERNANCE);
    CodesDiffer(0x23, REGISTRY);
  }

  lemma JobUnder(d: Draft, tx: Tx)
    requires DraftOf(TheJob(), Toy, Recovers) == Some(d) && d.header == Funded()
    requires Reach(TheJob()) <= U64_MAX && Built(TheJob(), Toy, Recovers) == Some(tx)
    ensures UnderTreasury(TheJob(), d, tx, Self(4), Treasury(), Toy, Recovers)
  {
    hide DraftOf, Built, Genuine, MT.CollisionFree, Hashed, Reach, Toy, Treasury, Lock, Self, Funded, Data, Anchored;
    JobGenuine();
    Collisionless();
    LocksDiffer();
    FundedWritable();
  }

  lemma JobReady() returns (d: Draft, tx: Tx)
    ensures Ready(TheJob(), d, tx, Self(4), Treasury(), Toy, Recovers)
  {
    hide UnderTreasury, DraftOf, Built, PayloadFits, VotesAdmissible, NamesAnchor, TreasuryOwned, CoversItself, Reach,
      Toy, Treasury, Self, Registry, Anchor, IdHash, Digest, Funded, Data, Approved, PC.Encodable, AnchorTypeMatches,
      Affordable, GH.CliWritable, GH.CliEncodeHeader, CB.Applicable, ProposalData, ScriptHash, WI.AllEncodable,
      Submitted;
    d, tx := JobDraft();
    JobUnder(d, tx);
    FundedWritable();
    JobNewData();
    JobAffordable();
    JobAnchored();
    JobApproved();
    IdsNotZero();
  }

  lemma IdsNotZero()
    ensures IdHash(4) != ZERO_32 && Digest() != ZERO_32
  {
    NotZero(4);
    NotZero(10);
  }

  lemma JobStateShape()
    ensures JobState().live.Keys == {At(0x41), At(0x43)} && Seed(4) !in JobState().live
    ensures JobState().live[At(0x41)] == Registry().cell && JobState().live[At(0x43)] == Anchored().cell
    ensures JobState().used == {At(0x41), At(0x43), Seed(4)}
  {
    hide RegistryCell, At, Seed, Funded, Treasury, Anchor, ProposalData;
    PointsDiffer();
  }

  lemma AnchoredCodes()
    ensures !IsRegistry(Deployed(), Anchored().cell) && !IsGoverned(Deployed(), Anchored().cell)
    ensures (Treasury().codeHash, Treasury().hashType) !in Deployed().governanceCodes
  {
    hide ProposalData, Treasury, Anchor, Code;
    LocksDiffer();
  }

  lemma JobStateKept()
    ensures Inv(Deployed(), JobState())
  {
    hide JobState, RegistryCell, Anchored, At, Seed, WellKept, IsRegistry, IsGoverned, Deployed, TypeIdOf, TypeId,
      GH.CliWritable, Funded;
    JobStateShape();
    FundedWritable();
    RegistryKept(JobState(), 4, Funded(), [], 10_000_000_000_000);
    AnchoredCodes();
  }

  lemma JobOnChain()
    ensures OnChain(Deployed(), JobState(), TheJob(), Self(4), Treasury())
  {
    hide JobState, RegistryCell, Anchored, At, IsRegistry, IsGoverned, Deployed, Funded, Treasury;
    JobStateShape();
    CodesOf(4, Funded(), [], 10_000_000_000_000, 7);
    AnchoredCodes();
    assert Anchored().outPoint == At(0x43) by {
      AnchoredAt();
    }
  }

  lemma AnchoredAt()
    ensures Anchored().outPoint == At(0x43)
  {
    hide ProposalData, Treasury, Anchor, At;
  }

  lemma JobFresh()
    ensures forall p :: p in JobState().used ==> p.txHash != Code(0x51)
  {
    hide JobState, Code;
    JobStateShape();
    FreshCode(0x51);
  }

  lemma UnderReady(d: Draft, tx: Tx)
    requires Ready(TheJob(), d, tx, Self(4), Treasury(), Toy, Recovers)
    ensures |tx.outputs| == 2
  {
    hide UnderTreasury, TheJob, Treasury, Self, Toy;
    Shape(TheJob(), d, tx, Self(4), Treasury(), Toy, Recovers);
  }

  /** The empty registry's map with the proposal applied. */
  lemma JobMeans(d: Draft)
    ensures RF.ParseStrict(Registry().cell.data).Ok?
    ensures TR.Apply(TR.ToMap(Entries(Registry().cell)), PC.Meaning(Adding(7), d.typeId, Toy)) == map[[7] := 0]
  {
    hide Data, RF.ParsePayload, Funded, GH.CliEncodeHeader, GH.CliParseHeader, GH.CliWritable;
    FundedWritable();
    DataRead(Funded(), []);
  }

  /**
   * The hypotheses about `execute` hold together: this job is ready on a ledger that keeps the invariant, so the
   * transaction built for it can be applied there, and the registry then stands for the one identifier.
   */
  lemma JobExecutes() returns (d: Draft, tx: Tx, s: State, q: OutPoint)
    ensures Inv(Deployed(), JobState()) && OnChain(Deployed(), JobState(), TheJob(), Self(4), Treasury())
    ensures Ready(TheJob(), d, tx, Self(4), Treasury(), Toy, Recovers)
    ensures CanApply(Deployed(), JobState(), tx, Code(0x51))
    ensures |tx.outputs| == 2 && s == Next(JobState(), tx, Code(0x51)) && RegistryAt(Deployed(), s, q, Self(4))
    ensures TR.ToMap(Entries(s.live[q])) == map[[7] := 0]
  {
    hide Inv, OnChain, Ready, Built, CanApply, RegistryAt, Next, TR.ToMap, Entries, TR.Apply, JobState, Treasury, Toy,
      Registry, Anchored, PC.Meaning, Self, DraftOf;
    JobStateKept();
    JobOnChain();
    JobFresh();
    d, tx := JobReady();
    q := ExecuteApplies(Deployed(), JobState(), TheJob(), d, tx, Code(0x51), Self(4), Treasury());
    JobMeans(d);
    UnderReady(d, tx);
    s := Next(JobState(), tx, Code(0x51));
  }
}
