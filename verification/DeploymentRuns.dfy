/**
 * A transaction of the concrete deployment that spends two registries of one lock group, and the ledger it is accepted
 * on, with the facts about single cells that the other instances share. The second registry's validator never signed.
 */
module DeploymentRuns {
  import opened Bytes
  import opened Seqs
  import opened Scan
  import opened Chain
  import opened Molecule
  import opened Ledger
  import opened Authorisation
  import opened Deployment
  import BR = BlacklistRegistry
  import CB = CliBuilder
  import GH = GovernanceHeader
  import MT = MerkleTree
  import VM = VoteMessage
  import GL = GovernanceLock
  import Lex
  import PC = ProposalCell
  import RD = ReviewDelay
  import RF = RegistryFormat
  import WA = WitnessArgs
  import WI = Witness

  function At(b: byte): OutPoint { OutPoint(Code(b), 0) }

  lemma CodesDiffer(a: byte, b: byte)
    requires a != b
    ensures Code(a) != Code(b) && At(a) != At(b) && Seed(a) != At(b)
  {
    assert Code(a)[0] == a && Code(b)[0] == b;
  }

  /** A registry of the one-validator list, without a treasury. */
  function Plain(b: byte): GH.CliHeader { Header(b, None) }

  lemma PlainWritable(b: byte)
    ensures GH.CliWritable(Plain(b)) && Plain(b).treasuryLockHash.None? && Plain(b).treasuryLockScript.None?
  {
  }

  function Added(id: byte): (es: seq<RF.Entry>)
    ensures RF.WellSized(es)
  {
    [RF.Entry([id], 0)]
  }

  lemma FirstAdded(id: byte)
    ensures Grows([], id) && After([], id) == Added(id)
  {
    Nil(Added(id));
  }

  lemma SecondAdded(id: byte, next: byte)
    requires id < next
    ensures Grows(Added(id), next) && After(Added(id), next) == [RF.Entry([id], 0), RF.Entry([next], 0)]
  {
    var es := Added(id);
    assert es[0] in es && forall e <- es :: e == es[0];
    assert Lex.Less([id], [next]) && es[1..] == [];
    assert CB.Inserted(es[1..], RF.Entry([next], 0)) == [RF.Entry([next], 0)];
  }

  /** What tells the inputs' data apart. */
  lemma FoundAt(inputs: seq<Input>, p: nat, target: seq<byte>)
    requires p < |inputs| && inputs[p].cell.data == target && Toy(target) != ZERO_32
    requires forall k :: 0 <= k < |inputs| ==> inputs[k].cell.data != []
    requires forall k :: 0 <= k < |inputs| && k != p ==> Toy(inputs[k].cell.data) != Toy(target)
    ensures FindInput(inputs, Toy(target), Toy) == Some(p)
  {
    hide Toy;
    UniqueExact(inputs, HasDataHash(Toy(target), Toy), p);
  }

  // ---- two registries under one lock ----

  /** Registry 4 lists the first validator, registry 5 the one with this key; one proposal each. */
  function TwoState(second: byte): State {
    State(
      map[At(0x41) := RegistryCell(4, Plain(2), [], 1), At(0x42) := RegistryCell(5, Plain(second), [], 1),
          At(0x43) := ProposalCell(4, 7), At(0x44) := ProposalCell(5, 8)],
      {At(0x41), At(0x42), At(0x43), At(0x44), Seed(4), Seed(5)})
  }

  /** The binding of the first addition to registry `b`, whose header lists the key `key`. */
  function FirstBound(b: byte, key: byte, id: byte): WA.Gov1 {
    Bound(b, Data(Plain(key), []), Data(Plain(key), Added(id)), id)
  }

  /** Both registries take in their identifiers; the witness of the second holds no vote. */
  function TwoTx(second: byte): Tx {
    Tx([Input(At(0x41), 0, RegistryCell(4, Plain(2), [], 1)), Input(At(0x42), 0, RegistryCell(5, Plain(second), [], 1)),
        Input(At(0x43), RD.EncodeSince(0), ProposalCell(4, 7)), Input(At(0x44), 0, ProposalCell(5, 8))],
       [RegistryCell(4, Plain(2), Added(7), 1), RegistryCell(5, Plain(second), Added(8), 1)],
       [WA.GovernanceWitness([Vote()], FirstBound(4, 2, 7)), WA.GovernanceWitness([], FirstBound(5, second, 8))])
  }

  lemma TwoInputs(second: byte)
    requires second < 4
    ensures |TwoTx(second).inputs| == 4 && |TwoTx(second).outputs| == 2 && |TwoTx(second).witnesses| == 2
    ensures var cell := TwoTx(second).inputs[0].cell;
            cell.lock == Lock() && cell.typ == Some(Self(4)) && cell.data == Data(Plain(2), [])
    ensures var cell := TwoTx(second).inputs[1].cell;
            cell.lock == Lock() && cell.typ == Some(Self(5)) && cell.data == Data(Plain(second), [])
    ensures TwoTx(second).inputs[2].cell == ProposalCell(4, 7) && TwoTx(second).inputs[3].cell == ProposalCell(5, 8)
    ensures TwoTx(second).inputs[2].since == RD.EncodeSince(0)
  {
    hide RD.EncodeSince, WA.GovernanceWitness, Self, Lock, Data, Plain, ProposalData;
  }

  lemma TwoOutputs(second: byte)
    requires second < 4
    ensures |TwoTx(second).outputs| == 2 && |TwoTx(second).witnesses| == 2 && WI.Buildable([Vote()])
    ensures var cell := TwoTx(second).outputs[0];
            cell.lock == Lock() && cell.typ == Some(Self(4)) && cell.data == Data(Plain(2), Added(7))
    ensures var cell := TwoTx(second).outputs[1];
            cell.lock == Lock() && cell.typ == Some(Self(5)) && cell.data == Data(Plain(second), Added(8))
    ensures TwoTx(second).witnesses[0] == WA.GovernanceWitness([Vote()], FirstBound(4, 2, 7))
    ensures TwoTx(second).witnesses[1] == WA.GovernanceWitness([], FirstBound(5, second, 8))
  {
    hide RD.EncodeSince, WA.GovernanceWitness, Self, Lock, Data, Plain, ProposalData, FirstBound;
  }

  /** The data of a registry of validator `b` starts its hash with `b`. */
  lemma RegistryMark(b: byte, es: seq<RF.Entry>)
    requires RF.Canonical(es)
    ensures Data(Plain(b), es) != [] && Toy(Data(Plain(b), es))[0] == b
  {
    hide Data, Fill, RF.Ascending, RF.WellSized;
    PlainWritable(b);
    DataRead(Plain(b), es);
    KeyDigest(b);
  }

  lemma ProposalMark(b: byte, id: byte)
    ensures ProposalData(b, id) != [] && Toy(ProposalData(b, id))[0] == b
    ensures b != 0 ==> Toy(ProposalData(b, id)) != ZERO_32
  {
    hide ProposalData, Toy, PC.Parse, PC.Meaning;
    ProposalDataRead(b, id);
    ProposalDataNotZero(b, id);
  }

  /** The data of the four inputs, told apart by the first byte of its hash. */
  lemma TwoMarks(second: byte)
    requires second < 4
    ensures |TwoTx(second).inputs| == 4
    ensures forall k :: 0 <= k < 4 ==>
              TwoTx(second).inputs[k].cell.data != []
                && Toy(TwoTx(second).inputs[k].cell.data)[0] == [2, second, 4, 5][k]
    ensures TwoTx(second).inputs[2].cell.data == ProposalData(4, 7)
            && TwoTx(second).inputs[3].cell.data == ProposalData(5, 8)
  {
    hide Toy, ProposalData, Data, TwoTx, Plain, Lock, Self;
    TwoInputs(second);
    RegistryMark(2, []);
    RegistryMark(second, []);
    ProposalMark(4, 7);
    ProposalMark(5, 8);
  }

  lemma TwoFound(second: byte)
    requires second < 4
    ensures FindInput(TwoTx(second).inputs, Toy(ProposalData(4, 7)), Toy) == Some(2)
    ensures FindInput(TwoTx(second).inputs, Toy(ProposalData(5, 8)), Toy) == Some(3)
  {
    hide Toy, ProposalData, TwoTx, FindInput;
    var ins := TwoTx(second).inputs;
    TwoMarks(second);
    ProposalMark(4, 7);
    ProposalMark(5, 8);
    FoundAt(ins, 2, ProposalData(4, 7));
    FoundAt(ins, 3, ProposalData(5, 8));
  }

  lemma SelvesDiffer()
    ensures Self(4) != Self(5) && TypeId(4) != TypeId(5)
  {
    hide TypeId, Fill, Toy;
    TypeIdByte(4);
    TypeIdByte(5);
    SelfArgs(4);
    SelfArgs(5);
  }

  lemma TwoUpdates(second: byte)
    requires second < 4
    ensures |TwoTx(second).inputs| == 4 && |TwoTx(second).outputs| == 2
    ensures BR.Update(TypeArgs(4), TwoTx(second), 0, 0, Toy).Ok? && BR.Update(TypeArgs(5), TwoTx(second), 1, 1, Toy).Ok?
    ensures BR.ProposalOf(TwoTx(second), 0, Toy) == Some(PC.Meaning(Adding(7), TypeId(4), Toy))
    ensures BR.ProposalOf(TwoTx(second), 1, Toy) == Some(PC.Meaning(Adding(8), TypeId(5), Toy))
  {
    hide Toy, ProposalData, Data, TwoTx, FindInput, RD.EncodeSince, WA.GovernanceWitness, TypeId, BR.Update,
      BR.ProposalOf, PC.Meaning, Self, Lock, Bound, Grows, After, GH.CliWritable;
    TwoInputs(second);
    TwoOutputs(second);
    PlainWritable(2);
    PlainWritable(second);
    FirstAdded(7);
    FirstAdded(8);
    TwoFound(second);
    Updates(4, Plain(2), [], 7, TwoTx(second), 0, 0, 2, [Vote()]);
    Updates(5, Plain(second), [], 8, TwoTx(second), 1, 1, 3, []);
  }

  /** A script with one input and one output, at the same index, stands at these positions. */
  lemma PositionsOf(tx: Tx, self: Script, i: nat)
    requires i < |tx.inputs| && i < |tx.outputs|
    requires forall k :: 0 <= k < |tx.inputs| ==> (tx.inputs[k].cell.typ == Some(self) <==> k == i)
    requires forall k :: 0 <= k < |tx.outputs| ==> (tx.outputs[k].typ == Some(self) <==> k == i)
    ensures BR.RegistryInputs(tx, self) == [i] && BR.RegistryOutputs(tx, self) == [i]
  {
    PositionsAre(tx.inputs, BR.InputHasType(self), Some(i));
    PositionsAre(tx.outputs, BR.HasType(self), Some(i));
  }

  lemma TwoTypes(second: byte)
    requires second < 4
    ensures |TwoTx(second).inputs| == 4 && |TwoTx(second).outputs| == 2
    ensures TwoTx(second).inputs[0].cell.typ == TwoTx(second).outputs[0].typ == Some(Self(4))
    ensures TwoTx(second).inputs[1].cell.typ == TwoTx(second).outputs[1].typ == Some(Self(5))
    ensures TwoTx(second).inputs[2].cell.typ == TwoTx(second).inputs[3].cell.typ == None
  {
    hide RD.EncodeSince, WA.GovernanceWitness, Self, Lock, Data, Plain, ProposalData, FirstBound, At;
  }

  lemma TwoPositions(second: byte)
    requires second < 4
    ensures BR.RegistryInputs(TwoTx(second), Self(4)) == [0] && BR.RegistryOutputs(TwoTx(second), Self(4)) == [0]
    ensures BR.RegistryInputs(TwoTx(second), Self(5)) == [1] && BR.RegistryOutputs(TwoTx(second), Self(5)) == [1]
  {
    hide TwoTx, Self, TypeId, BR.RegistryInputs, BR.RegistryOutputs;
    TwoTypes(second);
    SelvesDiffer();
    PositionsOf(TwoTx(second), Self(4), 0);
    PositionsOf(TwoTx(second), Self(5), 1);
  }

  lemma TwoRegistriesAccept(second: byte)
    requires second < 4
    ensures BR.Entry(Self(4), TwoTx(second), Toy).Ok? && BR.Entry(Self(5), TwoTx(second), Toy).Ok?
    ensures Executed(Self(4), TwoTx(second), Toy) == [PC.Meaning(Adding(7), TypeId(4), Toy)]
    ensures Executed(Self(5), TwoTx(second), Toy) == [PC.Meaning(Adding(8), TypeId(5), Toy)]
  {
    hide Toy, TwoTx, BR.RegistryInputs, BR.RegistryOutputs, TypeId, BR.Update, BR.ProposalOf, PC.Meaning, Self,
      BR.ParseTypeArgs, TypeArgs;
    TwoUpdates(second);
    TwoPositions(second);
    SelfArgs(4);
    SelfArgs(5);
  }

  // ---- the ledger they are on ----

  /** Only the cells of registries run the registry script; proposal cells run nothing governed. */
  lemma CodesOf(b: byte, h: GH.CliHeader, es: seq<RF.Entry>, capacity: u64, id: byte)
    requires RF.WellSized(es)
    ensures IsRegistry(Deployed(), RegistryCell(b, h, es, capacity))
            && IsGoverned(Deployed(), RegistryCell(b, h, es, capacity))
    ensures !IsRegistry(Deployed(), ProposalCell(b, id)) && !IsGoverned(Deployed(), ProposalCell(b, id))
  {
    hide Data, ProposalData, TypeId;
    CodesDiffer(0x25, GOVERNANCE);
  }

  lemma RegistryKept(s: State, b: byte, h: GH.CliHeader, es: seq<RF.Entry>, capacity: u64)
    requires RF.Canonical(es) && GH.CliWritable(h) && Seed(b) in s.used && Seed(b) !in s.live
    ensures IsRegistry(Deployed(), RegistryCell(b, h, es, capacity))
            && WellKept(Deployed(), s, RegistryCell(b, h, es, capacity))
    ensures TypeIdOf(RegistryCell(b, h, es, capacity)) == Some(TypeId(b))
  {
    hide Data, Toy, Fill, RF.ParsePayload, BR.ParseTypeArgs, Self, Lock, RF.Ascending, GH.CliWritable,
      BR.GovernanceScript, BR.TypeIdPreimage;
    DataRead(h, es);
    SelfArgs(b);
    SelfIsRegistry(b);
    var birth: u64 := 0;
    assert Toy(BR.TypeIdPreimage(Seed(b), birth)) == TypeId(b);
  }

  lemma SelfIsRegistry(b: byte)
    ensures (Self(b).codeHash, Self(b).hashType) in Deployed().registryCodes
  {
  }

  lemma PointsDiffer()
    ensures forall a: byte, b: byte | a != b :: At(a) != At(b) && Seed(a) != At(b)
  {
    forall a: byte, b: byte | a != b
      ensures At(a) != At(b) && Seed(a) != At(b)
    {
      CodesDiffer(a, b);
    }
  }

  lemma TwoStateShape(second: byte)
    requires second < 4
    ensures TwoState(second).live.Keys == {At(0x41), At(0x42), At(0x43), At(0x44)}
    ensures TwoState(second).live[At(0x41)] == RegistryCell(4, Plain(2), [], 1)
    ensures TwoState(second).live[At(0x42)] == RegistryCell(5, Plain(second), [], 1)
    ensures TwoState(second).live[At(0x43)] == ProposalCell(4, 7)
            && TwoState(second).live[At(0x44)] == ProposalCell(5, 8)
    ensures TwoState(second).used == {At(0x41), At(0x42), At(0x43), At(0x44), Seed(4), Seed(5)}
    ensures Seed(4) !in TwoState(second).live && Seed(5) !in TwoState(second).live
  {
    hide RegistryCell, ProposalCell, At, Seed;
    PointsDiffer();
  }

  lemma TwoStateKept(second: byte)
    requires second < 4
    ensures Inv(Deployed(), TwoState(second))
  {
    hide TwoState, RegistryCell, ProposalCell, At, Seed, WellKept, IsRegistry, IsGoverned, Deployed, TypeIdOf, TypeId,
      GH.CliWritable, Plain;
    var (r, s) := (Deployed(), TwoState(second));
    TwoStateShape(second);
    PlainWritable(2);
    PlainWritable(second);
    SelvesDiffer();
    RegistryKept(s, 4, Plain(2), [], 1);
    RegistryKept(s, 5, Plain(second), [], 1);
    CodesOf(4, Plain(2), [], 1, 7);
    CodesOf(5, Plain(second), [], 1, 8);
  }

  lemma TwoPoints(second: byte)
    requires second < 4
    ensures |TwoTx(second).inputs| == 4 && |TwoTx(second).outputs| == 2
    ensures TwoTx(second).inputs[0].outPoint == At(0x41)
            && TwoTx(second).inputs[0].cell == RegistryCell(4, Plain(2), [], 1)
    ensures TwoTx(second).inputs[1].outPoint == At(0x42)
            && TwoTx(second).inputs[1].cell == RegistryCell(5, Plain(second), [], 1)
    ensures TwoTx(second).inputs[2].outPoint == At(0x43) && TwoTx(second).inputs[2].cell == ProposalCell(4, 7)
    ensures TwoTx(second).inputs[3].outPoint == At(0x44) && TwoTx(second).inputs[3].cell == ProposalCell(5, 8)
  {
    hide RegistryCell, ProposalCell, At, FirstBound, WA.GovernanceWitness, RD.EncodeSince, Plain;
  }

  lemma TwoFresh(second: byte)
    requires second < 4
    ensures |TwoTx(second).outputs| == 2
    ensures forall p :: p in Created(TwoTx(second).outputs, 2, Code(0x51)) ==> p !in TwoState(second).used
  {
    hide TwoTx, TwoState, Created, Code, RegistryCell, ProposalCell;
    TwoPoints(second);
    TwoStateShape(second);
    FreshCode(0x51);
  }

  /** Type scripts accept as soon as every registry cell runs one that accepts. */
  lemma ScriptsAccept(r: Rules, tx: Tx, selves: set<Script>)
    requires forall i :: 0 <= i < |tx.inputs| && IsRegistry(r, tx.inputs[i].cell) ==>
            tx.inputs[i].cell.typ.value in selves
    requires forall o :: 0 <= o < |tx.outputs| && IsRegistry(r, tx.outputs[o]) ==> tx.outputs[o].typ.value in selves
    requires forall self <- selves :: BR.Entry(self, tx, r.blake).Ok?
    ensures RegistryScriptsAccept(r, tx)
  {
    hide BR.Entry;
  }

  lemma TwoLive(second: byte)
    requires second < 4
    ensures var (s, tx) := (TwoState(second), TwoTx(second));
            forall i :: 0 <= i < |tx.inputs| ==>
              tx.inputs[i].outPoint in s.live && s.live[tx.inputs[i].outPoint] == tx.inputs[i].cell
  {
    hide TwoTx, TwoState, RegistryCell, ProposalCell, Plain, At;
    TwoStateShape(second);
    TwoPoints(second);
  }

  lemma TwoDistinct(second: byte)
    requires second < 4
    ensures var ins := TwoTx(second).inputs;
            forall i, j :: 0 <= i < j < |ins| ==> ins[i].outPoint != ins[j].outPoint
  {
    hide TwoTx, RegistryCell, ProposalCell, Plain;
    TwoPoints(second);
    assert forall b: byte :: Code(b)[0] == b;
    var ins := TwoTx(second).inputs;
    assert forall i :: 0 <= i < |ins| ==> ins[i].outPoint.txHash[0] == 0x41 + i;
  }

  lemma TwoAccept(second: byte)
    requires second < 4
    ensures RegistryScriptsAccept(Deployed(), TwoTx(second))
  {
    hide TwoTx, BR.Entry, Self, IsRegistry, Toy, IsGoverned, Lock, RegistryScriptsAccept, Executed, PC.Meaning;
    TwoRegistriesAccept(second);
    TwoRegistryCells(second);
    ScriptsAccept(Deployed(), TwoTx(second), {Self(4), Self(5)});
  }

  lemma TwoUnsigned(second: byte)
    requires second < 4
    ensures Unsigned(Deployed(), TwoState(second), TwoTx(second), Code(0x51))
  {
    hide TwoTx, TwoState, RegistryCell, ProposalCell, Code, At, Created, RegistryScriptsAccept, Deployed, Plain;
    TwoPoints(second);
    var (s, tx) := (TwoState(second), TwoTx(second));
    TwoLive(second);
    TwoDistinct(second);
    TwoFresh(second);
    assert forall p :: p in Created(tx.outputs, |tx.outputs|, Code(0x51)) ==> p !in s.used;
    TwoAccept(second);
  }

  lemma FreshCode(b: byte)
    ensures forall a: byte | a != b :: Code(a) != Code(b)
  {
    forall a: byte | a != b
      ensures Code(a) != Code(b)
    {
      CodesDiffer(a, b);
    }
  }

  lemma TwoLockScripts(second: byte)
    requires second < 4
    ensures |TwoTx(second).inputs| == 4 && |TwoTx(second).outputs| == 2
    ensures TwoTx(second).inputs[0].cell.lock == TwoTx(second).inputs[1].cell.lock == Lock()
    ensures TwoTx(second).inputs[2].cell.lock == TwoTx(second).inputs[3].cell.lock == Script(Code(0x25), 0, [])
  {
    hide RD.EncodeSince, WA.GovernanceWitness, Self, Lock, Data, Plain, ProposalData, FirstBound, At, Code;
  }

  /** Which cells of the transaction run which script. */
  lemma TwoRegistryCells(second: byte)
    requires second < 4
    ensures |TwoTx(second).inputs| == 4 && |TwoTx(second).outputs| == 2
    ensures forall i :: 0 <= i < 4 ==> (IsRegistry(Deployed(), TwoTx(second).inputs[i].cell) <==> i < 2)
    ensures forall i :: 0 <= i < 4 ==> (IsGoverned(Deployed(), TwoTx(second).inputs[i].cell) <==> i < 2)
    ensures TwoTx(second).inputs[0].cell.typ == TwoTx(second).outputs[0].typ == Some(Self(4))
    ensures TwoTx(second).inputs[1].cell.typ == TwoTx(second).outputs[1].typ == Some(Self(5))
    ensures TwoTx(second).inputs[0].cell.lock == TwoTx(second).inputs[1].cell.lock == Lock()
    ensures TwoTx(second).inputs[2].cell.lock == TwoTx(second).inputs[3].cell.lock != Lock()
  {
    hide TwoTx, Data, ProposalData, Self, Code;
    TwoTypes(second);
    TwoLockScripts(second);
    SelfIsRegistry(4);
    SelfIsRegistry(5);
    FreshCode(0x25);
  }

  lemma TwoLocks(second: byte)
    requires second < 4
    ensures GovernanceLocksAccept(Deployed(), TwoTx(second))
    ensures |TwoTx(second).inputs| == 4 && !IsFirst(TwoTx(second), 1)
  {
    hide TwoTx, Lock, GL.Entry, IsGoverned, Toy, Recovers, Data, WA.GovernanceWitness, WA.LockReads, FindInput,
      RD.EncodeSince, Bound, GH.CliWritable;
    var tx := TwoTx(second);
    TwoRegistryCells(second);
    TwoInputs(second);
    TwoOutputs(second);
    TwoFound(second);
    PlainWritable(2);
    LockAccepts(Plain(2), [], Data(Plain(2), Added(7)), 4, 7, tx, 0, 2);
    LockArgs();
    assert FirstOfGroup(tx.inputs, Lock()) == 0;
  }

  lemma LockArgs()
    ensures Lock().args == [0x01]
  {
  }

  lemma NeverSigns(idHash: Bytes32)
    ensures !GL.SignedYes(Key(3), idHash, Toy, Recovers)
  {
    hide VM.Canonical, VM.Ascii, VM.TimestampOk;
    assert Key(2)[0] == 2 && Key(3)[0] == 3;
  }

  /**
   * Being first in the lock group is needed: on a ledger that keeps the invariant, a transaction is accepted that
   * spends two registries under one lock, and the second takes in an identifier although the one validator its
   * header lists has signed nothing at all.
   */
  lemma SecondRegistryUnasked()
    ensures Inv(Deployed(), TwoState(3)) && CanApply(Deployed(), TwoState(3), TwoTx(3), Code(0x51))
    ensures |TwoTx(3).inputs| == 4 && Attributable(Deployed(), TwoTx(3), 1, [Key(3)]) && !IsFirst(TwoTx(3), 1)
    ensures TwoTx(3).inputs[1].cell.typ == Some(Self(5))
    ensures Executed(Self(5), TwoTx(3), Toy) == [PC.Proposal(TypeId(5), PC.Add, [8], 0, None)]
    ensures forall idHash: Bytes32 :: !GL.SignedYes(Key(3), idHash, Toy, Recovers)
    ensures !Consented(Deployed(), TwoTx(3), 1, [Key(3)])
  {
    hide TwoTx, TwoState, Unsigned, GovernanceLocksAccept, Inv, IsRegistry, IsGoverned, Executed, GL.SignedYes,
      IsFirst, BoundAt, Toy, PC.Meaning, GH.ParseLockHeader, Self, Code, Commits, Key, TypeId;
    TwoStateKept(3);
    TwoUnsigned(3);
    TwoLocks(3);
    TwoRegistriesAccept(3);
    TwoRegistryCells(3);
    MeaningIs(5, 8);
    forall idHash: Bytes32
      ensures !GL.SignedYes(Key(3), idHash, Toy, Recovers)
    {
      NeverSigns(idHash);
    }
    SecondCommits(3);
    NobodyConsents();
  }

  lemma SecondCommits(second: byte)
    requires second < 4
    ensures |TwoTx(second).inputs| == 4 && Commits(TwoTx(second).inputs[1].cell, [Key(second)], Toy)
            && VotesAt(TwoTx(second), 1) == []
    ensures GH.ParseLockHeader(TwoTx(second).inputs[1].cell.data).Ok?
    ensures GH.ParseLockHeader(TwoTx(second).inputs[1].cell.data).value.threshold == 1
  {
    hide TwoTx, Toy, Data, WA.LockReads, WA.GovernanceWitness, MT.TreeRoot, GH.CliEncodeHeader, GH.HeaderSlice,
      GH.LockHeaderOf, FirstBound, GH.CliWritable, Key, RF.ParsePayload, GH.ParseTreasuryHash, WA.RegistryReads,
      WA.ParseGov1, WA.EncodeGov1;
    TwoInputs(second);
    TwoOutputs(second);
    PlainWritable(second);
    DataRead(Plain(second), []);
    GH.CliHeaderAccepted(Plain(second));
    OneValidator(second);
    WA.RoundTrip([], FirstBound(5, second, 8));
  }

  lemma NobodyConsents()
    ensures |TwoTx(3).inputs| == 4 && !Consented(Deployed(), TwoTx(3), 1, [Key(3)])
  {
    hide TwoTx, GL.SignedYes, BoundAt, GH.ParseLockHeader, Toy, Key, Commits, VotesAt;
    SecondCommits(3);
    if Consented(Deployed(), TwoTx(3), 1, [Key(3)]) {
      var idHash := BoundAt(TwoTx(3), 1).value.proposalIdHash;
      var signers: set<Pubkey> :| |signers| >= 1 && SignersOf(signers, [Key(3)], idHash, Deployed());
      var pk: Pubkey :| pk in signers;
      NeverSigns(idHash);
      assert false;
    }
  }
}
