/**
 * The transaction `execute` builds where the governance header names no treasury: when it is built at all, and under
 * exactly which conditions the registry script and the governance lock accept it.
 */
module ExecutePlain {
  import opened Bytes
  import opened Scan
  import opened Chain
  import opened Molecule
  import opened ExecutePlan
  import opened ExecuteTx
  import opened YesVotes
  import opened Ledger
  import EA = ExecuteAccepted
  import BR = BlacklistRegistry
  import CB = CliBuilder
  import EL = ExecuteOnLedger
  import GH = GovernanceHeader
  import GL = GovernanceLock
  import MT = MerkleTree
  import PC = ProposalCell
  import RD = ReviewDelay
  import RF = RegistryFormat
  import TR = Transition
  import WA = WitnessArgs
  import WI = Witness

  predicate NoTreasury(h: GH.CliHeader) {
    h.treasuryLockHash.None? && h.treasuryLockScript.None?
  }

  /** A job under a header without a treasury, its draft, and a hash that tells the two cells' data apart. */
  ghost predicate Plain(j: Job, d: Draft, tx: Tx, self: Script, blake: Hasher, recover: GL.Recover) {
    && EA.Genuine(j, self) && DraftOf(j, blake, recover) == Some(d) && NoTreasury(d.header)
    && MT.CollisionFree(blake, {j.registry.cell.data, j.anchor.cell.data})
    && Reach(j) <= U64_MAX && Built(j, blake, recover) == Some(tx)
  }

  /**
   * Without a treasury `execute` builds a transaction iff the proposal is encodable and applicable, the proposal cell
   * holds its data and pays the fee and its own bytes, and the votes and their digest check out.
   */
  lemma BuildsExactly(j: Job, self: Script, current: CB.Registry, h: GH.CliHeader, blake: Hasher, recover: GL.Recover)
    requires EA.Genuine(j, self) && Reach(j) <= U64_MAX && NoTreasury(h)
    requires CB.Current(j.registry.cell.data) == Some(current) && GH.CliParseHeader(current.header) == Some(h)
    ensures var typeId := BR.ParseTypeArgs(self.args).value.typeId;
            (Built(j, blake, recover).Some?
             <==> PC.Encodable(j.proposal) && CB.Applicable(current, j.proposal)
                  && j.anchor.cell.data == PC.Encode(j.proposal, typeId, blake)
                  && j.anchor.cell.capacity >= 100_000 + 100_000_000 * CellSize(j.anchor.cell.lock, None, 0)
                  && Approved(j, h, blake, recover) && WI.Buildable(Submitted(j.votes)))
  {
    hide CB.Current, CB.Transformed, CB.Applicable, GH.CliParseHeader, PC.Encode, Approved, BR.ParseTypeArgs,
      WI.AllEncodable, AnchorTypeMatches, Reach, Occupied, Assembled, WitnessOf, CellSize;
    OccupiedIsSize(j.anchor.cell.lock, None, 0);
    CB.CurrentExact(j.registry.cell.data, current);
    if PC.Encodable(j.proposal) {
      CB.TransformedWhen(current, j.proposal);
    }
  }

  // ---- the transaction ----

  lemma PlainPayout(j: Job, h: GH.CliHeader, typeId: Bytes32, newData: seq<byte>, blake: Hasher)
    requires NoTreasury(h) && PayoutOf(j, h, typeId, newData, blake).Some?
    ensures PayoutOf(j, h, typeId, newData, blake).value
         == Payout(Plan([], j.registry.cell.capacity, j.anchor.cell.capacity - FEE, 0), j.anchor.cell.lock)
  {
    hide Occupied;
  }

  lemma Shape(j: Job, d: Draft, tx: Tx, self: Script, blake: Hasher, recover: GL.Recover)
    requires Plain(j, d, tx, self, blake, recover)
    ensures |tx.inputs| == |tx.outputs| == 2 && WI.Buildable(Submitted(j.votes))
    ensures tx.inputs[0].outPoint == j.registry.outPoint && tx.inputs[0].cell == j.registry.cell
    ensures tx.inputs[1] == Input(j.anchor.outPoint, RD.EncodeSince(j.delayMs), j.anchor.cell)
    ensures tx.outputs[0] == Cell(j.registry.cell.capacity, j.registry.cell.lock, j.registry.cell.typ, d.newData)
    ensures tx.outputs[1].lock == j.anchor.cell.lock && tx.outputs[1].typ == None
    ensures tx.outputs[1].capacity + 100_000 == j.anchor.cell.capacity && tx.outputs[1].data == []
    ensures |tx.witnesses| == 2 && tx.witnesses[0] == WitnessOf(j, d.newData, blake)
  {
    hide DraftOf, Reach, MT.CollisionFree, EA.Genuine, Built, WitnessOf, RD.EncodeSince, PayoutOf, CB.Current,
      CB.NewData, Approved, PC.Encodable, WI.AllEncodable, WA.EncodeArgs;
    var current := EA.DraftSays(j, blake, recover, d);
    EA.BuiltIs(j, blake, recover, d);
    PlainPayout(j, d.header, d.typeId, d.newData, blake);
    NoneSpent();
  }

  /**
   * The change pays for its own bytes. The registry cell keeps its capacity, so it pays for its new bytes iff it
   * already carried as much.
   */
  lemma OutputsCovered(j: Job, d: Draft, tx: Tx, self: Script, blake: Hasher, recover: GL.Recover)
    requires Plain(j, d, tx, self, blake, recover)
    ensures |tx.outputs| == 2 && CoversItself(tx.outputs[1])
    ensures CoversItself(tx.outputs[0])
       <==> j.registry.cell.capacity
            >= 100_000_000 * CellSize(j.registry.cell.lock, j.registry.cell.typ, |d.newData|)
  {
    hide Plain, WitnessOf, WI.AllEncodable, RD.EncodeSince, CellSize;
    Shape(j, d, tx, self, blake, recover);
    ChangePays(j, d, tx, self, blake, recover);
  }

  lemma ChangePays(j: Job, d: Draft, tx: Tx, self: Script, blake: Hasher, recover: GL.Recover)
    requires Plain(j, d, tx, self, blake, recover)
    ensures j.anchor.cell.capacity >= 100_000 + 100_000_000 * CellSize(j.anchor.cell.lock, None, 0)
  {
    hide DraftOf, Reach, MT.CollisionFree, EA.Genuine, Built, CB.Current, CB.NewData, Approved, PC.Encodable,
      WI.AllEncodable, Occupied, CellSize;
    var current := EA.DraftSays(j, blake, recover, d);
    OccupiedIsSize(j.anchor.cell.lock, None, 0);
  }

  lemma NoneSpent()
    ensures Inputs([]) == [] && forall w: seq<byte> :: Repeat(w, 0) == []
  {
  }

  lemma Drafted(j: Job, d: Draft, tx: Tx, self: Script, blake: Hasher, recover: GL.Recover)
    requires Plain(j, d, tx, self, blake, recover)
    ensures EA.Genuine(j, self) && DraftOf(j, blake, recover) == Some(d)
    ensures j.registry.cell.typ == Some(self) && BR.ParseTypeArgs(self.args).Some?
    ensures j.registry.cell.lock == BR.GovernanceScript(BR.ParseTypeArgs(self.args).value)
    ensures d.typeId == BR.ParseTypeArgs(self.args).value.typeId && GH.CliTreasuryHash(d.header, blake) == None
    ensures PC.Encodable(j.proposal) && j.anchor.cell.data == PC.Encode(j.proposal, d.typeId, blake)
    ensures PC.Parse(j.anchor.cell.data) == Ok(PC.Meaning(j.proposal, d.typeId, blake))
  {
    hide DraftOf, Reach, MT.CollisionFree, Built, PayoutOf, CB.Current, CB.NewData, Approved, PC.Encodable,
      WI.AllEncodable, BR.ParseTypeArgs, PC.Encode, PC.Parse, PC.Meaning;
    var current := EA.DraftSays(j, blake, recover, d);
    PC.EncodedCellIsRead(j.proposal, d.typeId, blake);
  }

  /** The proposal cell is the one input the proposal data hash picks out. */
  lemma FindsAnchor(j: Job, d: Draft, tx: Tx, self: Script, blake: Hasher, recover: GL.Recover)
    requires Plain(j, d, tx, self, blake, recover)
    ensures |tx.inputs| == 2 && FindInput(tx.inputs, blake(j.anchor.cell.data), blake) == Some(1)
    ensures blake(j.anchor.cell.data) != ZERO_32
  {
    hide Plain, WitnessOf, RD.EncodeSince, EA.Genuine, DraftOf, BR.ParseTypeArgs, PC.Encode, PC.Parse;
    Shape(j, d, tx, self, blake, recover);
    DataDiffers(j, d, tx, self, blake, recover);
    UniqueExact(tx.inputs, HasDataHash(blake(j.anchor.cell.data), blake), 1);
  }

  lemma DataDiffers(j: Job, d: Draft, tx: Tx, self: Script, blake: Hasher, recover: GL.Recover)
    requires Plain(j, d, tx, self, blake, recover)
    ensures j.anchor.cell.data != [] && j.registry.cell.data != []
    ensures blake(j.anchor.cell.data) != blake(j.registry.cell.data) && blake(j.anchor.cell.data) != ZERO_32
  {
    hide DraftOf, Reach, Built, EA.Genuine, CB.Current, PayoutOf, Approved, PC.Encodable, WI.AllEncodable, PC.Parse,
      BR.ParseTypeArgs;
    Drafted(j, d, tx, self, blake, recover);
    var current := EA.DraftSays(j, blake, recover, d);
    CB.CurrentExact(j.registry.cell.data, current);
    CB.PrefixFields(j.registry.cell.data, current);
    assert j.anchor.cell.data[0..4][0] == 0x50 && j.registry.cell.data[0..4][0] == 0x42;
  }

  // ---- blacklist-registry ----

  lemma UpdateAccepts(j: Job, d: Draft, tx: Tx, self: Script, blake: Hasher, recover: GL.Recover)
    requires Plain(j, d, tx, self, blake, recover) && EA.PayloadFits(j)
    ensures |tx.inputs| == |tx.outputs| == 2 && BR.ParseTypeArgs(self.args).Some?
    ensures BR.Update(BR.ParseTypeArgs(self.args).value, tx, 0, 0, blake).Ok?
       <==> j.idHash != ZERO_32 && j.digest != ZERO_32
  {
    hide Plain, EA.PayloadFits, BR.ParseTypeArgs, PC.Parse, PC.Encodable, PC.Encode, BR.Binding, RF.ParsePayload,
      GH.ParseTreasuryHash, GH.CliTreasuryHash, TR.Matches, CB.Current, CB.Fits, BR.GovernanceScript, WitnessOf,
      WI.AllEncodable, RD.EncodeSince, DraftOf, EA.Genuine, FindInput;
    EA.FitsGives(j);
    Drafted(j, d, tx, self, blake, recover);
    Shape(j, d, tx, self, blake, recover);
    var old_, new_ := EA.PayloadsOf(j, d, self, blake, recover);
    EA.BindingRead(j, tx, d.newData, blake);
    FindsAnchor(j, d, tx, self, blake, recover);
  }

  /**
   * blacklist-registry accepts the built transaction iff the two ids are not zero and the proposal cell is no registry
   * cell of this type itself.
   */
  lemma RegistryAccepts(j: Job, d: Draft, tx: Tx, self: Script, blake: Hasher, recover: GL.Recover)
    requires Plain(j, d, tx, self, blake, recover) && EA.PayloadFits(j)
    ensures BR.Entry(self, tx, blake).Ok?
       <==> j.idHash != ZERO_32 && j.digest != ZERO_32 && j.anchor.cell.typ != Some(self)
  {
    hide Plain, EA.PayloadFits, BR.Update, BR.ParseTypeArgs, PC.Parse, PC.Encodable, PC.Encode, BR.GovernanceScript,
      RD.EncodeSince, WitnessOf, WI.AllEncodable, DraftOf, EA.Genuine, Positions;
    Shape(j, d, tx, self, blake, recover);
    Drafted(j, d, tx, self, blake, recover);
    PositionsAre(tx.outputs, BR.HasType(self), Some(0));
    if j.anchor.cell.typ == Some(self) {
      TwoOfType(tx, self);
    } else {
      PositionsAre(tx.inputs, BR.InputHasType(self), Some(0));
      UpdateAccepts(j, d, tx, self, blake, recover);
    }
  }

  lemma TwoOfType(tx: Tx, self: Script)
    requires |tx.inputs| == 2 && tx.inputs[0].cell.typ == tx.inputs[1].cell.typ == Some(self)
    ensures |BR.RegistryInputs(tx, self)| > 1
  {
    var p := BR.InputHasType(self);
    PositionsExact(tx.inputs, p, 0);
    PositionsExact(tx.inputs, p, 1);
    assert 0 in BR.RegistryInputs(tx, self) && 1 in BR.RegistryInputs(tx, self);
  }

  // ---- governance-lock ----

  /** governance-lock accepts the built transaction under the very conditions it has under a treasury. */
  lemma LockAccepts(j: Job, d: Draft, tx: Tx, self: Script, blake: Hasher, recover: GL.Recover)
    requires Plain(j, d, tx, self, blake, recover)
    ensures |tx.inputs| == 2 && tx.inputs[0].cell == j.registry.cell
    ensures GL.Entry(j.registry.cell.lock.args, tx, 0, blake, recover).Ok?
       <==> 1 <= d.header.threshold <= d.header.validatorCount && j.idHash != ZERO_32 && j.digest != ZERO_32
            && j.delayMs % 1000 == 0 && EA.VotesAdmissible(j, d.header)
  {
    hide Plain, WI.AllEncodable, RD.EncodeSince, RD.LockAcceptsSince, Approved, GL.CountVotes, FindInput,
      GH.ParseLockHeader, WA.LockReads, WA.ParseGov1, WA.EncodeGov1, EA.VotesAdmissible, WA.GovernanceWitness,
      BR.ParseTypeArgs, DraftOf, EA.Genuine, PC.Encode, PC.Parse, PC.Encodable;
    var h := d.header;
    Shape(j, d, tx, self, blake, recover);
    Drafted(j, d, tx, self, blake, recover);
    EA.HeaderOf(j, d, blake, recover);
    WA.RoundTrip(Submitted(j.votes), Gov1Of(j, d.newData, blake));
    FindsAnchor(j, d, tx, self, blake, recover);
    RD.BuiltDelayAccepted(j.delayMs, j.delayMs);
    if 1 <= h.threshold <= h.validatorCount {
      EA.VotesCount(j, h, blake, recover);
    }
  }

  // ---- on a ledger ----

  /** The conditions of the two scripts, and a payload that fits. */
  ghost predicate Ready(j: Job, d: Draft, tx: Tx, self: Script, blake: Hasher, recover: GL.Recover) {
    && Plain(j, d, tx, self, blake, recover) && EA.PayloadFits(j)
    && j.idHash != ZERO_32 && j.digest != ZERO_32 && j.anchor.cell.typ != Some(self)
    && 1 <= d.header.threshold <= d.header.validatorCount && j.delayMs % 1000 == 0 && EA.VotesAdmissible(j, d.header)
  }

  /**
   * The two cells are live; the proposal cell is no registry and, if governed at all, under the registry's own lock.
   */
  ghost predicate OnChain(r: Rules, s: State, j: Job) {
    && EL.Lives(s, j.registry) && EL.Lives(s, j.anchor) && j.registry.outPoint != j.anchor.outPoint
    && IsRegistry(r, j.registry.cell) && !IsRegistry(r, j.anchor.cell)
    && (IsGoverned(r, j.anchor.cell) ==> j.anchor.cell.lock == j.registry.cell.lock)
  }

  /** Where all governed inputs carry the lock of input 0, that lock decides. */
  lemma FirstDecides(r: Rules, tx: Tx)
    requires |tx.inputs| == 2 && GL.Entry(tx.inputs[0].cell.lock.args, tx, 0, r.blake, r.recover).Ok?
    requires IsGoverned(r, tx.inputs[1].cell) ==> tx.inputs[1].cell.lock == tx.inputs[0].cell.lock
    ensures GovernanceLocksAccept(r, tx)
  {
    hide GL.Entry, IsGoverned;
  }

  lemma ScriptsAccept(r: Rules, s: State, j: Job, d: Draft, tx: Tx, self: Script)
    requires Ready(j, d, tx, self, r.blake, r.recover) && OnChain(r, s, j)
    ensures RegistryScriptsAccept(r, tx) && GovernanceLocksAccept(r, tx)
    ensures Executed(self, tx, r.blake) == [PC.Meaning(j.proposal, d.typeId, r.blake)]
  {
    hide Plain, EA.PayloadFits, EA.VotesAdmissible, BR.Entry, GL.Entry, DraftOf, EA.Genuine, BR.ParseTypeArgs,
      PC.Encode, PC.Parse, PC.Encodable, PC.Meaning, WI.AllEncodable, RD.EncodeSince, WitnessOf, IsRegistry, IsGoverned,
      FindInput, BR.ProposalOf, BR.GovernanceScript;
    Shape(j, d, tx, self, r.blake, r.recover);
    Drafted(j, d, tx, self, r.blake, r.recover);
    RegistryAccepts(j, d, tx, self, r.blake, r.recover);
    LockAccepts(j, d, tx, self, r.blake, r.recover);
    NoTypeNoRegistry(r, tx.outputs[1]);
    EL.OneRegistryAccepts(r, tx, self);
    FirstDecides(r, tx);
    PositionsAre(tx.inputs, BR.InputHasType(self), Some(0));
    ProposalIs(j, d, tx, self, r.blake, r.recover);
  }

  lemma NoTypeNoRegistry(r: Rules, c: Cell)
    requires c.typ == None
    ensures !IsRegistry(r, c)
  {
  }

  lemma ProposalIs(j: Job, d: Draft, tx: Tx, self: Script, blake: Hasher, recover: GL.Recover)
    requires Plain(j, d, tx, self, blake, recover)
    ensures BR.ProposalOf(tx, 0, blake) == Some(PC.Meaning(j.proposal, d.typeId, blake))
  {
    hide Plain, WI.AllEncodable, WA.RegistryReads, WA.ParseGov1, WA.EncodeGov1, WA.GovernanceWitness, FindInput,
      PC.Parse, PC.Meaning, PC.Encodable, PC.Encode, DraftOf, EA.Genuine, BR.ParseTypeArgs, RD.EncodeSince;
    Shape(j, d, tx, self, blake, recover);
    Drafted(j, d, tx, self, blake, recover);
    WA.RoundTrip(Submitted(j.votes), Gov1Of(j, d.newData, blake));
    FindsAnchor(j, d, tx, self, blake, recover);
  }

  /**
   * Without a treasury too: on every ledger that keeps the invariant, a ready job's transaction can be applied under
   * any new hash, and the registry then stands for the old map with the proposal applied.
   */
  lemma Applies(r: Rules, s: State, j: Job, d: Draft, tx: Tx, h: Bytes32, self: Script) returns (q: OutPoint)
    requires Inv(r, s) && Ready(j, d, tx, self, r.blake, r.recover) && OnChain(r, s, j)
    requires forall p :: p in s.used ==> p.txHash != h
    ensures CanApply(r, s, tx, h) && RF.ParseStrict(j.registry.cell.data).Ok?
    ensures RegistryAt(r, Next(s, tx, h), q, self)
    ensures PC.Encodable(j.proposal)
    ensures TR.ToMap(Entries(Next(s, tx, h).live[q]))
         == TR.Apply(TR.ToMap(Entries(j.registry.cell)), PC.Meaning(j.proposal, d.typeId, r.blake))
  {
    hide Plain, Inv, EA.PayloadFits, EA.VotesAdmissible, RegistryScriptsAccept, GovernanceLocksAccept, TR.ToMap,
      TR.Apply, PC.Meaning, PC.Encodable, RegistryAt, Next, Entries, DraftOf, EA.Genuine, BR.ParseTypeArgs, PC.Encode,
      PC.Parse, WI.AllEncodable, WitnessOf, RD.EncodeSince, IsRegistry, IsGoverned, Executed;
    Shape(j, d, tx, self, r.blake, r.recover);
    Drafted(j, d, tx, self, r.blake, r.recover);
    ScriptsAccept(r, s, j, d, tx, self);
    LiveRegistryAt(r, s, j.registry.outPoint);
    q := StepFollows(r, s, tx, h, j.registry.outPoint, self);
    RegistryEntries(r, s, j.registry.outPoint, self);
    EL.OneApplied(TR.ToMap(Entries(j.registry.cell)), PC.Meaning(j.proposal, d.typeId, r.blake));
  }
}
