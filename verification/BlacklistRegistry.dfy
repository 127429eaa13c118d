/** blacklist-registry: how the registry cell may change. */
module BlacklistRegistry {
  import opened Bytes
  import opened Chain
  import opened Molecule
  import opened Scan
  import opened Capacity
  import GH = GovernanceHeader
  import PC = ProposalCell
  import RF = RegistryFormat
  import TR = Transition
  import WA = WitnessArgs

  const SYS_ERROR := -1
  const INVALID_TYPE_ARGS_LAYOUT := 20
  const INVALID_TOPOLOGY := 21
  const INVALID_PAYLOAD := 22
  const UNSUPPORTED_VERSION := 23
  const INVALID_WITNESS := 24
  const UNAUTHORIZED_LOCK := 25
  const INVALID_TYPE_ID := 27
  const INVALID_PROPOSAL_CELL := 28

  datatype TypeArgs = TypeArgs(govCodeHash: Bytes32, govHashType: byte, typeId: Bytes32)

  /** `RegistryTypeArgs::parse`: version(1)=2 | governance_code_hash(32) | hash_type(1) | type_id_value(32). */
  function ParseTypeArgs(args: seq<byte>): Option<TypeArgs> {
    if |args| != 66 || args[0] != 0x02 then None
    else Some(TypeArgs(args[1..33], args[33], args[34..66]))
  }

  /** The lock every registry cell with these type args must carry. */
  function GovernanceScript(t: TypeArgs): Script {
    Script(t.govCodeHash, t.govHashType, [0x01])
  }

  function HasType(s: Script): Cell -> bool {
    (c: Cell) => c.typ == Some(s)
  }

  function InputHasType(s: Script): Input -> bool {
    (i: Input) => i.cell.typ == Some(s)
  }

  /** `find_registry_cells` on each side. */
  function RegistryInputs(tx: Tx, self: Script): seq<nat> { Positions(tx.inputs, InputHasType(self)) }
  function RegistryOutputs(tx: Tx, self: Script): seq<nat> { Positions(tx.outputs, HasType(self)) }

  /** The Type ID a bootstrap transaction gives its output (RFC 0022, section Type ID). */
  function TypeIdPreimage(o: OutPoint, outputIndex: nat): seq<byte> {
    OutPointBytes(o) + Le8(outputIndex)
  }

  function PayloadError(e: RF.ParseError): int {
    if e == RF.UnsupportedVersion then UNSUPPORTED_VERSION else INVALID_PAYLOAD
  }

  /** The GOV1 checks common to both kinds of transaction. */
  function Binding(tx: Tx, witnessIndex: nat, oldRoot: Bytes32, newRoot: Bytes32): Result<WA.Gov1, int> {
    if witnessIndex >= |tx.witnesses| then Err(SYS_ERROR)
    else
      match WA.RegistryReads(tx.witnesses[witnessIndex])
      case None => Err(INVALID_WITNESS)
      case Some(payload) =>
        match WA.ParseGov1(payload)
        case None => Err(INVALID_WITNESS)
        case Some(gov) =>
          if gov.oldRoot != oldRoot || gov.newRoot != newRoot then Err(INVALID_WITNESS)
          else if gov.proposalIdHash == ZERO_32 || gov.voteDigestHash == ZERO_32 then Err(INVALID_WITNESS)
          else Ok(gov)
  }

  function Bootstrap(t: TypeArgs, tx: Tx, o: nat, blake: Hasher): Result<(), int>
    requires o < |tx.outputs|
  {
    if tx.inputs == [] then Err(SYS_ERROR)
    else if blake(TypeIdPreimage(tx.inputs[0].outPoint, o)) != t.typeId then Err(INVALID_TYPE_ID)
    else if tx.outputs[o].lock != GovernanceScript(t) then Err(UNAUTHORIZED_LOCK)
    else
      match RF.ParseStrict(tx.outputs[o].data)
      case Err(e) => Err(PayloadError(e))
      case Ok(_) =>
        match GH.ParseTreasuryHash(tx.outputs[o].data, blake)
        case Err(e) => Err(e)
        case Ok(_) =>
          match Binding(tx, 0, ZERO_32, blake(tx.outputs[o].data))
          case Err(e) => Err(e)
          case Ok(_) => Ok(())
  }

  function Update(t: TypeArgs, tx: Tx, i: nat, o: nat, blake: Hasher): Result<(), int>
    requires i < |tx.inputs| && o < |tx.outputs|
  {
    if tx.inputs[i].cell.lock != GovernanceScript(t) || tx.outputs[o].lock != GovernanceScript(t)
      then Err(UNAUTHORIZED_LOCK)
    else
      match RF.ParseStrict(tx.outputs[o].data)
      case Err(e) => Err(PayloadError(e))
      case Ok(new_) =>
        match GH.ParseTreasuryHash(tx.outputs[o].data, blake)
        case Err(e) => Err(e)
        case Ok(treasury) =>
          match RF.ParseStrict(tx.inputs[i].cell.data)
          case Err(e) => Err(PayloadError(e))
          case Ok(old_) =>
            match Binding(tx, i, blake(tx.inputs[i].cell.data), blake(tx.outputs[o].data))
            case Err(e) => Err(e)
            case Ok(gov) => Proposed(t, tx, i, o, old_.entries, new_.entries, treasury, gov, blake)
  }

  /** The part of an update that looks at the proposal cell and the treasury. */
  function Proposed(
      t: TypeArgs, tx: Tx, i: nat, o: nat, old_: seq<RF.Entry>, new_: seq<RF.Entry>,
      treasury: Option<Bytes32>, gov: WA.Gov1, blake: Hasher): Result<(), int>
    requires i < |tx.inputs| && o < |tx.outputs|
  {
    if gov.proposalDataHash == ZERO_32 then Err(INVALID_WITNESS)
    else
      match FindInput(tx.inputs, gov.proposalDataHash, blake)
      case None => Err(INVALID_PROPOSAL_CELL)
      case Some(p) =>
        match PC.Parse(tx.inputs[p].cell.data)
        case Err(e) => Err(e)
        case Ok(proposal) =>
          if proposal.typeId != t.typeId then Err(INVALID_PROPOSAL_CELL)
          else if !TR.Matches(old_, new_, tx.outputs[o].data, proposal, blake) then Err(INVALID_PROPOSAL_CELL)
          else if treasury.Some? && proposal.action != PC.SetGovernanceHeader
                  && !TreasuryReturned(tx, i, o, p, treasury.value, blake) then Err(INVALID_PROPOSAL_CELL)
          else Ok(())
  }

  /** The proposal cell belonged to the treasury and the treasury gets its capacity back. */
  predicate TreasuryReturned(tx: Tx, i: nat, o: nat, p: nat, treasury: Bytes32, blake: Hasher)
    requires i < |tx.inputs| && o < |tx.outputs| && p < |tx.inputs|
  {
    ScriptHash(tx.inputs[p].cell.lock, blake) == treasury
    && Saturated(tx.outputs, treasury, blake)
       >= RequiredReturn(Saturated(InputCells(tx.inputs), treasury, blake), tx.inputs[i].cell.capacity,
         tx.outputs[o].capacity)
  }

  /** `program_entry` for the running type script `self`. */
  function Entry(self: Script, tx: Tx, blake: Hasher): Result<(), int> {
    match ParseTypeArgs(self.args)
    case None => Err(INVALID_TYPE_ARGS_LAYOUT)
    case Some(t) =>
      var (ins, outs) := (RegistryInputs(tx, self), RegistryOutputs(tx, self));
      if |outs| != 1 || |ins| > 1 then Err(INVALID_TOPOLOGY)
      else
        PositionsExact(tx.outputs, HasType(self), outs[0]);
        if ins == [] then Bootstrap(t, tx, outs[0], blake)
        else
          PositionsExact(tx.inputs, InputHasType(self), ins[0]);
          Update(t, tx, ins[0], outs[0], blake)
  }

  /** `program_entry` with its loops. */
  method ProgramEntry(self: Script, tx: Tx, blake: Hasher) returns (r: Result<(), int>)
    ensures r == Entry(self, tx, blake)
  {
    hide Positions, Bootstrap, Binding, RF.ParseStrict, GH.ParseTreasuryHash, PC.Parse, TR.Matches, FindInput,
      Saturated;
    var t := ParseTypeArgs(self.args);
    if t.None? {
      return Err(INVALID_TYPE_ARGS_LAYOUT);
    }
    var regInputs := CollectPositions(tx.inputs, InputHasType(self));
    var regOutputs := CollectPositions(tx.outputs, HasType(self));
    if |regOutputs| != 1 || |regInputs| > 1 {
      return Err(INVALID_TOPOLOGY);
    }
    var regOut := regOutputs[0];
    PositionsExact(tx.outputs, HasType(self), regOut);
    if regInputs == [] {
      r := BootstrapEntry(t.value, tx, regOut, blake);
      return;
    }
    var regIn := regInputs[0];
    PositionsExact(tx.inputs, InputHasType(self), regIn);
    r := UpdateEntry(t.value, tx, regIn, regOut, blake);
  }

  method BootstrapEntry(t: TypeArgs, tx: Tx, o: nat, blake: Hasher) returns (r: Result<(), int>)
    requires o < |tx.outputs|
    ensures r == Bootstrap(t, tx, o, blake)
  {
    hide Binding, RF.ParseStrict, GH.ParseTreasuryHash, Le8, OutPointBytes;
    if tx.inputs == [] {
      return Err(SYS_ERROR);
    }
    if blake(OutPointBytes(tx.inputs[0].outPoint) + Le8(o)) != t.typeId {
      return Err(INVALID_TYPE_ID);
    }
    if tx.outputs[o].lock != GovernanceScript(t) {
      return Err(UNAUTHORIZED_LOCK);
    }
    var registry := RF.ParseStrict(tx.outputs[o].data);
    if registry.Err? {
      return Err(if registry.error == RF.UnsupportedVersion then UNSUPPORTED_VERSION else INVALID_PAYLOAD);
    }
    var treasury := GH.ParseTreasuryHash(tx.outputs[o].data, blake);
    if treasury.Err? {
      return Err(treasury.error);
    }
    var gov := ReadBinding(tx, 0, ZERO_32, blake(tx.outputs[o].data));
    if gov.Err? {
      return Err(gov.error);
    }
    return Ok(());
  }

  method ReadBinding(tx: Tx, witnessIndex: nat, oldRoot: Bytes32, newRoot: Bytes32) returns (r: Result<WA.Gov1, int>)
    ensures r == Binding(tx, witnessIndex, oldRoot, newRoot)
  {
    hide WA.RegistryReads, WA.ParseGov1;
    if witnessIndex >= |tx.witnesses| {
      return Err(SYS_ERROR);
    }
    var payload := WA.LoadGovernanceWitnessPayload(tx.witnesses[witnessIndex]);
    if payload.None? {
      return Err(INVALID_WITNESS);
    }
    var gov := WA.ParseGov1(payload.value);
    if gov.None? || gov.value.oldRoot != oldRoot || gov.value.newRoot != newRoot {
      return Err(INVALID_WITNESS);
    }
    if gov.value.proposalIdHash == ZERO_32 || gov.value.voteDigestHash == ZERO_32 {
      return Err(INVALID_WITNESS);
    }
    return Ok(gov.value);
  }

  method UpdateEntry(t: TypeArgs, tx: Tx, i: nat, o: nat, blake: Hasher) returns (r: Result<(), int>)
    requires i < |tx.inputs| && o < |tx.outputs|
    ensures r == Update(t, tx, i, o, blake)
  {
    hide Binding, RF.ParseStrict, GH.ParseTreasuryHash, PC.Parse, TR.Matches, FindInput, Saturated;
    if tx.inputs[i].cell.lock != GovernanceScript(t) || tx.outputs[o].lock != GovernanceScript(t) {
      return Err(UNAUTHORIZED_LOCK);
    }
    var newRegistry := RF.ParseStrict(tx.outputs[o].data);
    if newRegistry.Err? {
      return Err(if newRegistry.error == RF.UnsupportedVersion then UNSUPPORTED_VERSION else INVALID_PAYLOAD);
    }
    var treasury := GH.ParseTreasuryHash(tx.outputs[o].data, blake);
    if treasury.Err? {
      return Err(treasury.error);
    }
    var oldRegistry := RF.ParseStrict(tx.inputs[i].cell.data);
    if oldRegistry.Err? {
      return Err(if oldRegistry.error == RF.UnsupportedVersion then UNSUPPORTED_VERSION else INVALID_PAYLOAD);
    }
    var gov := ReadBinding(tx, i, blake(tx.inputs[i].cell.data), blake(tx.outputs[o].data));
    if gov.Err? {
      return Err(gov.error);
    }
    if gov.value.proposalDataHash == ZERO_32 {
      return Err(INVALID_WITNESS);
    }
    var proposalIndex := FindInputByDataHash(tx.inputs, gov.value.proposalDataHash, blake);
    if proposalIndex.None? {
      return Err(INVALID_PROPOSAL_CELL);
    }
    var p := proposalIndex.value;
    var proposal := PC.Parse(tx.inputs[p].cell.data);
    if proposal.Err? {
      return Err(proposal.error);
    }
    if proposal.value.typeId != t.typeId {
      return Err(INVALID_PROPOSAL_CELL);
    }
    var matches := TR.TransitionMatchesProposal(
      oldRegistry.value.entries, newRegistry.value.entries, tx.outputs[o].data, proposal.value, blake);
    if !matches {
      return Err(INVALID_PROPOSAL_CELL);
    }
    if treasury.value.Some? {
      var treasuryHash := treasury.value.value;
      if proposal.value.action == PC.SetGovernanceHeader {
        return Ok(());
      }
      if ScriptHash(tx.inputs[p].cell.lock, blake) != treasuryHash {
        return Err(INVALID_PROPOSAL_CELL);
      }
      var treasuryIn := CapacityForLockHash(InputCells(tx.inputs), treasuryHash, blake);
      var minReturn := RequiredReturn(treasuryIn, tx.inputs[i].cell.capacity, tx.outputs[o].capacity);
      var treasuryOut := CapacityForLockHash(tx.outputs, treasuryHash, blake);
      if treasuryOut < minReturn {
        return Err(INVALID_PROPOSAL_CELL);
      }
    }
    return Ok(());
  }

  // ---- what acceptance means ----

  /** The proposal an update transaction carries out, read as the script reads it. */
  function ProposalOf(tx: Tx, i: nat, blake: Hasher): Option<PC.Proposal> {
    if i >= |tx.witnesses| then None
    else
      match WA.RegistryReads(tx.witnesses[i])
      case None => None
      case Some(payload) =>
        match WA.ParseGov1(payload)
        case None => None
        case Some(gov) =>
          match FindInput(tx.inputs, gov.proposalDataHash, blake)
          case None => None
          case Some(p) => match PC.Parse(tx.inputs[p].cell.data) case Ok(proposal) => Some(proposal) case Err(_) => None
  }

  /** An accepted update applies its proposal to the map its entries stand for, and keeps them ascending. */
  lemma UpdateAppliesProposal(t: TypeArgs, tx: Tx, i: nat, o: nat, blake: Hasher)
    requires i < |tx.inputs| && o < |tx.outputs| && Update(t, tx, i, o, blake).Ok?
    ensures RF.ParseStrict(tx.inputs[i].cell.data).Ok? && RF.ParseStrict(tx.outputs[o].data).Ok?
    ensures ProposalOf(tx, i, blake).Some? && ProposalOf(tx, i, blake).value.typeId == t.typeId
    ensures var old_ := RF.ParseStrict(tx.inputs[i].cell.data).value.entries;
            var new_ := RF.ParseStrict(tx.outputs[o].data).value.entries;
            RF.Ascending(old_) && RF.Ascending(new_)
            && TR.ToMap(new_) == TR.Apply(TR.ToMap(old_), ProposalOf(tx, i, blake).value)
  {
    hide TR.Matches, PC.Parse, WA.RegistryReads, WA.ParseGov1, FindInput, RF.ParseStrict, GH.ParseTreasuryHash,
      TR.ToMap, RF.Ascending;
    var old_ := RF.ParseStrict(tx.inputs[i].cell.data).value.entries;
    var new_ := RF.ParseStrict(tx.outputs[o].data).value.entries;
    RF.EncodeOfStrict(tx.inputs[i].cell.data);
    RF.EncodeOfStrict(tx.outputs[o].data);
    CanonicalIsAscending(old_);
    CanonicalIsAscending(new_);
    TR.AcceptedAppliesProposal(old_, new_, tx.outputs[o].data, ProposalOf(tx, i, blake).value, blake);
  }

  lemma CanonicalIsAscending(es: seq<RF.Entry>)
    requires RF.Canonical(es)
    ensures RF.Ascending(es)
  {
  }

  /** An accepted update is bound by its GOV1 payload to the bytes it replaces and to one proposal cell. */
  lemma UpdateBinding(t: TypeArgs, tx: Tx, i: nat, o: nat, blake: Hasher) returns (gov: WA.Gov1, p: nat)
    requires i < |tx.inputs| && o < |tx.outputs| && Update(t, tx, i, o, blake).Ok?
    ensures i < |tx.witnesses| && WA.RegistryReads(tx.witnesses[i]).Some?
    ensures WA.ParseGov1(WA.RegistryReads(tx.witnesses[i]).value) == Some(gov)
    ensures gov.oldRoot == blake(tx.inputs[i].cell.data) && gov.newRoot == blake(tx.outputs[o].data)
    ensures FindInput(tx.inputs, gov.proposalDataHash, blake) == Some(p) && PC.Parse(tx.inputs[p].cell.data).Ok?
    ensures ProposalOf(tx, i, blake) == Some(PC.Parse(tx.inputs[p].cell.data).value)
  {
    hide TR.Matches, PC.Parse, WA.RegistryReads, WA.ParseGov1, FindInput, RF.ParseStrict, GH.ParseTreasuryHash,
      TreasuryReturned;
    gov := WA.ParseGov1(WA.RegistryReads(tx.witnesses[i]).value).value;
    p := FindInput(tx.inputs, gov.proposalDataHash, blake).value;
  }

  /** The args, byte for byte. */
  lemma TypeArgsExact(args: seq<byte>, t: TypeArgs)
    ensures ParseTypeArgs(args) == Some(t) <==> args == [2] + t.govCodeHash + [t.govHashType] + t.typeId
  {
    if args == [2] + t.govCodeHash + [t.govHashType] + t.typeId {
      FourPieces<byte>(args, [2], t.govCodeHash, [t.govHashType], t.typeId);
    }
    if ParseTypeArgs(args) == Some(t) {
      FourTogether(args);
    }
  }

  lemma FourPieces<T>(s: seq<T>, a: seq<T>, b: seq<T>, c: seq<T>, d: seq<T>)
    requires s == a + b + c + d && |a| == |c| == 1 && |b| == |d| == 32
    ensures |s| == 66 && s[0] == a[0] && s[1..33] == b && s[33] == c[0] && s[34..66] == d
  {
  }

  lemma FourTogether<T>(s: seq<T>)
    requires |s| == 66
    ensures s == [s[0]] + s[1..33] + [s[33]] + s[34..66]
  {
  }

  /** The GOV1 payload a witness must carry for these two roots. */
  ghost predicate Binds(tx: Tx, w: nat, oldRoot: Bytes32, newRoot: Bytes32) {
    exists g: WA.Gov1 ::
      w < |tx.witnesses| && WA.RegistryReads(tx.witnesses[w]) == Some(WA.EncodeGov1(g))
      && g.oldRoot == oldRoot && g.newRoot == newRoot && g.proposalIdHash != ZERO_32 && g.voteDigestHash != ZERO_32
  }

  lemma BindingExact(tx: Tx, w: nat, oldRoot: Bytes32, newRoot: Bytes32)
    ensures Binding(tx, w, oldRoot, newRoot).Ok? <==> Binds(tx, w, oldRoot, newRoot)
  {
    hide WA.RegistryReads, WA.ParseGov1, WA.EncodeGov1;
    if w < |tx.witnesses| && WA.RegistryReads(tx.witnesses[w]).Some? {
      var payload := WA.RegistryReads(tx.witnesses[w]).value;
      forall g: WA.Gov1
        ensures WA.ParseGov1(payload) == Some(g) <==> payload == WA.EncodeGov1(g)
      {
        WA.Gov1Exact(payload, g);
      }
    }
  }

  /**
   * Creating a registry, exactly: with no input and one output of the type the script accepts iff the type id is made
   * from the first outpoint and the output's index, the lock is the one the args name, the payload parses strictly
   * under a readable treasury, and witness 0 binds the zero root to the hash of the payload under two ids that are
   * not zero.
   */
  lemma BootstrapExact(self: Script, t: TypeArgs, tx: Tx, o: nat, blake: Hasher)
    requires self.args == [2] + t.govCodeHash + [t.govHashType] + t.typeId
    requires o < |tx.outputs| && forall k :: 0 <= k < |tx.outputs| ==> (tx.outputs[k].typ == Some(self) <==> k == o)
    requires forall k :: 0 <= k < |tx.inputs| ==> tx.inputs[k].cell.typ != Some(self)
    ensures Entry(self, tx, blake).Ok?
       <==> tx.inputs != [] && blake(OutPointBytes(tx.inputs[0].outPoint) + Le8(o)) == t.typeId
            && tx.outputs[o].lock == Script(t.govCodeHash, t.govHashType, [1])
            && RF.ParseStrict(tx.outputs[o].data).Ok? && GH.ParseTreasuryHash(tx.outputs[o].data, blake).Ok?
            && Binds(tx, 0, seq(32, _ => 0), blake(tx.outputs[o].data))
  {
    hide ParseTypeArgs, Positions, RF.ParseStrict, GH.ParseTreasuryHash, Binding, Binds, OutPointBytes, Le8;
    TypeArgsExact(self.args, t);
    PositionsAre(tx.inputs, InputHasType(self), None);
    PositionsAre(tx.outputs, HasType(self), Some(o));
    var zero := seq(32, _ => 0);
    assert zero == ZERO_32;
    BindingExact(tx, 0, ZERO_32, blake(tx.outputs[o].data));
  }

  /** How a bootstrap is refused: the first check that fails gives the exit code. */
  lemma BootstrapRefused(t: TypeArgs, tx: Tx, o: nat, blake: Hasher)
    requires o < |tx.outputs| && tx.inputs != []
    ensures var data := tx.outputs[o].data;
            Bootstrap(t, tx, o, blake)
            == if blake(OutPointBytes(tx.inputs[0].outPoint) + Le8(o)) != t.typeId then Err(27)
            else if tx.outputs[o].lock != Script(t.govCodeHash, t.govHashType, [1]) then Err(25)
            else if RF.ParseStrict(data) == Err(RF.UnsupportedVersion) then Err(23)
            else if RF.ParseStrict(data).Err? || GH.ParseTreasuryHash(data, blake).Err? then Err(22)
            else if tx.witnesses == [] then Err(-1)
            else if !Binds(tx, 0, seq(32, _ => 0), blake(data)) then Err(24)
            else Ok(())
  {
    hide RF.ParseStrict, GH.ParseTreasuryHash, Binding, Binds, OutPointBytes, Le8;
    var zero := seq(32, _ => 0);
    assert zero == ZERO_32;
    if GH.ParseTreasuryHash(tx.outputs[o].data, blake).Err? {
      GH.TreasuryRefused(tx.outputs[o].data, blake);
    }
    BindingExact(tx, 0, ZERO_32, blake(tx.outputs[o].data));
    BindingRefused(tx, 0, ZERO_32, blake(tx.outputs[o].data));
  }

  lemma BindingRefused(tx: Tx, w: nat, oldRoot: Bytes32, newRoot: Bytes32)
    ensures w >= |tx.witnesses| ==> Binding(tx, w, oldRoot, newRoot) == Err(-1)
    ensures w < |tx.witnesses| && Binding(tx, w, oldRoot, newRoot).Err? ==>
              Binding(tx, w, oldRoot, newRoot) == Err(24)
  {
    hide WA.RegistryReads, WA.ParseGov1;
  }

  /** An update of a readable registry under the right lock, with a binding: what is left is refused with 24 or 28. */
  lemma UpdateRefused(t: TypeArgs, tx: Tx, i: nat, o: nat, blake: Hasher)
    requires i < |tx.inputs| && o < |tx.outputs|
    requires tx.inputs[i].cell.lock == tx.outputs[o].lock == GovernanceScript(t)
    requires RF.ParseStrict(tx.outputs[o].data).Ok? && GH.ParseTreasuryHash(tx.outputs[o].data, blake).Ok?
    requires RF.ParseStrict(tx.inputs[i].cell.data).Ok?
    requires Binding(tx, i, blake(tx.inputs[i].cell.data), blake(tx.outputs[o].data)).Ok?
    requires Update(t, tx, i, o, blake).Err?
    ensures var gov := Binding(tx, i, blake(tx.inputs[i].cell.data), blake(tx.outputs[o].data)).value;
            Update(t, tx, i, o, blake) == Err(if gov.proposalDataHash == ZERO_32 then 24 else 28)
  {
    hide RF.ParseStrict, GH.ParseTreasuryHash, Binding, PC.Parse, TR.Matches, FindInput, TreasuryReturned;
    var gov := Binding(tx, i, blake(tx.inputs[i].cell.data), blake(tx.outputs[o].data)).value;
    var p := FindInput(tx.inputs, gov.proposalDataHash, blake);
    if p.Some? && PC.Parse(tx.inputs[p.value].cell.data).Err? {
      PC.Refused(tx.inputs[p.value].cell.data);
    }
  }

  /** Args of another layout are refused with 20; no or several registry outputs, or several inputs, with 21. */
  lemma TopologyRefused(self: Script, tx: Tx, blake: Hasher)
    ensures ParseTypeArgs(self.args).None? ==> Entry(self, tx, blake) == Err(20)
    ensures ParseTypeArgs(self.args).Some?
            && (|RegistryOutputs(tx, self)| != 1 || |RegistryInputs(tx, self)| > 1) ==>
              Entry(self, tx, blake) == Err(21)
  {
    hide ParseTypeArgs, Bootstrap, Update, Positions;
  }

  /** With exactly one input of its type, an accepted transaction is an accepted update of it. */
  lemma EntryIsUpdate(self: Script, tx: Tx, i: nat, blake: Hasher) returns (o: nat)
    requires Entry(self, tx, blake).Ok? && i < |tx.inputs| && tx.inputs[i].cell.typ == Some(self)
    ensures RegistryInputs(tx, self) == [i] && ParseTypeArgs(self.args).Some?
    ensures o < |tx.outputs| && tx.outputs[o].typ == Some(self)
    ensures Update(ParseTypeArgs(self.args).value, tx, i, o, blake).Ok?
  {
    hide Positions, Update, ParseTypeArgs, Bootstrap;
    PositionsExact(tx.inputs, InputHasType(self), i);
    assert RegistryInputs(tx, self) == [i];
    o := RegistryOutputs(tx, self)[0];
    PositionsExact(tx.outputs, HasType(self), o);
  }
}
