/** proposal-anchor: the type script of a treasury-funded proposal cell. */
module AnchorType {
  import opened Bytes
  import opened Buffer
  import opened Chain
  import opened Molecule
  import opened Scan
  import opened Capacity
  import opened ReviewDelay
  import PC = ProposalCell

  const INVALID_TYPE_ARGS := 31
  const INVALID_TOPOLOGY := 32
  const INVALID_PROPOSAL_DATA := 33
  const INVALID_RECLAIM_RETURN := 35
  const INVALID_RECLAIM_SINCE := 36

  datatype AnchorArgs = AnchorArgs(typeId: Bytes32, treasury: Bytes32, delayMs: u64)

  /**
   * `AnchorArgs::parse`: version(1)=1 | registry_type_id_value(32) | treasury_lock_hash(32) | reclaim_delay_ms(8 LE).
   */
  function ParseArgs(raw: seq<byte>): Option<AnchorArgs> {
    if |raw| != 73 || raw[0] != 0x01 then None
    else Some(AnchorArgs(raw[1..33], raw[33..65], U64At(raw, 65)))
  }

  function EncodeArgs(a: AnchorArgs): (b: seq<byte>)
    ensures |b| == 73
  {
    [0x01] + a.typeId + a.treasury + Le8(a.delayMs)
  }

  /** `encodeProposalAnchorTypeArgs`: None where it throws on a delay outside 64 bits. */
  method EncodeProposalAnchorTypeArgs(typeId: Bytes32, treasury: Bytes32, delayMs: int) returns (r: Option<seq<byte>>)
    ensures r == if 0 <= delayMs <= U64_MAX then Some(EncodeArgs(AnchorArgs(typeId, treasury, delayMs))) else None
  {
    hide Written, Le8;
    if delayMs < 0 || delayMs > U64_MAX {
      return None;
    }
    var out := new byte[73](_ => 0);
    AllWritten(out);
    var off := Append(out, 0, [0x01]);
    off := Append(out, off, typeId);
    off := Append(out, off, treasury);
    off := AppendU64(out, off, delayMs);
    AllWritten(out);
    assert out[..] == EncodeArgs(AnchorArgs(typeId, treasury, delayMs));
    return Some(out[..]);
  }

  /** The script reads args iff they are what the CLI writes for what it reads. */
  lemma ArgsExact(raw: seq<byte>, a: AnchorArgs)
    ensures ParseArgs(raw) == Some(a) <==> raw == EncodeArgs(a)
  {
    hide Le8;
    if raw == EncodeArgs(a) {
      FourParts<byte>(raw, [0x01], a.typeId, a.treasury, Le8(a.delayMs));
      U64Written(raw, 65, a.delayMs);
    }
    if ParseArgs(raw) == Some(a) {
      U64Bytes(raw, 65);
      FourSlices(raw);
      assert [raw[0]] == [0x01 as byte];
    }
  }

  lemma FourParts<T>(s: seq<T>, a: seq<T>, b: seq<T>, c: seq<T>, d: seq<T>)
    requires s == a + b + c + d && |a| == 1 && |b| == |c| == 32 && |d| == 8
    ensures s[0] == a[0] && s[1..33] == b && s[33..65] == c && s[65..73] == d
  {
  }

  lemma FourSlices<T>(s: seq<T>)
    requires |s| == 73
    ensures s == [s[0]] + s[1..33] + s[33..65] + s[65..73]
  {
  }

  /** `running_type_args` up to the args: the FixVec at the third offset of the running script's table. */
  function RunningArgs(raw: seq<byte>): Option<seq<byte>> {
    if |raw| < 17 then None
    else
      var argsOff := U32At(raw, 12);
      if argsOff + 4 > |raw| then None
      else
        var end := argsOff + 4 + U32At(raw, argsOff);
        if end > |raw| then None else Some(raw[argsOff + 4..end])
  }

  lemma RunningArgsAre(s: Script)
    requires |s.args| + 53 < 0x1_0000_0000
    ensures RunningArgs(EncodeScript(s)) == Some(s.args)
  {
    hide EncodeScript;
    EncodedScriptFields(s);
    var raw := EncodeScript(s);
    assert raw[53..|raw|] == raw[53..];
  }

  function HasTypeHash(h: Bytes32, blake: Hasher): Cell -> bool {
    (c: Cell) => c.typ.Some? && ScriptHash(c.typ.value, blake) == h
  }

  /** A cell leaving: valid data, aged at least the delay, and its capacity less 1 CKB back to the treasury. */
  function Consumed(a: AnchorArgs, i: Input, outputs: seq<Cell>, blake: Hasher): Result<(), int> {
    if !PC.ValidatePblk(i.cell.data, a.typeId) then Err(INVALID_PROPOSAL_DATA)
    else if AnchorSinceMs(i.since).None? then Err(INVALID_RECLAIM_SINCE)
    else if AnchorSinceMs(i.since).value < a.delayMs then Err(INVALID_RECLAIM_SINCE)
    else if Saturated(outputs, a.treasury, blake) < SaturatingSub(i.cell.capacity, MAX_ANCHOR_FEE)
      then Err(INVALID_RECLAIM_RETURN)
    else Ok(())
  }

  /** `program_entry` for the running type script `self`. */
  function Entry(self: Script, tx: Tx, blake: Hasher): Result<(), int> {
    match RunningArgs(EncodeScript(self))
    case None => Err(INVALID_TYPE_ARGS)
    case Some(raw) =>
      match ParseArgs(raw)
      case None => Err(INVALID_TYPE_ARGS)
      case Some(a) =>
        var p := HasTypeHash(ScriptHash(self, blake), blake);
        var (ins, outs) := (Positions(InputCells(tx.inputs), p), Positions(tx.outputs, p));
        if |ins| > 1 || |outs| > 1 || (ins == [] && outs == []) then Err(INVALID_TOPOLOGY)
        else if outs != [] && !(PositionsExact(tx.outputs, p, outs[0]);
                              PC.ValidatePblk(tx.outputs[outs[0]].data, a.typeId)) then
          Err(INVALID_PROPOSAL_DATA)
        else if ins != [] then
          PositionsExact(InputCells(tx.inputs), p, ins[0]);
          Consumed(a, tx.inputs[ins[0]], tx.outputs, blake)
        else Ok(())
  }

  /** `program_entry` with its loops. */
  method ProgramEntry(self: Script, tx: Tx, blake: Hasher) returns (r: Result<(), int>)
    ensures r == Entry(self, tx, blake)
  {
    hide Positions, Saturated, PC.ValidatePblk, RunningArgs, ParseArgs, ScriptHash, AnchorSinceMs;
    var raw := RunningArgs(EncodeScript(self));
    if raw.None? {
      return Err(INVALID_TYPE_ARGS);
    }
    var args := ParseArgs(raw.value);
    if args.None? {
      return Err(INVALID_TYPE_ARGS);
    }
    var p := HasTypeHash(ScriptHash(self, blake), blake);
    var inputAnchors := CollectPositions(InputCells(tx.inputs), p);
    var outputAnchors := CollectPositions(tx.outputs, p);
    if |inputAnchors| > 1 || |outputAnchors| > 1 || (inputAnchors == [] && outputAnchors == []) {
      return Err(INVALID_TOPOLOGY);
    }
    if outputAnchors != [] {
      PositionsExact(tx.outputs, p, outputAnchors[0]);
      if !PC.ValidatePblk(tx.outputs[outputAnchors[0]].data, args.value.typeId) {
        return Err(INVALID_PROPOSAL_DATA);
      }
    }
    if inputAnchors != [] {
      PositionsExact(InputCells(tx.inputs), p, inputAnchors[0]);
      var input := tx.inputs[inputAnchors[0]];
      if !PC.ValidatePblk(input.cell.data, args.value.typeId) {
        return Err(INVALID_PROPOSAL_DATA);
      }
      var delay := AnchorSinceMs(input.since);
      if delay.None? || delay.value < args.value.delayMs {
        return Err(INVALID_RECLAIM_SINCE);
      }
      var minReturn := SaturatingSub(input.cell.capacity, MAX_ANCHOR_FEE);
      var treasuryReturn := CapacityForLockHash(tx.outputs, args.value.treasury, blake);
      if treasuryReturn < minReturn {
        return Err(INVALID_RECLAIM_RETURN);
      }
    }
    return Ok(());
  }

  /**
   * Spending an anchor: it is the only one of its type, its data is a proposal for the configured registry, its
   * `since` is at least the delay (the same words governance-lock accepts), and the outputs give the treasury
   * at least its capacity less 1 CKB, counted exactly.
   */
  lemma SpentAnchor(self: Script, tx: Tx, i: nat, blake: Hasher, a: AnchorArgs)
    requires Entry(self, tx, blake).Ok? && i < |tx.inputs| && tx.inputs[i].cell.typ == Some(self)
    requires self.args == EncodeArgs(a)
    ensures forall j :: 0 <= j < |tx.inputs| && tx.inputs[j].cell.typ == Some(self) ==> j == i
    ensures PC.Parse(tx.inputs[i].cell.data).Ok? && PC.Parse(tx.inputs[i].cell.data).value.typeId == a.typeId
    ensures RelativeSeconds(tx.inputs[i].since, a.delayMs)
    ensures Sum(tx.outputs, a.treasury, blake) + 100_000_000 >= tx.inputs[i].cell.capacity
  {
    hide Positions, Saturated, PC.ValidatePblk, PC.Parse, RunningArgs, ParseArgs, AnchorSinceMs, Sum, EncodeArgs;
    RunningArgsAre(self);
    ArgsExact(self.args, a);
    var p := HasTypeHash(ScriptHash(self, blake), blake);
    var cells := InputCells(tx.inputs);
    OnlyPosition(cells, p, i);
    PC.SameLanguage(tx.inputs[i].cell.data, a.typeId);
    AcceptedWords(tx.inputs[i].since, a.delayMs);
    SaturatedIsCappedSum(tx.outputs, a.treasury, blake);
    forall j | 0 <= j < |tx.inputs| && tx.inputs[j].cell.typ == Some(self)
      ensures j == i
    {
      assert p(cells[j]);
      OnlyPosition(cells, p, j);
    }
  }

  /**
   * Spending an anchor and creating none, exactly: the first of data, age and return that is not in order gives the
   * exit code, 33, 36 or 35.
   */
  lemma ReclaimExact(self: Script, tx: Tx, i: nat, blake: Hasher, a: AnchorArgs)
    requires self.args == EncodeArgs(a) && i < |tx.inputs|
    requires forall k :: 0 <= k < |tx.inputs| ==>
               var typ := tx.inputs[k].cell.typ;
               (typ.Some? && ScriptHash(typ.value, blake) == ScriptHash(self, blake) <==> k == i)
    requires forall k :: 0 <= k < |tx.outputs| ==>
               tx.outputs[k].typ.Some? ==> ScriptHash(tx.outputs[k].typ.value, blake) != ScriptHash(self, blake)
    ensures Entry(self, tx, blake)
         == if !PC.ValidatePblk(tx.inputs[i].cell.data, a.typeId) then Err(33)
            else if !RelativeSeconds(tx.inputs[i].since, a.delayMs) then Err(36)
            else if Sum(tx.outputs, a.treasury, blake) + 100_000_000 < tx.inputs[i].cell.capacity then Err(35)
            else Ok(())
  {
    hide Positions, Saturated, PC.ValidatePblk, RunningArgs, ParseArgs, Sum, EncodeArgs, EncodeScript,
      RelativeSeconds;
    RunningArgsAre(self);
    ArgsExact(self.args, a);
    var p := HasTypeHash(ScriptHash(self, blake), blake);
    PositionsAre(InputCells(tx.inputs), p, Some(i));
    PositionsAre(tx.outputs, p, None);
    AcceptedWords(tx.inputs[i].since, a.delayMs);
    AnchorReads(tx.inputs[i].since);
    SaturatedIsCappedSum(tx.outputs, a.treasury, blake);
  }

  /** Without an anchor, or with two on one side, the topology is refused with 32; unreadable args with 31. */
  lemma Refused(self: Script, tx: Tx, blake: Hasher)
    requires |self.args| + 53 < 0x1_0000_0000
    ensures ParseArgs(self.args).None? ==> Entry(self, tx, blake) == Err(31)
    ensures ParseArgs(self.args).Some? ==>
              var p := HasTypeHash(ScriptHash(self, blake), blake);
              var (n, m) := (|Positions(InputCells(tx.inputs), p)|, |Positions(tx.outputs, p)|);
              (Entry(self, tx, blake) == Err(32) <==> n > 1 || m > 1 || n + m == 0)
  {
    hide ParseArgs, EncodeScript, RunningArgs, ScriptHash, PC.ValidatePblk, Saturated;
    RunningArgsAre(self);
  }

  /** Creating an anchor: it is the only output of its type and its data is a proposal for the configured registry. */
  lemma CreatedAnchor(self: Script, tx: Tx, o: nat, blake: Hasher, a: AnchorArgs)
    requires Entry(self, tx, blake).Ok? && o < |tx.outputs| && tx.outputs[o].typ == Some(self)
    requires self.args == EncodeArgs(a)
    ensures forall k :: 0 <= k < |tx.outputs| && tx.outputs[k].typ == Some(self) ==> k == o
    ensures PC.Parse(tx.outputs[o].data).Ok? && PC.Parse(tx.outputs[o].data).value.typeId == a.typeId
  {
    hide Positions, Saturated, PC.ValidatePblk, PC.Parse, RunningArgs, ParseArgs, AnchorSinceMs, Consumed, EncodeArgs,
      ScriptHash;
    RunningArgsAre(self);
    ArgsExact(self.args, a);
    var p := HasTypeHash(ScriptHash(self, blake), blake);
    OnlyPosition(tx.outputs, p, o);
    PC.SameLanguage(tx.outputs[o].data, a.typeId);
    forall k | 0 <= k < |tx.outputs| && tx.outputs[k].typ == Some(self)
      ensures k == o
    {
      OnlyPosition(tx.outputs, p, k);
    }
  }

  /**
   * Creating an anchor, exactly: a transaction with one output of the type and no such input is accepted iff the args
   * parse and the output's data names the registry they name. The output's lock plays no part.
   */
  lemma CreationExact(self: Script, tx: Tx, o: nat, blake: Hasher)
    requires |self.args| + 53 < 0x1_0000_0000 && o < |tx.outputs| && tx.outputs[o].typ == Some(self)
    requires var p := HasTypeHash(ScriptHash(self, blake), blake);
             (forall k :: 0 <= k < |tx.outputs| && p(tx.outputs[k]) ==> k == o)
             && forall k :: 0 <= k < |tx.inputs| ==> !p(tx.inputs[k].cell)
    ensures Entry(self, tx, blake).Ok?
       <==> ParseArgs(self.args).Some? && PC.ValidatePblk(tx.outputs[o].data, ParseArgs(self.args).value.typeId)
  {
    hide PC.ValidatePblk, RunningArgs, ParseArgs, ScriptHash, Consumed;
    var p := HasTypeHash(ScriptHash(self, blake), blake);
    RunningArgsAre(self);
    PositionsAre(tx.outputs, p, Some(o));
    PositionsAre(InputCells(tx.inputs), p, None);
  }

  lemma OnlyPosition<T>(s: seq<T>, p: T -> bool, i: nat)
    requires i < |s| && p(s[i]) && |Positions(s, p)| <= 1
    ensures Positions(s, p) == [i]
  {
    PositionsExact(s, p, i);
  }
}
