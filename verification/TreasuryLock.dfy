/** treasury-lock: the keyless lock of the treasury cells. */
module TreasuryLock {
  import opened Bytes
  import opened Seqs
  import opened Chain
  import opened Molecule
  import opened Capacity
  import PC = ProposalCell
  import AT = AnchorType

  const ERR_INVALID_ARGS := 1
  const ERR_NO_ANCHOR_OUTPUT := 2
  const ERR_INSUFFICIENT_RETURN := 3

  const MAX_PER_TX_SPEND: u64 := 100_000_000_000

  /** The args as `program_entry` slices them out of the running script's table, without their length prefix. */
  function RunningArgs(raw: seq<byte>): Option<seq<byte>> {
    if |raw| < 16 then None
    else
      var argsOff := U32At(raw, 12);
      if argsOff > |raw| || |raw| - argsOff < 4 then None else Some(raw[argsOff + 4..])
  }

  lemma RunningArgsAre(s: Script)
    requires |s.args| + 53 < 0x1_0000_0000
    ensures RunningArgs(EncodeScript(s)) == Some(s.args)
  {
    hide EncodeScript;
    EncodedScriptFields(s);
  }

  /** `is_anchor_type_for_treasury` on the bytes of a type script. */
  predicate IsAnchorTypeFor(raw: seq<byte>, anchorCode: Bytes32, selfHash: Bytes32) {
    if |raw| < 118 then false
    else if U32At(raw, 0) != |raw| then false
    else if U32At(raw, 4) != 16 || U32At(raw, 8) != 48 || U32At(raw, 12) != 49 then false
    else raw[16..48] == anchorCode && raw[48] == 0x01 && raw[86..118] == selfHash
  }

  /** On the bytes of a script it tests the code, the hash type and the treasury field of the anchor args. */
  lemma AnchorTypeMeans(s: Script, anchorCode: Bytes32, selfHash: Bytes32)
    requires |s.args| + 53 < 0x1_0000_0000
    ensures IsAnchorTypeFor(EncodeScript(s), anchorCode, selfHash)
       <==> s.codeHash == anchorCode && s.hashType == 0x01 && |s.args| >= 65 && s.args[33..65] == selfHash
  {
    hide EncodeScript;
    EncodedScriptFields(s);
    var raw := EncodeScript(s);
    if |raw| >= 118 {
      SliceOfDrop(raw, 53, 33, 65);
    }
  }

  /** On any bytes at all: a canonical table head, then code, hash type, and the treasury where the args have it. */
  lemma AnchorTypeExact(raw: seq<byte>, anchorCode: Bytes32, selfHash: Bytes32)
    ensures IsAnchorTypeFor(raw, anchorCode, selfHash)
       <==> 118 <= |raw| < 0x1_0000_0000 && raw[..16] == Le4(|raw|) + Le4(16) + Le4(48) + Le4(49)
            && raw[16..48] == anchorCode && raw[48] == 1 && raw[86..118] == selfHash
  {
    hide Le4, U32At;
    if |raw| >= 118 {
      U32Bytes(raw, 0);
      U32Bytes(raw, 4);
      U32Bytes(raw, 8);
      U32Bytes(raw, 12);
      assert raw[..16] == raw[0..4] + raw[4..8] + raw[8..12] + raw[12..16];
      if |raw| < 0x1_0000_0000 && raw[..16] == Le4(|raw|) + Le4(16) + Le4(48) + Le4(49) {
        FourWords(raw[..16], Le4(|raw|), Le4(16), Le4(48), Le4(49));
        SliceOfSlice(raw, 0, 16, 0, 4);
        SliceOfSlice(raw, 0, 16, 4, 8);
        SliceOfSlice(raw, 0, 16, 8, 12);
        SliceOfSlice(raw, 0, 16, 12, 16);
        U32Written(raw, 0, |raw|);
        U32Written(raw, 4, 16);
        U32Written(raw, 8, 48);
        U32Written(raw, 12, 49);
      }
    }
  }

  lemma FourWords<T>(b: seq<T>, p: seq<T>, q: seq<T>, r: seq<T>, s: seq<T>)
    requires |p| == |q| == |r| == |s| == 4 && b == p + q + r + s
    ensures b[0..4] == p && b[4..8] == q && b[8..12] == r && b[12..16] == s
  {
  }

  /** The lock the code expects on a new anchor: governance-lock by type with args 0x01. */
  function GovernanceScript(govCode: Bytes32): Script {
    Script(govCode, 0x01, [0x01])
  }

  /** An output that counts as a new anchor of this treasury. */
  predicate NewAnchor(c: Cell, govCode: Bytes32, anchorCode: Bytes32, selfHash: Bytes32, blake: Hasher) {
    ScriptHash(c.lock, blake) == ScriptHash(GovernanceScript(govCode), blake)
    && c.typ.Some? && IsAnchorTypeFor(EncodeScript(c.typ.value), anchorCode, selfHash)
    && PC.PBLK <= c.data
  }

  /**
   * An output counts iff it is under the governance lock of this code with args 0x01, its type has this anchor code by
   * type and this treasury in its args, and its data begins with PBLK; two locks are told apart by their hashes.
   */
  lemma NewAnchorExact(c: Cell, govCode: Bytes32, anchorCode: Bytes32, selfHash: Bytes32, blake: Hasher)
    requires var gov := Script(govCode, 1, [1]);
             blake(EncodeScript(c.lock)) == blake(EncodeScript(gov)) ==> c.lock == gov
    requires c.typ.Some? ==> |c.typ.value.args| + 53 < 0x1_0000_0000
    ensures NewAnchor(c, govCode, anchorCode, selfHash, blake)
       <==> c.lock.codeHash == govCode && c.lock.hashType == 1 && c.lock.args == [1] && c.typ.Some?
            && c.typ.value.codeHash == anchorCode && c.typ.value.hashType == 1
            && |c.typ.value.args| >= 65 && c.typ.value.args[33..65] == selfHash
            && |c.data| >= 4 && c.data[..4] == [0x50, 0x42, 0x4c, 0x4b]
  {
    hide EncodeScript, IsAnchorTypeFor;
    if c.typ.Some? {
      AnchorTypeMeans(c.typ.value, anchorCode, selfHash);
    }
  }

  predicate SpentAnchor(i: Input, anchorCode: Bytes32, selfHash: Bytes32) {
    i.cell.typ.Some? && IsAnchorTypeFor(EncodeScript(i.cell.typ.value), anchorCode, selfHash)
  }

  /**
   * An input counts iff its type has this anchor code by type and this treasury in its args; its lock and data do
   * not.
   */
  lemma SpentAnchorExact(i: Input, anchorCode: Bytes32, selfHash: Bytes32)
    requires i.cell.typ.Some? ==> |i.cell.typ.value.args| + 53 < 0x1_0000_0000
    ensures SpentAnchor(i, anchorCode, selfHash)
       <==> i.cell.typ.Some? && i.cell.typ.value.codeHash == anchorCode && i.cell.typ.value.hashType == 1
            && |i.cell.typ.value.args| >= 65 && i.cell.typ.value.args[33..65] == selfHash
  {
    hide EncodeScript, IsAnchorTypeFor;
    if i.cell.typ.Some? {
      AnchorTypeMeans(i.cell.typ.value, anchorCode, selfHash);
    }
  }

  /** `load_group_input_capacity`: the saturating sum over the inputs with this very lock. */
  function GroupCapacity(inputs: seq<Input>, self: Script): u64 {
    if inputs == [] then 0
    else
      var last := |inputs| - 1;
      var before := GroupCapacity(inputs[..last], self);
      if inputs[last].cell.lock == self then SaturatingAdd(before, inputs[last].cell.capacity) else before
  }

  /** `program_entry` for the running lock script `self`. */
  function Entry(self: Script, tx: Tx, blake: Hasher): Result<(), int> {
    match RunningArgs(EncodeScript(self))
    case None => Err(ERR_INVALID_ARGS)
    case Some(args) =>
      if |args| != 64 then Err(ERR_INVALID_ARGS)
      else
        var (govCode, anchorCode) := (args[0..32], args[32..64]);
        var selfHash := ScriptHash(self, blake);
        if !(exists o :: 0 <= o < |tx.outputs| && NewAnchor(tx.outputs[o], govCode, anchorCode, selfHash, blake))
           && !(exists i :: 0 <= i < |tx.inputs| && SpentAnchor(tx.inputs[i], anchorCode, selfHash))
        then Err(ERR_NO_ANCHOR_OUTPUT)
        else if SaturatingAdd(Saturated(tx.outputs, selfHash, blake), MAX_PER_TX_SPEND) < GroupCapacity(tx.inputs, self)
        then Err(ERR_INSUFFICIENT_RETURN)
        else Ok(())
  }

  /** The loop over the group inputs. */
  method LoadGroupInputCapacity(inputs: seq<Input>, self: Script) returns (total: u64)
    ensures total == GroupCapacity(inputs, self)
  {
    total := 0;
    for i := 0 to |inputs|
      invariant total == GroupCapacity(inputs[..i], self)
    {
      assert inputs[..i + 1][..i] == inputs[..i];
      if inputs[i].cell.lock == self {
        total := SaturatingAdd(total, inputs[i].cell.capacity);
      }
    }
    assert inputs[..|inputs|] == inputs;
  }

  lemma NothingSaturates(target: Bytes32, blake: Hasher)
    ensures Saturated([], target, blake) == 0
  {
  }

  /** The scan of the outputs: one pass for the anchor and for the treasury's return. */
  method ScanOutputs(outputs: seq<Cell>, govCode: Bytes32, anchorCode: Bytes32, selfHash: Bytes32, blake: Hasher)
    returns (foundAnchor: bool, treasuryOut: u64)
    ensures foundAnchor <==> exists o ::
            0 <= o < |outputs| && NewAnchor(outputs[o], govCode, anchorCode, selfHash, blake)
    ensures treasuryOut == Saturated(outputs, selfHash, blake)
  {
    hide ScriptHash, IsAnchorTypeFor, EncodeScript, Saturated, SaturatingAdd;
    foundAnchor, treasuryOut := false, 0;
    var govHash := ScriptHash(GovernanceScript(govCode), blake);
    NothingSaturates(selfHash, blake);
    var i := 0;
    while i < |outputs|
      invariant 0 <= i <= |outputs|
      invariant foundAnchor <==> exists o :: 0 <= o < i && NewAnchor(outputs[o], govCode, anchorCode, selfHash, blake)
      invariant treasuryOut == Saturated(outputs[..i], selfHash, blake)
    {
      SaturatedStep(outputs, i, selfHash, blake);
      var lockHash := ScriptHash(outputs[i].lock, blake);
      if lockHash == selfHash {
        treasuryOut := SaturatingAdd(treasuryOut, outputs[i].capacity);
      }
      if !foundAnchor && lockHash == govHash {
        if outputs[i].typ.Some? && IsAnchorTypeFor(EncodeScript(outputs[i].typ.value), anchorCode, selfHash) {
          if PC.PBLK <= outputs[i].data {
            foundAnchor := true;
          }
        }
      }
      i := i + 1;
    }
    assert outputs[..i] == outputs;
  }

  /** `program_entry` with its loops. */
  method ProgramEntry(self: Script, tx: Tx, blake: Hasher) returns (r: Result<(), int>)
    ensures r == Entry(self, tx, blake)
  {
    hide ScriptHash, IsAnchorTypeFor, EncodeScript, NewAnchor, RunningArgs, Saturated, GroupCapacity;
    var args := RunningArgs(EncodeScript(self));
    if args.None? || |args.value| != 64 {
      return Err(ERR_INVALID_ARGS);
    }
    var govCode := args.value[0..32];
    var anchorCode := args.value[32..64];
    var selfHash := ScriptHash(self, blake);
    var treasuryIn := LoadGroupInputCapacity(tx.inputs, self);
    var foundAnchor, treasuryOut := ScanOutputs(tx.outputs, govCode, anchorCode, selfHash, blake);
    if !foundAnchor {
      var j := 0;
      while j < |tx.inputs|
        invariant 0 <= j <= |tx.inputs|
        invariant !foundAnchor && forall i :: 0 <= i < j ==> !SpentAnchor(tx.inputs[i], anchorCode, selfHash)
      {
        var typ := tx.inputs[j].cell.typ;
        if typ.Some? && IsAnchorTypeFor(EncodeScript(typ.value), anchorCode, selfHash) {
          foundAnchor := true;
          break;
        }
        j := j + 1;
      }
    }
    if !foundAnchor {
      return Err(ERR_NO_ANCHOR_OUTPUT);
    }
    if SaturatingAdd(treasuryOut, MAX_PER_TX_SPEND) < treasuryIn {
      return Err(ERR_INSUFFICIENT_RETURN);
    }
    return Ok(());
  }

  // ---- what acceptance means ----

  /** The exact capacity of the inputs with this lock. */
  function GroupSum(inputs: seq<Input>, self: Script): nat {
    if inputs == [] then 0
    else
      var last := |inputs| - 1;
      GroupSum(inputs[..last], self) + if inputs[last].cell.lock == self then inputs[last].cell.capacity else 0
  }

  lemma {:induction false} GroupIsCappedSum(inputs: seq<Input>, self: Script, blake: Hasher)
    ensures GroupCapacity(inputs, self) == if GroupSum(inputs, self) > U64_MAX then U64_MAX else GroupSum(inputs, self)
    ensures GroupSum(inputs, self) <= Sum(InputCells(inputs), ScriptHash(self, blake), blake)
  {
    if inputs != [] {
      var last := |inputs| - 1;
      GroupIsCappedSum(inputs[..last], self, blake);
      assert InputCells(inputs)[..last] == InputCells(inputs[..last]);
    }
  }

  /** Some output is a new anchor of this treasury. */
  predicate CreatesAnchor(tx: Tx, self: Script, blake: Hasher)
    requires |self.args| == 64
  {
    exists o :: 0 <= o < |tx.outputs|
      && NewAnchor(tx.outputs[o], self.args[0..32], self.args[32..64], ScriptHash(self, blake), blake)
  }

  /** Some input is an anchor of this treasury. */
  predicate SpendsAnchor(tx: Tx, self: Script, blake: Hasher)
    requires |self.args| == 64
  {
    exists i :: 0 <= i < |tx.inputs| && SpentAnchor(tx.inputs[i], self.args[32..64], ScriptHash(self, blake))
  }

  /**
   * A transaction that spends treasury cells is accepted iff it spends or creates an anchor bound to this very
   * treasury and takes at most 1000 CKB from it (as long as the sums fit 64 bits).
   */
  lemma SpendExact(self: Script, tx: Tx, blake: Hasher)
    requires |self.args| == 64
    requires GroupSum(tx.inputs, self) <= U64_MAX
    ensures Entry(self, tx, blake).Ok?
       <==> GroupSum(tx.inputs, self) <= Sum(tx.outputs, ScriptHash(self, blake), blake) + 100_000_000_000
            && (CreatesAnchor(tx, self, blake) || SpendsAnchor(tx, self, blake))
    ensures Entry(self, tx, blake).Err? ==>
              Entry(self, tx, blake)
              == Err(if CreatesAnchor(tx, self, blake) || SpendsAnchor(tx, self, blake) then 3 else 2)
  {
    hide ScriptHash, IsAnchorTypeFor, EncodeScript, NewAnchor, SpentAnchor, RunningArgs, Saturated, GroupCapacity,
      GroupSum, Sum;
    RunningArgsAre(self);
    GroupIsCappedSum(tx.inputs, self, blake);
    SaturatedIsCappedSum(tx.outputs, ScriptHash(self, blake), blake);
  }

  /** Args of any other length are refused with 1. */
  lemma OtherArgsRefused(self: Script, tx: Tx, blake: Hasher)
    requires |self.args| != 64 && |self.args| + 53 < 0x1_0000_0000
    ensures Entry(self, tx, blake) == Err(1)
  {
    hide EncodeScript, RunningArgs;
    RunningArgsAre(self);
  }

  /** The anchors this lock lets the treasury pay for are the ones whose args the CLI writes for it. */
  lemma CliAnchorIsRecognised(anchor: Script, a: AT.AnchorArgs, anchorCode: Bytes32, selfHash: Bytes32)
    requires anchor.args == AT.EncodeArgs(a)
    ensures IsAnchorTypeFor(EncodeScript(anchor), anchorCode, selfHash)
       <==> anchor.codeHash == anchorCode && anchor.hashType == 0x01 && a.treasury == selfHash
  {
    hide IsAnchorTypeFor, EncodeScript;
    AnchorTypeMeans(anchor, anchorCode, selfHash);
    AT.ArgsExact(anchor.args, a);
  }
}
