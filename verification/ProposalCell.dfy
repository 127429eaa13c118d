/** PBLK proposal cells: the CLI encoder and the two on-chain readers. */
module ProposalCell {
  import opened Bytes
  import opened Seqs
  import opened Buffer
  import opened Molecule

  const ERR_PROPOSAL_CELL := 28
  const PBLK: seq<byte> := [0x50, 0x42, 0x4c, 0x4b]

  datatype Action = Add | Remove | SetGovernanceHeader

  datatype Proposal = Proposal(
    typeId: Bytes32, action: Action, id: seq<byte>, expiresAt: u64, treasuryLockHash: Option<Bytes32>)

  /** `ProposalCell::parse` of blacklist-registry. */
  function Parse(data: seq<byte>): Result<Proposal, int> {
    if |data| < 70 || data[0..4] != PBLK then Err(ERR_PROPOSAL_CELL)
    else if data[4] == 0x02 then
      if data[37] != 0x03 || |data| != 102 then Err(ERR_PROPOSAL_CELL)
      else Ok(Proposal(data[5..37], SetGovernanceHeader, [], 0, Some(data[38..70])))
    else if data[4] != 0x01 then Err(ERR_PROPOSAL_CELL)
    else if data[37] != 0x01 && data[37] != 0x02 then Err(ERR_PROPOSAL_CELL)
    else
      var idLen: nat := data[38];
      var idEnd := 39 + idLen;
      if idEnd + 8 + 32 != |data| then Err(ERR_PROPOSAL_CELL)
      else
        var action := if data[37] == 0x01 then Add else Remove;
        Ok(Proposal(data[5..37], action, data[39..idEnd], U64At(data, idEnd), None))
  }

  /** `validate_pblk` of proposal-anchor. */
  predicate ValidatePblk(data: seq<byte>, typeId: Bytes32) {
    if |data| < 39 || data[0..4] != PBLK then false
    else if data[5..37] != typeId then false
    else if data[4] == 0x02 then |data| == 102 && data[37] == 0x03
    else if data[4] != 0x01 then false
    else if data[37] != 0x01 && data[37] != 0x02 then false
    else
      var idLen: nat := data[38];
      var idEnd := 39 + idLen;
      idLen != 0 && idEnd + 8 + 32 == |data|
  }

  lemma Refused(data: seq<byte>)
    requires Parse(data).Err?
    ensures Parse(data) == Err(28)
  {
    hide U64At;
  }

  /** The two readers accept the same cells, but for an add or remove of the empty identifier. */
  lemma SameLanguage(data: seq<byte>, typeId: Bytes32)
    ensures ValidatePblk(data, typeId)
       <==> Parse(data).Ok? && Parse(data).value.typeId == typeId
            && (Parse(data).value.action != SetGovernanceHeader ==> Parse(data).value.id != [])
  {
  }

  // ---- CLI ----

  datatype CliAction = CliAdd | CliRemove | SetTreasury

  datatype CliProposal = CliProposal(
    action: CliAction, lockArgs: seq<byte>, expiresAt: int, treasuryLockScript: Option<Script>, evidence: seq<byte>)

  /** When `encodeProposalCellData` does not throw. */
  predicate Encodable(p: CliProposal) {
    if p.action == SetTreasury then p.treasuryLockScript.Some?
    else 1 <= |p.lockArgs| <= 255 && 0 <= p.expiresAt <= U64_MAX
  }

  /** PBLK(4) | version(1) | registry_type_id_value(32) | action(1). */
  function CellHead(version: byte, typeId: Bytes32, action: byte): (b: seq<byte>)
    ensures |b| == 38
  {
    PBLK + [version] + typeId + [action]
  }

  method PutCellHead(buf: array<byte>, version: byte, typeId: Bytes32, action: byte) returns (off: nat)
    requires buf.Length >= 38
    modifies buf
    ensures off == 38 && Written(buf, 38) == CellHead(version, typeId, action)
  {
    hide Written;
    off := Append(buf, 0, PBLK);
    off := Append(buf, off, [version]);
    off := Append(buf, off, typeId);
    off := Append(buf, off, [action]);
  }

  /** The bytes `encodeProposalCellData` writes. */
  function Encode(p: CliProposal, typeId: Bytes32, blake: Hasher): (d: seq<byte>)
    requires Encodable(p)
    ensures |d| == if p.action == SetTreasury then 102 else 79 + |p.lockArgs|
  {
    if p.action == SetTreasury then
      CellHead(0x02, typeId, 0x03) + blake(EncodeScript(p.treasuryLockScript.value)) + blake(p.evidence)
    else
      CellHead(0x01, typeId, if p.action == CliAdd then 0x01 else 0x02) + [|p.lockArgs|] + p.lockArgs
      + Le8(p.expiresAt) + blake(p.evidence)
  }

  /** `encodeProposalCellData`: None where it throws, else the filled buffer. */
  method EncodeProposalCellData(p: CliProposal, typeId: Bytes32, blake: Hasher) returns (r: Option<seq<byte>>)
    ensures r == if Encodable(p) then Some(Encode(p, typeId, blake)) else None
  {
    if p.action == SetTreasury {
      if p.treasuryLockScript.None? {
        return None;
      }
      var out := FillSetTreasury(p, typeId, blake);
      return Some(out[..]);
    }
    if |p.lockArgs| == 0 || |p.lockArgs| > 255 || p.expiresAt < 0 || p.expiresAt > U64_MAX {
      return None;
    }
    var out := FillEntryChange(p, typeId, blake);
    return Some(out[..]);
  }

  method FillSetTreasury(p: CliProposal, typeId: Bytes32, blake: Hasher) returns (out: array<byte>)
    requires Encodable(p) && p.action == SetTreasury
    ensures fresh(out) && out[..] == Encode(p, typeId, blake)
  {
    hide EncodeScript, Written, CellHead;
    var script := ScriptToMoleculeBytes(p.treasuryLockScript.value);
    out := new byte[102](_ => 0);
    AllWritten(out);
    var off := PutCellHead(out, 0x02, typeId, 0x03);
    off := Append(out, off, blake(script[..]));
    off := Append(out, off, blake(p.evidence));
    AllWritten(out);
  }

  method FillEntryChange(p: CliProposal, typeId: Bytes32, blake: Hasher) returns (out: array<byte>)
    requires Encodable(p) && p.action != SetTreasury
    ensures fresh(out) && out[..] == Encode(p, typeId, blake)
  {
    hide Le8, Written, CellHead;
    out := new byte[79 + |p.lockArgs|](_ => 0);
    AllWritten(out);
    var off := PutCellHead(out, 0x01, typeId, if p.action == CliAdd then 0x01 else 0x02);
    off := Append(out, off, [|p.lockArgs|]);
    off := Append(out, off, p.lockArgs);
    off := AppendU64(out, off, p.expiresAt);
    off := Append(out, off, blake(p.evidence));
    AllWritten(out);
  }

  /** The proposal a CLI proposal stands for on chain. */
  function Meaning(p: CliProposal, typeId: Bytes32, blake: Hasher): Proposal
    requires Encodable(p)
  {
    match p.action
    case SetTreasury => Proposal(typeId, SetGovernanceHeader, [], 0,
      Some(blake(EncodeScript(p.treasuryLockScript.value))))
    case CliAdd => Proposal(typeId, Add, p.lockArgs, p.expiresAt, None)
    case CliRemove => Proposal(typeId, Remove, p.lockArgs, p.expiresAt, None)
  }

  /** Every cell the CLI writes is read back as the same action, identifier, expiry or treasury, by both scripts. */
  lemma EncodedCellIsRead(p: CliProposal, typeId: Bytes32, blake: Hasher)
    requires Encodable(p)
    ensures Parse(Encode(p, typeId, blake)) == Ok(Meaning(p, typeId, blake))
    ensures ValidatePblk(Encode(p, typeId, blake), typeId)
  {
    hide EncodeScript, Le8;
    var d := Encode(p, typeId, blake);
    if p.action == SetTreasury {
      var h := blake(EncodeScript(p.treasuryLockScript.value));
      Parts(d, CellHead(0x02, typeId, 0x03), h, blake(p.evidence));
      HeadFields(d, 0x02, typeId, 0x03);
    } else {
      var action: byte := if p.action == CliAdd then 0x01 else 0x02;
      var head := CellHead(0x01, typeId, action) + [|p.lockArgs|];
      Assoc(head + p.lockArgs, Le8(p.expiresAt), blake(p.evidence));
      Parts(d, head, p.lockArgs, Le8(p.expiresAt) + blake(p.evidence));
      Parts(d, head + p.lockArgs, Le8(p.expiresAt), blake(p.evidence));
      U64Written(d, 39 + |p.lockArgs|, p.expiresAt);
      SliceOfSlice(d, 0, 39, 0, 38);
      HeadFields(d, 0x01, typeId, action);
    }
  }

  lemma HeadFields(d: seq<byte>, version: byte, typeId: Bytes32, action: byte)
    requires |d| >= 38 && d[..38] == CellHead(version, typeId, action)
    ensures d[0..4] == PBLK && d[4] == version && d[5..37] == typeId && d[37] == action
  {
    Parts(d[..38], PBLK + [version], typeId, [action]);
    SliceOfSlice(d, 0, 38, 5, 37);
  }
}
