/**
 * A small concrete deployment: a hash that keeps 31 bytes of its input and the length, a recovery that knows one key,
 * and cells of the formats the CLI writes. It serves to show that the hypotheses of other modules hold together, and
 * to show where a law one might expect fails.
 */
module Deployment {
  import opened Bytes
  import opened Seqs
  import opened Chain
  import opened Molecule
  import opened Ledger
  import BR = BlacklistRegistry
  import CB = CliBuilder
  import GH = GovernanceHeader
  import GL = GovernanceLock
  import Lex
  import LK = Lookup
  import MT = MerkleTree
  import PC = ProposalCell
  import RD = ReviewDelay
  import RF = RegistryFormat
  import TR = Transition
  import VD = VoteDigest
  import VM = VoteMessage
  import WA = WitnessArgs
  import WI = Witness
  import YV = YesVotes

  function Fill(b: byte, n: nat): (s: seq<byte>)
    ensures |s| == n && forall i :: 0 <= i < n ==> s[i] == b
  {
    seq(n, _ => b)
  }

  /**
   * The hash of this deployment: 31 bytes of a long input and its length; of a Type ID preimage its last 32 bytes; of a
   * vote message the bytes that spell the proposal id; and texts of vote lists all have one hash.
   */
  function Toy(x: seq<byte>): Bytes32 {
    if |x| >= 200 && x[0] == 0x7b then x[48..79] + [|x| % 256]
    else if |x| >= 200 && x[0] == 0x5b then Fill(10, 32)
    else if |x| == 44 then x[12..44]
    else if |x| >= 44 then x[12..43] + [|x| % 256] else if |x| >= 33 then x[1..33] else Fill(1, 32)
  }

  function Key(b: byte): Pubkey { Fill(b, 33) }

  /** Every signature is the first validator's. */
  function Recovers(message: Bytes32, sig: WI.Sig): Option<Pubkey> { Some(Key(2)) }

  function Code(b: byte): Bytes32 { Fill(b, 32) }

  const REGISTRY: byte := 0x22
  const GOVERNANCE: byte := 0x21

  function Deployed(): Rules {
    Rules({(Code(REGISTRY), 1)}, {(Code(GOVERNANCE), 1)}, Toy, Recovers)
  }

  /** Where registry `b` was bootstrapped from, and the type id that gave it. */
  function Seed(b: byte): OutPoint { OutPoint(Code(b), 0) }

  function TypeId(b: byte): Bytes32 { Toy(BR.TypeIdPreimage(Seed(b), 0)) }

  lemma TypeIdByte(b: byte)
    ensures TypeId(b)[7] == b && TypeId(b)[11] == b
  {
    hide Le4, Le8;
    var x := BR.TypeIdPreimage(Seed(b), 0);
    assert |x| == 44 && x[12..44][7] == x[19] && x[12..44][11] == x[23];
    assert x[19] == Code(b)[19] && x[23] == Code(b)[23];
  }

  function TypeArgs(b: byte): BR.TypeArgs { BR.TypeArgs(Code(GOVERNANCE), 1, TypeId(b)) }

  /** The type script of registry `b`. */
  function Self(b: byte): Script {
    Script(Code(REGISTRY), 1, [0x02] + Code(GOVERNANCE) + [1] + TypeId(b))
  }

  function Lock(): Script { Script(Code(GOVERNANCE), 1, [0x01]) }

  lemma SelfArgs(b: byte)
    ensures BR.ParseTypeArgs(Self(b).args) == Some(TypeArgs(b)) && BR.GovernanceScript(TypeArgs(b)) == Lock()
    ensures |Self(b).args| == 66
  {
    hide Fill, Toy;
    ArgParts<byte>(Self(b).args, [0x02], Code(GOVERNANCE), [1], TypeId(b));
  }

  lemma ArgParts<T>(s: seq<T>, a: seq<T>, b: seq<T>, c: seq<T>, d: seq<T>)
    requires s == a + b + c + d && |a| == |c| == 1 && |b| == |d| == 32
    ensures |s| == 66 && s[0] == a[0] && s[1..33] == b && s[33] == c[0] && s[34..66] == d
  {
  }

  /** A header for the one-validator list with this key, with or without a treasury. */
  function Header(b: byte, treasury: Option<Script>): GH.CliHeader {
    GH.CliHeader(1, 1, Toy(Key(b)), None, treasury)
  }

  lemma KeyDigest(b: byte)
    ensures Toy(Key(b)) == Fill(b, 32)
  {
  }

  /** The root in the header is the root of the list. */
  lemma OneValidator(b: byte)
    ensures MT.TreeRoot([Key(b)], Toy) == Toy(Key(b)) && MT.Depth(1) == 0
    ensures MT.Verifies(Toy(Key(b)), Key(b), [], 0, Toy)
  {
    hide Toy, Fill;
    assert MT.Padded([Key(b)], Toy)[0] == MT.Leaf(Key(b), Toy);
  }

  /** A registry payload. */
  function Data(h: GH.CliHeader, es: seq<RF.Entry>): seq<byte>
    requires RF.WellSized(es)
  {
    RF.EncodePayload(GH.CliEncodeHeader(h), es)
  }

  /** What the readers of a payload find in it, and how its hash begins: as the root does. */
  lemma DataRead(h: GH.CliHeader, es: seq<RF.Entry>)
    requires RF.Canonical(es) && GH.CliWritable(h)
    ensures RF.ParseStrict(Data(h, es)) == Ok(RF.Payload(0x02, es))
    ensures GH.HeaderSlice(Data(h, es)) == Some(GH.CliEncodeHeader(h))
    ensures GH.CliParseHeader(GH.CliEncodeHeader(h)) == Some(h)
    ensures GH.ParseTreasuryHash(Data(h, es), Toy) == Ok(GH.CliTreasuryHash(h, Toy))
    ensures Toy(Data(h, es))[0] == h.root[0] && Data(h, es) != []
  {
    hide RF.ParsePayload, GH.CliEncodeHeader, GH.CliParseHeader, GH.TreasuryHashOf, GH.CliTreasuryHash, RF.EntryBlock,
      Fill;
    var gh := GH.CliEncodeHeader(h);
    RF.StrictOfEncode(gh, es);
    CB.HeaderOfPayload(CB.Registry(gh, es));
    GH.CliHeaderRoundTrip(h);
    GH.CliReadsWhatIsEnforced(gh, Toy);
    RootInData(h, es);
  }

  lemma RootInData(h: GH.CliHeader, es: seq<RF.Entry>)
    requires RF.Canonical(es) && GH.CliWritable(h)
    ensures |Data(h, es)| >= 44 && Data(h, es)[12..44] == h.root && Data(h, es)[0] == 0x42
  {
    hide GH.CliEncodeHeader, RF.EntryBlock, GH.CliSuffix;
    var (d, gh) := (Data(h, es), GH.CliEncodeHeader(h));
    GH.CliEncodedFields(h);
    RF.PayloadFields(gh, es, []);
    Nil(d);
    assert d[0] == d[0..4][0] == RF.BLKL[0];
    SliceOfSlice(d, 7, 7 + |gh|, 5, 37);
  }

  lemma DataLength(h: GH.CliHeader, es: seq<RF.Entry>)
    requires RF.WellSized(es)
    ensures |Data(h, es)| == 11 + |GH.CliEncodeHeader(h)| + |RF.EncodeEntries(es)| && Data(h, es)[0] == 0x42
  {
    hide GH.CliEncodeHeader, RF.EncodeEntries, RF.WellSized;
  }

  /** The hash of a payload ends with its length. */
  lemma DataHashEnds(h: GH.CliHeader, es: seq<RF.Entry>)
    requires RF.WellSized(es)
    ensures Toy(Data(h, es))[31] == (11 + |GH.CliEncodeHeader(h)| + |RF.EncodeEntries(es)|) % 256
  {
    hide Data, GH.CliEncodeHeader, RF.EncodeEntries, RF.WellSized;
    DataLength(h, es);
  }

  /** Adding one identifier byte. */
  function Adding(id: byte): PC.CliProposal { PC.CliProposal(PC.CliAdd, [id], 0, None, []) }

  /** The proposal cell's data for registry `b`. */
  function ProposalData(b: byte, id: byte): seq<byte> { PC.Encode(Adding(id), TypeId(b), Toy) }

  lemma ProposalDataRead(b: byte, id: byte)
    ensures PC.Parse(ProposalData(b, id)) == Ok(PC.Meaning(Adding(id), TypeId(b), Toy))
    ensures ProposalData(b, id) != [] && |ProposalData(b, id)| == 80 && Toy(ProposalData(b, id))[0] == b
            && Toy(ProposalData(b, id))[4] == b
  {
    hide PC.Meaning, Fill, TypeId, Le8;
    var d := ProposalData(b, id);
    PC.EncodedCellIsRead(Adding(id), TypeId(b), Toy);
    TypeIdByte(b);
    assert d[5..37] == TypeId(b);
    assert d[12..43][0] == d[5..37][7] && d[12..43][4] == d[5..37][11];
  }

  function After(es: seq<RF.Entry>, id: byte): seq<RF.Entry> {
    CB.Inserted(es, RF.Entry([id], 0))
  }

  /** The list before and after an added identifier. */
  ghost predicate Grows(es: seq<RF.Entry>, id: byte) {
    RF.Canonical(es) && RF.Canonical(After(es, id)) && !TR.HasId(es, [id])
  }

  /** The id of the proposal for registry `b`. */
  function IdHash(b: byte): Bytes32 { Fill(b, 32) }

  function Digest(): Bytes32 { Fill(10, 32) }

  lemma NotZero(b: byte)
    requires b != 0
    ensures Fill(b, 32) != ZERO_32
  {
    assert Fill(b, 32)[0] != ZERO_32[0];
  }

  /** The binding of the update of registry `b` that adds `id`. */
  function Bound(b: byte, oldData: seq<byte>, newData: seq<byte>, id: byte): WA.Gov1 {
    WA.Gov1(IdHash(b), Digest(), Toy(oldData), Toy(newData), Toy(ProposalData(b, id)), 0)
  }

  /** The first validator's yes-vote. */
  function Vote(): WI.Vote { WI.Vote(Key(2), GL.YES, [], Fill(0, 65), 0, []) }

  function RegistryCell(b: byte, h: GH.CliHeader, es: seq<RF.Entry>, capacity: u64): Cell
    requires RF.WellSized(es)
  {
    Cell(capacity, Lock(), Some(Self(b)), Data(h, es))
  }

  function ProposalCell(b: byte, id: byte): Cell {
    Cell(1, Script(Code(0x25), 0, []), None, ProposalData(b, id))
  }

  lemma BindingHolds(b: byte, oldData: seq<byte>, newData: seq<byte>, id: byte, tx: Tx, i: nat, votes: seq<WI.Vote>)
    requires b != 0 && WI.Buildable(votes) && i < |tx.witnesses|
    requires tx.witnesses[i] == WA.GovernanceWitness(votes, Bound(b, oldData, newData, id))
    ensures BR.Binding(tx, i, Toy(oldData), Toy(newData)) == Ok(Bound(b, oldData, newData, id))
    ensures WA.RegistryReads(tx.witnesses[i]).Some?
    ensures WA.ParseGov1(WA.RegistryReads(tx.witnesses[i]).value) == Some(Bound(b, oldData, newData, id))
  {
    hide Fill, Toy, WA.RegistryReads, WA.ParseGov1, WA.EncodeGov1, WA.GovernanceWitness, ProposalData,
      WI.AllEncodable;
    WA.RoundTrip(votes, Bound(b, oldData, newData, id));
    NotZero(b);
    NotZero(10);
  }

  /** The registry script's update branch accepts the addition, and this is the proposal it carries out. */
  lemma Updates(b: byte, h: GH.CliHeader, es: seq<RF.Entry>, id: byte, tx: Tx, i: nat, o: nat, p: nat,
        votes: seq<WI.Vote>)
    requires b != 0 && Grows(es, id) && GH.CliWritable(h) && h.treasuryLockHash.None? && h.treasuryLockScript.None?
    requires i < |tx.inputs| && p < |tx.inputs| && o < |tx.outputs| && i < |tx.witnesses|
    requires tx.inputs[i].cell.lock == tx.outputs[o].lock == Lock()
    requires tx.inputs[i].cell.data == Data(h, es) && tx.outputs[o].data == Data(h, After(es, id))
    requires WI.Buildable(votes)
    requires tx.witnesses[i] == WA.GovernanceWitness(votes, Bound(b, Data(h, es), Data(h, After(es, id)), id))
    requires FindInput(tx.inputs, Toy(ProposalData(b, id)), Toy) == Some(p)
            && tx.inputs[p].cell.data == ProposalData(b, id)
    ensures BR.Update(TypeArgs(b), tx, i, o, Toy).Ok?
    ensures BR.ProposalOf(tx, i, Toy) == Some(PC.Meaning(Adding(id), TypeId(b), Toy))
  {
    hide RF.ParsePayload, GH.ParseTreasuryHash, PC.Parse, Toy, Fill, WA.RegistryReads, WA.ParseGov1,
      WA.GovernanceWitness, FindInput, TypeId, ProposalData, Data, CB.Inserted, RF.Ascending, RF.WellSized, TR.HasId,
      TR.Matches, GH.CliWritable, BR.Binding, WI.AllEncodable, PC.Meaning, After, BR.GovernanceScript, IdHash, Digest;
    DataRead(h, es);
    DataRead(h, After(es, id));
    ProposalDataRead(b, id);
    SelfArgs(b);
    BindingHolds(b, Data(h, es), Data(h, After(es, id)), id, tx, i, votes);
    ProposalDataNotZero(b, id);
    GrowthMatches(es, id, Data(h, After(es, id)), TypeId(b));
    MeaningIs(b, id);
  }

  lemma MeaningIs(b: byte, id: byte)
    ensures PC.Meaning(Adding(id), TypeId(b), Toy).typeId == TypeId(b)
    ensures PC.Meaning(Adding(id), TypeId(b), Toy) == PC.Proposal(TypeId(b), PC.Add, [id], 0, None)
  {
  }

  lemma ProposalDataNotZero(b: byte, id: byte)
    ensures b != 0 ==> Toy(ProposalData(b, id)) != ZERO_32
  {
    hide Toy, ProposalData;
    ProposalDataRead(b, id);
  }

  lemma GrowthMatches(es: seq<RF.Entry>, id: byte, newData: seq<byte>, typeId: Bytes32)
    requires Grows(es, id)
    ensures TR.Matches(es, After(es, id), newData, PC.Meaning(Adding(id), typeId, Toy), Toy)
  {
    hide CB.Inserted, TR.HasId, RF.Ascending, RF.WellSized, TR.OneMore, TR.ExpiryOf;
    CB.InsertedIsOneMore(es, RF.Entry([id], 0));
    CB.InsertedExpiry(es, RF.Entry([id], 0));
  }

  /** governance-lock accepts the first validator's vote over a registry that lists him. */
  lemma LockAccepts(h: GH.CliHeader, es: seq<RF.Entry>, newData: seq<byte>, b: byte, id: byte, tx: Tx, g: nat, p: nat)
    requires b != 0 && RF.Canonical(es) && GH.CliWritable(h) && h == Header(2, h.treasuryLockScript)
    requires g < |tx.inputs| && p < |tx.inputs| && g < |tx.witnesses| && tx.inputs[g].cell.data == Data(h, es)
    requires tx.witnesses[g] == WA.GovernanceWitness([Vote()], Bound(b, Data(h, es), newData, id))
    requires FindInput(tx.inputs, Toy(ProposalData(b, id)), Toy) == Some(p) && tx.inputs[p].since == RD.EncodeSince(0)
    ensures GL.Entry([0x01], tx, g, Toy, Recovers).Ok?
    ensures WA.LockReads(tx.witnesses[g]).Some? && WA.LockReads(tx.witnesses[g]).value.votes == [Vote()]
  {
    hide GH.HeaderSlice, GH.LockHeaderOf, Toy, Fill, WA.LockReads, WA.ParseGov1, WA.EncodeGov1, WA.GovernanceWitness,
      FindInput, ProposalData, Data, RF.Ascending, RF.WellSized, GL.CountVotes, RD.EncodeSince, RD.LockAcceptsSince,
      GH.CliEncodeHeader, GH.CliWritable, WI.AllEncodable;
    DataRead(h, es);
    GH.CliHeaderAccepted(h);
    OneVote(b);
    WA.RoundTrip([Vote()], Bound(b, Data(h, es), newData, id));
    NotZero(b);
    NotZero(10);
    RD.BuiltDelayAccepted(0, 0);
  }

  lemma OneVote(b: byte)
    ensures WI.Buildable([Vote()])
    ensures GL.CountVotes([Vote()], GH.LockHeader(1, 1, Toy(Key(2))), IdHash(b), Toy, Recovers) == Ok([Key(2)])
  {
    hide GL.CountVotes, MT.Verifies, VM.Canonical, VM.Ascii, Toy, Fill;
    var header := GH.LockHeader(1, 1, Toy(Key(2)));
    OneValidator(2);
    assert GL.Checked(Vote(), header, IdHash(b), Toy, Recovers);
    GL.CountVotesExact([Vote()], header, IdHash(b), Toy, Recovers);
    assert GL.CountVotes([Vote()], header, IdHash(b), Toy, Recovers).value == [Key(2)];
  }

  // ---- the digest of the vote ----

  lemma LongField(name: seq<byte>, value: seq<byte>)
    requires VM.Plain(name) && VM.Plain(value)
    ensures |VM.Field(name, value)| >= |value|
  {
    VM.PlainField(name, value);
  }

  lemma VoteFields()
    ensures |VM.Field(VM.Ascii("pubkey"), VM.ZERO_X + Lex.Hex(Key(2)))| >= 68
    ensures |VM.Field(VM.Ascii("signature"), VM.ZERO_X + Lex.Hex(Fill(0, 65)))| >= 132
  {
    hide VM.Field, Fill, Lex.Hex, VM.Ascii, VM.Plain;
    VM.AllPlain(ZERO_32, GL.YES, [], Key(2));
    VM.LiteralIsPlain("signature");
    VM.HexIsPlain(Fill(0, 65));
    PlainHex(Lex.Hex(Fill(0, 65)));
    LongField(VM.Ascii("pubkey"), VM.ZERO_X + Lex.Hex(Key(2)));
    LongField(VM.Ascii("signature"), VM.ZERO_X + Lex.Hex(Fill(0, 65)));
  }

  lemma PlainHex(hex: seq<byte>)
    requires VM.Plain(hex)
    ensures VM.Plain(VM.ZERO_X + hex)
  {
  }

  /** The digest in the bindings is the one `execute` recomputes from the vote. */
  lemma DigestIs()
    ensures VD.Digest([Vote()], Toy) == Digest()
  {
    hide VM.Ascii, VM.Field, VD.Record, Fill, Lex.Hex, VD.WordOf;
    var (v, end) := (Vote(), VM.Ascii("]"));
    YV.ByKeyOne(v);
    VD.OneRecord(v);
    VD.RecordParts(v, end);
    VoteFields();
    VD.OneCharacter();
  }

  // ---- the library search ----

  /** The first match. */
  function FirstAt(es: seq<RF.Entry>, id: seq<byte>): (p: Option<nat>)
    ensures LK.MayReturn(es, id, p)
  {
    if es == [] then None
    else
      HeadTail(es);
      if es[0].id == id then Some(0)
      else match FirstAt(es[1..], id) case None => None case Some(i) => Some(i + 1)
  }

  lemma FirstAtIsDocumented()
    ensures LK.Documented((es, id) => FirstAt(es, id))
  {
    hide RF.Ascending;
  }
}
