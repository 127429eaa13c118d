/**
 * The concrete deployment once more: two registries of one lock group whose headers list the same validator. The votes
 * for the first carry out a proposal in the second as well, and nobody who is listed there needs to have signed for it,
 * since the second is bound to a proposal id of its own.
 */
module DeploymentShared {
  import opened Bytes
  import opened Chain
  import opened Ledger
  import opened Authorisation
  import opened Deployment
  import opened DeploymentRuns
  import GH = GovernanceHeader
  import GL = GovernanceLock
  import Lex
  import MT = MerkleTree
  import PC = ProposalCell
  import VM = VoteMessage
  import WA = WitnessArgs
  import WI = Witness

  /** Where the proposal id stands in a message, and what its first byte spells. */
  lemma MessageParts<T>(head: seq<T>, zero: seq<T>, hex: seq<T>, rest: seq<T>)
    requires |head| == 48 && |zero| == 2 && |hex| == 64 && |rest| >= 100
    ensures var x := head + (zero + hex) + rest; |x| >= 200 && x[0] == head[0] && x[51] == hex[1]
  {
  }

  lemma HexSecond(b: seq<byte>)
    requires b != []
    ensures Lex.Hex(b)[1] == Lex.HexDigit(b[0] % 16)
  {
  }

  lemma HeadBegins()
    ensures |VM.Ascii(VM.HEAD)| == 48 && VM.Ascii(VM.HEAD)[0] == 0x7b
  {
    hide VM.Ascii;
    VM.HeadText();
    SingleCharacter();
    EightPieces(VM.Ascii("{"), VM.Ascii("\""), VM.Ascii("domain"), VM.Ascii("\":\""), VM.Ascii("ckb-firewall:vote"),
      VM.Ascii("\""), VM.Ascii(","), VM.Ascii("\"") + VM.Ascii("proposalIdHash") + VM.Ascii("\":\""));
    assert |VM.HEAD| == 48;
  }

  lemma SingleCharacter()
    ensures VM.Ascii("{") == [0x7b]
  {
  }

  lemma EightPieces<T>(a: seq<T>, b: seq<T>, c: seq<T>, d: seq<T>, e: seq<T>, f: seq<T>, g: seq<T>, h: seq<T>)
    requires |a| > 0
    ensures (a + b + c + d + e + f + g + h)[0] == a[0]
  {
  }

  /** The hash of a message tells the proposal ids of the first registries apart. */
  lemma MessageMark(b: byte, timestamp: seq<byte>, pk: Pubkey, digest: Bytes32)
    requires b < 10 && digest == Toy(YesMessage(IdHash(b), timestamp, pk))
    ensures digest[3] == 48 + b
  {
    hide VM.Ascii, Lex.Hex, Fill;
    var (head, hex) := (VM.Ascii(VM.HEAD), Lex.Hex(IdHash(b)));
    var rest := VM.Ascii(VM.TO_VOTE) + VM.Ascii("yes") + VM.Ascii(VM.TO_TIMESTAMP) + timestamp + VM.Ascii(VM.TO_PUBKEY)
      + (VM.ZERO_X + Lex.Hex(pk)) + VM.Ascii(VM.TAIL);
    HeadBegins();
    HexSecond(IdHash(b));
    MessageParts(head, VM.ZERO_X, hex, rest);
    SevenMore(head + (VM.ZERO_X + hex), VM.Ascii(VM.TO_VOTE), VM.Ascii("yes"), VM.Ascii(VM.TO_TIMESTAMP), timestamp,
      VM.Ascii(VM.TO_PUBKEY), VM.ZERO_X + Lex.Hex(pk), VM.Ascii(VM.TAIL));
  }

  lemma SevenMore<T>(p: seq<T>, a: seq<T>, b: seq<T>, c: seq<T>, d: seq<T>, e: seq<T>, f: seq<T>, g: seq<T>)
    ensures p + a + b + c + d + e + f + g == p + (a + b + c + d + e + f + g)
  {
  }

  lemma ToldByMark(v: WI.Vote)
    ensures ToldApart(v, IdHash(4), IdHash(5), Toy)
  {
    hide YesMessage, Toy, IdHash, VM.TimestampOk;
    forall timestamp: seq<byte>
      ensures Toy(YesMessage(IdHash(5), timestamp, v.pubkey)) != Toy(YesMessage(IdHash(4), v.timestamp, v.pubkey))
    {
      MessageMark(5, timestamp, v.pubkey, Toy(YesMessage(IdHash(5), timestamp, v.pubkey)));
      MessageMark(4, v.timestamp, v.pubkey, Toy(YesMessage(IdHash(4), v.timestamp, v.pubkey)));
    }
  }

  // ---- the transaction ----

  /** What the two readers find in a witness. */
  lemma ReadsAt(tx: Tx, g: nat, votes: seq<WI.Vote>, gov: WA.Gov1)
    requires WI.Buildable(votes) && g < |tx.witnesses| && tx.witnesses[g] == WA.GovernanceWitness(votes, gov)
    ensures BoundAt(tx, g) == Some(gov) && VotesAt(tx, g) == votes
  {
    hide WA.LockReads, WA.GovernanceWitness, WA.RegistryReads, WA.ParseGov1, WA.EncodeGov1, WI.AllEncodable;
    WA.RoundTrip(votes, gov);
  }

  lemma SharedReads()
    ensures |TwoTx(2).inputs| == 4
    ensures BoundAt(TwoTx(2), 0) == Some(FirstBound(4, 2, 7)) && BoundAt(TwoTx(2), 1) == Some(FirstBound(5, 2, 8))
    ensures VotesAt(TwoTx(2), 0) == [Vote()] && VotesAt(TwoTx(2), 1) == []
  {
    hide TwoTx, Data, BoundAt, VotesAt, WA.GovernanceWitness, FirstBound, Vote, Lock, Self, Plain;
    TwoInputs(2);
    TwoOutputs(2);
    ReadsAt(TwoTx(2), 0, [Vote()], FirstBound(4, 2, 7));
    ReadsAt(TwoTx(2), 1, [], FirstBound(5, 2, 8));
  }

  lemma BoundIds()
    ensures FirstBound(4, 2, 7).proposalIdHash == IdHash(4) && FirstBound(5, 2, 8).proposalIdHash == IdHash(5)
    ensures IdHash(4) != IdHash(5)
  {
    hide Toy, Data, ProposalData, Plain;
    assert IdHash(4)[0] == 4 && IdHash(5)[0] == 5;
  }

  /** One validator's tree hashes only the key. */
  lemma NothingCollides()
    ensures GL.NoCollision([Vote()], [Key(2)], Toy)
  {
    hide Toy, Fill;
    OneLeaf();
    assert MT.Keys([Key(2)]) == {Key(2)};
    assert MT.AllInputs([Key(2)], Key(2), [], 0, Toy) == {Key(2)};
    KeyDigest(2);
    NotZero(2);
  }

  lemma OneLeaf()
    ensures |MT.Padded([Key(2)], Toy)| == 1 && MT.Depth(1) == 0
  {
    hide Toy, Fill;
  }

  lemma SharedAttributable()
    ensures |TwoTx(2).inputs| == 4
    ensures Attributable(Deployed(), TwoTx(2), 0, [Key(2)]) && Attributable(Deployed(), TwoTx(2), 1, [Key(2)])
    ensures GH.ParseLockHeader(TwoTx(2).inputs[0].cell.data) == GH.ParseLockHeader(TwoTx(2).inputs[1].cell.data)
    ensures GH.ParseLockHeader(TwoTx(2).inputs[1].cell.data).Ok?
  {
    hide TwoTx, Data, Key, Toy, GL.NoCollision, Commits, VotesAt, GH.ParseLockHeader, IsRegistry, IsGoverned, Plain;
    TwoInputs(2);
    TwoRegistryCells(2);
    SharedReads();
    NothingCollides();
    SecondCommits(2);
    SameCommits(TwoTx(2).inputs[0].cell, TwoTx(2).inputs[1].cell);
    NoVotesCollide();
  }

  lemma NoVotesCollide()
    ensures GL.NoCollision([], [Key(2)], Toy)
  {
  }

  lemma SameCommits(a: Cell, b: Cell)
    requires a.data == b.data && Commits(b, [Key(2)], Toy)
    ensures Commits(a, [Key(2)], Toy)
  {
    hide GH.ParseLockHeader, MT.TreeRoot, Key, Toy;
  }

  lemma SharedFirst()
    ensures |TwoTx(2).inputs| == 4 && IsFirst(TwoTx(2), 0)
    ensures forall k :: 0 <= k < 4 && IsGoverned(Deployed(), TwoTx(2).inputs[k].cell) ==>
              TwoTx(2).inputs[k].cell.lock == Lock() && FirstFor(TwoTx(2), k) == 0
    ensures TwoTx(2).inputs[0].cell.lock == Lock()
  {
    hide TwoTx, Lock, IsRegistry, IsGoverned, Self, Deployed;
    TwoRegistryCells(2);
  }

  lemma SharedToldApart()
    ensures NoMessageCollides(Deployed(), TwoTx(2), IdHash(5))
  {
    hide TwoTx, IsGoverned, BoundAt, VotesAt, FirstFor, ToldApart, IdHash, FirstBound, Toy, IsFirst;
    SharedFirst();
    SharedReads();
    BoundIds();
    ToldByMark(Vote());
  }

  /**
   * Both registries list the one validator and both take in an identifier. The transaction is accepted; it entails his
   * consent to the first change, and not to the second.
   */
  lemma SecondIdUnasked()
    ensures Inv(Deployed(), TwoState(2)) && CanApply(Deployed(), TwoState(2), TwoTx(2), Code(0x51))
    ensures |TwoTx(2).inputs| == 4
    ensures Attributable(Deployed(), TwoTx(2), 0, [Key(2)]) && Attributable(Deployed(), TwoTx(2), 1, [Key(2)])
    ensures Executed(Self(4), TwoTx(2), Toy) == [PC.Proposal(TypeId(4), PC.Add, [7], 0, None)]
    ensures Executed(Self(5), TwoTx(2), Toy) == [PC.Proposal(TypeId(5), PC.Add, [8], 0, None)]
    ensures AcceptanceEntailsConsent(Deployed(), TwoState(2), TwoTx(2), Code(0x51), 0, [Key(2)])
    ensures !AcceptanceEntailsConsent(Deployed(), TwoState(2), TwoTx(2), Code(0x51), 1, [Key(2)])
  {
    hide TwoTx, TwoState, Unsigned, GovernanceLocksAccept, Inv, IsRegistry, IsGoverned, Executed, IsFirst, BoundAt, Toy,
      PC.Meaning, GH.ParseLockHeader, Self, Code, Key, TypeId, Attributable, NoMessageCollides, FirstBound, Lock,
      AcceptanceEntailsConsent, IdHash;
    TwoStateKept(2);
    TwoUnsigned(2);
    TwoLocks(2);
    TwoRegistriesAccept(2);
    MeaningIs(4, 7);
    MeaningIs(5, 8);
    SharedAttributable();
    SharedFirst();
    SharedReads();
    SharedToldApart();
    BoundIds();
    SharedList(Deployed(), TwoState(2), TwoTx(2), Code(0x51), 0, 1, [Key(2)]);
    FirstEntails(Deployed(), TwoState(2), TwoTx(2), Code(0x51), 0, [Key(2)]);
  }
}
