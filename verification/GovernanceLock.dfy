/** governance-lock: who has to have signed what before a registry cell may be spent, vote by vote and as a whole. */
module GovernanceLock {
  import opened Bytes
  import opened Chain
  import opened GovernanceHeader
  import opened MerkleTree
  import opened ReviewDelay
  import opened VoteMessage
  import opened Witness
  import opened WitnessArgs

  const ERR_INVALID_ARGS := 1
  const ERR_SIG_VERIFICATION := 4
  const ERR_THRESHOLD_NOT_MET := 5
  const ERR_REVIEW_WINDOW_NOT_MET := 6

  /** ECDSA public key recovery, left uninterpreted. */
  type Recover = (Bytes32, Sig) -> Option<Pubkey>

  const YES: byte := 1

  /** Why one vote is refused, given the keys already seen; None when it passes. */
  function VoteError(v: Vote, seen: seq<Pubkey>, header: LockHeader, idHash: Bytes32, blake: Hasher,
      recover: Recover): Option<int> {
    if v.vote != YES then Some(ERR_INVALID_WITNESS)
    else if v.leafIndex >= header.validatorCount then Some(ERR_SIG_VERIFICATION)
    else if v.pubkey in seen then Some(ERR_SIG_VERIFICATION)
    else if !Verifies(header.root, v.pubkey, v.proof, v.leafIndex, blake) then Some(ERR_SIG_VERIFICATION)
    else
      match SigningMessage(idHash, v.vote, v.timestamp, v.pubkey, blake)
      case Err(e) => Some(e)
      case Ok(message) =>
        match recover(message, v.sig)
        case None => Some(ERR_SIG_VERIFICATION)
        case Some(pk) => if pk != v.pubkey then Some(ERR_SIG_VERIFICATION) else None
  }

  /** The keys of the votes when all pass in order, or the first error. */
  function CountVotes(votes: seq<Vote>, header: LockHeader, idHash: Bytes32, blake: Hasher,
      recover: Recover): Result<seq<Pubkey>, int> {
    if votes == [] then Ok([])
    else
      var last := |votes| - 1;
      match CountVotes(votes[..last], header, idHash, blake, recover)
      case Err(e) => Err(e)
      case Ok(seen) =>
        match VoteError(votes[last], seen, header, idHash, blake, recover)
        case Some(e) => Err(e)
        case None => Ok(seen + [votes[last].pubkey])
  }

  lemma {:induction false} ErrorSticks(votes: seq<Vote>, i: nat, header: LockHeader, idHash: Bytes32, blake: Hasher,
      recover: Recover)
    requires i <= |votes| && CountVotes(votes[..i], header, idHash, blake, recover).Err?
    ensures CountVotes(votes, header, idHash, blake, recover) == CountVotes(votes[..i], header, idHash, blake, recover)
    decreases |votes|
  {
    if i == |votes| {
      assert votes[..i] == votes;
    } else {
      var init := votes[..|votes| - 1];
      assert init[..i] == votes[..i];
      ErrorSticks(init, i, header, idHash, blake, recover);
    }
  }

  /** The vote loop of `program_entry`: `seen` and `yes_count` grow together. */
  method VoteLoop(votes: seq<Vote>, header: LockHeader, idHash: Bytes32, blake: Hasher, recover: Recover)
    returns (r: Result<nat, int>)
    ensures var spec := CountVotes(votes, header, idHash, blake, recover);
            r == match spec case Ok(seen) => Ok(|seen|) case Err(e) => Err(e)
  {
    hide Verifies, SigningMessage;
    var seen: seq<Pubkey> := [];
    var yesCount := 0;
    for i := 0 to |votes|
      invariant CountVotes(votes[..i], header, idHash, blake, recover) == Ok(seen)
      invariant yesCount == |seen|
    {
      var entry := votes[i];
      assert votes[..i + 1][..i] == votes[..i];
      ghost var step := CountVotes(votes[..i + 1], header, idHash, blake, recover);
      if step.Err? {
        ErrorSticks(votes, i + 1, header, idHash, blake, recover);
      }
      if entry.vote != YES {
        return Err(ERR_INVALID_WITNESS);
      }
      if entry.leafIndex >= header.validatorCount {
        return Err(ERR_SIG_VERIFICATION);
      }
      if entry.pubkey in seen {
        return Err(ERR_SIG_VERIFICATION);
      }
      var member := VerifyMerkleProof(header.root, entry.pubkey, entry.proof, entry.leafIndex, blake);
      if !member {
        return Err(ERR_SIG_VERIFICATION);
      }
      var message := VoteSigningMessage(idHash, entry.vote, entry.timestamp, entry.pubkey, blake);
      if message.Err? {
        return Err(message.error);
      }
      var recovered := recover(message.value, entry.sig);
      if recovered.None? || recovered.value != entry.pubkey {
        return Err(ERR_SIG_VERIFICATION);
      }
      seen := seen + [entry.pubkey];
      yesCount := yesCount + 1;
    }
    assert votes[..|votes|] == votes;
    return Ok(yesCount);
  }

  /** `program_entry` on the cell of its group's first input, input `g` of the transaction. */
  function Entry(args: seq<byte>, tx: Tx, g: nat, blake: Hasher, recover: Recover): Result<(), int>
    requires g < |tx.inputs|
  {
    if args != [0x01] then Err(ERR_INVALID_ARGS)
    else
      match ParseLockHeader(tx.inputs[g].cell.data)
      case Err(e) => Err(e)
      case Ok(header) =>
        if g >= |tx.witnesses| then Err(ERR_INVALID_WITNESS)
        else
          match LockReads(tx.witnesses[g])
          case None => Err(ERR_INVALID_WITNESS)
          case Some(fields) =>
            match ParseGov1(fields.gov1Payload)
            case None => Err(ERR_INVALID_WITNESS)
            case Some(gov) => Authorise(header, fields.votes, gov, tx, blake, recover)
  }

  function Authorise(header: LockHeader, votes: seq<Vote>, gov: Gov1, tx: Tx, blake: Hasher,
      recover: Recover): Result<(), int> {
    if gov.proposalIdHash == ZERO_32 || gov.voteDigestHash == ZERO_32 then Err(ERR_INVALID_WITNESS)
    else
      match FindInput(tx.inputs, gov.proposalDataHash, blake)
      case None => Err(ERR_INVALID_WITNESS)
      case Some(i) =>
        if !LockAcceptsSince(tx.inputs[i].since, gov.reviewDelayMs) then Err(ERR_REVIEW_WINDOW_NOT_MET)
        else
          match CountVotes(votes, header, gov.proposalIdHash, blake, recover)
          case Err(e) => Err(e)
          case Ok(seen) => if |seen| < header.threshold then Err(ERR_THRESHOLD_NOT_MET) else Ok(())
  }

  /** `program_entry` with its loops. */
  method ProgramEntry(args: seq<byte>, tx: Tx, g: nat, blake: Hasher, recover: Recover) returns (r: Result<(), int>)
    requires g < |tx.inputs|
    ensures r == Entry(args, tx, g, blake, recover)
  {
    hide CountVotes, FindInput, LockReads, ParseGov1, ParseLockHeader, LockAcceptsSince;
    if args != [0x01] {
      return Err(ERR_INVALID_ARGS);
    }
    var header := ParseLockHeader(tx.inputs[g].cell.data);
    if header.Err? {
      return Err(header.error);
    }
    if g >= |tx.witnesses| {
      return Err(ERR_INVALID_WITNESS);
    }
    var fields := LoadWitnessFields(tx.witnesses[g]);
    if fields.None? {
      return Err(ERR_INVALID_WITNESS);
    }
    var gov := ParseGov1(fields.value.gov1Payload);
    if gov.None? || gov.value.proposalIdHash == ZERO_32 || gov.value.voteDigestHash == ZERO_32 {
      return Err(ERR_INVALID_WITNESS);
    }
    var proposalInput := FindInputByDataHash(tx.inputs, gov.value.proposalDataHash, blake);
    if proposalInput.None? {
      return Err(ERR_INVALID_WITNESS);
    }
    if !LockAcceptsSince(tx.inputs[proposalInput.value].since, gov.value.reviewDelayMs) {
      return Err(ERR_REVIEW_WINDOW_NOT_MET);
    }
    var yesCount := VoteLoop(fields.value.votes, header.value, gov.value.proposalIdHash, blake, recover);
    if yesCount.Err? {
      return Err(yesCount.error);
    }
    if yesCount.value < header.value.threshold {
      return Err(ERR_THRESHOLD_NOT_MET);
    }
    return Ok(());
  }

  // ---- what acceptance means ----

  /** The key signed the yes-message of this proposal. */
  ghost predicate SignedYes(pk: Pubkey, idHash: Bytes32, blake: Hasher, recover: Recover) {
    exists timestamp: seq<byte>, sig: Sig ::
      TimestampOk(timestamp)
      && recover(blake(Canonical(idHash, Ascii("yes"), timestamp, pk)), sig) == Some(pk)
  }

  /** No collision among the strings hashed by the tree and by the proofs of these votes. */
  ghost predicate NoCollision(votes: seq<Vote>, pubkeys: seq<Pubkey>, blake: Hasher) {
    forall i :: 0 <= i < |votes| ==>
      CollisionFree(blake, AllInputs(pubkeys, votes[i].pubkey, votes[i].proof, votes[i].leafIndex, blake))
  }

  /** A vote that passes is by the listed validator at its leaf index, who signed the yes-message. */
  lemma PassingVote(v: Vote, seen: seq<Pubkey>, header: LockHeader, idHash: Bytes32, blake: Hasher, recover: Recover,
      pubkeys: seq<Pubkey>)
    requires VoteError(v, seen, header, idHash, blake, recover) == None
    requires header.root == TreeRoot(pubkeys, blake) && header.validatorCount == |pubkeys|
    requires CollisionFree(blake, AllInputs(pubkeys, v.pubkey, v.proof, v.leafIndex, blake))
    ensures v.leafIndex < |pubkeys| && pubkeys[v.leafIndex] == v.pubkey && |v.proof| == Depth(|pubkeys|)
    ensures v.pubkey !in seen && SignedYes(v.pubkey, idHash, blake, recover)
  {
    hide Verifies, CollisionFree, AllInputs, TreeRoot, Canonical, Ascii;
    Sound(pubkeys, v.pubkey, v.proof, v.leafIndex, blake);
    DepthIsLeast(|pubkeys|, Depth(|pubkeys|));
    SmallRemainder(v.leafIndex, Pow2(Depth(|pubkeys|)));
    assert VoteWord(YES) == Some(Ascii("yes"));
    assert SigningMessage(idHash, v.vote, v.timestamp, v.pubkey, blake).Ok?;
    assert TimestampOk(v.timestamp);
    assert recover(blake(Canonical(idHash, Ascii("yes"), v.timestamp, v.pubkey)), v.sig) == Some(v.pubkey);
  }

  lemma SmallRemainder(n: nat, m: nat)
    requires n < m
    ensures n % m == n
  {
  }

  /** When all votes pass, the keys seen are distinct listed validators who signed, one per vote. */
  lemma {:induction false} SeenAreSigners(
      votes: seq<Vote>, header: LockHeader, idHash: Bytes32, blake: Hasher, recover: Recover, pubkeys: seq<Pubkey>)
    returns (signers: set<Pubkey>)
    requires CountVotes(votes, header, idHash, blake, recover).Ok?
    requires header.root == TreeRoot(pubkeys, blake) && header.validatorCount == |pubkeys|
    requires NoCollision(votes, pubkeys, blake)
    ensures |CountVotes(votes, header, idHash, blake, recover).value| == |votes| == |signers|
    ensures forall pk :: pk in signers <==> pk in CountVotes(votes, header, idHash, blake, recover).value
    ensures forall pk :: pk in signers ==> pk in pubkeys && SignedYes(pk, idHash, blake, recover)
  {
    hide Verifies, CollisionFree, TreeRoot, VoteError, SignedYes, AllInputs;
    if votes == [] {
      signers := {};
    } else {
      var last := |votes| - 1;
      assert forall i :: 0 <= i < last ==> votes[..last][i] == votes[i];
      var before := SeenAreSigners(votes[..last], header, idHash, blake, recover, pubkeys);
      var seen := CountVotes(votes[..last], header, idHash, blake, recover).value;
      PassingVote(votes[last], seen, header, idHash, blake, recover, pubkeys);
      signers := before + {votes[last].pubkey};
    }
  }

  /**
   * If governance-lock accepts and the header commits to a validator list, at least `threshold` >= 1
   * distinct members of that list each signed the yes-message of the proposal named in the GOV1 payload,
   * and an input carries the proposal data the payload names, aged at least its review delay.
   */
  lemma ThresholdAuthorisation(args: seq<byte>, tx: Tx, g: nat, blake: Hasher, recover: Recover, pubkeys: seq<Pubkey>)
    returns (header: LockHeader, gov: Gov1, signers: set<Pubkey>, proposal: nat)
    requires g < |tx.inputs| && Entry(args, tx, g, blake, recover).Ok?
    requires var h := ParseLockHeader(tx.inputs[g].cell.data).value;
             h.root == TreeRoot(pubkeys, blake) && h.validatorCount == |pubkeys|
    requires NoCollision(LockReads(tx.witnesses[g]).value.votes, pubkeys, blake)
    ensures ParseLockHeader(tx.inputs[g].cell.data) == Ok(header)
    ensures g < |tx.witnesses| && LockReads(tx.witnesses[g]).Some?
    ensures ParseGov1(LockReads(tx.witnesses[g]).value.gov1Payload) == Some(gov)
    ensures 1 <= header.threshold <= |signers| == |LockReads(tx.witnesses[g]).value.votes|
    ensures forall pk :: pk in signers ==> pk in pubkeys && SignedYes(pk, gov.proposalIdHash, blake, recover)
    ensures FindInput(tx.inputs, gov.proposalDataHash, blake) == Some(proposal)
    ensures proposal < |tx.inputs| && LockAcceptsSince(tx.inputs[proposal].since, gov.reviewDelayMs)
    ensures RelativeSeconds(tx.inputs[proposal].since, gov.reviewDelayMs)
  {
    hide TreeRoot, CountVotes, NoCollision, SignedYes, FindInput, LockReads, ParseGov1, LockAcceptsSince,
      RelativeSeconds;
    header := ParseLockHeader(tx.inputs[g].cell.data).value;
    var fields := LockReads(tx.witnesses[g]).value;
    gov := ParseGov1(fields.gov1Payload).value;
    proposal := FindInput(tx.inputs, gov.proposalDataHash, blake).value;
    signers := SeenAreSigners(fields.votes, header, gov.proposalIdHash, blake, recover, pubkeys);
    HeaderThreshold(tx.inputs[g].cell.data);
    AcceptedWords(tx.inputs[proposal].since, gov.reviewDelayMs);
  }

  /** Which check refuses a transaction whose header and witness are read, and with which exit code. */
  lemma Decides(args: seq<byte>, tx: Tx, g: nat, blake: Hasher, recover: Recover, header: LockHeader, votes: seq<Vote>,
      gov: Gov1, p: nat)
    requires g < |tx.inputs| && g < |tx.witnesses| && args == [1]
    requires ParseLockHeader(tx.inputs[g].cell.data) == Ok(header)
    requires LockReads(tx.witnesses[g]) == Some(Fields(votes, EncodeGov1(gov)))
    requires gov.proposalIdHash != ZERO_32 && gov.voteDigestHash != ZERO_32
    requires FindInput(tx.inputs, gov.proposalDataHash, blake) == Some(p)
    ensures Entry(args, tx, g, blake, recover)
         == if !RelativeSeconds(tx.inputs[p].since, gov.reviewDelayMs) then Err(6)
            else match CountVotes(votes, header, gov.proposalIdHash, blake, recover)
              case Err(e) => Err(e)
              case Ok(seen) => if |seen| < header.threshold then Err(5) else Ok(())
  {
    hide CountVotes, FindInput, LockReads, ParseGov1, ParseLockHeader, LockAcceptsSince, RelativeSeconds, EncodeGov1;
    Gov1Exact(EncodeGov1(gov), gov);
    AcceptedWords(tx.inputs[p].since, gov.reviewDelayMs);
  }

  /** What is refused before: foreign args, an unreadable registry, a witness that binds no proposal input. */
  lemma Refuses(args: seq<byte>, tx: Tx, g: nat, blake: Hasher, recover: Recover)
    requires g < |tx.inputs|
    ensures args != [1] ==> Entry(args, tx, g, blake, recover) == Err(1)
    ensures args == [1] && ParseLockHeader(tx.inputs[g].cell.data).Err? ==>
              Entry(args, tx, g, blake, recover) == Err(2)
    ensures args == [1] && ParseLockHeader(tx.inputs[g].cell.data).Ok?
            && (forall gov: Gov1, votes: seq<Vote> ::
                  g < |tx.witnesses| && LockReads(tx.witnesses[g]) == Some(Fields(votes, EncodeGov1(gov))) ==>
                  gov.proposalIdHash == ZERO_32 || gov.voteDigestHash == ZERO_32
                  || FindInput(tx.inputs, gov.proposalDataHash, blake).None?) ==>
              Entry(args, tx, g, blake, recover) == Err(3)
  {
    hide CountVotes, FindInput, LockReads, ParseGov1, HeaderSlice, LockHeaderOf, EncodeGov1;
    if ParseLockHeader(tx.inputs[g].cell.data).Err? {
      HeaderRefused(tx.inputs[g].cell.data);
    }
    if g < |tx.witnesses| && LockReads(tx.witnesses[g]).Some? {
      var fields := LockReads(tx.witnesses[g]).value;
      if ParseGov1(fields.gov1Payload).Some? {
        var gov := ParseGov1(fields.gov1Payload).value;
        Gov1Exact(fields.gov1Payload, gov);
        assert LockReads(tx.witnesses[g]) == Some(Fields(fields.votes, EncodeGov1(gov)));
      }
    }
  }

  lemma HeaderRefused(data: seq<byte>)
    requires ParseLockHeader(data).Err?
    ensures ParseLockHeader(data) == Err(2)
  {
    hide HeaderSlice;
  }

  /** A refused vote: 3 when it is no yes or its timestamp is malformed, 4 for every other reason. */
  lemma VoteRefused(v: Vote, seen: seq<Pubkey>, header: LockHeader, idHash: Bytes32, blake: Hasher, recover: Recover)
    requires VoteError(v, seen, header, idHash, blake, recover).Some?
    ensures VoteError(v, seen, header, idHash, blake, recover)
         == Some(if v.vote != 1 then 3
                 else if v.leafIndex < header.validatorCount && v.pubkey !in seen
                         && Verifies(header.root, v.pubkey, v.proof, v.leafIndex, blake) && !TimestampOk(v.timestamp)
                   then 3
                 else 4)
  {
    hide Verifies, Canonical, Ascii, TimestampOk;
    assert VoteWord(YES) == Some(Ascii("yes"));
  }

  lemma AcceptedReads(args: seq<byte>, tx: Tx, g: nat, blake: Hasher, recover: Recover)
    requires g < |tx.inputs| && Entry(args, tx, g, blake, recover).Ok?
    ensures ParseLockHeader(tx.inputs[g].cell.data).Ok? && g < |tx.witnesses| && LockReads(tx.witnesses[g]).Some?
  {
    hide ParseLockHeader, LockReads, Authorise, ParseGov1;
  }

  lemma HeaderThreshold(data: seq<byte>)
    requires ParseLockHeader(data).Ok?
    ensures 1 <= ParseLockHeader(data).value.threshold <= ParseLockHeader(data).value.validatorCount
  {
  }

  // ---- exactly which vote lists pass ----

  /** What the loop checks of one vote apart from repetition. */
  predicate Checked(v: Vote, header: LockHeader, idHash: Bytes32, blake: Hasher, recover: Recover) {
    && v.vote == YES && v.leafIndex < header.validatorCount
    && Verifies(header.root, v.pubkey, v.proof, v.leafIndex, blake)
    && TimestampOk(v.timestamp)
    && recover(blake(Canonical(idHash, Ascii("yes"), v.timestamp, v.pubkey)), v.sig) == Some(v.pubkey)
  }

  ghost predicate DistinctKeys(votes: seq<Vote>) {
    forall i, j :: 0 <= i < j < |votes| ==> votes[i].pubkey != votes[j].pubkey
  }

  lemma VotePasses(v: Vote, seen: seq<Pubkey>, header: LockHeader, idHash: Bytes32, blake: Hasher, recover: Recover)
    ensures VoteError(v, seen, header, idHash, blake, recover) == None
       <==> Checked(v, header, idHash, blake, recover) && v.pubkey !in seen
  {
    hide Verifies, Canonical, Ascii, TimestampOk;
    assert VoteWord(YES) == Some(Ascii("yes"));
  }

  /**
   * The loop accepts a vote list iff every vote is checked and no key votes twice; the keys seen are then the voters
   * in order.
   */
  lemma {:induction false} CountVotesExact(votes: seq<Vote>, header: LockHeader, idHash: Bytes32, blake: Hasher,
      recover: Recover)
    ensures CountVotes(votes, header, idHash, blake, recover).Ok?
       <==> DistinctKeys(votes) && forall i :: 0 <= i < |votes| ==> Checked(votes[i], header, idHash, blake, recover)
    ensures CountVotes(votes, header, idHash, blake, recover).Ok? ==>
              var seen := CountVotes(votes, header, idHash, blake, recover).value;
              |seen| == |votes| && forall i :: 0 <= i < |votes| ==> seen[i] == votes[i].pubkey
  {
    hide Checked, VoteError;
    if votes != [] {
      var last := |votes| - 1;
      var init := votes[..last];
      assert forall i :: 0 <= i < last ==> init[i] == votes[i];
      CountVotesExact(init, header, idHash, blake, recover);
      if CountVotes(init, header, idHash, blake, recover).Ok? {
        VotePasses(votes[last], CountVotes(init, header, idHash, blake, recover).value, header, idHash, blake, recover);
      }
    }
  }

  /** A listed validator's yes-vote, with the path the CLI computes and a signature that recovers, is checked. */
  lemma ValidatorVoteChecked(v: Vote, pubkeys: seq<Pubkey>, header: LockHeader, idHash: Bytes32, blake: Hasher,
      recover: Recover)
    requires header.root == TreeRoot(pubkeys, blake) && header.validatorCount == |pubkeys|
    requires v.vote == YES && v.leafIndex < |pubkeys| && pubkeys[v.leafIndex] == v.pubkey
    requires v.proof == Proof(Padded(pubkeys, blake), Depth(|pubkeys|), v.leafIndex, blake)
    requires TimestampOk(v.timestamp)
    requires recover(blake(Canonical(idHash, Ascii("yes"), v.timestamp, v.pubkey)), v.sig) == Some(v.pubkey)
    ensures Checked(v, header, idHash, blake, recover)
  {
    hide Verifies, Canonical, Ascii, TimestampOk, Proof, Padded, TreeRoot;
    Complete(pubkeys, v.leafIndex, blake);
  }
}
