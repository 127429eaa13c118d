/**
 * Whose votes an accepted transaction needs, what for, and what acceptance entails of a list of validators: exactly,
 * for one transaction and any input of it, and then over runs; and what the votes cast for one update allow besides.
 */
module Authorisation {
  import opened Bytes
  import opened Chain
  import opened Molecule
  import opened Witness
  import opened BlacklistRegistry
  import opened Ledger
  import GH = GovernanceHeader
  import GL = GovernanceLock
  import MT = MerkleTree
  import PC = ProposalCell
  import RD = ReviewDelay
  import VM = VoteMessage
  import Scan
  import WA = WitnessArgs

  // ---- consent ----

  /** The header of a cell commits to this list of validators. */
  predicate Commits(c: Cell, pubkeys: seq<Pubkey>, blake: Hasher) {
    GH.ParseLockHeader(c.data).Ok? ==>
      var header := GH.ParseLockHeader(c.data).value;
      header.root == MT.TreeRoot(pubkeys, blake) && header.validatorCount == |pubkeys|
  }

  /** The votes governance-lock reads from a witness; none where it reads nothing. */
  function VotesAt(tx: Tx, g: nat): seq<Vote> {
    if g < |tx.witnesses| && WA.LockReads(tx.witnesses[g]).Some? then WA.LockReads(tx.witnesses[g]).value.votes else []
  }

  /** The binding the registry reads from a witness. */
  function BoundAt(tx: Tx, g: nat): Option<WA.Gov1> {
    if g >= |tx.witnesses| then None
    else match WA.RegistryReads(tx.witnesses[g]) case None => None case Some(payload) => WA.ParseGov1(payload)
  }

  /**
   * Distinct members of the list, as many as the threshold of the cell's header, signed yes to the proposal id bound
   * at input `i`.
   */
  ghost predicate Consented(r: Rules, tx: Tx, i: nat, pubkeys: seq<Pubkey>)
    requires i < |tx.inputs|
  {
    && GH.ParseLockHeader(tx.inputs[i].cell.data).Ok? && BoundAt(tx, i).Some?
    && exists signers: set<Pubkey> ::
         |signers| >= GH.ParseLockHeader(tx.inputs[i].cell.data).value.threshold
         && SignersOf(signers, pubkeys, BoundAt(tx, i).value.proposalIdHash, r)
  }

  ghost predicate SignersOf(signers: set<Pubkey>, pubkeys: seq<Pubkey>, idHash: Bytes32, r: Rules) {
    forall pk <- signers :: pk in pubkeys && GL.SignedYes(pk, idHash, r.blake, r.recover)
  }

  /** What is asked of a registry input for the consent to follow. */
  ghost predicate Attributable(r: Rules, tx: Tx, i: nat, pubkeys: seq<Pubkey>)
    requires i < |tx.inputs|
  {
    && IsRegistry(r, tx.inputs[i].cell) && IsGoverned(r, tx.inputs[i].cell)
    && Commits(tx.inputs[i].cell, pubkeys, r.blake) && GL.NoCollision(VotesAt(tx, i), pubkeys, r.blake)
  }

  ghost predicate IsFirst(tx: Tx, i: nat)
    requires i < |tx.inputs|
  {
    FirstOfGroup(tx.inputs, tx.inputs[i].cell.lock) == i
  }

  /** A registry that is first in its lock group is only spent with its own validators' consent. */
  lemma FirstConsents(r: Rules, s: State, tx: Tx, h: Bytes32, i: nat, pubkeys: seq<Pubkey>)
    requires CanApply(r, s, tx, h) && i < |tx.inputs| && Attributable(r, tx, i, pubkeys) && IsFirst(tx, i)
    ensures Consented(r, tx, i, pubkeys)
    ensures exists p: nat :: p < |tx.inputs| && PC.Parse(tx.inputs[p].cell.data).Ok?
              && Executed(tx.inputs[i].cell.typ.value, tx, r.blake) == [PC.Parse(tx.inputs[p].cell.data).value]
  {
    hide WA.LockReads, WA.RegistryReads, WA.ParseGov1, PC.Parse, MT.TreeRoot, GL.NoCollision, GL.SignedYes, GL.Entry,
      GH.ParseLockHeader, RD.LockAcceptsSince, Executed, Unsigned, IsRegistry, IsGoverned;
    var gov, header, signers, p := UpdateIsAuthorised(r, s, tx, h, i, pubkeys);
    assert SignersOf(signers, pubkeys, gov.proposalIdHash, r);
  }

  // ---- what acceptance asks for ----

  /** The digest of a yes-vote's message and the key it must recover to. */
  type Asking = (Bytes32, Pubkey)

  function YesMessage(idHash: Bytes32, timestamp: seq<byte>, pubkey: Pubkey): seq<byte> {
    VM.Canonical(idHash, VM.Ascii("yes"), timestamp, pubkey)
  }

  function AskingOf(v: Vote, idHash: Bytes32, blake: Hasher): Asking {
    (blake(YesMessage(idHash, v.timestamp, v.pubkey)), v.pubkey)
  }

  /** What a group's votes are asked to have signed, under the proposal id bound in the group's witness. */
  ghost function AskedAt(tx: Tx, g: nat, blake: Hasher): set<Asking> {
    if BoundAt(tx, g).None? then {}
    else set v | v in VotesAt(tx, g) :: AskingOf(v, BoundAt(tx, g).value.proposalIdHash, blake)
  }

  /** The first input of the lock group of input `k`. */
  function FirstFor(tx: Tx, k: nat): (g: nat)
    requires k < |tx.inputs|
    ensures g < |tx.inputs|
  {
    FirstOfGroup(tx.inputs, tx.inputs[k].cell.lock)
  }

  /** All that a transaction asks for, over the governance lock groups of its first `n` inputs. */
  ghost function AskedOf(r: Rules, tx: Tx, n: nat): set<Asking>
    requires n <= |tx.inputs|
  {
    if n == 0 then {}
    else
      AskedOf(r, tx, n - 1)
      + if IsGoverned(r, tx.inputs[n - 1].cell) then AskedAt(tx, FirstFor(tx, n - 1), r.blake) else {}
  }

  ghost function Asked(r: Rules, tx: Tx): set<Asking> {
    AskedOf(r, tx, |tx.inputs|)
  }

  lemma {:induction false} AskedExact(r: Rules, tx: Tx, n: nat, a: Asking)
    requires n <= |tx.inputs|
    ensures a in AskedOf(r, tx, n)
       <==> exists k :: 0 <= k < n && IsGoverned(r, tx.inputs[k].cell) && a in AskedAt(tx, FirstFor(tx, k), r.blake)
  {
    hide AskedAt, IsGoverned, FirstFor;
    if n > 0 {
      AskedExact(r, tx, n - 1, a);
    }
  }

  /** Signature recovery that knows no signature but of these messages by these keys. */
  function Restricted(recover: GL.Recover, asked: set<Asking>): GL.Recover {
    (message: Bytes32, sig: Sig) =>
      match recover(message, sig) case None => None case Some(pk) => if (message, pk) in asked then Some(pk) else None
  }

  lemma CheckedStill(v: Vote, header: GH.LockHeader, idHash: Bytes32, blake: Hasher, recover: GL.Recover,
        asked: set<Asking>)
    requires GL.Checked(v, header, idHash, blake, recover) && AskingOf(v, idHash, blake) in asked
    ensures GL.Checked(v, header, idHash, blake, Restricted(recover, asked))
  {
    hide MT.Verifies, VM.Canonical, VM.Ascii, VM.TimestampOk;
  }

  /** Votes that were asked for count the same when nothing else can be recovered. */
  lemma SameCount(votes: seq<Vote>, header: GH.LockHeader, idHash: Bytes32, blake: Hasher, recover: GL.Recover,
        asked: set<Asking>)
    requires forall v <- votes :: AskingOf(v, idHash, blake) in asked
    requires GL.CountVotes(votes, header, idHash, blake, recover).Ok?
    ensures var seen := GL.CountVotes(votes, header, idHash, blake, Restricted(recover, asked));
            seen.Ok? && |seen.value| == |GL.CountVotes(votes, header, idHash, blake, recover).value|
  {
    hide GL.CountVotes, GL.Checked, AskingOf, GL.DistinctKeys, Restricted;
    GL.CountVotesExact(votes, header, idHash, blake, recover);
    GL.CountVotesExact(votes, header, idHash, blake, Restricted(recover, asked));
    forall i | 0 <= i < |votes|
      ensures GL.Checked(votes[i], header, idHash, blake, Restricted(recover, asked))
    {
      CheckedStill(votes[i], header, idHash, blake, recover, asked);
    }
  }

  /** What the lock has counted of a witness it accepts, in the terms of both readers. */
  lemma CountedAt(args: seq<byte>, tx: Tx, g: nat, blake: Hasher, recover: GL.Recover)
    requires g < |tx.inputs| && GL.Entry(args, tx, g, blake, recover).Ok?
    ensures GH.ParseLockHeader(tx.inputs[g].cell.data).Ok? && BoundAt(tx, g).Some?
    ensures var header := GH.ParseLockHeader(tx.inputs[g].cell.data).value;
            var seen := GL.CountVotes(VotesAt(tx, g), header, BoundAt(tx, g).value.proposalIdHash, blake, recover);
            seen.Ok? && |seen.value| >= header.threshold
  {
    hide GL.CountVotes, WA.LockReads, WA.RegistryReads, WA.ParseGov1, GH.ParseLockHeader, FindInput,
      RD.LockAcceptsSince;
    GL.AcceptedReads(args, tx, g, blake, recover);
    WA.ReadersAgree(tx.witnesses[g]);
  }

  lemma SameEntry(args: seq<byte>, tx: Tx, g: nat, blake: Hasher, recover: GL.Recover, asked: set<Asking>)
    requires g < |tx.inputs| && GL.Entry(args, tx, g, blake, recover).Ok? && AskedAt(tx, g, blake) <= asked
    ensures GL.Entry(args, tx, g, blake, Restricted(recover, asked)).Ok?
  {
    hide GL.CountVotes, AskingOf, WA.LockReads, WA.RegistryReads, WA.ParseGov1, GH.ParseLockHeader, FindInput,
      RD.LockAcceptsSince, Restricted;
    CountedAt(args, tx, g, blake, recover);
    WA.ReadersAgree(tx.witnesses[g]);
    var (header, idHash) := (GH.ParseLockHeader(tx.inputs[g].cell.data).value, BoundAt(tx, g).value.proposalIdHash);
    SameCount(VotesAt(tx, g), header, idHash, blake, recover, asked);
  }

  /** An accepted transaction is accepted still when every signature it does not ask for is worthless. */
  lemma OnlyTheAskedMatter(r: Rules, s: State, tx: Tx, h: Bytes32)
    requires CanApply(r, s, tx, h)
    ensures CanApply(r.(recover := Restricted(r.recover, Asked(r, tx))), s, tx, h)
  {
    hide GL.Entry, Restricted, AskedOf, IsGoverned, IsRegistry, AskedAt, VotesAt, BlacklistRegistry.Entry;
    var asked := Asked(r, tx);
    var r' := r.(recover := Restricted(r.recover, asked));
    forall i | 0 <= i < |tx.inputs| && IsGoverned(r', tx.inputs[i].cell)
      ensures GL.Entry(tx.inputs[i].cell.lock.args, tx, FirstFor(tx, i), r.blake, r'.recover).Ok?
    {
      SameCodes(r, r', tx.inputs[i].cell);
      forall a | a in AskedAt(tx, FirstFor(tx, i), r.blake)
        ensures a in asked
      {
        AskedExact(r, tx, |tx.inputs|, a);
      }
      SameEntry(tx.inputs[i].cell.lock.args, tx, FirstFor(tx, i), r.blake, r.recover, asked);
    }
    forall c: Cell
      ensures IsRegistry(r', c) <==> IsRegistry(r, c)
    {
      SameCodes(r, r', c);
    }
  }

  lemma SameCodes(r: Rules, r': Rules, c: Cell)
    requires r'.registryCodes == r.registryCodes && r'.governanceCodes == r.governanceCodes
    ensures (IsRegistry(r', c) <==> IsRegistry(r, c)) && (IsGoverned(r', c) <==> IsGoverned(r, c))
  {
  }

  /** Whatever an accepted transaction asks for has been signed. */
  lemma AskedIsSigned(r: Rules, s: State, tx: Tx, h: Bytes32, idHash: Bytes32, timestamp: seq<byte>, pk: Pubkey)
    requires CanApply(r, s, tx, h) && VM.TimestampOk(timestamp)
    requires (r.blake(YesMessage(idHash, timestamp, pk)), pk) in Asked(r, tx)
    ensures GL.SignedYes(pk, idHash, r.blake, r.recover)
  {
    hide GL.Entry, AskedOf, IsGoverned, AskedAt, VotesAt, VM.Canonical, VM.Ascii, VM.TimestampOk, Unsigned, AskingOf;
    var a := (r.blake(YesMessage(idHash, timestamp, pk)), pk);
    AskedExact(r, tx, |tx.inputs|, a);
    var k :| 0 <= k < |tx.inputs| && IsGoverned(r, tx.inputs[k].cell) && a in AskedAt(tx, FirstFor(tx, k), r.blake);
    var v := AskedOne(tx.inputs[k].cell.lock.args, tx, FirstFor(tx, k), r.blake, r.recover, a);
    assert r.recover(r.blake(VM.Canonical(idHash, VM.Ascii("yes"), timestamp, pk)), v.sig) == Some(pk);
  }

  /** Behind each asking of an accepted group stands a vote whose signature recovers. */
  lemma AskedOne(args: seq<byte>, tx: Tx, g: nat, blake: Hasher, recover: GL.Recover, a: Asking) returns (v: Vote)
    requires g < |tx.inputs| && GL.Entry(args, tx, g, blake, recover).Ok? && a in AskedAt(tx, g, blake)
    ensures BoundAt(tx, g).Some? && v in VotesAt(tx, g) && VM.TimestampOk(v.timestamp)
    ensures a == AskingOf(v, BoundAt(tx, g).value.proposalIdHash, blake) && recover(a.0, v.sig) == Some(a.1)
  {
    hide GL.Entry, VotesAt, BoundAt, GL.CountVotes, VM.Canonical, VM.Ascii, VM.TimestampOk, GL.DistinctKeys,
      GH.ParseLockHeader, MT.Verifies;
    CountedAt(args, tx, g, blake, recover);
    var (header, idHash) := (GH.ParseLockHeader(tx.inputs[g].cell.data).value, BoundAt(tx, g).value.proposalIdHash);
    GL.CountVotesExact(VotesAt(tx, g), header, idHash, blake, recover);
    v :| v in VotesAt(tx, g) && a == AskingOf(v, idHash, blake);
    assert GL.Checked(v, header, idHash, blake, recover);
  }

  // ---- when acceptance is consent ----

  /** The listed validators asked to have signed some yes-message of this proposal id. */
  ghost function AskedFor(r: Rules, tx: Tx, idHash: Bytes32, pubkeys: seq<Pubkey>): set<Pubkey> {
    set pk | pk in pubkeys && IsAskedFor(r, tx, idHash, pk)
  }

  ghost predicate IsAskedFor(r: Rules, tx: Tx, idHash: Bytes32, pk: Pubkey) {
    exists timestamp: seq<byte> ::
      VM.TimestampOk(timestamp) && (r.blake(YesMessage(idHash, timestamp, pk)), pk) in Asked(r, tx)
  }

  /** As many listed validators are asked for the proposal id bound at input `i` as its header wants. */
  ghost predicate EnoughAsked(r: Rules, tx: Tx, i: nat, pubkeys: seq<Pubkey>)
    requires i < |tx.inputs|
  {
    && GH.ParseLockHeader(tx.inputs[i].cell.data).Ok? && BoundAt(tx, i).Some?
    && |AskedFor(r, tx, BoundAt(tx, i).value.proposalIdHash, pubkeys)|
       >= GH.ParseLockHeader(tx.inputs[i].cell.data).value.threshold
  }

  /** Acceptance, whoever can sign what, entails the consent of the list. */
  ghost predicate AcceptanceEntailsConsent(r: Rules, s: State, tx: Tx, h: Bytes32, i: nat, pubkeys: seq<Pubkey>)
    requires i < |tx.inputs|
  {
    forall recover: GL.Recover :: CanApply(r.(recover := recover), s, tx, h) ==>
      Consented(r.(recover := recover), tx, i, pubkeys)
  }

  lemma {:induction false} FewerMembers<T>(a: set<T>, b: set<T>)
    requires a <= b
    ensures |a| <= |b|
  {
    if a != {} {
      var x :| x in a;
      FewerMembers(a - {x}, b - {x});
    }
  }

  /** What is asked for depends on no signature. */
  lemma {:induction false} SameAsked(r: Rules, r': Rules, tx: Tx, n: nat)
    requires r'.governanceCodes == r.governanceCodes && r'.blake == r.blake && n <= |tx.inputs|
    ensures AskedOf(r', tx, n) == AskedOf(r, tx, n)
  {
    hide AskedAt;
    if n > 0 {
      SameAsked(r, r', tx, n - 1);
    }
  }

  lemma EnoughIsConsent(r: Rules, s: State, tx: Tx, h: Bytes32, i: nat, pubkeys: seq<Pubkey>, recover: GL.Recover)
    requires i < |tx.inputs| && EnoughAsked(r, tx, i, pubkeys) && CanApply(r.(recover := recover), s, tx, h)
    ensures Consented(r.(recover := recover), tx, i, pubkeys)
  {
    hide CanApply, AskedOf, BoundAt, GH.ParseLockHeader, GL.SignedYes, VM.TimestampOk, YesMessage;
    var (r', idHash) := (r.(recover := recover), BoundAt(tx, i).value.proposalIdHash);
    var signers := AskedFor(r, tx, idHash, pubkeys);
    SameAsked(r, r', tx, |tx.inputs|);
    forall pk | pk in signers
      ensures GL.SignedYes(pk, idHash, r.blake, recover)
    {
      var timestamp: seq<byte> :|
        VM.TimestampOk(timestamp) && (r.blake(YesMessage(idHash, timestamp, pk)), pk) in Asked(r, tx);
      AskedIsSigned(r', s, tx, h, idHash, timestamp, pk);
    }
    assert SignersOf(signers, pubkeys, idHash, r');
  }

  /** Where nothing else can be recovered, whoever signed was asked. */
  lemma SignedWasAsked(r: Rules, tx: Tx, idHash: Bytes32, pk: Pubkey)
    requires GL.SignedYes(pk, idHash, r.blake, Restricted(r.recover, Asked(r, tx)))
    ensures IsAskedFor(r, tx, idHash, pk)
  {
    hide AskedOf, VM.Canonical, VM.Ascii, VM.TimestampOk;
    var timestamp: seq<byte>, sig: Sig :| VM.TimestampOk(timestamp)
      && Restricted(r.recover, Asked(r, tx))(r.blake(VM.Canonical(idHash, VM.Ascii("yes"), timestamp, pk)), sig)
        == Some(pk);
    assert (r.blake(YesMessage(idHash, timestamp, pk)), pk) in Asked(r, tx);
  }

  lemma ConsentIsEnough(r: Rules, tx: Tx, i: nat, pubkeys: seq<Pubkey>)
    requires i < |tx.inputs| && Consented(r.(recover := Restricted(r.recover, Asked(r, tx))), tx, i, pubkeys)
    ensures EnoughAsked(r, tx, i, pubkeys)
  {
    hide AskedOf, BoundAt, GH.ParseLockHeader, GL.SignedYes, Restricted, IsAskedFor;
    var r' := r.(recover := Restricted(r.recover, Asked(r, tx)));
    var idHash := BoundAt(tx, i).value.proposalIdHash;
    var signers: set<Pubkey> :| |signers| >= GH.ParseLockHeader(tx.inputs[i].cell.data).value.threshold
      && SignersOf(signers, pubkeys, idHash, r');
    forall pk | pk in signers
      ensures pk in AskedFor(r, tx, idHash, pubkeys)
    {
      SignedWasAsked(r, tx, idHash, pk);
    }
    FewerMembers(signers, AskedFor(r, tx, idHash, pubkeys));
  }

  /**
   * When acceptance of a transaction is the consent of a list to what happens to one of its inputs: exactly when the
   * witnesses of the first inputs of the lock groups ask as many of the list as that input's header wants to have
   * signed yes-messages of the proposal id bound to it.
   */
  lemma ConsentExact(r: Rules, s: State, tx: Tx, h: Bytes32, i: nat, pubkeys: seq<Pubkey>)
    requires CanApply(r, s, tx, h) && i < |tx.inputs|
    ensures AcceptanceEntailsConsent(r, s, tx, h, i, pubkeys) <==> EnoughAsked(r, tx, i, pubkeys)
  {
    hide CanApply, Consented, EnoughAsked, Asked, Restricted;
    if EnoughAsked(r, tx, i, pubkeys) {
      forall recover: GL.Recover | CanApply(r.(recover := recover), s, tx, h)
        ensures Consented(r.(recover := recover), tx, i, pubkeys)
      {
        EnoughIsConsent(r, s, tx, h, i, pubkeys, recover);
      }
    }
    if AcceptanceEntailsConsent(r, s, tx, h, i, pubkeys) {
      OnlyTheAskedMatter(r, s, tx, h);
      ConsentIsEnough(r, tx, i, pubkeys);
    }
  }

  /** No other yes-message of this proposal id has the digest of this vote's message. */
  ghost predicate ToldApart(v: Vote, bound: Bytes32, idHash: Bytes32, blake: Hasher) {
    forall timestamp: seq<byte> ::
      VM.TimestampOk(timestamp)
      && blake(YesMessage(idHash, timestamp, v.pubkey)) == blake(YesMessage(bound, v.timestamp, v.pubkey)) ==>
        YesMessage(idHash, timestamp, v.pubkey) == YesMessage(bound, v.timestamp, v.pubkey)
  }

  ghost predicate GroupToldApart(tx: Tx, g: nat, idHash: Bytes32, blake: Hasher) {
    BoundAt(tx, g).Some? ==>
      forall v <- VotesAt(tx, g) :: ToldApart(v, BoundAt(tx, g).value.proposalIdHash, idHash, blake)
  }

  /** No collision between the messages a transaction asks for and yes-messages of this proposal id. */
  ghost predicate NoMessageCollides(r: Rules, tx: Tx, idHash: Bytes32) {
    forall k :: 0 <= k < |tx.inputs| && IsGoverned(r, tx.inputs[k].cell) ==>
      GroupToldApart(tx, FirstFor(tx, k), idHash, r.blake)
  }

  predicate BoundTo(tx: Tx, g: nat, idHash: Bytes32) {
    BoundAt(tx, g).Some? && BoundAt(tx, g).value.proposalIdHash == idHash
  }

  predicate VotesIn(tx: Tx, g: nat, pk: Pubkey) {
    exists v <- VotesAt(tx, g) :: v.pubkey == pk
  }

  /** The key votes in a governance lock group bound to this proposal id. */
  ghost predicate IsVoterFor(r: Rules, tx: Tx, idHash: Bytes32, pk: Pubkey) {
    exists k :: 0 <= k < |tx.inputs| && IsGoverned(r, tx.inputs[k].cell)
      && BoundTo(tx, FirstFor(tx, k), idHash) && VotesIn(tx, FirstFor(tx, k), pk)
  }

  ghost function VotersFor(r: Rules, tx: Tx, idHash: Bytes32, pubkeys: seq<Pubkey>): set<Pubkey> {
    set pk | pk in pubkeys && IsVoterFor(r, tx, idHash, pk)
  }

  lemma VotersAreAsked(r: Rules, s: State, tx: Tx, h: Bytes32, idHash: Bytes32, pk: Pubkey)
    requires CanApply(r, s, tx, h) && IsVoterFor(r, tx, idHash, pk)
    ensures IsAskedFor(r, tx, idHash, pk)
  {
    hide GL.Entry, AskedOf, IsGoverned, VotesAt, BoundAt, VM.Canonical, VM.Ascii, VM.TimestampOk, Unsigned, YesMessage;
    var k :| 0 <= k < |tx.inputs| && IsGoverned(r, tx.inputs[k].cell)
      && BoundTo(tx, FirstFor(tx, k), idHash) && VotesIn(tx, FirstFor(tx, k), pk);
    var g := FirstFor(tx, k);
    var v :| v in VotesAt(tx, g) && v.pubkey == pk;
    var a := AskingOf(v, idHash, r.blake);
    var w := AskedOne(tx.inputs[k].cell.lock.args, tx, g, r.blake, r.recover, a);
    AskedExact(r, tx, |tx.inputs|, a);
    VoteTimestamp(tx.inputs[k].cell.lock.args, tx, g, r.blake, r.recover, v);
  }

  lemma VoteTimestamp(args: seq<byte>, tx: Tx, g: nat, blake: Hasher, recover: GL.Recover, v: Vote)
    requires g < |tx.inputs| && GL.Entry(args, tx, g, blake, recover).Ok? && v in VotesAt(tx, g)
    ensures VM.TimestampOk(v.timestamp)
  {
    hide GL.Entry, VotesAt, BoundAt, GL.CountVotes, VM.Canonical, VM.Ascii, VM.TimestampOk, GL.DistinctKeys,
      GH.ParseLockHeader, MT.Verifies;
    CountedAt(args, tx, g, blake, recover);
    var (header, idHash) := (GH.ParseLockHeader(tx.inputs[g].cell.data).value, BoundAt(tx, g).value.proposalIdHash);
    GL.CountVotesExact(VotesAt(tx, g), header, idHash, blake, recover);
    assert GL.Checked(v, header, idHash, blake, recover);
  }

  lemma AskedAreVoters(r: Rules, s: State, tx: Tx, h: Bytes32, idHash: Bytes32, pk: Pubkey)
    requires CanApply(r, s, tx, h) && NoMessageCollides(r, tx, idHash) && IsAskedFor(r, tx, idHash, pk)
    ensures IsVoterFor(r, tx, idHash, pk)
  {
    hide GL.Entry, AskedOf, AskedAt, IsGoverned, VotesAt, BoundAt, VM.TimestampOk, Unsigned, YesMessage;
    var timestamp: seq<byte> :|
      VM.TimestampOk(timestamp) && (r.blake(YesMessage(idHash, timestamp, pk)), pk) in Asked(r, tx);
    var a := (r.blake(YesMessage(idHash, timestamp, pk)), pk);
    AskedExact(r, tx, |tx.inputs|, a);
    var k :| 0 <= k < |tx.inputs| && IsGoverned(r, tx.inputs[k].cell) && a in AskedAt(tx, FirstFor(tx, k), r.blake);
    var g := FirstFor(tx, k);
    var v := AskedOne(tx.inputs[k].cell.lock.args, tx, g, r.blake, r.recover, a);
    var bound := BoundAt(tx, g).value.proposalIdHash;
    assert GroupToldApart(tx, g, idHash, r.blake) && ToldApart(v, bound, idHash, r.blake);
    SameId(idHash, timestamp, bound, v.timestamp, pk);
  }

  lemma SameId(idHash: Bytes32, timestamp: seq<byte>, idHash': Bytes32, timestamp': seq<byte>, pk: Pubkey)
    requires YesMessage(idHash, timestamp, pk) == YesMessage(idHash', timestamp', pk)
    ensures idHash == idHash'
  {
    hide VM.Canonical, VM.Ascii;
    assert VM.VoteWord(GL.YES) == Some(VM.Ascii("yes"));
    VM.CanonicalInjective(idHash, GL.YES, timestamp, pk, idHash', GL.YES, timestamp', pk);
  }

  /** Without collisions among vote messages: the listed voters of the groups bound to the same proposal id decide. */
  lemma ConsentByVoters(r: Rules, s: State, tx: Tx, h: Bytes32, i: nat, pubkeys: seq<Pubkey>)
    requires CanApply(r, s, tx, h) && i < |tx.inputs| && GH.ParseLockHeader(tx.inputs[i].cell.data).Ok?
    requires BoundAt(tx, i).Some? && NoMessageCollides(r, tx, BoundAt(tx, i).value.proposalIdHash)
    ensures AcceptanceEntailsConsent(r, s, tx, h, i, pubkeys)
       <==> |VotersFor(r, tx, BoundAt(tx, i).value.proposalIdHash, pubkeys)|
            >= GH.ParseLockHeader(tx.inputs[i].cell.data).value.threshold
  {
    hide CanApply, IsAskedFor, IsVoterFor, NoMessageCollides, AcceptanceEntailsConsent, BoundAt, GH.ParseLockHeader;
    var idHash := BoundAt(tx, i).value.proposalIdHash;
    forall pk: Pubkey
      ensures IsAskedFor(r, tx, idHash, pk) <==> IsVoterFor(r, tx, idHash, pk)
    {
      if IsAskedFor(r, tx, idHash, pk) {
        AskedAreVoters(r, s, tx, h, idHash, pk);
      }
      if IsVoterFor(r, tx, idHash, pk) {
        VotersAreAsked(r, s, tx, h, idHash, pk);
      }
    }
    assert VotersFor(r, tx, idHash, pubkeys) == AskedFor(r, tx, idHash, pubkeys);
    ConsentExact(r, s, tx, h, i, pubkeys);
  }

  /**
   * Where no group is bound to the proposal id of an input, no list's consent to it is entailed, this one or another.
   */
  lemma OtherIdIsNoConsent(r: Rules, s: State, tx: Tx, h: Bytes32, i: nat, pubkeys: seq<Pubkey>)
    requires CanApply(r, s, tx, h) && i < |tx.inputs|
    requires BoundAt(tx, i).Some? ==>
               var idHash := BoundAt(tx, i).value.proposalIdHash;
               NoMessageCollides(r, tx, idHash)
               && forall k :: 0 <= k < |tx.inputs| && IsGoverned(r, tx.inputs[k].cell) ==>
                    !BoundTo(tx, FirstFor(tx, k), idHash)
    ensures !AcceptanceEntailsConsent(r, s, tx, h, i, pubkeys)
  {
    hide CanApply, NoMessageCollides, BoundTo, VotesIn, BoundAt, GH.ParseLockHeader, FirstFor, AskedFor;
    if GH.ParseLockHeader(tx.inputs[i].cell.data).Ok? && BoundAt(tx, i).Some? {
      GL.HeaderThreshold(tx.inputs[i].cell.data);
      ConsentByVoters(r, s, tx, h, i, pubkeys);
      assert VotersFor(r, tx, BoundAt(tx, i).value.proposalIdHash, pubkeys) == {};
    } else {
      ConsentExact(r, s, tx, h, i, pubkeys);
    }
  }

  /**
   * Acceptance is the consent of the validators of a registry that is first in its group, whatever the proposal ids.
   */
  lemma FirstEntails(r: Rules, s: State, tx: Tx, h: Bytes32, i: nat, pubkeys: seq<Pubkey>)
    requires i < |tx.inputs| && Attributable(r, tx, i, pubkeys) && IsFirst(tx, i)
    ensures AcceptanceEntailsConsent(r, s, tx, h, i, pubkeys)
  {
    hide CanApply, Consented, Attributable, IsFirst;
    forall recover: GL.Recover | CanApply(r.(recover := recover), s, tx, h)
      ensures Consented(r.(recover := recover), tx, i, pubkeys)
    {
      AttributableStill(r, r.(recover := recover), tx, i, pubkeys);
      FirstConsents(r.(recover := recover), s, tx, h, i, pubkeys);
    }
  }

  /**
   * Where every lock group has a proposal id of its own, being first in its group is exactly what makes acceptance the
   * consent of a registry's own validators.
   */
  lemma FirstIsExact(r: Rules, s: State, tx: Tx, h: Bytes32, i: nat, pubkeys: seq<Pubkey>)
    requires CanApply(r, s, tx, h) && i < |tx.inputs| && Attributable(r, tx, i, pubkeys)
    requires BoundAt(tx, i).Some? ==>
               var idHash := BoundAt(tx, i).value.proposalIdHash;
               NoMessageCollides(r, tx, idHash)
               && forall k :: 0 <= k < |tx.inputs| && IsGoverned(r, tx.inputs[k].cell) && FirstFor(tx, k) != i ==>
                    !BoundTo(tx, FirstFor(tx, k), idHash)
    ensures AcceptanceEntailsConsent(r, s, tx, h, i, pubkeys) <==> IsFirst(tx, i)
  {
    hide CanApply, Consented, GL.NoCollision, Commits, NoMessageCollides, BoundTo, BoundAt, IsGoverned;
    if IsFirst(tx, i) {
      FirstEntails(r, s, tx, h, i, pubkeys);
    } else {
      forall k | 0 <= k < |tx.inputs|
        ensures FirstFor(tx, k) != i
      {
        FirstIsFirst(tx, k);
      }
      OtherIdIsNoConsent(r, s, tx, h, i, pubkeys);
    }
  }

  lemma FirstIsFirst(tx: Tx, k: nat)
    requires k < |tx.inputs|
    ensures IsFirst(tx, FirstFor(tx, k))
  {
  }

  lemma AttributableStill(r: Rules, r': Rules, tx: Tx, i: nat, pubkeys: seq<Pubkey>)
    requires i < |tx.inputs| && Attributable(r, tx, i, pubkeys) && r' == r.(recover := r'.recover)
    ensures Attributable(r', tx, i, pubkeys)
  {
    hide Commits, GL.NoCollision;
  }

  /**
   * One list, one lock, two registries: the second registry of the group is changed with the list's consent exactly
   * when it is bound to the proposal id of the first, the only one the votes are for.
   */
  lemma SharedList(r: Rules, s: State, tx: Tx, h: Bytes32, g: nat, i: nat, pubkeys: seq<Pubkey>)
    requires CanApply(r, s, tx, h) && g < |tx.inputs| && Attributable(r, tx, g, pubkeys) && IsFirst(tx, g)
    requires forall k :: 0 <= k < |tx.inputs| && IsGoverned(r, tx.inputs[k].cell) ==>
               tx.inputs[k].cell.lock == tx.inputs[g].cell.lock
    requires i < |tx.inputs| && GH.ParseLockHeader(tx.inputs[i].cell.data).Ok?
    requires GH.ParseLockHeader(tx.inputs[g].cell.data).Ok? ==>
               GH.ParseLockHeader(tx.inputs[i].cell.data).value.threshold
               <= GH.ParseLockHeader(tx.inputs[g].cell.data).value.threshold
    requires BoundAt(tx, i).Some? && NoMessageCollides(r, tx, BoundAt(tx, i).value.proposalIdHash)
    ensures AcceptanceEntailsConsent(r, s, tx, h, i, pubkeys)
       <==> BoundTo(tx, g, BoundAt(tx, i).value.proposalIdHash)
  {
    hide CanApply, GL.NoCollision, Commits, NoMessageCollides, BoundAt, IsGoverned, GH.ParseLockHeader, SignersOf;
    var idHash := BoundAt(tx, i).value.proposalIdHash;
    if BoundTo(tx, g, idHash) {
      forall recover: GL.Recover | CanApply(r.(recover := recover), s, tx, h)
        ensures Consented(r.(recover := recover), tx, i, pubkeys)
      {
        AttributableStill(r, r.(recover := recover), tx, g, pubkeys);
        FirstConsents(r.(recover := recover), s, tx, h, g, pubkeys);
      }
    } else {
      OtherIdIsNoConsent(r, s, tx, h, i, pubkeys);
    }
  }

  // ---- over runs ----

  /** A registry of these rules, under a governance lock of these rules. */
  predicate IsRegistryScript(r: Rules, self: Script) {
    && (self.codeHash, self.hashType) in r.registryCodes && ParseTypeArgs(self.args).Some?
    && var lock := GovernanceScript(ParseTypeArgs(self.args).value);
       (lock.codeHash, lock.hashType) in r.governanceCodes
  }

  /** If the transaction spends the registry, then first in its lock group, under a header that commits to this list. */
  ghost predicate InOrder(r: Rules, tx: Tx, self: Script, pubkeys: seq<Pubkey>) {
    forall i :: 0 <= i < |tx.inputs| && tx.inputs[i].cell.typ == Some(self) ==>
      IsFirst(tx, i) && Commits(tx.inputs[i].cell, pubkeys, r.blake) && GL.NoCollision(VotesAt(tx, i), pubkeys, r.blake)
  }

  /** The registry is spent with the consent of the list. */
  ghost predicate SpentWithConsent(r: Rules, tx: Tx, self: Script, pubkeys: seq<Pubkey>) {
    exists i :: 0 <= i < |tx.inputs| && tx.inputs[i].cell.typ == Some(self) && Consented(r, tx, i, pubkeys)
  }

  lemma StepConsents(r: Rules, s: State, tx: Tx, h: Bytes32, self: Script, pubkeys: seq<Pubkey>)
    requires CanApply(r, s, tx, h) && IsRegistryScript(r, self) && InOrder(r, tx, self, pubkeys)
    ensures Executed(self, tx, r.blake) != [] ==> SpentWithConsent(r, tx, self, pubkeys)
  {
    hide Consented, GL.NoCollision, Commits, ParseTypeArgs, Update, BlacklistRegistry.Entry, GovernanceLocksAccept,
      ProposalOf;
    var ins := RegistryInputs(tx, self);
    if ins != [] {
      var i := ins[0];
      Scan.PositionsExact(tx.inputs, InputHasType(self), i);
      assert IsRegistry(r, tx.inputs[i].cell);
      var o := EntryIsUpdate(self, tx, i, r.blake);
      UpdatedLock(ParseTypeArgs(self.args).value, tx, i, o, r.blake);
      FirstConsents(r, s, tx, h, i, pubkeys);
    }
  }

  lemma UpdatedLock(t: TypeArgs, tx: Tx, i: nat, o: nat, blake: Hasher)
    requires i < |tx.inputs| && o < |tx.outputs| && Update(t, tx, i, o, blake).Ok?
    ensures tx.inputs[i].cell.lock == GovernanceScript(t)
  {
    hide Binding, Proposed;
  }

  /** Some step carries out the proposal, spending the registry with the consent of that step's list. */
  ghost predicate CarriedOut(r: Rules, steps: seq<Step>, self: Script, lists: seq<seq<Pubkey>>, p: PC.Proposal)
    requires |lists| == |steps|
  {
    exists k :: 0 <= k < |steps| && Executed(self, steps[k].tx, r.blake) == [p]
      && SpentWithConsent(r, steps[k].tx, self, lists[k])
  }

  lemma CarriedOutLater(r: Rules, steps: seq<Step>, self: Script, lists: seq<seq<Pubkey>>, p: PC.Proposal)
    requires |lists| == |steps| > 0 && CarriedOut(r, steps[1..], self, lists[1..], p)
    ensures CarriedOut(r, steps, self, lists, p)
  {
    hide Executed, SpentWithConsent;
    var (rest, later) := (steps[1..], lists[1..]);
    var k :| 0 <= k < |rest| && Executed(self, rest[k].tx, r.blake) == [p]
      && SpentWithConsent(r, rest[k].tx, self, later[k]);
    assert rest[k] == steps[k + 1] && later[k] == lists[k + 1];
  }

  /**
   * In a run where every step that spends a registry has it first in its lock group, every proposal in the registry's
   * history was carried out by a step in which as many of the validators its header then committed to as the
   * threshold says had signed yes to the proposal id bound to it.
   */
  lemma {:induction false} HistoryConsented(r: Rules, s: State, steps: seq<Step>, self: Script, lists: seq<seq<Pubkey>>)
    requires IsRun(r, s, steps) && IsRegistryScript(r, self) && |lists| == |steps|
    requires forall k :: 0 <= k < |steps| ==> InOrder(r, steps[k].tx, self, lists[k])
    ensures forall p <- History(self, steps, r.blake) :: CarriedOut(r, steps, self, lists, p)
    decreases |steps|
  {
    hide RegistryScriptsAccept, GovernanceLocksAccept, InOrder, SpentWithConsent, Executed, IsRegistryScript, Next,
      CarriedOut;
    if steps != [] {
      var (tx, h, rest) := (steps[0].tx, steps[0].hash, steps[1..]);
      StepConsents(r, s, tx, h, self, lists[0]);
      assert forall k :: 0 <= k < |rest| ==> rest[k] == steps[k + 1] && lists[1..][k] == lists[k + 1];
      HistoryConsented(r, Next(s, tx, h), rest, self, lists[1..]);
      var (now, later) := (Executed(self, tx, r.blake), History(self, rest, r.blake));
      assert History(self, steps, r.blake) == now + later;
      forall p | p in now + later
        ensures CarriedOut(r, steps, self, lists, p)
      {
        if p in now {
          CarriedOutNow(r, steps, self, lists, p);
        } else {
          CarriedOutLater(r, steps, self, lists, p);
        }
      }
    }
  }

  lemma CarriedOutNow(r: Rules, steps: seq<Step>, self: Script, lists: seq<seq<Pubkey>>, p: PC.Proposal)
    requires |lists| == |steps| > 0 && p in Executed(self, steps[0].tx, r.blake)
    requires SpentWithConsent(r, steps[0].tx, self, lists[0])
    ensures CarriedOut(r, steps, self, lists, p)
  {
    hide Executed, SpentWithConsent;
    AtMostOne(self, steps[0].tx, r.blake);
    assert Executed(self, steps[0].tx, r.blake) == [p];
  }

  lemma AtMostOne(self: Script, tx: Tx, blake: Hasher)
    ensures |Executed(self, tx, blake)| <= 1
  {
    hide ProposalOf;
  }

  // ---- the same votes in another transaction ----

  /**
   * Votes that passed once pass again under the same header and proposal id, whatever else the binding says: the lock
   * then accepts iff the digest is not zero, exactly one input has the bound proposal data, and it meets the bound
   * delay.
   */
  lemma SameVotesElsewhere(args: seq<byte>, tx: Tx, g: nat, tx': Tx, g': nat, blake: Hasher, recover: GL.Recover)
    requires g < |tx.inputs| && g' < |tx'.inputs| && GL.Entry(args, tx, g, blake, recover).Ok?
    requires GH.ParseLockHeader(tx'.inputs[g'].cell.data) == GH.ParseLockHeader(tx.inputs[g].cell.data)
    requires g' < |tx'.witnesses| && WA.LockReads(tx'.witnesses[g']).Some? && VotesAt(tx', g') == VotesAt(tx, g)
    requires BoundAt(tx', g').Some? && BoundAt(tx, g).Some?
    requires BoundAt(tx', g').value.proposalIdHash == BoundAt(tx, g).value.proposalIdHash
    ensures var gov := BoundAt(tx', g').value;
            (GL.Entry(args, tx', g', blake, recover).Ok?
             <==> gov.voteDigestHash != ZERO_32 && FindInput(tx'.inputs, gov.proposalDataHash, blake).Some?
                  && RD.LockAcceptsSince(
                       tx'.inputs[FindInput(tx'.inputs, gov.proposalDataHash, blake).value].since, gov.reviewDelayMs))
  {
    hide GL.CountVotes, WA.LockReads, WA.RegistryReads, WA.ParseGov1, GH.ParseLockHeader, FindInput,
      RD.LockAcceptsSince;
    GL.AcceptedReads(args, tx, g, blake, recover);
    WA.ReadersAgree(tx.witnesses[g]);
    WA.ReadersAgree(tx'.witnesses[g']);
  }

  /** The one input a binding names, in the eyes of both scripts. */
  predicate NamedInputAged(tx: Tx, i: nat, blake: Hasher) {
    && BoundAt(tx, i).Some? && FindInput(tx.inputs, BoundAt(tx, i).value.proposalDataHash, blake).Some?
    && RD.LockAcceptsSince(
         tx.inputs[FindInput(tx.inputs, BoundAt(tx, i).value.proposalDataHash, blake).value].since,
         BoundAt(tx, i).value.reviewDelayMs)
  }

  /** The governance locks of the other groups accept. */
  ghost predicate OtherGroupsAccept(r: Rules, tx: Tx, g: nat)
    requires g < |tx.inputs|
  {
    forall k :: 0 <= k < |tx.inputs| && IsGoverned(r, tx.inputs[k].cell)
                && tx.inputs[k].cell.lock != tx.inputs[g].cell.lock ==>
      GL.Entry(tx.inputs[k].cell.lock.args, tx, FirstFor(tx, k), r.blake, r.recover).Ok?
  }

  /**
   * The votes of an accepted update serve any other update under the same header and proposal id: one that its type
   * scripts accept can be applied iff the proposal cell it names has aged by the delay it names, and the other
   * governance locks it runs accept it. What it carries out, which roots and which delay, plays no part.
   */
  lemma SameVotesOtherUpdate(
      r: Rules, s: State, tx: Tx, h: Bytes32, i: nat, s': State, tx': Tx, h': Bytes32, i': nat)
    requires CanApply(r, s, tx, h) && i < |tx.inputs| && IsGoverned(r, tx.inputs[i].cell) && IsFirst(tx, i)
    requires Unsigned(r, s', tx', h') && i' < |tx'.inputs| && IsRegistry(r, tx'.inputs[i'].cell) && IsFirst(tx', i')
    requires tx'.inputs[i'].cell.lock == tx.inputs[i].cell.lock
    requires GH.ParseLockHeader(tx'.inputs[i'].cell.data) == GH.ParseLockHeader(tx.inputs[i].cell.data)
    requires i' < |tx'.witnesses| && WA.LockReads(tx'.witnesses[i']).Some? && VotesAt(tx', i') == VotesAt(tx, i)
    requires BoundAt(tx, i).Some? && BoundAt(tx', i').Some?
    requires BoundAt(tx', i').value.proposalIdHash == BoundAt(tx, i).value.proposalIdHash
    ensures CanApply(r, s', tx', h') <==> NamedInputAged(tx', i', r.blake) && OtherGroupsAccept(r, tx', i')
    ensures |Executed(tx'.inputs[i'].cell.typ.value, tx', r.blake)| == 1
  {
    hide GL.Entry, Unsigned, BoundAt, VotesAt, GH.ParseLockHeader, FindInput, RD.LockAcceptsSince, WA.LockReads,
      IsRegistry, Executed, OtherGroupsAccept;
    var lock := tx.inputs[i].cell.lock;
    GroupByGroup(r, tx', i');
    assert GL.Entry(lock.args, tx, i, r.blake, r.recover).Ok?;
    SameVotesElsewhere(lock.args, tx, i, tx', i', r.blake, r.recover);
    UpdateIsBound(r, s', tx', h', i');
  }

  /** The governance locks accept iff one group's lock does and those of the others do. */
  lemma GroupByGroup(r: Rules, tx: Tx, g: nat)
    requires g < |tx.inputs| && IsGoverned(r, tx.inputs[g].cell) && IsFirst(tx, g)
    ensures GovernanceLocksAccept(r, tx)
       <==> GL.Entry(tx.inputs[g].cell.lock.args, tx, g, r.blake, r.recover).Ok? && OtherGroupsAccept(r, tx, g)
  {
    hide GL.Entry, IsGoverned;
  }

  /** What the registry script has checked of a binding before the lock looks at it. */
  lemma UpdateIsBound(r: Rules, s: State, tx: Tx, h: Bytes32, i: nat)
    requires Unsigned(r, s, tx, h) && i < |tx.inputs| && IsRegistry(r, tx.inputs[i].cell) && BoundAt(tx, i).Some?
    ensures BoundAt(tx, i).value.voteDigestHash != ZERO_32
    ensures FindInput(tx.inputs, BoundAt(tx, i).value.proposalDataHash, r.blake).Some?
    ensures |Executed(tx.inputs[i].cell.typ.value, tx, r.blake)| == 1
  {
    hide WA.RegistryReads, WA.ParseGov1, FindInput, ParseTypeArgs, Update, BlacklistRegistry.Entry, ProposalOf,
      RegistryInputs, PC.Parse;
    var self := tx.inputs[i].cell.typ.value;
    assert BlacklistRegistry.Entry(self, tx, r.blake).Ok?;
    var o := EntryIsUpdate(self, tx, i, r.blake);
    var t := ParseTypeArgs(self.args).value;
    var gov, p := UpdateBinding(t, tx, i, o, r.blake);
    BoundDigest(t, tx, i, o, r.blake);
  }

  lemma BoundDigest(t: TypeArgs, tx: Tx, i: nat, o: nat, blake: Hasher)
    requires i < |tx.inputs| && o < |tx.outputs| && Update(t, tx, i, o, blake).Ok? && BoundAt(tx, i).Some?
    ensures BoundAt(tx, i).value.voteDigestHash != ZERO_32
  {
    hide WA.RegistryReads, WA.ParseGov1, Proposed;
  }
}
