# CKB firewall: governance of the on-chain blacklist registry

The firewall keeps one registry cell on chain: a BLKL v2 payload holding a governance header and a strictly
ascending list of blacklisted identifiers. Its type script (`blacklist-registry`) says how the cell may change,
its lock (`governance-lock`) says who must have voted for the change, `proposal-anchor` guards the cell that holds
the proposal, `treasury-lock` guards the capacity that pays for it, and `firewall-lock` reads the registry to
enforce the list. A TypeScript CLI builds the payloads, proofs, witnesses and transactions; a Rust SDK repeats the
enforcement off chain. This project models those programs and proves what they guarantee together.

## The main results

- **Authorisation.** `GovernanceLock.ThresholdAuthorisation` and `GovernanceLock.CountVotesExact` (which vote lists
  pass, exactly) over `MerkleTree.Sound` and `MerkleTree.Complete`; `VoteMessage.CanonicalInjective` for what is signed.
  `Authorisation.ConsentExact` says, for any accepted transaction, exactly whose consent to which change acceptance
  entails; `Authorisation.SharedList` and `Authorisation.FirstIsExact` what follows for registries under one lock, and
  `Authorisation.HistoryConsented` for runs; `Authorisation.SameVotesOtherUpdate` what the votes for one update allow
  besides it.
- **One registry with one history.** `Ledger.SingletonWithHistory` over all runs of accepted transactions, with
  `Transition.MatchesAsMaps` for a single step and `Ledger.UpdateIsAuthorised` for who allowed it.
- **Capacity.** `Conservation.RunConserves`: k updates lose at most k CKB of registry plus treasury capacity.
  `TreasuryRuns.RunTakes`: k spends take at most k times 1000 CKB from a treasury.
- **The CLI builds what the chain accepts.** `CliBuilder.BuilderIsAccepted` for payloads,
  `ExecuteAccepted.AllScriptsAccept` for the whole execute transaction against all four scripts, and
  `ExecuteOnLedger.ExecuteApplies` for its effect on a ledger; `ExecuteAccepted.OutputsCovered` that its outputs pay for
  their bytes. `RegistryAccepts`, `LockAccepts`, `AnchorAccepts` and `TreasuryAccepts` give, for each script, the exact
  condition; `ExecutePlain` does the same without a treasury.
- **Enforcement.** `Firewall.Enforced` (no output carries an active identifier), `Firewall.DecidesExactly` (which outputs
  pass, flag by flag), `Firewall.PreflightRefinesLock` (the SDK's answer is the lock's, exactly), and the four searches
  of `Lookup`.
- **Codecs.** Each encoder is proved against the readers of its format: what is written is read back, and what is read
  was written that way.
- **Vote exchange.** `VoteImport.NoneIsLater` (which vote is kept), `VoteImport.ImportsConverge`, `VoteImport.AnyOrder` and
  `VoteImport.ReplicasConverge`.
- **Instances.** `Deployment` is one small concrete deployment. `DeploymentBirth.RegistryIsBorn` creates its registry.
  `DeploymentRuns.SecondRegistryUnasked`, `DeploymentShared.SecondIdUnasked`, `DeploymentVotes.OneVoteTwice` and
  `DeploymentTreasury.TakenWithoutVotes` show there where laws one might expect fail; `DeploymentJob.JobExecutes` and
  `DeploymentPlain.PlainJobExecutes` that the hypotheses about `execute` hold together.

## How it is modelled

One module stands for one source file or concern: `Bytes`, `Seqs`, `Lex`, `Buffer`, `Scan` and `Chain` are shared;
`RegistryFormat`, `GovernanceHeader`, `Molecule`, `ProposalCell`, `Witness`, `WitnessArgs`, `VoteMessage`,
`ReviewDelay`, `SdkRegistry`, `TsRegistry`, `FirewallArgs` are formats; `MerkleTree`, `Transition`, `Capacity`,
`Lookup`, `MedianTime` are the algorithms; `GovernanceLock`, `BlacklistRegistry`, `AnchorType`, `TreasuryLock`,
`Firewall` are the scripts;
`CliBuilder`, `YesVotes`, `VoteDigest`, `ExecutePlan`, `ExecuteTx`, `VoteImport` are the CLI; `Ledger`, `LedgerTotal`,
`Authorisation`, `Conservation`, `TreasuryRuns`, `ExecuteAccepted`, `ExecutePlain`, `ExecuteOnLedger` are about runs and
end-to-end behaviour; `Deployment` and the modules named after it are the concrete instances.

Loops are methods with invariants, and byte buffers that the TypeScript fills in place are arrays. Each such method is
proved equal to a function, and the properties are lemmas about the function. JavaScript's insertion-ordered `Map` is
a list of keys beside a map. A script's `program_entry` is the function `Entry` from the running script and a
transaction to Ok or its exit code, with a method `ProgramEntry` that runs the loops.

- **Hashes.** blake2b is an arbitrary function `Hasher` from bytes to 32 bytes. Where a result needs injectivity, it
  asks for collision-freedom on a named finite set of strings (the tree's and proof's inputs, the Type ID preimages
  over the outpoints used, the few strings of one execute job), never for injectivity everywhere. The corollaries of
  `Authorisation.ConsentExact` ask that no yes-message of one proposal id, at any time, has the digest of one of the
  finitely many messages a transaction asks for.
- **Signatures.** ECDSA recovery is an uninterpreted function from digest and signature to a key or nothing.
- **Machine integers.** u8 to u64 are subset types; saturating operations, checked additions, truncating length
  fields and 56-bit masks are written out. Bit masks of `since` and of the flags byte are quotients and remainders.
- **Text.** Hex strings are the bytes they spell, except where the source compares or concatenates the text itself
  (`check`, the vote message, the vote digest); there they are code units.
- **Transactions.** Cells, witnesses and headers are values already loaded; a lock group's first input is the first
  input with that lock; outpoints are spent once. Time is an abstract number.

## Where code and text disagree

The code is what is modelled.

- SECURITY.md:52-57 says signatures cover a 168-byte preimage with both roots, the proposal hash and the delay. The
  code signs the vote payload only (contracts/governance-lock/src/main.rs:451-463): proposal id, vote, timestamp, key.
  `Authorisation.SameVotesElsewhere` and `Authorisation.SameVotesOtherUpdate` say exactly what this allows, and
  `DeploymentVotes.OneVoteTwice` shows it on a ledger: the same votes carry out two proposals.
- governance-lock looks at the first input of its lock group only (contracts/governance-lock/src/main.rs:529-534), and
  all registries of one deployment have the same lock script. Of a registry spent after another, its validators need
  not be asked, and where the same validators are, not about its proposal: `DeploymentRuns.SecondRegistryUnasked` and
  `DeploymentShared.SecondIdUnasked`. When exactly they are is `Authorisation.ConsentExact`.
- contracts/treasury-lock/src/main.rs:263-264 says proposal-anchor enforces governance authorisation before an anchor can
  be spent. It checks data, delay and return only: `DeploymentTreasury.TakenWithoutVotes`. What remains is the limit of
  each transaction, `TreasuryRuns.RunTakes`.
- contracts/proposal-anchor/src/main.rs:5 says anchors are locked to the treasury; the script does not look at the
  lock (`AnchorType.CreationExact`). sdk/cli/src/commands/execute.ts:268 says proposal cells carry the governance lock;
  under a treasury header `ExecuteAccepted.RegistryAccepts` shows an add or remove from such a cell is refused, since
  the registry asks for the treasury's lock.
- A review delay that is no whole number of seconds can never be met by the word the CLI builds for it
  (`ReviewDelay.BuiltDelayAccepted`). `execute` also leaves repeated keys, leaf indices, timestamp characters and the
  header's threshold to the chain; `ExecuteAccepted.LockAccepts` lists exactly these conditions.
- sdk/cli/src/commands/execute.ts:49-50 derives the least change of 125 CKB from the encoded length of a lock with 64
  bytes of args. The chain counts such a cell at 105 CKB, so the constant has room for 84 bytes of args and no more:
  `ExecutePlan.PlanCovers` and `ExecutePlan.ChangeFallsShort`.
- The CLI's encoders do not guard two length fields. `CliBuilder.FullRegistryRejected` and
  `CliBuilder.OversizedTreasuryRejected` show what then happens on chain; `CliBuilder.Fits` is the guard.

## Model

| member | source | states |
|---|---|---|
| Ledger.AtMostOneLive | contracts/blacklist-registry/src/main.rs:733-770 | from a ledger without registry cells, no run of accepted transactions ever has two live registry cells with one type id (Type ID preimages over the used outpoints assumed collision-free) |
| Ledger.SingletonWithHistory | contracts/blacklist-registry/src/main.rs:729-841 | once a registry is live, after every later run exactly one live cell has its type id, with the same type script and the governance lock its args name; its entries are ascending and stand for the fold of the executed proposals over the earlier map |
| Ledger.StepKeepsInv | contracts/blacklist-registry/src/main.rs:729-841 | one accepted transaction keeps the invariant: registry cells parse strictly, carry the lock their args name, descend from a spent outpoint, and have distinct type ids |
| Ledger.RunKeepsInv | contracts/blacklist-registry/src/main.rs:729-841 | the invariant holds after every run |
| Ledger.StepFollows | contracts/blacklist-registry/src/main.rs:733-816 | one transaction leaves the same registry live, its map changed by what the transaction executed or not at all |
| Ledger.RunFollows | contracts/blacklist-registry/src/main.rs:773-816 | a live registry stays live through any run and its map is the fold of the history |
| Ledger.OutputsDiffer | contracts/blacklist-registry/src/main.rs:749-757 | two registry outputs of one transaction never share a type id |
| Ledger.UpdateIsAuthorised | contracts/governance-lock/src/main.rs:509-585 | when the registry is the first input of its lock group, the one witness binds both scripts to the same proposal cell and old bytes, the registry changes as that proposal says, the proposal input has a relative timestamp word in seconds of at least the review delay, and at least threshold distinct listed validators signed yes; `Authorisation.ConsentExact` and `Authorisation.FirstIsExact` say what holds for the others |
| Ledger.FirstOfGroup | contracts/governance-lock/src/main.rs:529-534 | the group input the lock reads is the first input with that lock |
| Authorisation.FirstConsents | contracts/governance-lock/src/main.rs:529-585 | an accepted transaction that spends a registry first in its lock group has the consent of that registry's own validators and carries out the proposal in one of its inputs |
| Authorisation.OnlyTheAskedMatter | contracts/governance-lock/src/main.rs:529-579 | an accepted transaction is accepted still when no signature can be recovered but of the messages, by the keys, that the votes of the first inputs of its lock groups are for |
| Authorisation.ConsentExact | contracts/governance-lock/src/main.rs:509-585 | for every accepted transaction and every input and list: acceptance, whoever can sign what, entails that list's consent iff the first inputs of the lock groups ask as many of it as the input's header wants to have signed yes-messages of the proposal id bound to the input |
| Authorisation.ConsentByVoters | contracts/governance-lock/src/main.rs:509-585 | without collisions among vote messages these are the listed voters of the groups bound to the same proposal id |
| Authorisation.OtherIdIsNoConsent | contracts/governance-lock/src/main.rs:529-585 | where no lock group is bound to an input's proposal id, no list's consent to it is entailed, the same list's neither |
| Authorisation.SharedList | contracts/governance-lock/src/main.rs:529-585 | one list and one lock for two registries: the change of the second carries the list's consent iff it is bound to the proposal id of the first |
| Authorisation.FirstEntails | contracts/governance-lock/src/main.rs:529-534 | for a registry first in its group acceptance entails its own list's consent, whatever the proposal ids |
| Authorisation.FirstIsExact | contracts/governance-lock/src/main.rs:529-534 | where no other lock group is bound to a registry's proposal id and vote messages do not collide, acceptance entails its own list's consent iff it is first in its group |
| Authorisation.HistoryConsented | contracts/governance-lock/src/main.rs:509-585 | over any run in which each step spends the registry first in its group under a header committing to a list, every proposal of the history was carried out by a step with the consent of that step's list |
| Authorisation.StepConsents | contracts/governance-lock/src/main.rs:509-585 | one step that executes a proposal of the registry spends it with the consent of its list |
| Authorisation.SameVotesElsewhere | contracts/governance-lock/src/main.rs:438-464 | votes that passed once pass under every binding with the same proposal id and header: the lock then accepts iff the digest is not zero, exactly one input has the bound data, and it meets the bound delay |
| Authorisation.SameVotesOtherUpdate | contracts/governance-lock/src/main.rs:509-585 | the votes of an accepted update serve any other update with the same lock, header and proposal id that its type scripts accept: it can be applied iff the proposal input it names has aged by the delay it names and the governance locks of its other groups accept it |
| DeploymentRuns.SecondRegistryUnasked | contracts/governance-lock/src/main.rs:529-534 | a ledger and an accepted transaction with two registries under one lock, where the second takes in an identifier and the one validator its header lists has signed nothing |
| DeploymentShared.SecondIdUnasked | contracts/governance-lock/src/main.rs:529-585 | an accepted transaction on two registries that list the same validator: it entails his consent to the first change and not to the second, which has a proposal id of its own |
| DeploymentVotes.OneVoteTwice | contracts/governance-lock/src/main.rs:451-463 | a run of two accepted updates of one registry with the same votes and proposal id, bound to different roots and proposal cells: one vote cast, two identifiers added |
| DeploymentVotes.BothConsented | contracts/governance-lock/src/main.rs:509-585 | that run meets the hypotheses of `Authorisation.HistoryConsented`: both proposals were carried out by steps with the consent of the registry's one validator |
| GovernanceLock.ThresholdAuthorisation | contracts/governance-lock/src/main.rs:509-585 | acceptance means at least threshold >= 1 distinct members of the committed list each have a signature recovering to their key on the yes-message for this proposal id, and the named proposal input has a relative timestamp word of whole seconds no shorter than the delay, in numerals |
| GovernanceLock.SeenAreSigners | contracts/governance-lock/src/main.rs:545-579 | when all votes pass, the keys seen are as many as the votes, distinct, listed and signers |
| GovernanceLock.CountVotesExact | contracts/governance-lock/src/main.rs:545-579 | the vote loop accepts a list iff every vote is a yes by an in-range member with a valid path, timestamp and signature, and no key votes twice; the keys seen are the voters in order |
| GovernanceLock.PassingVote | contracts/governance-lock/src/main.rs:549-577 | one passing vote is by the validator listed at its leaf index, with a path of exactly the tree's depth |
| GovernanceLock.ValidatorVoteChecked | sdk/cli/src/lib/validator-set.ts:50-93 | a listed validator's yes-vote with the path the CLI computes and a signature that recovers passes every check of the loop |
| GovernanceLock.VoteLoop | contracts/governance-lock/src/main.rs:545-579 | the loop over votes with its growing seen list and counter computes exactly the specified count or the first error |
| GovernanceLock.ProgramEntry | contracts/governance-lock/src/main.rs:509-585 | the script's entry with its loops equals its specification on every transaction, error codes included |
| GovernanceLock.Decides | contracts/governance-lock/src/main.rs:541-585 | with header, witness and proposal input read the exit code is 6 iff the word is no relative timestamp of at least the delay, else that of the first refused vote, else 5 iff fewer keys than the threshold |
| GovernanceLock.Refuses | contracts/governance-lock/src/main.rs:509-541 | foreign args give 1, an unreadable registry 2, a witness that does not bind two non-zero ids to exactly one input 3 |
| GovernanceLock.VoteRefused | contracts/governance-lock/src/main.rs:549-577 | a refused vote gives 3 when it is no yes or passes up to a malformed timestamp, 4 otherwise |
| MerkleTree.Sound | contracts/governance-lock/src/main.rs:473-490 | without collisions among the hashed strings, any proof of any length that verifies has length exactly the depth of the padded tree, and its key stands at the leaf index modulo the padded size |
| MerkleTree.Complete | sdk/cli/src/lib/validator-set.ts:50-93 | for every non-empty list and every position the computed path verifies against the computed root |
| MerkleTree.ComputeMerkleRoot | sdk/cli/src/lib/validator-set.ts:36-48 | the level-by-level loop computes the recursive root of the padded leaves |
| MerkleTree.ComputeMerkleProof | sdk/cli/src/lib/validator-set.ts:50-75 | the first position of the key with its sibling path, or nothing iff the key is absent |
| MerkleTree.VerifyMerkleProof | contracts/governance-lock/src/main.rs:473-490 | the bit-walking loop computes the specified climb to the root |
| MerkleTree.NextPow2 | sdk/cli/src/lib/validator-set.ts:11-16 | the doubling loop stops at the least power of two not below n |
| MerkleTree.DepthIsLeast | sdk/cli/src/lib/validator-set.ts:11-16 | the depth is the least k with n <= 2^k |
| MerkleTree.BuildLayer | sdk/cli/src/lib/validator-set.ts:29-34 | leaves followed by zero hashes up to the padded size |
| MerkleTree.PushParents | sdk/cli/src/lib/validator-set.ts:40-46 | one level of the tree from the one below |
| MerkleTree.LongerPath | contracts/governance-lock/src/main.rs:473-490 | no path longer than the depth reaches the root without a collision |
| MerkleTree.ShorterPath | contracts/governance-lock/src/main.rs:473-490 | no shorter path does |
| VoteMessage.CanonicalInjective | contracts/governance-lock/src/main.rs:438-464 | for timestamps passing the character filter the signed bytes determine proposal id hash, vote, timestamp and key |
| VoteMessage.SameBytesOffChain | sdk/cli/src/lib/proposals.ts:177-191 | the CLI hashes the same bytes as the lock for every admitted timestamp |
| VoteMessage.VoteSigningMessage | contracts/governance-lock/src/main.rs:438-464 | the buffer-appending builder produces exactly the canonical bytes' hash, or its error |
| VoteMessage.HexPush | contracts/governance-lock/src/main.rs:419-426 | appends 0x-prefixed lowercase hex |
| VoteMessage.EscapeTable | sdk/cli/src/lib/proposals.ts:183-190 | each code as RFC 8259 section 7 escapes it in a string, by its short form where it has one |
| WitnessArgs.RoundTrip | sdk/cli/src/lib/witness.ts:97-172 | parsing the built witness gives governance-lock exactly the votes and binding that went in, and blacklist-registry the same binding |
| WitnessArgs.ReadersAgree | contracts/governance-lock/src/main.rs:205-307 | on any witness bytes the lock decodes, the registry's own reader extracts the same GOV1 payload; and the lock decodes iff the registry does and the lock field holds decodable votes |
| WitnessArgs.Gov1Exact | contracts/governance-lock/src/main.rs:324-364 | a payload parses to a binding iff it is the binding's 173-byte encoding |
| WitnessArgs.LoadWitnessFields | contracts/governance-lock/src/main.rs:205-307 | the reader with its vote loop equals its specification |
| WitnessArgs.LoadGovernanceWitnessPayload | contracts/blacklist-registry/src/main.rs:579-613 | the registry reader, check by check, equals its specification |
| WitnessArgs.BytesOptExact | contracts/governance-lock/src/main.rs:190-202 | an optional field decodes iff it is what the builder writes for the result |
| WitnessArgs.BuildGov1WitnessV4 | sdk/cli/src/lib/witness.ts:19-48 | the filled buffer is the encoding of the binding |
| WitnessArgs.BuildWitnessArgs | sdk/cli/src/lib/witness.ts:137-172 | the filled buffer is the WitnessArgs table of the three fields |
| Witness.DecodeVotesExact | contracts/governance-lock/src/main.rs:205-307 | a lock field decodes to a vote list iff it is what the builder writes for it |
| Witness.DecodeOfVoteWitness | sdk/cli/src/lib/witness.ts:97-135 | built votes are decoded to themselves and the 106-byte pre-check never rejects them |
| Witness.EncodeOfRead | contracts/governance-lock/src/main.rs:226-290 | whatever votes are read were written in their only encoding |
| Witness.DecodeVotesLoop | contracts/governance-lock/src/main.rs:218-292 | the moving-offset loop computes the specified decoding |
| Witness.BuildValidatorVoteWitness | sdk/cli/src/lib/witness.ts:97-135 | the sized and filled buffer is the encoding of the votes; it throws exactly on more than 255 votes, proofs over 255 hashes or timestamps over 100 bytes |
| ReviewDelay.BuiltDelayAccepted | sdk/cli/src/lib/witness.ts:54-61 | governance-lock and proposal-anchor accept the word built for m under delay d iff d <= 1000*(m/1000); a delay passes its own check iff it is whole seconds |
| ReviewDelay.SameWords | contracts/proposal-anchor/src/main.rs:235-253 | both scripts accept the same since words for the same delay |
| ReviewDelay.AcceptedWords | contracts/proposal-anchor/src/main.rs:235-253 | each of the two scripts accepts a since word under a delay iff the word lies in the relative timestamp range and its low 56 bits, in seconds, are at least the delay, saturation included |
| ReviewDelay.AnchorReads | contracts/proposal-anchor/src/main.rs:235-253 | the anchor reads a duration from a word iff it is relative and a timestamp, and then its whole seconds in milliseconds |
| ReviewDelay.EncodedSinceFields | sdk/cli/src/lib/witness.ts:54-61 | the flags and seconds of a built word are read back for every u64 duration |
| BlacklistRegistry.ProgramEntry | contracts/blacklist-registry/src/main.rs:729-841 | the script's entry with its loops equals its specification on every transaction, error codes included |
| BlacklistRegistry.BootstrapExact | contracts/blacklist-registry/src/main.rs:729-800 | with no input and one output of the type the script accepts iff the type id is made from the first outpoint and the output index, the lock is the named one, the payload parses strictly with a readable treasury, and witness 0 carries the encoding of a binding from the zero root to the hash of the payload with two non-zero ids |
| BlacklistRegistry.BindingExact | contracts/blacklist-registry/src/main.rs:782-793 | the witness checks pass iff the payload is the encoding of a binding of these two roots with two non-zero ids |
| BlacklistRegistry.BootstrapEntry | contracts/blacklist-registry/src/main.rs:729-793 | the bootstrap branch, check by check, equals its specification |
| BlacklistRegistry.BootstrapRefused | contracts/blacklist-registry/src/main.rs:729-793 | the first failing check of a bootstrap gives 27, 25, 23, 22, -1 or 24 |
| BlacklistRegistry.UpdateRefused | contracts/blacklist-registry/src/main.rs:794-838 | what remains to refuse in a readable, bound update gives 24 for a zero proposal hash and 28 otherwise |
| BlacklistRegistry.ReadBinding | contracts/blacklist-registry/src/main.rs:782-793 | reading and checking the binding, check by check, equals its specification |
| BlacklistRegistry.TypeArgsExact | contracts/blacklist-registry/src/main.rs:95-116 | the type args parse iff they are version 2, code hash, hash type and type id, byte for byte |
| DeploymentBirth.RegistryIsBorn | contracts/blacklist-registry/src/main.rs:729-793 | on a ledger without registries an accepted bootstrap transaction, after which the registry is live and empty, the invariant holds and the Type ID preimages over the outpoints used are told apart |
| BlacklistRegistry.UpdateEntry | contracts/blacklist-registry/src/main.rs:758-838 | the update branch with its loops equals its specification |
| BlacklistRegistry.UpdateAppliesProposal | contracts/blacklist-registry/src/main.rs:758-816 | an accepted update applies its proposal to the map its entries stand for and keeps them ascending |
| BlacklistRegistry.UpdateBinding | contracts/blacklist-registry/src/main.rs:782-805 | an accepted update's payload names the hash of the old bytes, of the new bytes, and of exactly one input's data, which parses as the proposal |
| BlacklistRegistry.EntryIsUpdate | contracts/blacklist-registry/src/main.rs:733-747 | a transaction spending the registry has it as its only input of the type and has exactly one such output |
| Transition.MatchesAsMaps | contracts/blacklist-registry/src/main.rs:498-570 | for ascending lists: Add matches iff the id is absent and the new map is the old one with the proposed entry; Remove iff it is present and the new map is the old one without it |
| Transition.TransitionMatchesProposal | contracts/blacklist-registry/src/main.rs:498-570 | the whole check equals its specification |
| Transition.MatchesAdd | contracts/blacklist-registry/src/main.rs:505-531 | the two-index pass over the new entries accepts iff the new list is the old one with exactly one entry more, carrying the id and expiry |
| Transition.MatchesRemove | contracts/blacklist-registry/src/main.rs:532-557 | the two-index pass over the old entries accepts iff the old list is the new one with exactly one entry more, carrying the id |
| Transition.MapDeterminesList | contracts/blacklist-registry/src/main.rs:498-570 | two ascending lists with the same map are the same list |
| Transition.OneMoreIsMapRemoval | contracts/blacklist-registry/src/main.rs:498-570 | on ascending lists one-entry-more is removal of a present key from the map |
| Transition.AcceptedAppliesProposal | contracts/blacklist-registry/src/main.rs:498-570 | an accepted transition is one application of the proposal, whose id was absent or present as its action needs |
| Capacity.CapacityForLockHash | contracts/blacklist-registry/src/main.rs:691-714 | the loop computes the saturating sum over the cells with the lock hash |
| Capacity.SaturatedIsCappedSum | contracts/blacklist-registry/src/main.rs:691-714 | the saturating sum is the exact sum capped at the largest u64 |
| Capacity.ReturnConserves | contracts/blacklist-registry/src/main.rs:716-727 | a return that meets the bound keeps registry plus treasury within 1 CKB in growth, shrink and saturation |
| Capacity.ReturnIsWeakest | contracts/blacklist-registry/src/main.rs:716-727 | any return that conserves capacity in that sense meets the bound |
| Conservation.UpdateConserves | contracts/blacklist-registry/src/main.rs:817-838 | one accepted add or remove under a treasury leaves registry plus treasury capacity at least the previous total minus 1 CKB |
| LedgerTotal.StepTotal | contracts/blacklist-registry/src/main.rs:691-714 | any transaction moves the total of the live cells, under any weight of cells, by what its outputs weigh less what its inputs weigh |
| Conservation.StepConserves | contracts/blacklist-registry/src/main.rs:817-838 | one step of such a run loses at most its cost: 1 CKB for an update, nothing for a foreign transaction |
| Conservation.RunConserves | contracts/blacklist-registry/src/main.rs:817-838 | k updates in a run lose at most k CKB of registry plus treasury capacity |
| Conservation.UpdatesCount | contracts/blacklist-registry/src/main.rs:817-838 | the number of updates is additive over parts of a run and one for a step that is an update |
| Chain.FindInputByDataHash | contracts/blacklist-registry/src/main.rs:473-496 | the loop finds the only input whose data has the non-zero hash, or fails |
| Chain.FoundInput | contracts/blacklist-registry/src/main.rs:473-496 | an input is found iff it alone has non-empty data with this hash and the hash is not zero |
| Chain.OutPointInjective | contracts/blacklist-registry/src/main.rs:749-757 | the 36 outpoint bytes determine the outpoint |
| Scan.CollectPositions | contracts/blacklist-registry/src/main.rs:449-471 | the scan pushes every matching index, in order |
| Scan.FindUnique | contracts/blacklist-registry/src/main.rs:473-496 | the scan that stops at a second match finds the unique match or none |
| Scan.UniqueExact | contracts/blacklist-registry/src/main.rs:473-496 | the result is an index iff it matches and nothing else does |
| RegistryFormat.StrictExact | crates/registry-format/src/lib.rs:133-201 | strict entry parsing returns a list iff the list is canonical and the bytes from the count offset are its one encoding; so the remaining/9 guard never rejects a valid payload |
| RegistryFormat.LenientExact | crates/registry-format/src/lib.rs:133-201 | lenient parsing returns a list iff the bytes begin with its encoding |
| RegistryFormat.StrictPayloadExact | crates/registry-format/src/lib.rs:82-102 | a payload parses strictly to a list iff it is the encoding of some header and that canonical list |
| RegistryFormat.StrictOfEncode | crates/registry-format/src/lib.rs:82-102 | every canonical list under every header is read back |
| RegistryFormat.EncodeOfStrict | crates/registry-format/src/lib.rs:82-102 | whatever parses strictly is the encoding of its own header bytes and entries |
| RegistryFormat.StrictPrefixRejected | crates/registry-format/src/lib.rs:74-102 | no strict prefix of a canonical payload parses, even leniently |
| RegistryFormat.AppendedBytes | crates/registry-format/src/lib.rs:74-102 | appended bytes are invisible to lenient parsing and make strict parsing fail with TrailingBytes |
| RegistryFormat.ErrorsMean | crates/registry-format/src/lib.rs:82-102 | UnsupportedVersion iff magic with another version, TrailingBytes iff lenient parsing succeeds where strict fails, InvalidPayload without the magic |
| RegistryFormat.ParseEntriesLoop | crates/registry-format/src/lib.rs:133-201 | the offset-moving loop, the guard and the order check compute the specified result |
| RegistryFormat.InOrder | crates/registry-format/src/lib.rs:190-194 | the neighbour check decides strict ascent |
| RegistryFormat.AscendingPairs | crates/registry-format/src/lib.rs:190-194 | neighbours in order puts every pair in order |
| TsRegistry.ParseExact | sdk/typescript/src/blacklist.ts:119-184 | the TypeScript reader returns a list iff the payload is the encoding of some header and that canonical list, followed by any bytes, and its own header reader finds a header in the data |
| TsRegistry.GuardIsRedundant | sdk/typescript/src/blacklist.ts:153-170 | without the guard on the count the entry loop reads exactly what the guarded lenient reader reads |
| TsRegistry.ParseRegistryPayload | sdk/typescript/src/blacklist.ts:101-184 | the reader with its key and entry loops equals its specification |
| TsRegistry.ParsedPrefix | sdk/typescript/src/blacklist.ts:119-184 | what was read stands at the front of the data, under the header its length field delimits |
| SdkRegistry.RoundTripExact | sdk/rust/src/registry.rs:67-153 | the SDK reads back what it wrote iff the entries are canonical and the signer count matches the keys |
| SdkRegistry.SameAsChain | sdk/rust/src/registry.rs:53-98 | the SDK reads a payload iff the strict on-chain decoder does and the header is readable, with the same entries; on a readable header both fail together, the SDK with its coarser code |
| SdkRegistry.ParseRegistryPayload | sdk/rust/src/registry.rs:67-98 | the reader with its loops equals its specification |
| SdkRegistry.EncodeRegistryPayload | sdk/rust/src/registry.rs:127-153 | the writer appends exactly the encoded payload and fails iff an identifier exceeds 255 bytes |
| SdkRegistry.EncodeGovernanceHeader | sdk/rust/src/registry.rs:104-115 | the pushes write the version 1 header |
| SdkRegistry.PlaceholderIsRead | sdk/rust/src/registry.rs:127-137 | a payload written without a header is read back with the empty placeholder |
| Molecule.ScriptToMoleculeBytes | sdk/cli/src/lib/blkl.ts:39-72 | the written bytes are the Script table with canonical offsets |
| Molecule.DecodeOfEncodeScript | sdk/cli/src/lib/blkl.ts:74-94 | decoding an encoded script gives it back |
| Molecule.EncodeOfDecodeScript | sdk/cli/src/lib/blkl.ts:74-94 | only canonical encodings are decoded |
| GovernanceHeader.ReadersAgree | contracts/governance-lock/src/main.rs:120-174 | governance-lock accepts a header iff the SDK does, 1 <= threshold <= count, and the registry reads a treasury from it or the v3 script is empty; shared fields agree; a header the registry reads a treasury from is one the SDK reads, and no v3 header with an empty script |
| GovernanceHeader.HeaderSliceExact | contracts/governance-lock/src/main.rs:120-132 | a header is found iff the payload begins with magic, version 2, the length and the header, and has room for a count |
| GovernanceHeader.CliReadsWhatIsEnforced | contracts/blacklist-registry/src/main.rs:647-689 | any header the CLI parses has the treasury the registry enforces and the fields the SDK reads |
| GovernanceHeader.CliReadsWhatIsAuthorised | contracts/governance-lock/src/main.rs:120-174 | governance-lock accepts a header the CLI parses iff 1 <= threshold <= count, with the same fields |
| GovernanceHeader.CliHeaderRoundTrip | sdk/cli/src/lib/blkl.ts:96-167 | the CLI reads back every header it writes within the length fields |
| GovernanceHeader.CliHeaderAccepted | contracts/governance-lock/src/main.rs:120-174 | governance-lock accepts a CLI-written header iff 1 <= threshold <= count |
| GovernanceHeader.CliEncodeHeaderBuffer | sdk/cli/src/lib/blkl.ts:96-123 | the filled buffer is the header encoding by version |
| GovernanceHeader.SdkHeaderRoundTrip | sdk/rust/src/registry.rs:6-115 | the SDK reads back every header whose signer count matches its keys |
| GovernanceHeader.ParseSdkHeader | sdk/rust/src/registry.rs:6-47 | the SDK's absolute-offset reader with its key loop equals its specification |
| ProposalCell.SameLanguage | contracts/proposal-anchor/src/main.rs:201-233 | proposal-anchor accepts a cell iff the registry parses it with that type id and, for add and remove, a non-empty identifier |
| ProposalCell.EncodedCellIsRead | sdk/cli/src/lib/governance-v4.ts:43-87 | every cell the CLI writes is read by both scripts, back to the same action, identifier, expiry or treasury |
| ProposalCell.EncodeProposalCellData | sdk/cli/src/lib/governance-v4.ts:43-87 | the filled buffer is the specified encoding, and it throws exactly on a missing script, an empty or over-long identifier or an expiry outside u64 |
| Lookup.SearchHalfOpen | sdk/rust/src/firewall.rs:45-59 | on ascending entries the half-open search terminates and answers the linear question |
| Lookup.SearchClosed | sdk/typescript/src/builder.ts:108-133 | the closed-interval search with byte comparison by difference does too |
| Lookup.CheckExitCode | sdk/cli/src/commands/check.ts:63-78 | the search over lowercase hex strings exits 2 iff an active entry has the identifier |
| Lookup.IsBlacklistedIsListed | crates/registry-format/src/lib.rs:110-118 | whichever matching position the library search answers with, and it may be any, the lookup answers the linear question |
| Lookup.ListedAntitone | crates/registry-format/src/lib.rs:110-118 | an entry listed at a later time was listed at every earlier time |
| Lookup.UniqueId | crates/registry-format/src/lib.rs:110-118 | an ascending list has each identifier at most once, so any matching position gives the same answer |
| Lookup.EndsAtExpiry | contracts/firewall-lock/src/main.rs:361-376 | an entry with expiry 0 is active at every time, any other exactly before its expiry |
| Deployment.FirstAtIsDocumented | crates/registry-format/src/lib.rs:110-118 | there is a search that answers as the library documents |
| Lex.CompareBytes | sdk/typescript/src/builder.ts:108-116 | the sign of the result is the lexicographic order |
| Lex.HexPreservesOrder | sdk/cli/src/commands/check.ts:63-78 | lowercase hex is an order embedding of byte strings, prefixes included |
| Lex.HexInjective | sdk/cli/src/lib/blkl.ts:33-37 | lowercase hex is injective |
| CliBuilder.BuilderIsAccepted | sdk/cli/src/lib/governance-v4.ts:117-154 | for every registry the CLI reads, trailing bytes or not, and every applicable proposal, the new bytes parse strictly and the transition matches the proposal the written PBLK parses to; add and remove keep the header; set-treasury keeps entries, threshold, count and root and yields the proposed treasury |
| CliBuilder.TransformedWhen | sdk/cli/src/lib/governance-v4.ts:117-151 | the builder has a new state iff the id is absent for add, present for remove, or the header parses for set-treasury |
| CliBuilder.LoadRegistryStateForProposal | sdk/cli/src/lib/governance-v4.ts:117-154 | the SDK reader, the branches with their loops and the buffers compute the specified bytes or fail |
| CliBuilder.CurrentExact | sdk/cli/src/lib/governance-v4.ts:117-122 | the CLI reads a header and entries iff the payload is their encoding followed by any bytes, the entries are canonical, and the SDK reader finds a header in the data |
| CliBuilder.StrictCurrent | sdk/cli/src/lib/governance-v4.ts:117-122 | on a payload the registry script accepts, the CLI reads exactly the entries the script reads and nothing follows them |
| CliBuilder.FullRegistryRejected | sdk/cli/src/lib/blkl.ts:193-226 | at 2^32 entries the count field wraps and the registry script reports trailing bytes |
| CliBuilder.OversizedTreasuryRejected | sdk/cli/src/lib/blkl.ts:96-123 | a treasury script too long for the 16-bit length fields is refused: the registry never reads the proposed hash, unless the script collides with a prefix of itself |
| CliBuilder.InsertSorted | sdk/cli/src/lib/blkl.ts:253-263 | the find-and-splice gives the specified insertion |
| CliBuilder.InsertedAscending | sdk/cli/src/lib/blkl.ts:253-263 | inserting an absent id keeps the list strictly ascending |
| CliBuilder.InsertedIsOneMore | sdk/cli/src/lib/blkl.ts:253-263 | the result is the old list with exactly one entry more |
| CliBuilder.RemoveEntry | sdk/cli/src/lib/blkl.ts:265-273 | the filter drops exactly the entries with the id |
| CliBuilder.EncodeRegistryPayload | sdk/cli/src/lib/blkl.ts:193-226 | the per-entry buffers copied into one give the payload encoding; it throws iff an identifier exceeds 255 bytes |
| AnchorType.SpentAnchor | contracts/proposal-anchor/src/main.rs:294-315 | a spent anchor is the only one, holds a proposal for its registry, has a relative timestamp word in seconds of at least its delay, and returns its capacity less 1 CKB to the treasury, counted exactly |
| AnchorType.CreatedAnchor | contracts/proposal-anchor/src/main.rs:287-291 | a created anchor is the only output of its type and holds a proposal for its registry |
| AnchorType.ReclaimExact | contracts/proposal-anchor/src/main.rs:294-315 | spending an anchor without creating one: 33 for bad data, else 36 for a word that is no relative timestamp of at least the delay, else 35 for a return short of the capacity less 1 CKB counted exactly, else accepted |
| AnchorType.Refused | contracts/proposal-anchor/src/main.rs:272-286 | 31 iff args do not parse first, 32 iff more than one anchor on a side or none at all |
| AnchorType.CreationExact | contracts/proposal-anchor/src/main.rs:272-291 | a transaction with one output and no input of the type is accepted iff the args parse and the output data is valid for the registry they name, whatever the output's lock |
| AnchorType.ProgramEntry | contracts/proposal-anchor/src/main.rs:272-317 | the script's entry with its loops equals its specification, error codes included |
| AnchorType.ArgsExact | sdk/cli/src/lib/governance-v4.ts:195-219 | args parse iff they are what the CLI writes for what they parse to |
| AnchorType.EncodeProposalAnchorTypeArgs | sdk/cli/src/lib/governance-v4.ts:195-219 | the filled buffer is the args encoding; it throws iff the delay is outside u64 |
| AnchorType.RunningArgsAre | contracts/proposal-anchor/src/main.rs:156-178 | the args sliced out of a script's table are the script's args |
| TreasuryLock.SpendExact | contracts/treasury-lock/src/main.rs:185-290 | a spend is accepted iff it spends or creates an anchor bound to this treasury and takes at most 1000 CKB |
| TreasuryRuns.RunTakes | contracts/treasury-lock/src/main.rs:285-290 | a run in which k transactions spend from a treasury takes at most k times 1000 CKB from it |
| TreasuryRuns.SpendsCount | contracts/treasury-lock/src/main.rs:285-290 | the number of spends is additive over parts of a run and one for a step with an input under the treasury lock |
| TreasuryRuns.StepTakes | contracts/treasury-lock/src/main.rs:285-290 | one transaction takes at most 1000 CKB, and nothing if it spends no treasury cell |
| DeploymentTreasury.TakenWithoutVotes | contracts/treasury-lock/src/main.rs:261-290 | a transaction with no governed input and no witness spends an anchor, both scripts accept, and the treasury has exactly 1000 CKB less |
| TreasuryLock.AnchorTypeMeans | contracts/treasury-lock/src/main.rs:156-181 | on a script's bytes the test is on its code, hash type and the treasury field of its args |
| TreasuryLock.NewAnchorExact | contracts/treasury-lock/src/main.rs:228-247 | an output counts as a new anchor iff it has the anchor type for this treasury and carries this treasury lock |
| TreasuryLock.SpentAnchorExact | contracts/treasury-lock/src/main.rs:261-283 | an input counts as a spent anchor iff it has the anchor code by type and this treasury in its args, whatever its lock and data |
| TreasuryLock.AnchorTypeExact | contracts/treasury-lock/src/main.rs:156-181 | on any bytes the test asks for the canonical Script table head, code, hash type and the treasury at its place |
| TreasuryLock.CliAnchorIsRecognised | contracts/treasury-lock/src/main.rs:156-181 | an anchor type with CLI-written args is recognised iff code, hash type and treasury are this lock's |
| TreasuryLock.ProgramEntry | contracts/treasury-lock/src/main.rs:185-290 | the script's entry with its loops equals its specification, error codes included |
| TreasuryLock.ScanOutputs | contracts/treasury-lock/src/main.rs:228-257 | one pass computes both whether an anchor is created and the treasury's saturating return |
| TreasuryLock.GroupIsCappedSum | contracts/treasury-lock/src/main.rs:134-147 | the group sum saturates and never exceeds the sum over the lock hash |
| ExecuteAccepted.AllScriptsAccept | sdk/cli/src/commands/execute.ts:233-322 | the transaction of an add or remove under a v3 treasury balances up to the fee and is accepted by registry, governance lock, proposal anchor and treasury lock, under conditions a caller can check |
| ExecuteAccepted.Balanced | sdk/cli/src/commands/execute.ts:459-468 | inputs minus outputs is exactly 100000 shannons, with and without a treasury |
| ExecuteAccepted.BuildsExactly | sdk/cli/src/commands/execute.ts:204-418 | under a v3 treasury header execute builds a transaction iff the proposal is encodable and applicable, the proposal cell holds its data under the matching anchor type, the anchor code is named, given or usable pool capacity covers the growth, as many keys voted yes as the threshold says, every recorded vote of any choice has a valid path and signature, the stored digest is the recomputed one, and the yes-votes fit the witness |
| ExecuteAccepted.RegistryAccepts | contracts/blacklist-registry/src/main.rs:729-841 | the registry accepts the built transaction iff both ids are non-zero and, for add and remove, the proposal cell is treasury-locked |
| ExecuteAccepted.LockAccepts | contracts/governance-lock/src/main.rs:509-585 | governance-lock accepts it iff 1 <= threshold <= count, ids are non-zero, the delay is whole seconds, no key has two yes-votes, and each yes-vote has its leaf index in range and an admissible timestamp |
| ExecuteAccepted.AnchorAccepts | contracts/proposal-anchor/src/main.rs:272-317 | proposal-anchor accepts it iff the delay is whole seconds |
| ExecuteAccepted.TreasuryAccepts | contracts/treasury-lock/src/main.rs:285-287 | treasury-lock accepts it iff the new registry cell at one CKB a byte of capacity, data, lock and type, plus 100000 shannons, costs at most 1000 CKB more than the old cell carries |
| ExecuteAccepted.SmallGrowth | sdk/cli/src/lib/capacity.ts:15-25 | an add or remove on a registry cell that pays for its bytes needs at most 264 CKB more, sizes counted in the lengths of data and encoded scripts |
| ExecuteAccepted.OutputsCovered | sdk/cli/src/commands/execute.ts:289-322 | under a treasury every built registry output carries exactly one CKB for each of its bytes, and the treasury output at least that when the treasury script has at most 84 bytes of args |
| ExecuteAccepted.ReturnMet | contracts/blacklist-registry/src/main.rs:716-727 | the built outputs meet the registry's treasury return bound |
| ExecutePlain.BuildsExactly | sdk/cli/src/commands/execute.ts:204-418 | without a treasury execute builds a transaction iff the proposal is encodable and applicable, the proposal cell holds its data and pays the fee and its own bytes, and votes and digest check out |
| ExecutePlain.OutputsCovered | sdk/cli/src/commands/execute.ts:322-326 | without a treasury the built change pays for its own bytes; the registry output does iff the old cell carried enough for the new data |
| ExecutePlain.RegistryAccepts | contracts/blacklist-registry/src/main.rs:729-841 | without a treasury the registry accepts the built transaction iff both ids are non-zero and the proposal cell is not of the registry's own type |
| ExecutePlain.LockAccepts | contracts/governance-lock/src/main.rs:509-585 | without a treasury governance-lock accepts it under the same conditions as with one |
| ExecutePlain.Applies | sdk/cli/src/commands/execute.ts:445-481 | without a treasury too a ready job's transaction can be applied on every ledger keeping the invariant, with the proposal applied to the map |
| ExecuteOnLedger.ExecuteApplies | sdk/cli/src/commands/execute.ts:445-481 | on every ledger keeping the invariant the built transaction can be applied, and the same registry then stands for the old map with the proposal applied |
| ExecuteOnLedger.ExecuteConserves | contracts/blacklist-registry/src/main.rs:817-838 | every ready transaction under a treasury is one of the updates `Conservation.RunConserves` counts, and its inputs fit 64 bits |
| DeploymentJob.JobExecutes | sdk/cli/src/commands/execute.ts:204-481 | a job that is ready on a ledger keeping the invariant, all hypotheses at once: its transaction can be applied, and the registry then stands for exactly the one added identifier |
| DeploymentPlain.PlainJobExecutes | sdk/cli/src/commands/execute.ts:204-481 | the same without a treasury: a ready job on a ledger keeping the invariant, its transaction applied, the one identifier listed |
| ExecuteTx.Execute | sdk/cli/src/commands/execute.ts:204-481 | the whole construction from the loaded cells and the recorded votes, selection, sorting, loops and buffers included, computes the specified transaction or fails |
| ExecuteTx.FindPayout | sdk/cli/src/commands/execute.ts:232-326 | the capacity branches, with and without a treasury, compute the specified payout or fail |
| ExecuteTx.CheckVotes | sdk/cli/src/commands/execute.ts:326-392 | counting the keys that voted yes, checking path and signature of every vote, no and abstain included, and comparing the digest decides the specified approval |
| VoteDigest.DigestPins | sdk/cli/src/lib/proposals.ts:193-202 | files with one digest, short of a collision of their two texts, record the same votes in the order of their keys: key, choice, timestamp and signature |
| VoteDigest.PathsAreNotPinned | sdk/cli/src/lib/proposals.ts:193-202 | leaf index and Merkle path of a vote do not enter the digest's text |
| VoteDigest.RecordCut | sdk/cli/src/lib/proposals.ts:193-202 | whatever follows it, a vote's JSON record ends in one place and determines what is recorded |
| YesVotes.SubmittedExact | sdk/cli/src/commands/execute.ts:395-398 | the submitted votes are the yes-votes of the file and no others |
| YesVotes.ByKeyAscends | sdk/cli/src/commands/execute.ts:396-398 | the submitted votes are in the order of their keys |
| YesVotes.SortedAlike | sdk/cli/src/commands/execute.ts:396-398 | sorting by key keeps how many votes there are and whether a key votes twice |
| YesVotes.SelectYes | sdk/cli/src/commands/execute.ts:396-397 | the filter keeps the yes-votes in order |
| YesVotes.CollectVoters | sdk/cli/src/lib/proposals.ts:212-217 | the loop collects the distinct keys of a list |
| YesVotes.DistinctIffAsMany | sdk/cli/src/lib/proposals.ts:212-217 | as many distinct keys as votes means no key votes twice, and conversely |
| ExecuteTx.PayoutBalances | sdk/cli/src/commands/execute.ts:232-326 | the payout spends exactly the inputs less the fee, and no more than was on offer |
| ExecuteTx.AssembleTx | sdk/cli/src/commands/execute.ts:445-481 | inputs, outputs and witnesses stand in the specified order |
| ExecutePlan.PlanCapacities | sdk/cli/src/commands/execute.ts:233-322 | the planning loops compute the specified plan or fail |
| ExecutePlan.PlannableWhen | sdk/cli/src/commands/execute.ts:233-322 | a plan exists iff the proposal covers fee and minimum change, given cells are plain treasury cells, and the given or usable pool capacity covers the growth |
| ExecutePlan.PlanBalances | sdk/cli/src/commands/execute.ts:233-322 | registry, proposal and treasury inputs equal the outputs plus the fee |
| ExecutePlan.Discover | sdk/cli/src/commands/execute.ts:305-314 | the auto-discovery loop picks the specified cells and sums them |
| ExecutePlan.ChosenSuffices | sdk/cli/src/commands/execute.ts:305-320 | discovery covers the growth iff all usable candidates together would |
| ExecutePlan.ChosenIsMinimal | sdk/cli/src/commands/execute.ts:305-314 | without its last cell discovery would not cover the growth |
| ExecutePlan.GrowthBounded | sdk/cli/src/lib/capacity.ts:15-25 | 264 more bytes cost at most 264 CKB beyond a covered cell |
| ExecutePlan.OccupiedIsSize | sdk/cli/src/lib/capacity.ts:15-25 | the occupied capacity is one CKB for each of eight bytes, the data, and the code hash, hash type and args of each script |
| ExecutePlan.PlanCovers | sdk/cli/src/commands/execute.ts:289-322 | a planned registry cell carries exactly what its bytes cost and the planned change covers a plain cell under a lock of up to 84 bytes of args |
| ExecutePlan.ChangeFallsShort | sdk/cli/src/commands/execute.ts:233-240 | for every longer treasury script there is a plan whose change does not pay for its own cell, since the minimum is a fixed 125 CKB |
| Firewall.Enforced | contracts/firewall-lock/src/main.rs:317-376 | when the lock lets a transaction through to the inner lock, no output carries the identifier of an active entry of any registry cell a spec matches, lock args under flags 1 and 3, type args under flags 2 and 3, entries without or with a later expiry, and each spec matches at most one cell |
| Firewall.DecidesExactly | contracts/firewall-lock/src/main.rs:317-376 | with registries resolved and read and a median, the lock reaches its inner lock under flags 1 iff no lock args are listed, under flags 2 iff no type args are, under flags 3 iff neither; otherwise it stops with 7, 11 or 12 |
| Firewall.EarlyRefusals | contracts/firewall-lock/src/main.rs:317-343 | 6 for another version, then the error of resolving or reading a registry, then -2 for an overflowing median, before any output is looked at |
| Firewall.UnreadableRegistry | contracts/firewall-lock/src/main.rs:203-211 | 6 for another payload version, 10 for entries out of order, 9 otherwise; the SDK has 10 and 9 |
| Firewall.MatchesRegistry | contracts/firewall-lock/src/main.rs:241-252 | a spec matches a cell dep iff the dep has the registry code and type args of the registry format with that type id |
| Firewall.RequiredIsThere | contracts/firewall-lock/src/main.rs:221-268 | every required registry of such a transaction is matched by a cell dep |
| Firewall.PreflightRefinesLock | sdk/rust/src/firewall.rs:10-120 | with both checks on and the same time, the pre-flight says Ok iff the lock reaches its inner lock and every matched registry's header is readable by the SDK; on readable headers verdict and code agree, the lock's 6 read as 9 |
| Firewall.VerdictExact | contracts/firewall-lock/src/main.rs:335-376 | a verdict is Ok iff no output matches an active entry of any registry; otherwise it is the error of the first output that does |
| Firewall.ResolveExact | contracts/firewall-lock/src/main.rs:221-268 | a spec resolves to a dep iff that dep alone matches; it is unresolved or missing iff none does |
| Firewall.ProgramEntry | contracts/firewall-lock/src/main.rs:317-376 | the lock's entry from its raw args on, with its loops, equals its specification, error codes included |
| Firewall.BuiltArgsRun | sdk/typescript/src/builder.ts:49-96 | args the SDK built run with exactly the specs, flags and inner lock that went in; flags of four and above are built but never accepted |
| FirewallArgs.RoundTrip | sdk/typescript/src/builder.ts:49-96 | the lock parses what the SDK wrote back to every field |
| FirewallArgs.ParseArgs | contracts/firewall-lock/src/main.rs:142-178 | the layout checks and the spec loop compute the specified args or error |
| FirewallArgs.BuildFirewallLockArgs | sdk/typescript/src/builder.ts:49-96 | the filled buffer is the specified encoding; it throws exactly where the source does |
| Firewall.CheckTransaction | sdk/rust/src/firewall.rs:109-120 | the SDK check with its loops equals its specification |
| Firewall.ResolveRegistries | contracts/firewall-lock/src/main.rs:221-268 | the lock's nested loops give the pairs of the specified slots or the specified error |
| Firewall.ResolveRegistryDeps | sdk/rust/src/firewall.rs:22-43 | the SDK's nested loops give the specified slots or the specified error |
| Firewall.CheckOutputs | contracts/firewall-lock/src/main.rs:335-376 | the lock's output loop computes the specified verdict |
| Firewall.PreflightCheck | sdk/rust/src/firewall.rs:80-97 | the SDK's output loop computes the specified verdict |
| Firewall.ReadersAgree | sdk/rust/src/firewall.rs:109-120 | on readable headers the two programs read the same entries or fail with corresponding codes |
| MedianTime.OrderIndependent | contracts/firewall-lock/src/main.rs:277-314 | the median does not depend on the order of the headers |
| MedianTime.Monotone | contracts/firewall-lock/src/main.rs:277-314 | the median is monotone in every timestamp |
| MedianTime.BetweenExtremes | contracts/firewall-lock/src/main.rs:277-314 | it lies between the least and greatest timestamp |
| MedianTime.MedianSplits | contracts/firewall-lock/src/main.rs:296-308 | of an odd number of timestamps fewer than half lie strictly on either side |
| MedianTime.NeverReactivates | contracts/firewall-lock/src/main.rs:277-314 | moving headers forward never lists an identifier that was not listed before |
| MedianTime.NoHeadersAllActive | contracts/firewall-lock/src/main.rs:290-294 | without headers every entry counts as active |
| MedianTime.GetMedianTime | contracts/firewall-lock/src/main.rs:277-314 | the collecting loop and the sorted middle compute the specified median; None where the checked addition overflows |
| MedianTime.RankExact | contracts/firewall-lock/src/main.rs:296-308 | the k-th sorted timestamp is at most v iff more than k timestamps are |
| MedianTime.MedianExact | contracts/firewall-lock/src/main.rs:296-308 | the median is the middle rank of an odd number of timestamps, and for an even number the halved sum of the two middle ranks, rounded down; a value has a rank by counting |
| VoteImport.AnyOrder | sdk/cli/src/commands/import.ts:126-146 | importing the same files in any order gives the same votes and status |
| VoteImport.ImportAgain | sdk/cli/src/commands/import.ts:126-146 | importing a file again later changes nothing |
| VoteImport.ReplicasConverge | sdk/cli/src/commands/import.ts:126-146 | two replicas that import each other and the same files end with the same copy |
| VoteImport.JoinCommutes | sdk/cli/src/commands/import.ts:126-134 | the merge commutes iff no key has two different votes with one timestamp |
| VoteImport.JoinAssociates | sdk/cli/src/commands/import.ts:126-134 | the merge is associative, without any condition |
| VoteImport.JoinIdempotent | sdk/cli/src/commands/import.ts:126-134 | the merge is idempotent |
| VoteImport.MergeCommutes | sdk/cli/src/commands/import.ts:126-146 | votes and status merge commutatively when the pool of votes is honest |
| VoteImport.LoopIsJoin | sdk/cli/src/commands/import.ts:126-134 | the merge loop computes the join with the newest vote of each key, whatever repeats the imported file has |
| VoteImport.LoopKeepsLatest | sdk/cli/src/commands/import.ts:126-134 | each key keeps a vote that was offered for it, none offered has a later timestamp, and the local vote stays on a tie |
| VoteImport.TableKeepsLast | sdk/cli/src/commands/import.ts:126-126 | of a file that repeats a key the table holds the last one |
| VoteImport.RankIsPlace | sdk/cli/src/commands/import.ts:184-187 | a status ranks as its place in the order pending, voting, approved, rejected, executed |
| VoteImport.KeyOfHex | sdk/cli/src/commands/import.ts:126-134 | keys compare without regard to the case of their hex digits |
| VoteImport.MergeVotes | sdk/cli/src/commands/import.ts:126-135 | the insertion-ordered map loop computes the specified table, one vote a key |
| VoteImport.ImportMerge | sdk/cli/src/commands/import.ts:126-146 | the merge branch saves for each key its latest vote by timestamp, the existing or first imported one on a tie, the further status, and the digest of what it saves |
| VoteImport.ImportAll | sdk/cli/src/commands/import.ts:126-146 | a run of imports saves a file with one vote a key and its own digest, holding for each key the latest vote of the start file and of all files imported |
| VoteImport.NoneIsLater | sdk/cli/src/commands/import.ts:126-134 | no vote that took part is later than the one kept for its key, the one kept took part, and a local vote as late as the kept one is the kept one |
| VoteImport.HonestPair | sdk/cli/src/commands/import.ts:126-134 | a pool of two votes is dishonest iff they are different votes of one key with one timestamp |
| VoteImport.ImportsConverge | sdk/cli/src/commands/import.ts:126-146 | two runs of imports over the same files in different orders, from one start, save the same votes, status and digest |
| VoteImport.CodeUnitOrder | sdk/cli/src/lib/proposals.ts:193-202 | the order of keys by code units is such an order |
| VoteImport.DigestOfTable | sdk/cli/src/lib/proposals.ts:193-202 | under any strict total order of keys, files with the same votes, one a key, have the same digest whatever order they list them in |

## Left out

- GovernanceLock.ThresholdAuthorisation: says nothing of roots, proposal data or delay being signed, because the code signs only the vote payload.
- ExecuteAccepted.AllScriptsAccept: covers add and remove under a v3 treasury header; `ExecutePlain` covers the branch without a treasury, and of set-treasury under one the registry and the governance lock are covered by `ExecuteAccepted.RegistryAccepts` and `ExecuteAccepted.LockAccepts`.
- ExecuteAccepted.TreasuryAccepts: asks that given treasury cells and the proposal cell carry the treasury script itself, as a cell found by lock hash does short of a collision.
- VoteImport.DigestOfTable: takes the order of `localeCompare` on keys as any strict total order, and the JSON text of the sorted votes as an arbitrary function of them.
- Lookup.IsBlacklistedIsListed: takes the standard library's binary search by its documentation, as any position of an equal element; how it searches is not modelled.
- MedianTime.GetMedianTime: takes the library sort as a function to the sorted timestamps.
- MerkleTree.NextPow2: on unbounded integers; the 32-bit shift of the TypeScript beyond 2^30 validators is not modelled (the header's count is 16 bits).
- YesVotes.SortedAlike: sorts keys by their bytes, which for the lowercase hex the CLI writes is the order of `localeCompare`; keys in the file are taken as the bytes they spell.
- Local review-window and expiry checks of `execute`; the cell deps it adds to the transaction, of which only that the anchor code is named is modelled.
- VoteDigest.DigestPins: takes hex strings of the file in lower case, as the CLI writes them.
- Creating anchors, reclaiming them, donating, deploying and bootstrapping from the CLI; only what the scripts demand of such transactions is modelled.
- A registry update does not have to keep the governance header; only the CLI's builder does, so no such claim is made of the script.
- The fallback of `parse_script` for scripts that are not Molecule tables, and script bytes over 500000 bytes.
- The delegation of firewall-lock to its inner lock: `Firewall.LockEntry` ends where the inner lock begins.
- Type IDs of updates are equal by construction (input and output carry the same script), so that check of the update branch has no row of its own.
- Syscalls, allocation, spawn, RPC, files, prompts, the GUI and the documentation site.
- Deployment: its hash is 31 or 32 bytes of its input, far from blake2b; the instances use it on the strings they name, which it tells apart.
