# Verified models of the signer's core protocols

This project models, in Dafny, the parts of the signer whose correctness is hardest to see from the code, and
proves what each is for:

- BIP-340 threshold signatures: Lagrange coefficients, binding factors, the two parity flips, partial
  signatures, aggregation, the whole t-of-n ceremony with its in-place sort, verifiable secret sharing, the
  n-party key generation, and the two-party key generation and cosigning with a user's device.
- The claim of one request among replicas: lease, heartbeat, done marker, watchers, failover.
- Rotation of the Vault seals while keys rotate and users sign in, and the reconcile pass that keeps a replica's
  unlocked keys in step with the stored seals.
- Attempt budgets: reserve and refund, and the per-address budget across rotating bucket keys.
- The all-or-nothing re-encryption of keys on a password change, and the replay cache between replicas.

Run `dafny verify dfyconfig.toml`.

## How it is modelled

A point of the curve is its index k, standing for k times the base point, in a group of prime order above every
16-bit id; its compressed encoding and the two hash functions are arbitrary functions within the laws of
`EllipticCurve.Curve.Valid`. `CurveModel.SmallCurveIsValid` gives a curve that meets the laws. Scalars and points
are objects whose methods change the receiver, as in the elliptic-curve library, so the methods of `Bip340Frost`
prove both their results and that they leave their arguments alone. `SigningSpec` holds the same operations as
functions on values; each method is proved to compute its function, and the theorems are about the functions.

Protocols with several actors are state machines on values: a run is a list of actions, a legal run applies
enabled actions only, and the theorems hold after every legal run. The code of one actor is a class whose methods
are proved to take exactly the machine's steps. Random values, clocks, what others do between two steps, and which
operations fail are parameters, so every statement holds for all of them. A reply may also be lost: the
operation takes effect and reports failure.

| file | models |
|---|---|
| `PrimeField`, `Interpolation` | arithmetic modulo a prime, inverses, Lagrange interpolation at zero |
| `EllipticCurve`, `CurveModel` | points, encodings, BIP-340 verification, mutable scalars and points |
| `SigningSpec`, `Bip340Frost` | the signing mathematics, as functions and as methods on mutable objects |
| `Coordinator`, `Sequences` | the t-of-n ceremony and its sort |
| `SecretSharing`, `DistributedDkg` | verifiable secret sharing and the n-party key generation |
| `UserDkg`, `UserSigner`, `SessionOverlap` | the two-party key generation and cosigning, and overlapping completions |
| `Claim` | the claim protocol |
| `SealRotation`, `SealReconcile` | Vault seal rotation and the reconcile pass |
| `RateLimit`, `AuthGuard` | counters, the per-address budget, reserve and refund |
| `PasswordRewrap`, `ReplayCache` | password change and replay cache |
| `Bytes`, `Text`, `Wrappers` | byte strings, decimal and hexadecimal text, results |

## Where the code does less than it promises

Each of these is kept in the model as the code has it, with the exact condition under which the promise holds.

- Polynomial indices are cut to a byte: right for every polynomial exactly below 256
  (`SecretSharing.TruncationHarmless`).
- A share that arrives before its sender's commitment is filed unchecked. The final share is right exactly if the
  errors of such shares cancel out, and for all of them exactly if there are none
  (`DistributedDkg.LocalDKGState.MyShareRightIff`, `DistributedDkg.AlwaysRightIffNoneEarly`); a session that ends
  wrong is `DistributedDkg.EarlyShareMisleads`.
- The public share of an index is assigned, not added, when the map walk reaches participant 1: right for all
  polynomials exactly when that participant is visited first (`DistributedDkg.AlwaysRightIffFirst`), and for given
  ones exactly when what is visited before it cancels out (`DistributedDkg.WalkRightIff`).
- Additive shares cosign only if the user's part is twice the signer's (`UserSigner.AdditiveSplitFitsIff`), and a
  joint key named with the even prefix only if its y is even (`UserSigner.EvenPrefixSignsIff`).
- A session is looked up and dropped under separate locks, so two completions can use it, for a signature or to
  hand out the key: exactly if both come to use what they found and one looks the session up between the other's
  lookup and drop (`SessionOverlap.UsedTwiceIffOverlap`).
- A rotation pass strands a seal that others make live behind its back: one sealed earlier and stored after the
  listing, or an expired one renewed after it. Each is safe exactly if its version is at least the latest the
  pass has read (`SealRotation.SettledIffHarmless`, `SealRotation.LastStepDecides`); the two stranded runs are
  `SealRotation.LateStepsStrand`. What becomes live before the listing is always safe
  (`SealRotation.ListingIsSafe`).
- Registering a key and taking its lease are two steps, and so are the delete of a stale lease and the unload. A
  sign-in that finds its key loaded just before a pass unloads it, and takes the lease after, leaves the key leased
  but unloaded (`SealReconcile.LeasedButUnloaded`). A stale key dropped by a pass is loaded in the end exactly if
  it is registered after the unload, or its lease is taken before the delete and it is loaded by the unload
  (`SealReconcile.TouchedKeyIff`). A later pass that nothing disturbs loads a key that is not loaded exactly if
  one of its live seals opens on the replica, which a split seal never does (`SealReconcile.LoadedByNextPassIff`).
- A caller that derives its bucket keys before an epoch change and reserves after it can push the previous
  epoch's counter up behind another caller's back (`RateLimit.StraddlerBreaksBudget`). In the epoch of its keys a
  reservation is safe exactly if the previous epoch's count has not grown since the caller read it and no older
  counter is alive. After that epoch it is safe exactly if it is refused, or if it counts in nothing, because its
  window is at its last instant, while no other earlier counter is alive (`RateLimit.GrantSafeIff`).
- A rolled-back password change marks the restored keys with the passphrase method, and cannot undo a write that
  took effect with its reply lost (`PasswordRewrap.RestoredExactlyIff`, `PasswordRewrap.FailureRestoresIff`).
- The replay cache remembers the nonce header as spelt, while decoding ignores case; it judges the timestamp before
  reading the body but the nonce after; and it reads its clock before taking its lock, so deliveries may reach the
  cache in another order than that of their instants. In any run, whatever the order, an authentic delivery is
  accepted exactly if every delivery accepted before it under the same spelling has been purged, by itself or by
  an authentic delivery in between whose instant is past the retention (`ReplayCache.AcceptedIff`). No message is
  accepted twice if its timestamp and nonce are judged at one instant, the nonce is in lower case and nothing with
  a later instant overtakes the second delivery (`ReplayCache.NeverAcceptedTwice`). Each of the three is needed:
  `ReplayCache.RespelledNonceReplays`, `ReplayCache.DelayedDeliveryReplays`, `ReplayCache.OvertakenDeliveryReplays`.

## Model

| member | source | states |
|---|---|---|
| Interpolation.InterpolationTheorem | internal/frost/bip340_frost.go:83-97 | for any distinct ids below the prime and any polynomial with no more coefficients than ids, its values weighted by the coefficients sum to its value at zero |
| Interpolation.LagrangeSumsToOne | internal/frost/bip340_frost.go:83-97 | the coefficients of any nonempty set of distinct ids sum to one |
| Bip340Frost.LagrangeCoefficient | internal/frost/bip340_frost.go:83-97 | the loop over mutable scalars with one inversion yields the product of fractions that interpolation uses, for any target and list of 16-bit ids |
| Bip340Frost.DenominatorNonzero | internal/frost/bip340_frost.go:89-96 | the product that is inverted is never zero, whatever the ids |
| Bip340Frost.ComputeBindingFactors | internal/frost/bip340_frost.go:114-172 | fails exactly on a message not of 32 bytes, an unsorted commitment list or a key without a 33-byte encoding, in that order; otherwise gives every id of the list, and no other, the binding hash of an input with the domain, the x-only key, the message, each commitment and that id in their fixed places |
| SigningSpec.BindingInputInjective | internal/frost/bip340_frost.go:119-157 | equal hash inputs force equal x-only key, message, commitment list of any length, and target id |
| SigningSpec.BindingFactorTellsViewsApart | internal/frost/bip340_frost.go:114-172 | two views whose factors agree whatever the hash function have the same x-only key, message, commitment list and target id |
| SigningSpec.BindingInputLayout | internal/frost/bip340_frost.go:119-157 | the parts of a view stand at fixed places of the hashed input, 68 bytes a commitment |
| Bip340Frost.AggregateNonceCommitment | internal/frost/bip340_frost.go:187-213 | fails exactly if some binding factor is missing or the encoding of the sum has not 33 bytes, which only the identity's may lack; otherwise returns the even-y form of the sum of D + rho E over the list, and whether it was even |
| Bip340Frost.ComputeBIP340Challenge | internal/frost/bip340_frost.go:217-246 | refuses exactly a nonce point that is not in even-y form and, after it, a key without a 33-byte encoding; otherwise the challenge hash of an input with the two x-coordinates and the message in their places |
| SigningSpec.ChallengeTellsApart | internal/frost/bip340_frost.go:235-246 | challenges that agree whatever the hash function are of the same nonce point, key and message, by x-coordinates |
| Bip340Frost.ComputePartialSignature | internal/frost/bip340_frost.go:258-284 | the partial signature of the values, in all four parity cases, with no argument changed by the chain of in-place scalar operations |
| SigningSpec.FactorBindsNonce | internal/frost/bip340_frost.go:258-284 | under two binding factors a partial signature is the same exactly if the factors are, or the binding nonce is zero |
| Bip340Frost.AggregatePartialSignatures | internal/frost/bip340_frost.go:294-300 | the 32-byte encoding of the sum of all partials modulo the order |
| Bip340Frost.EncodeBIP340Signature | internal/frost/bip340_frost.go:304-316 | succeeds exactly on an even-y point and 32 bytes, giving x followed by them |
| Bip340Frost.PrepareNonce | internal/frost/bip340_frost.go:376-390 | the binding factors and the even-y aggregate nonce, failing exactly on a bad message, an unsorted list or a key or nonce sum without a 33-byte encoding |
| Bip340Frost.PrepareSignable | internal/frost/bip340_frost.go:376-402 | for a key that is a proper point, succeeds exactly if the message has 32 bytes, the commitments are sorted and the aggregate nonce is not the identity, and then holds all public values of the ceremony |
| Bip340Frost.AggregateFullSignature | internal/frost/bip340_frost.go:416-423 | succeeds exactly on an even-y nonce point, giving its x and the summed partials |
| SigningSpec.SumOfPartials | internal/frost/bip340_frost.go:258-300 | the partials of any signers sum to the signed nonce plus the signed challenge times the shares' weighted sum |
| SigningSpec.AggregateVerifiesIff | internal/frost/coordinator.go:106-164 | the aggregate of any signers passes BIP-340 verification for a key exactly when the challenge is zero or their shares interpolate to the key's secret |
| SigningSpec.ThresholdSignatureVerifies | internal/frost/coordinator.go:106-164 | shares on one polynomial of degree below the number of distinct signers always verify under its constant term |
| Coordinator.SortByParticipantID | internal/frost/coordinator.go:179-189 | the in-place sort of three slices leaves the same rows, each kept together, in ascending id order |
| Coordinator.SwapRows | internal/frost/coordinator.go:184-186 | exchanges two neighbouring rows of all three slices and keeps the rows as a multiset |
| Coordinator.RunCeremony | internal/frost/coordinator.go:106-164 | the ceremony on sorted slices succeeds exactly if the ids differ, the aggregate nonce is not the identity and the aggregate verifies |
| Coordinator.SignMessage | internal/frost/coordinator.go:39-165 | the error of each guard exactly; otherwise success exactly if the first threshold shares, with their nonces and in id order, have different ids and their aggregate verifies, and then that aggregate |
| Coordinator.ConsistentSharesSign | internal/frost/coordinator.go:152-164 | distinct ids with shares of one polynomial of degree below the threshold never fail the final self-check, in whatever order the shares were stored |
| SecretSharing.EvaluatePolynomial | internal/frost/dkg_distributed.go:910-930 | the accumulator loop yields the polynomial's value at the index cut to a byte |
| SecretSharing.ComputePublicShareContribution | internal/frost/dkg_distributed.go:961-982 | the loop over points yields the same value times the base point |
| SecretSharing.VerifyShareAgainstCommitment | internal/frost/dkg_distributed.go:932-959 | accepts a share exactly if it is the committed polynomial's value at the index |
| SecretSharing.TruncationHarmless | internal/frost/dkg_distributed.go:915 | cutting an index to a byte keeps the value of every polynomial exactly if the index is below 256 |
| DistributedDkg.LocalDKGState.HandleAccept | internal/frost/dkg_distributed.go:306-343 | only participants are recorded; round 1 starts exactly when the last of them accepts a pending session, and files the own commitment |
| DistributedDkg.LocalDKGState.StartRound1 | internal/frost/dkg_distributed.go:346-421 | a pending session enters round 1 with its own commitment filed |
| DistributedDkg.LocalDKGState.HandleCommit | internal/frost/dkg_distributed.go:424-468 | a commitment of the threshold's length, from the participant its index names, is filed, and completes round 1 if it is the last; any other changes nothing |
| DistributedDkg.LocalDKGState.StartRound2 | internal/frost/dkg_distributed.go:494-554 | every other participant is sent the own polynomial's value at its index, and the own value is filed |
| DistributedDkg.LocalDKGState.HandleShare | internal/frost/dkg_distributed.go:557-623 | the first share of a sender is filed exactly if it is the committed value or its commitment is still missing, and then counts as unchecked; any other changes nothing |
| DistributedDkg.LocalDKGState.RoundTwoSums | internal/frost/dkg_distributed.go:640-656 | walking both maps in any order yields the sum of the filed shares and the group polynomial's value at zero |
| DistributedDkg.LocalDKGState.Run | internal/frost/dkg_distributed.go:306-666 | after any messages in any order: a session started and sent everything is in round 3; there it holds the group key, and the group polynomial's value at its index exactly if the errors of the early shares cancel out; with each commitment before its share there are none |
| DistributedDkg.LocalDKGState.MyShareRightIff | internal/frost/dkg_distributed.go:601-646 | in round 3 the own share is right exactly if the errors of the shares filed before their commitment cancel out |
| DistributedDkg.AlwaysRightIffNoneEarly | internal/frost/dkg_distributed.go:601-646 | it is right whatever was filed unchecked exactly if nothing was |
| DistributedDkg.EarlyShareMisleads | internal/frost/dkg_distributed.go:601-646 | a session of two with threshold two, proper commitments and one early share that is off by one ends in round 3 with a wrong share |
| DistributedDkg.GeneratedKeySigns | internal/frost/dkg_distributed.go:626-666 | any threshold of participants that finished sign under the key all of them computed |
| DistributedDkg.LocalDKGState.VerificationShare | internal/frost/dkg_distributed.go:692-700 | one walk over the commitments computes what the walk with its assignment at participant 1 yields, in the order it happened to take |
| DistributedDkg.WalkRightIff | internal/frost/dkg_distributed.go:692-700 | that result is the right public share exactly if what was visited before participant 1 cancels out |
| DistributedDkg.AlwaysRightIffFirst | internal/frost/dkg_distributed.go:692-700 | it is right for all polynomials exactly if participant 1 is visited first |
| DistributedDkg.LocalDKGState.FinalizeDKG | internal/frost/dkg_distributed.go:669-702 | each index gets what the walk over the commitments yields in the order it happened to take; that is the group polynomial's value exactly if what it visited before participant 1 cancels out |
| UserSigner.FindCommitment | internal/frost/user_signer.go:279-290 | finds a commitment of the participant exactly if the list has one |
| UserSigner.VerifyPartialSignature | internal/frost/user_signer.go:268-310 | accepts a scalar exactly if it is the participant's partial signature, in all parity cases, with no argument changed |
| UserSigner.TwoPartySecret | internal/frost/user_signer.go:182-232 | two shares are weighted 2 and -1 |
| UserSigner.CosignVerifiesIff | internal/frost/user_signer.go:232-262 | the aggregate verifies exactly if the challenge is zero or twice the user's share less the signer's is the joint key's secret |
| UserSigner.HonestUserSigns | internal/frost/user_signer.go:184-262 | a device that sends its commitments and the partial its share calls for gets a signature that verifies, if the shares fit the key and the aggregate nonce is not the identity |
| UserSigner.Cosign | internal/frost/user_signer.go:184-262 | each outcome of a completion attempt exactly: a signature or the bad-signature error only after the right user partial, and then a signature exactly if the aggregate verifies |
| UserSigner.UserSignerCoordinator.BeginCosign | internal/frost/user_signer.go:91-156 | fails exactly on a malformed field; otherwise opens one new session that expires in 60 seconds and changes no other |
| UserSigner.UserSignerCoordinator.CompleteCosign | internal/frost/user_signer.go:169-263 | the session is gone after any attempt, an expired one is refused, the nonces are used exactly if the user's partial was accepted, and never twice when attempts on a session do not overlap |
| UserSigner.UserSignerCoordinator.LookUp | internal/frost/user_signer.go:170-180 | finds exactly a live session and leaves it in the table; an expired one is dropped |
| UserSigner.UserSignerCoordinator.DropSession | internal/frost/user_signer.go:334-338 | takes exactly the named session out of the table |
| SessionOverlap.UsedTwiceIffOverlap | internal/frost/user_signer.go:170-182 | with lookup, use, drop and giving up as separate steps, in any run two completions use the same session exactly if both come to use what they found and one looked it up between the other's lookup and drop |
| SessionOverlap.OverlapHappens | internal/frost/user_dkg.go:301-336 | there is a run in which two completions both use one session |
| SessionOverlap.GivingUpIsNoUse | internal/frost/user_dkg.go:309-311 | a completion that gives up without dropping leaves the session to another, and is no use of it |
| UserSigner.UserSignerCoordinator.GC | internal/frost/user_signer.go:313-325 | drops the expired sessions and no other, and counts them |
| UserSigner.AdditiveSplitFitsIff | internal/api/frost_migrate.go:159-170 | an additive split of a key fits the cosigning weights exactly if the user's part is twice the signer's |
| UserSigner.EvenPrefixSignsIff | internal/api/frost_sign.go:101 | naming the joint key with the even prefix yields a signature exactly if the challenge is zero or its true y is even |
| UserSigner.GeneratedSharesCosign | internal/frost/user_signer.go:256-262 | shares from the two-party key generation never meet the bad-signature error |
| UserDkg.UserDKGState.Exchange | internal/frost/user_dkg.go:267-286 | an accepted share moves the session on to f(2) + g(2), g(1) and f(0) + g(0) |
| UserDkg.UserDKG.Round1 | internal/frost/user_dkg.go:185-239 | each input error exactly; otherwise one new session awaiting round 2 holds both parties' commitments |
| UserDkg.UserDKG.GetSession | internal/frost/user_dkg.go:362-378 | finds exactly the live session in the expected phase; drops an expired one, keeps one in another phase |
| UserDkg.UserDKG.Round2 | internal/frost/user_dkg.go:243-292 | succeeds exactly on the committed value, which moves that session on; a wrong share drops the session, one that does not decode changes nothing, and no other session changes phase |
| UserDkg.UserDKG.Finalize | internal/frost/user_dkg.go:301-337 | succeeds exactly on the confirmed joint key, hands out the values both polynomials call for, and does so at most once a session; a mismatch drops it |
| UserDkg.UserDKG.GC | internal/frost/user_dkg.go:340-352 | drops the expired sessions and no other, and counts them |
| UserDkg.FinalizedSessionCosigns | internal/frost/user_dkg.go:325-336 | what a finished session hands out, with the share the user makes of the value sent to it, never meets the bad-signature error, and an honest device always gets a signature under the joint key handed out |
| Claim.AtMostOneRunner | internal/claim/claim.go:160-266 | in every run in which live owners renew in time, at most one live replica processes the request at any time |
| Claim.StartsBounded | internal/claim/claim.go:160-266 | until the done marker lapses the request is started at most once more than owners crash, and exactly so once it is marked done |
| Claim.PromptOwnersRenew | internal/claim/claim.go:199-216 | if the heartbeat interval and two operation times fit into the lease, prompt replicas renew in time, whether a heartbeat takes effect early or late in its operation, and also while the marker is on its way |
| Claim.DefaultsAreSafe | internal/claim/claim.go:36-45 | with the shipped timings, prompt replicas never process a request side by side |
| Claim.ReplacedOwnerHarmless | internal/claim/claim.go:48-61 | in any run, timely or not, a replica whose record was replaced never alters the record again |
| Claim.FailoverBound | internal/claim/claim.go:231-266 | if an owner dies while a watcher has a lease of budget left, the request is claimed again within a lease, a poll and four operation times |
| Claim.WatchersNeverRunCompleted | internal/claim/claim.go:220-266 | no watcher present at the completion ever processes the request if the done marker outlives a poll and four operation times |
| Claim.CompletionFinalIff | internal/claim/claim.go:220-266 | that condition is exact |
| Claim.ShippedTimingsFinalIff | internal/claim/claim.go:86-118 | with the shipped timings, where only the marker's lifetime can be chosen, a completion is final exactly if the marker lives longer than nine seconds; hence for every lifetime of at least the watch budget |
| Claim.ClaimStore.RunRenewScript | internal/claim/claim.go:49-53 | the script renews the record exactly for its live owner |
| Claim.ClaimStore.RunDoneScript | internal/claim/claim.go:55-60 | the script writes the marker exactly for the record's live owner |
| Claim.Claimer.WatchRound | internal/claim/claim.go:234-264 | one round takes the machine's steps: the sleep, the read, and a claim exactly after reading no record |
| Claim.Claimer.Coordinate | internal/claim/claim.go:160-177 | takes exactly the machine's step: the winner runs with the lease, the loser watches |
| Claim.Claimer.WatchAndTakeOver | internal/claim/claim.go:231-266 | every round is the machine's poll and, exactly after reading no record, its takeover, until the replica no longer watches; the loop ends whatever the others do, after no more polls than the budget has room for |
| Claim.WatchWinsIff | internal/claim/claim.go:231-266 | such a watch takes over exactly if some round finds no record when it reads and none when it claims; otherwise it ends on the done marker or once the budget is spent |
| Claim.LoneWatcherWins | internal/claim/claim.go:239-255 | with a dead owner whose lease ends within the budget and nobody else at the record, the watch takes over within a poll and the last round's delays of the lease's end |
| Claim.Claimer.RunOwned | internal/claim/claim.go:187-195 | every heartbeat is the machine's, each after what others did, then the return and the marker, which leaves a record of another replica as it is |
| Claim.UndisturbedOwnerFinishes | internal/claim/claim.go:187-216 | an owner whose record nobody touches still holds it after every heartbeat and leaves the done marker, if no gap reaches the lease |
| SealRotation.VersionRoundTrip | internal/seal/vault.go:92-118 | the version read from a stored blob is the one its ciphertext was made under |
| SealRotation.SealStore.RotateVaultSeals | internal/api/stay_signed_in_rotation.go:40-101 | whatever others do in between and however each operation fares, the pass comes to exactly the result and store that the pass function says; at every moment every seal is protected if the minimum is not raised or the steps of others since the listing were harmless |
| SealRotation.ActKeepsUnderway | internal/api/stay_signed_in_rotation.go:48-56 | no step of others, late stores and renewals included, disturbs a pass before it raises the minimum |
| SealRotation.SealStore.HandleSeal | internal/api/stay_signed_in_rotation.go:59-83 | a stale seal is rewrapped and stored, and counted as the replies say, whatever happens between the two calls; any other is left alone |
| SealRotation.ListingIsSafe | internal/api/stay_signed_in_rotation.go:48-56 | whatever became live before the listing is on the list, so the pass starts safe |
| SealRotation.SettledIffHarmless | internal/storage/session_seal.go:77-88 | after the listing, a step of others leaves the pass safe exactly if no seal it stores or renews is openable below the latest version read, unless it is still to be rewrapped |
| SealRotation.RaiseProtectsIff | internal/api/stay_signed_in_rotation.go:93-98 | raising the minimum with nothing pending strands no seal exactly if the pass is still safe |
| SealRotation.PassProtectsIff | internal/api/stay_signed_in_rotation.go:40-101 | a whole pass strands no seal exactly if it does not raise the minimum or is still safe when it does; harmless steps of others are enough |
| SealRotation.LastStepDecides | internal/api/stay_signed_in.go:194-211 | one last step of others before the raise: the pass strands no seal exactly if that step is harmless |
| SealRotation.LateStepsStrand | internal/api/stay_signed_in.go:694-701 | a session renewed, or a seal stored that was made earlier, after the listing is stranded by a pass that reports success |
| SealRotation.PassSucceeds | internal/api/stay_signed_in_rotation.go:40-101 | if every operation succeeds and the listed seals stay stored, the pass succeeds and the minimum has reached the version that was latest when it began |
| SealRotation.SealOutcome | internal/api/stay_signed_in_rotation.go:59-83 | each listed seal that is still stored holds its secret; a stale one whose rewrap is done and whose store takes effect is at least at the latest version read, whatever became of the others; any other, as one below the minimum, keeps its blob |
| SealRotation.EveryStaleCounted | internal/api/stay_signed_in_rotation.go:57-83 | every stale seal is counted once, as rewrapped or failed, and as failed if its rewrap or its store is not reported done |
| SealRotation.FailureKeepsMinimum | internal/api/stay_signed_in_rotation.go:90-93 | a stale seal that could not be rewrapped and stored makes the pass report seals left and leave the minimum where it was |
| SealReconcile.Replica.LiveSeals | internal/api/stay_signed_in.go:232-266 | the live seals by key in stored order, the unsure keys, and the deletion of ended sessions' seals |
| SealReconcile.Replica.RestoreFromSeals | internal/api/stay_signed_in.go:321-342 | installs the first seal that opens here, if any, with steps of others between the two steps of installing it |
| SealReconcile.Replica.InstallSealedKey | internal/api/stay_signed_in.go:345-361 | installs exactly a key that matches its seal and is stored: registers it, and takes its lease in a second step, with any steps of others in between |
| SealReconcile.Replica.LockSealedKeyIfStale | internal/api/stay_signed_in.go:390-400 | with any registrations and leases of others between its two lock holds: drops lease and key exactly if the lease is older than the pass, and keeps every lease taken since the pass began |
| SealReconcile.Replica.ReconcileSeals | internal/api/stay_signed_in.go:270-317 | whatever others do meanwhile, the pass is the drops and restores of its course, each with what others do before and within it; a lease taken since the pass began survives it; undisturbed, the pass computes what the pass function says |
| SealReconcile.DroppedIff | internal/api/stay_signed_in.go:276-300 | a pass drops exactly the keys whose lease is stale when it begins and is not taken before the list is made; it tries to restore exactly those with a live seal |
| SealReconcile.DroppedKeyIff | internal/api/stay_signed_in.go:276-416 | a dropped key, whatever others do before, within and after its drop: leased in the end exactly if its lease was taken meanwhile; loaded exactly if registered after the unload, or leased before the delete and loaded by the unload |
| SealReconcile.LiveKeyIff | internal/api/stay_signed_in.go:300-361 | a key with live seals: loaded in the end exactly if it was, somebody registered it, or a seal opens here; leased exactly if it was, somebody leased it, or the pass restored it |
| SealReconcile.OtherKeyIff | internal/api/stay_signed_in.go:270-317 | any other key is left to what others do |
| SealReconcile.NewLeasesSurvive | internal/api/stay_signed_in.go:386-400 | a lease taken since the pass began, at whatever point of it, is there in the end |
| SealReconcile.QuietPass | internal/api/stay_signed_in.go:270-317 | undisturbed, every possible course comes to the same pass function |
| SealReconcile.PassSettles | internal/api/stay_signed_in.go:270-317 | after an undisturbed pass a key is loaded exactly if a live seal opens here or it was loaded with no stale lease; leased exactly if it was with no stale lease or the pass restored it; a remembered miss stays exactly if it has not run out and the key was not restored |
| SealReconcile.PassSweeps | internal/api/stay_signed_in.go:232-266 | exactly the unexpired seals of sessions that have not ended remain |
| SealReconcile.SecondPassIdle | internal/api/stay_signed_in.go:270-317 | an immediate second pass changes nothing |
| SealReconcile.TouchedKeyIff | internal/api/stay_signed_in.go:390-416 | registrations and leases of others before, between and after the two steps of dropping a stale key: it is leased exactly if a lease was taken, whenever that was; it is loaded exactly if it is registered after the unload, or its lease is taken before the delete and it is loaded by the unload |
| SealReconcile.LeasedButUnloaded | internal/api/stay_signed_in.go:188-213 | a sign-in that finds its key registered before the unload and takes the lease after it leaves the key leased and not loaded |
| SealReconcile.LoadedByNextPassIff | internal/api/stay_signed_in.go:270-361 | an undisturbed pass loads a key that is not loaded exactly if one of its live seals opens there |
| RateLimit.MemoryLimiter.Allow | internal/ratelimit/ratelimit.go:136-158 | counts one attempt in a live or new window and grants exactly within the limit; sweeping hides no window that still counts |
| RateLimit.TakeThenRelease | internal/ratelimit/ratelimit.go:73-115 | for both backends, an attempt and its refund leave every counter as it was |
| RateLimit.WindowFixedByFirst | internal/ratelimit/ratelimit.go:67-84 | for both backends, attempts within a window are all counted in it and it ends its length after the first, however many come; one past its end opens a new one |
| RateLimit.AllowIP | internal/ratelimit/ratelimit.go:295-315 | grants exactly if the previous count is below the limit and the current one, counted up, within the rest; a grant leaves both within the limit and touches one key; a refusal leaves every counter as it was |
| RateLimit.GrantsIPIff | internal/ratelimit/ratelimit.go:295-315 | that is: exactly if the attempts of both epochs that still count are below the limit |
| RateLimit.UndisturbedCallerIff | internal/ratelimit/ratelimit.go:295-315 | a caller whose steps nobody comes between is granted exactly then, on both backends, and otherwise leaves every count as it was |
| RateLimit.GrantWithinBudget | internal/ratelimit/ratelimit.go:230-315 | however callers interleave and keys rotate, if reservations land in the epoch of their keys, a grant leaves the live counters of all epochs together within the limit |
| RateLimit.GrantSafeIff | internal/ratelimit/ratelimit.go:295-315 | in every run, for every caller about to reserve and whatever the current counter holds: a grant leaves the address within budget exactly if the previous epoch's count has not grown since the caller read it and no older counter is alive; for a caller past its epoch, exactly if it is refused or counts in nothing while no other earlier counter is alive |
| RateLimit.StraddlerBreaksBudget | internal/ratelimit/ratelimit.go:295-315 | one caller that straddles an epoch change lets another past the limit, on either backend |
| RateLimit.NothingLeftReserved | internal/ratelimit/ratelimit.go:309-313 | in every run each counter is at most the callers that were granted or are about to hand back |
| AuthGuard.Begin | internal/authguard/authguard.go:46-87 | grants exactly if both budgets have a unit left; a refused attempt leaves every counter as it was; a granted one charges exactly the account's key and the address's current key once each, and both are within their limits |
| AuthGuard.GrantsIff | internal/authguard/authguard.go:46-87 | that is: exactly if the account's attempts, and the address's over both epochs, are below their limits |
| AuthGuard.FailuresCounted | internal/authguard/authguard.go:38-45 | all failures that charge a key within the window of the first are counted in that window, whatever else they charge and whatever failures come between |
| AuthGuard.SpentBudgetRefuses | internal/authguard/authguard.go:38-87 | once the failures from an address within a window reach its limit every further attempt from it is refused, whatever the account; likewise for an account, whatever the address |
| AuthGuard.Attempt.End | internal/authguard/authguard.go:111-124 | refunds every unit exactly if the attempt did not fail |
| AuthGuard.Attempt.Fail | internal/authguard/authguard.go:93-108 | keeps the units, counts the failure, and locks exactly when the attempt's copy of the user says it is one too many |
| AuthGuard.BeginThenEnd | internal/authguard/authguard.go:111-115 | ending an attempt that did not fail undoes its beginning |
| AuthGuard.BudgetKept | internal/authguard/authguard.go:38-45 | over any interleaving of any number of attempts within a window the counter is in-flight plus failed plus refused units, never negative, and in-flight plus failed stay within the limit |
| PasswordRewrap.Crypto.EncryptThenDecrypt | internal/crypto/passphrase_encryptor.go:116-182 | decrypting what was encrypted under a passphrase gives it back |
| PasswordRewrap.Crypto.ReWrapKeepsPlaintext | internal/crypto/passphrase_encryptor.go:190-205 | re-wrapping succeeds exactly on what the old passphrase opens, and the new one opens the result to the same |
| PasswordRewrap.KeyStore.Prepare | internal/api/handler.go:3206-3224 | works out every re-wrap, or fails exactly if some passphrase key does not open under the old passphrase |
| PasswordRewrap.KeyStore.RewrapPassphraseKeys | internal/api/handler.go:3199-3255 | under any pattern of failed or lost writes every stored ciphertext is at every moment its old or its re-wrapped value; fails as unreadable exactly if some passphrase key does not open, and on a write exactly if one of them is not done; on success all passphrase keys are re-wrapped, on a failed write exactly those whose restore write took effect are put back |
| PasswordRewrap.SuccessReadable | internal/api/handler.go:3182-3198 | after success each passphrase key opens under the new passphrase to what it held; other keys are untouched |
| PasswordRewrap.RewrappedOpens | internal/api/handler.go:3182-3198 | after success what was encrypted for the user under the old passphrase opens under the new one to the same; a key of anybody else or not encrypted under a passphrase is untouched |
| PasswordRewrap.FailureRestoresIff | internal/api/handler.go:3196-3198 | after a failure all ciphertexts are as before exactly if every write was put back and the failed one had no effect, but for writes that change nothing |
| PasswordRewrap.RestoredExactlyIff | internal/api/handler.go:3228-3241 | the rows are then wholly as before exactly if the restored keys carried the passphrase method before |
| PasswordRewrap.Accounts.ChangePassword | internal/api/handler.go:3071-3120 | each error and success exactly, by the length, the password, the keys that open and the replies of the writes; the password changes only together with all keys; on any reported failure with no lost write and no failed restore both are as before |
| ReplayCache.Forwarder.FirstUse | internal/api/forward.go:319-333 | says yes exactly to a nonce not seen within the retention, and forgets exactly what is older |
| ReplayCache.Forwarder.Receive | internal/api/forward.go:251-277 | accepts exactly an authentic delivery inside the window whose nonce is used for the first time |
| ReplayCache.BoundApart | internal/api/forward.go:418-425 | the data a seal is bound to differs for different endpoints or timestamps |
| ReplayCache.SealedAuthenticIff | internal/api/forward.go:179-277 | what another replica sealed is authentic exactly at its own endpoint, under its own timestamp and nonce, and within 30 seconds of the second it names |
| ReplayCache.NeverAcceptedTwice | internal/api/forward.go:319-333 | in any run, no message is accepted twice by a replica when timestamp and nonce are judged at one instant, the nonce is spelt in lower case, and no delivery between the two carries a later instant than the second |
| ReplayCache.WindowWithinRetention | internal/api/forward.go:319-333 | two instants inside one timestamp's window are within the retention |
| ReplayCache.AcceptedIff | internal/api/forward.go:251-333 | in any run and any order of instants, a delivery is accepted exactly if it is authentic and every accepted delivery before it under the same spelling of the nonce has been purged, by itself or by an authentic delivery in between past its retention |
| ReplayCache.DelayedDeliveryReplays | internal/api/forward.go:267-277 | a delay between the two checks of the second delivery suffices, so the window and the retention meet exactly |
| ReplayCache.RespelledNonceReplays | internal/api/forward.go:263-277 | respelling a letter of the nonce suffices for a second acceptance at the same instant |
| ReplayCache.OvertakenDeliveryReplays | internal/api/forward.go:319-333 | another delivery with a later instant that reaches the cache just before the second delivery lets it in within the retention |
| Text.CanonicalIff | internal/api/forward.go:263 | a text that decodes is the encoding of its bytes exactly if it has no upper-case digit |

## Left out

- Curve arithmetic, SHA-256, AES-GCM, PBKDF2, HMAC and base64: functions with their laws; the hashes of the signing mathematics and the encodings of points are arbitrary within the laws stated.
- Decoding of hex, JSON and stored shares: an input field arrives decoded, or as none where decoding fails. A joint key that decodes is a proper point, since the identity has no 33-byte encoding.
- DistributedDkg.LocalDKGState.Run: scalars and points are values, so aliasing of the source's objects is not captured here (the loops of `SecretSharing` are modelled on objects); each handler is one step; there are 1 to 255 participants and each sends one commitment, because without these the source does not keep the claim. Abort only marks a session, as in the source; liveness, the initiator's extra role, messages and storage are not modelled.
- DistributedDkg.LocalDKGState.HandleCommit: the counts that end a round are compared with the number of participants; the source compares them with the total a joiner takes from the init message (`internal/frost/dkg_distributed.go:242`) unchecked, and which an honest initiator sets to that number (`internal/frost/dkg_distributed.go:156`). A total that differs is not part of this model.
- DistributedDkg.LocalDKGState.FinalizeDKG: the key share's byte format and the stored records are not part of this model.
- UserSigner.UserSignerCoordinator.CompleteCosign: one step; overlapping completions are the subject of `SessionOverlap`, on session ids alone. A session id is new when it is made.
- UserDkg.UserDKG.Finalize: one step, likewise.
- Coordinator.SignMessage: loading, decrypting and decoding the local shares, and the lookup of the key.
- The trusted dealer, remote signers and the migration endpoints as protocols.
- Claim: store errors (the source then processes without a claim), a missing store, and repeated delivery of one request to one replica. Replica names differ and none is the done marker. Each store operation is one step.
- SealRotation.SealStore.RotateVaultSeals: one pass at a time. What a blob opens to is stored beside it, for the source's decryption by Vault.
- SealReconcile.Replica.ReconcileSeals: a pass reads at one instant and installs and sweeps at a later one; others register keys and take leases during it but leave the stored seals alone, and any unloading by others is left out, as are failed deletes, a failed listing (which leaves everything as it is), the lazy restore of a single key, revocation, and the announcement of loaded keys.
- RateLimit.GrantWithinBudget: bucket keys of different epochs differ; the hasher with a secret of its own process, whose keys start anew at each rotation, has no previous count.
- AuthGuard.BudgetKept: backend errors (the source then lets the attempt through) and attempts that outlive their window.
- AuthGuard.Begin: normalising the username, picking the address from the proxy header, and hashing both. Backup codes and MFA.
- PasswordRewrap.Accounts.ChangePassword: the length of a password is counted in characters, for the source's bytes; password hashing (an account's password is the text it accepts), sessions, seals and the Vault credential that follow a change; other writers of the same keys.
- ReplayCache.SealedAuthenticIff: a sealed body opens under its own nonce and bound data only, which AES-GCM ensures for all but negligible chances.
- ReplayCache.NeverAcceptedTwice: needs that nothing with a later instant overtakes the second delivery on its way to the cache, which the source does not ensure; `ReplayCache.AcceptedIff` does without. Not modelled are the cap on the body's length, and what happens to an accepted message.
- HTTP, JSON, cookies, relays, metrics, configuration and logging: plumbing.
