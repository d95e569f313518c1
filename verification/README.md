# Verified model of the Oath registry and client core

This project models four parts of the repository and proves what they are for.

- **The transparency log.** The recursive Merkle tree, its audit paths, and the compact-frontier
  consistency proof whose verifier merges blocks on a stack (`MerkleTree`, `Frontier`,
  `FrontierShape`, `ConsistencySoundness`, `CompactRange`, `ProofSize`, over `PowersOfTwo`).
- **Canonical JSON.** The printer behind every digest and signature, and a parser that undoes it
  (`CanonicalJson`, `JsonRoundTrip`, `ShortestJson`, `SignedJson`, over `ByteOrder`).
- **The registry.** Tables and transactions (`ControlPlane`, `ControlPlaneSafety`, `SemVer`), the
  hash-chained log (`EventLog`), the replicated object store (`ArtifactStore`), and the running
  system in which any number of workers serve and drain at once and may crash between any two steps
  (`Registry`, `RegistrySafety`, `RegistryInvariant`, `RegistryRuns`), where its rows come from
  (`Origins`), that requests get through (`Requests`), its drains and store calls as runs
  (`OutboxDrain`, `Delivery`, `StoreSteps`) and the checkpoints over its log (`Checkpoints`).
  Signing-key creation is a second protocol, over names and inodes (`KeyCreation`, `KeyProgress`).
- **The client.** Reverse-dependency search (`DependencyPath`), the peer pass (`Peers`, `PeerPass`),
  the lockfile (`Lockfile`, `LockfileRoundTrip`), shell quoting (`ShellQuote`) and the two day counts
  (`Calendar`).

`dafny verify dfyconfig.toml` checks everything.

## How to read the model

- A digest function is any function from byte strings to 64-character texts. Nothing is assumed of
  it. Results that need it to be collision-free end in "or `CollisionIn(h, M)`", where `M` is the
  finite set of messages that the computations at hand really hash.
- Loops, stacks, buffers, tables and stores are methods and classes proved against functions; the
  laws are lemmas about those functions.
- Each SQL transaction is one atomic step. Primary keys and unique constraints are those of the
  migrations (`crates/oath-registry/migrations/0001_registry.sql` and `0002_ga_foundation.sql`), and a
  violated one aborts the transaction. Outbox rows are never deleted, so a row's id is its position.
- Clocks, random bytes, request bodies, verdicts, event texts and stage ids are parameters, so the
  results hold for all of them. Hash maps are walked in an arbitrary order.
- Replicas never lose objects; the primary may lose any object at any time.

## What the code does that one might not expect

- `split_point` never returns for lengths above 2^63; no Rust slice is that long.
- `verify_merkle_inclusion` is compiled for tests only; its soundness is proved all the same.
- The comment on `find_dep_path` says that the chain leaves the root out. The code returns it, as the
  first element, and the model follows the code.
- Revoking a version again with the status it already has is an error rather than a second
  tombstone, because the audit intent's key is unique. A rejected stage blocks its version for good.
- `lock_key_package_name` drops the last character of a scoped package's name for location keys.
  Lockfiles written from a graph record the name under such keys and are not affected; entries with
  neither a name nor a registry URL are.
- A canonically keyed node whose tarball URL has the registry's form for another package is read
  back from the lockfile under the other name.
- A git package's version is whatever text its `package.json` holds. One with "node_modules/" in it decides alone
  which name is read back (`LockfileRoundTrip.MarkedVersionRenames`).
- Arguments appended to a script that ends in a comment are swallowed by the comment, "build # note" for
  one (`ShellQuote.CommentedBuildLosesArgument`).
- Neighbouring blocks of a consistency proof's suffix may have the same size: the leaves from 3 to 12 are
  cut into 1, 4 and 4 (`ProofSize.EqualNeighboursExist`).
- `days_from_date` is one day ahead in years before 1 March of year 0 that are no leap years, since
  its divisions truncate. The approximate count is at least one day ahead from 2101 on.

## Model

| member | source | states |
|---|---|---|
| MerkleTree.ComputeSplitPoint | crates/oath-registry/src/lib.rs:230-237 | on a machine word the doubling loop yields the largest power of two below the length, for every length up to 2^63 |
| MerkleTree.SplitPointLoopExits | crates/oath-registry/src/lib.rs:230-237 | the loop leaves through its guard if and only if the length is at most 2^63; above that the shift drops the top bit for ever |
| MerkleTree.RootBindsLeaves | crates/oath-registry/src/lib.rs:239-255 | equal roots mean equal lists of leaves, lengths included, unless two hashed messages collide |
| MerkleTree.InclusionPath | crates/oath-registry/src/lib.rs:257-269 | the recursion that pushes onto the caller's vector extends it by exactly the audit path |
| MerkleTree.MerkleInclusionProof | crates/oath-registry/src/lib.rs:271-278 | a proof for every index of the log and none for any other |
| MerkleTree.AuditPathReconstructs | crates/oath-registry/src/lib.rs:257-269 | the audit path leads from the leaf to the root and the cursor stops exactly at its end, whatever surrounds it |
| MerkleTree.InclusionComplete | crates/oath-registry/src/lib.rs:271-278 | every leaf of every log has a proof that verifies against the recursive root |
| MerkleTree.InclusionSound | crates/oath-registry/src/lib.rs:395-432 | an accepted proof for index i and the true size forces the leaf to be the i-th, whatever the labels and their widths, or two of the messages hashed collide |
| MerkleTree.InclusionShowsMembership | crates/oath-registry/src/lib.rs:395-432 | an accepted proof shows membership whatever size and index it claims, or a collision |
| MerkleTree.AuditPathLogarithmic | crates/oath-registry/src/lib.rs:257-269 | the audit path of a log of at most 2^k leaves has at most k labels |
| MerkleTree.AcceptedProofIsFull | crates/oath-registry/src/lib.rs:395-436 | an accepted inclusion proof has exactly as many labels as the claimed position needs, so left-over siblings are refused |
| MerkleTree.RootOfThree | crates/oath-registry/src/lib.rs:215-254 | the root of three leaves, written out with the prefix bytes 0 and 1 |
| Frontier.MergeWhilePaired | crates/oath-registry/src/lib.rs:346-366 | the merge loop on a stack equals repeated merging of the top pair; every sum and doubling is done on machine words and cannot overflow for any nodes |
| Frontier.ComputeFold | crates/oath-registry/src/lib.rs:371-376 | the closing loop hashes the stack from its top leftwards |
| Frontier.ComputeRootFromFrontier | crates/oath-registry/src/lib.rs:334-377 | the verifier's loop with checked cursor computes the functional frontier root, whose acceptance and value `FrontierShape` settles for every list, and terminates without overflow on arbitrary nodes |
| Frontier.ComputeVerifyConsistency | crates/oath-registry/src/lib.rs:379-392 | the check is the conjunction of the size order and the two frontier roots |
| FrontierShape.FrontierAcceptsExactly | crates/oath-registry/src/lib.rs:334-370 | over every node list: a root is read if and only if the starts are consecutive from 0, every size is a power of two, no sum exceeds a machine word, and the plain sum of the sizes is the claimed size |
| FrontierShape.AcceptedSizesAddUp | crates/oath-registry/src/lib.rs:379-392 | an accepted proof's prefix adds up to `from_size`, prefix and suffix together to `to_size` |
| FrontierShape.AlteredSizesAreRefused | crates/oath-registry/src/lib.rs:379-392 | an accepted proof with another size written into it is refused, whatever the roots |
| FrontierShape.JoiningKeepsRoot | crates/oath-registry/src/lib.rs:346-366 | on every accepted list, honest or not, two neighbours that are the halves of an aligned block may be replaced by that block without changing the root |
| FrontierShape.UnpairedRootIsFold | crates/oath-registry/src/lib.rs:371-376 | with no such neighbours left the root is the fold of the labels from the right; both laws settle the root of every accepted list |
| ConsistencySoundness.UndoMerge | crates/oath-registry/src/lib.rs:359-365 | an opened merged entry opens the pair it was made from, keeping the left-to-right leaf yield |
| ConsistencySoundness.UndoAbsorb | crates/oath-registry/src/lib.rs:340-367 | a whole run of the outer loop can be undone: the stack before it opens to a prefix of the final leaf yield |
| ConsistencySoundness.OpenFold | crates/oath-registry/src/lib.rs:371-376 | a folded stack whose hash is a known root opens into consecutive parts of that tree's leaves |
| ConsistencySoundness.ConsistencySound | crates/oath-registry/src/lib.rs:334-392 | for any proof at all, with labels of any width, acceptance between the roots of two logs means the first is a prefix of the second, or two of the messages hashed collide |
| CompactRange.NextBlock | crates/oath-registry/src/lib.rs:299-313 | each block is the largest aligned one that fits, so the inner shrinking loop never changes the size |
| CompactRange.ComputeCompactRange | crates/oath-registry/src/lib.rs:295-317 | the loop over the cursor yields the recursive list of blocks |
| CompactRange.MerkleConsistencyProof | crates/oath-registry/src/lib.rs:319-332 | a proof for every earlier size up to the present one and none beyond |
| CompactRange.CompactNodesTile | crates/oath-registry/src/lib.rs:295-317 | the blocks tile the range: consecutive, power-of-two sized, aligned to their size, with the recursive hashes |
| CompactRange.FrontierRefinesTree | crates/oath-registry/src/lib.rs:334-377 | iterative refines recursive: on any tiling of the log by correct aligned blocks the frontier root is the Merkle root |
| CompactRange.ConsistencyComplete | crates/oath-registry/src/lib.rs:319-392 | for every log and every earlier size, 0 and non-powers of two included, the proof built is accepted between the two recursive roots |
| ProofSize.ProofIsLogarithmic | crates/oath-registry/src/lib.rs:464-475 | prefix and suffix together have at most 2*floor(log2 n)+1 nodes, for every earlier size |
| ProofSize.PrefixFalls | crates/oath-registry/src/lib.rs:295-317 | the prefix's block sizes strictly descend |
| ProofSize.SuffixRisesThenFalls | crates/oath-registry/src/lib.rs:295-317 | the suffix's block sizes are a strictly rising run followed by a strictly falling run |
| ProofSize.NeighboursEqualExactly | crates/oath-registry/src/lib.rs:299-308 | two neighbouring blocks have the same size p, which happens only where the runs meet, if and only if at least 2p and less than 3p leaves remain before the first of them |
| ProofSize.BlockIsLargest | crates/oath-registry/src/lib.rs:299-308 | each block is the largest aligned power of two that fits into what remains |
| CanonicalJson.Write | crates/oath-contracts/src/lib.rs:261-297 | the recursion that appends to the caller's buffer appends exactly the canonical text and touches nothing before it |
| CanonicalJson.SortEntries | crates/oath-contracts/src/lib.rs:283-284 | sorting members by key gives a sorted permutation |
| JsonRoundTrip.StringParses | crates/oath-contracts/src/lib.rs:270-289 | an escaped string is read back as the original by an unescaper that follows section 7 of RFC 8259, whatever follows it |
| JsonRoundTrip.TextParses | crates/oath-contracts/src/lib.rs:260-303 | the text of a value, followed by anything that is no digit, parses to the value's meaning and leaves the rest |
| JsonRoundTrip.PrintedTextParses | crates/oath-contracts/src/lib.rs:260-303 | a parser undoes the printer on every value |
| JsonRoundTrip.SameMeaningSameText | crates/oath-contracts/src/lib.rs:283-292 | the bytes do not depend on the order in which members were inserted, at any depth |
| JsonRoundTrip.CanonicalExactly | crates/oath-contracts/src/lib.rs:257-303 | two values have the same canonical bytes if and only if they mean the same |
| ShortestJson.CanonicalIsShortest | crates/oath-contracts/src/lib.rs:257-303 | among all texts that are read with the meaning of a value, whatever the order of members and even with repeated keys, none is shorter than the canonical one |
| ShortestJson.StringIsShortest | crates/oath-contracts/src/lib.rs:270-289 | of all string bodies read as this string the printed one is the shortest, and the only one of its length with lower-case digits in escapes |
| ShortestJson.PlainStringIsVerbatim | crates/oath-contracts/src/lib.rs:270-289 | a string without quotes, backslashes and bytes below 32 is printed as itself, slashes included |
| ShortestJson.NumberIsShortest | crates/oath-contracts/src/lib.rs:267-269 | of all texts read as this number the printed one is the shortest, and the only one of its length |
| ShortestJson.KeysAscend | crates/oath-contracts/src/lib.rs:281-292 | in the text of an object its own keys stand in strictly ascending order, by their first differing byte or as prefixes |
| SignedJson.DigestBindsMeaning | crates/oath-contracts/src/lib.rs:250-255 | equal digests mean equal values, or the two canonical texts collide |
| SignedJson.SignatureBindsMeaning | crates/oath-contracts/src/lib.rs:305-348 | a signature verifies for exactly the values that mean what was signed; any change of meaning is an invalid signature |
| SignedJson.AcceptsExactly | crates/oath-contracts/src/lib.rs:319-348 | a signature is accepted if and only if its two names are spelled `ed25519` and `oath-json-v1`, key and signature have 32 and 64 bytes, and the scheme consents to the canonical text |
| EventLog.AppendKeepsChain | crates/oath-registry/src/postgres_api.rs:238-273 | an append keeps the log hash-linked from GENESIS, its keys and hashes unique, and what was there untouched |
| EventLog.AppendIsIdempotent | crates/oath-registry/src/postgres_api.rs:244-252 | appending under a key that is present changes nothing |
| EventLog.LatestHashBindsHistory | crates/oath-registry/src/postgres_api.rs:253-259 | equal latest hashes mean equal histories, or two chained messages collide; the undelimited concatenation is unambiguous |
| EventLog.DuplicateHashMeansCollision | crates/oath-registry/src/postgres_api.rs:262-270 | the unique index on hashes refuses an append only when two chained messages collide |
| EventLog.KeyTextsDiffer | crates/oath-registry/src/postgres_api.rs:602-606 | distinct event keys have distinct texts, names with an `@` included, as long as versions hold none |
| EventLog.StageKeyTexts | crates/oath-registry/src/postgres_api.rs:602-606 | the texts of stage keys, written out |
| EventLog.OtherKeyTexts | crates/oath-registry/src/postgres_api.rs:753-753 | the texts of the keys of endings and of direct events, written out |
| SemVer.PrecedenceOrder | crates/oath-registry/src/control_plane.rs:428-428 | version precedence by section 11 of Semantic Versioning 2.0.0 is a strict total order |
| SemVer.NumbersDecideInOrder | crates/oath-registry/src/control_plane.rs:428-428 | rule 11.2: a smaller major precedes; with equal majors a smaller minor; with both equal a smaller patch |
| SemVer.PreReleasesDecide | crates/oath-registry/src/control_plane.rs:428-428 | rules 11.3 and 11.4: a pre-release precedes its release; of two, the first differing identifier decides, and with none the shorter list comes first |
| SemVer.IdentifierRules | crates/oath-registry/src/control_plane.rs:428-428 | rules 11.4.1 to 11.4.3: numbers by value, numbers before texts, texts by their first differing byte or as prefixes |
| ByteOrder.BeforeExactly | crates/oath-contracts/src/lib.rs:283-284 | byte order: the first differing byte decides, and a proper prefix comes first |
| SemVer.GreatestIsGreatest | crates/oath-registry/src/control_plane.rs:420-429 | the fold over the active rows returns a row that parses and that no row that parses exceeds, and nothing only when no row parses |
| SemVer.GreatestIsLast | crates/oath-registry/src/control_plane.rs:428-428 | of several greatest rows, which differ in build metadata only, the last is chosen, as `max_by` does |
| ControlPlane.Tables.CreateStage | crates/oath-registry/src/control_plane.rs:149-196 | the statements of the transaction, in order, have the effect of the transaction function (`ControlPlaneSafety.StagingEffects`), or none when it rolls back or aborts |
| ControlPlane.Tables.DecideStage | crates/oath-registry/src/control_plane.rs:239-281 | the same for deciding: nothing is written unless everything is |
| ControlPlane.Tables.RevokeVersion | crates/oath-registry/src/control_plane.rs:401-448 | the same for revoking, for every order in which the active rows may be returned |
| ControlPlane.Tables.SelectActive | crates/oath-registry/src/control_plane.rs:415-419 | each active version of the package exactly once, in any order |
| ControlPlane.Tables.SelectPending | crates/oath-registry/src/control_plane.rs:535-542 | the ids of undelivered rows that are due, in id order, up to the limit |
| ControlPlane.Tables.MarkOutboxDelivered | crates/oath-registry/src/control_plane.rs:544-551 | one row becomes delivered, nothing else changes |
| ControlPlane.Tables.RetryOutboxRow | crates/oath-registry/src/control_plane.rs:553-560 | one row's attempts and due time change, nothing else |
| ControlPlaneSafety.CreateStageKeepsInvariant | crates/oath-registry/src/control_plane.rs:149-196 | staging keeps ownership, uniqueness, provenance, tags, tombstones and the exact correspondence of facts and audit intents |
| ControlPlaneSafety.CreateStageCommitsExactly | crates/oath-registry/src/control_plane.rs:161-196 | staging commits if and only if the quota has room, the package is new or has this owner and visibility, and neither the id nor the version was staged before |
| ControlPlaneSafety.CreateStageKeepsQuota | crates/oath-registry/src/control_plane.rs:161-169 | no organization ever has more undecided stages than the quota allows |
| ControlPlaneSafety.StagingEffects | crates/oath-registry/src/control_plane.rs:171-194 | what staging writes: the submitted row as it is, the package if new, one intent due at once with the event's text; nothing else changes |
| ControlPlaneSafety.QuotaRefusalIsToldApart | crates/oath-registry/src/control_plane.rs:166-169 | `false` is answered if and only if the quota is full; any other refusal is an error |
| ControlPlaneSafety.StagingTakesAPlace | crates/oath-registry/src/control_plane.rs:161-165 | a staging takes one place of its own organization's quota and of no other |
| ControlPlaneSafety.DecisionFreesAPlace | crates/oath-registry/src/control_plane.rs:161-165 | a decision gives that place back, and no other organization notices |
| ControlPlaneSafety.DecideStageKeepsInvariant | crates/oath-registry/src/control_plane.rs:239-281 | deciding with an earlier reading of the stage keeps the whole invariant |
| ControlPlaneSafety.DecideStageCommitsExactly | crates/oath-registry/src/control_plane.rs:248-256 | given the invariant, a decision commits if and only if the stage is still undecided, so its inserts can never fail |
| ControlPlaneSafety.LateDecisionIsToldApart | crates/oath-registry/src/control_plane.rs:248-256 | `false` is answered if and only if the stage is unknown or decided |
| ControlPlaneSafety.DecisionEffects | crates/oath-registry/src/control_plane.rs:257-280 | an approval publishes exactly this version under the stage's digest, owner and tag and touches no other version or tag; a rejection touches none; each leaves one intent |
| ControlPlaneSafety.RevokeKeepsInvariant | crates/oath-registry/src/control_plane.rs:401-448 | revoking keeps the whole invariant, tags naming active versions included |
| ControlPlaneSafety.RevokeRollsTagsBack | crates/oath-registry/src/control_plane.rs:415-443 | after a revocation each tag that named the version names a greatest active version, or is gone when none is active, and all other tags stay |
| ControlPlaneSafety.RevocationEffects | crates/oath-registry/src/control_plane.rs:402-446 | what a revocation writes beside the tags: the version's status, the tombstone with reason, actor and signature, one intent due at once with the event's text; nothing else changes |
| ControlPlaneSafety.UnknownVersionIsToldApart | crates/oath-registry/src/control_plane.rs:402-412 | `false` is answered if and only if the version does not exist |
| ControlPlaneSafety.ActiveVersionsCanBeEnded | crates/oath-registry/src/control_plane.rs:402-446 | given the invariant, ending an active version always commits |
| ControlPlaneSafety.RepeatedRevocationAborts | crates/oath-registry/src/control_plane.rs:444-445 | ending a version again with the status it has aborts, because the outbox key is unique |
| ControlPlaneSafety.MarkKeepsInvariant | crates/oath-registry/src/control_plane.rs:544-551 | recording a delivery keeps the invariant |
| ControlPlaneSafety.RetryKeepsInvariant | crates/oath-registry/src/control_plane.rs:553-560 | rescheduling a row keeps the invariant |
| ArtifactStore.PutOneIsSafe | crates/oath-registry/src/object_backend.rs:48-65 | a write keeps every object, leaves these bytes under their digest, and is refused only when two submitted tarballs collide |
| ArtifactStore.StoresAgree | crates/oath-registry/src/object_backend.rs:48-95 | stores that share a digest share its bytes, or two submitted tarballs collide |
| ArtifactStore.ArtifactStore.PutImmutable | crates/oath-registry/src/object_backend.rs:67-74 | stores are written in order up to the first that fails, the rest untouched; success means every store holds the bytes; this settles the answer and every store (`ArtifactStore.PutEffectIsUnique`) |
| ArtifactStore.ArtifactStore.Get | crates/oath-registry/src/object_backend.rs:76-95 | the answer is that of the first store with the object, with every store before it lacking the object, the primary is repaired before the answer, and `not found` means that every store answered and none has it; an answer is given exactly when there is such a store and a repair, if needed, succeeds |
| StoreSteps.UploadIsAPut | crates/oath-registry/src/object_backend.rs:67-74 | whatever `put_immutable` may do and answer, whichever stores fail, an undisturbed worker's upload steps bring the registry there |
| StoreSteps.FetchIsAGet | crates/oath-registry/src/object_backend.rs:76-95 | whatever `get` may do and answer, whichever stores fail, an undisturbed worker's scan and repair steps bring the registry there and serve just that answer |
| RegistrySafety.WorkerOkGrows | crates/oath-registry/src/postgres_api.rs:434-820 | what a worker read earlier stays true enough whatever the others do in between |
| RegistrySafety.StepGrows | crates/oath-registry/src/postgres_api.rs:238-820 | no step of any worker deletes or rewrites a row, an event, an object of a replica or an answer |
| RegistryInvariant.AppendedIsInLog | crates/oath-registry/src/postgres_api.rs:286-288 | an append for a pending row leaves this very event under its key, even when another worker appended it first |
| RegistryInvariant.StepKeepsInvariant | crates/oath-registry/src/postgres_api.rs:238-820 | every step by any worker keeps the invariant of tables, log, stores and workers |
| RegistryRuns.RunKeepsInvariant | crates/oath-registry/src/postgres_api.rs:238-820 | the invariant holds in every state of every run, with any number of workers and replicas and a crash anywhere |
| RegistryRuns.RunGrows | crates/oath-registry/src/postgres_api.rs:238-820 | between any two points of any run rows only evolve and log, history and replicas only grow |
| RegistryRuns.DecidedAtMostOnce | crates/oath-registry/src/postgres_api.rs:570-614 | over every run a decided stage keeps its decision for ever |
| RegistryRuns.StagedVersionsStayTakenForEver | crates/oath-registry/src/control_plane.rs:186-191 | over every run a name and version once staged can never be staged again, whatever became of the stage, rejections included |
| RegistryRuns.RevocationCommitsOncePerStatus | crates/oath-registry/src/control_plane.rs:402-446 | at any point of any run a version can be ended with a status if and only if it exists and has never had that status before |
| RegistryRuns.EndedVersionsStayEnded | crates/oath-registry/src/control_plane.rs:401-409 | over every run a version row is never replaced, and one revoked or quarantined never becomes active again |
| Origins.VersionsComeFromOneStage | crates/oath-registry/src/postgres_api.rs:597-614 | in every reachable state each version was submitted by a request of the run, with this name, version, owner, visibility and record, a verdict that is not `deny`, and a tarball of this digest; it comes from exactly one stage |
| Origins.StagesAreSubmitted | crates/oath-registry/src/control_plane.rs:186-191 | in every reachable state each stage row is, up to its status, the stage of some submission of the run, and what was assessed is the tarball submitted with it |
| Origins.IntentsAreRequested | crates/oath-registry/src/control_plane.rs:192-193 | in every reachable state the text of each intent is that of the request it is about: a submission, a decision or a revocation of the run |
| Origins.TombstonesAreRequested | crates/oath-registry/src/control_plane.rs:413-414 | in every reachable state each tombstone is one that a revocation of the run asked for, with its reason, actor and signature |
| RegistryRuns.TablesStayConsistent | crates/oath-registry/src/control_plane.rs:149-448 | in every reachable state every tag names an active version, tombstones are exactly the ended versions, and no organization is over its quota |
| RegistryRuns.RevocationRollsTagsBack | crates/oath-registry/src/control_plane.rs:415-443 | tag rollback at any point of any run, with no assumption on versions: that they parse is an invariant |
| RegistryRuns.EndedVersionsAreNotServedAnew | crates/oath-registry/src/postgres_api.rs:792-807 | once a version has ended and no download of it is under way, none is ever answered again |
| RegistryRuns.AuditDeliveredExactlyOnce | crates/oath-registry/src/postgres_api.rs:238-299 | over all interleavings, crashes and retries each key is in the log at most once, every delivered row has its event there, every event is direct or comes from a row, and the chain is linked |
| RegistryRuns.DirectEventsAreRecorded | crates/oath-registry/src/postgres_api.rs:275-281 | a directly appended event is in the log afterwards with its text, or two event texts collide |
| RegistryRuns.FactsAreAudited | crates/oath-registry/src/control_plane.rs:192-445 | in every reachable state the outbox holds an intent for each stage, decision and ended version, and no other |
| RegistryRuns.KeyTextsStayDistinct | crates/oath-registry/src/postgres_api.rs:602-606 | when no version that parses holds an `@`, the keys in outbox and log at any point of any run have distinct texts |
| RegistryRuns.LogIsAppendOnly | crates/oath-registry/src/postgres_api.rs:238-273 | the log at an earlier point is a prefix of the log at any later one |
| RegistryRuns.EqualLatestHashesEqualHistories | crates/oath-registry/src/postgres_api.rs:253-259 | two runs that show the same latest hash have the same history, or two chained messages collide |
| RegistryRuns.DownloadsAreAssessed | crates/oath-registry/src/postgres_api.rs:787-820 | every body ever served is the tarball that was assessed when the version was staged, or two submitted tarballs collide |
| RegistryRuns.StagedArtifactsAreHeld | crates/oath-registry/src/postgres_api.rs:474-512 | every staged digest is held by every replica, and by the primary unless it lost it; what is held is the assessed tarball |
| RegistryRuns.StoresAlwaysAgree | crates/oath-registry/src/object_backend.rs:48-95 | at any point of any run all stores agree on every digest they share, or two submitted tarballs collide |
| RegistryRuns.PublishedIsFound | crates/oath-registry/src/object_backend.rs:76-95 | a download of an active version reports `not found` only without replicas and after the primary lost the object |
| RegistryRuns.RepairSucceeds | crates/oath-registry/src/object_backend.rs:83-89 | read repair is refused only on a collision and otherwise restores the primary and answers |
| Requests.SubmissionIsStaged | crates/oath-registry/src/postgres_api.rs:434-552 | from every reachable state a valid submission carried out by an idle worker is staged exactly as submitted, or two tarballs collide |
| Requests.StageIsDecided | crates/oath-registry/src/postgres_api.rs:570-614 | from every reachable state a decision about an undecided stage takes effect, an approval unless the verdict is `deny`: status, version row and tag are spelled out |
| Requests.VersionIsEnded | crates/oath-registry/src/postgres_api.rs:732-785 | from every reachable state ending a version with a status it never had takes effect, tombstone and intent included |
| Requests.VersionIsServed | crates/oath-registry/src/postgres_api.rs:787-820 | from every reachable state an idle worker serves an active version, unless there is no replica and the primary lost it |
| Requests.DirectEventIsLogged | crates/oath-registry/src/postgres_api.rs:275-281 | a direct append puts the event's text into the log, or two hashed messages or two event texts collide |
| Checkpoints.EarlierCheckpointsAreConsistent | crates/oath-registry/src/postgres_api.rs:910-940 | between the checkpoints of any two points of any run the proof that the later log gives is accepted |
| Checkpoints.ConsistentCheckpointsExtendHistory | crates/oath-registry/src/postgres_api.rs:850-877 | an accepted proof between the checkpoints of two linked logs means that the events of the first are the first events of the second, or two of the messages hashed collide |
| Checkpoints.RunsWithConsistentCheckpoints | crates/oath-registry/src/postgres_api.rs:850-877 | the same for the logs of any two runs, of one registry or of two |
| Checkpoints.EveryEventIsProvable | crates/oath-registry/src/postgres_api.rs:880-908 | the inclusion proof of every event is accepted against the checkpoint |
| Checkpoints.InclusionBindsEvent | crates/oath-registry/src/postgres_api.rs:880-908 | an accepted inclusion proof shows which chained message made the event at that place, or two of the messages hashed collide |
| OutboxDrain.AuditTrail.AppendEventKeyed | crates/oath-registry/src/postgres_api.rs:238-273 | one append, with a fault before or after the commit |
| OutboxDrain.AuditTrail.DrainOutbox | crates/oath-registry/src/postgres_api.rs:283-299 | the loop delivers or reschedules the due rows one by one and counts the deliveries |
| OutboxDrain.PendingAscend | crates/oath-registry/src/control_plane.rs:535-542 | the rows read are undelivered, due and in id order, so none is read twice |
| OutboxDrain.PendingMissesNothing | crates/oath-registry/src/control_plane.rs:535-542 | an undelivered due row is read, unless the limit is filled by rows before it |
| OutboxDrain.DrainReadsAHundred | crates/oath-registry/src/postgres_api.rs:283-284 | a drain reads a hundred rows at most, and with fewer than that every row that is due |
| OutboxDrain.RetriedRowWaits | crates/oath-registry/src/control_plane.rs:553-560 | a row rescheduled at some time is due from five seconds later on and not before |
| OutboxDrain.DrainSettlesRows | crates/oath-registry/src/postgres_api.rs:283-299 | each row read is settled once, delivered when its append did not fail, no other row is touched, and only a collision can refuse an append |
| OutboxDrain.DrainCountsDeliveries | crates/oath-registry/src/postgres_api.rs:283-299 | the count returned is the number of rows delivered, and a row whose append failed is not among them but rescheduled |
| OutboxDrain.DrainLogsInOrder | crates/oath-registry/src/postgres_api.rs:286-288 | the events a drain adds to the log are those of its rows, texts and all, in the order of the rows |
| OutboxDrain.DrainIsARun | crates/oath-registry/src/postgres_api.rs:283-299 | the loop is one of the registry's runs: an undisturbed worker's steps have its effect |
| Delivery.EveryIntentCanBeDelivered | crates/oath-registry/src/postgres_api.rs:283-299 | from every reachable state with an idle worker, time and this worker's fault-free drains lead to a state where every outbox row is delivered with its event in the log, or the message of an undelivered row collides |
| KeyCreation.StepKeepsInvariant | crates/oath-registry/src/lib.rs:176-213 | no step of any caller changes an existing key, and inodes that may still be written are private |
| KeyCreation.KeyNeverChanges | crates/oath-registry/src/lib.rs:176-213 | once the key path exists it holds the same bytes for ever, for any number of callers, failures and crashes |
| KeyCreation.SuccessfulCallersAgree | crates/oath-registry/src/lib.rs:207-212 | every caller that succeeds returns exactly the bytes at the key path |
| KeyCreation.CreatedKeysAreComplete | crates/oath-cli/src/exec_assessment.rs:151-188 | a key path that was absent at the start only ever holds all 32 bytes that some caller drew, never a part |
| KeyCreation.UndisturbedCallSucceeds | crates/oath-cli/src/publish_assessment.rs:114-151 | a caller left alone finishes: it reads an existing key, or creates one and leaves only the key path behind |
| KeyCreation.WrongLengthIsInvalid | crates/oath-registry/src/lib.rs:177-182 | an existing key of another length than 32 bytes is answered as an invalid key |
| KeyProgress.CallerFinishes | crates/oath-registry/src/lib.rs:176-213 | whatever the others do in between, a caller that neither fails nor crashes is done after at most 39 steps of its own |
| KeyProgress.AlwaysAStep | crates/oath-registry/src/lib.rs:176-213 | in every state a caller that is not done has a step that brings it nearer its end: there is nothing to wait for |
| KeyProgress.CallerSucceedsExactly | crates/oath-registry/src/lib.rs:176-213 | such a caller has a key in the end if and only if the key path was free or held 32 bytes at first and its temporary name was free when it was needed, whatever the others did |
| KeyProgress.FinishedFilesAreRemoved | crates/oath-registry/src/lib.rs:206-212 | a caller that has finished its temporary file removes it whatever linking and reading give; only a crash or a failed removal prevents that |
| KeyCreation.Disk.WriteAll | crates/oath-registry/src/lib.rs:203-203 | however the writes are cut, the file ends up with the whole key |
| KeyCreation.Disk.LoadOrCreate | crates/oath-registry/src/lib.rs:176-213 | the call as one program: an existing key is left alone, a rival's link wins, the temporary name is gone |
| DependencyPath.FindDepPath | crates/oath-cli/src/main.rs:1946-1982 | terminates on cyclic graphs; a non-empty result is a shortest reverse-dependency chain from a parentless package to a direct parent of the start; it is empty if and only if there is none; of several shortest chains it is the first in the order in which parents are listed |
| DependencyPath.RootChainExactly | crates/oath-cli/src/main.rs:1961-1971 | what such a chain is, link by link: nothing depends on its first element, each element depends directly on the next, the last on the start |
| DependencyPath.ShortestFound | crates/oath-cli/src/main.rs:1967-1971 | the first root met gives a chain that no other chain to a root undercuts |
| Peers.BuildParentMap | crates/oath-resolve/src/resolver.rs:674-685 | the map lists exactly the direct dependents of each key, in whatever order the hash maps are walked |
| Peers.DependsOnExactly | crates/oath-resolve/src/resolver.rs:672-683 | dependents are found by the keys packages have for their dependencies, not by the names they have them under |
| Peers.FindPeerInContext | crates/oath-resolve/src/resolver.rs:694-765 | the answer comes from a lister of the lowest rank (direct dependents, then the roots in their order, then their dependents, and so on upward), else from the first root that carries the name, else there is none; terminates on cycles |
| Peers.FindPeerAmongRoots | crates/oath-resolve/src/resolver.rs:748-764 | the first root that goes by the peer's name or alias decides |
| Peers.MissingExactly | crates/oath-resolve/src/resolver.rs:694-765 | missing if and only if nothing in the upward closure lists the peer and no root carries its name |
| Peers.NearestListersAre | crates/oath-resolve/src/resolver.rs:704-716 | direct dependents of the package decide before anything else; if none of them lists the peer, the first root that does |
| Peers.FoundSatisfies | crates/oath-resolve/src/resolver.rs:728-760 | a key is found if and only if it is what a nearest lister has, or with no lister the first root carrying the peer, and the version in it (of the root: its own) satisfies the range |
| Peers.ConflictExplains | crates/oath-resolve/src/resolver.rs:728-760 | a conflict with a version is answered if and only if such a key has this very version and it does not satisfy the range |
| Peers.VersionOfKeyExactly | crates/oath-resolve/src/resolver.rs:767-776 | the version of `name@version` is the part behind the `@`, scoped names included; a key without `@` behind its first character is its own version |
| Peers.RootCarriesExactly | crates/oath-resolve/src/resolver.rs:746-752 | a root carries a peer if and only if its alias or its name is the peer's name |
| PeerPass.DepGraph.ResolvePeers | crates/oath-resolve/src/resolver.rs:780-843 | one search per declared peer; every answer is one that the graph at the start allows, though the graph changes meanwhile |
| PeerPass.EveryPeerReportedOnce | crates/oath-resolve/src/resolver.rs:800-840 | each of the four lists is exactly the requests that belong there, one entry each in their order; so each declared peer is in exactly one list and mentioned nowhere else |
| PeerPass.EntriesExactly | crates/oath-resolve/src/resolver.rs:798-840 | entry by entry: found peers are listed with their key, missing ones with the declared range unless the package calls them optional, conflicts with range and version; nothing else is listed |
| PeerPass.OptionalNamesExactly | crates/oath-resolve/src/resolver.rs:812-815 | a name is among the optional missing peers if and only if some package declares it optional and misses it |
| PeerPass.ResolvedExactly | crates/oath-resolve/src/resolver.rs:803-807 | resolved peers are written exactly for the satisfied requests and nothing else of the graph changes |
| PeerPass.EveryDeclaredPeerIsSettled | crates/oath-resolve/src/resolver.rs:780-843 | for every declared peer there is one allowed outcome, reported in its list and in no other, and written to the graph exactly when satisfied |
| PeerPass.MissingDoesNotDependOnOrder | crates/oath-resolve/src/resolver.rs:694-765 | whatever order the hash maps give, the same peers are missing |
| Lockfile.FromGraph | crates/oath-resolve/src/lockfile.rs:102-144 | the loop over the nodes records each of them; roots come out sorted without duplicates |
| Lockfile.ToGraph | crates/oath-resolve/src/lockfile.rs:181-209 | the loop over the packages restores each of them |
| Lockfile.KeyNameExactly | crates/oath-resolve/src/lockfile.rs:212-227 | for every name and every version text the name read back from `name@version` is right if and only if, the version holding `node_modules/`, the location after its last one has this name, or else the name is not empty and holds no `node_modules/`, and the version holds no `@` |
| Lockfile.PlainUrlNamesPackage | crates/oath-resolve/src/lockfile.rs:229-245 | `base/name/-/file` gives the name |
| Lockfile.ScopedUrlNamesPackage | crates/oath-resolve/src/lockfile.rs:229-245 | `base/@scope/package/-/file` gives the scoped name |
| Lockfile.EncodedUrlNamesPackage | crates/oath-resolve/src/lockfile.rs:229-245 | `base/@scope%2fpackage/-/file`, in either case of the escape, gives the scoped name |
| Lockfile.NoNameBehindQuery | crates/oath-resolve/src/lockfile.rs:229-234 | a URL whose every `/-/` stands behind a `?` or `#` gives no name |
| Strings.LessExactly | crates/oath-resolve/src/lockfile.rs:131-133 | roots are ordered by the bytes of their UTF-8 texts, which is the order of their characters: the first that differs decides by its code point, and a proper prefix comes first |
| LockfileRoundTrip.NameExactly | crates/oath-resolve/src/lockfile.rs:76-87 | a name survives under any other key, and under the canonical key if and only if the tarball URL does not name another package or, there being none, the key splits back (`Lockfile.SplitsBack`); for any version text |
| LockfileRoundTrip.RoundTripExactly | crates/oath-resolve/src/lockfile.rs:102-209 | writing and reading back gives the graph with its optional peers cleared, and writing again the same packages, if and only if every name survives, for every graph |
| LockfileRoundTrip.RegistryGraphsRoundTrip | crates/oath-resolve/src/lockfile.rs:102-209 | every graph whose canonically keyed nodes have their own registry URL, or none and a key that splits back, makes the round trip; other nodes may be anything |
| LockfileRoundTrip.ForeignTarballRenames | crates/oath-resolve/src/lockfile.rs:76-87 | a concrete node whose URL names another package is read back under the other name |
| LockfileRoundTrip.MarkedVersionRenames | crates/oath-resolve/src/git.rs:397-397 | a git package's version is any text: `left` at version `node_modules/x` is read back as `x` |
| LockfileRoundTrip.SlashedVersionSurvives | crates/oath-resolve/src/git.rs:397-397 | a slash alone does no harm: `left` at version `2024/05` comes back |
| LockfileRoundTrip.UnscopedLocationName | crates/oath-resolve/src/lockfile.rs:212-221 | a location key gives an unscoped package's name |
| LockfileRoundTrip.ScopedLocationLosesCharacter | crates/oath-resolve/src/lockfile.rs:213-219 | a location key always gives a scoped package's name without its last character |
| LockfileRoundTrip.LocationNameExactly | crates/oath-resolve/src/lockfile.rs:212-221 | over all well-formed names, a location key gives the name if and only if it is unscoped |
| ShellQuote.ShellQuoteArg | crates/oath-cli/src/main.rs:1759-1796 | the loop over the characters builds the quoted form |
| ShellQuote.ShellQuoteArgs | crates/oath-cli/src/main.rs:1752-1757 | the quoted list is read back by the shell as exactly the arguments |
| ShellQuote.ShellUndoesQuoting | crates/oath-cli/src/main.rs:1752-1796 | tokenizing by sections 2.2 and 2.3 of the Shell Command Language yields one word per argument, none subject to expansion, nothing else, for every list of strings |
| ShellQuote.PlainArgumentsStay | crates/oath-cli/src/main.rs:1759-1783 | an argument is left as it is if and only if it is not empty and holds only letters, digits and ten marks; any other stands between single quotes |
| ShellQuote.ArgumentsArriveExactly | crates/oath-cli/src/main.rs:1726-1730 | appended to a command that scans to its end, the shell's tokens are the command's own followed by exactly the arguments if and only if the command does not end in a comment |
| ShellQuote.CommentedCommandsLoseArguments | crates/oath-cli/src/main.rs:1726-1730 | every command can be followed by a comment, and then reads as before and loses any arguments appended |
| ShellQuote.HereDocumentsAreRejected | crates/oath-cli/src/main.rs:1726-1730 | an unquoted `<<` puts a command outside the tokenizer's fragment, so no claim is made about here-documents |
| Calendar.DayCountFollowsTheCalendar | crates/oath-fetch/src/metadata.rs:189-203 | the reference count is 0 at the epoch and grows by one from each date to the next |
| Calendar.DaysFromDateExactly | crates/oath-fetch/src/metadata.rs:190-203 | the closed form is the day count for every date, except one day too many in March-based years before 0 that are no leap years |
| Calendar.DaysFromDateFollowsTheCalendar | crates/oath-fetch/src/metadata.rs:190-203 | from year 1 on: 0 at 1970-01-01, and one less than the next day's for each date |
| Calendar.ApproximateDays | crates/oath-cli/src/main.rs:4003-4018 | for every valid date from 1970 the approximate count exceeds the true one by the number of century years before it, from 1970, that are no leap years |
| Calendar.ExactThrough2100 | crates/oath-cli/src/main.rs:4003-4018 | that excess is zero if and only if the year is at most 2100 |

## Left out

- HTTP routing, authentication, authorization, OIDC, billing, email, metrics and the website: plumbing around the modelled core.
- SHA-256, Ed25519, base64, gzip and tar: abstract functions; `SignedJson.SignatureBindsMeaning` states what it needs of the scheme for one key and two messages.
- Interleavings inside one SQL transaction under READ COMMITTED: `revoke_version` takes no package-wide lock, so the tag results are about atomic transactions.
- Foreign keys to organizations, package roles, download counts, rate limits and invitations.
- The assessment of a tarball: its verdict, evidence and bill of materials are values carried along; only "deny" matters here.
- JSONB normalization of event texts: the text appended is the one read back from the outbox row.
- The key of an event is not covered by the chain hash; the results about histories speak of event texts.
- The signature column of the event log and of tombstones.
- Floating-point numbers in canonical JSON: contracts use integers only, and their machine width is not modelled since the printer does not depend on it.
- Duplicate keys in a JSON object: the source's map type cannot hold them, so values are `WellFormed`.
- 32-bit platforms: `usize` has 64 bits.
- Power loss: `sync_all` and file modes have no effect in `KeyCreation`; a crash ends a process, not the file system.
- Build metadata of versions: `SemVer` compares by precedence only, as the library's order does; the library itself is not part of this model.
- MerkleTree.ComputeSplitPoint: stated for lengths up to 2^63, since `MerkleTree.SplitPointLoopExits` shows that the loop has no other result.
- Lockfile: the name functions work on characters; for a scoped location key that ends in a multi-byte character the source's byte slice would panic instead.
- ShellQuote.ArgumentsArriveExactly: commands that use parameter expansion, command substitution or a here-document (section 2.7.4 of the Shell Command Language) are rejected by the tokenizer, and nothing is claimed of them. A command whose last line is a here-document delimiter would lose the arguments too.
- ShellQuote: the shell's grammar above tokens, such as what a redirection operator, a reserved word or an assignment makes of the next word. After a command such as "build;", or one that ends in a newline, the arguments arrive as tokens but become a command of their own.
- Calendar.ApproximateDays: the unsigned underflow for years before 1970 and for day 0 is reported as no result; the time of day is not modelled.
- The resolver's network half, semver range matching (any predicate), the placement planner, the content store, the linker and the sandbox back ends.
- Safety scoring, policy merging, tarball limits, package-lock import and transfer capsules: single-branch or finite members.
