# A verified model of the DNSid transparency-log verifier

This project models the parts of DNSid that decide what a client may trust, and
proves what they are for. It covers the `c2sp-tlog` log verifier (Merkle
algorithms, hash tiles, checkpoint trust, lifecycle streams, migrations, witness
quorums, JSON limits, entry bundles) and, from the protocol and SDK packages, the
snapshot of a domain's history, shared verification work, crash-safe issuance,
duplicate-member scanning and the TXT record.

| file | contents |
|---|---|
| `Common.dfy` | result types, safe integers, white space |
| `Merkle.dfy` | the tree of section 2.1 of RFC 6962 over an ideal hash; the level-by-level root |
| `Inclusion.dfy` | audit paths and the bottom-up inclusion check |
| `Consistency.dfy` | consistency proofs and the index-shifting check of section 2.1.4.2 of RFC 9162 |
| `Tiles.dfy` | base-256 hash tiles, their authentication, and the root of a trusted prefix |
| `Entries.dfy` | indexed entries, the sort by index, filters and cutoffs |
| `CheckpointTrust.dfy` | one checkpoint advance, the store, and all interleavings of its clients |
| `Lifecycle.dfy`, `LifecycleTheorems.dfy` | events, signatures and the lifecycle replay; what an accepted lifecycle is, said of the list alone |
| `Stream.dfy`, `StreamTheorems.dfy` | the incremental stream verifier and its laws |
| `Snapshot.dfy`, `SnapshotTheorems.dfy` | the snapshot state machine, the bundle summary, migration stitching; the snapshot at any time |
| `Reader.dfy` | the migration recursion across logs and its shared budget |
| `MigrationTheorems.dfy` | references in their own logs; exactly when histories load, migrate and stitch |
| `Quorum.dfy` | nested witness thresholds |
| `Sharing.dfy` | the identity cache and shared in-flight verification |
| `Issuance.dfy` | managed issuance as a durable, crash-recoverable workflow |
| `Json.dfy` | the nesting and duplicate-member scanners against the syntax tree |
| `TxtRecord.dfy` | the TXT record: reading, serialized form, canonical form |
| `Bundles.dfy` | entry bundles and the complete scan |

Three conventions run through the model.

*Hashes are ideal.* A digest is a datatype value that remembers what was hashed,
so distinct inputs have distinct digests; bytes that are the digest of nothing
known are `Opaque`. Event ids, thumbprints, state hashes and entry hashes are
injective in the same way. Signatures are an arbitrary predicate over key,
payload and signature text.

*Loops stay loops.* An algorithm that the program writes with mutable variables
is a method, proved equal to a function or a predicate; the theorems are then
about that function. Objects with mutable fields are classes. Exceptions are
values of an option or result type.

*Protocols are transition systems.* Where the program awaits, the model has a
step; a theorem about a protocol ranges over every run, with any number of
clients, callers or crashes.

Two promises of the program hold only under a condition.

An inclusion path accepted for an index does not prove that the entry has that
index, because the loop does not check the length of the path:
`Inclusion.IndexClaimFails` gives an input and `Inclusion.IndexClaimExact` the
exact condition on index, size and length. Membership in the log holds always. The
documentation comment of `verifyInclusion` speaks of the entry "at `index`"; the
model follows the code.

A reference accepted for an event of a prior history does not always lie in the
log that the later MIGRATIONs fix, because outside the c2sp-tlog method only the
method of the two references is compared, and a migration hook may supply such a
history: `MigrationTheorems.OwnLogFails` gives an input and
`MigrationTheorems.OwnLogExact` the exact condition on the logs of the chain. What
a reader loads without a hook always meets it (`MigrationTheorems.LoadOwnLogs`).

## Model

| member | source | states |
|---|---|---|
| `Merkle.SplitPointExact` | packages/log-c2sp-tlog/src/hash-tiles.ts:73-74 | a number is the split point of n exactly when it is a power of two k with k < n ≤ 2k |
| `Merkle.MthPair` | packages/log-c2sp-tlog/src/merkle.ts:52-58 | joining one level, an odd last hash promoted, leaves the recursive tree head of section 2.1 of RFC 6962 unchanged, for every non-empty list |
| `Merkle.JoinLevel` | packages/log-c2sp-tlog/src/merkle.ts:53-56 | the inner loop produces exactly the next level |
| `Merkle.MerkleRootFromEntries` | packages/log-c2sp-tlog/src/merkle.ts:49-60 | the level-by-level loop returns the recursive tree head of every list of entries, the empty one included |
| `Merkle.MthInjective` | packages/log-c2sp-tlog/src/merkle.ts:10-18 | two lists of the same length with the same head are the same list |
| `Merkle.RootInjective` | packages/log-c2sp-tlog/src/merkle.ts:10-18 | a root commits to its entries whatever the two sizes are: equal roots mean equal lists, thanks to the leaf and node prefixes |
| `Inclusion.InclusionRoot` | packages/log-c2sp-tlog/src/merkle.ts:26-41 | the loop throws exactly for an index or size out of range, and otherwise computes the climb from the leaf |
| `Inclusion.VerifyInclusion` | packages/log-c2sp-tlog/src/merkle.ts:44-46 | the result is the acceptance predicate the theorems are about |
| `Inclusion.AuditPathPair` | packages/log-c2sp-tlog/src/merkle.ts:33-38 | the audit path of section 2.1.1 of RFC 6962 is one bottom sibling, or none for a promoted node, followed by the audit path one level up |
| `Inclusion.ClimbAuditPath` | packages/log-c2sp-tlog/src/merkle.ts:26-41 | completeness: the audit path of every leaf recomputes the head, for every index and size |
| `Inclusion.ClimbSound` | packages/log-c2sp-tlog/src/merkle.ts:26-41 | soundness at the right length: a climb of that length reaches the head only from the leaf itself by its own audit path |
| `Inclusion.InclusionExact` | packages/log-c2sp-tlog/src/merkle.ts:26-46 | what is accepted for a path of any length: exactly the audit path of the leaf that the path length really leads to, with that leaf as the entry |
| `Inclusion.InclusionMembership` | packages/log-c2sp-tlog/src/merkle.ts:26-46 | an accepted path of any length proves that the entry is in the log |
| `Inclusion.InclusionAtIndex` | packages/log-c2sp-tlog/src/merkle.ts:26-46 | with a path of the length the position calls for, acceptance holds exactly for the entry at that index and its audit path |
| `Inclusion.ReachedOwn` | packages/log-c2sp-tlog/src/merkle.ts:33-39 | a position leads to its own leaf exactly at the length of its audit path |
| `Inclusion.IndexClaimExact` | packages/log-c2sp-tlog/src/merkle.ts:26-46 | acceptance fixes the index for every log exactly when the path length leads to that leaf or to no leaf |
| `Inclusion.IndexClaimFails` | packages/log-c2sp-tlog/src/merkle.ts:26-46 | the loop has no length check: a three-entry log, index 1 and a one-node path for which the entry of index 2 is accepted |
| `Consistency.VerifyConsistencyProof` | packages/log-c2sp-tlog/src/checkpoint-trust.ts:162-210 | the nested shifting loops decide the acceptance predicate, all early rejections included |
| `Consistency.WalkExact` | packages/log-c2sp-tlog/src/checkpoint-trust.ts:193-209 | from node fn of a level, the loop ends at the head of the level exactly when its proof is that node's remaining audit path, and the old head is then the head of the level cut at fn |
| `Consistency.SubProofEven` | packages/log-c2sp-tlog/src/checkpoint-trust.ts:178-181 | for an even old size the sub-proof of section 2.1.2 of RFC 6962 is that of its half one level up, so shifting trailing ones away loses nothing |
| `Consistency.SubProofOdd` | packages/log-c2sp-tlog/src/checkpoint-trust.ts:182-192 | for an odd old size it is the last old leaf followed by that leaf's audit path |
| `Consistency.BeginExact` | packages/log-c2sp-tlog/src/checkpoint-trust.ts:176-192 | both starts, the power-of-two one from the old root and the other from the first proof node, are exact |
| `Consistency.ConsistencyExact` | packages/log-c2sp-tlog/src/checkpoint-trust.ts:162-210 | soundness and completeness: against the head of any list of entries, for every old size, a proof is accepted exactly when it is the proof of RFC 6962 and the old root is the head of the first m entries |
| `Tiles.Fold` | packages/log-c2sp-tlog/src/hash-tiles.ts:71-77 | folding equal-height hashes with a smaller right-hand subtree gives the recursive head of the hashes followed by that subtree |
| `Tiles.MthChunks` | packages/log-c2sp-tlog/src/hash-tiles.ts:71-77 | replacing consecutive runs of q hashes, q a power of two, by their heads keeps the head |
| `Tiles.MthTops` | packages/log-c2sp-tlog/src/hash-tiles.ts:43-48 | one base-256 digit of the root computation keeps the head of what is still to be folded |
| `Tiles.TileClient.constructor` | packages/log-c2sp-tlog/src/hash-tiles.ts:15-16 | no tile read and none authenticated |
| `Tiles.TileClient.Get` | packages/log-c2sp-tlog/src/hash-tiles.ts:18-38 | a tile is read once, cut to its width in the candidate tree, with the fallback from a missing partial tile to the full one, and cached unchanged |
| `Tiles.ServedExact` | packages/log-c2sp-tlog/src/hash-tiles.ts:21-35 | in terms of the raw responses: a tile is read exactly when the server gives it out at its level, index and width, or answers that it has no partial tile and gives out a full one that starts with it |
| `Tiles.TileClient.RootOf` | packages/log-c2sp-tlog/src/hash-tiles.ts:41-50 | the digit loop computes the base-256 root and caches exactly the frontier tiles of the size |
| `Tiles.TileClient.Authenticate` | packages/log-c2sp-tlog/src/hash-tiles.ts:56-65 | the parent recursion terminates, succeeds exactly for authentic tiles, marks them, and leaves no new tile unauthenticated |
| `Tiles.TileClient.Run` | packages/log-c2sp-tlog/src/hash-tiles.ts:51-67 | the whole run, with its growing tile map, returns exactly what the specification of the run gives, or throws exactly when that is undefined |
| `Tiles.NarrowIsFrontier` | packages/log-c2sp-tlog/src/hash-tiles.ts:56-63 | every tile narrower than 256 is a frontier tile, so the rule that only full tiles have parents rejects no honest tile |
| `Tiles.RootFromHonest` | packages/log-c2sp-tlog/src/hash-tiles.ts:41-50 | from honest tiles the digit loop gives the head of every prefix, from every level and carried suffix |
| `Tiles.RootFromPins` | packages/log-c2sp-tlog/src/hash-tiles.ts:51-53 | whatever was served, reproducing the candidate root forces every frontier tile, as far as it is used, to be the honest one |
| `Tiles.AuthenticIsHonest` | packages/log-c2sp-tlog/src/hash-tiles.ts:56-65 | once the frontier is honest, every authenticated tile is |
| `Tiles.PrefixRootSound` | packages/log-c2sp-tlog/src/hash-tiles.ts:9-68 | for any bytes served: if the run returns under the root of a list, the result is the root of its first trustedSize entries |
| `Tiles.PrefixRootComplete` | packages/log-c2sp-tlog/src/hash-tiles.ts:9-68 | a server whose responses are the tiles of the log, each under its own level, index and width, lets the root of every prefix be recomputed |
| `Tiles.GrownServerHonest` | packages/log-c2sp-tlog/src/hash-tiles.ts:26-30 | a server that has meanwhile grown, and answers with full tiles where partial ones are gone, still gives out every tile of the shorter log |
| `Entries.SortPermuted` | packages/log-c2sp-tlog/src/stream-verifier.ts:189 | sorting by index does not depend on the order of arrival when the indexes differ |
| `Entries.SortStable` | packages/log-c2sp-tlog/src/stream-verifier.ts:189 | entries with the same index keep the order in which they came |
| `Entries.SortKeep` | packages/log-c2sp-tlog/src/reader.ts:446 | filtering before or after the sort by index is the same |
| `Entries.KeepUpTo` | packages/log-c2sp-tlog/src/reader.ts:446 | the entries up to an index are a prefix of the sorted ones |
| `CheckpointTrust.VerifyCompleteEntriesPrefix` | packages/log-c2sp-tlog/src/checkpoint-trust.ts:259-267 | the scan is accepted exactly when its first entries carry indexes 0 to n − 1 and hash to the checkpoint |
| `CheckpointTrust.VerifyCheckpointAdvance` | packages/log-c2sp-tlog/src/checkpoint-trust.ts:213-257 | the verdict, with its rollback, fork and inconsistency cases in order of precedence, is the decision the theorems are about |
| `CheckpointTrust.RefusalExact` | packages/log-c2sp-tlog/src/checkpoint-trust.ts:220-228 | when the verdict is a bad scan, a rollback or a fork, in terms of sizes, roots and the lists a scan shows; a first checkpoint is accepted exactly when no scan contradicts it |
| `CheckpointTrust.GrowthExact` | packages/log-c2sp-tlog/src/checkpoint-trust.ts:229-256 | for growth to the head of a list, with each kind of evidence: accepted, inconsistent, unavailable or missing, exactly as the old root is that of the prefix and the proof is the one of RFC 6962 |
| `CheckpointTrust.AdvanceSound` | packages/log-c2sp-tlog/src/checkpoint-trust.ts:213-267 | for all three kinds of evidence: an accepted advance to the head of a list means the previous checkpoint is the head of a prefix of it |
| `CheckpointTrust.AdvanceComplete` | packages/log-c2sp-tlog/src/checkpoint-trust.ts:213-267 | honest growth is accepted with any one honest kind of evidence, a complete scan in any order |
| `CheckpointTrust.CheckpointStore.constructor` | packages/log-c2sp-tlog/src/checkpoint-trust.ts:77 | an empty store |
| `CheckpointTrust.CheckpointStore.Load` | packages/log-c2sp-tlog/src/checkpoint-trust.ts:79-83 | returns the stored checkpoint of an origin, well formed and its own, or fails on an empty origin |
| `CheckpointTrust.CheckpointStore.CompareAndSwap` | packages/log-c2sp-tlog/src/checkpoint-trust.ts:85-96 | replaces the checkpoint of one origin exactly when all four stored fields equal the expected ones, throws exactly on malformed arguments, and keeps the store well formed |
| `CheckpointTrust.InvStep` | packages/log-c2sp-tlog/src/checkpoint-trust.ts:141-153 | every step of every client keeps the invariant, and a stored checkpoint changes only into one that some accepted evidence extends |
| `CheckpointTrust.AppendOnlyTrust` | packages/log-c2sp-tlog/src/checkpoint-trust.ts:76-155 | over every run of any number of clients, lost races and restored values included: if the checkpoint now stored for an origin is the head of a list, every earlier one was the head of a prefix; no origin is forgotten, sizes never shrink, one size never has two roots |
| `CheckpointTrust.HonestAdvance` | packages/log-c2sp-tlog/src/checkpoint-trust.ts:141-153 | a client with honest evidence, or with none for a first checkpoint, that loads, verifies and swaps undisturbed stores its checkpoint and touches no other origin |
| `Lifecycle.VerifyLifecycle` | packages/log-c2sp-tlog/src/stream-verifier.ts:289-371 | the loop with its mutable keys and state equals the recursive replay, failure kinds included |
| `Lifecycle.PrefixClosed` | packages/log-c2sp-tlog/src/stream-verifier.ts:289-371 | every non-empty prefix of an accepted lifecycle is accepted |
| `Lifecycle.StepAt` | packages/log-c2sp-tlog/src/stream-verifier.ts:289-371 | each event of an accepted lifecycle was accepted as genesis or as a continuation of the replay before it |
| `Lifecycle.AcceptedShape` | packages/log-c2sp-tlog/src/stream-verifier.ts:296-316 | the sequence number is the position, genesis types occur only first, nothing follows a terminal event, and each event names the id of the one before |
| `Lifecycle.ChainDeterminism` | packages/log-c2sp-tlog/src/stream-verifier.ts:430-442 | two accepted lifecycles, under any options, whose last events have the same id have the same length and the same signed payload at every position |
| `LifecycleTheorems.LifecycleExact` | packages/log-c2sp-tlog/src/stream-verifier.ts:289-371 | acceptance is an if-and-only-if over the list alone: at every position the event is in time, chained by number, predecessor and state, not after an end, and signed in every role its type demands by the key in force there, which is read off the events before it; the final keys and state are those the list shows |
| `LifecycleTheorems.MigrationFailedExact` | packages/log-c2sp-tlog/src/stream-verifier.ts:331-334 | the migration verifier is to blame exactly when it refuses a MIGRATION that is otherwise in order up to that point |
| `LifecycleTheorems.RolesExact` | packages/log-c2sp-tlog/src/stream-verifier.ts:258-275 | authenticated, role by role: every demanded role is signed under the id of a usable key and valid under that key, and there is no other signature |
| `LifecycleTheorems.DecodesExact` | packages/log-c2sp-tlog/src/event-codec.ts:155-161 | what the codec accepts, role by role |
| `Stream.VerifyStreamLifecycle` | packages/log-c2sp-tlog/src/stream-verifier.ts:166-255 | the loop with its selected list, applied map and cached keys equals the fold of one-round functions |
| `Stream.ScanPrefix` | packages/log-c2sp-tlog/src/stream-verifier.ts:189-252 | a scan of k + 1 entries is one round after the scan of k entries, and a failure is final |
| `StreamTheorems.RoundConsistent` | packages/log-c2sp-tlog/src/stream-verifier.ts:189-252 | every round keeps the incremental variables in agreement with a replay of what was selected, and changes them only by appending its own entry |
| `StreamTheorems.ScanConsistent` | packages/log-c2sp-tlog/src/stream-verifier.ts:189-252 | the agreement holds after every scan |
| `StreamTheorems.ScanGrows` | packages/log-c2sp-tlog/src/stream-verifier.ts:189-252 | later rounds only append, and only entries that come later |
| `StreamTheorems.StreamPermuted` | packages/log-c2sp-tlog/src/stream-verifier.ts:166-255 | the outcome is the same for every order of arrival, if indexes are distinct |
| `StreamTheorems.SkippedExactly` | packages/log-c2sp-tlog/src/stream-verifier.ts:189-231 | an entry is left aside exactly when it is unreadable or foreign, a copy of an applied payload, no genesis before genesis, or not authenticated after it |
| `StreamTheorems.StreamIgnoresSkipped` | packages/log-c2sp-tlog/src/stream-verifier.ts:189-252 | dropping any set of skipped entries leaves the outcome unchanged |
| `StreamTheorems.StreamIgnoresForeign` | packages/log-c2sp-tlog/src/stream-verifier.ts:193-200 | in particular all entries of other domains or streams and all unreadable ones |
| `StreamTheorems.StreamIgnoresUnauthenticated` | packages/log-c2sp-tlog/src/stream-verifier.ts:208-211 | for distinct indexes, removing at once every later entry of the domain whose roles do not all verify under the authority it must answer to leaves the outcome unchanged |
| `StreamTheorems.StreamSound` | packages/log-c2sp-tlog/src/stream-verifier.ts:166-255 | every reported event is an entry of the input at its own index, for the domain, and the reported list replays |
| `StreamTheorems.StreamLawful` | packages/log-c2sp-tlog/src/stream-verifier.ts:166-255 | every reported list is a lawful lifecycle, every reported event is for the domain and the log and carries exactly the signatures its type demands |
| `StreamTheorems.HonestStream` | packages/log-c2sp-tlog/src/stream-verifier.ts:166-255 | completeness: a lawful lifecycle whose events decode is reported in full, in any order of arrival and among any unreadable or foreign entries |
| `StreamTheorems.RoundAppends` | packages/log-c2sp-tlog/src/stream-verifier.ts:203-251 | a new event of the domain that decodes, verifies under the authority it must answer to and continues the replay is appended |
| `StreamTheorems.AddressedExact` | packages/log-c2sp-tlog/src/stream-verifier.ts:193-200 | which entries a scan looks at |
| `StreamTheorems.AuthorityExact` | packages/log-c2sp-tlog/src/stream-verifier.ts:208-211 | an entry answers to the keys in force after the reported event it names as predecessor, or else to those in force now |
| `StreamTheorems.StreamLimits` | packages/log-c2sp-tlog/src/stream-verifier.ts:167 | too many entries or bytes are refused |
| `StreamTheorems.StreamComplete` | packages/log-c2sp-tlog/src/stream-verifier.ts:208-252 | every post-genesis entry whose roles all verify under the selected authority is reported, by its signed payload |
| `StreamTheorems.ReportedSuffice` | packages/log-c2sp-tlog/src/stream-verifier.ts:166-255 | verifying only the entries that carry the reported events reports the same |
| `StreamTheorems.StreamAuthority` | packages/log-c2sp-tlog/src/stream-verifier.ts:233-251 | the keys cached after every reported event are those of a replay up to that event |
| `StreamTheorems.CutSelection` | packages/log-c2sp-tlog/src/reader.ts:446-447 | scanning the entries up to an index selects the events up to that index |
| `StreamTheorems.CutoffIsPrefix` | packages/log-c2sp-tlog/src/stream-bundle.ts:247 | if the full entries are accepted and genesis lies at or before the cutoff, the cut entries are accepted with exactly the reported events up to the cutoff |
| `StreamTheorems.LaterCopiesIgnored` | packages/log-c2sp-tlog/src/stream-verifier.ts:203-207 | adding later copies of reported payloads, with any signatures, changes nothing |
| `Snapshot.SnapshotAt` | packages/protocol/src/verified-domain.ts:141-269 | the loop of the snapshot equals its step-by-step specification |
| `Snapshot.WalkAfterAll` | packages/protocol/src/verified-domain.ts:141-269 | from the latest timestamp on, the snapshot time no longer matters |
| `SnapshotTheorems.SnapshotExact` | packages/protocol/src/verified-domain.ts:141-269 | for every time: a snapshot succeeds exactly when the events up to the time are a leading part, that part is an identity history of the domain, and all later events are of the domain; it shows those events, their status, the key last bound and when, and the governance id of the ISSUANCE |
| `SnapshotTheorems.SnapshotIsPrefix` | packages/protocol/src/verified-domain.ts:162-171 | the snapshot at a time is the last snapshot of the events up to it |
| `SnapshotTheorems.SnapshotNeedsPrefix` | packages/protocol/src/verified-domain.ts:162-171 | a time that leaves out an event but not a later one has no snapshot |
| `Snapshot.SnapshotThumb` | packages/protocol/src/verified-domain.ts:141-269 | the snapshot's active thumbprint is the last one introduced, and its events are the history |
| `Snapshot.ActiveOperationalThumbprint` | packages/log-c2sp-tlog/src/stream-bundle.ts:335-349 | the loop finds the thumbprint of the last event that introduced an operational key |
| `Snapshot.AgreeStep` | packages/log-c2sp-tlog/src/stream-verifier.ts:444-458 | one accepted event moves the snapshot and the replay to states that still agree |
| `Snapshot.ThreeAccounts` | packages/log-c2sp-tlog/src/stream-bundle.ts:328-349 | for every accepted lifecycle of one domain that starts with ISSUANCE the snapshot succeeds, and its state, active key and thumbprint equal those of the replay, of the bundle summary and of the bundle's active thumbprint |
| `Snapshot.ValidatePriorHistoryReferences` | packages/log-c2sp-tlog/src/stream-verifier.ts:101-147 | the backwards loop accepts exactly the references of which each passes for the log fixed by the later MIGRATIONs (same method, and for c2sp-tlog an entry of the very log) and each boundary is the signed one |
| `Snapshot.StitchedAccounts` | packages/log-c2sp-tlog/src/stream-verifier.ts:47-85 | for every accepted lifecycle that starts with a MIGRATION verified against its prior history, stitching succeeds and the snapshot of the stitched history agrees with the replay and the bundle summary |
| `Snapshot.StitchedReferencesValid` | packages/log-c2sp-tlog/src/stream-verifier.ts:87-99 | stitched references pass the same check again at the next hop |
| `Reader.ChainIsFresh` | packages/log-c2sp-tlog/src/reader.ts:424-472 | every history the recursion returns went through pairwise different logs, new to the context, and never more than the depth limit allows |
| `Reader.MigratedIsFresh` | packages/log-c2sp-tlog/src/reader.ts:366-398 | the same of a verified prior history, from a nested reader or from a hook |
| `Reader.LoadReferenced` | packages/log-c2sp-tlog/src/reader.ts:448-460 | the references of a loaded history stay aligned, and pass the check of the later MIGRATIONs, hop after hop |
| `Reader.AssembledReferences` | packages/log-c2sp-tlog/src/reader.ts:451-460 | the references of a stitched history are those of the prior history, if it has any, followed by those of the current log |
| `Reader.ThroughReferenced` | packages/log-c2sp-tlog/src/reader.ts:321-354 | a history loaded for a MIGRATION has references that end at exactly the entry it signed and validate against it |
| `Reader.SelectedWasConsulted` | packages/log-c2sp-tlog/src/stream-verifier.ts:221-243 | a MIGRATION becomes genesis only after the migration verifier answered for it |
| `Reader.ConsultedFails` | packages/log-c2sp-tlog/src/stream-verifier.ts:222-231 | a MIGRATION whose verifier refuses stops the scan |
| `Reader.ReaderRun.constructor` | packages/log-c2sp-tlog/src/reader.ts:317-319 | an empty shared budget |
| `Reader.ReaderRun.LoadRun` | packages/log-c2sp-tlog/src/reader.ts:424-472 | with the shared budget, the result is exactly that of the recursion unless events or bytes exceed their limits while the budget is active; every returned event and every byte read was charged, a log without MIGRATIONs is charged exactly, and a history that crossed a migration has at most maxHistoryEvents events |
| `Reader.ReaderRun.StreamRun` | packages/log-c2sp-tlog/src/stream-verifier.ts:166-255 | stream verification with this reader's migration verifier, which charges the prior history before the MIGRATION is selected |
| `Reader.ReaderRun.MigrateRun` | packages/log-c2sp-tlog/src/reader.ts:366-398 | activates the budget and charges a hook exactly; the result is that of the recursion unless the budget is exceeded |
| `Reader.ReaderRun.LoadThroughRun` | packages/log-c2sp-tlog/src/reader.ts:321-354 | the same for the history up to a signed entry; the mutual recursion terminates by the remaining depth |
| `MigrationTheorems.LinkedExact` | packages/log-c2sp-tlog/src/stream-verifier.ts:116-123 | position by position: each reference passes for the log that the later MIGRATIONs fix, and stands before a MIGRATION exactly as it signed |
| `MigrationTheorems.LinkedOwnLogs` | packages/log-c2sp-tlog/src/stream-verifier.ts:116-147 | accepted references: every log on the chain is a usable reference, and if all are c2sp-tlog logs every reference lies in its own log |
| `MigrationTheorems.OwnLogExact` | packages/log-c2sp-tlog/src/stream-verifier.ts:132-147 | acceptance puts every reference into its own log, for all histories through a chain of logs, exactly when all of the logs are c2sp-tlog logs or one is not usable, so that nothing is accepted |
| `MigrationTheorems.OwnLogFails` | packages/log-c2sp-tlog/src/stream-verifier.ts:132-147 | outside c2sp-tlog only the method is compared: a history of log rekor:A is accepted with the reference rekor:B@1 |
| `MigrationTheorems.LoadOwnLogs` | packages/log-c2sp-tlog/src/reader.ts:448-460 | the references of a loaded history lie in their own logs under that condition, which always holds when no hook supplies the prior history |
| `MigrationTheorems.NewLogsBack` | packages/log-c2sp-tlog/src/stream-verifier.ts:116-123 | every MIGRATION of an accepted history leads into one of the logs of its chain |
| `MigrationTheorems.PriorIsEstablished` | packages/log-c2sp-tlog/src/stream-verifier.ts:52-80 | without a hook, the prior history a nested reader hands over passes every check of stitching: keys, state, references, and the MIGRATION not repeated |
| `MigrationTheorems.StitchExact` | packages/log-c2sp-tlog/src/stream-verifier.ts:47-85 | stitching succeeds exactly when the prior history is an active identity history that ends with the imported keys, does not hold the MIGRATION already, passes with its references, and goes on as one identity history |
| `MigrationTheorems.LoadExact` | packages/log-c2sp-tlog/src/reader.ts:424-472 | without a hook, a history is loaded exactly when the scan holds every index once and the stream up to the cutoff is accepted: stitching rejects nothing that was verified |
| `MigrationTheorems.CompleteScanExact` | packages/log-c2sp-tlog/src/reader.ts:655-660 | the reader takes a scan exactly when it has as many entries as the checkpoint says and every index among them |
| `MigrationTheorems.ThroughEnds` | packages/log-c2sp-tlog/src/reader.ts:342-343 | whatever was loaded for a MIGRATION ends with the payload of the very entry it signed, which lies at that index of the previous log and is of the domain |
| `MigrationTheorems.ThroughExact` | packages/log-c2sp-tlog/src/reader.ts:321-354 | without a hook, that succeeds exactly when the reference names an entry of the log, the log loads up to it, and the entry is a lawful occurrence of the last applied payload |
| `MigrationTheorems.MigrateExact` | packages/log-c2sp-tlog/src/reader.ts:366-398 | without a hook, a MIGRATION is verified exactly when it leads into this log, depth is left, its previous log is new, that history loads and does not end the identity; it imports the entity key of the ISSUANCE and the operational key last bound |
| `MigrationTheorems.HookExact` | packages/log-c2sp-tlog/src/reader.ts:373-389 | with a hook, exactly when its history goes through new logs, one after the other, within the depth limit |
| `Quorum.TopReaches` | packages/log-c2sp-tlog/src/policy.ts:247-252 | the k best of the satisfied members all reach t exactly when k of them do |
| `Quorum.QuorumReaches` | packages/log-c2sp-tlog/src/policy.ts:241-253 | for every nested rule and every t: the picked timestamps all reach t exactly when the rule is satisfied by the valid, non-future witnesses from t on |
| `Quorum.WitnessTimeOptimal` | packages/log-c2sp-tlog/src/policy.ts:126-129 | no satisfying set of witnesses has a later earliest timestamp than the checkpoint witness time, and the witnesses from that time on do satisfy the rule |
| `Quorum.WitnessTimeAbsent` | packages/log-c2sp-tlog/src/policy.ts:126-129 | a checkpoint is accepted without a witness time exactly when the rule is satisfied by nobody at all |
| `Quorum.QuorumRejects` | packages/log-c2sp-tlog/src/policy.ts:125-127 | the checkpoint is accepted exactly when some set of valid, non-future witnesses satisfies the rule, and in public scope the rule is not empty |
| `Sharing.IdentityCache.constructor` | packages/protocol/src/identity-cache.ts:29-30 | an empty cache |
| `Sharing.IdentityCache.Get` | packages/protocol/src/identity-cache.ts:32-40 | a hit exactly for an unexpired entry; an expired one is removed |
| `Sharing.IdentityCache.Put` | packages/protocol/src/identity-cache.ts:42-52 | replaces the entry when the evidence has a positive TTL and is not expired, and otherwise only evicts |
| `Sharing.IdentityCache.Evict` | packages/protocol/src/identity-cache.ts:54-60 | removes one domain and nothing else |
| `Sharing.InvStep` | packages/protocol/src/identity-manager.ts:661-719 | every step keeps the caller counts equal to the callers waiting and zero-TTL evidence with its owner |
| `Sharing.BarredForever` | packages/protocol/src/identity-manager.ts:688-713 | an operation that left its in-flight map never returns to it |
| `Sharing.SupersededNeverWrites` | packages/protocol/src/identity-manager.ts:688-713 | over every interleaving: an operation that writes the cache of a domain was begun after every earlier eviction of it, after every earlier start of a refresh of it, whether or not that refresh succeeds, and after every earlier cache write by a refresh |
| `Sharing.SettleExact` | packages/protocol/src/identity-manager.ts:697-709 | an operation still in flight caches its evidence unless aborted, and drops the domain when the evidence may not be kept or the identity is not active; any other leaves the cache alone |
| `Sharing.FlightExact` | packages/protocol/src/identity-manager.ts:688-713 | what each of the three in-flight maps holds after every step |
| `Sharing.CacheExact` | packages/protocol/src/identity-manager.ts:1094-1105 | apart from settling work, the cache only loses what is evicted or expires |
| `Sharing.WakeExact` | packages/protocol/src/identity-manager.ts:661-686 | a caller gets the evidence of finished work, unless it joined work that turned out to have a zero TTL: then it works alone |
| `Sharing.ZeroTtlStaysPrivate` | packages/protocol/src/identity-manager.ts:661-686 | over every interleaving: zero-TTL evidence is delivered only to the caller whose own operation acquired it |
| `Sharing.WaitersStep` | packages/protocol/src/identity-manager.ts:715-719 | the caller count of every operation is the number of callers waiting on it, after every step |
| `Sharing.AbortOnlyWhenAbandoned` | packages/protocol/src/identity-manager.ts:715-719 | over every interleaving: work is aborted only when no caller waits for it and it is unfinished |
| `Sharing.AbandonedIsAborted` | packages/protocol/src/identity-manager.ts:715-719 | work becomes aborted exactly when its last waiting caller leaves it unfinished |
| `Issuance.InvStep` | packages/sdk/src/managed-issuance.ts:110-297 | every step of an attempt, a crash included, keeps the invariant that ties effects, attempt and durable record |
| `Issuance.DurableStep` | packages/sdk/src/managed-issuance.ts:173-297 | no step changes the intent, the completed bytes or an accepted submission, and a finished operation is left alone |
| `Issuance.SubmissionsAreIdentical` | packages/sdk/src/managed-issuance.ts:227-272 | over every run with any crashes and resumes: all submissions carry the same domain, bytes and idempotency key |
| `Issuance.ActivationIsBound` | packages/sdk/src/managed-issuance.ts:273-297 | activation happens only when the durable record is accepted and bound by hash, index and log reference to the very bytes that were submitted |
| `Issuance.FinishedIsAbsorbing` | packages/sdk/src/managed-issuance.ts:151-171 | rejected, terminally failed and activated operations never change and cause no further effect; intent, bytes and acceptance are kept along every run |
| `Issuance.RetriesSameBytes` | packages/sdk/src/managed-issuance.ts:238-250 | after an error that asks for the same bytes the record stays unfinished and the next resumption submits those bytes again |
| `Issuance.StopsAfterTerminal` | packages/sdk/src/managed-issuance.ts:251-262 | after any other error the record is rejected and terminally failed, and a resumption does nothing |
| `Issuance.ReplyExact` | packages/sdk/src/managed-issuance.ts:350-360 | a reply is reconciled exactly when its hash is that of any reply before it and an acceptance is bound to the very bytes, index and log |
| `Issuance.ResumeExact` | packages/sdk/src/managed-issuance.ts:151-171 | where a resumption continues |
| `Issuance.Completes` | packages/sdk/src/managed-issuance.ts:110-297 | an operation that is prepared, submitted and accepted under its own hash, index and log ends activated, after one submission |
| `Json.DepthScanExact` | packages/log-c2sp-tlog/src/canonical.ts:12-29 | on every well-formed document, with any white space and escapes, the byte scan accepts exactly when no value lies deeper than 64 |
| `Json.AssertJsonDepth` | packages/log-c2sp-tlog/src/canonical.ts:12-29 | the index loop, string skipping and look-ahead included, decides the scan on every text |
| `Json.SkipLiteral` | packages/log-c2sp-tlog/src/canonical.ts:18-21 | the inner loop stops right after the closing quote |
| `Json.LookForColon` | packages/log-c2sp-tlog/src/canonical.ts:22-24 | the look-ahead finds a colon after white space exactly when there is one |
| `Json.CanonicalDepth` | packages/log-c2sp-tlog/src/canonical.ts:39-47 | the explicit-stack check accepts exactly the trees of height at most 64, so it agrees with the scan |
| `Json.DuplicateScanExact` | packages/protocol/src/strict-json.ts:5-28 | on every well-formed document the scan accepts exactly when every member name in the tree decodes and no object repeats a decoded one |
| `Json.ScanDuplicateMembers` | packages/protocol/src/strict-json.ts:7-26 | the loop with its stack of sets decides the scan on every text, a member name that does not decode included |
| `Json.LookForColonBlank` | packages/protocol/src/strict-json.ts:15-17 | the same look-ahead with the wider white space class of the regular expression |
| `TxtRecord.ElementExact` | packages/protocol/src/txt-record.ts:87-93 | an element reads as a tag exactly when it spells a valid name, the first equals sign and a valid value, after at most one space outside the first element |
| `TxtRecord.ReadExact` | packages/protocol/src/txt-record.ts:72-104 | the parser accepts exactly the spellings of legal records (distinct valid tags, required ones non-empty, a supported version in its place, no signature when unsigned) and returns what they spell |
| `TxtRecord.SetKnownTagExact` | packages/protocol/src/txt-record.ts:106-119 | each known tag fills its own field and no other, an optional one only when not empty |
| `TxtRecord.DnsIdTxtRecord.constructor` | packages/protocol/src/txt-record.ts:21-34 | an empty record |
| `TxtRecord.DnsIdTxtRecord.Add` | packages/protocol/src/txt-record.ts:96-98 | adds one tag to the seen set and to its field or to the unknown tags, keeping the record equal to what was read |
| `TxtRecord.FieldsArePicked` | packages/protocol/src/txt-record.ts:144-156 | the fields of an accepted record write exactly its known tags in their order, empty optional ones included |
| `TxtRecord.DnsIdTxtRecord.Canonical` | packages/protocol/src/txt-record.ts:136-138 | the text is the sorted form of everything read but the signature |
| `TxtRecord.DnsIdTxtRecord.Serialize` | packages/protocol/src/txt-record.ts:158-171 | the text lists everything read, known tags first |
| `TxtRecord.ParseTagPairs` | packages/protocol/src/txt-record.ts:72-104 | the loop over elements returns a record of exactly the tags that the specification reads, or its error |
| `TxtRecord.SerializeRoundTrip` | packages/protocol/src/txt-record.ts:158-171 | parsing a serialized record gives the whole tag map back with the unknown tags in order, and serializing again gives the same text |
| `TxtRecord.CanonicalExact` | packages/protocol/src/txt-record.ts:136-156 | two accepted texts have the same canonical form exactly when their tag maps without the signature are equal |
| `TxtRecord.ParseUnsignedCanonical` | packages/protocol/src/txt-record.ts:40-48 | returns the record of a canonical unsigned text, or the error |
| `TxtRecord.UnsignedCanonicalExact` | packages/protocol/src/txt-record.ts:40-48 | the canonical reader accepts a text as saying what a legal record says but for its signature exactly when the text is that record's canonical form |
| `TxtRecord.IncreasingUnique` | packages/protocol/src/txt-record.ts:218-220 | a list sorted by distinct names is determined by its tags, so the canonical order is unique |
| `Bundles.CodecExact` | packages/log-c2sp-tlog/src/tiles.ts:23-55 | a byte string parses to a list exactly when the list fits its length prefixes and encodes to that string; each error says exactly how the input ends |
| `Bundles.ParseEntryBundle` | packages/log-c2sp-tlog/src/tiles.ts:23-35 | the offset loop computes the parse |
| `Bundles.EncodeEntryBundle` | packages/log-c2sp-tlog/src/tiles.ts:43-55 | the filled buffer is the concatenation of the framed entries, and encoding fails exactly when an entry exceeds 65535 bytes |
| `Bundles.LoadEntries` | packages/log-c2sp-tlog/src/stream-source.ts:198-219 | the loop over bundles computes the scan, with its limits, width check and errors |
| `Bundles.ScanShape` | packages/log-c2sp-tlog/src/stream-source.ts:198-219 | whatever was served, an accepted scan carries the indexes 0 to n − 1 in order |
| `Bundles.ScanExact` | packages/log-c2sp-tlog/src/stream-source.ts:198-219 | a scan returns every index of a log once with its entry exactly when every bundle served is the framed 256-wide slice that belongs there and the framed log fits the limits |
| `Bundles.AssertCompleteScan` | packages/log-c2sp-tlog/src/reader.ts:655-663 | the reader's loop decides the completeness predicate |
| `Bundles.CompleteScanExact` | packages/log-c2sp-tlog/src/reader.ts:655-663 | a scan passes against the head of a log exactly when it holds that log's indexed entries, in any order |
| `Bundles.ScanAuthenticated` | packages/log-c2sp-tlog/src/stream-source.ts:198-219 | whatever was served, a scan that hashes to the root of a log of its size is that log |
| `Bundles.DiscoverMatchesScan` | packages/log-c2sp-tlog/src/stream-source.ts:174-191 | looking up one index in its one bundle gives what the complete scan has there |

## Left out

- Real cryptography: SHA-256, Ed25519, ECDSA and key parsing are the ideal hash and an opaque signature predicate; all soundness results are therefore statements about collision-free hashes.
- Networking, DNS, TLS, timeouts, abort signals and clocks: replies, failures and times are parameters or nondeterministic steps; byte limits of a single fetch appear only where they decide an outcome.
- Text parsing of checkpoints, signed notes, proofs and log references, and of host names and URLs: the model starts from parsed values. The public-scope log binding of an entry is one field that either matches or does not.
- The `http-signatures`, `jose`, `oidc`, `registry`, `key-aws` and `key-gcp` packages, configuration loading and the command-line tools: they check profiles field by field or wrap libraries and services, and keep no state of their own worth relating.
- The signed stream bundle: its signature, parsing and checkpoint policy, and the reader path that prefers a bundle over a scan; only its cutoff filter, summary and active thumbprint are modelled. The second scan that `loadThrough` makes when a bundle omits the cutoff entry is left out with it.
- `VerifiedDomain.assertFresh` and `expiry`, the reader's freshness check and its cached history: comparisons of times.
- `canonicalJson` beyond its depth check, and the decoding of string escapes: the serializer is not modelled, and the duplicate scanner takes the decoder, which may fail, as a function parameter.
- The policy-file parser and the collection of witness keys; a normalized quorum rule is an input.
- Inclusion.IndexClaimExact: the exact condition is on index, size and path length; that an arbitrary caller passes a path of the right length is not a property of this code.
- MigrationTheorems.OwnLogExact: for a method other than c2sp-tlog, lying in a log is read off the text (the log, an at sign, and more); what such a method itself means by its references is not part of this code.
- CheckpointTrust.AppendOnlyTrust: the retry loop of an advance is its sequence of load, verify and swap steps, so the loop's fairness and deadline are not modelled; the starting store may already hold any well-formed checkpoints.
- CheckpointTrust.CheckpointStore.CompareAndSwap: defensive copies of stored values need no counterpart, since checkpoints are values here.
- Stream.VerifyStreamLifecycle: entry bytes are already split into unreadable, too deeply nested, or an envelope with its payload and signatures; the JSON layer that makes this split is covered separately by the scanners.
- Reader.ReaderRun.LoadRun: what a log with MIGRATION candidates charges is bounded from below only, since a candidate that is loaded and then skipped is charged too; a history taken from a signed bundle is not modelled; the policy check and the checkpoint advance that a reader makes on the way are inputs that may refuse the checkpoint, and are themselves the subject of the quorum and checkpoint modules; the completeness check of the scan is stated with its root in the bundle module.
- Quorum.WitnessTimeOptimal: timestamps are integers, so NaN and infinities of the host language appear only as the comparison of members without timestamps, which sorts as equal and latest.
- Sharing.SupersededNeverWrites: a removal timer and a failed freshness check are one step that drops a cached entry at any time; acceptance policy and peer certificates are not modelled.
- Issuance.SubmissionsAreIdentical: a single writer at a time is assumed, as the persistence callbacks of the workflow demand; what preparation returns and whether its signatures verify is a nondeterministic reply.
- Json.DepthScanExact: text is a sequence of characters rather than UTF-8 bytes; all characters the scanner looks at are ASCII.
- TxtRecord.ParseUnsignedCanonical: the optional validation of host names, URLs and the log reference after parsing is not modelled.
- Bundles.LoadEntries: loading and authenticating the checkpoint comes before this loop; its tree size is a parameter.
