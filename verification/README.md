# A model of the beaconops core

This project models the decision-making parts of the `beaconops-core` crate, the daemon loop that
drives it, and two pieces of the desktop client, and proves what they promise. The network, the
clock, randomness, BLS, SHA-256 and PBKDF2 are parameters: a request meets a list of outcomes, a
step is given its clock readings, and a hash or a key derivation is an arbitrary function.

| file | what it models |
|---|---|
| `Rpc.dfy` | endpoint scores, the ranking, failover passes and whole runs of them, saving and restoring health |
| `Ssz.dfy` | Merkleization, container roots, domains and signing roots over an arbitrary hash |
| `BatchSigning.dfy` | signing and submitting BLS-to-execution changes, alone and in a batch |
| `Monitor.dfy` | the published payload under ticks and imports that interleave |
| `Imports.dfy` | the target list that imports edit and the tracked set it resolves to |
| `Duties.dfy` | fetched proposer slots and the maintenance window |
| `Liveness.dfy` | the liveness step over whole runs, and the missed streak |
| `MissedCount.dfy` | the `LIKE` query that counts missed attestations |
| `MissedHistory.dfy` | that count beside the rows and incidents of a liveness run |
| `Alerts.dfy` | the anti-spam window, the quiet-hours queue and the daily digest |
| `Timestamps.dfy` | instants, the Gregorian calendar, RFC 3339 text and its byte order |
| `Storage.dfy`, `Models.dfy` | the store's tables and queries, and the shared records |
| `Cache.dfy` | the TTL cache, with lookups whose removal of an expired entry comes later |
| `StoredSecrets.dfy` | the desktop's stored hash and salt in hex or base64, and the password check |
| `Preflight.dfy` | which actions the desktop offers against which the daemon accepts |
| `Text.dfy`, `Hex.dfy`, `StableSort.dfy`, `Results.dfy` | strings, numbers, hex, the stable sort, results |

Objects that the code updates in place are classes here, and each of their methods is proved equal
to a function of the old state; the theorems over runs are lemmas about those functions. Steps that
interleave (ticks with imports, cache gets with puts) are a state machine on values, one event for
each atomic step.

Where the code and the text around it differ, the model follows the code:

- The repository's README lists retries among the RPC features. `RpcPool::new` drops the configured
  count and makes one pass per request.
- A voluntary exit is signed for the fork version the node reports as current. The model does the
  same and claims no conformance with EIP-7044.
- The digest message has a line for critical incidents. Its number is always zero
  (`Alerts.DigestConservation`), because critical incidents are never queued.

Properties that do not hold as one would first state them are given with an input that breaks them
and the exact condition under which they hold:

- Base64 text that also reads as hex: `StoredSecrets.UnpaddedBase64CanReadAsHex`, condition in
  `Base64SecretRoundTrip`.
- A passed proposer slot that hides a coming one: `Duties.PassedSlotHidesNext`, condition in
  `WindowIsExact`.
- A late removal that takes a newer cache entry: `Cache.LateRemovalLosesPut`, condition in
  `LostExactlyWhenRemoved` and `FreshMissIsRace`.
- A failed anti-spam check that counts as "not sent": `Alerts.FailedCheckRepeats`, condition in
  `IncidentKeepsSpacingExactly` and `AntiSpamExactly`.
- Records on which the desktop and the daemon disagree: `Preflight.FlagMatters`,
  `BlsChangeIsNotChecked`, `DesktopOffersTooMuch` and `YoungValidatorIsOffered`, conditions in
  `DesktopCoversDaemonExactly`, `BlsChangeAgreesExactly` and `DaemonRefusesOfferedExactly`.
- Not-live rows without an incident, left by a check that failed after writing them:
  `MissedHistory.FailedCheckLeavesRow`, conditions in `FailureTurnsExactly` and, for whole runs,
  `NotLiveIsReturnedOrOrphaned`.
- A snapshot that a failed tick obtained and that is not shown: `Monitor.FailedTickIsNotShown`,
  condition in `NewestIsShownExactly`.

## Model

| member | source | states |
|---|---|---|
| Rpc.RankIsTheStableOrder | crates/beaconops-core/src/rpc.rs:394-415 | the ranking is the only rearrangement of the pool sorted by score descending, then latency ascending, in which ties keep their configured order |
| StableSort.StableSortUnique | crates/beaconops-core/src/rpc.rs:394-415 | two stably sorted rearrangements of one list are equal, so the sort used here is what any stable sort returns |
| Rpc.RankedBefore | crates/beaconops-core/src/rpc.rs:394-415 | of two ranked endpoints the earlier has the higher score, or the same score and no greater latency |
| Rpc.ScoreEffects | crates/beaconops-core/src/rpc.rs:417-460 | a success gains at least 1.5 points up to the cap and never less when faster; a failure costs 25 points down to zero; a severe one costs strictly more |
| Rpc.MarkEffects | crates/beaconops-core/src/rpc.rs:417-460 | a fresh endpoint has 75 points; a success gains 4.5 points less a thousandth for each millisecond, at most 3 points; a failure costs 25 points, or 45 when its reason tells of the network; each counts itself and keeps its time and reason |
| Rpc.PassIsExact | crates/beaconops-core/src/rpc.rs:214-392 | for any pool, repeated names included: endpoints before the first non-failure gain one failure per place they hold, the winner one success, everyone else is unchanged; the request is exhausted exactly when every endpoint failed, with the last reason |
| Rpc.PassMarksEach | crates/beaconops-core/src/rpc.rs:214-460 | with distinct names every endpoint tried is marked exactly once, by its own outcome |
| Rpc.RequestFollowsReplies | crates/beaconops-core/src/rpc.rs:214-392 | for each of the three calls: a status that is no success, a reply that fails to come and a JSON-RPC error fail over; the first other reply wins with its JSON text, its result, or "{}" for a blank post, or breaks the request; with none the last reason is the error |
| Rpc.RequestMarksReplies | crates/beaconops-core/src/rpc.rs:214-460 | in such a request each endpoint passed gains a failure for each place it holds, the winner a success, and everyone else, the endpoint that breaks it too, is unchanged |
| Rpc.RepliesAreKept | crates/beaconops-core/src/rpc.rs:214-460 | with distinct names each endpoint passed keeps the milliseconds and the reason of its own reply |
| Rpc.RunKeepsRange | crates/beaconops-core/src/rpc.rs:417-460 | over any run of requests scores stay in [0, 100] |
| Rpc.FailoverCostOfOne | crates/beaconops-core/src/rpc.rs:394-460 | whatever the other endpoints do, an always-failing endpoint is marked failed at most ceil(score/25) times, so at most four, over a whole run in which some endpoint with a positive score always answers |
| Rpc.BoundedFailoverCost | crates/beaconops-core/src/rpc.rs:394-460 | when every endpoint always answers or always fails and one answers, each failing one is marked at most four times from any starting scores in range |
| Rpc.FewSlowRequests | crates/beaconops-core/src/rpc.rs:214-460 | in such a run all but four requests per failing endpoint are answered by the first endpoint tried |
| Rpc.SavedScoresStayInRange | crates/beaconops-core/src/rpc.rs:115-129 | saving in-range scores and restoring them leaves every score in range |
| Rpc.LoadedExactly | crates/beaconops-core/src/storage.rs:326-360 | loading one kind gives the rows of that kind and no others |
| Rpc.RestartKeepsRanking | crates/beaconops-core/src/storage.rs:291-360 | health saved beside the other pool's and restored into a fresh process gives every endpoint its state and the pool its ranking back, even when the pools share names |
| Rpc.RpcPool.MarkSuccess | crates/beaconops-core/src/rpc.rs:417-433 | stores the state after a success for that endpoint and no other |
| Rpc.RpcPool.MarkFailure | crates/beaconops-core/src/rpc.rs:435-460 | stores the state after a failure for that endpoint and no other |
| Rpc.RpcPool.Call | crates/beaconops-core/src/rpc.rs:214-392 | the loop of each of the three calls is one pass over the ranking, with its way of judging replies; an unparsable success leaves the pass without a mark |
| StorageTables.Storage.SaveEndpointHealth | crates/beaconops-core/src/storage.rs:291-324 | upserts each row by name and kind, the last one winning |
| Ssz.HalvingKeepsRoot | crates/beaconops-core/src/monitor.rs:1778-1784 | hashing neighbours of a power-of-two level into the next level keeps the root of the recursive tree |
| Ssz.TreeShape | crates/beaconops-core/src/monitor.rs:1762-1787 | the root of nothing is zeros, of one leaf the leaf, of two halves the hash of their roots, left first |
| Ssz.Merkleize | crates/beaconops-core/src/monitor.rs:1769-1787 | the in-place level loop returns the root of the recursive tree over the chunks zero-padded to the next power of two, for every chunk list |
| Ssz.BytesRoot | crates/beaconops-core/src/monitor.rs:1789-1803 | the chunking loop returns the root over the 32-byte zero-padded pieces, for every byte string |
| Ssz.PackIsZeroPadding | crates/beaconops-core/src/monitor.rs:1795-1800 | the pieces joined again are the byte string and less than 32 zeros |
| Ssz.LittleEndianRoundTrip | crates/beaconops-core/src/monitor.rs:1805-1809 | the eight bytes read as a little-endian number give the integer back |
| Ssz.IntegerLeaf | crates/beaconops-core/src/monitor.rs:1805-1809 | an integer is in the first eight bytes of its leaf, lowest byte first, and the other 24 are zeros |
| Ssz.ContainerTrees | crates/beaconops-core/src/monitor.rs:1811-1836 | the two container roots written out in the hash: field order, the two pubkey chunks, the padded address and the zero leaf |
| Ssz.SignedBytes | crates/beaconops-core/src/monitor.rs:1729-1866 | the signed root is the hash of the message root and the domain; the domain is the tag 10 or 4 in four bytes, then 28 bytes of the hash of the fork version, padded, and the genesis root |
| Ssz.TreeCollision | crates/beaconops-core/src/monitor.rs:1762-1787 | from two different leaf lists of one size with one root, two different 64-byte inputs with one hash are computed |
| Ssz.MessageCollision | crates/beaconops-core/src/monitor.rs:1811-1836 | from two different BLS changes, or two different exits, with one root, a hash collision is computed |
| Ssz.SigningCollision | crates/beaconops-core/src/monitor.rs:1729-1866 | from two different messages of the same or of different kinds, on any chains, with one signing root, a hash collision is computed |
| Ssz.ChainBinding | crates/beaconops-core/src/monitor.rs:1849-1866 | one message has one signed root on two different chains exactly when the hashes of their fork data agree in the 28 bytes a domain keeps, or the two inputs that are signed, which are named, collide |
| BatchSigning.PrefixedHexParses | crates/beaconops-core/src/monitor.rs:1732-1751 | the normalised text of any bytes parses back to them |
| BatchSigning.ParsesHexExactly | crates/beaconops-core/src/monitor.rs:1732-1747 | a text parses to n bytes exactly when, trimmed and without its 0x, it is their hex in either case |
| BatchSigning.SignsExactly | crates/beaconops-core/src/monitor.rs:724-800 | a change is signed exactly when its fields parse, the node has the record for that key with BLS credentials and names its chain, and the private key is that of the public key; a fault names what is missing |
| BatchSigning.PreparedBatchSignsAll | crates/beaconops-core/src/monitor.rs:724-874 | a batch prepared without a fault signs each item: its index, key and address, the signing root of that change on the chain the node named, its private key's signature, one domain for all; the node's record of each has the request's pubkey and credentials that start with 0x00 |
| BatchSigning.PrepareIsAllOrNothing | crates/beaconops-core/src/monitor.rs:833-874 | a batch is prepared exactly when it has 1 to 64 items, the address parses, every item could be signed on its own and all domains agree; each item is then signed as it would be alone, and otherwise the fault is that of the size, of the address, or of the first item refused |
| BatchSigning.PostedChangesCarryItems | crates/beaconops-core/src/monitor.rs:833-888 | the k-th posted change has texts that parse to item k's index and public key and to the batch's address, and to the signature by item k's private key over the signing root |
| BatchSigning.PostedChangeCarriesRequest | crates/beaconops-core/src/monitor.rs:724-815 | the same of the one change that a single request posts |
| BatchSigning.Signer.SignAndSubmit | crates/beaconops-core/src/monitor.rs:724-831 | one change is posted exactly when it was signed and the call is not a dry run |
| BatchSigning.Signer.SignAndSubmitBatch | crates/beaconops-core/src/monitor.rs:833-915 | any fault while preparing posts nothing, a dry run posts nothing, otherwise there is exactly one post with every item's change in order |
| Monitor.MergeSnapshotsWithPrevious | crates/beaconops-core/src/monitor.rs:1682-1706 | the three map-filling loops compute the merged list |
| Monitor.MergedShows | crates/beaconops-core/src/monitor.rs:1682-1706 | the merged list is increasing by index, within the tracked set, and shows for an index its last fresh snapshot or else the previous one |
| Monitor.NewestSnapshotHistory | crates/beaconops-core/src/monitor.rs:292-433 | in every interleaving of ticks, failed ones among them, and imports the payload shows for an index exactly the last snapshot a published tick obtained since the index was last absent from such a tick's tracked set; validators are strictly increasing and within the set the last published tick read; the count is the number of indices |
| Monitor.ListedIndicesHistory | crates/beaconops-core/src/monitor.rs:292-433 | in every run the payload lists, with their number, the tracked indices that the last published tick read at its start or those of the last published import, whichever came later; what a tick reads is what the last import resolved |
| Monitor.NewestIsShownExactly | crates/beaconops-core/src/monitor.rs:292-433 | the last snapshot that any tick obtained for an index, failed ticks included, is shown exactly when its tick was published and the index was tracked in each published tick since, or when an earlier published tick obtained the same snapshot and it is still shown |
| Monitor.FailedTickIsNotShown | crates/beaconops-core/src/monitor.rs:292-433 | a run in which a failed tick obtained a newer snapshot than the one shown |
| Monitor.PayloadBoard.PublishTick | crates/beaconops-core/src/monitor.rs:414-433 | writes the payload that a tick's publishing step has in the state machine, from the tracked set the tick read |
| Monitor.PayloadBoard.PublishImport | crates/beaconops-core/src/monitor.rs:651-657 | writes the payload that an import's publishing step has in the state machine: its indices and their count, the validators as they were |
| Imports.ImportIsMapUpdate | crates/beaconops-core/src/monitor.rs:629-648 | from any list one import sets the imported value, adds a new key at the end, keeps the other keys in place and distinct keys distinct, and drops only seed placeholders, only under another key, so that another target of the seed's key shows |
| Imports.LastImportWins | crates/beaconops-core/src/monitor.rs:629-648 | over any import sequence and from any list a key holds its last imported value, or the initial one, unless that is a seed placeholder and a later import has another key; then the next target of the seed's key shows, none if keys were distinct |
| Imports.KeyOfId | crates/beaconops-core/src/monitor.rs:632-638 | ids that differ only in spaces around them and in case have one key |
| Imports.PlaceholderTellsNothing | crates/beaconops-core/src/monitor.rs:1931-1946 | a target is the seed's placeholder exactly when it has its id and each field is empty or the seed's own text in any case |
| Imports.ReplacedAtFirst | crates/beaconops-core/src/monitor.rs:636-647 | the first target with the key is replaced where it stands, and with none the new one is added at the end |
| Imports.PlaceholdersJoin | crates/beaconops-core/src/monitor.rs:633 | placeholders are dropped one by one, and the other targets stay in order |
| Imports.TargetList.EditTargets | crates/beaconops-core/src/monitor.rs:630-648 | the retain and replace loops make that edit |
| Imports.ResolutionKeepsEarliest | crates/beaconops-core/src/monitor.rs:1303-1366 | the tracked set is strictly increasing and holds an index exactly when some target resolves to it, with the metadata of the earliest such target |
| Imports.ContributionMeans | crates/beaconops-core/src/config.rs:231-258 | a target contributes an index exactly when its id is a 98-character public key the node finds under it, a 42-character address behind which the node finds it, or that number |
| Imports.ResolvesExactly | crates/beaconops-core/src/config.rs:231-258 | the targets resolve exactly when no id is hex of another length, empty, or no 64-bit number |
| Imports.TargetList.ResolveTargets | crates/beaconops-core/src/monitor.rs:1303-1366 | an id that does not parse leaves the tracked set as it was; otherwise it becomes the sorted, deduplicated candidates |
| Imports.TargetList.ImportValidator | crates/beaconops-core/src/monitor.rs:629-659 | the list is edited in every case; the tracked set changes only if persisting and resolving work |
| Duties.FetchNextProposerSlots | crates/beaconops-core/src/monitor.rs:1510-1546 | the nested loops over both replies compute the fetched map, or fail at the first bad number |
| Duties.FetchedIsLeastSlot | crates/beaconops-core/src/monitor.rs:1510-1546 | the map holds the tracked validators with a duty in either epoch, and only those, each with its least slot; the fetch fails exactly when a needed number does not parse |
| Duties.DutiesOfReplies | crates/beaconops-core/src/monitor.rs:1510-1546 | the duties are those of the replies that arrived, of both epochs, and no others |
| Duties.SafeUntilIsLeastRecorded | crates/beaconops-core/src/monitor.rs:442-502 | the window ends at the least recorded slot after the head, if there is one |
| Duties.SlotsUntilWraps | crates/beaconops-core/src/monitor.rs:453-462 | the distance to a slot is right but for multiples of 2^64 |
| Duties.WindowIsExact | crates/beaconops-core/src/monitor.rs:442-502 | with every fetched slot recorded, and perhaps stale ones: the window ends before the next tracked proposal only at a stale slot, and at it exactly when its slot is stale or some proposer of it has no duty at or before the head, with no stale slot nearer |
| Duties.SafeWindow | crates/beaconops-core/src/monitor.rs:481-491 | when every fetched duty lies after the head and every fetched slot is recorded, whatever else is, there is a window if there is a duty, and no tracked proposal falls strictly inside it |
| Duties.PublishedReaches | crates/beaconops-core/src/monitor.rs:314-412 | what a tick publishes records every fetched slot exactly when each proposer is tracked and its snapshot was obtained or carried over with that slot; its stale slots are exactly those carried over |
| Duties.PassedSlotHidesNext | crates/beaconops-core/src/monitor.rs:1533-1539 | two duty replies, as text, whose fetch has a passed slot that hides the same validator's coming one, and the window covers a proposal |
| Liveness.SavedReply | crates/beaconops-core/src/monitor.rs:1627-1644 | a stored reply returns each of its not-live indices once, each with a row that says not live |
| Liveness.ReturnedInOrder | crates/beaconops-core/src/monitor.rs:1627-1644 | the incidents of a reply are in the order of its entries |
| Liveness.LivenessAtMostOnce | crates/beaconops-core/src/monitor.rs:1594-1650 | while head epochs never decrease and a reply lists an index once, at most one missed incident is returned per validator and epoch over failed attempts and restarts, each with a not-live row |
| Liveness.CheckedEpochIsSilent | crates/beaconops-core/src/monitor.rs:1609-1611 | after a successful check of an epoch later checks of it return nothing, even if the incidents were dropped afterwards |
| Liveness.CheckPreviousEpochLiveness | crates/beaconops-core/src/monitor.rs:1594-1650 | the loop with its early exits leaves the rows and the checkpoint that the step function says, partial writes included |
| Liveness.StreakIsRun | crates/beaconops-core/src/storage.rs:615-637 | the not-live prefix of the newest epochs has the size of the set of epochs at and after which nothing is live, or 128 if that is less |
| Liveness.MissedAttestationStreak | crates/beaconops-core/src/storage.rs:615-637 | the counting loop with its break returns that size |
| MissedCount.LikeIsContainment | crates/beaconops-core/src/storage.rs:596-606 | a plain word between percent signs matches exactly the texts that contain it, ignoring case |
| MissedCount.LikeIsEquality | crates/beaconops-core/src/storage.rs:596-606 | a plain word alone matches the texts that are it but for case, and an underscore any one character |
| MissedCount.LikeIgnoresCase | crates/beaconops-core/src/storage.rs:596-606 | the case of pattern and text does not matter |
| MissedCount.PatternMatchesItsIndex | crates/beaconops-core/src/storage.rs:596-606 | the pattern of a validator matches an incident's details exactly when it was raised for that validator |
| MissedCount.FingerprintInjective | crates/beaconops-core/src/monitor.rs:1634-1642 | fingerprints are distinct for distinct pairs of validator and epoch |
| MissedCount.IncidentTexts | crates/beaconops-core/src/monitor.rs:1633-1643 | code, severity, message, details and fingerprint of a missed attestation |
| MissedCount.CountMeansWhatItSays | crates/beaconops-core/src/storage.rs:590-613 | over a store filled by the liveness step and any other incidents the query counts the missed attestations raised for the validator since the instant |
| MissedCount.CountMissedAttestationsSince | crates/beaconops-core/src/storage.rs:590-613 | returns the number of rows that match code, time and pattern, for at least one hour back |
| MissedCount.InsertIncidents | crates/beaconops-core/src/storage.rs:225-253 | inserts each incident in order, replacing a row with the same id |
| MissedCount.InsertReplaces | crates/beaconops-core/src/storage.rs:225-253 | an inserted row is the only one with its id and comes last, and rows with other ids stay in order |
| MissedHistory.CountIsNotLiveEpochs | crates/beaconops-core/src/storage.rs:590-613 | with the incidents of any liveness run stored, the count since an instant is the number of epochs they were raised for, each once and each with a not-live row |
| MissedHistory.CheckFate | crates/beaconops-core/src/monitor.rs:1594-1650 | a check fails exactly when the checkpoint cannot be read, or it asks and gets no reply or cannot finish; it moves the checkpoint exactly when it has worked on a reply |
| MissedHistory.FailureTurnsExactly | crates/beaconops-core/src/monitor.rs:1594-1650 | a check fails and turns a row not live exactly when it gets a reply, the checkpoint or some entry cannot be written, and an entry that can be written says that an index without a not-live row is not live |
| MissedHistory.NotLiveRowsAreReturned | crates/beaconops-core/src/monitor.rs:1594-1650 | the not-live rows are the incidents returned, after every check of a run, exactly when no check meets that condition |
| MissedHistory.NotLiveIsReturnedOrOrphaned | crates/beaconops-core/src/monitor.rs:1594-1650 | at the end of any run a row is not live exactly when an incident was returned for it or the last check that wrote it could not finish, and never both |
| MissedHistory.FailedCheckLeavesRow | crates/beaconops-core/src/monitor.rs:1627-1647 | a check that cannot write its checkpoint leaves a not-live row and returns no incident |
| MissedHistory.CountIsNotLiveRows | crates/beaconops-core/src/storage.rs:590-613 | the count since before a run is the number of the validator's not-live rows exactly when none of them was last written by a check that could not finish |
| Alerts.QuietHoursAreAnArc | crates/beaconops-core/src/alerts.rs:235-249 | quiet hours are the arc of the clock from start up to end, across midnight too |
| Alerts.IncidentFate | crates/beaconops-core/src/alerts.rs:38-73 | one incident is queued, recorded with its instant, or left alone: queued when wanted, not critical, in quiet hours and not recently sent; recorded when wanted, not so held back, sent or in need of no sending, and the store works |
| Alerts.AntiSpamHolds | crates/beaconops-core/src/alerts.rs:38-73 | over any run with restarts, while the check works, two recorded sends of one fingerprint are strictly more than the window apart |
| Alerts.IncidentKeepsSpacingExactly | crates/beaconops-core/src/alerts.rs:38-73 | handling one incident keeps the recorded sends spaced exactly when it is not the case that the check fails, a row is appended and the fingerprint has a row inside the window |
| Alerts.AntiSpamExactly | crates/beaconops-core/src/alerts.rs:38-73 | over any run with restarts, whatever calls fail, recorded sends of one fingerprint are more than the window apart exactly when no failed check ever lets such a repeat through |
| Alerts.FailedCheckRepeats | crates/beaconops-core/src/alerts.rs:44-53 | when the check fails the same fingerprint is recorded twice at one instant |
| Alerts.QueuedAndRecordedExactly | crates/beaconops-core/src/alerts.rs:38-73 | over any run with restarts, whatever calls fail, what was ever queued and the rows are exactly those of the incidents that had to wait and of those recorded, in order |
| Alerts.DigestConservation | crates/beaconops-core/src/alerts.rs:126-192 | in every run, whatever calls fail, what was ever queued is what sent digests and restarts took plus what is queued, in order; no critical incident is queued; each digest's counts add up to what it drained |
| Alerts.DigestFate | crates/beaconops-core/src/alerts.rs:126-192 | whatever calls fail, when a digest goes out, what it takes, and which marker it leaves |
| Alerts.DigestKeyText | crates/beaconops-core/src/alerts.rs:136-141 | one marker's key, with month and day unpadded |
| Alerts.CountIsMultiplicity | crates/beaconops-core/src/alerts.rs:154-163 | the count of a severity is how often it occurs |
| Alerts.DigestExactly | crates/beaconops-core/src/alerts.rs:126-192 | with a working store a digest goes out exactly when the hour matches, the queue holds something, the send works and none went out that UTC day |
| Alerts.OneDigestADay | crates/beaconops-core/src/alerts.rs:136-144 | over any run with restarts no UTC day has two digests, and stored markers are exactly the days that had one |
| Alerts.AlertEngine.ProcessIncidents | crates/beaconops-core/src/alerts.rs:38-73 | the loop changes the queue and the rows as the step function says |
| Alerts.AlertEngine.ProcessDigest | crates/beaconops-core/src/alerts.rs:126-192 | drains and marks only after a successful send |
| Alerts.AlertEngine.CountBySeverity | crates/beaconops-core/src/alerts.rs:154-163 | the three counters are the numbers of incidents of each severity |
| Timestamps.GregorianDays | crates/beaconops-core/src/storage.rs:196 | the day count before a year is the Gregorian closed form |
| Timestamps.MonthStarts | crates/beaconops-core/src/storage.rs:196 | the days before each month, with one more from March on in a leap year |
| Timestamps.UnixEpoch | crates/beaconops-core/src/storage.rs:196 | the first instant of 1970 is 719528 days after that of year 0 |
| Timestamps.RenderedLeapDay | crates/beaconops-core/src/storage.rs:196 | one instant's text, character by character, with a three-digit fraction |
| Timestamps.FractionShows | crates/beaconops-core/src/storage.rs:196 | a fraction shows the nanoseconds in the fewest of 0, 3, 6 or 9 digits |
| Timestamps.CivilOrder | crates/beaconops-core/src/storage.rs:196 | calendar fields compare as the instants they name |
| Timestamps.RenderedOrderIsTimeOrder | crates/beaconops-core/src/storage.rs:196 | in years 0000 to 9999, with 0, 3, 6 or 9 fraction digits on either side, byte order of the text is order of the instants |
| Timestamps.StampOrder | crates/beaconops-core/src/storage.rs:374-400 | the stored text of two instants compares as the instants do |
| StorageTables.Storage.WasAlertSentRecently | crates/beaconops-core/src/storage.rs:384-405 | true exactly when some row of the key has text at or above the cutoff's |
| StorageTables.CutoffIsBefore | crates/beaconops-core/src/storage.rs:384-405 | the cutoff is the window in seconds before the clock reading |
| StorageTables.Storage.SnapshotBefore | crates/beaconops-core/src/storage.rs:497-524 | a row of the validator at or before the cutoff whose text none exceeds, or none if there is none |
| StorageTables.SnapshotBeforeIsNewest | crates/beaconops-core/src/storage.rs:497-524 | that row is the newest snapshot at or before the cutoff instant |
| StorageTables.Storage.OldestSnapshotSince | crates/beaconops-core/src/storage.rs:560-588 | a row of the validator at or after the instant's text that no other is below |
| StorageTables.OldestSinceIsOldest | crates/beaconops-core/src/storage.rs:560-588 | that row is the oldest snapshot at or after the instant |
| StorageTables.Storage.InsertSnapshots | crates/beaconops-core/src/storage.rs:168-223 | appends one row per snapshot with its observation time as text |
| Cache.EntriesAreLatestPuts | crates/beaconops-core/src/cache.rs:30-67 | in any interleaving every entry is the latest put of its key since the last clear, and hits plus misses plus gets still running are the gets started |
| Cache.CountersAreExact | crates/beaconops-core/src/cache.rs:30-67 | in any interleaving the hits are the lookups that returned a value and the misses the gets that ended without one |
| Cache.CacheSafety | crates/beaconops-core/src/cache.rs:30-56 | a returned value is the most recent put for its key since the last clear, made strictly less than the TTL before the get's clock reading |
| Cache.SequentialCacheIsExact | crates/beaconops-core/src/cache.rs:30-56 | with gets one after another a get hits exactly when the latest put is younger than the TTL |
| Cache.LookupIsExact | crates/beaconops-core/src/cache.rs:30-56 | in any interleaving a get returns the latest put exactly while it is younger than the TTL and no get's removal came after it; interleaving can only turn a hit into a miss |
| Cache.LostExactlyWhenRemoved | crates/beaconops-core/src/cache.rs:30-67 | in any interleaving a key that was put since the last clear has no entry exactly when a get that found it expired removed it after its last put |
| Cache.FreshMissIsRace | crates/beaconops-core/src/cache.rs:34-50 | a get misses a put younger than the TTL exactly when another get looked the key up before that put, found it expired, and removed it after |
| Cache.LateRemovalLosesPut | crates/beaconops-core/src/cache.rs:43-46 | the shortest run in which a removal lands after a newer put and the next get misses it |
| Cache.JsonCache.GetValue | crates/beaconops-core/src/cache.rs:30-50 | an uninterrupted get returns the lookup and leaves the entries and counters of lookup then end |
| StoredSecrets.HexSecretRoundTrip | apps/desktop/src/lib/auth.ts:33-102 | hex text of any non-empty byte string decodes to it |
| StoredSecrets.HexTextExactly | apps/desktop/src/lib/auth.ts:47-86 | a text is hex for bytes exactly when they are not empty and, trimmed and in small letters, it is their hex |
| StoredSecrets.Base64TextExactly | apps/desktop/src/lib/auth.ts:65-81 | a text is base64 exactly when, trimmed, it is characters of the alphabet with at most two padding signs after them, in whole groups of four |
| StoredSecrets.Base64Alphabet | apps/desktop/src/lib/auth.ts:25-31 | the 64 digits in their order |
| StoredSecrets.AtobOfBase64 | apps/desktop/src/lib/auth.ts:25-45 | decoding the base64 text of any byte string gives it back |
| StoredSecrets.AtobIgnores | apps/desktop/src/lib/auth.ts:37-45 | decoding ignores spaces anywhere and padding left out, and fails on a foreign character or one character too many |
| StoredSecrets.DropsSpaces | apps/desktop/src/lib/auth.ts:37-45 | the spaces it ignores are the five ASCII ones |
| StoredSecrets.Rfc4648Examples | apps/desktop/src/lib/auth.ts:25-31 | the base64 text is that of the illustrations in section 9 of RFC 4648 |
| StoredSecrets.Base64SecretRoundTrip | apps/desktop/src/lib/auth.ts:88-102 | base64 text decodes to its bytes exactly when they are not empty and the text is not also valid hex |
| StoredSecrets.PaddedBase64IsSafe | apps/desktop/src/lib/auth.ts:65-102 | it always does when the length is not a multiple of three |
| StoredSecrets.UnpaddedBase64CanReadAsHex | apps/desktop/src/lib/auth.ts:88-91 | three zero bytes in base64 are read back as two bytes of hex |
| StoredSecrets.HexHashAcceptsItsBytes | apps/desktop/src/lib/auth.ts:229-238 | a stored hex hash accepts a password exactly when its decoded bytes equal the derived bytes |
| StoredSecrets.Base64HashAcceptsItsBytes | apps/desktop/src/lib/auth.ts:229-238 | a stored base64 hash accepts exactly when the bytes are equal and its text is the canonical one |
| StoredSecrets.CreatedSecretVerifies | apps/desktop/src/lib/auth.ts:218-238 | a secret made from one password accepts another exactly when both derive the same bytes |
| StoredSecrets.NeitherIsCorrupted | apps/desktop/src/lib/auth.ts:88-102 | only hex or base64 text is decoded, and a check fails exactly when the salt or the hash is neither |
| StoredSecrets.HexToBytes | apps/desktop/src/lib/auth.ts:51-63 | the buffer-filling loop decodes valid hex and rejects everything else |
| StoredSecrets.BytesToBase64 | apps/desktop/src/lib/auth.ts:25-31 | the binary-string loop gives the base64 text of the bytes |
| Preflight.DesktopNeverBlocksAccepted | crates/beaconops-core/src/monitor.rs:1080-1232 | on a coherent record the desktop offers every execution action and consensus exit that the daemon accepts, for all balances and whole-gwei amounts |
| Preflight.AcceptedExactly | crates/beaconops-core/src/monitor.rs:917-1232 | on a coherent record the daemon accepts exactly what the desktop offers when the request is right, action by action: another validator with 0x02 credentials for a consolidation, an amount that leaves 32 ETH, the key and an epoch for an exit |
| Preflight.ExitEpochs | crates/beaconops-core/src/monitor.rs:976-996 | an exit may name an epoch up to two after the head's once the committee period, 256 by default, has passed since a known activation |
| Preflight.LeavesThirtyTwo | crates/beaconops-core/src/monitor.rs:1183-1210 | a partial withdrawal must leave 32 ETH, below 2^63 gwei |
| Preflight.DesktopCoversDaemonExactly | apps/desktop/src/lib/eligibility.ts:58-256 | on any record the desktop offers all that the daemon accepts exactly when it is flagged slashed, or its active status says neither slashed, pending nor exited, and no withdrawable one says slashed without exiting or exited |
| Preflight.DaemonRefusesOfferedExactly | crates/beaconops-core/src/monitor.rs:917-1232 | action by action, when the daemon refuses in every request what the desktop offers: a full exit shown as pending while leaving; a partial withdrawal of a slashed, leaving or exited validator; a consensus exit with an unknown activation, or a committee period that ends after the latest epoch an exit may name; never the other three |
| Preflight.YoungValidatorIsOffered | crates/beaconops-core/src/monitor.rs:976-996 | the desktop offers a consensus exit to a validator activated in the current epoch and the daemon refuses it in every request |
| Preflight.BlsChangeAgreesExactly | apps/desktop/src/lib/eligibility.ts:153-162 | the desktop offers each BLS change that the daemon would sign for some key exactly when a record with 0x00 credentials and a printed key says nothing of slashed, and exited only with pending or exiting; what the desktop offers the daemon signs for some key exactly when the record prints one |
| Preflight.SigningChecksRecord | crates/beaconops-core/src/monitor.rs:724-762 | once the fields of a request parse and the record is fetched, signing fails on the record exactly when its key is not the request's or its credentials do not start with 0x00 |
| Preflight.StandardStatusAgreement | apps/desktop/src/lib/eligibility.ts:58-76 | on the nine standard statuses the desktop offers all that the daemon accepts exactly when active_slashed comes with the flag |
| Preflight.StandardLifecycles | apps/desktop/src/lib/eligibility.ts:58-76 | what the desktop shows for each of the nine statuses |
| Preflight.StatusIgnoresCase | apps/desktop/src/lib/eligibility.ts:58-76 | statuses that differ only in case are treated alike |
| Preflight.ExitedUnslashedShowsAsSlashed | apps/desktop/src/lib/eligibility.ts:58-62 | a validator that left unslashed is shown as slashed, and the daemon takes it as exited |
| Preflight.StandardStatusIsCoherent | apps/desktop/src/lib/eligibility.ts:58-76 | the nine standard statuses are coherent when active_slashed carries the flag |
| Preflight.FlagMatters | apps/desktop/src/lib/eligibility.ts:58-62 | without the flag the daemon accepts a top-up that the desktop blocks |
| Preflight.BlsChangeIsNotChecked | crates/beaconops-core/src/monitor.rs:752-762 | the daemon signs a change from BLS credentials for a slashed validator, to which the desktop does not offer it |
| Preflight.DesktopOffersTooMuch | apps/desktop/src/lib/eligibility.ts:224-234 | the desktop offers a partial withdrawal to a slashed validator, which the daemon refuses |
| Text.ParsesExactly | crates/beaconops-core/src/monitor.rs:1868-1872 | a text parses to n exactly when n fits 64 bits and the text is n in decimal, after zeros and at most one plus sign |
| Text.TrimSpaced | crates/beaconops-core/src/config.rs:233 | a trim removes the spaces around a text and nothing else |
| Text.WhiteSpace | apps/desktop/src/lib/auth.ts:47-49 | which characters each of the two trims removes, and the two on which they differ |
| Text.LowerIsAscii | crates/beaconops-core/src/monitor.rs:632-638 | case is that of the 26 letters |
| Hex.HexDigits | crates/beaconops-core/src/monitor.rs:1749-1751 | each byte is the digit of its sixteens and that of its ones |
| Models.SeverityNames | crates/beaconops-core/src/models.rs:12-28 | severities by name, in any case, an unknown name as the lowest, and their order |

## Left out

- Monitor.NewestSnapshotHistory: says nothing of the snapshots that a failed tick obtained; what becomes of them is in Monitor.NewestIsShownExactly.
- Alerts.AntiSpamHolds: needs the check to work, because the code treats a failed check as "not sent"; what happens otherwise is in Alerts.AntiSpamExactly.
- Duties.SafeWindow: needs slots below 2^63, where the code's signed conversion does not wrap, and every fetched slot in some snapshot; when that is so is in Duties.PublishedReaches.
- Timestamps.StampOrder: covers years 0000 to 9999; leap seconds and other years have text of another shape.
- Ssz.ChainBinding: a domain keeps 28 of 32 bytes, so the code binds two chains only up to agreement in those bytes.
- Preflight.DaemonRefusesOfferedExactly: stops where the checks of the record and the request do; the private key, the fork and genesis replies and the raw transaction come after them. Amounts are whole gwei, and arithmetic wraps as in a release build.
- Scores are exact thousandths of a point; rounding of the code's binary fractions is not modelled, nor is the wrap-around of the 64-bit counters.
- Parallel requests that read and write one endpoint's state at the same time: runs here are sequential.
- HTTP clients, routes, Telegram delivery, logging and configuration loading, each replaced by its outcome; `last_error` and latency are kept, `updated_at` is not.
- The heartbeat message, the text of alerts and the fifteen lines a digest lists.
- SHA-256, BLS and PBKDF2 themselves, and key generation.
- SQLite beyond the meaning of each query: transactions, indexes, 64-bit signed storage of unsigned numbers, and which of several rows with equal time is returned.
- `latest_snapshot_for_validator`, `snapshot_history_since` and `recent_incidents`, which order by the same text and would repeat the same proof.
- Windows so long that subtracting them from the clock overflows the date type.
- Case folding and validation outside ASCII; the length of an id counts characters, not bytes.
- The withdrawal address of a tracked validator; its index and metadata are modelled.
- Sync committee membership and RPC degradation incidents, single lookups without state.
- Reward projections in floating point, and the queue and reason texts of the desktop's inventory.
- Saving, loading and clearing the desktop profile in local storage.
- Keymanager forwarding, the React pages and the Tauri shell.
