# Verification of the simulators' stores, protocols and checkers

A Dafny model of the parts of the cloud simulators whose correctness is hard to
see by reading one function: the keyed state layer, two locking protocols, a
handful of algorithms with a simple meaning and a clever implementation, three
certificate and registry protocols, and the closures and the renumberer of the
repository's own checkers. `dafny verify dfyconfig.toml` checks all of it.

| file | what it models |
|---|---|
| `Common.dfy` | what several modules share |
| `OrderedIds.dfy` | byte order, the sorted id list, prefix runs and the SQL key range of a prefix |
| `MemoryStore.dfy` | the in-memory store and the process-wide generation counter |
| `CachedStore.dfy` | the write-through cache as steps that a crash can cut anywhere |
| `SqliteStore.dfy`, `Prune.dfy` | the SQLite and cached stores as objects; the batched sweep under interference |
| `GenerationIndex.dfy` | the shared index under every interleaving of lookups and writes; path prefixes |
| `KeyedLocks.dfy`, `VolumeFreeze.dfy` | the self-reclaiming lock table; the freeze and thaw protocol |
| `Wildcard.dfy` | the greedy matcher against the recursive meaning of a pattern |
| `LogDelivery.dfy` | exactly-once log delivery by a follow stream and retried drains |
| `StoreRemap.dfy` | rewriting every key and nested string of a store |
| `OciRegistry.dfy` | manifests by tag and digest, refining a registry of content and tags |
| `AcmeValidation.dfy`, `AcmeCsr.dfy`, `AcmeServer.dfy`, `AcmeRequests.dfy` | the walk that finds a covering validation; which certificate requests match an order; the ACME server (RFC 8555); what signing a request means for it |
| `PrivateCa.dfy`, `AcmCertificates.dfy`, `AcmIssuance.dfy` | the lives of private CAs and of ACM certificates, across both services; when a certificate is issued |
| `NetworkRanges.dfy` | the renumberer of overlapping test networks |
| `Closures.dfy` | three reachability closures |

Code that mutates objects is modelled as classes and loops with contracts over
specification functions. The concurrent protocols are modelled as steps with one
program counter per thread, so that their theorems range over every number of
threads and every interleaving; a theorem about runs starts from the initial
state and holds at every position of the run. Each protocol over HTTP takes one
request as one step. Random identifiers are fresh, digests collision-free and
the persistence codec a round trip; cryptography, clocks, DNS answers, engine
results and database busyness are inputs.

Six promises are not met by the code on all inputs. Each is kept as the code
has it, refuted by a concrete case, and stated with its exact condition:

- A lookup on a SQLite store can miss a row that was visible before it began,
  because the row shows before the generation moves
  (`GenerationIndexes.LookupIsRightExactlyWhen`, and
  `GenerationIndexes.AVisibleRowIsMissed` for a case). The comment at
  sim/index.go:11-16, that two reads of one generation saw the same contents,
  holds for the memory and cached stores only.
- `Remap` keeps every row only when moved keys land apart
  (`StoreRemap.RemapIsExactExactlyWhen`).
- The registry's aliases stay consistent only for a PUT whose reference is a tag
  or the content's own digest, and an untag of a tag or of a digest no tag names
  (`OciRegistry.PutKeepsInvExactlyWhen`, `OciRegistry.DeleteTagKeepsInvExactlyWhen`).
- An ACME certificate can name what its order never did: the match looks at DNS
  names only, and the leaf takes the whole subject and all alternative names of
  the request (`AcmeServer.LeafNamesWereCoveredExactlyWhen`). The match also
  compares joined names, which NUL in a name can split differently
  (`CertificateNames.NulSplitsDifferently`), and sorts before it folds case, so
  that it refuses some requests for the order's own names
  (`CertificateNames.AcceptedExactlyWhen`).
- A restored CA gets its status back only if it was not deleted twice
  (`PrivateCas.RestoreGivesBackExactlyWhen`); and revoking a private certificate
  at its CA first leaves it ISSUED in ACM for good
  (`AcmCertificates.RevokedAtTheCaFirstIsNeverRevokedHere`).
- A test range that met no other function still moves when another range of its
  function in the same octet did (`NetworkRanges.StaysExactlyWhen`).

The comment at sim/volume_snapshot.go:168-172 says the channel closes on every
count change; the code closes it only where a count goes down, which
`VolumeFreezes.StepBroadcasts` shows to be enough.

## Model

| member | source | states |
|---|---|---|
| WildcardPatterns.TokensOf | sim/wildcard.go:33-50 | the loop reads a pattern as its recursive reading does, whose meaning the rows below on reading give |
| WildcardPatterns.UnescapedReadsPlaceByPlace | sim/wildcard.go:41-47 | a pattern without escapes reads place by place: '*' as star, '?' as any-one where the syntax has it, every other character as itself |
| WildcardPatterns.QuotedReadsInPlace | sim/wildcard.go:37-40 | a quoted string reads as its literals wherever it stands in a pattern, and what follows it is read on from there |
| WildcardPatterns.QuestionMarkTakesExactlyOne | sim/wildcard.go:43-44 | s?t, with s and t quoted, matches exactly the strings that begin with s, end with t and have one character between them |
| WildcardPatterns.StarTakesAnyRun | sim/wildcard.go:41-42 | s*t, with s and t quoted, matches exactly the strings that begin with s and end with t without overlap |
| WildcardPatterns.UnclearEndEscapesTheWildcard | sim/wildcard.go:37-40 | in the one case those two leave out, a last backslash of s that cannot itself be escaped, it makes the wildcard after it a literal |
| WildcardPatterns.Same | sim/wildcard.go:52-65 | true exactly for equal runes or, when case folds, runes on one folding orbit; ends for every orbit |
| WildcardPatterns.LapVisitsOrbit | sim/wildcard.go:59-63 | one lap of a folding orbit meets every rune of it |
| WildcardPatterns.Match | sim/wildcard.go:67-91 | true exactly when the tokens match all of the string under the recursive meaning of star, any-one and literal, although the loop only goes back to the last star; ends by a measure on star, mark and position |
| WildcardPatterns.LaterMatchReachesHere | sim/wildcard.go:79-82 | why the last star is enough: a match resuming after an earlier star also resumes at a later one |
| WildcardPatterns.BacktrackStep | sim/wildcard.go:79-82 | a retry loses no possible match |
| WildcardPatterns.StringExhausted | sim/wildcard.go:87-90 | at the end of the string the answer is whether only stars remain |
| WildcardPatterns.QuotedReadsAsLiterals | sim/wildcard.go:33-50 | a string with a backslash before every character that can take one reads as itself if and only if the syntax can escape each wildcard in it |
| WildcardPatterns.QuotedMatchesExactlyItself | sim/wildcard.go:38-40 | such a pattern matches that string, up to case where case folds, and no other |
| WildcardPatterns.UnquotableMatchesMore | sim/wildcard.go:38-42 | where a star cannot be escaped, the same pattern matches other strings too |
| KeyedLockTable.StepKeeps | sim/keyed_locks.go:26-46 | every critical section and mutex operation keeps the table invariant |
| KeyedLockTable.RunKeepsInv | sim/keyed_locks.go:26-46 | the invariant holds at every position of every run of any number of threads |
| KeyedLockTable.AtMostOneHolder | sim/keyed_locks.go:35-37 | at most one thread holds a key |
| KeyedLockTable.TableIsExactlyTheKeysInUse | sim/keyed_locks.go:28-44 | the table holds exactly the keys some thread entered and did not release, all threads on a key share its entry, and `users` counts them |
| KeyedLockTable.WaitersAreNotForgotten | sim/keyed_locks.go:36-39 | a waiting thread is blocked only by a thread that holds its key |
| KeyedLockTable.AThreadIsOnTheKeyItAskedFor | sim/keyed_locks.go:26-46 | from the step in which it asks for a key to the one in which it leaves, a thread is on that key |
| KeyedLockTable.OneOfTwoCallersHolds | sim/keyed_locks.go:26-46 | of two threads that asked for one key and have not left, at most one has it |
| KeyedLockTable.AFreeKeyIsLockedAndForgotten | sim/keyed_locks.go:26-46 | from every reachable state a thread gets a key nobody is on without waiting, and its release leaves the table as it was |
| VolumeFreezes.StepCounts | sim/volume_snapshot.go:204-298 | every step keeps the counters equal to the live holds, with no zero entries left behind |
| VolumeFreezes.StepBroadcasts | sim/volume_snapshot.go:180-183 | a count someone may wait on reaches zero only in a step that replaces the channel |
| VolumeFreezes.RunKeepsInv | sim/volume_snapshot.go:168-322 | the whole invariant holds at every position of every run |
| VolumeFreezes.FreezeSafety | sim/volume_snapshot.go:264-298 | no container has a freeze hold and a thaw hold; `holds` counts the captures that froze it; while engine calls succeed it is paused exactly when held |
| VolumeFreezes.WritersStayPausedDuringCopy | sim/volume_snapshot.go:228-253 | each writer a capture has on its list of frozen ones is paused for its whole copy, whatever other threads do |
| VolumeFreezes.EveryWriterIsPausedDuringCopy | sim/volume_snapshot.go:228-281 | on every run a capture copies only with every writer it was started with frozen, and each of them is paused and held thawed by no command as long as the copy lasts |
| VolumeFreezes.FreezeAdvancesExactlyWhen | sim/volume_snapshot.go:264-281 | a capture gets past its next writer if and only if no command holds it thawed and it is frozen already or the pause succeeds |
| VolumeFreezes.ThawIsHeldExactlyWhen | sim/volume_snapshot.go:204-212 | a thaw hold on a container is taken if and only if no capture has it frozen |
| VolumeFreezes.AbandonedPausesEnd | sim/volume_snapshot.go:300-322 | a paused container no capture holds runs again unless the engine did not carry the call out, and no other container changes |
| VolumeFreezes.ACaptureLeavesNoTrace | sim/volume_snapshot.go:228-298 | from every reachable state in which no command holds a writer thawed a capture can pause all its writers, copy, and give back counters, other threads and, while engine calls succeed, paused containers as it found them |
| VolumeFreezes.ThawedStaysThawed | sim/volume_snapshot.go:204-224 | a command under a thaw hold never meets a frozen container |
| VolumeFreezes.WaitersWakeUp | sim/volume_snapshot.go:187-197 | no wake-up is lost: a waiter on the open channel waits on a count still positive, any other can go on |
| GenerationIndexes.Rebuild | sim/index.go:58-68 | the rebuilt map answers every key with what a scan of the rows finds, in listed order, empty keys left out |
| GenerationIndexes.AnIndexExists | sim/index.go:58-68 | every listing has such a map, so no lookup is blocked by the specification |
| GenerationIndexes.RunKeepsInv | sim/index.go:38-72 | lookups, writes with separate row write and bump, and store replacement keep the index tied to a version of the store its generation announced |
| GenerationIndexes.LookupIsAScanOfRecentContents | sim/index.go:38-72 | under every interleaving a lookup returns a full scan of one version of its own store, no older than any write that returned before the call; for memory and cached stores no older than what readers saw at the call |
| GenerationIndexes.LookupIsRightExactlyWhen | sim/state_sqlite.go:148-161 | in any reachable state, every way a call can go it answers with the rows of contents current during the call if and only if no unannounced row is showing that the index, at that generation, misses for that key |
| GenerationIndexes.AVisibleRowIsMissed | sim/state_sqlite.go:154-160 | a run in which the table shows a row under its key before a lookup of that key begins, and the lookup returns nothing |
| GenerationIndexes.PathStaysFresh | sim/index.go:38-72 | along every path of a call, what is recorded at the generation it may read is the newest contents or later, or the one stale listing there was at its start |
| GenerationIndexes.PathPrefixes | sim/index.go:83-91 | the prefixes ending at a separator, shortest first |
| GenerationIndexes.RowAnswersOncePerPrefix | sim/index.go:74-91 | a row is under a parent key once if its identifier lies below the parent, and otherwise not at all |
| GenerationIndexes.PathIndexAnswersBelow | sim/index.go:74-91 | an index on path prefixes answers "below this parent" exactly, at every depth, in listed order |
| OrderedIdLists.Search | sim/ordered_ids.go:15-17 | the binary search finds the first id not before the sought one |
| OrderedIdLists.Sort | sim/ordered_ids.go:48 | any listing of distinct ids becomes the sorted list of them |
| OrderedIdLists.OrderedIds.constructor | sim/ordered_ids.go:43-50 | the list holds the store's keys in byte order, however the map was walked |
| OrderedIdLists.OrderedIds.Add | sim/ordered_ids.go:15-23 | the list afterwards is the sorted set with the id, whether or not it was there |
| OrderedIdLists.OrderedIds.Remove | sim/ordered_ids.go:25-30 | the list afterwards is the sorted set without the id |
| OrderedIdLists.OrderedIds.WithPrefix | sim/ordered_ids.go:34-41 | exactly the ids with the prefix, in order |
| OrderedIdLists.InsertKeepsOrder | sim/ordered_ids.go:20-22 | inserting at the search position keeps the list ascending and adds one member |
| OrderedIdLists.RemoveKeepsOrder | sim/ordered_ids.go:27-29 | cutting one position out keeps the list ascending and drops one member |
| OrderedIdLists.RunIsThePrefixSet | sim/ordered_ids.go:34-41 | the run of ids with a prefix is contiguous and complete |
| PrefixRanges.PrefixEnd | sim/state_sqlite.go:280-289 | the bound makes the key range equal to the prefix set and is the least such bound; where none is given none exists, trailing, only and no 0xff bytes included |
| PrefixRanges.RaisedBoundsThePrefix | sim/state_sqlite.go:282-286 | raising the last byte below 0xff bounds exactly the ids with the prefix |
| PrefixRanges.RaisedIsTheLeastBound | sim/state_sqlite.go:275-279 | below any smaller bound some id with the prefix is missed |
| PrefixRanges.MaximalHasNoBound | sim/state_sqlite.go:275-288 | where every byte is 0xff, ids under the prefix go past any bound |
| PrefixRanges.RangeAnswerIsPrefixListing | sim/state_sqlite.go:245-273 | the database's answer to the range query is the prefix listing |
| PrefixRanges.SnapshotPrefix | sim/state.go:252-259 | the items of the id run are the prefix listing |
| PrefixRanges.PrefixListingIsUnique | sim/state.go:243-249 | a store's contents leave one possible listing, so all three forms agree |
| MemoryStores.StoreGenerations.Next | sim/state.go:65-71 | each generation is new |
| MemoryStores.MemoryStore.constructor | sim/state.go:86-91 | an empty store with a generation of its own |
| MemoryStores.MemoryStore.Put | sim/state.go:178-184 | the map with the item, the id order kept, a generation newer than any drawn |
| MemoryStores.MemoryStore.Delete | sim/state.go:186-197 | the map without the id; the generation moves only if something was removed |
| MemoryStores.MemoryStore.Update | sim/state.go:267-281 | the edited item, or no change and no new generation for a missing id |
| MemoryStores.MemoryStore.Upsert | sim/state.go:283-292 | the edited item, from the zero value for a missing id |
| MemoryStores.MemoryStore.ListPrefix | sim/state.go:244-249 | exactly the items under the prefix in id order |
| MemoryStores.MemoryStore.Prune | sim/state_prune.go:163-180 | exactly the expired items removed and counted, in any walking order |
| SqliteStores.SqliteStore.Put | sim/state_sqlite.go:148-161 | the row is replaced and the generation newer than any drawn |
| SqliteStores.SqliteStore.Delete | sim/state_sqlite.go:163-180 | the row is gone; the generation moves only if there was one |
| SqliteStores.SqliteStore.Update | sim/state_sqlite.go:299-328 | the plain map's update |
| SqliteStores.SqliteStore.Upsert | sim/state_sqlite.go:330-359 | the plain map's upsert |
| SqliteStores.SqliteStore.ListPrefix | sim/state_sqlite.go:245-273 | the range query under the computed bound lists exactly the items under the prefix in id order |
| SqliteStores.SqliteStore.PruneScan | sim/state_prune.go:67-104 | the next batch of keys after the cursor and the expired ones among them, or busy |
| SqliteStores.SqliteStore.DeleteExpired | sim/state_prune.go:106-161 | only rows still expired in the transaction are deleted, all such candidates are, and the deleted keys are reported |
| SqliteStores.SqliteStore.Prune | sim/state_prune.go:26-43 | with any puts and deletes of others and busy calls in between, the loop ends and every change of the table is accounted for: the scheduled writes of others in order, and deletions of rows expired at that moment, as many as counted; unless a call is busy, of the keys nobody else writes exactly those with expired rows are gone; undisturbed, exactly the expired rows, the empty key included |
| SqliteStores.CachedStore.constructor | sim/state_cached.go:28-41 | every row is loaded and the ids are in order |
| SqliteStores.CachedStore.Get | sim/state_cached.go:62-71 | what the disk holds at the id |
| SqliteStores.CachedStore.Put | sim/state_cached.go:73-79 | the plain map's put, with memory, order and disk equal |
| SqliteStores.CachedStore.Delete | sim/state_cached.go:81-88 | the plain map's delete, with memory, order and disk equal |
| SqliteStores.CachedStore.Update | sim/state_cached.go:127-139 | the plain map's update, with memory, order and disk equal |
| SqliteStores.CachedStore.Upsert | sim/state_cached.go:141-152 | the plain map's upsert, with memory, order and disk equal |
| SqliteStores.CachedStore.ListPrefix | sim/state_cached.go:115-119 | the disk's items under the prefix in id order |
| SqliteStores.CachedStore.Candidates | sim/state_prune.go:186-193 | exactly the keys expired in memory |
| SqliteStores.CachedStore.Forget | sim/state_prune.go:199-203 | the deleted keys leave memory and order |
| SqliteStores.CachedStore.PruneBatch | sim/state_prune.go:197-204 | one batch deletes only rows still expired and leaves memory and disk equal |
| SqliteStores.CachedStore.Prune | sim/state_prune.go:182-212 | the cached sweep is accounted for and exact for the keys nobody else writes in the same way, exact and counted when undisturbed, with memory equal to disk throughout |
| Pruning.BatchIsTheNextKeys | sim/state_prune.go:67-104 | a batch is the first keys after the cursor in byte order, and empty only when none are left |
| Pruning.CursorAdvances | sim/state_prune.go:33-36 | the keys left shrink with every batch |
| Pruning.SweepAdvances | sim/state_prune.go:26-43 | after a batch everything up to the new cursor is swept |
| Pruning.CompleteSweepIsExact | sim/state_prune.go:26-43 | an empty batch means every expired row is gone |
| Pruning.CursorConsumes | sim/state_prune.go:26-43 | deletions never put keys back before the sweep, so it ends |
| Pruning.MoreCandidatesGone | sim/state_prune.go:195-208 | undisturbed, one more batch of candidates is gone and nothing else |
| Pruning.AllCandidatesGone | sim/state_prune.go:182-212 | after all batches exactly the unexpired rows remain |
| Pruning.CallIsAccounted | sim/state_prune.go:106-161 | one more database call is explained by the writes before it and its own deletions |
| Pruning.BatchKeepsUntouched | sim/state_prune.go:33-42 | after a batch, among the keys nobody else writes no expired row is left up to the new cursor and no unexpired one is gone |
| Pruning.MoreGoneUntouched | sim/state_prune.go:195-208 | after a batch of the cached sweep, none of its candidates that nobody else writes is left |
| Pruning.DeletionsAreOfExpired | sim/state_prune.go:128-145 | each deleted row was in the table with an expired value at the moment it went |
| CachedStores.PlanIsEffect | sim/state_cached.go:127-152 | the rows an operation writes, computed from memory, are its meaning on a plain map |
| CachedStores.StepKeeps | sim/state_cached.go:73-88 | disk, memory and order relate as they should between any two writes |
| CachedStores.RunKeepsInv | sim/state_cached.go:28-152 | and so at every position of every run with failures and crashes |
| CachedStores.ReadersSeeTheDisk | sim/state_cached.go:62-71 | whenever the lock is free memory, order and disk agree, so what a reader sees has reached the disk |
| CachedStores.CrashIsAllOrNothing | sim/state_cached.go:28-41 | a crash at any step and a reload give the state before or after the interrupted operation |
| CachedStores.CacheRefinesAPlainMap | sim/state_cached.go:73-152 | the store is at every moment the committed operations applied in order to a plain map |
| CachedStores.OperationTakesEffectOnce | sim/state_cached.go:73-152 | an operation that completes is four steps, exactly one of which changes the disk, to its effect on what it found under the lock |
| LogDelivery.LineCountingSink.WriteLog | sim/container.go:1460-1467 | the line is forwarded and counted on its own stream |
| LogDelivery.LineSkippingSink.WriteLog | sim/container.go:1489-1498 | a line still to skip is dropped and counted off, any other forwarded |
| LogDelivery.Follow | sim/container.go:1357-1364 | the follow stream delivers and counts each line |
| LogDelivery.Drain | sim/container.go:1479-1498 | a drain delivers of each stream exactly the lines past its skip |
| LogDelivery.DrainDelivers | sim/container.go:1431-1443 | a drain that skips what was delivered extends each stream's delivered prefix without gap or repeat |
| LogDelivery.CapturedIsDelivered | sim/container.go:1424-1443 | follow and drains together deliver a prefix of each stream, each line once, in order |
| LogDelivery.AnyCompleteDrainDeliversAll | sim/container.go:1424-1443 | if any drain that ran read to the end, the whole log was delivered exactly once |
| LogDelivery.CaptureLogs | sim/container.go:1424-1443 | for every log and every interleaving of the readers: at most three drains, stopped by success or the deadline, with the deliveries above |
| StoreRemap.ChangedExactlyWhenDifferent | sim/store_scan.go:105-185 | a change is reported exactly when the value changed |
| StoreRemap.RemapEditsExactlyTheReachableStrings | sim/store_scan.go:105-185 | at every path: a string reachable through settable fields is edited, everything else, byte slices and map keys included, is as before |
| StoreRemap.Store.Remap | sim/store_scan.go:72-88 | the loop over the key snapshot is the visits in that order |
| StoreRemap.VisitsStayMidway | sim/store_scan.go:72-88 | part of the way, visited rows are moved and edited, the others untouched, and there are no others |
| StoreRemap.RemapIsExact | sim/store_scan.go:72-88 | with keys landing apart, every order gives exactly the old rows rekeyed and edited, none lost, none doubled |
| StoreRemap.RemapIsExactExactlyWhen | sim/store_scan.go:72-88 | exact in every order if and only if moved keys land on keys not held and no two together |
| StoreRemap.LandingOnAHeldKeyIsNotExact | sim/store_scan.go:84-87 | a key landing on a held one loses or rewrites a row in some order |
| StoreRemap.CollidingKeysAreNotExact | sim/store_scan.go:84-87 | two keys landing together lose a row in every order |
| OciRegistry.ApartExactlyWhenKeysNeverMeet | sim/oci.go:248-259 | the test on key prefixes says exactly whether two repositories can compose one key |
| OciRegistry.WellNamedRepositoriesAreApart | sim/oci.go:241-259 | repository names without a colon and separate registry identities never share a key |
| OciRegistry.ColonInANameSharesKeys | sim/oci.go:248-259 | a colon in a name can make two repositories share a key |
| OciRegistry.PutKeepsInvExactlyWhen | sim/oci.go:523-534 | a PUT keeps every alias consistent if and only if its reference is a tag or the content's own digest |
| OciRegistry.ForeignDigestServesOtherBytes | sim/oci.go:523-534 | content put under the digest a tag names makes the tag and that digest serve different bytes |
| OciRegistry.DeleteKeepsInv | sim/oci.go:492-521 | deleting by tag or digest keeps every alias consistent |
| OciRegistry.DeleteTagKeepsInvExactlyWhen | sim/oci.go:669-678 | untagging keeps them if and only if it is given a tag, or a digest no tag names |
| OciRegistry.PutRefines | sim/oci.go:523-534 | a PUT is, to the repository, storing content under its digest and pointing the tag at it |
| OciRegistry.DeleteRefines | sim/oci.go:650-667 | a DELETE removes exactly that digest's content and the tags that name it |
| OciRegistry.DeleteTagRefines | sim/oci.go:669-678 | an untag removes that tag alone |
| OciRegistry.PutLeavesOthersAlone | sim/oci.go:523-534 | other scopes and repositories do not change |
| OciRegistry.DeleteLeavesOthersAlone | sim/oci.go:650-667 | other scopes and repositories do not change |
| OciRegistry.DeleteTagLeavesOthersAlone | sim/oci.go:669-678 | other scopes and repositories do not change |
| OciRegistry.TagsNameContent | sim/oci.go:523-534 | every tag names a digest whose content is stored under it |
| OciRegistry.TagAndDigestServeTheSameBytes | sim/oci.go:450-490 | a GET by tag and by the digest it names give the same bytes |
| OciRegistry.PutThenGet | sim/oci.go:450-534 | a PUT is answered with its own bytes, digest and content type under its reference and under its digest, and no other reference of the repository changes |
| OciRegistry.TypesAgreeExactlyWhen | sim/oci.go:523-534 | after the bytes a tag names are put again under another reference, tag and digest have one content type if and only if the tag had the new one |
| OciRegistry.RequestRefines | sim/oci.go:450-534 | any proper request on the rows is that request on the abstract registry, for every repository at once |
| OciRegistry.RunRefines | sim/oci.go:450-561 | so is any sequence of them, and the invariant holds throughout |
| OciRegistry.Registry.GetManifest | sim/oci.go:450-471 | a miss goes to the hydration hook once, and is looked up again when the hook says so; bytes, digest and content type are those of the row; in a whole registry they have the digest asked for |
| OciRegistry.Registry.Hydrate | sim/oci.go:454-456 | whatever the hook stores is stored as PUTs store it, and keeps every alias consistent if it comes under tags or its own digests |
| OciRegistry.Registry.PutManifest | sim/oci.go:523-534 | the rows at the reference and at the digest, and no other |
| OciRegistry.Registry.DeleteManifest | sim/oci.go:650-667 | every alias of the found content is deleted, in any order; false exactly when nothing was found |
| OciRegistry.Registry.DeleteTagOnly | sim/oci.go:669-678 | that row alone is deleted |
| OciRegistry.Registry.TagsList | sim/oci.go:544-561 | the references collected row by row, once sorted, are exactly the repository's live tags without duplicates |
| AcmeValidations.IndexKeyDecides | simulator-aws/acm_acme.go:1051-1053 | two index keys are equal exactly for one endpoint and one base domain up to case |
| AcmeValidations.WalkTestDecides | simulator-aws/acm_acme.go:1247-1259 | of a candidate found under a suffix, the three cases decide whether it covers the name |
| AcmeValidations.CoveringBaseIsASuffix | simulator-aws/acm_acme.go:1243-1265 | any covering validation's base domain is one of the suffixes the walk visits |
| AcmeValidations.CandidatesAreTheBaseDomain | simulator-aws/acm_acme.go:1239-1246 | a lookup returns exactly the endpoint's validations of that base domain |
| AcmeValidations.WalkedAll | simulator-aws/acm_acme.go:1243-1266 | when the walk runs out, nothing covers the name |
| AcmeValidations.ApprovalsAreLasting | simulator-aws/acm_acme.go:450-459 | reconciling rows on the way changes neither what is approvable nor by what |
| AcmeValidations.Validations.TryBase | simulator-aws/acm_acme.go:1244-1260 | one suffix: an approving candidate of it if there is one, in any order, and only reconciled rows written back |
| AcmeValidations.Validations.Find | simulator-aws/acm_acme.go:1234-1267 | found if and only if some validation of the endpoint, valid now or once looked at, covers the name as exact, wildcard or subdomain; ends for every name |
| AcmeValidations.ApprovesExactlyWhen | simulator-aws/acm_acme.go:1243-1266 | a validation of a domain or its wildcard approves exactly the domain, its wildcard and the names below it, up to case and each only under its part of the scope, once valid or its DNS record answers |
| AcmeValidations.Validations.ApproveAll | simulator-aws/acm_acme.go:1191-1203 | an approval for each identifier if and only if each has one; nothing but reconciliation changes |
| AcmeServer.RunKeepsInv | simulator-aws/acm_acme.go:782-850 | nonces, keys, bindings and orders keep their invariants over every run of requests, refused ones included |
| AcmeServer.EachNonceAdmitsAtMostOneRequest | simulator-aws/acm_acme.go:763-771 | section 6.5 of RFC 8555: a request is admitted exactly when its nonce was issued and admitted none before |
| AcmeServer.AKeyHasOneAccount | simulator-aws/acm_acme.go:1070-1075 | sections 7.3 and 7.3.5 of RFC 8555: no two accounts of an endpoint share a thumbprint |
| AcmeServer.ABindingServesOneAccount | simulator-aws/acm_acme.go:1128-1131 | section 7.3.4 of RFC 8555: a binding serves at most one account, even once deleted |
| AcmeServer.AnOrderYieldsOneCertificate | simulator-aws/acm_acme.go:1302-1378 | section 7.4 of RFC 8555: at most one certificate for an order; its stored record lists exactly the order's names, its leaf the names of a request that matched the order |
| AcmeServer.EveryOrderWasCovered | simulator-aws/acm_acme.go:1191-1229 | every stored order was made by a request during which every identifier was covered |
| AcmeServer.LeafNamesWereCoveredExactlyWhen | simulator-aws/acm_acme.go:1382-1478 | the DNS names of every leaf were covered, up to case, when the order was made; all its names were if and only if it has none beside DNS names and its common name is empty, one of them, or stands in for them (for joined names that split alike) |
| AcmeServer.FinalizeTakesAnyCommonName | simulator-aws/acm_acme.go:1321-1333 | for every ready order, the order's names with any common name and any other names are accepted, and the leaf carries them |
| CertificateNames.SortForgetsTheOrder | simulator-aws/acm_acme.go:1388-1389 | sorting makes the listing order of names irrelevant |
| CertificateNames.SplitsAlikeExactlyWhen | simulator-aws/acm_acme.go:1390 | equal joined forms hold the same names if and only if the names have the same lengths |
| CertificateNames.NulFreeSplitsAlike | simulator-aws/acm_acme.go:1390 | which they have whenever the identifiers hold no NUL |
| CertificateNames.MatchedNamesAreTheOrders | simulator-aws/acm_acme.go:1382-1391 | an accepted request asks for exactly the order's names, up to case and order, if and only if the joined forms split alike |
| CertificateNames.AcceptedExactlyWhen | simulator-aws/acm_acme.go:1382-1391 | of all requests, exactly those are accepted whose names and the order's, each sorted as written, agree place by place up to case (identifiers without NUL) |
| CertificateNames.CaseCanSpoilTheOrder | simulator-aws/acm_acme.go:1388-1390 | "B.com", "a.com" is refused for an order of "a.com", "b.com", although the names are the same up to case and order |
| CertificateNames.AllInOrderExactlyWhen | simulator-aws/acm_acme.go:1382-1391 | an accepted request that splits alike carries only names of the order if and only if it has no names beside DNS names and no foreign common name |
| CertificateNames.AForeignCommonNameIsAccepted | simulator-aws/acm_acme.go:1382-1386 | "evil.com" as common name beside the order's own DNS name is accepted |
| CertificateNames.NulSplitsDifferently | simulator-aws/acm_acme.go:1390 | with NUL in an identifier a request for other names is accepted |
| CertificateNames.DifferentSplitsCanBeRight | simulator-aws/acm_acme.go:1390 | a request that splits differently can still carry only names of the order |
| AcmeServer.NothingDangles | simulator-aws/acm_acme.go:348-374 | a validation or active binding always has its endpoint, an endpoint's domain one validation, and a binding that made an account goes only after it was revoked |
| AcmeServer.ClosedAccountsStayClosed | simulator-aws/acm_acme.go:891-900 | a deactivated or revoked account never becomes valid, keeps its key and is never the caller again |
| AcmeServer.OrdersAppearApproved | simulator-aws/acm_acme.go:1183-1232 | orders are never removed, keep their identifiers and appear only when all of them are approvable |
| AcmeServer.BodyKeepsKeys | simulator-aws/acm_acme.go:1586-1595 | no handler gives an endpoint's key a second account |
| AcmeServer.BodyKeepsBindings | simulator-aws/acm_acme.go:1086-1106 | no handler gives a binding a second account |
| AcmeServer.BodyKeepsOrders | simulator-aws/acm_acme.go:1375-1378 | no handler gives an order a second certificate |
| AcmeServer.Server.VerifyJws | simulator-aws/acm_acme.go:861-925 | the nonce is used up by the first request that shows it; served as a key if and only if the request is for this URL, carries that key and no account and is signed by it, as an account if and only if it names it, carries no key, and the key of that valid account of the endpoint signed it |
| AcmeServer.Server.NewAccount | simulator-aws/acm_acme.go:1055-1109 | a location comes back exactly when the key has an account afterwards; a new key with a free, proven binding gets a valid account and uses the binding up, and nothing changes otherwise |
| AcmeServer.Server.KeyChange | simulator-aws/acm_acme.go:1538-1597 | the account has the new key afterwards exactly when no other account of the endpoint had it, and no other account changes |
| AcmeServer.Server.NewOrder | simulator-aws/acm_acme.go:1183-1232 | an order, ready and of the account, is stored exactly when there are identifiers and each is approvable |
| AcmeServer.Server.Finalize | simulator-aws/acm_acme.go:1296-1380 | exactly a ready order of the account whose names the request matches gets its one certificate and is finished |
| AcmeServer.Server.UpdateAccount | simulator-aws/acm_acme.go:1162-1181 | no other account changes, a deactivated one is closed, a closed one keeps its key and is not reopened |
| AcmeServer.Server.Post | simulator-aws/acm_acme.go:782-850 | a POST on the stores is one step of the machine the run theorems are about |
| AcmeRequests.ChangesAreSignedFor | simulator-aws/acm_acme.go:861-925 | on every run, a POST changes an account or its orders only if that valid account's own key signed it, issues only to the account of the ready order, and makes an account only under the key that signed, for a binding that was free |
| AcmeRequests.UnsignedChangesNothing | simulator-aws/acm_acme.go:873-911 | a POST nobody signed, for another URL, or with a nonce not issued or used before changes no store |
| AcmeRequests.SignedNewAccountIsMade | simulator-aws/acm_acme.go:1055-1109 | a new key with a free binding it proves gets its account, and nothing else changes but the binding |
| AcmeRequests.SignedOrderIsMade | simulator-aws/acm_acme.go:1183-1232 | a signed request for names that are all covered gets its order |
| AcmeRequests.SignedFinalizeIssues | simulator-aws/acm_acme.go:1296-1380 | a signed request that matches the account's ready order gets the certificate |
| AcmeRequests.SignedKeyChangeTakesEffect | simulator-aws/acm_acme.go:1538-1597 | a proven key no other account of the endpoint has becomes the account's, and from then on only that key signs for it |
| AcmeRequests.SignedDeactivationCloses | simulator-aws/acm_acme.go:1162-1181 | a deactivated account signs no further request |
| AcmeRequests.AnAuthorizedClientGetsItsCertificate | simulator-aws/acm_acme.go:1055-1380 | on every run a client with a key of its own and a free binding gets, by three signed requests, its account, its order for covered names and the order's one certificate |
| AcmeRequests.EveryDomainCanHaveACertificate | simulator-aws/acm_acme.go:235-1380 | from an empty server, for every endpoint, key and domain there is a run of seven requests that ends with a certificate for exactly that domain |
| AcmeRequests.ARevokedBindingMakesNoAccount | simulator-aws/acm_acme.go:649-685 | after a binding is revoked no account ever appears with it, even once it is deleted |
| AcmeRequests.ARevokedAccountSignsNothing | simulator-aws/acm_acme.go:708-723 | after an account is revoked no request is ever signed by it |
| AcmeRequests.AnUpdatedValidationMustAnswerAgain | simulator-aws/acm_acme.go:507-546 | a validation whose scope is changed approves nothing until its DNS record answers again; a deleted one is gone |
| AcmeRequests.AnEndpointGoesExactlyWhen | simulator-aws/acm_acme.go:348-374 | an endpoint is deleted if and only if it has no validation and no binding but revoked ones, and serves nobody afterwards |
| PrivateCas.EveryRunKeepsCaOk | simulator-aws/acmpca.go:585-806 | whatever is asked of it, a CA that is usable, or would be once restored, is certified |
| PrivateCas.UsableCasAreCertified | simulator-aws/acmpca.go:585-615 | from its creation on an ACTIVE or DISABLED CA holds an imported CA certificate of its own key |
| PrivateCas.RestoredCasAreNeverActive | simulator-aws/acmpca.go:765-777 | no CA ever remembers ACTIVE for a restore |
| PrivateCas.RestoreGivesBackExactlyWhen | simulator-aws/acmpca.go:752-806 | a PENDING or DISABLED CA that is deleted gets its status back, with its key and certificate, if and only if the restore comes by the deadline that deletion set and no second deletion was accepted in between |
| PrivateCas.ACaLives | simulator-aws/acmpca.go:585-806 | certified, disabled, deleted, restored by the deadline and enabled again, a CA ends ACTIVE with the certificate it was given |
| PrivateCas.DeletingTwiceLosesTheStatus | simulator-aws/acmpca.go:777-778 | a case where it does not: restored in time after one deletion, lost after two |
| PrivateCas.DeletedTwiceIsForever | simulator-aws/acmpca.go:777-801 | a CA deleted twice never leaves DELETED |
| PrivateCas.TooLateToRestore | simulator-aws/acmpca.go:797-800 | past the deadline a DELETED CA stays as it is, unless a further deletion sets a new deadline |
| PrivateCas.CertifiedLasts | simulator-aws/acmpca.go:585-806 | no request takes a CA's certificate away |
| PrivateCas.Authorities.Serve | simulator-aws/acmpca.go:585-806 | every usable CA stays certified; a PENDING CA takes exactly a CA certificate of its own key and is ACTIVE, a usable one the status it is told, any but an ACTIVE one is deleted for 7 to 30 days, 30 when none are named, and restored by then; a refused request changes nothing |
| PrivateCas.Authorities.Issue | simulator-aws/acmpca.go:379-382 | issued exactly by an ACTIVE CA, or by a PENDING one for its own root; a new row's CA is certified, unless it is such a root |
| PrivateCas.Authorities.Revoke | simulator-aws/acmpca.go:508-524 | the row is REVOKED even where the revocation list fails, and no other row changes; an error exactly for a missing or revoked row or a failed list |
| AcmCertificates.SuccessIsEarned | simulator-aws/acm.go:873-982 | a request leaves an option at SUCCESS only if it was before or the request shows control of the domain for that certificate: an unexpired link mailed about both, or a standing DNS record while the certificate is reconciled |
| AcmCertificates.SuccessWasShown | simulator-aws/acm.go:873-982 | so every option at SUCCESS has an earlier request of the run that showed it |
| AcmCertificates.OpenLinkEarns | simulator-aws/acm.go:953-982 | a mail link moves to SUCCESS only options of its own domain, and DNS options whose record stands |
| AcmCertificates.RevokeIsOk | simulator-aws/acm.go:486-519 | a revocation leaves a REVOKED certificate only with its row REVOKED |
| AcmCertificates.RequestKeepsCert | simulator-aws/acm.go:873-1028 | every request keeps what holds of each certificate |
| AcmCertificates.RequestKeepsRows | simulator-aws/acm.go:756-796 | no two certificates have one record at a CA |
| AcmCertificates.RecordsOnlyGrow | simulator-aws/acmpca.go:508-524 | records at CAs are never removed and stay revoked |
| AcmCertificates.RunKeepsInv | simulator-aws/acm.go:873-982 | over every run of requests to both services |
| AcmCertificates.IssuedMeansValidated | simulator-aws/acm.go:873-911 | an ISSUED certificate has every validation at SUCCESS, and for each of them an earlier request of the run showed control of that domain for that certificate |
| AcmCertificates.RevokedIsFinal | simulator-aws/acm.go:1400-1427 | REVOKED is left only by deletion, and no later certificate takes the id |
| AcmCertificates.RevokedMeansRevokedAtTheCa | simulator-aws/acm.go:486-519 | a REVOKED private certificate is REVOKED at its CA in a record of its own, and no imported one is REVOKED |
| AcmCertificates.UsableAuthoritiesAreCertified | simulator-aws/acmpca.go:719-806 | every ACTIVE or DISABLED CA of every reachable state is certified |
| AcmCertificates.PrivateCertificatesHaveCertifiedIssuers | simulator-aws/acm.go:756-796 | a private certificate has its record at a CA that exists and is certified |
| AcmCertificates.LinksWorkWhileTheCertificateExists | simulator-aws/acm.go:953-980 | a mail link's certificate, while it exists, has the EMAIL option the link is about, so the not-found answer is only for a deleted certificate |
| AcmCertificates.MailedConcernOptions | simulator-aws/acm.go:913-930 | mails sent for a certificate are about its own EMAIL options |
| AcmCertificates.OptionsStay | simulator-aws/acm.go:873-982 | a certificate keeps the domains and methods of its options for life |
| AcmCertificates.CertChanges | simulator-aws/acm.go:486-1428 | whatever is asked, a certificate only advances with its options, row and endpoint kept, is imported again over an import, or is revoked through its CA or its ACME endpoint |
| AcmCertificates.RevokeWorksExactlyWhen | simulator-aws/acm.go:508-517 | a revocation takes effect in ACM if and only if the CA had not revoked before and could publish it; at the CA it always does |
| AcmCertificates.RevokedAtTheCaFirstIsNeverRevokedHere | simulator-aws/acmpca.go:508-515 | a private certificate revoked at its CA while ISSUED in ACM stays ISSUED until it is deleted |
| AcmCertificates.RevokedAtTheCaFirstIsReachable | simulator-aws/acmpca.go:993-1031 | a run that gets there |
| AcmCertificates.CertificateManager.ReconcileIssuance | simulator-aws/acm.go:873-911 | stored as ISSUED, renewable, with every option at SUCCESS and the minted leaf, if and only if it is a pending Amazon certificate, each option has succeeded or its DNS record stands, and a leaf can be minted; nothing is written otherwise |
| AcmCertificates.CertificateManager.SendMails | simulator-aws/acm.go:913-930 | one mail per EMAIL option, for that domain and certificate |
| AcmCertificates.CertificateManager.OpenLink | simulator-aws/acm.go:953-982 | works exactly for an unexpired token whose certificate has such an option; then the token is used up and of the EMAIL options exactly those of its domain come to success |
| AcmCertificates.CertificateManager.ConfirmOptions | simulator-aws/acm.go:965-972 | the loop brings exactly the EMAIL options of the domain to success and says whether there were any |
| AcmCertificates.CertificateManager.RenewCert | simulator-aws/acm.go:1400-1428 | renewal never leaves an ISSUED certificate pending, and success means the newly minted leaf |
| AcmCertificates.CertificateManager.RevokeCert | simulator-aws/acm.go:486-519 | success exactly for a private certificate whose record was still issued and whose list could be written, and then with both records REVOKED |
| AcmCertificates.CertificateManager.RequestPrivateCert | simulator-aws/acm.go:756-796 | success exactly with an ACTIVE CA that makes a certificate that parses, and then with its row written |
| AcmIssuance.DescribeIssuesExactlyWhen | simulator-aws/acm.go:873-911 | in every state, describing a certificate issues it if and only if it is a pending Amazon one, each option has succeeded or is a DNS option whose record stands, and a leaf can be minted; otherwise it stays as it is, and so do all others |
| AcmIssuance.OpenLinkIssuesExactlyWhen | simulator-aws/acm.go:953-982 | in every reachable state an unexpired link of an existing certificate is used up, brings the EMAIL options of its domain to success, and issues by the same rule |
| AcmIssuance.RenewReplacesTheMaterial | simulator-aws/acm.go:1400-1428 | in every reachable state a renewal replaces the leaf of a renewable certificate and keeps all else, whatever DNS holds by then, if and only if a leaf can be minted |
| AcmIssuance.MailsReachEveryOption | simulator-aws/acm.go:913-930 | every EMAIL option gets a mail under a token of its own, and no earlier mail is lost |
| AcmIssuance.RequestedIsPending | simulator-aws/acm.go:756-930 | a new certificate waits for the validation of each of its domains, each with its mail where mail is the method |
| AcmIssuance.ADnsCertificateIsIssued | simulator-aws/acm.go:873-911 | on every run a certificate validated by DNS is ISSUED once it is described with its records in place |
| AcmIssuance.AnEmailCertificateIsIssued | simulator-aws/acm.go:953-982 | on every run a certificate validated by mail is ISSUED once every link mailed for it has been opened |
| AcmIssuance.PrivateIsIssuedExactlyWhen | simulator-aws/acm.go:756-796 | a private certificate and its record appear if and only if the CA is ACTIVE and makes one that parses |
| AcmIssuance.ImportsAndDeletionsTakeEffect | simulator-aws/acm.go:1011-1252 | a certificate is imported, imported anew only over an imported one, and deleted unless it is in use |
| AcmIssuance.AcmeRevokesExactlyWhen | simulator-aws/acm_acme.go:1490-1536 | the ACME server revokes exactly a certificate of its endpoint with the leaf it was shown, for a caller it authorized |
| NetworkRanges.OverlapsMeansASharedAddress | scripts/check-test-network-ranges.go:219-223 | the mask test says exactly whether two ranges share an address |
| NetworkRanges.FreeOctet | scripts/check-test-network-ranges.go:274-282 | the highest free octet from 255 down to 1, none only when all are in use |
| NetworkRanges.UsedOctets | scripts/check-test-network-ranges.go:198-205 | exactly the octets of 10.0.0.0/8 some function names, placing or not |
| NetworkRanges.MeetsAny | scripts/check-test-network-ranges.go:218-221 | whether a range meets a function |
| NetworkRanges.Collisions | scripts/check-test-network-ranges.go:216-227 | exactly the earlier placing functions a range meets |
| NetworkRanges.Renumbering | scripts/check-test-network-ranges.go:214-236 | an octet is renumbered exactly when a range in it meets an earlier function, to an octet not in use, given once |
| NetworkRanges.ApplyMoves | scripts/check-test-network-ranges.go:237-246 | in any order of the moves, every range of a moved octet moves once |
| NetworkRanges.Check | scripts/check-test-network-ranges.go:198-248 | the reported pairs are exactly the collisions; with -fix the suite is renumbered as below; it stops only when every octet is in use |
| NetworkRanges.NoOverlapRemains | scripts/check-test-network-ranges.go:206-248 | after the pass no two placing functions overlap in 10.0.0.0/8 |
| NetworkRanges.NewOctetsAreAlone | scripts/check-test-network-ranges.go:230-233 | a range at a new octet meets no other function |
| NetworkRanges.MovesExactlyWhatLeaves | scripts/check-test-network-ranges.go:214-236 | an octet of a function is renumbered if and only if, in the suite as it was, a range in it overlaps an earlier placing function that the octet does not leave |
| NetworkRanges.StaysExactlyWhen | scripts/check-test-network-ranges.go:237-246 | a range stays if and only if it is outside 10.0.0.0/8 or its octet does not leave its function, which the suite before the pass decides |
| NetworkRanges.ARangeThatMeetsNothingCanMove | scripts/check-test-network-ranges.go:239-245 | a case where a range that met nothing moves |
| NetworkRanges.LayoutWithinAFunctionIsKept | scripts/check-test-network-ranges.go:237-246 | a function's ranges overlap each other after the pass exactly when they did before |
| NetworkRanges.ASecondPassMovesNothing | scripts/check-test-network-ranges.go:206-248 | the pass is idempotent |
| NetworkRanges.ReportedExactlyWhenOverlapping | scripts/check-test-network-ranges.go:218-229 | something is reported exactly when two placing functions overlapped to begin with, although earlier functions moved meanwhile |
| ProcessChangers.Close | scripts/check-parallel-tests.go:149-164 | for every call graph and visiting order the loop ends with exactly the functions that reach a seed |
| ProcessChangers.ClosedIsEverything | scripts/check-parallel-tests.go:149-164 | a set closed under callers holds all that reach a seed |
| StoreScans.Walk | scripts/check-store-scans.go:143-161 | a function's known callees become reachable with its reason |
| StoreScans.Pass | scripts/check-store-scans.go:138-163 | one range over the growing map either grows it or finds it closed |
| StoreScans.Close | scripts/check-store-scans.go:132-164 | exactly the functions a seed leads to, each with the reason of such a seed |
| CborShapes.Reacher.Reach | scripts/gen-cloudwatch-cbor-shapes.go:56-73 | on any graph, cycles included, the recursion ends, marks the shape and all it leads to, and nothing else new |
| CborShapes.Reacher.ReachEnd | scripts/gen-cloudwatch-cbor-shapes.go:79-83 | an operation's input or output other than the unit shape is marked with all it leads to |
| CborShapes.Reacher.ReachOperations | scripts/gen-cloudwatch-cbor-shapes.go:74-88 | the marked shapes are exactly those an operation's input or output leads to |

## Left out

- Values are immutable and stored as given: the deep copies of `cloneStoreValue` and the persistence envelope (sim/state.go:93-163, sim/state_sqlite.go:27-97) are assumed to round-trip.
- Database errors other than a busy database end the process and are not modelled; a failed write of the cached store is a step that changes nothing.
- Generations are unbounded, so wrap-around of the 64-bit counter is not modelled.
- The concurrent protocols (sim/index.go, sim/volume_snapshot.go, sim/keyed_locks.go, the crash steps of sim/state_cached.go) are steps over values, not objects with locks; what a mutex or channel does is taken as its step.
- LogDelivery.CaptureLogs: a failing read is taken to end at a whole line, and one WriteLog is one step; a partial last line is not modelled.
- StoreRemap.RemapEditsExactlyTheReachableStrings: stored values are trees, as Get hands them out; shared or cyclic pointers are not modelled.
- StoreRemap.Store.Remap: other writers during the pass are not modelled; a row deleted meanwhile is skipped, and a write between its Get and its Put is lost.
- OciRegistry.Registry.GetManifest: what the hydration hook fetches is an input. The GET handler takes no lock, so it can fall between the two writes of a PUT and name a digest that has no row yet; each request is one step here.
- OciRegistry: blobs, uploads, compression, size limits, authorization and paging of the tag list.
- AcmeServer and AcmCertificates: concurrent handlers, whose get-then-put sequences are not atomic; the machine takes one request at a time.
- AcmeServer: which keys a signature verifies under is an input of the request; key parsing, MACs, the expiry of bindings and malformed payloads are one outcome each; endpoints are ACTIVE while they exist; identifiers are DNS names; lower-casing and case folding are maps on characters.
- AcmeServer.LeafNamesWereCoveredExactlyWhen: a request with several alternative-name extensions is not modelled; where joined names split differently, which takes NUL in a name, the condition is not exact, and one case each is given that fails and that does not.
- AcmeServer.Server.Post: responses other than the account location are not modelled.
- AcmCertificates: mail delivery, tags, export, listing, the text of subjects, and what uses a certificate (an input of deletion).
- PrivateCas: the moment that many days after a deletion is an input, since it depends on the server's time zone; validity periods, templates beyond root or not, idempotency tokens, permissions, policies, audit reports and the contents of revocation lists.
- NetworkRanges.Check: parsing the tests, which functions place a workload (scripts/check-test-network-ranges.go:163-181, the loop of `ProcessChangers.Close` on other data) and the text edits of -fix are not modelled.
- Closures: parsing and the reports built from the closed sets.
- Engine calls, HTTP serving, consoles, telemetry, the other services and the generators: input and output over libraries.
