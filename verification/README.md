# Replica, protocol and trust model

This project models the replication core of the organisation-wide SQLite replica in `rust/p2p-core` and
the register kept by `rust/seed-server`, and proves what they keep over every run.

* **Clock** (`HybridLogicalClock.dfy`): the hybrid logical clock under arbitrary, even backward, readings of the
  system clock, and the 24-character form that every SQL comparison uses.
* **Records** (`Bytes.dfy`, `Change.dfy`): values, change records, the last-writer-wins order, version
  vectors, and the bytes a signature covers.
* **Replica** (`Replicas.dfy`, `Database.dfy`): `Replicas` says what each operation makes of a replica seen as a
  value; the class `Database.Db` holds the tables as fields that its methods update in place, and each
  method is proved to compute exactly that value. The change log is a sequence whose positions are the
  sequence numbers; cells, tombstones, the vector and the app's rows are maps.
* **Invariants of one replica** (`Index.dfy`, `Convergence.dfy`, `Projection.dfy`, `Flushes.dfy`,
  `Authoring.dfy`, `LastWriter.dfy`, `PendingEdits.dfy`, `Settling.dfy`, `Runs.dfy`): the indexes over the
  log, convergence, the app tables as a projection, what a flush emits, when all that it emits is stored,
  what a remote batch does to edits that are still staged, which staged rows a flush settles whatever the
  clock says, and all of these over whole runs of one device.
* **Network** (`Network.dfy`, `CatchUp.dfy`): any number of replicas that write, restart and exchange Sync
  requests, pages and pushes. Every message ever sent stays available for ever, so loss, duplication,
  delay and reordering are all runs of the model. `CatchUp` adds progress: how many pages, when it
  stalls, and what any sequence of pairwise meetings spreads. `SyncRounds.dfy` shows that two nodes that
  exchange requests and pages through their event handlers do exactly that catch-up.
* **Live path** (`Outbox.dfy`): the broadcast watermark and the chunks that go out.
* **Identity** (`Identity.dfy`): certificates, revocation lists, enrolment proofs and invite codes. Ed25519,
  the organisation hash and peer ids are abstract functions.
* **Trust gate** (`Gate.dfy`, `GateDuties.dfy`, `GateRuns.dfy`, `NodeRuntime.dfy`): the node's event handlers,
  as functions on a value and as methods of the class `NodeRuntime.Runtime`. `GateDuties` says of each thing a
  node sends or announces exactly when it does; `GateRuns` has the properties of every run of events.
* **Seed register** (`Registry.dfy`, `Ledger.dfy`, `Enrolment.dfy`, `Revocation.dfy`): invites, devices, serials
  and the revocation list, how every certificate and every peer's role goes back to an invite, and what a
  revocation at the seed server means at every node.
* **Limits** (`Limits.dfy`): short runs of an empty device in which a tempting promise fails: an example for
  each condition that the run theorems of `Runs` and `Network` put on flushes, remote batches and pushes.

Readings of the system clock, signatures, random codes, the order in which a hash map yields its keys, and
whether a write to disk succeeds are parameters. Text is a sequence of UTF-8 bytes, so string order is byte
order, as in SQLite's default collation and Rust's `str`.

## Where comments and code differ

The code is followed in each case.

* `HybridClock::tick` is described as monotonic (rust/p2p-core/src/hlc.rs:96). It is strictly so unless the
  counter is saturated (`TickFreshIff`), which one stamp from another device can bring about until the system
  clock passes it. A flush stores all the records it returns exactly when its ticks are fresh
  (`FlushAuthorsFreshIff`). Otherwise a record is sent but not stored, and its cell rests on no record
  (`SaturatedCounterLosesARecord`).
* `HybridClock::observe` is described as making later writes sort after everything seen
  (rust/p2p-core/src/hlc.rs:109-114). That holds for stamps inside the drift window
  (`TickFollowsEverythingSeen`). Over a whole session it holds of a stamp exactly when its wall part is
  behind the next reading or behind the furthest reach of the session, or level with that reach and behind
  the counter (`TickFollowsIff`). `NextTickBeatsIff` says when the next tick takes a held cell, and
  `FlushSettlesIff` which flushes settle all they flush. Otherwise the edit is logged and sent, yet it is
  the last write nowhere where the far record is held (`LocalEditLosesToFutureStamp`). Inside the window the
  promise holds over whole runs until the device restarts (`EditsFollowWhatWasReceived`). A restart resumes
  from the device's own records, as the code means it to (rust/p2p-core/src/db/mod.rs:133-135), so what was
  absorbed before is ahead of the clock again (`RestartForgetsWhatWasSeen`).
* Two people who edit different fields of a row are described as both keeping their edit (the repository's
  README.md:86-87 and 90-91). That is so once both edits are logged (`CellIsLastWrite`). An edit may still
  be staged when a remote batch arrives: one written outside `Db::execute`, which waits for the next sweep
  (rust/p2p-core/src/net/config.rs:33-35), an adopted row, or one between the statement and the flush of
  `Db::execute`, which take the lock in turn (rust/p2p-core/src/db/mod.rs:538-546). The node applies the batch
  without flushing first (rust/p2p-core/src/net/node.rs:479-517) and rewrites every column that has a cell
  (rust/p2p-core/src/db/mod.rs:880-907). Such an edit survives exactly when `PendingEditSurvivesIff` says so:
  `PendingUpdateIsLost` is an edit of one column lost to a remote edit of another, `PendingInsertIsLost` a
  new row lost to a tombstone.
* "A flush turns each genuinely changed column into a change record" (the repository's README.md:82-84) does
  not cover a deleted row that is inserted again with its old values: nothing is sent, and the row stays in
  the writer's table while the shared state holds it deleted (`ReinsertedRowIsNeverAnnounced`). Nor does it
  cover a new row of a table that has no column besides its key, which `register_table` accepts
  (rust/p2p-core/src/db/mod.rs:203-232): there is no column to announce (`KeyOnlyRowIsNeverAnnounced`).
  `FlushProjectsIff` shows that there is no third case while the clock is not behind.
* The live push is described as free to repeat (rust/p2p-core/src/net/node.rs:386-389). It is, but it must
  not overtake: a push that arrives before an earlier one by the same author moves the vector over the gap,
  and no Sync round ever brings the skipped record (`ApplyClosesIff`, `OvertakingPushLosesARecord`,
  `GapStaysOpen`).
* A node is described as refusing data until the peer has shown a valid certificate
  (rust/p2p-core/src/net/node.rs:9-13), and a discovery-only node as storing nothing (lines 655-657 and
  docs/seed-server.md:77). Requests and gossip are checked that way. A Sync response is not: lines 710-717
  apply it whoever sent it, whatever request it answers, and whether or not the node replicates. Records from
  a peer that was not admitted are stored exactly in that case (`UnadmittedStoresIff`,
  `StoredFromAnnouncedIff`), and the log of a discovery-only node changes exactly in that case
  (`DiscoveryStoresIff`, `DiscoveryNodeHoldsNothing`). `UnadmittedPageIsStored` is a run of two events. The
  author filter and the authorship check apply all the same.
* Revocation is described as locking a device out (the repository's README.md:110-111), except from peers
  that have not seen the new list (docs/security.md:79-81). Three things stand against that. A device that
  enrols again takes its old serial off the list, and no later call can put it back
  (`RevocationsSurviveIff`, `SupersededIsNeverRevoked`). A revocation whose list time does not exceed the one
  before, because the server's clock went back or the second statement of `revoke` failed, yields a list that
  a node with the earlier one does not adopt; `ListsGrowIff` says exactly which calls leave lists growing. And
  a node that merges a list does not look at the peers it has already admitted: a listed one is served until
  its last connection closes or the process restarts, even if its own later Hello is refused
  (`ListedPeerIsServedIff`, `ListedPeerKeepsBeingServed`). `RevocationHolds` says what does hold, from the seed
  server to every node.

## Model

| member | source | states |
|---|---|---|
| HybridLogicalClock.HexOrderEmbedding | rust/p2p-core/src/hlc.rs:39-43 | comparing the stored 24-character forms byte by byte is comparing (wall, counter), equal forms mean equal stamps, and a missing entry sorts below every stamp |
| HybridLogicalClock.HexRoundTrip | rust/p2p-core/src/hlc.rs:45-53 | parsing what was formatted gives the stamp back |
| HybridLogicalClock.HybridClock.constructor | rust/p2p-core/src/hlc.rs:82-84 | a new clock starts at zero |
| HybridLogicalClock.HybridClock.ResumingFrom | rust/p2p-core/src/hlc.rs:88-90 | a resumed clock starts at the stamp it was given |
| HybridLogicalClock.HybridClock.Tick | rust/p2p-core/src/hlc.rs:97-107 | the stamp handed out and the new clock value, for every reading of the system clock |
| HybridLogicalClock.HybridClock.Observe | rust/p2p-core/src/hlc.rs:115-146 | the new clock value for every remote stamp and reading, in and out of the drift window |
| HybridLogicalClock.TickFreshIff | rust/p2p-core/src/hlc.rs:97-107 | a tick is strictly later than the last stamp exactly when the wall clock moved on or the counter has room |
| HybridLogicalClock.SaturatedTickRepeats | rust/p2p-core/src/hlc.rs:103 | from a saturated counter every tick repeats one stamp, exactly as long as no reading passes its wall part |
| HybridLogicalClock.ObserveNeverBehind | rust/p2p-core/src/hlc.rs:115-146 | observing never moves the clock back and reaches every in-window stamp |
| HybridLogicalClock.InWindowIff | rust/p2p-core/src/hlc.rs:112-132 | the drift window is one minute, and the saturation of the sum never matters |
| HybridLogicalClock.ObservePassesIff | rust/p2p-core/src/hlc.rs:115-146 | exactly what comes before the clock after observing, for every stamp, reading and counter: what is before the reading, the clock or the in-window stamp, or is the later of these two with room in its counter |
| HybridLogicalClock.ObserveIsLeast | rust/p2p-core/src/hlc.rs:134-143 | with room in the counters, the clock moves to the least stamp past itself, past the in-window stamp and not before the reading, so the counter is reset as time passes |
| HybridLogicalClock.ClockNeverGoesBack | rust/p2p-core/src/hlc.rs:97-146 | over a whole session of ticks and observations the clock never goes back, whatever the system clock does |
| HybridLogicalClock.TickFollowsEverythingSeen | rust/p2p-core/src/hlc.rs:109-146 | a tick is strictly after every in-window stamp observed, and every tick made, at any earlier point of the session |
| HybridLogicalClock.TickFollowsIff | rust/p2p-core/src/hlc.rs:97-146 | exactly which stamps, in or out of the drift window, the tick after a whole session follows: those behind the new reading, behind the furthest in-window wall time the session reached, or level with it and behind the counter that the session ended with |
| HybridLogicalClock.TickAfterIff | rust/p2p-core/src/hlc.rs:97-107 | the same for one clock: a tick is after a stamp exactly when the stamp is behind the reading or the clock, or equals the clock while the counter has room |
| HybridLogicalClock.RemoteStampsCannotRatchet | rust/p2p-core/src/hlc.rs:112-132 | no sequence of remote stamps takes the wall part past the resume point or the greatest reading plus the drift window |
| Change.StorageRoundTrip | rust/p2p-core/src/db/value.rs:29-58 | reading back a stored value gives the value |
| Change.StorageInjective | rust/p2p-core/src/db/value.rs:24-37 | two values have the same stored form only if they are equal, so "did it change" may compare bytes |
| Change.IncomingWinsIsStampOrder | rust/p2p-core/src/db/change.rs:190-194 | the string comparison is the stamp order, and of two different stamps exactly one wins |
| Change.SortSorts | rust/p2p-core/src/db/mod.rs:401 | sorting by order key gives the same records, in stamp order |
| Change.SigningBytesDecode | rust/p2p-core/src/db/change.rs:68-84 | equal pre-images mean equal records apart from the signature, for fields shorter than 2^32 bytes |
| Change.WriteSigningBytes | rust/p2p-core/src/db/change.rs:68-84 | appending field after field yields the pre-image of the record |
| Change.LongFieldsCollide | rust/p2p-core/src/db/change.rs:109-112 | without that bound it fails: the truncated length prefix lets two different records share a pre-image; such a field has 2^32 bytes, which SQLite's string limit and the message size caps keep the code from ever receiving |
| Change.EditedRecordIsRefused | rust/p2p-core/src/db/change.rs:93-106 | a record altered on the way fails the authorship check whichever field was touched, if a signature binds one message |
| Change.SignedRecordPasses | rust/p2p-core/src/db/change.rs:86-106 | a record signed by its author and untouched since passes the authorship check; an unsigned one does not |
| Database.Db.FromConnection | rust/p2p-core/src/db/mod.rs:127-162 | reopening resumes the clock from the device's own greatest stamp and stages unadopted rows, all else as on disk |
| Database.Db.Run | rust/p2p-core/src/db/schema.rs:153-180 | a local statement changes its row and stages what the capture triggers stage for it |
| Database.Db.PutRow | rust/p2p-core/src/db/schema.rs:153-165 | a written row is staged as an upsert unless the guard is up or the table is not replicated |
| Database.Db.DropRow | rust/p2p-core/src/db/schema.rs:175-180 | a deleted row is staged as a delete unless the guard is up or the table is not replicated |
| Database.Db.StoreRecord | rust/p2p-core/src/db/mod.rs:732-750 | a record is appended exactly when its (origin, stamp) is not held, and the caller is told which |
| Database.Db.MergeRecord | rust/p2p-core/src/db/mod.rs:752-798 | the cell or tombstone is replaced exactly when the incoming stamp outranks it |
| Database.Db.BumpVector | rust/p2p-core/src/db/mod.rs:821-828 | an author's entry becomes the greater of the two stamps |
| Database.Db.EmitChange | rust/p2p-core/src/db/mod.rs:312-328 | one authored change is stamped, signed, stored and indexed |
| Database.Db.Collapse | rust/p2p-core/src/db/mod.rs:291-301 | the queue collapses to each row once, in first-seen order, with its final intent |
| Database.Db.FlushLocal | rust/p2p-core/src/db/mod.rs:274-371 | the whole new state and the authored records are those of the flush specified on values |
| Database.Db.IsDeleted | rust/p2p-core/src/db/mod.rs:859-864 | the computed flag is "the tombstone outranks every surviving cell" |
| Database.Db.MaxCell | rust/p2p-core/src/db/mod.rs:859 | the greatest stamp among the cells of a row, if it has any |
| Database.Db.Materialize | rust/p2p-core/src/db/mod.rs:835-909 | one app row becomes what the cells and tombstone say, stages nothing, and no other row changes |
| Database.Db.CheckBatch | rust/p2p-core/src/db/mod.rs:384-397 | the records kept, in order, and the number refused |
| Database.Db.ApplyRemote | rust/p2p-core/src/db/mod.rs:376-462 | the whole new state and the counts are those of the batch specified on values |
| Database.BumpAllStep | rust/p2p-core/src/db/mod.rs:413-425 | collecting per-author maxima and bumping once at the end equals bumping record by record |
| Database.Accounting | rust/p2p-core/src/db/mod.rs:384-445 | applied + duplicates + rejected + ignored is the batch length, deferred is at most applied, and applied is the growth of the log |
| Database.OutcomeIsExact | rust/p2p-core/src/db/mod.rs:384-445 | which records the counters count: added, refused for their signature, and added for tables not registered |
| Database.Db.ReadVector | rust/p2p-core/src/db/mod.rs:466-478 | observing the stored rows one by one, in any order, gives the vector |
| Database.Db.ChangesSince | rust/p2p-core/src/db/mod.rs:484-533 | the page is the first `limit` records, in stamp order, of those the peer's vector does not cover |
| Database.Db.UnbroadcastLocal | rust/p2p-core/src/db/mod.rs:575-626 | the next own records above the watermark, oldest first, and the mark that covers them |
| Database.Db.MarkBroadcast | rust/p2p-core/src/db/mod.rs:630-632 | only the watermark changes |
| Index.StoreKeepsIndex | rust/p2p-core/src/db/mod.rs:732-828 | storing a new record keeps every cell and tombstone the stamp-maximum of its records and every vector entry the maximum held |
| Index.ApplyKeepsIndex | rust/p2p-core/src/db/mod.rs:376-462 | the same for any remote batch whatsoever |
| Index.OwnMaximumIsMaximum | rust/p2p-core/src/db/mod.rs:133-147 | the resume query finds the greatest own stamp, and nothing exactly when the device authored nothing |
| Index.ReopenKeepsOwnOrder | rust/p2p-core/src/db/mod.rs:133-147 | resuming from the own maximum alone is enough for every later stamp to be fresh |
| Index.LogDeterminesState | rust/p2p-core/src/db/mod.rs:752-828 | replicas holding the same records, in any order, have equal cells, tombstones and vectors |
| Convergence.AppliedRecords | rust/p2p-core/src/db/mod.rs:376-462 | a batch adds exactly its accepted records |
| Convergence.SameRecordsConverge | rust/p2p-core/src/db/mod.rs:376-462 | strong convergence: the same set of records in any order, any batching, any repetition, any clocks gives the same log, cells, tombstones and vector |
| Convergence.BatchingIsIrrelevant | rust/p2p-core/src/db/mod.rs:376-462 | applying a + b equals applying a, then b |
| Convergence.ReplayChangesNothing | rust/p2p-core/src/db/mod.rs:730-750 | applying a batch again changes nothing at all, the app tables, queue and clock included |
| Convergence.NoEcho | rust/p2p-core/src/db/mod.rs:407-459 | after any remote batches the queue is as before and the guard is down, so a flush with nothing staged authors nothing |
| Projection.ExecuteKeepsProjection | rust/p2p-core/src/db/schema.rs:153-180 | local writes keep every row without a pending edit equal to its projection |
| Projection.StatementWrites | rust/p2p-core/src/db/schema.rs:153-180 | a statement that misses changes nothing; one that hits leaves its row under its new key, none under a key given up, and every other row alone |
| Projection.StatementStages | rust/p2p-core/src/db/schema.rs:153-180 | unless the guard is up, a statement that hits stages exactly the rows it touches, each to be announced as present or deleted as it has become |
| Projection.AppliedRow | rust/p2p-core/src/db/mod.rs:447-454 | a row that is its projection is so again after any remote batch |
| Projection.ApplyKeepsProjection | rust/p2p-core/src/db/mod.rs:376-462 | in particular when it names no such row |
| Projection.LaterEditRevivesRow | rust/p2p-core/src/db/mod.rs:830-909 | an edit that outranks a deletion brings the row back with every untouched column as it was |
| PendingEdits.ApplyProjectsIff | rust/p2p-core/src/net/node.rs:479-517 | a batch keeps the projection exactly when every staged row it brings news of is as present as the records then held say it should be |
| PendingEdits.RespectfulBatchProjects | rust/p2p-core/src/net/node.rs:479-517 | a batch that leaves staged rows alone, or as present as they are, keeps the projection |
| PendingEdits.PendingEditSurvivesIff | rust/p2p-core/src/db/mod.rs:880-907 | a staged edit of a column survives a batch, still to be announced, exactly when nothing new about its row arrives, or the column has no cell yet, none arrives and the row stays |
| PendingEdits.PendingDeleteSurvivesIff | rust/p2p-core/src/db/mod.rs:866-907 | a staged deletion survives exactly when nothing new about its row arrives or no edit of it is after every deletion |
| PendingEdits.BatchWritesRow | rust/p2p-core/src/db/mod.rs:880-907 | a row that a batch brings news of shows the last write of every column ever written; any other column keeps what the row had, or holds its schema default in a row that the batch brings into being |
| LastWriter.RowsAreLastWriterWins | rust/p2p-core/src/db/mod.rs:830-909 | from the log alone: a row is there exactly when some edit came after every deletion, and then each column shows its last write, or, if nobody wrote it, its schema default and NULL if it has none |
| LastWriter.CellIsLastWrite | rust/p2p-core/src/db/mod.rs:752-776 | once logged, an edit lives in the cell of its column, which is that column's last write, so logged edits to different columns of a row both survive |
| LastWriter.OutrankedNeverShows | rust/p2p-core/src/db/mod.rs:752-776 | a record that some held record outranks is the last write of its column in no log that holds both |
| Flushes.FlushEmitsExactly | rust/p2p-core/src/db/mod.rs:303-365 | a flush drains the queue and emits, per staged row in first-seen order, one tombstone or one record for each column that differs, and nothing else |
| Flushes.FirstSeenIsOrdered | rust/p2p-core/src/db/mod.rs:291-301 | the rows of a flush come in the order of their first touch |
| Flushes.DueColumnIsAnnounced | rust/p2p-core/src/db/mod.rs:330-355 | every differing column of a staged, present row has its record in the output |
| Authoring.FlushAuthorsFreshIff | rust/p2p-core/src/db/mod.rs:274-371 | for any clock and readings, a flush appends exactly the records it returns if and only if its first tick is not a stamp already held and each further tick finds the system clock past it or room in the counter, told from the state before; then every record is later than all the device ever authored and the indexes stay exact |
| Authoring.RoomIsFresh | rust/p2p-core/src/hlc.rs:97-107 | room in the counter for every record is enough |
| Settling.FlushSettles | rust/p2p-core/src/db/mod.rs:291-371 | after a flush with a clock that is not behind, every staged row is settled and every other row is untouched |
| Settling.FlushProjectsIff | rust/p2p-core/src/db/mod.rs:274-371 | with a clock that is not behind, a flush leaves all rows equal to their projection exactly when no staged row is present with matching cells but not alive: a deleted row inserted again as it was, or a row that has only its key |
| Settling.ReflushIsSilent | rust/p2p-core/src/db/mod.rs:336-338 | staging the same rows again and flushing emits no Cell record |
| Settling.NextTickBeatsIff | rust/p2p-core/src/db/mod.rs:752-776 | exactly when the next tick of any clock takes a cell that is held: its stamp is behind the reading or the clock, equals the clock with room in the counter, or is the very tick with a lower origin |
| Settling.FlushSettlesIff | rust/p2p-core/src/db/mod.rs:274-371 | whatever the clock, a flush leaves all rows equal to their projection exactly when for every staged row the stamps it will get beat those held, told from the state and the readings before the flush |
| Settling.ClockAboveSettles | rust/p2p-core/src/db/mod.rs:274-371 | with a clock that is not behind, that is exactly that there is no such silent row |
| Runs.ReopenKeepsProjection | rust/p2p-core/src/db/mod.rs:242-255 | restarting and adopting rows keeps the projection |
| Runs.ReopenIsExact | rust/p2p-core/src/db/mod.rs:133-159 | a restart stages exactly the rows found, as upserts, resumes the clock from the greatest own stamp or zero, and changes nothing else |
| Runs.AdoptionProjects | rust/p2p-core/src/db/mod.rs:242-255 | adoption makes the projection exact also where rows were found that nobody had staged |
| Runs.AdoptedRowIsAnnounced | rust/p2p-core/src/db/mod.rs:242-255 | the first flush after a restart announces every column of a row that predates replication |
| Runs.StepKeepsHealthy | rust/p2p-core/src/db/mod.rs:274-462 | each step of a device keeps projection, indexes and stamp order, and its own log gains exactly what it authored |
| Runs.RunStaysHealthy | rust/p2p-core/src/db/mod.rs:127-462 | the same over whole runs of writes, flushes, remote batches, rolled-back transactions and restarts |
| Runs.RestoredOrderIff | rust/p2p-core/src/db/mod.rs:399-445 | a batch with own records that the device has lost, as after a restore from an older file, leaves its own records in stamp order exactly when each is later than all it still holds |
| Runs.OwnRecordsIncrease | rust/p2p-core/src/hlc.rs:86-107 | a device's own records strictly increase in stamp, so no stamp is ever issued for two of them |
| Runs.ApplyObserves | rust/p2p-core/src/db/mod.rs:413-421 | a batch moves the clock by observing the stamps of the records it adds, in order, and by nothing else |
| Runs.EditsFollowWhatWasReceived | rust/p2p-core/src/hlc.rs:109-114 | over runs without a restart in between, everything a device authors is stamped after every in-window record it received before, while its ticks move on |
| Runs.SameStateSameTables | rust/p2p-core/src/db/mod.rs:835-909 | equal cells and tombstones, equal schemas and nothing pending mean equal app rows |
| Network.ApplyClosesIff | rust/p2p-core/src/db/mod.rs:413-458 | a batch keeps "records held = records at or below the vector" exactly when it leaves no gap behind |
| Network.GapNeverHeals | rust/p2p-core/src/db/mod.rs:496-503 | a record that the vector has passed over is in no page answered to that vector, whatever the sender |
| Network.PageIsGapFree | rust/p2p-core/src/db/mod.rs:480-503 | a page computed from any earlier vector of the asker, however stale, leaves no gap when applied now |
| Network.FilterIsGapFree | rust/p2p-core/src/net/node.rs:470-496 | dropping read-only authors leaves no gap either |
| Network.FlushIsAcceptable | rust/p2p-core/src/db/mod.rs:312-355 | every record a flush authors passes the checks of every receiver |
| Network.StepKeepsNet | rust/p2p-core/src/net/node.rs:452-468 | every step of any device or message keeps every replica closed and every message in flight safe to deliver |
| Network.RecordsAreWhatTheVectorSays | rust/p2p-core/src/db/mod.rs:464-533 | in every run whose pushes leave no gap, a replica's records from each author are exactly that author's records up to its vector entry |
| Network.EqualVectorsEqualState | rust/p2p-core/src/db/mod.rs:466-478 | equal vectors mean equal records, cells and tombstones |
| Network.EqualVectorsEqualTables | rust/p2p-core/src/db/mod.rs:835-909 | and, with equal schemas and nothing pending, equal app rows |
| CatchUp.PageShrinksMissing | rust/p2p-core/src/net/node.rs:710-717 | applying a page removes exactly that page from what is missing |
| CatchUp.CatchUpTakesExactly | rust/p2p-core/src/net/node.rs:662-666 | against a quiet sender, n missing records take exactly n / limit + 1 pages, only the last of which reports no more, and the asker ends with everything the sender holds |
| SyncRounds.PageAnswersExactly | rust/p2p-core/src/net/node.rs:662-667 | a Sync request is answered with the first records, in stamp order, that the vector does not cover, min(limit, 500, number missing) of them, and says that there is more exactly if the page is full; otherwise nothing missing is left out |
| SyncRounds.OtherAnswers | rust/p2p-core/src/net/node.rs:651-661 | exactly who is denied, and what a node that does not replicate answers |
| SyncRounds.ExchangeIsCatchUp | rust/p2p-core/src/net/node.rs:651-718 | two nodes that exchange requests and pages through their handlers do the catch-up of `CatchUp`: n / 500 + 1 requests, each with the vector of the moment, then no more, and the asker holds everything the server does |
| CatchUp.NetworkPeers | rust/p2p-core/src/net/node.rs:662-717 | any two devices of a network run meet the conditions of the catch-up theorems |
| CatchUp.TwoWaySyncConverges | rust/p2p-core/src/net/node.rs:452-468 | two quiet devices that catch up from each other end with equal records, cells, tombstones and vectors |
| CatchUp.MeetingsCarry | docs/architecture.md:62-65 | after any sequence of pairwise meetings a device holds exactly what the devices whose news could have reached it held |
| CatchUp.PairwiseMeetingsConverge | docs/architecture.md:62-65 | an organisation converges once news from each device could have reached every other, without all being online together |
| CatchUp.PageProgressIff | rust/p2p-core/src/net/node.rs:479-496 | a page makes progress exactly when some record of it is kept by the author filter and accepted |
| CatchUp.GapStaysOpen | rust/p2p-core/src/db/mod.rs:496-503 | such a record stays away, and out of every later page, over any run of local steps and Sync rounds with any senders |
| CatchUp.FilteredPageRepeats | rust/p2p-core/src/net/node.rs:710-717 | a full page of nothing but filtered records is answered again for ever |
| Outbox.ChunksPartition | rust/p2p-core/src/net/node.rs:422 | chunks laid end to end are the list, none empty, none too long |
| Outbox.SplitChunks | rust/p2p-core/src/net/node.rs:422-427 | the loop cuts the list into those chunks |
| Outbox.FlushAndPush | rust/p2p-core/src/net/node.rs:390-417 | one tick against the replica object: the chunks sent and the whole new state |
| Outbox.PushSends | rust/p2p-core/src/net/node.rs:400-416 | a marked tick sends exactly the own records between the old and the new watermark, at most 500 |
| Outbox.EverythingBelowTheMarkWasSent | rust/p2p-core/src/db/mod.rs:566-632 | over any interleaving, with or without failures to mark, every own record up to the watermark has been sent |
| Outbox.SentIsTheOwnLog | rust/p2p-core/src/db/mod.rs:566-632 | if marking succeeds, what was sent is the own log up to the watermark, in sequence order, without gaps or repeats |
| Outbox.PendingClearsInTicks | rust/p2p-core/src/net/node.rs:402-416 | with nothing new arriving, k pending records are gone after ceil(k / 500) ticks and not before |
| Identity.WriteCertBytes | rust/p2p-core/src/identity.rs:106-118 | appending field after field yields the pre-image of the claims |
| Identity.WriteCrlBytes | rust/p2p-core/src/identity.rs:288-298 | the buffer that the loop fills is the pre-image of the list |
| Identity.CertBytesDecode | rust/p2p-core/src/identity.rs:106-118 | equal certificate pre-images mean equal claims |
| Identity.CrlBytesDecode | rust/p2p-core/src/identity.rs:288-298 | equal list pre-images mean equal organisation, time and serials |
| Identity.EnrollBytesDecode | rust/p2p-core/src/identity.rs:373-381 | equal enrolment pre-images mean equal code, name, key and time |
| Identity.PreImagesDecode | rust/p2p-core/src/identity.rs:25-27 | pre-images of different kinds of statement never coincide, and equal ones mean equal content |
| Identity.NeighboursSuffice | rust/p2p-core/src/identity.rs:311-313 | checking neighbours is checking that the whole list is strictly sorted |
| Identity.FoundIsMember | rust/p2p-core/src/identity.rs:300-302 | on a strictly sorted list the binary search finds exactly the members |
| Identity.AcceptedListIsSearchable | rust/p2p-core/src/identity.rs:300-319 | on every list that verification accepts, "is revoked" is membership |
| Identity.SignedListVerifies | rust/p2p-core/src/identity.rs:247-259 | a signed list is strictly sorted, names the same serials, carries the time and organisation given, and verifies |
| Identity.FreshCertVerifiesIff | rust/p2p-core/src/identity.rs:145-182 | a fresh certificate is accepted from a peer exactly if it has lifetime left, names that peer, and its serial is not on the verified list |
| Identity.IssuedCertVerifiesIff | rust/p2p-core/src/identity.rs:145-182 | at any reading of the clock, a certificate is accepted exactly while its lifetime lasts, from the device it names, if the verified list does not name its serial |
| Identity.AcceptedCertWasIssued | rust/p2p-core/src/identity.rs:141-182 | if the organisation's key is unforgeable, an accepted certificate was issued by it as a certificate, for the connected device, is in date, and is not on the list |
| Identity.AcceptedListWasIssued | rust/p2p-core/src/identity.rs:304-319 | an accepted list is the empty bootstrap list or was signed by the organisation as a list |
| Identity.MergeKeeps | rust/p2p-core/src/enroll.rs:135-144 | merging keeps a verified list, never goes back in time, and forgets no revocation of a growing issuer |
| Identity.DisplayRoundTrip | rust/seed-server/src/store.rs:89-98 | normalising a displayed invite code gives the code back |
| Identity.NormalizeIgnoresCase | rust/p2p-core/src/enroll.rs:67-75 | case never matters to a code, and normalising twice changes nothing |
| Identity.NormalizeKeepsSymbols | rust/p2p-core/src/enroll.rs:67-75 | whatever separates the letters and digits of a code is dropped, and none of them is |
| Identity.DisplayGroups | rust/seed-server/src/store.rs:89-98 | the displayed code has a dash after every five symbols and the symbols of the code elsewhere |
| GateDuties.AdmittedIff | rust/p2p-core/src/net/node.rs:737-792 | exactly when a peer is let in, by which certificate and against which list, and exactly when it is announced |
| GateDuties.EntryIsOfLastHello | rust/p2p-core/src/net/node.rs:737-792 | over any run, the table says of a peer what the last Hello that let it in said: user, name, role, and whether it replicates |
| GateDuties.ListsAfter | rust/p2p-core/src/net/node.rs:744-749 | the list held and the list saved after every event |
| GateDuties.GreetedIff | rust/p2p-core/src/net/node.rs:539-558 | exactly when a peer is greeted, and when the node still knows that it was |
| GateDuties.ReconnectedPeerIsGreeted | rust/p2p-core/src/net/node.rs:539-558 | over any run, opening a connection greets the peer exactly if none has been open since its last one closed or the process started |
| GateDuties.DisconnectedIff | rust/p2p-core/src/net/node.rs:551-558 | a peer is reported gone exactly when the last connection of an admitted peer closes |
| GateDuties.RejectedIff | rust/p2p-core/src/net/node.rs:618-734 | exactly when a peer is reported as rejected, and that it is hung up on exactly then |
| GateDuties.PendingDenialIff | rust/p2p-core/src/net/node.rs:618-650 | a refusal is pending exactly from a refused Hello to the next response that goes out |
| GateDuties.AnsweredIff | rust/p2p-core/src/net/node.rs:636-680 | what every request is answered, the counts of a push included |
| GateDuties.AskedIff | rust/p2p-core/src/net/node.rs:442-468 | a Sync request goes out exactly to a replicating peer that was just let in by its answer, said that there is more, or is in the table at a sync tick, with the vector of the moment |
| GateDuties.SyncedIff | rust/p2p-core/src/net/node.rs:498-506 | a sync is announced exactly when records handed over were stored, with the sender and their number |
| GateDuties.TickReachesEverybody | rust/p2p-core/src/net/node.rs:390-440 | one flush tick by its effects: the own records above the mark, at most 500, in chunks of at most 200, to every replicating peer and the topic, once each and in order, and the count announced |
| GateDuties.TickChunks | rust/p2p-core/src/net/node.rs:390-417 | those records are the own log between the old and the new mark |
| GateRuns.EventSound | rust/p2p-core/src/net/node.rs:521-793 | every event, in any order and from anybody, keeps the peer table in step with what was announced; the node serves, asks and pushes only to announced peers |
| GateRuns.RunIsSound | rust/p2p-core/src/net/node.rs:521-793 | the same over whole runs, restarts included; each entry carries the identity of the certificate that last passed verification |
| GateRuns.AnnouncementsAlternate | rust/p2p-core/src/net/node.rs:551-558 | per peer, connected and disconnected strictly alternate, starting with connected |
| GateRuns.PeersHoldIssuedCerts | rust/p2p-core/src/net/node.rs:736-792 | over any run, every peer in the table holds a certificate that the organisation issued to it, and has its role |
| GateRuns.OnlyReplicatorsAreAsked | rust/p2p-core/src/net/node.rs:452-458 | no event asks or pushes to a peer that does not replicate, or from a node that does not |
| GateRuns.ReadOnlyAuthorsStayOut | rust/p2p-core/src/net/node.rs:479-517 | no event stores a record by an author known to be read-only |
| GateRuns.ReadOnlySurvivesRestarts | rust/p2p-core/src/net/node.rs:769-781 | a device is treated as read-only exactly when the last certificate it was admitted with, in any process, said so |
| GateRuns.UnsavedRoleIsForgottenIff | rust/p2p-core/src/net/node.rs:769-781 | when the role cannot be saved, memory and table agree exactly if the table already classed the device that way |
| GateRuns.RevokedStaysOut | rust/p2p-core/src/net/node.rs:744-756 | once a node holds a list naming a serial, no certificate with it is admitted for the rest of the run, given an issuer whose lists grow |
| GateRuns.TableAfter | rust/p2p-core/src/net/node.rs:521-793 | a peer is in the table after an event exactly if the event admitted it, or it was there and neither its last connection closed nor the process restarted; refusals and new lists evict nobody |
| GateRuns.ListedPeerStaysIff | rust/p2p-core/src/net/node.rs:551-556 | a peer whose last accepted certificate a held list names is in the table exactly if it was admitted before the list was held and has not lost its last connection since |
| GateRuns.ListedPeerIsServedIff | rust/p2p-core/src/net/node.rs:651-676 | and its Sync requests are answered exactly then |
| GateRuns.ListedPeerKeepsBeingServed | rust/p2p-core/src/net/node.rs:737-792 | a run of three Hellos: a peer is admitted, another peer brings a list that names it, its own next Hello is refused, and its Sync requests are still answered |
| GateRuns.UnsavedListIsForgottenIff | rust/p2p-core/src/net/node.rs:744-756 | when the list cannot be saved, a restart keeps it exactly if the Hello brought none that is newer and valid |
| GateRuns.DiscoveryNodeHoldsNothing | rust/p2p-core/src/net/node.rs:655-661 | over any run, a node that does not replicate asks for nothing, and its log stays as it was exactly if no Sync response brought it news |
| GateRuns.DiscoveryStoresIff | rust/p2p-core/src/net/node.rs:710-717 | one event changes the log of such a node exactly if it is a Sync response with a new record that passes the filter and the checks |
| GateRuns.StoresIff | rust/p2p-core/src/net/node.rs:479-517 | an event other than a flush makes the log longer exactly if a record handed over passes the author filter and every check and is not held, and stores only such records |
| GateRuns.UnadmittedStoresIff | rust/p2p-core/src/net/node.rs:710-717 | records of a peer that is not in the table are stored exactly if they come as a Sync response that brings news |
| GateRuns.StoredFromAnnouncedIff | rust/p2p-core/src/net/node.rs:521-729 | over any run, records are taken in from announced peers only, exactly if no such Sync response arrived |
| GateRuns.UnadmittedPageIsStored | rust/p2p-core/src/net/node.rs:539-550 | a run of two events: a connection opens, so the node greets; the peer answers the Hello with a Sync response, whose record is stored, replicating node or not, and the peer is not in the table |
| GateRuns.DenialWaitsForAResponse | rust/p2p-core/src/net/node.rs:618-623 | a refusal stays pending across reconnects until some response to that peer went out, which is then followed by a hang-up |
| GateRuns.EveryPeerGetsEveryChunk | rust/p2p-core/src/net/node.rs:419-440 | a broadcast pushes every chunk, in order, exactly once to each replicating peer and to nobody else |
| NodeRuntime.Runtime.constructor | rust/p2p-core/src/net/node.rs:171-183 | a new process knows no peers and remembers the read-only devices of the role table |
| NodeRuntime.Runtime.ConnectionEstablished | rust/p2p-core/src/net/node.rs:539-550 | the first connection of a peer is greeted |
| NodeRuntime.Runtime.ConnectionClosed | rust/p2p-core/src/net/node.rs:551-558 | the last connection of a peer drops it, announced if it was admitted |
| NodeRuntime.Runtime.MergeList | rust/p2p-core/src/enroll.rs:135-144 | the stored list becomes the incoming one exactly when that is strictly newer and valid |
| NodeRuntime.Runtime.Admit | rust/p2p-core/src/net/node.rs:737-792 | admission as specified on values |
| NodeRuntime.Runtime.AskForChanges | rust/p2p-core/src/net/node.rs:452-468 | a Sync request goes out exactly to an admitted, replicating peer of a replicating node |
| NodeRuntime.Runtime.ApplyChanges | rust/p2p-core/src/net/node.rs:479-517 | the filtered batch is applied to the replica object, with the counts reported |
| NodeRuntime.Runtime.AnswerHello | rust/p2p-core/src/net/node.rs:636-650 | the reply to a Hello, and the pending denial of a refused one |
| NodeRuntime.Runtime.AnswerSync | rust/p2p-core/src/net/node.rs:651-676 | the page, or the refusal, that answers a Sync request |
| NodeRuntime.Runtime.AnswerPush | rust/p2p-core/src/net/node.rs:661-680 | what a push stores and how it is acknowledged |
| NodeRuntime.Runtime.HearHello | rust/p2p-core/src/net/node.rs:690-709 | what the peer's own Hello leads to |
| NodeRuntime.Runtime.HearPage | rust/p2p-core/src/net/node.rs:710-718 | a page is applied and the next one requested if there is more |
| NodeRuntime.Runtime.HearGossip | rust/p2p-core/src/net/node.rs:592-608 | gossip is applied only from an admitted peer |
| NodeRuntime.Runtime.ResponseWent | rust/p2p-core/src/net/node.rs:618-623 | a pending denial is announced and the peer hung up on |
| NodeRuntime.Runtime.SendChunks | rust/p2p-core/src/net/node.rs:419-440 | the two loops of a broadcast |
| NodeRuntime.Runtime.FlushAndPush | rust/p2p-core/src/net/node.rs:390-417 | one flush tick: the new state and everything sent |
| NodeRuntime.Runtime.AskEveryone | rust/p2p-core/src/net/node.rs:442-450 | one sync tick |
| NodeRuntime.Runtime.Dispatch | rust/p2p-core/src/net/node.rs:521-729 | one turn of the event loop takes exactly the specified transition |
| Registry.Store.constructor | rust/seed-server/src/store.rs:124-145 | a new register has no invites or devices and hands out serial 1 next |
| Registry.Store.CreateInvite | rust/seed-server/src/store.rs:175-199 | one new unused invite, or nothing if the code exists |
| Registry.Store.RedeemInvite | rust/seed-server/src/store.rs:208-300 | every check in order, and the whole new state and certificate of a redemption that passes them |
| Registry.Store.Revoke | rust/seed-server/src/store.rs:349-362 | the rows marked, the list time, and the failure when no active device carries the serial |
| Registry.Store.Crl | rust/seed-server/src/store.rs:368-385 | the published list names exactly the revoked rows' serials and verifies |
| Ledger.NewDeviceIsAdmittedIff | rust/seed-server/src/store.rs:262-270 | what the seed server hands out is accepted at any node, at any time and against any verified list, exactly while the lifetime it was given lasts, from that device, and its serial is not on the list |
| Ledger.OldListsAreBelow | rust/seed-server/src/store.rs:262-270 | every list ever published names only serials below the next one, so none names a certificate yet to be issued |
| Ledger.RefusedRedemption | rust/seed-server/src/store.rs:218-258 | a redemption that is refused changes nothing and fails with the first check that does not hold, and one that passes all is issued |
| Ledger.ProofIsForOneRequest | rust/p2p-core/src/identity.rs:385-404 | a proof of possession is refused for any other code, name or time than it was signed for, and accepted for its own, if a signature binds one message |
| Ledger.RevokeMarksRows | rust/seed-server/src/store.rs:349-355 | a revocation marks the active rows with that serial with the time, and no others |
| Enrolment.InvitesAreAsCreated | rust/seed-server/src/store.rs:175-199 | over any run, an invite exists exactly if its code was created, for the user, name, role and time of its first creation |
| Enrolment.CertificatesAreAsInvited | rust/seed-server/src/store.rs:208-270 | over any run, every certificate has the user and role that the creator of its invite gave, the name, key and lifetime of its redemption, and the organisation's signature |
| Enrolment.RowsAreAsGranted | rust/seed-server/src/store.rs:272-299 | over any run, each device row has role, name and expiry of the device's last certificate and user and key of its first, and each used invite names the device that used it |
| Enrolment.EnrolledRow | rust/seed-server/src/store.rs:272-299 | the row that one redemption writes: serial, role, name, expiry, platform and time are new, any revocation is lifted, user and key stay |
| Enrolment.PeersHaveInvitedRoles | rust/p2p-core/src/net/node.rs:736-792 | at any point of any run of a node, every peer in the table has the role that the creator of an invite chose, and that invite was redeemed for that peer's key |
| Ledger.CallKeeps | rust/seed-server/src/store.rs:175-362 | each call, successful or failing, keeps serials, used invites and device rows in agreement |
| Ledger.RunConserves | rust/seed-server/src/store.rs:175-362 | over any run: serials are 1 .. next - 1 without gaps, used invites number as many, each paid for one certificate, each device has one row with its latest serial |
| Ledger.RevokeAddsExactly | rust/seed-server/src/store.rs:349-362 | a revocation adds exactly its serial, or fails exactly when no active device carries it |
| Ledger.RedeemRevokes | rust/seed-server/src/store.rs:276-285 | a redemption takes exactly the device's previous serial off the list |
| Ledger.RevocationsSurviveIff | rust/seed-server/src/store.rs:281-285 | revocations survive a redemption exactly when the enrolling device is not itself revoked |
| Ledger.ReenrolmentSupersedes | rust/seed-server/src/store.rs:276-285 | a device that enrols again leaves its previous serial without a row |
| Ledger.SupersededIsNeverRevoked | rust/seed-server/src/store.rs:349-356 | such a serial is never on the list again, and revoking it fails, whatever is called afterwards |
| Ledger.ListsGrowIff | rust/seed-server/src/store.rs:349-385 | one call leaves the published list grown, with a later time if it names more, exactly if it is orderly: a revocation that finds an active device is stamped later than the last, and no revoked device enrols |
| Ledger.OrderlyRunGrows | rust/seed-server/src/store.rs:349-385 | over a run of orderly calls, published lists grow in step with their timestamps |
| Revocation.SignedListIsPublished | rust/seed-server/src/store.rs:368-385 | the list that the register signs names the revoked serials under the list time of that moment |
| Revocation.ListTimeIsStamped | rust/seed-server/src/store.rs:349-362 | the list time is that of the last revocation that found an active device and was stamped |
| Revocation.OrderlyRegisterGrows | rust/seed-server/src/store.rs:349-385 | if nobody can forge the organisation's signature and the register is kept in order, it is an issuer whose verified lists grow |
| Revocation.RevocationHolds | rust/p2p-core/src/net/node.rs:744-756 | then once a node holds a list naming a serial, no certificate with it is admitted again, and a peer last admitted with it is in the table exactly while the connection it already had stays open |
| Limits.ReinsertedRowIsNeverAnnounced | rust/p2p-core/src/db/mod.rs:336-338 | a row written and then deleted by another device, and inserted again here with its old values: nothing is announced, and the row stays here while the shared state holds it deleted |
| Limits.LocalEditLosesToFutureStamp | rust/p2p-core/src/hlc.rs:119-132 | a row received with a stamp beyond the drift window and edited here: the edit is logged, yet the far record keeps the cell, and the edit is the last write of no log that holds the far record |
| Limits.RestartForgetsWhatWasSeen | rust/p2p-core/src/db/mod.rs:133-147 | a row received with an in-window stamp ahead of the system clock, a restart, and an edit: the edit is stamped below what was seen |
| Limits.PendingInsertIsLost | rust/p2p-core/src/db/mod.rs:869-875 | a staged insert that meets a remote tombstone before its flush is lost without a trace |
| Limits.PendingUpdateIsLost | rust/p2p-core/src/db/mod.rs:880-907 | a staged edit of one column is overwritten when a remote edit of another column arrives, and the flush announces nothing |
| Limits.SaturatedCounterLosesARecord | rust/p2p-core/src/db/mod.rs:353-355 | a record with the last counter has been received; a new row of two columns is flushed: both records get one stamp, the second is returned but not stored, and its cell rests on no record |
| Limits.KeyOnlyRowIsNeverAnnounced | rust/p2p-core/src/db/mod.rs:336-338 | a new row of a table without further columns: nothing is announced |
| Limits.RestoredDeviceDisordersItsLog | rust/p2p-core/src/db/mod.rs:399-445 | a device restored from an empty file that meets its own records, the later one first, holds them out of stamp order |
| Limits.OvertakingPushLosesARecord | rust/p2p-core/src/db/mod.rs:422-458 | a push that overtakes an earlier one moves the vector over the missing record, which no page for that vector contains |

## Left out

- Database.Db.Run: row-level statements on well-shaped rows; `INSERT OR REPLACE`, statements that touch many rows at once, type affinity, failing constraints and a user's own triggers are not modelled. Of the two triggers that fire when a row is re-keyed, the model takes the upsert first; SQLite does not promise an order.
- Database.Db.Materialize: does not model a constraint that makes the write of a row fail, which the code logs and skips.
- Database.Db.StoreRecord: sequence numbers are positions in the log, so gaps that AUTOINCREMENT may leave are not modelled.
- Database.Db.FlushLocal: a transaction is atomic; a failed one leaves everything but the clock as it was and is the step `RolledBack` of `Runs`.
- HybridLogicalClock.HexRoundTrip: `FromHex` yields `None` for every string that is not hex; a 24-byte string with a multi-byte character at offset 16 makes the code panic instead.
- Change.StorageRoundTrip: a real number is its bit pattern; that SQLite turns a NaN into NULL is not modelled.
- GateRuns.RevokedStaysOut: assumes that the database takes its writes (`UnsavedListIsForgottenIff` covers the other case) and an issuer whose verified lists grow with their timestamps; `Revocation.OrderlyRegisterGrows` says when the seed server is one.
- GateRuns.ReadOnlySurvivesRestarts: assumes that recording a peer succeeds; `UnsavedRoleIsForgottenIff` covers the other case.
- Identity.FreshCertVerifiesIff: the sum of the current time and the drift window is not wrapped at 2^64 milliseconds.
- Identity.SignedListVerifies: sorting and removing repeats are library calls on a vector, modelled as functions on sequences.
- Outbox.EverythingBelowTheMarkWasSent: "sent" means handed to the broadcast; the code moves the watermark even when nobody is connected to receive it, and later Sync requests make up for that.
- Network.StepKeepsNet: pushes and gossip are steps that need `GapFree`, and flushes `FreshTicks`; without them the property is false (`OvertakingPushLosesARecord`, `SaturatedCounterLosesARecord`).
- `Enrollment::accept`, `Enrollment::validate` at start-up, and the certificate a node presents of itself.
- Storage errors while reading the vector, the outbox or a page, which the handlers report or answer with an empty page.
- Several processes on one replica file, each with its own clock: one `Db` object per device.
- Registering a table while the node runs, and schema changes; the set of replicated tables is fixed in a run.
- The text of the capture triggers and identifier quoting; their effect is `Database.Db.Run`.
- libp2p transport, gossipsub mesh, mDNS, DHT, relay and address handling: only the messages they deliver.
- Ed25519, blake3 and the encoding of peer ids: abstract functions, and no security analysis.
- CBOR, postcard and JSON codecs, HTTP routes, the command line, key storage, token generation, and the mobile bindings.
- Compaction and retention of the log, which the documentation describes and the code does not have.
