# Monsoon: verified model

A Dafny model of the parts of Monsoon, a DHCP and IP address management server, whose correctness is
hard to see from the code: the storage engine and the lease store on top of it, the two-node HA protocol,
the DHCPv4 address pools and packet handlers, IPv4 planning and range arithmetic, the DHCP codecs, the
merged address view and the HTTP rate limiter. `dafny verify dfyconfig.toml` checks all of it.

## How the model is laid out

| modules | what they model |
|---|---|
| `Bytes`, `GoText`, `Wrappers`, `LastWriter` | byte strings and their order, big-endian integers, the parts of package strings that are used, the law of replaying keyed writes |
| `BTree`, `Wal`, `Snapshot`, `Storage` | the sorted key array with its map, the segmented log, the snapshot file, the engine (`Engine.dfy`) |
| `Leases`, `LeaseIndex`, `LeaseStore`, `LeaseCrash` | lease records, the four secondary indexes, the store's runs and queries, what a crash leaves of the indexes |
| `HaElection`, `HaManager`, `HaPartition`, `HaReplication`, `HaSync` | election and pool splitting, the manager with its witness file, both nodes in a partition, lease replication, the objects that carry it |
| `Pool`, `PoolManagers`, `Handler`, `Server` | bitmap pools, the DHCPv4 server with the sweeper and restarts as a state machine, the objects that implement it |
| `Cidr`, `Planner`, `Subnets`, `RangeMerge`, `AddressMerge` | prefixes, the subnet planner, stored subnets, merging imported ranges, the address view |
| `Dhcpv6`, `Dhcpv4Options`, `TokenBucket` | codecs, rate limiter |

Objects whose methods update fields in the repository are classes here (`BTree.Tree`, `Wal.Log`,
`Storage.Engine`, `LeaseStore.EngineStore`, `HaManager.Manager`, `HaSync.Secondary`,
`PoolManagers.PoolManager`, `Server.Server`, `Subnets.IpamEngine`, `Dhcpv6.OptionList`,
`TokenBucket.Limiter`). Each method is proved against a function on values, and the properties over whole
runs are proved of those functions. A locked method, or one exchange of messages, is one step. Bytes are
numbers from 0 to 255 and Go strings are byte strings. Outside answers (clock, file and store failures,
map iteration order, the JSON and CRC functions, parsing and printing of addresses) are arguments.

## Main results

- Storage: after every run of transactions, snapshots, restores (interrupted ones too) and reopenings the
  directory opens exactly when the last write of the snapshot file fitted it, and then gives the live contents, although the log is
  never truncated (`Storage.ReopenEqualsLive`, which rests on `LastWriter.ReplayOver`). A log cut anywhere in
  its last segment replays its complete records (`Wal.TornTail`) and opens (`Storage.CrashReopens`).
- Lease store: indexes stay exact over every run, and queries return exactly what they ask for, with the
  exact exceptions, crashes inside a transaction included.
- HA: once one node of a partitioned pair leads and owns the witness record, there are never two primaries,
  if and only if no node is started beside a primary; the secondary converges to the primary's leases whatever
  messages, acknowledgements or writes are lost; managers in equal modes that hear from each other never hand
  out one address twice, and all others under an exact condition.
- DHCPv4: no client ever gets an address another client actively holds, over every run of packets, sweeps
  and restarts; allocation fails only when nothing is left; what ends a lease and what brings an address
  back is exact.
- Addresses: overlap, planning and range merging are exact as statements about sets of addresses.
- Codecs invert each other in both directions; the limiter allows a call exactly when every window has room.

## Where the code does not do what one would expect

Each of these is a lemma; the model follows the code.

- A tree name of 65536 bytes or more is refused by the log but stays in memory, and the next snapshot
  attempt then leaves a file no start accepts until another write of it succeeds
  (`Storage.LongNameLosesSnapshot`, `Storage.UnwritableSnapshotIsFatal`). An empty tree name, or one with the
  byte 0x1f, does not survive a reopening (`Storage.OnePutReopens`).
- An index key too long for the log leaves the lease stored without that index entry
  (`LeaseIndex.UpsertBreaksExact`), and so does a crash right after the lease was logged, unless no index key
  changes (`LeaseCrash.CrashAfterLease`). A lookup also returns leases whose field continues the one asked for
  after the byte 0x1f, which a binary client identifier may contain (`LeaseStore.LookupExactIff`).
- The list of expired leases is wrong for a time before 1970 when a lease expired before 1970 in another
  second (`LeaseStore.ExpiringExact`).
- Starting a node makes it primary and rewrites the witness file without looking at it. Two nodes started in a
  partition both lead, witness or not, until one cannot write the file or ends (`HaPartition.StartedApartIff`);
  one restarted in a partition overwrites the fresh record of the primary and leads beside it
  (`HaPartition.StartSplits`, `HaPartition.NeverTwoPrimariesIff`).
- A fence lifts only in a watchdog round of a node that is not primary (`HaManager.FenceExact`). One failed
  write of the witness file and the next heartbeat can therefore leave an active-passive pair with a fenced
  primary and a secondary, where nobody serves (`HaManager.FailedRenewalStopsService`), also after the peer is
  gone (`HaManager.FencedPrimaryStays`).
- Each node has a mode of its own, and no election compares them: an active-passive primary and a load-sharing
  secondary that hear from each other may hand out the same addresses (`HaElection.MixedModesCollide`,
  `Pool.ElectedNodesCollideIff`).
- A RELEASE or DECLINE ends the lease of an address whoever sends it (`Handler.StepEndsIff`).
- A restore interrupted between the snapshot file and the log is neither done nor undone: the old log is
  replayed over the restored trees (`Storage.InterruptedRestoreOpens`, `Storage.InterruptedRestoreIff`).
- Where growth comes to a whole number of hosts, rounding may add one, and with it double the block
  (`Planner.TargetExact`, with an input in `Planner.RoundedUp`).
- In load-sharing mode a node that lost its peer uses the whole range: it collides with every other unfenced
  node that lost its own peer or has a half (`HaElection.OverlapIff`). A node without a witness path becomes
  primary beside a primary peer as soon as it misses its heartbeats (`HaPartition.NoWitnessSplitBrain`).
  Opposite roles need more than different names: two draining nodes take the same role
  (`HaElection.OppositeRoles`).
- The sweeper never clears a bit. An address whose lease expires is given to nobody again, its last client
  included, until a RELEASE of it is written or a restart finds no lease keeping it
  (`Handler.WithheldForGood`, `Handler.ExpiredForGood`; `Handler.StepWithholds` has the exact step). A declined
  address whose bit is set stays out through restarts too, not for the 15 minutes its lease says
  (`Handler.DeclinedForGood`); one whose bit is clear is not withheld at all (`Handler.DeclineWithholds`).
- Merging adjacent ranges fails when a range that is not last in order ends at 255.255.255.255
  (`RangeMerge.MergeExact`), and the outcome depends on the sort exactly when another range starts together
  with that one (`RangeMerge.TieHangsOnSort`, with an input in `RangeMerge.TieExample`).
- An identity association whose options do not encode is sent without them (`Dhcpv6.IanaRoundTrip`).
- The subnet filter "all" of the address list passes the check and then matches nothing but records that name
  a subnet "all" (`AddressMerge.AllListsNothing`).

## Model

| member | source | states |
|---|---|---|
| BTree.Tree.Search | internal/storage/btree.go:32-64 | the binary search stops where every key below is smaller and none from there on is |
| BTree.Tree.Get | internal/storage/btree.go:22-30 | a key is found exactly when the map holds it, with its value |
| BTree.Tree.Set | internal/storage/btree.go:32-46 | the contents change at that key only, and the keys stay the sorted domain of the map |
| BTree.Tree.Delete | internal/storage/btree.go:48-64 | the contents lose that key only, and the answer says whether it was there |
| BTree.Tree.Len | internal/storage/btree.go:66-70 | the number of rows |
| BTree.Tree.Snapshot | internal/storage/btree.go:72-81 | all rows in key order |
| BTree.Tree.Iterate | internal/storage/btree.go:83-101 | the callback sees exactly the rows from start to end, both inclusive, in key order, until it says no |
| BTree.InsertSorted | internal/storage/btree.go:32-46 | shifting a new key in at the search point gives the sorted keys of the larger set |
| BTree.RemoveSorted | internal/storage/btree.go:48-64 | shifting a key out gives the sorted keys of the smaller set |
| BTree.RangeIsSlice | internal/storage/btree.go:83-101 | the keys between two bounds are one stretch of the sorted keys |
| LastWriter.ReplayOver | internal/storage/engine.go:222-227 | replaying an overlapping stretch of writes over a state that holds some of them gives the final state |
| LastWriter.LastWriteWins | internal/storage/engine.go:48-73 | a key the replay writes forgets where the replay started from |
| LastWriter.SameReplayIff | internal/storage/engine.go:48-73 | two replays end alike if and only if their starting points agree wherever nothing is replayed |
| Wal.PayloadRoundTrip | internal/storage/wal.go:134-151 | a record's payload reads back as the record |
| Wal.FrameRoundTrip | internal/storage/wal.go:100-132 | a framed record reads back first, whatever follows it |
| Wal.TornFrame | internal/storage/wal.go:197-250 | a frame cut short reads as the end of the file, without an error |
| Wal.TornTail | internal/storage/wal.go:153-250 | for every split into segments and every cut of the last one, replay ends without error and delivers exactly the complete records in order |
| Wal.CompletePrefix | internal/storage/wal.go:197-250 | the records a cut leaves of a segment are its first ones |
| Wal.ReplayLaid | internal/storage/wal.go:153-167 | replay of an uncut log delivers everything appended |
| Wal.Log.RotateIfNeeded | internal/storage/wal.go:85-98 | a new segment exactly when the next entry does not fit; the records stay |
| Wal.Log.constructor | internal/storage/wal.go:30-72 | any files open, torn or not; a directory without files starts with an empty segment |
| Wal.Log.Append | internal/storage/wal.go:100-132 | the frame goes to the end of the last segment or to a new one, or is refused with the files left alone when a length does not fit its field |
| Wal.Log.ReplayFile | internal/storage/wal.go:197-250 | the reading loop delivers what the segment's bytes say |
| Wal.Log.Replay | internal/storage/wal.go:153-167 | the loop over any files, torn or damaged, delivers what their bytes say; a clean log delivers every record |
| Snapshot.SnapshotRoundTrip | internal/storage/snapshot.go:14-147 | for every order the tree map is walked in, parsing the written bytes gives the same trees |
| Snapshot.TornSnapshot | internal/storage/snapshot.go:86-147 | a snapshot file cut anywhere is rejected |
| Snapshot.AbandonedWrite | internal/storage/snapshot.go:26-84 | a write given up inside a tree leaves nothing a reader accepts, however much reached the disk |
| Snapshot.WriteTree | internal/storage/snapshot.go:45-75 | writing one tree succeeds exactly when all lengths fit, and gives its encoding |
| Snapshot.WriteSnapshot | internal/storage/snapshot.go:14-84 | writing succeeds exactly when every length fits; the file then parses to the trees, and otherwise not at all |
| Snapshot.ReadOneTree | internal/storage/snapshot.go:108-146 | one round of the reader fills a tree with exactly the rows in the bytes |
| Snapshot.ReadSnapshot | internal/storage/snapshot.go:86-147 | the reader succeeds exactly on parsable files and builds trees with their contents |
| Storage.RecordRoundTrip | internal/storage/engine.go:320-334 | a mutation survives the log exactly when its tree name is non-empty and free of the separator |
| Storage.Engine.MustTree | internal/storage/engine.go:213-220 | a missing tree is created empty, nothing else changes |
| Storage.Engine.Step | internal/storage/engine.go:150-170 | one mutation: logged then applied, or refused with only its tree created, always when the log file is closed |
| Storage.Engine.Steps | internal/storage/engine.go:146-172 | mutations apply one by one up to the first the log refuses |
| Storage.Engine.Tx | internal/storage/engine.go:134-183 | the whole state after a transaction, including one stopped half-way and one on a log that is closed |
| Storage.Engine.Get | internal/storage/engine.go:87-99 | the value of a key in a tree |
| Storage.Engine.Iterate | internal/storage/engine.go:115-124 | a scan of one tree, or nothing when there is no such tree |
| Storage.Engine.CreateSnapshot | internal/storage/engine.go:222-227 | the snapshot file afterwards holds the trees, or nothing readable; the log stays |
| Storage.Engine.RestoreSnapshot | internal/storage/engine.go:229-270 | trees merged over blanks, file replaced, log emptied; or state left as it was; or, after an error over the log, file replaced, memory as it was, and a log that takes nothing any more |
| Storage.Engine.OpenEngine | internal/storage/engine.go:27-74 | on any files opening succeeds exactly when the snapshot parses, replay meets no damage and every record names a tree; it replays the log over the snapshot |
| Storage.Engine.Close | internal/storage/engine.go:288-306 | only the closed mark changes |
| Storage.ReopenEqualsLive | internal/storage/engine.go:27-74 | in every run of transactions, snapshots, restores, interrupted restores and reopenings, reopening succeeds if and only if the last write of the snapshot file fitted it, and then gives every tree its live contents |
| Storage.CrashRecovery | internal/storage/engine.go:48-73 | a log that lost its last records opens to the snapshot with the remaining ones replayed over it, which is the state after them if the snapshot is not younger |
| Storage.CrashReopens | internal/storage/wal.go:197-250 | after every run, a clean log cut anywhere in its last segment opens to the contents its complete records leave |
| Storage.InterruptedRestoreOpens | internal/storage/engine.go:249-263 | a restore that ends between the new snapshot file and the new log opens to what is left of the log replayed over the restored trees |
| Storage.InterruptedRestoreIff | internal/storage/engine.go:249-263 | with the whole log left these are the contents from before if and only if the restored trees agree with the base of the log wherever it writes nothing |
| Storage.OnePutReopens | internal/storage/engine.go:320-334 | a put survives reopening exactly when its tree name can be split off again |
| Storage.UnwritableSnapshotIsFatal | internal/storage/engine.go:272-286 | in every run, after a snapshot or restore that could not be written no open succeeds until another write of the file |
| Storage.LongNameLosesSnapshot | internal/storage/engine.go:150-170 | a tree name refused by the log still makes the next snapshot unreadable |
| Leases.NormalizeTwice | internal/lease/types.go:45-68 | storing a stored lease again changes only the time of the write |
| Leases.NormalizeFills | internal/lease/types.go:45-68 | missing timers become half and seven eighths of the duration, and the expiry its end |
| Leases.LeaseTable.Upsert | internal/lease/store.go:66-97 | the lease, defaults filled in, is stored under its address, also by a write that then reports failure; an empty address is refused |
| LeaseIndex.UpsertKeepsExact | internal/lease/store.go:66-97 | an upsert whose keys fit keeps all four indexes exact and stores the lease |
| LeaseIndex.UpsertBreaksExact | internal/lease/store.go:206-219 | an oversized index key leaves the lease stored and that index without it |
| LeaseIndex.UpsertExactness | internal/lease/store.go:66-97 | an upsert keeps the indexes exact if and only if the log accepts its index keys or refuses the lease |
| LeaseIndex.DeleteKeepsExact | internal/lease/store.go:144-161 | a delete keeps the indexes exact and removes that lease only |
| LeaseIndex.FieldPrefix | internal/lease/store.go:236-252 | a prefix scan meets exactly the keys of the field and of fields that continue it after the separator |
| LeaseStore.RunKeepsIndexesExact | internal/lease/store.go:66-161 | after every run of upserts and deletes the indexes hold exactly the keys derived from the leases |
| LeaseStore.LookupExact | internal/lease/store.go:111-121 | a lookup returns every stored lease with that field once, and those whose field continues it |
| LeaseStore.LookupExactIff | internal/lease/store.go:236-252 | a lookup is exact if and only if no stored field continues the one asked for |
| LeaseStore.ExpiryKeyOrder | internal/lease/store.go:123-134 | byte order of the padded keys is the order of seconds if and only if not both are before 1970 |
| LeaseStore.ExpiringAnswers | internal/lease/store.go:123-134 | the stored leases whose expiry keys the scan meets, each once, whatever their times |
| LeaseStore.ExpiringExact | internal/lease/store.go:123-134 | they are exactly the leases with a strictly smaller expiry second if and only if the second asked for is from 1970 on or every stored one is, or equals it |
| LeaseStore.EngineStore.Upsert | internal/lease/store.go:66-97 | the engine's state after the queued transaction of an upsert, and when it succeeds |
| LeaseStore.EngineStore.Delete | internal/lease/store.go:144-161 | the engine's state after a delete, and when it succeeds: always when there is nothing to delete |
| LeaseStore.EngineStore.GetByIP | internal/lease/store.go:99-109 | the stored lease, or missing, or unreadable |
| LeaseStore.EngineStore.FetchByIPs | internal/lease/store.go:254-267 | missing leases skipped, an unreadable one is an error |
| LeaseStore.EngineStore.FetchBySecondaryPrefix | internal/lease/store.go:236-252 | the scan with its early stop fetches the leases of exactly the keys with the prefix |
| LeaseStore.EngineStore.ListExpiringBefore | internal/lease/store.go:123-134 | the leases of the scan up to the padded second |
| LeaseCrash.PartOfReplace | internal/lease/store.go:84-96 | part of the writes to one index leaves it as all would if and only if it is all of them or none was needed |
| LeaseCrash.PartExactIff | internal/lease/store.go:66-161 | part of the transaction of an upsert or delete keeps the indexes exact if and only if it is none of it or each index has all its writes or needed none |
| LeaseCrash.CrashInsideLeaseWrite | internal/storage/engine.go:48-73 | reopening a log cut inside such a transaction succeeds and gives exact indexes if and only if none of it is left or each index has all its writes or needed none |
| LeaseCrash.CrashAfterLease | internal/lease/store.go:84-96 | cut right after the lease itself, they are exact if and only if the upsert changes no index key |
| HaElection.OppositeRoles | internal/ha/election.go:38-75 | two nodes with true views take opposite roles if and only if not both drain and something tells them apart |
| HaElection.PrimaryIff | internal/ha/election.go:38-75 | a node leads if and only if it is not draining and its peer is, or it comes first by priority and then by name |
| HaElection.SplitExact | internal/ha/failover.go:837-859 | the halves are disjoint, cover the range, and have the ceiling and the floor of half its size |
| HaElection.ScopesDisjoint | internal/ha/failover.go:228-260 | no address is in the scope of both of two connected nodes in opposite roles, and none is left out when neither is fenced |
| HaElection.OverlapIff | internal/ha/failover.go:228-260 | for any range and each node's own mode, role, connection and fencing: some address is in the scopes of both if and only if neither is fenced and both have the whole range, one the whole and the other a half, or both the same half |
| HaElection.OppositeOverlapIff | internal/ha/failover.go:228-260 | of two nodes in opposite roles that see each other the scopes meet if and only if neither is fenced, the primary is active-passive, the secondary shares load, and the range has two addresses |
| HaElection.MixedModesCollide | internal/ha/failover.go:228-260 | an address both may hand out in such modes |
| HaManager.Manager.constructor | internal/ha/failover.go:89-132 | the settings with their defaults filled in, and the initial state: primary, unfenced, nothing applied |
| HaManager.Manager.CanPromoteLocked | internal/ha/failover.go:762-811 | node, witness file and answer for every owner and every failing read or write |
| HaManager.Manager.WatchdogRound | internal/ha/failover.go:415-450 | a node that missed heartbeats disconnects and is promoted if the witness allows it |
| HaManager.Manager.RefreshWitnessState | internal/ha/failover.go:717-760 | a primary renews the record or steps down fenced; others only look |
| HaManager.Manager.MarkPeerDisconnected | internal/ha/failover.go:661-670 | peer state and replication progress are forgotten |
| HaManager.HeartbeatHoldsOff | internal/ha/failover.go:649-659 | a heartbeat keeps the watchdog from disconnecting and promoting for exactly the timeout |
| HaManager.Manager.TriggerManualFailover | internal/ha/failover.go:182-226 | only a connected primary with a configured peer steps down, for twice its timeout or an hour, whichever is longer |
| HaManager.Manager.ScopeOf | internal/ha/failover.go:228-260 | the scope granted or refused by role, mode, connection and fencing of the moment |
| HaManager.ManagersTakeOppositeRoles | internal/ha/failover.go:672-689 | two managers that hear from each other take opposite roles if and only if not both drain and something tells them apart |
| HaManager.FenceExact | internal/ha/failover.go:717-811 | a fence lifts if and only if a watchdog round of a node that is not primary finds its peer silent and its claim succeeds; it rises only by a failed renewal or a refused claim |
| HaManager.FencedPrimaryStays | internal/ha/failover.go:415-450 | a fenced primary without its peer stays one over every run without heartbeats |
| HaManager.ServedIff | internal/ha/failover.go:228-260 | an active-passive pair in opposite roles serves a range if and only if its primary is not fenced |
| HaManager.FailedRenewalStopsService | internal/ha/failover.go:717-760 | after one failed renewal a node that wins the next election is a fenced primary, and nobody serves |
| HaManager.Manager.ClassifyIncrementalSequence | internal/ha/failover.go:607-629 | next number: apply; old: ignore; gap: forget progress and resync |
| HaManager.Manager.MarkSnapshotApplied | internal/ha/failover.go:563-570 | the snapshot counts as done and the sequence never goes down |
| HaManager.Manager.RaiseAppliedSequence | internal/ha/failover.go:585-594 | the applied sequence only rises |
| HaManager.Manager.RaiseSyncSequence | internal/ha/failover.go:596-605 | the observed sequence only rises |
| HaPartition.PeerRefused | internal/ha/witness.go:53-68 | while one node's record in the witness file is fresh the other is refused and the file stays |
| HaPartition.StepSafe | internal/ha/failover.go:415-450 | a step of a partition keeps each primary the owner of a fresh record if and only if it is not the start of a node, able to write the file, beside a primary |
| HaPartition.AtMostOnePrimary | internal/ha/failover.go:717-811 | from one unfenced primary that has written the record, over every partition run with on-time watchdogs, any witness failures, and without such starts: a primary owns a record no older than the other's hold time, and there is at most one |
| HaPartition.NeverTwoPrimariesIff | internal/ha/failover.go:134-151 | such a run never has two primaries if and only if no node is started, able to write the file, beside a primary |
| HaPartition.StartSplits | internal/ha/failover.go:118-151 | in any state a started node leads unless it cannot write its witness file, and the file then names it, however fresh the other's record was |
| HaPartition.StartedApart | internal/ha/failover.go:415-450 | a node started in a partition is primary, over all events, exactly until it steps down, by a failed write of the witness file or its end |
| HaPartition.StartedApartIff | internal/ha/failover.go:118-151 | two nodes started in a partition are both primary after any events if and only if neither stepped down |
| HaPartition.InitialSafe | internal/ha/failover.go:717-760 | one unfenced primary that has just written the record is a safe start |
| HaPartition.PromotedIff | internal/ha/failover.go:415-450 | for any configuration and file, a node is primary after a watchdog round if and only if it was, or its peer is silent and it has no witness path or can read and write a file that is absent, blank, undated, stale or its own |
| HaPartition.SplitBrainIff | internal/ha/failover.go:762-811 | a watchdog round makes both nodes primary if and only if the other one is and this one's claim succeeds |
| HaPartition.ConfiguredIsSane | internal/ha/failover.go:89-117 | settings with witness paths and different names meet what the partition theorem asks of a configuration |
| HaPartition.NoWitnessSplitBrain | internal/ha/failover.go:762-811 | a node without a witness path, on either side, is primary beside a primary peer exactly from its timeout on |
| HaReplication.StepConsistent | internal/ha/failover.go:336-370 | every event keeps each replicated lease at a value the primary had between the applied sequence and the last snapshot, unless a half-failed transaction touched it and none applied has written it since |
| HaReplication.RunConsistent | internal/ha/failover.go:563-629 | over every run each such lease shows a value the primary had between the applied sequence and the last snapshot |
| HaReplication.Convergence | internal/ha/sync.go:87-195 | once the applied sequence has caught up with the last snapshot, the replica is the primary's leases after exactly that many transactions, whatever was lost, for all leases no half-failed transaction touched or an applied one has written since |
| HaReplication.BetweenSnapshots | internal/ha/sync.go:87-195 | until the next snapshot the replica is the snapshot with the mutations after its stamp replayed over it |
| HaReplication.SnapshotHeals | internal/ha/sync.go:50-121 | a snapshot read when the primary has observed all its transactions makes up for half-failed ones: a secondary that catches up has the primary's leases |
| HaSync.StoredIsSettled | internal/lease/types.go:45-68 | a lease the primary has stored is stored by the secondary unchanged but for the time of the write |
| HaSync.SnapshotOfTable | internal/ha/sync.go:91-99 | what the secondary makes of a snapshot message is the primary's table, in any order of the list |
| HaSync.Secondary.HandleIncremental | internal/ha/failover.go:336-370 | manager and replica after a lease message, for every way the store write can end |
| HaSync.Secondary.BuildDesired | internal/ha/sync.go:91-99 | the leases of a snapshot by trimmed address, the last one winning |
| HaSync.Secondary.ApplySnapshot | internal/ha/sync.go:87-121 | success makes the replica the snapshot, or the snapshot over what it held when load is shared; a failed write leaves each lease as before or as in the snapshot |
| HaSync.Secondary.HandleSnapshot | internal/ha/sync.go:77-84 | a failed snapshot leaves the replication progress alone |
| HaSync.Primary.Push | internal/ha/sync.go:127-195 | a pushed mutation is taken, or answered with a resync after which the whole table is pushed |
| Pool.AllocationComplete | internal/dhcpv4/pool.go:132-171 | allocation fails if and only if no lease can be reused and every usable address of every candidate pool is marked |
| Pool.NextFreeExact | internal/dhcpv4/pool.go:239-254 | the lowest clear address of the effective range, or none when all are marked |
| Pool.UsableExact | internal/dhcpv4/pool.go:295-316 | whatever a scope provider answers, exactly the granted addresses inside the pool are used |
| Pool.FreshExact | internal/dhcpv4/pool.go:158-170 | a fresh address is the requested one whenever that is clear and usable, else the lowest clear one of the first candidate pool with room; none exactly when no pool has room |
| Pool.ReusableExact | internal/dhcpv4/pool.go:136-156 | the first unexpired active lease of the client in a known pool is reused |
| Pool.SyncedExact | internal/dhcpv4/pool.go:107-130 | after a rebuild exactly the addresses kept by a lease are marked, each in the lease's pool |
| Pool.ScopesApart | internal/dhcpv4/pool.go:295-316 | two nodes in opposite roles may both freshly hand out some address, in whatever pool, if and only if neither is fenced, the primary is active-passive, the secondary shares load, and a pool has two addresses |
| Pool.CollisionIff | internal/dhcpv4/pool.go:132-171 | whatever the scopes: some interleaving hands out one address on both nodes if and only if an address is in both |
| Pool.ElectedNodesCollideIff | internal/ha/failover.go:672-689 | two managers that have heard from each other, with names that differ ignoring case and not both draining, hand out one address on both nodes in some interleaving if and only if their scopes meet like that; in equal modes never |
| Pool.ElectedNodesNeverCollide | internal/ha/failover.go:672-689 | otherwise no interleaving does, whatever pools each walks |
| PoolManagers.BitmapCoversPool | internal/dhcpv4/pool.go:80-92 | the 32-bit bitmap size fits every pool but the whole IPv4 space |
| PoolManagers.NewPoolManager | internal/dhcpv4/pool.go:55-99 | pools of the enabled subnets as configured and all free, or the first error in the list: text that does not parse or a range that ends before it starts |
| PoolManagers.PoolManager.SetUsed | internal/dhcpv4/pool.go:209-218 | one bit of one pool changes, none outside its range |
| PoolManagers.PoolManager.NextFreeIn | internal/dhcpv4/pool.go:239-254 | the loop, which also ends at 255.255.255.255, finds the lowest clear address |
| PoolManagers.PoolManager.SelectCandidatePools | internal/dhcpv4/pool.go:256-272 | the pool of the relay's prefix, or all pools |
| PoolManagers.PoolManager.TryAllocateSpecific | internal/dhcpv4/pool.go:220-237 | the first candidate that may use the address and has it clear, and its bit set |
| PoolManagers.PoolManager.Allocate | internal/dhcpv4/pool.go:132-171 | the allocation found and only its bit set |
| PoolManagers.PoolManager.MarkHome | internal/dhcpv4/pool.go:179-207 | one bit of the pool the lease names, or else of one whose prefix holds the address |
| PoolManagers.PoolManager.Release | internal/dhcpv4/pool.go:173-177 | that bit cleared and no other |
| PoolManagers.PoolManager.SyncFromLeases | internal/dhcpv4/pool.go:107-130 | all bits cleared, then one set for every lease that keeps its address |
| Handler.FoundExact | internal/dhcpv4/handler.go:68-175 | a client gets an address it actively holds, or a clear one usable in its pool |
| Handler.GrantStealsNothing | internal/dhcpv4/handler.go:68-175 | DISCOVER and REQUEST overwrite only inactive leases or leases of the same hardware address |
| Handler.StepKeepsSafe | internal/dhcpv4/handler.go:68-226 | every packet, sweep and rebuild keeps each active lease in a pool range marked |
| Handler.RunKeepsSafe | internal/dhcpv4/handler.go:68-226 | over every run each active lease in a pool range stays marked, filed under its address and in its own pool |
| Handler.NoStolenLease | internal/dhcpv4/pool.go:107-254 | from a start on leases that agree with their pools, at every step of every run active leases are marked and no grant takes one from another client |
| Handler.StepEndsIff | internal/dhcpv4/handler.go:177-226 | a client keeps its active lease in a step if and only if that is no written RELEASE or DECLINE of the address, by whatever client, and no tick that finds it due and writes it |
| Handler.HeldUntilEnded | internal/dhcpv4/handler.go:68-226 | over every run a client keeps the address it holds until such a step |
| Handler.QuarantineIsKept | internal/lease/expiry.go:67-90 | the state of an expired lease becomes free by exactly the ticks after its whole quarantine |
| Handler.TickSweeps | internal/lease/expiry.go:59-103 | a tick stores the new state of every due lease it changes |
| Handler.TickTames | internal/lease/expiry.go:59-103 | a tick keeps every lease's address, pool and owner and makes none active |
| Handler.MarkedIsHeld | internal/dhcpv4/pool.go:132-171 | a marked address goes only to the client that actively holds it |
| Handler.StepWithholds | internal/dhcpv4/handler.go:68-226 | one step gives nobody a marked address without an active lease, and leaves it so if and only if it is not a written RELEASE of it or a restart that finds no lease keeping it |
| Handler.WithheldForGood | internal/dhcpv4/pool.go:132-171 | in every run without those two nobody gets such an address, its last client included |
| Handler.ExpiredForGood | internal/lease/expiry.go:59-103 | from the tick on that finds an active lease due nobody gets its address in any run without those two |
| Handler.DeclinedForGood | internal/dhcpv4/handler.go:203-226 | a declined, marked address stays declined and is given to nobody in any run without its RELEASE, restarts included |
| Handler.DeclineWithholds | internal/dhcpv4/handler.go:203-226 | a DECLINE withholds the address if and only if its bit is set |
| Server.Server.HandleDiscover | internal/dhcpv4/handler.go:68-121 | the state after a DISCOVER and its answer, with rapid commit or without |
| Server.Server.HandleRequest | internal/dhcpv4/handler.go:123-175 | the state after a REQUEST and its answer, NAK included |
| Server.Server.HandleRelease | internal/dhcpv4/handler.go:177-201 | the state after a RELEASE and whether it is an error; the bit is cleared only after a write that reports success |
| Server.Server.HandleDecline | internal/dhcpv4/handler.go:203-226 | the state after a DECLINE and whether it is an error |
| Server.Sweep | internal/lease/expiry.go:59-103 | the leases after a tick, failed writes skipped |
| Server.EngineUpsertIsPut | internal/lease/store.go:66-97 | the store on the engine does to its leases what the handler's table does |
| Server.EngineAnswersMac | internal/lease/store.go:111-113 | a lookup by hardware address on exact indexes gives the client's leases and no others |
| Server.EngineListsDue | internal/lease/store.go:123-134 | the sweeper's query lists stored leases, each once |
| Cidr.OverlapsExact | internal/ipam/cidr.go:9-13 | two prefixes overlap if and only if they share an address, in both families |
| Cidr.OverlapsInterval | internal/ipam/cidr.go:9-13 | two prefixes overlap if and only if they are of one family and their address intervals meet |
| Cidr.ContainsExact | internal/ipam/cidr.go:15-19 | a prefix contains another if and only if it holds all its addresses |
| Cidr.AddressCountExact | internal/ipam/cidr.go:21-27 | the number of addresses, as far as 64 bits go |
| Cidr.NthAddressExact | internal/ipam/cidr.go:29-47 | the n-th address, or none past the end |
| Cidr.NthAddressOnto | internal/ipam/cidr.go:29-47 | counting reaches every address of the block and no other |
| Planner.FindCandidatePrefix | internal/api/mcp/handlers.go:727-759 | the lowest aligned block inside the parent that shares no address with a stored subnet; none only when there is none |
| Planner.Occupied | internal/api/mcp/handlers.go:742-753 | the overlap scan is right: some address is shared or none is |
| Planner.SmallestIPv4Prefix | internal/api/mcp/handlers.go:944-955 | the smallest block from /30 up with enough usable hosts; none exactly outside 1 to 2147483646 |
| Planner.PlanIsUsable | internal/api/mcp/handlers.go:965-981 | gateway and pool are host addresses of the block; the gateway is the first, the pool ends with the last and keeps its distance from the gateway |
| Planner.TargetExact | internal/api/mcp/handlers.go:636 | for any rounding as exact as double precision the hosts planned for are the least whole number that covers the growth, or one more exactly where that is met without a remainder and the product was rounded up |
| Planner.RoundedUp | internal/api/mcp/handlers.go:636 | 1860 hosts and 10 percent come to 2047, one more than a /21 holds |
| Planner.PlanSubnet | internal/api/mcp/handlers.go:608-668 | a plan is the lowest free block of the right size; the parent is too small exactly when no block that fits it holds the hosts, and the other errors say exactly what is missing |
| Subnets.FormIsSound | internal/ipam/engine.go:614-670 | an accepted subnet is named by its block and holds its gateway and its ordered pool |
| Subnets.FindOverlap | internal/ipam/engine.go:87-105 | the loop finds an overlap exactly when another stored subnet shares an address |
| Subnets.IpamEngine.UpsertSubnet | internal/ipam/engine.go:62-105 | the table and the answer after an upsert, creation time kept |
| Subnets.IpamEngine.DeleteSubnet | internal/ipam/engine.go:119-121 | that subnet gone and no other |
| Subnets.UpsertAccepts | internal/ipam/engine.go:87-105 | accepted if and only if well-formed and no other stored subnet shares an address |
| Subnets.RunKeepsDisjoint | internal/ipam/engine.go:62-121 | over every run stored subnets stay pairwise disjoint as sets of addresses |
| Subnets.InferSubnetForAddr | internal/ipam/engine.go:708-719 | the scan returns the first listed subnet that holds the address |
| Subnets.InferExact | internal/ipam/engine.go:708-719 | with disjoint subnets the answer is the one subnet that holds the address, or none |
| Subnets.InferOrderFree | internal/ipam/engine.go:708-719 | the inferred subnet does not depend on the order of the list |
| Subnets.PlannedIsAccepted | internal/api/mcp/handlers.go:727-759 | a block the planner suggests is accepted when stored |
| RangeMerge.ExchangeSort | internal/migrate/isc_dhcp.go:693-699 | the in-place sort leaves a permutation ordered by start |
| RangeMerge.MergeIscRanges | internal/migrate/isc_dhcp.go:673-717 | the outcome of sweeping a sorted permutation; an address that does not parse is an error |
| RangeMerge.SweepKeaPools | internal/migrate/kea.go:285-307 | the loop over the sorted Kea pools ends in the outcome of the sweep, warning included |
| RangeMerge.SweepIsUnion | internal/migrate/kea.go:285-307 | a merged range is the union of the ranges |
| RangeMerge.SweepExact | internal/migrate/kea.go:285-307 | sorted ranges merge if and only if they leave no gap and only the last may end at 255.255.255.255 |
| RangeMerge.MergeExact | internal/migrate/isc_dhcp.go:693-711 | for every order the sort may leave: without a range that ends at the last address ranges merge exactly when they leave no gap; with one, exactly when also no other does and it comes last |
| RangeMerge.MergeByInput | internal/migrate/isc_dhcp.go:673-717 | in terms of the starts as given: one that starts after all others merges exactly without a gap; two, or one before a later start, never merge |
| RangeMerge.TieHangsOnSort | internal/migrate/kea.go:285-287 | both outcomes are possible if and only if another range starts together with the one that ends at the last address |
| RangeMerge.TieExample | internal/migrate/kea.go:285-287 | two ranges that merge in one sorted order and not in the other |
| RangeMerge.OutcomeExact | internal/migrate/isc_dhcp.go:673-717 | merged means the exact union; an error means a gap unless some range ends at the last address |
| RangeMerge.KeaPoolSound | internal/migrate/kea.go:309-374 | a parsed pool is in order, and one written as a prefix is exactly the prefix |
| AddressMerge.FoldDescribes | internal/ipam/engine.go:777-826 | merged records of one address are in conflict if one is or two hardware addresses differ, else in the highest state |
| AddressMerge.MergeOrderFree | internal/ipam/engine.go:777-826 | state and time of the merge do not depend on the order |
| AddressMerge.CollectAll | internal/ipam/engine.go:318-379 | the three loops of the list fold every wanted record into the one under its address |
| AddressMerge.GetAddress | internal/ipam/engine.go:426-505 | the lookup folds what is stored, reserved and leased, or infers a subnet, or finds nothing |
| AddressMerge.LookupAgreesWithList | internal/ipam/engine.go:303-505 | the unfiltered list has a record exactly when something is filed under the address, and it is the record of the lookup |
| AddressMerge.AllListsNothing | internal/ipam/engine.go:309-328 | the filter "all" lists nothing if and only if no record names a subnet "all" |
| Dhcpv6.EncodableExact | internal/dhcpv6/options.go:68-82 | options encode if and only if every value has at most 65535 bytes |
| Dhcpv6.OptionsRoundTrip | internal/dhcpv6/options.go:49-82 | decoding encoded options gives them back in order |
| Dhcpv6.OptionsReverse | internal/dhcpv6/options.go:49-82 | encoding decoded options gives the accepted bytes |
| Dhcpv6.Decode | internal/dhcpv6/options.go:49-66 | the consuming loop decodes the options |
| Dhcpv6.Encode | internal/dhcpv6/options.go:68-82 | the appending loop encodes them |
| Dhcpv6.SetThenGet | internal/dhcpv6/options.go:84-112 | setting an option replaces all of its code and leaves the others |
| Dhcpv6.OptionList.Set | internal/dhcpv6/options.go:103-112 | the list without the code, then the new option |
| Dhcpv6.OptionList.Add | internal/dhcpv6/options.go:114-116 | one option appended |
| Dhcpv6.IanaRoundTrip | internal/dhcpv6/options.go:190-213 | an identity association comes back if and only if its options encode |
| Dhcpv6.IanaReverse | internal/dhcpv6/options.go:190-213 | encoding a decoded one gives the accepted bytes |
| Dhcpv6.IaAddressRoundTrip | internal/dhcpv6/options.go:222-245 | an address comes back if and only if it has 16 bytes and its options encode |
| Dhcpv6.IaAddressReverse | internal/dhcpv6/options.go:222-245 | encoding a decoded one gives the accepted bytes |
| Dhcpv6.PacketRoundTrip | internal/dhcpv6/packet.go:33-81 | a packet comes back if and only if only fields of its own format are set |
| Dhcpv6.PacketReverse | internal/dhcpv6/packet.go:33-81 | encoding an accepted packet gives its bytes |
| Dhcpv6.EncapsulateRelayReply | internal/dhcpv6/relay.go:3-17 | the reply with interface id, when there was one, and relay message |
| Dhcpv6.RelayRoundTrip | internal/dhcpv6/relay.go:3-17 | the relay agent gets the inner packet back if and only if it encodes into at most 65535 bytes |
| Dhcpv4Options.DecodeOptions | internal/dhcpv4/options.go:47-71 | the indexing loop decodes up to END, the later of two equal codes winning |
| Dhcpv4Options.Encode | internal/dhcpv4/options.go:73-91 | the options in the order the map was walked; an error exactly when a value is too long |
| Dhcpv4Options.OptionsRoundTrip | internal/dhcpv4/options.go:47-91 | for every order of the map, decoding gives the options back except PAD and END, whatever follows |
| Dhcpv4Options.DecodedGoesOn | internal/dhcpv4/options.go:47-91 | decoded options always encode, and decode to the same |
| TokenBucket.Limiter.constructor | internal/api/rest/middleware.go:244-250 | full, with a rate of at least one |
| TokenBucket.Limiter.Allow | internal/api/rest/middleware.go:252-267 | refill up to capacity, then one token or a refusal |
| TokenBucket.RunKeepsSound | internal/api/rest/middleware.go:252-267 | tokens stay between 0 and capacity in every run |
| TokenBucket.WindowBound | internal/api/rest/middleware.go:252-267 | in every window at most capacity plus rate times its length are allowed |
| TokenBucket.AllowedExact | internal/api/rest/middleware.go:252-267 | a call is allowed if and only if every window that ends with it has room for one more |

## Left out

- Sockets, goroutines, tickers, TLS, HTTP, web UI, webhooks, DDNS, discovery, metrics, audit and CLI.
- File system detail: fsync failures, renames, a crash while a file is written. Segments and snapshots are byte strings, the witness is one shared record.
- Runs that go on after a restore failed over the log, without a start: each operation of such an engine is specified, but `Storage.ReopenEqualsLive` takes the run up at the next start.
- LeaseStore.EngineStore.Upsert: it and Delete need an engine whose log is open, which such a restore closes.
- HaPartition.Step: a start is one step; the time inside it before the file is written, when the node is already primary, is covered only for a pair that starts in the partition.
- What a log replays that was appended to behind a torn tail: the torn bytes stay in front, so crash recovery covers one cut and one reopening.
- Segment numbers of ten digits or more, which the file name scan does not read back in full.
- JSON and CRC are functions passed in: the JSON of a record reads back, and of the checksum nothing is assumed. Damage to a log other than a cut end is not modelled.
- HaReplication.Convergence: leases the secondary writes by itself (its own sweeper, reuse by a client), snapshots that race with pushes, and a restart of the sender that the peer never notices are outside the runs. In load-sharing mode only single exchanges are modelled.
- Concurrent upserts of one address, where the old record is read outside the transaction.
- Handler.NoStolenLease: one node; replica writes do not touch the bitmap. The lease list read at a start is complete; when it cannot be read the bitmaps stay empty and no error is raised. A sweeper tick is one step, and the index answers truthfully even after a store write that failed late. Lease addresses are in the form the address printer writes.
- Handler.Step: lease fields nothing here looks at (host name, relay, vendor and user class) travel as one opaque value.
- INFORM, the options of replies, and the events raised for leases.
- PoolManagers.NewPoolManager: a pool of all 2^32 addresses, whose bitmap is empty, and IPv6 pool bounds, which stop the program.
- Text functions work on ASCII; no Unicode case folding.
- IPv6 zones, and ranges of mixed families in the importers.
- TokenBucket.Limiter.Allow: real numbers instead of floating point.
- ListAddresses after the merge: filling in free pool addresses, search text, state filter, sorting and limit.
- Planner.TargetExact: products beyond 2 to the 50th hundredths of a host, far above what any block holds; the number is taken from the prompt before.
- IndexManager, the DHCPv6 pool and handlers, sessions, tokens, lockout, the ISC and Kea parsers apart from ranges: smaller or easier than what is here.
