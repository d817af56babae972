# VeloDB in Dafny

A model of the parts of VeloDB (an in-memory server speaking the Redis protocol) whose correctness is
not visible from one function body: the replication backlog and the PSYNC protocol over it, the wire and
log codec, the snapshot and log-rewrite formats, and the store algorithms (sorted sets, streams and
consumer groups, SCAN, glob matching, eviction, expiry, list removal, random members, WATCH/EXEC).
Everything is proved for all inputs, all runs and, where the server walks a hash table, for every order
of enumeration. `dafny verify dfyconfig.toml` checks the project.

## How the model is laid out

| module | models |
|---|---|
| `Bytes`, `Listings` | byte strings, decimal and fixed-width numbers; enumerations of sets and maps |
| `Resp`, `CommandLog` | the RESP serializer and parser, the log encoder, the replay loop |
| `Backlog`, `Psync` | the ring buffer, and master, replica and network as one state machine |
| `Values`, `ZSets`, `ZRanges` | the seven value types, expiry, the sorted-set double index and its queries |
| `Checksum`, `Rdb`, `Snapshots` | the checksum, the entry codec, whole snapshot files |
| `Commands`, `AofRewrite` | the commands a rewritten log contains, and the rewrite as a compiler to them |
| `Streams`, `ConsumerGroups` | stream ids, trimming, groups and their pending entries |
| `Scan`, `Glob`, `Keyspace`, `Lists`, `Ranges`, `RandomMember`, `Transactions` | the remaining store algorithms |

Code that changes things in place is a class or a loop whose `ensures` equates its result with a
specification function (`Serialize`, `Drain`, `FileBytes`, `Apply`, `Deliver`, `Range`, ...). The lemmas
then say what that function achieves. Code made of expressions is modelled by functions directly.

Conventions: a byte is `0..255`, machine words are subset types with wrap-around written out, a score is
its 64-bit pattern ordered by sign and magnitude (`Values.ScoreOrder`; the two zeros share a bucket), a decimal rendering of scores is a parameter that must read back what it printed. A store is a
sequence of databases, each a map from keys to entries. An iteration over a hash map or hash set is a
*listing*: a sequence without repetition holding exactly its contents; theorems hold for every listing.

## Where the code does not do what it seems to

Each of these is stated by lemmas, which also say when the code does meet its promise.

- A full resync is at least once, not exactly once (`Psync.FullResyncDelivers`). A command logged between
  registration and snapshot is in the snapshot and in the replica's channel; one logged before the gap is
  read is in the channel and in the gap (`Psync.GapRepeatsQueue`). The comment at
  src/replication/master.rs:61-63 speaks of a gap; the channel already covers it. The repeated bytes also
  put the replica's offset too high, and a later partial resync skips as many (`Psync.OffsetPastSkips`).
- A read that splits a command makes the replica throw bytes away, since the parser never answers
  "incomplete" (`Psync.TornReadLosesStep`). It cannot catch up while the link lasts
  (`Psync.TornReadLags`, `Psync.LagLastsRun`); dropping the link at once would repair it
  (`Psync.DropRecovers`).
- Loading a snapshot does not clear the store: keys it does not have outlive a full resync
  (`Snapshots.StaleExactly`, `Snapshots.StaleKeysSurvive`).
- A log whose last command is torn is not shortened before it is appended to. Its whole commands still come
  back, and what is appended does if the cut splits none (`CommandLog.AppendedToTorn`); a cut one byte into
  any command loses all that is appended (`CommandLog.TornHidesLater`).
- XGROUP CREATE on a group that exists, and XGROUP SETID whatever its comment says
  (src/cmd/stream.rs:195-203), replace the group: its consumers and pending entries are forgotten, and a
  start below the last delivery delivers again (`ConsumerGroups.ReplacedKeepsOrder`,
  `ConsumerGroups.ReplacedRedelivers`).
- A scan whose token another scan took away ends with cursor 0 like a complete one (`Scan.ScanExactly`).
- A simple string or error holding CR is not read back (`Resp.RoundTrip`).
- The glob matcher compares literally before it looks for `*`, so a subject holding `*` can fail against
  a pattern that matches it (`Glob.StarSubjectFails`, `Glob.ExactIffNoStar`).
- A stream whose key expired but is still stored accepts any id (`Streams.AppendToExpired`).
- `0-*` on a fresh stream gives 1-0, not the smallest id 0-1 (`Streams.IdIsSmallest`).
- ZRANGE leaves infinite scores out, so ranks agree with it only when all scores are finite
  (`ZRanges.RankAgreesWithRange`).
- Random distinct members loop for ever when the set size is a multiple of 31 and more than a 31st of it is
  asked for (`RandomMember.TerminatesExactly`).
- WATCH notices only `set`, removing a key restarts its counter, and renaming brings another key's along; which
  mixes of changes go unnoticed is known exactly (`Transactions.WatchExactly`, `Transactions.DeleteRestarts`,
  `Transactions.RenameUnnoticed`, `Transactions.ModifyUnnoticed`).
- A range whose stop lies before the head of the list can report the first element instead of nothing (`Ranges.RangeExactly`).
- The snapshot checksum is linear; which files collide is known exactly (`Checksum.CollisionsExactly`).
- A rewritten log loses empty containers, empty inner hashes, a stream's last id past its last entry, and
  stream entries that are out of order (`AofRewrite.KeptExactly`), as an expired stream that is written to
  and revived can hold (`AofRewrite.RevivedStreamLosesEntry`).

## Model

| member | source | states |
|---|---|---|
| `Resp.RoundTrip` | src/resp/parser.rs:13-53 | parsing a serialized value followed by any bytes gives its RESP2 degradation and leaves exactly those bytes, if and only if no simple string or error in it, at any depth, holds CR |
| `Resp.RoundTripForward` | src/resp/serializer.rs:23-71 | the round trip for values without CR, all nested forms, i64 text, maps flattened to alternating arrays |
| `Resp.RoundTripBroken` | src/resp/serializer.rs:25-26 | a CR inside a line makes the parse fail or give something other than the value |
| `Resp.ParseExtend` | src/resp/parser.rs:51-53 | a successful parse is unaffected by appended input and leaves it unread |
| `Resp.RestIsSuffix` | src/resp/parser.rs:51-53 | what a successful parse leaves is the end of its input, byte for byte |
| `Resp.TornValueFails` | src/resp/parser.rs:34-53 | the encoding is prefix-free: no strict prefix of a serialized value parses |
| `Resp.HeaderRoundTrip` | src/resp/parser.rs:27-49 | a length or integer line is read back for every i64, the smallest included |
| `Resp.DecimalRoundTrip` | src/resp/parser.rs:27-32 | the decimal text of every i64 reads back |
| `Resp.LineRoundTrip` | src/resp/parser.rs:13-25 | a line reads back if it holds no CR; otherwise anything read is shorter |
| `Resp.BulkRoundTrip` | src/resp/parser.rs:34-41 | a bulk string of arbitrary bytes reads back |
| `Resp.WireForms` | src/resp/serializer.rs:23-71 | the bytes protocols 2 and 3 write for each kind of value |
| `Resp.WireSequences` | src/resp/serializer.rs:38-50 | items and entries are written in order, a key before its value |
| `Resp.DegradedForms` | src/resp/serializer.rs:42-69 | what a RESP2 client sees of flags, nulls, doubles and maps |
| `Resp.SerializeValue` | src/resp/serializer.rs:23-71 | the appending writer adds exactly the serialization, for protocols 2 and 3 |
| `Resp.SerializeItems` | src/resp/serializer.rs:38-41 | the writer's array loop appends the items' serializations in order |
| `Resp.SerializeMap` | src/resp/serializer.rs:42-50 | the writer's map loop appends keys and values alternately |
| `CommandLog.EncodeCommandForAof` | src/persist/aof.rs:201-214 | the encoding loop writes the RESP2 serialization of the command's array of bulk strings |
| `CommandLog.EncodeRoundTrip` | src/resp/parser.rs:55-66 | an encoded command is read back exactly, whatever follows it |
| `CommandLog.EncodedForm` | src/persist/aof.rs:201-214 | the bytes of a command |
| `CommandLog.ArgumentsExactly` | src/resp/parser.rs:59-61 | bulk and simple strings become arguments in order, other items are skipped |
| `CommandLog.NonCommandStops` | src/server.rs:237 | a value without arguments ends the replay without an error and hides what follows |
| `CommandLog.TornCommandFails` | src/resp/parser.rs:34-66 | no strict prefix of an encoded command parses |
| `CommandLog.DrainBuffer` | src/server.rs:234-250 | the replay loop yields the commands of `Drain` in order, what is left is exactly the unconsumed end, and failure is reported exactly |
| `CommandLog.TornLogRecovery` | src/server.rs:234-250 | replaying any byte prefix of a log applies exactly the commands wholly inside it, in order, and stops at a torn one |
| `CommandLog.AppendedToTorn` | src/persist/aof.rs:25 | of a cut-off log with later commands appended, the whole commands still come back first, and the later ones follow if the cut splits no command |
| `CommandLog.TornHidesLater` | src/server.rs:246-249 | a log cut one byte into any command hides every command appended to it |
| `CommandLog.WholeIsLargest` | src/server.rs:234-250 | `Whole` is the number of commands that fit: `j` commands fit in `n` bytes iff `j` is at most it |
| `CommandLog.LogRoundTrip` | src/server.rs:234-250 | replaying a whole log gives back all its commands and consumes every byte |
| `CommandLog.EncodeAllInjective` | src/persist/aof.rs:201-214 | two command sequences with the same log are the same |
| `Backlog.RingRefinesLog` | src/replication/backlog.rs:23-69 | after any pushes, longer than the capacity or not: the offset is the log's length, the write position that modulo the capacity, an offset is served iff the identity matches and the window holds it, and what is served is the log's suffix |
| `Backlog.ReadFromIsSuffix` | src/replication/backlog.rs:51-69 | inside the window a read is the log suffix, outside it is empty |
| `Backlog.PushAgrees` | src/replication/backlog.rs:23-30 | a push keeps the ring in agreement with the log extended by the data |
| `Backlog.FanOutExactly` | src/replication/backlog.rs:29 | a push reaches every open subscriber once and drops exactly the closed ones |
| `Backlog.SubscribersInOrder` | src/replication/backlog.rs:29 | subscriber by subscriber in order: an open one gets the data once, a closed one leaves; unregistering drops those with the id |
| `Backlog.UnregisterExactly` | src/replication/backlog.rs:43-45 | unregistering removes exactly the subscriber with that id |
| `Backlog.ReplBacklog.constructor` | src/replication/backlog.rs:19-21 | a new backlog is the empty ring of its capacity |
| `Backlog.ReplBacklog.Push` | src/replication/backlog.rs:23-30 | the in-place push gives the pushed ring and hands the data to all open subscribers |
| `Backlog.ReplBacklog.ReadFrom` | src/replication/backlog.rs:51-63 | the reading loop returns the ring's bytes from the offset |
| `Backlog.ReplBacklog.RegisterReplica` | src/replication/backlog.rs:36-41 | the new subscriber's id is unlike every registered one and its queue is empty |
| `Backlog.ReplBacklog.UnregisterReplica` | src/replication/backlog.rs:43-45 | the subscriber leaves, the ring is untouched |
| `Psync.ExactlyOnce` | src/replication/master.rs:34-92 | over every run of pushes, connects, drops and master restarts whose reads end on command boundaries and whose full resyncs see nothing logged before their snapshot and an empty gap: the commands the replica has taken, those behind its last snapshot and those applied since, are exactly the front of the master's log, each once and in order, and its remembered offset is where they end |
| `Psync.StepKeeps` | src/replication/replica.rs:52-158 | every protocol step keeps the invariant tying wire, queue, ring, reply and ledger together |
| `Psync.DrainedMeansCaughtUp` | src/replication/replica.rs:125-158 | after such a run a live replica with nothing in flight has taken the whole log and remembers the master's offset |
| `Psync.ResumedExactly` | src/replication/master.rs:34-49 | the master resumes a replica iff it knows the identity and the missing bytes still fit the ring, and then sends exactly the missing commands' bytes |
| `Psync.TornReadLosesStep` | src/replication/replica.rs:135-149 | a read keeps the replica in step iff it ends on a command boundary |
| `Psync.GapRepeatsQueue` | src/replication/master.rs:40-67 | the gap of a full resync repeats everything logged since registration unless that is nothing or has left the ring, and then the offset runs past the master's |
| `Psync.FullResyncDelivers` | src/replication/master.rs:34-92 | every full resync is at least once, whatever the replica held before and whatever is logged meanwhile: once drained, the snapshot is a front of the log reaching at least to where the resync began, and the commands applied are the repeated gap followed by the log from there on, with the offset too high by the repeated bytes; each command is held exactly once if and only if nothing was logged before the snapshot and the gap was empty |
| `Psync.CarryStep` | src/replication/master.rs:34-92 | every step of such a link keeps that account, and whether it keeps commands from being held twice is exactly whether it is clean |
| `Psync.OffsetPastSkips` | src/replication/master.rs:34-49 | a replica whose offset is past its true position is, when resumed, never sent the bytes in between |
| `Psync.TornReadLags` | src/replication/replica.rs:135-149 | after a read that splits a command, the bytes buffered and in flight cannot bring the replica to the master's offset |
| `Psync.LagLastsRun` | src/replication/replica.rs:133-157 | that stays so for as long as the link lasts, whatever is pushed and read |
| `Psync.DropRecovers` | src/replication/replica.rs:135-149 | whatever a read split, a drop right after it leaves a replica whose remembered offset is right and which can be resumed |
| `Values.IndexUnique` | src/store/memory.rs:1068-1111 | at most one score index without empty buckets agrees with given members |
| `Values.ScoreOrder` | src/store/memory.rs:20-27 | the order of score keys is the order of the numbers the doubles stand for, zeros equal and infinities outermost |
| `Values.NestedOfListing` | src/persist/rdb.rs:264-279 | nested hashes are determined by any listing of listings |
| `Listings.MapOfListing` | src/persist/rdb.rs:223-232 | inserting any listing of a map rebuilds it, and its length is the size |
| `Listings.SetOfListing` | src/persist/rdb.rs:217-222 | inserting any listing of a set rebuilds it, and its length is the size |
| `ZSets.OpsKeepSync` | src/store/memory.rs:1068-1111 | over any run of adds and removes with scores other than NaN, buckets hold exactly the members at their scores and none is empty |
| `ZSets.InsertKeepsSync` | src/store/memory.rs:1074-1084 | adding or re-scoring a member with a score other than NaN keeps the two indexes in agreement |
| `ZSets.RemoveKeepsSync` | src/store/memory.rs:1096-1104 | removing a member keeps them in agreement and leaves no empty bucket |
| `ZSets.SortedSet.Zadd` | src/store/memory.rs:1068-1089 | afterwards the members named are there besides the old ones, each with the score of its last pair, every other score is unchanged, the index agrees if it did, and the number of new members is returned |
| `ZSets.SortedSet.Zrem` | src/store/memory.rs:1091-1111 | afterwards exactly the members named are gone, the index agrees if it did, and their number is returned |
| `ZSets.AddsExactly` | src/store/memory.rs:1074-1084 | the same of any sequence of pairs, as a property of the value |
| `ZSets.RemovesExactly` | src/store/memory.rs:1096-1104 | the same of any sequence of removals |
| `ZRanges.FlatLists` | src/store/memory.rs:1123-1177 | walking the buckets visits every member once, with its own score, in ascending score order |
| `ZRanges.ZRank` | src/store/memory.rs:1123-1142 | the rank exists iff the member does, and is its position in that walk |
| `ZRanges.ZRangeByScore` | src/store/memory.rs:1153-1177 | with early stops and skip counters, the result is exactly the offset/count slice of the members inside the interval |
| `ZRanges.SliceExactly` | src/store/memory.rs:1164-1169 | the slice starts at the offset and ends after the count or with the range |
| `ZRanges.CountedContains` | src/store/memory.rs:1160-1163 | the range's bounds, inclusive with exclusive ends skipped, are ZCOUNT's comparisons |
| `ZRanges.ZRange` | src/store/memory.rs:1144-1151 | the index window, negative indexes included, of the members with finite scores |
| `ZRanges.CountIsRangeLength` | src/store/memory.rs:1189-1205 | ZCOUNT is the length of the unlimited score range |
| `ZRanges.RankAgreesWithRange` | src/store/memory.rs:1144-1151 | the element of `ZRANGE 0 -1` at every member's rank is that member iff all scores are finite |
| `ZRanges.RankInRange` | src/store/memory.rs:1144-1151 | member by member: it is found at its rank in the full range iff its score is finite and no member scores minus infinity |
| `Glob.MatcherCorrect` | src/store/memory.rs:1671-1684 | a true answer implies a declarative match; the converse holds when the subject or the pattern is free of `*` |
| `Glob.MatchLaws` | src/store/memory.rs:1671-1684 | what a declarative match is: nothing matches nothing, `?` one byte, `*` any run, any other byte itself |
| `Glob.ExactIffNoStar` | src/store/memory.rs:1671-1684 | the matcher is right for a subject under all patterns iff the subject holds no `*` |
| `Glob.StarSubjectFails` | src/store/memory.rs:1677 | for every subject holding `*` there is a pattern that matches it and is refused |
| `Glob.LoopSound` | src/store/memory.rs:1671-1684 | from any reachable cursor, accepting implies a match of the rest, or of the rest after the last star |
| `Glob.LoopComplete` | src/store/memory.rs:1671-1684 | backtracking to the last star alone loses no match |
| `Glob.SimpleMatchLoop` | src/store/memory.rs:1671-1684 | the loop terminates with the answer of the recursive form |
| `Streams.IdsIncrease` | src/store/memory.rs:1209-1259 | over any run of XADD in every id form, XDEL and XTRIM, under any clock, ids handed out strictly increase, deleted ones counted, and the stream stays ordered below its last id |
| `Streams.AppendOrdered` | src/store/memory.rs:1209-1237 | XADD keeps the order and its id exceeds the last one, sequence overflow included |
| `Streams.AppendContents` | src/store/memory.rs:1222-1229 | XADD appends its entry and keeps the last `maxlen` entries, all of them without the option |
| `Streams.IdIsSmallest` | src/store/memory.rs:1239-1259 | exactly when XADD is refused, and that its id is the smallest wanted one above the last, with the one exception |
| `Streams.AppendToExpired` | src/store/memory.rs:1212-1227 | on an expired key still stored, with or without MAXLEN, the id follows from the argument and the clock alone, and the order survives iff nothing is stored, MAXLEN keeps at most one entry, or the last stored id is below that id |
| `Streams.ExpiredStreamLosesOrder` | src/store/memory.rs:1212-1227 | a concrete stream and id for which it does not |
| `Streams.IdTextRoundTrip` | src/store/memory.rs:1247-1258 | a printed id parses back to itself |
| `Streams.IdSpecForms` | src/store/memory.rs:1239-1259 | how the other forms of an id argument are read, and which are refused |
| `Streams.StreamEffects` | src/store/memory.rs:1209-1366 | what each command of a run leaves in the stream |
| `Streams.GeneratedAboveZero` | src/store/memory.rs:1239-1259 | no accepted id is 0-0 |
| `Streams.DeleteAllExactly` | src/store/memory.rs:1333-1351 | XDEL removes exactly the entries with the given ids and keeps the order |
| `Streams.DeleteEntries` | src/store/memory.rs:1333-1351 | the loop does that and returns how many went |
| `Streams.TrimFront` | src/store/memory.rs:1353-1366 | trimming keeps the last entries and returns how many went |
| `ConsumerGroups.DeliveryLedger` | src/store/memory.rs:1423-1561 | over any run by any consumers that does not set the group back: `>` delivers each entry at most once and in id order, pending ids are at or below the cursor, and each delivery is in exactly one of pending, acknowledged, dropped with its consumer, unlogged, or forgotten when the group was created anew |
| `ConsumerGroups.ReplacedKeepsOrder` | src/store/memory.rs:1393-1408 | a group created anew, as CREATE and SETID both do, keeps the order iff its start is not below the last delivery |
| `ConsumerGroups.ReplacedRedelivers` | src/store/memory.rs:1393-1408 | its next unlimited read delivers something again iff an entry above the new start that was delivered before is still stored |
| `ConsumerGroups.StepKeeps` | src/store/memory.rs:1423-1561 | every command keeps that invariant |
| `ConsumerGroups.DeliveryIsFresh` | src/store/memory.rs:1451-1467 | a new delivery was never delivered and overwrites no pending record |
| `ConsumerGroups.DeliveredExactly` | src/store/memory.rs:1378-1391 | a read returns the next entries above the cursor, at most `count`; one left behind means the limit was reached and is above everything returned |
| `ConsumerGroups.ReadCatchesUp` | src/store/memory.rs:1451-1467 | after an unlimited read no stored entry is above the cursor |
| `ConsumerGroups.ConsumerGroup.ReadNew` | src/store/memory.rs:1442-1470 | the consumer joins, the cursor moves to the last entry returned, and unless NOACK each entry is recorded for the consumer at the time of the read with one delivery; every other record stays |
| `ConsumerGroups.ReadRecords` | src/store/memory.rs:1451-1467 | the same of the read as a step of a run |
| `ConsumerGroups.OtherCommands` | src/store/memory.rs:1393-1496 | what XACK, DELCONSUMER, CREATECONSUMER, CREATE and the stream's own commands do to the group |
| `ConsumerGroups.ConsumerGroup.Acknowledge` | src/store/memory.rs:1485-1496 | exactly the given ids leave the pending list, and the number of records that went is returned |
| `ConsumerGroups.ConsumerGroup.TakeOver` | src/store/memory.rs:1539-1557 | a record that is named and whose delivery is at least the idle time ago goes to the consumer with its deliveries counted up and is reported, in argument order; every other record stays as it was |
| `ConsumerGroups.ClaimedExactly` | src/store/memory.rs:1545-1554 | id by id: it is claimed once, or as often as it is repeated when no idle time is asked for, since a claimed record has been idle for no time |
| `ConsumerGroups.DueExactly` | src/store/memory.rs:1548 | a record is due once the idle time has passed since its delivery, or at once if none is asked for |
| `ConsumerGroups.ConsumerGroup.RemoveConsumer` | src/store/memory.rs:1423-1433 | exactly the records of the consumer leave with it, and their number is returned |
| `Checksum.CrcClosedForm` | src/persist/rdb.rs:52-58 | the checksum is the sum of `b_i * (1 + (n-1-i) * 2^60)` modulo `2^64` |
| `Checksum.OneByteDetected` | src/persist/rdb.rs:52-58 | changing any one byte changes it |
| `Checksum.CollisionsExactly` | src/persist/rdb.rs:52-58 | two inputs collide iff their byte sums agree and their weighted sums agree modulo 16 |
| `Checksum.Crc64Loop` | src/persist/rdb.rs:52-58 | the wrapping loop computes it |
| `Rdb.EntryRoundTrip` | src/persist/rdb.rs:89-150 | decoding an encoded entry of any of the seven types gives its key and value and leaves the following bytes |
| `Rdb.EntryFormat` | src/persist/rdb.rs:89-150 | the bytes of an entry of each type |
| `Rdb.FieldOrder` | src/persist/rdb.rs:25-28 | lengths are written most significant byte first, words and scores least significant first |
| `Rdb.RebuildListed` | src/persist/rdb.rs:202-284 | whatever the order of the listing, the rebuilt value is the original, the score index included |
| `Rdb.BuildZSetInSync` | src/persist/rdb.rs:233-244 | the index rebuilt member by member from scores other than NaN agrees with the members |
| `Rdb.U32RoundTrip` | src/persist/rdb.rs:25-34 | a length field holds its number modulo `2^32`, hence reads back iff it is below `2^32` |
| `Rdb.ReadManyLoop` | src/persist/rdb.rs:202-284 | the counted decode loop |
| `Snapshots.RdbRoundTrip` | src/persist/rdb.rs:60-200 | loading a saved dataset into an empty store passes the checksum test and restores every live key with a non-empty name, its value and expiry, in every database, and reports their number |
| `Snapshots.RdbLoadedOver` | src/persist/rdb.rs:152-200 | loading a saved dataset into any store with enough databases: entries of the snapshot replace those there, counting their versions on, every other key stays, and further databases are untouched |
| `Snapshots.StaleExactly` | src/replication/replica.rs:92-95 | after such a load a database holds what the snapshot carries and nothing else iff it held no key the snapshot lacks; such keys stay as they were |
| `Snapshots.StaleKeysSurvive` | src/replication/replica.rs:92-95 | the snapshot of an empty master leaves everything the replica held |
| `Snapshots.OneByteRejected` | src/persist/rdb.rs:162-166 | a file with one changed payload byte is rejected and the store left alone, when its checksum is not zero |
| `Snapshots.SaveRdb` | src/persist/rdb.rs:60-87 | the nested saving loops write magic, version, checksum and all sections |
| `Snapshots.FileFormat` | src/persist/rdb.rs:60-87 | the frame in bytes: magic, version, checksum, section markers, expiry marker |
| `Snapshots.LoadRdb` | src/persist/rdb.rs:152-200 | the loading loop follows the file's markers, all error exits included |
| `Snapshots.RefusedExactly` | src/persist/rdb.rs:152-166 | exactly when a file is refused as short, without magic, or with a wrong checksum, and that the store is then left alone |
| `Snapshots.StopsAt` | src/persist/rdb.rs:172-198 | where reading stops in an accepted file, with what was read before kept: an unknown marker, a missing database, a cut-off section |
| `Snapshots.NamedCounts` | src/persist/rdb.rs:184-193 | the number reported is the number of entries carried |
| `Snapshots.LoadSections` | src/persist/rdb.rs:168-200 | loading written sections puts every entry in its database |
| `Snapshots.PutItemsRestores` | src/persist/rdb.rs:168-200 | entries put from any listing into any database are the snapshot loaded over it |
| `Commands.ReplayAof` | src/server.rs:217-253 | the replay loop executes the commands of the log, in order, on the given server |
| `Commands.RPushReplay` | src/server.rs:234-246 | a log with RPUSH of some items and then of more replays to what RPUSH of all of them does, whatever the key holds |
| `Commands.ReplaySplits` | src/server.rs:234-246 | replaying a log in two pieces is replaying it whole |
| `Commands.VerbTexts` | src/cmd/mod.rs:61-82 | the nine names in bytes, in either case, reach their handlers |
| `Commands.SelectForms` | src/cmd/mod.rs:61-82 | what SELECT does with a number and with other text, and that nothing changes on a missing database |
| `Commands.SetLeaves` | src/store/memory.rs:499-506 | SET leaves the text, no expiry and the next version |
| `Commands.RPushLeaves` | src/store/memory.rs:663-676 | RPUSH leaves the old items followed by the new ones |
| `Commands.SAddLeaves` | src/store/memory.rs:809-820 | SADD leaves the old elements and the new ones |
| `Commands.HSetLeaves` | src/store/memory.rs:963-976 | HSET leaves each named field with the value of its last pair and every other field as it was |
| `Commands.ZAddLeaves` | src/store/memory.rs:1068-1089 | ZADD leaves each named member with the score of its last pair and every other as it was |
| `Commands.XAddLeaves` | src/store/memory.rs:1209-1237 | XADD with an explicit id appends its entry if the id is above the last one, and otherwise changes nothing |
| `Commands.NHSetLeaves` | src/store/memory.rs:1565-1575 | NHSET writes one leaf and leaves every other |
| `Commands.PExpireAtLeaves` | src/store/memory.rs:516-521 | PEXPIREAT changes the expiry time of a stored key and nothing else |
| `Commands.WrongTypeStays` | src/store/memory.rs:648-676 | a command on a key of another type changes nothing |
| `Commands.PairForms` | src/store/memory.rs:963-976 | arguments are paired name first, one left over is dropped |
| `Commands.ScoredForms` | src/cmd/zset.rs:31-35 | a score comes before its member, and one that does not parse fails the command |
| `Commands.ExecuteOnSelected` | src/cmd/mod.rs:61-82 | commands other than SELECT change only the selected database |
| `AofRewrite.RewritePreserves` | src/persist/aof_rewrite.rs:11-86 | replaying the rewritten file, under any later clock, into an empty store of as many databases rebuilds every live key in its database with its expiry and what the rewrite keeps of its value, and nothing else |
| `AofRewrite.ValueRebuilt` | src/persist/aof_rewrite.rs:35-86 | the commands for a value of any type rebuild it at a missing key, from any listing |
| `AofRewrite.CommandForms` | src/persist/aof_rewrite.rs:35-86 | the commands written for a value of each type, argument by argument |
| `AofRewrite.ItemRebuilt` | src/persist/aof_rewrite.rs:21-30 | with the expiry command, the whole entry is rebuilt |
| `AofRewrite.KeptExactly` | src/persist/aof_rewrite.rs:35-86 | a value is kept unchanged iff it is no empty container and has no empty inner hash, and, for a stream, its ids increase from above zero, every entry has fields, and its last id is that of its last entry |
| `AofRewrite.AcceptedExactly` | src/persist/aof_rewrite.rs:66-75 | of a stream in any order, replay keeps exactly the entries with fields whose id is above zero and above those of all earlier entries with fields |
| `AofRewrite.RevivedStreamLosesEntry` | src/store/memory.rs:1209-1237 | commands alone bring about a live stream of which the rewrite loses an entry: expiry, an XADD with a lower id, and a new expiry time |
| `AofRewrite.WriteDataset` | src/persist/aof_rewrite.rs:11-33 | the nested writing loops output the encoded commands of all databases, SELECT only when there are several |
| `Scan.ScanComplete` | src/store/memory.rs:313-351 | in any interleaving with writes and other scans, a chain for which cursor 0 has come back has returned no key twice; of the keys that were live matches at each of its pages it has returned all if it got to its last page, and if its token was gone, exactly those up to its last position |
| `Scan.ScanExactly` | src/store/memory.rs:313-351 | a scan from cursor 0 until cursor 0 comes back got to its last page iff no other scan took its token away, and has returned every such key iff that holds or none of them is above its last position |
| `Scan.ChainEnds` | src/store/memory.rs:316-341 | step by step: the chain ends on its last page iff no step took the token it had at that time |
| `Scan.TokenSurvives` | src/store/memory.rs:333-341 | between two pages the token survives any writes and scans iff none of the scans uses it or needs a new token while the registry is full |
| `Scan.StepKeeps` | src/store/memory.rs:313-351 | every write and page keeps the chain's invariant, registry clearing included |
| `Scan.PageExtends` | src/store/memory.rs:320-350 | one page extends what was returned without gap or repetition |
| `Scan.CollectPage` | src/store/memory.rs:324-331 | filtering, sorting and truncating give the smallest keys after the cursor and tell whether more remain |
| `Scan.HitsExactly` | src/store/memory.rs:346-349 | the reply holds exactly the keys of the page that pass the filters, in order |
| `Scan.HitsMatch` | src/store/memory.rs:346-349 | a key of the page is returned only if it is there, not expired, and matches the pattern; and whenever that is so, unless both key and pattern hold `*` |
| `Scan.StableMeans` | src/store/memory.rs:346-349 | the stable keys of a chain are those that are there, unexpired and matching at each of its pages |
| `Scan.LessExactly` | src/store/memory.rs:329 | keys are sorted byte by byte: a proper prefix first, otherwise by the first byte that differs |
| `Scan.RegistryTokens` | src/store/memory.rs:333-341 | a new token is one never used before and no live token changes its key |
| `Scan.LessTotal` | src/store/memory.rs:324-331 | byte-string order is total and strict |
| `Scan.LessTransitive` | src/store/memory.rs:324-331 | byte-string order is transitive |
| `Keyspace.Databases.EvictUntilUnder` | src/store/memory.rs:431-463 | for any candidate choice the loop ends, its count and running usage equal a full recount, and its last eviction was needed; it ends under target, or with nothing left, under volatile-random with no key with a TTL left, and that policy leaves every key without one as it was |
| `Keyspace.Databases.EvictRound` | src/store/memory.rs:440-456 | one round over the databases, with the usage exact after each removal |
| `Keyspace.Databases.EstimatedMemory` | src/store/memory.rs:405-413 | the scan adds the size of every entry of every database |
| `Keyspace.EvictionStep` | src/store/memory.rs:444-451 | removing a candidate while over target keeps what eviction promises |
| `Keyspace.PolicyMeans` | src/store/memory.rs:437-441 | what running out of candidates and sparing the others means under each policy |
| `Keyspace.TotalWithout` | src/store/memory.rs:405-413 | the total splits off any one entry, at its key's length, its value's estimate and 64, so it does not depend on the order of summation |
| `Keyspace.Databases.ActiveExpireCycle` | src/store/memory.rs:586-610 | whatever is sampled, the cycle ends, removes nothing but expired keys, changes no read at this or a later time, and counts exactly; a database whose last pass sampled all its volatile keys, as it does if they are no more than the sample size, is left with no expired key |
| `Keyspace.PassLeaves` | src/store/memory.rs:590-607 | the last pass sampled all volatile keys iff they were no more than the sample size, and then none is left expired; otherwise one can be left only among more than three quarters of the sample size of volatile keys |
| `Keyspace.ExpiredInvisible` | src/store/memory.rs:473-478 | removing nothing but expired keys changes no read now or later |
| `RandomMember.ProbesDistinctExactly` | src/store/memory.rs:919-928 | the first `n` stride-31 probes of a set of that size are distinct iff 31 does not divide the size or `n` is at most a 31st of it |
| `RandomMember.StuckForever` | src/store/memory.rs:923-926 | once a probe repeats, no further iteration changes anything |
| `RandomMember.PickDistinct` | src/store/memory.rs:919-928 | the loop, watched for any number of turns, has picked different members, as many as its iteration count says; it has ended when there are min(count, size), which it does within that many turns iff it ever does |
| `RandomMember.TerminatesExactly` | src/store/memory.rs:919-928 | some number of turns is enough iff 31 does not divide the size or no more than a 31st of it is asked for |
| `RandomMember.Euclid` | src/store/memory.rs:923-926 | what divides a multiple of 31 and is not itself one divides the cofactor |
| `Transactions.ExecIffUntouched` | src/cmd/transaction.rs:23-79 | with WATCHes made at any times: when watched keys are from then on written only by `set` and stay live, EXEC's check passes iff none was set since its WATCH, whatever happened to other keys |
| `Transactions.WatchDetects` | src/store/memory.rs:627-632 | the version read at EXEC is the recorded one iff the key was not set in between |
| `Transactions.SetsCount` | src/store/memory.rs:499-506 | the version counts the sets, and a key not set is unchanged |
| `Transactions.DeleteRestarts` | src/store/memory.rs:508-510 | if a watched key was removed and not renamed, its watch passes iff it was since set as often as its recorded version says, or cannot be seen and the recorded version is zero |
| `Transactions.UnmovedTrace` | src/store/memory.rs:499-510 | of a key not renamed, the version counts the sets since its last removal, or all of them on top of its old version |
| `Transactions.RenameUnnoticed` | src/store/memory.rs:544-548 | renaming another visible key over a watched one goes unnoticed iff both have the same version |
| `Transactions.ReplacedUnnoticed` | src/store/memory.rs:499-506 | a concrete key replaced by another value without its version changing |
| `Transactions.ModifyUnnoticed` | src/store/memory.rs:627-632 | changes in place and of expiry, on a key missing or not, are noticed only as far as expiry hides or reveals a version that is not zero |
| `Transactions.VersionCounts` | src/store/memory.rs:499-549 | after any mix of sets, removals, renames, changes in place and of expiry, the version is the number of sets to the entry now under the key, on top of the version of the key it comes from |
| `Transactions.WatchExactly` | src/store/memory.rs:627-632 | exactly when the version read at EXEC is the one recorded, for any such mix |
| `Transactions.ExecExactly` | src/cmd/transaction.rs:32-42 | EXEC's check passes iff every watch does, whenever it was made and for any such mix after it |
| `Transactions.MissingDatabase` | src/cmd/transaction.rs:33-42 | in a database that does not exist WATCH records zero and EXEC refuses any watch |
| `Transactions.WatchedTransaction` | src/cmd/transaction.rs:17-79 | WATCHes at any times, MULTI, queueing and EXEC together: each command runs on the state the one before it left, starting from what EXEC finds, iff every watch passes, which for keys only set and live is iff none was set since its WATCH; otherwise nothing runs and the store is unchanged |
| `Transactions.UnwatchedTransaction` | src/cmd/transaction.rs:81-85 | after UNWATCH the queue runs whatever happened to the keys |
| `Transactions.DiscardedTransaction` | src/cmd/transaction.rs:56-62 | after DISCARD an EXEC is refused and changes nothing, and a later transaction runs its own commands alone, under no watch |
| `Transactions.ClientContext.Exec` | src/cmd/transaction.rs:23-54 | outside MULTI nothing happens; otherwise the context is reset and either every queued command runs on the state its predecessor left, first to last, or the store is returned unchanged |
| `Transactions.ClientContext.AddWatches` | src/cmd/transaction.rs:64-79 | the keys are recorded with their present versions, and nothing is recorded inside MULTI |
| `Lists.ListKey.RemoveFromFront` | src/store/memory.rs:775-787 | LREM with a count of zero or more removes exactly the first occurrences, at most `count`, keeps all else in order, and returns how many |
| `Lists.ListKey.RemoveFromBack` | src/store/memory.rs:788-799 | LREM with a negative count removes exactly the last occurrences, at most the limit, keeps all else in order, and returns how many |
| `Lists.ListKey.Trim` | src/store/memory.rs:756-773 | LTRIM leaves exactly what LRANGE with the same bounds returns |
| `Ranges.RangeExactly` | src/store/memory.rs:708-722 | a range reports exactly the elements whose indexes lie between its bounds, iff not both the stop points before the first element and the start does not point past it; then it reports the first element |
| `Lists.ClearNext` | src/store/memory.rs:781-786 | removing the first remaining occurrence is clearing one occurrence further |
| `Lists.ItemsExactly` | src/store/memory.rs:775-805 | counting and taking out occurrences, item by item and in order |

## Left out

- Sockets, TLS, runtimes, file handles, fsync, shard threads: bytes and protocol steps stand in their place.
- Lua, the cluster bus and slot map, pub/sub, blocking pops, AUTH, HELLO, ACL, INFO, CONFIG, the command line: single-branch behaviour or foreign interpreters.
- Plain getters and setters of strings, hashes, sets and nested hashes, XRANGE, XREAD, XPENDING: members that say no more than their bodies. Replies of XCLAIM and of history reads that look entry bodies up again are left out with them.
- A claim that the live log always equals the state: EXEC, EVAL and BLPOP effects are not logged (src/net/connection.rs:336-349), so there is none to prove.
- Concurrency finer than one command. XREADGROUP releases the group between reading and moving the cursor (src/store/memory.rs:1453); here each command is one step.
- Psync.ExactlyOnce: reads end on command boundaries, nothing is logged between registering for a full resync and taking its snapshot, and the gap read after it is empty, because otherwise it is false, as `Psync.TornReadLosesStep` and `Psync.FullResyncDelivers` show exactly. One replica is followed, a restarted master draws an identity not used before, and the handshake line arrives as one message.
- In `Psync` a snapshot is the command list it stands for, and what the replica has taken is a list of commands; what a load makes of the store it finds is stated by `Snapshots.RdbLoadedOver`.
- Resp.RoundTrip: RESP3 forms have no parser in the server; a RESP3 double carries its printed text. Line text is bytes, on which the lossy UTF-8 decoding is the identity only when they are valid UTF-8.
- Counters of 64 bits that only grow (offset, versions, subscriber ids, cursor tokens) are unbounded here; a stream's sequence number does wrap, and the wrapped id is shown to be refused.
- CommandLog.AppendedToTorn: one direction only, since bytes swallowed by a torn argument can, for contrived later commands, parse as just those commands again.
- Commands.ReplayAof: only the nine commands a rewritten log contains, in the forms it writes and without NaN scores, are executed; for any other the end is `None`. The memory limit's refusals and background cycles during replay are left out. Names are upper-cased in ASCII only.
- AofRewrite.RewritePreserves: key versions are those the commands give (one for strings, none otherwise), not the saved ones; score text is any rendering that reads back what it printed, so no score is NaN: the store's map of scores takes NaN to equal every score, and what it holds then depends on its internal layout. Of a stream, what is rebuilt is what replay accepts.
- Snapshots.RdbRoundTrip: keys with an empty name are written and then dropped by the loader (src/persist/rdb.rs:184), versions restart at zero, lengths fit their 32-bit fields and there are at most 256 databases since the section index is one byte. No score is NaN. The clock stands still while one save, page or expiry pass is made.
- Scan.ScanComplete: a chain stays in one database and under one pattern. Names are matched byte for byte.
- Glob.MatcherCorrect: subjects and patterns are bytes, one `?` for one byte.
- Keyspace.Databases.EvictUntilUnder: the size estimate of a value is a parameter; which candidate comes first is arbitrary.
- ZSets.OpsKeepSync: no score is NaN, which the store's ordered map takes to equal every score; `ZADD` does accept it.
- ZRanges.ZRangeByScore: an interval whose minimum is above its maximum is excluded, since the ordered map's range query aborts on it. NaN bounds are excluded. A result carries the order key of the score rather than its bits.
- RandomMember.PickDistinct: the number of turns watched is a parameter, since the loop need not end. The cases without a count, with count one and with a negative count pick single members or allow repeats and are left out.
- Lists.ListKey.RemoveFromBack: the limit is the negated count; negating the smallest i64 overflows in the original and is not modelled.
- ConsumerGroups.DeliveryLedger: the stream's key has no TTL, since XADD behind an expired key breaks the order (`Streams.AppendToExpired`), and the group is not set back, since then it is false (`ConsumerGroups.ReplacedKeepsOrder`). XGROUP DESTROY followed by CREATE is the same as creating anew.
- Transactions.ExecIffUntouched: removal, renaming, expiry and in-place changes of a watched key are covered by `Transactions.ExecExactly` instead. The snapshot loader's `set_with_entry` is not among the events; all watches are on one database; what a queued command does is a parameter.
- A list, hash or set behind a class stands for one key's container; that several keys live in one concurrent map is modelled only where a lemma ranges over databases.
