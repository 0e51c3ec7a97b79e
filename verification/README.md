# A verified model of AgentKV's persistence engine

AgentKV keeps a map of byte strings in memory, appends every accepted SET and DELETE to a
write-ahead log (WAL) before changing the map, and now and then writes the whole map, with the WAL
offset it covers, to a snapshot file through a temp file and a rename. Startup loads the snapshot
and replays the WAL from its offset. This project models that engine down to the byte level, and
the command line in front of it, and proves what it promises.

Files and modules follow the program:

| file | module | models |
|---|---|---|
| `binary_io.dfy` | `BinaryIo` | fixed-width integers, the bounded cursor, input streams |
| `wal_format.dfy` | `WalFormat` | record payloads, framing, the operations a byte string decodes to |
| `replay.dfy` | `Replay` | what replay does to a map; which logs are safe to append to |
| `snapshot_format.dfy` | `SnapshotFormat` | snapshot files, current and legacy, in any map order |
| `file_system.dfy` | `FileSystem` | the three files, and a ghost trail of every state they pass through |
| `wal.dfy`, `snapshot.dfy` | `Wal`, `Snapshots` | the two file classes, imperatively, loop for loop |
| `recovery.dfy` | `Recovery` | what a fresh process recovers, and when later writes are safe |
| `store_model.dfy` | `StoreModel` | store steps and crashes as a state machine, and the promise as a second one |
| `kv_store.dfy` | `KvStore` | the store class, proved against those steps, and the startup sequence |
| `sessions.dfy` | `Sessions` | the store class over whole sessions: writes, saves, clears and restarts |
| `runs.dfy` | `Runs` | whole runs: the refinement, durability, what reads return |
| `checkpoints.dfy` | `Checkpoints` | how much recovery has to replay, in one process and over many |
| `healing.dfy` | `Healing` | what repairs files in any condition |
| `crashes.dfy` | `Crashes` | crashes and failed operations, any number of them, anywhere |
| `damage.dfy` | `Damage` | what a torn log tail does to the records written after it; which logs are immune |
| `forgery.dfy` | `Forgery` | that all others can be made to yield operations nobody wrote |
| `witnesses.dfy` | `Witnesses` | reachable inputs on which the code surprises |
| `string_utils.dfy`, `cli_parser.dfy` | `StringUtils`, `CliParser` | tokenizer and command grammar |

The classes are proved against value-level functions and step relations, and the theorems are about
those. Crashes are tied to the code as follows: every primitive file operation adds each disk state
it passes through, byte by byte, to the ghost field `trail`, and the contracts of `Set`, `Delete`,
`SaveSnapshot` and `ClearPersistence` say that every state added is one of the crash states the
crash theorems quantify over. A body that renamed before writing, or changed the log after the
snapshot, would leave another state in the trail.

The promise (`StoreModel.Abs`) keeps two maps, because the program does: `data`, which reads see,
and `durable`, which a restart brings back. A write updates both, a successful save copies `data`
over `durable`, clearing memory empties `data` only, clearing persistence empties `durable` only.

Failures of the operating system are parameters of the class methods (`KvStore.WriteIo` and its
parts): a full device cuts a record or a snapshot short, a rename or removal fails, a stream cannot
report its length. A failed WAL stream refuses every later write until persistence is cleared.

## What the code does not give, stated exactly

- The WAL is never truncated after a torn record. What the log already holds can still be read, but a
  write logged after the torn record can be swallowed by it: over all files that recover, every next
  write survives if and only if the checkpoint lies within the WAL and the bytes after it are whole
  frames (`Recovery.AppendsSurviveIffDurable`; `Replay.TornTailLosesWrite` is the smallest case).
  Worse, the torn record can take the later one's bytes for its value: recovery then returns a value
  nobody wrote, in place of the earlier acknowledged value of its key (`Damage.TornTailForgesValue`,
  `Damage.ForgedValueRecovered`). Replay starts at the checkpoint, so what counts is the log from
  there on. Over all files that recover, whatever is logged next, the following recovery differs only
  as the logged operations say if and only if the checkpoint lies within the WAL and the bytes after
  it are whole frames, or whole frames and then an impossible length
  (`Forgery.RecoveryForgesNothingIff`). A torn record leaves neither (`Damage.TornRecordIsForgeable`);
  a save that succeeds restores the condition, because it moves the checkpoint past the damage. A
  program that saves after each torn record before it logs again loses nothing
  (`Crashes.RuleLosesNothing`).
  The comment at `src/persistence/wal.cpp:226-227`, and the promise in the repository's own README
  that replay safely handles incomplete trailing records, hold until the next write.
- After an in-memory clear, a write whose automatic snapshot is due has three crash outcomes, not
  two, unless the operation changes nothing in the durable map or memory and the durable map agree
  on every other key (`StoreModel.TwoOutcomesIff`; reached in `Witnesses.ThirdMapReached`).
- `ClearPersistence` empties the WAL before it removes the snapshot. A crash between the two brings
  the snapshot's map back, and later writes are then safe only if that snapshot covered no WAL bytes
  (`Recovery.ClearInterrupted`; reached in `Witnesses.ClearInterruptedReached`). They can even be read
  from the middle, and recovery then returns a binding nobody wrote. This needs no crash: a clear
  that throws at the snapshot leaves the same files (`Witnesses.ForgedAfterFailedClear`).
- `Snapshot::Save` accepts fields the loader refuses. The round trip holds if and only if every field
  is within the loader's cap (`SnapshotFormat.RoundTripIffLoadable`). Every store with a WAL keeps
  within it; one without a WAL need not, and then its next startup throws
  (`Witnesses.OversizedFieldSaved`).
- The counter starts at zero in each process, also in one that finds operations to replay. Within a
  process the two then keep a constant difference until a checkpoint (`Checkpoints.CheckpointBound`).
  Over many processes recovery replays at most 999 operations for each restart or memory clear since
  the last checkpoint, and those the counter counts (`Checkpoints.ManyProcessesBound`); runs in which
  no save is ever due reach that bound for any number of restarts (`Checkpoints.RestartsDeferCheckpoints`).

## Model

| member | source | states |
|---|---|---|
| BinaryIo.DecodeEncode | include/persistence/binary_io.h:43-66 | an integer of any width written and read back is itself |
| BinaryIo.EncodeDecode | include/persistence/binary_io.h:115-124 | distinct byte strings of one width are distinct integers: with the row above, a bijection |
| BinaryIo.CheckedSize | include/persistence/binary_io.h:95-101 | accepts exactly the lengths a u32 holds |
| BinaryIo.ConsumePrimitive | include/persistence/binary_io.h:115-124 | succeeds exactly when the value fits in the buffer, moves the offset only then, and re-encodes to the bytes it took |
| BinaryIo.ConsumeBytes | include/persistence/binary_io.h:138-146 | succeeds exactly when the range fits, never passes the end |
| WalFormat.DecoderAcceptsExactlyEncodings | src/persistence/wal.cpp:37-91 | within the cap, a payload decodes to an operation if and only if it is that operation's encoding, and to none if and only if it is no operation's |
| WalFormat.DecodeConcat | src/persistence/wal.cpp:214-237 | past a record boundary decoding is compositional, whatever bytes follow |
| WalFormat.DecodePrefixMonotone | src/persistence/wal.cpp:214-237 | on arbitrary bytes, appending never changes or reorders what was already decoded |
| WalFormat.LogRoundTrip | src/persistence/wal.cpp:103-143 | the records of any list of operations within the cap are whole frames and decode to that list |
| WalFormat.TornFrame | src/persistence/wal.cpp:215-232 | a strict prefix of a frame decodes to nothing |
| WalFormat.AppendAtBoundary | src/persistence/wal.cpp:113-120 | after a record boundary, any strict prefix of a record changes nothing and the whole record adds its operation |
| WalFormat.DamageIsolation | src/persistence/wal.cpp:226-236 | a framed record that does not decode can be inserted at any record boundary of any log without changing what is decoded |
| WalFormat.DecodedOpsFitBytes | src/persistence/wal.cpp:20-34 | nine bytes at least per operation, and every replayed operation is one the writer accepts |
| WalFormat.RecordBytes | src/persistence/wal.cpp:103-143 | every byte of a SET and of a DELETE record |
| WalFormat.RecordCap | src/persistence/wal.cpp:20-34 | the cap is 64 MiB; a length one byte over it ends the replay whatever follows |
| Replay.LastWriterWins | src/persistence/wal.cpp:76-87 | after replay each key holds what its last operation says, or what it held before |
| Replay.ReplayTwice | src/store/kv_store.cpp:101-106 | replaying the same arbitrary bytes a second time changes nothing and counts the same |
| Replay.ReplayConcat | src/persistence/wal.cpp:194-240 | replay of a framed log and more bytes is replay of one after the other, counts adding |
| Replay.ReplayBound | src/persistence/wal.cpp:194-212 | nine times the count is at most the bytes past the offset; an offset past the end does nothing |
| Replay.Absorption | src/persistence/snapshot.cpp:156-160 | replaying from any boundary onto a map that covers the log up to a later boundary gives the whole log's map |
| Replay.AppendsSurviveIffFramed | src/persistence/wal.cpp:214-232 | every appended operation takes effect on the next replay if and only if the log is whole frames |
| Replay.TornTailLosesWrite | src/persistence/wal.cpp:95-101 | one stray byte before a SET record and replay finds nothing |
| SnapshotFormat.SnapshotRoundTrip | src/persistence/snapshot.cpp:93-174 | for any iteration order and any trailing bytes, loading a saved map gives the map, its size and the 64-bit offset |
| SnapshotFormat.LegacyLoads | src/persistence/snapshot.cpp:156-160 | a legacy file loads as its map with offset 0, unless its count is the magic number |
| SnapshotFormat.RepeatedKeys | src/persistence/snapshot.cpp:156-174 | any list of entries within the cap loads, in both formats: the last of a repeated key wins, and the count reported is that of the entries |
| SnapshotFormat.OtherVersionsRefused | src/persistence/snapshot.cpp:148-154 | after the magic number, any version but 1 is refused whatever follows |
| SnapshotFormat.HeaderBytes | src/persistence/snapshot.cpp:22-23 | every byte of the header |
| SnapshotFormat.EntryBytes | src/persistence/snapshot.cpp:41-50 | every byte of an entry and of a legacy file |
| SnapshotFormat.FieldCap | src/persistence/snapshot.cpp:24-24 | the cap on fields is 64 MiB; a size one byte over it is refused |
| SnapshotFormat.NoStrictPrefixLoads | src/persistence/snapshot.cpp:134-174 | no strict prefix of any file that saving produces loads: under 4 bytes it counts as absent, otherwise it throws, with which error for loadable maps |
| SnapshotFormat.LoadedIsLoadable | src/persistence/snapshot.cpp:52-87 | whatever the file, a map that loads is within the field cap and its offset is a u64 |
| SnapshotFormat.RoundTripIffLoadable | src/persistence/snapshot.cpp:41-87 | a saved image loads back if and only if every field is within the loader's cap |
| Wal.CheckedRecordLength | src/persistence/wal.cpp:27-34 | accepts exactly lengths up to 64 MiB |
| Wal.ApplyRecord | src/persistence/wal.cpp:37-91 | applies the one operation the payload encodes, or leaves the map alone |
| Wal.ReadFrame | src/persistence/wal.cpp:214-232 | delivers a payload exactly when a whole frame within the cap is next |
| Wal.WriteAheadLog.AppendSet | src/persistence/wal.cpp:103-124 | refuses exactly the oversized records, and every record on a failed stream, before writing; otherwise the log grows by the encoding, or by a prefix of it and the stream fails; only prefixes are ever on disk |
| Wal.WriteAheadLog.AppendDelete | src/persistence/wal.cpp:126-143 | the same for DELETE |
| Wal.WriteAheadLog.CurrentOffset | src/persistence/wal.cpp:145-162 | the length of the log, or an error if the stream has failed or flush, seek or tell fail; a failed flush or seek leaves the stream failed |
| Wal.WriteAheadLog.Clear | src/persistence/wal.cpp:164-187 | empties the log and nothing else and revives a failed stream; what each of the three failures leaves |
| Wal.WriteAheadLog.ReplayFrom | src/persistence/wal.cpp:194-240 | the loop applies exactly the decoded operations after the offset, in order, and returns their number; an offset over 2^63-1 throws and changes nothing |
| Snapshots.Snapshot.WriteEntries | src/persistence/snapshot.cpp:111-113 | writes every binding once, in whatever order the map yields them |
| Snapshots.Snapshot.Save | src/persistence/snapshot.cpp:93-124 | commits a complete image or leaves the committed snapshot alone, in every intermediate disk state too; succeeds when nothing fails and sizes fit |
| Snapshots.Snapshot.Clear | src/persistence/snapshot.cpp:126-132 | removes the snapshot, then the temp file; a file that cannot be removed stays, and the one after it is not tried |
| Snapshots.Snapshot.ReadEntry | src/persistence/snapshot.cpp:52-87 | reads one entry, reports a short one, throws on an oversized field |
| Snapshots.Snapshot.ReadEntries | src/persistence/snapshot.cpp:162-170 | the loop reads exactly the announced number of entries or throws |
| Snapshots.Snapshot.Load | src/persistence/snapshot.cpp:134-174 | the caller's map is replaced only by a whole accepted file, otherwise unchanged |
| Recovery.RecoveredLoadable | src/persistence/wal.cpp:27-35 | whatever the bytes, a recovered map is within the loader's cap |
| Recovery.RefusedSnapshotStopsStartup | src/main.cpp:39-41 | a snapshot that is refused stops startup with its error; the log alone is never used instead |
| Recovery.TornSnapshotRecovery | src/persistence/snapshot.cpp:134-174 | a committed snapshot cut short: below four bytes startup replays the whole log, otherwise it throws |
| Recovery.SaveMakesDurable | src/store/kv_store.cpp:13-24 | a committed snapshot makes recovery exact over any WAL bytes, torn or corrupt |
| Recovery.AppendRecovers | src/persistence/wal.cpp:103-143 | an interrupted append recovers the map before it, a complete one the map after |
| Recovery.AppendsSurviveIffDurable | src/persistence/wal.cpp:194-240 | over all files that recover, every next write survives if and only if the checkpoint is within the WAL and whole frames follow it |
| Recovery.ClearInterrupted | src/store/kv_store.cpp:70-80 | a crash between truncating the WAL and removing the snapshot recovers the snapshot's map, and endangers later writes exactly when that snapshot covered WAL bytes |
| Recovery.LegacySnapshotRecovers | src/persistence/snapshot.cpp:156-160 | a legacy snapshot of any prefix of the log recovers what the log alone would |
| StoreModel.SaveLoads | src/store/kv_store.cpp:82-92 | every snapshot a store with a WAL writes loads back with its map, size and offset |
| StoreModel.StepRefines | src/store/kv_store.cpp:26-92 | every step keeps memory, counter, recovered map and replay count as promised |
| StoreModel.CrashRecovers | src/store/kv_store.cpp:13-35 | which map each crash state of a write recovers, by how far the record and the snapshot got |
| StoreModel.CrashAtomic | src/store/kv_store.cpp:26-35 | with memory and files in agreement, a crash recovers the map before the write until the record is complete, and after it from then on |
| StoreModel.TwoOutcomesIff | src/store/kv_store.cpp:13-24 | a crash in a write with a due snapshot recovers the map before or after it, never a third, if and only if the operation changes nothing in the durable map or memory agrees with it on every other key |
| StoreModel.TornRecordIsTheOnlyDamage | src/persistence/wal.cpp:113-120 | an append interrupted after k bytes endangers later writes if and only if those are neither none nor all of the record |
| StoreModel.SaveCrashRecovers | src/store/kv_store.cpp:82-92 | an interrupted save recovers the durable map or the memory being saved |
| KvStore.KVStore.MaybeSnapshot | src/store/kv_store.cpp:13-24 | saves exactly when a snapshot is configured and the counter has reached 1000; a failed save keeps the counter |
| KvStore.KVStore.Set | src/store/kv_store.cpp:26-35 | the whole new state, the refused record, the record that failed part-way, the failed save, every disk state on the way; with a working log the write is always applied and counted |
| KvStore.KVStore.Delete | src/store/kv_store.cpp:45-55 | as Set, logged even for an absent key; says whether the key was there |
| KvStore.KVStore.Clear | src/store/kv_store.cpp:65-68 | memory and counter only |
| KvStore.KVStore.ClearPersistence | src/store/kv_store.cpp:70-80 | files and counter only; what a failure part-way leaves; the disk states between, in order |
| KvStore.KVStore.SaveSnapshot | src/store/kv_store.cpp:82-92 | false without a snapshot, else one atomic save at the current WAL offset |
| KvStore.KVStore.LoadSnapshot | src/store/kv_store.cpp:94-99 | replaces memory by the loaded map, or leaves it on absence or error |
| KvStore.KVStore.ReplayFromWal | src/store/kv_store.cpp:101-106 | replays into memory without touching the files |
| KvStore.Startup | src/main.cpp:31-51 | the store starts exactly as the files recover, or startup throws their error |
| Sessions.FirstWrite | src/main.cpp:33-51 | on empty files and a healthy machine: startup, a SET that is logged and stored, and what GET, membership and size then say |
| Sessions.Restart | src/main.cpp:39-51 | startup on files that hold a map serves that map, on a working log |
| Sessions.SetIsStep | src/store/kv_store.cpp:26-35 | every SET on a working log is a step of the state machine, a refusal exactly when the record is too large |
| Sessions.SetOnAnyMachine | src/store/kv_store.cpp:26-35 | whatever fails, every state the files pass through recovers the map before the SET or after it |
| Sessions.SetAndRestart | src/store/kv_store.cpp:26-35 | on a healthy machine SET succeeds and the next process serves the map with it |
| Sessions.DeleteAndRestart | src/store/kv_store.cpp:45-55 | likewise DELETE, which says whether the key was there |
| Sessions.SaveAndRestart | src/store/kv_store.cpp:82-92 | on a healthy machine a save succeeds over any files, and the next process serves the map with nothing to replay |
| Sessions.ClearAndRestart | src/store/kv_store.cpp:70-80 | on a healthy machine clearing persistence succeeds and revives a failed stream, memory stays, and the next process starts empty |
| Runs.RunRefines | src/store/kv_store.cpp:13-106 | over every run of writes, clears, saves, failed saves and restarts, the refinement holds |
| Runs.RecoveryIsExact | src/store/kv_store.cpp:13-106 | after any run from empty files, recovery gives exactly the promised map and replay count |
| Runs.AcceptedWritesAreDurable | src/store/kv_store.cpp:26-55 | without clears, recovery is the fold of every accepted write and equals memory |
| Runs.ReadsReturnLastWrite | src/store/kv_store.cpp:37-43 | without clears, reading a key returns what the last accepted write on it says, across restarts |
| Runs.RecoveryInventsNothing | src/store/kv_store.cpp:13-106 | clears or not, recovery returns no binding that was not there at the start or written since |
| Runs.RestartIsInvisible | src/main.cpp:39-51 | without clears, a restart succeeds, replays the promised number of writes and changes nothing a reader sees |
| Checkpoints.CounterFollowsTail | src/store/kv_store.cpp:13-55 | in one process the operations left to replay exceed the counter by what they did at its start, and after a checkpoint not at all |
| Checkpoints.CheckpointBound | src/store/kv_store.cpp:13-55 | in one process started on any good files, recovery replays exactly the counter's number of writes, and before the first checkpoint those the files held beyond it; the counter stays under 1000 while saves succeed |
| Checkpoints.ManyProcessesBound | include/store/kv_store.h:130-133 | over any run with saves succeeding, at most 999 replayed operations per restart or memory clear since the last checkpoint, and those the counter counts |
| Checkpoints.RestartsDeferCheckpoints | include/store/kv_store.h:130-133 | that bound is reached for every number of restarts, by runs in which no save is ever due |
| Healing.RecoversFromSave | src/store/kv_store.cpp:13-24 | from any files, a run in which a save succeeds is exact from that save on |
| Healing.RecoversFromClear | src/store/kv_store.cpp:70-80 | from any files, a run in which clearing persistence returns is exact from there on, with nothing durable before |
| Healing.UnsavedReturns | src/store/kv_store.cpp:13-24 | without a successful save fewer than a thousand writes can return, a failed save being retried by the next write |
| Healing.ThousandWritesHeal | src/store/kv_store.cpp:13-24 | from any files, once a thousand writes have returned in one process, recovery equals memory again, whatever refused writes, failed saves and explicit saves came between |
| Crashes.CrashAfterAnyRun | src/store/kv_store.cpp:26-55 | a crash at any byte of a write after any run without clears recovers every accepted write, and the interrupted one exactly if its record was complete |
| Crashes.CrashDisksCover | src/store/kv_store.cpp:13-80 | the crash states admitted include every one a write, a save or a clear passes through |
| Crashes.HealsAfterCrash | src/store/kv_store.cpp:13-55 | after any history of operations, failures and crashes, the program starts again, and once a thousand writes have returned recovery gives what it started with and every write since |
| Crashes.StartupNeverThrows | src/main.cpp:39-51 | no interleaving of operations, failed operations and crashes leaves files that startup refuses |
| Crashes.ExactAfterNextSave | src/store/kv_store.cpp:82-92 | after any such interleaving, recovery is exact from the next successful save on |
| Crashes.CrashIsCleanOrTorn | src/persistence/wal.cpp:113-120 | every crash of a write is one of the crashes the next rows interleave |
| Crashes.RuleLosesNothing | src/store/kv_store.cpp:13-92 | any interleaving of operations, restarts and crashes of every kind, without clears, keeps exactly the accepted writes and the interrupted ones whose record was complete, if after each torn record a save succeeds before or with the next write logged |
| Crashes.CleanCrashesLoseNothing | src/store/kv_store.cpp:13-92 | without torn records the rule holds of itself, and the refinement with it |
| Damage.TornTailForgesValue | src/persistence/wal.cpp:95-124 | a SET torn before its value, then another record as long as that value: replay reads the second as the first one's value |
| Damage.ForgedValueRecovered | src/persistence/wal.cpp:194-240 | on the files, recovery loses the earlier value of the key, and the second write, and returns bytes nobody wrote |
| Damage.WriteTouchesOneKey | src/persistence/wal.cpp:103-143 | on files in good order a write changes no key but its own |
| Forgery.NothingForgedIffImmune | src/persistence/wal.cpp:194-232 | for every log and offset: whatever is appended, replay from the offset finds only what was there or was appended, if and only if the offset is within the log and what follows it is whole frames or continues with an impossible length |
| Damage.TornRecordIsForgeable | src/persistence/wal.cpp:113-120 | a log that ends in a torn record never is |
| Forgery.RecoveryForgesNothingIff | src/main.cpp:39-51 | over all files that recover, with the recorded checkpoint as the offset and the recovered maps compared key by key: each value after the writes is the old one or what one of them gives it, if and only if that condition holds |
| Witnesses.ThirdMapReached | src/store/kv_store.cpp:13-35 | a reachable store in which a crash of the next write recovers a third map |
| Witnesses.ClearInterruptedReached | src/store/kv_store.cpp:70-80 | a reachable store whose interrupted clear brings its snapshot back and endangers the next write |
| Witnesses.ForgedAfterFailedClear | src/store/kv_store.cpp:70-80 | a clear that throws at the snapshot, one DELETE of an absent key, and the next startup returns a binding nobody wrote |
| Witnesses.OversizedFieldSaved | src/persistence/snapshot.cpp:41-87 | a store without a WAL saves a value one byte over the loader's cap, and the next startup throws |
| StringUtils.UpperCodes | src/common/string_utils.cpp:54-63 | the codes 97 to 122 go down by 32 and no other character changes |
| StringUtils.ToUpper | src/common/string_utils.cpp:54-63 | the loop computes that mapping |
| StringUtils.Trim | src/common/string_utils.cpp:9-26 | the text without the whitespace at its ends, and nothing else removed |
| StringUtils.SplitWhitespaceView | src/common/string_utils.cpp:28-52 | every maximal run without whitespace, once, left to right |
| StringUtils.TrimKeepsWords | src/common/string_utils.cpp:9-52 | trimming keeps the words; what is left is nonempty exactly if there is a word |
| StringUtils.WordsOfJoin | src/common/string_utils.cpp:28-52 | splitting joined words gives the words back |
| StringUtils.BlanksSeparate | src/common/string_utils.cpp:28-52 | any run of space, tab, newline, vertical tab, form feed and carriage return separates two words; text with none of them is one |
| StringUtils.TrimRemovesBlanks | src/common/string_utils.cpp:9-26 | trimming removes exactly those six characters at both ends |
| StringUtils.UpperIffSpells | src/common/string_utils.cpp:54-63 | the texts mapped to a capital name are exactly those that differ from it by 32 in the code of some letters |
| CliParser.JoinTokens | src/parser/cli_parser.cpp:20-31 | the loop joins the tokens from an index on with single spaces; past the last token it returns the empty string |
| CliParser.Parse | src/parser/cli_parser.cpp:52-134 | the result is the command the line's words spell |
| CliParser.CommandIff | src/parser/cli_parser.cpp:63-131 | for each command, exactly which words give it, by literal verbs in any casing and the number of words, and with what key and value |
| CliParser.RefusalIff | src/parser/cli_parser.cpp:52-134 | for each error message, exactly which refused words give it |
| CliParser.ParseNormalised | src/parser/cli_parser.cpp:52-61 | parsing is invariant under whitespace normalisation |
| CliParser.KeyedRoundTrip | src/parser/cli_parser.cpp:77-99 | printing then parsing GET and DELETE is the identity, for any casing of the verb, letter by letter |
| CliParser.SetRoundTrip | src/parser/cli_parser.cpp:63-75 | a printed SET keeps its key, and keeps its value if and only if the value is normalised |
| CliParser.ExpressibleSets | src/parser/cli_parser.cpp:63-75 | a SET of a key and value comes from some line if and only if the key is a word and the value normalised and nonempty |
| CliParser.PrintIsCanonical | src/parser/cli_parser.cpp:52-134 | every valid line means the same as its command's canonical line |

## Left out

- Wal.WriteAheadLog.AppendSet: a failed stream keeps its buffer and may write it again when closed; that is not in the
  contract, which leaves a prefix of the record. `Crashes.FaultStep` allows any bytes after a failure.
- Wal.WriteAheadLog.AppendDelete: likewise.
- Wal.WriteAheadLog.Clear: likewise for what closing a failed stream may still write if truncation then fails.
- Failure to open the WAL at construction, or to open an existing file for reading, and read errors of the device.
- Files of 2^63 bytes and more: the WAL is assumed to stay below that length (`Wal.HasRoom`, `StoreModel.Step`).
- A WAL file that disappears while the program runs; opening it creates it, so a missing one is the empty one.
- fsync, buffering and byte order: flushed bytes are durable in order, rename is one step, the host is little-endian.
- The hash table's own iteration order: a saved file may list the map in any order.
- Runs of stores with only a WAL or only a snapshot: the class contracts cover them, the run theorems do not.
- Wrap-around of 64-bit sizes and counters: modelled as unbounded, except the u32 and u64 fields on disk.
- JSON request validation (`src/parser/json_enforcer.cpp`), the prompt loop, output text and benchmarks.
- Text is modelled as characters with the "C" locale's whitespace and case rules; other locales are not.
