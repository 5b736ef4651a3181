# Proofs about the asset retrieval and export service

This project models the logic of the service in Dafny and proves what its design depends on, over every input, every
interleaving and every run.  `dafny verify dfyconfig.toml` checks it.

| file | what it models |
|---|---|
| `Shared.dfy`, `Budget.dfy` | the single-flight registry as a step relation with its inductive invariant, and the temporary-storage budget composed with it |
| `Publication.dfy` | gate, rename, commit, rollback guard, crash and startup sweep |
| `Runner.dfy`, `Tasks.dfy`, `TaskStore.dfy` | the bounded batch runner with an arbitrary schedule, task records and their repair, the task table with failing writes |
| `UsmMask.dfy`, `UtfTable.dfy`, `UtfPrinter.dfy`, `UtfRows.dfy`, `UsmDemux.dfy`, `UsmStreams.dfy` | payload masks, metadata tables with two printers, the demultiplexer, and what it accepts and leaves, stated without it |
| `CatalogReader.dfy`, `Catalogs.dfy`, `CatalogImages.dfy`, `CatalogFiles.dfy`, `CatalogPrinter.dfy`, `Closure.dfy`, `Plans.dfy` | the binary catalog with its memoised string decoder and location worklist, the images of its records and of whole files, a printer, resolution, dependency closure and plan |
| `Component.dfy`, `ComponentSpelling.dfy`, `TreePlan.dfy`, `TreePaths.dfy`, `TreeExport.dfy`, `TreeNames.dfy` | path components and their spelling, the planning of a tree export, its application and convergence, and the names and fields of what it adds |
| `Upload.dfy`, `UploadRuns.dfy` | verification and retry of one object, and all runs against one remote store |
| `Embedded.dfy`, `Layouts.dfy`, `LayoutPrinters.dfy`, `Cipher.dfy` | the embedded wrapper, AWB and IVF layouts with their printers, prefix decryption composed with the download loop |
| `Bytes.dfy`, `Numbers.dfy`, `Text.dfy`, `Order.dfy`, `Seqs.dfy`, `Sets.dfy`, `Sums.dfy`, `Graph.dfy`, `Tables.dfy` | shared vocabulary |

Code that changes state step by step is a class or a method with loops, proved against a specification function; what
is promised is then proved about that function.  Protocols are step relations: `Enabled` says when a step may happen,
`Apply` what it does, and every lemma named `InvKept` covers all steps.  Tables of names and markers are parameters
(`Names`, `Types`, `Kinds`, `Words`), so the results hold for any choice; the constants beside them record the real
ones.  What a reader of a format returns is also described without the reader: as the print of a value, or as what the
bytes show, and the two are proved to agree in both directions.

## Where a promise needs a condition

- UTF tables: printing and parsing are inverse only for names without a zero byte, of at most 4096 bytes and
  well-formed, and only within 16 MiB and 256 columns.  The printer keeps the column count to two bytes, so a list of
  more than 65535 fields can still pass when its later fields repeat what the first ones say.
  `UtfPrinter.RoundTripExact` is the exact condition for every list.
- USM keys: only 52 of the 64 key bits enter the masks (`UsmMask.SameMasks`).
- IVF: the cross-multiplied frame-rate test accepts rate 0 with scale 0 for every source
  (`Layouts.TimebaseEquality`, `Layouts.ZeroTimebaseAccepted`).
- Components: two different values share an uncut component exactly when one is the other behind the guard's
  underscore; `..` is the one guarded value that nothing shadows (`Component.NamedCollision`).
- Components: `CON` is guarded and so is `CON.txt`, but `CON.` is not, because its last dot is already escaped
  (`ComponentSpelling.GuardIsNeeded`).
- Catalog: the locations are those reachable from all listed ids, also the ids of keys that are numbers and
  therefore never become text keys (`Catalogs.Roots`).
- Catalog strings: the memo changes when the 64 MiB text budget is spent, never a value.  A file is parsed exactly
  when it is well formed and nothing in it exceeds a limit (`CatalogFiles.Parse`); for text this counts the strings that
  its rows and reached locations ask for, each once per separator.
- Upload: "the manifest is last" holds for the manifest's key as long as no index file contains its own digest and
  length under its own key.  Any other index that lists its own key is refused by the check of the local files
  (`UploadRuns.PreflightIsClean`, `UploadRuns.ManifestAtKey`, `UploadRuns.SelfNamingComesEarly`), and an index left by
  a tree export does not list it (`UploadRuns.TreeIndexIsClean`).
- Batches: the token is read before a job is started, so one job can start after a cancellation, and no second one
  (`Runner.Runner.Run`).
- Tree export: convergence starts from an index that names one export per asset key (`TreeExport.Consistent`); an
  empty index does, and every export keeps it (`TreeExport.Settled`).

## Assumptions

- A digest and a keystream are functions; `Component.Printed` says that a digest prints as at least 16 letters and
  digits.  Nothing else about SHA-256 or AES is used; no injectivity is needed.
- A database transaction commits or changes nothing and reports which; a rename within the data directory is atomic
  and never replaces a non-empty directory.
- The remote store honours conditional creation: a request for an existing key changes nothing.  Replies may be lost
  and bodies may arrive damaged.  Nobody overwrites keys unconditionally.
- The tree and the data directory are owned by one process under their locks; an index file does not change while it
  is being uploaded.

## Definitions

The step relations, invariants and reference functions that the results speak about, with the lines they follow.

| definition | source | is |
|---|---|---|
| CatalogReader.Word | src/catalog.rs:50-52 | a little-endian word inside the data, never past it |
| CatalogReader.Decode | src/catalog.rs:67-116 | the string decoder that remembers nothing |
| Closure.Resolve | src/catalog.rs:249-273 | the location that a key and a selector stand for |
| CatalogReader.Array | src/catalog.rs:53-66 | a length-prefixed array of offsets |
| CatalogReader.Static | src/catalog.rs:93-110 | length-prefixed ASCII or UTF-16 text |
| CatalogReader.Links | src/catalog.rs:76-90 | the linked parts from a node on, given the nodes passed and the bytes gathered |
| CatalogReader.TypeNameAt | src/catalog.rs:117-121 | the type name at an offset |
| CatalogReader.KeyAt | src/catalog.rs:122-138 | the key at an offset |
| CatalogReader.OptionsAt | src/catalog.rs:150-171 | the request options at an offset |
| CatalogReader.LocationAt | src/catalog.rs:139-184 | the location at an offset |
| Catalogs.Table | src/catalog.rs:194-216 | the rows of the key table |
| Catalogs.Keys | src/catalog.rs:211-214 | the text keys, none twice |
| Catalogs.Roots | src/catalog.rs:203-210 | every listed id, those of number keys included |
| Catalogs.Meaning | src/catalog.rs:186-245 | the catalog that the bytes mean |
| CatalogPrinter.Print | src/catalog.rs:50-184 | a whole catalog file: header, table, key, location, options and texts |
| Catalogs.Oversized | src/catalog.rs:187-237 | a start of the key table, locations reached from it, or strings that these ask for exceed a limit |
| CatalogReader.LocationAsks | src/catalog.rs:139-184 | the strings that reading a location asks for |
| CatalogReader.StringAsks | src/catalog.rs:67-116 | a string and the parts that it is linked from |
| CatalogImages.ShowsText | src/catalog.rs:67-116 | a text at an offset of the file |
| CatalogImages.ShowsKey | src/catalog.rs:122-138 | a key at an offset of the file |
| CatalogImages.ShowsLocation | src/catalog.rs:139-184 | a location at its id |
| CatalogFiles.ShowsCatalog | src/catalog.rs:186-245 | a whole catalog in a file |
| Embedded.Parse | src/embedded.rs:103-137 | the wrapper that a byte string holds, or a refusal |
| Embedded.Print | src/embedded.rs:194-217 | the wrapper printer, for any owner, name, reference id and payload |
| Embedded.WellFormed | src/embedded.rs:103-137 | the wrappers that may be printed |
| Embedded.TakeRegistry | src/embedded.rs:110-119 | the forty bytes of the reference registry |
| Plans.Plannable | src/plan.rs:21-74 | the keys that have a plan |
| Plans.Remote | src/plan.rs:17-19 | an HTTP address |
| Plans.Planned | src/plan.rs:21-74 | what a plan must be |
| Budget.Apply | src/service.rs:161-186 | how reservations follow the registry: taken inside a producer, carried by the result, returned when the last reference to the entry goes |
| Publication.Enabled | src/service.rs:797-1047 | when each step of gate, index check, staging, rename, commit, rollback, crash, sweep and reporting may happen |
| Publication.Apply | src/service.rs:797-1047 | what each of those steps does to directories, index, gates, producers and task results |
| Tasks.Recover | src/service.rs:283-295 | what startup does to a record that was queued or running |
| Budget.Enabled | src/service.rs:161-186 | when a reservation may be taken, given back, or carried by a successful download |
| Publication.Inv | src/service.rs:806-1047 | the publication invariant |
| Tasks.Selection | src/service.rs:641-642 | sorting and removal of repeats |
| TaskStore.Store.Get | src/service.rs:414-427 | a reader sees the record kept in memory before the one in the table |
| Cipher.Downloaded | src/service.rs:785-793 | what a download of a given size stores |
| Tasks.Repaired | src/service.rs:283-295 | a record after a restart, in terms of the record before it |
| Shared.Enabled | src/shared.rs:21-101 | when each atomic step of a joiner under the registry lock, of a producer, or of a two-step waiter drop may happen |
| Shared.Apply | src/shared.rs:21-101 | what each of those steps does to entries, counts, tokens, results and the registry |
| Shared.Inv | src/shared.rs:21-101 | the registry invariant |
| Tasks.Outcome | src/task_runner.rs:84-100 | the final status from error, cancellation and number of successes |
| Component.Named | src/tree.rs:32-63 | the component of a value |
| TreePlan.SafePath | src/tree.rs:86-96 | the relative paths that may be written or read |
| TreePlan.Planned | src/tree.rs:190-316 | all checks before anything is written, and the resulting list of new files |
| Component.Full | src/tree.rs:32-57 | the component before the length limit |
| TreePlan.ItemOf | src/tree.rs:255-302 | the object and content of one artifact, or a refusal |
| TreePlan.Decide | src/tree.rs:303-314 | known, in the way, or new |
| TreePlan.NoClash | src/tree.rs:211-235 | no two prefixes of keys are written alike |
| TreePlan.Assigned | src/tree.rs:238-243 | one export per asset key |
| TreePlan.Empties | src/tree.rs:244-246 | empty exports, each listed once |
| TreeExport.CutOff | src/tree.rs:317-342 | the tree that a crash leaves |
| TreeExport.Finished | src/tree.rs:317-342 | the tree that a complete run leaves |
| ComponentSpelling.Written | src/tree.rs:32-57 | one piece for each byte of the value, behind the underscore of a guarded one |
| TreePaths.Relative | src/tree.rs:86-96 | a relative path that leaves no directory |
| TreeNames.Describes | src/tree.rs:264-291 | the entry of an artifact: its names by role, its fields from artifact and manifest |
| TreeNames.Exportable | src/tree.rs:255-302 | such an entry with a safe path, a plain identity and intact stored content |
| UploadRuns.Enabled | src/upload.rs:251-394 | when each step may happen: start, send, late or double landing, loss, reply, check, failure, retry, cancellation, crash |
| UploadRuns.Apply | src/upload.rs:251-394 | what each step does to the remote store, the requests in flight and the run |
| UploadRuns.Preflight | src/upload.rs:297-311 | the check of the index and of every listed local file before any request |
| UploadRuns.Inv | src/upload.rs:282-394 | the upload invariant |
| UsmMask.GetMask | src/usm.rs:368-422 | the mask schedule of a key, with eight-bit wrap-around |
| UtfTable.TableRow | src/usm.rs:108-199 | the name and integer columns of one row, or a refusal |
| UtfPrinter.Print | src/usm.rs:487-515 | the table printer, with the column count kept to two bytes and offsets to four |
| UsmDemux.TrackStep | src/usm.rs:285-335 | one chunk on one stream: header once, payload only after it, nothing after the end, known markers |
| UsmDemux.DirectoryOf | src/usm.rs:236-259 | the streams that a directory chunk declares |
| UsmMask.SeedOf | src/usm.rs:369-378 | the key bits that enter the schedule |
| UtfTable.StringAt | src/usm.rs:97-105 | a bounded, terminated, well-formed string inside a region |
| UtfTable.ColumnAt | src/usm.rs:141-193 | one schema entry with its storage class, width and reference checks |
| UtfTable.Collect | src/usm.rs:172-195 | integer columns become fields, a later column of one key wins |
| UsmDemux.VideoOf | src/usm.rs:37-69 | the checked video header |
| UsmDemux.HeaderStep | src/usm.rs:303-318 | the one header of a stream |
| UsmDemux.Declared | src/usm.rs:243-257 | the streams listed by the rows of the directory |
| UsmDemux.Step | src/usm.rs:236-336 | one chunk on the whole machine: one directory, at most three streams, the running total |
| UsmDemux.Complete | src/usm.rs:340-353 | the checks after the last chunk |
| UsmDemux.Demux | src/usm.rs:200-361 | chunks, machine and final checks together |
| UsmDemux.Print | src/usm.rs:516-524 | the chunk printer, with any channel |
| UsmStreams.Grammar | src/usm.rs:285-336 | the chunk sequences of one stream |
| UsmStreams.Content | src/usm.rs:286-302 | the join of the payloads, unmasked by kind and codec |
| UsmStreams.GoodDirectory | src/usm.rs:236-259 | a directory chunk and the streams that its rows name |
| UsmStreams.GoodChunks | src/usm.rs:200-361 | the chunk lists of an accepted file |
| Layouts.AwbLayout | src/worker.rs:654-697 | the accepted waveform table |
| Layouts.IvfFile | src/worker.rs:763-804 | the accepted packet file |
| LayoutPrinters.GoodAwb | src/worker.rs:654-697 | a waveform table whose ids and offsets may be printed |

## Model

| member | source | states |
|---|---|---|
| Shared.InvKept | src/shared.rs:21-101 | every step from every state that satisfies the invariant keeps it: counts equal outstanding waiters plus leases, a token is cancelled (or about to be) exactly when nobody is counted, an entry with users is the registered one, leases hold the written result |
| Shared.RunInv | src/shared.rs:21-101 | the invariant holds at every point of every interleaving |
| Shared.RunLater | src/shared.rs:21-27 | between any two points of a run an entry keeps its key and its once-written result, a cancelled token stays cancelled, and a count at zero never rises |
| Shared.LeasesShareOneValue | src/shared.rs:28-38 | all leases held at once for one key are leases of one entry with one value |
| Shared.HeldEntryIsLive | src/shared.rs:50-84 | an entry somebody waits for or leases is not cancelled, is the registered one, and no other entry of its key has users |
| Shared.LookupIsExact | src/shared.rs:50-63 | under the lock, a lookup that passed found the only entry of its key that can have users |
| Shared.Registry.constructor | src/shared.rs:14-19 | an empty registry satisfies the invariant |
| Shared.Registry.Find | src/shared.rs:51-56 | drops dead weak entries, upgrades the registered one and passes it on unless its token is cancelled; an entry in use is never missed |
| Shared.Registry.Acquire | src/shared.rs:57-63 | counts one more user of the entry found, and only if the count is above zero |
| Shared.Registry.Install | src/shared.rs:66-82 | a fresh entry with count one and its own producer takes the place of the key |
| Shared.Registry.Join | src/shared.rs:50-84 | an uncontended join shares the entry in use for the key, and installs a fresh one exactly when no entry of the key has users |
| Shared.Registry.FetchSub | src/shared.rs:22-25 | the first half of a drop lowers the count by one and reports the last user exactly when no other waiter or lease is left |
| Shared.Registry.Cancel | src/shared.rs:23-25 | the second half of the last drop cancels the token, and nobody holds the entry then |
| Budget.Counter.Reserve | src/service.rs:170-180 | refused exactly when the sum would pass the maximum; otherwise the count is the sum and stays within the maximum |
| Budget.Counter.Return | src/service.rs:182-186 | gives back exactly what was reserved |
| Budget.InvKept | src/service.rs:783-794 | every step keeps: reserved bytes equal the sum owned by downloads and workers, never above the maximum, and exactly the referenced unfailed downloads own a share |
| Budget.ReservedWhenItFits | src/service.rs:170-180 | a working download gets its share exactly when the shares of all others leave room for it; a refusal takes nothing |
| Budget.WorkerStartsWhenItFits | src/service.rs:170-180 | the same for the estimate of a worker |
| Budget.RunWithinBudget | src/service.rs:161-186 | this holds at every point of every run |
| Budget.ShareLivesWithReferences | src/service.rs:783-794 | a lease keeps its share reserved; an entry nobody references owns nothing |
| Budget.IdleIsEmpty | src/service.rs:161-186 | a service without waiters, leases, producers and workers has nothing reserved |
| Publication.InvKept | src/service.rs:806-1047 | every step keeps: each indexed export has its complete directory, no result names an unindexed export, working producers of one id share one gate, and past the gate nothing of that id is indexed |
| Publication.RunInv | src/service.rs:228-315 | the invariant holds over every run with crashes and restarts |
| Publication.Exclusive | src/service.rs:806-820 | at most one producer of an export id is past its gate, also when a cancelled producer overlaps its replacement |
| Publication.IndexOnlyGrows | src/service.rs:1023-1042 | what is indexed stays indexed with the same content |
| Publication.PublishedOnce | src/service.rs:818-820 | an export id is committed at most once in any run |
| Publication.StartupEqualsIndex | src/service.rs:299-315 | when startup completes, the directories on disk are exactly the indexed exports, each complete |
| Publication.StaleBlocksRename | src/service.rs:1019-1021 | a left-over directory with something inside makes the rename fail and stays untouched; without one, or with an empty one, the rename succeeds |
| Publication.Disk.SweepAll | src/service.rs:299-315 | the startup loop removes exactly the directories the index does not know and changes no other |
| Runner.Runner.constructor | src/task_runner.rs:36-38 | a new batch accounts for every selected key as waiting |
| Runner.Runner.Fill | src/task_runner.rs:40-53 | starts jobs only below the concurrency limit and only after the token was seen uncancelled; the token may be cancelled between that check and the start; no key is lost, and nothing starts when the token was cancelled before |
| Runner.Runner.Spawn | src/task_runner.rs:41-52 | moves the next key from waiting to running under a fresh identity |
| Runner.Runner.Settle | src/task_runner.rs:54-71 | any running job may end; a panicking one is always named through the identity map, and its key gets exactly one result |
| Runner.Runner.Checkpoint | src/task_runner.rs:72-79 | exactly when no save has failed and the number of results is a multiple of twenty: the record is saved, or the batch is marked failed and the token cancelled |
| Runner.Runner.Advance | src/task_runner.rs:54-79 | one result and the save that may be due; until a save fails, every twentieth result has been saved |
| Runner.Runner.Drain | src/task_runner.rs:39-80 | whatever finishes in whatever order, the loop ends with nothing running and every key accounted for |
| Runner.Runner.Conclude | src/task_runner.rs:81-101 | keys never started are reported as cancelled and the batch is classified |
| Runner.Runner.Run | src/task_runner.rs:36-101 | for every schedule of completions, panics, cancellation and failed checkpoints: one result per selected key, never more than the limit running, at most one job started after the cancellation and none in a batch cancelled before it began, a save for every twentieth result, and every saved record a prefix of the final results |
| Runner.SettleTracked | src/task_runner.rs:57-68 | the identity of every running job is known and unique, so the lookup of a panicked job cannot fail |
| Runner.RestartFromAnySave | src/service.rs:275-297 | repairing any saved checkpoint gives exactly one result per selected key and keeps what was reported |
| Tasks.OutcomeMeaning | src/task_runner.rs:84-100 | the final status of an accounted batch, case by case: failed after a failed save, cancelled after a cancellation, otherwise succeeded exactly when every key was exported, partial exactly when some were and some were not, failed exactly when there are keys and none was |
| Tasks.SelectionIsDistinct | src/service.rs:641-642 | the sorted and deduplicated selection holds exactly the requested keys, ascending, each once |
| Tasks.RecoverAccounts | src/service.rs:283-295 | repairing any checkpoint leaves exactly one result per key, keeps the reported results and exports nothing new |
| Tasks.RecoverRepairs | src/service.rs:283-295 | the repaired record, field by field: a record that was queued or running ends failed and interrupted, its reported results stay in front, each selected key without one gets exactly one interrupted result without an export, and an export counts all of them; any other record stays as it is |
| Tasks.RecoverTwice | src/service.rs:275-297 | a second restart changes nothing |
| TaskStore.RunBatch | src/service.rs:656-705 | a batch whose start could not be saved, or that was cancelled before, runs nothing: its results are one cancellation for each key; in every case each key has one result and every saved record can be repaired |
| TaskStore.Store.NewTask | src/service.rs:428-465 | accepted exactly outside shutdown, with no record stuck in memory, with room in the queue and with a save that succeeds; then the queued record is in the table |
| TaskStore.Store.FinishTask | src/service.rs:414-427 | a reader always sees the final record: as it is, or marked as failed after one failed write, and in memory exactly after two |
| TaskStore.Store.Export | src/service.rs:624-711 | from the accepted selection to the final record: one result per key, a final status, and every committed version repairable |
| TaskStore.Store.Query | src/service.rs:277-280 | one page is the least hundred ids above the previous one, in order, none skipped |
| TaskStore.Store.RecoverPage | src/service.rs:284-297 | each record of the page that was queued or running ends failed with the interruption error, keeps its results as a prefix, gets one interrupted result for every selected key without one, and counts them; every other record of the page, and every record outside it, is unchanged |
| TaskStore.Store.RecoverAll | src/service.rs:275-298 | the paged loop terminates and leaves every record of the table repaired in this sense: none queued or running, nothing reported lost, nothing exported by the repair, final records untouched |
| TaskStore.RepairEveryVersion | src/service.rs:283-295 | whatever version of a batch survives a crash, it is final or is repaired to one result per key |
| TaskStore.SavedTasksAre | src/task_runner.rs:72-79 | the records committed by a batch are the saves of its log, each once and in order |
| UsmMask.SameMasks | src/usm.rs:368-422 | two keys give the same masks exactly when they agree on the 52 key bits that enter the schedule |
| UsmMask.MaskOpens | src/usm.rs:369-379 | the first seven mask bytes from the bytes of the key, with every constant |
| UsmMask.MaskContinues | src/usm.rs:380-389 | the next ten bytes as sums, differences and complements of the first four |
| UsmMask.MaskEnds | src/usm.rs:390-404 | the last fifteen bytes, with their exclusive ors and constants |
| UsmMask.MaskFollows | src/usm.rs:406-422 | the second video mask is the complement of the first; the audio mask alternates that complement with the letters U, R, U, C |
| UsmMask.Demask | src/usm.rs:424-465 | the reference: the loop over single bytes |
| UsmMask.MaskVideo | src/usm.rs:433-465 | the row-chunked in-place routine leaves exactly what the byte loop gives, for every buffer length |
| UsmMask.MaskRows | src/usm.rs:443-455 | the bulk region, whole rows and the incomplete last one, equals the byte loop over it |
| UsmMask.BulkRow | src/usm.rs:443-455 | one row, or the incomplete last one, advances the reference loop by its bytes and carries its mask |
| UsmMask.MaskHead | src/usm.rs:457-464 | the scalar first pass over the 256 bytes before the bulk region |
| UsmMask.DemaskBytes | src/usm.rs:433-465 | buffers under 0x240 bytes and the first 0x40 bytes stay; every other byte is an exclusive or with a mask byte that depends on decoded bytes alone |
| UsmMask.RemaskDemask | src/usm.rs:433-465 | masking again what was unmasked gives back the stored payload |
| UsmMask.DemaskRemask | src/usm.rs:433-465 | unmasking what was masked gives back the clear payload |
| UsmMask.DemaskInjective | src/usm.rs:433-465 | different stored payloads never decode alike |
| UsmMask.MaskAudio | src/usm.rs:467-482 | the row-chunked audio routine equals the repeating mask from byte 0x140 on |
| UsmMask.AudioInvolution | src/usm.rs:467-482 | the audio mask is its own inverse |
| UtfTable.ReadRow | src/usm.rs:108-199 | the loop with a schema cursor and a row cursor computes that row for arbitrary bytes and never indexes out of range |
| UtfTable.ReadsInRegions | src/usm.rs:108-199 | on success every constant was read from the schema, every row value from the selected row, every string from the strings, every blob from the data; name and keys are bounded text without a zero byte |
| UtfTable.StringIsGood | src/usm.rs:97-105 | a string read is terminated inside its region, at most 4096 bytes, well-formed and free of zero bytes |
| UtfTable.CollectedKeys | src/usm.rs:172-195 | exactly the integer columns become fields |
| UtfRows.RowReads | src/usm.rs:108-199 | of a printed table with columns of every type, width and storage class and any number of rows, row i is read exactly when the table has such a row, keeps within the limits and the references of that row stay in their regions; what is read is the name and the integer columns of row i, zero columns as zero |
| UtfRows.AcceptedIsDeclared | src/usm.rs:138-197 | conversely, whatever row is accepted, the schema is a sequence of entries of known type and storage class from byte 32 on, one for each column, with its key among the strings, and the per-row values follow each other from the start of that row |
| UtfPrinter.ParsePrint | src/usm.rs:108-199 | a printed table within the limits parses to its name and the fields that its column count reaches |
| UtfPrinter.ParsePrintSmall | src/usm.rs:487-515 | up to 256 fields with good names, the round trip is complete |
| UtfPrinter.RoundTripExact | src/usm.rs:487-515 | for every name and field list the round trip holds if and only if the names are good, the table is within the limits and the fields beyond the two-byte column count would not change the map |
| UsmDemux.ChunkAt | src/usm.rs:210-235 | the chunk at a position: signature, bounds, type, budget, payload |
| UsmDemux.Extract | src/usm.rs:200-361 | the single pass over the file computes the demultiplexing, refusals included |
| UsmDemux.RunIsLanewise | src/usm.rs:200-361 | a chunk list is accepted exactly when each stream accepts its own chunks, there are at most three streams, one directory at most, and the total is within the limit; the state is then the product of the streams' states |
| UsmDemux.RunIgnoresInterleaving | src/usm.rs:200-361 | two interleavings of the same per-stream sequences reach the same state or are both refused |
| UsmDemux.DemuxIgnoresInterleaving | src/usm.rs:200-361 | two files that interleave the same sequences give the same streams or are both refused |
| UsmDemux.TrackData | src/usm.rs:286-302 | a stream's output is the in-order join of its payloads, all treated with the codec its one header named; before the header there is none |
| UsmDemux.DemuxOutput | src/usm.rs:286-302 | for every accepted file: the streams are those that occur, each holds the join of its own payloads, and all together stay within the limit |
| UsmStreams.TrackAccepts | src/usm.rs:285-336 | the machine of one stream accepts exactly the grammar: one header first, payloads, at most one end of the contents, nothing after the last end |
| UsmStreams.StreamContent | src/usm.rs:286-302 | without a key a stream is the plain join of its payloads; with one, video and alpha payloads lose the video mask, audio payloads lose the audio mask when the header names codec 2 or none, and an HCA stream (codec 4) is joined as it is |
| UsmStreams.TrackNames | src/usm.rs:303-318 | the video numbers and the codec kept for a stream are those of its own header |
| UsmStreams.DirectoryReads | src/usm.rs:236-259 | a chunk declares a set of streams exactly when it is a directory of that many distinct streams with good rows |
| UsmStreams.DemuxAccepts | src/usm.rs:200-361 | a file is accepted exactly when it can be cut into chunks, the chunks of each stream follow the grammar, the one directory declares exactly the streams that occur, and all bounds hold |
| UsmStreams.DemuxContent | src/usm.rs:200-361 | every accepted file leaves each stream with that content, with the video numbers and codec of its own header, and with the number of its payloads |
| UsmDemux.RunTotal | src/usm.rs:288-290 | the running total is the number of bytes written to all streams, within the limit |
| UsmDemux.ChunksTile | src/usm.rs:209-235 | an accepted file is cut into pieces that cover it exactly, each one whole chunk by itself |
| UsmDemux.TilesAreChunks | src/usm.rs:209-235 | whatever is joined from such pieces is cut back into the same chunks |
| UsmDemux.ChunkRoundTrip | src/usm.rs:516-524 | a printed chunk is read back whole |
| UsmDemux.ChunksRoundTrip | src/usm.rs:516-524 | every printable chunk list that opens with a directory is read back from its printed file |
| Embedded.ParsePrint | src/embedded.rs:103-137 | every well-formed wrapper is read back field by field |
| Embedded.PrintParse | src/embedded.rs:103-137 | every accepted byte string is the print of what was read, alignment zeros and end of input included |
| Embedded.PrintInjective | src/embedded.rs:194-217 | different wrappers never print alike |
| Embedded.Reader.Take | src/embedded.rs:69-80 | advances by n and returns those bytes, exactly when they are there |
| Embedded.Reader.Align | src/embedded.rs:87-94 | skips to a multiple of four exactly when only zeros are skipped |
| Embedded.Reader.String | src/embedded.rs:95-101 | takes a bounded, well-formed, padded string |
| Embedded.Reader.SingleEntry | src/embedded.rs:110-119 | reads three words and the closing id, exactly when twenty bytes are there |
| Embedded.Reader.Registry | src/embedded.rs:110-119 | accepts the reference registry exactly when its fixed fields hold and both ids agree |
| Embedded.Extract | src/embedded.rs:103-137 | accepts exactly the printed wrappers and returns the payload that was printed |
| Cipher.Decrypt | src/crypto.rs:20-41 | in place, only the bytes before position 16384 change; a bad basename is refused with the buffer untouched |
| Cipher.Download | src/service.rs:785-793 | the stored bytes depend on the bytes received and not on how the transport cut them; a size that is zero or over the limit, excess, truncation, an empty basename and, for ciphered data, a bad one all fail |
| Cipher.StoredDownload | src/service.rs:785-793 | a download is stored exactly when its size is not zero, within the limit and the number of bytes received, and its name is good; only the first 16384 bytes of a ciphered file are changed, each by its own keystream byte |
| Cipher.ChunkwiseIsWhole | src/service.rs:791-793 | for every split, decrypting each chunk at its running offset equals decrypting the whole once |
| Cipher.DecryptTwice | src/crypto.rs:20-41 | decrypting twice is the identity, and nothing from position 16384 on ever changes |
| Layouts.CheckAwbReferences | src/worker.rs:654-705 | accepts exactly the tables with distinct ids and chained aligned offsets inside the data whose tracks all refer to listed ids |
| Layouts.CheckIds | src/worker.rs:678-684 | accepts exactly distinct wave ids and collects them |
| Layouts.CheckOffsets | src/worker.rs:685-697 | accepts exactly offsets that lie past the previous aligned start and inside the data |
| Layouts.SegmentsDisjoint | src/worker.rs:685-697 | an accepted segment ends before any later one starts |
| Layouts.SegmentInside | src/worker.rs:685-697 | every accepted segment, a sole or last one too, starts aligned, after the table, and ends inside the data |
| Layouts.SegmentAfterTable | src/worker.rs:686-689 | every segment starts after the table |
| LayoutPrinters.AwbExact | src/worker.rs:654-705 | exactly the prints of good tables are accepted, with every header field in its place, and a track may refer to exactly the printed ids |
| Layouts.ValidateIvf | src/worker.rs:763-804 | accepts exactly a good header followed by the declared number of non-empty packets numbered 0, 1, 2, and nothing else |
| Layouts.ParsePrinted | src/worker.rs:783-798 | printed packets are read back |
| Layouts.ParsedTile | src/worker.rs:783-798 | accepted packets tile the file exactly |
| Layouts.TimebaseEquality | src/worker.rs:773-777 | with a positive scale the cross-multiplied test is equality of the two frame rates; with scale zero it asks for rate zero |
| Layouts.ZeroTimebaseAccepted | src/worker.rs:773-777 | a header with rate 0 and scale 0 passes for every frame rate or for none |
| LayoutPrinters.IvfExact | src/worker.rs:763-804 | exactly the prints of numbered non-empty packets under a header that agrees with the video are accepted |
| CatalogReader.Items | src/catalog.rs:62-65 | item offsets of an accepted array never overflow 32 bits |
| CatalogReader.ArrayInside | src/catalog.rs:53-66 | every item of an accepted array lies inside the data |
| CatalogReader.DynamicDecodes | src/catalog.rs:74-92 | a linked string decodes if and only if its nodes reach the end marker without repetition, at most 4096 of them and under 64 KiB; the value joins the parts from the last node to the first |
| Text.Utf16Decodes | src/catalog.rs:98-105 | little-endian UTF-16 of any characters, surrogate pairs included, decodes to their UTF-8 |
| Text.DecodedUtf16 | src/catalog.rs:98-105 | conversely, whatever decodes is the UTF-16 form of some characters and gives their UTF-8 form |
| Text.Utf8Exact | src/usm.rs:97-105 | well-formed text is exactly what some characters encode to |
| CatalogImages.TextExact | src/catalog.rs:67-116 | reading a text gives a value exactly when the file shows it: length-prefixed ASCII or UTF-16, or a list of nodes whose parts are joined backwards with the separator between them |
| CatalogImages.ArrayExact | src/catalog.rs:53-66 | reading a list gives exactly the words that the file shows behind their length |
| CatalogImages.TypeExact | src/catalog.rs:117-121 | a type name is the dotted text behind the second word of its record |
| CatalogImages.KeyExact | src/catalog.rs:122-138 | a key is read exactly as shown: a text under the separator that stands behind it, or a number |
| CatalogImages.OptionsExact | src/catalog.rs:150-171 | request options are read exactly as shown: hash in lower-case hexadecimal, bundle name, checksum and size, each from its own word |
| CatalogImages.LocationExact | src/catalog.rs:139-184 | a location is read exactly as its seven words show it: primary key, internal id, provider, dependencies, options and type, each where its own word points, with internal id and provider not empty |
| CatalogReader.Reader.constructor | src/catalog.rs:187-192 | an empty memo over data within the size limit |
| CatalogReader.Reader.String | src/catalog.rs:67-116 | for every offset, separator and call history the memoised decoder gives what the plain one gives, or the text budget is spent; it remembers nothing but what the string asks for, and all of that when it succeeds |
| CatalogReader.Reader.LinkedString | src/catalog.rs:74-92 | a linked string: its parts joined, remembered under its own separator after the parts under none |
| CatalogReader.Reader.Gather | src/catalog.rs:76-90 | the walk along linked nodes terminates on cyclic lists, gathers the same parts and remembers exactly these |
| CatalogReader.Reader.Visit | src/catalog.rs:78-88 | one node: its part, never itself linked, and the next node; only the part is remembered |
| CatalogReader.Reader.Remember | src/catalog.rs:112-115 | one more value is remembered and the text budget is the sum of all distinct decoded values; it fails exactly when that passes the budget |
| CatalogReader.Reader.TypeName | src/catalog.rs:117-121 | a type name as the plain decoder reads it |
| CatalogReader.Reader.Key | src/catalog.rs:122-138 | a key as the plain decoder reads it; number keys carry no text, other types are refused |
| CatalogReader.Reader.RequestOptions | src/catalog.rs:150-171 | request options as their bytes say; what they ask for is remembered |
| CatalogReader.Reader.ReadNames | src/catalog.rs:139-143 | the three names of a location as the plain decoder reads them |
| CatalogReader.Reader.ReadLocation | src/catalog.rs:139-185 | a location as its bytes say, with no offset overflow; what it asks for is remembered, nothing else |
| Catalogs.ReadTable | src/catalog.rs:198-216 | the key-table loop: the table, its text keys without duplicates, all listed ids, those of number keys included, within the reference and key limits, and exactly the text remembered that the table asks for; a limit is only reported with rows, ids or asked text that exceed it |
| Catalogs.ReadRow | src/catalog.rs:203-211 | one row: ids against the reference budget, then the key |
| Catalogs.Close | src/catalog.rs:217-243 | the worklist, taken in any order, ends with exactly the reachable locations within their limits and exactly the text remembered that table and locations ask for, or with an unreadable reached location, or with reached locations or asked text over a limit |
| Catalogs.Visit | src/catalog.rs:220-243 | one id: location limit, reading, material and edge budgets; every refusal has its reason in what is reached |
| CatalogFiles.RowExact | src/catalog.rs:203-211 | one row of the key table is read exactly as shown |
| CatalogFiles.TableExact | src/catalog.rs:194-216 | the key table is read exactly as the three words at the front and its rows show it |
| CatalogFiles.LocationsExact | src/catalog.rs:217-243 | the locations read are exactly those that the rows lead to, each as the file shows it |
| CatalogFiles.MeaningExact | src/catalog.rs:186-245 | what a file means is exactly what it shows: keys with their ids in order, and every field of every reachable location |
| CatalogFiles.MaterialIsLength | src/catalog.rs:223-231 | a location counts for the length of its texts and dependencies when written down |
| Catalogs.TakeRow | src/catalog.rs:203-216 | one more row joins the keys, ids and totals read so far, or the loop ends for a reason that holds of the whole table |
| CatalogFiles.Parse | src/catalog.rs:186-245 | on any bytes a catalog if and only if they are well formed, at most 32 MiB, and nothing in them exceeds a limit; then it is the one catalog that the file shows. A catalog that a file shows is returned as it is, or some limit is really exceeded; any other file is refused as malformed or too large, each for its reason |
| CatalogPrinter.PrintShows | src/catalog.rs:139-245 | every printed file, with any ASCII texts, a text key, and a location that has request options and depends on itself, shows exactly the catalog that was printed, so parsing gives each printed field back |
| Catalogs.NothingExceeds | src/catalog.rs:186-245 | when the totals of a whole parse keep within the limits, no start of the table, no set of reached locations and no text that these ask for exceeds one |
| Closure.ParsedNothingDangles | src/catalog.rs:186-245 | in a parsed catalog every id under a key and every dependency is a location, each filed under its own id |
| Closure.NothingIsMissing | src/catalog.rs:249-285 | on such a catalog "location missing" and "dependency missing" cannot occur |
| Catalogs.MeaningIsUnique | src/catalog.rs:186-245 | the bytes determine the catalog: two readings of one file agree |
| Closure.Resolves | src/catalog.rs:249-273 | a key resolves exactly when something meets the selector in id, provider and type and everything that does agrees in address, provider and dependencies; otherwise it is ambiguous when something does, and has no match when nothing does |
| Closure.ResolvesToFirst | src/catalog.rs:255-273 | of several locations alike, the first that fits in the key's own order is chosen |
| Closure.ClosureFrom | src/catalog.rs:279-299 | each downloadable location reached from the start exactly once, cycles included; each error only for its reason |
| Plans.Build | src/plan.rs:21-74 | a plan if and only if the key resolves, its closure is clean and not empty, a media preview has at most one media file, and at most 512 remote files are kept; then target, font rule, remote dependencies ascending by id, local ones listed as omitted, media narrowed to its one file, and an archive splits the closure without loss; each refusal names a reason that holds, ambiguity only for a media preview that is no archive, the limit only when nothing was narrowed |
| Plans.PlanMeaning | src/plan.rs:21-74 | what a plan says of its key: font, archive and supported from the listed types and providers, every kept dependency an HTTP address and every omitted one none, and media embedded only when no file of the media provider is kept |
| Plans.ClosesMeaning | src/catalog.rs:279-299 | a closure is complete when nothing reached is missing, every file in it comes from one of the three providers, and there is one |
| Plans.Narrow | src/plan.rs:39-53 | a media preview keeps its single media file, is embedded when there is none, and is refused exactly when there are two |
| Plans.Finish | src/plan.rs:39-73 | narrowing, the limit of 512 and the supported types: accepted exactly when neither two media files of a preview nor too many remote files stand against it |
| Plans.ManyRemote | src/plan.rs:54-54 | the list is too long exactly when more than 512 different remote locations are needed |
| Plans.ExplainedIsNotPlannable | src/plan.rs:21-74 | none of the reasons for a refusal ever holds of a key that has a plan |
| Plans.Partition | src/plan.rs:35-38 | remote and local parts make up the whole closure, the remote part strictly ascending by id |
| Plans.ArchiveKeys | src/service.rs:718-731 | one distinct key for each HTTP resource, or a refusal exactly when some resource is not the only one under its primary key |
| Plans.ArchiveHasResource | src/service.rs:718-740 | whatever plan is made for such a key, it downloads that resource |
| Plans.ResourceResolves | src/service.rs:722-730 | the key of a resource always resolves to it |
| Component.Build | src/tree.rs:32-63 | the loops over a growing string compute it |
| Component.NamedShape | src/tree.rs:32-63 | every component is non-empty ASCII of at most 160 bytes without a slash, never ends in a dot or space, never has a reserved stem |
| Component.NamedDecodes | src/tree.rs:32-57 | what is not cut percent-decodes to the value or to the value behind one underscore, and says which |
| Component.NamedCollision | src/tree.rs:32-63 | two values share a component if and only if they are equal, or one is the other behind the guard's underscore, or both are cut and agree in the kept part and the digest |
| ComponentSpelling.ComponentWritten | src/tree.rs:32-63 | every component byte by byte: letters, digits and -_. ()[] stand for themselves, but for a last dot or space and the dots of . and .. ; anything else is a percent sign and two upper-case digits; an underscore stands in front exactly of nothing, ., .. and device names, alone or before a dot that is not the last byte; of more than 160 bytes the first 140 remain, with a tilde and sixteen letters of the digest |
| ComponentSpelling.GuardIsNeeded | src/tree.rs:41-56 | a value gets the underscore exactly when it is dotted or names a device in this sense |
| TreePlan.ReadIndex | src/tree.rs:191-210 | the maps of existing keys and exports, and the check that every listed file is there and intact |
| TreePlan.LoweredSize | src/tree.rs:191-196 | the size comparison detects exactly the indexes with two keys that differ in case alone |
| TreePlan.CheckDirectories | src/tree.rs:213-235 | accepts exactly when no two prefixes of keys are written alike ignoring case |
| TreePlan.OneDirectory | src/tree.rs:213-235 | distinct asset keys have directories that differ even ignoring case |
| TreePlan.PlanOne | src/tree.rs:303-314 | a known object key must stand for the same object, a file in the way must have the content |
| TreePlan.PlanManifest | src/tree.rs:255-315 | the files of one manifest |
| TreePlan.PlanNext | src/tree.rs:237-254 | one export per key, empty exports listed once, the tree's own directory refused |
| TreePlan.PlanTree | src/tree.rs:190-316 | the planning loops compute the plan |
| TreeExport.Disk.Apply | src/tree.rs:317-338 | one file: created only if absent, intact, listed, index replaced; the tree between the two writes is the cut-off tree |
| TreeExport.Disk.Export | src/tree.rs:190-342 | refused with the tree untouched, or carried out to the end |
| TreeExport.Converges | src/tree.rs:317-342 | from the tree left at any crash point, the next run ends with the tree that the first would have made |
| TreeExport.Settled | src/tree.rs:317-342 | after a complete run another one plans nothing and changes nothing |
| TreeExport.PlannedAgain | src/tree.rs:190-316 | from any tree in between, the next run plans exactly what is missing |
| TreeExport.OnlyAdds | src/tree.rs:190-342 | files keep their content, listed objects stay listed, object keys stay distinct ignoring case, everything listed is there |
| TreeExport.OnePlacePerKey | src/tree.rs:213-243 | each asset key is listed with one export and has a directory no other key shares |
| TreeExport.FileNameIsOnePart | src/tree.rs:264-278 | an object lies directly in the directory of its key |
| TreeExport.FinishedOutsideMeta | src/tree.rs:248-253 | no exported object ever lies in the directory of the index and the upload plan, in any letter case |
| TreePaths.SafeIsRelative | src/tree.rs:86-96 | the check of a destination accepts exactly the paths of at most 1024 bytes without drive, backslash or zero byte and with no part that is empty, . or .. |
| TreePaths.DirectoryMore | src/tree.rs:247-254 | the directory of a key is the component of its first part, a slash, and the directory of the rest |
| TreeNames.ItemFits | src/tree.rs:255-302 | an artifact is taken up exactly when its identity and content can be exported, and then with the entry that describes it |
| TreeNames.AddedObjects | src/tree.rs:264-302 | every object that an export adds has all its fields from one artifact and its manifest, and its key is the directory of the asset key with, as its role says, the base and the mask suffix, the base and the extension, or the component of the title, a tilde, sixteen letters of the digest of the stable id and the extension |
| TreeNames.AddedFiles | src/tree.rs:317-338 | every file that an export adds holds the stored content of such an artifact |
| TreeNames.EveryArtifactListed | src/tree.rs:255-316 | every artifact of every manifest is listed afterwards with the entry that describes it |
| TreeNames.EmptyEntries | src/tree.rs:244-246 | the empty exports added are those of the empty manifests, with their own fields |
| TreeNames.FinishedIndex | src/tree.rs:317-342 | the upload plan is the index; a list that has grown is in ascending order of object keys |
| TreeNames.PlanExists | src/tree.rs:190-316 | there is a plan exactly when the tree is sound, keys and exports do not clash, every artifact can be exported, and no two objects or files stand against each other |
| TreeNames.MaskByKey | src/tree.rs:267-278 | where digests print as letters and digits, an object has the role alpha-mask exactly when its key is the base of its asset key with the mask suffix |
| Upload.Verify | src/upload.rs:205-250 | the streamed check accepts exactly a whole body with the declared length and digest, although it stops at the first surplus byte |
| Upload.Journal.UploadObject | src/upload.rs:359-394 | at most three attempts, each in the journal, success or cancellation ends them, and the result is success exactly when a made attempt succeeded |
| UploadRuns.StepGrows | src/upload.rs:251-280 | no step ever changes the bytes of a stored key |
| UploadRuns.InvKept | src/upload.rs:282-394 | every step keeps: what is marked verified is stored intact, and every manifest request in flight or stored lists only stored objects |
| UploadRuns.StepsKeep | src/upload.rs:251-394 | both hold over every sequence of steps, runs and crashes |
| UploadRuns.ManifestLast | src/upload.rs:332-356 | where the uploader has created a manifest, everything it lists is stored with matching length and digest |
| UploadRuns.PreflightIsClean | src/upload.rs:304-311 | the check of every listed local file refuses each index that lists its own key, but for one that contains its own digest and length there |
| UploadRuns.StartsExactly | src/upload.rs:297-331 | a run starts exactly on a tree whose index file reads, lists no key twice and lists only files that are there with their length and digest; every worker is then at its first attempt |
| UploadRuns.FailedAttempt | src/upload.rs:359-394 | after a failed attempt a worker pauses before the next one, unless that was the third or the run is cancelled; a cancelled run begins no other attempt |
| UploadRuns.SourcedKept | src/upload.rs:297-356 | every step keeps: a run works on what one index file lists, and its manifest is that file |
| UploadRuns.ManifestAtKey | src/upload.rs:304-356 | when no uploaded index file contains its own digest and length under its own key, that key exists by the uploader's hand only after everything listed is stored |
| UploadRuns.SelfNamingComesEarly | src/upload.rs:304-356 | on an index file that names itself beside another object and passes the preflight, a run can publish the key while the other object is missing, so the condition cannot be dropped |
| UploadRuns.DoneMeansStored | src/upload.rs:332-356 | a run whose manifest is verified has stored, under the manifest's key, a body with the length and digest of an index file that lists exactly the objects of the run, and every one of these |
| UploadRuns.TreeIndexIsClean | src/tree.rs:248-253 | the index that a tree export leaves never lists its own key, so it never names itself |
| TaskStore.Store.Save | src/service.rs:410-413 | one write commits or changes nothing |
| UsmMask.DemaskAudio | src/usm.rs:469-482 | the repeating audio mask |
| UsmMask.Remask | src/usm.rs:433-465 | the explicit encoder that undoes the video mask |
| UtfTable.HeaderOf | src/usm.rs:112-136 | the table header with its regions in order and its rows inside them |
| UsmDemux.Clear | src/usm.rs:291-299 | which payloads are unmasked, and with which mask |
| Cipher.Decrypted | src/crypto.rs:25-39 | keystream by absolute position, within the prefix |
| Plans.Divide | src/plan.rs:35-38 | closure, split and sort |
| UtfRows.Print | src/usm.rs:108-199 | a table with columns of every storage class and any number of rows |

## Left out

- Shared.Registry.Join: one uncontended critical section; contention is covered by the step relation. Overflow of the user count is not modelled.
- Shared.InvKept: the waiting loop of a joiner is the choice between taking a result and dropping the waiter; no fairness is claimed.
- Budget.InvKept: free-space checks and the download and worker semaphores are not modelled.
- Publication.InvKept: staging contents are opaque, and the directory sync between rename and commit is part of the rename. A sweep or rollback cut short leaves a torn directory, empty or not.
- Runner.Runner.Run: what an item does is opaque; which job ends next, how, and whether a save works are arbitrary. Timestamps are left out.
- TaskStore.Store.Export: the in-memory cancellation map is left out; snapshot import tasks share the record but not the batch.
- UsmDemux.DemuxIgnoresInterleaving: speaks of files that can be cut into chunks; any other file is refused (`UsmDemux.Extract`).
- UsmDemux.Extract: takes the file as bytes; the stream files are the `data` of each track. Which error is reported is not modelled, only that there is one.
- CatalogFiles.Parse: for a file that is both malformed and over a limit the kind of refusal depends on the order of reading and is left open, as are the messages.
- Catalogs.Close: the source takes the smallest pending id first; the model takes any.
- Closure.ClosureFrom: the order of the result is not specified; the plan sorts what it keeps.
- Plans.ArchiveKeys: the source lists keys in ascending id order; the model in any order.
- Plans.Build: `validate` and `disposition` are flat tables over the plan and would only add easy members.
- TreePlan.PlanTree: takes the manifests already filtered and sorted, and index entries already typed. Symbolic links and the tree lock are not modelled.
- TreeExport.Disk.Export: directories are implied by paths; that one object may be named like another key's directory is not checked by the source and not claimed. Hard link and copy are one creation step, and leftover temporary files are not part of the tree.
- Upload.Journal.UploadObject: failing journal writes, file opening and the 5 GiB limit are failed attempts.
- UploadRuns.InvKept: the concurrency limit is not modelled; every interleaving of workers is allowed. Reading an index file as JSON is a function of its bytes. Symbolic links in the tree are not modelled.
- Layouts.ValidateIvf: takes the file as bytes.
- Embedded.Extract: the type-tree comparison before it concerns a foreign library's data.
- HTTP routes, range and entity-tag serving, argument parsing, logging and signals: plumbing.
- ffmpeg, ffprobe, process groups, resource limits, floating-point durations, Unity, ACB and HCA decoding: foreign code.
- AES, SHA-256, HMAC, request signing and CRC: functions of their inputs.
- URL parsing and configuration checks: they depend on a URL library or are flat range checks.
- `src/adx.rs`, `src/split_acb.rs`, `src/diagnostics.rs`: short checks that would only add easy members.
