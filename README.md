# Dynamic-partition memory simulator: a Dafny model

This project models the core of a simulator for variable-partition memory
allocation. The simulator keeps a table of storage partitions in a
database, ordered by position. Each partition is either free or bound to
one process. Around that table it runs four procedures:

- **Admission** puts Ready processes into memory. It reuses a free
  partition, splitting it when it is larger than the process, or it
  appends a new partition while capacity remains.
- **Compaction** moves free partitions behind occupied ones.
- **Condensation** merges runs of adjacent free partitions into one.
- **Name check** tests whether a process name is unique.

A settings table holds the memory size and three counters: the next
partition number, the compaction count and the condensation count. Each
process follows a four-state lifecycle (Ready, ReadyInPartition,
Running, Finished) with a quantum of 5 time units, the amount a waiting
process's remaining time drops by at `state.rs` lines 19 and 31. A small aggregate
builds one memory partition per process and adds up their sizes.

The modules follow the source files.

| file | module | source |
|---|---|---|
| `wrappers.dfy` | `Wrappers` | `Option` |
| `configuration.dfy` | `Configuration` | the settings table, as class `ConfigurationTable` |
| `states.dfy` | `States` | the lifecycle: state numbering and the transition function |
| `partitions.dfy` | `Partitions` | the partition table as a value (`seq<Partition>`), each edit the database performs as a function, and the lemmas about them |
| `database.dfy` | `Database` | class `Database`, whose fields are the partition table, the process rows and the two logs; its methods follow the loops of `database.rs` |
| `processes.dfy` | `Processes` | class `Process` and its `process` step |
| `memory.dfy` | `Memory` | class `Memory` |

In-place methods are proved against specification functions of the
partition table:

| function | what it is |
|---|---|
| `FirstFit` | the first free partition that is large enough |
| `Split` | a free partition cut into the requested size and the remainder |
| `Prepare` | the free partition a process goes into: the first fit, split to size, or else a new one at the end |
| `Bind` | a free partition bound to a process |
| `Released` | a process's assignment removed |
| `Swap` | two partitions exchanging positions |
| `NextOccupied`, `CompactStep`, `Compact` | the compaction pass, position by position |
| `MergeRun` | a run of free partitions replaced by one partition of their total size |
| `Condense` | a merge repeated until no two neighbours are free |

The `Database` module adds the admission as a function of the table and
the settings (`Place`, `AdmitOne`, `AdmitAll`) and the compaction log a
pass writes (`StepEntries`, `CompactionEntries`).

The lemmas about these functions state what each procedure promises:

- Splits keep the total size.
- Admission places a row exactly when a free partition can hold it or a new one fits, tries reuse before appending, and binds every placed process to a partition of its size.
- Compaction permutes the table and leaves every occupied partition before every free one; it changes exactly the tables that are not already in that order, and a second pass changes nothing.
- Condensation keeps the total size and the occupied partitions in order, leaves no two free neighbours, and is idempotent.
- Partition numbers stay distinct and below the counter.
- No process holds two partitions.

## Model

| member | source | states |
|---|---|---|
| Configuration.Default | src-tauri/src/database/configuration.rs:52-120 | the value a missing counter row is created with: 1 for the partition number, 0 for the compaction and condensation counts |
| Configuration.Counter | src-tauri/src/database/configuration.rs:52-120 | what a counter getter returns: the stored value, or the default when the row is missing |
| Configuration.WithDefault | src-tauri/src/database/configuration.rs:52-120 | after a getter, the counter row exists and holds what the getter returned; an existing row is left alone and every other setting is unchanged |
| Configuration.Bumped | src-tauri/src/database/configuration.rs:16-50 | k raises of a counter add exactly k to what its getter returns, starting from the default when the row is missing; the memory-size row is untouched |
| Configuration.BumpedOther | src-tauri/src/database/configuration.rs:16-50 | raising one counter leaves what the getter of any other counter returns |
| Configuration.BumpedAgain | src-tauri/src/database/configuration.rs:16-50 | one more raise after k raises is k + 1 raises |
| Configuration.BumpedCommute | src-tauri/src/database/configuration.rs:16-50 | raises of two different counters commute |
| Configuration.BumpedBoth | src-tauri/src/database/configuration.rs:16-50 | one more raise of each of two counters after j raises of each is j + 1 raises of each |
| Configuration.ConfigurationTable.constructor | src-tauri/src/database/configuration.rs:7-14 | a settings table with no rows, as `reset_configuration` leaves it |
| Configuration.ConfigurationTable.ResetConfiguration | src-tauri/src/database/configuration.rs:7-14 | every row is removed, so each counter reads its default (1 for the partition number, 0 for the counts) again |
| Configuration.ConfigurationTable.GetCounter | src-tauri/src/database/configuration.rs:52-120 | returns the stored value or the default, and stores the default when the row was missing |
| Configuration.ConfigurationTable.IncrementCounter | src-tauri/src/database/configuration.rs:16-50 | the table afterwards is the old one with that counter raised by exactly one |
| Configuration.ConfigurationTable.SetMemorySize | src-tauri/src/database/configuration.rs:122-146 | inserting or overwriting, the memory-size row afterwards holds the new size and nothing else changes |
| Configuration.ConfigurationTable.GetMemorySize | src-tauri/src/database/configuration.rs:148-154 | returns the stored memory size; the row must exist |
| States.StateNumber | src-tauri/src/model/state.rs:3-9 | the stored discriminant of a state is one of 0..3 |
| States.StateFromNumber | src-tauri/src/model/state.rs:68-78 | a number decodes exactly when it is in 0..3, and then to the state with that number |
| States.StateNumberRoundTrip | src-tauri/src/model/state.rs:68-78 | decoding the number of any of the four states gives that state back |
| States.Transition | src-tauri/src/model/state.rs:17-66 | the two waiting states go to Running with time max(0, time - 5); Running goes to ReadyInPartition with time unchanged when time > 0, else to Finished releasing its partition; Finished stays put; only Running with time <= 0 has an effect outside the process; non-negative time never grows or goes negative |
| States.Max0 | src-tauri/src/model/state.rs:19 | `max(0, x)`: never negative, at least `x`, and equal to one of the two |
| States.Iterate | src-tauri/src/model/state.rs:17-66 | the state and remaining time after k transitions, one `process` call at a time |
| States.Cycles | src-tauri/src/model/state.rs:17-38 | the number of quanta needed to use up a time: at least one, and the least count whose quanta cover the time |
| States.FinishesAfterCycles | src-tauri/src/model/state.rs:17-66 | a waiting process reaches Finished after exactly 2 * Cycles(time) steps, and not before |
| States.FinishedStays | src-tauri/src/model/state.rs:57-66 | any number of steps from Finished leaves state and time unchanged |
| States.IterateTimeBounds | src-tauri/src/model/state.rs:17-38 | from a non-negative time, any number of steps keeps the time between 0 and its start value |
| Partitions.TotalSize | src-tauri/src/database.rs:736-745 | the memory the partitions use: the sum of their sizes |
| Partitions.TotalSizeConcat | src-tauri/src/database.rs:736-745 | the used-memory sum of two tables placed one after the other is the sum of their sums |
| Partitions.Start | src-tauri/src/database.rs:434-513 | the first partition starts at offset 0 and the end of the table is the used memory |
| Partitions.StartContiguous | src-tauri/src/database.rs:434-513 | the offset of the first partition is 0 and each partition starts where the previous one ends |
| Partitions.Occupied | src-tauri/src/database.rs:147-151 | the occupied side of the left join: at most one entry per partition, in position order |
| Partitions.OccupiedIn | src-tauri/src/database.rs:147-151 | every entry of the occupied view is a partition of the table |
| Partitions.AssignedPidsMembers | src-tauri/src/database.rs:147-151 | a process id is among the assigned ids exactly when some partition of the table is bound to it |
| Partitions.OccupiedConcat | src-tauri/src/database.rs:147-151 | the occupied partitions of a concatenation are those of its parts, in order |
| Partitions.OccupiedAllFree | src-tauri/src/database.rs:147-151 | a table of free partitions has no occupied partition |
| Partitions.OccupiedNotFree | src-tauri/src/database.rs:147-151 | every partition the occupied view lists is bound to a process |
| Partitions.OccupiedHas | src-tauri/src/database.rs:147-151 | every bound partition is in the occupied view |
| Partitions.Bind | src-tauri/src/database.rs:747-755 | the table with the partition at a position bound to a process, all else unchanged |
| Partitions.BindKeeps | src-tauri/src/database.rs:747-755 | binding a free partition keeps every occupied partition and makes the bound one occupied |
| Partitions.BindOccupied | src-tauri/src/database.rs:747-755 | binding a free partition adds exactly that partition to the occupied ones |
| Partitions.BindPids | src-tauri/src/database.rs:747-755 | binding a free partition to a process adds exactly that process id to the assigned ids |
| Partitions.BindTotalSize | src-tauri/src/database.rs:747-755 | binding keeps the total size |
| Partitions.BindDistinct | src-tauri/src/database.rs:747-755 | binding a process that holds no partition keeps every process in at most one partition |
| Partitions.Released | src-tauri/src/database.rs:515-523 | the table with every partition of a process made free, all else unchanged |
| Partitions.ReleasedOccupied | src-tauri/src/database.rs:515-523 | after the delete, the occupied partitions are the old ones except those of that process |
| Partitions.ReleasedTotalSize | src-tauri/src/database.rs:515-523 | the delete keeps the total size |
| Partitions.ReleasedPids | src-tauri/src/database.rs:515-523 | the delete removes exactly that process id from the assigned ids |
| Partitions.ReleasedDistinct | src-tauri/src/database.rs:515-523 | the delete keeps every process in at most one partition |
| Partitions.InsertAt | src-tauri/src/database.rs:434-470 | a partition inserted at a position, the later ones one place on |
| Partitions.RemoveAt | src-tauri/src/database.rs:525-532 | the partition at a position removed, the later ones one place back |
| Partitions.InsertFreeViews | src-tauri/src/database.rs:434-470 | inserting a free partition keeps the occupied partitions and adds its size to the total |
| Partitions.RemoveFreeViews | src-tauri/src/database.rs:525-532 | deleting a free partition keeps the occupied partitions and subtracts its size from the total |
| Partitions.SplitAsEdits | src-tauri/src/database.rs:159-181 | one delete and two inserts at positions p and p + 1 (with the later rows moving one place on) give the split table |
| Partitions.MergeAsEdits | src-tauri/src/database.rs:294-309 | deleting a run and inserting one partition at its first position (with the later rows moving back) gives the merged table |
| Partitions.FreshInsert | src-tauri/src/database.rs:434-513 | a partition stamped with the current counter keeps the numbers distinct and below the next counter value |
| Partitions.FreshRemove | src-tauri/src/database.rs:525-532 | deleting a partition keeps the numbers fresh |
| Partitions.FreshSwap | src-tauri/src/database.rs:214-227 | exchanging positions keeps the numbers fresh |
| Partitions.SplitFresh | src-tauri/src/database.rs:159-171 | a split stamped with numbers n and n + 1 is fresh below n + 2 |
| Partitions.FreshDropRun | src-tauri/src/database.rs:294-296 | deleting a run keeps the numbers fresh |
| Partitions.FreshBind | src-tauri/src/database.rs:747-755 | binding keeps the numbers fresh |
| Partitions.FreshReleased | src-tauri/src/database.rs:515-523 | releasing keeps the numbers fresh |
| Partitions.FirstFitFrom | src-tauri/src/database.rs:149-159 | the scan's hit is a free partition at least as large as the request with none before it; a miss means no free partition is large enough |
| Partitions.FirstFit | src-tauri/src/database.rs:134-158 | the scan from the first position finds a free partition at least as large as the request with none before it, or reports that no free partition is large enough |
| Partitions.Split | src-tauri/src/database.rs:159-185 | the free partition at a position replaced by one of the requested size and one with the remainder, numbered n and n + 1 |
| Partitions.SplitShape | src-tauri/src/database.rs:159-185 | the split puts the requested size at p and the remainder at p + 1, both free and newly numbered; earlier partitions keep their place and later ones move one place on; the two sizes add up to the original; total size and occupied partitions are unchanged |
| Partitions.SplitKeepsOffsets | src-tauri/src/database.rs:159-181 | every partition after a split starts at the same offset as before |
| Partitions.Prepare | src-tauri/src/database.rs:106-107 | the slot for a process: the first fit as it is or split to size, or else a new partition after the last when it fits, or none |
| Partitions.PrepareProperties | src-tauri/src/database.rs:102-107 | a slot exists exactly when a free partition can hold the request or a new one fits; it is the first fit whenever there is one, and a new partition at the end only when there is none; the slot is free and of the requested size; the occupied partitions are untouched |
| Partitions.Swap | src-tauri/src/database.rs:214-227 | the table with the partitions at two positions exchanged |
| Partitions.SwapOccupied | src-tauri/src/database.rs:203-227 | exchanging a free partition with the next occupied one across free ones keeps the occupied partitions in order |
| Partitions.SwapPermutes | src-tauri/src/database.rs:214-227 | an exchange permutes the table |
| Partitions.SwapTotalSize | src-tauri/src/database.rs:214-227 | an exchange keeps the total size |
| Partitions.CompactionSkipStep | src-tauri/src/database.rs:199-206 | an occupied position, or a free one with nothing occupied after it, extends the compacted prefix |
| Partitions.CompactionSwapStep | src-tauri/src/database.rs:203-238 | exchanging a free partition with the next occupied one extends the compacted prefix by one |
| Partitions.CompactionDone | src-tauri/src/database.rs:199-242 | a fully compacted table has every occupied partition before every free one |
| Partitions.NextOccupied | src-tauri/src/database.rs:206-208 | the inner scan finds the first occupied partition at or after a position, with only free ones before it, or reports that all the rest are free |
| Partitions.CompactStep | src-tauri/src/database.rs:203-238 | one outer iteration of the compaction: a free partition exchanges places with the next occupied one when there is one; the table keeps its length |
| Partitions.Compact | src-tauri/src/database.rs:199-242 | the outer loop over the positions from a given one to the last; the table keeps its length |
| Partitions.CompactStepProperties | src-tauri/src/database.rs:203-238 | one iteration extends the compacted prefix by one and permutes the table, keeping the occupied partitions in order and the total size |
| Partitions.CompactFrom | src-tauri/src/database.rs:199-242 | the rest of the pass leaves every occupied partition before every free one, as a permutation with the same occupied partitions in order and the same total size |
| Partitions.CompactSorted | src-tauri/src/database.rs:199-242 | a table whose occupied partitions come first is left as it is |
| Partitions.CompactFixpoints | src-tauri/src/database.rs:192-249 | the pass leaves a table unchanged exactly when its occupied partitions come first; a second pass changes nothing |
| Partitions.AdjacentSwapOffsets | src-tauri/src/database.rs:214-227 | an exchange of neighbours gives the offsets the code writes, and leaves the partitions after them where they were |
| Partitions.RunLength | src-tauri/src/database.rs:262-278 | the run counted from i is free throughout and ends at the table's end or at an occupied partition |
| Partitions.RunLengthExact | src-tauri/src/database.rs:262-278 | any free stretch ending at the table's end or at an occupied partition is the run |
| Partitions.FirstRunFrom | src-tauri/src/database.rs:260-282 | the scan finds the first position that starts a run of two or more free partitions, or reports that none does |
| Partitions.FirstRunNone | src-tauri/src/database.rs:260-282 | the scan finds no run exactly when no two neighbours are free |
| Partitions.MergeRun | src-tauri/src/database.rs:282-309 | a merge of k partitions leaves k - 1 fewer |
| Partitions.MergeRunShape | src-tauri/src/database.rs:282-309 | a merge puts one free partition holding the run's total size at the run's start; earlier partitions keep their place; later ones move k - 1 places back; total size and occupied partitions are unchanged |
| Partitions.Condense | src-tauri/src/database.rs:251-332 | the outer merge loop: merge the first run with the next number until none is left; the final table and the number of merges |
| Partitions.CondenseStep | src-tauri/src/database.rs:255-331 | with no run the condensation is finished; otherwise it is one merge of the first run followed by the condensation of the result |
| Partitions.CondenseAfterMerge | src-tauri/src/database.rs:255-331 | merging the first run leaves the final table, one merge fewer to do, the same total and occupied partitions, and a shorter table |
| Partitions.CondenseProperties | src-tauri/src/database.rs:251-332 | the condensed table has no two free neighbours, the same total size and the same occupied partitions in order; it is shorter by at least the number of merges; there are no merges exactly when no two neighbours were free, and then the table is unchanged |
| Partitions.CondenseIdempotent | src-tauri/src/database.rs:251-332 | condensing again changes nothing |
| Database.ReadyRows | src-tauri/src/database.rs:630-639 | a row is selected exactly when it is in the table and its state is Ready; the selection keeps id order |
| Database.ReadyRowsStep | src-tauri/src/database.rs:630-639 | the first row, kept when Ready, in front of the selection from the rest keeps the id order |
| Database.NameClashes | src-tauri/src/database.rs:334-354 | the rows that clash are exactly those with that name whose id differs from the given one, when one is given |
| Database.CondensationEntries | src-tauri/src/database.rs:312-320 | one entry per merged partition, in run order, each recording that partition's number and size and the new partition's number and size |
| Database.CondenseLogUnfold | src-tauri/src/database.rs:251-332 | the pass's log is the first merge's entries followed by the log of the rest of the pass, numbered one higher |
| Database.CondenseLogStep | src-tauri/src/database.rs:251-332 | logging the first merge and then the rest of the pass gives the whole pass's log |
| Database.CondenseLogLength | src-tauri/src/database.rs:251-332 | a pass logs one entry per partition that disappears plus one per merge |
| Database.CondenseLogEmpty | src-tauri/src/database.rs:251-332 | a pass logs nothing exactly when no two neighbours are free |
| Database.CondenseLogTargets | src-tauri/src/database.rs:312-320 | every logged entry names a partition created by the pass, numbered from the counter's value up to it plus the number of merges |
| Database.StepEntries | src-tauri/src/database.rs:228-233 | the log row one outer iteration of the compaction writes: none when nothing is exchanged, otherwise the moved partition's number, its old offset and the offset of the free one |
| Database.CompactionEntries | src-tauri/src/database.rs:199-242 | the log rows of the pass from a position to the last, in the order they are written |
| Database.CompactionEntriesStep | src-tauri/src/database.rs:228-236 | the rows logged so far, then those of the rest of the pass, after one iteration |
| Database.CompactionEntriesEmpty | src-tauri/src/database.rs:199-247 | the pass logs nothing exactly when the occupied partitions already come first |
| Database.Place | src-tauri/src/database.rs:106-112 | a process is placed exactly when a free partition can hold it or a new one fits; then its id joins the assigned ids, every occupied partition is kept and the process holds a partition of its size; the memory size is kept |
| Database.AdmitOne | src-tauri/src/database.rs:94-112 | one row of the loop: skipped when its process had a partition at the start; otherwise appended to the placed rows exactly when it can be placed |
| Database.AdmitAll | src-tauri/src/database.rs:94-113 | the loop over the rows in order, each admitted to the store the previous ones left; the memory size is kept |
| Database.Unplaceable | src-tauri/src/database.rs:102-107 | no free partition can hold the process and a new one would not fit |
| Database.AdmitAllPrefix | src-tauri/src/database.rs:94-113 | the rows placed by the first j turns are the first rows placed by the whole loop |
| Database.AdmitAllPlaced | src-tauri/src/database.rs:94-101 | every placed row is one of the rows, and its process had no partition at the start |
| Database.AdmitAllHolds | src-tauri/src/database.rs:106-112 | every placed process is bound to an occupied partition of its own size |
| Database.AdmitAllProgress | src-tauri/src/database.rs:102-113 | a row whose process had no partition at the start is placed, unless at its turn no free partition could hold it and no new one fitted |
| Database.IdsMembers | src-tauri/src/database.rs:94-101 | an id is in the set exactly when some row has it |
| Database.PlacedIdNew | src-tauri/src/database.rs:94-113 | with ids increasing, a Ready row's id is not that of any row placed before it |
| Database.AfterMergesCounter | src-tauri/src/database.rs:299-322 | after j merges the partition-number counter is j higher |
| Database.AfterMergesBumps | src-tauri/src/database.rs:299-322 | j merges raise both the partition-number counter and the condensation counter by j |
| Database.Database.constructor | src-tauri/src/database.rs:39-49 | the state `clear_database` leaves: the process rows stay, in id order, with no partitions and empty logs, so each process holds at most one partition |
| Database.Database.InitConfiguration | src-tauri/src/database.rs:15-23 | the settings hold only a memory size of 50, so every counter reads its default |
| Database.Database.UsedMemory | src-tauri/src/database.rs:121-124 | the used memory is the sum of the partition sizes |
| Database.Database.CanCreateStoragePartition | src-tauri/src/database.rs:736-745 | true exactly when the used memory plus the size fits the memory size |
| Database.Database.CreateStoragePartitionWithPosition | src-tauri/src/database.rs:434-470 | inserts a free partition of that size at that position, numbered with the counter's value, and raises the counter by one |
| Database.Database.DeleteStoragePartitionAt | src-tauri/src/database.rs:525-532 | removes exactly that partition; later ones move one place back |
| Database.Database.CreateStoragePartition | src-tauri/src/database.rs:472-513 | when the size fits, appends a free partition with the next number, raises the counter and returns its position; otherwise returns nothing and changes nothing |
| Database.Database.CreateStoragePartitionFromRemainingSpace | src-tauri/src/database.rs:118-132 | when memory remains, appends a free partition of exactly the remainder, so the table then fills memory; otherwise changes nothing |
| Database.Database.GetEmptyStoragePartition | src-tauri/src/database.rs:134-190 | returns the first free partition large enough; uses it as it is when the size matches exactly and otherwise splits it; the returned position then holds a free partition of exactly the requested size; total size and occupied partitions are unchanged |
| Database.Database.SplitStoragePartition | src-tauri/src/database.rs:159-185 | the table becomes the split table and the counter rises by two |
| Database.Database.InsertProcessIntoStoragePartition | src-tauri/src/database.rs:747-755 | binds the process to that free partition; the process id joins the assigned ids; the occupied partitions gain exactly that one; total size and numbers are kept |
| Database.Database.PlaceProcess | src-tauri/src/database.rs:106-112 | a process is placed exactly when a free partition is large enough or a new one fits; the new table and settings are those of `Place`; the partition used is the first fit whenever there is one, and a new one after the last only when there is none; it is bound to a partition of exactly its size; otherwise nothing changes |
| Database.Database.AddReadyProcess | src-tauri/src/database.rs:94-112 | the new table, settings and placed rows are those of `AdmitOne`; a row whose id was already assigned at the start is skipped; any other is placed exactly when a free partition can hold it or a new one fits, and then holds an occupied partition of its size; the running totals of placed rows stay exact |
| Database.Database.AddReadyRows | src-tauri/src/database.rs:94-113 | the loop over the Ready rows ends with the table, settings and placed rows of `AdmitAll`; every placed row is one of them and had no partition at the start |
| Database.Database.AddProcessesToMemory | src-tauri/src/database.rs:78-116 | returns true exactly when some row was placed; the table, settings and placed rows are those of `AdmitAll` over the Ready rows; every Ready row with no partition at the start is placed unless at its turn nothing could hold it; every placed process holds a partition of its size; with no Ready row nothing changes; the assigned ids grow by exactly the placed ids; each process stays in at most one partition; the table keeps fitting memory |
| Database.Database.DeleteProcessPartitionWithProcessId | src-tauri/src/database.rs:515-523 | the process's assignment is removed and its id leaves the assigned ids; sizes are kept; each process stays in at most one partition |
| Database.Database.CompactPosition | src-tauri/src/database.rs:199-241 | one outer iteration of the compaction: the table becomes `CompactStep` of the old one and the log gains exactly its `StepEntries`; it swaps exactly when the position is free and an occupied partition follows; the compacted prefix grows by one; a swap happens only when the table was not yet compacted |
| Database.Database.CompactRound | src-tauri/src/database.rs:199-241 | one iteration keeps the loop invariant: the rest of the pass leads to the same table and log |
| Database.Database.CompactPass | src-tauri/src/database.rs:199-242 | the loop ends with the table `Compact` of the old one and the log extended by exactly `CompactionEntries`; it reports whether it logged anything |
| Database.Database.SwapProcessPartitionsWithEmptyPartitions | src-tauri/src/database.rs:192-249 | the table becomes `Compact` of the old one and the log gains exactly `CompactionEntries`; afterwards every occupied partition comes before every free one; the table is a permutation with the same occupied partitions in order; the compaction counter rises by one exactly when a swap was needed; an already compacted table is left alone |
| Database.Database.MergeRunAt | src-tauri/src/database.rs:282-323 | the run is replaced by one partition of its total size, numbered with the counter; one log entry is written per merged partition; both the partition counter and the condensation counter rise by one |
| Database.Database.ReplaceRun | src-tauri/src/database.rs:294-309 | the run is deleted and one free partition of the given size is inserted at its first position with the next number |
| Database.Database.LogCondensation | src-tauri/src/database.rs:312-320 | appends exactly the entries for the run and the partition that replaced it |
| Database.Database.MeasureRun | src-tauri/src/database.rs:263-278 | counts the run of free partitions from a position and sums their sizes |
| Database.Database.FindFirstRun | src-tauri/src/database.rs:260-282 | finds the first run of two or more free partitions, with its length and total size |
| Database.Database.MergeFirstRun | src-tauri/src/database.rs:257-326 | when there is a run, the table becomes MergeRun of the first run with the counter's number, and the log so far followed by the rest of the pass's entries is unchanged; one merge fewer is left toward the same condensed table; with no run nothing changes and nothing is left to log |
| Database.Database.MergeRound | src-tauri/src/database.rs:255-331 | one round of the outer loop keeps the loop invariant: the condensed table ahead is the same, and settings and log match the merges done so far |
| Database.Database.RunMerges | src-tauri/src/database.rs:255-331 | the outer loop ends with the table condensed from the counter's value, in the loop state whose counters rose by the number of merges and whose log is the old log followed by the pass's entries |
| Database.Database.MergeStoragePartitions | src-tauri/src/database.rs:251-332 | the table becomes its condensation; afterwards no two neighbours are free; total size and occupied partitions are kept; both counters rise by the number of merges; the log becomes the old log followed by exactly `CondenseLog` of the old table, one entry per merged partition; nothing is merged exactly when no two neighbours were free |
| Database.Database.CheckProcessNameIsUnique | src-tauri/src/database.rs:334-354 | true exactly when every process with that name is the one whose id is given |
| Processes.Process.New | src-tauri/src/model/process.rs:15-23 | keeps the name, time and size, has no id and starts in the waiting state |
| Processes.Process.FromModel | src-tauri/src/model/process.rs:41-49 | copies id, name, time and size from the row, and the state is the one whose number the row stores |
| Processes.Process.HasFinished | src-tauri/src/model/process.rs:25-27 | decided by the state alone, true for Finished, and then a further step changes nothing |
| Processes.Process.Process | src-tauri/src/model/process.rs:29-38 | the state and time become one transition of the old ones; id, name and size are kept; the partition table changes only when Running runs out of time, and then exactly that process's assignment is removed |
| Memory.SumSizes | src-tauri/src/model/memory.rs:28-34 | the `for_each` sum of the sizes; non-negative sizes give a non-negative total |
| Memory.SumSizesAppend | src-tauri/src/model/memory.rs:28-34 | the total of two partition lists one after the other is the sum of their totals |
| Memory.SumSizesBounds | src-tauri/src/model/memory.rs:28-34 | non-negative sizes give a non-negative total that is at least each size |
| Memory.Memory.constructor | src-tauri/src/model/memory.rs:13-26 | one partition per process, in input order, each holding its process and sized by it; an empty list gives no partitions |
| Memory.Memory.GetTotalMemorySize | src-tauri/src/model/memory.rs:28-34 | the sum of the partition sizes, 0 when there are none |

## Left out

- SQLite and diesel plumbing is not modelled: connections, row ids, the `select_*` and `delete_all_*` helpers, the test data of `init_processes`, and the iteration, process and partition log writers. The joined read of partitions and occupants is the `partitions` field. The two logs are sequences that only grow.
- `src-tauri/src/database/statements.rs`, `main.rs` (the UI command handlers and the `start_processor` loop) and the front-end scripts are not part of this model.
- Stored offsets (`position_start`, `position_end`) are not stored. Offsets are prefix sums of the sizes (`Partitions.Start`). The code writes wrong offsets after a split, after a merge and after a swap of non-neighbours, so nothing is claimed about the stored values. Only the correct cases are shown: appends and swaps of neighbours.
- `update_storage_partition_position` is not a separate member. Its effect, the later partitions moving one place on or back, is part of the sequence edits `InsertAt`, `RemoveAt`, `Split` and `MergeRun`.
- The compaction log records derived offsets, not the possibly stale stored ones.
- A partition holds at most one process, as the left join gives it. `Database.Database.InsertProcessIntoStoragePartition` requires a free partition, which the code always passes.
- Integers are unbounded: the 32-bit overflow of the size sums and counters is not modelled.
- Console output (`println!`) is not modelled.
- Configuration.ConfigurationTable.GetMemorySize, Database.Database.CanCreateStoragePartition, Database.Database.CreateStoragePartition, Database.Database.CreateStoragePartitionFromRemainingSpace, Database.Database.PlaceProcess and Database.Database.AddProcessesToMemory: `get_memory_size` unwraps a missing row. That panic is a precondition requiring the memory-size row.
- Processes.Process.Process: unwrapping a missing id when Running finishes is a precondition that the id is present.
- Processes.Process.FromModel: the "State not recognized" panic is a precondition that the stored number is one of the four states.
- Processes.Process.New: `process.rs` starts a new process in a `Pending` state that `state.rs` does not define. The model uses Ready, the state admission selects.
- Processes.Process.HasFinished: `process.rs` calls a `has_finished` that the `State` trait does not declare. The model takes it to be "the state is Finished".
- Processes.Process.Process: the state field is not an `Option`. Every constructor sets it, and `process` takes it and puts it back in the same call.
- Memory.Memory.GetTotalMemorySize consumes the aggregate in the source. The model leaves it in place.
- Database.Database.constructor: the rows must come in increasing id order. The database hands out ids increasingly and the selects read the rows in that order.
