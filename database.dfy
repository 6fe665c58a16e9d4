/**
 * The partition-table engine of `database.rs`. The database is an object
 * whose tables the operations change in place: the partition table (the
 * `storage_partition` rows left-joined with `process_partition`, in position
 * order), the `process` rows, the two logs written by compaction and
 * condensation, and the settings table.
 */
module Database {
  import opened Wrappers
  import opened Configuration
  import opened Partitions
  import opened States

  /** A row of the `process` table; `state` holds the encoded state number. */
  datatype ProcessRow = ProcessRow(id: int, name: string, time: int, size: int, state: int)

  /** A `compaction_log` row: the occupied partition moved, its old and its new start offset. */
  datatype CompactionEntry = CompactionEntry(partition: int, previousPosition: int, finalPosition: int)

  /** A `condensation_log` row: a merged partition and the partition it became part of. */
  datatype CondensationEntry = CondensationEntry(partition: int, partitionSize: int, newPartition: int, newPartitionSize: int)

  /** Rows are kept in the order of their ids, which the database assigns increasingly. */
  predicate IdsIncreasing(rows: seq<ProcessRow>) {
    forall a, b :: 0 <= a < b < |rows| ==> rows[a].id < rows[b].id
  }

  /**
   * `select_processes_with_state(READY)`: the Ready rows, in table order.
   * A row is selected exactly when it is in state Ready, and the selection
   * keeps the id order of the table.
   */
  function ReadyRows(rows: seq<ProcessRow>): (r: seq<ProcessRow>)
    ensures |r| <= |rows|
    ensures forall x :: x in r <==> x in rows && x.state == StateNumber(Ready)
    ensures IdsIncreasing(rows) ==> IdsIncreasing(r)
  {
    if rows == [] then []
    else
      var rest := ReadyRows(rows[1..]);
      ReadyRowsStep(rows, rest);
      (if rows[0].state == StateNumber(Ready) then [rows[0]] else []) + rest
  }

  /** The first row, kept when Ready, in front of the selection from the rest keeps the id order. */
  lemma ReadyRowsStep(rows: seq<ProcessRow>, rest: seq<ProcessRow>)
    requires rows != []
    requires (forall x :: x in rest ==> x in rows[1..]) && (IdsIncreasing(rows[1..]) ==> IdsIncreasing(rest))
    ensures forall x :: x in rows <==> x == rows[0] || x in rows[1..]
    ensures IdsIncreasing(rows) ==> IdsIncreasing((if rows[0].state == StateNumber(Ready) then [rows[0]] else []) + rest)
  {
    assert rows == [rows[0]] + rows[1..];
    if IdsIncreasing(rows) {
      IncreasingSplit(rows);
      if rows[0].state == StateNumber(Ready) {
        IncreasingCons(rows[0], rest);
      } else {
        assert [] + rest == rest;
      }
    }
  }

  /** An increasing sequence is its first row followed by an increasing tail of larger ids. */
  lemma IncreasingSplit(rows: seq<ProcessRow>)
    requires rows != [] && IdsIncreasing(rows)
    ensures IdsIncreasing(rows[1..])
    ensures forall x :: x in rows[1..] ==> rows[0].id < x.id
  {
    var t := rows[1..];
    forall a, b | 0 <= a < b < |t| ensures t[a].id < t[b].id {
      assert t[a] == rows[a + 1] && t[b] == rows[b + 1];
    }
    forall x | x in t ensures rows[0].id < x.id {
      var j :| 0 <= j < |t| && t[j] == x;
      assert rows[j + 1] == x;
    }
  }

  /** A row with a smaller id than every row of an increasing sequence can be put in front of it. */
  lemma IncreasingCons(h: ProcessRow, t: seq<ProcessRow>)
    requires IdsIncreasing(t) && forall x :: x in t ==> h.id < x.id
    ensures IdsIncreasing([h] + t)
  {
    var r := [h] + t;
    forall a, b | 0 <= a < b < |r| ensures r[a].id < r[b].id {
      assert r[b] == t[b - 1];
      if a > 0 {
        assert r[a] == t[a - 1];
      }
    }
  }

  /** The rows named `name`, other than the row `id` when one is given. */
  function NameClashes(rows: seq<ProcessRow>, id: Option<int>, name: string): (r: seq<ProcessRow>)
    ensures forall x :: x in r <==> x in rows && x.name == name && (id.None? || x.id != id.value)
  {
    if rows == [] then []
    else
      var rest := NameClashes(rows[1..], id, name);
      assert forall x :: x in rows <==> x == rows[0] || x in rows[1..];
      if rows[0].name == name && (id.None? || rows[0].id != id.value) then [rows[0]] + rest else rest
  }

  /**
   * The condensation entries for the partitions of `run` merged into
   * partition `number` of `size`: the closed form against which the log
   * written by the merge loop is proved.
   */
  function CondensationEntries(run: seq<Partition>, number: int, size: int): (r: seq<CondensationEntry>)
    ensures |r| == |run|
    ensures forall j :: 0 <= j < |r| ==> r[j] == CondensationEntry(run[j].number, run[j].size, number, size)
  {
    seq(|run|, j requires 0 <= j < |run| => CondensationEntry(run[j].number, run[j].size, number, size))
  }

  /**
   * The `condensation_log` rows of a whole `merge_storage_partitions` pass on
   * table `s` with next partition number `n`: for each merge of `Condense`,
   * in merge order, one entry per partition of the run merged. One entry is
   * written per partition that disappears and one more per merge.
   */
  function CondenseLog(s: seq<Partition>, n: int): seq<CondensationEntry>
    decreases |s|
  {
    match FirstRunFrom(s, 0)
    case None => []
    case Some(i) =>
      var k := RunLength(s, i);
      CondensationEntries(s[i..i + k], n, TotalSize(s[i..i + k])) + CondenseLog(MergeRun(s, i, k, n), n + 1)
  }

  /** A pass that finds a run logs that run's merge first, then the rest of the pass. */
  lemma CondenseLogStep(s: seq<Partition>, n: int, i: nat, k: nat, log: seq<CondensationEntry>, log': seq<CondensationEntry>)
    requires FirstRunFrom(s, 0) == Some(i) && k == RunLength(s, i)
    requires log' == log + CondensationEntries(s[i..i + k], n, TotalSize(s[i..i + k]))
    ensures log' + CondenseLog(MergeRun(s, i, k, n), n + 1) == log + CondenseLog(s, n)
  {
    CondenseLogUnfold(s, n, i, k);
    AppendAssoc(log, CondensationEntries(s[i..i + k], n, TotalSize(s[i..i + k])), CondenseLog(MergeRun(s, i, k, n), n + 1));
  }

  /** The first merge's entries come first in a pass's log. */
  lemma CondenseLogUnfold(s: seq<Partition>, n: int, i: nat, k: nat)
    requires FirstRunFrom(s, 0) == Some(i) && k == RunLength(s, i)
    ensures CondenseLog(s, n) == CondensationEntries(s[i..i + k], n, TotalSize(s[i..i + k])) + CondenseLog(MergeRun(s, i, k, n), n + 1)
  {
  }

  /** Appending is associative; stated for log entries so that the proofs above need not regroup. */
  lemma AppendAssoc(a: seq<CondensationEntry>, b: seq<CondensationEntry>, c: seq<CondensationEntry>)
    ensures (a + b) + c == a + (b + c)
  {
  }

  /** A pass writes one entry per partition that disappears and one more per merge. */
  lemma {:induction false} CondenseLogLength(s: seq<Partition>, n: int)
    ensures |CondenseLog(s, n)| + |Condense(s, n).0| == |s| + Condense(s, n).1
    decreases |s|
  {
    CondenseStep(s, n);
    match FirstRunFrom(s, 0)
    case None =>
    case Some(i) =>
      CondenseLogLength(MergeRun(s, i, RunLength(s, i), n), n + 1);
  }

  /** A pass logs nothing exactly when no two adjacent partitions are free. */
  lemma CondenseLogEmpty(s: seq<Partition>, n: int)
    ensures CondenseLog(s, n) == [] <==> NoAdjacentFree(s)
  {
    CondenseLogLength(s, n);
    CondenseProperties(s, n);
  }

  /** Every entry a pass logs names a partition created by one of its merges, numbered from `n` on. */
  lemma {:induction false} CondenseLogTargets(s: seq<Partition>, n: int)
    ensures forall e :: e in CondenseLog(s, n) ==> n <= e.newPartition < n + Condense(s, n).1
    decreases |s|
  {
    match FirstRunFrom(s, 0)
    case None =>
    case Some(i) =>
      var k := RunLength(s, i);
      var t := MergeRun(s, i, k, n);
      var head := CondensationEntries(s[i..i + k], n, TotalSize(s[i..i + k]));
      var rest := CondenseLog(t, n + 1);
      CondenseLogTargets(t, n + 1);
      CondenseStep(s, n);
      CondenseLogUnfold(s, n, i, k);
      TargetsAppend(head, rest, n, n + 1, n + Condense(s, n).1);
  }

  /** Entries naming partitions in `[lo, mid)` followed by entries naming partitions in `[mid, hi)` name partitions in `[lo, hi)`. */
  lemma TargetsAppend(head: seq<CondensationEntry>, rest: seq<CondensationEntry>, lo: int, mid: int, hi: int)
    requires forall j :: 0 <= j < |head| ==> lo <= head[j].newPartition < mid
    requires forall e :: e in rest ==> mid <= e.newPartition < hi
    requires lo <= mid <= hi
    ensures forall e :: e in head + rest ==> lo <= e.newPartition < hi
  {
    forall e | e in head + rest ensures lo <= e.newPartition < hi {
      if e in head {
        var j :| 0 <= j < |head| && head[j] == e;
      }
    }
  }

  /** The ids of `rows`. */
  function Ids(rows: seq<ProcessRow>): set<int>
  {
    if rows == [] then {} else Ids(rows[..|rows| - 1]) + {rows[|rows| - 1].id}
  }

  /** An id is among the ids of `rows` exactly when some row has it. */
  lemma {:induction false} IdsMembers(rows: seq<ProcessRow>)
    ensures forall id :: id in Ids(rows) <==> exists x :: x in rows && x.id == id
  {
    if rows != [] {
      var init := rows[..|rows| - 1];
      IdsMembers(init);
      assert rows == init + [rows[|rows| - 1]];
    }
  }

  /** Appending a row adds its id. */
  lemma IdsSnoc(rows: seq<ProcessRow>, x: ProcessRow)
    ensures Ids(rows + [x]) == Ids(rows) + {x.id}
  {
    assert (rows + [x])[..|rows|] == rows;
  }

  /** The rows placed so far come from the first `j` Ready rows and had no partition; placing row `j` keeps that. */
  lemma PlacedGrow(placed: seq<ProcessRow>, ready: seq<ProcessRow>, j: nat, taken: set<int>)
    requires j < |ready| && ready[j].id !in taken
    requires forall x :: x in placed ==> x in ready[..j] && x.id !in taken
    ensures forall x :: x in placed + [ready[j]] ==> x in ready[..j + 1] && x.id !in taken
  {
    assert ready[..j + 1] == ready[..j] + [ready[j]];
  }

  /** With ids increasing, row `j` has none of the ids of rows taken from before it. */
  lemma PlacedIdNew(placed: seq<ProcessRow>, ready: seq<ProcessRow>, j: nat)
    requires j < |ready| && IdsIncreasing(ready)
    requires forall x :: x in placed ==> x in ready[..j]
    ensures ready[j].id !in Ids(placed)
  {
    forall x | x in placed ensures x.id != ready[j].id {
      var a :| 0 <= a < j && ready[..j][a] == x;
      assert ready[a] == x;
    }
    IdsMembers(placed);
  }

  /** Skipping row `j` keeps the same. */
  lemma PlacedKeep(placed: seq<ProcessRow>, ready: seq<ProcessRow>, j: nat, taken: set<int>)
    requires j < |ready|
    requires forall x :: x in placed ==> x in ready[..j] && x.id !in taken
    ensures forall x :: x in placed ==> x in ready[..j + 1] && x.id !in taken
  {
    assert ready[..j + 1] == ready[..j] + [ready[j]];
  }

  /** The settings after `j` merges, each of which takes one partition number and counts one condensation. */
  function AfterMerges(m: map<Setting, int>, j: nat): map<Setting, int>
  {
    if j == 0 then m else Bumped(Bumped(AfterMerges(m, j - 1), PartitionConsecutiveNumber, 1), Condensations, 1)
  }

  /** After `j` merges the next partition number is `j` higher. */
  lemma {:induction false} AfterMergesCounter(m: map<Setting, int>, j: nat)
    ensures Counter(AfterMerges(m, j), PartitionConsecutiveNumber) == Counter(m, PartitionConsecutiveNumber) + j
  {
    if j > 0 {
      AfterMergesCounter(m, j - 1);
    }
  }

  /** `j` merges raise the partition number and the condensation count by `j` each and change nothing else. */
  lemma {:induction false} AfterMergesBumps(m: map<Setting, int>, j: nat)
    ensures AfterMerges(m, j) == Bumped(Bumped(m, PartitionConsecutiveNumber, j), Condensations, j)
  {
    if j > 0 {
      AfterMergesBumps(m, j - 1);
      BumpedBoth(m, PartitionConsecutiveNumber, Condensations, j - 1);
    }
  }

  /**
   * The `compaction_log` row written at position `i` of the compaction pass:
   * the number of the occupied partition moved, the offset it started at and
   * the offset of the free partition it changes place with.
   */
  function StepEntries(s: seq<Partition>, i: nat): (r: seq<CompactionEntry>)
    requires i < |s|
    ensures |r| <= 1
    ensures r != [] <==> CompactStep(s, i) != s
  {
    if IsFree(s[i]) && NextOccupied(s, i).Some? then
      var e := NextOccupied(s, i).value;
      assert CompactStep(s, i)[i] == s[e];
      [CompactionEntry(s[e].number, Start(s, e), Start(s, i))]
    else []
  }

  /** The `compaction_log` rows of the pass over positions `i` to the last, in the order they are written. */
  function CompactionEntries(s: seq<Partition>, i: nat): seq<CompactionEntry>
    requires i <= |s|
    decreases |s| - i
  {
    if i == |s| then [] else StepEntries(s, i) + CompactionEntries(CompactStep(s, i), i + 1)
  }

  /** The rows logged so far, then those of the rest of the pass, after position `i` is done. */
  lemma CompactionEntriesStep(log: seq<CompactionEntry>, s: seq<Partition>, i: nat)
    requires i < |s|
    ensures (log + StepEntries(s, i)) + CompactionEntries(CompactStep(s, i), i + 1) == log + CompactionEntries(s, i)
  {
    assert CompactionEntries(s, i) == StepEntries(s, i) + CompactionEntries(CompactStep(s, i), i + 1);
  }

  /** A pass whose first `i` positions are done logs nothing exactly when the occupied partitions already come first. */
  lemma {:induction false} CompactionEntriesEmpty(s: seq<Partition>, i: nat)
    requires i <= |s| && CompactedBefore(s, i)
    ensures CompactionEntries(s, i) == [] <==> OccupiedBeforeFree(s)
    decreases |s| - i
  {
    if i == |s| {
      CompactionDone(s);
    } else if IsFree(s[i]) && NextOccupied(s, i).Some? {
      assert !IsFree(s[NextOccupied(s, i).value]);
    } else {
      CompactionSkipStep(s, i);
      CompactionEntriesEmpty(s, i + 1);
    }
  }

  /** The partition table and the settings: what admitting a process changes. */
  datatype Store = Store(table: seq<Partition>, settings: map<Setting, int>)

  /**
   * Admitting process `row` to `st`: a slot of its size is prepared with the
   * next partition numbers, the process is bound to it and the numbers used
   * are counted; `None` when no free partition can hold it and a new one
   * would not fit.
   */
  function Place(st: Store, row: ProcessRow): (r: Option<Store>)
    requires MemorySize in st.settings
    ensures r.Some? <==> FirstFit(st.table, row.size).Some? || TotalSize(st.table) + row.size <= st.settings[MemorySize]
    ensures r.Some? ==> MemorySize in r.value.settings && r.value.settings[MemorySize] == st.settings[MemorySize]
    ensures r.Some? ==> AssignedPids(r.value.table) == AssignedPids(st.table) + {row.id}
    ensures r.Some? ==> forall q :: q in Occupied(st.table) ==> q in Occupied(r.value.table)
    ensures r.Some? ==> exists q :: q in Occupied(r.value.table) && q.size == row.size && q.occupant == Some(row.id)
  {
    var n := Counter(st.settings, PartitionConsecutiveNumber);
    PrepareProperties(st.table, row.size, n, st.settings[MemorySize]);
    match Prepare(st.table, row.size, n, st.settings[MemorySize])
    case None => None
    case Some(slot) =>
      var t := Bind(slot.table, slot.at, row.id);
      BindKeeps(slot.table, slot.at, row.id);
      BindPids(slot.table, slot.at, row.id);
      assert t[slot.at].size == row.size && t[slot.at].occupant == Some(row.id);
      Some(Store(t, Bumped(st.settings, PartitionConsecutiveNumber, slot.numbers)))
  }

  /** The store after some admissions, and the processes placed, in order. */
  datatype Admission = Admission(store: Store, placed: seq<ProcessRow>)

  /**
   * One row of `add_processes_to_memory`: a process bound when the call began
   * (its id in `taken`) is skipped, any other is placed if it can be.
   */
  function AdmitOne(a: Admission, row: ProcessRow, taken: set<int>): (r: Admission)
    requires MemorySize in a.store.settings
    ensures MemorySize in r.store.settings && r.store.settings[MemorySize] == a.store.settings[MemorySize]
    ensures r == a || r.placed == a.placed + [row]
    ensures r.placed == a.placed + [row] <==>
      row.id !in taken && (FirstFit(a.store.table, row.size).Some? || TotalSize(a.store.table) + row.size <= a.store.settings[MemorySize])
  {
    if row.id in taken then a
    else
      match Place(a.store, row)
      case None => a
      case Some(st) => Admission(st, a.placed + [row])
  }

  /** The rows of `rows`, in order, admitted one after the other to `st`. */
  function AdmitAll(st: Store, rows: seq<ProcessRow>, taken: set<int>): (r: Admission)
    requires MemorySize in st.settings
    ensures MemorySize in r.store.settings && r.store.settings[MemorySize] == st.settings[MemorySize]
    decreases |rows|
  {
    if rows == [] then Admission(st, [])
    else AdmitOne(AdmitAll(st, rows[..|rows| - 1], taken), rows[|rows| - 1], taken)
  }

  /** A process of `row`'s size finds no free partition that can hold it and no room for a new one in `st`. */
  predicate Unplaceable(st: Store, row: ProcessRow)
    requires MemorySize in st.settings
  {
    FirstFit(st.table, row.size).None? && TotalSize(st.table) + row.size > st.settings[MemorySize]
  }

  /** The processes placed after the first `j` rows are the first of those placed after all of them. */
  lemma {:induction false} AdmitAllPrefix(st: Store, rows: seq<ProcessRow>, taken: set<int>, j: nat)
    requires MemorySize in st.settings && j <= |rows|
    ensures AdmitAll(st, rows[..j], taken).placed <= AdmitAll(st, rows, taken).placed
    decreases |rows|
  {
    if j == |rows| {
      assert rows[..j] == rows;
    } else {
      var init := rows[..|rows| - 1];
      assert init[..j] == rows[..j];
      AdmitAllPrefix(st, init, taken, j);
    }
  }

  /** Every placed process is one of the rows and was not bound when the admissions began. */
  lemma {:induction false} AdmitAllPlaced(st: Store, rows: seq<ProcessRow>, taken: set<int>)
    requires MemorySize in st.settings
    ensures forall x :: x in AdmitAll(st, rows, taken).placed ==> x in rows && x.id !in taken
    decreases |rows|
  {
    if rows != [] {
      var init := rows[..|rows| - 1];
      AdmitAllPlaced(st, init, taken);
      assert rows == init + [rows[|rows| - 1]];
    }
  }

  /** Every placed process is bound to an occupied partition of its own size. */
  lemma {:induction false} AdmitAllHolds(st: Store, rows: seq<ProcessRow>, taken: set<int>)
    requires MemorySize in st.settings
    ensures var r := AdmitAll(st, rows, taken);
      forall x :: x in r.placed ==> exists q :: q in Occupied(r.store.table) && q.size == x.size && q.occupant == Some(x.id)
    decreases |rows|
  {
    if rows != [] {
      var init := rows[..|rows| - 1];
      AdmitAllHolds(st, init, taken);
    }
  }

  /**
   * A row whose process was not bound when the admissions began is placed,
   * unless at its turn no free partition could hold it and no new one fitted.
   */
  lemma AdmitAllProgress(st: Store, rows: seq<ProcessRow>, taken: set<int>, j: nat)
    requires MemorySize in st.settings && j < |rows| && rows[j].id !in taken
    ensures rows[j] in AdmitAll(st, rows, taken).placed || Unplaceable(AdmitAll(st, rows[..j], taken).store, rows[j])
  {
    AdmitAllPrefix(st, rows, taken, j + 1);
    assert rows[..j + 1][..j] == rows[..j];
    var before := AdmitAll(st, rows[..j], taken);
    var after := AdmitAll(st, rows[..j + 1], taken);
    if !Unplaceable(before.store, rows[j]) {
      assert after.placed == before.placed + [rows[j]];
      assert after.placed[|before.placed|] == rows[j];
    }
  }

  class Database {
    var partitions: seq<Partition>
    var processes: seq<ProcessRow>
    var compactionLog: seq<CompactionEntry>
    var condensationLog: seq<CondensationEntry>
    const config: ConfigurationTable

    /** Every process id appears once and is bound to at most one partition. */
    ghost predicate Valid()
      reads this
    {
      IdsIncreasing(processes) && OccupantsDistinct(partitions)
    }

    /** Partition numbers are distinct and below the next number the counter will hand out. */
    ghost predicate NumbersFresh()
      reads this, config
    {
      Fresh(partitions, Counter(config.settings, PartitionConsecutiveNumber))
    }

    /** The memory size is set and the partitions fit in it. */
    ghost predicate Fits()
      reads this, config
    {
      MemorySize in config.settings && TotalSize(partitions) <= config.settings[MemorySize]
    }

    /** A database with the given process rows, in the order of their ids, no partitions and empty logs. */
    constructor (settings: ConfigurationTable, rows: seq<ProcessRow>)
      requires IdsIncreasing(rows)
      ensures Valid()
      ensures config == settings && processes == rows
      ensures partitions == [] && compactionLog == [] && condensationLog == []
    {
      config := settings;
      processes := rows;
      partitions := [];
      compactionLog := [];
      condensationLog := [];
    }

    /** `init_configuration`: clears the settings and sets the memory size to 50. */
    method InitConfiguration()
      modifies config
      ensures config.settings == map[MemorySize := 50]
      ensures forall s :: IsCounter(s) ==> Counter(config.settings, s) == Default(s)
    {
      config.ResetConfiguration();
      config.SetMemorySize(50);
    }

    /** The `used_memory` loop: the summed size of all partitions. */
    method UsedMemory() returns (used: int)
      ensures used == TotalSize(partitions)
    {
      used := 0;
      for i := 0 to |partitions|
        invariant used == TotalSize(partitions[..i])
      {
        TotalSizePrefix(partitions, i);
        used := used + partitions[i].size;
      }
      assert partitions[..|partitions|] == partitions;
    }

    /** `can_create_storage_partition`: a partition of `size` still fits in the memory. */
    method CanCreateStoragePartition(size: int) returns (r: bool)
      requires MemorySize in config.settings
      ensures r <==> TotalSize(partitions) + size <= config.settings[MemorySize]
    {
      var used := UsedMemory();
      var capacity := config.GetMemorySize();
      r := used + size <= capacity;
    }

    /**
     * `create_storage_partition_with_position`: a free partition of `size` at
     * `position`, stamped with the current partition number, which is then
     * incremented.
     */
    method CreateStoragePartitionWithPosition(position: nat, size: int)
      requires position <= |partitions|
      modifies this, config
      ensures partitions == InsertAt(old(partitions), position, Partition(Counter(old(config.settings), PartitionConsecutiveNumber), size, None))
      ensures config.settings == Bumped(old(config.settings), PartitionConsecutiveNumber, 1)
      ensures processes == old(processes) && compactionLog == old(compactionLog) && condensationLog == old(condensationLog)
      ensures old(NumbersFresh()) ==> NumbersFresh()
    {
      var n := config.GetCounter(PartitionConsecutiveNumber);
      if old(NumbersFresh()) {
        FreshInsert(partitions, position, Partition(n, size, None), n);
      }
      partitions := InsertAt(partitions, position, Partition(n, size, None));
      config.IncrementCounter(PartitionConsecutiveNumber);
    }

    /** `delete_storage_partition_with_id` on the partition at `position`. */
    method DeleteStoragePartitionAt(position: nat)
      requires position < |partitions|
      modifies this
      ensures partitions == RemoveAt(old(partitions), position)
      ensures processes == old(processes) && compactionLog == old(compactionLog) && condensationLog == old(condensationLog)
    {
      partitions := RemoveAt(partitions, position);
    }

    /**
     * `create_storage_partition`: appends a free partition of `size` after the
     * last one when it still fits in the memory, and returns its position.
     */
    method CreateStoragePartition(size: int) returns (r: Option<nat>)
      requires MemorySize in config.settings
      modifies this, config
      ensures TotalSize(old(partitions)) + size <= old(config.settings)[MemorySize] ==>
        r == Some(|old(partitions)|) &&
        partitions == old(partitions) + [Partition(Counter(old(config.settings), PartitionConsecutiveNumber), size, None)] &&
        config.settings == Bumped(old(config.settings), PartitionConsecutiveNumber, 1)
      ensures TotalSize(old(partitions)) + size > old(config.settings)[MemorySize] ==>
        r == None && partitions == old(partitions) && config.settings == old(config.settings)
      ensures processes == old(processes) && compactionLog == old(compactionLog) && condensationLog == old(condensationLog)
      ensures r.Some? ==> r.value < |partitions| && partitions[r.value] == Partition(partitions[r.value].number, size, None)
      ensures Occupied(partitions) == Occupied(old(partitions))
      ensures old(NumbersFresh()) ==> NumbersFresh()
      ensures old(Fits()) ==> Fits()
    {
      var fits := CanCreateStoragePartition(size);
      if fits {
        var last := |partitions|;
        ghost var s0 := partitions;
        InsertFreeViews(s0, last, Partition(Counter(config.settings, PartitionConsecutiveNumber), size, None));
        CreateStoragePartitionWithPosition(last, size);
        assert InsertAt(s0, last, partitions[last]) == s0 + [partitions[last]];
        TotalSizeConcat(s0, [partitions[last]]);
        assert TotalSize([partitions[last]]) == size;
        r := Some(last);
      } else {
        r := None;
      }
    }

    /** `create_storage_partition_from_remaining_space`: a free partition covering the memory not yet partitioned. */
    method CreateStoragePartitionFromRemainingSpace()
      requires MemorySize in config.settings
      modifies this, config
      ensures TotalSize(old(partitions)) < old(config.settings)[MemorySize] ==>
        partitions == old(partitions) + [Partition(Counter(old(config.settings), PartitionConsecutiveNumber), old(config.settings)[MemorySize] - TotalSize(old(partitions)), None)] &&
        TotalSize(partitions) == old(config.settings)[MemorySize] &&
        config.settings == Bumped(old(config.settings), PartitionConsecutiveNumber, 1)
      ensures TotalSize(old(partitions)) >= old(config.settings)[MemorySize] ==>
        partitions == old(partitions) && config.settings == old(config.settings)
      ensures processes == old(processes) && compactionLog == old(compactionLog) && condensationLog == old(condensationLog)
      ensures old(NumbersFresh()) ==> NumbersFresh()
    {
      var used := UsedMemory();
      var capacity := config.GetMemorySize();
      var remaining := capacity - used;
      if remaining > 0 {
        ghost var s0 := partitions;
        var _ := CreateStoragePartition(remaining);
        TotalSizeConcat(s0, [partitions[|s0|]]);
        assert TotalSize([partitions[|s0|]]) == remaining;
      }
    }

    /**
     * `get_empty_storage_partition`: the first free partition that can hold
     * `request`. An exact fit is returned as it is; a larger one is replaced
     * by a partition of `request` and one with the remainder. Returns the
     * position of the partition the process is to be placed in.
     */
    method GetEmptyStoragePartition(request: int) returns (r: Option<nat>)
      modifies this, config
      ensures r == FirstFit(old(partitions), request)
      ensures r.None? || old(partitions)[r.value].size == request ==>
        partitions == old(partitions) && config.settings == old(config.settings)
      ensures r.Some? && old(partitions)[r.value].size != request ==>
        partitions == Split(old(partitions), r.value, request, Counter(old(config.settings), PartitionConsecutiveNumber)) &&
        config.settings == Bumped(old(config.settings), PartitionConsecutiveNumber, 2)
      ensures r.Some? ==> r.value < |partitions| && IsFree(partitions[r.value]) && partitions[r.value].size == request
      ensures Occupied(partitions) == Occupied(old(partitions)) && TotalSize(partitions) == TotalSize(old(partitions))
      ensures processes == old(processes) && compactionLog == old(compactionLog) && condensationLog == old(condensationLog)
      ensures old(NumbersFresh()) ==> NumbersFresh()
      ensures old(Fits()) ==> Fits()
    {
      var i := 0;
      while i < |partitions|
        invariant 0 <= i <= |partitions|
        invariant partitions == old(partitions) && config.settings == old(config.settings)
        invariant FirstFit(partitions, request) == FirstFitFrom(partitions, request, i)
      {
        var p := partitions[i];
        if IsFree(p) {
          if p.size == request {
            return Some(i);
          } else if p.size > request {
            SplitStoragePartition(i, request);
            return Some(i);
          }
        }
        i := i + 1;
      }
      return None;
    }

    /**
     * The split branch of `get_empty_storage_partition`: deletes the free
     * partition at `position` and creates one of `request` there and one
     * with the remainder right after it.
     */
    method SplitStoragePartition(position: nat, request: int)
      requires position < |partitions| && IsFree(partitions[position]) && partitions[position].size > request
      modifies this, config
      ensures partitions == Split(old(partitions), position, request, Counter(old(config.settings), PartitionConsecutiveNumber))
      ensures config.settings == Bumped(old(config.settings), PartitionConsecutiveNumber, 2)
      ensures Occupied(partitions) == Occupied(old(partitions)) && TotalSize(partitions) == TotalSize(old(partitions))
      ensures processes == old(processes) && compactionLog == old(compactionLog) && condensationLog == old(condensationLog)
      ensures old(NumbersFresh()) ==> NumbersFresh()
    {
      ghost var s0, m0 := partitions, config.settings;
      ghost var n := Counter(m0, PartitionConsecutiveNumber);
      ghost var a := Partition(n, request, None);
      var size := partitions[position].size;
      ghost var b := Partition(n + 1, size - request, None);
      DeleteStoragePartitionAt(position);
      CreateStoragePartitionWithPosition(position, request);
      assert partitions == InsertAt(RemoveAt(s0, position), position, a);
      assert Counter(config.settings, PartitionConsecutiveNumber) == n + 1;
      CreateStoragePartitionWithPosition(position + 1, size - request);
      // The later partitions already sit one position up: positions are indices.
      SplitAsEdits(s0, position, a, b);
      BumpedAgain(m0, PartitionConsecutiveNumber, 1);
      SplitViews(s0, position, a, b);
      if Fresh(s0, n) {
        SplitFresh(s0, position, request, n);
      }
    }

    /** `insert_process_into_storage_partition`: binds process `pid` to the free partition at `position`. */
    method InsertProcessIntoStoragePartition(pid: int, position: nat)
      requires position < |partitions| && IsFree(partitions[position])
      modifies this
      ensures partitions == Bind(old(partitions), position, pid)
      ensures processes == old(processes) && compactionLog == old(compactionLog) && condensationLog == old(condensationLog)
      ensures AssignedPids(partitions) == AssignedPids(old(partitions)) + {pid}
      ensures multiset(Occupied(partitions)) == multiset(Occupied(old(partitions))) + multiset{partitions[position]}
      ensures |Occupied(partitions)| == |Occupied(old(partitions))| + 1
      ensures TotalSize(partitions) == TotalSize(old(partitions))
      ensures old(Valid()) && pid !in AssignedPids(old(partitions)) ==> Valid()
      ensures forall n :: Fresh(old(partitions), n) ==> Fresh(partitions, n)
    {
      BindPids(partitions, position, pid);
      BindOccupied(partitions, position, pid);
      BindTotalSize(partitions, position, pid);
      forall n | Fresh(partitions, n) ensures Fresh(Bind(partitions, position, pid), n) {
        FreshBind(partitions, position, pid, n);
      }
      if old(Valid()) && pid !in AssignedPids(partitions) {
        BindDistinct(partitions, position, pid);
      }
      partitions := Bind(partitions, position, pid);
    }

    /**
     * The body of the `add_processes_to_memory` loop for one process: the
     * first free partition that can hold it (split to its size), or else a
     * new partition of its size at the end when it still fits in the memory;
     * the process is then bound to that partition.
     */
    method PlaceProcess(row: ProcessRow) returns (placed: bool, ghost at: nat)
      requires MemorySize in config.settings
      modifies this, config
      ensures placed <==> FirstFit(old(partitions), row.size).Some? || TotalSize(old(partitions)) + row.size <= old(config.settings)[MemorySize]
      ensures placed ==> Place(Store(old(partitions), old(config.settings)), row) == Some(Store(partitions, config.settings))
      ensures FirstFit(old(partitions), row.size).Some? ==> at == FirstFit(old(partitions), row.size).value
      ensures FirstFit(old(partitions), row.size).None? && placed ==> at == |old(partitions)|
      ensures placed ==> at < |partitions| && partitions[at] == Partition(partitions[at].number, row.size, Some(row.id))
      ensures placed ==> AssignedPids(partitions) == AssignedPids(old(partitions)) + {row.id}
      ensures placed ==> multiset(Occupied(partitions)) == multiset(Occupied(old(partitions))) + multiset{partitions[at]}
      ensures placed ==> |Occupied(partitions)| == |Occupied(old(partitions))| + 1
      ensures !placed ==> partitions == old(partitions) && config.settings == old(config.settings)
      ensures processes == old(processes) && compactionLog == old(compactionLog) && condensationLog == old(condensationLog)
      ensures MemorySize in config.settings && config.settings[MemorySize] == old(config.settings)[MemorySize]
      ensures old(Valid()) && row.id !in AssignedPids(old(partitions)) ==> Valid()
      ensures old(Fits()) ==> Fits()
      ensures old(NumbersFresh()) ==> NumbersFresh()
    {
      ghost var st := Store(partitions, config.settings);
      PrepareProperties(st.table, row.size, Counter(st.settings, PartitionConsecutiveNumber), st.settings[MemorySize]);
      var r := GetEmptyStoragePartition(row.size);
      if r.None? {
        r := CreateStoragePartition(row.size);
      }
      ghost var slot := Prepare(st.table, row.size, Counter(st.settings, PartitionConsecutiveNumber), st.settings[MemorySize]);
      assert r.Some? ==>
        slot.Some? && partitions == slot.value.table && r.value == slot.value.at &&
        config.settings == Bumped(st.settings, PartitionConsecutiveNumber, slot.value.numbers);
      if r.Some? {
        InsertProcessIntoStoragePartition(row.id, r.value);
        placed, at := true, r.value;
      } else {
        placed, at := false, 0;
      }
    }

    /**
     * The state of the `add_processes_to_memory` loop: the processes bound
     * are those bound at the start (`taken`) and the ones `placed` since, and
     * the memory size and whichever of the invariants held at the start still
     * hold.
     */
    ghost predicate Adding(taken: set<int>, placed: seq<ProcessRow>, occupied0: nat, memory: int, valid0: bool, fits0: bool, fresh0: bool)
      reads this, config
    {
      AssignedPids(partitions) == taken + Ids(placed) &&
      |Occupied(partitions)| == occupied0 + |placed| &&
      MemorySize in config.settings && config.settings[MemorySize] == memory &&
      (valid0 ==> Valid()) && (fits0 ==> Fits()) && (fresh0 ==> NumbersFresh())
    }

    /**
     * The body of the `add_processes_to_memory` loop for one Ready row: a
     * process that had a partition when the call began is skipped, any other
     * is placed if it can be.
     */
    method AddReadyProcess(row: ProcessRow, taken: set<int>, ghost placed: seq<ProcessRow>, ghost occupied0: nat, ghost memory: int,
                           ghost valid0: bool, ghost fits0: bool, ghost fresh0: bool)
      returns (ok: bool)
      requires Adding(taken, placed, occupied0, memory, valid0, fits0, fresh0)
      requires valid0 ==> row.id !in Ids(placed)
      modifies this, config
      ensures Admission(Store(partitions, config.settings), if ok then placed + [row] else placed) ==
        AdmitOne(Admission(Store(old(partitions), old(config.settings)), placed), row, taken)
      ensures ok ==> row.id !in taken
      ensures row.id !in taken ==>
        (ok <==> FirstFit(old(partitions), row.size).Some? || TotalSize(old(partitions)) + row.size <= memory)
      ensures ok ==> exists q :: q in Occupied(partitions) && q.size == row.size && q.occupant == Some(row.id)
      ensures Adding(taken, if ok then placed + [row] else placed, occupied0, memory, valid0, fits0, fresh0)
      ensures processes == old(processes) && compactionLog == old(compactionLog) && condensationLog == old(condensationLog)
    {
      if row.id in taken {
        return false;
      }
      ghost var at;
      ok, at := PlaceProcess(row);
      if ok {
        IdsSnoc(placed, row);
      }
    }

    /**
     * `add_processes_to_memory`: places every Ready process that had no
     * partition when the call began, in id order, and reports whether it
     * placed any. `placed` lists the processes placed, in that order.
     */
    method AddProcessesToMemory() returns (added: bool, ghost placed: seq<ProcessRow>)
      requires MemorySize in config.settings
      modifies this, config
      ensures added <==> placed != []
      ensures Admission(Store(partitions, config.settings), placed) ==
        AdmitAll(Store(old(partitions), old(config.settings)), ReadyRows(old(processes)), AssignedPids(old(partitions)))
      ensures forall j :: 0 <= j < |ReadyRows(old(processes))| && ReadyRows(old(processes))[j].id !in AssignedPids(old(partitions)) ==>
        ReadyRows(old(processes))[j] in placed ||
        Unplaceable(AdmitAll(Store(old(partitions), old(config.settings)), ReadyRows(old(processes))[..j], AssignedPids(old(partitions))).store,
                    ReadyRows(old(processes))[j])
      ensures forall x :: x in placed ==> exists q :: q in Occupied(partitions) && q.size == x.size && q.occupant == Some(x.id)
      ensures ReadyRows(old(processes)) == [] ==> partitions == old(partitions) && config.settings == old(config.settings)
      ensures forall x :: x in placed ==> x in ReadyRows(old(processes)) && x.id !in AssignedPids(old(partitions))
      ensures AssignedPids(partitions) == AssignedPids(old(partitions)) + Ids(placed)
      ensures |Occupied(partitions)| == |Occupied(old(partitions))| + |placed|
      ensures processes == old(processes) && compactionLog == old(compactionLog) && condensationLog == old(condensationLog)
      ensures old(Valid()) ==> Valid()
      ensures old(Fits()) ==> Fits()
      ensures old(NumbersFresh()) ==> NumbersFresh()
    {
      var ready := ReadyRows(processes);
      var taken := AssignedPids(partitions);
      placed := [];
      if |ready| == 0 {
        return false, placed;
      }
      ghost var valid0, fits0, fresh0 := Valid(), Fits(), NumbersFresh();
      ghost var occupied0, memory := |Occupied(partitions)|, config.settings[MemorySize];
      ghost var st := Store(partitions, config.settings);
      added, placed := AddReadyRows(ready, taken, occupied0, memory, valid0, fits0, fresh0);
      AdmitAllHolds(st, ready, taken);
      forall j | 0 <= j < |ready| && ready[j].id !in taken
        ensures ready[j] in placed || Unplaceable(AdmitAll(st, ready[..j], taken).store, ready[j])
      {
        AdmitAllProgress(st, ready, taken, j);
      }
    }

    /**
     * The `add_processes_to_memory` loop over the Ready rows `ready`, in
     * order, with `taken` the processes bound when the call began.
     */
    method AddReadyRows(ready: seq<ProcessRow>, taken: set<int>, ghost occupied0: nat, ghost memory: int,
                        ghost valid0: bool, ghost fits0: bool, ghost fresh0: bool)
      returns (added: bool, ghost placed: seq<ProcessRow>)
      requires Adding(taken, [], occupied0, memory, valid0, fits0, fresh0)
      requires valid0 ==> IdsIncreasing(ready)
      modifies this, config
      ensures added <==> placed != []
      ensures Admission(Store(partitions, config.settings), placed) == AdmitAll(Store(old(partitions), old(config.settings)), ready, taken)
      ensures forall x :: x in placed ==> x in ready && x.id !in taken
      ensures Adding(taken, placed, occupied0, memory, valid0, fits0, fresh0)
      ensures processes == old(processes) && compactionLog == old(compactionLog) && condensationLog == old(condensationLog)
    {
      ghost var st := Store(partitions, config.settings);
      added, placed := false, [];
      for j := 0 to |ready|
        invariant added <==> placed != []
        invariant Admission(Store(partitions, config.settings), placed) == AdmitAll(st, ready[..j], taken)
        invariant forall x :: x in placed ==> x in ready[..j] && x.id !in taken
        invariant Adding(taken, placed, occupied0, memory, valid0, fits0, fresh0)
        invariant processes == old(processes) && compactionLog == old(compactionLog) && condensationLog == old(condensationLog)
      {
        assert ready[..j + 1][..j] == ready[..j];
        if valid0 {
          PlacedIdNew(placed, ready, j);
        }
        var ok := AddReadyProcess(ready[j], taken, placed, occupied0, memory, valid0, fits0, fresh0);
        if ok {
          added := true;
          PlacedGrow(placed, ready, j, taken);
          placed := placed + [ready[j]];
        } else {
          PlacedKeep(placed, ready, j, taken);
        }
      }
      assert ready[..|ready|] == ready;
    }

    /** `delete_process_partition_with_process_id`: the partition of `pid`, if any, becomes free. */
    method DeleteProcessPartitionWithProcessId(pid: int)
      modifies this
      ensures partitions == Released(old(partitions), pid)
      ensures processes == old(processes) && compactionLog == old(compactionLog) && condensationLog == old(condensationLog)
      ensures AssignedPids(partitions) == AssignedPids(old(partitions)) - {pid}
      ensures TotalSize(partitions) == TotalSize(old(partitions))
      ensures old(Valid()) ==> Valid()
    {
      ReleasedPids(partitions, pid);
      ReleasedTotalSize(partitions, pid);
      if OccupantsDistinct(partitions) {
        ReleasedDistinct(partitions, pid);
      }
      partitions := Released(partitions, pid);
    }

    /**
     * One position `i` of the compaction pass: when the partition there is
     * free, it is exchanged with the nearest later occupied partition, if
     * any, and the exchange is logged.
     */
    method CompactPosition(i: nat, ghost n: int) returns (swapped: bool)
      requires i < |partitions| && CompactedBefore(partitions, i)
      modifies this
      ensures partitions == CompactStep(old(partitions), i)
      ensures compactionLog == old(compactionLog) + StepEntries(old(partitions), i)
      ensures swapped <==> IsFree(old(partitions)[i]) && NextOccupied(old(partitions), i).Some?
      ensures |partitions| == |old(partitions)| && CompactedBefore(partitions, i + 1)
      ensures Fresh(old(partitions), n) ==> Fresh(partitions, n)
      ensures swapped ==> !OccupiedBeforeFree(old(partitions))
      ensures swapped ==> |compactionLog| == |old(compactionLog)| + 1 && compactionLog[..|old(compactionLog)|] == old(compactionLog)
      ensures !swapped ==> partitions == old(partitions) && compactionLog == old(compactionLog)
      ensures processes == old(processes) && condensationLog == old(condensationLog)
    {
      swapped := false;
      var len := |partitions|;
      if IsFree(partitions[i]) {
        // From the free partition, look for the next occupied one.
        var e := i;
        while e < len && IsFree(partitions[e])
          invariant i <= e <= len
          invariant forall m :: i <= m < e ==> IsFree(partitions[m])
          invariant NextOccupied(partitions, i) == NextOccupied(partitions, e)
        {
          e := e + 1;
        }
        if e < len {
          var s := partitions;
          CompactionSwapStep(s, i, e);
          SwapOccupied(s, i, e);
          SwapPermutes(s, i, e);
          SwapTotalSize(s, i, e);
          if Fresh(s, n) {
            FreshSwap(s, i, e, n);
          }
          compactionLog := compactionLog + [CompactionEntry(s[e].number, Start(s, e), Start(s, i))];
          partitions := Swap(s, i, e);
          swapped := true;
        } else {
          CompactionSkipStep(partitions, i);
        }
      } else {
        CompactionSkipStep(partitions, i);
      }
    }

    /**
     * `swap_process_partitions_with_empty_partitions`: one pass in position
     * order that exchanges every free partition with the nearest later
     * occupied one, logging each exchange, and counts one compaction when it
     * exchanged anything.
     */
    method SwapProcessPartitionsWithEmptyPartitions()
      modifies this, config
      ensures partitions == Compact(old(partitions), 0)
      ensures compactionLog == old(compactionLog) + CompactionEntries(old(partitions), 0)
      ensures OccupiedBeforeFree(partitions)
      ensures |partitions| == |old(partitions)| && multiset(partitions) == multiset(old(partitions))
      ensures Occupied(partitions) == Occupied(old(partitions))
      ensures TotalSize(partitions) == TotalSize(old(partitions))
      ensures OccupiedBeforeFree(old(partitions)) ==> partitions == old(partitions) && compactionLog == old(compactionLog)
      ensures config.settings == if OccupiedBeforeFree(old(partitions)) then old(config.settings) else Bumped(old(config.settings), Compactions, 1)
      ensures |compactionLog| >= |old(compactionLog)| && compactionLog[..|old(compactionLog)|] == old(compactionLog)
      ensures |compactionLog| > |old(compactionLog)| <==> !OccupiedBeforeFree(old(partitions))
      ensures processes == old(processes) && condensationLog == old(condensationLog)
      ensures old(NumbersFresh()) ==> NumbersFresh()
      ensures old(Valid()) ==> Valid()
    {
      ghost var s0, next := partitions, Counter(config.settings, PartitionConsecutiveNumber);
      var made := CompactPass(next);
      assert made <==> !OccupiedBeforeFree(s0) by {
        CompactionEntriesEmpty(s0, 0);
      }
      assert OccupiedBeforeFree(s0) ==> partitions == s0 by {
        CompactFixpoints(s0);
      }
      assert OccupiedBeforeFree(partitions) && multiset(partitions) == multiset(s0) &&
             Occupied(partitions) == Occupied(s0) && TotalSize(partitions) == TotalSize(s0) by {
        CompactFrom(s0, 0);
      }
      if made {
        config.IncrementCounter(Compactions);
      }
    }

    /** The loop of the compaction pass: reports whether it exchanged any partitions. */
    method CompactPass(ghost next: int) returns (made: bool)
      modifies this
      ensures partitions == Compact(old(partitions), 0)
      ensures compactionLog == old(compactionLog) + CompactionEntries(old(partitions), 0)
      ensures made <==> |compactionLog| > |old(compactionLog)|
      ensures Fresh(old(partitions), next) ==> Fresh(partitions, next)
      ensures processes == old(processes) && condensationLog == old(condensationLog)
    {
      made := false;
      for i := 0 to |partitions|
        invariant Compacting(old(partitions), old(compactionLog), next, i)
        invariant made <==> |compactionLog| > |old(compactionLog)|
        invariant processes == old(processes) && condensationLog == old(condensationLog)
      {
        var swapped := CompactRound(old(partitions), old(compactionLog), next, i);
        if swapped {
          made := true;
        }
      }
    }

    /**
     * The state of the compaction pass before position `i`, started on table
     * `s0` with log `log0`: the first `i` positions are done, and the rest of
     * the pass leads to the whole pass's table and log.
     */
    ghost predicate Compacting(s0: seq<Partition>, log0: seq<CompactionEntry>, next: int, i: nat)
      reads this
    {
      |partitions| == |s0| && i <= |s0| && CompactedBefore(partitions, i) &&
      Compact(partitions, i) == Compact(s0, 0) &&
      compactionLog + CompactionEntries(partitions, i) == log0 + CompactionEntries(s0, 0) &&
      |compactionLog| >= |log0| &&
      (Fresh(s0, next) ==> Fresh(partitions, next))
    }

    /** One position of the compaction pass, stated against the whole pass. */
    method CompactRound(ghost s0: seq<Partition>, ghost log0: seq<CompactionEntry>, ghost next: int, i: nat) returns (swapped: bool)
      requires i < |partitions| && Compacting(s0, log0, next, i)
      modifies this
      ensures Compacting(s0, log0, next, i + 1)
      ensures |compactionLog| >= |old(compactionLog)|
      ensures swapped <==> |compactionLog| > |old(compactionLog)|
      ensures processes == old(processes) && condensationLog == old(condensationLog)
    {
      ghost var log, s := compactionLog, partitions;
      swapped := CompactPosition(i, next);
      CompactionEntriesStep(log, s, i);
    }

    /**
     * The merge branch of `merge_storage_partitions`: deletes the `k` free
     * partitions starting at `position`, creates one partition of their summed
     * `size` there, logs one condensation entry per deleted partition and
     * counts one condensation.
     */
    method MergeRunAt(position: nat, k: nat, size: int)
      requires position + k <= |partitions| && k >= 1
      requires size == TotalSize(partitions[position..position + k])
      modifies this, config
      ensures partitions == MergeRun(old(partitions), position, k, Counter(old(config.settings), PartitionConsecutiveNumber))
      ensures config.settings == Bumped(Bumped(old(config.settings), PartitionConsecutiveNumber, 1), Condensations, 1)
      ensures condensationLog == old(condensationLog) +
        CondensationEntries(old(partitions)[position..position + k], Counter(old(config.settings), PartitionConsecutiveNumber), size)
      ensures processes == old(processes) && compactionLog == old(compactionLog)
      ensures old(NumbersFresh()) ==> NumbersFresh()
    {
      var run := partitions[position..position + k];
      ReplaceRun(position, k, size);
      LogCondensation(run, partitions[position]);
      config.IncrementCounter(Condensations);
    }

    /** The deletions and the creation of a merge. */
    method ReplaceRun(position: nat, k: nat, size: int)
      requires position + k <= |partitions|
      modifies this, config
      ensures partitions == old(partitions)[..position] + ([Partition(Counter(old(config.settings), PartitionConsecutiveNumber), size, None)] + old(partitions)[position + k..])
      ensures config.settings == Bumped(old(config.settings), PartitionConsecutiveNumber, 1)
      ensures processes == old(processes) && compactionLog == old(compactionLog) && condensationLog == old(condensationLog)
      ensures old(NumbersFresh()) ==> NumbersFresh()
    {
      ghost var s0 := partitions;
      ghost var n := Counter(config.settings, PartitionConsecutiveNumber);
      for j := 0 to k
        invariant partitions == s0[..position] + s0[position + j..]
        invariant config.settings == old(config.settings) && condensationLog == old(condensationLog)
        invariant processes == old(processes) && compactionLog == old(compactionLog)
      {
        RemoveAgain(s0, position, j);
        DeleteStoragePartitionAt(position);
      }
      CreateStoragePartitionWithPosition(position, size);
      // The later partitions already sit k - 1 positions down: positions are indices.
      MergeAsEdits(s0, position, k, Partition(n, size, None));
      if Fresh(s0, n) {
        FreshDropRun(s0, position, k, n);
        FreshInsert(s0[..position] + s0[position + k..], position, Partition(n, size, None), n);
      }
    }

    /** The condensation log entries of a merge, one per merged partition. */
    method LogCondensation(run: seq<Partition>, created: Partition)
      modifies this
      ensures condensationLog == old(condensationLog) + CondensationEntries(run, created.number, created.size)
      ensures partitions == old(partitions) && processes == old(processes) && compactionLog == old(compactionLog)
    {
      for j := 0 to |run|
        invariant condensationLog == old(condensationLog) + CondensationEntries(run[..j], created.number, created.size)
        invariant partitions == old(partitions) && processes == old(processes) && compactionLog == old(compactionLog)
      {
        assert CondensationEntries(run[..j + 1], created.number, created.size) ==
          CondensationEntries(run[..j], created.number, created.size) + [CondensationEntry(run[j].number, run[j].size, created.number, created.size)];
        condensationLog := condensationLog + [CondensationEntry(run[j].number, run[j].size, created.number, created.size)];
      }
      assert run[..|run|] == run;
    }

    /**
     * The inner scan of `merge_storage_partitions`: the number of consecutive
     * free partitions from `position` and their summed size.
     */
    method MeasureRun(position: nat) returns (changed: nat, newSize: int)
      requires position < |partitions|
      ensures changed == RunLength(partitions, position)
      ensures newSize == TotalSize(partitions[position..position + changed])
    {
      newSize, changed := 0, 0;
      var e := position;
      while e < |partitions| && IsFree(partitions[e])
        invariant position <= e <= |partitions|
        invariant forall m :: position <= m < e ==> IsFree(partitions[m])
        invariant changed == e - position && newSize == TotalSize(partitions[position..e])
      {
        RunSizeStep(partitions, position, e);
        newSize := newSize + partitions[e].size;
        changed := changed + 1;
        e := e + 1;
      }
      RunLengthExact(partitions, position, e);
    }

    /**
     * The scan of one round of the `merge_storage_partitions` loop: the first
     * free partition, in position order, that starts a run of two or more,
     * with the run's length and summed size.
     */
    method FindFirstRun() returns (found: Option<nat>, changed: nat, newSize: int)
      ensures found == FirstRunFrom(partitions, 0)
      ensures found.Some? ==> found.value + changed <= |partitions|
      ensures found.Some? ==> changed == RunLength(partitions, found.value) && newSize == TotalSize(partitions[found.value..found.value + changed])
    {
      var i := 0;
      while i < |partitions|
        invariant 0 <= i <= |partitions|
        invariant FirstRunFrom(partitions, 0) == FirstRunFrom(partitions, i)
      {
        if IsFree(partitions[i]) {
          changed, newSize := MeasureRun(i);
          if changed > 1 {
            return Some(i), changed, newSize;
          }
        }
        i := i + 1;
      }
      return None, 0, 0;
    }

    /**
     * One round of the `merge_storage_partitions` loop: merges the first run
     * of two or more free partitions, if there is one, and reports whether it
     * merged. A round that merges leaves the rest of the condensation to the
     * next rounds; one that does not leaves a table with nothing to condense.
     */
    method MergeFirstRun() returns (merged: bool)
      modifies this, config
      ensures merged <==> FirstRunFrom(old(partitions), 0).Some?
      ensures !merged ==> partitions == old(partitions) && config.settings == old(config.settings) && condensationLog == old(condensationLog)
      ensures merged ==> config.settings == Bumped(Bumped(old(config.settings), PartitionConsecutiveNumber, 1), Condensations, 1)
      ensures merged ==> |partitions| < |old(partitions)| && |condensationLog| + |partitions| == |old(condensationLog)| + |old(partitions)| + 1
      ensures merged ==>
        var c := Counter(old(config.settings), PartitionConsecutiveNumber);
        Condense(partitions, c + 1).0 == Condense(old(partitions), c).0 && Condense(partitions, c + 1).1 + 1 == Condense(old(partitions), c).1
      ensures !merged ==> Condense(partitions, Counter(old(config.settings), PartitionConsecutiveNumber)) == (partitions, 0)
      ensures merged ==>
        var c := Counter(old(config.settings), PartitionConsecutiveNumber);
        var i := FirstRunFrom(old(partitions), 0).value;
        var k := RunLength(old(partitions), i);
        partitions == MergeRun(old(partitions), i, k, c)
      ensures merged ==>
        var c := Counter(old(config.settings), PartitionConsecutiveNumber);
        condensationLog + CondenseLog(partitions, c + 1) == old(condensationLog) + CondenseLog(old(partitions), c)
      ensures !merged ==> CondenseLog(partitions, Counter(old(config.settings), PartitionConsecutiveNumber)) == []
      ensures condensationLog[..|old(condensationLog)|] == old(condensationLog)
      ensures processes == old(processes) && compactionLog == old(compactionLog)
      ensures old(NumbersFresh()) ==> NumbersFresh()
    {
      var found, changed, newSize := FindFirstRun();
      CondenseStep(partitions, Counter(config.settings, PartitionConsecutiveNumber));
      if found.None? {
        return false;
      }
      ghost var s0, log0, c := partitions, condensationLog, Counter(config.settings, PartitionConsecutiveNumber);
      var i, k := found.value, changed;
      ghost var size := TotalSize(s0[i..i + k]);
      assert newSize == size;
      MergeRunAt(i, k, newSize);
      assert partitions == MergeRun(s0, i, k, c);
      assert condensationLog == log0 + CondensationEntries(s0[i..i + k], c, size);
      CondenseAfterMerge(s0, c);
      CondenseLogStep(s0, c, i, k, log0, condensationLog);
      return true;
    }

    /**
     * `merge_storage_partitions`: merges the first run of adjacent free
     * partitions, rescanning after every merge, until a scan merges nothing.
     * The table ends as its condensation numbered from the counter's current
     * value; `merges` is the number of condensations counted.
     */
    method MergeStoragePartitions() returns (ghost merges: nat)
      modifies this, config
      ensures (partitions, merges) == Condense(old(partitions), Counter(old(config.settings), PartitionConsecutiveNumber))
      ensures config.settings == Bumped(Bumped(old(config.settings), PartitionConsecutiveNumber, merges), Condensations, merges)
      ensures NoAdjacentFree(partitions)
      ensures TotalSize(partitions) == TotalSize(old(partitions)) && Occupied(partitions) == Occupied(old(partitions))
      ensures merges == 0 <==> NoAdjacentFree(old(partitions))
      ensures |partitions| + merges <= |old(partitions)|
      ensures condensationLog == old(condensationLog) + CondenseLog(old(partitions), Counter(old(config.settings), PartitionConsecutiveNumber))
      ensures |condensationLog| == |old(condensationLog)| + |old(partitions)| - |partitions| + merges
      ensures processes == old(processes) && compactionLog == old(compactionLog)
      ensures old(Valid()) ==> Valid()
      ensures old(Fits()) ==> Fits()
      ensures old(NumbersFresh()) ==> NumbersFresh()
    {
      ghost var s0, m0, log0 := partitions, config.settings, condensationLog;
      ghost var c := Counter(m0, PartitionConsecutiveNumber);
      CondenseProperties(s0, c);
      merges := RunMerges();
      assert config.settings == Bumped(Bumped(m0, PartitionConsecutiveNumber, merges), Condensations, merges) by {
        AfterMergesBumps(m0, merges);
      }
      assert condensationLog == log0 + CondenseLog(s0, c) by {
        assert condensationLog + [] == condensationLog;
      }
      assert |condensationLog| == |log0| + |s0| - |partitions| + merges by {
        CondenseLogLength(s0, c);
      }
    }

    /**
     * The loop of `merge_storage_partitions`: one round per scan, until a scan
     * finds no run to merge. It ends in the state `Merging` describes with
     * the whole condensation done and nothing left to log.
     */
    method RunMerges() returns (ghost merges: nat)
      modifies this, config
      ensures
        var target := Condense(old(partitions), Counter(old(config.settings), PartitionConsecutiveNumber));
        Merging(old(partitions), old(config.settings), old(condensationLog), target, merges) &&
        partitions == target.0 && merges == target.1
      ensures CondenseLog(partitions, Counter(config.settings, PartitionConsecutiveNumber)) == []
      ensures processes == old(processes) && compactionLog == old(compactionLog)
      ensures old(NumbersFresh()) ==> NumbersFresh()
    {
      ghost var s0, m0, log0 := partitions, config.settings, condensationLog;
      ghost var target := Condense(s0, Counter(m0, PartitionConsecutiveNumber));
      merges := 0;
      var finished := false;
      while !finished
        invariant Merging(s0, m0, log0, target, merges)
        invariant finished ==> partitions == target.0 && merges == target.1
        invariant finished ==> CondenseLog(partitions, Counter(config.settings, PartitionConsecutiveNumber)) == []
        invariant processes == old(processes) && compactionLog == old(compactionLog)
        invariant old(NumbersFresh()) ==> NumbersFresh()
        decreases |partitions| + (if finished then 0 else 1)
      {
        var merged := MergeRound(s0, m0, log0, target, merges);
        if merged {
          merges := merges + 1;
        }
        finished := !merged;
      }
    }

    /**
     * The state of the `merge_storage_partitions` loop after `merges` rounds
     * that merged, started from table `s0`, settings `m0` and log `log0`:
     * the counters moved on by `merges`, what is left to condense still ends
     * in `target`, and the log so far followed by the rest of the pass's
     * entries is the whole pass's log.
     */
    ghost predicate Merging(s0: seq<Partition>, m0: map<Setting, int>, log0: seq<CondensationEntry>, target: (seq<Partition>, nat), merges: nat)
      reads this, config
    {
      var rest := Condense(partitions, Counter(config.settings, PartitionConsecutiveNumber));
      config.settings == AfterMerges(m0, merges) &&
      rest.0 == target.0 && rest.1 + merges == target.1 &&
      condensationLog + CondenseLog(partitions, Counter(config.settings, PartitionConsecutiveNumber)) ==
        log0 + CondenseLog(s0, Counter(m0, PartitionConsecutiveNumber))
    }

    /** One round of the `merge_storage_partitions` loop, stated as the loop's progress. */
    method MergeRound(ghost s0: seq<Partition>, ghost m0: map<Setting, int>, ghost log0: seq<CondensationEntry>, ghost target: (seq<Partition>, nat), ghost merges: nat)
      returns (merged: bool)
      requires Merging(s0, m0, log0, target, merges)
      modifies this, config
      ensures merged ==> Merging(s0, m0, log0, target, merges + 1) && |partitions| < |old(partitions)|
      ensures !merged ==> Merging(s0, m0, log0, target, merges) && partitions == target.0 && merges == target.1
      ensures !merged ==> CondenseLog(partitions, Counter(config.settings, PartitionConsecutiveNumber)) == []
      ensures processes == old(processes) && compactionLog == old(compactionLog)
      ensures old(NumbersFresh()) ==> NumbersFresh()
    {
      ghost var log := condensationLog;
      ghost var c := Counter(config.settings, PartitionConsecutiveNumber);
      merged := MergeFirstRun();
      if merged {
        BumpedOther(Bumped(old(config.settings), PartitionConsecutiveNumber, 1), Condensations, 1, PartitionConsecutiveNumber);
        assert Counter(config.settings, PartitionConsecutiveNumber) == c + 1;
        assert Condense(partitions, Counter(config.settings, PartitionConsecutiveNumber)) == Condense(partitions, c + 1);
        assert config.settings == AfterMerges(m0, merges + 1);
        assert condensationLog + CondenseLog(partitions, c + 1) == log + CondenseLog(old(partitions), c);
      }
    }

    /** `check_process_name_is_unique`: no process other than `id` (when given) is named `name`. */
    function CheckProcessNameIsUnique(id: Option<int>, name: string): (r: bool)
      reads this
      ensures r <==> forall j :: 0 <= j < |processes| && processes[j].name == name ==> id.Some? && processes[j].id == id.value
    {
      var clashes := NameClashes(processes, id, name);
      assert forall j :: 0 <= j < |processes| ==> processes[j] in processes;
      if clashes != [] then assert clashes[0] in clashes; false else true
    }
  }
}
