/**
 * The partition table as a value: the rows of `storage_partition` left-joined
 * with `process_partition`, in position order. The index of an entry in the
 * sequence is its position, so positions are always exactly 0 .. n-1.
 * Memory offsets are not stored: the offset of position p is the sum of the
 * sizes before it (Start).
 */
module Partitions {
  import opened Wrappers

  /** A partition: its sequence number, its size and the process bound to it, if any. */
  datatype Partition = Partition(number: int, size: int, occupant: Option<int>)

  predicate IsFree(p: Partition) {
    p.occupant.None?
  }

  /** A free partition a process of size `request` can be placed in. */
  predicate CanHold(p: Partition, request: int) {
    IsFree(p) && p.size >= request
  }

  // ---------------------------------------------------------------- sizes

  /** The memory the partitions use (the `used_memory` sum). */
  function TotalSize(s: seq<Partition>): int
  {
    if s == [] then 0 else s[0].size + TotalSize(s[1..])
  }

  lemma {:induction false} TotalSizeConcat(a: seq<Partition>, b: seq<Partition>)
    ensures TotalSize(a + b) == TotalSize(a) + TotalSize(b)
  {
    if a == [] {
      assert a + b == b;
    } else {
      assert (a + b)[1..] == a[1..] + b;
      TotalSizeConcat(a[1..], b);
    }
  }

  /** Adding one more partition to a prefix sum, as the `used_memory` loop does. */
  lemma TotalSizePrefix(s: seq<Partition>, i: nat)
    requires i < |s|
    ensures TotalSize(s[..i + 1]) == TotalSize(s[..i]) + s[i].size
  {
    assert s[..i + 1] == s[..i] + [s[i]];
    TotalSizeConcat(s[..i], [s[i]]);
  }

  /** The derived start offset of position `p`: everything before it, laid end to end. */
  function Start(s: seq<Partition>, p: nat): (r: int)
    requires p <= |s|
    ensures p == 0 ==> r == 0
    ensures p == |s| ==> r == TotalSize(s)
  {
    assert s[..|s|] == s;
    TotalSize(s[..p])
  }

  /** Derived offsets are contiguous: a partition ends where the next one starts. */
  lemma StartContiguous(s: seq<Partition>, p: nat)
    requires p < |s|
    ensures Start(s, 0) == 0
    ensures Start(s, p + 1) == Start(s, p) + s[p].size
  {
    TotalSizePrefix(s, p);
  }

  // ------------------------------------------------------------ occupancy

  /** The entry itself when it is occupied, nothing when it is free. */
  function Own(p: Partition): seq<Partition> {
    if IsFree(p) then [] else [p]
  }

  /** The occupied entries in position order. */
  function Occupied(s: seq<Partition>): (r: seq<Partition>)
    ensures |r| <= |s|
  {
    if s == [] then [] else Own(s[0]) + Occupied(s[1..])
  }

  lemma {:induction false} OccupiedConcat(a: seq<Partition>, b: seq<Partition>)
    ensures Occupied(a + b) == Occupied(a) + Occupied(b)
  {
    if a == [] {
      assert a + b == b;
    } else {
      assert (a + b)[1..] == a[1..] + b;
      OccupiedConcat(a[1..], b);
    }
  }

  /**
   * A table cut around position `i`. Concatenations are kept right-nested
   * throughout, and the cuts are proved apart from the recursive views:
   * regrouping concatenations under those views is what makes sequence
   * proofs expensive.
   */
  lemma Around(s: seq<Partition>, i: nat)
    requires i < |s|
    ensures s == s[..i] + ([s[i]] + s[i + 1..])
  {
  }

  lemma UpdateAround(s: seq<Partition>, i: nat, x: Partition)
    requires i < |s|
    ensures s[i := x] == s[..i] + ([x] + s[i + 1..])
  {
  }

  /** A table cut around positions `i < e`, before and after exchanging them. */
  lemma SwapAround(s: seq<Partition>, i: nat, e: nat)
    requires i < e < |s|
    ensures s == s[..i] + ([s[i]] + (s[i + 1..e] + ([s[e]] + s[e + 1..])))
    ensures s[i := s[e]][e := s[i]] == s[..i] + ([s[e]] + (s[i + 1..e] + ([s[i]] + s[e + 1..])))
  {
  }

  lemma OccupiedCons(x: Partition, b: seq<Partition>)
    ensures Occupied([x] + b) == Own(x) + Occupied(b)
    ensures TotalSize([x] + b) == x.size + TotalSize(b)
  {
    assert ([x] + b)[0] == x && ([x] + b)[1..] == b;
  }

  /** Both views of a table cut around one entry. */
  lemma Views3(a: seq<Partition>, x: Partition, b: seq<Partition>)
    ensures Occupied(a + ([x] + b)) == Occupied(a) + (Own(x) + Occupied(b))
    ensures TotalSize(a + ([x] + b)) == TotalSize(a) + (x.size + TotalSize(b))
  {
    OccupiedConcat(a, [x] + b);
    TotalSizeConcat(a, [x] + b);
    OccupiedCons(x, b);
  }

  /** Both views of a table cut around two entries. */
  lemma Views5(a: seq<Partition>, x: Partition, m: seq<Partition>, y: Partition, b: seq<Partition>)
    ensures Occupied(a + ([x] + (m + ([y] + b)))) == Occupied(a) + (Own(x) + (Occupied(m) + (Own(y) + Occupied(b))))
    ensures TotalSize(a + ([x] + (m + ([y] + b)))) == TotalSize(a) + (x.size + (TotalSize(m) + (y.size + TotalSize(b))))
  {
    Views3(a, x, m + ([y] + b));
    Views3(m, y, b);
  }

  lemma {:induction false} OccupiedAllFree(s: seq<Partition>)
    requires forall k :: 0 <= k < |s| ==> IsFree(s[k])
    ensures Occupied(s) == []
  {
    if s != [] {
      OccupiedAllFree(s[1..]);
    }
  }

  /** Every entry of the occupied view is occupied. */
  lemma {:induction false} OccupiedNotFree(s: seq<Partition>)
    ensures forall q :: q in Occupied(s) ==> !IsFree(q)
  {
    if s != [] {
      OccupiedNotFree(s[1..]);
    }
  }

  /** An occupied entry of the table is one of its occupied entries. */
  lemma {:induction false} OccupiedHas(s: seq<Partition>, k: nat)
    requires k < |s| && !IsFree(s[k])
    ensures s[k] in Occupied(s)
  {
    if k > 0 {
      OccupiedHas(s[1..], k - 1);
      OccupiedConcat([s[0]], s[1..]);
      assert s == [s[0]] + s[1..];
    }
  }

  /** Every entry of the occupied view is an entry of the table. */
  lemma {:induction false} OccupiedIn(s: seq<Partition>, q: Partition)
    requires q in Occupied(s)
    ensures exists k :: 0 <= k < |s| && s[k] == q
  {
    if q in Own(s[0]) {
      assert s[0] == q;
    } else {
      OccupiedIn(s[1..], q);
      var k :| 0 <= k < |s| - 1 && s[1..][k] == q;
      assert s[k + 1] == q;
    }
  }

  /** The ids of the processes that are bound to a partition. */
  function AssignedPids(s: seq<Partition>): set<int>
  {
    set q | q in Occupied(s) && q.occupant.Some? :: q.occupant.value
  }

  /** A process id is assigned exactly when some position of the table is bound to it. */
  lemma AssignedPidsMembers(s: seq<Partition>)
    ensures forall pid :: pid in AssignedPids(s) <==> exists k :: 0 <= k < |s| && s[k].occupant == Some(pid)
  {
    forall pid | pid in AssignedPids(s) ensures exists k :: 0 <= k < |s| && s[k].occupant == Some(pid) {
      var q :| q in Occupied(s) && q.occupant == Some(pid);
      OccupiedIn(s, q);
    }
    forall pid, k | 0 <= k < |s| && s[k].occupant == Some(pid) ensures pid in AssignedPids(s) {
      OccupiedHas(s, k);
    }
  }

  /** No process is bound to two partitions. */
  predicate DistinctPids(e: seq<Partition>) {
    forall a, b :: 0 <= a < b < |e| ==> e[a].occupant != e[b].occupant
  }

  predicate OccupantsDistinct(s: seq<Partition>) {
    DistinctPids(Occupied(s))
  }

  lemma DistinctPidsInsert(a: seq<Partition>, x: Partition, b: seq<Partition>)
    requires DistinctPids(a + b)
    requires forall q :: q in a + b ==> q.occupant != x.occupant
    ensures DistinctPids(a + ([x] + b))
  {
    var e, f := a + ([x] + b), a + b;
    forall i, j | 0 <= i < j < |e|
      ensures e[i].occupant != e[j].occupant
    {
      if j < |a| {
        assert e[i] == f[i] && e[j] == f[j];
      } else if j == |a| {
        assert e[i] == f[i] && f[i] in f;
      } else if i < |a| {
        assert e[i] == f[i] && e[j] == f[j - 1];
      } else if i == |a| {
        assert e[j] == f[j - 1] && f[j - 1] in f;
      } else {
        assert e[i] == f[i - 1] && e[j] == f[j - 1];
      }
    }
  }

  /** The table after process `pid` is bound to the free partition at position `i`. */
  function Bind(s: seq<Partition>, i: nat, pid: int): (r: seq<Partition>)
    requires i < |s|
  {
    s[i := s[i].(occupant := Some(pid))]
  }

  /** A free entry contributes nothing to the occupied ones. */
  lemma OccupiedSkipsFree(s: seq<Partition>, i: nat)
    requires i < |s| && IsFree(s[i])
    ensures Occupied(s) == Occupied(s[..i]) + Occupied(s[i + 1..])
  {
    Around(s, i);
    Views3(s[..i], s[i], s[i + 1..]);
  }

  /** An occupied entry written at `i` appears among the occupied ones between those before and after it. */
  lemma OccupiedUpdate(s: seq<Partition>, i: nat, x: Partition)
    requires i < |s| && !IsFree(x)
    ensures Occupied(s[i := x]) == Occupied(s[..i]) + ([x] + Occupied(s[i + 1..]))
  {
    UpdateAround(s, i, x);
    Views3(s[..i], x, s[i + 1..]);
  }

  /** Binding the free partition at `i` inserts exactly its new entry among the occupied ones. */
  lemma BindShape(s: seq<Partition>, i: nat, pid: int)
    requires i < |s| && IsFree(s[i])
    ensures Occupied(s) == Occupied(s[..i]) + Occupied(s[i + 1..])
    ensures Occupied(Bind(s, i, pid)) == Occupied(s[..i]) + ([Bind(s, i, pid)[i]] + Occupied(s[i + 1..]))
  {
    OccupiedSkipsFree(s, i);
    OccupiedUpdate(s, i, s[i].(occupant := Some(pid)));
  }

  /** Binding a free partition adds exactly that entry to the occupied ones. */
  lemma BindOccupied(s: seq<Partition>, i: nat, pid: int)
    requires i < |s| && IsFree(s[i])
    ensures multiset(Occupied(Bind(s, i, pid))) == multiset(Occupied(s)) + multiset{Bind(s, i, pid)[i]}
    ensures |Occupied(Bind(s, i, pid))| == |Occupied(s)| + 1
  {
    var x := Bind(s, i, pid)[i];
    BindShape(s, i, pid);
    var a, b := Occupied(s[..i]), Occupied(s[i + 1..]);
    assert multiset(a + ([x] + b)) == multiset(a + b) + multiset{x};
  }


  /** Binding a free partition keeps every occupied entry and makes the bound one occupied. */
  lemma BindKeeps(s: seq<Partition>, i: nat, pid: int)
    requires i < |s| && IsFree(s[i])
    ensures forall q :: q in Occupied(s) ==> q in Occupied(Bind(s, i, pid))
    ensures Bind(s, i, pid)[i] in Occupied(Bind(s, i, pid))
  {
    BindOccupied(s, i, pid);
    var t := Bind(s, i, pid);
    assert t[i] in multiset(Occupied(t));
    forall q | q in Occupied(s) ensures q in Occupied(t) {
      assert q in multiset(Occupied(s));
      assert q in multiset(Occupied(t));
    }
  }
  /** Binding a free partition to `pid` adds `pid` to the bound processes. */
  lemma BindPids(s: seq<Partition>, i: nat, pid: int)
    requires i < |s| && IsFree(s[i])
    ensures AssignedPids(Bind(s, i, pid)) == AssignedPids(s) + {pid}
  {
    var r := Bind(s, i, pid);
    var x := r[i];
    BindShape(s, i, pid);
    var a, b := Occupied(s[..i]), Occupied(s[i + 1..]);
    forall q: Partition ensures q in Occupied(r) <==> q in Occupied(s) || q == x {
      assert q in a + ([x] + b) <==> q in a + b || q == x;
    }
  }

  /** Binding a process changes no size. */
  lemma BindTotalSize(s: seq<Partition>, i: nat, pid: int)
    requires i < |s|
    ensures TotalSize(Bind(s, i, pid)) == TotalSize(s)
  {
    var x := Bind(s, i, pid)[i];
    Around(s, i);
    UpdateAround(s, i, x);
    Views3(s[..i], s[i], s[i + 1..]);
    Views3(s[..i], x, s[i + 1..]);
  }

  lemma BindDistinct(s: seq<Partition>, i: nat, pid: int)
    requires i < |s| && IsFree(s[i])
    requires OccupantsDistinct(s) && pid !in AssignedPids(s)
    ensures OccupantsDistinct(Bind(s, i, pid))
  {
    var x := Bind(s, i, pid)[i];
    BindShape(s, i, pid);
    var a, b := Occupied(s[..i]), Occupied(s[i + 1..]);
    forall q: Partition | q in a + b
      ensures q.occupant != x.occupant
    {
      assert q in Occupied(s);
      OccupiedNotFree(s);
      assert q.occupant.value in AssignedPids(s);
    }
    DistinctPidsInsert(a, x, b);
  }

  /** A partition with its assignment to `pid` removed, if it has one. */
  function ReleaseOne(p: Partition, pid: int): Partition {
    if p.occupant == Some(pid) then p.(occupant := None) else p
  }

  /** The table after `delete_process_partition_with_process_id(pid)`. */
  function Released(s: seq<Partition>, pid: int): (r: seq<Partition>)
  {
    seq(|s|, k requires 0 <= k < |s| => ReleaseOne(s[k], pid))
  }

  lemma ReleasedTail(s: seq<Partition>, pid: int)
    requires s != []
    ensures Released(s, pid) == [ReleaseOne(s[0], pid)] + Released(s[1..], pid)
  {
  }

  /** The occupied entries left after releasing `pid`: exactly those of the other processes, in order. */
  lemma {:induction false} ReleasedOccupied(s: seq<Partition>, pid: int)
    ensures forall q :: q in Occupied(Released(s, pid)) <==> q in Occupied(s) && q.occupant != Some(pid)
  {
    if s != [] {
      ReleasedTail(s, pid);
      ReleasedOccupied(s[1..], pid);
      OccupiedConcat([ReleaseOne(s[0], pid)], Released(s[1..], pid));
      OccupiedConcat([s[0]], s[1..]);
      assert s == [s[0]] + s[1..];
    }
  }

  /** Releasing changes no size. */
  lemma {:induction false} ReleasedTotalSize(s: seq<Partition>, pid: int)
    ensures TotalSize(Released(s, pid)) == TotalSize(s)
  {
    if s != [] {
      ReleasedTail(s, pid);
      ReleasedTotalSize(s[1..], pid);
    }
  }

  lemma ReleasedPids(s: seq<Partition>, pid: int)
    ensures AssignedPids(Released(s, pid)) == AssignedPids(s) - {pid}
  {
    ReleasedOccupied(s, pid);
  }

  lemma DistinctPidsCons(h: Partition, t: seq<Partition>)
    ensures DistinctPids([h] + t) <==> DistinctPids(t) && forall q :: q in t ==> q.occupant != h.occupant
  {
    var e := [h] + t;
    if DistinctPids(e) {
      forall i, j | 0 <= i < j < |t| ensures t[i].occupant != t[j].occupant {
        assert e[i + 1] == t[i] && e[j + 1] == t[j];
      }
      forall q | q in t ensures q.occupant != h.occupant {
        var j :| 0 <= j < |t| && t[j] == q;
        assert e[0] == h && e[j + 1] == q;
      }
    }
    if DistinctPids(t) && forall q :: q in t ==> q.occupant != h.occupant {
      forall i, j | 0 <= i < j < |e| ensures e[i].occupant != e[j].occupant {
        if i == 0 {
          assert e[j] == t[j - 1];
        } else {
          assert e[i] == t[i - 1] && e[j] == t[j - 1];
        }
      }
    }
  }

  /** Releasing keeps every process bound at most once. */
  lemma {:induction false} ReleasedDistinct(s: seq<Partition>, pid: int)
    requires OccupantsDistinct(s)
    ensures OccupantsDistinct(Released(s, pid))
  {
    if s != [] {
      var h, t := s[0], s[1..];
      var rh, rt := ReleaseOne(h, pid), Released(t, pid);
      ReleasedTail(s, pid);
      OccupiedConcat([rh], rt);
      OccupiedConcat([h], t);
      assert s == [h] + t;
      if IsFree(h) {
        assert Occupied(s) == Occupied(t);
      } else {
        assert Occupied(s) == [h] + Occupied(t);
        DistinctPidsCons(h, Occupied(t));
      }
      ReleasedDistinct(t, pid);
      if !IsFree(rh) {
        assert rh == h;
        ReleasedOccupied(t, pid);
        assert Occupied(Released(s, pid)) == [rh] + Occupied(rt);
        DistinctPidsCons(rh, Occupied(rt));
      } else {
        assert Occupied(Released(s, pid)) == Occupied(rt);
      }
    }
  }

  // ------------------------------------------------ insertion and removal

  /**
   * The table after a partition is created at position `p`: the rows at `p`
   * and later move one position up, as the position updates that follow
   * every creation in the middle of the table leave them.
   */
  function InsertAt(s: seq<Partition>, p: nat, x: Partition): seq<Partition>
    requires p <= |s|
  {
    s[..p] + ([x] + s[p..])
  }

  /** The table after the partition at position `p` is deleted and the later ones move one position down. */
  function RemoveAt(s: seq<Partition>, p: nat): seq<Partition>
    requires p < |s|
  {
    s[..p] + s[p + 1..]
  }

  lemma InsertAtShape(s: seq<Partition>, p: nat, x: Partition)
    requires p <= |s|
    ensures |InsertAt(s, p, x)| == |s| + 1 && InsertAt(s, p, x)[p] == x
    ensures forall j :: 0 <= j < p ==> InsertAt(s, p, x)[j] == s[j]
    ensures forall j :: p <= j < |s| ==> InsertAt(s, p, x)[j + 1] == s[j]
  {
  }

  /** Creating a free partition keeps the occupied entries and adds its size to the used memory. */
  lemma InsertFreeViews(s: seq<Partition>, p: nat, x: Partition)
    requires p <= |s| && IsFree(x)
    ensures Occupied(InsertAt(s, p, x)) == Occupied(s)
    ensures TotalSize(InsertAt(s, p, x)) == TotalSize(s) + x.size
  {
    assert s == s[..p] + s[p..];
    OccupiedConcat(s[..p], s[p..]);
    TotalSizeConcat(s[..p], s[p..]);
    Views3(s[..p], x, s[p..]);
    DropEmpty(Occupied(s[..p]), Own(x), Occupied(s[p..]));
  }

  /** Deleting the free partition at `p` keeps the occupied entries and frees its size. */
  lemma RemoveFreeViews(s: seq<Partition>, p: nat)
    requires p < |s| && IsFree(s[p])
    ensures Occupied(RemoveAt(s, p)) == Occupied(s)
    ensures TotalSize(RemoveAt(s, p)) == TotalSize(s) - s[p].size
  {
    Around(s, p);
    Views3(s[..p], s[p], s[p + 1..]);
    OccupiedConcat(s[..p], s[p + 1..]);
    TotalSizeConcat(s[..p], s[p + 1..]);
    DropEmpty(Occupied(s[..p]), Own(s[p]), Occupied(s[p + 1..]));
  }

  /** A split is a deletion followed by two creations at the same and the next position. */
  lemma SplitAsEdits(s: seq<Partition>, i: nat, a: Partition, b: Partition)
    requires i < |s|
    ensures InsertAt(InsertAt(RemoveAt(s, i), i, a), i + 1, b) == s[..i] + ([a] + ([b] + s[i + 1..]))
  {
    var t := RemoveAt(s, i);
    var u := InsertAt(t, i, a);
    assert t[..i] == s[..i] && t[i..] == s[i + 1..];
    assert u[..i + 1] == s[..i] + [a] && u[i + 1..] == s[i + 1..];
  }

  /** Deleting at `i` once more after `j` deletions there removes the next partition of the run. */
  lemma RemoveAgain(s: seq<Partition>, i: nat, j: nat)
    requires i + j < |s|
    ensures RemoveAt(s[..i] + s[i + j..], i) == s[..i] + s[i + j + 1..]
  {
    var t := s[..i] + s[i + j..];
    assert t[..i] == s[..i] && t[i + 1..] == s[i + j + 1..];
  }

  /** A merge is the deletion of the run followed by one creation at its position. */
  lemma MergeAsEdits(s: seq<Partition>, i: nat, k: nat, x: Partition)
    requires i + k <= |s|
    ensures InsertAt(s[..i] + s[i + k..], i, x) == s[..i] + ([x] + s[i + k..])
  {
    var t := s[..i] + s[i + k..];
    assert t[..i] == s[..i] && t[i..] == s[i + k..];
  }

  // --------------------------------------------------------------- numbers

  /** Every partition number is below the next number `n` to be handed out, and no two are equal. */
  predicate Fresh(s: seq<Partition>, n: int) {
    (forall j :: 0 <= j < |s| ==> s[j].number < n) &&
    (forall a, b :: 0 <= a < b < |s| ==> s[a].number != s[b].number)
  }

  /** Creating a partition stamped with the next number keeps the numbers fresh for the number after it. */
  lemma FreshInsert(s: seq<Partition>, p: nat, x: Partition, n: int)
    requires p <= |s| && Fresh(s, n) && x.number == n
    ensures Fresh(InsertAt(s, p, x), n + 1)
  {
    var r := InsertAt(s, p, x);
    InsertAtShape(s, p, x);
    forall j | 0 <= j < |r| ensures r[j].number < n + 1 {
      if j > p {
        assert r[j] == s[j - 1];
      }
    }
    forall a, b | 0 <= a < b < |r| ensures r[a].number != r[b].number {
      if b < p {
      } else if b == p {
        assert r[a] == s[a];
      } else if a < p {
        assert r[a] == s[a] && r[b] == s[b - 1];
      } else if a == p {
        assert r[b] == s[b - 1];
      } else {
        assert r[a] == s[a - 1] && r[b] == s[b - 1];
      }
    }
  }

  lemma FreshRemove(s: seq<Partition>, p: nat, n: int)
    requires p < |s| && Fresh(s, n)
    ensures Fresh(RemoveAt(s, p), n)
  {
    var r := RemoveAt(s, p);
    assert forall j :: 0 <= j < |r| ==> r[j] == (if j < p then s[j] else s[j + 1]);
  }

  lemma FreshSwap(s: seq<Partition>, i: nat, e: nat, n: int)
    requires i < e < |s| && Fresh(s, n)
    ensures Fresh(Swap(s, i, e), n)
  {
    var r := Swap(s, i, e);
    forall a, b | 0 <= a < b < |r| ensures r[a].number != r[b].number {
      var a', b' := if a == i then e else if a == e then i else a, if b == i then e else if b == e then i else b;
      assert r[a] == s[a'] && r[b] == s[b'] && a' != b';
      if a' < b' {
      } else {
      }
    }
  }

  /** A split stamps the next two numbers. */
  lemma SplitFresh(s: seq<Partition>, i: nat, request: int, n: int)
    requires i < |s| && Fresh(s, n)
    ensures Fresh(Split(s, i, request, n), n + 2)
  {
    var a, b := Partition(n, request, None), Partition(n + 1, s[i].size - request, None);
    FreshRemove(s, i, n);
    FreshInsert(RemoveAt(s, i), i, a, n);
    FreshInsert(InsertAt(RemoveAt(s, i), i, a), i + 1, b, n + 1);
    SplitAsEdits(s, i, a, b);
  }

  /** Deleting a run of partitions keeps the numbers fresh. */
  lemma FreshDropRun(s: seq<Partition>, i: nat, k: nat, n: int)
    requires i + k <= |s| && Fresh(s, n)
    ensures Fresh(s[..i] + s[i + k..], n)
  {
    var r := s[..i] + s[i + k..];
    assert forall j :: 0 <= j < |r| ==> r[j] == (if j < i then s[j] else s[j + k]);
  }

  lemma FreshBind(s: seq<Partition>, i: nat, pid: int, n: int)
    requires i < |s| && Fresh(s, n)
    ensures Fresh(Bind(s, i, pid), n)
  {
    var r := Bind(s, i, pid);
    assert forall j :: 0 <= j < |r| ==> r[j].number == s[j].number;
  }

  lemma FreshReleased(s: seq<Partition>, pid: int, n: int)
    requires Fresh(s, n)
    ensures Fresh(Released(s, pid), n)
  {
    var r := Released(s, pid);
    assert forall j :: 0 <= j < |r| ==> r[j].number == s[j].number;
  }

  // ----------------------------------------------------------- first fit

  /** `get_empty_storage_partition`'s scan from position `i`: the first free partition that can hold `request`. */
  function FirstFitFrom(s: seq<Partition>, request: int, i: nat): (r: Option<nat>)
    requires i <= |s|
    ensures r.Some? ==> i <= r.value < |s| && CanHold(s[r.value], request)
    ensures r.Some? ==> forall j :: i <= j < r.value ==> !CanHold(s[j], request)
    ensures r.None? ==> forall j :: i <= j < |s| ==> !CanHold(s[j], request)
    decreases |s| - i
  {
    if i == |s| then None
    else if CanHold(s[i], request) then Some(i)
    else FirstFitFrom(s, request, i + 1)
  }

  /** The first free partition in position order whose size is at least `request`. */
  function FirstFit(s: seq<Partition>, request: int): (r: Option<nat>)
    ensures r.Some? ==> r.value < |s| && CanHold(s[r.value], request)
    ensures r.Some? ==> forall j :: 0 <= j < r.value ==> !CanHold(s[j], request)
    ensures r.None? ==> forall j :: 0 <= j < |s| ==> !CanHold(s[j], request)
  {
    FirstFitFrom(s, request, 0)
  }

  /**
   * The split of the free partition at `i` for a request of `request`:
   * a partition of that size at `i` numbered `n`, one with the remainder at
   * `i + 1` numbered `n + 1`, and every later partition one position further.
   */
  function Split(s: seq<Partition>, i: nat, request: int, n: int): seq<Partition>
    requires i < |s|
  {
    s[..i] + ([Partition(n, request, None)] + ([Partition(n + 1, s[i].size - request, None)] + s[i + 1..]))
  }

  lemma SplitShape(s: seq<Partition>, i: nat, request: int, n: int)
    requires i < |s| && IsFree(s[i])
    ensures |Split(s, i, request, n)| == |s| + 1
    ensures forall j :: 0 <= j < i ==> Split(s, i, request, n)[j] == s[j]
    ensures Split(s, i, request, n)[i] == Partition(n, request, None)
    ensures Split(s, i, request, n)[i + 1] == Partition(n + 1, s[i].size - request, None)
    ensures forall j :: i < j < |s| ==> Split(s, i, request, n)[j + 1] == s[j]
    ensures Split(s, i, request, n)[i].size + Split(s, i, request, n)[i + 1].size == s[i].size
    ensures TotalSize(Split(s, i, request, n)) == TotalSize(s)
    ensures Occupied(Split(s, i, request, n)) == Occupied(s)
  {
    var a, b := Partition(n, request, None), Partition(n + 1, s[i].size - request, None);
    SplitViews(s, i, a, b);
  }

  /** Replacing a free entry by two free ones keeps both views. */
  lemma SplitViews(s: seq<Partition>, i: nat, a: Partition, b: Partition)
    requires i < |s| && IsFree(s[i]) && IsFree(a) && IsFree(b) && a.size + b.size == s[i].size
    ensures TotalSize(s[..i] + ([a] + ([b] + s[i + 1..]))) == TotalSize(s)
    ensures Occupied(s[..i] + ([a] + ([b] + s[i + 1..]))) == Occupied(s)
  {
    Around(s, i);
    Views3(s[..i], s[i], s[i + 1..]);
    SplitViewsOf(s[..i], a, b, s[i + 1..]);
    DropEmpty(Occupied(s[..i]), Own(s[i]), Occupied(s[i + 1..]));
  }

  lemma SplitViewsOf(h: seq<Partition>, a: Partition, b: Partition, t: seq<Partition>)
    requires IsFree(a) && IsFree(b)
    ensures TotalSize(h + ([a] + ([b] + t))) == TotalSize(h) + (a.size + (b.size + TotalSize(t)))
    ensures Occupied(h + ([a] + ([b] + t))) == Occupied(h) + Occupied(t)
  {
    Views3(h, a, [b] + t);
    OccupiedCons(b, t);
    assert Own(a) + Occupied([b] + t) == Occupied(t) by {
      assert Own(a) == [] && Own(b) == [];
    }
  }

  /** Dropping an empty piece leaves a concatenation unchanged. */
  lemma DropEmpty(a: seq<Partition>, e: seq<Partition>, b: seq<Partition>)
    requires e == []
    ensures a + (e + b) == a + b
  {
  }

  /** Splitting moves no later partition in memory: its derived offset is unchanged. */
  lemma SplitKeepsOffsets(s: seq<Partition>, i: nat, request: int, n: int, j: nat)
    requires i < j <= |s| && IsFree(s[i])
    ensures Start(Split(s, i, request, n), j + 1) == Start(s, j)
  {
    var r := Split(s, i, request, n);
    SplitShape(s, i, request, n);
    assert r[..j + 1] == s[..i] + [r[i], r[i + 1]] + s[i + 1..j];
    assert s[..j] == s[..i] + [s[i]] + s[i + 1..j];
    TotalSizeConcat(s[..i] + [r[i], r[i + 1]], s[i + 1..j]);
    TotalSizeConcat(s[..i], [r[i], r[i + 1]]);
    TotalSizeConcat(s[..i] + [s[i]], s[i + 1..j]);
    TotalSizeConcat(s[..i], [s[i]]);
    assert TotalSize([r[i], r[i + 1]]) == s[i].size by {
      assert [r[i], r[i + 1]][1..][1..] == [];
    }
    assert TotalSize([s[i]]) == s[i].size by {
      assert [s[i]][1..] == [];
    }
  }

  /**
   * Where a process of `request` goes: the partition table after the free
   * partition was found or made, the position of that partition and how many
   * partition numbers, from `n` on, were handed out to do so.
   */
  datatype Slot = Slot(table: seq<Partition>, at: nat, numbers: nat)

  /**
   * `get_empty_storage_partition(request)`, or else `create_storage_partition(request)`
   * in a memory of `memory`: the first fit, split to the request when larger;
   * failing that, a new partition after the last one when it still fits.
   */
  function Prepare(s: seq<Partition>, request: int, n: int, memory: int): Option<Slot>
  {
    match FirstFit(s, request)
    case Some(i) =>
      if s[i].size == request then Some(Slot(s, i, 0))
      else Some(Slot(Split(s, i, request, n), i, 2))
    case None =>
      if TotalSize(s) + request <= memory then Some(Slot(s + [Partition(n, request, None)], |s|, 1))
      else None
  }

  /**
   * A slot exists exactly when some free partition can hold the request or a
   * new one still fits; reuse comes first, so a slot that exists is the first
   * fit whenever there is one, and a new partition is appended only when there
   * is none. Either way the slot is free, has the requested size and leaves
   * the occupied partitions as they were.
   */
  lemma PrepareProperties(s: seq<Partition>, request: int, n: int, memory: int)
    ensures Prepare(s, request, n, memory).Some? <==> FirstFit(s, request).Some? || TotalSize(s) + request <= memory
    ensures Prepare(s, request, n, memory).Some? ==>
      var slot := Prepare(s, request, n, memory).value;
      slot.at < |slot.table| && slot.table[slot.at] == Partition(slot.table[slot.at].number, request, None) &&
      Occupied(slot.table) == Occupied(s)
    ensures FirstFit(s, request).Some? ==>
      Prepare(s, request, n, memory).Some? &&
      Prepare(s, request, n, memory).value.at == FirstFit(s, request).value &&
      TotalSize(Prepare(s, request, n, memory).value.table) == TotalSize(s)
    ensures FirstFit(s, request).None? && TotalSize(s) + request <= memory ==>
      Prepare(s, request, n, memory) == Some(Slot(s + [Partition(n, request, None)], |s|, 1)) &&
      TotalSize(Prepare(s, request, n, memory).value.table) == TotalSize(s) + request
  {
    match FirstFit(s, request)
    case Some(i) =>
      if s[i].size != request {
        SplitShape(s, i, request, n);
      }
    case None =>
      var x := Partition(n, request, None);
      InsertFreeViews(s, |s|, x);
      assert InsertAt(s, |s|, x) == s + [x];
  }

  // ----------------------------------------------------------- compaction

  /** Every occupied partition precedes every free one. */
  predicate OccupiedBeforeFree(s: seq<Partition>) {
    forall a, b :: 0 <= a < b < |s| && IsFree(s[a]) ==> IsFree(s[b])
  }

  /** The table after the partitions at `i` and `e` exchange positions. */
  function Swap(s: seq<Partition>, i: nat, e: nat): seq<Partition>
    requires i < |s| && e < |s|
  {
    s[i := s[e]][e := s[i]]
  }

  /**
   * Swapping a free partition with the nearest later occupied one keeps the
   * occupied partitions, and the order in which they appear.
   */
  lemma SwapViewsBefore(s: seq<Partition>, i: nat, e: nat)
    requires i < e < |s|
    ensures Occupied(s) == Occupied(s[..i]) + (Own(s[i]) + (Occupied(s[i + 1..e]) + (Own(s[e]) + Occupied(s[e + 1..]))))
    ensures TotalSize(s) == TotalSize(s[..i]) + (s[i].size + (TotalSize(s[i + 1..e]) + (s[e].size + TotalSize(s[e + 1..]))))
  {
    SwapAround(s, i, e);
    Views5(s[..i], s[i], s[i + 1..e], s[e], s[e + 1..]);
  }

  lemma SwapViewsAfter(s: seq<Partition>, i: nat, e: nat)
    requires i < e < |s|
    ensures Occupied(Swap(s, i, e)) == Occupied(s[..i]) + (Own(s[e]) + (Occupied(s[i + 1..e]) + (Own(s[i]) + Occupied(s[e + 1..]))))
    ensures TotalSize(Swap(s, i, e)) == TotalSize(s[..i]) + (s[e].size + (TotalSize(s[i + 1..e]) + (s[i].size + TotalSize(s[e + 1..]))))
  {
    SwapAround(s, i, e);
    Views5(s[..i], s[e], s[i + 1..e], s[i], s[e + 1..]);
  }

  lemma SwapOccupied(s: seq<Partition>, i: nat, e: nat)
    requires i < e < |s|
    requires IsFree(s[i]) && !IsFree(s[e])
    requires forall m :: i < m < e ==> IsFree(s[m])
    ensures Occupied(Swap(s, i, e)) == Occupied(s)
  {
    OccupiedAllFree(s[i + 1..e]);
    SwapAcrossGap(s, i, e);
  }

  /** The exchange, once the partitions between the pair are known to contribute nothing. */
  lemma SwapAcrossGap(s: seq<Partition>, i: nat, e: nat)
    requires i < e < |s|
    requires IsFree(s[i]) && Occupied(s[i + 1..e]) == []
    ensures Occupied(Swap(s, i, e)) == Occupied(s)
  {
    SwapViewsBefore(s, i, e);
    SwapViewsAfter(s, i, e);
    MoveAcrossEmpty(Occupied(s[..i]), Own(s[i]), Occupied(s[i + 1..e]), Own(s[e]), Occupied(s[e + 1..]));
  }

  /** Moving a piece across empty ones leaves a concatenation unchanged. */
  lemma MoveAcrossEmpty(a: seq<Partition>, f: seq<Partition>, m: seq<Partition>, o: seq<Partition>, b: seq<Partition>)
    requires f == [] && m == []
    ensures a + (o + (m + (f + b))) == a + (f + (m + (o + b)))
  {
  }

  /** An exchange is a permutation of the entries. */
  lemma SwapPermutes(s: seq<Partition>, i: nat, e: nat)
    requires i < e < |s|
    ensures multiset(Swap(s, i, e)) == multiset(s)
  {
  }

  /** Exchanging two entries keeps the used memory. */
  lemma SwapTotalSize(s: seq<Partition>, i: nat, e: nat)
    requires i < e < |s|
    ensures TotalSize(Swap(s, i, e)) == TotalSize(s)
  {
    SwapViewsBefore(s, i, e);
    SwapViewsAfter(s, i, e);
  }

  /** The first `i` positions of a compaction pass are done: a free partition among them has only free ones after it. */
  predicate CompactedBefore(s: seq<Partition>, i: nat) {
    forall a, b :: 0 <= a < i && a < b < |s| && IsFree(s[a]) ==> IsFree(s[b])
  }

  /** A free partition followed only by free ones extends the compacted prefix, and so does an occupied one. */
  lemma CompactionSkipStep(s: seq<Partition>, i: nat)
    requires i < |s| && CompactedBefore(s, i)
    requires IsFree(s[i]) ==> forall m :: i < m < |s| ==> IsFree(s[m])
    ensures CompactedBefore(s, i + 1)
  {
  }

  /**
   * Exchanging the free partition at `i` with the nearest later occupied one
   * extends the compacted prefix.
   */
  lemma CompactionSwapStep(s: seq<Partition>, i: nat, e: nat)
    requires i < e < |s| && CompactedBefore(s, i)
    requires IsFree(s[i]) && !IsFree(s[e])
    ensures CompactedBefore(Swap(s, i, e), i + 1)
  {
    var r := Swap(s, i, e);
    assert forall a :: 0 <= a < i ==> !IsFree(s[a]);
    assert forall a :: 0 <= a <= i ==> !IsFree(r[a]);
  }

  /** A pass that has compacted every position leaves occupied partitions before free ones. */
  lemma CompactionDone(s: seq<Partition>)
    requires CompactedBefore(s, |s|)
    ensures OccupiedBeforeFree(s)
  {
  }

  /** When the pair is adjacent, the occupied partition starts where the free one started. */
  lemma AdjacentSwapOffsets(s: seq<Partition>, i: nat)
    requires i + 1 < |s|
    ensures Start(Swap(s, i, i + 1), i) == Start(s, i)
    ensures Start(Swap(s, i, i + 1), i + 1) == Start(s, i) + s[i + 1].size
    ensures Start(Swap(s, i, i + 1), i + 2) == Start(s, i + 2)
  {
    var r := Swap(s, i, i + 1);
    assert r[..i] == s[..i];
    TotalSizePrefix(r, i);
    TotalSizePrefix(r, i + 1);
    TotalSizePrefix(s, i);
    TotalSizePrefix(s, i + 1);
  }

  /** The position of the first occupied partition at or after `e`. */
  function NextOccupied(s: seq<Partition>, e: nat): (r: Option<nat>)
    requires e <= |s|
    ensures r.Some? ==> e <= r.value < |s| && !IsFree(s[r.value])
    ensures r.Some? ==> forall m :: e <= m < r.value ==> IsFree(s[m])
    ensures r.None? ==> forall m :: e <= m < |s| ==> IsFree(s[m])
    decreases |s| - e
  {
    if e == |s| then None
    else if !IsFree(s[e]) then Some(e)
    else NextOccupied(s, e + 1)
  }

  /** Position `i` of the compaction pass: a free partition there changes place with the nearest later occupied one, if any. */
  function CompactStep(s: seq<Partition>, i: nat): (r: seq<Partition>)
    requires i < |s|
    ensures |r| == |s|
  {
    if IsFree(s[i]) && NextOccupied(s, i).Some? then Swap(s, i, NextOccupied(s, i).value) else s
  }

  /** The compaction pass over positions `i` to the last, in order. */
  function Compact(s: seq<Partition>, i: nat): (r: seq<Partition>)
    requires i <= |s|
    ensures |r| == |s|
    decreases |s| - i
  {
    if i == |s| then s else Compact(CompactStep(s, i), i + 1)
  }

  /** One step extends the compacted prefix and only rearranges the partitions. */
  lemma CompactStepProperties(s: seq<Partition>, i: nat)
    requires i < |s| && CompactedBefore(s, i)
    ensures CompactedBefore(CompactStep(s, i), i + 1)
    ensures multiset(CompactStep(s, i)) == multiset(s)
    ensures Occupied(CompactStep(s, i)) == Occupied(s) && TotalSize(CompactStep(s, i)) == TotalSize(s)
  {
    if IsFree(s[i]) && NextOccupied(s, i).Some? {
      var e := NextOccupied(s, i).value;
      CompactionSwapStep(s, i, e);
      SwapOccupied(s, i, e);
      SwapPermutes(s, i, e);
      SwapTotalSize(s, i, e);
    } else {
      CompactionSkipStep(s, i);
    }
  }

  /**
   * The rest of a pass whose first `i` positions are done leaves every
   * occupied partition before every free one, and is a permutation that
   * keeps the occupied partitions in their order and the used memory.
   */
  lemma {:induction false} CompactFrom(s: seq<Partition>, i: nat)
    requires i <= |s| && CompactedBefore(s, i)
    ensures OccupiedBeforeFree(Compact(s, i))
    ensures multiset(Compact(s, i)) == multiset(s)
    ensures Occupied(Compact(s, i)) == Occupied(s) && TotalSize(Compact(s, i)) == TotalSize(s)
    decreases |s| - i
  {
    if i == |s| {
      CompactionDone(s);
    } else {
      CompactStepProperties(s, i);
      CompactFrom(CompactStep(s, i), i + 1);
    }
  }

  /** A pass over a table whose occupied partitions already come first changes nothing. */
  lemma {:induction false} CompactSorted(s: seq<Partition>, i: nat)
    requires i <= |s| && OccupiedBeforeFree(s)
    ensures Compact(s, i) == s
    decreases |s| - i
  {
    if i < |s| {
      assert CompactStep(s, i) == s;
      CompactSorted(s, i + 1);
    }
  }

  /**
   * The tables a whole pass leaves unchanged are exactly those with the
   * occupied partitions first; in particular a second pass changes nothing.
   */
  lemma CompactFixpoints(s: seq<Partition>)
    ensures Compact(s, 0) == s <==> OccupiedBeforeFree(s)
    ensures Compact(Compact(s, 0), 0) == Compact(s, 0)
  {
    CompactFrom(s, 0);
    if OccupiedBeforeFree(s) {
      CompactSorted(s, 0);
    }
    CompactSorted(Compact(s, 0), 0);
  }

  // ---------------------------------------------------------- condensation

  /** The number of consecutive free partitions starting at position `i`. */
  function RunLength(s: seq<Partition>, i: nat): (k: nat)
    requires i <= |s|
    ensures i + k <= |s|
    ensures forall m :: i <= m < i + k ==> IsFree(s[m])
    ensures i + k < |s| ==> !IsFree(s[i + k])
    decreases |s| - i
  {
    if i == |s| || !IsFree(s[i]) then 0 else 1 + RunLength(s, i + 1)
  }

  /** A run of free partitions from `i` that stops at `e` has length `e - i`. */
  lemma {:induction false} RunLengthExact(s: seq<Partition>, i: nat, e: nat)
    requires i <= e <= |s|
    requires forall m :: i <= m < e ==> IsFree(s[m])
    requires e == |s| || !IsFree(s[e])
    ensures RunLength(s, i) == e - i
    decreases e - i
  {
    if i < e {
      RunLengthExact(s, i + 1, e);
    }
  }

  /** The summed size of a run grows by the size of the next partition. */
  lemma RunSizeStep(s: seq<Partition>, i: nat, e: nat)
    requires i <= e < |s|
    ensures TotalSize(s[i..e + 1]) == TotalSize(s[i..e]) + s[e].size
  {
    var t := s[i..];
    TotalSizePrefix(t, e - i);
    assert t[..e - i] == s[i..e] && t[..e - i + 1] == s[i..e + 1];
  }

  /** No two adjacent partitions are both free. */
  predicate NoAdjacentFree(s: seq<Partition>) {
    forall j :: 0 <= j < |s| - 1 ==> !(IsFree(s[j]) && IsFree(s[j + 1]))
  }

  /** The scan of `merge_storage_partitions` from position `i`: the first position starting a run of two or more free partitions. */
  function FirstRunFrom(s: seq<Partition>, i: nat): (r: Option<nat>)
    requires i <= |s|
    ensures r.Some? ==> i <= r.value < |s| && RunLength(s, r.value) >= 2
    ensures r.Some? ==> forall m :: i <= m < r.value ==> RunLength(s, m) < 2
    ensures r.None? ==> forall m :: i <= m < |s| ==> RunLength(s, m) < 2
    decreases |s| - i
  {
    if i == |s| then None
    else if RunLength(s, i) >= 2 then Some(i)
    else FirstRunFrom(s, i + 1)
  }

  /** There is a run to merge exactly when two adjacent partitions are free. */
  lemma FirstRunNone(s: seq<Partition>)
    ensures FirstRunFrom(s, 0).None? <==> NoAdjacentFree(s)
  {
    if FirstRunFrom(s, 0).None? {
      forall j | 0 <= j < |s| - 1
        ensures !(IsFree(s[j]) && IsFree(s[j + 1]))
      {
        assert RunLength(s, j) < 2;
        if IsFree(s[j]) {
          assert RunLength(s, j) == 1 + RunLength(s, j + 1);
        }
      }
    } else {
      var j := FirstRunFrom(s, 0).value;
      assert IsFree(s[j]) && IsFree(s[j + 1]);
    }
  }

  /**
   * The merge of the `k` free partitions starting at `i` into one free
   * partition numbered `n` holding their summed size; later partitions move
   * `k - 1` positions down.
   */
  function MergeRun(s: seq<Partition>, i: nat, k: nat, n: int): (r: seq<Partition>)
    requires i + k <= |s|
    ensures |r| == |s| - k + 1
  {
    s[..i] + ([Partition(n, TotalSize(s[i..i + k]), None)] + s[i + k..])
  }

  lemma MergeRunShape(s: seq<Partition>, i: nat, k: nat, n: int)
    requires i + k <= |s| && k >= 1
    requires forall m :: i <= m < i + k ==> IsFree(s[m])
    ensures |MergeRun(s, i, k, n)| == |s| - k + 1
    ensures forall j :: 0 <= j < i ==> MergeRun(s, i, k, n)[j] == s[j]
    ensures MergeRun(s, i, k, n)[i] == Partition(n, TotalSize(s[i..i + k]), None)
    ensures forall j :: i + k <= j < |s| ==> MergeRun(s, i, k, n)[j - k + 1] == s[j]
    ensures TotalSize(MergeRun(s, i, k, n)) == TotalSize(s)
    ensures Occupied(MergeRun(s, i, k, n)) == Occupied(s)
  {
    MergeViews(s, i, k, Partition(n, TotalSize(s[i..i + k]), None));
  }

  /** Replacing a run of free entries by one free entry of their summed size keeps both views. */
  lemma MergeViews(s: seq<Partition>, i: nat, k: nat, x: Partition)
    requires i + k <= |s| && IsFree(x) && x.size == TotalSize(s[i..i + k])
    requires forall m :: i <= m < i + k ==> IsFree(s[m])
    ensures TotalSize(s[..i] + ([x] + s[i + k..])) == TotalSize(s)
    ensures Occupied(s[..i] + ([x] + s[i + k..])) == Occupied(s)
  {
    OccupiedAllFree(s[i..i + k]);
    MergeViewsGap(s, i, k, x);
  }

  lemma MergeViewsGap(s: seq<Partition>, i: nat, k: nat, x: Partition)
    requires i + k <= |s| && IsFree(x) && x.size == TotalSize(s[i..i + k])
    requires Occupied(s[i..i + k]) == []
    ensures TotalSize(s[..i] + ([x] + s[i + k..])) == TotalSize(s)
    ensures Occupied(s[..i] + ([x] + s[i + k..])) == Occupied(s)
  {
    Cut(s, i, i + k);
    RunViews(s[..i], s[i..i + k], s[i + k..]);
    Views3(s[..i], x, s[i + k..]);
    DropEmpty(Occupied(s[..i]), Own(x), Occupied(s[i + k..]));
  }

  lemma Cut(s: seq<Partition>, i: nat, j: nat)
    requires i <= j <= |s|
    ensures s == s[..i] + (s[i..j] + s[j..])
  {
  }

  lemma RunViews(h: seq<Partition>, run: seq<Partition>, t: seq<Partition>)
    requires Occupied(run) == []
    ensures TotalSize(h + (run + t)) == TotalSize(h) + (TotalSize(run) + TotalSize(t))
    ensures Occupied(h + (run + t)) == Occupied(h) + Occupied(t)
  {
    OccupiedConcat(h, run + t);
    OccupiedConcat(run, t);
    TotalSizeConcat(h, run + t);
    TotalSizeConcat(run, t);
    DropEmpty(Occupied(h), Occupied(run), Occupied(t));
  }

  /**
   * `merge_storage_partitions` as a value: repeatedly merge the first run of
   * two or more free partitions, numbering the new partitions `n`, `n + 1`, ...;
   * returns the final table and the number of merges.
   */
  function Condense(s: seq<Partition>, n: int): (seq<Partition>, nat)
    decreases |s|
  {
    match FirstRunFrom(s, 0)
    case None => (s, 0)
    case Some(i) =>
      var k := RunLength(s, i);
      var rest := Condense(MergeRun(s, i, k, n), n + 1);
      (rest.0, rest.1 + 1)
  }

  /** One step of condensation: no run leaves the table as it is, a run is merged and the rest condensed. */
  lemma CondenseStep(s: seq<Partition>, n: int)
    ensures FirstRunFrom(s, 0).None? ==> Condense(s, n) == (s, 0)
    ensures FirstRunFrom(s, 0).Some? ==>
      var i := FirstRunFrom(s, 0).value;
      var t := Condense(MergeRun(s, i, RunLength(s, i), n), n + 1);
      Condense(s, n) == (t.0, t.1 + 1)
  {
    match FirstRunFrom(s, 0)
    case None =>
    case Some(i) =>
      var t := Condense(MergeRun(s, i, RunLength(s, i), n), n + 1);
      assert Condense(s, n) == (t.0, t.1 + 1);
  }

  /** Merging the first run leaves the rest of the condensation to do, with the same views and a shorter table. */
  lemma CondenseAfterMerge(s: seq<Partition>, n: int)
    requires FirstRunFrom(s, 0).Some?
    ensures
      var i := FirstRunFrom(s, 0).value;
      var t := MergeRun(s, i, RunLength(s, i), n);
      Condense(t, n + 1).0 == Condense(s, n).0 && Condense(t, n + 1).1 + 1 == Condense(s, n).1 &&
      TotalSize(t) == TotalSize(s) && Occupied(t) == Occupied(s) && |t| < |s|
  {
    var i := FirstRunFrom(s, 0).value;
    MergeRunShape(s, i, RunLength(s, i), n);
    CondenseStep(s, n);
  }

  /**
   * Condensation leaves no two adjacent free partitions, keeps the used
   * memory and every occupied partition in its order, and merges at all
   * exactly when two adjacent partitions were free.
   */
  lemma {:induction false} CondenseProperties(s: seq<Partition>, n: int)
    ensures NoAdjacentFree(Condense(s, n).0)
    ensures TotalSize(Condense(s, n).0) == TotalSize(s)
    ensures Occupied(Condense(s, n).0) == Occupied(s)
    ensures |Condense(s, n).0| + Condense(s, n).1 <= |s|
    ensures Condense(s, n).1 == 0 <==> NoAdjacentFree(s)
    ensures Condense(s, n).1 == 0 ==> Condense(s, n).0 == s
    decreases |s|
  {
    FirstRunNone(s);
    match FirstRunFrom(s, 0)
    case None =>
    case Some(i) =>
      var k := RunLength(s, i);
      MergeRunShape(s, i, k, n);
      CondenseProperties(MergeRun(s, i, k, n), n + 1);
  }

  /** A second condensation changes nothing and merges nothing. */
  lemma CondenseIdempotent(s: seq<Partition>, n: int, m: int)
    ensures Condense(Condense(s, n).0, m) == (Condense(s, n).0, 0)
  {
    var t := Condense(s, n).0;
    CondenseProperties(s, n);
    FirstRunNone(t);
  }
}
