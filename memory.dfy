/**
 * The memory aggregate: one partition per process, each as large as its
 * process, and the total of their sizes.
 */
module Memory {
  import Processes

  /** A partition of the aggregate: the process it holds and its size. */
  datatype Partition = Partition(process: Processes.Process, size: int)

  /** The sum of the sizes of `s`, added up from the front. */
  function SumSizes(s: seq<Partition>): (r: int)
    ensures (forall i :: 0 <= i < |s| ==> s[i].size >= 0) ==> r >= 0
  {
    if s == [] then 0 else SumSizes(s[..|s| - 1]) + s[|s| - 1].size
  }

  /** The total of a concatenation is the sum of the two totals. */
  lemma {:induction false} SumSizesAppend(a: seq<Partition>, b: seq<Partition>)
    ensures SumSizes(a + b) == SumSizes(a) + SumSizes(b)
    decreases |b|
  {
    if b != [] {
      var b0 := b[..|b| - 1];
      assert (a + b)[..|a + b| - 1] == a + b0;
      assert (a + b)[|a + b| - 1] == b[|b| - 1];
      SumSizesAppend(a, b0);
    } else {
      assert a + b == a;
    }
  }

  /** Sizes that are all non-negative add up to a non-negative total that bounds each of them. */
  lemma {:induction false} SumSizesBounds(s: seq<Partition>)
    requires forall i :: 0 <= i < |s| ==> s[i].size >= 0
    ensures SumSizes(s) >= 0
    ensures forall i :: 0 <= i < |s| ==> s[i].size <= SumSizes(s)
  {
    if s != [] {
      var s0 := s[..|s| - 1];
      SumSizesBounds(s0);
      forall i | 0 <= i < |s|
        ensures s[i].size <= SumSizes(s)
      {
        if i < |s| - 1 {
          assert s[i] == s0[i];
        }
      }
    }
  }

  class Memory {
    var partitions: seq<Partition>

    /**
     * `Memory::new`: one partition per process, in the order of `processes`,
     * each holding its process and sized by it.
     */
    constructor (processes: seq<Processes.Process>)
      ensures |partitions| == |processes|
      ensures forall i :: 0 <= i < |processes| ==> partitions[i] == Partition(processes[i], processes[i].size)
    {
      partitions := [];
      new;
      var i := 0;
      while i < |processes|
        invariant 0 <= i <= |processes|
        invariant |partitions| == i
        invariant forall j :: 0 <= j < i ==> partitions[j] == Partition(processes[j], processes[j].size)
      {
        var p := processes[i];
        partitions := partitions + [Partition(p, p.size)];
        i := i + 1;
      }
    }

    /** `get_total_memory_size`: the sum of the partition sizes, 0 for no partitions. */
    method GetTotalMemorySize() returns (total: int)
      ensures total == SumSizes(partitions)
      ensures partitions == [] ==> total == 0
    {
      total := 0;
      var i := 0;
      while i < |partitions|
        invariant 0 <= i <= |partitions|
        invariant total == SumSizes(partitions[..i])
      {
        assert partitions[..i + 1][..i] == partitions[..i];
        total := total + partitions[i].size;
        i := i + 1;
      }
      assert partitions[..i] == partitions;
    }
  }
}
