/** The collection truck of truck.h and truck.c: it empties the most urgent
    bins of the global heap. */
module Trucks {
  import opened BinTypes
  import opened Priority
  import opened BinOps

  /** The priorities of a sequence of collected nodes never go up. */
  ghost predicate NonIncreasing(c: seq<HeapNode>) {
    forall a, b :: 0 <= a < b < |c| ==> c[b].priority <= c[a].priority
  }

  /** The bins of the collected nodes were all emptied. */
  ghost predicate Emptied(c: seq<HeapNode>)
    reads set k | 0 <= k < |c| && c[k].bin != null :: c[k].bin
  {
    forall k :: 0 <= k < |c| ==> c[k].bin != null && c[k].bin.currentFill == 0 && c[k].bin.status == Empty
  }

  /** Collecting from a heap of distinct ids: heap h and the collected
      nodes c split the original nodes s0, and no collected bin is left in h. */
  ghost predicate UniqueProgress(s0: seq<HeapNode>, h: seq<HeapNode>, c: seq<HeapNode>) {
    && NonNull(h) && UniqueIds(h)
    && multiset(h) + multiset(c) == multiset(s0)
    && forall k :: 0 <= k < |c| ==> Absent(h, c[k].bin)
  }

  /** Collecting from a heap-ordered heap: h is still ordered, the collected
      priorities never go up, and the last one bounds everything left. */
  ghost predicate OrderedProgress(h: seq<HeapNode>, c: seq<HeapNode>) {
    && HeapOrdered(h) && NonIncreasing(c)
    && (|c| > 0 ==> AllAtMost(h, c[|c| - 1].priority))
  }

  /** What one pass of the `collect_bins` loop does to the heap's nodes:
      the popped node top and at most one more node leave; with distinct
      ids exactly top leaves and its bin is gone; a heap-ordered heap stays
      ordered and top was its maximum. */
  ghost predicate Took(before: seq<HeapNode>, after: seq<HeapNode>, top: HeapNode) {
    && NonNull(before) && NonNull(after) && top.bin != null
    && multiset(after) + multiset{top} <= multiset(before) && |after| < |before|
    && (UniqueIds(before) ==>
          && UniqueIds(after) && multiset(after) == multiset(before) - multiset{top}
          && |after| == |before| - 1 && Absent(after, top.bin))
    && (HeapOrdered(before) ==> HeapOrdered(after) && AllAtMost(before, top.priority))
  }

  /** The loop invariant of `collect_bins`: h is the heap, c the nodes
      collected so far out of the original nodes s0. */
  ghost predicate Progress(s0: seq<HeapNode>, h: seq<HeapNode>, c: seq<HeapNode>, unique: bool, ordered: bool) {
    && NonNull(h) && multiset(h) + multiset(c) <= multiset(s0) && |h| <= |s0| - |c|
    && (unique ==> |h| == |s0| - |c| && UniqueProgress(s0, h, c))
    && (ordered ==> OrderedProgress(h, c))
  }

  /** No node of c stands for bin b. */
  ghost predicate Uncollected(c: seq<HeapNode>, b: Bin?) {
    forall k :: 0 <= k < |c| ==> c[k].bin != b
  }

  /** A bin not among c + [top] is neither among c nor top's bin. */
  lemma UncollectedSnoc(c: seq<HeapNode>, top: HeapNode)
    ensures forall b :: Uncollected(c + [top], b) ==> Uncollected(c, b) && top.bin != b
  {
    forall b | Uncollected(c + [top], b)
      ensures Uncollected(c, b) && top.bin != b
    {
      assert (c + [top])[|c|] == top;
      assert forall k :: 0 <= k < |c| ==> (c + [top])[k] == c[k];
    }
  }

  /** How many bins `collect_bins` takes from a heap of n distinct bins
      when allowed at most maxBins. */
  function CollectCount(maxBins: int, n: nat): (c: nat)
    ensures c <= n
    ensures maxBins >= 0 ==> c <= maxBins
    ensures c < n ==> c == (if maxBins < 0 then 0 else maxBins)
    ensures maxBins <= 0 ==> c == 0
  {
    if maxBins <= 0 then 0 else if maxBins < n then maxBins else n
  }

  /** A count that stopped either at the heap size or at the limit is the
      count `collect_bins` promises. */
  lemma CountReached(maxBins: int, n: nat, c: nat)
    requires c <= n && (maxBins >= 0 ==> c <= maxBins) && (c == 0 || c <= maxBins)
    requires c == n || c >= maxBins
    ensures c == CollectCount(maxBins, n)
  {
  }

  class Truck {
    const id: int
    const capacity: int
    var load: int

    /** `init_truck`: the given id and capacity, and nothing on board. */
    constructor (id: int, capacity: int)
      ensures this.id == id && this.capacity == capacity && load == 0
    {
      this.id := id;
      this.capacity := capacity;
      load := 0;
    }

    /** `reset_truck_load`: the truck is unloaded at the depot. */
    method ResetTruckLoad()
      modifies this
      ensures load == 0
    {
      load := 0;
    }

    /** `collect_bins`: pop up to maxBins bins off the heap, empty each one
        and count it into the load. `collected` lists the popped nodes in
        order; `bins` is any set of bins that includes those in the heap.
        The load is not checked against the capacity. */
    method CollectBins(heap: PriorityQueue, maxBins: int, ghost bins: set<Bin?>) returns (ghost collected: seq<HeapNode>)
      requires heap.Valid() && BinsIn(heap.Elements(), bins)
      modifies this, heap, heap.nodes, bins
      ensures heap.Valid()
      ensures load == old(load) + |collected|
      ensures maxBins >= 0 ==> |collected| <= maxBins
      ensures maxBins > |collected| ==> heap.size == 0
      ensures Emptied(collected)
      ensures Progress(old(heap.Elements()), heap.Elements(), collected,
                       old(UniqueIds(heap.Elements())), old(HeapOrdered(heap.Elements())))
      ensures old(UniqueIds(heap.Elements())) ==> |collected| == CollectCount(maxBins, old(heap.size))
      ensures forall b :: b in bins && b != null && Uncollected(collected, b) ==>
                b.currentFill == old(b.currentFill) && b.status == old(b.status)
    {
      ghost var s0 := heap.Elements();
      ghost var unique := UniqueIds(s0);
      ghost var ordered := HeapOrdered(s0);
      collected := [];
      assert s0 == s0 + [];
      var i := 0;
      while i < maxBins
        invariant heap.Valid() && 0 <= i && |collected| == i
        invariant i == 0 || i <= maxBins
        invariant load == old(load) + i
        invariant BinsIn(heap.Elements(), bins)
        invariant Emptied(collected)
        invariant Progress(s0, heap.Elements(), collected, unique, ordered)
        invariant forall b :: b in bins && b != null && Uncollected(collected, b) ==>
                    b.currentFill == old(b.currentFill) && b.status == old(b.status)
      {
        var bin;
        bin, collected := CollectRound(heap, s0, collected, unique, ordered, bins);
        if bin == null {
          break;
        }
        i := i + 1;
      }
      if unique {
        CountReached(maxBins, |s0|, |collected|);
      }
    }

    /** One pass of the `collect_bins` loop together with what the loop
        keeps: c becomes c', which has the popped node added, and only the
        popped bin changes. */
    method CollectRound(heap: PriorityQueue, ghost s0: seq<HeapNode>, ghost c: seq<HeapNode>,
                        ghost unique: bool, ghost ordered: bool, ghost bins: set<Bin?>)
      returns (bin: Bin?, ghost c': seq<HeapNode>)
      requires heap.Valid() && BinsIn(heap.Elements(), bins) && Emptied(c)
      requires Progress(s0, heap.Elements(), c, unique, ordered)
      modifies this, heap, heap.nodes, if heap.size > 0 then {heap.nodes[0].bin} else {}
      ensures heap.Valid() && BinsIn(heap.Elements(), bins) && Emptied(c')
      ensures Progress(s0, heap.Elements(), c', unique, ordered)
      ensures bin == null ==> old(heap.size) == 0 && heap.size == 0 && c' == c && load == old(load)
      ensures bin != null ==> |c'| == |c| + 1 && load == old(load) + 1
      ensures forall b :: b in bins && b != null && Uncollected(c', b) ==>
                Uncollected(c, b) && b.currentFill == old(b.currentFill) && b.status == old(b.status)
    {
      ghost var before := heap.Elements();
      ghost var top;
      bin, top := CollectNext(heap, c);
      c' := c;
      if bin != null {
        RoundKeeps(s0, before, heap.Elements(), c, top, unique, ordered, bins);
        UncollectedSnoc(c, top);
        c' := c + [top];
      }
    }

    /** One pass of the `collect_bins` loop: the next bin is popped and
        emptied, and the load counts it. */
    method CollectNext(heap: PriorityQueue, ghost c: seq<HeapNode>) returns (bin: Bin?, ghost top: HeapNode)
      requires heap.Valid() && Emptied(c)
      modifies this, heap, heap.nodes, if heap.size > 0 then {heap.nodes[0].bin} else {}
      ensures heap.Valid()
      ensures old(heap.size) == 0 ==> bin == null && heap.Elements() == old(heap.Elements()) && load == old(load)
      ensures old(heap.size) > 0 ==>
        && top == old(heap.nodes[0]) && bin == top.bin && bin != null
        && load == old(load) + 1
        && Emptied(c + [top])
        && Took(old(heap.Elements()), heap.Elements(), top)
    {
      bin, top := CollectOne(heap, c);
      if bin != null {
        load := load + 1;
      }
    }
  }

  /** The body of the `collect_bins` loop: pop the top bin and reset it.
      Only that bin, and the heap, change, so the bins c collected earlier
      stay empty. */
  method CollectOne(heap: PriorityQueue, ghost c: seq<HeapNode>) returns (bin: Bin?, ghost top: HeapNode)
    requires heap.Valid() && Emptied(c)
    modifies heap, heap.nodes, if heap.size > 0 then {heap.nodes[0].bin} else {}
    ensures heap.Valid()
    ensures old(heap.size) == 0 ==> bin == null && heap.Elements() == old(heap.Elements())
    ensures old(heap.size) > 0 ==>
      && top == old(heap.nodes[0]) && bin == top.bin && bin != null
      && Emptied(c + [top])
      && Took(old(heap.Elements()), heap.Elements(), top)
  {
    top := if heap.size > 0 then heap.nodes[0] else HeapNode(null, 0);
    ghost var before := heap.Elements();
    bin := heap.Pop();
    if bin == null {
      return;
    }
    ghost var popped := heap.Elements();
    assert top in multiset(before) by {
      assert before[0] == top;
    }
    ResetBin(bin, heap);
    forall k | 0 <= k < |c| && c[k].bin != bin
      ensures c[k].bin.currentFill == 0 && c[k].bin.status == Empty
    {
      assert old(c[k].bin.currentFill) == 0 && old(c[k].bin.status) == Empty;
    }
    if UniqueIds(before) {
      assert FindBin(popped, bin) < 0;
    }
    assert heap.size <= |popped| < |before|;
  }

  /** One pass of the `collect_bins` loop keeps its invariant. */
  lemma RoundKeeps(s0: seq<HeapNode>, before: seq<HeapNode>, after: seq<HeapNode>,
                   c: seq<HeapNode>, top: HeapNode, unique: bool, ordered: bool, bins: set<Bin?>)
    requires Progress(s0, before, c, unique, ordered) && Took(before, after, top)
    requires BinsIn(before, bins)
    ensures Progress(s0, after, c + [top], unique, ordered)
    ensures BinsIn(after, bins)
  {
    BinsInSub(before, after, bins);
    if unique {
      UniqueRound(s0, before, after, c, top);
    }
    if ordered {
      OrderedRound(before, after, c, top);
    }
  }

  /** One round of `collect_bins` on a heap of distinct ids: `before` is
      the heap before the round and `after` the heap after it. */
  lemma UniqueRound(s0: seq<HeapNode>, before: seq<HeapNode>, after: seq<HeapNode>,
                    c: seq<HeapNode>, top: HeapNode)
    requires UniqueProgress(s0, before, c) && NonNull(after) && UniqueIds(after)
    requires multiset(after) + multiset{top} <= multiset(before)
    requires multiset(after) == multiset(before) - multiset{top}
    requires Absent(after, top.bin)
    ensures UniqueProgress(s0, after, c + [top])
  {
    var c' := c + [top];
    assert top in multiset(before) by {
      assert multiset{top}[top] == 1;
    }
    forall k | 0 <= k < |c'|
      ensures Absent(after, c'[k].bin)
    {
      if k < |c| {
        AbsentKept(before, after, c[k].bin);
      }
    }
  }

  /** One round of `collect_bins` on a heap-ordered heap: the popped root
      is no larger than what came before and bounds what is left. */
  lemma OrderedRound(before: seq<HeapNode>, after: seq<HeapNode>, c: seq<HeapNode>, top: HeapNode)
    requires OrderedProgress(before, c) && HeapOrdered(after)
    requires multiset(after) + multiset{top} <= multiset(before)
    requires AllAtMost(before, top.priority)
    ensures OrderedProgress(after, c + [top])
  {
    assert top in multiset(before) by {
      assert multiset{top}[top] == 1;
    }
    if |c| > 0 {
      var m :| 0 <= m < |before| && before[m] == top;
    }
    AtMostKept(before, after, top.priority);
  }
}
