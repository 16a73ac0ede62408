/** The fixed-capacity max-heap of bins keyed by fill percentage
    (priority.h, priority.c). */
module Priority {
  import opened BinTypes

  /** Capacity of the node array (priority.h). */
  const MAX_BINS := 100

  /** One heap slot: the bin it stands for and the priority it was given. A
      slot of the zero-initialised global array holds no bin. */
  datatype HeapNode = HeapNode(bin: Bin?, priority: int)

  /** `get_bin_priority`: the bin's fill percentage. A fill within the
      bin's capacity gives a priority between 0 and 100, and a full bin the
      highest possible one. */
  function NodeFor(bin: Bin, fill: int): (n: HeapNode)
    requires bin.capacity != 0
    ensures n.bin == bin && n.priority == Percent(fill, bin.capacity)
    ensures 0 <= fill <= bin.capacity ==> 0 <= n.priority <= 100
    ensures 0 < fill == bin.capacity ==> n.priority == 100
  {
    if 0 <= fill <= bin.capacity && bin.capacity > 0 then
      PercentBounds(fill, bin.capacity);
      HeapNode(bin, Percent(fill, bin.capacity))
    else
      HeapNode(bin, Percent(fill, bin.capacity))
  }

  /** Parent slot of slot k > 0 in the array layout of the heap. */
  function Parent(k: int): int {
    (k - 1) / 2
  }

  // ---------------------------------------------------------------------
  // Properties of a node sequence nodes[0..size)
  // ---------------------------------------------------------------------

  ghost predicate NonNull(s: seq<HeapNode>) {
    forall k :: 0 <= k < |s| ==> s[k].bin != null
  }

  /** No two slots hold bins with the same id. */
  ghost predicate UniqueIds(s: seq<HeapNode>)
    requires NonNull(s)
  {
    forall i, j :: 0 <= i < j < |s| ==> s[i].bin.id != s[j].bin.id
  }

  /** The max-heap invariant: no node's priority exceeds its parent's. */
  ghost predicate HeapOrdered(s: seq<HeapNode>) {
    forall k {:trigger s[Parent(k)]} :: 0 < k < |s| ==> s[k].priority <= s[Parent(k)].priority
  }

  /** Heap order except, possibly, between slot i and its parent; the
      children of i are bounded by i's parent (sift-up in progress). */
  ghost predicate OrderedExceptUp(s: seq<HeapNode>, i: int)
    requires 0 <= i < |s|
  {
    && (forall k {:trigger s[Parent(k)]} :: 0 < k < |s| && k != i ==> s[k].priority <= s[Parent(k)].priority)
    && (0 < i && 2 * i + 1 < |s| ==> s[2 * i + 1].priority <= s[Parent(i)].priority)
    && (0 < i && 2 * i + 2 < |s| ==> s[2 * i + 2].priority <= s[Parent(i)].priority)
  }

  /** Heap order except, possibly, between slot i and its children; the
      children of i are bounded by i's parent (sift-down in progress). */
  ghost predicate OrderedExceptDown(s: seq<HeapNode>, i: int)
    requires 0 <= i < |s|
  {
    && (forall k {:trigger s[Parent(k)]} :: 0 < k < |s| && Parent(k) != i ==> s[k].priority <= s[Parent(k)].priority)
    && (0 < i && 2 * i + 1 < |s| ==> s[2 * i + 1].priority <= s[Parent(i)].priority)
    && (0 < i && 2 * i + 2 < |s| ==> s[2 * i + 2].priority <= s[Parent(i)].priority)
  }

  /** Index of the first slot whose bin has this id, or -1 (the search of
      `update_bin_priority`). */
  ghost function FindId(s: seq<HeapNode>, id: int): (r: int)
    requires NonNull(s)
    ensures -1 <= r < |s|
    ensures r >= 0 ==> s[r].bin.id == id && forall k :: 0 <= k < r ==> s[k].bin.id != id
    ensures r == -1 ==> forall k :: 0 <= k < |s| ==> s[k].bin.id != id
  {
    if |s| == 0 then -1
    else if s[0].bin.id == id then 0
    else var r := FindId(s[1..], id); if r < 0 then -1 else r + 1
  }

  /** Index of the first slot holding exactly this bin, or -1 (the search of
      `remove_bin_from_heap`, which compares addresses). */
  ghost function FindBin(s: seq<HeapNode>, bin: Bin): (r: int)
    ensures -1 <= r < |s|
    ensures r >= 0 ==> s[r].bin == bin && forall k :: 0 <= k < r ==> s[k].bin != bin
    ensures r == -1 ==> forall k :: 0 <= k < |s| ==> s[k].bin != bin
  {
    if |s| == 0 then -1
    else if s[0].bin == bin then 0
    else var r := FindBin(s[1..], bin); if r < 0 then -1 else r + 1
  }

  /** What `push_bin_priority` does to the node sequence: nothing when the
      array is full, otherwise one more node. */
  ghost predicate PushEffect(s: seq<HeapNode>, t: seq<HeapNode>, n: HeapNode) {
    if |s| >= MAX_BINS then t == s
    else |t| == |s| + 1 && multiset(t) == multiset(s) + multiset{n}
  }

  /** What `update_bin_priority` does: rewrite the priority of the first node
      with the bin's id, or else push a new node. */
  /** The first node with this id, if any, has a priority of at most p:
      giving it p does not lower it. */
  ghost predicate NotLowered(s: seq<HeapNode>, id: int, p: int)
    requires NonNull(s)
  {
    var i := FindId(s, id);
    i == -1 || s[i].priority <= p
  }

  ghost predicate UpdateEffect(s: seq<HeapNode>, t: seq<HeapNode>, bin: Bin, p: int)
    requires NonNull(s)
  {
    var i := FindId(s, bin.id);
    if i >= 0 then
      |t| == |s| && multiset(t) == multiset(s) - multiset{s[i]} + multiset{HeapNode(s[i].bin, p)}
    else
      PushEffect(s, t, HeapNode(bin, p))
  }

  /** What `remove_bin_from_heap` does: drop the first node holding the bin,
      if there is one. */
  ghost predicate RemoveEffect(s: seq<HeapNode>, t: seq<HeapNode>, bin: Bin) {
    var i := FindBin(s, bin);
    if i < 0 then t == s
    else |t| == |s| - 1 && multiset(t) == multiset(s) - multiset{s[i]}
  }

  /** The node sequence holds a node for a bin with this id at priority p. */
  ghost predicate Registered(s: seq<HeapNode>, id: int, p: int)
    requires NonNull(s)
  {
    exists k :: 0 <= k < |s| && s[k].bin.id == id && s[k].priority == p
  }

  // ---------------------------------------------------------------------
  // Lemmas about node sequences
  // ---------------------------------------------------------------------

  /** In a heap-ordered sequence every node is bounded by its ancestors, so
      the root has maximal priority. */
  lemma {:induction false} RootIsMax(s: seq<HeapNode>, k: int)
    requires HeapOrdered(s) && 0 <= k < |s|
    ensures s[k].priority <= s[0].priority
    decreases k
  {
    if k > 0 {
      RootIsMax(s, Parent(k));
    }
  }

  /** No node of s has a priority above p. */
  ghost predicate AllAtMost(s: seq<HeapNode>, p: int) {
    forall k :: 0 <= k < |s| ==> s[k].priority <= p
  }

  /** Every node of s refers to a bin of the set. */
  ghost predicate BinsIn(s: seq<HeapNode>, bins: set<Bin?>) {
    forall k :: 0 <= k < |s| ==> s[k].bin in bins
  }

  /** A sub-multiset of nodes refers to no bin beyond the original's. */
  lemma BinsInSub(s: seq<HeapNode>, t: seq<HeapNode>, bins: set<Bin?>)
    requires multiset(t) <= multiset(s) && BinsIn(s, bins)
    ensures BinsIn(t, bins)
  {
    forall k | 0 <= k < |t|
      ensures t[k].bin in bins
    {
      assert t[k] in multiset(s);
      var m :| 0 <= m < |s| && s[m] == t[k];
    }
  }

  /** Every priority bound survives the passage to a sub-multiset. */
  lemma AtMostKept(s: seq<HeapNode>, t: seq<HeapNode>, p: int)
    requires multiset(t) <= multiset(s) && AllAtMost(s, p)
    ensures AllAtMost(t, p)
  {
    forall k | 0 <= k < |t|
      ensures t[k].priority <= p
    {
      assert t[k] in multiset(s);
      var m :| 0 <= m < |s| && s[m] == t[k];
    }
  }

  /** No node of s refers to this bin. */
  ghost predicate Absent(s: seq<HeapNode>, bin: Bin?) {
    forall k :: 0 <= k < |s| ==> s[k].bin != bin
  }

  /** A bin absent from a sequence stays absent from any sub-multiset. */
  lemma AbsentKept(s: seq<HeapNode>, t: seq<HeapNode>, bin: Bin?)
    requires multiset(t) <= multiset(s)
    ensures Absent(s, bin) ==> Absent(t, bin)
  {
    if Absent(s, bin) {
      forall k | 0 <= k < |t|
        ensures t[k].bin != bin
      {
        assert t[k] in multiset(s);
      }
    }
  }

  /** Removing one node of a sequence with unique ids leaves no node with
      that node's bin. */
  lemma DropUnique(s: seq<HeapNode>, t: seq<HeapNode>, i: int)
    requires NonNull(s) && UniqueIds(s) && 0 <= i < |s|
    requires multiset(t) == multiset(s) - multiset{s[i]}
    ensures Absent(t, s[i].bin)
  {
    assert s == s[..i] + [s[i]] + s[i + 1..];
    forall k | 0 <= k < |t|
      ensures t[k].bin != s[i].bin
    {
      assert t[k] in multiset(t);
      assert t[k] in multiset(s[..i]) + multiset(s[i + 1..]);
      if t[k] in s[..i] {
        var m :| 0 <= m < i && s[m] == t[k];
      } else {
        assert t[k] in s[i + 1..];
        var m :| i + 1 <= m < |s| && s[m] == t[k];
      }
    }
  }

  /** The effect of `update_bin_priority` registers the bin at priority p
      unless the id was absent and the array full. */
  lemma UpdateRegisters(s: seq<HeapNode>, t: seq<HeapNode>, bin: Bin, p: int)
    requires NonNull(s) && NonNull(t) && UpdateEffect(s, t, bin, p)
    requires FindId(s, bin.id) >= 0 || |s| < MAX_BINS
    ensures Registered(t, bin.id, p)
  {
    var i := FindId(s, bin.id);
    var n := if i >= 0 then HeapNode(s[i].bin, p) else HeapNode(bin, p);
    assert n in multiset(t);
    var k :| 0 <= k < |t| && t[k] == n;
    assert t[k].bin.id == bin.id && t[k].priority == p;
  }

  /** Swapping two slots keeps the nodes, non-null bins and unique ids. */
  lemma SwapKeeps(s: seq<HeapNode>, i: int, j: int)
    requires 0 <= i < |s| && 0 <= j < |s|
    ensures multiset(s[i := s[j]][j := s[i]]) == multiset(s)
    ensures NonNull(s) ==> NonNull(s[i := s[j]][j := s[i]])
    ensures NonNull(s) && UniqueIds(s) ==> UniqueIds(s[i := s[j]][j := s[i]])
  {
    var t := s[i := s[j]][j := s[i]];
    if NonNull(s) && UniqueIds(s) {
      forall a, b | 0 <= a < b < |t|
        ensures t[a].bin.id != t[b].bin.id
      {
        var a' := if a == i then j else if a == j then i else a;
        var b' := if b == i then j else if b == j then i else b;
        assert t[a] == s[a'] && t[b] == s[b'] && a' != b';
      }
    }
  }

  /** One sift-up swap moves the hole of the heap order one level up. */
  lemma SiftUpStep(s: seq<HeapNode>, j: int)
    requires 0 < j < |s| && OrderedExceptUp(s, j)
    requires s[j].priority > s[Parent(j)].priority
    ensures OrderedExceptUp(s[j := s[Parent(j)]][Parent(j) := s[j]], Parent(j))
  {
    var p := Parent(j);
    var t := s[j := s[p]][p := s[j]];
    forall k {:trigger t[Parent(k)]} | 0 < k < |t| && k != p
      ensures t[k].priority <= t[Parent(k)].priority
    {
      var q := Parent(k);
      if k == j {
        assert t[k] == s[p] && t[q] == s[j];
      } else if q == j {
        assert k == 2 * j + 1 || k == 2 * j + 2;
        assert t[k] == s[k] && t[q] == s[p];
      } else if q == p {
        assert t[k] == s[k] && t[q] == s[j];
      } else {
        assert t[k] == s[k] && t[q] == s[q];
      }
    }
    if 0 < p {
      var g := Parent(p);
      assert s[p].priority <= s[g].priority;
      assert t[g] == s[g];
      if 2 * p + 1 < |t| {
        assert Parent(2 * p + 1) == p;
      }
      if 2 * p + 2 < |t| {
        assert Parent(2 * p + 2) == p;
      }
    }
  }

  /** One sift-down swap with the larger child moves the hole one level
      down. */
  lemma SiftDownStep(s: seq<HeapNode>, j: int, c: int)
    requires 0 <= j < |s| && OrderedExceptDown(s, j)
    requires c == 2 * j + 1 || c == 2 * j + 2
    requires c < |s| && s[c].priority > s[j].priority
    requires 2 * j + 1 < |s| ==> s[2 * j + 1].priority <= s[c].priority
    requires 2 * j + 2 < |s| ==> s[2 * j + 2].priority <= s[c].priority
    ensures OrderedExceptDown(s[j := s[c]][c := s[j]], c)
  {
    var t := s[j := s[c]][c := s[j]];
    assert Parent(c) == j;
    forall k {:trigger t[Parent(k)]} | 0 < k < |t| && Parent(k) != c
      ensures t[k].priority <= t[Parent(k)].priority
    {
      SiftDownEdge(s, j, c, k);
    }
    if 2 * c + 1 < |t| {
      assert Parent(2 * c + 1) == c && t[2 * c + 1] == s[2 * c + 1] && t[c] == s[j];
    }
    if 2 * c + 2 < |t| {
      assert Parent(2 * c + 2) == c && t[2 * c + 2] == s[2 * c + 2];
    }
    assert t[Parent(c)] == s[c];
  }

  /** One edge of the sequence after a sift-down swap. */
  lemma SiftDownEdge(s: seq<HeapNode>, j: int, c: int, k: int)
    requires 0 <= j < |s| && OrderedExceptDown(s, j)
    requires c == 2 * j + 1 || c == 2 * j + 2
    requires c < |s| && s[c].priority > s[j].priority
    requires 2 * j + 1 < |s| ==> s[2 * j + 1].priority <= s[c].priority
    requires 2 * j + 2 < |s| ==> s[2 * j + 2].priority <= s[c].priority
    requires 0 < k < |s| && Parent(k) != c
    ensures var t := s[j := s[c]][c := s[j]]; t[k].priority <= t[Parent(k)].priority
  {
    var t := s[j := s[c]][c := s[j]];
    var q := Parent(k);
    if k == c {
      assert q == j && t[k] == s[j] && t[q] == s[c];
    } else if k == j {
      assert q < j && t[k] == s[c] && t[q] == s[q];
    } else if q == j {
      assert t[k] == s[k] && t[q] == s[c];
    } else {
      assert t[k] == s[k] && t[q] == s[q];
    }
  }

  /** Appending a node to a heap leaves only its edge to its parent out of
      order; a node with a fresh id keeps the ids distinct. */
  lemma AppendKeeps(s: seq<HeapNode>, n: HeapNode)
    ensures HeapOrdered(s) ==> OrderedExceptUp(s + [n], |s|)
    ensures NonNull(s) && n.bin != null ==> NonNull(s + [n])
    ensures NonNull(s) && n.bin != null && UniqueIds(s) && FindId(s, n.bin.id) == -1 ==> UniqueIds(s + [n])
  {
    var t := s + [n];
    if HeapOrdered(s) {
      forall k {:trigger t[Parent(k)]} | 0 < k < |t| && k != |s|
        ensures t[k].priority <= t[Parent(k)].priority
      {
        assert t[k] == s[k] && t[Parent(k)] == s[Parent(k)];
      }
    }
  }

  /** The root of a heap-ordered sequence bounds every node. */
  lemma RootBoundsAll(s: seq<HeapNode>)
    requires HeapOrdered(s) && |s| > 0
    ensures AllAtMost(s, s[0].priority)
  {
    forall k | 0 <= k < |s|
      ensures s[k].priority <= s[0].priority
    {
      RootIsMax(s, k);
    }
  }

  /** Raising the priority of slot i of a heap leaves only the edge to its
      parent out of order. */
  lemma RaiseKeepsUp(s: seq<HeapNode>, i: int, p: int)
    requires HeapOrdered(s) && 0 <= i < |s| && s[i].priority <= p
    ensures OrderedExceptUp(s[i := s[i].(priority := p)], i)
  {
    var t := s[i := s[i].(priority := p)];
    forall k {:trigger t[Parent(k)]} | 0 < k < |t| && k != i
      ensures t[k].priority <= t[Parent(k)].priority
    {
      assert s[k].priority <= s[Parent(k)].priority;
    }
    if 0 < i {
      assert s[i].priority <= s[Parent(i)].priority;
      if 2 * i + 1 < |t| {
        assert Parent(2 * i + 1) == i && s[2 * i + 1].priority <= s[Parent(2 * i + 1)].priority;
      }
      if 2 * i + 2 < |t| {
        assert Parent(2 * i + 2) == i && s[2 * i + 2].priority <= s[Parent(2 * i + 2)].priority;
      }
    }
  }

  /** Storing the last node at slot i, prefix of length |s|-1: the nodes
      are the old ones minus s[i]. */
  lemma MoveLastKeeps(s: seq<HeapNode>, i: int)
    requires 0 <= i < |s|
    ensures multiset(s[i := s[|s| - 1]][..|s| - 1]) == multiset(s) - multiset{s[i]}
    ensures NonNull(s) ==> NonNull(s[i := s[|s| - 1]][..|s| - 1])
    ensures NonNull(s) && UniqueIds(s) ==> UniqueIds(s[i := s[|s| - 1]][..|s| - 1])
  {
    var last := |s| - 1;
    var t := s[i := s[last]][..last];
    assert s == s[..last] + [s[last]];
    if i < last {
      assert t == s[..last][i := s[last]];
    } else {
      assert t == s[..last];
    }
  }

  /** Everything `remove_bin_from_heap` relies on after it stores the last
      node at slot i and shrinks the heap. */
  lemma MoveLastEffect(s: seq<HeapNode>, i: int)
    requires 0 <= i < |s|
    ensures var t := s[i := s[|s| - 1]][..|s| - 1];
      && multiset(t) == multiset(s) - multiset{s[i]}
      && (NonNull(s) ==> NonNull(t))
      && (NonNull(s) && UniqueIds(s) ==> UniqueIds(t) && Absent(t, s[i].bin))
      && (HeapOrdered(s) && i < |t| ==> Settles(t, i))
      && (HeapOrdered(s) && i == |t| ==> HeapOrdered(t))
  {
    var t := s[i := s[|s| - 1]][..|s| - 1];
    MoveLastKeeps(s, i);
    if NonNull(s) && UniqueIds(s) {
      DropUnique(s, t, i);
    }
    if HeapOrdered(s) && i < |t| {
      MoveLastOrder(s, i);
    }
    if HeapOrdered(s) && i == |t| {
      assert t == s[..i];
    }
  }

  /** Slot i is the only disorder, and the direction it must travel is the
      one its comparison with its parent picks: up when it beats the parent,
      down otherwise. */
  ghost predicate Settles(s: seq<HeapNode>, i: int)
    requires 0 <= i < |s|
  {
    if 0 < i && s[i].priority > s[Parent(i)].priority then OrderedExceptUp(s, i)
    else OrderedExceptDown(s, i)
  }

  /** After moving the last node to slot i, the order can be restored by
      sifting up when it beats its parent, and by sifting down otherwise. */
  lemma MoveLastOrder(s: seq<HeapNode>, i: int)
    requires HeapOrdered(s) && 0 <= i < |s| - 1
    ensures Settles(s[i := s[|s| - 1]][..|s| - 1], i)
  {
    var t := s[i := s[|s| - 1]][..|s| - 1];
    if 0 < i && t[i].priority > t[Parent(i)].priority {
      MoveLastUp(s, i);
    } else {
      MoveLastDown(s, i);
    }
  }

  /** The moved node beats its parent: only the edge above it is broken. */
  lemma MoveLastUp(s: seq<HeapNode>, i: int)
    requires HeapOrdered(s) && 0 < i < |s| - 1
    requires s[|s| - 1].priority > s[Parent(i)].priority
    ensures OrderedExceptUp(s[i := s[|s| - 1]][..|s| - 1], i)
  {
    var t := s[i := s[|s| - 1]][..|s| - 1];
    forall k {:trigger t[Parent(k)]} | 0 < k < |t| && k != i
      ensures t[k].priority <= t[Parent(k)].priority
    {
      if Parent(k) == i {
        assert s[k].priority <= s[i].priority <= s[Parent(i)].priority;
      } else {
        assert t[k] == s[k] && t[Parent(k)] == s[Parent(k)];
      }
    }
    assert s[i].priority <= s[Parent(i)].priority;
    if 2 * i + 1 < |t| {
      assert Parent(2 * i + 1) == i && s[2 * i + 1].priority <= s[Parent(2 * i + 1)].priority;
    }
    if 2 * i + 2 < |t| {
      assert Parent(2 * i + 2) == i && s[2 * i + 2].priority <= s[Parent(2 * i + 2)].priority;
    }
  }

  /** The moved node does not beat its parent: only the edges below it can
      be broken. */
  lemma MoveLastDown(s: seq<HeapNode>, i: int)
    requires HeapOrdered(s) && 0 <= i < |s| - 1
    requires 0 < i ==> s[|s| - 1].priority <= s[Parent(i)].priority
    ensures OrderedExceptDown(s[i := s[|s| - 1]][..|s| - 1], i)
  {
    var t := s[i := s[|s| - 1]][..|s| - 1];
    forall k {:trigger t[Parent(k)]} | 0 < k < |t| && Parent(k) != i
      ensures t[k].priority <= t[Parent(k)].priority
    {
      if k == i {
        assert t[Parent(k)] == s[Parent(k)];
      } else {
        assert t[k] == s[k] && t[Parent(k)] == s[Parent(k)];
      }
    }
    if 0 < i {
      assert s[i].priority <= s[Parent(i)].priority;
      if 2 * i + 1 < |t| {
        assert Parent(2 * i + 1) == i;
      }
      if 2 * i + 2 < |t| {
        assert Parent(2 * i + 2) == i;
      }
    }
  }

  // ---------------------------------------------------------------------
  // The heap
  // ---------------------------------------------------------------------

  /** The global `PriorityQueue heap` of priority.c: a node array of
      MAX_BINS slots of which nodes[0..size) are in use. */
  class PriorityQueue {
    const nodes: array<HeapNode>
    var size: int

    ghost predicate Valid()
      reads this, nodes
    {
      nodes.Length == MAX_BINS && 0 <= size <= MAX_BINS && NonNull(nodes[..size])
    }

    /** The nodes in use, in array order. */
    ghost function Elements(): seq<HeapNode>
      reads this, nodes
      requires Valid()
    {
      nodes[..size]
    }

    /** The zero-initialised global: no node in use. */
    constructor ()
      ensures Valid() && fresh(nodes) && Elements() == []
    {
      nodes := new HeapNode[MAX_BINS](_ => HeapNode(null, 0));
      size := 0;
    }

    /** `init_heap`: forget every node. */
    method InitHeap()
      requires nodes.Length == MAX_BINS
      modifies this
      ensures Valid() && Elements() == []
    {
      size := 0;
    }

    /** `is_empty`. */
    function IsEmpty(): (r: bool)
      reads this, nodes
      requires Valid()
      ensures r <==> Elements() == []
    {
      size == 0
    }

    /** `swap_nodes` on two slots in use. */
    method SwapNodes(i: int, j: int)
      requires Valid() && 0 <= i < size && 0 <= j < size
      modifies nodes
      ensures Valid()
      ensures nodes[..size] == old(nodes[..size])[i := old(nodes[j])][j := old(nodes[i])]
      ensures multiset(Elements()) == old(multiset(Elements()))
      ensures old(UniqueIds(Elements())) ==> UniqueIds(Elements())
    {
      ghost var s := nodes[..size];
      SwapKeeps(s, i, j);
      nodes[i], nodes[j] := nodes[j], nodes[i];
      assert nodes[..size] == s[i := s[j]][j := s[i]];
    }

    /** The sift-up loop of priority.c: swap slot i with its parent while it
        has the higher priority. */
    method SiftUp(i: int)
      requires Valid() && 0 <= i < size
      modifies nodes
      ensures Valid()
      ensures multiset(Elements()) == old(multiset(Elements()))
      ensures old(OrderedExceptUp(Elements(), i)) ==> HeapOrdered(Elements())
      ensures old(UniqueIds(Elements())) ==> UniqueIds(Elements())
    {
      ghost var ready := OrderedExceptUp(nodes[..size], i);
      ghost var unique := UniqueIds(nodes[..size]);
      var j := i;
      while j > 0 && nodes[j].priority > nodes[Parent(j)].priority
        invariant Valid() && 0 <= j < size
        invariant multiset(Elements()) == old(multiset(Elements()))
        invariant ready ==> OrderedExceptUp(nodes[..size], j)
        invariant unique ==> UniqueIds(nodes[..size])
      {
        var parent := Parent(j);
        if ready {
          SiftUpStep(nodes[..size], j);
        }
        SwapNodes(j, parent);
        j := parent;
      }
    }

    /** The sift-down loop of priority.c: swap slot i with its larger child
        while that child has the higher priority. */
    method SiftDown(i: int)
      requires Valid() && 0 <= i < size
      modifies nodes
      ensures Valid()
      ensures multiset(Elements()) == old(multiset(Elements()))
      ensures old(OrderedExceptDown(Elements(), i)) ==> HeapOrdered(Elements())
      ensures old(UniqueIds(Elements())) ==> UniqueIds(Elements())
    {
      ghost var ready := OrderedExceptDown(nodes[..size], i);
      ghost var unique := UniqueIds(nodes[..size]);
      var j := i;
      while true
        invariant Valid() && 0 <= j < size
        invariant multiset(Elements()) == old(multiset(Elements()))
        invariant ready ==> OrderedExceptDown(nodes[..size], j)
        invariant unique ==> UniqueIds(nodes[..size])
        decreases size - j
      {
        var left, right := 2 * j + 1, 2 * j + 2;
        var largest := j;
        if left < size && nodes[left].priority > nodes[largest].priority {
          largest := left;
        }
        if right < size && nodes[right].priority > nodes[largest].priority {
          largest := right;
        }
        if largest == j {
          break;
        }
        if ready {
          SiftDownStep(nodes[..size], j, largest);
        }
        SwapNodes(j, largest);
        j := largest;
      }
    }

    /** `push_bin_priority`: on a full array nothing changes; otherwise the
        bin enters with its current fill percentage and is sifted up. */
    method Push(bin: Bin)
      requires Valid() && bin.capacity != 0
      modifies this, nodes
      ensures Valid()
      ensures PushEffect(old(Elements()), Elements(), NodeFor(bin, bin.currentFill))
      ensures old(HeapOrdered(Elements())) ==> HeapOrdered(Elements())
      ensures old(UniqueIds(Elements())) && FindId(old(Elements()), bin.id) == -1 ==> UniqueIds(Elements())
    {
      if size >= MAX_BINS {
        return;
      }
      ghost var s := nodes[..size];
      var priority := Percent(bin.currentFill, bin.capacity);
      nodes[size] := HeapNode(bin, priority);
      var i := size;
      size := size + 1;
      assert nodes[..size] == s + [HeapNode(bin, priority)];
      AppendKeeps(s, HeapNode(bin, priority));
      SiftUp(i);
    }

    /** The linear search of `update_bin_priority`: the first slot whose
        bin has this id, or `size` when there is none. */
    method IndexOfId(id: int) returns (i: int)
      requires Valid()
      ensures 0 <= i <= size
      ensures i < size <==> FindId(Elements(), id) >= 0
      ensures i < size ==> i == FindId(Elements(), id)
    {
      i := 0;
      while i < size
        invariant 0 <= i <= size
        invariant forall k :: 0 <= k < i ==> nodes[k].bin.id != id
      {
        if nodes[i].bin.id == id {
          return;
        }
        i := i + 1;
      }
    }

    /** The linear search of `remove_bin_from_heap`: the first slot holding
        this very bin, or `size` when there is none. */
    method IndexOfBin(bin: Bin) returns (i: int)
      requires Valid()
      ensures 0 <= i <= size
      ensures i < size <==> FindBin(Elements(), bin) >= 0
      ensures i < size ==> i == FindBin(Elements(), bin)
    {
      i := 0;
      while i < size
        invariant 0 <= i <= size
        invariant forall k :: 0 <= k < i ==> nodes[k].bin != bin
      {
        if nodes[i].bin == bin {
          break;
        }
        i := i + 1;
      }
    }

    /** Overwrite slot i with the last node and shrink by one: the node of
        slot i is gone, and slot i is left as the only disorder. */
    method MoveLast(i: int)
      requires Valid() && 0 <= i < size
      modifies this, nodes
      ensures Valid() && size == old(size) - 1
      ensures multiset(Elements()) == old(multiset(Elements())) - multiset{old(nodes[i])}
      ensures old(UniqueIds(Elements())) ==> UniqueIds(Elements()) && Absent(Elements(), old(nodes[i].bin))
      ensures old(HeapOrdered(Elements())) && i < size ==> Settles(Elements(), i)
      ensures old(HeapOrdered(Elements())) && i == size ==> HeapOrdered(Elements())
    {
      ghost var s := nodes[..size];
      nodes[i] := nodes[size - 1];
      size := size - 1;
      assert nodes[..size] == s[i := s[|s| - 1]][..|s| - 1];
      MoveLastEffect(s, i);
    }

    /** Sift slot i up when it beats its parent and down otherwise; the
        parent computed for slot 0 is slot 0 itself, so the root goes down. */
    method Resettle(i: int)
      requires Valid() && 0 <= i < size
      modifies nodes
      ensures Valid()
      ensures multiset(Elements()) == old(multiset(Elements()))
      ensures old(Settles(Elements(), i)) ==> HeapOrdered(Elements())
      ensures old(UniqueIds(Elements())) ==> UniqueIds(Elements())
    {
      var parent := if i == 0 then 0 else Parent(i);
      if nodes[i].priority > nodes[parent].priority {
        SiftUp(i);
      } else {
        SiftDown(i);
      }
    }

    /** Move the last node into slot i, shrink, and restore the order the
        way `remove_bin_from_heap` does. For i == 0 this is the second half
        of `pop_highest_priority_bin`, which always sifts down from the root. */
    method DeleteAt(i: int)
      requires Valid() && 0 <= i < size
      modifies this, nodes
      ensures Valid() && size == old(size) - 1
      ensures multiset(Elements()) == old(multiset(Elements())) - multiset{old(nodes[i])}
      ensures old(HeapOrdered(Elements())) ==> HeapOrdered(Elements())
      ensures old(UniqueIds(Elements())) ==> UniqueIds(Elements())
      ensures old(UniqueIds(Elements())) ==> Absent(Elements(), old(nodes[i].bin))
    {
      ghost var gone := nodes[i].bin;
      MoveLast(i);
      if i < size {
        ghost var t := nodes[..size];
        Resettle(i);
        AbsentKept(t, nodes[..size], gone);
      }
    }

    /** `pop_highest_priority_bin`: null on an empty heap; otherwise the root
        is returned and the last node takes its place. */
    method Pop() returns (bin: Bin?)
      requires Valid()
      modifies this, nodes
      ensures Valid()
      ensures old(size) == 0 ==> bin == null && Elements() == old(Elements())
      ensures old(size) > 0 ==>
        && bin == old(nodes[0].bin) && bin != null
        && size == old(size) - 1
        && multiset(Elements()) == old(multiset(Elements())) - multiset{old(nodes[0])}
      ensures old(HeapOrdered(Elements())) ==> HeapOrdered(Elements())
      ensures old(HeapOrdered(Elements())) && old(size) > 0 ==>
        old(AllAtMost(Elements(), nodes[0].priority))
      ensures old(UniqueIds(Elements())) ==> UniqueIds(Elements())
      ensures old(UniqueIds(Elements())) && old(size) > 0 ==> Absent(Elements(), bin)
    {
      if IsEmpty() {
        return null;
      }
      ghost var s := nodes[..size];
      if HeapOrdered(s) {
        RootBoundsAll(s);
      }
      bin := nodes[0].bin;
      DeleteAt(0);
    }

    /** Give slot i priority p and sift it up (the found branch of
        `update_bin_priority`). */
    method SetPriority(i: int, p: int)
      requires Valid() && 0 <= i < size
      modifies nodes
      ensures Valid()
      ensures multiset(Elements()) == old(multiset(Elements())) - multiset{old(nodes[i])} + multiset{old(nodes[i]).(priority := p)}
      ensures old(HeapOrdered(Elements())) && old(nodes[i].priority) <= p ==> HeapOrdered(Elements())
      ensures old(UniqueIds(Elements())) ==> UniqueIds(Elements())
    {
      ghost var s := nodes[..size];
      nodes[i] := nodes[i].(priority := p);
      ghost var t := nodes[..size];
      assert t == s[i := s[i].(priority := p)];
      if HeapOrdered(s) && s[i].priority <= p {
        RaiseKeepsUp(s, i, p);
      }
      if UniqueIds(s) {
        assert UniqueIds(t);
      }
      SiftUp(i);
    }

    /** `update_bin_priority`: the first node with the bin's id gets the
        bin's current percentage and is sifted up; an absent id is pushed. */
    method Update(bin: Bin)
      requires Valid() && bin.capacity != 0
      modifies this, nodes
      ensures Valid()
      ensures UpdateEffect(old(Elements()), Elements(), bin, Percent(bin.currentFill, bin.capacity))
      ensures old(HeapOrdered(Elements())) ==>
        var i := FindId(old(Elements()), bin.id);
        i == -1 || old(nodes[i].priority) <= Percent(bin.currentFill, bin.capacity) ==>
        HeapOrdered(Elements())
      ensures old(UniqueIds(Elements())) ==> UniqueIds(Elements())
    {
      var i := IndexOfId(bin.id);
      if i < size {
        SetPriority(i, Percent(bin.currentFill, bin.capacity));
        return;
      }
      Push(bin);
    }

    /** `remove_bin_from_heap`: drop the first node holding this very bin
        (compared by address) and refill the gap with the last node. */
    method Remove(bin: Bin)
      requires Valid()
      modifies this, nodes
      ensures Valid()
      ensures RemoveEffect(old(Elements()), Elements(), bin)
      ensures old(HeapOrdered(Elements())) ==> HeapOrdered(Elements())
      ensures old(UniqueIds(Elements())) ==> UniqueIds(Elements())
      ensures old(UniqueIds(Elements())) ==> Absent(Elements(), bin)
    {
      var i := IndexOfBin(bin);
      if i == size {
        return;
      }
      DeleteAt(i);
    }
  }
}
