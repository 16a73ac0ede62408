/** The bin state machine of bin.c: filling a bin, reporting it to the
    priority heap and emptying it. These live apart from the Bin class
    because they act on the global heap as well. */
module BinOps {
  import opened BinTypes
  import opened Priority

  /** The fill after adding an increment: it never passes the capacity. */
  function Clamped(fill: int, inc: int, capacity: int): (f: int)
    ensures f <= capacity && f <= fill + inc
    ensures f == fill + inc || f == capacity
    ensures fill + inc >= capacity ==> f == capacity
    ensures 0 <= fill && 0 <= inc && 0 <= capacity ==> 0 <= f
  {
    if fill + inc >= capacity then capacity else fill + inc
  }

  /** `update_bin_fill` hands the bin to the heap exactly when the new fill
      reaches the capacity or the urgent percentage. */
  predicate Reports(raw: int, capacity: int)
    requires capacity != 0
  {
    raw >= capacity || Percent(raw, capacity) >= URGENT_THRESHOLD
  }

  /** The status `update_bin_fill` leaves behind, given the status before
      and the unclamped new fill: urgent when reported, filling when merely
      non-empty, and otherwise untouched. */
  function StatusAfterFill(before: Status, raw: int, capacity: int): (s: Status)
    requires capacity != 0
    ensures s == Urgent <==> Reports(raw, capacity) || (before == Urgent && raw <= 0)
    ensures 0 < raw && !Reports(raw, capacity) ==> s == Filling && raw < capacity
    ensures raw <= 0 && !Reports(raw, capacity) ==> s == before
  {
    if Reports(raw, capacity) then Urgent
    else if raw > 0 then Filling
    else before
  }

  /** For a positive capacity and a non-negative fill, the truncated
      percentage reaches the threshold exactly when 100 * fill is at least
      70 * capacity, so the report does not depend on rounding. */
  lemma ThresholdExact(fill: int, capacity: int)
    requires 0 <= fill && 0 < capacity
    ensures Percent(fill, capacity) >= URGENT_THRESHOLD <==> fill * 100 >= URGENT_THRESHOLD * capacity
  {
    var x := fill * 100;
    var q, r := x / capacity, x % capacity;
    assert x == q * capacity + r && 0 <= r < capacity;
    if q >= URGENT_THRESHOLD {
      MulLeft(URGENT_THRESHOLD, q, capacity);
    } else {
      MulLeft(q + 1, URGENT_THRESHOLD, capacity);
    }
  }

  /** Once a bin is reported, non-negative increments keep it reported:
      fills only go up, and a full bin stays full. */
  lemma ReportsMonotone(fill: int, inc: int, capacity: int)
    requires 0 <= fill && 0 <= inc && 0 < capacity
    requires Reports(fill, capacity)
    ensures Reports(fill + inc, capacity)
  {
    if fill < capacity {
      ThresholdExact(fill, capacity);
      ThresholdExact(fill + inc, capacity);
    }
  }

  /** A bin that reaches its capacity is reported at priority 100. */
  lemma FullBinTopPriority(capacity: int)
    requires 0 < capacity
    ensures Reports(capacity, capacity)
    ensures Percent(Clamped(capacity, 0, capacity), capacity) == 100
  {
    PercentBounds(capacity, capacity);
  }

  /** `report_bin_full`: the bin becomes urgent and the heap learns its
      current percentage. */
  method ReportBinFull(bin: Bin, heap: PriorityQueue)
    requires heap.Valid() && bin.capacity != 0
    modifies bin, heap, heap.nodes
    ensures heap.Valid()
    ensures bin.status == Urgent && bin.currentFill == old(bin.currentFill)
    ensures UpdateEffect(old(heap.Elements()), heap.Elements(), bin, Percent(bin.currentFill, bin.capacity))
    ensures old(FindId(heap.Elements(), bin.id) >= 0 || heap.size < MAX_BINS) ==>
      Registered(heap.Elements(), bin.id, Percent(bin.currentFill, bin.capacity))
    ensures old(HeapOrdered(heap.Elements()))
            && NotLowered(old(heap.Elements()), bin.id, Percent(bin.currentFill, bin.capacity)) ==>
      HeapOrdered(heap.Elements())
    ensures old(UniqueIds(heap.Elements())) ==> UniqueIds(heap.Elements())
  {
    bin.status := Urgent;
    ghost var s := heap.Elements();
    heap.Update(bin);
    if FindId(s, bin.id) >= 0 || |s| < MAX_BINS {
      UpdateRegisters(s, heap.Elements(), bin, Percent(bin.currentFill, bin.capacity));
    }
  }

  /** `update_bin_fill` with the random increment as a parameter: the fill
      grows by inc and is clamped at the capacity; a full or urgent bin is
      reported, a merely non-empty one becomes FILLING. */
  method UpdateBinFill(bin: Bin, heap: PriorityQueue, inc: int)
    requires heap.Valid() && bin.capacity != 0
    modifies bin, heap, heap.nodes
    ensures heap.Valid()
    ensures bin.currentFill == Clamped(old(bin.currentFill), inc, bin.capacity)
    ensures bin.status == StatusAfterFill(old(bin.status), old(bin.currentFill) + inc, bin.capacity)
    ensures Reports(old(bin.currentFill) + inc, bin.capacity) ==>
      UpdateEffect(old(heap.Elements()), heap.Elements(), bin, Percent(bin.currentFill, bin.capacity))
    ensures Reports(old(bin.currentFill) + inc, bin.capacity) && old(FindId(heap.Elements(), bin.id) >= 0 || heap.size < MAX_BINS) ==>
      Registered(heap.Elements(), bin.id, Percent(bin.currentFill, bin.capacity))
    ensures !Reports(old(bin.currentFill) + inc, bin.capacity) ==> heap.Elements() == old(heap.Elements())
    ensures old(HeapOrdered(heap.Elements()))
            && NotLowered(old(heap.Elements()), bin.id, Percent(bin.currentFill, bin.capacity)) ==>
      HeapOrdered(heap.Elements())
    ensures old(UniqueIds(heap.Elements())) ==> UniqueIds(heap.Elements())
  {
    bin.currentFill := bin.currentFill + inc;
    if bin.currentFill >= bin.capacity {
      bin.currentFill := bin.capacity;
      ReportBinFull(bin, heap);
    } else if Percent(bin.currentFill, bin.capacity) >= URGENT_THRESHOLD {
      bin.status := Urgent;
      ReportBinFull(bin, heap);
    } else if bin.currentFill > 0 {
      bin.status := Filling;
    }
  }

  /** `reset_bin`: the bin is emptied and its node, if any, leaves the
      heap. */
  method ResetBin(bin: Bin, heap: PriorityQueue)
    requires heap.Valid()
    modifies bin, heap, heap.nodes
    ensures heap.Valid()
    ensures bin.currentFill == 0 && bin.status == Empty
    ensures RemoveEffect(old(heap.Elements()), heap.Elements(), bin)
    ensures old(HeapOrdered(heap.Elements())) ==> HeapOrdered(heap.Elements())
    ensures old(UniqueIds(heap.Elements())) ==> UniqueIds(heap.Elements()) && Absent(heap.Elements(), bin)
  {
    bin.currentFill := 0;
    bin.status := Empty;
    heap.Remove(bin);
  }
}
