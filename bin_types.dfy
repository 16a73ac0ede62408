/** The bin record of bin.h and its constructor `create_bin` (bin.c). */
module BinTypes {
  import opened CInt

  /** Percentage at which a bin is reported as urgent (bin.h). */
  const URGENT_THRESHOLD := 70

  /** Size of the `location` character buffer (bin.h). */
  const LOCATION_SIZE := 50

  /** The status codes EMPTY, FILLING, URGENT, COLLECTED of bin.h. */
  datatype Status = Empty | Filling | Urgent | Collected

  /** Fill percentage of a bin as `get_bin_priority` computes it, with C's
      truncating integer division. */
  function Percent(fill: int, capacity: int): (p: int)
    requires capacity != 0
    ensures 0 <= fill && 0 < capacity ==> p == fill * 100 / capacity
  {
    CDiv(fill * 100, capacity)
  }

  /** A fill within [0, capacity] is between 0% and 100%, and a full bin
      is exactly 100%. */
  lemma PercentBounds(fill: int, capacity: int)
    requires 0 <= fill <= capacity && capacity > 0
    ensures 0 <= Percent(fill, capacity) <= 100
    ensures fill == capacity ==> Percent(fill, capacity) == 100
  {
    var x := fill * 100;
    var q, r := x / capacity, x % capacity;
    assert x == q * capacity + r && 0 <= r < capacity;
    assert x <= capacity * 100 by { MulLeft(fill, capacity, 100); }
    if q > 100 {
      MulLeft(101, q, capacity);
      assert false;
    }
    if q < 0 {
      MulLeft(q, -1, capacity);
      assert false;
    }
    if fill == capacity && q < 100 {
      MulLeft(q, 99, capacity);
      assert false;
    }
  }

  /** Multiplying by a non-negative factor keeps the order. */
  lemma {:induction false} MulLeft(a: int, b: int, c: int)
    requires a <= b && c >= 0
    ensures a * c <= b * c
    decreases c
  {
    if c > 0 {
      MulLeft(a, b, c - 1);
      assert a * c == a * (c - 1) + a;
      assert b * c == b * (c - 1) + b;
    }
  }

  /** What `strncpy` into the 50-byte buffer followed by the forced
      terminator leaves readable: a name of up to 49 characters whole, and
      exactly the first 49 characters of a longer one. */
  function StoredLocation(location: string): (s: string)
    ensures |s| <= LOCATION_SIZE - 1
    ensures s <= location
    ensures |location| < LOCATION_SIZE ==> s == location
    ensures |location| >= LOCATION_SIZE ==> |s| == LOCATION_SIZE - 1
  {
    if |location| < LOCATION_SIZE then location else location[..LOCATION_SIZE - 1]
  }

  /** A waste bin. `id`, `capacity` and `location` are written once, by
      `create_bin`; the fill and the status change afterwards. */
  class Bin {
    const id: int
    const capacity: int
    const location: string
    var currentFill: int
    var status: Status

    /** `create_bin`: given id and capacity, empty and with status EMPTY. */
    constructor (id: int, capacity: int, location: string)
      ensures this.id == id && this.capacity == capacity
      ensures this.location == StoredLocation(location)
      ensures currentFill == 0 && status == Empty
    {
      this.id := id;
      this.capacity := capacity;
      this.location := StoredLocation(location);
      currentFill := 0;
      status := Empty;
    }
  }
}
