/** The route simulation of Graph.c: one truck drives along shortest paths
    from bin to bin in a fixed priority order, the driver reports each
    stop, and every drive is recorded as one route of route_output.json. */
module Routing {
  import opened Text
  import opened GraphSpec
  import opened PathFormat
  import opened CityGraph

  /** Graph.c's INF: distances of 999999 or more count as unreachable. */
  const ROUTE_INF := 999999
  /** The depot is node 0. */
  const DEPOT := 0

  /** The driver's answers at a stop. */
  const TRUCK_FULL := 1
  const BIN_PICKED := 2

  /** One record of the "routes" array: the truck, the node it drove to,
      the distance and the path text. */
  datatype Leg = Leg(truckId: int, target: int, distance: int, path: string)

  // ------------------------------------------------------------ journeys

  /** Truck id drove from `from` to the leg's target along the route that a
      query from `from` reports. */
  ghost predicate Drove(adj: seq<seq<Edge>>, id: int, from: int, leg: Leg) {
    leg.truckId == id && ShortestRoute(adj, from, leg.target, ROUTE_INF, leg.path, leg.distance)
  }

  /** The legs, in order, form one journey of truck id starting at `from`:
      each leg starts where the previous one ended. */
  ghost predicate Journey(adj: seq<seq<Edge>>, id: int, from: int, legs: seq<Leg>)
    decreases |legs|
  {
    |legs| == 0 || (Drove(adj, id, from, legs[0]) && Journey(adj, id, legs[0].target, legs[1..]))
  }

  /** Where a journey from `from` ends. */
  function End(from: int, legs: seq<Leg>): int {
    if |legs| == 0 then from else legs[|legs| - 1].target
  }

  /** The distance of a journey: the sum of its legs' distances. */
  function Total(legs: seq<Leg>): int
    decreases |legs|
  {
    if |legs| == 0 then 0 else legs[0].distance + Total(legs[1..])
  }

  /** Extending a journey by one more leg from where it ends. */
  lemma {:induction false} JourneySnoc(adj: seq<seq<Edge>>, id: int, from: int, legs: seq<Leg>, leg: Leg)
    requires Journey(adj, id, from, legs) && Drove(adj, id, End(from, legs), leg)
    ensures Journey(adj, id, from, legs + [leg])
    ensures End(from, legs + [leg]) == leg.target
    ensures Total(legs + [leg]) == Total(legs) + leg.distance
    decreases |legs|
  {
    if |legs| > 0 {
      assert (legs + [leg])[1..] == legs[1..] + [leg];
      assert End(legs[0].target, legs[1..]) == End(from, legs);
      JourneySnoc(adj, id, legs[0].target, legs[1..], leg);
    } else {
      assert (legs + [leg])[1..] == [];
    }
  }

  /** Two journeys back to back are one journey. */
  lemma {:induction false} JourneyConcat(adj: seq<seq<Edge>>, id: int, from: int, a: seq<Leg>, b: seq<Leg>)
    requires Journey(adj, id, from, a) && Journey(adj, id, End(from, a), b)
    ensures Journey(adj, id, from, a + b)
    ensures End(from, a + b) == End(End(from, a), b)
    ensures Total(a + b) == Total(a) + Total(b)
    decreases |a|
  {
    TotalConcat(a, b);
    if |a| > 0 {
      assert (a + b)[0] == a[0];
      assert (a + b)[1..] == a[1..] + b;
      assert End(a[0].target, a[1..]) == End(from, a);
      JourneyConcat(adj, id, a[0].target, a[1..], b);
    } else {
      assert a + b == b;
    }
  }

  /** The distances of legs placed end to end add up. */
  lemma {:induction false} TotalConcat(a: seq<Leg>, b: seq<Leg>)
    ensures Total(a + b) == Total(a) + Total(b)
    decreases |a|
  {
    if |a| > 0 {
      assert (a + b)[1..] == a[1..] + b;
      TotalConcat(a[1..], b);
    } else {
      assert a + b == b;
    }
  }

  /** Walks placed end to end add up. */
  lemma {:induction false} WalkConcat(adj: seq<seq<Edge>>, a: int, s: seq<Edge>, b: int, t: seq<Edge>, c: int)
    requires IsWalk(adj, a, s, b) && IsWalk(adj, b, t, c)
    ensures IsWalk(adj, a, s + t, c) && Cost(s + t) == Cost(s) + Cost(t)
    ensures Dests(s + t) == Dests(s) + Dests(t)
    decreases |s|
  {
    if |s| > 0 {
      assert (s + t)[0] == s[0];
      assert (s + t)[1..] == s[1..] + t;
      WalkConcat(adj, s[0].dest, s[1..], b, t, c);
    } else {
      assert s + t == t;
    }
  }

  /** A journey whose every leg reached its target is a walk in the graph
      from the start to where the journey ends, as long as its total. */
  lemma {:induction false} JourneyWalk(adj: seq<seq<Edge>>, id: int, from: int, legs: seq<Leg>)
    requires Journey(adj, id, from, legs)
    requires forall k :: 0 <= k < |legs| ==> legs[k].distance < ROUTE_INF
    ensures exists steps :: IsWalk(adj, from, steps, End(from, legs)) && Cost(steps) == Total(legs)
    decreases |legs|
  {
    if |legs| == 0 {
      assert IsWalk(adj, from, [], from) && Cost([]) == 0;
    } else {
      var first :| IsWalk(adj, from, first, legs[0].target) && Cost(first) == legs[0].distance
                   && legs[0].path == PathText([from] + Dests(first));
      forall k | 0 <= k < |legs[1..]|
        ensures legs[1..][k].distance < ROUTE_INF
      {
        assert legs[1..][k] == legs[k + 1];
      }
      JourneyWalk(adj, id, legs[0].target, legs[1..]);
      assert End(legs[0].target, legs[1..]) == End(from, legs);
      var rest :| IsWalk(adj, legs[0].target, rest, End(from, legs)) && Cost(rest) == Total(legs[1..]);
      WalkConcat(adj, from, first, legs[0].target, rest, End(from, legs));
    }
  }

  /** With non-negative weights every leg is a shortest route, so no leg
      is negative and the total never goes down. */
  lemma {:induction false} JourneyNonNeg(adj: seq<seq<Edge>>, id: int, from: int, legs: seq<Leg>)
    requires NonNeg(adj) && Journey(adj, id, from, legs)
    ensures 0 <= Total(legs)
    decreases |legs|
  {
    if |legs| > 0 {
      JourneyNonNeg(adj, id, legs[0].target, legs[1..]);
    }
  }

  // ------------------------------------------------------------ the truck

  /** Graph.c's `Truck`: its position and its distance travelled change as
      it drives. */
  class RouteTruck {
    const id: int
    const capacity: int
    var load: int
    var currentNode: int
    var totalDistance: int

    /** The load stays between empty and the capacity. */
    ghost predicate Within()
      reads this
    {
      0 <= load <= capacity
    }

    /** `Truck t = {id, capacity, 0, 0, 0}`: empty, at the depot, nothing
        driven yet. */
    constructor (id: int, capacity: int)
      ensures this.id == id && this.capacity == capacity
      ensures load == 0 && currentNode == DEPOT && totalDistance == 0
    {
      this.id := id;
      this.capacity := capacity;
      load := 0;
      currentNode := DEPOT;
      totalDistance := 0;
    }

    /** `assignTruckToBin`: a truck with room left drives to the bin, takes
        it on board and records the leg (result 1); a full truck stays
        where it is and nothing is recorded (result -1). */
    method AssignToBin(g: Graph, bin: int) returns (res: int, leg: Option<Leg>)
      requires g.Valid() && 0 <= currentNode < g.numNodes <= MAX_NODES && 0 <= bin < g.numNodes
      requires EdgesIn(g.Adj(), g.numNodes)
      modifies this
      ensures old(load) < capacity ==>
        && res == 1 && leg.Some? && leg.value.target == bin
        && Drove(g.Adj(), id, old(currentNode), leg.value)
        && currentNode == bin && load == old(load) + 1
        && totalDistance == old(totalDistance) + leg.value.distance
      ensures old(load) >= capacity ==>
        && res == -1 && leg == None
        && currentNode == old(currentNode) && load == old(load) && totalDistance == old(totalDistance)
    {
      var path, d := Route(g, currentNode, bin, ROUTE_INF);
      if load < capacity {
        totalDistance := totalDistance + d;
        currentNode := bin;
        load := load + 1;
        res, leg := 1, Some(Leg(id, bin, d, path));
      } else {
        res, leg := -1, None;
      }
    }

    /** `returnToDepot`: the truck drives to the depot node, unloads and
        records the leg. */
    method ReturnToDepot(g: Graph, depot: int) returns (leg: Leg)
      requires g.Valid() && 0 <= currentNode < g.numNodes <= MAX_NODES && 0 <= depot < g.numNodes
      requires EdgesIn(g.Adj(), g.numNodes)
      modifies this
      ensures leg.target == depot && Drove(g.Adj(), id, old(currentNode), leg)
      ensures currentNode == depot && load == 0
      ensures totalDistance == old(totalDistance) + leg.distance
    {
      var path, d := Route(g, currentNode, depot, ROUTE_INF);
      totalDistance := totalDistance + d;
      currentNode := depot;
      load := 0;
      leg := Leg(id, depot, d, path);
    }
  }

  // ------------------------------------------------------------ main's loop

  /** The nodes the loop visits are nodes of the graph. */
  ghost predicate NodesIn(bins: seq<int>, n: int) {
    forall k :: 0 <= k < |bins| ==> 0 <= bins[k] < n
  }

  /** What the loop has told the truck so far: the legs it recorded form
      one journey from the depot to where it is, and its distance counter
      is their total. */
  ghost predicate Driven(adj: seq<seq<Edge>>, t: RouteTruck, legs: seq<Leg>)
    reads t
  {
    Journey(adj, t.id, DEPOT, legs) && End(DEPOT, legs) == t.currentNode && t.totalDistance == Total(legs)
  }

  /** One pass of main's `while (nextBinIndex < nBins)` loop at bin
      bins[idx], with the driver's answer as a parameter (read only when
      the truck reached the bin; `asked` says whether it was). A bin
      already collected is skipped; a full truck goes to the depot and the
      same bin is tried again; at the bin, answer 1 sends the truck to the
      depot, answer 2 marks the bin collected and moves on, and any other
      answer repeats the bin. */
  method Step(g: Graph, t: RouteTruck, bins: seq<int>, collected: array<bool>, idx: int, action: int)
    returns (next: int, legs: seq<Leg>, asked: bool)
    requires g.Valid() && 0 <= t.currentNode < g.numNodes <= MAX_NODES && EdgesIn(g.Adj(), g.numNodes)
    requires 0 <= idx < |bins| && NodesIn(bins, g.numNodes) && collected.Length == MAX_NODES
    modifies t, collected
    ensures Journey(g.Adj(), t.id, old(t.currentNode), legs)
    ensures t.currentNode == End(old(t.currentNode), legs)
    ensures t.totalDistance == old(t.totalDistance) + Total(legs)
    ensures 0 <= t.currentNode < g.numNodes
    ensures old(t.Within()) ==> t.Within()
    ensures next == idx || (next == idx + 1 && collected[bins[idx]])
    ensures collected[..] == old(collected[..])
         || (0 < |legs| && legs[0].target == bins[idx] && collected[..] == old(collected[..])[bins[idx] := true])
    ensures !asked && next == idx ==> old(t.load) >= t.capacity && t.load == 0
    ensures asked ==> !old(collected[bins[idx]]) && old(t.load) < t.capacity
    ensures old(collected[bins[idx]]) ==>
      next == idx + 1 && legs == [] && !asked && t.load == old(t.load) && collected[..] == old(collected[..])
    ensures !old(collected[bins[idx]]) && old(t.load) >= t.capacity ==>
      next == idx && |legs| == 1 && legs[0].target == DEPOT && t.load == 0 && !asked
      && collected[..] == old(collected[..])
    ensures !old(collected[bins[idx]]) && old(t.load) < t.capacity ==>
      && asked && 0 < |legs| && legs[0].target == bins[idx]
      && (action == TRUCK_FULL ==> next == idx && |legs| == 2 && legs[1].target == DEPOT && t.load == 0
                                    && collected[..] == old(collected[..]))
      && (action == BIN_PICKED ==> next == idx + 1 && |legs| == 1 && t.load == old(t.load) + 1
                                    && collected[..] == old(collected[..])[bins[idx] := true])
      && (action != TRUCK_FULL && action != BIN_PICKED ==>
            next == idx && |legs| == 1 && t.load == old(t.load) + 1 && collected[..] == old(collected[..]))
  {
    var bin := bins[idx];
    if collected[bin] {
      return idx + 1, [], false;
    }
    var res, leg := t.AssignToBin(g, bin);
    if res == -1 {
      var back := t.ReturnToDepot(g, DEPOT);
      return idx, [back], false;
    }
    legs, asked := [leg.value], true;
    if action == TRUCK_FULL {
      var back := t.ReturnToDepot(g, DEPOT);
      JourneySnoc(g.Adj(), t.id, old(t.currentNode), legs, back);
      legs, next := legs + [back], idx;
    } else if action == BIN_PICKED {
      collected[bin] := true;
      next := idx + 1;
    } else {
      next := idx;
    }
  }

  /** The nodes marked in a `collected` array. */
  function Marked(m: seq<bool>): set<int> {
    set v | 0 <= v < |m| && m[v]
  }

  /** The nodes listed in bins. */
  ghost function Members(bins: seq<int>): set<int> {
    set v | v in bins
  }

  /** The nodes the legs drove to. */
  ghost function Targets(legs: seq<Leg>): set<int> {
    set k | 0 <= k < |legs| :: legs[k].target
  }

  lemma TargetsConcat(a: seq<Leg>, b: seq<Leg>)
    ensures Targets(a + b) == Targets(a) + Targets(b)
  {
    forall v | v in Targets(a) + Targets(b)
      ensures v in Targets(a + b)
    {
      if v in Targets(a) {
        var k :| 0 <= k < |a| && a[k].target == v;
        assert (a + b)[k] == a[k];
      } else {
        var k :| 0 <= k < |b| && b[k].target == v;
        assert (a + b)[|a| + k] == b[k];
      }
    }
  }

  lemma MarkedAdd(m: seq<bool>, v: int)
    requires 0 <= v < |m|
    ensures Marked(m[v := true]) == Marked(m) + {v}
  {
  }

  /** One pass of the loop: the bins marked so far are still among the
      bins and the targets, given what Step promises. */
  lemma PassKeeps(bins: seq<int>, idx: int, legs: seq<Leg>, more: seq<Leg>, was: seq<bool>, now: seq<bool>)
    requires 0 <= idx < |bins| && 0 <= bins[idx] < |was|
    requires Marked(was) <= Members(bins) && Marked(was) <= Targets(legs)
    requires now == was || (0 < |more| && more[0].target == bins[idx] && now == was[bins[idx] := true])
    ensures Marked(now) <= Members(bins) && Marked(now) <= Targets(legs + more)
  {
    TargetsConcat(legs, more);
    if now != was {
      MarkedAdd(was, bins[idx]);
      assert bins[idx] in Targets(more);
    }
  }

  /** The bins before the next index stay marked after a pass. */
  lemma MarksKept(bins: seq<int>, idx: int, next: int, was: seq<bool>, now: seq<bool>)
    requires 0 <= idx < |bins| && 0 <= bins[idx] < |was|
    requires forall k :: 0 <= k < idx ==> 0 <= bins[k] < |was| && was[bins[k]]
    requires now == was || now == was[bins[idx] := true]
    requires next == idx || (next == idx + 1 && now[bins[idx]])
    ensures forall k :: 0 <= k < next ==> 0 <= bins[k] < |now| && now[bins[k]]
  {
  }

  // ------------------------------------------------- the run, as a value

  /** The nodes the legs drive to, in order. */
  function Stops(legs: seq<Leg>): (s: seq<int>)
    ensures |s| == |legs| && forall k :: 0 <= k < |legs| ==> s[k] == legs[k].target
  {
    seq(|legs|, k requires 0 <= k < |legs| => legs[k].target)
  }

  lemma StopsConcat(a: seq<Leg>, b: seq<Leg>)
    ensures Stops(a + b) == Stops(a) + Stops(b)
  {
    assert forall k :: 0 <= k < |b| ==> (a + b)[|a| + k] == b[k];
  }

  /** Where a journey from the depot ends, from its stops. */
  lemma EndIsLastStop(legs: seq<Leg>)
    ensures End(DEPOT, legs) == LastStop(Stops(legs))
  {
  }

  /** What main's loop does for the driver's answers: the nodes the truck
      drives to in order, whether every bin was dealt with, and how many
      answers were read. */
  datatype Outcome = Outcome(stops: seq<int>, finished: bool, used: nat)

  /** s driven first, using n answers, then o. */
  function Prefixed(s: seq<int>, n: nat, o: Outcome): Outcome {
    Outcome(s + o.stops, o.finished, n + o.used)
  }

  /** Driving s first and then what o1 describes, where o1 is m followed
      by o2, is s + m followed by o2. */
  lemma PrefixedChain(s: seq<int>, k: nat, m: seq<int>, n: nat, o1: Outcome, o2: Outcome)
    requires o1 == Prefixed(m, n, o2)
    ensures Prefixed(s, k, o1) == Prefixed(s + m, k + n, o2)
  {
    assert s + (m + o2.stops) == (s + m) + o2.stops;
  }

  /** Counting u answers read before keeps the two descriptions equal. */
  lemma ShiftUsed(s: seq<int>, s': seq<int>, a: nat, u: nat, r0: Outcome, r1: Outcome)
    requires Prefixed(s, 0, r0) == Prefixed(s', a, r1)
    ensures Prefixed(s, u, r0) == Prefixed(s', u + a, r1)
  {
  }

  /** Where main's loop stops, Run has nothing left to drive to. */
  lemma RunAtExit(bins: seq<int>, rest: seq<int>, cap: int, idx: int, load: int, marked: seq<bool>)
    requires 0 < cap && 0 <= idx <= |bins| && MarksFor(bins, marked)
    requires idx == |bins| || (!marked[bins[idx]] && load < cap && |rest| == 0)
    ensures Run(bins, rest, cap, idx, load, marked) == Outcome([], idx == |bins|, 0)
  {
  }

  /** Every listed bin indexes the `collected` array. */
  predicate MarksFor(bins: seq<int>, marked: seq<bool>) {
    forall k :: 0 <= k < |bins| ==> 0 <= bins[k] < |marked|
  }

  /** The last node of the stops, or the depot before the first. */
  function LastStop(s: seq<int>): int {
    if |s| == 0 then DEPOT else s[|s| - 1]
  }

  /** The final `returnToDepot` of main, from where the stops end. */
  function Home(s: seq<int>): (h: seq<int>)
    ensures LastStop(s + h) == DEPOT
  {
    if LastStop(s) == DEPOT then [] else [DEPOT]
  }

  /** Reference for main's loop from bin index idx on, with the truck
      holding `load` of `cap` bins and `marked` the `collected` array,
      folding Step's cases over the answers: a collected bin is skipped; a
      full truck first returns to the depot; otherwise the truck drives to
      the bin and reads an answer, stopping unfinished when none is left.
      Answer 1 returns to the depot and retries the bin, answer 2 marks it
      and moves on, and any other answer retries it with the load raised.
      Only an exhausted supply of answers stops the loop early, and only
      the depot and listed bins are driven to. */
  function Run(bins: seq<int>, answers: seq<int>, cap: int, idx: int, load: int, marked: seq<bool>): (o: Outcome)
    requires 0 < cap && 0 <= idx <= |bins| && MarksFor(bins, marked)
    ensures o.used <= |answers|
    ensures !o.finished ==> o.used == |answers|
    ensures forall k :: 0 <= k < |o.stops| ==> o.stops[k] == DEPOT || o.stops[k] in bins
    decreases |answers|, |bins| - idx, if load >= cap then 1 else 0
  {
    if idx == |bins| then Outcome([], true, 0)
    else
      var b := bins[idx];
      if marked[b] then Run(bins, answers, cap, idx + 1, load, marked)
      else if load >= cap then Prefixed([DEPOT], 0, Run(bins, answers, cap, idx, 0, marked))
      else if |answers| == 0 then Outcome([], false, 0)
      else if answers[0] == TRUCK_FULL then
        Prefixed([b, DEPOT], 1, Run(bins, answers[1..], cap, idx, 0, marked))
      else if answers[0] == BIN_PICKED then
        Prefixed([b], 1, Run(bins, answers[1..], cap, idx + 1, load + 1, marked[b := true]))
      else
        Prefixed([b], 1, Run(bins, answers[1..], cap, idx, load + 1, marked))
  }

  /** The 100 unmarked slots of `collected` at the start of main. */
  function NoMarks(): (m: seq<bool>)
    ensures |m| == MAX_NODES && forall v :: 0 <= v < MAX_NODES ==> !m[v]
  {
    seq(MAX_NODES, _ => false)
  }

  /** Answering 2 at every stop, with at least one answer per remaining
      bin, deals with every bin. */
  lemma {:induction false} PickAllFinishes(bins: seq<int>, answers: seq<int>, cap: int, idx: int, load: int, marked: seq<bool>)
    requires 0 < cap && 0 <= idx <= |bins| && MarksFor(bins, marked)
    requires forall k :: 0 <= k < |answers| ==> answers[k] == BIN_PICKED
    requires |answers| >= |bins| - idx
    ensures Run(bins, answers, cap, idx, load, marked).finished
    decreases |answers|, |bins| - idx, if load >= cap then 1 else 0
  {
    if idx < |bins| {
      var b := bins[idx];
      if marked[b] {
        PickAllFinishes(bins, answers, cap, idx + 1, load, marked);
      } else if load >= cap {
        PickAllFinishes(bins, answers, cap, idx, 0, marked);
      } else {
        assert answers[0] == BIN_PICKED;
        PickAllFinishes(bins, answers[1..], cap, idx + 1, load + 1, marked[b := true]);
      }
    }
  }

  /** One Step, as its contract describes it, is the first move of Run. */
  lemma RunStep(bins: seq<int>, rest: seq<int>, cap: int, idx: int, load: int, was: seq<bool>,
                action: int, next: int, more: seq<Leg>, load': int, now: seq<bool>, asked: bool)
    requires 0 < cap && 0 <= idx < |bins| && MarksFor(bins, was)
    requires action == (if |rest| > 0 then rest[0] else 0)
    requires !was[bins[idx]] && load < cap ==> |rest| > 0
    requires was[bins[idx]] ==>
      next == idx + 1 && more == [] && !asked && load' == load && now == was
    requires !was[bins[idx]] && load >= cap ==>
      next == idx && |more| == 1 && more[0].target == DEPOT && load' == 0 && !asked && now == was
    requires !was[bins[idx]] && load < cap ==>
      && asked && 0 < |more| && more[0].target == bins[idx]
      && (action == TRUCK_FULL ==> next == idx && |more| == 2 && more[1].target == DEPOT && load' == 0 && now == was)
      && (action == BIN_PICKED ==> next == idx + 1 && |more| == 1 && load' == load + 1 && now == was[bins[idx] := true])
      && (action != TRUCK_FULL && action != BIN_PICKED ==> next == idx && |more| == 1 && load' == load + 1 && now == was)
    ensures 0 <= next <= |bins| && MarksFor(bins, now)
    ensures Run(bins, rest, cap, idx, load, was)
         == Prefixed(Stops(more), if asked then 1 else 0, Run(bins, if asked then rest[1..] else rest, cap, next, load', now))
  {
    var b := bins[idx];
    if !was[b] && load < cap {
      if action == TRUCK_FULL {
        assert Stops(more) == [b, DEPOT];
      } else {
        assert Stops(more) == [b];
      }
    } else if !was[b] {
      assert Stops(more) == [DEPOT];
    }
  }

  /** Step as main's loop sees it: what the loop keeps about the truck,
      the legs and the `collected` array still holds after the pass, and
      the pass either asks the driver, moves on, or empties a full truck.
      With `rest` the answers not yet read and `action` the first of them,
      the pass is Run's first move. */
  method Pass(g: Graph, t: RouteTruck, bins: seq<int>, collected: array<bool>, idx: int, action: int,
              legs: seq<Leg>, ghost rest: seq<int>)
    returns (next: int, legs': seq<Leg>, asked: bool)
    requires g.Valid() && 0 <= t.currentNode < g.numNodes <= MAX_NODES && EdgesIn(g.Adj(), g.numNodes)
    requires 0 <= idx < |bins| && NodesIn(bins, g.numNodes) && collected.Length == MAX_NODES
    requires 0 < t.capacity && t.Within() && Driven(g.Adj(), t, legs)
    requires forall k :: 0 <= k < idx ==> collected[bins[k]]
    requires Marked(collected[..]) <= Members(bins) && Marked(collected[..]) <= Targets(legs)
    requires MarksFor(bins, collected[..])
    requires action == (if |rest| > 0 then rest[0] else 0)
    requires !collected[bins[idx]] && t.load < t.capacity ==> |rest| > 0
    modifies t, collected
    ensures t.Within() && 0 <= t.currentNode < g.numNodes && Driven(g.Adj(), t, legs')
    ensures 0 <= next <= |bins| && MarksFor(bins, collected[..]) && (asked ==> |rest| > 0)
    ensures Prefixed(Stops(legs), 0, Run(bins, rest, t.capacity, idx, old(t.load), old(collected[..])))
         == Prefixed(Stops(legs'), if asked then 1 else 0,
                     Run(bins, if asked then rest[1..] else rest, t.capacity, next, t.load, collected[..]))
    ensures idx <= next <= idx + 1 && forall k :: 0 <= k < next ==> collected[bins[k]]
    ensures Marked(collected[..]) <= Members(bins) && Marked(collected[..]) <= Targets(legs')
    ensures asked ==> !old(collected[bins[idx]]) && old(t.load) < t.capacity
    ensures asked || next == idx + 1 || (old(t.load) >= t.capacity && t.load < t.capacity)
  {
    ghost var was, adj, from, load := collected[..], g.Adj(), t.currentNode, t.load;
    var more;
    next, more, asked := Step(g, t, bins, collected, idx, action);
    assert g.Adj() == adj && End(DEPOT, legs) == from;
    JourneyConcat(adj, t.id, DEPOT, legs, more);
    PassKeeps(bins, idx, legs, more, was, collected[..]);
    MarksKept(bins, idx, next, was, collected[..]);
    RunStep(bins, rest, t.capacity, idx, load, was, action, next, more, t.load, collected[..], asked);
    PrefixedChain(Stops(legs), 0, Stops(more), if asked then 1 else 0, Run(bins, rest, t.capacity, idx, load, was),
                  Run(bins, if asked then rest[1..] else rest, t.capacity, next, t.load, collected[..]));
    StopsConcat(legs, more);
    legs' := legs + more;
  }

  /** main's `while (nextBinIndex < nBins)` loop, for truck t starting
      empty at the depot with `collected` all false, with `answers` as the
      driver's successive inputs. It stops early, at idx < |bins|, when it
      needs an answer and none is left. The nodes driven to, whether it
      reached the end of the bins and the number of answers read are
      those of Run. */
  method MainLoop(g: Graph, t: RouteTruck, bins: seq<int>, collected: array<bool>, answers: seq<int>)
    returns (legs: seq<Leg>, idx: int, used: nat)
    requires g.Valid() && 0 < g.numNodes <= MAX_NODES && EdgesIn(g.Adj(), g.numNodes)
    requires NodesIn(bins, g.numNodes) && collected.Length == MAX_NODES && collected[..] == NoMarks()
    requires t.id == 1 && t.capacity == 3 && t.load == 0 && t.currentNode == DEPOT && t.totalDistance == 0
    modifies t, collected
    ensures 0 <= idx <= |bins| && t.Within() && 0 <= t.currentNode < g.numNodes
    ensures Driven(g.Adj(), t, legs)
    ensures forall k :: 0 <= k < idx ==> collected[bins[k]]
    ensures Marked(collected[..]) <= Members(bins) && Marked(collected[..]) <= Targets(legs)
    ensures var o := Run(bins, answers, 3, 0, 0, NoMarks());
            Stops(legs) == o.stops && (idx == |bins|) == o.finished && used == o.used
  {
    assert Marked(collected[..]) == {};
    ghost var o := Run(bins, answers, 3, 0, 0, NoMarks());
    idx, used := 0, 0;
    legs := [];
    while idx < |bins|
      invariant 0 <= idx <= |bins| && 0 <= used <= |answers|
      invariant t.id == 1 && t.capacity == 3 && t.Within() && 0 <= t.currentNode < g.numNodes
      invariant Driven(g.Adj(), t, legs)
      invariant forall k :: 0 <= k < idx ==> collected[bins[k]]
      invariant Marked(collected[..]) <= Members(bins) && Marked(collected[..]) <= Targets(legs)
      invariant MarksFor(bins, collected[..])
      invariant o == Prefixed(Stops(legs), used, Run(bins, answers[used..], 3, idx, t.load, collected[..]))
      decreases |answers| - used, |bins| - idx, if t.load >= t.capacity then 1 else 0
    {
      if !collected[bins[idx]] && t.load < t.capacity && used == |answers| {
        break;
      }
      var action := if used < |answers| then answers[used] else 0;
      var next, asked;
      ghost var legs0 := legs;
      ghost var before := Run(bins, answers[used..], 3, idx, t.load, collected[..]);
      next, legs, asked := Pass(g, t, bins, collected, idx, action, legs, answers[used..]);
      ShiftUsed(Stops(legs0), Stops(legs), if asked then 1 else 0, used, before,
                Run(bins, if asked then answers[used..][1..] else answers[used..], 3, next, t.load, collected[..]));
      idx := next;
      if asked {
        assert answers[used..][1..] == answers[used + 1..];
        used := used + 1;
      }
    }
    RunAtExit(bins, answers[used..], 3, idx, t.load, collected[..]);
    assert o.stops == Stops(legs) + [];
  }

  /** main's loop and its final return to the depot, for truck
      `{1, 3, 0, 0, 0}`, visiting `bins` in order. The legs form one
      journey from the depot back to the depot, `total` (the
      "total_distance" of the output) is its length, every bin is
      collected when the loop finishes, and a bin is only marked
      collected after the truck drove to it. The nodes driven to, whether
      the loop finished and the number of answers read are those of Run,
      followed by the final return to the depot. */
  method Simulate(g: Graph, bins: seq<int>, answers: seq<int>)
    returns (legs: seq<Leg>, total: int, picked: set<int>, finished: bool, used: nat)
    requires g.Valid() && 0 < g.numNodes <= MAX_NODES && EdgesIn(g.Adj(), g.numNodes)
    requires NodesIn(bins, g.numNodes)
    ensures Journey(g.Adj(), 1, DEPOT, legs) && End(DEPOT, legs) == DEPOT && total == Total(legs)
    ensures NonNeg(g.Adj()) ==> 0 <= total
    ensures finished ==> Members(bins) <= picked
    ensures picked <= Members(bins) && picked <= Targets(legs)
    ensures var o := Run(bins, answers, 3, 0, 0, NoMarks());
            Stops(legs) == o.stops + Home(o.stops) && finished == o.finished && used == o.used
  {
    var t := new RouteTruck(1, 3);
    var collected := new bool[MAX_NODES](_ => false);
    assert collected[..] == NoMarks();
    var idx;
    legs, idx, used := MainLoop(g, t, bins, collected, answers);
    ghost var o := Run(bins, answers, 3, 0, 0, NoMarks());
    finished := idx == |bins|;
    EndIsLastStop(legs);
    if t.currentNode != DEPOT {
      assert Home(o.stops) == [DEPOT];
      var back := t.ReturnToDepot(g, DEPOT);
      JourneySnoc(g.Adj(), 1, DEPOT, legs, back);
      TargetsConcat(legs, [back]);
      StopsConcat(legs, [back]);
      legs := legs + [back];
    } else {
      assert Home(o.stops) == [];
    }
    total := t.totalDistance;
    if NonNeg(g.Adj()) {
      JourneyNonNeg(g.Adj(), 1, DEPOT, legs);
    }
    picked := Marked(collected[..]);
  }

  /** The city map main builds: six nodes and seven two-way roads, each
      list in the order `addEdge` leaves it (newest first). */
  const CITY: seq<seq<Edge>> := [
    [Edge(2, 2), Edge(1, 4)],
    [Edge(3, 5), Edge(2, 1), Edge(0, 4)],
    [Edge(3, 8), Edge(1, 1), Edge(0, 2)],
    [Edge(4, 3), Edge(2, 8), Edge(1, 5)],
    [Edge(5, 2), Edge(3, 3)],
    [Edge(4, 2)]
  ]

  /** The map's roads lead to its nodes, have non-negative lengths and go
      both ways. */
  lemma CityWellFormed()
    ensures EdgesIn(CITY, 6) && NonNeg(CITY)
  {
  }

  /** The seven `addEdge` calls of main, on six empty lists, give CITY. */
  lemma CityBuilt(a: seq<seq<Edge>>)
    requires |a| == MAX_NODES && forall u :: 0 <= u < 6 ==> a[u] == []
    ensures AddEdgeTo(AddEdgeTo(AddEdgeTo(AddEdgeTo(AddEdgeTo(AddEdgeTo(AddEdgeTo(
              a, 0, 1, 4), 0, 2, 2), 1, 2, 1), 1, 3, 5), 2, 3, 8), 3, 4, 3), 4, 5, 2)[..6] == CITY
  {
    var a1 := AddEdgeTo(a, 0, 1, 4);
    var a2 := AddEdgeTo(a1, 0, 2, 2);
    var a3 := AddEdgeTo(a2, 1, 2, 1);
    var a4 := AddEdgeTo(a3, 1, 3, 5);
    var a5 := AddEdgeTo(a4, 2, 3, 8);
    var a6 := AddEdgeTo(a5, 3, 4, 3);
    var a7 := AddEdgeTo(a6, 4, 5, 2);
    assert a7[0] == CITY[0] && a7[1] == CITY[1] && a7[2] == CITY[2];
    assert a7[3] == CITY[3] && a7[4] == CITY[4] && a7[5] == CITY[5];
  }

  /** The first half of main: `initGraph(&g, 6)` and the seven
      `addEdge` calls. */
  method BuildCity() returns (g: Graph)
    ensures fresh(g) && fresh(g.list) && g.Valid() && g.numNodes == 6 && g.Adj() == CITY
  {
    g := new Graph();
    g.InitGraph(6);
    ghost var a := g.list[..];
    g.AddEdge(0, 1, 4);
    g.AddEdge(0, 2, 2);
    g.AddEdge(1, 2, 1);
    g.AddEdge(1, 3, 5);
    g.AddEdge(2, 3, 8);
    g.AddEdge(3, 4, 3);
    g.AddEdge(4, 5, 2);
    CityBuilt(a);
  }

  /** Answering 2 at each of main's three bins drives to 3, 4 and 2 in
      turn and uses the three answers. */
  lemma CityPickedInOrder()
    ensures Run([3, 4, 2], [BIN_PICKED, BIN_PICKED, BIN_PICKED], 3, 0, 0, NoMarks()) == Outcome([3, 4, 2], true, 3)
  {
    var m := NoMarks();
    var m1 := m[3 := true];
    var m2 := m1[4 := true];
    var a := [BIN_PICKED, BIN_PICKED, BIN_PICKED];
    assert a[1..] == [BIN_PICKED, BIN_PICKED] && a[1..][1..] == [BIN_PICKED];
    assert Run([3, 4, 2], a[1..][1..], 3, 2, 2, m2) == Outcome([2], true, 1);
    assert Run([3, 4, 2], a[1..], 3, 1, 1, m1) == Outcome([4, 2], true, 2);
  }

  /** What Run makes of main's three bins: all of them are dealt with
      when every answer is 2 and there are at least three, and exactly
      three 2s drive to 3, 4 and 2, then home. */
  lemma CityAnswers(answers: seq<int>)
    ensures var o := Run([3, 4, 2], answers, 3, 0, 0, NoMarks());
            (|answers| >= 3 && (forall k :: 0 <= k < |answers| ==> answers[k] == BIN_PICKED) ==> o.finished) &&
            (answers == [BIN_PICKED, BIN_PICKED, BIN_PICKED] ==> o.stops + Home(o.stops) == [3, 4, 2, DEPOT] && o.used == 3)
  {
    if |answers| >= 3 && forall k :: 0 <= k < |answers| ==> answers[k] == BIN_PICKED {
      PickAllFinishes([3, 4, 2], answers, 3, 0, 0, NoMarks());
    }
    CityPickedInOrder();
  }

  /** main: build the city map g, then run the loop over the bins 3, 4, 2
      with the driver's answers. */
  method CityRun(answers: seq<int>)
    returns (g: Graph, legs: seq<Leg>, total: int, picked: set<int>, finished: bool, used: nat)
    ensures g.Valid() && g.numNodes == 6 && g.Adj() == CITY
    ensures Journey(g.Adj(), 1, DEPOT, legs) && End(DEPOT, legs) == DEPOT && total == Total(legs) && 0 <= total
    ensures finished ==> picked == {3, 4, 2}
    ensures picked <= {3, 4, 2}
    ensures var o := Run([3, 4, 2], answers, 3, 0, 0, NoMarks());
            Stops(legs) == o.stops + Home(o.stops) && finished == o.finished && used == o.used
    ensures |answers| >= 3 && (forall k :: 0 <= k < |answers| ==> answers[k] == BIN_PICKED) ==>
              finished && picked == {3, 4, 2}
    ensures answers == [BIN_PICKED, BIN_PICKED, BIN_PICKED] ==> Stops(legs) == [3, 4, 2, DEPOT] && used == 3
  {
    g := BuildCity();
    CityWellFormed();
    var bins := [3, 4, 2];
    legs, total, picked, finished, used := Simulate(g, bins, answers);
    assert Members(bins) == {3, 4, 2};
    CityAnswers(answers);
  }
}
