/** admin_portal.py without its window: the fill levels the admin keeps
    for the ten bins, the status files it writes, the status lines it
    reads back from the driver, the map colours, the user-report list and
    the no-backend fill step. */
module Admin {
  import opened Text
  import opened StatusFormat

  /** The bins in the order the city graph first meets them (the node order
      of the edge list). */
  const BINS: seq<string> := ["B1", "B2", "B3", "B4", "B5", "B6", "B7", "B8", "B9", "B10"]

  const GREEN := "#2ECC71"
  const YELLOW := "#F1C40F"
  const FULL_RED := "#E74C3C"
  const URGENT_RED := "#D32F2F"

  const URGENT_MARK := ":URGENT"
  const NO_REQUESTS := "No requests yet."

  // ------------------------------------------------------------ colours

  /** Green below 40, yellow from 40 below 70, red from 70 on. */
  function ColorForFill(lvl: int): (c: string)
    ensures c == GREEN <==> lvl < 40
    ensures c == YELLOW <==> 40 <= lvl < 70
    ensures c == FULL_RED <==> 70 <= lvl
  {
    if lvl < 40 then GREEN else if lvl < 70 then YELLOW else FULL_RED
  }

  /** How alarming a colour is: green, yellow, then red. */
  function Severity(c: string): int {
    if c == GREEN then 0 else if c == YELLOW then 1 else 2
  }

  /** A fuller bin is never shown in a calmer colour. */
  lemma ColorMonotone(a: int, b: int)
    requires a <= b
    ensures Severity(ColorForFill(a)) <= Severity(ColorForFill(b))
  {
  }

  // ------------------------------------------------------------ fill step

  /** `min(100, lvl + r)`. */
  function Bumped(lvl: int, r: int): (n: int)
    ensures n <= 100 && n <= lvl + r && (n == 100 || n == lvl + r)
    ensures 0 <= r && lvl <= 100 ==> lvl <= n
    ensures 0 <= r && 0 <= lvl ==> 0 <= n
  {
    if lvl + r < 100 then lvl + r else 100
  }

  /** The levels after bumping the bins of order in turn, the k-th by
      incs[k]. */
  function Filled(m: map<string, int>, order: seq<string>, incs: seq<int>): (r: map<string, int>)
    requires |incs| == |order| && forall k :: 0 <= k < |order| ==> order[k] in m
    ensures r.Keys == m.Keys
  {
    if |order| == 0 then m
    else
      var n := |order| - 1;
      var before := Filled(m, order[..n], incs[..n]);
      before[order[n] := Bumped(before[order[n]], incs[n])]
  }

  /** Bumping one more bin. */
  lemma FilledSnoc(m: map<string, int>, order: seq<string>, incs: seq<int>, i: int)
    requires |incs| == |order| && forall k :: 0 <= k < |order| ==> order[k] in m
    requires 0 <= i < |order|
    ensures var before := Filled(m, order[..i], incs[..i]);
            Filled(m, order[..i + 1], incs[..i + 1]) == before[order[i] := Bumped(before[order[i]], incs[i])]
  {
    assert order[..i + 1][..i] == order[..i] && incs[..i + 1][..i] == incs[..i];
  }

  /** With increments in [0, 7], a bumped bin ends within [0, 100] and,
      when it was at most 100, no lower than it was; a bin not bumped is
      unchanged. */
  lemma {:induction false} FilledAt(m: map<string, int>, order: seq<string>, incs: seq<int>, b: string)
    requires |incs| == |order| && forall k :: 0 <= k < |order| ==> order[k] in m
    requires forall k :: 0 <= k < |incs| ==> 0 <= incs[k] <= 7
    requires b in m
    ensures b !in order ==> Filled(m, order, incs)[b] == m[b]
    ensures b in order ==> Filled(m, order, incs)[b] <= 100
    ensures m[b] <= 100 ==> m[b] <= Filled(m, order, incs)[b]
    ensures 0 <= m[b] ==> 0 <= Filled(m, order, incs)[b]
    decreases |order|
  {
    if |order| > 0 {
      var n := |order| - 1;
      FilledAt(m, order[..n], incs[..n], b);
      assert order == order[..n] + [order[n]];
      assert incs[n] == incs[n];
    }
  }

  /** A bin not in order keeps its level. */
  lemma {:induction false} FilledUnlisted(m: map<string, int>, order: seq<string>, incs: seq<int>, b: string)
    requires |incs| == |order| && forall k :: 0 <= k < |order| ==> order[k] in m
    requires b in m && b !in order
    ensures Filled(m, order, incs)[b] == m[b]
    decreases |order|
  {
    if |order| > 0 {
      var n := |order| - 1;
      assert order[n] in order;
      assert forall k :: 0 <= k < n ==> order[..n][k] == order[k];
      FilledUnlisted(m, order[..n], incs[..n], b);
    }
  }

  /** When order names each bin once, the k-th bin ends at its own level
      bumped by incs[k]. */
  lemma {:induction false} FilledValue(m: map<string, int>, order: seq<string>, incs: seq<int>, k: int)
    requires |incs| == |order| && forall j :: 0 <= j < |order| ==> order[j] in m
    requires forall i, j :: 0 <= i < j < |order| ==> order[i] != order[j]
    requires 0 <= k < |order|
    ensures Filled(m, order, incs)[order[k]] == Bumped(m[order[k]], incs[k])
    decreases |order|
  {
    var n := |order| - 1;
    assert forall j :: 0 <= j < n ==> order[..n][j] == order[j];
    if k < n {
      FilledValue(m, order[..n], incs[..n], k);
      assert order[..n][k] == order[k] && incs[..n][k] == incs[k];
    } else {
      assert order[n] !in order[..n];
      FilledUnlisted(m, order[..n], incs[..n], order[n]);
    }
  }

  // ------------------------------------------------------------ requests

  /** A report line that `refresh_requests` reads as urgent. */
  predicate MarksUrgent(line: string) {
    Contains(Strip(line), URGENT_MARK)
  }

  /** The bin an urgent line names: what comes before its first colon. */
  function UrgentId(line: string): string {
    BeforeFirst(Strip(line), ':')
  }

  /** How a non-blank report line is listed. */
  function Shown(line: string): string {
    if MarksUrgent(line) then UrgentId(line) + " - URGENT" else Strip(line)
  }

  predicate Blank(line: string) {
    Strip(line) == ""
  }

  /** The report lines listed for the lines read, in order. */
  function Listed(lines: seq<string>): seq<string> {
    if |lines| == 0 then []
    else
      var last := lines[|lines| - 1];
      Listed(lines[..|lines| - 1]) + (if Blank(last) then [] else [Shown(last)])
  }

  /** The bin a line marks urgent, if it marks one. */
  function Urgent(line: string): Option<string> {
    if !Blank(line) && MarksUrgent(line) then Some(UrgentId(line)) else None
  }

  /** The bins marked urgent by the lines read. */
  function UrgentIds(lines: seq<string>): set<string> {
    if |lines| == 0 then {}
    else
      var last := lines[|lines| - 1];
      UrgentIds(lines[..|lines| - 1]) + (if Urgent(last).Some? then {Urgent(last).value} else {})
  }

  /** Reading one more line of requests.txt. */
  lemma RequestStep(lines: seq<string>, i: int)
    requires 0 <= i < |lines|
    ensures Listed(lines[..i + 1]) == Listed(lines[..i]) + (if Blank(lines[i]) then [] else [Shown(lines[i])])
    ensures UrgentIds(lines[..i + 1]) ==
      UrgentIds(lines[..i]) + (if Urgent(lines[i]).Some? then {Urgent(lines[i]).value} else {})
  {
    assert lines[..i + 1][..i] == lines[..i];
  }

  /** The listed entries of two files one after the other are those of the
      first followed by those of the second. */
  lemma {:induction false} ListedConcat(xs: seq<string>, ys: seq<string>)
    ensures Listed(xs + ys) == Listed(xs) + Listed(ys)
    decreases |ys|
  {
    if |ys| == 0 {
      assert xs + ys == xs;
    } else {
      var n := |ys| - 1;
      assert (xs + ys)[..|xs + ys| - 1] == xs + ys[..n];
      ListedConcat(xs, ys[..n]);
    }
  }

  /** Line k is a non-blank line that marks b urgent. */
  predicate UrgentAt(lines: seq<string>, k: int, b: string) {
    0 <= k < |lines| && Urgent(lines[k]) == Some(b)
  }

  /** Every urgent bin was marked by some non-blank line, ... */
  lemma {:induction false} UrgentMarked(lines: seq<string>, b: string) returns (k: int)
    requires b in UrgentIds(lines)
    ensures UrgentAt(lines, k, b)
    decreases |lines|
  {
    var n := |lines| - 1;
    var init := lines[..n];
    if b in UrgentIds(init) {
      k := UrgentMarked(init, b);
      assert lines[k] == init[k];
    } else {
      k := n;
    }
  }

  /** ... and every bin such a line marks is urgent. */
  lemma {:induction false} MarkedUrgent(lines: seq<string>, k: int, b: string)
    requires UrgentAt(lines, k, b)
    ensures b in UrgentIds(lines)
    decreases |lines|
  {
    var n := |lines| - 1;
    if k < n {
      var init := lines[..n];
      assert init[k] == lines[k];
      MarkedUrgent(init, k, b);
    }
  }

  /** Every urgent bin has its `<bin> - URGENT` entry in the list. */
  lemma {:induction false} UrgentListed(lines: seq<string>, b: string)
    requires b in UrgentIds(lines)
    ensures b + " - URGENT" in Listed(lines)
    decreases |lines|
  {
    var n := |lines| - 1;
    if b in UrgentIds(lines[..n]) {
      UrgentListed(lines[..n], b);
    }
  }

  /** Nothing is listed exactly when every line is blank. */
  lemma {:induction false} NothingListed(lines: seq<string>)
    ensures Listed(lines) == [] <==> forall k :: 0 <= k < |lines| ==> Blank(lines[k])
    decreases |lines|
  {
    if |lines| > 0 {
      var n := |lines| - 1;
      NothingListed(lines[..n]);
      assert forall k :: 0 <= k < n ==> lines[..n][k] == lines[k];
    }
  }

  /** The line user_portal.py appends to requests.txt for a report: one
      newline-terminated line, with no colon when the bin id has none. */
  function ReportLine(b: string): (r: string)
    ensures |r| > 0 && r[|r| - 1] == '\n'
    ensures '\n' !in b ==> forall k :: 0 <= k < |r| - 1 ==> r[k] != '\n'
    ensures ':' !in b ==> ':' !in r
  {
    "Bin " + b + " - Overflow reported by user\n"
  }

  /** A user's report names no urgent bin and is listed as written, without
      its newline. */
  lemma UserReportShown(b: string)
    requires ':' !in b
    ensures !Blank(ReportLine(b)) && !MarksUrgent(ReportLine(b))
    ensures Shown(ReportLine(b)) == ReportLine(b)[..|ReportLine(b)| - 1]
  {
    var x := "Bin " + b + " - Overflow reported by user";
    var l := ReportLine(b);
    assert l == x + "\n" && l[..|l| - 1] == x;
    assert x[0] == 'B' && x[|x| - 1] == 'r';
    StripTrailing(x, "\n");
    assert ':' !in x;
    WithoutFirstChar(x, URGENT_MARK);
  }

  /** One line of requests.txt as `refresh_requests` takes it: a blank
      line is skipped; an urgent line lists and marks the text before its
      first colon; any other line is listed stripped. */
  method ReadRequest(raw: string) returns (entry: Option<string>, marked: Option<string>)
    ensures entry == if Blank(raw) then None else Some(Shown(raw))
    ensures marked == Urgent(raw)
    ensures marked.Some? ==> entry == Some(marked.value + " - URGENT")
  {
    var line := Strip(raw);
    if line == "" {
      return None, None;
    }
    if Contains(line, URGENT_MARK) {
      var binId := Split(line, ':')[0];
      return Some(binId + " - URGENT"), Some(binId);
    }
    return Some(line), None;
  }

  // ------------------------------------------------------------ the portal

  class AdminPortal {
    const bins: seq<string>
    var fillLevels: map<string, int>
    var truckPosition: string
    var urgentBins: set<string>
    var requestList: seq<string>
    var simulationRunning: bool

    /** The levels are kept for exactly the portal's bins, whose ids the
        status line format carries. */
    ghost predicate Valid()
      reads this
    {
      && (forall b :: b in fillLevels <==> b in bins)
      && (forall k :: 0 <= k < |bins| ==> PlainId(bins[k]))
    }

    /** The state `__init__` sets up: every bin empty, the truck at B1, no
        reports, the simulation running. */
    constructor ()
      ensures Valid() && bins == BINS && truckPosition == "B1"
      ensures fillLevels == map b | b in BINS :: 0
      ensures urgentBins == {} && requestList == [] && simulationRunning
    {
      bins := BINS;
      fillLevels := map b | b in BINS :: 0;
      truckPosition := "B1";
      urgentBins := {};
      requestList := [];
      simulationRunning := true;
    }

    /** `save_status_files`: the texts of bin_status.txt, one line per bin
        in order, and of truck_status.txt. */
    method SaveStatusFiles() returns (binFile: string, truckFile: string)
      requires Valid()
      ensures binFile == StatusText(bins, fillLevels)
      ensures truckFile == TruckText(truckPosition)
    {
      binFile := "";
      var i := 0;
      while i < |bins|
        invariant 0 <= i <= |bins|
        invariant binFile == StatusText(bins[..i], fillLevels)
      {
        StatusTextSnoc(bins, fillLevels, i);
        binFile := binFile + StatusLine(bins[i], fillLevels[bins[i]]);
        i := i + 1;
      }
      assert bins[..i] == bins;
      truckFile := TRUCK_TAG + truckPosition + "\n";
    }

    /** The bin-file part of `sync_from_driver`: each line that is a known
        bin with an integer level sets that bin; no file, no change. */
    method SyncFromDriver(file: Option<string>)
      requires Valid()
      modifies this`fillLevels
      ensures Valid() && unchanged(this`truckPosition, this`urgentBins, this`requestList, this`simulationRunning)
      ensures file.None? ==> fillLevels == old(fillLevels)
      ensures file.Some? ==> fillLevels == AdminParse(old(fillLevels), Lines(file.value))
    {
      if file.None? {
        return;
      }
      var lines := Lines(file.value);
      var i := 0;
      while i < |lines|
        invariant 0 <= i <= |lines|
        invariant fillLevels == AdminParse(old(fillLevels), lines[..i])
      {
        AdminParseSnoc(old(fillLevels), lines, i);
        var parts := Split(Strip(lines[i]), ':');
        if |parts| == 2 {
          var lvl := ParseInt(parts[1]);
          if lvl.Some? && parts[0] in fillLevels {
            fillLevels := fillLevels[parts[0] := lvl.value];
          }
        }
        i := i + 1;
      }
      assert lines[..i] == lines;
    }

    /** The colour of each bin on the map, in the order of the bins: urgent
        red for a reported bin, else the colour of its level. */
    method MapColors() returns (colors: seq<string>)
      requires Valid()
      ensures |colors| == |bins|
      ensures forall k :: 0 <= k < |bins| ==>
        colors[k] == if bins[k] in urgentBins then URGENT_RED else ColorForFill(fillLevels[bins[k]])
    {
      colors := [];
      var i := 0;
      while i < |bins|
        invariant 0 <= i <= |bins| && |colors| == i
        invariant forall k :: 0 <= k < i ==>
          colors[k] == if bins[k] in urgentBins then URGENT_RED else ColorForFill(fillLevels[bins[k]])
      {
        var b := bins[i];
        if b in urgentBins {
          colors := colors + [URGENT_RED];
        } else {
          var lvl := fillLevels[b];
          if lvl < 40 {
            colors := colors + ["#2ECC71"];
          } else if lvl < 70 {
            colors := colors + ["#F1C40F"];
          } else {
            colors := colors + ["#E74C3C"];
          }
        }
        i := i + 1;
      }
    }

    /** The node sizes: the truck's bin is drawn larger. */
    function NodeSizes(): (sizes: seq<int>)
      reads this
      ensures |sizes| == |bins|
      ensures forall k :: 0 <= k < |bins| ==> (sizes[k] == 980 <==> bins[k] == truckPosition)
      ensures forall k :: 0 <= k < |bins| ==> sizes[k] == 980 || sizes[k] == 700
    {
      seq(|bins|, k requires 0 <= k < |bins| reads this => if bins[k] == truckPosition then 980 else 700)
    }

    /** `refresh_requests`: the urgent bins and the listed entries of
        requests.txt; with no file, or only blank lines, the list holds the
        one placeholder entry. */
    method RefreshRequests(file: Option<string>)
      modifies this`urgentBins, this`requestList
      ensures unchanged(this`fillLevels, this`truckPosition, this`simulationRunning)
      ensures file.None? ==> urgentBins == {} && requestList == [NO_REQUESTS]
      ensures file.Some? ==> urgentBins == UrgentIds(Lines(file.value))
      ensures file.Some? ==> requestList == if Listed(Lines(file.value)) == [] then [NO_REQUESTS] else Listed(Lines(file.value))
    {
      requestList := [];
      urgentBins := {};
      if file.Some? {
        var lines := Lines(file.value);
        var i := 0;
        while i < |lines|
          invariant 0 <= i <= |lines|
          invariant urgentBins == UrgentIds(lines[..i]) && requestList == Listed(lines[..i])
        {
          RequestStep(lines, i);
          var entry, marked := ReadRequest(lines[i]);
          if marked.Some? {
            urgentBins := urgentBins + {marked.value};
          }
          if entry.Some? {
            requestList := requestList + [entry.value];
          }
          i := i + 1;
        }
        assert lines[..i] == lines;
        if urgentBins != {} {
          var b :| b in urgentBins;
          UrgentListed(lines, b);
        }
      }
      if urgentBins == {} && |requestList| == 0 {
        requestList := requestList + [NO_REQUESTS];
      }
    }

    /** The no-backend step of `simulate`: while the simulation runs, each
        bin in turn rises by its increment, capped at 100. */
    method SimulateStep(incs: seq<int>)
      requires Valid() && |incs| == |bins|
      requires forall k :: 0 <= k < |incs| ==> 0 <= incs[k] <= 7
      modifies this`fillLevels
      ensures Valid() && unchanged(this`truckPosition, this`urgentBins, this`requestList, this`simulationRunning)
      ensures fillLevels == if simulationRunning then Filled(old(fillLevels), bins, incs) else old(fillLevels)
    {
      if !simulationRunning {
        return;
      }
      var i := 0;
      while i < |bins|
        invariant 0 <= i <= |bins| && fillLevels.Keys == old(fillLevels).Keys
        invariant fillLevels == Filled(old(fillLevels), bins[..i], incs[..i])
      {
        FilledSnoc(old(fillLevels), bins, incs, i);
        var b := bins[i];
        fillLevels := fillLevels[b := Bumped(fillLevels[b], incs[i])];
        i := i + 1;
      }
      assert bins[..i] == bins && incs[..i] == incs;
    }
  }

  /** A fill step keeps every level within [0, 100] and lowers none. */
  lemma StepKeepsBounds(m: map<string, int>, order: seq<string>, incs: seq<int>, b: string)
    requires |incs| == |order| && forall k :: 0 <= k < |order| ==> order[k] in m
    requires forall k :: 0 <= k < |incs| ==> 0 <= incs[k] <= 7
    requires b in m && 0 <= m[b] <= 100
    ensures m[b] <= Filled(m, order, incs)[b] <= 100
  {
    FilledAt(m, order, incs, b);
  }
}
