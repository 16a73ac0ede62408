/** The two status files the portals share: bin_status.txt, one
    `<bin>:<level>` line per bin, and truck_status.txt, one
    `TruckAt:<position>` line; how admin_portal.py and driver_portal.py
    write them and how each reads them back. */
module StatusFormat {
  import opened Text

  /** A bin id the line format carries unchanged: no colon and no newline
      inside, and no whitespace in front for `strip` to eat. The ids of both
      portals, B1 to B10, are such ids. */
  predicate PlainId(b: string) {
    ':' !in b && NoNewline(b) && (|b| == 0 || !IsSpace(b[0]))
  }

  /** Every key of the dictionary appears among the listed bins. */
  predicate Covers(order: seq<string>, levels: map<string, int>) {
    forall k :: 0 <= k < |order| ==> order[k] in levels
  }

  // ------------------------------------------------------------ writing

  /** `f"{b}:{lvl}\n"`. */
  function StatusLine(b: string, lvl: int): string {
    b + ":" + IntToString(lvl) + "\n"
  }

  /** The lines written for the bins of order, in that order. */
  function StatusLines(order: seq<string>, levels: map<string, int>): (ls: seq<string>)
    requires Covers(order, levels)
    ensures |ls| == |order|
  {
    seq(|order|, k requires 0 <= k < |order| => StatusLine(order[k], levels[order[k]]))
  }

  /** The text of bin_status.txt after writing every bin of order. */
  function StatusText(order: seq<string>, levels: map<string, int>): string
    requires Covers(order, levels)
  {
    Concat(StatusLines(order, levels))
  }

  /** `f"TruckAt:{pos}\n"`, the whole of truck_status.txt. */
  function TruckText(pos: string): (t: string)
    ensures StartsWith(t, TRUCK_TAG) && t[|t| - 1] == '\n'
  {
    TRUCK_TAG + pos + "\n"
  }

  /** Writing the bins one at a time: the text for one more bin is the
      text so far followed by that bin's line. */
  lemma StatusTextSnoc(order: seq<string>, levels: map<string, int>, i: int)
    requires Covers(order, levels) && 0 <= i < |order|
    ensures StatusText(order[..i + 1], levels) == StatusText(order[..i], levels) + StatusLine(order[i], levels[order[i]])
  {
    assert StatusLines(order[..i + 1], levels) == StatusLines(order[..i], levels) + [StatusLine(order[i], levels[order[i]])];
    ConcatSnoc(StatusLines(order[..i], levels), StatusLine(order[i], levels[order[i]]));
  }

  const TRUCK_TAG := "TruckAt:"

  // ------------------------------------------------------------ reading

  /** A line of bin_status.txt as both portals take it apart: the
      stripped line split at its colons is either exactly a bin and a level
      text, with the level's value when it is an integer, or something
      else. */
  datatype Reading = Entry(bin: string, level: Option<int>) | Other

  function Read(line: string): Reading {
    var parts := Split(Strip(line), ':');
    if |parts| == 2 then Entry(parts[0], ParseInt(parts[1])) else Other
  }

  /** One line as `sync_from_driver` reads it: a known bin with an integer
      level is set; any other line leaves the levels as they are. */
  function AdminLine(levels: map<string, int>, line: string): (r: map<string, int>)
    ensures r.Keys == levels.Keys
  {
    match Read(line)
    case Entry(b, Some(v)) => if b in levels then levels[b := v] else levels
    case _ => levels
  }

  /** The levels after `sync_from_driver` has read the lines in order. */
  function AdminParse(levels: map<string, int>, lines: seq<string>): (r: map<string, int>)
    ensures r.Keys == levels.Keys
  {
    if |lines| == 0 then levels
    else AdminLine(AdminParse(levels, lines[..|lines| - 1]), lines[|lines| - 1])
  }

  /** Reading one more line of bin_status.txt, as `sync_from_driver`
      does: the stripped line split at its colons sets a known bin when it
      is exactly a bin and an integer. */
  lemma AdminParseSnoc(m: map<string, int>, lines: seq<string>, i: int)
    requires 0 <= i < |lines|
    ensures var parts := Split(Strip(lines[i]), ':');
            var before := AdminParse(m, lines[..i]);
            AdminParse(m, lines[..i + 1]) ==
              if |parts| == 2 && ParseInt(parts[1]).Some? && parts[0] in before
              then before[parts[0] := ParseInt(parts[1]).value] else before
  {
    assert lines[..i + 1][..i] == lines[..i];
  }

  /** What `load_bin_status` has made of the levels, and whether it read
      the whole file. */
  datatype Loaded = Loaded(levels: map<string, int>, complete: bool)

  /** One line as `load_bin_status` reads it: a line of exactly two parts
      whose bin is known sets that bin, unless the level is no integer, in
      which case reading stops. */
  function DriverLine(levels: map<string, int>, line: string): (r: Loaded)
    ensures r.levels.Keys == levels.Keys
  {
    match Read(line)
    case Entry(b, lvl) =>
      if b !in levels then Loaded(levels, true)
      else if lvl.Some? then Loaded(levels[b := lvl.value], true)
      else Loaded(levels, false)
    case Other => Loaded(levels, true)
  }

  /** `load_bin_status` over the lines in order: a level that is no
      integer ends the reading and keeps the updates made before it. */
  function DriverParse(levels: map<string, int>, lines: seq<string>): (r: Loaded)
    ensures r.levels.Keys == levels.Keys
  {
    if |lines| == 0 then Loaded(levels, true)
    else
      var before := DriverParse(levels, lines[..|lines| - 1]);
      if before.complete then DriverLine(before.levels, lines[|lines| - 1]) else before
  }

  /** Reading one more line of bin_status.txt, as `load_bin_status` does
      while it has not stopped. */
  lemma DriverParseSnoc(m: map<string, int>, lines: seq<string>, i: int)
    requires 0 <= i < |lines| && DriverParse(m, lines[..i]).complete
    ensures var parts := Split(Strip(lines[i]), ':');
            var before := DriverParse(m, lines[..i]).levels;
            DriverParse(m, lines[..i + 1]) ==
              if |parts| == 2 && parts[0] in before then
                if ParseInt(parts[1]).Some? then Loaded(before[parts[0] := ParseInt(parts[1]).value], true)
                else Loaded(before, false)
              else Loaded(before, true)
  {
    assert lines[..i + 1][..i] == lines[..i];
  }

  /** The position after `load_truck_status` has read the lines in order:
      each line beginning with `TruckAt:` sets it to what follows the first
      colon of the stripped line. */
  function TruckParse(pos: string, lines: seq<string>): string {
    if |lines| == 0 then pos
    else
      var before := TruckParse(pos, lines[..|lines| - 1]);
      var last := lines[|lines| - 1];
      if StartsWith(last, TRUCK_TAG) then TruckValue(last) else before
  }

  /** What follows the first colon of a stripped `TruckAt:` line. */
  function TruckValue(line: string): string {
    var s := Strip(line);
    if |s| >= 8 then s[8..] else ""
  }

  /** On a `TruckAt:` line that value is `split(":", 1)[1]` of the
      stripped line: the colon after `TruckAt` is the first one. */
  lemma TruckValueAfterColon(line: string)
    requires StartsWith(line, TRUCK_TAG)
    ensures ':' in Strip(line) && TruckValue(line) == AfterFirst(Strip(line), ':')
    ensures Strip(line) == TRUCK_TAG + TruckValue(line)
  {
    TaggedStrip(line);
    var s := Strip(line);
    assert s[7] == ':' && ':' !in s[..7];
    assert s == s[..8] + s[8..];
  }

  /** Stripping a line that begins with `TruckAt:` keeps that beginning. */
  lemma {:induction false} TaggedStrip(line: string)
    requires StartsWith(line, TRUCK_TAG)
    ensures StartsWith(Strip(line), TRUCK_TAG)
    decreases |line|
  {
    assert line[0] == 'T' && line[7] == ':';
    if IsSpace(line[|line| - 1]) {
      var init := line[..|line| - 1];
      assert init[..8] == line[..8];
      TaggedStrip(init);
    }
  }

  // ------------------------------------------------------------ round trips

  /** A written line, stripped and split at its colon, gives back the bin
      and the printed level. */
  lemma LineParts(b: string, lvl: int)
    requires PlainId(b)
    ensures Split(Strip(StatusLine(b, lvl)), ':') == [b, IntToString(lvl)]
  {
    var s := IntToString(lvl);
    PrintedChars(lvl);
    var x := b + ":" + s;
    assert StatusLine(b, lvl) == x + "\n";
    assert x[0] == (if |b| > 0 then b[0] else ':');
    assert x[|x| - 1] == s[|s| - 1];
    StripTrailing(x, "\n");
    assert Join([b, s], ':') == x by {
      assert [b, s][1..] == [s];
    }
    SplitJoin([b, s], ':');
  }

  /** bin_status.txt read line by line gives back the lines written. */
  lemma StatusTextLines(order: seq<string>, levels: map<string, int>)
    requires Covers(order, levels) && forall k :: 0 <= k < |order| ==> PlainId(order[k])
    ensures Lines(StatusText(order, levels)) == StatusLines(order, levels)
  {
    var ls := StatusLines(order, levels);
    forall k | 0 <= k < |ls|
      ensures IsLine(ls[k]) && EndsLine(ls[k])
    {
      var l := ls[k];
      PrintedChars(levels[order[k]]);
      assert l[..|l| - 1] == order[k] + ":" + IntToString(levels[order[k]]);
    }
    LinesConcat(ls);
  }

  /** `sync_from_driver` reads a written line as the bin and level
      written. */
  lemma ReadsLine(b: string, lvl: int)
    requires PlainId(b)
    ensures Read(StatusLine(b, lvl)) == Entry(b, Some(lvl))
  {
    LineParts(b, lvl);
    ParseIntToString(lvl);
  }

  /** Each of the lines reads as the bin of order at the same place with
      its level in levels. */
  ghost predicate ReadsAs(lines: seq<string>, order: seq<string>, levels: map<string, int>) {
    && |lines| == |order| && Covers(order, levels)
    && forall k :: 0 <= k < |lines| ==> Read(lines[k]) == Entry(order[k], Some(levels[order[k]]))
  }

  /** The lines written for order read back as order's bins and levels. */
  lemma WrittenReadsAs(order: seq<string>, levels: map<string, int>)
    requires Covers(order, levels) && forall k :: 0 <= k < |order| ==> PlainId(order[k])
    ensures ReadsAs(StatusLines(order, levels), order, levels)
  {
    var ls := StatusLines(order, levels);
    forall k | 0 <= k < |ls|
      ensures Read(ls[k]) == Entry(order[k], Some(levels[order[k]]))
    {
      ReadsLine(order[k], levels[order[k]]);
    }
  }

  /** m with each bin of order that m knows set to its level in levels,
      in order. */
  function Overlay(m: map<string, int>, order: seq<string>, levels: map<string, int>): (r: map<string, int>)
    requires Covers(order, levels)
    ensures r.Keys == m.Keys
  {
    if |order| == 0 then m
    else
      var r := Overlay(m, order[..|order| - 1], levels);
      var b := order[|order| - 1];
      if b in r then r[b := levels[b]] else r
  }

  /** Overlaying every key, in whatever order, gives levels itself. */
  lemma {:induction false} OverlayAt(m: map<string, int>, order: seq<string>, levels: map<string, int>, b: string)
    requires Covers(order, levels) && b in m
    ensures Overlay(m, order, levels)[b] == if b in order then levels[b] else m[b]
    decreases |order|
  {
    if |order| > 0 {
      var init := order[..|order| - 1];
      OverlayAt(m, init, levels, b);
      assert order == init + [order[|order| - 1]];
    }
  }

  /** One more line naming a bin with its level extends the overlay by
      that bin. */
  lemma AdminStep(m: map<string, int>, lines: seq<string>, order: seq<string>, levels: map<string, int>)
    requires |lines| == |order| > 0 && Covers(order, levels)
    requires Read(lines[|lines| - 1]) == Entry(order[|order| - 1], Some(levels[order[|order| - 1]]))
    requires AdminParse(m, lines[..|lines| - 1]) == Overlay(m, order[..|order| - 1], levels)
    ensures AdminParse(m, lines) == Overlay(m, order, levels)
  {
  }

  /** Dropping the last line and the last bin keeps the reading. */
  lemma ReadsAsInit(lines: seq<string>, order: seq<string>, levels: map<string, int>)
    requires ReadsAs(lines, order, levels) && |lines| > 0
    ensures ReadsAs(lines[..|lines| - 1], order[..|order| - 1], levels)
  {
    var n := |lines| - 1;
    forall k | 0 <= k < n
      ensures Read(lines[..n][k]) == Entry(order[..n][k], Some(levels[order[..n][k]]))
    {
      assert lines[..n][k] == lines[k] && order[..n][k] == order[k];
    }
  }

  /** Reading lines that name each bin of order overlays those bins. */
  lemma {:induction false} AdminReadsOverlay(m: map<string, int>, lines: seq<string>, order: seq<string>,
                                            levels: map<string, int>)
    requires ReadsAs(lines, order, levels)
    ensures AdminParse(m, lines) == Overlay(m, order, levels)
    decreases |lines|
  {
    if |lines| > 0 {
      ReadsAsInit(lines, order, levels);
      AdminReadsOverlay(m, lines[..|lines| - 1], order[..|order| - 1], levels);
      AdminStep(m, lines, order, levels);
    }
  }

  /** Overlaying every key of levels onto a map with the same keys gives
      levels. */
  lemma OverlayAll(m: map<string, int>, order: seq<string>, levels: map<string, int>)
    requires Covers(order, levels) && m.Keys == levels.Keys && forall b :: b in levels ==> b in order
    ensures Overlay(m, order, levels) == levels
  {
    forall b | b in m
      ensures Overlay(m, order, levels)[b] == levels[b]
    {
      OverlayAt(m, order, levels, b);
    }
  }

  /** Lines that name every bin with its level restore the levels. */
  lemma AdminReadsAll(m: map<string, int>, lines: seq<string>, order: seq<string>, levels: map<string, int>)
    requires ReadsAs(lines, order, levels)
    requires m.Keys == levels.Keys && forall b :: b in levels ==> b in order
    ensures AdminParse(m, lines) == levels
  {
    AdminReadsOverlay(m, lines, order, levels);
    OverlayAll(m, order, levels);
  }

  /** `sync_from_driver` reading what `save_status_files` wrote for the
      same bins restores the levels exactly. */
  lemma AdminRoundTrip(m: map<string, int>, order: seq<string>, levels: map<string, int>)
    requires Covers(order, levels) && forall k :: 0 <= k < |order| ==> PlainId(order[k])
    requires m.Keys == levels.Keys && forall b :: b in levels ==> b in order
    ensures AdminParse(m, Lines(StatusText(order, levels))) == levels
  {
    StatusTextLines(order, levels);
    WrittenReadsAs(order, levels);
    AdminReadsAll(m, StatusLines(order, levels), order, levels);
  }

  /** When `load_bin_status` reads the whole file it agrees with
      `sync_from_driver`: every line it skips the admin skips too. */
  lemma {:induction false} DriverAgrees(m: map<string, int>, lines: seq<string>)
    ensures DriverParse(m, lines).complete ==> DriverParse(m, lines).levels == AdminParse(m, lines)
    decreases |lines|
  {
    if |lines| > 0 {
      DriverAgrees(m, lines[..|lines| - 1]);
    }
  }

  /** Reading stopped at line i: the lines before it were read in full,
      and line i names a known bin with a level that is no integer. */
  ghost predicate StopsAt(m: map<string, int>, lines: seq<string>, i: int) {
    && 0 <= i < |lines| && DriverParse(m, lines[..i]).complete
    && DriverParse(m, lines).levels == DriverParse(m, lines[..i]).levels
    && Read(lines[i]).Entry? && Read(lines[i]).bin in m && Read(lines[i]).level.None?
  }

  /** `load_bin_status` stops only at a line of a known bin whose level is
      no integer, and then keeps what the lines before it set. */
  lemma {:induction false} DriverStops(m: map<string, int>, lines: seq<string>)
    ensures !DriverParse(m, lines).complete ==> exists i :: StopsAt(m, lines, i)
    decreases |lines|
  {
    if |lines| > 0 && !DriverParse(m, lines).complete {
      var init := lines[..|lines| - 1];
      DriverStops(m, init);
      var before := DriverParse(m, init);
      if before.complete {
        var last := lines[|lines| - 1];
        assert DriverParse(m, lines) == DriverLine(before.levels, last);
        assert StopsAt(m, lines, |lines| - 1);
      } else {
        var i :| StopsAt(m, init, i);
        assert init[..i] == lines[..i] && init[i] == lines[i];
        assert StopsAt(m, lines, i);
      }
    }
  }

  /** Lines that name every bin with its level are read in full by
      `load_bin_status`, which restores the levels. */
  lemma DriverReadsAll(m: map<string, int>, lines: seq<string>, order: seq<string>, levels: map<string, int>)
    requires ReadsAs(lines, order, levels)
    requires m.Keys == levels.Keys && forall b :: b in levels ==> b in order
    ensures DriverParse(m, lines) == Loaded(levels, true)
  {
    DriverCompletes(m, lines, order, levels);
    DriverAgrees(m, lines);
    AdminReadsAll(m, lines, order, levels);
  }

  /** The admin's bin file is accepted in full by the driver's reader,
      which then restores the levels exactly too. */
  lemma DriverRoundTrip(m: map<string, int>, order: seq<string>, levels: map<string, int>)
    requires Covers(order, levels) && forall k :: 0 <= k < |order| ==> PlainId(order[k])
    requires m.Keys == levels.Keys && forall b :: b in levels ==> b in order
    ensures DriverParse(m, Lines(StatusText(order, levels))) == Loaded(levels, true)
  {
    StatusTextLines(order, levels);
    WrittenReadsAs(order, levels);
    DriverReadsAll(m, StatusLines(order, levels), order, levels);
  }

  /** No such line stops `load_bin_status`: every level is an integer. */
  lemma {:induction false} DriverCompletes(m: map<string, int>, lines: seq<string>, order: seq<string>,
                                           levels: map<string, int>)
    requires ReadsAs(lines, order, levels)
    ensures DriverParse(m, lines).complete
    decreases |lines|
  {
    if |lines| > 0 {
      ReadsAsInit(lines, order, levels);
      DriverCompletes(m, lines[..|lines| - 1], order[..|order| - 1], levels);
    }
  }

  /** Once reading has stopped, the lines after are not read. */
  lemma {:induction false} DriverStaysStopped(m: map<string, int>, lines: seq<string>, i: int)
    requires 0 <= i <= |lines| && !DriverParse(m, lines[..i]).complete
    ensures DriverParse(m, lines) == DriverParse(m, lines[..i])
    decreases |lines| - i
  {
    if i < |lines| {
      assert lines[..i + 1][..i] == lines[..i];
      DriverStaysStopped(m, lines, i + 1);
      assert lines[..|lines|] == lines;
    } else {
      assert lines[..i] == lines;
    }
  }

  /** The index of the last line beginning with `TruckAt:`, or -1 when
      there is none. */
  function LastTagged(lines: seq<string>): (r: int)
    ensures -1 <= r < |lines|
    ensures r >= 0 ==> StartsWith(lines[r], TRUCK_TAG)
    ensures forall j :: r < j < |lines| ==> !StartsWith(lines[j], TRUCK_TAG)
  {
    if |lines| == 0 then -1
    else if StartsWith(lines[|lines| - 1], TRUCK_TAG) then |lines| - 1
    else LastTagged(lines[..|lines| - 1])
  }

  /** The last line that begins with `TruckAt:` decides the position; with
      none, the position stays as it was. */
  lemma {:induction false} TruckLastWins(pos: string, lines: seq<string>)
    ensures TruckParse(pos, lines) == if LastTagged(lines) < 0 then pos else TruckValue(lines[LastTagged(lines)])
    decreases |lines|
  {
    if |lines| > 0 {
      var init := lines[..|lines| - 1];
      TruckLastWins(pos, init);
      if LastTagged(init) >= 0 {
        assert lines[LastTagged(init)] == init[LastTagged(init)];
      }
    }
  }

  /** truck_status.txt as written reads back as the position written, for
      a position with no newline and no trailing whitespace. */
  lemma TruckRoundTrip(pos0: string, pos: string)
    requires NoNewline(pos) && (|pos| == 0 || !IsSpace(pos[|pos| - 1]))
    ensures TruckParse(pos0, Lines(TruckText(pos))) == pos
  {
    var x := TRUCK_TAG + pos;
    var t := TruckText(pos);
    assert t == x + "\n";
    assert Lines(t) == [t] by {
      assert IsLine(t) && EndsLine(t) by {
        assert t[..|t| - 1] == x;
        assert NoNewline(TRUCK_TAG);
      }
      LinesConcat([t]);
      assert [t][1..] == [];
      assert Concat([t]) == t;
    }
    assert [t][..0] == [];
    assert x[0] == 'T' && x[|x| - 1] == (if |pos| > 0 then pos[|pos| - 1] else ':');
    StripTrailing(x, "\n");
    assert x[8..] == pos;
  }
}
