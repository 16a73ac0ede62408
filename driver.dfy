/** driver_portal.py without its window: the bin levels and truck position
    the driver sees, read from and written to the shared status files, the
    pickup and unload actions and the map colours. */
module Driver {
  import opened Text
  import opened StatusFormat

  const DRIVER_BINS: seq<string> := ["B1", "B2", "B3", "B4", "B5", "B6", "B7", "B8", "B9", "B10"]
  const DEPOT := "Depot"

  const SELECTED := "#F1C40F"

  /** `green` below 40, `yellow` from 40 below 70, `red` from 70 on. */
  function LevelColor(lvl: int): (c: string)
    ensures c == "green" <==> lvl < 40
    ensures c == "yellow" <==> 40 <= lvl < 70
    ensures c == "red" <==> 70 <= lvl
  {
    if lvl < 40 then "green" else if lvl < 70 then "yellow" else "red"
  }

  class DriverPortal {
    const bins: seq<string>
    var binLevels: map<string, int>
    var selectedBin: Option<string>
    var truckPosition: string

    /** Levels are kept for exactly the bins on the map, and a selection is
        always one of them (the click handler picks a map node). */
    ghost predicate Valid()
      reads this
    {
      && (forall b :: b in binLevels <==> b in bins)
      && (forall k :: 0 <= k < |bins| ==> PlainId(bins[k]))
      && (selectedBin.Some? ==> selectedBin.value in bins)
    }

    /** `__init__`: every bin empty, no selection, the truck at B1, then the
        two status files read if they exist. */
    constructor (binFile: Option<string>, truckFile: Option<string>)
      ensures Valid() && bins == DRIVER_BINS && selectedBin.None?
      ensures binFile.None? ==> binLevels == map b | b in DRIVER_BINS :: 0
      ensures binFile.Some? ==> binLevels == DriverParse(map b | b in DRIVER_BINS :: 0, Lines(binFile.value)).levels
      ensures truckFile.None? ==> truckPosition == "B1"
      ensures truckFile.Some? ==> truckPosition == TruckParse("B1", Lines(truckFile.value))
    {
      bins := DRIVER_BINS;
      binLevels := map b | b in DRIVER_BINS :: 0;
      selectedBin := None;
      truckPosition := "B1";
      new;
      var _ := LoadBinStatus(binFile);
      LoadTruckStatus(truckFile);
    }

    /** `load_bin_status`: each line that is exactly a known bin and a level
        sets that bin; a level that is no integer ends the reading and the
        updates before it stay. Whether the whole file was read is
        returned. */
    method LoadBinStatus(file: Option<string>) returns (complete: bool)
      requires Valid()
      modifies this`binLevels
      ensures Valid()
      ensures file.None? ==> binLevels == old(binLevels) && complete
      ensures file.Some? ==> Loaded(binLevels, complete) == DriverParse(old(binLevels), Lines(file.value))
    {
      complete := true;
      if file.None? {
        return;
      }
      var lines := Lines(file.value);
      var i := 0;
      while i < |lines|
        invariant 0 <= i <= |lines|
        invariant DriverParse(old(binLevels), lines[..i]) == Loaded(binLevels, true)
      {
        DriverParseSnoc(old(binLevels), lines, i);
        var parts := Split(Strip(lines[i]), ':');
        if |parts| == 2 && parts[0] in binLevels {
          var lvl := ParseInt(parts[1]);
          if lvl.None? {
            complete := false;
            DriverStaysStopped(old(binLevels), lines, i + 1);
            return;
          }
          binLevels := binLevels[parts[0] := lvl.value];
        }
        i := i + 1;
      }
      assert lines[..i] == lines;
    }

    /** `load_truck_status`: each line beginning with `TruckAt:` sets the
        position to what follows the first colon of the stripped line. */
    method LoadTruckStatus(file: Option<string>)
      modifies this`truckPosition
      ensures file.None? ==> truckPosition == old(truckPosition)
      ensures file.Some? ==> truckPosition == TruckParse(old(truckPosition), Lines(file.value))
    {
      if file.None? {
        return;
      }
      var lines := Lines(file.value);
      var i := 0;
      while i < |lines|
        invariant 0 <= i <= |lines|
        invariant truckPosition == TruckParse(old(truckPosition), lines[..i])
      {
        assert lines[..i + 1][..i] == lines[..i];
        if StartsWith(lines[i], TRUCK_TAG) {
          TruckValueAfterColon(lines[i]);
          truckPosition := AfterFirst(Strip(lines[i]), ':');
        }
        i := i + 1;
      }
      assert lines[..i] == lines;
    }

    /** The click handler's effect once it has found the nearest bin. */
    method SelectBin(b: string)
      requires Valid() && b in bins
      modifies this`selectedBin
      ensures Valid() && selectedBin == Some(b)
    {
      selectedBin := Some(b);
    }

    /** `update_bin_status_file`: one line per bin, in the order the levels
        were entered, which is the order of the bins. */
    method BinStatusFile() returns (text: string)
      requires Valid()
      ensures text == StatusText(bins, binLevels)
    {
      text := "";
      var i := 0;
      while i < |bins|
        invariant 0 <= i <= |bins|
        invariant text == StatusText(bins[..i], binLevels)
      {
        StatusTextSnoc(bins, binLevels, i);
        text := text + StatusLine(bins[i], binLevels[bins[i]]);
        i := i + 1;
      }
      assert bins[..i] == bins;
    }

    /** `update_truck_status_file`. */
    method TruckStatusFile() returns (text: string)
      ensures text == TruckText(truckPosition)
    {
      text := TRUCK_TAG + truckPosition + "\n";
    }

    /** `mark_picked_up` with the residual level r: without a selection
        nothing happens; otherwise the selected bin is set to r, the truck
        moves there, the selection is cleared and both files are written. */
    method MarkPickedUp(r: int) returns (written: Option<(string, string)>)
      requires Valid() && 0 <= r <= 10
      modifies this`binLevels, this`truckPosition, this`selectedBin
      ensures Valid()
      ensures old(selectedBin).None? ==>
        written.None? && binLevels == old(binLevels) && truckPosition == old(truckPosition) && selectedBin.None?
      ensures old(selectedBin).Some? ==>
        && binLevels == old(binLevels)[old(selectedBin).value := r]
        && truckPosition == old(selectedBin).value && selectedBin.None?
        && written == Some((StatusText(bins, binLevels), TruckText(truckPosition)))
    {
      if selectedBin.None? {
        return None;
      }
      var b := selectedBin.value;
      binLevels := binLevels[b := r];
      truckPosition := b;
      var binText := BinStatusFile();
      var truckText := TruckStatusFile();
      written := Some((binText, truckText));
      selectedBin := None;
    }

    /** `truck_full`: the truck heads to the depot; the levels stay. */
    method TruckFull() returns (written: string)
      modifies this`truckPosition
      ensures truckPosition == DEPOT && written == TruckText(DEPOT)
    {
      truckPosition := DEPOT;
      written := TruckStatusFile();
    }

    /** The colour of each bin on the map: the selected bin is highlighted
        whatever its level; a bin without a level counts as 0. */
    method MapColors() returns (colors: seq<string>)
      ensures |colors| == |bins|
      ensures forall k :: 0 <= k < |bins| ==>
        colors[k] == if selectedBin == Some(bins[k]) then SELECTED
                     else LevelColor(if bins[k] in binLevels then binLevels[bins[k]] else 0)
    {
      colors := [];
      var i := 0;
      while i < |bins|
        invariant 0 <= i <= |bins| && |colors| == i
        invariant forall k :: 0 <= k < i ==>
          colors[k] == if selectedBin == Some(bins[k]) then SELECTED
                       else LevelColor(if bins[k] in binLevels then binLevels[bins[k]] else 0)
      {
        var b := bins[i];
        var lvl := if b in binLevels then binLevels[b] else 0;
        if selectedBin == Some(b) {
          colors := colors + [SELECTED];
        } else if lvl < 40 {
          colors := colors + ["green"];
        } else if lvl < 70 {
          colors := colors + ["yellow"];
        } else {
          colors := colors + ["red"];
        }
        i := i + 1;
      }
    }

    /** The node sizes: the truck's bin is drawn larger. */
    function NodeSizes(): (sizes: seq<int>)
      reads this
      ensures |sizes| == |bins|
      ensures forall k :: 0 <= k < |bins| ==> (sizes[k] == 1000 <==> bins[k] == truckPosition)
      ensures forall k :: 0 <= k < |bins| ==> sizes[k] == 1000 || sizes[k] == 700
    {
      seq(|bins|, k requires 0 <= k < |bins| reads this => if bins[k] == truckPosition then 1000 else 700)
    }
  }
}
