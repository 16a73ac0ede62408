/** The two portals exchange state only through bin_status.txt and
    truck_status.txt; these lemmas follow a write by one portal into the
    other portal's reader. */
module Portals {
  import opened Text
  import opened StatusFormat
  import Admin
  import Driver

  /** Both portals know the same ten bins in the same order. */
  lemma SameBins()
    ensures Admin.BINS == Driver.DRIVER_BINS
  {
  }

  /** Every bin id of the portals is carried unchanged by the line format. */
  lemma BinIdsPlain()
    ensures forall k :: 0 <= k < |Admin.BINS| ==> PlainId(Admin.BINS[k])
  {
    forall k | 0 <= k < |Admin.BINS|
      ensures PlainId(Admin.BINS[k])
    {
      var b := Admin.BINS[k];
      assert b[0] == 'B' && |b| <= 3;
      assert forall j :: 0 <= j < |b| ==> b[j] != ':' && b[j] != '\n';
    }
  }

  /** The file the driver writes after a pickup sets the admin's levels to
      exactly the driver's. */
  lemma DriverFileReachesAdmin(adminLevels: map<string, int>, driverLevels: map<string, int>)
    requires forall b :: b in adminLevels <==> b in Admin.BINS
    requires forall b :: b in driverLevels <==> b in Driver.DRIVER_BINS
    ensures AdminParse(adminLevels, Lines(StatusText(Driver.DRIVER_BINS, driverLevels))) == driverLevels
  {
    SameBins();
    BinIdsPlain();
    AdminRoundTrip(adminLevels, Driver.DRIVER_BINS, driverLevels);
  }

  /** The file the admin writes is read in full by the driver and sets the
      driver's levels to exactly the admin's. */
  lemma AdminFileReachesDriver(adminLevels: map<string, int>, driverLevels: map<string, int>)
    requires forall b :: b in adminLevels <==> b in Admin.BINS
    requires forall b :: b in driverLevels <==> b in Driver.DRIVER_BINS
    ensures DriverParse(driverLevels, Lines(StatusText(Admin.BINS, adminLevels))) == Loaded(adminLevels, true)
  {
    SameBins();
    BinIdsPlain();
    DriverRoundTrip(driverLevels, Admin.BINS, adminLevels);
  }

  /** A truck position the portals write, a bin or the depot, reads back
      as itself. */
  lemma TruckFileReadsBack(pos0: string, pos: string)
    requires pos in Admin.BINS || pos == Driver.DEPOT
    ensures TruckParse(pos0, Lines(TruckText(pos))) == pos
  {
    BinIdsPlain();
    assert pos[|pos| - 1] == (if pos == Driver.DEPOT then 't' else pos[|pos| - 1]);
    assert IsDigit(pos[|pos| - 1]) || pos[|pos| - 1] == 't';
    TruckRoundTrip(pos0, pos);
  }
}
