/** What an accept reads from the event: `getMagnitudeDistanceAzimuthAndNumberOfStations`. */
module MagnitudeDetails {
  import opened Wrappers
  import opened KeyOrder
  import opened CctDocument
  import opened Geometry
  import StationMeasurements

  datatype Location = Location(latitude: real, longitude: real)

  /** The reference parameters of the extraction. */
  datatype Extracted = Extracted(
    magnitude: real, closestDistanceKM: real, azimuthalGap: real, nStations: int, nObservations: int)

  /** Their values on entry. */
  const UNSET: Extracted := Extracted(-10.0, -1.0, -1.0, -1, -1)

  /** The geodesic solver: no value when it throws. */
  type Solver = (Location, Location) -> Option<Solved>

  // ---------------------------------------------------------------- stations with a location

  /** A record that names its station and locates it. */
  ghost predicate Locates(m: Measurement, name: string, at: Location) {
    && m.waveform.Some? && m.waveform.value.stream.Some? && m.waveform.value.stream.value.Described?
    && m.waveform.value.stream.value.station.Some?
    && var s := m.waveform.value.stream.value.station.value;
      && s.latitude == Holds(at.latitude) && s.longitude == Holds(at.longitude)
      && s.networkName.Holds? && s.stationName.Holds? && name == s.networkName.value + "." + s.stationName.value
      && -90.0 <= at.latitude <= 90.0
  }

  /** One step of the loop over the records: no value when a leaf has the wrong type. */
  function AddStation(m: Measurement, locations: map<string, Location>): Option<map<string, Location>> {
    match m.waveform
    case Some(Waveform(Some(Described(_, Some(s))), _, _)) =>
      if s.latitude.Absent? || s.longitude.Absent? || s.networkName.Absent? || s.stationName.Absent? then Some(locations)
      else if s.latitude.Mistyped? || s.longitude.Mistyped? || s.networkName.Mistyped? || s.stationName.Mistyped? then None
      else
        var name := FullName(s);
        if name !in locations && -90.0 <= s.latitude.value <= 90.0
        then Some(locations[name := Location(s.latitude.value, s.longitude.value)]) else Some(locations)
    case _ => Some(locations)
  }

  /** The location kept for a station: that of the first record that locates it. */
  ghost predicate KeepsFirst(records: seq<Measurement>, locations: map<string, Location>) {
    && (forall name :: name in locations ==> exists i :: 0 <= i < |records| && LocatedFirst(records, name, locations[name], i))
    && (forall i, name, at :: 0 <= i < |records| && Locates(records[i], name, at) ==> name in locations)
  }

  ghost predicate LocatedFirst(records: seq<Measurement>, name: string, at: Location, i: nat) {
    i < |records| && Locates(records[i], name, at) && forall j, other :: 0 <= j < i ==> !Locates(records[j], name, other)
  }

  lemma KeepsFirstStep(records: seq<Measurement>, locations: map<string, Location>, n: nat)
    requires n < |records| && KeepsFirst(records[..n], locations) && AddStation(records[n], locations).Some?
    ensures KeepsFirst(records[..n + 1], AddStation(records[n], locations).value)
  {
    var more, next := records[..n + 1], AddStation(records[n], locations).value;
    forall name | name in next ensures exists i :: 0 <= i < |more| && LocatedFirst(more, name, next[name], i) {
      if name in locations {
        var i: nat :| i < n && LocatedFirst(records[..n], name, locations[name], i);
        forall j | 0 <= j <= i ensures more[j] == records[..n][j] {}
        assert LocatedFirst(more, name, next[name], i);
      } else {
        forall j, other | 0 <= j < n ensures !Locates(more[j], name, other) {
          assert more[j] == records[..n][j];
        }
        var s := records[n].waveform.value.stream.value.station.value;
        assert name == FullName(s) && next[name] == Location(s.latitude.value, s.longitude.value);
        assert LocatedFirst(more, name, next[name], n);
      }
    }
    forall i, name, at | 0 <= i < |more| && Locates(more[i], name, at) ensures name in next {
      if i < n {
        assert more[i] == records[..n][i];
      }
    }
  }

  /** The station map after the records: no value when some record throws. */
  function Located(records: seq<Measurement>): Option<map<string, Location>> {
    if records == [] then Some(map[])
    else
      var front := Located(records[..|records| - 1]);
      if front.None? then None else AddStation(records[|records| - 1], front.value)
  }

  lemma {:induction false} LocatedKeepsFirst(records: seq<Measurement>)
    requires Located(records).Some?
    ensures KeepsFirst(records, Located(records).value)
  {
    if records != [] {
      var n := |records| - 1;
      LocatedKeepsFirst(records[..n]);
      KeepsFirstStep(records, Located(records[..n]).value, n);
      assert records[..n + 1] == records;
    }
  }

  lemma {:induction false} StaysUnreadable(records: seq<Measurement>, n: nat)
    requires n <= |records| && Located(records[..n]).None?
    ensures Located(records).None?
    decreases |records|
  {
    if n < |records| {
      var front := records[..|records| - 1];
      assert front[..n] == records[..n];
      StaysUnreadable(front, n);
    } else {
      assert records[..n] == records;
    }
  }

  /** The record gives a station a name and a place, and one of those leaves has the wrong type. */
  predicate StationIllTyped(m: Measurement) {
    && m.waveform.Some? && m.waveform.value.stream.Some? && m.waveform.value.stream.value.Described?
    && m.waveform.value.stream.value.station.Some?
    && var s := m.waveform.value.stream.value.station.value;
      && !s.latitude.Absent? && !s.longitude.Absent? && !s.networkName.Absent? && !s.stationName.Absent?
      && (s.latitude.Mistyped? || s.longitude.Mistyped? || s.networkName.Mistyped? || s.stationName.Mistyped?)
  }

  /** The station loop throws exactly when there is such a record. */
  lemma {:induction false} UnreadableExactly(records: seq<Measurement>)
    ensures Located(records).None? <==> exists i :: 0 <= i < |records| && StationIllTyped(records[i])
  {
    if records != [] {
      var n := |records| - 1;
      UnreadableExactly(records[..n]);
      assert forall i :: 0 <= i < n ==> records[..n][i] == records[i];
      if exists i :: 0 <= i < n && StationIllTyped(records[i]) {
        var i :| 0 <= i < n && StationIllTyped(records[i]);
        assert StationIllTyped(records[..n][i]);
      }
    }
  }

  method LocateStations(records: seq<Measurement>) returns (locations: map<string, Location>, counted: nat, threw: bool)
    ensures threw <==> Located(records).None?
    ensures !threw ==> Located(records) == Some(locations) && counted == StationMeasurements.CountNumeric(records)
  {
    locations, counted, threw := map[], 0, false;
    for n := 0 to |records|
      invariant Located(records[..n]) == Some(locations) && counted == StationMeasurements.CountNumeric(records[..n])
      invariant !threw
    {
      assert records[..n + 1][..n] == records[..n];
      if records[n].corrected.Holds? {
        counted := counted + 1;
      }
      var next := AddStation(records[n], locations);
      if next.None? {
        StaysUnreadable(records, n + 1);
        return locations, counted, true;
      }
      locations := next.value;
    }
    assert records[..|records|] == records;
  }

  // ---------------------------------------------------------------- the extraction

  /** The moment magnitude of the event, as a caller can look it up. */
  function ReadMw(doc: Document, event: string): Option<real> {
    if event in doc.measuredMwDetails && doc.measuredMwDetails[event].mw.Holds?
    then Some(doc.measuredMwDetails[event].mw.value) else None
  }

  function Records(doc: Document, event: string): seq<Measurement> {
    if event in doc.spectraMeasurements then doc.spectraMeasurements[event] else []
  }

  /** The event location, when both coordinates are given and the latitude is one. */
  function EventLocation(doc: Document, event: string): Option<Location> {
    if event in doc.measuredMwDetails then
      var d := doc.measuredMwDetails[event];
      if d.latitude.Holds? && d.longitude.Holds? && -90.0 <= d.latitude.value <= 90.0
      then Some(Location(d.latitude.value, d.longitude.value)) else None
    else None
  }

  /** The rays to the stations, in the order of the station map. */
  ghost function Rays(solve: Solver, from: Location, locations: map<string, Location>): seq<Option<Solved>> {
    var names := Ordered(locations.Keys);
    seq(|names|, i requires 0 <= i < |names| =>
      assert names[i] in locations.Keys;
      solve(from, locations[names[i]]))
  }

  method Solve(solve: Solver, from: Location, locations: map<string, Location>) returns (rays: seq<Option<Solved>>)
    ensures rays == Rays(solve, from, locations)
  {
    var names := KeysInOrder(locations.Keys);
    OrderUnique(names, Ordered(locations.Keys), locations.Keys);
    rays := [];
    for i := 0 to |names|
      invariant rays == Rays(solve, from, locations)[..i]
    {
      assert names[i] in locations.Keys;
      rays := rays + [solve(from, locations[names[i]])];
    }
  }

  /** The rays of an event: none without a location of the event. */
  ghost function EventRays(doc: Document, event: string, solve: Solver): seq<Option<Solved>> {
    var from, locations := EventLocation(doc, event), Located(Records(doc, event));
    if from.Some? && locations.Some? then Rays(solve, from.value, locations.value) else []
  }

  /** One ray for each located station, in the order of their names, from the event to the station. */
  ghost predicate RaysTo(
    solve: Solver, from: Location, records: seq<Measurement>, names: seq<string>, locations: map<string, Location>, rays: seq<Option<Solved>>)
  {
    && KeepsFirst(records, locations) && InOrder(names, locations.Keys) && |rays| == |names|
    && forall i :: 0 <= i < |names| ==> names[i] in locations && rays[i] == solve(from, locations[names[i]])
  }

  /** The event has both coordinates and the latitude is one. */
  predicate Placed(doc: Document, event: string) {
    && event in doc.measuredMwDetails
    && doc.measuredMwDetails[event].latitude.Holds? && doc.measuredMwDetails[event].longitude.Holds?
    && -90.0 <= doc.measuredMwDetails[event].latitude.value <= 90.0
  }

  /** The rays of an event, on the document: from its latitude and longitude, or none. */
  ghost predicate RaysFrom(doc: Document, event: string, solve: Solver, rays: seq<Option<Solved>>) {
    var records := if event in doc.spectraMeasurements then doc.spectraMeasurements[event] else [];
    if Placed(doc, event) then
      var d := doc.measuredMwDetails[event];
      exists names, locations ::
        RaysTo(solve, Location(latitude := d.latitude.value, longitude := d.longitude.value), records, names, locations, rays)
    else rays == []
  }

  lemma EventRaysFrom(doc: Document, event: string, solve: Solver)
    requires Located(Records(doc, event)).Some?
    ensures RaysFrom(doc, event, solve, EventRays(doc, event, solve))
  {
    var records := Records(doc, event);
    LocatedKeepsFirst(records);
    if Placed(doc, event) {
      var from, locations := EventLocation(doc, event).value, Located(records).value;
      RaysAreTo(solve, from, records, locations);
    }
  }

  lemma RaysAreTo(solve: Solver, from: Location, records: seq<Measurement>, locations: map<string, Location>)
    requires KeepsFirst(records, locations)
    ensures RaysTo(solve, from, records, Ordered(locations.Keys), locations, Rays(solve, from, locations))
  {
    var names := Ordered(locations.Keys);
    forall i | 0 <= i < |names| ensures names[i] in locations {
      assert names[i] in locations.Keys;
    }
  }

  /** The geometry an extraction leaves. */
  ghost predicate GeometryOf(rays: seq<Option<Solved>>, greatest: real, x: Extracted) {
    && (rays == [] ==> x.closestDistanceKM == -1.0 && x.azimuthalGap == -1.0)
    && (rays != [] ==> x.closestDistanceKM == Closest(rays, greatest))
    && (rays != [] && AllSolved(rays) ==> IsGap(Directions(rays), x.azimuthalGap) && 0.0 < x.azimuthalGap <= 360.0)
    && (!AllSolved(rays) ==> x.azimuthalGap == -1.0)
  }

  /** A leaf read on the way to the station loop has the wrong type or, for the magnitude, is missing. */
  predicate DetailsThrow(doc: Document, event: string) {
    event in doc.measuredMwDetails &&
    var d := doc.measuredMwDetails[event];
    !d.mw.Holds? || d.stationCount.Mistyped? ||
    (!d.latitude.Absent? && !d.longitude.Absent? && (d.latitude.Mistyped? || d.longitude.Mistyped?))
  }

  /** Nothing that is read on the way throws. */
  ghost predicate Readable(doc: Document, event: string) {
    && (event in doc.measuredMwDetails ==>
         var d := doc.measuredMwDetails[event];
         && d.mw.Holds? && !d.stationCount.Mistyped?
         && (d.latitude.Absent? || d.longitude.Absent? || (d.latitude.Holds? && d.longitude.Holds?)))
    && (event in doc.spectraMeasurements ==>
         forall i :: 0 <= i < |doc.spectraMeasurements[event]| ==> !StationIllTyped(doc.spectraMeasurements[event][i]))
  }

  /** What an accept takes from a document, whether or not the extraction throws. */
  ghost predicate ExtractedFrom(doc: Document, event: string, solve: Solver, greatest: real, x: Extracted) {
    var haveMw := event in doc.measuredMwDetails && doc.measuredMwDetails[event].mw.Holds?;
    var records := if event in doc.spectraMeasurements then doc.spectraMeasurements[event] else [];
    && x.magnitude == (if haveMw then doc.measuredMwDetails[event].mw.value else -10.0)
    && x.nStations == (if haveMw && doc.measuredMwDetails[event].stationCount.Holds?
                       then doc.measuredMwDetails[event].stationCount.value else -1)
    && if Readable(doc, event)
       then x.nObservations == |StationMeasurements.NumericPositions(records)|
         && exists rays :: RaysFrom(doc, event, solve, rays) && GeometryOf(rays, greatest, x)
       else x.nObservations == -1 && x.closestDistanceKM == -1.0 && x.azimuthalGap == -1.0
  }

  lemma ThrowsExactly(doc: Document, event: string)
    ensures Readable(doc, event) <==> !DetailsThrow(doc, event) && Located(Records(doc, event)).Some?
  {
    UnreadableExactly(Records(doc, event));
  }

  lemma FromEventRays(doc: Document, event: string, solve: Solver, greatest: real, x: Extracted)
    requires Located(Records(doc, event)).Some? && GeometryOf(EventRays(doc, event, solve), greatest, x)
    ensures exists rays :: RaysFrom(doc, event, solve, rays) && GeometryOf(rays, greatest, x)
  {
    EventRaysFrom(doc, event, solve);
  }

  /** The leaves read before the station loop: the magnitude, and the number of stations. */
  method ReadDetails(doc: Document, event: string) returns (x: Extracted, threw: bool)
    ensures threw <==> DetailsThrow(doc, event)
    ensures x.magnitude == (if ReadMw(doc, event).Some? then ReadMw(doc, event).value else -10.0)
    ensures x.nStations == (if ReadMw(doc, event).Some? && doc.measuredMwDetails[event].stationCount.Holds?
                            then doc.measuredMwDetails[event].stationCount.value else -1)
    ensures x.closestDistanceKM == -1.0 && x.azimuthalGap == -1.0 && x.nObservations == -1
  {
    x := UNSET;
    threw := true;
    if event in doc.measuredMwDetails {
      var d := doc.measuredMwDetails[event];
      if !d.mw.Holds? {
        return;
      }
      x := x.(magnitude := d.mw.value);
      if d.stationCount.Mistyped? {
        return;
      }
      if d.stationCount.Holds? {
        x := x.(nStations := d.stationCount.value);
      }
      if !d.latitude.Absent? && !d.longitude.Absent? && (d.latitude.Mistyped? || d.longitude.Mistyped?) {
        return;
      }
    }
    threw := false;
  }

  method Extract(doc: Document, event: string, solve: Solver, greatest: real) returns (x: Extracted, threw: bool)
    ensures threw <==> !Readable(doc, event)
    ensures x.magnitude == (if ReadMw(doc, event).Some? then ReadMw(doc, event).value else -10.0)
    ensures x.nStations == (if ReadMw(doc, event).Some? && doc.measuredMwDetails[event].stationCount.Holds?
                            then doc.measuredMwDetails[event].stationCount.value else -1)
    ensures !threw ==> x.nObservations == StationMeasurements.CountNumeric(Records(doc, event))
    ensures !threw ==> exists rays :: RaysFrom(doc, event, solve, rays) && GeometryOf(rays, greatest, x)
    ensures threw ==> x.nObservations == -1 && x.closestDistanceKM == -1.0 && x.azimuthalGap == -1.0
  {
    ThrowsExactly(doc, event);
    x, threw := ReadDetails(doc, event);
    if threw {
      return;
    }
    var locations, counted, failed := LocateStations(Records(doc, event));
    if failed {
      threw := true;
      return;
    }
    x := x.(nObservations := counted);
    var from := EventLocation(doc, event);
    if from.Some? {
      var rays := Solve(solve, from.value, locations);
      var closest, gap, unsolved := ComputeDistanceAndAzimuth(rays, greatest, x.azimuthalGap);
      x := x.(closestDistanceKM := closest, azimuthalGap := gap);
      if rays != [] && !unsolved {
        PositiveFactor(|rays|, gap);
      }
    }
    FromEventRays(doc, event, solve, greatest, x);
  }
}
