/** Regrouping the measurements of an event by station: `unpackCCTJSON`. */
module StationMeasurements {
  import opened Wrappers
  import opened KeyOrder
  import opened CctDocument
  import opened FittedSpectra

  datatype Details = Details(centerFrequency: real, value: real)

  datatype Observation = Observation(centerFrequency: real, value: real, residual: Option<real>)

  /** One element of the station output; the key is the stream identifier it was collected under. */
  datatype Group = Group(key: string, station: string, measurements: seq<Observation>)

  // ---------------------------------------------------------------- what a record says

  /** The record writes out the stream, with a named station. */
  predicate Introduces(m: Measurement, key: string) {
    && m.waveform.Some? && m.waveform.value.stream.Some? && m.waveform.value.stream.value.Described?
    && m.waveform.value.stream.value.id == Holds(key) && m.waveform.value.stream.value.station.Some?
    && NamesHold(m.waveform.value.stream.value.station.value)
  }

  predicate NamesHold(s: Station) { s.networkName.Holds? && s.stationName.Holds? }

  /** The record belongs to the stream: it writes it out or refers to it. */
  predicate BelongsTo(m: Measurement, key: string) {
    Introduces(m, key) || (m.waveform.Some? && m.waveform.value.stream == Some(Reference(key)))
  }

  /** The stream can be read: a reference, or a description with all its parts. */
  predicate StreamRead(m: Measurement)
    requires m.waveform.Some?
  {
    match m.waveform.value.stream
    case Some(Reference(_)) => true
    case Some(Described(id, Some(station))) => id.Holds? && NamesHold(station)
    case _ => false
  }

  /** Nothing read from the record throws. */
  predicate WellTyped(m: Measurement) {
    m.waveform.Some? ==>
      && StreamRead(m)
      && (m.corrected.Absent? ||
          (m.corrected.Holds? && m.waveform.value.lowFrequency.Holds? && m.waveform.value.highFrequency.Holds?))
  }

  predicate Shown(m: Measurement) {
    WellTyped(m) && m.waveform.Some? && m.corrected.Holds?
  }

  function DetailsOf(m: Measurement): Details
    requires Shown(m)
  {
    Details(0.5 * (m.waveform.value.lowFrequency.value + m.waveform.value.highFrequency.value), m.corrected.value)
  }

  // ---------------------------------------------------------------- what the list of records says

  /** The station named by the first record that introduces the identifier. */
  function FirstStation(records: seq<Measurement>, key: string): Option<string> {
    if records == [] then None
    else
      var front, last := records[..|records| - 1], records[|records| - 1];
      if FirstStation(front, key).Some? then FirstStation(front, key)
      else if Introduces(last, key) then Some(FullName(last.waveform.value.stream.value.station.value))
      else None
  }

  /** The measurements recorded under the identifier, in the order of the list. */
  function Collected(records: seq<Measurement>, key: string): seq<Details> {
    if records == [] then []
    else
      var front, last := records[..|records| - 1], records[|records| - 1];
      Collected(front, key) + (if Shown(last) && BelongsTo(last, key) then [DetailsOf(last)] else [])
  }

  ghost predicate IntroducedAt(records: seq<Measurement>, key: string, i: nat) {
    i < |records| && Introduces(records[i], key) && forall j :: 0 <= j < i ==> !Introduces(records[j], key)
  }

  lemma {:induction false} FirstStationIsFirst(records: seq<Measurement>, key: string)
    ensures FirstStation(records, key).None? <==> forall i :: 0 <= i < |records| ==> !Introduces(records[i], key)
    ensures FirstStation(records, key).Some? ==>
      exists i :: 0 <= i < |records| && IntroducedAt(records, key, i)
        && Some(FullName(records[i].waveform.value.stream.value.station.value)) == FirstStation(records, key)
  {
    if records != [] {
      var front := records[..|records| - 1];
      FirstStationIsFirst(front, key);
      forall i | 0 <= i < |front| ensures front[i] == records[i] {}
      if FirstStation(front, key).Some? {
        var i :| 0 <= i < |front| && IntroducedAt(front, key, i)
          && Some(FullName(front[i].waveform.value.stream.value.station.value)) == FirstStation(front, key);
        forall j | 0 <= j < i ensures !Introduces(records[j], key) {
          assert front[j] == records[j];
        }
        assert IntroducedAt(records, key, i);
      } else if Introduces(records[|front|], key) {
        assert IntroducedAt(records, key, |front|);
      }
    }
  }

  // ---------------------------------------------------------------- sorting and residuals

  ghost predicate ByFrequency(s: seq<Details>) {
    forall i, j :: 0 <= i < j < |s| ==> s[i].centerFrequency <= s[j].centerFrequency
  }

  /** `std::sort` by centre frequency, of which only the order and the contents are used. */
  function Sort(s: seq<Details>): (sorted: seq<Details>)
    ensures ByFrequency(sorted) && multiset(sorted) == multiset(s)
  {
    if s == [] then []
    else
      assert s == s[..|s| - 1] + [s[|s| - 1]];
      Insert(Sort(s[..|s| - 1]), s[|s| - 1])
  }

  function Insert(s: seq<Details>, x: Details): (sorted: seq<Details>)
    requires ByFrequency(s)
    ensures ByFrequency(sorted) && multiset(sorted) == multiset(s) + multiset{x}
  {
    if s == [] || s[|s| - 1].centerFrequency <= x.centerFrequency then s + [x]
    else
      var front, last := s[..|s| - 1], s[|s| - 1];
      var inner := Insert(front, x);
      InsertBeforeLast(s, front, last, inner, x);
      inner + [last]
  }

  lemma InsertBeforeLast(s: seq<Details>, front: seq<Details>, last: Details, inner: seq<Details>, x: Details)
    requires s == front + [last] && ByFrequency(s) && x.centerFrequency < last.centerFrequency
    requires ByFrequency(inner) && multiset(inner) == multiset(front) + multiset{x}
    ensures ByFrequency(inner + [last]) && multiset(inner + [last]) == multiset(s) + multiset{x}
  {
    forall i | 0 <= i < |inner| ensures inner[i].centerFrequency <= last.centerFrequency {
      assert inner[i] in multiset(inner);
      if inner[i] != x {
        var j :| 0 <= j < |front| && front[j] == inner[i];
        assert s[j] == front[j] && s[|front|] == last;
      }
    }
  }

  const TOLERANCE: real := 0.00001

  /** Within 1e-5 of each other. */
  predicate Near(p: FitPoint, frequency: real) {
    frequency - 0.00001 < p.frequency < frequency + 0.00001
  }

  function Abs(x: real): real { if x < 0.0 then -x else x }

  /** Value minus fit at the first fit point near the frequency; absent exactly when no point is near. */
  ghost predicate IsResidual(fit: seq<FitPoint>, d: Details, residual: Option<real>) {
    match residual
    case None => forall i :: 0 <= i < |fit| ==> !Near(fit[i], d.centerFrequency)
    case Some(r) =>
      exists i :: 0 <= i < |fit| && Near(fit[i], d.centerFrequency) && r == d.value - fit[i].value
        && forall j :: 0 <= j < i ==> !Near(fit[j], d.centerFrequency)
  }

  method Residual(fit: seq<FitPoint>, d: Details) returns (residual: Option<real>)
    ensures IsResidual(fit, d, residual)
  {
    for i := 0 to |fit|
      invariant forall j :: 0 <= j < i ==> !Near(fit[j], d.centerFrequency)
    {
      if Abs(fit[i].frequency - d.centerFrequency) < TOLERANCE {
        return Some(d.value - fit[i].value);
      }
    }
    residual := None;
  }

  /** A sorted permutation of the collected measurements, each with its residual. */
  ghost predicate ObservesAll(fit: seq<FitPoint>, collected: seq<Details>, measurements: seq<Observation>) {
    && |measurements| == |collected|
    && multiset(Shape(measurements)) == multiset(collected)
    && ByFrequency(Shape(measurements))
    && forall i :: 0 <= i < |measurements| ==> IsResidual(fit, Shape(measurements)[i], measurements[i].residual)
  }

  /** The measurements without their residuals. */
  function Shape(measurements: seq<Observation>): (s: seq<Details>)
    ensures |s| == |measurements|
  {
    seq(|measurements|, i requires 0 <= i < |measurements| => Details(measurements[i].centerFrequency, measurements[i].value))
  }

  method Observations(fit: seq<FitPoint>, collected: seq<Details>) returns (measurements: seq<Observation>)
    ensures ObservesAll(fit, collected, measurements)
  {
    var sorted := Sort(collected);
    assert |multiset(sorted)| == |multiset(collected)|;
    measurements := [];
    for i := 0 to |sorted|
      invariant Shape(measurements) == sorted[..i]
      invariant forall j :: 0 <= j < i ==> IsResidual(fit, sorted[j], measurements[j].residual)
    {
      var residual := Residual(fit, sorted[i]);
      measurements := measurements + [Observation(sorted[i].centerFrequency, sorted[i].value, residual)];
    }
    assert Shape(measurements) == sorted;
  }

  // ---------------------------------------------------------------- the station output

  /** What the two maps hold after some records. */
  ghost predicate Gathered(
    records: seq<Measurement>, stations: map<string, string>, measurements: map<string, seq<Details>>)
  {
    && (forall key :: key in stations <==> FirstStation(records, key).Some?)
    && (forall key :: key in stations ==> FirstStation(records, key) == Some(stations[key]))
    && (forall key :: key in measurements <==> Collected(records, key) != [])
    && (forall key :: key in measurements ==> measurements[key] == Collected(records, key))
  }

  ghost predicate HasGroup(groups: seq<Group>, key: string) {
    exists i :: 0 <= i < |groups| && groups[i].key == key
  }

  ghost predicate KeysAscend(groups: seq<Group>) {
    forall i, j :: 0 <= i < j < |groups| ==> Less(groups[i].key, groups[j].key)
  }

  /** The output for a list of records: one group for each collected and introduced identifier, in key order. */
  ghost predicate Regrouped(records: seq<Measurement>, fit: seq<FitPoint>, groups: seq<Group>) {
    && KeysAscend(groups)
    && (forall key :: Collected(records, key) != [] && FirstStation(records, key).Some? ==> HasGroup(groups, key))
    && (forall i :: 0 <= i < |groups| ==>
         && Collected(records, groups[i].key) != []
         && FirstStation(records, groups[i].key) == Some(groups[i].station)
         && ObservesAll(fit, Collected(records, groups[i].key), groups[i].measurements))
  }

  /** The identifier as the code lifts it from the stream; no value when that throws. */
  function Identifier(m: Measurement): Option<string>
    requires m.waveform.Some?
  {
    match m.waveform.value.stream
    case Some(Reference(identifier)) => Some(identifier)
    case Some(Described(id, Some(station))) => if id.Holds? && NamesHold(station) then Some(id.value) else None
    case _ => None
  }

  /** The name under which the code enters a station, if the record has one. */
  function StationName(m: Measurement): Option<string>
    requires m.waveform.Some?
  {
    match m.waveform.value.stream
    case Some(Described(_, Some(station))) => if NamesHold(station) then Some(FullName(station)) else None
    case _ => None
  }

  lemma IdentifierMeans(m: Measurement)
    requires m.waveform.Some?
    ensures Identifier(m).Some? <==> StreamRead(m)
    ensures forall key :: Identifier(m) == Some(key) <==> BelongsTo(m, key)
  {}

  function NextStations(stations: map<string, string>, m: Measurement): map<string, string> {
    if m.waveform.Some? && Identifier(m).Some? && StationName(m).Some? && Identifier(m).value !in stations
    then stations[Identifier(m).value := StationName(m).value] else stations
  }

  function NextMeasurements(measurements: map<string, seq<Details>>, m: Measurement): map<string, seq<Details>> {
    if Shown(m) then
      var key := Identifier(m).value;
      measurements[key := (if key in measurements then measurements[key] else []) + [DetailsOf(m)]]
    else measurements
  }

  lemma GatheredNext(
    front: seq<Measurement>, m: Measurement, stations: map<string, string>, measurements: map<string, seq<Details>>)
    requires Gathered(front, stations, measurements)
    ensures Gathered(front + [m], NextStations(stations, m), NextMeasurements(measurements, m))
  {
    assert (front + [m])[..|front|] == front;
    if m.waveform.Some? {
      IdentifierMeans(m);
    }
  }

  /** The first loop: stations by identifier, keeping the first, and measurements by identifier, keeping all. */
  method Gather(records: seq<Measurement>)
    returns (r: Outcome<(map<string, string>, map<string, seq<Details>>)>)
    ensures r.Returned? <==> forall i :: 0 <= i < |records| ==> WellTyped(records[i])
    ensures r.Returned? ==> Gathered(records, r.value.0, r.value.1)
  {
    var stations: map<string, string> := map[];
    var measurements: map<string, seq<Details>> := map[];
    for n := 0 to |records|
      invariant forall i :: 0 <= i < n ==> WellTyped(records[i])
      invariant Gathered(records[..n], stations, measurements)
    {
      var m := records[n];
      GatheredNext(records[..n], m, stations, measurements);
      assert records[..n + 1] == records[..n] + [m];
      if m.waveform.None? {
        continue;
      }
      IdentifierMeans(m);
      var identifier := Identifier(m);
      if identifier.None? {
        return Threw;
      }
      var name := StationName(m);
      if name.Some? && identifier.value !in stations {
        stations := stations[identifier.value := name.value];
      }
      if !m.corrected.Absent? {
        if !m.corrected.Holds? || !m.waveform.value.lowFrequency.Holds? || !m.waveform.value.highFrequency.Holds? {
          return Threw;
        }
        if identifier.value in measurements {
          measurements := measurements[identifier.value := measurements[identifier.value] + [DetailsOf(m)]];
        } else {
          measurements := measurements[identifier.value := [DetailsOf(m)]];
        }
      }
    }
    assert records[..|records|] == records;
    r := Returned((stations, measurements));
  }

  ghost predicate IsGroupOf(
    g: Group, stations: map<string, string>, measurements: map<string, seq<Details>>, fit: seq<FitPoint>)
  {
    && g.key in measurements && g.key in stations && g.station == stations[g.key]
    && ObservesAll(fit, measurements[g.key], g.measurements)
  }

  /** The groups of the first n keys, in key order. */
  ghost predicate Built(groups: seq<Group>, keys: seq<string>, n: nat, stations: map<string, string>) {
    && n <= |keys| && KeysAscend(groups)
    && (forall i, m :: 0 <= i < |groups| && n <= m < |keys| ==> Less(groups[i].key, keys[m]))
    && (forall m :: 0 <= m < n && keys[m] in stations ==> HasGroup(groups, keys[m]))
  }

  lemma BuiltNext(groups: seq<Group>, g: Group, keys: seq<string>, n: nat, stations: map<string, string>)
    requires Built(groups, keys, n, stations) && n < |keys| && StrictlyAscending(keys)
    ensures keys[n] !in stations ==> Built(groups, keys, n + 1, stations)
    ensures g.key == keys[n] ==> Built(groups + [g], keys, n + 1, stations)
  {
    HasGroupExtends(groups, g);
  }

  /** The second loop: over the collected identifiers in key order, those of unknown stations dropped. */
  method BuildGroups(stations: map<string, string>, measurements: map<string, seq<Details>>, fit: seq<FitPoint>)
    returns (groups: seq<Group>)
    ensures KeysAscend(groups)
    ensures forall key :: key in measurements && key in stations ==> HasGroup(groups, key)
    ensures forall i :: 0 <= i < |groups| ==> IsGroupOf(groups[i], stations, measurements, fit)
  {
    var keys := KeysInOrder(measurements.Keys);
    groups := [];
    for n := 0 to |keys|
      invariant Built(groups, keys, n, stations)
      invariant forall i :: 0 <= i < |groups| ==> IsGroupOf(groups[i], stations, measurements, fit)
    {
      assert keys[n] in measurements.Keys;
      if keys[n] in stations {
        var observations := Observations(fit, measurements[keys[n]]);
        var g := Group(keys[n], stations[keys[n]], observations);
        BuiltNext(groups, g, keys, n, stations);
        groups := groups + [g];
      }
    }
    forall key | key in measurements && key in stations ensures HasGroup(groups, key) {
      assert key in measurements.Keys;
    }
  }

  lemma HasGroupExtends(groups: seq<Group>, g: Group)
    ensures HasGroup(groups + [g], g.key)
    ensures forall key :: HasGroup(groups, key) ==> HasGroup(groups + [g], key)
  {
    assert (groups + [g])[|groups|] == g;
    forall key | HasGroup(groups, key) ensures HasGroup(groups + [g], key) {
      var i :| 0 <= i < |groups| && groups[i].key == key;
      assert (groups + [g])[i].key == key;
    }
  }

  /** The station part of `unpackCCTJSON`; any ill-typed record makes it throw. */
  method RegroupByStation(records: seq<Measurement>, fit: seq<FitPoint>) returns (r: Outcome<seq<Group>>)
    ensures r.Returned? <==> forall i :: 0 <= i < |records| ==> WellTyped(records[i])
    ensures r.Returned? ==> Regrouped(records, fit, r.value)
  {
    var gathered := Gather(records);
    if gathered.Threw? {
      return Threw;
    }
    var (stations, measurements) := gathered.value;
    var groups := BuildGroups(stations, measurements, fit);
    r := Returned(groups);
  }

  // ---------------------------------------------------------------- conservation

  datatype Triple = Triple(key: string, centerFrequency: real, value: real)

  function TripleOf(key: string, d: Details): Triple { Triple(key, d.centerFrequency, d.value) }

  function Tagged(key: string, s: seq<Details>): multiset<Triple> {
    if s == [] then multiset{} else Tagged(key, s[..|s| - 1]) + multiset{TripleOf(key, s[|s| - 1])}
  }

  /** The triples of the station output. */
  function Output(groups: seq<Group>): multiset<Triple> {
    if groups == [] then multiset{}
    else
      var last := groups[|groups| - 1];
      Output(groups[..|groups| - 1]) + Tagged(last.key, Shape(last.measurements))
  }

  /** The stream a shown record belongs to. */
  function StreamKey(m: Measurement): (key: string)
    requires Shown(m)
    ensures BelongsTo(m, key)
  {
    match m.waveform.value.stream.value
    case Reference(key) => key
    case Described(id, _) => id.value
  }

  /** The triples of the shown records whose identifier some record of the whole list introduces. */
  function Input(records: seq<Measurement>, all: seq<Measurement>): multiset<Triple> {
    if records == [] then multiset{}
    else
      Input(records[..|records| - 1], all) + Added(records[|records| - 1], all)
  }

  lemma {:induction false} TaggedCount(key: string, s: seq<Details>, t: Triple)
    ensures Tagged(key, s)[t] == if t.key == key then multiset(s)[Details(t.centerFrequency, t.value)] else 0
  {
    if s != [] {
      TaggedCount(key, s[..|s| - 1], t);
      assert s == s[..|s| - 1] + [s[|s| - 1]];
    }
  }

  lemma StreamKeyUnique(m: Measurement)
    requires Shown(m)
    ensures forall key :: BelongsTo(m, key) <==> key == StreamKey(m)
  {}

  /** What one record adds to the input. */
  function Added(m: Measurement, all: seq<Measurement>): multiset<Triple> {
    if Shown(m) && FirstStation(all, StreamKey(m)).Some? then multiset{TripleOf(StreamKey(m), DetailsOf(m))} else multiset{}
  }

  lemma AddedCount(m: Measurement, all: seq<Measurement>, t: Triple)
    ensures Added(m, all)[t] ==
      if Shown(m) && BelongsTo(m, t.key) && FirstStation(all, t.key).Some? && DetailsOf(m) == Details(t.centerFrequency, t.value) then 1 else 0
  {
    if Shown(m) {
      StreamKeyUnique(m);
    }
  }

  lemma {:induction false} InputCount(records: seq<Measurement>, all: seq<Measurement>, t: Triple)
    ensures Input(records, all)[t] ==
      if FirstStation(all, t.key).Some? then multiset(Collected(records, t.key))[Details(t.centerFrequency, t.value)] else 0
  {
    if records != [] {
      var last := records[|records| - 1];
      InputCount(records[..|records| - 1], all, t);
      AddedCount(last, all, t);
    }
  }

  lemma {:induction false} OutputCount(groups: seq<Group>, t: Triple)
    requires KeysAscend(groups)
    ensures !HasGroup(groups, t.key) ==> Output(groups)[t] == 0
    ensures forall i :: 0 <= i < |groups| && groups[i].key == t.key ==>
      Output(groups)[t] == multiset(Shape(groups[i].measurements))[Details(t.centerFrequency, t.value)]
  {
    if groups != [] {
      var n := |groups| - 1;
      var front, last := groups[..n], groups[n];
      OutputCount(front, t);
      TaggedCount(last.key, Shape(last.measurements), t);
      HasGroupExtends(front, last);
      assert groups == front + [last];
      forall i | 0 <= i < n ensures groups[i].key != last.key && front[i] == groups[i] {
        LessTotal(groups[i].key, last.key);
      }
      if !HasGroup(groups, t.key) {
        assert groups[n].key != t.key;
      }
    }
  }

  /** Nothing is lost, invented or moved: the triples shown are those recorded under a known identifier. */
  lemma RegroupingConserves(records: seq<Measurement>, fit: seq<FitPoint>, groups: seq<Group>)
    requires Regrouped(records, fit, groups)
    ensures Output(groups) == Input(records, records)
  {
    forall t ensures Output(groups)[t] == Input(records, records)[t] {
      OutputCount(groups, t);
      InputCount(records, records, t);
      if HasGroup(groups, t.key) {
        var i :| 0 <= i < |groups| && groups[i].key == t.key;
      }
    }
  }

  /** How often a key occurs in the output: once. */
  lemma OneGroupPerKey(groups: seq<Group>, i: nat, j: nat)
    requires KeysAscend(groups) && i < |groups| && j < |groups| && groups[i].key == groups[j].key
    ensures i == j
  {
    LessTotal(groups[i].key, groups[j].key);
  }

  // ---------------------------------------------------------------- counting

  function ShownInGroups(groups: seq<Group>): nat {
    if groups == [] then 0
    else ShownInGroups(groups[..|groups| - 1]) + |groups[|groups| - 1].measurements|
  }

  /** The observations counted on accept: records with a numeric corrected value, with or without a waveform. */
  function CountNumeric(records: seq<Measurement>): nat {
    if records == [] then 0
    else CountNumeric(records[..|records| - 1]) + (if records[|records| - 1].corrected.Holds? then 1 else 0)
  }

  lemma {:induction false} TaggedSize(key: string, s: seq<Details>)
    ensures |Tagged(key, s)| == |s|
  {
    if s != [] {
      TaggedSize(key, s[..|s| - 1]);
    }
  }

  lemma {:induction false} OutputSize(groups: seq<Group>)
    ensures |Output(groups)| == ShownInGroups(groups)
  {
    if groups != [] {
      OutputSize(groups[..|groups| - 1]);
      var last := groups[|groups| - 1];
      TaggedSize(last.key, Shape(last.measurements));
    }
  }

  lemma {:induction false} InputSize(records: seq<Measurement>, all: seq<Measurement>)
    ensures |Input(records, all)| <= CountNumeric(records)
  {
    if records != [] {
      InputSize(records[..|records| - 1], all);
    }
  }

  /** The event never shows more measurements than the accepted magnitude claims observations. */
  lemma ShownAtMostCounted(records: seq<Measurement>, fit: seq<FitPoint>, groups: seq<Group>)
    requires Regrouped(records, fit, groups)
    ensures ShownInGroups(groups) <= CountNumeric(records)
  {
    RegroupingConserves(records, fit, groups);
    OutputSize(groups);
    InputSize(records, records);
  }

  function NumericPositions(records: seq<Measurement>): set<nat> {
    set i: nat | i < |records| && records[i].corrected.Holds?
  }

  /** The count is the number of positions with a numeric value. */
  lemma {:induction false} CountsPositions(records: seq<Measurement>)
    ensures CountNumeric(records) == |NumericPositions(records)|
  {
    if records == [] {
      assert NumericPositions(records) == {};
    } else {
      var n := |records| - 1;
      CountsPositions(records[..n]);
      assert NumericPositions(records) ==
        NumericPositions(records[..n]) + (if records[n].corrected.Holds? then {n} else {});
    }
  }

  // ---------------------------------------------------------------- the join, on the documents

  /** A written-out stream with its station. */
  predicate Describes(m: Measurement, key: string, network: string, station: string) {
    && m.waveform.Some? && m.waveform.value.stream.Some? && m.waveform.value.stream.value.Described?
    && m.waveform.value.stream.value.id == Holds(key) && m.waveform.value.stream.value.station.Some?
    && var s := m.waveform.value.stream.value.station.value;
      s.networkName == Holds(network) && s.stationName == Holds(station)
  }

  /** A value in a band, under a stream that is written out or referred to. */
  predicate Measures(m: Measurement, key: string, low: real, high: real, value: real) {
    && m.waveform.Some? && m.waveform.value.stream.Some?
    && (match m.waveform.value.stream.value
        case Reference(k) => k == key
        case Described(id, _) => id == Holds(key)
        case OtherStream => false)
    && m.waveform.value.lowFrequency == Holds(low) && m.waveform.value.highFrequency == Holds(high)
    && m.corrected == Holds(value)
  }

  ghost predicate ShowsValue(g: Group, key: string, name: string, frequency: real, value: real) {
    g.key == key && g.station == name && exists k :: 0 <= k < |g.measurements| && IsObservation(g.measurements[k], frequency, value)
  }

  predicate IsObservation(o: Observation, frequency: real, value: real) {
    o.centerFrequency == frequency && o.value == value
  }

  /**
   * A value measured under a stream is shown at the middle of its band, in the group of the stream, under the station
   * of the first record that writes the stream out, before or after it.
   */
  lemma RegroupingJoins(
    records: seq<Measurement>, fit: seq<FitPoint>, groups: seq<Group>, i: nat, j: nat,
    key: string, network: string, station: string, low: real, high: real, value: real)
    requires Regrouped(records, fit, groups) && i < |records| && j < |records|
    requires forall k :: 0 <= k < |records| ==> WellTyped(records[k])
    requires Describes(records[i], key, network, station) && Measures(records[j], key, low, high, value)
    requires forall k, n, s :: 0 <= k < i ==> !Describes(records[k], key, n, s)
    ensures exists g :: 0 <= g < |groups| && ShowsValue(groups[g], key, network + "." + station, 0.5 * (low + high), value)
  {
    NamedByFirst(records, i, key, network, station);
    assert BelongsTo(records[j], key) && DetailsOf(records[j]) == Details(0.5 * (low + high), value);
    CollectedHolds(records, j, key);
    CollectedShown(records, fit, groups, key, network + "." + station, Details(0.5 * (low + high), value));
  }

  lemma CollectedShown(records: seq<Measurement>, fit: seq<FitPoint>, groups: seq<Group>, key: string, name: string, d: Details)
    requires Regrouped(records, fit, groups) && FirstStation(records, key) == Some(name) && d in Collected(records, key)
    ensures exists g :: 0 <= g < |groups| && ShowsValue(groups[g], key, name, d.centerFrequency, d.value)
  {
    var g :| 0 <= g < |groups| && groups[g].key == key;
    ObservedShown(fit, Collected(records, key), groups[g].measurements, d);
    assert ShowsValue(groups[g], key, name, d.centerFrequency, d.value);
  }

  lemma ObservedShown(fit: seq<FitPoint>, collected: seq<Details>, measurements: seq<Observation>, d: Details)
    requires ObservesAll(fit, collected, measurements) && d in collected
    ensures exists k :: 0 <= k < |measurements| && IsObservation(measurements[k], d.centerFrequency, d.value)
  {
    var s := Shape(measurements);
    assert d in multiset(collected) && multiset(s) == multiset(collected);
    assert d in s;
    var k :| 0 <= k < |s| && s[k] == d;
    assert IsObservation(measurements[k], d.centerFrequency, d.value);
  }

  lemma NamedByFirst(records: seq<Measurement>, i: nat, key: string, network: string, station: string)
    requires i < |records| && Describes(records[i], key, network, station)
    requires forall k, n, s :: 0 <= k < i ==> !Describes(records[k], key, n, s)
    ensures FirstStation(records, key) == Some(network + "." + station)
  {
    FirstStationIsFirst(records, key);
    assert Introduces(records[i], key);
    var f :| 0 <= f < |records| && IntroducedAt(records, key, f)
      && Some(FullName(records[f].waveform.value.stream.value.station.value)) == FirstStation(records, key);
    var s := records[f].waveform.value.stream.value.station.value;
    assert Describes(records[f], key, s.networkName.value, s.stationName.value);
  }

  lemma {:induction false} CollectedHolds(records: seq<Measurement>, j: nat, key: string)
    requires j < |records| && Shown(records[j]) && BelongsTo(records[j], key)
    ensures DetailsOf(records[j]) in Collected(records, key)
  {
    if j < |records| - 1 {
      CollectedHolds(records[..|records| - 1], j, key);
    }
  }

  // ---------------------------------------------------------------- the whole light-weight event

  datatype Light = Light(
    eventIdentifier: string, originTime: string, latitude: real, longitude: real, depth: real,
    likelyPoorlyConstrained: bool, spectralFit: map<CurveKey, Curve>, stationMeasurements: seq<Group>)

  function WithoutZone(time: string): string {
    if time != [] && time[|time| - 1] == 'Z' then time[..|time| - 1] else time
  }

  /** The time without a final letter Z. */
  predicate TimeShown(time: string, shown: string) {
    time == shown + "Z" || (time == shown && (time == [] || time[|time| - 1] != 'Z'))
  }

  predicate DetailsRead(d: MwDetails) {
    d.datetime.Holds? && d.latitude.Holds? && d.longitude.Holds? && d.depth.Holds? && d.likelyPoorlyConstrained.Holds?
  }

  /** Everything read from the document is there and has the wanted type. */
  ghost predicate Unpackable(doc: Document, event: string) {
    && event in doc.measuredMwDetails && event in doc.fitSpectra && event in doc.spectraMeasurements
    && DetailsRead(doc.measuredMwDetails[event])
    && (forall i :: 0 <= i < |doc.fitSpectra[event]| && Used(doc.fitSpectra[event][i]) ==> PointsRead(doc.fitSpectra[event][i]))
    && (forall i :: 0 <= i < |doc.spectraMeasurements[event]| ==> WellTyped(doc.spectraMeasurements[event][i]))
  }

  ghost predicate IsLightOf(doc: Document, event: string, pow10: real -> real, light: Light)
    requires Unpackable(doc, event)
  {
    var d := doc.measuredMwDetails[event];
    && light.eventIdentifier == event && TimeShown(d.datetime.value, light.originTime)
    && light.latitude == d.latitude.value && light.longitude == d.longitude.value && light.depth == d.depth.value
    && light.likelyPoorlyConstrained == d.likelyPoorlyConstrained.value
    && CurvesOf(doc.fitSpectra[event], pow10, light.spectralFit)
    && Regrouped(doc.spectraMeasurements[event], FitPoints(doc.fitSpectra[event], pow10), light.stationMeasurements)
  }

  method UnpackCctJson(doc: Document, event: string, pow10: real -> real) returns (r: Outcome<Light>)
    ensures r.Returned? <==> Unpackable(doc, event)
    ensures r.Returned? ==> IsLightOf(doc, event, pow10, r.value)
  {
    if event !in doc.measuredMwDetails {
      return Threw;
    }
    var d := doc.measuredMwDetails[event];
    if !DetailsRead(d) || event !in doc.fitSpectra {
      return Threw;
    }
    var spectra := SelectSpectra(doc.fitSpectra[event], pow10);
    if spectra.Threw? || event !in doc.spectraMeasurements {
      return Threw;
    }
    var groups := RegroupByStation(doc.spectraMeasurements[event], spectra.value.fit);
    if groups.Threw? {
      return Threw;
    }
    assert TimeShown(d.datetime.value, WithoutZone(d.datetime.value));
    r := Returned(Light(event, WithoutZone(d.datetime.value), d.latitude.value, d.longitude.value, d.depth.value,
                        d.likelyPoorlyConstrained.value, spectra.value.shown, groups.value));
  }
}
