/** The event table of a schema, its cache, and every run of writes, polls and reviews. */
module CacheModel {
  import opened Wrappers
  import opened Identifiers
  import opened KeyOrder
  import CctDocument
  import StationMeasurements

  // ---------------------------------------------------------------- rows and events

  /** The columns copied into the light-weight event; no value stands for NULL. */
  datatype Columns = Columns(
    cctMagnitude: Option<real>, cctMagnitudeType: Option<string>,
    authoritativeMagnitude: Option<real>, authoritativeMagnitudeType: Option<string>, creationMode: Option<string>)

  /** A row of the event table; mwData has no value when its text does not parse; lastUpdate is in microseconds. */
  datatype Row = Row(
    identifier: Int64, mwData: Option<CctDocument.Document>, columns: Columns, reviewStatus: Option<string>,
    lastUpdate: int, loadDate: int)

  datatype Summary = Summary(light: StationMeasurements.Light, columns: Columns, reviewStatus: string)

  datatype Event = Event(summary: Summary, full: CctDocument.Document)

  /** The unpacking of a document: no value when it throws. */
  type Unpacker = (CctDocument.Document, string) -> Option<StationMeasurements.Light>

  function Key(row: Row): string { ToString(row.identifier) }

  function UnpackRow(unpack: Unpacker, row: Row): Option<Event> {
    if row.mwData.None? then None
    else
      var light := unpack(row.mwData.value, Key(row));
      var c := row.columns;
      if light.None? || c.cctMagnitude.None? || c.cctMagnitudeType.None? || c.authoritativeMagnitude.None?
         || c.authoritativeMagnitudeType.None? || row.reviewStatus.None? || c.creationMode.None?
      then None
      else Some(Event(Summary(light.value, c, row.reviewStatus.value), row.mwData.value))
  }

  /** The row has a document that unpacks under its key, and no NULL in the six columns that are read. */
  ghost predicate Unpacks(unpack: Unpacker, row: Row) {
    && row.mwData.Some? && unpack(row.mwData.value, ToString(row.identifier)).Some?
    && row.columns.cctMagnitude.Some? && row.columns.cctMagnitudeType.Some?
    && row.columns.authoritativeMagnitude.Some? && row.columns.authoritativeMagnitudeType.Some?
    && row.reviewStatus.Some? && row.columns.creationMode.Some?
  }

  /** The event shows the row: its document, what unpacks from that, and each of its columns. */
  ghost predicate ShownAs(unpack: Unpacker, row: Row, e: Event) {
    var c := e.summary.columns;
    && Unpacks(unpack, row)
    && row.mwData == Some(e.full) && unpack(e.full, ToString(row.identifier)) == Some(e.summary.light)
    && c.cctMagnitude == row.columns.cctMagnitude && c.cctMagnitudeType == row.columns.cctMagnitudeType
    && c.authoritativeMagnitude == row.columns.authoritativeMagnitude
    && c.authoritativeMagnitudeType == row.columns.authoritativeMagnitudeType
    && c.creationMode == row.columns.creationMode && Some(e.summary.reviewStatus) == row.reviewStatus
  }

  /** A row is unpacked exactly when it can be, into the one event that shows it. */
  lemma UnpackRowShows(unpack: Unpacker, row: Row)
    ensures UnpackRow(unpack, row).Some? <==> Unpacks(unpack, row)
    ensures forall e :: UnpackRow(unpack, row) == Some(e) <==> ShownAs(unpack, row, e)
  {
    forall e | ShownAs(unpack, row, e) ensures UnpackRow(unpack, row) == Some(e) {
      assert e.summary.columns == row.columns;
    }
  }

  // ---------------------------------------------------------------- hash

  /** Serialising a list of light-weight events, and hashing a text. */
  datatype Hasher = Hasher(dump: seq<Summary> -> string, hash: string -> nat)

  /** The light-weight events of the keys, in their order. */
  function Summaries(events: map<string, Event>, keys: seq<string>): seq<Summary> {
    if keys == [] then []
    else
      var front, last := Summaries(events, keys[..|keys| - 1]), keys[|keys| - 1];
      if last in events then front + [events[last].summary] else front
  }

  ghost function InKeyOrder(events: map<string, Event>): seq<Summary> {
    Summaries(events, Ordered(events.Keys))
  }

  /** The hash of the key-ordered serialisation, 0 when there is nothing to serialise. */
  ghost function HashOf(hasher: Hasher, events: map<string, Event>): nat {
    if events == map[] then 0 else hasher.hash(hasher.dump(InKeyOrder(events)))
  }

  lemma {:induction false} SummariesByIndex(events: map<string, Event>, keys: seq<string>)
    requires forall i :: 0 <= i < |keys| ==> keys[i] in events
    ensures |Summaries(events, keys)| == |keys|
    ensures forall i :: 0 <= i < |keys| ==> Summaries(events, keys)[i] == events[keys[i]].summary
  {
    if keys != [] {
      SummariesByIndex(events, keys[..|keys| - 1]);
    }
  }

  /** The serialised list is the one whose i-th element is the summary of the i-th key in order. */
  lemma OrderedListUnique(events: map<string, Event>, keys: seq<string>, list: seq<Summary>)
    requires InOrder(keys, events.Keys) && |list| == |keys|
    requires forall i :: 0 <= i < |keys| ==> keys[i] in events && list[i] == events[keys[i]].summary
    ensures list == InKeyOrder(events)
  {
    OrderUnique(keys, Ordered(events.Keys), events.Keys);
    SummariesByIndex(events, keys);
  }

  /** So the hash is that of this list, 0 when it is empty. */
  lemma HashOfOrderedList(hasher: Hasher, events: map<string, Event>, keys: seq<string>, list: seq<Summary>)
    requires InOrder(keys, events.Keys) && |list| == |keys|
    requires forall i :: 0 <= i < |keys| ==> keys[i] in events && list[i] == events[keys[i]].summary
    ensures HashOf(hasher, events) == if list == [] then 0 else hasher.hash(hasher.dump(list))
  {
    OrderedListUnique(events, keys, list);
    EmptyOrder(events, keys);
  }

  lemma EmptyOrder(events: map<string, Event>, keys: seq<string>)
    requires InOrder(keys, events.Keys)
    ensures keys == [] <==> events == map[]
  {
    if keys == [] {
      assert events.Keys == {};
    } else {
      assert keys[0] in events;
    }
  }

  // ---------------------------------------------------------------- watermark

  /** The lowest double, or a time. */
  datatype Watermark = Lowest | At(micros: int)

  predicate Above(time: int, w: Watermark) {
    w.Lowest? || time > w.micros
  }

  function Later(w: Watermark, time: int): Watermark {
    if Above(time, w) then At(time) else w
  }

  /** w is no later than v. */
  predicate NotAfter(w: Watermark, v: Watermark) {
    w.Lowest? || (v.At? && w.micros <= v.micros)
  }

  // ---------------------------------------------------------------- rows applied to the cache

  /** The cached events after the rows: each that unpacks is added or replaces its predecessor. */
  function Applied(unpack: Unpacker, events: map<string, Event>, rows: seq<Row>): map<string, Event> {
    if rows == [] then events
    else
      var before, last := Applied(unpack, events, rows[..|rows| - 1]), rows[|rows| - 1];
      if UnpackRow(unpack, last).Some? then before[Key(last) := UnpackRow(unpack, last).value] else before
  }

  /** The same when an event already there is kept: the load. */
  function Loaded(unpack: Unpacker, rows: seq<Row>): map<string, Event> {
    if rows == [] then map[]
    else
      var before, last := Loaded(unpack, rows[..|rows| - 1]), rows[|rows| - 1];
      if UnpackRow(unpack, last).Some? && Key(last) !in before then before[Key(last) := UnpackRow(unpack, last).value] else before
  }

  /** The watermark after the rows: the latest stamp of those that unpack. */
  function Newest(unpack: Unpacker, w: Watermark, rows: seq<Row>): Watermark {
    if rows == [] then w
    else
      var before, last := Newest(unpack, w, rows[..|rows| - 1]), rows[|rows| - 1];
      if UnpackRow(unpack, last).Some? then Later(before, last.lastUpdate) else before
  }

  type Table = map<Int64, Row>

  ghost predicate WellKeyed(table: Table) {
    forall id :: id in table ==> table[id].identifier == id
  }

  ghost predicate Distinct(rows: seq<Row>) {
    forall i, j :: 0 <= i < j < |rows| ==> rows[i].identifier != rows[j].identifier
  }

  /** What the database answers to a query for the rows stamped after the watermark, in some order. */
  ghost predicate Answers(table: Table, w: Watermark, rows: seq<Row>) {
    && Distinct(rows)
    && (forall i :: 0 <= i < |rows| ==>
         rows[i].identifier in table && table[rows[i].identifier] == rows[i] && Above(rows[i].lastUpdate, w))
    && (forall id :: id in table && Above(table[id].lastUpdate, w) ==> table[id] in rows)
  }

  /** What it answers to the query of the load: the rows loaded last into the table, at most `limit` of them. */
  ghost predicate Latest(table: Table, limit: nat, rows: seq<Row>) {
    && Distinct(rows)
    && (forall i :: 0 <= i < |rows| ==> rows[i].identifier in table && table[rows[i].identifier] == rows[i])
    && |rows| <= limit && (|rows| < limit ==> forall id :: id in table ==> table[id] in rows)
    && (forall id, i :: id in table && table[id] !in rows && 0 <= i < |rows| ==> table[id].loadDate <= rows[i].loadDate)
  }

  lemma DistinctKeys(rows: seq<Row>, n: nat)
    requires Distinct(rows) && n < |rows|
    ensures forall i :: 0 <= i < n ==> Key(rows[i]) != Key(rows[n])
  {
    forall i | 0 <= i < n ensures Key(rows[i]) != Key(rows[n]) {
      if Key(rows[i]) == Key(rows[n]) {
        KeysDiffer(rows[i].identifier, rows[n].identifier);
      }
    }
  }

  lemma {:induction false} AppliedElsewhere(unpack: Unpacker, events: map<string, Event>, rows: seq<Row>, key: string)
    requires forall i :: 0 <= i < |rows| && UnpackRow(unpack, rows[i]).Some? ==> Key(rows[i]) != key
    ensures key in Applied(unpack, events, rows) <==> key in events
    ensures key in events ==> Applied(unpack, events, rows)[key] == events[key]
  {
    if rows != [] {
      AppliedElsewhere(unpack, events, rows[..|rows| - 1], key);
    }
  }

  lemma {:induction false} AppliedHere(unpack: Unpacker, events: map<string, Event>, rows: seq<Row>, i: nat)
    requires Distinct(rows) && i < |rows| && UnpackRow(unpack, rows[i]).Some?
    ensures Key(rows[i]) in Applied(unpack, events, rows)
    ensures Some(Applied(unpack, events, rows)[Key(rows[i])]) == UnpackRow(unpack, rows[i])
  {
    var n := |rows| - 1;
    if i < n {
      AppliedHere(unpack, events, rows[..n], i);
      DistinctKeys(rows, n);
    }
  }

  lemma AppliedRows(unpack: Unpacker, events: map<string, Event>, rows: seq<Row>, key: string)
    requires Distinct(rows)
    ensures (forall i :: 0 <= i < |rows| && UnpackRow(unpack, rows[i]).Some? ==> Key(rows[i]) != key) ==>
      (key in Applied(unpack, events, rows) <==> key in events) &&
      (key in events ==> Applied(unpack, events, rows)[key] == events[key])
    ensures forall i :: 0 <= i < |rows| && UnpackRow(unpack, rows[i]).Some? && Key(rows[i]) == key ==>
      key in Applied(unpack, events, rows) && Some(Applied(unpack, events, rows)[key]) == UnpackRow(unpack, rows[i])
  {
    if i :| 0 <= i < |rows| && UnpackRow(unpack, rows[i]).Some? && Key(rows[i]) == key {
      forall j | 0 <= j < |rows| && UnpackRow(unpack, rows[j]).Some? && Key(rows[j]) == key
        ensures key in Applied(unpack, events, rows) && Some(Applied(unpack, events, rows)[key]) == UnpackRow(unpack, rows[j])
      {
        AppliedHere(unpack, events, rows, j);
      }
    } else {
      AppliedElsewhere(unpack, events, rows, key);
    }
  }

  /** A key of the result shows the one row of that key that unpacks, or what was there before. */
  lemma AppliedAt(unpack: Unpacker, events: map<string, Event>, rows: seq<Row>, key: string)
    requires Distinct(rows)
    ensures (forall i :: 0 <= i < |rows| && Unpacks(unpack, rows[i]) ==> ToString(rows[i].identifier) != key) ==>
      (key in Applied(unpack, events, rows) <==> key in events) &&
      (key in events ==> Applied(unpack, events, rows)[key] == events[key])
    ensures forall i :: 0 <= i < |rows| && Unpacks(unpack, rows[i]) && ToString(rows[i].identifier) == key ==>
      key in Applied(unpack, events, rows) && ShownAs(unpack, rows[i], Applied(unpack, events, rows)[key])
  {
    AppliedRows(unpack, events, rows, key);
    forall i | 0 <= i < |rows|
      ensures UnpackRow(unpack, rows[i]).Some? <==> Unpacks(unpack, rows[i])
      ensures forall e :: UnpackRow(unpack, rows[i]) == Some(e) <==> ShownAs(unpack, rows[i], e)
    {
      UnpackRowShows(unpack, rows[i]);
    }
  }

  lemma {:induction false} LoadedIsApplied(unpack: Unpacker, rows: seq<Row>)
    requires Distinct(rows)
    ensures Loaded(unpack, rows) == Applied(unpack, map[], rows)
  {
    if rows != [] {
      var n := |rows| - 1;
      LoadedIsApplied(unpack, rows[..n]);
      DistinctKeys(rows, n);
      AppliedElsewhere(unpack, map[], rows[..n], Key(rows[n]));
    }
  }

  lemma {:induction false} NewestOfRows(unpack: Unpacker, w: Watermark, rows: seq<Row>)
    ensures NotAfter(w, Newest(unpack, w, rows))
    ensures forall i :: 0 <= i < |rows| && UnpackRow(unpack, rows[i]).Some? ==> NotAfter(At(rows[i].lastUpdate), Newest(unpack, w, rows))
    ensures Newest(unpack, w, rows) == w ||
      exists i :: 0 <= i < |rows| && UnpackRow(unpack, rows[i]).Some? && Newest(unpack, w, rows) == At(rows[i].lastUpdate)
  {
    if rows != [] {
      var n := |rows| - 1;
      NewestOfRows(unpack, w, rows[..n]);
      forall i | 0 <= i < n ensures rows[..n][i] == rows[i] {}
    }
  }

  /** The new watermark is no earlier than the old one and than any row that unpacks, and is one of them. */
  lemma NewestIsLatest(unpack: Unpacker, w: Watermark, rows: seq<Row>)
    ensures w.At? ==> Newest(unpack, w, rows).At? && w.micros <= Newest(unpack, w, rows).micros
    ensures forall i :: 0 <= i < |rows| && Unpacks(unpack, rows[i]) ==>
      Newest(unpack, w, rows).At? && rows[i].lastUpdate <= Newest(unpack, w, rows).micros
    ensures Newest(unpack, w, rows) == w ||
      exists i :: 0 <= i < |rows| && Unpacks(unpack, rows[i]) && Newest(unpack, w, rows) == At(rows[i].lastUpdate)
  {
    NewestOfRows(unpack, w, rows);
    forall i | 0 <= i < |rows| ensures UnpackRow(unpack, rows[i]).Some? <==> Unpacks(unpack, rows[i]) {
      UnpackRowShows(unpack, rows[i]);
    }
  }

  /** The outcome of a poll does not depend on the order in which the database lists the rows. */
  lemma PollOrderIrrelevant(unpack: Unpacker, events: map<string, Event>, w: Watermark, table: Table, rows: seq<Row>, rows': seq<Row>)
    requires WellKeyed(table) && Answers(table, w, rows) && Answers(table, w, rows')
    ensures Applied(unpack, events, rows) == Applied(unpack, events, rows')
    ensures Newest(unpack, w, rows) == Newest(unpack, w, rows')
  {
    SameRows(table, w, rows, rows');
    SameRows(table, w, rows', rows);
    forall key
      ensures key in Applied(unpack, events, rows) <==> key in Applied(unpack, events, rows')
      ensures key in Applied(unpack, events, rows) ==> Applied(unpack, events, rows)[key] == Applied(unpack, events, rows')[key]
    {
      AppliedRows(unpack, events, rows, key);
      AppliedRows(unpack, events, rows', key);
      if i :| 0 <= i < |rows| && UnpackRow(unpack, rows[i]).Some? && Key(rows[i]) == key {
        assert rows[i] in rows';
      } else {
        forall i | 0 <= i < |rows'| && UnpackRow(unpack, rows'[i]).Some? ensures Key(rows'[i]) != key {
          assert rows'[i] in rows;
        }
      }
    }
    NewestOfRows(unpack, w, rows);
    NewestOfRows(unpack, w, rows');
    NewestIgnoresOrder(unpack, w, rows, rows');
    NewestIgnoresOrder(unpack, w, rows', rows);
  }

  lemma SameRows(table: Table, w: Watermark, rows: seq<Row>, rows': seq<Row>)
    requires Answers(table, w, rows) && Answers(table, w, rows')
    ensures forall r :: r in rows ==> r in rows'
  {}

  lemma NewestIgnoresOrder(unpack: Unpacker, w: Watermark, rows: seq<Row>, rows': seq<Row>)
    requires forall r :: r in rows ==> r in rows'
    ensures NotAfter(Newest(unpack, w, rows), Newest(unpack, w, rows'))
  {
    NewestOfRows(unpack, w, rows);
    NewestOfRows(unpack, w, rows');
    if Newest(unpack, w, rows) != w {
      var i :| 0 <= i < |rows| && UnpackRow(unpack, rows[i]).Some? && Newest(unpack, w, rows) == At(rows[i].lastUpdate);
      assert rows[i] in rows';
    }
  }
}
