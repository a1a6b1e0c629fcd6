/** Every run of database writes, deletions, polls and reviews keeps the cache repairable by the next poll. */
module CacheRuns {
  import opened Wrappers
  import opened Identifiers
  import opened CacheModel

  /** The outside functions: unpacking and hashing. */
  datatype Env = Env(unpack: Unpacker, hasher: Hasher)

  /**
   * A schema: its table, the latest stamp given to any write, the cache and its hash, the watermark, the stamp of
   * the row each cached event was made from, and the identifiers written since the load.
   */
  datatype State = State(
    table: Table, clock: int, events: map<string, Event>, hash: nat, watermark: Watermark,
    stamps: map<string, int>, written: set<Int64>)

  datatype Step =
    | Write(row: Row)
    | Delete(identifier: Int64)
    | Poll(rows: seq<Row>)
    | Review(key: string, status: string, now: int, answer: Option<seq<Row>>)

  /** The stamps of the cached events after the rows. */
  function Stamped(unpack: Unpacker, stamps: map<string, int>, rows: seq<Row>): map<string, int> {
    if rows == [] then stamps
    else
      var before, last := Stamped(unpack, stamps, rows[..|rows| - 1]), rows[|rows| - 1];
      if UnpackRow(unpack, last).Some? then before[Key(last) := last.lastUpdate] else before
  }

  /** The effect of the accept/reject statement on the table. */
  function StatusSet(table: Table, key: string, status: string, now: int): Table {
    map id | id in table ::
      if ToString(id) == key then table[id].(reviewStatus := Some(status), lastUpdate := now) else table[id]
  }

  /**
   * What the statement is to do: no row comes or goes, the rows of other events stay as they are, and the row of the
   * event changes in its status and its stamp only.
   */
  ghost predicate OnlyStatusChanged(before: Table, after: Table, event: string, status: string, now: int) {
    && (forall id :: id in before <==> id in after)
    && (forall id :: id in before && ToString(id) != event ==> after[id] == before[id])
    && (forall id :: id in before && ToString(id) == event ==>
         && after[id].reviewStatus == Some(status) && after[id].lastUpdate == now
         && after[id].identifier == before[id].identifier && after[id].mwData == before[id].mwData
         && after[id].columns == before[id].columns && after[id].loadDate == before[id].loadDate)
  }

  lemma StatusSetChanges(table: Table, event: string, status: string, now: int)
    ensures OnlyStatusChanged(table, StatusSet(table, event, status, now), event, status, now)
  {}

  ghost function Polled(env: Env, s: State, rows: seq<Row>): State {
    var events := Applied(env.unpack, s.events, rows);
    s.(events := events, hash := HashOf(env.hasher, events), watermark := Newest(env.unpack, s.watermark, rows),
       stamps := Stamped(env.unpack, s.stamps, rows))
  }

  ghost function Apply(env: Env, s: State, step: Step): State {
    match step
    case Write(row) =>
      s.(table := s.table[row.identifier := row], clock := row.lastUpdate, written := s.written + {row.identifier})
    case Delete(id) => s.(table := s.table - {id})
    case Poll(rows) => Polled(env, s, rows)
    case Review(key, status, now, rows) =>
      var updated := s.(table := StatusSet(s.table, key, status, now), clock := now);
      if rows.Some? then Polled(env, updated, rows.value) else updated
  }

  lemma ReviewChanges(env: Env, s: State, event: string, status: string, now: int, rows: Option<seq<Row>>)
    ensures OnlyStatusChanged(s.table, Apply(env, s, Review(event, status, now, rows)).table, event, status, now)
  {
    StatusSetChanges(s.table, event, status, now);
  }

  /** Writes are stamped later than all before them and unpack; polls see what the database answers. */
  ghost predicate Enabled(env: Env, s: State, step: Step) {
    match step
    case Write(row) => row.lastUpdate > s.clock && Unpacks(env.unpack, row)
    case Delete(_) => true
    case Poll(rows) => Answers(s.table, s.watermark, rows)
    case Review(key, status, now, rows) =>
      key in s.events && now > s.clock
      && (rows.Some? ==> Answers(StatusSet(s.table, key, status, now), s.watermark, rows.value))
  }

  /** The state after the load of some distinct rows of the table. */
  ghost function Initial(env: Env, table: Table, clock: int, rows: seq<Row>): State {
    var events := Loaded(env.unpack, rows);
    State(table, clock, events, HashOf(env.hasher, events), Newest(env.unpack, Lowest, rows),
          Stamped(env.unpack, map[], rows), {})
  }

  ghost predicate Loads(table: Table, clock: int, rows: seq<Row>) {
    && WellKeyed(table) && Distinct(rows)
    && (forall id :: id in table ==> table[id].lastUpdate <= clock)
    && (forall i :: 0 <= i < |rows| ==> rows[i].identifier in table && table[rows[i].identifier] == rows[i])
  }

  // ---------------------------------------------------------------- the invariant

  /** A cached row that is out of date, and a written one that is missing, is stamped after the watermark. */
  ghost predicate Tracked(env: Env, s: State, id: Int64)
    requires id in s.table
  {
    var row, key := s.table[id], ToString(id);
    && row.identifier == id && row.lastUpdate <= s.clock
    && (key in s.events || id in s.written ==> UnpackRow(env.unpack, row).Some?)
    && (key in s.events && UnpackRow(env.unpack, row) != Some(s.events[key]) ==> Above(row.lastUpdate, s.watermark))
    && (id in s.written && key !in s.events ==> Above(row.lastUpdate, s.watermark))
  }

  /** Every cached key is the decimal text of a row identifier. */
  ghost predicate KeysAreIdentifiers(events: map<string, Event>) {
    forall key :: key in events ==> exists id: Int64 :: key == ToString(id)
  }

  ghost predicate Inv(env: Env, s: State) {
    && (forall id :: id in s.table ==> Tracked(env, s, id))
    && NotAfter(s.watermark, At(s.clock))
    && s.hash == HashOf(env.hasher, s.events)
    && s.stamps.Keys == s.events.Keys
    && KeysAreIdentifiers(s.events)
    && (forall key :: key in s.stamps ==> NotAfter(At(s.stamps[key]), s.watermark))
  }

  /** The cache shows every row that it ever loaded or that was written since, as it is in the table. */
  ghost predicate Agrees(env: Env, s: State) {
    forall id :: id in s.table && (ToString(id) in s.events || id in s.written) ==>
      ToString(id) in s.events && ShownAs(env.unpack, s.table[id], s.events[ToString(id)])
  }

  // ---------------------------------------------------------------- polls

  lemma {:induction false} StampsBounded(env: Env, s: State, rows: seq<Row>)
    requires s.stamps.Keys == s.events.Keys && forall key :: key in s.stamps ==> NotAfter(At(s.stamps[key]), s.watermark)
    ensures Stamped(env.unpack, s.stamps, rows).Keys == Applied(env.unpack, s.events, rows).Keys
    ensures forall key :: key in Stamped(env.unpack, s.stamps, rows) ==>
      NotAfter(At(Stamped(env.unpack, s.stamps, rows)[key]), Newest(env.unpack, s.watermark, rows))
  {
    if rows != [] {
      StampsBounded(env, s, rows[..|rows| - 1]);
    }
  }

  lemma {:induction false} KeysStayIdentifiers(unpack: Unpacker, events: map<string, Event>, rows: seq<Row>)
    requires KeysAreIdentifiers(events)
    ensures KeysAreIdentifiers(Applied(unpack, events, rows))
  {
    if rows != [] {
      KeysStayIdentifiers(unpack, events, rows[..|rows| - 1]);
    }
  }

  lemma PollUnpacks(env: Env, s: State, rows: seq<Row>, id: Int64)
    requires WellKeyed(s.table) && Answers(s.table, s.watermark, rows)
    requires id in s.table && UnpackRow(env.unpack, s.table[id]).Some?
    ensures var row, key, after := s.table[id], ToString(id), Applied(env.unpack, s.events, rows);
      (key in after && Some(after[key]) == UnpackRow(env.unpack, row))
      <==> Above(row.lastUpdate, s.watermark) || (key in s.events && Some(s.events[key]) == UnpackRow(env.unpack, row))
  {
    AppliedRows(env.unpack, s.events, rows, ToString(id));
    if Above(s.table[id].lastUpdate, s.watermark) {
      assert s.table[id] in rows;
    } else {
      NoOtherRow(s, rows, id);
    }
  }

  ghost predicate Shows(env: Env, events: map<string, Event>, row: Row) {
    ToString(row.identifier) in events && ShownAs(env.unpack, row, events[ToString(row.identifier)])
  }

  /** After a poll, a row that unpacks is shown as it is exactly when it was before or is stamped after the watermark. */
  lemma PollShows(env: Env, s: State, rows: seq<Row>, id: Int64)
    requires WellKeyed(s.table) && Answers(s.table, s.watermark, rows)
    requires id in s.table && Unpacks(env.unpack, s.table[id])
    ensures Shows(env, Applied(env.unpack, s.events, rows), s.table[id])
      <==> s.watermark.Lowest? || s.table[id].lastUpdate > s.watermark.micros || Shows(env, s.events, s.table[id])
  {
    UnpackRowShows(env.unpack, s.table[id]);
    PollUnpacks(env, s, rows, id);
  }

  /** A poll shows every row of the answer that unpacks, each as it is. */
  lemma AnswerShown(env: Env, events: map<string, Event>, rows: seq<Row>)
    requires Distinct(rows)
    ensures forall row :: row in rows && Unpacks(env.unpack, row) ==> Shows(env, Applied(env.unpack, events, rows), row)
  {
    forall row | row in rows && Unpacks(env.unpack, row) ensures Shows(env, Applied(env.unpack, events, rows), row) {
      AppliedAt(env.unpack, events, rows, ToString(row.identifier));
    }
  }

  /** No other row has the key of this one. */
  lemma NoOtherRow(s: State, rows: seq<Row>, id: Int64)
    requires WellKeyed(s.table) && Answers(s.table, s.watermark, rows) && id in s.table
    ensures forall i :: 0 <= i < |rows| && Key(rows[i]) == ToString(id) ==> rows[i] == s.table[id]
  {
    forall i | 0 <= i < |rows| && Key(rows[i]) == ToString(id) ensures rows[i] == s.table[id] {
      KeysDiffer(rows[i].identifier, id);
    }
  }

  /** A completed poll keeps the invariant and makes the cache agree with the table. */
  lemma PollAgrees(env: Env, s: State, rows: seq<Row>)
    requires Inv(env, s) && Answers(s.table, s.watermark, rows)
    ensures Inv(env, Polled(env, s, rows)) && Agrees(env, Polled(env, s, rows))
    ensures s.events.Keys <= Polled(env, s, rows).events.Keys
    ensures NotAfter(s.watermark, Polled(env, s, rows).watermark)
  {
    var p := Polled(env, s, rows);
    assert forall id :: id in s.table ==> Tracked(env, s, id);
    forall id | id in s.table ensures Tracked(env, p, id)
      ensures ToString(id) in p.events || id in p.written ==>
        ToString(id) in p.events && ShownAs(env.unpack, s.table[id], p.events[ToString(id)])
    {
      TrackedAfterPoll(env, s, rows, id);
      UnpackRowShows(env.unpack, s.table[id]);
    }
    NewestOfRows(env.unpack, s.watermark, rows);
    StampsBounded(env, s, rows);
    KeysStayIdentifiers(env.unpack, s.events, rows);
    WatermarkWithinClock(env, s, rows);
    forall key | key in s.events ensures key in p.events {
      AppliedRows(env.unpack, s.events, rows, key);
    }
  }

  lemma WatermarkWithinClock(env: Env, s: State, rows: seq<Row>)
    requires Inv(env, s) && Answers(s.table, s.watermark, rows)
    ensures NotAfter(Newest(env.unpack, s.watermark, rows), At(s.clock))
  {
    NewestOfRows(env.unpack, s.watermark, rows);
    if Newest(env.unpack, s.watermark, rows) != s.watermark {
      var i :| 0 <= i < |rows| && Newest(env.unpack, s.watermark, rows) == At(rows[i].lastUpdate);
      assert Tracked(env, s, rows[i].identifier);
    }
  }

  lemma TrackedAfterPoll(env: Env, s: State, rows: seq<Row>, id: Int64)
    requires Inv(env, s) && Answers(s.table, s.watermark, rows) && id in s.table
    ensures var p := Polled(env, s, rows);
      && Tracked(env, p, id)
      && (ToString(id) in p.events || id in p.written ==>
           ToString(id) in p.events && UnpackRow(env.unpack, s.table[id]) == Some(p.events[ToString(id)]))
  {
    assert forall id :: id in s.table ==> Tracked(env, s, id);
    assert Tracked(env, s, id);
    AppliedRows(env.unpack, s.events, rows, ToString(id));
    NoOtherRow(s, rows, id);
    if UnpackRow(env.unpack, s.table[id]).Some? {
      PollUnpacks(env, s, rows, id);
    }
  }

  // ---------------------------------------------------------------- the other steps

  lemma WriteKeepsInv(env: Env, s: State, row: Row)
    requires Inv(env, s) && Enabled(env, s, Write(row))
    ensures Inv(env, Apply(env, s, Write(row)))
  {
    var t := Apply(env, s, Write(row));
    UnpackRowShows(env.unpack, row);
    forall id | id in t.table ensures Tracked(env, t, id) {
      if id != row.identifier {
        assert Tracked(env, s, id);
      }
    }
  }

  lemma DeleteKeepsInv(env: Env, s: State, id: Int64)
    requires Inv(env, s)
    ensures Inv(env, Apply(env, s, Delete(id)))
  {
    var t := Apply(env, s, Delete(id));
    forall other | other in t.table ensures Tracked(env, t, other) {
      assert Tracked(env, s, other);
    }
  }

  /** Setting a status leaves a row that unpacks one that unpacks, with only that and the stamp changed. */
  lemma StatusKeepsInv(env: Env, s: State, key: string, status: string, now: int)
    requires Inv(env, s) && key in s.events && now > s.clock
    ensures Inv(env, s.(table := StatusSet(s.table, key, status, now), clock := now))
  {
    var t := s.(table := StatusSet(s.table, key, status, now), clock := now);
    forall id | id in t.table ensures Tracked(env, t, id) {
      assert Tracked(env, s, id);
    }
  }

  lemma StepKeepsInv(env: Env, s: State, step: Step)
    requires Inv(env, s) && Enabled(env, s, step)
    ensures Inv(env, Apply(env, s, step))
    ensures NotAfter(s.watermark, Apply(env, s, step).watermark)
    ensures step.Poll? || (step.Review? && step.answer.Some?) ==> Agrees(env, Apply(env, s, step))
  {
    match step {
      case Write(row) => WriteKeepsInv(env, s, row);
      case Delete(id) => DeleteKeepsInv(env, s, id);
      case Poll(rows) => PollAgrees(env, s, rows);
      case Review(key, status, now, rows) =>
        StatusKeepsInv(env, s, key, status, now);
        if rows.Some? {
          PollAgrees(env, s.(table := StatusSet(s.table, key, status, now), clock := now), rows.value);
        }
    }
  }

  lemma LoadEstablishesInv(env: Env, table: Table, clock: int, rows: seq<Row>)
    requires Loads(table, clock, rows)
    ensures Inv(env, Initial(env, table, clock, rows))
  {
    var s := Initial(env, table, clock, rows);
    LoadedIsApplied(env.unpack, rows);
    NewestOfRows(env.unpack, Lowest, rows);
    KeysStayIdentifiers(env.unpack, map[], rows);
    StampsBounded(env, s.(events := map[], stamps := map[], watermark := Lowest), rows);
    forall id | id in table ensures Tracked(env, s, id) {
      AppliedRows(env.unpack, map[], rows, ToString(id));
      forall i | 0 <= i < |rows| && Key(rows[i]) == ToString(id) ensures rows[i] == table[id] {
        KeysDiffer(rows[i].identifier, id);
      }
    }
  }

  // ---------------------------------------------------------------- runs

  /** The states of a run, one for each step and one before the first. */
  ghost predicate Run(env: Env, states: seq<State>, steps: seq<Step>) {
    && |states| == |steps| + 1
    && forall i :: 0 <= i < |steps| ==> Enabled(env, states[i], steps[i]) && states[i + 1] == Apply(env, states[i], steps[i])
  }

  /** Every state of every run after a load satisfies the invariant, and the watermark never decreases. */
  lemma {:induction false} RunKeepsInv(env: Env, states: seq<State>, steps: seq<Step>, n: nat)
    requires Run(env, states, steps) && n < |states| && Inv(env, states[0])
    ensures forall i :: 0 <= i <= n ==> Inv(env, states[i])
    ensures forall i :: 0 <= i <= n ==> NotAfter(states[i].watermark, states[n].watermark)
  {
    if n > 0 {
      RunKeepsInv(env, states, steps, n - 1);
      StepKeepsInv(env, states[n - 1], steps[n - 1]);
    }
  }

  /**
   * Over every run: after a poll, alone or at the end of a review, the cache agrees with the table on all rows
   * loaded or written since, and the stored hash is that of the cache.
   */
  lemma PolledRunAgrees(env: Env, table: Table, clock: int, rows: seq<Row>, states: seq<State>, steps: seq<Step>, n: nat)
    requires Loads(table, clock, rows) && Run(env, states, steps) && states[0] == Initial(env, table, clock, rows)
    requires n < |steps| && (steps[n].Poll? || (steps[n].Review? && steps[n].answer.Some?))
    ensures Agrees(env, states[n + 1])
    ensures states[n + 1].hash == HashOf(env.hasher, states[n + 1].events)
  {
    LoadEstablishesInv(env, table, clock, rows);
    RunKeepsInv(env, states, steps, n);
    StepKeepsInv(env, states[n], steps[n]);
  }

  /** After the poll of a review the event is shown with the status it was given, the rest of its row as before. */
  lemma ReviewShowsStatus(env: Env, s: State, id: Int64, status: string, now: int, rows: seq<Row>)
    requires Inv(env, s) && Enabled(env, s, Review(ToString(id), status, now, Some(rows))) && id in s.table
    ensures var after := Apply(env, s, Review(ToString(id), status, now, Some(rows)));
      && id in after.table && ToString(id) in after.events
      && ShownAs(env.unpack, after.table[id], after.events[ToString(id)])
      && after.events[ToString(id)].summary.reviewStatus == status
  {
    StepKeepsInv(env, s, Review(ToString(id), status, now, Some(rows)));
    StatusKeepsInv(env, s, ToString(id), status, now);
    PollAgrees(env, s.(table := StatusSet(s.table, ToString(id), status, now), clock := now), rows);
    StatusSetChanges(s.table, ToString(id), status, now);
  }

  /** Nothing removes an event from the cache: a deleted row stays shown. */
  lemma CacheNeverForgets(env: Env, s: State, step: Step)
    requires Inv(env, s) && Enabled(env, s, step)
    ensures s.events.Keys <= Apply(env, s, step).events.Keys
  {
    match step {
      case Write(_) =>
      case Delete(_) =>
      case Poll(rows) => PollAgrees(env, s, rows);
      case Review(key, status, now, rows) =>
        if rows.Some? {
          StatusKeepsInv(env, s, key, status, now);
          PollAgrees(env, s.(table := StatusSet(s.table, key, status, now), clock := now), rows.value);
        }
    }
  }

  /** So an event can be in the cache without a row in the table: any cached row, once deleted. */
  lemma DeletedRowStaysCached(env: Env, s: State, id: Int64)
    requires Inv(env, s) && id in s.table && ToString(id) in s.events
    ensures var t := Apply(env, s, Delete(id));
      Inv(env, t) && ToString(id) in t.events && forall other :: other in t.table ==> ToString(other) != ToString(id)
  {
    DeleteKeepsInv(env, s, id);
    forall other | other in s.table && ToString(other) == ToString(id) ensures other == id {
      KeysDiffer(other, id);
    }
  }

  /** Every cached key converts to the one identifier it is the text of, unless that is negative. */
  lemma CachedKeyConverts(env: Env, s: State, key: string)
    requires Inv(env, s) && key in s.events
    ensures exists id: Int64 :: key == ToString(id) && Convert(key) == if id >= 0 then Identifier(id) else Invalid
  {
    var id: Int64 :| key == ToString(id);
    KeyConversion(id);
  }
}
