/** The polling service: its in-memory events by schema, the load, the polls, and the accept and reject statements. */
module CctService {
  import opened Wrappers
  import opened Identifiers
  import opened KeyOrder
  import opened CacheModel
  import CacheRuns

  const LOAD_LIMIT: nat := 50

  // ---------------------------------------------------------------- Events

  class Events {
    var events: map<string, Event>
    var hash: nat

    constructor ()
      ensures events == map[] && hash == 0
    {
      events, hash := map[], 0;
    }

    ghost predicate Hashed(hasher: Hasher)
      reads this
    {
      hash == HashOf(hasher, events)
    }

    predicate Contains(key: string)
      reads this
    {
      key in events
    }

    /** Throws when the key is taken. */
    method Insert(key: string, e: Event) returns (ok: bool)
      modifies this`events
      ensures ok <==> key !in old(events)
      ensures events == if ok then old(events)[key := e] else old(events)
    {
      if Contains(key) {
        return false;
      }
      events := events[key := e];
      ok := true;
    }

    method Update(key: string, e: Event)
      modifies this`events
      ensures events == old(events)[key := e]
    {
      if !Contains(key) {
        var _ := Insert(key, e);
        return;
      }
      events := events[key := e];
    }

    /** A row of a poll: added or replaced, and the hash brought up to date, under one lock. */
    method Absorb(key: string, e: Event, hasher: Hasher)
      modifies this
      ensures events == old(events)[key := e]
      ensures hash == HashOf(hasher, events)
    {
      if !Contains(key) {
        var _ := Insert(key, e);
      } else {
        Update(key, e);
      }
      GenerateHash(hasher);
    }

    /** The row loop of a poll. */
    method AbsorbRows(env: CacheRuns.Env, w: Watermark, rows: seq<Row>) returns (newestUpdate: Watermark, updated: bool)
      requires hash == HashOf(env.hasher, events)
      modifies this
      ensures events == Applied(env.unpack, old(events), rows)
      ensures hash == HashOf(env.hasher, events)
      ensures newestUpdate == Newest(env.unpack, w, rows)
      ensures !updated ==> newestUpdate == w
    {
      newestUpdate, updated := w, false;
      for i := 0 to |rows|
        invariant events == Applied(env.unpack, old(events), rows[..i]) && hash == HashOf(env.hasher, events)
        invariant newestUpdate == Newest(env.unpack, w, rows[..i])
        invariant !updated ==> newestUpdate == w
      {
        assert rows[..i + 1][..i] == rows[..i];
        var event := UnpackRow(env.unpack, rows[i]);
        if event.Some? {
          Absorb(Key(rows[i]), event.value, env.hasher);
          newestUpdate := Later(newestUpdate, rows[i].lastUpdate);
          updated := true;
        }
      }
      assert rows[..|rows|] == rows;
    }

    /** The row loop of the load: a taken key is refused, though its stamp counts. */
    method LoadRows(env: CacheRuns.Env, rows: seq<Row>) returns (newestUpdate: Watermark)
      requires events == map[]
      modifies this
      ensures events == Loaded(env.unpack, rows)
      ensures hash == HashOf(env.hasher, events)
      ensures newestUpdate == Newest(env.unpack, Lowest, rows)
    {
      newestUpdate := Lowest;
      for i := 0 to |rows|
        invariant events == Loaded(env.unpack, rows[..i])
        invariant newestUpdate == Newest(env.unpack, Lowest, rows[..i])
      {
        assert rows[..i + 1][..i] == rows[..i];
        var event := UnpackRow(env.unpack, rows[i]);
        if event.Some? {
          newestUpdate := Later(newestUpdate, rows[i].lastUpdate);
          var _ := Insert(Key(rows[i]), event.value);
        }
      }
      assert rows[..|rows|] == rows;
      GenerateHash(env.hasher);
    }

    /** The list holds the summary of every event, in the order of the keys. */
    ghost predicate ListsInOrder(keys: seq<string>, list: seq<Summary>)
      reads this
    {
      && InOrder(keys, events.Keys) && |list| == |keys|
      && forall i :: 0 <= i < |keys| ==> keys[i] in events && list[i] == events[keys[i]].summary
    }

    method GenerateHash(hasher: Hasher)
      modifies this`hash
      ensures hash == HashOf(hasher, events)
    {
      if events == map[] {
        hash := 0;
      } else {
        var text := LightWeightDataToString(hasher);
        hash := hasher.hash(text);
      }
    }

    /** The light-weight events in key order, or the empty text. */
    method LightWeightDataToString(hasher: Hasher) returns (text: string)
      ensures text == if events == map[] then "" else hasher.dump(InKeyOrder(events))
      ensures forall keys, list :: ListsInOrder(keys, list) ==> text == if list == [] then "" else hasher.dump(list)
    {
      forall keys, list | ListsInOrder(keys, list) ensures list == InKeyOrder(events) && (list == [] <==> events == map[]) {
        OrderedListUnique(events, keys, list);
        EmptyOrder(events, keys);
      }
      if events == map[] {
        return "";
      }
      var keys := KeysInOrder(events.Keys);
      OrderUnique(keys, Ordered(events.Keys), events.Keys);
      var list: seq<Summary> := [];
      for i := 0 to |keys|
        invariant list == Summaries(events, keys[..i])
      {
        assert keys[i] in events.Keys && keys[..i + 1][..i] == keys[..i];
        list := list + [events[keys[i]].summary];
      }
      assert keys[..|keys|] == keys;
      text := hasher.dump(list);
    }
  }

  // ---------------------------------------------------------------- the event table of a schema

  /** The database side: the rows, the two queries and the statement the service sends. */
  class EventTable {
    var rows: Table

    constructor (rows: Table)
      ensures this.rows == rows
    {
      this.rows := rows;
    }

    /** ... WHERE last_update > w */
    method NewerThan(w: Watermark) returns (answer: seq<Row>)
      requires WellKeyed(rows)
      ensures Answers(rows, w, answer)
      ensures forall id :: id in rows ==> (rows[id] in answer <==> w.Lowest? || rows[id].lastUpdate > w.micros)
    {
      answer := [];
      var left := rows.Keys;
      while left != {}
        invariant left <= rows.Keys && Distinct(answer)
        invariant forall i :: 0 <= i < |answer| ==> answer[i].identifier in rows.Keys - left
        invariant forall i :: 0 <= i < |answer| ==> rows[answer[i].identifier] == answer[i] && Above(answer[i].lastUpdate, w)
        invariant forall id :: id in rows.Keys - left && Above(rows[id].lastUpdate, w) ==> rows[id] in answer
        decreases left
      {
        var id :| id in left;
        left := left - {id};
        if Above(rows[id].lastUpdate, w) {
          answer := answer + [rows[id]];
        }
      }
    }

    /** ... ORDER BY load_date DESC LIMIT limit */
    method LatestRows(limit: nat) returns (answer: seq<Row>)
      requires WellKeyed(rows)
      ensures Latest(rows, limit, answer)
    {
      answer := [];
      var left := rows.Keys;
      while left != {} && |answer| < limit
        invariant left <= rows.Keys && Distinct(answer) && |answer| <= limit
        invariant forall i :: 0 <= i < |answer| ==> answer[i].identifier in rows.Keys - left && rows[answer[i].identifier] == answer[i]
        invariant forall id :: id in rows.Keys - left ==> rows[id] in answer
        invariant forall id, i :: id in left && 0 <= i < |answer| ==> rows[id].loadDate <= answer[i].loadDate
        decreases left
      {
        LatestExists(rows, left);
        var id :| id in left && forall other :: other in left ==> rows[other].loadDate <= rows[id].loadDate;
        left := left - {id};
        answer := answer + [rows[id]];
      }
    }

    /** UPDATE ... SET (review_status, last_update) = (status, now) WHERE identifier = key */
    method SetStatus(key: string, status: string, now: int, executes: bool) returns (ok: bool)
      modifies this
      ensures ok == executes
      ensures rows == if ok then CacheRuns.StatusSet(old(rows), key, status, now) else old(rows)
      ensures ok ==> CacheRuns.OnlyStatusChanged(old(rows), rows, key, status, now)
    {
      if executes {
        CacheRuns.StatusSetChanges(rows, key, status, now);
        rows := CacheRuns.StatusSet(rows, key, status, now);
      }
      ok := executes;
    }
  }

  lemma LatestExists(rows: Table, left: set<Int64>)
    requires left != {} && left <= rows.Keys
    ensures exists id :: id in left && forall other :: other in left ==> rows[other].loadDate <= rows[id].loadDate
    decreases left
  {
    var x :| x in left;
    if left == {x} {
    } else {
      var rest := left - {x};
      LatestExists(rows, rest);
      var y :| y in rest && forall other :: other in rest ==> rows[other].loadDate <= rows[y].loadDate;
      var top := if rows[x].loadDate <= rows[y].loadDate then y else x;
      forall other | other in left ensures rows[other].loadDate <= rows[top].loadDate {
        assert other == x || other in rest;
      }
    }
  }

  // ---------------------------------------------------------------- the service

  /** How one exchange with the database goes. */
  datatype Exchange = Exchange(connected: bool, answers: bool)

  class Service {
    const schemas: set<string>
    const tables: map<string, EventTable>
    const env: CacheRuns.Env
    var eventsMap: map<string, Events>
    var lastUpdateMap: map<string, Watermark>

    /** One distinct cache and table for each schema, and every stored hash that of its events. */
    ghost predicate Valid()
      reads this, eventsMap.Values, tables.Values
    {
      && tables.Keys == schemas && eventsMap.Keys == schemas && lastUpdateMap.Keys <= schemas
      && (forall s, t :: s in schemas && t in schemas && s != t ==> eventsMap[s] != eventsMap[t] && tables[s] != tables[t])
      && (forall s :: s in schemas ==> WellKeyed(tables[s].rows))
      && (forall s :: s in schemas ==> eventsMap[s].Hashed(env.hasher))
    }

    /** Empty caches for the schemas. */
    constructor (tables: map<string, EventTable>, env: CacheRuns.Env)
      requires forall s, t :: s in tables && t in tables && s != t ==> tables[s] != tables[t]
      requires forall s :: s in tables ==> WellKeyed(tables[s].rows)
      ensures Valid() && this.tables == tables && this.env == env && schemas == tables.Keys
      ensures lastUpdateMap == map[]
      ensures forall s :: s in schemas ==> fresh(eventsMap[s]) && eventsMap[s].events == map[]
    {
      this.schemas, this.tables, this.env := tables.Keys, tables, env;
      eventsMap, lastUpdateMap := map[], map[];
      new;
      var left := tables.Keys;
      while left != {}
        invariant left <= tables.Keys && eventsMap.Keys == tables.Keys - left
        invariant lastUpdateMap == map[]
        invariant forall s :: s in eventsMap ==> fresh(eventsMap[s]) && eventsMap[s].events == map[] && eventsMap[s].hash == 0
        invariant forall s, t :: s in eventsMap && t in eventsMap && s != t ==> eventsMap[s] != eventsMap[t]
        decreases left
      {
        var s :| s in left;
        var e := new Events();
        eventsMap := eventsMap[s := e];
        left := left - {s};
      }
    }

    /** The objects a request on a schema may change. */
    ghost function EventsOf(schema: string): set<Events>
      reads this
    {
      if schema in eventsMap then {eventsMap[schema]} else {}
    }

    ghost function TableOf(schema: string): set<EventTable> {
      if schema in tables then {tables[schema]} else {}
    }

    /** A loaded schema is what the state of a run says, the clock and the histories apart. */
    ghost predicate Represents(schema: string, s: CacheRuns.State)
      reads this, eventsMap.Values, tables.Values
    {
      && schema in lastUpdateMap && schema in tables && schema in eventsMap
      && tables[schema].rows == s.table && eventsMap[schema].events == s.events && eventsMap[schema].hash == s.hash
      && lastUpdateMap[schema] == s.watermark
    }

    predicate HaveSchema(schema: string) { schema in schemas }

    predicate HaveEvent(schema: string, event: string)
      requires Valid()
      reads this, eventsMap.Values, tables.Values
    {
      schema in eventsMap && eventsMap[schema].Contains(event)
    }

    function GetCurrentHash(schema: string): (hash: nat)
      requires Valid()
      reads this, eventsMap.Values, tables.Values
      ensures schema in schemas ==> hash == HashOf(env.hasher, eventsMap[schema].events)
      ensures schema !in schemas ==> hash == 0
    {
      if schema in eventsMap then eventsMap[schema].hash else 0
    }

    /** The first rows of a schema, whose cache is still empty; a broken connection leaves it so. */
    method InitialQuery(schema: string, exchange: Exchange) returns (threw: bool, ghost rows: seq<Row>)
      requires Valid() && schema in schemas && eventsMap[schema].events == map[] && schema !in lastUpdateMap
      modifies this`lastUpdateMap, eventsMap[schema]
      ensures Valid()
      ensures threw <==> exchange.connected && !exchange.answers
      ensures !exchange.connected || threw ==>
        eventsMap[schema].events == old(eventsMap[schema].events) && lastUpdateMap == old(lastUpdateMap)
      ensures exchange.connected && exchange.answers ==>
        && Latest(tables[schema].rows, 50, rows)
        && eventsMap[schema].events == Loaded(env.unpack, rows)
        && lastUpdateMap == old(lastUpdateMap)[schema := Newest(env.unpack, Lowest, rows)]
      ensures exchange.connected && exchange.answers ==>
        forall row :: row in rows && Unpacks(env.unpack, row) ==> CacheRuns.Shows(env, eventsMap[schema].events, row)
      ensures exchange.connected && exchange.answers ==>
        forall clock :: Represents(schema, CacheRuns.Initial(env, tables[schema].rows, clock, rows))
    {
      threw, rows := false, [];
      if exchange.connected {
        threw := !exchange.answers;
        if !threw {
          rows := LoadTable(schema);
          LoadedIsApplied(env.unpack, rows);
          CacheRuns.AnswerShown(env, map[], rows);
        }
      }
    }

    /** The query for the latest rows, and what it does to the cache and the watermark. */
    method LoadTable(schema: string) returns (ghost rows: seq<Row>)
      requires Valid() && schema in schemas && eventsMap[schema].events == map[]
      modifies this`lastUpdateMap, eventsMap[schema]
      ensures Valid()
      ensures Latest(tables[schema].rows, 50, rows)
      ensures eventsMap[schema].events == Loaded(env.unpack, rows)
      ensures lastUpdateMap == old(lastUpdateMap)[schema := Newest(env.unpack, Lowest, rows)]
    {
      var answer := tables[schema].LatestRows(LOAD_LIMIT);
      rows := answer;
      var events := eventsMap[schema];
      var newestUpdate := events.LoadRows(env, answer);
      forall s | s in schemas ensures eventsMap[s].Hashed(env.hasher) {
        assert s != schema ==> eventsMap[s] != events;
      }
      lastUpdateMap := lastUpdateMap[schema := newestUpdate];
    }

    /** A poll of one schema. */
    method UpdateQuery(schema: string, exchange: Exchange) returns (threw: bool, ghost rows: seq<Row>)
      requires Valid() && schema in schemas
      modifies this`lastUpdateMap, eventsMap[schema]
      ensures Valid()
      ensures threw <==> exchange.connected && (schema !in old(lastUpdateMap) || !exchange.answers)
      ensures !exchange.connected || threw ==>
        eventsMap[schema].events == old(eventsMap[schema].events) && lastUpdateMap == old(lastUpdateMap)
      ensures exchange.connected && !threw ==>
        && Answers(tables[schema].rows, old(lastUpdateMap)[schema], rows)
        && eventsMap[schema].events == Applied(env.unpack, old(eventsMap[schema].events), rows)
        && lastUpdateMap == old(lastUpdateMap)[schema := Newest(env.unpack, old(lastUpdateMap)[schema], rows)]
      ensures exchange.connected && !threw ==>
        forall row :: row in rows && Unpacks(env.unpack, row) ==> CacheRuns.Shows(env, eventsMap[schema].events, row)
      ensures exchange.connected && !threw ==>
        forall s :: old(Represents(schema, s)) ==> Represents(schema, CacheRuns.Polled(env, s, rows))
    {
      threw, rows := false, [];
      if exchange.connected {
        threw := schema !in lastUpdateMap || !exchange.answers;
        if !threw {
          ghost var before := eventsMap[schema].events;
          rows := PollTable(schema);
          CacheRuns.AnswerShown(env, before, rows);
        }
      }
    }

    /** The query for newer rows, and what it does to the cache and the watermark. */
    method PollTable(schema: string) returns (ghost rows: seq<Row>)
      requires Valid() && schema in lastUpdateMap
      modifies this`lastUpdateMap, eventsMap[schema]
      ensures Valid()
      ensures Answers(tables[schema].rows, old(lastUpdateMap)[schema], rows)
      ensures eventsMap[schema].events == Applied(env.unpack, old(eventsMap[schema].events), rows)
      ensures lastUpdateMap == old(lastUpdateMap)[schema := Newest(env.unpack, old(lastUpdateMap)[schema], rows)]
    {
      var w := lastUpdateMap[schema];
      var answer := tables[schema].NewerThan(w);
      rows := answer;
      var events := eventsMap[schema];
      var newestUpdate, updated := events.AbsorbRows(env, w, answer);
      forall s | s in schemas ensures eventsMap[s].Hashed(env.hasher) {
        assert s != schema ==> eventsMap[s] != events;
      }
      if updated {
        lastUpdateMap := lastUpdateMap[schema := newestUpdate];
      }
      assert lastUpdateMap == old(lastUpdateMap)[schema := newestUpdate];
    }

    /** What a run makes of a statement that succeeded or not and the rows of the poll after it, if there was one. */
    ghost function Reviewed(
      s: CacheRuns.State, event: string, status: string, now: int, success: bool, rows: Option<seq<Row>>): CacheRuns.State
    {
      if success then CacheRuns.Apply(env, s, CacheRuns.Review(event, status, now, rows))
      else if rows.Some? then CacheRuns.Polled(env, s, rows.value)
      else s
    }

    lemma ReviewThenPoll(s: CacheRuns.State, event: string, status: string, now: int, ok: bool, rows: Option<seq<Row>>)
      ensures Reviewed(Reviewed(s, event, status, now, ok, None), "", "", 0, false, rows) == Reviewed(s, event, status, now, ok, rows)
    {}

    /** The UPDATE statement of an accept or reject. */
    method UpdateStatus(schema: string, event: string, status: string, now: int, executes: bool) returns (ok: bool)
      requires Valid() && schema in schemas
      modifies tables[schema]
      ensures Valid() && ok == executes
      ensures tables[schema].rows ==
        if ok then CacheRuns.StatusSet(old(tables[schema].rows), event, status, now) else old(tables[schema].rows)
      ensures ok ==> CacheRuns.OnlyStatusChanged(old(tables[schema].rows), tables[schema].rows, event, status, now)
      ensures forall s :: old(Represents(schema, s)) ==> Represents(schema, Reviewed(s, event, status, now, ok, None))
    {
      ok := tables[schema].SetStatus(event, status, now, executes);
    }

    /** The poll after it, whose failure does not matter. */
    method PollAfterwards(schema: string, poll: Exchange) returns (ghost rows: Option<seq<Row>>)
      requires Valid() && schema in schemas
      modifies this`lastUpdateMap, eventsMap[schema]
      ensures Valid()
      ensures rows.Some? <==> poll.connected && poll.answers && schema in old(lastUpdateMap)
      ensures rows.Some? ==> Answers(tables[schema].rows, old(lastUpdateMap)[schema], rows.value)
      ensures forall s :: old(Represents(schema, s)) ==> Represents(schema, Reviewed(s, "", "", 0, false, rows))
    {
      var threw;
      ghost var answer;
      threw, answer := UpdateQuery(schema, poll);
      rows := if poll.connected && !threw then Some(answer) else None;
    }

    method AcceptRejectEvent(
      schema: string, event: string, status: string, now: int, connected: bool, executes: bool, poll: Exchange)
      returns (success: bool, ghost rows: Option<seq<Row>>)
      requires Valid() && schema in schemas
      modifies this`lastUpdateMap, eventsMap[schema], tables[schema]
      ensures Valid()
      ensures success <==> connected && executes
      ensures tables[schema].rows ==
        if success then CacheRuns.StatusSet(old(tables[schema].rows), event, status, now) else old(tables[schema].rows)
      ensures success ==> CacheRuns.OnlyStatusChanged(old(tables[schema].rows), tables[schema].rows, event, status, now)
      ensures rows.Some? <==> connected && poll.connected && poll.answers && schema in old(lastUpdateMap)
      ensures rows.Some? ==> Answers(tables[schema].rows, old(lastUpdateMap)[schema], rows.value)
      ensures forall s :: old(Represents(schema, s)) ==> Represents(schema, Reviewed(s, event, status, now, success, rows))
    {
      success, rows := false, None;
      if connected {
        success := UpdateStatus(schema, event, status, now, executes);
        rows := PollAfterwards(schema, poll);
        forall s | old(Represents(schema, s)) ensures Represents(schema, Reviewed(s, event, status, now, success, rows)) {
          ReviewThenPoll(s, event, status, now, success, rows);
        }
      }
    }

    /** `acceptEvent` with status "A" and `rejectEvent` with status "R". */
    method ReviewEvent(
      schema: string, event: string, status: string, now: int, connected: bool, executes: bool, poll: Exchange)
      returns (threw: bool, ghost rows: Option<seq<Row>>)
      requires Valid()
      modifies this`lastUpdateMap, EventsOf(schema), TableOf(schema)
      ensures Valid()
      ensures threw <==> !(HaveSchema(schema) && old(HaveEvent(schema, event)) && connected && executes)
      ensures !threw ==> tables[schema].rows == CacheRuns.StatusSet(old(tables[schema].rows), event, status, now)
      ensures threw && schema in schemas ==> tables[schema].rows == old(tables[schema].rows)
      ensures !threw ==> CacheRuns.OnlyStatusChanged(old(tables[schema].rows), tables[schema].rows, event, status, now)
      ensures forall s :: old(Represents(schema, s)) ==> Represents(schema, Reviewed(s, event, status, now, !threw, rows))
      ensures rows.Some? <==>
        old(HaveEvent(schema, event)) && connected && poll.connected && poll.answers && schema in old(lastUpdateMap)
      ensures rows.Some? ==> Answers(tables[schema].rows, old(lastUpdateMap)[schema], rows.value)
    {
      rows := None;
      threw := true;
      if HaveSchema(schema) && HaveEvent(schema, event) {
        var success;
        success, rows := AcceptRejectEvent(schema, event, status, now, connected, executes, poll);
        threw := !success;
      }
    }
  }
}
