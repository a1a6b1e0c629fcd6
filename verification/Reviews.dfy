/** Accepting and rejecting an event across two databases that share no commit. */
module Reviews {
  import opened Wrappers
  import opened Identifiers
  import opened AqmsModel
  import opened AqmsRequests
  import opened Geometry
  import opened MagnitudeDetails
  import CacheModel
  import CacheRuns
  import CctDocument
  import StationMeasurements

  /** A schema as a request finds it: AQMS, the event table, and the keys of the cached events. */
  datatype System = System(db: Database, table: CacheModel.Table, cached: set<string>)

  datatype Reason = DoesNotExist | ServerError

  datatype Reply = Reply(success: bool, reason: Option<Reason>)

  /** How the statement on the event table goes. */
  datatype Statement = Statement(connected: bool, executes: bool, now: int)

  datatype Request =
    | AcceptEvent(event: string, user: string, extracted: Extracted, fate: Fate, statement: Statement)
    | RejectEvent(event: string, fate: Fate, statement: Statement)

  // ---------------------------------------------------------------- the accepted magnitude

  /** The range check of the magnitude setter. */
  predicate Storable(x: Extracted) {
    -10.0 < x.magnitude < 10.0
  }

  /** The record built from what was extracted; the origin is set later. */
  function MagnitudeRow(x: Extracted): NetMagRow {
    NetMagRow(
      0, x.magnitude, MAGNITUDE_TYPE, "UU", "cct", Some(MAGNITUDE_ALGORITHM),
      if x.nStations >= 0 then Some(x.nStations) else None,
      if x.nObservations >= 0 then Some(x.nObservations) else None,
      if 0.0 <= x.azimuthalGap < 360.0 then Some(x.azimuthalGap) else None,
      if x.closestDistanceKM >= 0.0 then Some(x.closestDistanceKM) else None,
      Some("H"))
  }

  /** With every station solved, a gap is stored exactly when two stations lie in different directions. */
  lemma StoredGap(rays: seq<Option<Solved>>, greatest: real, x: Extracted)
    requires GeometryOf(rays, greatest, x) && AllSolved(rays)
    ensures MagnitudeRow(x).gap.Some? <==>
      exists i: nat, j: nat :: i < |rays| && j < |rays| && !SameDirection(Directions(rays)[i], Directions(rays)[j])
  {
    if rays != [] {
      FullTurnIff(Directions(rays), x.azimuthalGap);
    }
  }

  /**
   * When the solver throws, the closest distance keeps what it had reached: with distances in range, the start value
   * of the search, the greatest double, is stored exactly when the first station failed.
   */
  lemma StoredDistance(rays: seq<Option<Solved>>, greatest: real, x: Extracted)
    requires GeometryOf(rays, greatest, x) && rays != [] && greatest >= 0.0
    requires forall i :: 0 <= i < |rays| && rays[i].Some? ==> 0.0 <= Kilometres(rays[i].value) < greatest
    ensures MagnitudeRow(x).distance == Some(greatest) <==> rays[0].None?
  {}

  // ---------------------------------------------------------------- requests

  /** The AQMS side of a request: a conversion or range error throws before any write. */
  function ServeAqms(db: Database, r: Request): Outcome<Database> {
    var evid := Convert(r.event);
    if evid.Invalid? then Threw
    else if r.RejectEvent? then Reject(db, evid.value, r.fate)
    else if Storable(r.extracted) then Accept(db, evid.value, r.user, MagnitudeRow(r.extracted), r.fate)
    else Threw
  }

  function Status(r: Request): string { if r.AcceptEvent? then "A" else "R" }

  /** The reply to a request: reject says success even when something threw, and then only the reason tells. */
  function ReplyTo(r: Request, threw: bool): Reply {
    Reply(r.RejectEvent? || !threw, if threw then Some(ServerError) else None)
  }

  /** AQMS first, in its transaction; then the event table; nothing undoes the first when the second fails. */
  function Serve(sys: System, r: Request): (System, Reply) {
    if r.event !in sys.cached then (sys, Reply(false, Some(DoesNotExist)))
    else
      var aqms := ServeAqms(sys.db, r);
      if aqms.Threw? then (sys, ReplyTo(r, true))
      else if !r.statement.connected || !r.statement.executes then (sys.(db := aqms.value), ReplyTo(r, true))
      else
        var table := CacheRuns.StatusSet(sys.table, r.event, Status(r), r.statement.now);
        (sys.(db := aqms.value, table := table), ReplyTo(r, false))
  }

  /** The change of a schema, its cache apart, and the reply are those of the request. */
  ghost predicate ServedAs(before: System, after: System, r: Request, reply: Reply) {
    var (served, answer) := Serve(before, r);
    after.db == served.db && after.table == served.table && reply == answer
  }

  ghost predicate TableAfter(before: System, after: System, r: Request, done: bool) {
    after.table == if done then CacheRuns.StatusSet(before.table, r.event, Status(r), r.statement.now) else before.table
  }

  lemma ServeParts(before: System, after: System, r: Request, written: bool, done: bool)
    requires r.event in before.cached
    requires written <==> ServeAqms(before.db, r).Returned?
    requires after.db == if written then ServeAqms(before.db, r).value else before.db
    requires done <==> written && r.statement.connected && r.statement.executes
    requires TableAfter(before, after, r, done)
    ensures ServedAs(before, after, r, ReplyTo(r, !done))
  {}

  /** Everything the request does goes through: the event is there, AQMS completes, and so does the statement. */
  predicate GoesThrough(sys: System, r: Request) {
    && r.event in sys.cached && ServeAqms(sys.db, r).Returned?
    && r.statement.connected && r.statement.executes
  }

  /**
   * The reply: no reason exactly when all goes through, "does not exist" exactly for an event that is not cached; an
   * accept says success exactly without a reason, a reject whenever the event is cached.
   */
  lemma ReplyMeans(sys: System, r: Request)
    ensures Serve(sys, r).1.reason == None <==> GoesThrough(sys, r)
    ensures Serve(sys, r).1.reason == Some(DoesNotExist) <==> r.event !in sys.cached
    ensures Serve(sys, r).1.reason == Some(ServerError) <==> r.event in sys.cached && !GoesThrough(sys, r)
    ensures r.AcceptEvent? ==> (Serve(sys, r).1.success <==> GoesThrough(sys, r))
    ensures r.RejectEvent? ==> (Serve(sys, r).1.success <==> r.event in sys.cached)
  {}

  /** When the statement fails after AQMS completed, AQMS keeps its change and the event table has none. */
  lemma HalfDone(sys: System, r: Request)
    ensures Serve(sys, r).0.cached == sys.cached
    ensures Serve(sys, r).0.table != sys.table ==> GoesThrough(sys, r)
    ensures Serve(sys, r).0.db == if r.event in sys.cached && ServeAqms(sys.db, r).Returned? then ServeAqms(sys.db, r).value else sys.db
  {}

  /** AQMS is served for the event the identifier converts to; a magnitude out of range fails before anything else. */
  lemma AqmsServedFor(sys: System, r: Request)
    ensures ServeAqms(sys.db, r).Returned? ==> Convert(r.event).Identifier?
    ensures r.RejectEvent? && Convert(r.event).Identifier? ==> ServeAqms(sys.db, r) == Reject(sys.db, Convert(r.event).value, r.fate)
    ensures r.AcceptEvent? && Convert(r.event).Identifier? && -10.0 < r.extracted.magnitude < 10.0 ==>
      ServeAqms(sys.db, r) == Accept(sys.db, Convert(r.event).value, r.user, MagnitudeRow(r.extracted), r.fate)
    ensures r.AcceptEvent? && !(-10.0 < r.extracted.magnitude < 10.0) ==> ServeAqms(sys.db, r).Threw?
  {}

  // ---------------------------------------------------------------- what a reply guarantees

  /** The event has a row in the table. */
  ghost predicate InTable(table: CacheModel.Table, event: string) {
    exists id :: id in table && ToString(id) == event
  }

  /** It has one, with this status. */
  ghost predicate Marked(table: CacheModel.Table, event: string, status: string) {
    exists id :: id in table && ToString(id) == event && table[id].reviewStatus == Some(status)
  }

  /** Every row of the event has this status. */
  ghost predicate HasStatus(table: CacheModel.Table, event: string, status: string) {
    forall id :: id in table && ToString(id) == event ==> table[id].reviewStatus == Some(status)
  }

  /** The statement marks the row of the event exactly when there is one; without one it succeeds all the same. */
  lemma StatusMarks(table: CacheModel.Table, event: string, status: string, now: int)
    ensures var after := CacheRuns.StatusSet(table, event, status, now);
      && CacheRuns.OnlyStatusChanged(table, after, event, status, now)
      && HasStatus(after, event, status) && (Marked(after, event, status) <==> InTable(table, event))
  {
    var after := CacheRuns.StatusSet(table, event, status, now);
    if id :| id in table && ToString(id) == event {
      assert id in after && after[id].reviewStatus == Some(status);
    }
  }

  /**
   * From any consistent state, an accept that replies success leaves exactly one coda magnitude on the preferred
   * origin, the extracted one rounded to two decimals, and status "A" exactly when the table still has the event.
   */
  lemma AcceptDelivers(sys: System, r: Request)
    requires r.AcceptEvent? && Inv(sys.db) && Honest(r.fate) && Serve(sys, r).1.success
    ensures Convert(r.event).Identifier? && Storable(r.extracted)
    ensures Carries(Serve(sys, r).0.db, Convert(r.event).value, MagnitudeRow(r.extracted))
    ensures Marked(Serve(sys, r).0.table, r.event, "A") <==> InTable(sys.table, r.event)
    ensures HasStatus(Serve(sys, r).0.table, r.event, "A")
    ensures CacheRuns.OnlyStatusChanged(sys.table, Serve(sys, r).0.table, r.event, "A", r.statement.now)
    ensures Serve(sys, r).1.reason == None
  {
    CacheRuns.StatusSetChanges(sys.table, r.event, "A", r.statement.now);
    AcceptHonest(sys.db, Convert(r.event).value, r.user, MagnitudeRow(r.extracted), r.fate);
    StatusMarks(sys.table, r.event, "A", r.statement.now);
  }

  predicate NearMagnitude(stored: real, extracted: real) {
    -0.005 <= stored - extracted <= 0.005 && RoundedMagnitude(stored) == stored
  }

  /** The magnitude stored is within half a hundredth of the extracted one. */
  lemma DeliveredMagnitude(db: Database, evid: int, x: Extracted)
    requires Carries(db, evid, MagnitudeRow(x))
    ensures exists m :: CodaOf(db, evid) == {m} && NearMagnitude(db.netmag[m].magnitude, x.magnitude)
  {
    RoundingErrs(x.magnitude);
    RoundingIdempotent(x.magnitude);
  }

  /** The number of stations the document gives, if it is one. */
  function StationsGiven(doc: CctDocument.Document, event: string): Option<int> {
    if event in doc.measuredMwDetails && doc.measuredMwDetails[event].mw.Holds? && doc.measuredMwDetails[event].stationCount.Holds?
       && doc.measuredMwDetails[event].stationCount.value >= 0
    then Some(doc.measuredMwDetails[event].stationCount.value) else None
  }

  /** The gap and distance of a row are those of the rays: the gap if it is less than a full turn and all were solved. */
  ghost predicate GeometryStored(row: NetMagRow, rays: seq<Option<Solved>>, greatest: real) {
    && (rays == [] ==> row.gap == None && row.distance == None)
    && (!AllSolved(rays) ==> row.gap == None)
    && (rays != [] && AllSolved(rays) ==>
         exists gap :: IsGap(Directions(rays), gap) && row.gap == if gap < 360.0 then Some(gap) else None)
    && (rays != [] ==>
         row.distance == if Closest(rays, greatest) >= 0.0 then Some(Closest(rays, greatest)) else None)
  }

  /** Every column of the magnitude that an accept leaves, in terms of the document of the event. */
  lemma StoredColumns(db: Database, evid: int, doc: CctDocument.Document, event: string, solve: Solver, greatest: real, x: Extracted, m: int)
    requires Storable(x) && ExtractedFrom(doc, event, solve, greatest, x)
    requires Carries(db, evid, MagnitudeRow(x)) && m in CodaOf(db, evid)
    ensures var row := db.netmag[m];
      && event in doc.measuredMwDetails && doc.measuredMwDetails[event].mw.Holds?
      && row.magnitude == RoundedMagnitude(doc.measuredMwDetails[event].mw.value)
      && Some(row.orid) == PreferredOrigin(db, evid)
      && row.magtype == "w" && row.auth == "UU" && row.subsource == "cct" && row.magalgo == Some("LLNLCCT") && row.rflag == Some("H")
      && row.nsta == StationsGiven(doc, event)
    ensures Readable(doc, event) ==>
      && db.netmag[m].nobs == Some(|StationMeasurements.NumericPositions(
           if event in doc.spectraMeasurements then doc.spectraMeasurements[event] else [])|)
      && exists rays :: RaysFrom(doc, event, solve, rays) && GeometryStored(db.netmag[m], rays, greatest)
    ensures !Readable(doc, event) ==> db.netmag[m].nobs == None && db.netmag[m].gap == None && db.netmag[m].distance == None
  {
    var row := db.netmag[m];
    assert row == Rounded(MagnitudeRow(x)).(orid := row.orid);
    if Readable(doc, event) {
      var rays :| RaysFrom(doc, event, solve, rays) && GeometryOf(rays, greatest, x);
      RowGeometry(row, rays, greatest, x);
    }
  }

  lemma RowGeometry(row: NetMagRow, rays: seq<Option<Solved>>, greatest: real, x: Extracted)
    requires GeometryOf(rays, greatest, x) && row.gap == MagnitudeRow(x).gap && row.distance == MagnitudeRow(x).distance
    ensures GeometryStored(row, rays, greatest)
  {
    if rays != [] && AllSolved(rays) {
      assert IsGap(Directions(rays), x.azimuthalGap);
    }
  }

  /**
   * A reject that replies without a reason leaves no coda magnitude on the preferred origin, and status "R" exactly when
   * the table still has the event.
   */
  lemma RejectDelivers(sys: System, r: Request)
    requires r.RejectEvent? && Inv(sys.db) && Honest(r.fate) && Serve(sys, r).1.reason == None
    ensures Convert(r.event).Identifier?
    ensures !HasCoda(Serve(sys, r).0.db, Convert(r.event).value)
    ensures Marked(Serve(sys, r).0.table, r.event, "R") <==> InTable(sys.table, r.event)
    ensures HasStatus(Serve(sys, r).0.table, r.event, "R")
    ensures CacheRuns.OnlyStatusChanged(sys.table, Serve(sys, r).0.table, r.event, "R", r.statement.now)
  {
    CacheRuns.StatusSetChanges(sys.table, r.event, "R", r.statement.now);
    RejectHonest(sys.db, Convert(r.event).value, r.fate);
    StatusMarks(sys.table, r.event, "R", r.statement.now);
  }

  /**
   * Without the assumption on the reads: a reject without a reason left a coda magnitude exactly when a failed read hid
   * it, and damaged other events exactly when identifier 0 stood for it and was theirs.
   */
  lemma RejectDeliversExactly(sys: System, r: Request)
    requires r.RejectEvent? && Inv(sys.db) && Serve(sys, r).1.reason == None
    ensures Convert(r.event).Identifier?
    ensures var evid, f := Convert(r.event).value, r.fate;
      HasCoda(Serve(sys, r).0.db, evid) <==>
      HasCoda(sys.db, evid) && (f.exists1.Fails? || f.exists2.Fails? || MistakenForZero(sys.db, evid, f.exists2, f))
    ensures Inv(Serve(sys, r).0.db) <==> RejectHarmless(sys.db, Convert(r.event).value, r.fate)
    ensures Marked(Serve(sys, r).0.table, r.event, "R") <==> InTable(sys.table, r.event)
  {
    RejectExactly(sys.db, Convert(r.event).value, r.fate);
    RejectInvExactly(sys.db, Convert(r.event).value, r.fate);
    StatusMarks(sys.table, r.event, "R", r.statement.now);
  }

  /** An event of AQMS without a coda magnitude, and an accept and a reject of it without faults. */
  const KNOWN_EVENT: Database := Database(map[], {}, [], map[1 := EventRow(Some(100), None, 0)], map[100 := 1])
  const NO_FAULTS: Fate := Fate(Truthful, Truthful, Truthful, Truthful, Truthful, 0, 0, 5, None)
  const EXECUTED: Statement := Statement(true, true, 0)

  /** With its row deleted and the event still cached, both reply success without a reason, and no row is marked. */
  lemma DeletedRowGoesUnnoticed()
    ensures var sys := System(KNOWN_EVENT, map[], {"1"});
      var accept, reject := AcceptEvent("1", "", UNSET.(magnitude := 4.0), NO_FAULTS, EXECUTED), RejectEvent("1", NO_FAULTS, EXECUTED);
      && Inv(sys.db)
      && Serve(sys, accept).1 == Reply(true, None) && !Marked(Serve(sys, accept).0.table, "1", "A")
      && Serve(sys, reject).1 == Reply(true, None) && !Marked(Serve(sys, reject).0.table, "1", "R")
  {
    KeyConversion(1);
    assert ToString(1) == "1";
    assert CodaOf(KNOWN_EVENT, 1) == {};
  }

  /**
   * AQMS and the event table change only for a magnitude that was read from the event and lies strictly between -10
   * and 10: the value that stands for none is refused before any write.
   */
  lemma UnreadMagnitudeNeverStored(sys: System, r: Request, doc: CctDocument.Document)
    requires r.AcceptEvent?
    requires r.extracted.magnitude == (if ReadMw(doc, r.event).Some? then ReadMw(doc, r.event).value else -10.0)
    ensures Serve(sys, r).0 != sys || Serve(sys, r).1.success ==>
      ReadMw(doc, r.event).Some? && -10.0 < ReadMw(doc, r.event).value < 10.0
  {}

  /** The row with the identifier has the status and the stamp, and every other row is as it was. */
  ghost predicate OnlyRowChanged(before: CacheModel.Table, after: CacheModel.Table, target: int, status: string, now: int) {
    && before.Keys == after.Keys
    && forall id :: id in before ==>
         if id == target then after[id].reviewStatus == Some(status) && after[id].lastUpdate == now else after[id] == before[id]
  }

  /**
   * For every cached key of every reachable cache: a review changes the row whose identifier is the one addressed in
   * AQMS, and no other row.
   */
  lemma SameEvent(env: CacheRuns.Env, s: CacheRuns.State, event: string, status: string, now: int, rows: Option<seq<CacheModel.Row>>)
    requires CacheRuns.Inv(env, s) && event in s.events && Convert(event).Identifier?
    ensures OnlyRowChanged(
      s.table, CacheRuns.Apply(env, s, CacheRuns.Review(event, status, now, rows)).table, Convert(event).value, status, now)
  {
    forall id: Int64 ensures ToString(id) == event <==> id == Convert(event).value {
      KeyAddresses(env, s, event, id);
    }
    CacheRuns.ReviewChanges(env, s, event, status, now, rows);
    AddressedRow(s.table, CacheRuns.Apply(env, s, CacheRuns.Review(event, status, now, rows)).table, event, status, now, Convert(event).value);
  }

  lemma AddressedRow(before: CacheModel.Table, after: CacheModel.Table, event: string, status: string, now: int, target: int)
    requires CacheRuns.OnlyStatusChanged(before, after, event, status, now)
    requires forall id: Int64 :: ToString(id) == event <==> id == target
    ensures OnlyRowChanged(before, after, target, status, now)
  {}

  lemma KeyAddresses(env: CacheRuns.Env, s: CacheRuns.State, event: string, id: Int64)
    requires CacheRuns.Inv(env, s) && event in s.events && Convert(event).Identifier?
    ensures ToString(id) == event <==> id == Convert(event).value
  {
    CacheRuns.CachedKeyConverts(env, s, event);
    var key: Int64 :| event == ToString(key) && Convert(event) == if key >= 0 then Identifier(key) else Invalid;
    if ToString(id) == event {
      KeysDiffer(id, key);
    }
  }

  // ---------------------------------------------------------------- runs

  /** Other writers of AQMS: they leave the coda magnitudes alone and their own tables consistent. */
  ghost predicate OthersMove(db: Database, db': Database) {
    && (forall m :: m in db.netmag && Coda(db.netmag[m]) ==> m in db'.netmag && db'.netmag[m] == db.netmag[m])
    && (forall m :: m in db'.netmag && Coda(db'.netmag[m]) ==> m in db.netmag && Coda(db.netmag[m]))
    && PrefMagsLive(db') && EventsConsistent(db')
    && (forall m :: m in db'.netmag ==> m >= 0)
  }

  /** A request served, or anything else: other AQMS writers, writes to the event table, polls. */
  datatype Move = Served(request: Request) | Others

  ghost predicate Step(s: System, move: Move, s': System) {
    match move
    case Served(r) => s' == Serve(s, r).0
    case Others => OthersMove(s.db, s'.db)
  }

  ghost predicate Run(states: seq<System>, moves: seq<Move>) {
    |states| == |moves| + 1 && forall i :: 0 <= i < |moves| ==> Step(states[i], moves[i], states[i + 1])
  }

  /** If the AQMS part of the request goes through, none of its failed reads does harm. */
  ghost predicate Harmless(s: System, r: Request) {
    r.event in s.cached && ServeAqms(s.db, r).Returned? ==>
      if r.AcceptEvent? then AcceptHarmless(s.db, Convert(r.event).value, r.fate)
      else RejectHarmless(s.db, Convert(r.event).value, r.fate)
  }

  ghost predicate HarmlessMove(s: System, move: Move) { move.Served? ==> Harmless(s, move.request) }

  /** A served request with truthful reads keeps AQMS consistent and touches at most the coda magnitude of its own event. */
  lemma ServeKeepsInv(s: System, r: Request)
    requires Inv(s.db) && Honest(r.fate)
    ensures Inv(Serve(s, r).0.db)
    ensures Serve(s, r).0.db == s.db
      || exists m :: Eligible(s.db, Convert(r.event).value, m) && TouchesOnly(s.db, Serve(s, r).0.db, Convert(r.event).value, m)
  {
    if r.event in s.cached && ServeAqms(s.db, r).Returned? {
      if r.AcceptEvent? {
        AcceptHonest(s.db, Convert(r.event).value, r.user, MagnitudeRow(r.extracted), r.fate);
      } else {
        RejectHonest(s.db, Convert(r.event).value, r.fate);
      }
    }
  }

  /** For any reads: a served request keeps AQMS consistent exactly when it is harmless. */
  lemma ServeInvExactly(s: System, r: Request)
    requires Inv(s.db)
    ensures Inv(Serve(s, r).0.db) <==> Harmless(s, r)
  {
    if r.event in s.cached && ServeAqms(s.db, r).Returned? {
      if r.AcceptEvent? {
        AcceptInvExactly(s.db, Convert(r.event).value, r.user, MagnitudeRow(r.extracted), r.fate);
      } else {
        RejectInvExactly(s.db, Convert(r.event).value, r.fate);
      }
    }
  }

  lemma HonestMoveIsHarmless(s: System, r: Request)
    requires Honest(r.fate)
    ensures Harmless(s, r)
  {
    if Convert(r.event).Identifier? {
      HonestIsHarmless(s.db, Convert(r.event).value, r.fate);
    }
  }

  lemma OthersKeepInv(db: Database, db': Database)
    requires Inv(db) && OthersMove(db, db')
    ensures Inv(db')
  {
    forall m, n | m in db'.netmag && n in db'.netmag && CodaTwins(db'.netmag[m], db'.netmag[n]) ensures m == n {
      assert CodaTwins(db.netmag[m], db.netmag[n]);
    }
  }

  lemma StepInvExactly(s: System, move: Move, s': System)
    requires Inv(s.db) && Step(s, move, s')
    ensures Inv(s'.db) <==> HarmlessMove(s, move)
  {
    match move {
      case Served(r) => ServeInvExactly(s, r);
      case Others => OthersKeepInv(s.db, s'.db);
    }
  }

  /**
   * Over every run of requests, with faults before, within and after the transaction and with reads that fail silently,
   * and of moves by others: in every state no origin holds two coda magnitudes and every preferred-magnitude row and
   * event names a live magnitude of its event, exactly when every request served so far was harmless.
   */
  lemma {:induction false} RunInvExactly(states: seq<System>, moves: seq<Move>, n: nat)
    requires Run(states, moves) && n < |states| && Inv(states[0].db)
    ensures (forall i :: 0 <= i <= n ==> Inv(states[i].db)) <==> (forall i :: 0 <= i < n ==> HarmlessMove(states[i], moves[i]))
  {
    if n > 0 {
      RunInvExactly(states, moves, n - 1);
      if Inv(states[n - 1].db) {
        assert Step(states[n - 1], moves[n - 1], states[n - 1 + 1]);
        StepInvExactly(states[n - 1], moves[n - 1], states[n]);
      }
    }
  }

  /** With existence and identifier queries that answer truthfully or break off, every state of every run is consistent. */
  lemma RunKeepsInv(states: seq<System>, moves: seq<Move>, n: nat)
    requires Run(states, moves) && n < |states| && Inv(states[0].db)
    requires forall i :: 0 <= i < n && moves[i].Served? ==> Honest(moves[i].request.fate)
    ensures Inv(states[n].db)
  {
    forall i | 0 <= i < n ensures HarmlessMove(states[i], moves[i]) {
      if moves[i].Served? {
        HonestMoveIsHarmless(states[i], moves[i].request);
      }
    }
    RunInvExactly(states, moves, n);
  }

  /** The event is in AQMS with a preferred origin; -1 is the code's own mark for none. */
  predicate KnownToAqms(db: Database, evid: int) {
    PreferredOrigin(db, evid).Some? && PreferredOrigin(db, evid) != Some(-1)
  }

  /** Magnitude m is, or will be once inserted, one of the event. */
  predicate MayBeElected(db: Database, evid: int, f: Fate, m: int) {
    || (m == f.newMagid && !HasCoda(db, evid))
    || (m in db.netmag && db.netmag[m].orid in db.origins && db.origins[db.netmag[m].orid] == evid)
  }

  /** A fate without faults, whose database choices meet their contracts. */
  predicate Faultless(db: Database, evid: int, f: Fate) {
    && f.origin.Truthful? && f.exists1.Truthful? && f.identifier.Truthful? && f.exists2.Truthful? && f.prefmag.Truthful?
    && f.failAt == 0 && Fresh(db, f.newMagid) && (f.elected.Some? ==> MayBeElected(db, evid, f, f.elected.value))
  }

  /** Without faults an accept succeeds exactly when the event is cached, known to AQMS and has a magnitude in range. */
  lemma FaultlessAccept(sys: System, r: Request)
    requires r.AcceptEvent? && Inv(sys.db) && r.statement.connected && r.statement.executes
    requires Convert(r.event).Identifier? ==> Faultless(sys.db, Convert(r.event).value, r.fate)
    ensures Serve(sys, r).1.success <==>
      && r.event in sys.cached && Convert(r.event).Identifier? && Storable(r.extracted)
      && KnownToAqms(sys.db, Convert(r.event).value)
  {
    if Convert(r.event).Identifier? && KnownToAqms(sys.db, Convert(r.event).value) {
      FaultlessAcceptReturns(sys.db, Convert(r.event).value, r.user, MagnitudeRow(r.extracted), r.fate);
    }
  }

  lemma FaultlessAcceptReturns(db: Database, evid: int, user: string, magnitude: NetMagRow, f: Fate)
    requires Inv(db) && Faultless(db, evid, f) && KnownToAqms(db, evid)
    ensures Accept(db, evid, user, magnitude, f).Returned?
  {
    if HasCoda(db, evid) {
      assert PickOne(CodaOf(db, evid), f.pick) in CodaOf(db, evid);
    }
  }

  /**
   * After any run whose requests were harmless, whatever partial failures it left, an accept without faults of a cached
   * event that AQMS knows delivers: the two databases agree again, if the table still has the event.
   */
  lemma RetryRepairs(states: seq<System>, moves: seq<Move>, n: nat, r: Request)
    requires Run(states, moves) && n < |states| && Inv(states[0].db)
    requires forall i :: 0 <= i < n ==> HarmlessMove(states[i], moves[i])
    requires r.AcceptEvent? && r.event in states[n].cached && Convert(r.event).Identifier? && Storable(r.extracted)
    requires Faultless(states[n].db, Convert(r.event).value, r.fate) && r.statement.connected && r.statement.executes
    requires KnownToAqms(states[n].db, Convert(r.event).value)
    ensures Serve(states[n], r).1 == Reply(true, None)
    ensures Carries(Serve(states[n], r).0.db, Convert(r.event).value, MagnitudeRow(r.extracted))
    ensures Marked(Serve(states[n], r).0.table, r.event, "A") <==> InTable(states[n].table, r.event)
    ensures HasStatus(Serve(states[n], r).0.table, r.event, "A")
  {
    RunInvExactly(states, moves, n);
    FaultlessAccept(states[n], r);
    AcceptDelivers(states[n], r);
  }
}
