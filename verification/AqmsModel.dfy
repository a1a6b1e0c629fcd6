/** The AQMS tables, the reads of the service with their ways to fail, and its three transactions. */
module AqmsModel {
  import opened Wrappers

  const MAGNITUDE_TYPE: string := "w"
  const MAGNITUDE_ALGORITHM: string := "LLNLCCT"
  const NETMAG: string := "NETMAG"

  datatype NetMagRow = NetMagRow(
    orid: int, magnitude: real, magtype: string, auth: string, subsource: string, magalgo: Option<string>,
    nsta: Option<int>, nobs: Option<int>, gap: Option<real>, distance: Option<real>, rflag: Option<string>)

  datatype EventRow = EventRow(prefor: Option<int>, prefmag: Option<int>, version: int)

  datatype PrefMag = PrefMag(evid: int, magtype: string, magid: int)

  datatype Credit = Credit(id: int, tname: string, refer: string)

  /** Origins are kept only with the event they belong to. */
  datatype Database = Database(
    netmag: map<int, NetMagRow>, prefmags: set<PrefMag>, credits: seq<Credit>, events: map<int, EventRow>, origins: map<int, int>)

  // ---------------------------------------------------------------- coda magnitudes

  predicate Coda(row: NetMagRow) {
    row.magtype == MAGNITUDE_TYPE && row.magalgo == Some(MAGNITUDE_ALGORITHM)
  }

  function CodaOn(db: Database, orid: int): set<int> {
    set m | m in db.netmag && db.netmag[m].orid == orid && Coda(db.netmag[m])
  }

  function PreferredOrigin(db: Database, evid: int): Option<int> {
    if evid in db.events then db.events[evid].prefor else None
  }

  /** The join of event, origin and netmag behind both queries for the coda magnitude. */
  function CodaOf(db: Database, evid: int): set<int> {
    var o := PreferredOrigin(db, evid);
    if o.Some? && o.value in db.origins then CodaOn(db, o.value) else {}
  }

  predicate HasCoda(db: Database, evid: int) {
    exists m :: m in CodaOf(db, evid)
  }

  /** What the queries join and select, column by column: an event, its preferred origin, and a magnitude on that. */
  ghost predicate Joined(db: Database, evid: int, orid: int, m: int) {
    && evid in db.events && db.events[evid].prefor == Some(orid) && orid in db.origins
    && m in db.netmag && db.netmag[m].orid == orid && db.netmag[m].magtype == "w" && db.netmag[m].magalgo == Some("LLNLCCT")
  }

  /** The coda magnitudes of an event are those of the join. */
  lemma CodaOfJoins(db: Database, evid: int, m: int)
    ensures m in CodaOf(db, evid) <==> exists orid :: Joined(db, evid, orid, m)
  {
    if m in CodaOf(db, evid) {
      assert Joined(db, evid, db.events[evid].prefor.value, m);
    }
  }

  // ---------------------------------------------------------------- reads

  datatype Read = Truthful | Fails | Disconnected

  /**
   * How a request fares in AQMS: its reads, the statement of the transaction that fails if any, and the choices of
   * the database: the row of a query with LIMIT 1, the new magnitude identifier, the preferred magnitude elected.
   */
  datatype Fate = Fate(
    origin: Read, exists1: Read, identifier: Read, exists2: Read, prefmag: Read, failAt: nat,
    pick: int, newMagid: int, elected: Option<int>)

  /** `getPreferredOriginIdentifier` */
  function ReadOrigin(db: Database, evid: int, read: Read): Outcome<int> {
    var o := PreferredOrigin(db, evid);
    if read.Truthful? && o.Some? && o.value != -1 then Returned(o.value) else Threw
  }

  /** `mwCodaMagnitudeExists`: a failed query reads as absence. */
  function ReadExists(db: Database, evid: int, read: Read): Outcome<bool> {
    match read
    case Disconnected => Threw
    case Fails => Returned(false)
    case Truthful => Returned(HasCoda(db, evid))
  }

  /** One row of several, as the database likes. */
  function PickOne(rows: set<int>, pick: int): (m: int)
    requires exists m :: m in rows
    ensures m in rows
  {
    if pick in rows then pick
    else
      LeastExists(rows);
      var m :| m in rows && forall other :: other in rows ==> m <= other;
      m
  }

  lemma {:induction false} LeastExists(rows: set<int>)
    requires exists m :: m in rows
    ensures exists m :: m in rows && forall other :: other in rows ==> m <= other
  {
    var x :| x in rows;
    var rest := rows - {x};
    if exists m :: m in rest {
      LeastExists(rest);
      var y :| y in rest && forall other :: other in rest ==> y <= other;
      var least := if x < y then x else y;
      assert forall other :: other in rows ==> other == x || other in rest;
      assert least in rows && forall other :: other in rows ==> least <= other;
    } else {
      assert forall other :: other in rows ==> other == x || other in rest;
      assert x in rows && forall other :: other in rows ==> x <= other;
    }
  }

  /** `getMwCodaMagnitudeIdentifier`: a failed query reads as identifier 0. */
  function ReadIdentifier(db: Database, evid: int, exists_: Read, read: Read, pick: int): Outcome<Option<int>> {
    var present := ReadExists(db, evid, exists_);
    if present.Threw? then Threw
    else if !present.value then Returned(None)
    else if !read.Truthful? then Returned(Some(0))
    else
      var m := PickOne(CodaOf(db, evid), pick);
      if m >= 0 then Returned(Some(m)) else Returned(None)
  }

  /** `getPreferredMagnitudeIdentifier`: a failed query reads as NULL. */
  function ReadPrefMag(db: Database, evid: int, read: Read): Outcome<Option<int>> {
    if read.Disconnected? then Threw
    else if read.Fails? || evid !in db.events || db.events[evid].prefmag == Some(-1) then Returned(None)
    else Returned(db.events[evid].prefmag)
  }

  // ---------------------------------------------------------------- rounding

  /** `std::round`: to the nearest integer, halves away from zero. */
  function Round(x: real): int {
    if x >= 0.0 then (x + 0.5).Floor else -((0.5 - x).Floor)
  }

  function RoundedMagnitude(m: real): real {
    Round(m * 100.0) as real / 100.0
  }

  lemma RoundingErrs(m: real)
    ensures -0.005 <= RoundedMagnitude(m) - m <= 0.005
  {}

  lemma RoundingIdempotent(m: real)
    ensures RoundedMagnitude(RoundedMagnitude(m)) == RoundedMagnitude(m)
  {
    var k := Round(m * 100.0);
    assert RoundedMagnitude(m) * 100.0 == k as real;
    assert Round(k as real) == k;
  }

  function Hundredths(k: int): real { k as real / 100.0 }

  /** The result is a whole number of hundredths, and a tie goes away from zero. */
  lemma RoundedToHundredths(m: real)
    ensures exists k: int :: RoundedMagnitude(m) == Hundredths(k)
    ensures m >= 0.0 ==> m - 0.005 < RoundedMagnitude(m) <= m + 0.005
    ensures m < 0.0 ==> m - 0.005 <= RoundedMagnitude(m) < m + 0.005
  {
    var k := Round(m * 100.0);
    assert RoundedMagnitude(m) == Hundredths(k);
  }

  /** The range check precedes the rounding: from 9.995 on, a magnitude below 10 is stored as 10. */
  lemma StoredRange(m: real)
    requires -10.0 < m < 10.0
    ensures -10.0 <= RoundedMagnitude(m) <= 10.0
    ensures -10.0 < RoundedMagnitude(m) < 10.0 <==> -9.995 < m < 9.995
  {
    var k := Round(m * 100.0);
    assert RoundedMagnitude(m) * 100.0 == k as real;
    assert -1000 <= k <= 1000;
  }

  // ---------------------------------------------------------------- ownership and consistency

  /** The magnitude is there, on an origin of the event. */
  ghost predicate BelongsTo(db: Database, magid: int, evid: int) {
    && magid in db.netmag && db.netmag[magid].orid in db.origins && db.origins[db.netmag[magid].orid] == evid
  }

  predicate CodaTwins(r: NetMagRow, s: NetMagRow) {
    Coda(r) && Coda(s) && r.orid == s.orid
  }

  ghost predicate UniqueCoda(db: Database) {
    forall m, n :: m in db.netmag && n in db.netmag && CodaTwins(db.netmag[m], db.netmag[n]) ==> m == n
  }

  ghost predicate PrefMagsLive(db: Database) {
    forall p :: p in db.prefmags ==> BelongsTo(db, p.magid, p.evid)
  }

  ghost predicate EventsConsistent(db: Database) {
    forall e :: e in db.events ==>
      && (db.events[e].prefor.Some? ==> db.events[e].prefor.value in db.origins && db.origins[db.events[e].prefor.value] == e)
      && (db.events[e].prefmag.Some? ==> BelongsTo(db, db.events[e].prefmag.value, e))
  }

  ghost predicate Inv(db: Database) {
    && UniqueCoda(db) && PrefMagsLive(db) && EventsConsistent(db)
    && forall m :: m in db.netmag ==> m >= 0
  }

  // ---------------------------------------------------------------- stored procedures and statements

  /** What the election of a preferred magnitude may choose: none, or a magnitude of the event. */
  predicate Electable(db: Database, evid: int, elected: Option<int>) {
    && evid in db.events
    && (elected.Some? ==>
         && elected.value in db.netmag && db.netmag[elected.value].orid in db.origins
         && db.origins[db.netmag[elected.value].orid] == evid)
  }

  /** epref.insertNetMag hands out a new, non-negative identifier. */
  predicate Fresh(db: Database, magid: int) {
    magid >= 0 && magid !in db.netmag
  }

  /** magpref.setPrefMagOfEvent, magpref.setPrefMagOfEventByPrefor and magpref.setPrefMag. */
  function SetPrefMag(db: Database, evid: int, prefmag: Option<int>): Database {
    if evid in db.events then db.(events := db.events[evid := db.events[evid].(prefmag := prefmag)]) else db
  }

  /** epref.bump_version */
  function BumpVersion(db: Database, evid: int): Database {
    if evid in db.events then db.(events := db.events[evid := db.events[evid].(version := db.events[evid].version + 1)]) else db
  }

  function AddPrefMag(db: Database, evid: int, magtype: string, magid: int): Database {
    db.(prefmags := db.prefmags + {PrefMag(evid, magtype, magid)})
  }

  function AddCredit(db: Database, magid: int, user: string): Database {
    db.(credits := db.credits + [Credit(magid, NETMAG, user)])
  }

  function Rounded(row: NetMagRow): NetMagRow {
    row.(magnitude := RoundedMagnitude(row.magnitude))
  }

  function InsertNetMag(db: Database, magid: int, row: NetMagRow): Database {
    db.(netmag := db.netmag[magid := Rounded(row)])
  }

  /** UPDATE NetMag ... WHERE magid: every column but the origin, on no row if there is none. */
  function UpdateNetMag(db: Database, magid: int, row: NetMagRow): Database {
    if magid in db.netmag then db.(netmag := db.netmag[magid := Rounded(row).(orid := db.netmag[magid].orid)]) else db
  }

  /** DELETE FROM NetMag WHERE magid AND magalgo */
  function DeleteNetMag(db: Database, magid: int): Database {
    if magid in db.netmag && db.netmag[magid].magalgo == Some(MAGNITUDE_ALGORITHM) then db.(netmag := db.netmag - {magid}) else db
  }

  /** DELETE FROM EventPrefMag WHERE evid AND magid */
  function DeletePrefMag(db: Database, evid: int, magid: int): Database {
    db.(prefmags := set p | p in db.prefmags && !(p.evid == evid && p.magid == magid))
  }
}
