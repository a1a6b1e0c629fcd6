/** The AQMS side of an accept and of a reject: reads, then one transaction, rolled back if a statement fails. */
module AqmsRequests {
  import opened Wrappers
  import opened AqmsModel

  // ---------------------------------------------------------------- the transactions

  /** The preferred-magnitude logic runs only when no preferred magnitude was read. */
  function InsertStatements(current: Option<int>): set<nat> {
    if current.None? then {1, 2, 3, 5, 6} else {1, 2, 3, 4, 5, 6}
  }

  function UpdateStatements(current: Option<int>): set<nat> {
    if current.None? then {1, 2, 5, 6} else {1, 2, 3, 4, 5, 6}
  }

  const DELETE_STATEMENTS: set<nat> := {1, 2, 3, 4}

  function Insert(db: Database, evid: int, user: string, row: NetMagRow, current: Option<int>, f: Fate): Outcome<Database> {
    var db1 := InsertNetMag(db, f.newMagid, row);
    if f.failAt in InsertStatements(current) || !Fresh(db, f.newMagid) || evid !in db.events
       || (current.None? && !Electable(db1, evid, f.elected))
    then Threw
    else
      var db2 := SetPrefMag(db1, evid, if current.None? then f.elected else current);
      var db3 := AddPrefMag(db2, evid, row.magtype, f.newMagid);
      var db4 := if current.None? then db3 else BumpVersion(db3, evid);
      Returned(AddCredit(db4, f.newMagid, user))
  }

  function Update(
    db: Database, evid: int, user: string, magid: int, row: NetMagRow, current: Option<int>, f: Fate): Outcome<Database>
  {
    var db1 := UpdateNetMag(db, magid, row);
    if f.failAt in UpdateStatements(current) || evid !in db.events
       || (current.None? && !Electable(db1, evid, f.elected))
    then Threw
    else if current.None? then Returned(AddCredit(SetPrefMag(db1, evid, f.elected), magid, user))
    else
      var db2 := AddPrefMag(SetPrefMag(db1, evid, current), evid, row.magtype, magid);
      Returned(AddCredit(BumpVersion(db2, evid), magid, user))
  }

  function Delete(db: Database, evid: int, magid: int, current: Option<int>, f: Fate): Outcome<Database> {
    var db2 := DeletePrefMag(DeleteNetMag(db, magid), evid, magid);
    var elect := current.None? || current == Some(magid);
    if f.failAt in DELETE_STATEMENTS || evid !in db.events || (elect && !Electable(db2, evid, f.elected)) then Threw
    else Returned(if elect then SetPrefMag(db2, evid, f.elected) else BumpVersion(db2, evid))
  }

  // ---------------------------------------------------------------- the client calls

  /** `insertNetworkMagnitude`: refused when a coda magnitude is read to exist. */
  function InsertCall(db: Database, evid: int, user: string, row: NetMagRow, f: Fate): Outcome<Database> {
    var again, current := ReadExists(db, evid, f.exists2), ReadPrefMag(db, evid, f.prefmag);
    if again.Threw? || again.value || current.Threw? then Threw else Insert(db, evid, user, row, current.value, f)
  }

  /** `updateNetworkMagnitude`: refused when none is read to exist. */
  function UpdateCall(db: Database, evid: int, user: string, magid: int, row: NetMagRow, f: Fate): Outcome<Database> {
    var again, current := ReadExists(db, evid, f.exists2), ReadPrefMag(db, evid, f.prefmag);
    if again.Threw? || !again.value || current.Threw? then Threw else Update(db, evid, user, magid, row, current.value, f)
  }

  /** `deleteNetworkMagnitude`: nothing to do when no identifier is read. */
  function DeleteCall(db: Database, evid: int, f: Fate): Outcome<Database> {
    var identifier, current := ReadIdentifier(db, evid, f.exists2, f.identifier, f.pick), ReadPrefMag(db, evid, f.prefmag);
    if identifier.Threw? then Threw
    else if identifier.value.None? then Returned(db)
    else if current.Threw? then Threw
    else Delete(db, evid, identifier.value.value, current.value, f)
  }

  // ---------------------------------------------------------------- the requests

  /** Update or insert, whichever the existence read calls for; no value when anything throws. */
  function Accept(db: Database, evid: int, user: string, magnitude: NetMagRow, f: Fate): Outcome<Database> {
    var origin := ReadOrigin(db, evid, f.origin);
    if origin.Threw? then Threw
    else
      var row := magnitude.(orid := origin.value);
      var identifier := ReadIdentifier(db, evid, f.exists1, f.identifier, f.pick);
      if identifier.Threw? then Threw
      else if identifier.value.Some? then UpdateCall(db, evid, user, identifier.value.value, row, f)
      else InsertCall(db, evid, user, row, f)
  }

  function Reject(db: Database, evid: int, f: Fate): Outcome<Database> {
    var present := ReadExists(db, evid, f.exists1);
    if present.Threw? then Threw
    else if !present.value then Returned(db)
    else DeleteCall(db, evid, f)
  }

  // ---------------------------------------------------------------- what a request may touch

  /** One coda magnitude on the preferred origin, and it is the given row, rounded. */
  ghost predicate Carries(db: Database, evid: int, row: NetMagRow) {
    var o := PreferredOrigin(db, evid);
    && o.Some?
    && exists m :: CodaOf(db, evid) == {m} && db.netmag[m] == Rounded(row).(orid := o.value)
  }

  /**
   * Nothing else than magnitude m of the event changes: the other magnitudes, the preferred-magnitude rows of other
   * magnitudes or events, the other events, all origins, and the credits already given.
   */
  ghost predicate TouchesOnly(db: Database, db': Database, evid: int, m: int) {
    && (forall n :: n != m ==> (n in db.netmag <==> n in db'.netmag))
    && (forall n :: n != m && n in db.netmag ==> db'.netmag[n] == db.netmag[n])
    && (forall p: PrefMag :: p.evid != evid || p.magid != m ==> (p in db.prefmags <==> p in db'.prefmags))
    && db'.events.Keys == db.events.Keys
    && (forall e :: e in db.events && e != evid ==> db'.events[e] == db.events[e])
    && PreferredOrigin(db', evid) == PreferredOrigin(db, evid)
    && db'.origins == db.origins
    && db.credits <= db'.credits
  }

  lemma InsertTouches(db: Database, evid: int, user: string, row: NetMagRow, current: Option<int>, f: Fate)
    requires Insert(db, evid, user, row, current, f).Returned?
    ensures TouchesOnly(db, Insert(db, evid, user, row, current, f).value, evid, f.newMagid)
  {}

  lemma UpdateTouches(db: Database, evid: int, user: string, magid: int, row: NetMagRow, current: Option<int>, f: Fate)
    requires Update(db, evid, user, magid, row, current, f).Returned?
    ensures TouchesOnly(db, Update(db, evid, user, magid, row, current, f).value, evid, magid)
  {}

  lemma DeleteTouches(db: Database, evid: int, magid: int, current: Option<int>, f: Fate)
    requires Delete(db, evid, magid, current, f).Returned?
    ensures TouchesOnly(db, Delete(db, evid, magid, current, f).value, evid, magid)
  {}

  // ---------------------------------------------------------------- what a transaction enters

  /**
   * A completed transaction for magnitude m of the event leaves this event row, given whether a preferred magnitude was
   * read: with one it stays preferred and the version grows by one, without one the elected magnitude is preferred.
   */
  ghost predicate EventAfter(db: Database, db': Database, evid: int, preferredRead: bool, elected: Option<int>) {
    && evid in db.events && evid in db'.events
    && db'.events[evid].prefor == db.events[evid].prefor
    && db'.events[evid].prefmag == (if preferredRead then db.events[evid].prefmag else elected)
    && db'.events[evid].version == db.events[evid].version + (if preferredRead then 1 else 0)
  }

  /** The magnitude row of an insert or update: every column given, the magnitude rounded, and the origin. */
  ghost predicate RowEntered(db': Database, m: int, row: NetMagRow, orid: int) {
    && m in db'.netmag
    && var r := db'.netmag[m];
      && r.orid == orid && r.magnitude == RoundedMagnitude(row.magnitude)
      && r.magtype == row.magtype && r.auth == row.auth && r.subsource == row.subsource && r.magalgo == row.magalgo
      && r.nsta == row.nsta && r.nobs == row.nobs && r.gap == row.gap && r.distance == row.distance && r.rflag == row.rflag
  }

  ghost predicate Credited(db: Database, db': Database, m: int, user: string) {
    db'.credits == db.credits + [Credit(m, "NETMAG", user)]
  }

  /** The preferred-magnitude rows are those before and, if entered, the one of the new or updated magnitude. */
  ghost predicate PrefMagsAfter(db: Database, db': Database, evid: int, magtype: string, m: int, entered: bool) {
    forall p: PrefMag :: p in db'.prefmags <==>
      p in db.prefmags || (entered && p.evid == evid && p.magtype == magtype && p.magid == m)
  }

  /** An insert enters the magnitude, the preferred-magnitude row and the credit; the event is left as it should be. */
  lemma InsertEnters(db: Database, evid: int, user: string, row: NetMagRow, current: Option<int>, f: Fate)
    requires Insert(db, evid, user, row, current, f).Returned?
    requires current.Some? ==> current == db.events[evid].prefmag
    ensures var db' := Insert(db, evid, user, row, current, f).value;
      && RowEntered(db', f.newMagid, row, row.orid)
      && PrefMagsAfter(db, db', evid, row.magtype, f.newMagid, true)
      && EventAfter(db, db', evid, current.Some?, f.elected)
      && Credited(db, db', f.newMagid, user)
  {}

  /** An update overwrites the magnitude, if it is there, and enters a preferred-magnitude row only if one was preferred. */
  lemma UpdateEnters(db: Database, evid: int, user: string, m: int, row: NetMagRow, current: Option<int>, f: Fate)
    requires Update(db, evid, user, m, row, current, f).Returned?
    requires current.Some? ==> current == db.events[evid].prefmag
    ensures var db' := Update(db, evid, user, m, row, current, f).value;
      && (m in db.netmag ==> RowEntered(db', m, row, db.netmag[m].orid))
      && (m !in db.netmag ==> m !in db'.netmag)
      && PrefMagsAfter(db, db', evid, row.magtype, m, current.Some?)
      && EventAfter(db, db', evid, current.Some?, f.elected)
      && Credited(db, db', m, user)
  {}

  /** A delete removes the magnitude and exactly its preferred-magnitude rows of the event, and credits nobody. */
  lemma DeleteRemoves(db: Database, evid: int, m: int, current: Option<int>, f: Fate)
    requires Delete(db, evid, m, current, f).Returned?
    requires current.Some? ==> current == db.events[evid].prefmag
    ensures Removed(db, Delete(db, evid, m, current, f).value, evid, m, current.Some?, f.elected)
  {}

  ghost predicate Removed(db: Database, db': Database, evid: int, m: int, preferredRead: bool, elected: Option<int>) {
    && (m in db'.netmag <==> m in db.netmag && db.netmag[m].magalgo != Some("LLNLCCT"))
    && (m in db'.netmag ==> db'.netmag[m] == db.netmag[m])
    && (forall p: PrefMag :: p in db'.prefmags <==> p in db.prefmags && !(p.evid == evid && p.magid == m))
    && db'.credits == db.credits
    && evid in db.events && EventAfter(db, db', evid, preferredRead && db.events[evid].prefmag != Some(m), elected)
  }

  // ---------------------------------------------------------------- truthful reads

  /** No existence or identifier query fails silently. */
  predicate Honest(f: Fate) {
    !f.exists1.Fails? && !f.exists2.Fails? && f.identifier.Truthful?
  }

  lemma CodaIsSingle(db: Database, evid: int, m: int)
    requires UniqueCoda(db) && m in CodaOf(db, evid)
    ensures CodaOf(db, evid) == {m}
  {
    forall n | n in CodaOf(db, evid) ensures n == m {
      assert CodaTwins(db.netmag[n], db.netmag[m]);
    }
  }

  /** What the preferred-magnitude read says, when it answers at all: the value, or none. */
  lemma CurrentIsPrefMag(db: Database, evid: int, read: Read)
    requires Inv(db) && ReadPrefMag(db, evid, read).Returned? && ReadPrefMag(db, evid, read).value.Some?
    ensures evid in db.events && ReadPrefMag(db, evid, read).value == db.events[evid].prefmag
  {}

  lemma InsertCarries(db: Database, evid: int, user: string, row: NetMagRow, current: Option<int>, f: Fate)
    requires Insert(db, evid, user, row, current, f).Returned?
    requires Coda(row) && PreferredOrigin(db, evid) == Some(row.orid) && row.orid in db.origins && !HasCoda(db, evid)
    ensures CodaOf(Insert(db, evid, user, row, current, f).value, evid) == {f.newMagid}
    ensures Carries(Insert(db, evid, user, row, current, f).value, evid, row)
  {
    var db' := Insert(db, evid, user, row, current, f).value;
    forall n ensures n in CodaOf(db', evid) <==> n == f.newMagid {
      assert n != f.newMagid && n in CodaOf(db', evid) ==> n in CodaOf(db, evid);
    }
    assert CodaOf(db', evid) == {f.newMagid};
  }

  lemma InsertKeepsInv(db: Database, evid: int, user: string, row: NetMagRow, current: Option<int>, f: Fate)
    requires Inv(db) && Insert(db, evid, user, row, current, f).Returned?
    requires Coda(row) && PreferredOrigin(db, evid) == Some(row.orid) && !HasCoda(db, evid)
    requires current.Some? ==> current == db.events[evid].prefmag
    ensures Inv(Insert(db, evid, user, row, current, f).value)
  {
    var db' := Insert(db, evid, user, row, current, f).value;
    assert row.orid in db.origins && db.origins[row.orid] == evid;
    assert forall m :: m in db.netmag && Coda(db.netmag[m]) && db.netmag[m].orid == row.orid ==> m in CodaOf(db, evid);
    assert UniqueCoda(db');
    assert PrefMagsLive(db');
  }

  lemma UpdateKeepsInv(db: Database, evid: int, user: string, m: int, row: NetMagRow, current: Option<int>, f: Fate)
    requires Inv(db) && Update(db, evid, user, m, row, current, f).Returned?
    requires Coda(row) && PreferredOrigin(db, evid) == Some(row.orid) && m in CodaOf(db, evid)
    requires current.Some? ==> current == db.events[evid].prefmag
    ensures Inv(Update(db, evid, user, m, row, current, f).value)
    ensures Carries(Update(db, evid, user, m, row, current, f).value, evid, row)
  {
    var db' := Update(db, evid, user, m, row, current, f).value;
    CodaIsSingle(db, evid, m);
    assert UniqueCoda(db') by {
      forall a, b | a in db'.netmag && b in db'.netmag && CodaTwins(db'.netmag[a], db'.netmag[b]) ensures a == b {
        assert CodaTwins(db.netmag[a], db.netmag[b]);
      }
    }
    assert PrefMagsLive(db');
    assert m in CodaOf(db', evid);
    CodaIsSingle(db', evid, m);
  }

  lemma DeleteKeepsInv(db: Database, evid: int, m: int, current: Option<int>, f: Fate)
    requires Inv(db) && Delete(db, evid, m, current, f).Returned? && m in CodaOf(db, evid)
    requires current.Some? ==> current == db.events[evid].prefmag
    ensures Inv(Delete(db, evid, m, current, f).value)
    ensures !HasCoda(Delete(db, evid, m, current, f).value, evid)
  {
    var db' := Delete(db, evid, m, current, f).value;
    CodaIsSingle(db, evid, m);
    assert UniqueCoda(db') by {
      forall a, b | a in db'.netmag && b in db'.netmag && CodaTwins(db'.netmag[a], db'.netmag[b]) ensures a == b {
        assert CodaTwins(db.netmag[a], db.netmag[b]);
      }
    }
    assert BelongsTo(db, m, evid);
    assert PrefMagsLive(db');
    assert forall n :: n in CodaOf(db', evid) ==> n in CodaOf(db, evid) && n != m;
  }

  /** The coda magnitude of the event, or a new one. */
  ghost predicate Eligible(db: Database, evid: int, m: int) {
    m in CodaOf(db, evid) || m !in db.netmag
  }

  /** An accept whose reads do not lie leaves exactly one coda magnitude on the preferred origin: the accepted one. */
  lemma AcceptHonest(db: Database, evid: int, user: string, magnitude: NetMagRow, f: Fate)
    requires Inv(db) && Honest(f) && Coda(magnitude) && Accept(db, evid, user, magnitude, f).Returned?
    ensures Inv(Accept(db, evid, user, magnitude, f).value)
    ensures Carries(Accept(db, evid, user, magnitude, f).value, evid, magnitude)
    ensures exists m :: Eligible(db, evid, m) && TouchesOnly(db, Accept(db, evid, user, magnitude, f).value, evid, m)
  {
    var row := magnitude.(orid := ReadOrigin(db, evid, f.origin).value);
    var identifier, current := ReadIdentifier(db, evid, f.exists1, f.identifier, f.pick).value, ReadPrefMag(db, evid, f.prefmag).value;
    if current.Some? {
      CurrentIsPrefMag(db, evid, f.prefmag);
    }
    if identifier.Some? {
      UpdateKeepsInv(db, evid, user, identifier.value, row, current, f);
      UpdateTouches(db, evid, user, identifier.value, row, current, f);
    } else {
      InsertKeepsInv(db, evid, user, row, current, f);
      InsertCarries(db, evid, user, row, current, f);
      InsertTouches(db, evid, user, row, current, f);
    }
  }

  /** A reject whose reads do not lie leaves no coda magnitude on the preferred origin. */
  lemma RejectHonest(db: Database, evid: int, f: Fate)
    requires Inv(db) && Honest(f) && Reject(db, evid, f).Returned?
    ensures Inv(Reject(db, evid, f).value)
    ensures !HasCoda(Reject(db, evid, f).value, evid)
    ensures Reject(db, evid, f).value == db
      || exists m :: m in CodaOf(db, evid) && TouchesOnly(db, Reject(db, evid, f).value, evid, m)
  {
    if ReadExists(db, evid, f.exists1).value {
      var identifier, current := ReadIdentifier(db, evid, f.exists2, f.identifier, f.pick).value, ReadPrefMag(db, evid, f.prefmag).value;
      if current.Some? {
        CurrentIsPrefMag(db, evid, f.prefmag);
      }
      DeleteKeepsInv(db, evid, identifier.value, current, f);
      DeleteTouches(db, evid, identifier.value, current, f);
    }
  }

  // ---------------------------------------------------------------- reads that lie

  /** Both existence queries fail silently while there is a coda magnitude. */
  predicate MissedTwice(db: Database, evid: int, f: Fate) {
    HasCoda(db, evid) && f.exists1.Fails? && f.exists2.Fails?
  }

  /** The identifier query fails, so identifier 0 stands for a coda magnitude that has another one. */
  predicate MistakenForZero(db: Database, evid: int, existence: Read, f: Fate) {
    existence.Truthful? && HasCoda(db, evid) && !f.identifier.Truthful? && 0 !in CodaOf(db, evid)
  }

  /** Magnitude 0 lies on the preferred origin of the event. */
  predicate ZeroOnOrigin(db: Database, evid: int) {
    0 in db.netmag && PreferredOrigin(db, evid) == Some(db.netmag[0].orid)
  }

  /** A completed reject leaves a coda magnitude exactly when there was one and a failed read hid it. */
  lemma RejectExactly(db: Database, evid: int, f: Fate)
    requires Inv(db) && Reject(db, evid, f).Returned?
    ensures HasCoda(Reject(db, evid, f).value, evid)
      <==> HasCoda(db, evid) && (f.exists1.Fails? || f.exists2.Fails? || MistakenForZero(db, evid, f.exists2, f))
  {
    if HasCoda(db, evid) && f.exists1.Truthful? && f.exists2.Truthful? {
      if MistakenForZero(db, evid, f.exists2, f) {
        var m :| m in CodaOf(db, evid);
        assert m in CodaOf(Reject(db, evid, f).value, evid);
      } else {
        var identifier, current := ReadIdentifier(db, evid, f.exists2, f.identifier, f.pick).value, ReadPrefMag(db, evid, f.prefmag).value;
        if current.Some? {
          CurrentIsPrefMag(db, evid, f.prefmag);
        }
        DeleteKeepsInv(db, evid, identifier.value, current, f);
      }
    }
  }

  /**
   * A completed accept leaves exactly the accepted magnitude on the preferred origin, unless both existence queries
   * failed over an existing one, or its identifier query did; then only if it was already there unchanged, and no
   * magnitude 0 of that origin was overwritten instead.
   */
  lemma AcceptExactly(db: Database, evid: int, user: string, magnitude: NetMagRow, f: Fate)
    requires Inv(db) && Coda(magnitude) && Accept(db, evid, user, magnitude, f).Returned?
    ensures Carries(Accept(db, evid, user, magnitude, f).value, evid, magnitude) <==>
      !MissedTwice(db, evid, f) &&
      (MistakenForZero(db, evid, f.exists1, f) ==> Carries(db, evid, magnitude) && !ZeroOnOrigin(db, evid))
  {
    var db' := Accept(db, evid, user, magnitude, f).value;
    var row := magnitude.(orid := ReadOrigin(db, evid, f.origin).value);
    var identifier, current := ReadIdentifier(db, evid, f.exists1, f.identifier, f.pick).value, ReadPrefMag(db, evid, f.prefmag).value;
    if current.Some? {
      CurrentIsPrefMag(db, evid, f.prefmag);
    }
    if MissedTwice(db, evid, f) {
      var m :| m in CodaOf(db, evid);
      assert m in CodaOf(db', evid) && f.newMagid in CodaOf(db', evid);
    } else if MistakenForZero(db, evid, f.exists1, f) {
      ZeroUpdated(db, evid, user, row, magnitude, current, f);
    } else if identifier.Some? {
      UpdateKeepsInv(db, evid, user, identifier.value, row, current, f);
    } else {
      InsertCarries(db, evid, user, row, current, f);
    }
  }

  lemma ZeroUpdated(
    db: Database, evid: int, user: string, row: NetMagRow, magnitude: NetMagRow, current: Option<int>, f: Fate)
    requires Inv(db) && Coda(row) && Update(db, evid, user, 0, row, current, f).Returned?
    requires PreferredOrigin(db, evid) == Some(row.orid) && row == magnitude.(orid := row.orid)
    requires HasCoda(db, evid) && 0 !in CodaOf(db, evid)
    ensures Carries(Update(db, evid, user, 0, row, current, f).value, evid, magnitude)
      <==> Carries(db, evid, magnitude) && !ZeroOnOrigin(db, evid)
  {
    var db' := Update(db, evid, user, 0, row, current, f).value;
    var m :| m in CodaOf(db, evid);
    CodaIsSingle(db, evid, m);
    assert m in CodaOf(db', evid) && db'.netmag[m] == db.netmag[m];
    if ZeroOnOrigin(db, evid) {
      assert 0 in CodaOf(db', evid);
    } else {
      forall n ensures n in CodaOf(db', evid) <==> n in CodaOf(db, evid) {}
      assert CodaOf(db', evid) == {m};
    }
  }

  /** Every preferred-magnitude row still names a live magnitude, unless identifier 0 was entered for one. */
  lemma AcceptKeepsPrefMagsExactly(db: Database, evid: int, user: string, magnitude: NetMagRow, f: Fate)
    requires Inv(db) && Coda(magnitude) && Accept(db, evid, user, magnitude, f).Returned?
    ensures PrefMagsLive(Accept(db, evid, user, magnitude, f).value) <==>
      (MistakenForZero(db, evid, f.exists1, f) && f.prefmag.Truthful? && db.events[evid].prefmag.Some? ==> BelongsTo(db, 0, evid))
  {
    var db' := Accept(db, evid, user, magnitude, f).value;
    var row := magnitude.(orid := ReadOrigin(db, evid, f.origin).value);
    var identifier, current := ReadIdentifier(db, evid, f.exists1, f.identifier, f.pick).value, ReadPrefMag(db, evid, f.prefmag).value;
    if current.Some? {
      CurrentIsPrefMag(db, evid, f.prefmag);
    }
    if identifier.Some? {
      forall n, e ensures BelongsTo(db', n, e) <==> BelongsTo(db, n, e) {}
      if current.Some? {
        assert PrefMag(evid, row.magtype, identifier.value) in db'.prefmags;
      }
    } else {
      forall n, e | BelongsTo(db, n, e) ensures BelongsTo(db', n, e) {}
      assert BelongsTo(db', f.newMagid, evid);
    }
  }

  /** Magnitude 0 is of another kind and shares its origin with a coda magnitude. */
  predicate ZeroBesideCoda(db: Database) {
    0 in db.netmag && !Coda(db.netmag[0])
    && exists n :: n in db.netmag && CodaOnOriginOf(db.netmag[n], db.netmag[0])
  }

  predicate CodaOnOriginOf(r: NetMagRow, s: NetMagRow) { Coda(r) && r.orid == s.orid }

  /**
   * For any reads: a completed accept leaves no origin with two coda magnitudes, unless both existence queries failed
   * over one, or identifier 0 stood for it and magnitude 0, of whatever event, became a second one on its origin.
   */
  lemma AcceptUniqueExactly(db: Database, evid: int, user: string, magnitude: NetMagRow, f: Fate)
    requires Inv(db) && Coda(magnitude) && Accept(db, evid, user, magnitude, f).Returned?
    ensures UniqueCoda(Accept(db, evid, user, magnitude, f).value) <==>
      !MissedTwice(db, evid, f) && (MistakenForZero(db, evid, f.exists1, f) ==> !ZeroBesideCoda(db))
  {
    var db' := Accept(db, evid, user, magnitude, f).value;
    var row := magnitude.(orid := ReadOrigin(db, evid, f.origin).value);
    var identifier, current := ReadIdentifier(db, evid, f.exists1, f.identifier, f.pick).value, ReadPrefMag(db, evid, f.prefmag).value;
    if current.Some? {
      CurrentIsPrefMag(db, evid, f.prefmag);
    }
    if MissedTwice(db, evid, f) {
      var m :| m in CodaOf(db, evid);
      assert CodaTwins(db'.netmag[m], db'.netmag[f.newMagid]);
    } else if MistakenForZero(db, evid, f.exists1, f) {
      ZeroUpdatedUnique(db, evid, user, row, current, f);
    } else if identifier.Some? {
      UpdateKeepsInv(db, evid, user, identifier.value, row, current, f);
    } else {
      InsertKeepsInv(db, evid, user, row, current, f);
    }
  }

  lemma ZeroUpdatedUnique(db: Database, evid: int, user: string, row: NetMagRow, current: Option<int>, f: Fate)
    requires Inv(db) && Coda(row) && Update(db, evid, user, 0, row, current, f).Returned?
    ensures UniqueCoda(Update(db, evid, user, 0, row, current, f).value) <==> !ZeroBesideCoda(db)
  {
    var db' := Update(db, evid, user, 0, row, current, f).value;
    if ZeroBesideCoda(db) {
      var n :| n in db.netmag && CodaOnOriginOf(db.netmag[n], db.netmag[0]);
      assert CodaTwins(db'.netmag[n], db'.netmag[0]);
    }
    if !UniqueCoda(db') {
      var a, b :| a in db'.netmag && b in db'.netmag && CodaTwins(db'.netmag[a], db'.netmag[b]) && a != b;
      if (a != 0 && b != 0) || Coda(db.netmag[0]) {
        assert CodaTwins(db.netmag[a], db.netmag[b]);
      } else {
        assert CodaOnOriginOf(db.netmag[if a == 0 then b else a], db.netmag[0]);
      }
    }
  }

  lemma InsertKeepsEvents(db: Database, evid: int, user: string, row: NetMagRow, current: Option<int>, f: Fate)
    requires Inv(db) && Insert(db, evid, user, row, current, f).Returned?
    requires current.Some? ==> current == db.events[evid].prefmag
    ensures EventsConsistent(Insert(db, evid, user, row, current, f).value)
  {
    var db' := Insert(db, evid, user, row, current, f).value;
    forall n, e | BelongsTo(db, n, e) ensures BelongsTo(db', n, e) {}
  }

  lemma UpdateKeepsEvents(db: Database, evid: int, user: string, m: int, row: NetMagRow, current: Option<int>, f: Fate)
    requires Inv(db) && Update(db, evid, user, m, row, current, f).Returned?
    requires current.Some? ==> current == db.events[evid].prefmag
    ensures EventsConsistent(Update(db, evid, user, m, row, current, f).value)
  {
    var db' := Update(db, evid, user, m, row, current, f).value;
    forall n, e | BelongsTo(db, n, e) ensures BelongsTo(db', n, e) {}
  }

  /** For any reads: an accept leaves every event with a live preferred magnitude and preferred origin of its own. */
  lemma AcceptKeepsEvents(db: Database, evid: int, user: string, magnitude: NetMagRow, f: Fate)
    requires Inv(db) && Accept(db, evid, user, magnitude, f).Returned?
    ensures EventsConsistent(Accept(db, evid, user, magnitude, f).value)
    ensures forall m :: m in Accept(db, evid, user, magnitude, f).value.netmag ==> m >= 0
  {
    var row := magnitude.(orid := ReadOrigin(db, evid, f.origin).value);
    var identifier, current := ReadIdentifier(db, evid, f.exists1, f.identifier, f.pick).value, ReadPrefMag(db, evid, f.prefmag).value;
    if current.Some? {
      CurrentIsPrefMag(db, evid, f.prefmag);
    }
    if identifier.Some? {
      UpdateKeepsEvents(db, evid, user, identifier.value, row, current, f);
    } else {
      InsertKeepsEvents(db, evid, user, row, current, f);
    }
  }

  /** What an accept has to avoid: a missed magnitude, and an identifier 0 that is none of the event. */
  ghost predicate AcceptHarmless(db: Database, evid: int, f: Fate) {
    && !MissedTwice(db, evid, f)
    && (MistakenForZero(db, evid, f.exists1, f) ==>
         && !ZeroBesideCoda(db)
         && (f.prefmag.Truthful? && db.events[evid].prefmag.Some? ==> BelongsTo(db, 0, evid)))
  }

  /** For any reads: the exact condition under which a completed accept keeps AQMS consistent. */
  lemma AcceptInvExactly(db: Database, evid: int, user: string, magnitude: NetMagRow, f: Fate)
    requires Inv(db) && Coda(magnitude) && Accept(db, evid, user, magnitude, f).Returned?
    ensures Inv(Accept(db, evid, user, magnitude, f).value) <==> AcceptHarmless(db, evid, f)
  {
    AcceptUniqueExactly(db, evid, user, magnitude, f);
    AcceptKeepsPrefMagsExactly(db, evid, user, magnitude, f);
    AcceptKeepsEvents(db, evid, user, magnitude, f);
  }

  /** A reject deletes magnitude 0 in place of the coda magnitude of the event. */
  predicate ZeroDeleted(db: Database, evid: int, f: Fate) {
    && f.exists1.Truthful? && MistakenForZero(db, evid, f.exists2, f)
    && 0 in db.netmag && db.netmag[0].magalgo == Some(MAGNITUDE_ALGORITHM)
  }

  /** The preferred-magnitude rows of other events do not name magnitude 0. */
  predicate ZeroListedOnlyFor(db: Database, evid: int) {
    forall p :: p in db.prefmags && p.magid == 0 ==> p.evid == evid
  }

  predicate ZeroPreferredOnlyBy(db: Database, evid: int) {
    forall e :: e in db.events && db.events[e].prefmag == Some(0) ==> e == evid
  }

  /**
   * For any reads: a completed reject leaves every preferred-magnitude row live, and every event consistent, exactly
   * when it did not delete a magnitude 0 that another event lists, or prefers.
   */
  lemma RejectConsistentExactly(db: Database, evid: int, f: Fate)
    requires Inv(db) && Reject(db, evid, f).Returned?
    ensures PrefMagsLive(Reject(db, evid, f).value) <==> (ZeroDeleted(db, evid, f) ==> ZeroListedOnlyFor(db, evid))
    ensures EventsConsistent(Reject(db, evid, f).value) <==> (ZeroDeleted(db, evid, f) ==> ZeroPreferredOnlyBy(db, evid))
    ensures UniqueCoda(Reject(db, evid, f).value)
    ensures forall m :: m in Reject(db, evid, f).value.netmag ==> m >= 0
  {
    var identifier := ReadIdentifier(db, evid, f.exists2, f.identifier, f.pick);
    if ReadExists(db, evid, f.exists1) == Returned(true) && identifier.value.Some? {
      var current := ReadPrefMag(db, evid, f.prefmag).value;
      if current.Some? {
        CurrentIsPrefMag(db, evid, f.prefmag);
      }
      if MistakenForZero(db, evid, f.exists2, f) {
        DeleteKeepsUnique(db, evid, 0, current, f);
        ZeroDeletedConsistent(db, evid, current, f);
      } else {
        DeleteKeepsInv(db, evid, identifier.value.value, current, f);
      }
    }
  }

  lemma DeleteKeepsUnique(db: Database, evid: int, m: int, current: Option<int>, f: Fate)
    requires UniqueCoda(db) && Delete(db, evid, m, current, f).Returned?
    ensures UniqueCoda(Delete(db, evid, m, current, f).value)
  {
    var db' := Delete(db, evid, m, current, f).value;
    forall a, b | a in db'.netmag && b in db'.netmag && CodaTwins(db'.netmag[a], db'.netmag[b]) ensures a == b {
      assert CodaTwins(db.netmag[a], db.netmag[b]);
    }
  }

  lemma ZeroDeletedConsistent(db: Database, evid: int, current: Option<int>, f: Fate)
    requires Inv(db) && Delete(db, evid, 0, current, f).Returned?
    requires current.Some? ==> current == db.events[evid].prefmag
    ensures var db', gone := Delete(db, evid, 0, current, f).value, 0 in db.netmag && db.netmag[0].magalgo == Some(MAGNITUDE_ALGORITHM);
      && (PrefMagsLive(db') <==> (gone ==> ZeroListedOnlyFor(db, evid)))
      && (EventsConsistent(db') <==> (gone ==> ZeroPreferredOnlyBy(db, evid)))
  {
    var db' := Delete(db, evid, 0, current, f).value;
    var gone := 0 in db.netmag && db.netmag[0].magalgo == Some(MAGNITUDE_ALGORITHM);
    forall n, e ensures BelongsTo(db', n, e) <==> BelongsTo(db, n, e) && !(gone && n == 0) {}
    forall p: PrefMag ensures p in db'.prefmags <==> p in db.prefmags && !(p.evid == evid && p.magid == 0) {}
    forall e | e in db.events && e != evid ensures db'.events[e] == db.events[e] {}
    if gone && !ZeroListedOnlyFor(db, evid) {
      var p :| p in db.prefmags && p.magid == 0 && p.evid != evid;
      assert p in db'.prefmags && !BelongsTo(db', p.magid, p.evid);
    }
    if gone && !ZeroPreferredOnlyBy(db, evid) {
      var e :| e in db.events && db.events[e].prefmag == Some(0) && e != evid;
      assert e in db'.events && !BelongsTo(db', 0, e);
    }
  }

  ghost predicate RejectHarmless(db: Database, evid: int, f: Fate) {
    ZeroDeleted(db, evid, f) ==> ZeroListedOnlyFor(db, evid) && ZeroPreferredOnlyBy(db, evid)
  }

  /** For any reads: the exact condition under which a completed reject keeps AQMS consistent. */
  lemma RejectInvExactly(db: Database, evid: int, f: Fate)
    requires Inv(db) && Reject(db, evid, f).Returned?
    ensures Inv(Reject(db, evid, f).value) <==> RejectHarmless(db, evid, f)
  {
    RejectConsistentExactly(db, evid, f);
  }

  lemma HonestIsHarmless(db: Database, evid: int, f: Fate)
    requires Honest(f)
    ensures AcceptHarmless(db, evid, f) && RejectHarmless(db, evid, f)
  {}

  /** What an accept may touch: the coda magnitude of the event, a new one, or magnitude 0 mistaken for it. */
  ghost predicate AcceptTarget(db: Database, evid: int, m: int, f: Fate) {
    Eligible(db, evid, m) || (m == 0 && MistakenForZero(db, evid, f.exists1, f))
  }

  ghost predicate RejectTarget(db: Database, evid: int, m: int, f: Fate) {
    m in CodaOf(db, evid) || (m == 0 && MistakenForZero(db, evid, f.exists2, f))
  }

  /** For any reads: at most one magnitude is touched, a coda one of the event, a new one, or one mistaken for it. */
  lemma AcceptTouches(db: Database, evid: int, user: string, magnitude: NetMagRow, f: Fate)
    requires Accept(db, evid, user, magnitude, f).Returned?
    ensures exists m :: AcceptTarget(db, evid, m, f) && TouchesOnly(db, Accept(db, evid, user, magnitude, f).value, evid, m)
  {
    var row := magnitude.(orid := ReadOrigin(db, evid, f.origin).value);
    var identifier, current := ReadIdentifier(db, evid, f.exists1, f.identifier, f.pick).value, ReadPrefMag(db, evid, f.prefmag).value;
    if identifier.Some? {
      UpdateTouches(db, evid, user, identifier.value, row, current, f);
    } else {
      InsertTouches(db, evid, user, row, current, f);
    }
  }

  lemma RejectTouches(db: Database, evid: int, f: Fate)
    requires Reject(db, evid, f).Returned?
    ensures Reject(db, evid, f).value == db ||
      exists m :: RejectTarget(db, evid, m, f) && TouchesOnly(db, Reject(db, evid, f).value, evid, m)
  {
    var identifier := ReadIdentifier(db, evid, f.exists2, f.identifier, f.pick);
    if ReadExists(db, evid, f.exists1) == Returned(true) && identifier.value.Some? {
      DeleteTouches(db, evid, identifier.value.value, ReadPrefMag(db, evid, f.prefmag).value, f);
    }
  }

  // ---------------------------------------------------------------- two lies that hit another event

  /** A failed identifier query and no other fault. */
  const LYING_FATE: Fate := Fate(Truthful, Truthful, Fails, Truthful, Truthful, 0, 7, 9, None)

  function CodaRow(orid: int): NetMagRow {
    NetMagRow(orid, 4.0, MAGNITUDE_TYPE, "UU", "cct", Some(MAGNITUDE_ALGORITHM), None, None, None, None, Some("H"))
  }

  /** Two events with a coda magnitude each, 7 and 8; magnitude 0 is a local magnitude of the second. */
  const TWO_EVENTS: Database := Database(
    map[7 := CodaRow(100), 8 := CodaRow(200), 0 := CodaRow(200).(magtype := "l", magalgo := None)],
    {}, [], map[1 := EventRow(Some(100), None, 0), 2 := EventRow(Some(200), None, 0)], map[100 := 1, 200 := 2])

  /** An accept of the first event goes well for that event and makes a second coda magnitude of the other. */
  lemma LyingAcceptHitsOtherEvent()
    ensures Inv(TWO_EVENTS) && Accept(TWO_EVENTS, 1, "", CodaRow(100), LYING_FATE).Returned?
    ensures var db' := Accept(TWO_EVENTS, 1, "", CodaRow(100), LYING_FATE).value;
      Carries(db', 1, CodaRow(100)) && PrefMagsLive(db') && !UniqueCoda(db')
  {
    LieTakesZero(TWO_EVENTS, 7);
    var db' := Update(TWO_EVENTS, 1, "", 0, CodaRow(100), None, LYING_FATE).value;
    assert CodaTwins(db'.netmag[0], db'.netmag[8]);
    assert CodaOf(db', 1) == {7};
    assert RoundedMagnitude(4.0) == 4.0;
  }

  /** With a coda magnitude of event 1, the lie makes identifier 0 of it. */
  lemma LieTakesZero(db: Database, m: int)
    requires PreferredOrigin(db, 1) == Some(100) && m in CodaOf(db, 1)
    ensures ReadIdentifier(db, 1, Truthful, LYING_FATE.identifier, LYING_FATE.pick) == Returned(Some(0))
  {}

  /** Magnitude 0 is the coda magnitude, and the preferred one, of the second event. */
  const ZERO_PREFERRED: Database := Database(
    map[7 := CodaRow(100), 0 := CodaRow(200)], {PrefMag(2, MAGNITUDE_TYPE, 0)}, [],
    map[1 := EventRow(Some(100), None, 0), 2 := EventRow(Some(200), Some(0), 0)], map[100 := 1, 200 := 2])

  /** A reject of the first event deletes the magnitude of the other, which still names it, and leaves its own. */
  lemma LyingRejectHitsOtherEvent()
    ensures Inv(ZERO_PREFERRED) && Reject(ZERO_PREFERRED, 1, LYING_FATE).Returned?
    ensures var db' := Reject(ZERO_PREFERRED, 1, LYING_FATE).value;
      !HasCoda(db', 2) && HasCoda(db', 1) && !PrefMagsLive(db') && !EventsConsistent(db')
  {
    LieTakesZero(ZERO_PREFERRED, 7);
    var db' := Delete(ZERO_PREFERRED, 1, 0, None, LYING_FATE).value;
    assert 7 in CodaOf(db', 1) && 0 !in db'.netmag;
    assert PrefMag(2, MAGNITUDE_TYPE, 0) in db'.prefmags;
    assert db'.events[2].prefmag == Some(0);
  }

  // ---------------------------------------------------------------- what a request enters or removes

  /** Whether the preferred magnitude of the event was there and could be read. */
  predicate PreferredRead(db: Database, evid: int, f: Fate) {
    f.prefmag.Truthful? && evid in db.events && db.events[evid].prefmag.Some?
  }

  /**
   * The magnitude an accept enters: a new one when none is read to exist, else the one there, or 0 when its identifier
   * cannot be read.
   */
  predicate AcceptedAs(db: Database, evid: int, f: Fate, m: int, isNew: bool) {
    && (isNew <==> f.exists1.Fails? || !HasCoda(db, evid))
    && (isNew ==> m == f.newMagid)
    && (!isNew && f.identifier.Truthful? ==> m in CodaOf(db, evid))
    && (!isNew && !f.identifier.Truthful? ==> m == 0)
  }

  /** For any reads: what a completed accept leaves in every table of AQMS; TouchesOnly says that the rest stays. */
  lemma AcceptEnters(db: Database, evid: int, user: string, magnitude: NetMagRow, f: Fate, m: int, isNew: bool)
    requires Inv(db) && Accept(db, evid, user, magnitude, f).Returned? && AcceptedAs(db, evid, f, m, isNew)
    ensures var db' := Accept(db, evid, user, magnitude, f).value;
      && (isNew ==> PreferredOrigin(db, evid).Some? && RowEntered(db', m, magnitude, PreferredOrigin(db, evid).value))
      && (!isNew && m in db.netmag ==> RowEntered(db', m, magnitude, db.netmag[m].orid))
      && PrefMagsAfter(db, db', evid, magnitude.magtype, m, isNew || PreferredRead(db, evid, f))
      && EventAfter(db, db', evid, PreferredRead(db, evid, f), f.elected)
      && Credited(db, db', m, user)
      && TouchesOnly(db, db', evid, m)
  {
    var row := magnitude.(orid := ReadOrigin(db, evid, f.origin).value);
    var identifier, current := ReadIdentifier(db, evid, f.exists1, f.identifier, f.pick).value, ReadPrefMag(db, evid, f.prefmag).value;
    CurrentRead(db, evid, f);
    if isNew {
      InsertEnters(db, evid, user, row, current, f);
      InsertTouches(db, evid, user, row, current, f);
    } else {
      if f.identifier.Truthful? {
        CodaIsSingle(db, evid, m);
      }
      assert identifier == Some(m);
      UpdateEnters(db, evid, user, m, row, current, f);
      UpdateTouches(db, evid, user, m, row, current, f);
    }
  }

  lemma CurrentRead(db: Database, evid: int, f: Fate)
    requires Inv(db) && ReadPrefMag(db, evid, f.prefmag).Returned?
    ensures ReadPrefMag(db, evid, f.prefmag).value.Some? <==> PreferredRead(db, evid, f)
    ensures PreferredRead(db, evid, f) ==> ReadPrefMag(db, evid, f.prefmag).value == db.events[evid].prefmag
  {}

  /** For any reads: a completed reject changes nothing when none is read to exist, and else removes the magnitude read. */
  lemma RejectRemoves(db: Database, evid: int, f: Fate, m: int)
    requires Inv(db) && Reject(db, evid, f).Returned?
    requires HasCoda(db, evid) ==> if f.identifier.Truthful? then m in CodaOf(db, evid) else m == 0
    ensures var db' := Reject(db, evid, f).value;
      if !HasCoda(db, evid) || f.exists1.Fails? || f.exists2.Fails? then db' == db
      else Removed(db, db', evid, m, PreferredRead(db, evid, f), f.elected) && TouchesOnly(db, db', evid, m)
  {
    if HasCoda(db, evid) && !f.exists1.Fails? && !f.exists2.Fails? {
      var current := ReadPrefMag(db, evid, f.prefmag).value;
      if f.identifier.Truthful? {
        CodaIsSingle(db, evid, m);
      }
      assert ReadIdentifier(db, evid, f.exists2, f.identifier, f.pick).value == Some(m);
      CurrentRead(db, evid, f);
      DeleteRemoves(db, evid, m, current, f);
      DeleteTouches(db, evid, m, current, f);
    }
  }

  // ---------------------------------------------------------------- when a request completes

  /** The elected magnitude, where one is to be elected, is one of the event or none. */
  ghost predicate ElectionInOrder(db: Database, evid: int, elected: Option<int>, added: Option<int>, removed: Option<int>) {
    elected.Some? ==> elected == added || (elected != removed && BelongsTo(db, elected.value, evid))
  }

  /**
   * The AQMS part of an accept completes exactly when the preferred origin is read, no read breaks off, both existence
   * reads agree, no statement fails, and the stored procedures keep their contracts.
   */
  lemma AcceptCompletesExactly(db: Database, evid: int, user: string, magnitude: NetMagRow, f: Fate)
    requires Inv(db)
    ensures Accept(db, evid, user, magnitude, f).Returned? <==>
      var there, again := f.exists1.Truthful? && HasCoda(db, evid), f.exists2.Truthful? && HasCoda(db, evid);
      && f.origin.Truthful? && PreferredOrigin(db, evid).Some? && PreferredOrigin(db, evid).value != -1
      && !f.exists1.Disconnected? && !f.exists2.Disconnected? && !f.prefmag.Disconnected? && there == again
      && f.failAt !in (if there then UpdateStatements(ReadPrefMag(db, evid, f.prefmag).value) else InsertStatements(ReadPrefMag(db, evid, f.prefmag).value))
      && (!there ==> Fresh(db, f.newMagid))
      && (!PreferredRead(db, evid, f) ==> ElectionInOrder(db, evid, f.elected, if there then None else Some(f.newMagid), None))
  {
    if f.exists1.Truthful? && HasCoda(db, evid) && f.identifier.Truthful? {
      assert PickOne(CodaOf(db, evid), f.pick) >= 0;
    }
  }

  /** The same for a reject that reads a magnitude m to exist; one that does not completes unless the read breaks off. */
  lemma RejectCompletesExactly(db: Database, evid: int, f: Fate, m: int)
    requires Inv(db)
    requires HasCoda(db, evid) ==> if f.identifier.Truthful? then m in CodaOf(db, evid) else m == 0
    ensures Reject(db, evid, f).Returned? <==>
      && !f.exists1.Disconnected?
      && (f.exists1.Truthful? && HasCoda(db, evid) ==> !f.exists2.Disconnected?)
      && (f.exists1.Truthful? && f.exists2.Truthful? && HasCoda(db, evid) ==>
           && !f.prefmag.Disconnected? && f.failAt !in {1, 2, 3, 4}
           && (!PreferredRead(db, evid, f) || db.events[evid].prefmag == Some(m) ==>
                ElectionInOrder(db, evid, f.elected, None,
                  if m in db.netmag && db.netmag[m].magalgo == Some("LLNLCCT") then Some(m) else None)))
  {
    if HasCoda(db, evid) && f.exists1.Truthful? && f.exists2.Truthful? {
      if f.identifier.Truthful? {
        CodaIsSingle(db, evid, m);
      }
      assert ReadIdentifier(db, evid, f.exists2, f.identifier, f.pick).value == Some(m);
    }
  }
}
