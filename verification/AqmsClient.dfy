/** The magnitude record and the client that writes it to AQMS. */
module AqmsClient {
  import opened Wrappers
  import opened AqmsModel
  import opened AqmsRequests

  datatype ReviewFlag = Automatic | Human

  /** `NetMag`: setters check their arguments, getters answer only for what is set. */
  class NetMag {
    var subSource: string
    var authority: string
    var magnitudeType: string
    var magnitudeAlgorithm: string
    var identifier: int
    var originIdentifier: int
    var magnitude: real
    var gap: real
    var distance: real
    var stationCount: int
    var observationCount: int
    var reviewFlag: ReviewFlag
    var haveIdentifier: bool
    var haveOriginIdentifier: bool
    var haveMagnitude: bool

    /** What the setters let through. */
    ghost predicate Valid()
      reads this
    {
      && magnitudeType != "" && authority != "" && subSource != ""
      && (haveMagnitude ==> -10.0 < magnitude < 10.0)
      && (gap == -1.0 || 0.0 <= gap < 360.0)
      && (distance == -1.0 || distance >= 0.0)
      && stationCount >= -1 && observationCount >= -1
    }

    predicate Insertable()
      reads this
    {
      haveMagnitude && haveOriginIdentifier && authority != ""
    }

    predicate Updatable()
      reads this
    {
      haveMagnitude && haveIdentifier && authority != ""
    }

    /** The values the transaction binds; the unset ones are NULL. */
    function Row(): NetMagRow
      reads this
    {
      NetMagRow(
        originIdentifier, magnitude, magnitudeType, authority, subSource,
        if magnitudeAlgorithm != "" then Some(magnitudeAlgorithm) else None,
        if stationCount >= 0 then Some(stationCount) else None,
        if observationCount >= 0 then Some(observationCount) else None,
        if gap >= 0.0 then Some(gap) else None,
        if distance >= 0.0 then Some(distance) else None,
        Some(if reviewFlag.Human? then "H" else "A"))
    }

    constructor ()
      ensures Valid() && !haveIdentifier && !haveOriginIdentifier && !haveMagnitude
      ensures Row() == NetMagRow(0, 0.0, MAGNITUDE_TYPE, "UU", "cct", Some(MAGNITUDE_ALGORITHM), None, None, None, None, Some("H"))
    {
      subSource, authority, magnitudeType, magnitudeAlgorithm := "cct", "UU", MAGNITUDE_TYPE, MAGNITUDE_ALGORITHM;
      identifier, originIdentifier, magnitude, gap, distance := 0, 0, 0.0, -1.0, -1.0;
      stationCount, observationCount, reviewFlag := -1, -1, Human;
      haveIdentifier, haveOriginIdentifier, haveMagnitude := false, false, false;
    }

    method SetIdentifier(identifier: int)
      requires Valid()
      modifies this`identifier, this`haveIdentifier
      ensures Valid()
      ensures this.identifier == identifier && haveIdentifier
    {
      this.identifier, haveIdentifier := identifier, true;
    }

    method SetOriginIdentifier(identifier: int)
      requires Valid()
      modifies this`originIdentifier, this`haveOriginIdentifier
      ensures Valid()
      ensures originIdentifier == identifier && haveOriginIdentifier
    {
      originIdentifier, haveOriginIdentifier := identifier, true;
    }

    method SetMagnitude(magnitude: real) returns (ok: bool)
      requires Valid()
      modifies this`magnitude, this`haveMagnitude
      ensures Valid()
      ensures ok <==> -10.0 < magnitude < 10.0
      ensures ok ==> this.magnitude == magnitude && haveMagnitude
      ensures !ok ==> this.magnitude == old(this.magnitude) && haveMagnitude == old(haveMagnitude)
    {
      if magnitude >= 10.0 || magnitude <= -10.0 {
        return false;
      }
      this.magnitude, haveMagnitude := magnitude, true;
      ok := true;
    }

    method SetMagnitudeType(magnitudeType: string) returns (ok: bool)
      requires Valid()
      modifies this`magnitudeType
      ensures Valid()
      ensures ok <==> magnitudeType != ""
      ensures this.magnitudeType == if ok then magnitudeType else old(this.magnitudeType)
    {
      ok := magnitudeType != "";
      if ok {
        this.magnitudeType := magnitudeType;
      }
    }

    method SetAuthority(authority: string) returns (ok: bool)
      requires Valid()
      modifies this`authority
      ensures Valid()
      ensures ok <==> authority != ""
      ensures this.authority == if ok then authority else old(this.authority)
    {
      ok := authority != "";
      if ok {
        this.authority := authority;
      }
    }

    method SetReviewFlag(flag: ReviewFlag)
      requires Valid()
      modifies this`reviewFlag
      ensures Valid()
      ensures reviewFlag == flag
    {
      reviewFlag := flag;
    }

    method SetNumberOfStations(n: int) returns (ok: bool)
      requires Valid()
      modifies this`stationCount
      ensures Valid()
      ensures ok <==> n >= 0
      ensures stationCount == if ok then n else old(stationCount)
    {
      ok := n >= 0;
      if ok {
        stationCount := n;
      }
    }

    method SetNumberOfObservations(n: int) returns (ok: bool)
      requires Valid()
      modifies this`observationCount
      ensures Valid()
      ensures ok <==> n >= 0
      ensures observationCount == if ok then n else old(observationCount)
    {
      ok := n >= 0;
      if ok {
        observationCount := n;
      }
    }

    method SetGap(gap: real) returns (ok: bool)
      requires Valid()
      modifies this`gap
      ensures Valid()
      ensures ok <==> 0.0 <= gap < 360.0
      ensures this.gap == if ok then gap else old(this.gap)
    {
      ok := !(gap < 0.0 || gap >= 360.0);
      if ok {
        this.gap := gap;
      }
    }

    method SetDistance(distance: real) returns (ok: bool)
      requires Valid()
      modifies this`distance
      ensures Valid()
      ensures ok <==> distance >= 0.0
      ensures this.distance == if ok then distance else old(this.distance)
    {
      ok := distance >= 0.0;
      if ok {
        this.distance := distance;
      }
    }
  }

  class Client {
    var db: Database

    constructor (db: Database)
      ensures this.db == db
    {
      this.db := db;
    }

    /** The statements of an insert, up to the first that fails. */
    method InsertStatementsRun(evid: int, user: string, row: NetMagRow, current: Option<int>, f: Fate) returns (ok: bool)
      modifies this`db
      ensures ok <==> Insert(old(db), evid, user, row, current, f).Returned?
      ensures ok ==> db == Insert(old(db), evid, user, row, current, f).value
    {
      if f.failAt == 1 || !Fresh(db, f.newMagid) {
        return false;
      }
      db := InsertNetMag(db, f.newMagid, row);
      if f.failAt == 2 || evid !in db.events {
        return false;
      }
      if current.None? {
        if !Electable(db, evid, f.elected) {
          return false;
        }
        db := SetPrefMag(db, evid, f.elected);
      } else {
        db := SetPrefMag(db, evid, current);
      }
      if f.failAt == 3 {
        return false;
      }
      db := AddPrefMag(db, evid, row.magtype, f.newMagid);
      if current.Some? {
        if f.failAt == 4 {
          return false;
        }
        db := BumpVersion(db, evid);
      }
      if f.failAt == 5 || f.failAt == 6 {
        return false;
      }
      db := AddCredit(db, f.newMagid, user);
      ok := true;
    }

    method UpdateStatementsRun(evid: int, user: string, magid: int, row: NetMagRow, current: Option<int>, f: Fate) returns (ok: bool)
      modifies this`db
      ensures ok <==> Update(old(db), evid, user, magid, row, current, f).Returned?
      ensures ok ==> db == Update(old(db), evid, user, magid, row, current, f).value
    {
      if f.failAt == 1 {
        return false;
      }
      db := UpdateNetMag(db, magid, row);
      if f.failAt == 2 || evid !in db.events {
        return false;
      }
      if current.None? {
        if !Electable(db, evid, f.elected) {
          return false;
        }
        db := SetPrefMag(db, evid, f.elected);
      } else {
        db := SetPrefMag(db, evid, current);
        if f.failAt == 3 {
          return false;
        }
        db := AddPrefMag(db, evid, row.magtype, magid);
        if f.failAt == 4 {
          return false;
        }
        db := BumpVersion(db, evid);
      }
      if f.failAt == 5 || f.failAt == 6 {
        return false;
      }
      db := AddCredit(db, magid, user);
      ok := true;
    }

    method DeleteStatementsRun(evid: int, magid: int, current: Option<int>, f: Fate) returns (ok: bool)
      modifies this`db
      ensures ok <==> Delete(old(db), evid, magid, current, f).Returned?
      ensures ok ==> db == Delete(old(db), evid, magid, current, f).value
    {
      if f.failAt == 1 {
        return false;
      }
      db := DeleteNetMag(db, magid);
      if f.failAt == 2 {
        return false;
      }
      db := DeletePrefMag(db, evid, magid);
      if f.failAt == 3 || evid !in db.events {
        return false;
      }
      if current.None? || current == Some(magid) {
        if !Electable(db, evid, f.elected) {
          return false;
        }
        db := SetPrefMag(db, evid, f.elected);
      } else {
        db := BumpVersion(db, evid);
      }
      ok := f.failAt != 4;
    }

    /** A record without origin, magnitude or authority is refused, whatever the reads say. */
    method InsertNetworkMagnitude(evid: int, user: string, magnitude: NetMag, f: Fate) returns (ok: bool)
      modifies this`db
      ensures ok <==> magnitude.Insertable() && InsertCall(old(db), evid, user, magnitude.Row(), f).Returned?
      ensures db == if ok then InsertCall(old(db), evid, user, magnitude.Row(), f).value else old(db)
    {
      var again := ReadExists(db, evid, f.exists2);
      if again.Threw? || again.value || !magnitude.haveMagnitude || magnitude.authority == "" {
        return false;
      }
      var current := ReadPrefMag(db, evid, f.prefmag);
      if current.Threw? || !magnitude.haveOriginIdentifier {
        return false;
      }
      var before := db;
      ok := InsertStatementsRun(evid, user, magnitude.Row(), current.value, f);
      if !ok {
        db := before;
      }
    }

    method UpdateNetworkMagnitude(evid: int, user: string, magnitude: NetMag, f: Fate) returns (ok: bool)
      modifies this`db
      ensures ok <==>
        magnitude.Updatable() && UpdateCall(old(db), evid, user, magnitude.identifier, magnitude.Row(), f).Returned?
      ensures db == if ok then UpdateCall(old(db), evid, user, magnitude.identifier, magnitude.Row(), f).value else old(db)
    {
      var again := ReadExists(db, evid, f.exists2);
      if again.Threw? || !again.value || !magnitude.haveIdentifier || !magnitude.haveMagnitude || magnitude.authority == "" {
        return false;
      }
      var current := ReadPrefMag(db, evid, f.prefmag);
      if current.Threw? {
        return false;
      }
      var before := db;
      ok := UpdateStatementsRun(evid, user, magnitude.identifier, magnitude.Row(), current.value, f);
      if !ok {
        db := before;
      }
    }

    method DeleteNetworkMagnitude(evid: int, f: Fate) returns (ok: bool)
      modifies this`db
      ensures ok <==> DeleteCall(old(db), evid, f).Returned?
      ensures db == if ok then DeleteCall(old(db), evid, f).value else old(db)
    {
      var identifier := ReadIdentifier(db, evid, f.exists2, f.identifier, f.pick);
      if identifier.Threw? {
        return false;
      }
      if identifier.value.None? {
        return true;
      }
      var current := ReadPrefMag(db, evid, f.prefmag);
      if current.Threw? {
        return false;
      }
      var before := db;
      ok := DeleteStatementsRun(evid, identifier.value.value, current.value, f);
      if !ok {
        db := before;
      }
    }
  }
}
