/** The accept and reject branches of the request handler, driving AQMS and the polling service. */
module Callback {
  import opened Wrappers
  import opened Identifiers
  import opened AqmsModel
  import opened AqmsRequests
  import opened AqmsClient
  import opened MagnitudeDetails
  import opened Reviews
  import opened CctService
  import CctDocument
  import CacheModel
  import CacheRuns
  import StationMeasurements

  datatype Response = BadRequest | Answered(reply: Reply)

  class Handler {
    const cct: Service
    const clients: map<string, Client>
    const solve: Solver
    const greatest: real

    ghost predicate Valid()
      reads this, cct, cct.eventsMap.Values, cct.tables.Values
    {
      cct.Valid() && clients.Keys == cct.schemas
    }

    constructor (cct: Service, clients: map<string, Client>, solve: Solver, greatest: real)
      requires cct.Valid() && clients.Keys == cct.schemas
      ensures Valid() && this.cct == cct && this.clients == clients && this.solve == solve && this.greatest == greatest
    {
      this.cct, this.clients, this.solve, this.greatest := cct, clients, solve, greatest;
    }

    /** A schema as a request finds it. */
    ghost function Before(schema: string): System
      requires Valid() && schema in cct.schemas
      reads this, cct, cct.eventsMap.Values, cct.tables.Values, clients.Values
    {
      System(clients[schema].db, cct.tables[schema].rows, cct.eventsMap[schema].events.Keys)
    }

    /** The cache, its hash and its watermark move by the review step of any run they are in. */
    twostate predicate CacheReviewed(
      schema: string, event: string, status: string, now: int, done: bool, new rows: Option<seq<CacheModel.Row>>)
      reads cct, cct.eventsMap.Values, cct.tables.Values
    {
      && (rows.Some? ==>
           && schema in cct.tables && schema in old(cct.lastUpdateMap)
           && CacheModel.Answers(cct.tables[schema].rows, old(cct.lastUpdateMap)[schema], rows.value))
      && forall s :: old(cct.Represents(schema, s)) ==> cct.Represents(schema, cct.Reviewed(s, event, status, now, done, rows))
    }

    /** The record for AQMS, or none when the magnitude is out of range. */
    method BuildMagnitude(x: Extracted, origin: int) returns (magnitude: NetMag, ok: bool)
      ensures fresh(magnitude) && (ok <==> Storable(x))
      ensures ok ==> magnitude.Valid() && magnitude.Insertable() && magnitude.Row() == MagnitudeRow(x).(orid := origin)
    {
      magnitude := new NetMag();
      magnitude.SetOriginIdentifier(origin);
      ok := magnitude.SetMagnitude(x.magnitude);
      if ok {
        SetSource(magnitude);
        SetDetails(magnitude, x);
      }
    }

    method SetSource(magnitude: NetMag)
      requires magnitude.Valid()
      modifies magnitude`magnitudeType, magnitude`authority, magnitude`reviewFlag
      ensures magnitude.Valid() && magnitude.magnitudeType == MAGNITUDE_TYPE && magnitude.authority == "UU" && magnitude.reviewFlag.Human?
    {
      var _ := magnitude.SetMagnitudeType(MAGNITUDE_TYPE);
      var _ := magnitude.SetAuthority("UU");
      magnitude.SetReviewFlag(Human);
    }

    /** The details that are set only when they are known and in range. */
    method SetDetails(magnitude: NetMag, x: Extracted)
      requires magnitude.Valid() && magnitude.stationCount == -1 && magnitude.observationCount == -1
      requires magnitude.gap == -1.0 && magnitude.distance == -1.0
      modifies magnitude`stationCount, magnitude`observationCount, magnitude`gap, magnitude`distance
      ensures magnitude.Valid()
      ensures magnitude.stationCount == (if x.nStations >= 0 then x.nStations else -1)
      ensures magnitude.observationCount == (if x.nObservations >= 0 then x.nObservations else -1)
      ensures magnitude.gap == (if 0.0 <= x.azimuthalGap < 360.0 then x.azimuthalGap else -1.0)
      ensures magnitude.distance == (if x.closestDistanceKM >= 0.0 then x.closestDistanceKM else -1.0)
    {
      if x.nStations >= 0 {
        var _ := magnitude.SetNumberOfStations(x.nStations);
      }
      if x.nObservations >= 0 {
        var _ := magnitude.SetNumberOfObservations(x.nObservations);
      }
      if x.azimuthalGap >= 0.0 && x.azimuthalGap < 360.0 {
        var _ := magnitude.SetGap(x.azimuthalGap);
      }
      if x.closestDistanceKM >= 0.0 {
        var _ := magnitude.SetDistance(x.closestDistanceKM);
      }
    }

    /** The AQMS part of an accept. */
    method AcceptInAqms(client: Client, event: string, user: string, x: Extracted, f: Fate, ghost statement: Statement)
      returns (ok: bool)
      modifies client`db
      ensures ok <==> ServeAqms(old(client.db), AcceptEvent(event, user, x, f, statement)).Returned?
      ensures client.db ==
        if ok then ServeAqms(old(client.db), AcceptEvent(event, user, x, f, statement)).value else old(client.db)
    {
      var evid := Convert(event);
      if evid.Invalid? {
        return false;
      }
      var origin := ReadOrigin(client.db, evid.value, f.origin);
      if origin.Threw? {
        return false;
      }
      var magnitude;
      magnitude, ok := BuildMagnitude(x, origin.value);
      if !ok {
        return;
      }
      var identifier := ReadIdentifier(client.db, evid.value, f.exists1, f.identifier, f.pick);
      if identifier.Threw? {
        return false;
      }
      if identifier.value.Some? {
        magnitude.SetIdentifier(identifier.value.value);
        ok := client.UpdateNetworkMagnitude(evid.value, user, magnitude, f);
      } else {
        ok := client.InsertNetworkMagnitude(evid.value, user, magnitude, f);
      }
    }

    /** The AQMS part of a reject. */
    method RejectInAqms(client: Client, event: string, f: Fate, ghost statement: Statement) returns (ok: bool)
      modifies client`db
      ensures ok <==> ServeAqms(old(client.db), RejectEvent(event, f, statement)).Returned?
      ensures client.db == if ok then ServeAqms(old(client.db), RejectEvent(event, f, statement)).value else old(client.db)
    {
      var evid := Convert(event);
      if evid.Invalid? {
        return false;
      }
      var present := ReadExists(client.db, evid.value, f.exists1);
      if present.Threw? {
        return false;
      }
      ok := true;
      if present.value {
        ok := client.DeleteNetworkMagnitude(evid.value, f);
      }
    }

    /** The event table, once AQMS is done: whether the whole request went through. */
    method ReviewAfterAqms(
      ghost client: Client, schema: string, event: string, status: string, statement: Statement, poll: Exchange, ok: bool)
      returns (done: bool, ghost rows: Option<seq<CacheModel.Row>>)
      requires cct.Valid() && cct.HaveEvent(schema, event)
      modifies cct`lastUpdateMap, cct.EventsOf(schema), cct.TableOf(schema)
      ensures cct.Valid() && client.db == old(client.db)
      ensures done <==> ok && statement.connected && statement.executes
      ensures cct.tables[schema].rows ==
        if done then CacheRuns.StatusSet(old(cct.tables[schema].rows), event, status, statement.now) else old(cct.tables[schema].rows)
      ensures CacheReviewed(schema, event, status, statement.now, done, rows)
    {
      done, rows := false, None;
      if ok {
        var threw;
        threw, rows := cct.ReviewEvent(schema, event, status, statement.now, statement.connected, statement.executes, poll);
        done := !threw;
      }
    }

    /** A throw of the extraction is swallowed; what it assigned before stays, and the geometry is unset. */
    method ExtractCached(doc: CctDocument.Document, event: string) returns (x: Extracted)
      ensures ExtractedFrom(doc, event, solve, greatest, x)
    {
      var threw;
      x, threw := Extract(doc, event, solve, greatest);
      if threw {
        x := x.(closestDistanceKM := -1.0, azimuthalGap := -1.0);
      }
      StationMeasurements.CountsPositions(Records(doc, event));
    }

    method Accept(schema: string, event: string, user: string, f: Fate, statement: Statement, poll: Exchange)
      returns (r: Response, ghost x: Extracted, ghost rows: Option<seq<CacheModel.Row>>)
      requires Valid()
      modifies cct`lastUpdateMap, cct.EventsOf(schema), cct.TableOf(schema), if schema in clients then {clients[schema]} else {}
      ensures Valid()
      ensures r == BadRequest <==> event == "" || schema !in cct.schemas
      ensures r.Answered? ==>
        ServedAs(old(Before(schema)), Before(schema), AcceptEvent(event, user, x, f, statement), r.reply)
      ensures r.Answered? && event in old(Before(schema)).cached ==>
        ExtractedFrom(old(cct.eventsMap[schema].events)[event].full, event, solve, greatest, x)
      ensures r.Answered? ==> CacheReviewed(schema, event, "A", statement.now, r.reply.reason.None?, rows)
    {
      r, x, rows := BadRequest, UNSET, None;
      if event != "" && cct.HaveSchema(schema) {
        if !cct.HaveEvent(schema, event) {
          r := Answered(Reply(false, Some(DoesNotExist)));
        } else {
          var extracted := ExtractCached(cct.eventsMap[schema].events[event].full, event);
          x := extracted;
          var reply;
          reply, rows := AcceptExtracted(schema, event, user, extracted, f, statement, poll);
          r := Answered(reply);
        }
      }
    }

    /** An accept of a cached event, once its magnitude is extracted. */
    method AcceptExtracted(
      schema: string, event: string, user: string, x: Extracted, f: Fate, statement: Statement, poll: Exchange)
      returns (reply: Reply, ghost rows: Option<seq<CacheModel.Row>>)
      requires Valid() && cct.HaveEvent(schema, event)
      modifies cct`lastUpdateMap, cct.EventsOf(schema), cct.TableOf(schema), clients[schema]
      ensures Valid()
      ensures ServedAs(old(Before(schema)), Before(schema), AcceptEvent(event, user, x, f, statement), reply)
      ensures CacheReviewed(schema, event, "A", statement.now, reply.reason.None?, rows)
    {
      ghost var before, request := Before(schema), AcceptEvent(event, user, x, f, statement);
      var written := AcceptInAqms(clients[schema], event, user, x, f, statement);
      var ok;
      ok, rows := ReviewAfterAqms(clients[schema], schema, event, "A", statement, poll, written);
      reply := if ok then Reply(true, None) else Reply(false, Some(ServerError));
      assert reply == ReplyTo(request, !ok);
      ServeParts(before, Before(schema), request, written, ok);
    }

    /** The status is overwritten with success after the try block, whatever happened inside. */
    method Reject(schema: string, event: string, f: Fate, statement: Statement, poll: Exchange)
      returns (r: Response, ghost rows: Option<seq<CacheModel.Row>>)
      requires Valid()
      modifies cct`lastUpdateMap, cct.EventsOf(schema), cct.TableOf(schema), if schema in clients then {clients[schema]} else {}
      ensures Valid()
      ensures r == BadRequest <==> event == "" || schema !in cct.schemas
      ensures r.Answered? ==>
        ServedAs(old(Before(schema)), Before(schema), RejectEvent(event, f, statement), r.reply)
      ensures r.Answered? ==> CacheReviewed(schema, event, "R", statement.now, r.reply.reason.None?, rows)
    {
      rows := None;
      if event == "" || !cct.HaveSchema(schema) {
        return BadRequest, rows;
      }
      if !cct.HaveEvent(schema, event) {
        return Answered(Reply(false, Some(DoesNotExist))), rows;
      }
      var reason: Option<Reason> := None;
      ghost var before, request := Before(schema), RejectEvent(event, f, statement);
      var written := RejectInAqms(clients[schema], event, f, statement);
      var ok;
      ok, rows := ReviewAfterAqms(clients[schema], schema, event, "R", statement, poll, written);
      if !ok {
        reason := Some(ServerError);
      }
      r := Answered(Reply(true, reason));
      assert r.reply == ReplyTo(request, !ok);
      ServeParts(before, Before(schema), request, written, ok);
    }
  }
}
