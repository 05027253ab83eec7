/** The offline-first repository of repository/EventRepository.kt: it keeps
    the local events table (an EventDao) in step with the remote API and
    publishes two flags, "loading" and "data comes from the cache".
    Reachability, the remote calls' outcomes and the clock are inputs. */
module Repository {
  import opened Models
  import opened Dao

  /** What a remote call gave back: a value, or an exception. */
  datatype Remote<T> = Ok(value: T) | Fail

  /** Kotlin's Result: success with a value, or failure. */
  datatype Result<T> = Success(value: T) | Failure

  /** The copy a sync or a confirmed create/update stores: confirmed by the
      server (`isFromCache` false) at time `now`, content as received. */
  function Stamped(e: Event, now: int): (r: Event)
    ensures SameContent(r, e)
    ensures !r.isFromCache && r.lastSyncTimestamp == now
  {
    e.(isFromCache := false, lastSyncTimestamp := now)
  }

  /** The stamping of a fetched list (`remoteEvents.map { it.copy(...) }`):
      record by record, in order. */
  function StampAll(es: seq<Event>, now: int): (r: seq<Event>)
    ensures |r| == |es|
    ensures forall i :: 0 <= i < |es| ==> r[i] == Stamped(es[i], now)
  {
    if es == [] then [] else [Stamped(es[0], now)] + StampAll(es[1..], now)
  }

  lemma StampAllIds(es: seq<Event>, now: int)
    ensures Ids(StampAll(es, now)) == Ids(es)
  {
    var r := StampAll(es, now);
    forall k | k in Ids(es) ensures k in Ids(r) {
      var i :| 0 <= i < |es| && es[i].id == Some(k);
      assert r[i].id == Some(k);
    }
    forall k | k in Ids(r) ensures k in Ids(es) {
      var i :| 0 <= i < |r| && r[i].id == Some(k);
      assert es[i].id == Some(k);
    }
  }

  /** The table a sync leaves behind once past the in-flight guard: offline,
      the table as it was; online, every row first flagged as cached, then
      (if the fetch returned) the stamped fetched records upserted. */
  function SyncedTable(m: Table, online: bool, fetched: Remote<seq<Event>>, now: int): (r: Table)
    ensures !online ==> r == m
    ensures m.Keys <= r.Keys
    ensures Keyed(m) ==> Keyed(r)
    ensures online && fetched.Fail? ==> r.Keys == m.Keys
    ensures online && fetched.Fail? ==> forall k :: k in m ==>
      r[k].isFromCache && SameContent(r[k], m[k]) && r[k].lastSyncTimestamp == m[k].lastSyncTimestamp
  {
    if !online then m
    else
      match fetched
      case Ok(remoteEvents) => UpsertAll(MarkAll(m, true), StampAll(remoteEvents, now))
      case Fail => MarkAll(m, true)
  }

  /** A successful sync stores each fetched record (the last one, if several
      carry one id) stamped as confirmed at `now`. */
  lemma SyncStoresFetched(m: Table, es: seq<Event>, now: int, i: nat)
    requires i < |es| && es[i].id.Some?
    requires forall j :: i < j < |es| ==> es[j].id != es[i].id
    ensures es[i].id.value in SyncedTable(m, true, Ok(es), now)
    ensures SyncedTable(m, true, Ok(es), now)[es[i].id.value] == Stamped(es[i], now)
  {
    UpsertAllStoresLast(MarkAll(m, true), StampAll(es, now), i);
  }

  /** A successful sync deletes nothing: a row whose id the server no longer
      lists stays as it was, old timestamp included, except that it is now
      flagged as cached. */
  lemma SyncKeepsUnlistedRows(m: Table, es: seq<Event>, now: int, k: int)
    requires k in m && k !in Ids(es)
    ensures k in SyncedTable(m, true, Ok(es), now)
    ensures SyncedTable(m, true, Ok(es), now)[k] == m[k].(isFromCache := true)
  {
    StampAllIds(es, now);
  }

  /** Syncing twice against the same server list at the same time gives the
      table one sync gives, provided the server gives every record an id
      (a record without one is stored under a new key on every sync). */
  lemma SyncIdempotent(m: Table, es: seq<Event>, now: int)
    requires forall i :: 0 <= i < |es| ==> es[i].id.Some?
    ensures SyncedTable(SyncedTable(m, true, Ok(es), now), true, Ok(es), now) == SyncedTable(m, true, Ok(es), now)
  {
    var s := StampAll(es, now);
    assert forall i :: 0 <= i < |s| ==> s[i].id.Some?;
    MarkThenUpsertIdempotent(m, s);
  }

  /** After a successful sync that fetched at least one record, with no row
      stamped later than `now`, the table's last sync time is `now`. */
  lemma SyncSetsLastSyncTimestamp(m: Table, es: seq<Event>, now: int)
    requires es != []
    requires forall k :: k in m ==> m[k].lastSyncTimestamp <= now
    ensures MaxTimestamp(SyncedTable(m, true, Ok(es), now)) == Some(now)
  {
    var marked, s := MarkAll(m, true), StampAll(es, now);
    var r := UpsertAll(marked, s);
    assert r == SyncedTable(m, true, Ok(es), now);
    UpsertAllStampBound(marked, s, now);
    var k := UpsertAllLastLands(marked, s);
    MaxTimestampIs(r, k, now);
  }

  class EventRepository {
    const dao: EventDao
    /** The in-flight guard of syncEvents. */
    var isLoadingFromNetwork: bool
    /** The published `isLoading` flag. */
    var isLoading: bool
    /** The published `dataFromCache` flag. */
    var dataFromCache: bool

    ghost predicate Valid()
      reads this, dao
    {
      dao.Valid()
    }

    constructor (dao: EventDao)
      requires dao.Valid()
      ensures this.dao == dao && Valid()
      ensures !isLoadingFromNetwork && !isLoading && !dataFromCache
    {
      this.dao := dao;
      isLoadingFromNetwork := false;
      isLoading := false;
      dataFromCache := false;
    }

    /** getAllEvents: the local table, every row once, in date order. */
    function GetAllEvents(): (r: seq<Event>)
      reads this, dao
      requires Valid()
      ensures ListsTable(r, dao.rows) && SortedByDate(r)
    {
      dao.GetAllEvents()
    }

    /** getEventById: the local row with that id, or nothing. */
    function GetEventById(eventId: Option<int>): (r: Option<Event>)
      reads this, dao
      requires Valid()
      ensures r.Some? <==> eventId.Some? && eventId.value in dao.rows
      ensures r.Some? ==> r.value == dao.rows[eventId.value] && r.value.id == eventId
    {
      dao.GetEventById(eventId)
    }

    /** syncEvents. `online` is the reachability probe's answer, `fetched`
        the outcome of the list request (consulted only when online), `now`
        the clock. */
    method SyncEvents(online: bool, fetched: Remote<seq<Event>>, now: int)
      requires Valid()
      modifies this, dao
      ensures Valid()
      ensures old(isLoadingFromNetwork) ==>
        isLoadingFromNetwork && isLoading == old(isLoading) &&
        dataFromCache == old(dataFromCache) && dao.rows == old(dao.rows)
      ensures !old(isLoadingFromNetwork) ==> !isLoadingFromNetwork && !isLoading
      ensures !old(isLoadingFromNetwork) ==> dataFromCache == !(online && fetched.Ok?)
      ensures !old(isLoadingFromNetwork) ==> dao.rows == SyncedTable(old(dao.rows), online, fetched, now)
    {
      if isLoadingFromNetwork {
        return;
      }
      isLoadingFromNetwork := true;
      isLoading := true;
      if online {
        dao.UpdateCacheStatus(true);
        match fetched
        case Ok(remoteEvents) =>
          var localEvents := StampAll(remoteEvents, now);
          dao.InsertEvents(localEvents);
          dataFromCache := false;
        case Fail =>
          dataFromCache := true;
      } else {
        dataFromCache := true;
      }
      isLoadingFromNetwork := false;
      isLoading := false;
    }

    /** addEvent. `hasImage` says whether an image was picked; `created` is
        the outcome of copying the image and posting the create request
        (consulted only when online with an image). */
    method AddEvent(event: Event, hasImage: bool, online: bool, created: Remote<Event>, now: int)
      returns (r: Result<Event>)
      requires Valid()
      modifies dao
      ensures Valid()
      ensures online && hasImage && created.Fail? ==> r == Failure && dao.rows == old(dao.rows)
      ensures online && hasImage && created.Ok? ==>
        r == Success(created.value) &&
        dao.rows == Upsert(old(dao.rows), Stamped(created.value, now))
      ensures !(online && hasImage) ==>
        r == Success(event.(isFromCache := true)) &&
        dao.rows == Upsert(old(dao.rows), event.(isFromCache := true))
    {
      if online && hasImage {
        match created
        case Ok(newEvent) =>
          var _ := dao.InsertEvent(Stamped(newEvent, now));
          r := Success(newEvent);
        case Fail =>
          r := Failure;
      } else {
        var localEvent := event.(isFromCache := true);
        var id := dao.InsertEvent(localEvent);
        r := Success(localEvent);
      }
    }

    /** updateEvent. `updated` is the outcome of the update request
        (consulted only when online). */
    method UpdateEvent(event: Event, online: bool, updated: Remote<Event>, now: int)
      returns (r: Result<Event>)
      requires Valid()
      modifies dao
      ensures Valid()
      ensures online && updated.Fail? ==> r == Failure && dao.rows == old(dao.rows)
      ensures online && updated.Ok? ==>
        r == Success(updated.value) &&
        dao.rows == UpdateRow(old(dao.rows), Stamped(updated.value, now))
      ensures !online ==>
        r == Success(event.(isFromCache := true)) &&
        dao.rows == UpdateRow(old(dao.rows), event.(isFromCache := true))
    {
      if online {
        match updated
        case Ok(updatedEvent) =>
          dao.UpdateEvent(Stamped(updatedEvent, now));
          r := Success(updatedEvent);
        case Fail =>
          r := Failure;
      } else {
        var localEvent := event.(isFromCache := true);
        dao.UpdateEvent(localEvent);
        r := Success(localEvent);
      }
    }

    /** deleteEvent. `deleted` is the outcome of the delete request: the HTTP
        status of the response, or an exception (consulted only when online). */
    method DeleteEvent(eventId: Option<int>, online: bool, deleted: Remote<int>)
      returns (r: Result<()>)
      requires Valid()
      modifies dao
      ensures Valid()
      ensures online && deleted.Fail? ==> r == Failure && dao.rows == old(dao.rows)
      ensures !(online && deleted.Fail?) ==>
        r == Success(()) && dao.rows == DeleteRow(old(dao.rows), eventId)
    {
      if online {
        if deleted.Fail? {
          return Failure;
        }
      }
      dao.DeleteEvent(eventId);
      r := Success(());
    }
  }
}
