/** The events table behind data/EventDao.kt. The pure functions give the
    meaning of each SQL statement on a table value; the class EventDao holds
    the table and applies them in place, one method or query per DAO entry. */
module Dao {
  import opened Models
  import Collation

  /** The events table: each row stored under its primary key. */
  type Table = map<int, Event>

  /** Every row carries the key it is stored under as its id. */
  ghost predicate Keyed(m: Table) {
    forall k :: k in m ==> m[k].id == Some(k)
  }

  /** The ids the records of a list carry (records without one contribute nothing). */
  function Ids(es: seq<Event>): set<int> {
    set i | 0 <= i < |es| && es[i].id.Some? :: es[i].id.value
  }

  // ---- keys for rows inserted without an id ----

  lemma ElementOf(s: set<int>) returns (x: int)
    requires s != {}
    ensures x in s
  {
    // Not dead code: naming the empty case hands the solver the witness it
    // needs for the `:|` below.
    if forall y :: y !in s {
      assert false;
    }
    x :| x in s;
  }

  lemma {:induction false} MaxExists(s: set<int>)
    requires s != {}
    ensures exists x :: x in s && forall y :: y in s ==> y <= x
  {
    var x := ElementOf(s);
    if s == {x} {
      assert forall y :: y in s ==> y <= x;
    } else {
      MaxExists(s - {x});
      var z :| z in s - {x} && forall y :: y in s - {x} ==> y <= z;
      var top := if x <= z then z else x;
      forall y | y in s ensures y <= top {
        if y != x { assert y in s - {x}; }
      }
    }
  }

  function Max(s: set<int>): (x: int)
    requires s != {}
    ensures x in s && forall y :: y in s ==> y <= x
  {
    MaxExists(s);
    var x :| x in s && forall y :: y in s ==> y <= x; x
  }

  /** The key given to a row inserted without one: one past the largest key
      in the table, or 1 in an empty table (SQLite's rowid rule). */
  function NextKey(m: Table): (k: int)
    ensures k !in m
    ensures forall j :: j in m ==> j < k
    ensures m == map[] ==> k == 1
  {
    if m == map[] then 1
    else
      assert m.Keys != {};
      Max(m.Keys) + 1
  }

  /** The key an insert of `e` lands under, which insertEvent returns. */
  function KeyFor(m: Table, e: Event): (k: int)
    ensures e.id.Some? ==> k == e.id.value
    ensures e.id.None? ==> k !in m
  {
    if e.id.Some? then e.id.value else NextKey(m)
  }

  // ---- the statements ----

  /** INSERT with ON CONFLICT REPLACE of one record: the record lands under
      its own id, replacing any row there, or under a fresh key when it has
      none; no other row changes. */
  function Upsert(m: Table, e: Event): (r: Table)
    ensures r.Keys == m.Keys + {KeyFor(m, e)}
    ensures r[KeyFor(m, e)] == e.(id := Some(KeyFor(m, e)))
    ensures e.id.Some? ==> r[e.id.value] == e
    ensures forall k :: k in m && k != KeyFor(m, e) ==> r[k] == m[k]
    ensures Keyed(m) ==> Keyed(r)
  {
    var k := KeyFor(m, e);
    m[k := e.(id := Some(k))]
  }

  /** INSERT with ON CONFLICT REPLACE of a list, record after record: no row
      disappears, every id of the list ends up in the table, and a row whose
      id no record carries keeps its content. */
  function UpsertAll(m: Table, es: seq<Event>): (r: Table)
    ensures m.Keys <= r.Keys
    ensures Ids(es) <= r.Keys
    ensures forall k :: k in m && k !in Ids(es) ==> r[k] == m[k]
    ensures Keyed(m) ==> Keyed(r)
    decreases |es|
  {
    if es == [] then m
    else
      var init, last := es[..|es| - 1], es[|es| - 1];
      assert es == init + [last];
      assert Ids(es) == Ids(init) + (if last.id.Some? then {last.id.value} else {}) by {
        forall k | k in Ids(es) ensures k in Ids(init) || last.id == Some(k) {
          var i :| 0 <= i < |es| && es[i].id == Some(k);
          if i < |es| - 1 { assert init[i] == es[i]; }
        }
        forall k | k in Ids(init) ensures k in Ids(es) {
          var i :| 0 <= i < |init| && init[i].id == Some(k);
          assert es[i] == init[i];
        }
      }
      Upsert(UpsertAll(m, init), last)
  }

  /** After a list upsert, the row under an id holds the last record of the
      list that carries that id. */
  lemma {:induction false} UpsertAllStoresLast(m: Table, es: seq<Event>, i: nat)
    requires i < |es| && es[i].id.Some?
    requires forall j :: i < j < |es| ==> es[j].id != es[i].id
    ensures es[i].id.value in UpsertAll(m, es)
    ensures UpsertAll(m, es)[es[i].id.value] == es[i]
    decreases |es|
  {
    var init, last := es[..|es| - 1], es[|es| - 1];
    if i < |es| - 1 {
      assert init[i] == es[i];
      UpsertAllStoresLast(m, init, i);
      var k := es[i].id.value;
      var u := UpsertAll(m, init);
      assert k in u;
      assert KeyFor(u, last) != k;
    }
  }

  /** For an id the list carries, the row an upsert leaves under it does not
      depend on what the table held before. */
  lemma {:induction false} UpsertAllIgnoresBase(m1: Table, m2: Table, es: seq<Event>, k: int)
    requires k in Ids(es)
    ensures UpsertAll(m1, es)[k] == UpsertAll(m2, es)[k]
    decreases |es|
  {
    var init, last := es[..|es| - 1], es[|es| - 1];
    var i :| 0 <= i < |es| && es[i].id == Some(k);
    if last.id != Some(k) {
      assert i < |es| - 1 && init[i] == es[i];
      assert k in Ids(init);
      UpsertAllIgnoresBase(m1, m2, init, k);
      assert KeyFor(UpsertAll(m1, init), last) != k;
      assert KeyFor(UpsertAll(m2, init), last) != k;
    }
  }

  /** When every record carries an id, the upsert adds exactly those ids. */
  lemma {:induction false} UpsertAllKeys(m: Table, es: seq<Event>)
    requires forall i :: 0 <= i < |es| ==> es[i].id.Some?
    ensures UpsertAll(m, es).Keys == m.Keys + Ids(es)
    decreases |es|
  {
    if es != [] {
      var init, last := es[..|es| - 1], es[|es| - 1];
      UpsertAllKeys(m, init);
      assert Ids(es) == Ids(init) + {last.id.value} by {
        forall k | k in Ids(es) ensures k in Ids(init) || k == last.id.value {
          var i :| 0 <= i < |es| && es[i].id == Some(k);
          if i < |es| - 1 { assert init[i] == es[i]; }
        }
        forall k | k in Ids(init) ensures k in Ids(es) {
          var i :| 0 <= i < |init| && init[i].id == Some(k);
          assert es[i] == init[i];
        }
      }
    }
  }

  /** An upsert of records stamped no later than `t` into a table stamped no
      later than `t` leaves every row stamped no later than `t`. */
  lemma {:induction false} UpsertAllStampBound(m: Table, es: seq<Event>, t: int)
    requires forall k :: k in m ==> m[k].lastSyncTimestamp <= t
    requires forall i :: 0 <= i < |es| ==> es[i].lastSyncTimestamp <= t
    ensures forall k :: k in UpsertAll(m, es) ==> UpsertAll(m, es)[k].lastSyncTimestamp <= t
    decreases |es|
  {
    if es != [] {
      UpsertAllStampBound(m, es[..|es| - 1], t);
    }
  }

  /** The last record of a non-empty list lands in the table. */
  lemma UpsertAllLastLands(m: Table, es: seq<Event>) returns (k: int)
    requires es != []
    ensures k in UpsertAll(m, es)
    ensures UpsertAll(m, es)[k] == es[|es| - 1].(id := Some(k))
  {
    var u := UpsertAll(m, es[..|es| - 1]);
    assert UpsertAll(m, es) == Upsert(u, es[|es| - 1]);
    k := KeyFor(u, es[|es| - 1]);
  }

  /** UPDATE events SET isFromCache = b: every row gets the flag, no other
      column changes and no row appears or disappears. */
  function MarkAll(m: Table, b: bool): (r: Table)
    ensures r.Keys == m.Keys
    ensures forall k :: k in m ==>
      r[k].isFromCache == b && SameContent(r[k], m[k]) &&
      r[k].lastSyncTimestamp == m[k].lastSyncTimestamp
    ensures Keyed(m) ==> Keyed(r)
  {
    map k | k in m :: m[k].(isFromCache := b)
  }

  /** @Update: replaces the row whose key is the record's id; a record whose
      id matches no row (or that has none) changes nothing, and no row is
      ever added. */
  function UpdateRow(m: Table, e: Event): (r: Table)
    ensures r.Keys == m.Keys
    ensures e.id.Some? && e.id.value in m ==> r[e.id.value] == e
    ensures forall k :: k in m && e.id != Some(k) ==> r[k] == m[k]
    ensures Keyed(m) ==> Keyed(r)
  {
    if e.id.Some? && e.id.value in m then m[e.id.value := e] else m
  }

  /** DELETE FROM events WHERE id = :eventId: removes exactly the row with
      that key; a NULL id compares equal to no row, so it removes nothing. */
  function DeleteRow(m: Table, id: Option<int>): (r: Table)
    ensures id.Some? ==> r.Keys == m.Keys - {id.value}
    ensures id.None? ==> r == m
    ensures forall k :: k in r ==> r[k] == m[k]
    ensures Keyed(m) ==> Keyed(r)
  {
    if id.Some? then m - {id.value} else m
  }

  // ---- ORDER BY date ASC ----

  /** The order the query lists rows in: by date under the BINARY collation;
      rows of the same date by id. SQL leaves the order of equal dates open;
      listing them by id is this model's choice. */
  predicate Precedes(a: Event, b: Event) {
    if a.date == b.date then
      a.id.None? || (b.id.Some? && a.id.value <= b.id.value)
    else Collation.Le(a.date, b.date)
  }

  lemma PrecedesTotal(a: Event, b: Event)
    ensures Precedes(a, b) || Precedes(b, a)
  {
    Collation.LeTotal(a.date, b.date);
  }

  lemma PrecedesTransitive(a: Event, b: Event, c: Event)
    requires Precedes(a, b) && Precedes(b, c)
    ensures Precedes(a, c)
  {
    if a.date != b.date && b.date != c.date {
      Collation.LeTransitive(a.date, b.date, c.date);
      if a.date == c.date {
        Collation.LeAntisymmetric(a.date, b.date);
      }
    }
  }

  /** Two rows of a keyed table that precede each other are one row. */
  lemma PrecedesAntisymmetric(m: Table)
    requires Keyed(m)
    ensures forall j, k :: j in m && k in m && Precedes(m[j], m[k]) && Precedes(m[k], m[j]) ==> j == k
  {
    forall j, k | j in m && k in m && Precedes(m[j], m[k]) && Precedes(m[k], m[j])
      ensures j == k
    {
      if m[j].date != m[k].date {
        Collation.LeAntisymmetric(m[j].date, m[k].date);
      }
    }
  }

  lemma {:induction false} FirstExists(m: Table, ks: set<int>)
    requires ks <= m.Keys && ks != {}
    ensures exists k :: k in ks && forall j :: j in ks ==> Precedes(m[k], m[j])
  {
    var x := ElementOf(ks);
    if ks == {x} {
      PrecedesTotal(m[x], m[x]);
      assert forall j :: j in ks ==> Precedes(m[x], m[j]);
    } else {
      FirstExists(m, ks - {x});
      var y :| y in ks - {x} && forall j :: j in ks - {x} ==> Precedes(m[y], m[j]);
      PrecedesTotal(m[x], m[y]);
      if Precedes(m[y], m[x]) {
        forall j | j in ks ensures Precedes(m[y], m[j]) {
          if j != x { assert j in ks - {x}; }
        }
      } else {
        forall j | j in ks ensures Precedes(m[x], m[j]) {
          PrecedesTotal(m[x], m[x]);
          if j != x {
            assert j in ks - {x};
            PrecedesTransitive(m[x], m[y], m[j]);
          }
        }
      }
    }
  }

  /** The rows whose keys are in `ks`, in query order. */
  function OrderedRows(m: Table, ks: set<int>): (r: seq<Event>)
    requires Keyed(m) && ks <= m.Keys
    ensures InQueryOrder(r, m, ks)
    decreases ks
  {
    if ks == {} then []
    else
      PrecedesAntisymmetric(m);
      FirstExists(m, ks);
      var k :| k in ks && forall j :: j in ks ==> Precedes(m[k], m[j]);
      var rest := OrderedRows(m, ks - {k});
      FirstThenRest(m, ks, k, rest);
      [m[k]] + rest
  }

  /** `r` lists the rows whose keys are in `ks`, each once, in query order. */
  ghost predicate InQueryOrder(r: seq<Event>, m: Table, ks: set<int>)
    requires ks <= m.Keys
  {
    |r| == |ks| &&
    (forall k :: k in ks ==> m[k] in r) &&
    (forall i :: 0 <= i < |r| ==> r[i].id.Some? && r[i].id.value in ks && m[r[i].id.value] == r[i]) &&
    (forall i, j :: 0 <= i < j < |r| ==> Precedes(r[i], r[j]) && r[i] != r[j])
  }

  lemma FirstThenRest(m: Table, ks: set<int>, k: int, rest: seq<Event>)
    requires Keyed(m) && ks <= m.Keys && k in ks
    requires forall j :: j in ks ==> Precedes(m[k], m[j])
    requires InQueryOrder(rest, m, ks - {k})
    ensures InQueryOrder([m[k]] + rest, m, ks)
  {
    var r := [m[k]] + rest;
    assert |ks - {k}| == |ks| - 1;
    forall j | j in ks ensures m[j] in r {
      if j != k { assert j in ks - {k}; assert m[j] in rest; }
    }
    forall i | 0 <= i < |r| ensures r[i].id.Some? && r[i].id.value in ks && m[r[i].id.value] == r[i] {
      if i > 0 { assert r[i] == rest[i - 1]; }
    }
    forall i, j | 0 <= i < j < |r| ensures Precedes(r[i], r[j]) && r[i] != r[j] {
      assert r[j] == rest[j - 1];
      if i > 0 {
        assert r[i] == rest[i - 1];
      } else {
        var kj := rest[j - 1].id.value;
        assert kj in ks - {k};
        assert r[j] == m[kj] && m[kj].id == Some(kj) && m[k].id == Some(k);
      }
    }
  }

  /** SELECT * FROM events ORDER BY date ASC, as a list of rows. */
  function OrderByDate(m: Table): (r: seq<Event>)
    requires Keyed(m)
    ensures ListsTable(r, m)
    ensures SortedByDate(r)
  {
    var r := OrderedRows(m, m.Keys);
    assert |m.Keys| == |m|;
    assert forall i, j :: 0 <= i < j < |r| ==> Precedes(r[i], r[j]) && r[i] != r[j];
    forall i, j | 0 <= i < j < |r| ensures Collation.Le(r[i].date, r[j].date) {
      Collation.LeReflexive(r[i].date);
    }
    r
  }

  /** `r` lists every row of `m` once: as many entries as rows, each a row of
      the table under its own id, every row present. */
  ghost predicate ListsTable(r: seq<Event>, m: Table) {
    |r| == |m| &&
    (forall k :: k in m ==> m[k] in r) &&
    (forall i :: 0 <= i < |r| ==> r[i].id.Some? && r[i].id.value in m && m[r[i].id.value] == r[i]) &&
    (forall i, j :: 0 <= i < j < |r| ==> r[i] != r[j])
  }

  ghost predicate SortedByDate(r: seq<Event>) {
    forall i, j :: 0 <= i < j < |r| ==> Collation.Le(r[i].date, r[j].date)
  }

  /** Two listed dates that both have the form `yyyy-MM-dd` in ASCII digits
      are in calendar order. Other dates (an unpicked date stored as `""`,
      which sorts first; locale digits; server text) are only in text order. */
  lemma ListingIsChronological(m: Table, i: nat, j: nat)
    requires Keyed(m)
    requires i < j < |OrderByDate(m)|
    requires Collation.IsIsoDate(OrderByDate(m)[i].date) && Collation.IsIsoDate(OrderByDate(m)[j].date)
    ensures Collation.OnOrBefore(OrderByDate(m)[i].date, OrderByDate(m)[j].date)
  {
    Collation.DateOrder(OrderByDate(m)[i].date, OrderByDate(m)[j].date);
  }

  // ---- SELECT MAX(lastSyncTimestamp) ----

  /** The largest timestamp of any row, or NULL for an empty table. */
  function MaxTimestamp(m: Table): (r: Option<int>)
    ensures r.None? <==> m == map[]
    ensures r.Some? ==> exists k :: k in m && m[k].lastSyncTimestamp == r.value
    ensures r.Some? ==> forall k :: k in m ==> m[k].lastSyncTimestamp <= r.value
  {
    if m == map[] then None
    else
      var stamps := set k | k in m :: m[k].lastSyncTimestamp;
      assert forall k :: k in m ==> m[k].lastSyncTimestamp in stamps;
      assert stamps != {} by {
        var j := ElementOf(m.Keys);
        assert m[j].lastSyncTimestamp in stamps;
      }
      Some(Max(stamps))
  }

  /** Flagging every row as cached and then upserting a list in which every
      record has an id, done twice, gives what doing it once gives. */
  lemma MarkThenUpsertIdempotent(m: Table, es: seq<Event>)
    requires forall i :: 0 <= i < |es| ==> es[i].id.Some?
    ensures UpsertAll(MarkAll(UpsertAll(MarkAll(m, true), es), true), es) == UpsertAll(MarkAll(m, true), es)
  {
    var marked1 := MarkAll(m, true);
    var once := UpsertAll(marked1, es);
    var marked2 := MarkAll(once, true);
    var twice := UpsertAll(marked2, es);
    UpsertAllKeys(marked1, es);
    UpsertAllKeys(marked2, es);
    assert twice.Keys == once.Keys;
    forall k | k in once ensures twice[k] == once[k] {
      ResyncSameRow(marked1, es, k);
    }
  }

  lemma ResyncSameRow(marked: Table, es: seq<Event>, k: int)
    requires forall i :: 0 <= i < |es| ==> es[i].id.Some?
    requires forall j :: j in marked ==> marked[j].isFromCache
    requires k in UpsertAll(marked, es)
    ensures k in UpsertAll(MarkAll(UpsertAll(marked, es), true), es)
    ensures UpsertAll(MarkAll(UpsertAll(marked, es), true), es)[k] == UpsertAll(marked, es)[k]
  {
    var once := UpsertAll(marked, es);
    var marked2 := MarkAll(once, true);
    if k in Ids(es) {
      UpsertAllIgnoresBase(marked2, marked, es, k);
    } else {
      UpsertAllKeys(marked, es);
      assert k in marked && once[k] == marked[k];
      MarkAllKeepsFlagged(once, true, k);
    }
  }

  /** Setting the flag a row already has leaves the row as it was. */
  lemma MarkAllKeepsFlagged(m: Table, b: bool, k: int)
    requires k in m && m[k].isFromCache == b
    ensures MarkAll(m, b)[k] == m[k]
  {
  }

  /** A timestamp some row has and no row exceeds is the table's maximum. */
  lemma MaxTimestampIs(m: Table, k: int, t: int)
    requires k in m && m[k].lastSyncTimestamp == t
    requires forall j :: j in m ==> m[j].lastSyncTimestamp <= t
    ensures MaxTimestamp(m) == Some(t)
  {
    var j :| j in m && m[j].lastSyncTimestamp == MaxTimestamp(m).value;
  }

  // ---- the DAO ----

  class EventDao {
    var rows: Table

    ghost predicate Valid()
      reads this
    {
      Keyed(rows)
    }

    constructor ()
      ensures Valid() && rows == map[]
    {
      rows := map[];
    }

    /** getAllEvents: every row once, in date order. */
    function GetAllEvents(): (r: seq<Event>)
      reads this
      requires Valid()
      ensures ListsTable(r, rows) && SortedByDate(r)
    {
      OrderByDate(rows)
    }

    /** getEventById: the row with that id, or null when there is none or
        the id is null. */
    function GetEventById(eventId: Option<int>): (r: Option<Event>)
      reads this
      requires Valid()
      ensures r.Some? <==> eventId.Some? && eventId.value in rows
      ensures r.Some? ==> r.value == rows[eventId.value] && r.value.id == eventId
    {
      match eventId
      case Some(k) => if k in rows then Some(rows[k]) else None
      case None => None
    }

    /** insertEvents */
    method InsertEvents(events: seq<Event>)
      requires Valid()
      modifies this
      ensures Valid()
      ensures rows == UpsertAll(old(rows), events)
    {
      rows := UpsertAll(rows, events);
    }

    /** insertEvent: returns the key the row was stored under. */
    method InsertEvent(event: Event) returns (rowId: int)
      requires Valid()
      modifies this
      ensures Valid()
      ensures rowId == KeyFor(old(rows), event)
      ensures event.id.Some? ==> rowId == event.id.value
      ensures event.id.None? ==> rowId !in old(rows)
      ensures rows == old(rows)[rowId := event.(id := Some(rowId))]
    {
      rowId := KeyFor(rows, event);
      rows := Upsert(rows, event);
    }

    /** updateEvent */
    method UpdateEvent(event: Event)
      requires Valid()
      modifies this
      ensures Valid()
      ensures rows == UpdateRow(old(rows), event)
    {
      rows := UpdateRow(rows, event);
    }

    /** updateCacheStatus */
    method UpdateCacheStatus(isFromCache: bool)
      requires Valid()
      modifies this
      ensures Valid()
      ensures rows == MarkAll(old(rows), isFromCache)
    {
      rows := MarkAll(rows, isFromCache);
    }

    /** deleteEvent */
    method DeleteEvent(eventId: Option<int>)
      requires Valid()
      modifies this
      ensures Valid()
      ensures rows == DeleteRow(old(rows), eventId)
    {
      rows := DeleteRow(rows, eventId);
    }

    /** clearAllEvents */
    method ClearAllEvents()
      modifies this
      ensures Valid()
      ensures rows == map[]
    {
      rows := map[];
    }

    /** getLastSyncTimestamp */
    function GetLastSyncTimestamp(): (r: Option<int>)
      reads this
      ensures r.None? <==> rows == map[]
      ensures r.Some? ==> exists k :: k in rows && rows[k].lastSyncTimestamp == r.value
      ensures r.Some? ==> forall k :: k in rows ==> rows[k].lastSyncTimestamp <= r.value
    {
      MaxTimestamp(rows)
    }
  }
}
