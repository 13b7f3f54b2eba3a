/**
  The per-day metric tables `weights` and `calories`: rows (id, user_id, date, value)
  keyed in practice by (user_id, date). Both route files work on them the same way:
  look the key up, then overwrite the row found or insert a new one; delete a row by id
  after an ownership check; list a user's rows by date.

  Dates are day numbers (days since 1970-01-01); values are integers.
*/
module Metrics {
  import opened Wrappers
  import opened Sql

  datatype Row = Row(id: Id, userId: Id, date: Day, value: int)

  predicate HasKey(r: Row, user: Id, date: Day) {
    r.userId == user && r.date == date
  }

  predicate DistinctIds(a: Row, b: Row) {
    a.id != b.id
  }

  predicate DistinctKeys(a: Row, b: Row) {
    !HasKey(b, a.userId, a.date)
  }

  /** The serial primary key: distinct ids, each below the next id the table hands out. */
  ghost predicate IdsFresh(rows: seq<Row>, nextId: nat) {
    && (forall i :: 0 <= i < |rows| ==> rows[i].id < nextId)
    && Pairwise(rows, DistinctIds)
  }

  /** The natural key the routes maintain by hand: at most one row per (user, date). */
  ghost predicate KeyUnique(rows: seq<Row>) {
    Pairwise(rows, DistinctKeys)
  }

  // ---------------------------------------------------------------- lookups

  /** `SELECT id FROM t WHERE user_id = $1 AND date = $2`, first row: where the key is stored first. */
  function KeyIndex(rows: seq<Row>, user: Id, date: Day): (k: Option<nat>)
    ensures k.None? <==> forall i :: 0 <= i < |rows| ==> !HasKey(rows[i], user, date)
    ensures k.Some? ==> k.value < |rows| && HasKey(rows[k.value], user, date)
    ensures k.Some? ==> forall i :: 0 <= i < k.value ==> !HasKey(rows[i], user, date)
  {
    if rows == [] then None
    else if HasKey(rows[0], user, date) then Some(0)
    else
      match KeyIndex(rows[1..], user, date)
      case None => None
      case Some(i) => Some(i + 1)
  }

  /** The lookup depends only on which positions hold the key. */
  lemma KeyIndexSameKeys(rows: seq<Row>, rows': seq<Row>, user: Id, date: Day)
    requires |rows'| == |rows|
    requires forall i :: 0 <= i < |rows| ==> (HasKey(rows'[i], user, date) <==> HasKey(rows[i], user, date))
    ensures KeyIndex(rows', user, date) == KeyIndex(rows, user, date)
  {
  }

  /** Appending a row never moves an earlier match; it is found only when nothing before it matches. */
  lemma {:induction false} KeyIndexAppend(rows: seq<Row>, x: Row, user: Id, date: Day)
    ensures KeyIndex(rows + [x], user, date) ==
      match KeyIndex(rows, user, date)
      case Some(i) => Some(i)
      case None => if HasKey(x, user, date) then Some(|rows|) else None
  {
    var r := rows + [x];
    if rows == [] {
      assert r == [x] && r[1..] == [];
    } else if !HasKey(rows[0], user, date) {
      assert r[0] == rows[0] && r[1..] == rows[1..] + [x];
      KeyIndexAppend(rows[1..], x, user, date);
    }
  }

  /** The row a `WHERE user_id = $1 AND date = $2` query returns first, if any. */
  function ByDate(rows: seq<Row>, user: Id, date: Day): (r: Option<Row>)
    ensures r.None? <==> forall x :: x in rows ==> !HasKey(x, user, date)
    ensures r.Some? ==> r.value in rows && HasKey(r.value, user, date)
  {
    match KeyIndex(rows, user, date)
    case None => None
    case Some(k) => Some(rows[k])
  }

  /** Under the natural key, the row found for a day is the one row stored for it. */
  lemma ByDateIsTheRow(rows: seq<Row>, x: Row)
    requires KeyUnique(rows)
    requires x in rows
    ensures ByDate(rows, x.userId, x.date) == Some(x)
  {
    var j :| 0 <= j < |rows| && rows[j] == x;
  }

  function DateLe(a: Row, b: Row): bool { a.date <= b.date }
  function DateGe(a: Row, b: Row): bool { a.date >= b.date }

  lemma DateOrders()
    ensures TotalPreorder(DateLe) && TotalPreorder(DateGe)
  {
  }

  /** `WHERE user_id = $1 AND date >= $2 ORDER BY date`: the user's rows from day `from` on, oldest first. */
  function Window(rows: seq<Row>, user: Id, from: Day): (r: seq<Row>)
    ensures SortedBy(r, DateLe)
    ensures forall x :: x in r <==> x in rows && x.userId == user && x.date >= from
    ensures forall x :: multiset(r)[x] == if x.userId == user && x.date >= from then multiset(rows)[x] else 0
  {
    DateOrders();
    var p := (x: Row) => x.userId == user && x.date >= from;
    SortedFilterMembers(rows, p, DateLe);
    FilterCounts(rows, p);
    SortBy(Filter(rows, p), DateLe)
  }

  /** The window of `/recent`: the last 30 days, counted back from `today`. */
  const RECENT_DAYS: nat := 30

  function Recent(rows: seq<Row>, user: Id, today: Day): (r: seq<Row>)
    ensures SortedBy(r, DateLe)
    ensures forall x :: x in r <==> x in rows && x.userId == user && x.date >= today - RECENT_DAYS
    ensures forall x :: multiset(r)[x] == if x.userId == user && x.date >= today - RECENT_DAYS then multiset(rows)[x] else 0
  {
    Window(rows, user, today - RECENT_DAYS)
  }

  /** `WHERE user_id = $1 ORDER BY date DESC`: all the user's rows, newest first. */
  function AllDesc(rows: seq<Row>, user: Id): (r: seq<Row>)
    ensures SortedBy(r, DateGe)
    ensures forall x :: x in r <==> x in rows && x.userId == user
    ensures forall x :: multiset(r)[x] == if x.userId == user then multiset(rows)[x] else 0
  {
    DateOrders();
    var p := (x: Row) => x.userId == user;
    SortedFilterMembers(rows, p, DateGe);
    FilterCounts(rows, p);
    SortBy(Filter(rows, p), DateGe)
  }

  /** `ORDER BY date DESC LIMIT 1`: the user's row with the greatest date, if the user has one. */
  function Latest(rows: seq<Row>, user: Id): (r: Option<Row>)
    ensures r.None? <==> forall x :: x in rows ==> x.userId != user
    ensures r.Some? ==> r.value in rows && r.value.userId == user
    ensures r.Some? ==> forall x :: x in rows && x.userId == user ==> x.date <= r.value.date
  {
    var all := AllDesc(rows, user);
    if all == [] then None
    else
      assert forall x :: x in all ==> DateGe(all[0], x) by {
        forall x | x in all ensures DateGe(all[0], x) {
          var k :| 0 <= k < |all| && all[k] == x;
          if k > 0 { assert DateGe(all[0], all[k]); }
        }
      }
      Some(all[0])
  }

  // ---------------------------------------------------------------- writes

  /** `UPDATE t SET value = $1 WHERE id = $2`. */
  function SetValue(rows: seq<Row>, id: Id, value: int): (r: seq<Row>)
    ensures |r| == |rows|
    ensures forall i :: 0 <= i < |rows| ==> r[i].id == rows[i].id && r[i].userId == rows[i].userId && r[i].date == rows[i].date
    ensures forall i :: 0 <= i < |rows| ==> r[i].value == if rows[i].id == id then value else rows[i].value
  {
    Update(rows, (x: Row) => x.id == id, (x: Row) => x.(value := value))
  }

  /** `DELETE FROM t WHERE id = $1`. */
  function WithoutId(rows: seq<Row>, id: Id): (r: seq<Row>)
    ensures forall x :: x in r <==> x in rows && x.id != id
  {
    Filter(rows, (x: Row) => x.id != id)
  }

  /** The ownership check of DELETE: `SELECT id FROM t WHERE id = $1 AND user_id = $2` finds a row. */
  predicate Owns(rows: seq<Row>, id: Id, user: Id)
    ensures Owns(rows, id, user) <==> Filter(rows, (x: Row) => x.id == id && x.userId == user) != []
  {
    var found := Filter(rows, (x: Row) => x.id == id && x.userId == user);
    assert found != [] ==> found[0] in found;
    exists x :: x in rows && x.id == id && x.userId == user
  }

  /**
    The table after an upsert of `value` for (`user`, `date`), `nextId` being the id an
    insert would take: the first row with that key gets the new value, or, when there
    is none, a new row is appended.
  */
  function Upserted(rows: seq<Row>, nextId: Id, user: Id, date: Day, value: int): (r: seq<Row>)
    ensures |r| == if forall x :: x in rows ==> !HasKey(x, user, date) then |rows| + 1 else |rows|
    ensures forall i :: 0 <= i < |rows| ==> r[i].id == rows[i].id && HasKey(r[i], rows[i].userId, rows[i].date)
    ensures exists x :: x in r && HasKey(x, user, date) && x.value == value
  {
    match KeyIndex(rows, user, date)
    case Some(k) => SetValue(rows, rows[k].id, value)
    case None => rows + [Row(nextId, user, date, value)]
  }

  /** An upsert of an existing key rewrites that row's value in place: same id, same position, nothing else changes. */
  lemma UpsertUpdatesInPlace(rows: seq<Row>, nextId: Id, user: Id, date: Day, value: int)
    requires IdsFresh(rows, nextId)
    requires KeyIndex(rows, user, date).Some?
    ensures var k := KeyIndex(rows, user, date).value;
      Upserted(rows, nextId, user, date, value) == rows[k := rows[k].(value := value)]
  {
    var k := KeyIndex(rows, user, date).value;
    var r := Upserted(rows, nextId, user, date, value);
    forall i | 0 <= i < |rows| && i != k ensures r[i] == rows[i] {
      if i < k { assert DistinctIds(rows[i], rows[k]); } else { assert DistinctIds(rows[k], rows[i]); }
    }
  }

  /** An upsert of an absent key appends exactly one row, carrying the fresh id. */
  lemma UpsertInsertsOne(rows: seq<Row>, nextId: Id, user: Id, date: Day, value: int)
    requires forall x :: x in rows ==> !HasKey(x, user, date)
    ensures Upserted(rows, nextId, user, date, value) == rows + [Row(nextId, user, date, value)]
  {
  }

  /** Whatever was stored, the day afterwards holds the written value; an existing row keeps its id. */
  lemma UpsertThenByDate(rows: seq<Row>, nextId: Id, user: Id, date: Day, value: int)
    requires IdsFresh(rows, nextId)
    ensures var found := ByDate(Upserted(rows, nextId, user, date, value), user, date);
      && found.Some?
      && found.value.value == value
      && found.value.id == (match ByDate(rows, user, date) case Some(prev) => prev.id case None => nextId)
  {
    var after := Upserted(rows, nextId, user, date, value);
    match KeyIndex(rows, user, date)
    case None =>
      KeyIndexAppend(rows, Row(nextId, user, date, value), user, date);
      assert KeyIndex(after, user, date) == Some(|rows|);
    case Some(k) =>
      UpsertUpdatesInPlace(rows, nextId, user, date, value);
      KeyIndexSameKeys(rows, after, user, date);
      assert KeyIndex(after, user, date) == Some(k);
  }

  /** A lookup of any other (user, date) sees the same row before and after an upsert. */
  lemma UpsertLeavesOtherDays(rows: seq<Row>, nextId: Id, user: Id, date: Day, value: int, user': Id, date': Day)
    requires IdsFresh(rows, nextId)
    requires user' != user || date' != date
    ensures ByDate(Upserted(rows, nextId, user, date, value), user', date') == ByDate(rows, user', date')
  {
    var after := Upserted(rows, nextId, user, date, value);
    match KeyIndex(rows, user, date)
    case None =>
      KeyIndexAppend(rows, Row(nextId, user, date, value), user', date');
      assert forall i :: 0 <= i < |rows| ==> after[i] == rows[i];
    case Some(k) =>
      UpsertUpdatesInPlace(rows, nextId, user, date, value);
      KeyIndexSameKeys(rows, after, user', date');
      var i := KeyIndex(rows, user', date');
      assert i.Some? ==> i.value != k;
  }

  /** Upserts keep the serial ids intact and never create a second row for a day. */
  lemma UpsertKeepsInvariants(rows: seq<Row>, nextId: Id, user: Id, date: Day, value: int)
    requires IdsFresh(rows, nextId)
    ensures var inserted := KeyIndex(rows, user, date).None?;
      IdsFresh(Upserted(rows, nextId, user, date, value), if inserted then nextId + 1 else nextId)
    ensures KeyUnique(rows) ==> KeyUnique(Upserted(rows, nextId, user, date, value))
  {
    match KeyIndex(rows, user, date)
    case None =>
    case Some(k) =>
      UpsertUpdatesInPlace(rows, nextId, user, date, value);
  }

  /** Two upserts of the same day are one upsert of the later value: the last write wins. */
  lemma UpsertLastWriteWins(rows: seq<Row>, nextId: Id, nextId': Id, user: Id, date: Day, v1: int, v2: int)
    requires IdsFresh(rows, nextId)
    ensures Upserted(Upserted(rows, nextId, user, date, v1), nextId', user, date, v2)
         == Upserted(rows, nextId, user, date, v2)
  {
    if KeyIndex(rows, user, date).None? {
      LastWriteOnNewDay(rows, nextId, nextId', user, date, v1, v2);
    } else {
      LastWriteOnLoggedDay(rows, nextId, nextId', user, date, v1, v2);
    }
  }

  lemma LastWriteOnNewDay(rows: seq<Row>, nextId: Id, nextId': Id, user: Id, date: Day, v1: int, v2: int)
    requires IdsFresh(rows, nextId)
    requires KeyIndex(rows, user, date).None?
    ensures Upserted(Upserted(rows, nextId, user, date, v1), nextId', user, date, v2)
         == Upserted(rows, nextId, user, date, v2)
  {
    var once := Upserted(rows, nextId, user, date, v1);
    UpsertKeepsInvariants(rows, nextId, user, date, v1);
    KeyIndexAppend(rows, Row(nextId, user, date, v1), user, date);
    UpsertUpdatesInPlace(once, nextId + 1, user, date, v2);
    assert once[|rows| := once[|rows|].(value := v2)] == rows + [Row(nextId, user, date, v2)];
  }

  lemma LastWriteOnLoggedDay(rows: seq<Row>, nextId: Id, nextId': Id, user: Id, date: Day, v1: int, v2: int)
    requires IdsFresh(rows, nextId)
    requires KeyIndex(rows, user, date).Some?
    ensures Upserted(Upserted(rows, nextId, user, date, v1), nextId', user, date, v2)
         == Upserted(rows, nextId, user, date, v2)
  {
    var once := Upserted(rows, nextId, user, date, v1);
    UpsertKeepsInvariants(rows, nextId, user, date, v1);
    UpsertUpdatesInPlace(rows, nextId, user, date, v1);
    KeyIndexSameKeys(rows, once, user, date);
    UpsertUpdatesInPlace(once, nextId, user, date, v2);
    UpsertUpdatesInPlace(rows, nextId, user, date, v2);
  }

  /** Deleting an owned id removes that one row and keeps the others in order. */
  lemma {:induction false} DeleteRemovesOne(rows: seq<Row>, k: nat)
    requires k < |rows|
    requires forall i :: 0 <= i < |rows| && i != k ==> rows[i].id != rows[k].id
    ensures WithoutId(rows, rows[k].id) == rows[..k] + rows[k + 1..]
  {
    var id := rows[k].id;
    var p := (x: Row) => x.id != id;
    assert WithoutId(rows, id) == Filter(rows, p);
    if k == 0 {
      assert Filter(rows, p) == Filter(rows[1..], p);
      KeepAll(rows[1..], id);
      assert rows[..k] + rows[k + 1..] == rows[1..];
    } else {
      var tail := rows[1..];
      assert Filter(rows, p) == [rows[0]] + Filter(tail, p);
      assert tail[k - 1] == rows[k];
      forall i | 0 <= i < |tail| && i != k - 1 ensures tail[i].id != id {
        assert tail[i] == rows[i + 1];
      }
      DeleteRemovesOne(tail, k - 1);
      assert tail[..k - 1] == rows[1..k] && tail[k..] == rows[k + 1..];
      assert rows[..k] == [rows[0]] + rows[1..k];
    }
  }

  /** A delete that matches no row leaves the table as it was. */
  lemma {:induction false} KeepAll(rows: seq<Row>, id: Id)
    requires forall i :: 0 <= i < |rows| ==> rows[i].id != id
    ensures WithoutId(rows, id) == rows
  {
    if rows != [] {
      var p := (x: Row) => x.id != id;
      KeepAll(rows[1..], id);
      assert Filter(rows, p) == [rows[0]] + Filter(rows[1..], p);
      assert rows == [rows[0]] + rows[1..];
    }
  }

  /** Deletes keep the serial ids intact and keep the natural key. */
  lemma DeleteKeepsInvariants(rows: seq<Row>, nextId: Id, id: Id)
    ensures IdsFresh(rows, nextId) ==> IdsFresh(WithoutId(rows, id), nextId)
    ensures KeyUnique(rows) ==> KeyUnique(WithoutId(rows, id))
  {
    var p := (x: Row) => x.id != id;
    if Pairwise(rows, DistinctIds) {
      FilterKeepsPairwise(rows, p, DistinctIds);
    }
    if KeyUnique(rows) {
      FilterKeepsPairwise(rows, p, DistinctKeys);
    }
    var r := WithoutId(rows, id);
    assert forall i :: 0 <= i < |r| ==> r[i] in rows;
  }

  // ---------------------------------------------------------------- the table

  /** A metric table: its rows in storage order and the next serial id. */
  class MetricTable {
    var rows: seq<Row>
    var nextId: Id

    ghost predicate Valid()
      reads this
    {
      IdsFresh(rows, nextId)
    }

    constructor ()
      ensures Valid() && rows == [] && nextId == 1
    {
      rows, nextId := [], 1;
    }

    /** `INSERT INTO t (user_id, value, date) VALUES (...)`. */
    method Insert(user: Id, date: Day, value: int) returns (id: Id)
      requires Valid()
      modifies this
      ensures Valid()
      ensures id == old(nextId) && nextId == old(nextId) + 1
      ensures rows == old(rows) + [Row(id, user, date, value)]
    {
      id := nextId;
      rows := rows + [Row(id, user, date, value)];
      nextId := nextId + 1;
    }

    /** `UPDATE t SET value = $1 WHERE id = $2`. */
    method SetValueOf(id: Id, value: int)
      requires Valid()
      modifies this
      ensures Valid()
      ensures rows == SetValue(old(rows), id, value) && nextId == old(nextId)
    {
      rows := SetValue(rows, id, value);
    }

    /** `DELETE FROM t WHERE id = $1`. */
    method DeleteId(id: Id)
      requires Valid()
      modifies this
      ensures Valid()
      ensures rows == WithoutId(old(rows), id) && nextId == old(nextId)
    {
      DeleteKeepsInvariants(rows, nextId, id);
      rows := WithoutId(rows, id);
    }

    /**
      The shared POST body: look (user, date) up, then update the row found or insert a
      new one. `inserted` says which branch ran.
    */
    method Upsert(user: Id, date: Day, value: int) returns (inserted: bool)
      requires Valid()
      modifies this
      ensures Valid()
      ensures inserted <==> forall x :: x in old(rows) ==> !HasKey(x, user, date)
      ensures rows == Upserted(old(rows), old(nextId), user, date, value)
      ensures nextId == if inserted then old(nextId) + 1 else old(nextId)
      ensures KeyUnique(old(rows)) ==> KeyUnique(rows)
    {
      UpsertKeepsInvariants(rows, nextId, user, date, value);
      var existing := KeyIndex(rows, user, date);
      if existing.Some? {
        SetValueOf(rows[existing.value].id, value);
        return false;
      }
      var _ := Insert(user, date, value);
      inserted := true;
    }

    /**
      The shared DELETE body: the ownership check, then the delete. `found` is false,
      and nothing changes, when the caller owns no row with that id.
    */
    method DeleteOwned(id: Id, user: Id) returns (found: bool)
      requires Valid()
      modifies this
      ensures Valid() && nextId == old(nextId)
      ensures found <==> Owns(old(rows), id, user)
      ensures rows == if found then WithoutId(old(rows), id) else old(rows)
      ensures found ==> |rows| == |old(rows)| - 1
      ensures KeyUnique(old(rows)) ==> KeyUnique(rows)
    {
      DeleteKeepsInvariants(rows, nextId, id);
      found := Owns(rows, id, user);
      if found {
        ghost var k :| 0 <= k < |rows| && rows[k].id == id && rows[k].userId == user;
        forall i | 0 <= i < |rows| && i != k ensures rows[i].id != rows[k].id {
          if i < k { assert DistinctIds(rows[i], rows[k]); } else { assert DistinctIds(rows[k], rows[i]); }
        }
        DeleteRemovesOne(rows, k);
        DeleteId(id);
      }
    }
  }
}
