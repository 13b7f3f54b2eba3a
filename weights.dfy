/**
  The `/api/weights` routes. The caller is the `userId` the token gate put on the
  request; `today` is the server's current day.
*/
module Weights {
  import opened Wrappers
  import opened Sql
  import opened Http
  import opened Metrics
  import opened Accounts

  /**
    `POST /`: the caller's row for `date` gets `value` in place when there is one;
    otherwise a row is inserted and the caller's `users.weight` is set to `value` as
    well. The update branch leaves the users table alone.
  */
  method Post(weights: MetricTable, users: UserTable, caller: Id, value: int, date: Day) returns (reply: Reply<()>)
    requires weights.Valid() && users.Valid()
    modifies weights, users
    ensures weights.Valid() && users.Valid()
    ensures weights.rows == Upserted(old(weights.rows), old(weights.nextId), caller, date, value)
    ensures weights.nextId == if ByDate(old(weights.rows), caller, date).None? then old(weights.nextId) + 1 else old(weights.nextId)
    ensures KeyUnique(old(weights.rows)) ==> KeyUnique(weights.rows)
    ensures users.nextId == old(users.nextId)
    ensures EmailsUnique(old(users.users)) ==> EmailsUnique(users.users)
    ensures ByDate(old(weights.rows), caller, date).Some? ==>
      && users.users == old(users.users)
      && reply == Success(OK, "Weight updated successfully", ())
    ensures ByDate(old(weights.rows), caller, date).None? ==>
      && users.users == WithWeight(old(users.users), caller, value)
      && (FindById(old(users.users), caller).Some? ==> FindById(users.users, caller).value.weight == Some(value))
      && reply == Success(OK, "Weight added successfully", ())
  {
    var inserted := weights.Upsert(caller, date, value);
    if !inserted {
      return Success(OK, "Weight updated successfully", ());
    }
    WithWeightSetsOnlyThatUser(users.users, caller, value, caller);
    users.SetWeight(caller, value);
    reply := Success(OK, "Weight added successfully", ());
  }

  /**
    `DELETE /:id`: an id the caller does not own is answered 404 and nothing changes;
    an owned id is removed, and only that row.
  */
  method Delete(weights: MetricTable, caller: Id, id: Id) returns (reply: Reply<()>)
    requires weights.Valid()
    modifies weights
    ensures weights.Valid() && weights.nextId == old(weights.nextId)
    ensures KeyUnique(old(weights.rows)) ==> KeyUnique(weights.rows)
    ensures !Owns(old(weights.rows), id, caller) ==>
      weights.rows == old(weights.rows) && reply == Failure(NOT_FOUND, "Weight entry not found")
    ensures Owns(old(weights.rows), id, caller) ==>
      && weights.rows == WithoutId(old(weights.rows), id)
      && |weights.rows| == |old(weights.rows)| - 1
      && reply == Success(OK, "Weight entry deleted successfully", ())
  {
    var found := weights.DeleteOwned(id, caller);
    if !found {
      return Failure(NOT_FOUND, "Weight entry not found");
    }
    reply := Success(OK, "Weight entry deleted successfully", ());
  }

  /** `GET /`: every row of the caller, newest first. */
  function GetAll(rows: seq<Row>, caller: Id): (r: Reply<seq<Row>>)
    ensures r.Success? && r.status == OK
    ensures SortedBy(r.body, DateGe)
    ensures forall x :: multiset(r.body)[x] == if x.userId == caller then multiset(rows)[x] else 0
  {
    Success(OK, "", AllDesc(rows, caller))
  }

  /** `GET /recent`: the caller's rows dated 30 days ago or later, oldest first. */
  function GetRecent(rows: seq<Row>, caller: Id, today: Day): (r: Reply<seq<Row>>)
    ensures r.Success? && r.status == OK
    ensures SortedBy(r.body, DateLe)
    ensures forall x :: x in r.body <==> x in rows && x.userId == caller && x.date >= today - 30
    ensures forall x :: multiset(r.body)[x] == if x.userId == caller && x.date >= today - 30 then multiset(rows)[x] else 0
  {
    Success(OK, "", Recent(rows, caller, today))
  }

  /**
    `GET /latest`: the caller's row with the greatest date; a caller with no rows gets
    `success: false` with status 200, not an error status.
  */
  function GetLatest(rows: seq<Row>, caller: Id): (r: Reply<Row>)
    ensures r.Failure? <==> forall x :: x in rows ==> x.userId != caller
    ensures r.Failure? ==> r == Failure(OK, "No weight entries found")
    ensures r.Success? ==> r.status == OK && r.body in rows && r.body.userId == caller
    ensures r.Success? ==> forall x :: x in rows && x.userId == caller ==> x.date <= r.body.date
  {
    match Latest(rows, caller)
    case None => Failure(OK, "No weight entries found")
    case Some(row) => Success(OK, "", row)
  }

  /** `GET /date/:date`: the caller's row for that day, or `success: false` with status 200. */
  function GetByDate(rows: seq<Row>, caller: Id, date: Day): (r: Reply<Row>)
    ensures r.Failure? <==> forall x :: x in rows ==> !HasKey(x, caller, date)
    ensures r.Failure? ==> r == Failure(OK, "No weight entry found for this date")
    ensures r.Success? ==> r.status == OK && r.body in rows && HasKey(r.body, caller, date)
  {
    match ByDate(rows, caller, date)
    case None => Failure(OK, "No weight entry found for this date")
    case Some(row) => Success(OK, "", row)
  }

  /**
    Two writes of the same day leave one row for it, holding the later value: what
    `GET /date/:date` then answers.
  */
  lemma TwoWritesOneRow(rows: seq<Row>, nextId: Id, nextId': Id, caller: Id, date: Day, v1: int, v2: int)
    requires Metrics.IdsFresh(rows, nextId) && KeyUnique(rows)
    ensures var after := Upserted(Upserted(rows, nextId, caller, date, v1), nextId', caller, date, v2);
      && KeyUnique(after)
      && GetByDate(after, caller, date).Success?
      && GetByDate(after, caller, date).body.value == v2
  {
    UpsertLastWriteWins(rows, nextId, nextId', caller, date, v1, v2);
    UpsertKeepsInvariants(rows, nextId, caller, date, v2);
    UpsertThenByDate(rows, nextId, caller, date, v2);
  }
}
