/**
  The `/api/calories` routes. They work on the `calories` table as the weight routes
  work on `weights`, except that no route here touches the users table: their frames
  name the calorie table alone.
*/
module Calories {
  import opened Wrappers
  import opened Sql
  import opened Http
  import opened Metrics

  /** `POST /`: update the caller's row for `date` when there is one, else insert one. */
  method Post(calories: MetricTable, caller: Id, value: int, date: Day) returns (reply: Reply<()>)
    requires calories.Valid()
    modifies calories
    ensures calories.Valid()
    ensures calories.rows == Upserted(old(calories.rows), old(calories.nextId), caller, date, value)
    ensures calories.nextId == if ByDate(old(calories.rows), caller, date).None? then old(calories.nextId) + 1 else old(calories.nextId)
    ensures KeyUnique(old(calories.rows)) ==> KeyUnique(calories.rows)
    ensures reply == Success(OK,
      if ByDate(old(calories.rows), caller, date).Some? then "Calories updated successfully" else "Calories added successfully", ())
  {
    var inserted := calories.Upsert(caller, date, value);
    if !inserted {
      return Success(OK, "Calories updated successfully", ());
    }
    reply := Success(OK, "Calories added successfully", ());
  }

  /**
    `PUT /`: checks for absence first (insert) and updates otherwise: the same change
    to the table, and the same answers, as `POST /`.
  */
  method Put(calories: MetricTable, caller: Id, value: int, date: Day) returns (reply: Reply<()>)
    requires calories.Valid()
    modifies calories
    ensures calories.Valid()
    ensures calories.rows == Upserted(old(calories.rows), old(calories.nextId), caller, date, value)
    ensures calories.nextId == if ByDate(old(calories.rows), caller, date).None? then old(calories.nextId) + 1 else old(calories.nextId)
    ensures KeyUnique(old(calories.rows)) ==> KeyUnique(calories.rows)
    ensures reply == Success(OK,
      if ByDate(old(calories.rows), caller, date).Some? then "Calories updated successfully" else "Calories added successfully", ())
  {
    UpsertKeepsInvariants(calories.rows, calories.nextId, caller, date, value);
    var existing := KeyIndex(calories.rows, caller, date);
    if existing.None? {
      var _ := calories.Insert(caller, date, value);
      return Success(OK, "Calories added successfully", ());
    }
    calories.SetValueOf(calories.rows[existing.value].id, value);
    reply := Success(OK, "Calories updated successfully", ());
  }

  /** `DELETE /:id`: 404 and no change unless the caller owns the id; then that row alone goes. */
  method Delete(calories: MetricTable, caller: Id, id: Id) returns (reply: Reply<()>)
    requires calories.Valid()
    modifies calories
    ensures calories.Valid() && calories.nextId == old(calories.nextId)
    ensures KeyUnique(old(calories.rows)) ==> KeyUnique(calories.rows)
    ensures !Owns(old(calories.rows), id, caller) ==>
      calories.rows == old(calories.rows) && reply == Failure(NOT_FOUND, "Calorie entry not found")
    ensures Owns(old(calories.rows), id, caller) ==>
      && calories.rows == WithoutId(old(calories.rows), id)
      && |calories.rows| == |old(calories.rows)| - 1
      && reply == Success(OK, "Calorie entry deleted successfully", ())
  {
    var found := calories.DeleteOwned(id, caller);
    if !found {
      return Failure(NOT_FOUND, "Calorie entry not found");
    }
    reply := Success(OK, "Calorie entry deleted successfully", ());
  }

  /** `GET /`: every row of the caller, newest first. */
  function GetAll(rows: seq<Row>, caller: Id): (r: Reply<seq<Row>>)
    ensures r.Success? && r.status == OK
    ensures SortedBy(r.body, DateGe)
    ensures forall x :: multiset(r.body)[x] == if x.userId == caller then multiset(rows)[x] else 0
  {
    Success(OK, "", AllDesc(rows, caller))
  }

  /** `GET /recent`: the caller's rows dated 30 days ago or later, oldest first. */
  function GetRecent(rows: seq<Row>, caller: Id, today: Day): (r: Reply<seq<Row>>)
    ensures r.Success? && r.status == OK
    ensures SortedBy(r.body, DateLe)
    ensures forall x :: x in r.body <==> x in rows && x.userId == caller && x.date >= today - 30
    ensures forall x :: multiset(r.body)[x] == if x.userId == caller && x.date >= today - 30 then multiset(rows)[x] else 0
  {
    Success(OK, "", Recent(rows, caller, today))
  }

  /** `GET /date/:date`: the caller's row for that day, or `success: false` with status 200. */
  function GetByDate(rows: seq<Row>, caller: Id, date: Day): (r: Reply<Row>)
    ensures r.Failure? <==> forall x :: x in rows ==> !HasKey(x, caller, date)
    ensures r.Failure? ==> r == Failure(OK, "No calorie entry found for this date")
    ensures r.Success? ==> r.status == OK && r.body in rows && HasKey(r.body, caller, date)
  {
    match ByDate(rows, caller, date)
    case None => Failure(OK, "No calorie entry found for this date")
    case Some(row) => Success(OK, "", row)
  }
}
