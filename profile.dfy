/**
  The account routes of `/api/users` that read or write the caller's own data:
  `GET /profile`, `POST /profile`, `POST /goals`, and the frequent-food templates of
  `GET /foods` and `POST /foods`.
*/
module Profile {
  import opened Wrappers
  import opened Sql
  import opened Http
  import opened Metrics
  import Accounts

  // ---------------------------------------------------------------- GET /profile

  /** The columns `GET /profile` selects: everything but the password hash. */
  datatype ProfileView = ProfileView(
    id: Id,
    name: string,
    email: string,
    age: Option<int>,
    dateOfBirth: Option<Day>,
    weight: Option<int>,
    height: Option<int>,
    calorieGoal: Option<int>,
    weightGoal: Option<int>)

  function ViewOf(u: Accounts.User): ProfileView {
    ProfileView(u.id, u.name, u.email, u.age, u.dateOfBirth, u.weight, u.height, u.calorieGoal, u.weightGoal)
  }

  /** `GET /profile`: the caller's row without its hash, or 404 "User not found". */
  function GetProfile(users: seq<Accounts.User>, caller: Id): (r: Reply<ProfileView>)
    ensures r.Failure? <==> forall u :: u in users ==> u.id != caller
    ensures r.Failure? ==> r == Failure(NOT_FOUND, "User not found")
    ensures r.Success? ==> r.status == OK && r.body.id == caller
    ensures r.Success? ==> exists u :: u in users && u.id == caller && r.body == ViewOf(u)
  {
    match Accounts.FindById(users, caller)
    case None => Failure(NOT_FOUND, "User not found")
    case Some(u) => Success(OK, "", ViewOf(u))
  }

  /** The profile does not depend on the stored hash: two accounts that differ only there read the same. */
  lemma ProfileHidesPassword(users: seq<Accounts.User>, k: nat, hash: string)
    requires k < |users|
    requires Pairwise(users, Accounts.DistinctIds)
    ensures GetProfile(users[k := users[k].(password := hash)], users[k].id) == GetProfile(users, users[k].id)
  {
    var after := users[k := users[k].(password := hash)];
    assert Pairwise(after, Accounts.DistinctIds) by {
      forall i, j | 0 <= i < j < |after| ensures Accounts.DistinctIds(after[i], after[j]) {
        assert Accounts.DistinctIds(users[i], users[j]);
      }
    }
    Accounts.FindByIdIsTheUser(users, users[k]);
    Accounts.FindByIdIsTheUser(after, after[k]);
  }

  // ---------------------------------------------------------------- POST /profile

  /**
    `POST /profile`: the five profile columns are overwritten, then a weight row for
    today is inserted, whether or not one already exists for today.
  */
  method UpdateProfile(users: Accounts.UserTable, weights: MetricTable, caller: Id, age: int, dateOfBirth: Day,
                       weight: int, height: int, calorieGoal: int, today: Day) returns (reply: Reply<()>)
    requires users.Valid() && weights.Valid()
    modifies users, weights
    ensures users.Valid() && weights.Valid()
    ensures users.nextId == old(users.nextId)
    ensures users.users == Accounts.WithProfile(old(users.users), caller, age, dateOfBirth, weight, height, calorieGoal)
    ensures Accounts.EmailsUnique(old(users.users)) ==> Accounts.EmailsUnique(users.users)
    ensures weights.rows == old(weights.rows) + [Row(old(weights.nextId), caller, today, weight)]
    ensures weights.nextId == old(weights.nextId) + 1
    ensures reply == Success(OK, "Profile updated successfully", ())
  {
    users.SetProfile(caller, age, dateOfBirth, weight, height, calorieGoal);
    var _ := weights.Insert(caller, today, weight);
    reply := Success(OK, "Profile updated successfully", ());
  }

  /**
    The weight row `UpdateProfile` inserts breaks the one-row-per-day key whenever the
    caller already logged today, and the lookup by date keeps reading the older row,
    so the weight just saved is not the one `/date/:date` or the next weight POST sees.
  */
  lemma ProfileInsertBreaksKey(rows: seq<Row>, nextId: Id, caller: Id, today: Day, weight: int)
    requires ByDate(rows, caller, today).Some?
    ensures var after := rows + [Row(nextId, caller, today, weight)];
      && !KeyUnique(after)
      && ByDate(after, caller, today) == ByDate(rows, caller, today)
  {
    var after := rows + [Row(nextId, caller, today, weight)];
    var x := ByDate(rows, caller, today).value;
    var k :| 0 <= k < |rows| && rows[k] == x;
    assert !DistinctKeys(after[k], after[|rows|]);
    KeyIndexAppend(rows, Row(nextId, caller, today, weight), caller, today);
  }

  /** An instance: a user who logged 80 today and saves a profile weight of 75 still reads 80 for today. */
  lemma ProfileTwiceSameDay()
    ensures var rows := [Row(1, 7, 100, 80)];
      var after := rows + [Row(2, 7, 100, 75)];
      && !KeyUnique(after)
      && ByDate(after, 7, 100) == Some(Row(1, 7, 100, 80))
  {
    ProfileInsertBreaksKey([Row(1, 7, 100, 80)], 2, 7, 100, 75);
  }

  /**
    `POST /profile` as the metric routes write a day: the profile columns are
    overwritten and today's weight row is upserted, so the natural key is kept and
    today reads back the weight just saved.
  */
  method UpdateProfileUpserting(users: Accounts.UserTable, weights: MetricTable, caller: Id, age: int, dateOfBirth: Day,
                                weight: int, height: int, calorieGoal: int, today: Day) returns (reply: Reply<()>)
    requires users.Valid() && weights.Valid()
    modifies users, weights
    ensures users.Valid() && weights.Valid()
    ensures users.nextId == old(users.nextId)
    ensures users.users == Accounts.WithProfile(old(users.users), caller, age, dateOfBirth, weight, height, calorieGoal)
    ensures Accounts.EmailsUnique(old(users.users)) ==> Accounts.EmailsUnique(users.users)
    ensures weights.rows == Upserted(old(weights.rows), old(weights.nextId), caller, today, weight)
    ensures weights.nextId == if ByDate(old(weights.rows), caller, today).None? then old(weights.nextId) + 1 else old(weights.nextId)
    ensures KeyUnique(old(weights.rows)) ==> KeyUnique(weights.rows)
    ensures ByDate(weights.rows, caller, today).Some? && ByDate(weights.rows, caller, today).value.value == weight
    ensures reply == Success(OK, "Profile updated successfully", ())
  {
    users.SetProfile(caller, age, dateOfBirth, weight, height, calorieGoal);
    UpsertThenByDate(weights.rows, weights.nextId, caller, today, weight);
    var _ := weights.Upsert(caller, today, weight);
    reply := Success(OK, "Profile updated successfully", ());
  }

  /** After the profile update the caller's profile reads back every value just saved, and the rest as before. */
  lemma UpdateThenGetProfile(users: seq<Accounts.User>, caller: Id, age: int, dateOfBirth: Day, weight: int, height: int, calorieGoal: int)
    requires Pairwise(users, Accounts.DistinctIds)
    requires Accounts.FindById(users, caller).Some?
    ensures var before := GetProfile(users, caller).body;
      var after := GetProfile(Accounts.WithProfile(users, caller, age, dateOfBirth, weight, height, calorieGoal), caller);
      after == Success(OK, "", before.(age := Some(age), dateOfBirth := Some(dateOfBirth), weight := Some(weight),
                                       height := Some(height), calorieGoal := Some(calorieGoal)))
  {
    var u := Accounts.FindById(users, caller).value;
    var j :| 0 <= j < |users| && users[j] == u;
    var after := Accounts.WithProfile(users, caller, age, dateOfBirth, weight, height, calorieGoal);
    Accounts.UpdateKeepsKeys(users, after);
    Accounts.FindByIdIsTheUser(after, after[j]);
  }

  // ---------------------------------------------------------------- POST /goals

  /** `POST /goals`: both goal columns of the caller's row are overwritten; nothing else changes. */
  method UpdateGoals(users: Accounts.UserTable, caller: Id, calorieGoal: int, weightGoal: int) returns (reply: Reply<()>)
    requires users.Valid()
    modifies users
    ensures users.Valid() && users.nextId == old(users.nextId)
    ensures users.users == Accounts.WithGoals(old(users.users), caller, calorieGoal, weightGoal)
    ensures Accounts.EmailsUnique(old(users.users)) ==> Accounts.EmailsUnique(users.users)
    ensures reply == Success(OK, "Goals updated successfully", ())
  {
    users.SetGoals(caller, calorieGoal, weightGoal);
    reply := Success(OK, "Goals updated successfully", ());
  }

  /** After the goals update the caller's profile reads back both goals, and the rest as before. */
  lemma UpdateGoalsThenGetProfile(users: seq<Accounts.User>, caller: Id, calorieGoal: int, weightGoal: int)
    requires Pairwise(users, Accounts.DistinctIds)
    requires Accounts.FindById(users, caller).Some?
    ensures var before := GetProfile(users, caller).body;
      GetProfile(Accounts.WithGoals(users, caller, calorieGoal, weightGoal), caller) ==
        Success(OK, "", before.(calorieGoal := Some(calorieGoal), weightGoal := Some(weightGoal)))
  {
    var u := Accounts.FindById(users, caller).value;
    var j :| 0 <= j < |users| && users[j] == u;
    var after := Accounts.WithGoals(users, caller, calorieGoal, weightGoal);
    Accounts.UpdateKeepsKeys(users, after);
    Accounts.FindByIdIsTheUser(after, after[j]);
  }

  // ---------------------------------------------------------------- foods

  /** A frequent-food template. Names need not be unique. */
  datatype Food = Food(id: Id, userId: Id, name: string, calories: int)

  predicate DistinctFoodIds(a: Food, b: Food) { a.id != b.id }

  /** `ORDER BY name`. */
  function NameLe(a: Food, b: Food): bool { LexLe(a.name, b.name) }

  lemma NameOrder()
    ensures TotalPreorder(NameLe)
  {
    forall a: Food, b: Food ensures NameLe(a, b) || NameLe(b, a) {
      LexLeTotal(a.name, b.name);
    }
    forall a: Food, b: Food, c: Food | NameLe(a, b) && NameLe(b, c) ensures NameLe(a, c) {
      LexLeTransitive(a.name, b.name, c.name);
    }
  }

  /** The `foods` table: its rows in storage order and the next serial id. */
  class FoodTable {
    var rows: seq<Food>
    var nextId: Id

    ghost predicate Valid()
      reads this
    {
      && (forall i :: 0 <= i < |rows| ==> rows[i].id < nextId)
      && Pairwise(rows, DistinctFoodIds)
    }

    constructor ()
      ensures Valid() && rows == [] && nextId == 1
    {
      rows, nextId := [], 1;
    }

    /** `INSERT INTO foods (user_id, name, calories)`. */
    method Insert(userId: Id, name: string, calories: int) returns (id: Id)
      requires Valid()
      modifies this
      ensures Valid()
      ensures id == old(nextId) && nextId == old(nextId) + 1
      ensures rows == old(rows) + [Food(id, userId, name, calories)]
    {
      id := nextId;
      rows := rows + [Food(id, userId, name, calories)];
      nextId := nextId + 1;
    }
  }

  /** `POST /foods`: one template is added for the caller; duplicates by name are allowed. */
  method AddFood(foods: FoodTable, caller: Id, name: string, calories: int) returns (reply: Reply<()>)
    requires foods.Valid()
    modifies foods
    ensures foods.Valid() && foods.nextId == old(foods.nextId) + 1
    ensures foods.rows == old(foods.rows) + [Food(old(foods.nextId), caller, name, calories)]
    ensures reply == Success(OK, "Food added successfully", ())
  {
    var _ := foods.Insert(caller, name, calories);
    reply := Success(OK, "Food added successfully", ());
  }

  /** `GET /foods`: exactly the caller's templates, each as often as stored, ordered by name. */
  function ListFoods(rows: seq<Food>, caller: Id): (r: Reply<seq<Food>>)
    ensures r.Success? && r.status == OK
    ensures SortedBy(r.body, NameLe)
    ensures forall f :: multiset(r.body)[f] == if f.userId == caller then multiset(rows)[f] else 0
  {
    NameOrder();
    var p := (f: Food) => f.userId == caller;
    FilterCounts(rows, p);
    Success(OK, "", SortBy(Filter(rows, p), NameLe))
  }

  /** A template just added is listed for its owner, and nothing listed before is lost. */
  lemma AddThenList(rows: seq<Food>, food: Food)
    ensures food in ListFoods(rows + [food], food.userId).body
    ensures forall f :: f in ListFoods(rows, food.userId).body ==> f in ListFoods(rows + [food], food.userId).body
    ensures |ListFoods(rows + [food], food.userId).body| == |ListFoods(rows, food.userId).body| + 1
  {
    var before := ListFoods(rows, food.userId).body;
    var after := ListFoods(rows + [food], food.userId).body;
    CountsAfterAdd(rows, food, before, after);
    assert food in multiset(after);
    forall f | f in before ensures f in after {
      assert f in multiset(before);
    }
    assert |multiset(after)| == |multiset(before)| + 1;
  }

  /** Two owner lists counted off `rows` and `rows + [food]`: the second holds one more copy of `food`. */
  lemma CountsAfterAdd(rows: seq<Food>, food: Food, before: seq<Food>, after: seq<Food>)
    requires forall f :: multiset(before)[f] == if f.userId == food.userId then multiset(rows)[f] else 0
    requires forall f :: multiset(after)[f] == if f.userId == food.userId then multiset(rows + [food])[f] else 0
    ensures multiset(after) == multiset(before) + multiset{food}
  {
    assert multiset(rows + [food]) == multiset(rows) + multiset{food};
    forall f ensures multiset(after)[f] == (multiset(before) + multiset{food})[f] {
    }
    assert multiset(after) == multiset(before) + multiset{food};
  }
}
