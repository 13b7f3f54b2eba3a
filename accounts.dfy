/**
  The `users` table: one row per account, holding the credentials, the profile, the
  denormalised current weight and the two goals. Columns the registration does not set
  are NULL (`None`).
*/
module Accounts {
  import opened Wrappers
  import opened Sql

  datatype User = User(
    id: Id,
    name: string,
    email: string,
    password: string,          // the stored bcrypt hash, never the password itself
    age: Option<int>,
    dateOfBirth: Option<Day>,
    weight: Option<int>,
    height: Option<int>,
    calorieGoal: Option<int>,
    weightGoal: Option<int>)

  /** The row `INSERT INTO users (name, email, password)` creates. */
  function NewUser(id: Id, name: string, email: string, hash: string): User {
    User(id, name, email, hash, None, None, None, None, None, None)
  }

  predicate DistinctIds(a: User, b: User) { a.id != b.id }
  predicate DistinctEmails(a: User, b: User) { a.email != b.email }

  /** The serial primary key: distinct ids, each below the next id the table hands out. */
  ghost predicate IdsFresh(users: seq<User>, nextId: Id) {
    && (forall i :: 0 <= i < |users| ==> users[i].id < nextId)
    && Pairwise(users, DistinctIds)
  }

  /** No two accounts share an email: what the registration check maintains. */
  ghost predicate EmailsUnique(users: seq<User>) {
    Pairwise(users, DistinctEmails)
  }

  /** `SELECT ... FROM users WHERE email = $1`, first row. */
  function FindByEmail(users: seq<User>, email: string): (u: Option<User>)
    ensures u.None? <==> forall x :: x in users ==> x.email != email
    ensures u.Some? ==> u.value in users && u.value.email == email
  {
    if users == [] then None
    else if users[0].email == email then Some(users[0])
    else FindByEmail(users[1..], email)
  }

  /** `SELECT ... FROM users WHERE id = $1`, first row. */
  function FindById(users: seq<User>, id: Id): (u: Option<User>)
    ensures u.None? <==> forall x :: x in users ==> x.id != id
    ensures u.Some? ==> u.value in users && u.value.id == id
  {
    if users == [] then None
    else if users[0].id == id then Some(users[0])
    else FindById(users[1..], id)
  }

  /** With unique emails, the lookup by email finds the one account that has it. */
  lemma {:induction false} FindByEmailIsTheUser(users: seq<User>, u: User)
    requires EmailsUnique(users)
    requires u in users
    ensures FindByEmail(users, u.email) == Some(u)
  {
    if users[0] != u {
      assert users[0].email != u.email by {
        var j :| 0 <= j < |users| && users[j] == u;
        assert DistinctEmails(users[0], users[j]);
      }
      assert Pairwise(users[1..], DistinctEmails) by {
        forall i, j | 0 <= i < j < |users[1..]| ensures DistinctEmails(users[1..][i], users[1..][j]) {
          assert DistinctEmails(users[i + 1], users[j + 1]);
        }
      }
      FindByEmailIsTheUser(users[1..], u);
    }
  }

  /** With unique ids, the lookup by id finds the one account that has it. */
  lemma {:induction false} FindByIdIsTheUser(users: seq<User>, u: User)
    requires Pairwise(users, DistinctIds)
    requires u in users
    ensures FindById(users, u.id) == Some(u)
  {
    if users[0] != u {
      assert users[0].id != u.id by {
        var j :| 0 <= j < |users| && users[j] == u;
        assert DistinctIds(users[0], users[j]);
      }
      assert Pairwise(users[1..], DistinctIds) by {
        forall i, j | 0 <= i < j < |users[1..]| ensures DistinctIds(users[1..][i], users[1..][j]) {
          assert DistinctIds(users[i + 1], users[j + 1]);
        }
      }
      FindByIdIsTheUser(users[1..], u);
    }
  }

  /** `UPDATE users SET weight = $1 WHERE id = $2`. */
  function WithWeight(users: seq<User>, id: Id, weight: int): (r: seq<User>)
    ensures |r| == |users|
    ensures forall i :: 0 <= i < |users| ==> r[i].id == users[i].id && r[i].email == users[i].email
    ensures forall i :: 0 <= i < |users| && users[i].id == id ==> r[i] == users[i].(weight := Some(weight))
    ensures forall i :: 0 <= i < |users| && users[i].id != id ==> r[i] == users[i]
  {
    Update(users, (u: User) => u.id == id, (u: User) => u.(weight := Some(weight)))
  }

  /** `UPDATE users SET age, date_of_birth, weight, height, calorie_goal WHERE id = $6`. */
  function WithProfile(users: seq<User>, id: Id, age: int, dateOfBirth: Day, weight: int, height: int, calorieGoal: int): (r: seq<User>)
    ensures |r| == |users|
    ensures forall i :: 0 <= i < |users| ==> r[i].id == users[i].id && r[i].email == users[i].email
    ensures forall i :: 0 <= i < |users| && users[i].id == id ==>
      r[i] == users[i].(age := Some(age), dateOfBirth := Some(dateOfBirth), weight := Some(weight),
                        height := Some(height), calorieGoal := Some(calorieGoal))
    ensures forall i :: 0 <= i < |users| && users[i].id != id ==> r[i] == users[i]
  {
    Update(users, (u: User) => u.id == id,
      (u: User) => u.(age := Some(age), dateOfBirth := Some(dateOfBirth), weight := Some(weight),
                      height := Some(height), calorieGoal := Some(calorieGoal)))
  }

  /** `UPDATE users SET calorie_goal = $1, weight_goal = $2 WHERE id = $3`. */
  function WithGoals(users: seq<User>, id: Id, calorieGoal: int, weightGoal: int): (r: seq<User>)
    ensures |r| == |users|
    ensures forall i :: 0 <= i < |users| ==> r[i].id == users[i].id && r[i].email == users[i].email
    ensures forall i :: 0 <= i < |users| && users[i].id == id ==> r[i] == users[i].(calorieGoal := Some(calorieGoal), weightGoal := Some(weightGoal))
    ensures forall i :: 0 <= i < |users| && users[i].id != id ==> r[i] == users[i]
  {
    Update(users, (u: User) => u.id == id,
      (u: User) => u.(calorieGoal := Some(calorieGoal), weightGoal := Some(weightGoal)))
  }

  /**
    After the weight update, the account reads back the new weight and every other
    account reads back what it held; the set of accounts is the same.
  */
  lemma WithWeightSetsOnlyThatUser(users: seq<User>, id: Id, weight: int, other: Id)
    requires Pairwise(users, DistinctIds)
    ensures var after := WithWeight(users, id, weight);
      && (FindById(users, id).Some? ==> FindById(after, id) == Some(FindById(users, id).value.(weight := Some(weight))))
      && (FindById(users, id).None? ==> after == users)
      && (other != id ==> FindById(after, other) == FindById(users, other))
  {
    if FindById(users, id).Some? {
      WithWeightOnCaller(users, id, weight);
    } else {
      assert WithWeight(users, id, weight) == users;
    }
    if other != id {
      WithWeightOnOthers(users, id, weight, other);
    }
  }

  lemma WithWeightOnCaller(users: seq<User>, id: Id, weight: int)
    requires Pairwise(users, DistinctIds)
    requires FindById(users, id).Some?
    ensures FindById(WithWeight(users, id, weight), id) == Some(FindById(users, id).value.(weight := Some(weight)))
  {
    var after := WithWeight(users, id, weight);
    UpdateKeepsKeys(users, after);
    var u := FindById(users, id).value;
    var j :| 0 <= j < |users| && users[j] == u;
    assert after[j] == u.(weight := Some(weight));
    FindByIdIsTheUser(after, after[j]);
  }

  lemma WithWeightOnOthers(users: seq<User>, id: Id, weight: int, other: Id)
    requires Pairwise(users, DistinctIds)
    requires other != id
    ensures FindById(WithWeight(users, id, weight), other) == FindById(users, other)
  {
    var after := WithWeight(users, id, weight);
    UpdateKeepsKeys(users, after);
    match FindById(users, other)
    case Some(v) =>
      var j :| 0 <= j < |users| && users[j] == v;
      assert after[j] == v;
      FindByIdIsTheUser(after, after[j]);
    case None =>
      forall x | x in after ensures x.id != other {
        var i :| 0 <= i < |after| && after[i] == x;
        assert users[i] in users;
      }
  }

  /** Updates that do not touch ids or emails keep both keys unique. */
  lemma UpdateKeepsKeys(users: seq<User>, r: seq<User>)
    requires |r| == |users|
    requires forall i :: 0 <= i < |users| ==> r[i].id == users[i].id && r[i].email == users[i].email
    ensures Pairwise(users, DistinctIds) ==> Pairwise(r, DistinctIds)
    ensures EmailsUnique(users) ==> EmailsUnique(r)
  {
  }

  /** The `users` table: its rows in storage order and the next serial id. */
  class UserTable {
    var users: seq<User>
    var nextId: Id

    ghost predicate Valid()
      reads this
    {
      IdsFresh(users, nextId)
    }

    constructor ()
      ensures Valid() && users == [] && nextId == 1
    {
      users, nextId := [], 1;
    }

    /** `INSERT INTO users (name, email, password) ... RETURNING id`. */
    method Insert(name: string, email: string, hash: string) returns (id: Id)
      requires Valid()
      modifies this
      ensures Valid()
      ensures id == old(nextId) && nextId == old(nextId) + 1
      ensures users == old(users) + [NewUser(id, name, email, hash)]
    {
      id := nextId;
      users := users + [NewUser(id, name, email, hash)];
      nextId := nextId + 1;
    }

    /** `UPDATE users SET weight = $1 WHERE id = $2`. */
    method SetWeight(id: Id, weight: int)
      requires Valid()
      modifies this
      ensures Valid() && nextId == old(nextId)
      ensures users == WithWeight(old(users), id, weight)
      ensures EmailsUnique(old(users)) ==> EmailsUnique(users)
    {
      UpdateKeepsKeys(users, WithWeight(users, id, weight));
      users := WithWeight(users, id, weight);
    }

    /** The profile `UPDATE` of `POST /profile`. */
    method SetProfile(id: Id, age: int, dateOfBirth: Day, weight: int, height: int, calorieGoal: int)
      requires Valid()
      modifies this
      ensures Valid() && nextId == old(nextId)
      ensures users == WithProfile(old(users), id, age, dateOfBirth, weight, height, calorieGoal)
      ensures EmailsUnique(old(users)) ==> EmailsUnique(users)
    {
      UpdateKeepsKeys(users, WithProfile(users, id, age, dateOfBirth, weight, height, calorieGoal));
      users := WithProfile(users, id, age, dateOfBirth, weight, height, calorieGoal);
    }

    /** The goals `UPDATE` of `POST /goals`. */
    method SetGoals(id: Id, calorieGoal: int, weightGoal: int)
      requires Valid()
      modifies this
      ensures Valid() && nextId == old(nextId)
      ensures users == WithGoals(old(users), id, calorieGoal, weightGoal)
      ensures EmailsUnique(old(users)) ==> EmailsUnique(users)
    {
      UpdateKeepsKeys(users, WithGoals(users, id, calorieGoal, weightGoal));
      users := WithGoals(users, id, calorieGoal, weightGoal);
    }
  }
}
