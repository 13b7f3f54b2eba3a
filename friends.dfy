/**
  The friendship routes of `/api/users/friends`. A row (user_id, friend_id, status)
  is a request from `user_id` to `friend_id`; it is stored `Pending`, becomes
  `Accepted` when the recipient accepts, and is deleted when the recipient rejects.
*/
module Friends {
  import opened Wrappers
  import opened Sql
  import opened Http
  import Accounts

  datatype Status = Pending | Accepted

  /** The text stored in the `status` column. */
  function StatusName(s: Status): string {
    match s
    case Pending => "pending"
    case Accepted => "accepted"
  }

  datatype Friendship = Friendship(id: Id, userId: Id, friendId: Id, status: Status)

  /** The row joins `a` and `b`, in either direction. */
  predicate Links(f: Friendship, a: Id, b: Id) {
    (f.userId == a && f.friendId == b) || (f.userId == b && f.friendId == a)
  }

  /** `SELECT * FROM friendships WHERE (user_id = a AND friend_id = b) OR (user_id = b AND friend_id = a)` finds a row. */
  predicate Linked(rows: seq<Friendship>, a: Id, b: Id)
    ensures Linked(rows, a, b) <==> Filter(rows, (f: Friendship) => Links(f, a, b)) != []
  {
    var found := Filter(rows, (f: Friendship) => Links(f, a, b));
    assert found != [] ==> found[0] in found;
    exists f :: f in rows && Links(f, a, b)
  }

  predicate DistinctIds(f: Friendship, g: Friendship) { f.id != g.id }
  predicate DistinctPairs(f: Friendship, g: Friendship) { !Links(g, f.userId, f.friendId) }

  /** The serial primary key: distinct ids, each below the next id the table hands out. */
  ghost predicate IdsFresh(rows: seq<Friendship>, nextId: Id) {
    && (forall i :: 0 <= i < |rows| ==> rows[i].id < nextId)
    && Pairwise(rows, DistinctIds)
  }

  /** What the request checks maintain: no one befriends themselves, and at most one row per pair of users. */
  ghost predicate WellFormed(rows: seq<Friendship>) {
    && (forall i :: 0 <= i < |rows| ==> rows[i].userId != rows[i].friendId)
    && Pairwise(rows, DistinctPairs)
  }

  /** The row `id` is a pending request addressed to `caller`: what accept and reject look for. */
  predicate IsIncoming(f: Friendship, id: Id, caller: Id) {
    f.id == id && f.friendId == caller && f.status == Pending
  }

  predicate HasIncoming(rows: seq<Friendship>, id: Id, caller: Id)
    ensures HasIncoming(rows, id, caller) <==> Filter(rows, (f: Friendship) => IsIncoming(f, id, caller)) != []
  {
    var found := Filter(rows, (f: Friendship) => IsIncoming(f, id, caller));
    assert found != [] ==> found[0] in found;
    exists f :: f in rows && IsIncoming(f, id, caller)
  }

  /** `UPDATE friendships SET status = $1 WHERE id = $2`. */
  function WithStatus(rows: seq<Friendship>, id: Id, status: Status): (r: seq<Friendship>)
    ensures |r| == |rows|
    ensures forall i :: 0 <= i < |rows| ==> r[i].id == rows[i].id && r[i].userId == rows[i].userId && r[i].friendId == rows[i].friendId
    ensures forall i :: 0 <= i < |rows| ==> r[i].status == if rows[i].id == id then status else rows[i].status
  {
    Update(rows, (f: Friendship) => f.id == id, (f: Friendship) => f.(status := status))
  }

  /** `DELETE FROM friendships WHERE id = $1`. */
  function WithoutId(rows: seq<Friendship>, id: Id): (r: seq<Friendship>)
    ensures forall f :: f in r <==> f in rows && f.id != id
  {
    Filter(rows, (f: Friendship) => f.id != id)
  }

  /** Accepting changes the status of the one request with that id and nothing else. */
  lemma AcceptChangesOnlyThatRow(rows: seq<Friendship>, nextId: Id, k: nat)
    requires IdsFresh(rows, nextId)
    requires k < |rows|
    ensures WithStatus(rows, rows[k].id, Accepted) == rows[k := rows[k].(status := Accepted)]
  {
    var r := WithStatus(rows, rows[k].id, Accepted);
    forall i | 0 <= i < |rows| && i != k ensures r[i] == rows[i] {
      if i < k { assert DistinctIds(rows[i], rows[k]); } else { assert DistinctIds(rows[k], rows[i]); }
    }
  }

  /** A new pending request is linked to its pair both ways round, so the reverse request is refused too. */
  lemma RequestBlocksBothDirections(rows: seq<Friendship>, id: Id, a: Id, b: Id)
    ensures Linked(rows + [Friendship(id, a, b, Pending)], a, b)
    ensures Linked(rows + [Friendship(id, a, b, Pending)], b, a)
  {
    var f := Friendship(id, a, b, Pending);
    assert f in rows + [f];
  }

  /** Rejecting a request frees its pair: afterwards no row links them, so a new request passes the check. */
  lemma RejectFreesThePair(rows: seq<Friendship>, k: nat)
    requires WellFormed(rows)
    requires k < |rows|
    ensures !Linked(WithoutId(rows, rows[k].id), rows[k].userId, rows[k].friendId)
  {
    var r := WithoutId(rows, rows[k].id);
    forall f | f in r ensures !Links(f, rows[k].userId, rows[k].friendId) {
      var j :| 0 <= j < |rows| && rows[j] == f;
      if j < k {
        assert DistinctPairs(rows[j], rows[k]);
      } else if k < j {
        assert DistinctPairs(rows[k], rows[j]);
      }
    }
  }

  /** Status changes keep the pairs as they were. */
  lemma StatusKeepsWellFormed(rows: seq<Friendship>, id: Id, status: Status)
    requires WellFormed(rows)
    ensures WellFormed(WithStatus(rows, id, status))
  {
    var s := WithStatus(rows, id, status);
    assert forall i, j :: 0 <= i < j < |s| ==> (DistinctPairs(s[i], s[j]) <==> DistinctPairs(rows[i], rows[j]));
  }

  /** Deletions only remove pairs. */
  lemma DeleteKeepsWellFormed(rows: seq<Friendship>, id: Id)
    requires WellFormed(rows)
    ensures WellFormed(WithoutId(rows, id))
  {
    var p := (f: Friendship) => f.id != id;
    FilterKeepsPairwise(rows, p, DistinctPairs);
    var r := WithoutId(rows, id);
    forall i | 0 <= i < |r| ensures r[i].userId != r[i].friendId {
      assert r[i] in rows;
    }
  }

  // ---------------------------------------------------------------- the table

  /** The `friendships` table: its rows in storage order and the next serial id. */
  class FriendshipTable {
    var rows: seq<Friendship>
    var nextId: Id

    ghost predicate Valid()
      reads this
    {
      IdsFresh(rows, nextId)
    }

    constructor ()
      ensures Valid() && rows == [] && nextId == 1
    {
      rows, nextId := [], 1;
    }

    /** `INSERT INTO friendships (user_id, friend_id, status)`. */
    method Insert(userId: Id, friendId: Id, status: Status) returns (id: Id)
      requires Valid()
      modifies this
      ensures Valid()
      ensures id == old(nextId) && nextId == old(nextId) + 1
      ensures rows == old(rows) + [Friendship(id, userId, friendId, status)]
    {
      id := nextId;
      rows := rows + [Friendship(id, userId, friendId, status)];
      nextId := nextId + 1;
    }

    /** `UPDATE friendships SET status = $1 WHERE id = $2`. */
    method SetStatus(id: Id, status: Status)
      requires Valid()
      modifies this
      ensures Valid() && nextId == old(nextId)
      ensures rows == WithStatus(old(rows), id, status)
    {
      rows := WithStatus(rows, id, status);
    }

    /** `DELETE FROM friendships WHERE id = $1`. */
    method DeleteId(id: Id)
      requires Valid()
      modifies this
      ensures Valid() && nextId == old(nextId)
      ensures rows == WithoutId(old(rows), id)
    {
      FilterKeepsPairwise(rows, (f: Friendship) => f.id != id, DistinctIds);
      var r := WithoutId(rows, id);
      assert forall i :: 0 <= i < |r| ==> r[i] in rows;
      rows := r;
    }
  }

  // ---------------------------------------------------------------- routes

  /**
    `POST /friends`: the email must name a user (else 404 "User not found"), not the
    caller (else 400), and no row may link the two in either direction, whatever its
    status (else 400). Only then is one pending row from the caller added; every
    refusal leaves the table as it was.
  */
  method Request(friends: FriendshipTable, users: seq<Accounts.User>, caller: Id, email: string) returns (reply: Reply<()>)
    requires friends.Valid()
    modifies friends
    ensures friends.Valid()
    ensures WellFormed(old(friends.rows)) ==> WellFormed(friends.rows)
    ensures reply.Failure? ==> friends.rows == old(friends.rows) && friends.nextId == old(friends.nextId)
    ensures (forall u :: u in users ==> u.email != email) ==> reply == Failure(NOT_FOUND, "User not found")
    ensures Accounts.FindByEmail(users, email).Some? ==>
      var target := Accounts.FindByEmail(users, email).value.id;
      && (target == caller ==> reply == Failure(BAD_REQUEST, "Cannot add yourself as a friend"))
      && (target != caller && Linked(old(friends.rows), caller, target) ==>
            reply == Failure(BAD_REQUEST, "Friendship already exists or pending"))
      && (target != caller && !Linked(old(friends.rows), caller, target) ==>
            && reply == Success(OK, "Friend request sent successfully", ())
            && friends.rows == old(friends.rows) + [Friendship(old(friends.nextId), caller, target, Pending)]
            && friends.nextId == old(friends.nextId) + 1)
  {
    var found := Accounts.FindByEmail(users, email);
    if found.None? {
      return Failure(NOT_FOUND, "User not found");
    }
    var target := found.value.id;
    if target == caller {
      return Failure(BAD_REQUEST, "Cannot add yourself as a friend");
    }
    if Linked(friends.rows, caller, target) {
      return Failure(BAD_REQUEST, "Friendship already exists or pending");
    }
    ghost var before := friends.rows;
    var _ := friends.Insert(caller, target, Pending);
    assert WellFormed(before) ==> WellFormed(friends.rows) by {
      if WellFormed(before) {
        forall i, j | 0 <= i < j < |friends.rows| ensures DistinctPairs(friends.rows[i], friends.rows[j]) {
          if j < |before| { assert DistinctPairs(before[i], before[j]); }
          else { assert before[i] in before; }
        }
      }
    }
    reply := Success(OK, "Friend request sent successfully", ());
  }

  const NOT_PENDING: Reply<()> := Failure(NOT_FOUND, "Friend request not found or already processed")

  /**
    `POST /friends/:id/accept`: only a pending request addressed to the caller can be
    accepted (else 404, nothing changes); its status becomes accepted.
  */
  method Accept(friends: FriendshipTable, caller: Id, id: Id) returns (reply: Reply<()>)
    requires friends.Valid()
    modifies friends
    ensures friends.Valid() && friends.nextId == old(friends.nextId)
    ensures WellFormed(old(friends.rows)) ==> WellFormed(friends.rows)
    ensures !HasIncoming(old(friends.rows), id, caller) ==> friends.rows == old(friends.rows) && reply == NOT_PENDING
    ensures HasIncoming(old(friends.rows), id, caller) ==>
      && friends.rows == WithStatus(old(friends.rows), id, Accepted)
      && reply == Success(OK, "Friend request accepted", ())
  {
    if !HasIncoming(friends.rows, id, caller) {
      return NOT_PENDING;
    }
    if WellFormed(friends.rows) {
      StatusKeepsWellFormed(friends.rows, id, Accepted);
    }
    friends.SetStatus(id, Accepted);
    reply := Success(OK, "Friend request accepted", ());
  }

  /**
    `POST /friends/:id/reject`: the same check as accept (else 404, nothing changes);
    the request row is deleted.
  */
  method Reject(friends: FriendshipTable, caller: Id, id: Id) returns (reply: Reply<()>)
    requires friends.Valid()
    modifies friends
    ensures friends.Valid() && friends.nextId == old(friends.nextId)
    ensures WellFormed(old(friends.rows)) ==> WellFormed(friends.rows)
    ensures !HasIncoming(old(friends.rows), id, caller) ==> friends.rows == old(friends.rows) && reply == NOT_PENDING
    ensures HasIncoming(old(friends.rows), id, caller) ==>
      && friends.rows == WithoutId(old(friends.rows), id)
      && reply == Success(OK, "Friend request rejected", ())
  {
    if !HasIncoming(friends.rows, id, caller) {
      return NOT_PENDING;
    }
    if WellFormed(friends.rows) {
      DeleteKeepsWellFormed(friends.rows, id);
    }
    friends.DeleteId(id);
    reply := Success(OK, "Friend request rejected", ());
  }

  // ---------------------------------------------------------------- the list

  /** One entry of `GET /friends`: the row id, the other party's name and current weight, and the status as the caller sees it. */
  datatype FriendView = FriendView(id: Id, name: string, currentWeight: Option<int>, status: string)

  predicate Touches(f: Friendship, caller: Id) {
    f.userId == caller || f.friendId == caller
  }

  /** The user the join pairs with the row: the recipient for the sender, the sender for the recipient. */
  function OtherParty(f: Friendship, caller: Id): Id {
    if f.userId == caller then f.friendId else f.userId
  }

  /**
    The status relabelled for the viewer: a pending row reads "pending" to its sender
    and "received" to anyone else; any other status reads as stored.
  */
  function DisplayStatus(f: Friendship, viewer: Id): (s: string)
    ensures s == "pending" <==> f.status == Pending && f.userId == viewer
    ensures s == "received" <==> f.status == Pending && f.userId != viewer
    ensures s == "accepted" <==> f.status == Accepted
  {
    if f.status == Pending then (if f.userId == viewer then "pending" else "received")
    else StatusName(f.status)
  }

  function View(f: Friendship, other: Accounts.User, caller: Id): FriendView {
    FriendView(f.id, other.name, other.weight, DisplayStatus(f, caller))
  }

  /** The row has the caller on one side and the other party on file: the join yields one entry for it. */
  predicate Listed(f: Friendship, users: seq<Accounts.User>, caller: Id) {
    Touches(f, caller) && Accounts.FindById(users, OtherParty(f, caller)).Some?
  }

  /** The rows the join keeps, in stored order. */
  function Listing(rows: seq<Friendship>, users: seq<Accounts.User>, caller: Id): (r: seq<Friendship>)
    ensures forall i :: 0 <= i < |r| ==> Listed(r[i], users, caller)
  {
    var listed := Filter(rows, (f: Friendship) => Listed(f, users, caller));
    assert forall i :: 0 <= i < |listed| ==> listed[i] in listed;
    listed
  }

  /** Dropping the first row drops its entry, if it had one. */
  lemma ListingStep(rows: seq<Friendship>, users: seq<Accounts.User>, caller: Id)
    requires rows != []
    ensures Listing(rows, users, caller) ==
      if Listed(rows[0], users, caller) then [rows[0]] + Listing(rows[1..], users, caller) else Listing(rows[1..], users, caller)
  {
  }

  /** The entry the join and the `map` make of a listed row. */
  function Entry(f: Friendship, users: seq<Accounts.User>, caller: Id): FriendView
    requires Listed(f, users, caller)
  {
    View(f, Accounts.FindById(users, OtherParty(f, caller)).value, caller)
  }

  /**
    `GET /friends`: one entry per row that has the caller on either side and whose
    other party exists (the inner join with `users`), in storage order.
  */
  function FriendsList(rows: seq<Friendship>, users: seq<Accounts.User>, caller: Id): (r: seq<FriendView>)
    ensures |r| == |Filter(rows, (f: Friendship) => Listed(f, users, caller))|
    ensures forall v :: v in r ==>
      exists f :: f in rows && Touches(f, caller) && Accounts.FindById(users, OtherParty(f, caller)).Some?
                && v == View(f, Accounts.FindById(users, OtherParty(f, caller)).value, caller)
    ensures forall f :: f in rows && Touches(f, caller) && Accounts.FindById(users, OtherParty(f, caller)).Some? ==>
      View(f, Accounts.FindById(users, OtherParty(f, caller)).value, caller) in r
  {
    if rows == [] then []
    else
      var rest := FriendsList(rows[1..], users, caller);
      var f := rows[0];
      assert forall g :: g in rows[1..] ==> g in rows;
      assert forall g :: g in rows ==> g == f || g in rows[1..];
      if Listed(f, users, caller) then
        [View(f, Accounts.FindById(users, OtherParty(f, caller)).value, caller)] + rest
      else rest
  }

  /** The list is the listed rows, in stored order, each joined to its other party. */
  lemma {:induction false} FriendsListInOrder(rows: seq<Friendship>, users: seq<Accounts.User>, caller: Id)
    ensures |FriendsList(rows, users, caller)| == |Listing(rows, users, caller)|
    ensures forall i :: 0 <= i < |FriendsList(rows, users, caller)| ==>
      FriendsList(rows, users, caller)[i] == Entry(Listing(rows, users, caller)[i], users, caller)
  {
    if rows != [] {
      FriendsListInOrder(rows[1..], users, caller);
      ListingStep(rows, users, caller);
    }
  }

  /** While a request is pending, its sender sees "pending" and its recipient sees "received". */
  lemma PendingShowsToBothSides(rows: seq<Friendship>, users: seq<Accounts.User>, f: Friendship, sender: Accounts.User, recipient: Accounts.User)
    requires f in rows && f.status == Pending
    requires f.userId != f.friendId
    requires Accounts.FindById(users, f.userId) == Some(sender) && Accounts.FindById(users, f.friendId) == Some(recipient)
    ensures FriendView(f.id, recipient.name, recipient.weight, "pending") in FriendsList(rows, users, f.userId)
    ensures FriendView(f.id, sender.name, sender.weight, "received") in FriendsList(rows, users, f.friendId)
  {
  }

  /** Once the recipient accepts, both sides see the row as "accepted". */
  lemma AcceptedShowsToBoth(rows: seq<Friendship>, nextId: Id, users: seq<Accounts.User>, k: nat, sender: Accounts.User, recipient: Accounts.User)
    requires IdsFresh(rows, nextId)
    requires k < |rows| && rows[k].status == Pending
    requires Accounts.FindById(users, rows[k].userId) == Some(sender) && Accounts.FindById(users, rows[k].friendId) == Some(recipient)
    ensures var after := WithStatus(rows, rows[k].id, Accepted);
      && FriendView(rows[k].id, recipient.name, recipient.weight, "accepted") in FriendsList(after, users, rows[k].userId)
      && FriendView(rows[k].id, sender.name, sender.weight, "accepted") in FriendsList(after, users, rows[k].friendId)
  {
    AcceptChangesOnlyThatRow(rows, nextId, k);
    var after := WithStatus(rows, rows[k].id, Accepted);
    var g := after[k];
    assert g == rows[k].(status := Accepted) && g in after;
    assert View(g, recipient, rows[k].userId) == FriendView(rows[k].id, recipient.name, recipient.weight, "accepted");
    assert View(g, sender, rows[k].friendId) == FriendView(rows[k].id, sender.name, sender.weight, "accepted");
  }
}
