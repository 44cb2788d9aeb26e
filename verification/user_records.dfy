/**
 * Rows of the `users` table and the soft-delete scope every query through
 * that table applies.
 */
module UserRecords {
  import opened Basics

  /**
   * One row of `users`. `deleted` stands for a non-null `deleted` timestamp
   * (a soft-deleted row); `created` is the creation time, in seconds, that the
   * Timestamp behaviour writes.
   */
  datatype User = User(
    id: int,
    username: string,
    firstName: string,
    lastName: string,
    email: string,
    birthdate: string,
    password: string,
    sex: string,
    role: Option<string>,
    avatarUrl: Option<string>,
    isActivated: bool,
    activationKey: string,
    created: int,
    deleted: bool)

  /** The columns `fetchNotFollowedUsers` selects. */
  datatype UserSummary = UserSummary(
    id: int,
    username: string,
    firstName: string,
    lastName: string,
    avatarUrl: Option<string>)

  function Summary(u: User): UserSummary
  {
    UserSummary(u.id, u.username, u.firstName, u.lastName, u.avatarUrl)
  }

  /**
   * The soft-delete scope: every query issued through the users table
   * (finds, `exists`, uniqueness and existence rules) only sees rows whose
   * `deleted` column is null.
   */
  predicate Visible(u: User)
  {
    !u.deleted
  }

  /** The primary key of a row. */
  function IdOf(u: User): int
  {
    u.id
  }

  /** The `id` column of the stored rows, in storage order. */
  function Ids(users: seq<User>): seq<int>
  {
    Project(users, IdOf)
  }

  /** The primary key is unique across the stored rows. */
  predicate UniqueIds(users: seq<User>)
  {
    NoDuplicates(Ids(users))
  }

  /** An id is in the column exactly when some row carries it. */
  lemma IdsMembers(users: seq<User>, id: int)
    ensures id in Ids(users) <==> exists u :: u in users && u.id == id
  {
    if id in Ids(users) {
      var i :| 0 <= i < |Ids(users)| && Ids(users)[i] == id;
      assert users[i] in users;
    }
    if exists u :: u in users && u.id == id {
      var u :| u in users && u.id == id;
      var i :| 0 <= i < |users| && users[i] == u;
      assert Ids(users)[i] == id;
    }
  }

  /** Two different positions of a store with unique ids hold different ids. */
  lemma UniqueIdsAt(users: seq<User>, i: int, j: int)
    requires UniqueIds(users)
    requires 0 <= i < |users| && 0 <= j < |users| && i != j
    ensures users[i].id != users[j].id
  {
    assert Ids(users)[i] == users[i].id && Ids(users)[j] == users[j].id;
  }

  /** Prepending a row keeps the ids unique exactly when its id is new. */
  lemma UniqueIdsCons(x: User, t: seq<User>)
    ensures UniqueIds([x] + t) <==> UniqueIds(t) && forall v :: v in t ==> v.id != x.id
  {
    assert ([x] + t)[1..] == t;
    assert Ids([x] + t) == [x.id] + Ids(t);
    NoDuplicatesCons(x.id, Ids(t));
    IdsMembers(t, x.id);
  }

  /** Some visible user has primary key `id`. */
  predicate HasUser(users: seq<User>, id: int)
  {
    exists i :: 0 <= i < |users| && Visible(users[i]) && users[i].id == id
  }

  /** The ids of the visible users, in storage order. */
  function VisibleIds(users: seq<User>): (ids: seq<int>)
    ensures forall id :: id in ids <==> HasUser(users, id)
    ensures UniqueIds(users) ==> NoDuplicates(ids)
  {
    if |users| == 0 then []
    else
      var rest := VisibleIds(users[1..]);
      HasUserSplit(users);
      HeadIdIsFresh(users);
      if Visible(users[0]) then
        NoDuplicatesCons(users[0].id, rest);
        [users[0].id] + rest
      else rest
  }

  /** A visible user is either the first row or a visible user of the rows after it. */
  lemma HasUserSplit(users: seq<User>)
    requires |users| > 0
    ensures forall id :: HasUser(users, id) <==> HasUser(users[1..], id) || (Visible(users[0]) && users[0].id == id)
  {
    forall id | HasUser(users[1..], id) ensures HasUser(users, id) {
      var i :| 0 <= i < |users[1..]| && Visible(users[1..][i]) && users[1..][i].id == id;
      assert users[i + 1] == users[1..][i];
    }
    forall id | HasUser(users, id) ensures HasUser(users[1..], id) || (Visible(users[0]) && users[0].id == id) {
      var i :| 0 <= i < |users| && Visible(users[i]) && users[i].id == id;
      if i > 0 {
        assert users[1..][i - 1] == users[i];
      }
    }
  }

  /** With unique ids, the rows after the first hold its id nowhere, and their ids are unique too. */
  lemma HeadIdIsFresh(users: seq<User>)
    requires |users| > 0
    ensures UniqueIds(users) ==> UniqueIds(users[1..])
    ensures UniqueIds(users) ==> forall id :: HasUser(users[1..], id) ==> id != users[0].id
  {
    assert users == [users[0]] + users[1..];
    UniqueIdsCons(users[0], users[1..]);
    if UniqueIds(users) {
      forall id | HasUser(users[1..], id) ensures id != users[0].id {
        var i :| 0 <= i < |users[1..]| && Visible(users[1..][i]) && users[1..][i].id == id;
        assert users[1..][i] in users[1..];
      }
    }
  }

  /**
   * The position of the first visible row that `matches` accepts, scanning
   * storage order from `from`: what `find()->where(...)->first()` returns.
   */
  function FirstMatchFrom(users: seq<User>, matches: User -> bool, from: nat): (r: Option<nat>)
    requires from <= |users|
    ensures r.Some? ==> from <= r.value < |users| && Visible(users[r.value]) && matches(users[r.value])
    ensures r.Some? ==> forall j :: from <= j < r.value ==> !(Visible(users[j]) && matches(users[j]))
    ensures r.None? ==> forall j :: from <= j < |users| ==> !(Visible(users[j]) && matches(users[j]))
    decreases |users| - from
  {
    if from == |users| then None
    else if Visible(users[from]) && matches(users[from]) then Some(from)
    else FirstMatchFrom(users, matches, from + 1)
  }
}
