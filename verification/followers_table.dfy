/**
 * The `followers` table: directed follow edges between users, the existence
 * rules checked when an edge is saved, and the two counting queries.
 */
module FollowersTable {
  import opened Basics
  import opened UserRecords

  /**
   * One row of `followers`: `userId` follows `followingId`. `deleted` stands
   * for a non-null `deleted` column; this table has no soft-delete scope, so
   * its queries see such rows like any other.
   */
  datatype Edge = Edge(userId: int, followingId: int, deleted: bool)

  /** The two ends of an edge: the follower (`user_id`) and the followed user (`following_id`). */
  datatype End = FollowerEnd | FollowedEnd

  function EndOf(e: Edge, end: End): int
  {
    match end
    case FollowerEnd => e.userId
    case FollowedEnd => e.followingId
  }

  /** `buildRules` failed: which of the two `existsIn` rules were broken. */
  datatype FollowError = MissingUsers(userIdMissing: bool, followingIdMissing: bool)

  /**
   * Saving a new edge: both `existsIn` rules run, each asking whether a
   * visible user has that id; the edge is stored only when both hold. No rule
   * forbids following oneself or following twice.
   */
  function SaveEdge(users: seq<User>, edges: seq<Edge>, follower: int, followed: int): (r: Result<seq<Edge>, FollowError>)
    ensures r.Ok? <==> HasUser(users, follower) && HasUser(users, followed)
    ensures r.Ok? ==> |r.value| == |edges| + 1 && r.value[..|edges|] == edges
    ensures r.Ok? ==> r.value[|edges|] == Edge(follower, followed, false)
    ensures r.Err? ==> r.error.userIdMissing == !HasUser(users, follower)
    ensures r.Err? ==> r.error.followingIdMissing == !HasUser(users, followed)
  {
    var userIdMissing := !HasUser(users, follower);
    var followingIdMissing := !HasUser(users, followed);
    if userIdMissing || followingIdMissing then
      Err(MissingUsers(userIdMissing, followingIdMissing))
    else
      assert (edges + [Edge(follower, followed, false)])[..|edges|] == edges;
      Ok(edges + [Edge(follower, followed, false)])
  }

  /** The column of one end, row by row. */
  function EndColumn(edges: seq<Edge>, end: End): (c: seq<int>)
    ensures |c| == |edges|
    ensures forall i :: 0 <= i < |edges| ==> c[i] == EndOf(edges[i], end)
  {
    seq(|edges|, i requires 0 <= i < |edges| => EndOf(edges[i], end))
  }

  /** The number of rows whose `end` column equals `userId`. */
  function CountWhere(edges: seq<Edge>, end: End, userId: int): (n: nat)
    ensures n == multiset(EndColumn(edges, end))[userId]
    ensures n <= |edges|
  {
    if |edges| == 0 then 0
    else
      var earlier := edges[..|edges| - 1];
      var last := edges[|edges| - 1];
      assert EndColumn(edges, end) == EndColumn(earlier, end) + [EndOf(last, end)];
      CountWhere(earlier, end, userId) + (if EndOf(last, end) == userId then 1 else 0)
  }

  /** `countFollowers`: the rows whose `following_id` is `userId`, marked deleted or not. */
  function CountFollowers(edges: seq<Edge>, userId: int): (n: nat)
    ensures n == multiset(EndColumn(edges, FollowedEnd))[userId]
  {
    CountWhere(edges, FollowedEnd, userId)
  }

  /** `countFollowing`: the rows whose `user_id` is `userId`, marked deleted or not. */
  function CountFollowing(edges: seq<Edge>, userId: int): (n: nat)
    ensures n == multiset(EndColumn(edges, FollowerEnd))[userId]
  {
    CountWhere(edges, FollowerEnd, userId)
  }

  /**
   * A successful save of an edge in which `followed` by `follower` adds one to the
   * follower's following count and one to the followed user's follower count,
   * and leaves every other count as it was.
   */
  lemma SaveEdgeAdjustsCounts(users: seq<User>, edges: seq<Edge>, follower: int, followed: int, u: int)
    requires SaveEdge(users, edges, follower, followed).Ok?
    ensures var after := SaveEdge(users, edges, follower, followed).value;
      && CountFollowing(after, u) == CountFollowing(edges, u) + (if u == follower then 1 else 0)
      && CountFollowers(after, u) == CountFollowers(edges, u) + (if u == followed then 1 else 0)
  {
    var after := SaveEdge(users, edges, follower, followed).value;
    assert after == edges + [Edge(follower, followed, false)];
    assert EndColumn(after, FollowerEnd) == EndColumn(edges, FollowerEnd) + [follower];
    assert EndColumn(after, FollowedEnd) == EndColumn(edges, FollowedEnd) + [followed];
  }

  /** Marking a row deleted changes no count: neither query filters on `deleted`. */
  lemma CountsIgnoreDeletedMark(edges: seq<Edge>, i: int, u: int)
    requires 0 <= i < |edges|
    ensures var marked := edges[i := edges[i].(deleted := true)];
      CountFollowers(marked, u) == CountFollowers(edges, u) && CountFollowing(marked, u) == CountFollowing(edges, u)
  {
    var marked := edges[i := edges[i].(deleted := true)];
    assert EndColumn(marked, FollowedEnd) == EndColumn(edges, FollowedEnd);
    assert EndColumn(marked, FollowerEnd) == EndColumn(edges, FollowerEnd);
  }

  /** Every edge joins two visible users. */
  predicate EdgesReferenceUsers(users: seq<User>, edges: seq<Edge>)
  {
    forall e :: e in edges ==> HasUser(users, e.userId) && HasUser(users, e.followingId)
  }

  /** A save that succeeds keeps every edge between visible users. */
  lemma SaveEdgeKeepsReferences(users: seq<User>, edges: seq<Edge>, follower: int, followed: int)
    requires EdgesReferenceUsers(users, edges)
    requires SaveEdge(users, edges, follower, followed).Ok?
    ensures EdgesReferenceUsers(users, SaveEdge(users, edges, follower, followed).value)
  {
    var after := SaveEdge(users, edges, follower, followed).value;
    assert after == edges + [Edge(follower, followed, false)];
  }

  /** The counts of one end, summed over the users `ids`. */
  function Total(ids: seq<int>, edges: seq<Edge>, end: End): nat
  {
    if |ids| == 0 then 0 else CountWhere(edges, end, ids[0]) + Total(ids[1..], edges, end)
  }

  /** Adding a row raises the total by the number of times its end occurs among `ids`. */
  lemma {:induction false} TotalAppend(ids: seq<int>, edges: seq<Edge>, e: Edge, end: End)
    ensures Total(ids, edges + [e], end) == Total(ids, edges, end) + multiset(ids)[EndOf(e, end)]
  {
    if |ids| > 0 {
      TotalAppend(ids[1..], edges, e, end);
      assert EndColumn(edges + [e], end) == EndColumn(edges, end) + [EndOf(e, end)];
      assert ids == [ids[0]] + ids[1..];
    }
  }

  /** A duplicate-free sequence holds each of its elements once. */
  lemma {:induction false} OccursOnce(ids: seq<int>, x: int)
    requires NoDuplicates(ids) && x in ids
    ensures multiset(ids)[x] == 1
  {
    assert ids == [ids[0]] + ids[1..];
    if ids[0] == x {
      assert x !in ids[1..];
    } else {
      OccursOnce(ids[1..], x);
    }
  }

  /**
   * Summed over duplicate-free `ids` that include every row's `end`, the
   * counts add up to the number of rows.
   */
  lemma {:induction false} TotalIsRowCount(ids: seq<int>, edges: seq<Edge>, end: End)
    requires NoDuplicates(ids)
    requires forall e :: e in edges ==> EndOf(e, end) in ids
    ensures Total(ids, edges, end) == |edges|
  {
    if |edges| == 0 {
      TotalOfNoRows(ids, end);
    } else {
      var earlier := edges[..|edges| - 1];
      var last := edges[|edges| - 1];
      assert edges == earlier + [last];
      TotalIsRowCount(ids, earlier, end);
      TotalAppend(ids, earlier, last, end);
      OccursOnce(ids, EndOf(last, end));
    }
  }

  lemma {:induction false} TotalOfNoRows(ids: seq<int>, end: End)
    ensures Total(ids, [], end) == 0
  {
    if |ids| > 0 {
      TotalOfNoRows(ids[1..], end);
    }
  }

  /**
   * While every edge joins visible users, the follower counts of all visible
   * users add up to the number of edges, and so do their following counts.
   */
  lemma CountsSumToEdgeCount(users: seq<User>, edges: seq<Edge>)
    requires UniqueIds(users)
    requires EdgesReferenceUsers(users, edges)
    ensures Total(VisibleIds(users), edges, FollowedEnd) == |edges|
    ensures Total(VisibleIds(users), edges, FollowerEnd) == |edges|
  {
    TotalIsRowCount(VisibleIds(users), edges, FollowedEnd);
    TotalIsRowCount(VisibleIds(users), edges, FollowerEnd);
  }
}
