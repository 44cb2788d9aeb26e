/**
 * The `created DESC` ordering of user listings, as a stable insertion sort:
 * rows with equal `created` keep their storage order.
 */
module CreatedOrder {
  import opened UserRecords

  /** Newer rows come first. */
  predicate NewestFirst(s: seq<User>)
  {
    forall i, j :: 0 <= i < j < |s| ==> s[i].created >= s[j].created
  }

  /** Prepending a row no older than any other keeps the order. */
  lemma ConsNewestFirst(x: User, t: seq<User>)
    requires NewestFirst(t)
    requires forall v :: v in t ==> v.created <= x.created
    ensures NewestFirst([x] + t)
  {
    var s := [x] + t;
    forall i, j | 0 <= i < j < |s| ensures s[i].created >= s[j].created {
      assert s[j] == t[j - 1];
      if i > 0 {
        assert s[i] == t[i - 1];
      }
    }
  }

  /** Every row after the head of an ordered sequence is no newer than the head. */
  lemma HeadIsNewest(s: seq<User>)
    requires NewestFirst(s) && |s| > 0
    ensures forall v :: v in s[1..] ==> v.created <= s[0].created
  {
    forall v | v in s[1..] ensures v.created <= s[0].created {
      var j :| 0 <= j < |s[1..]| && s[1..][j] == v;
      assert s[j + 1] == v;
    }
  }

  /** A row at least as new as the head of an ordered sequence can go in front of it. */
  lemma PrependNewer(u: User, s: seq<User>)
    requires NewestFirst(s)
    requires |s| == 0 || s[0].created <= u.created
    ensures NewestFirst([u] + s)
  {
    if |s| > 0 {
      HeadIsNewest(s);
      forall v | v in s ensures v.created <= u.created {
        if v != s[0] {
          assert v in s[1..];
        }
      }
    }
    ConsNewestFirst(u, s);
  }

  /** Places `u` before the first row of `s` that is not newer than it. */
  function InsertNewestFirst(u: User, s: seq<User>): (r: seq<User>)
    requires NewestFirst(s)
    ensures NewestFirst(r)
    ensures multiset(r) == multiset(s) + multiset{u}
  {
    if |s| == 0 || s[0].created <= u.created then
      PrependNewer(u, s);
      [u] + s
    else
      assert NewestFirst(s[1..]);
      var rest := InsertNewestFirst(u, s[1..]);
      assert s == [s[0]] + s[1..];
      HeadIsNewest(s);
      assert forall v :: v in rest ==> v.created <= s[0].created by {
        forall v | v in rest ensures v.created <= s[0].created {
          assert v in multiset(rest);
        }
      }
      ConsNewestFirst(s[0], rest);
      [s[0]] + rest
  }

  function SortNewestFirst(s: seq<User>): (r: seq<User>)
    ensures NewestFirst(r)
    ensures multiset(r) == multiset(s)
  {
    if |s| == 0 then []
    else
      assert s == [s[0]] + s[1..];
      InsertNewestFirst(s[0], SortNewestFirst(s[1..]))
  }

  /** Inserting a row whose id is new keeps the ids unique. */
  lemma {:induction false} InsertKeepsIdsUnique(u: User, s: seq<User>)
    requires NewestFirst(s) && UniqueIds(s)
    requires forall v :: v in s ==> v.id != u.id
    ensures UniqueIds(InsertNewestFirst(u, s))
  {
    if |s| == 0 || s[0].created <= u.created {
      UniqueIdsCons(u, s);
    } else {
      UniqueIdsCons(s[0], s[1..]);
      InsertKeepsIdsUnique(u, s[1..]);
      var rest := InsertNewestFirst(u, s[1..]);
      forall v | v in rest ensures v.id != s[0].id {
        assert v in multiset(rest);
      }
      UniqueIdsCons(s[0], rest);
    }
  }

  /** Sorting keeps the ids unique. */
  lemma {:induction false} SortKeepsIdsUnique(s: seq<User>)
    requires UniqueIds(s)
    ensures UniqueIds(SortNewestFirst(s))
  {
    if |s| > 0 {
      UniqueIdsCons(s[0], s[1..]);
      SortKeepsIdsUnique(s[1..]);
      var rest := SortNewestFirst(s[1..]);
      forall v | v in rest ensures v.id != s[0].id {
        assert v in multiset(rest);
      }
      InsertKeepsIdsUnique(s[0], rest);
    }
  }
}
