/**
 * `limit`/`page` pagination of a query result: page `p` of size `n` is the
 * slice that starts at row `(p - 1) * n` and holds at most `n` rows.
 */
module Paging {
  import opened Basics

  /** The first row of page `page` when pages hold `perPage` rows. */
  function Offset(page: int, perPage: nat): int
  {
    (page - 1) * perPage
  }

  /** `p` is the window of `s` that starts at `offset` and holds at most `limit` rows. */
  predicate IsWindow<T(==)>(p: seq<T>, s: seq<T>, offset: nat, limit: nat)
  {
    && |p| == (if offset >= |s| then 0 else Min(limit, |s| - offset))
    && forall k :: 0 <= k < |p| ==> offset + k < |s| && p[k] == s[offset + k]
  }

  /** `LIMIT limit OFFSET offset` applied to the rows `s`. */
  function Window<T(==)>(s: seq<T>, offset: nat, limit: nat): (r: seq<T>)
    ensures IsWindow(r, s, offset, limit)
  {
    s[Min(offset, |s|)..Min(offset + limit, |s|)]
  }

  /** Pages 1 to `k` of size `perPage`, concatenated in order. */
  function FirstPages<T(==)>(s: seq<T>, perPage: nat, k: nat): seq<T>
  {
    if k == 0 then [] else FirstPages(s, perPage, k - 1) + Window(s, (k - 1) * perPage, perPage)
  }

  /**
   * Reading pages 1 to `k` in order yields exactly the first `k * perPage`
   * rows (or all of them): no row is skipped and none is read twice.
   */
  lemma {:induction false} FirstPagesArePrefix<T>(s: seq<T>, perPage: nat, k: nat)
    ensures FirstPages(s, perPage, k) == s[..Min(k * perPage, |s|)]
  {
    if k > 0 {
      FirstPagesArePrefix(s, perPage, k - 1);
      var a := Min((k - 1) * perPage, |s|);
      var b := Min(k * perPage, |s|);
      assert (k - 1) * perPage + perPage == k * perPage;
      assert Window(s, (k - 1) * perPage, perPage) == s[a..b];
      assert s[..a] + s[a..b] == s[..b];
    }
  }
}
