/**
 * The operations of the users table: signup, account activation, lookup by
 * username and the paginated listings of users to recommend.
 */
module UsersTable {
  import opened Basics
  import opened UserRecords
  import opened UserValidation
  import opened CreatedOrder
  import opened Paging

  // ---------------------------------------------------------------------
  // Signup
  // ---------------------------------------------------------------------

  /**
   * What `addUser` does with a payload: rejects it as a forged request,
   * returns the validator's errors, fails because the save was refused, or
   * adds the user.
   */
  datatype AddUserOutcome =
    | BadRequest
    | Invalid(errors: map<Field, set<Violation>>)
    | InternalError
    | Added

  datatype AddUserResult = AddUserResult(outcome: AddUserOutcome, users: seq<User>)

  /** The id the auto-increment column hands out: larger than every stored id, soft-deleted rows included. */
  function NextId(users: seq<User>): (id: int)
    ensures forall u :: u in users ==> u.id < id
  {
    if |users| == 0 then 1
    else
      var last := users[|users| - 1];
      var earlier := NextId(users[..|users| - 1]);
      assert users == users[..|users| - 1] + [last];
      if last.id < earlier then earlier else last.id + 1
  }

  /**
   * The entity built from the payload: the columns the payload carries,
   * `is_activated` and `avatar_url` at their defaults, the creation time and
   * no `deleted` mark. `role` keeps the column default when it was not sent.
   */
  function NewUser(form: Form, id: int, now: int): User
    requires RequiredOnCreate <= form.Keys
  {
    User(
      id, form[Username], form[FirstName], form[LastName], form[Email], form[Birthdate],
      form[Password], form[Sex], if Role in form then Some(form[Role]) else None, None,
      false, form[ActivationKey], now, false)
  }

  /** `buildRules`: on save, no visible row may already hold the username or the email. */
  predicate PassesBuildRules(users: seq<User>, u: User)
  {
    && !(exists v :: v in users && Visible(v) && v.username == u.username)
    && !(exists v :: v in users && Visible(v) && v.email == u.email)
  }

  /**
   * `after` is `before` with one new, visible, not yet activated user built
   * from `form` appended: every sent column is stored as sent, `role` keeps
   * the column default when it was not sent, and `avatar_url` is empty.
   */
  predicate SignedUp(form: Form, before: seq<User>, after: seq<User>, now: int)
  {
    && RequiredOnCreate <= form.Keys
    && |after| == |before| + 1
    && after[..|before|] == before
    && var u := after[|before|];
    && Visible(u)
    && !u.isActivated
    && u.username == form[Username]
    && u.email == form[Email]
    && u.firstName == form[FirstName]
    && u.lastName == form[LastName]
    && u.sex == form[Sex]
    && u.birthdate == form[Birthdate]
    && u.password == form[Password]
    && u.role == (if Role in form then Some(form[Role]) else None)
    && u.avatarUrl == None
    && u.activationKey == form[ActivationKey]
    && u.created == now
    && forall v :: v in before ==> v.id != u.id
  }

  function AddUser(form: Form, users: seq<User>, env: Env): (r: AddUserResult)
    ensures IsActivated in form ==> r == AddUserResult(BadRequest, users)
    ensures IsActivated !in form && !AcceptableSignup(form, users, env) ==>
      r.outcome.Invalid? && r.outcome.errors != map[] && r.users == users
    ensures IsActivated !in form && r.outcome.Invalid? ==> r.outcome.errors == Validate(form, users, env)
    ensures IsActivated !in form ==>
      forall f :: f in RequiredOnCreate && f !in form ==> r.outcome.Invalid? && f in r.outcome.errors && r.outcome.errors[f] == {Required}
    ensures IsActivated !in form && AcceptableSignup(form, users, env) ==>
      r.outcome == Added && SignedUp(form, users, r.users, env.now)
    ensures r.outcome != InternalError
    ensures UniqueIds(users) ==> UniqueIds(r.users)
  {
    if IsActivated in form then
      AddUserResult(BadRequest, users)
    else
      var errors := Validate(form, users, env);
      ValidateAccepts(form, users, env);
      if errors != map[] then
        AddUserResult(Invalid(errors), users)
      else
        var u := NewUser(form, NextId(users), env.now);
        if PassesBuildRules(users, u) then
          UniqueIdsAppend(users, u);
          assert (users + [u])[..|users|] == users;
          AddUserResult(Added, users + [u])
        else
          AddUserResult(InternalError, users)
  }

  /** Appending a row whose id is new keeps the ids unique. */
  lemma UniqueIdsAppend(users: seq<User>, u: User)
    requires forall v :: v in users ==> v.id != u.id
    ensures UniqueIds(users) ==> UniqueIds(users + [u])
  {
    var s := users + [u];
    if UniqueIds(users) {
      forall i, j | 0 <= i < j < |s| ensures Ids(s)[i] != Ids(s)[j] {
        if j < |users| {
          UniqueIdsAt(users, i, j);
        } else {
          assert users[i] in users;
        }
      }
    }
  }

  /**
   * Once an acceptable signup has been added, a second signup that repeats its username
   * (or its email) is rejected with a uniqueness error on that field and
   * leaves the store unchanged.
   */
  lemma {:induction false} RepeatedSignupRejected(f: Field, first: Form, second: Form, users: seq<User>, env: Env)
    requires f == Username || f == Email
    requires IsActivated !in first && AcceptableSignup(first, users, env)
    requires f in second && second[f] == first[f] && IsActivated !in second
    ensures var after := AddUser(first, users, env).users;
      var r := AddUser(second, after, env);
      && r.outcome.Invalid?
      && f in r.outcome.errors
      && Broken(Unique) in r.outcome.errors[f]
      && r.users == after
  {
    var after := AddUser(first, users, env).users;
    var u := after[|users|];
    assert u in after && Visible(u) && Column(u, f) == Some(second[f]);
    assert second[f] != "";
    TakenValueRejected(f, second, after, env);
  }

  /** A payload repeating a username or email that a visible user holds is rejected with a uniqueness error. */
  lemma TakenValueRejected(f: Field, form: Form, users: seq<User>, env: Env)
    requires f == Username || f == Email
    requires f in form && form[f] != "" && IsActivated !in form
    requires Taken(users, f, form[f])
    ensures var r := AddUser(form, users, env);
      && r.outcome.Invalid?
      && f in r.outcome.errors
      && Broken(Unique) in r.outcome.errors[f]
      && r.users == users
  {
    assert Unique in RulesOf(f).rules && !RulePasses(Unique, f, form[f], form, users, env);
    ValidateAccepts(form, users, env);
  }

  // ---------------------------------------------------------------------
  // Lookup and activation
  // ---------------------------------------------------------------------

  datatype LookupError = NotFound

  /** The first visible user with the given username, or `NotFound`. */
  function FetchByUsername(users: seq<User>, username: string): (r: Result<User, LookupError>)
    ensures r.Ok? ==> r.value in users && Visible(r.value) && r.value.username == username
    ensures r.Err? <==> !(exists u :: u in users && Visible(u) && u.username == username)
  {
    match FirstMatchFrom(users, (u: User) => u.username == username, 0)
    case Some(i) => Ok(users[i])
    case None => Err(NotFound)
  }

  /** A user who has just signed up is found again by the username they signed up with. */
  lemma {:induction false} SignupThenLookup(form: Form, users: seq<User>, env: Env)
    requires AddUser(form, users, env).outcome == Added
    ensures var after := AddUser(form, users, env).users;
      FetchByUsername(after, form[Username]) == Ok(after[|users|])
  {
    var after := AddUser(form, users, env).users;
    assert IsActivated !in form && AcceptableSignup(form, users, env);
    var name := form[Username];
    var found := FirstMatchFrom(after, (u: User) => u.username == name, 0);
    assert after[|users|].username == name;
  }

  /** Activating fails when no visible account carries the key. */
  datatype ActivationError = NoAccountWithKey

  /**
   * `after` is `before` with the first visible account whose activation key is
   * `key`, at position `i`, marked activated, and every other row unchanged.
   */
  predicate ActivatedAt(before: seq<User>, after: seq<User>, key: string, i: int)
  {
    && |after| == |before|
    && 0 <= i < |before|
    && Visible(before[i])
    && before[i].activationKey == key
    && (forall j :: 0 <= j < i ==> !(Visible(before[j]) && before[j].activationKey == key))
    && after[i] == before[i].(isActivated := true)
    && forall j :: 0 <= j < |before| && j != i ==> after[j] == before[j]
  }

  function ActivateAccount(users: seq<User>, key: string): (r: Result<seq<User>, ActivationError>)
    ensures r.Err? <==> forall i :: 0 <= i < |users| ==> !(Visible(users[i]) && users[i].activationKey == key)
    ensures r.Ok? ==> exists i :: ActivatedAt(users, r.value, key, i)
  {
    match FirstMatchFrom(users, (u: User) => u.activationKey == key, 0)
    case Some(i) =>
      var after := users[i := users[i].(isActivated := true)];
      assert ActivatedAt(users, after, key, i);
      Ok(after)
    case None => Err(NoAccountWithKey)
  }

  /** Activating with the same key a second time changes nothing more. */
  lemma {:induction false} ActivationIsIdempotent(users: seq<User>, key: string)
    requires ActivateAccount(users, key).Ok?
    ensures var once := ActivateAccount(users, key).value;
      ActivateAccount(once, key) == Ok(once)
  {
    var once := ActivateAccount(users, key).value;
    var i :| ActivatedAt(users, once, key, i);
    var twice := ActivateAccount(once, key);
    assert twice.Ok?;
    var k :| ActivatedAt(once, twice.value, key, k);
    assert k == i;
    assert twice.value == once;
  }

  // ---------------------------------------------------------------------
  // Recommendation listings
  // ---------------------------------------------------------------------

  /** The filter of `fetchNotFollowedUsers`: a visible, activated user other than the viewer. */
  predicate Recommendable(u: User, viewer: int)
  {
    Visible(u) && u.isActivated && u.id != viewer
  }

  /** The rows the listing query filters down to, in storage order. */
  function Eligible(users: seq<User>, viewer: int): (r: seq<User>)
    ensures forall u :: u in r <==> u in users && Recommendable(u, viewer)
  {
    if |users| == 0 then []
    else
      var rest := Eligible(users[1..], viewer);
      assert users == [users[0]] + users[1..];
      if Recommendable(users[0], viewer) then [users[0]] + rest else rest
  }

  /** Filtering does not duplicate any user. */
  lemma {:induction false} EligibleKeepsIdsUnique(users: seq<User>, viewer: int)
    requires UniqueIds(users)
    ensures UniqueIds(Eligible(users, viewer))
  {
    if |users| > 0 {
      var rest := Eligible(users[1..], viewer);
      assert users == [users[0]] + users[1..];
      UniqueIdsCons(users[0], users[1..]);
      EligibleKeepsIdsUnique(users[1..], viewer);
      UniqueIdsCons(users[0], rest);
    }
  }

  /** The filtered rows ordered by `created DESC`. */
  function Ranking(users: seq<User>, viewer: int): (r: seq<User>)
    ensures NewestFirst(r)
    ensures multiset(r) == multiset(Eligible(users, viewer))
    ensures forall u :: u in r <==> u in users && Recommendable(u, viewer)
  {
    var r := SortNewestFirst(Eligible(users, viewer));
    assert forall u :: u in r <==> u in multiset(Eligible(users, viewer));
    r
  }

  /** The selected columns of each row. */
  function Summaries(s: seq<User>): (r: seq<UserSummary>)
    ensures |r| == |s|
    ensures forall k :: 0 <= k < |s| ==> r[k] == Summary(s[k])
  {
    seq(|s|, k requires 0 <= k < |s| => Summary(s[k]))
  }

  /** `Query::page` refuses page numbers below one. */
  datatype QueryError = PagesStartAtOne

  /**
   * Page `page` of the visible, activated users other than `viewer`, newest
   * first, `perPage` to a page. Whether the viewer follows them plays no part.
   */
  function FetchNotFollowedUsers(users: seq<User>, viewer: int, page: int, perPage: nat): (r: Result<seq<UserSummary>, QueryError>)
    ensures r.Err? <==> page < 1
    ensures r.Ok? ==> Offset(page, perPage) >= 0 && IsWindow(r.value, Summaries(Ranking(users, viewer)), Offset(page, perPage), perPage)
    ensures r.Ok? ==> forall s :: s in r.value ==> exists u :: u in users && Recommendable(u, viewer) && s == Summary(u)
  {
    if page < 1 then Err(PagesStartAtOne)
    else
      assert Offset(page, perPage) >= 0 by {
        assert page - 1 >= 0;
      }
      var all := Summaries(Ranking(users, viewer));
      var p := Window(all, Offset(page, perPage), perPage);
      RankedSummariesAreRecommendable(users, viewer);
      assert forall s :: s in p ==> s in all by {
        forall s | s in p ensures s in all {
          var k :| 0 <= k < |p| && p[k] == s;
          assert all[Offset(page, perPage) + k] == s;
        }
      }
      Ok(p)
  }

  /** Every listed summary is that of a visible, activated user other than the viewer. */
  lemma RankedSummariesAreRecommendable(users: seq<User>, viewer: int)
    ensures forall s :: s in Summaries(Ranking(users, viewer)) ==>
      exists u :: u in users && Recommendable(u, viewer) && s == Summary(u)
  {
    var ranked := Ranking(users, viewer);
    forall s | s in Summaries(ranked) ensures exists u :: u in users && Recommendable(u, viewer) && s == Summary(u) {
      var k :| 0 <= k < |ranked| && Summaries(ranked)[k] == s;
      assert ranked[k] in ranked;
    }
  }

  /** Pages 1 to `k` of `fetchNotFollowedUsers`, concatenated in order. */
  function FetchedPages(users: seq<User>, viewer: int, perPage: nat, k: nat): seq<UserSummary>
  {
    if k == 0 then [] else FetchedPages(users, viewer, perPage, k - 1) + FetchNotFollowedUsers(users, viewer, k, perPage).value
  }

  lemma {:induction false} FetchedPagesAreWindows(users: seq<User>, viewer: int, perPage: nat, k: nat)
    ensures FetchedPages(users, viewer, perPage, k) == FirstPages(Summaries(Ranking(users, viewer)), perPage, k)
  {
    if k > 0 {
      FetchedPagesAreWindows(users, viewer, perPage, k - 1);
      var all := Summaries(Ranking(users, viewer));
      var page := FetchNotFollowedUsers(users, viewer, k, perPage).value;
      var window := Window(all, (k - 1) * perPage, perPage);
      assert |page| == |window|;
      assert forall i :: 0 <= i < |page| ==> page[i] == window[i];
      assert page == window;
    }
  }

  /**
   * Reading pages 1 to `k` in order yields the newest `k * perPage` eligible
   * users (or all of them) exactly once each, in ranking order.
   */
  lemma FetchedPagesArePrefix(users: seq<User>, viewer: int, perPage: nat, k: nat)
    ensures var all := Summaries(Ranking(users, viewer));
      FetchedPages(users, viewer, perPage, k) == all[..Min(k * perPage, |all|)]
  {
    FetchedPagesAreWindows(users, viewer, perPage, k);
    FirstPagesArePrefix(Summaries(Ranking(users, viewer)), perPage, k);
  }

  /** The primary key of a listed user. */
  function SummaryIdOf(s: UserSummary): int
  {
    s.id
  }

  /** The ids of the listed users, in listing order. */
  function SummaryIds(s: seq<UserSummary>): seq<int>
  {
    Project(s, SummaryIdOf)
  }

  /** Selecting columns keeps the primary key, so distinct rows give distinct listed ids. */
  lemma SummariesKeepIdsUnique(rows: seq<User>)
    requires UniqueIds(rows)
    ensures NoDuplicates(SummaryIds(Summaries(rows)))
  {
    var ids := SummaryIds(Summaries(rows));
    forall i, j | 0 <= i < j < |ids| ensures ids[i] != ids[j] {
      UniqueIdsAt(rows, i, j);
    }
  }

  /**
   * Once the pages read cover the whole listing, every eligible user has
   * appeared exactly once and nobody else has.
   */
  lemma {:induction false} PagesListEveryEligibleUserOnce(users: seq<User>, viewer: int, perPage: nat, k: nat)
    requires UniqueIds(users)
    requires k * perPage >= |Eligible(users, viewer)|
    ensures var listed := FetchedPages(users, viewer, perPage, k);
      && |listed| == |Eligible(users, viewer)|
      && NoDuplicates(SummaryIds(listed))
      && (forall u :: u in users && Recommendable(u, viewer) ==> Summary(u) in listed)
      && (forall s :: s in listed ==> exists u :: u in users && Recommendable(u, viewer) && s == Summary(u))
  {
    PagesCoverRanking(users, viewer, perPage, k);
    EligibleKeepsIdsUnique(users, viewer);
    SortKeepsIdsUnique(Eligible(users, viewer));
    SummariesKeepIdsUnique(Ranking(users, viewer));
    RankingListsEveryEligibleUser(users, viewer);
    RankedSummariesAreRecommendable(users, viewer);
  }

  /** Pages covering the whole listing read back exactly the ranked summaries. */
  lemma PagesCoverRanking(users: seq<User>, viewer: int, perPage: nat, k: nat)
    requires k * perPage >= |Eligible(users, viewer)|
    ensures FetchedPages(users, viewer, perPage, k) == Summaries(Ranking(users, viewer))
    ensures |Summaries(Ranking(users, viewer))| == |Eligible(users, viewer)|
  {
    var ranked := Ranking(users, viewer);
    FetchedPagesArePrefix(users, viewer, perPage, k);
    assert |ranked| == |multiset(ranked)| == |Eligible(users, viewer)|;
  }

  /** Every visible, activated user other than the viewer has a place in the ranking. */
  lemma RankingListsEveryEligibleUser(users: seq<User>, viewer: int)
    ensures forall u :: u in users && Recommendable(u, viewer) ==> Summary(u) in Summaries(Ranking(users, viewer))
  {
    var ranked := Ranking(users, viewer);
    forall u | u in users && Recommendable(u, viewer) ensures Summary(u) in Summaries(ranked) {
      var i :| 0 <= i < |ranked| && ranked[i] == u;
      assert Summaries(ranked)[i] == Summary(u);
    }
  }

  /**
   * `fetchRecommendedUsers`: asks the stored procedure `getNotFollowedUsers`
   * (here the parameter `procedure`, given the viewer, the page size and the
   * offset) for a page, and falls back to `fetchNotFollowedUsers` when it
   * returns no rows.
   */
  function FetchRecommendedUsers(
    users: seq<User>, viewer: int, page: int, perPage: nat,
    procedure: (int, nat, int) -> seq<UserSummary>): (r: Result<seq<UserSummary>, QueryError>)
    ensures |procedure(viewer, perPage, Offset(page, perPage))| > 0 ==>
      r == Ok(procedure(viewer, perPage, Offset(page, perPage)))
    ensures |procedure(viewer, perPage, Offset(page, perPage))| == 0 ==>
      r == FetchNotFollowedUsers(users, viewer, page, perPage)
  {
    var rows := procedure(viewer, perPage, Offset(page, perPage));
    if |rows| == 0 then FetchNotFollowedUsers(users, viewer, page, perPage) else Ok(rows)
  }

  /**
   * The recommendation is never empty while the fallback listing still has
   * rows at that offset, whatever the stored procedure returns.
   */
  lemma RecommendationsNotEmptyWhileRowsRemain(
    users: seq<User>, viewer: int, page: int, perPage: nat,
    procedure: (int, nat, int) -> seq<UserSummary>)
    requires page >= 1 && perPage > 0
    requires Offset(page, perPage) < |Eligible(users, viewer)|
    ensures var r := FetchRecommendedUsers(users, viewer, page, perPage, procedure);
      r.Ok? && |r.value| > 0
  {
    var ranked := Ranking(users, viewer);
    assert |ranked| == |multiset(ranked)| == |Eligible(users, viewer)|;
  }
}
