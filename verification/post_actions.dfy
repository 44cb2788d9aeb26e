/**
 * The client's post action creators: the two paginated fetchers and the
 * create and update requests. Each HTTP call is replaced by its response,
 * given as an input; the model returns the request sent, the actions
 * dispatched and how the returned promise settles.
 */
module PostActions {
  import opened Basics
  import opened PostsReducer

  /** The server's answer to one request. */
  datatype Response<+T> = Success(data: T) | Failure

  /** How the promise an action creator returns settles. */
  datatype Settled<+T> = Resolved(value: T) | Rejected

  /** Which listing a fetcher reads: the landing feed or one user's posts. */
  datatype Listing = Landing | UserPosts(username: string)

  datatype ListRequest = ListRequest(listing: Listing, page: int)

  datatype FetchRun = FetchRun(request: ListRequest, dispatched: seq<Action>, outcome: Settled<seq<Post>>)

  /** Page 1 overrides the list; any other page is appended to it. */
  function ListingAction(page: int, data: seq<Post>): Action
  {
    if page == 1 then SetPosts(data) else AddPosts(data)
  }

  /** The loading flag is raised first and lowered last. */
  predicate BracketedByLoading(actions: seq<Action>)
  {
    |actions| >= 2 && actions[0] == ToggleLoading(true) && actions[|actions| - 1] == ToggleLoading(false)
  }

  /** Some action of `actions` sets the page. */
  predicate SetsPage(actions: seq<Action>)
  {
    exists i :: 0 <= i < |actions| && actions[i].SetPage?
  }

  /** `getPostsForLanding(page)`. */
  function GetPostsForLanding(page: int, response: Response<seq<Post>>): (r: FetchRun)
    ensures r.request == ListRequest(Landing, page)
    ensures BracketedByLoading(r.dispatched)
    ensures r.outcome.Resolved? <==> response.Success?
    ensures response.Success? ==> r.outcome == Resolved(response.data)
    ensures response.Success? ==>
      |r.dispatched| == 4 && r.dispatched[1] == ListingAction(page, response.data) && r.dispatched[2] == SetPage(page)
    ensures response.Failure? ==> !SetsPage(r.dispatched)
    ensures response.Failure? ==> r.dispatched == [ToggleLoading(true), ToggleLoading(false)]
    ensures forall st :: Apply(st, r.dispatched).loading == false
  {
    var actions :=
      match response
      case Success(data) => [ToggleLoading(true), ListingAction(page, data), SetPage(page), ToggleLoading(false)]
      case Failure => [ToggleLoading(true), ToggleLoading(false)];
    var outcome := match response case Success(data) => Resolved(data) case Failure => Rejected;
    LoadingClearedAfterBracket(actions);
    FetchRun(ListRequest(Landing, page), actions, outcome)
  }

  /** `getUserPosts(username, page)`. */
  function GetUserPosts(username: string, page: int, response: Response<seq<Post>>): (r: FetchRun)
    ensures r.request == ListRequest(UserPosts(username), page)
    ensures BracketedByLoading(r.dispatched)
    ensures r.outcome.Resolved? <==> response.Success?
    ensures response.Success? ==> r.outcome == Resolved(response.data)
    ensures response.Success? ==>
      |r.dispatched| == 4 && r.dispatched[1] == ListingAction(page, response.data) && r.dispatched[2] == SetPage(page)
    ensures response.Failure? ==> r.dispatched[|r.dispatched| - 2] == SetPage(1)
    ensures response.Failure? ==> r.dispatched == [ToggleLoading(true), SetPage(1), ToggleLoading(false)]
    ensures forall st :: Apply(st, r.dispatched).loading == false
  {
    var actions :=
      match response
      case Success(data) => [ToggleLoading(true), ListingAction(page, data), SetPage(page), ToggleLoading(false)]
      case Failure => [ToggleLoading(true), SetPage(1), ToggleLoading(false)];
    var outcome := match response case Success(data) => Resolved(data) case Failure => Rejected;
    LoadingClearedAfterBracket(actions);
    FetchRun(ListRequest(UserPosts(username), page), actions, outcome)
  }

  /** Dispatching a sequence that ends by lowering the loading flag leaves it lowered. */
  lemma {:induction false} LoadingClearedAfterBracket(actions: seq<Action>)
    requires |actions| > 0 && actions[|actions| - 1] == ToggleLoading(false)
    ensures forall st :: Apply(st, actions).loading == false
    decreases |actions|
  {
    forall st ensures Apply(st, actions).loading == false {
      if |actions| > 1 {
        LoadingClearedAfterBracket(actions[1..]);
      }
    }
  }

  /** Dispatching two, three or four actions, one after the other. */
  lemma ApplyFetchActions(st: PostsState, actions: seq<Action>)
    requires 2 <= |actions| <= 4
    ensures |actions| == 2 ==> Apply(st, actions) == Reduce(Reduce(st, actions[0]), actions[1])
    ensures |actions| == 3 ==> Apply(st, actions) == Reduce(Reduce(Reduce(st, actions[0]), actions[1]), actions[2])
    ensures |actions| == 4 ==>
      Apply(st, actions) == Reduce(Reduce(Reduce(Reduce(st, actions[0]), actions[1]), actions[2]), actions[3])
  {
    var s1 := Reduce(st, actions[0]);
    var s2 := Reduce(s1, actions[1]);
    assert Apply(st, actions) == Apply(s1, actions[1..]);
    assert actions[1..][1..] == actions[2..];
    assert Apply(s1, actions[1..]) == Apply(s2, actions[2..]);
    if |actions| >= 3 {
      var s3 := Reduce(s2, actions[2]);
      assert actions[2..][1..] == actions[3..];
      assert Apply(s2, actions[2..]) == Apply(s3, actions[3..]);
      if |actions| == 4 {
        assert actions[3..][1..] == [];
        assert Apply(s3, actions[3..]) == Apply(Reduce(s3, actions[3]), []);
      }
    }
  }

  /**
   * The effect of a fetch on the store: on success the page's posts replace
   * the list (page 1) or are appended to it, the page is recorded and loading
   * ends; on failure the posts stay as they were and only loading ends.
   */
  lemma LandingFetchEffect(st: PostsState, page: int, response: Response<seq<Post>>)
    ensures var after := Apply(st, GetPostsForLanding(page, response).dispatched);
      match response
      case Success(data) =>
        after == PostsState(if page == 1 then data else st.posts + data, page, false)
      case Failure =>
        after == st.(loading := false)
  {
    ApplyFetchActions(st, GetPostsForLanding(page, response).dispatched);
  }

  /** Like the landing fetch, except that a failed user-post fetch also resets the page to 1. */
  lemma UserPostsFetchEffect(st: PostsState, username: string, page: int, response: Response<seq<Post>>)
    ensures var after := Apply(st, GetUserPosts(username, page, response).dispatched);
      match response
      case Success(data) =>
        after == PostsState(if page == 1 then data else st.posts + data, page, false)
      case Failure =>
        after == PostsState(st.posts, 1, false)
  {
    ApplyFetchActions(st, GetUserPosts(username, page, response).dispatched);
  }

  /** The store after fetching landing pages 1, 2, ... in order, page `i` answered with `responses[i - 1]`. */
  function LoadLandingPages(st: PostsState, responses: seq<seq<Post>>): PostsState
  {
    if |responses| == 0 then st
    else
      var k := |responses|;
      Apply(LoadLandingPages(st, responses[..k - 1]), GetPostsForLanding(k, Success(responses[k - 1])).dispatched)
  }

  /**
   * Fetching pages 1 to `k` in order leaves exactly the concatenation of the
   * `k` responses in the list, whatever it held before, with page `k`
   * recorded and loading over.
   */
  lemma {:induction false} PagesAccumulate(st: PostsState, responses: seq<seq<Post>>)
    requires |responses| > 0
    ensures LoadLandingPages(st, responses) == PostsState(Flatten(responses), |responses|, false)
  {
    var k := |responses|;
    var before := LoadLandingPages(st, responses[..k - 1]);
    LandingFetchEffect(before, k, Success(responses[k - 1]));
    if k > 1 {
      PagesAccumulate(st, responses[..k - 1]);
      assert responses[..k - 1][..k - 2] == responses[..k - 2];
    } else {
      assert Flatten(responses) == Flatten([]) + responses[0];
    }
  }

  /** A page-1 fetch discards every post listed before it. */
  lemma FirstPageDiscardsEarlierPosts(st: PostsState, responses: seq<seq<Post>>, data: seq<Post>)
    ensures Apply(LoadLandingPages(st, responses), GetPostsForLanding(1, Success(data)).dispatched).posts == data
  {
    LandingFetchEffect(LoadLandingPages(st, responses), 1, Success(data));
  }

  // ---------------------------------------------------------------------
  // Create and update requests
  // ---------------------------------------------------------------------

  /** The JavaScript values a post's fields can hold. */
  datatype JsValue =
    | Undefined
    | Null
    | Bool(b: bool)
    | Num(n: int)
    | Str(s: string)
    | File(name: string)

  /** JavaScript truthiness. */
  predicate Truthy(v: JsValue)
  {
    match v
    case Undefined => false
    case Null => false
    case Bool(b) => b
    case Num(n) => n != 0
    case Str(s) => s != ""
    case File(_) => true
  }

  /** The post object handed to `addPost`/`updatePost`; `img` is `None` when it has no own `img` property. */
  datatype PostDraft = PostDraft(title: JsValue, body: JsValue, img: Option<JsValue>)

  /** `post.img`: `undefined` when the property is missing. */
  function ImgOf(d: PostDraft): JsValue
  {
    match d.img
    case None => Undefined
    case Some(v) => v
  }

  datatype FormField = FormField(name: string, value: JsValue)

  datatype Endpoint = CreatePost | UpdatePostById(postId: int)

  /** A POST of form data, with or without the multipart content-type header. */
  datatype Upload = Upload(endpoint: Endpoint, form: seq<FormField>, multipart: bool)

  /** Some entry of `form` is named `name`. */
  predicate Sends(form: seq<FormField>, name: string)
  {
    exists i :: 0 <= i < |form| && form[i].name == name
  }

  /** The form always starts with the title and the body. */
  predicate StartsWithText(form: seq<FormField>, d: PostDraft)
  {
    |form| >= 2 && form[0] == FormField("title", d.title) && form[1] == FormField("body", d.body)
  }

  /** The request `addPost` sends. */
  function CreateRequest(d: PostDraft): (u: Upload)
    ensures u.endpoint == CreatePost
    ensures StartsWithText(u.form, d)
    ensures Sends(u.form, "img") <==> Truthy(ImgOf(d))
    ensures u.multipart <==> Truthy(ImgOf(d))
    ensures forall i :: 0 <= i < |u.form| && u.form[i].name == "img" ==> u.form[i].value == ImgOf(d)
    ensures !Sends(u.form, "img_path")
    ensures |u.form| == if Truthy(ImgOf(d)) then 3 else 2
  {
    var text := [FormField("title", d.title), FormField("body", d.body)];
    if Truthy(ImgOf(d)) then
      assert (text + [FormField("img", ImgOf(d))])[2].name == "img";
      Upload(CreatePost, text + [FormField("img", ImgOf(d))], true)
    else Upload(CreatePost, text, false)
  }

  datatype AddPostRun = AddPostRun(request: Upload, dispatched: seq<Action>, outcome: Settled<()>)

  /**
   * `addPost`: sends the create request; once it succeeds, reloads the
   * landing feed from page 1 and settles as that reload does.
   */
  function AddPost(d: PostDraft, created: Response<()>, reloaded: Response<seq<Post>>): (r: AddPostRun)
    ensures r.request == CreateRequest(d)
    ensures created.Failure? ==> r.dispatched == [] && r.outcome == Rejected
    ensures created.Success? ==> r.dispatched == GetPostsForLanding(1, reloaded).dispatched
    ensures r.outcome.Resolved? <==> created.Success? && reloaded.Success?
  {
    match created
    case Failure => AddPostRun(CreateRequest(d), [], Rejected)
    case Success(_) =>
      var reload := GetPostsForLanding(1, reloaded);
      AddPostRun(CreateRequest(d), reload.dispatched, if reload.outcome.Resolved? then Resolved(()) else Rejected)
  }

  /** After a successful `addPost` the list holds exactly the reloaded first page. */
  lemma AddPostShowsFirstPage(st: PostsState, d: PostDraft, data: seq<Post>)
    ensures Apply(st, AddPost(d, Success(()), Success(data)).dispatched) == PostsState(data, 1, false)
  {
    LandingFetchEffect(st, 1, Success(data));
  }

  /** The request `updatePost(postId, post)` sends. */
  function UpdateRequest(postId: int, d: PostDraft): (u: Upload)
    ensures u.endpoint == UpdatePostById(postId)
    ensures StartsWithText(u.form, d)
  {
    var text := [FormField("title", d.title), FormField("body", d.body)];
    if d.img.Some? && d.img.value == Num(-1) then
      Upload(UpdatePostById(postId), text + [FormField("img_path", Str(""))], false)
    else if Truthy(ImgOf(d)) then
      Upload(UpdatePostById(postId), text + [FormField("img", ImgOf(d))], true)
    else
      Upload(UpdatePostById(postId), text, false)
  }

  /** `updatePost` settles as its request does and dispatches nothing. */
  function UpdatePost(postId: int, d: PostDraft, response: Response<()>): (r: (Upload, Settled<()>))
    ensures r.0 == UpdateRequest(postId, d)
    ensures r.1.Resolved? <==> response.Success?
  {
    (UpdateRequest(postId, d), if response.Success? then Resolved(()) else Rejected)
  }

  /**
   * The three cases of `updatePost`: the image sentinel `-1` sends an empty
   * `img_path` and no image; otherwise a truthy image is sent as multipart;
   * otherwise only the title and the body go out. `img` and `img_path` are
   * never sent together, and the multipart header goes with `img`.
   */
  lemma UpdateRequestCases(postId: int, d: PostDraft)
    ensures var u := UpdateRequest(postId, d);
      && (Sends(u.form, "img_path") <==> ImgOf(d) == Num(-1))
      && (Sends(u.form, "img") <==> ImgOf(d) != Num(-1) && Truthy(ImgOf(d)))
      && (u.multipart <==> Sends(u.form, "img"))
      && (!Sends(u.form, "img") && !Sends(u.form, "img_path") <==> |u.form| == 2)
      && |u.form| == (if Sends(u.form, "img") || Sends(u.form, "img_path") then 3 else 2)
      && (forall i :: 0 <= i < |u.form| && u.form[i].name == "img_path" ==> u.form[i].value == Str(""))
      && (forall i :: 0 <= i < |u.form| && u.form[i].name == "img" ==> u.form[i].value == ImgOf(d))
  {
    var u := UpdateRequest(postId, d);
    if ImgOf(d) == Num(-1) {
      assert u.form[2].name == "img_path";
    } else if Truthy(ImgOf(d)) {
      assert u.form[2].name == "img";
    }
  }
}
