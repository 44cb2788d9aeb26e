/**
 * The post-list slice of the client store and the actions the post fetchers
 * dispatch to it. `SET_POSTS` overrides the list and `ADD_POSTS` appends to
 * it (vertical pagination).
 */
module PostsReducer {

  /** A post as the server returns it in a listing. */
  datatype Post = Post(id: int, title: string, body: string)

  datatype Action =
    | ToggleLoading(on: bool)
    | SetPosts(posts: seq<Post>)
    | AddPosts(posts: seq<Post>)
    | SetPage(page: int)

  datatype PostsState = PostsState(posts: seq<Post>, page: int, loading: bool)

  function Reduce(st: PostsState, a: Action): PostsState
  {
    match a
    case ToggleLoading(on) => st.(loading := on)
    case SetPosts(p) => st.(posts := p)
    case AddPosts(p) => st.(posts := st.posts + p)
    case SetPage(n) => st.(page := n)
  }

  /** The state after dispatching `actions` in order. */
  function Apply(st: PostsState, actions: seq<Action>): PostsState
    decreases |actions|
  {
    if |actions| == 0 then st else Apply(Reduce(st, actions[0]), actions[1..])
  }

  /** The posts of several pages, concatenated in order. */
  function Flatten(pages: seq<seq<Post>>): seq<Post>
  {
    if |pages| == 0 then [] else Flatten(pages[..|pages| - 1]) + pages[|pages| - 1]
  }
}
