/** The data logic of 3/orderFunctions.js once the posts and users have been
    fetched: recent posts, title search and posting statistics. */
module OrderFunctions {
  import opened Common
  import opened Lists
  import opened Api
  import Text

  /** `getRecentPosts()` without an argument keeps five posts. */
  const DefaultLimit: int := 5

  /** The end index `slice(0, limit)` uses on a sequence of length `len`:
      a negative limit counts back from the end. */
  function SliceEnd(len: nat, limit: int): (e: nat)
    ensures e <= len
    ensures limit >= 0 ==> e == if limit < len then limit else len
    ensures limit < 0 ==> e == if len + limit > 0 then len + limit else 0
  {
    if limit < 0 then (if len + limit > 0 then len + limit else 0)
    else if limit < len then limit
    else len
  }

  /** `(a, b) => b.id - a.id` */
  function ByIdDescending(): (Post, Post) -> bool
  {
    Descending((p: Post) => p.id as real)
  }

  /** `getRecentPosts(limit)`: the posts sorted by descending id, cut to the
      first `limit`; a failed fetch gives `[]`. The result is a top-`limit`
      selection: no post left out has a larger id than a post kept. */
  function RecentPosts(fetched: Fetched<Post>, limit: int): (r: seq<Post>)
    ensures fetched.Err? ==> r == []
    ensures fetched.Ok? ==> |r| == SliceEnd(|fetched.value|, limit)
    ensures fetched.Ok? ==> multiset(r) <= multiset(fetched.value)
    ensures forall i, j :: 0 <= i < j < |r| ==> r[i].id >= r[j].id
    ensures fetched.Ok? ==>
      forall x, y :: x in r && y in multiset(fetched.value) - multiset(r) ==> x.id >= y.id
  {
    match fetched
    case Err(_) => []
    case Ok(posts) =>
      var sorted := Sort(posts, ByIdDescending());
      var k := SliceEnd(|sorted|, limit);
      SortDescending(posts, (p: Post) => p.id as real);
      PrefixDominates(sorted, k, (p: Post) => p.id as real);
      sorted[..k]
  }

  /** `getRecentPosts()` */
  function RecentPostsDefault(fetched: Fetched<Post>): (r: seq<Post>)
    ensures fetched.Ok? ==> |r| == if |fetched.value| < 5 then |fetched.value| else 5
  {
    RecentPosts(fetched, DefaultLimit)
  }

  /** With distinct ids the recent posts come in strictly descending id order. */
  lemma RecentPostsStrictlyDescending(posts: seq<Post>, limit: int)
    requires forall a, b :: 0 <= a < b < |posts| ==> posts[a].id != posts[b].id
    ensures var r := RecentPosts(Ok(posts), limit);
            forall i, j :: 0 <= i < j < |r| ==> r[i].id > r[j].id
  {
    var sorted := Sort(posts, ByIdDescending());
    PermutationKeepsUniqueKeys(posts, sorted, (p: Post) => p.id);
    SortDescending(posts, (p: Post) => p.id as real);
    var r := RecentPosts(Ok(posts), limit);
    assert r == sorted[..|r|];
  }

  /** The case-insensitive title test of `getPostsByTitleSearch`. */
  predicate TitleMatches(term: string, p: Post)
  {
    Text.Includes(Text.Lower(p.title), Text.Lower(term))
  }

  /** `getPostsByTitleSearch(term)`: exactly the posts whose lower-cased title
      contains the lower-cased term, in their original order; `[]` when the
      fetch fails. */
  function PostsByTitleSearch(fetched: Fetched<Post>, term: string): (r: seq<Post>)
    ensures fetched.Err? ==> r == []
    ensures fetched.Ok? ==> forall p :: p in r <==> p in fetched.value && TitleMatches(term, p)
    ensures fetched.Ok? ==> forall p :: multiset(r)[p] == if TitleMatches(term, p) then multiset(fetched.value)[p] else 0
    ensures fetched.Ok? ==> IsSubsequence(r, fetched.value)
  {
    match fetched
    case Err(_) => []
    case Ok(posts) => Filter(posts, (p: Post) => TitleMatches(term, p))
  }

  /** An empty search term matches every post. */
  lemma EmptyTermMatchesAll(posts: seq<Post>)
    ensures PostsByTitleSearch(Ok(posts), "") == posts
  {
    forall i | 0 <= i < |posts|
      ensures TitleMatches("", posts[i])
    {
      Text.IncludesEmpty(Text.Lower(posts[i].title));
    }
    FilterAll(posts, (p: Post) => TitleMatches("", p));
  }

  /** One entry of `postsByUser`. */
  datatype UserPostCount = UserPostCount(userId: int, userName: string, postCount: nat)

  /** `topPoster` renames the fields of its entry. */
  datatype TopPoster = TopPoster(id: int, name: string, postCount: nat)

  datatype Stats = Stats(
    totalPosts: nat,
    totalUsers: nat,
    averagePostsPerUser: real,
    topPoster: TopPoster,
    postsByUser: seq<UserPostCount>)

  /** The number of posts whose `userId` is `id`. */
  function PostsOf(posts: seq<Post>, id: int): nat
  {
    |Filter(posts, (p: Post) => p.userId == id)|
  }

  /** `users.map(...)`: one entry per user, in user order. */
  function CountsInUserOrder(users: seq<User>, posts: seq<Post>): (r: seq<UserPostCount>)
    ensures |r| == |users|
    ensures forall i :: 0 <= i < |r| ==>
      r[i] == UserPostCount(users[i].id, users[i].name, PostsOf(posts, users[i].id))
  {
    if |users| == 0 then []
    else [UserPostCount(users[0].id, users[0].name, PostsOf(posts, users[0].id))] + CountsInUserOrder(users[1..], posts)
  }

  /** `(a, b) => b.postCount - a.postCount` */
  function ByCountDescending(): (UserPostCount, UserPostCount) -> bool
  {
    Descending((c: UserPostCount) => c.postCount as real)
  }

  /** Reading `topPoster.userId` when `users` is empty. */
  const NoTopPosterMessage := "Cannot read properties of undefined (reading 'userId')"

  /** `userPostCounts` after the in-place sort: the entries by descending
      count. */
  function PostsByUser(users: seq<User>, posts: seq<Post>): (r: seq<UserPostCount>)
    ensures |r| == |users|
    ensures multiset(r) == multiset(CountsInUserOrder(users, posts))
    ensures forall i, j :: 0 <= i < j < |r| ==> r[i].postCount >= r[j].postCount
  {
    SortDescending(CountsInUserOrder(users, posts), (c: UserPostCount) => c.postCount as real);
    Sort(CountsInUserOrder(users, posts), ByCountDescending())
  }

  /** `getPostsStats()` given the outcomes of the two parallel fetches. The
      join fails as soon as either fetch fails; the `users` error is the one
      reported when both fail. `averagePostsPerUser` is the exact quotient. */
  function PostsStats(users: Fetched<User>, posts: Fetched<Post>): (r: Result<Stats>)
    ensures users.Err? ==> r == Err(users.message)
    ensures users.Ok? && posts.Err? ==> r == Err(posts.message)
    ensures users.Ok? && posts.Ok? && |users.value| == 0 ==> r == Err(NoTopPosterMessage)
    ensures r.Ok? <==> users.Ok? && posts.Ok? && |users.value| > 0
    ensures r.Ok? ==> r.value.totalPosts == |posts.value| && r.value.totalUsers == |users.value|
    ensures r.Ok? ==> r.value.averagePostsPerUser == |posts.value| as real / |users.value| as real
    ensures r.Ok? ==> r.value.postsByUser == PostsByUser(users.value, posts.value)
    ensures r.Ok? ==> multiset(r.value.postsByUser) == multiset(CountsInUserOrder(users.value, posts.value))
    ensures r.Ok? ==> r.value.topPoster == TopPoster(r.value.postsByUser[0].userId, r.value.postsByUser[0].userName, r.value.postsByUser[0].postCount)
  {
    match users
    case Err(m) => Err(m)
    case Ok(us) =>
      match posts
      case Err(m) => Err(m)
      case Ok(ps) =>
        var sorted := PostsByUser(us, ps);
        if |sorted| == 0 then Err(NoTopPosterMessage)
        else
          var average := if |us| > 0 then |ps| as real / |us| as real else 0.0;
          Ok(Stats(|ps|, |us|, average, TopPoster(sorted[0].userId, sorted[0].userName, sorted[0].postCount), sorted))
  }

  /** Every entry of `postsByUser` is some user's entry, counting exactly the
      posts whose `userId` is that user's id (posts of unknown users are
      counted nowhere). */
  lemma PostsByUserEntries(users: seq<User>, posts: seq<Post>)
    ensures forall c :: c in PostsByUser(users, posts) ==>
      exists u :: u in users && c == UserPostCount(u.id, u.name, PostsOf(posts, u.id))
  {
    var counts := CountsInUserOrder(users, posts);
    forall c | c in PostsByUser(users, posts)
      ensures exists u :: u in users && c == UserPostCount(u.id, u.name, PostsOf(posts, u.id))
    {
      assert c in multiset(counts);
      var i :| 0 <= i < |counts| && counts[i] == c;
      assert users[i] in users;
    }
  }

  /** `postsByUser` is in non-increasing count order, and entries with equal
      counts keep the order of `users`. */
  lemma PostsByUserOrder(users: seq<User>, posts: seq<Post>)
    ensures forall i, j :: 0 <= i < j < |PostsByUser(users, posts)| ==>
      PostsByUser(users, posts)[i].postCount >= PostsByUser(users, posts)[j].postCount
    ensures forall y :: Ties(PostsByUser(users, posts), y, ByCountDescending())
                     == Ties(CountsInUserOrder(users, posts), y, ByCountDescending())
  {
    var counts := CountsInUserOrder(users, posts);
    SortDescending(counts, (c: UserPostCount) => c.postCount as real);
    DescendingIsStrictWeakOrder((c: UserPostCount) => c.postCount as real);
    forall y
      ensures Ties(PostsByUser(users, posts), y, ByCountDescending()) == Ties(counts, y, ByCountDescending())
    {
      SortStable(counts, y, ByCountDescending());
    }
  }

  /** `topPoster` has the largest count of all users. */
  lemma TopPosterMaximal(users: seq<User>, posts: seq<Post>)
    requires |users| > 0
    ensures forall u :: u in users ==> PostsOf(posts, u.id) <= PostsByUser(users, posts)[0].postCount
  {
    var counts := CountsInUserOrder(users, posts);
    SortDescendingMax(counts, (c: UserPostCount) => c.postCount as real);
    forall u | u in users
      ensures PostsOf(posts, u.id) <= PostsByUser(users, posts)[0].postCount
    {
      var i :| 0 <= i < |users| && users[i] == u;
      assert counts[i] in counts;
    }
  }

  /** `topPoster` is the earliest user in `users` with the largest count. */
  lemma TopPosterEarliest(users: seq<User>, posts: seq<Post>)
    requires |users| > 0
    ensures var top := PostsByUser(users, posts)[0];
      exists k :: 0 <= k < |users|
        && top == UserPostCount(users[k].id, users[k].name, PostsOf(posts, users[k].id))
        && forall j :: 0 <= j < k ==> PostsOf(posts, users[j].id) < top.postCount
  {
    var counts := CountsInUserOrder(users, posts);
    SortDescendingHead(counts, (c: UserPostCount) => c.postCount as real);
    var k :| 0 <= k < |counts| && counts[k] == PostsByUser(users, posts)[0]
             && forall j :: 0 <= j < k ==> counts[j].postCount as real < counts[k].postCount as real;
    var top := PostsByUser(users, posts)[0];
    assert top == UserPostCount(users[k].id, users[k].name, PostsOf(posts, users[k].id));
    forall j | 0 <= j < k
      ensures PostsOf(posts, users[j].id) < top.postCount
    {
      assert counts[j].postCount == PostsOf(posts, users[j].id);
    }
  }
}
