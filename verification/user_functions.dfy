/** The data logic of 3/userFunctions.js once the users and posts have been
    fetched: the active-user filter, the user-with-posts projection and the
    case-insensitive e-mail lookup. */
module UserFunctions {
  import opened Common
  import opened Lists
  import opened Api
  import Text

  /** The test `user.id % 2 === 0`; JavaScript's `%` keeps the sign of the
      dividend, but a remainder of zero is the same under either convention. */
  predicate IsActive(u: User)
  {
    u.id % 2 == 0
  }

  /** `getActiveUsers()`: exactly the users with an even id, in their
      original order; `[]` when the fetch fails. */
  function ActiveUsers(fetched: Fetched<User>): (r: seq<User>)
    ensures fetched.Err? ==> r == []
    ensures fetched.Ok? ==> forall u :: u in r <==> u in fetched.value && u.id % 2 == 0
    ensures fetched.Ok? ==> forall u :: multiset(r)[u] == if u.id % 2 == 0 then multiset(fetched.value)[u] else 0
    ensures fetched.Ok? ==> IsSubsequence(r, fetched.value)
  {
    match fetched
    case Err(_) => []
    case Ok(users) => Filter(users, IsActive)
  }

  /** Applying the filter to its own output changes nothing. */
  lemma ActiveUsersIdempotent(users: seq<User>)
    ensures ActiveUsers(Ok(ActiveUsers(Ok(users)))) == ActiveUsers(Ok(users))
  {
    FilterAll(ActiveUsers(Ok(users)), IsActive);
  }

  /** The user part of the result: only `id`, `name`, `email`, `username`. */
  datatype UserCard = UserCard(id: int, name: string, email: string, username: string)

  /** One entry of `posts`: only `id`, `title`, `body`. */
  datatype PostCard = PostCard(id: int, title: string, body: string)

  datatype UserWithPosts = UserWithPosts(user: UserCard, posts: seq<PostCard>, postCount: nat)

  function CardOf(u: User): UserCard
  {
    UserCard(u.id, u.name, u.email, u.username)
  }

  function PostCardOf(p: Post): PostCard
  {
    PostCard(p.id, p.title, p.body)
  }

  /** `posts.map(post => ({ id, title, body }))` */
  function PostCards(posts: seq<Post>): (r: seq<PostCard>)
    ensures |r| == |posts|
    ensures forall i :: 0 <= i < |posts| ==>
      r[i].id == posts[i].id && r[i].title == posts[i].title && r[i].body == posts[i].body
  {
    if |posts| == 0 then [] else [PostCardOf(posts[0])] + PostCards(posts[1..])
  }

  /** The error thrown when the user lookup yields `null`. */
  function NotFoundMessage(userId: int): string
  {
    "Пользователь с ID " + Text.IntText(userId) + " не найден"
  }

  /** `getUserWithPosts(userId)` given the outcomes of the two parallel
      requests. The user request never rejects (it yields `null` on any
      failure); a failed posts request rejects the join before the `null`
      check is reached. */
  function UserWithPostsOf(userId: int, user: Option<User>, posts: Fetched<Post>): (r: Result<UserWithPosts>)
    ensures posts.Err? ==> r == Err(posts.message)
    ensures posts.Ok? && user.None? ==> r == Err(NotFoundMessage(userId))
    ensures r.Ok? <==> posts.Ok? && user.Some?
    ensures r.Ok? ==> r.value.user == UserCard(user.value.id, user.value.name, user.value.email, user.value.username)
    ensures r.Ok? ==> r.value.postCount == |posts.value| == |r.value.posts|
    ensures r.Ok? ==> forall i :: 0 <= i < |posts.value| ==>
      r.value.posts[i] == PostCard(posts.value[i].id, posts.value[i].title, posts.value[i].body)
  {
    match posts
    case Err(m) => Err(m)
    case Ok(ps) =>
      match user
      case None => Err(NotFoundMessage(userId))
      case Some(u) => Ok(UserWithPosts(CardOf(u), PostCards(ps), |ps|))
  }

  /** The not-found message names the requested id. */
  lemma NotFoundNamesId(userId: int)
    ensures var m := NotFoundMessage(userId);
      |m| > |"Пользователь с ID "| && m[|"Пользователь с ID "|..|m| - |" не найден"|] == Text.IntText(userId)
  {
  }

  /** The projection keeps every post and its order: posts that differ in
      `id`, `title` or `body` stay different. */
  lemma PostCardsInjective(a: seq<Post>, b: seq<Post>)
    requires |a| == |b|
    requires PostCards(a) == PostCards(b)
    ensures forall i :: 0 <= i < |a| ==> a[i].id == b[i].id && a[i].title == b[i].title && a[i].body == b[i].body
  {
    forall i | 0 <= i < |a|
      ensures a[i].id == b[i].id && a[i].title == b[i].title && a[i].body == b[i].body
    {
      assert PostCards(a)[i] == PostCards(b)[i];
    }
  }

  /** The test `user.email.toLowerCase() === email.toLowerCase()`, with the
      query already lowered. */
  predicate EmailMatches(query: string, u: User)
  {
    Text.Lower(u.email) == query
  }

  /** `findUserByEmail(email)`: the first user whose e-mail equals the query
      ignoring case; `None` (`null`) when nobody matches or the fetch fails. */
  function UserByEmail(fetched: Fetched<User>, email: string): (r: Option<User>)
    ensures fetched.Err? ==> r == None
    ensures fetched.Ok? ==> (r.None? <==> forall u :: u in fetched.value ==> Text.Lower(u.email) != Text.Lower(email))
    ensures fetched.Ok? && r.Some? ==>
      (exists i :: 0 <= i < |fetched.value| && fetched.value[i] == r.value
        && Text.Lower(r.value.email) == Text.Lower(email)
        && forall j :: 0 <= j < i ==> Text.Lower(fetched.value[j].email) != Text.Lower(email))
  {
    match fetched
    case Err(_) => None
    case Ok(users) =>
      var query := Text.Lower(email);
      match FindFirst(users, (u: User) => EmailMatches(query, u))
      case None => None
      case Some(i) => Some(users[i])
  }

  /** The lookup ignores the case of the query: two queries that lower to
      the same string find the same user. */
  lemma UserByEmailIgnoresCase(fetched: Fetched<User>, a: string, b: string)
    requires Text.Lower(a) == Text.Lower(b)
    ensures UserByEmail(fetched, a) == UserByEmail(fetched, b)
  {
  }

  /** A user's own e-mail, in any case, finds the first user with that
      e-mail ignoring case. */
  lemma UserByEmailFindsListed(users: seq<User>, i: nat)
    requires i < |users|
    ensures UserByEmail(Ok(users), users[i].email).Some?
  {
    assert users[i] in users;
  }
}
