/** The statistics of ProfileScreen.js: the signed-in user's reviews, their
    number and their mean rating. */
module Profile {
  import opened Common
  import opened Lists
  import opened Entities

  datatype Stats = Stats(totalReviews: nat, averageRating: real)

  /** The screen's state: the listed reviews and the statistics. */
  datatype ProfileState = ProfileState(reviews: seq<Review>, stats: Stats)

  /** Before anything is loaded: no reviews and `{ 0, 0 }`. */
  const Initial := ProfileState([], Stats(0, 0.0))

  /** `allReviews.filter(r => r.userId === user?.id)` */
  function UserReviews(all: seq<Review>, userId: string): (r: seq<Review>)
    ensures forall x :: x in r <==> x in all && x.userId == userId
    ensures forall x :: multiset(r)[x] == if x.userId == userId then multiset(all)[x] else 0
    ensures IsSubsequence(r, all)
  {
    Filter(all, (x: Review) => x.userId == userId)
  }

  /** The effect on `user`: with nobody signed in nothing is loaded; with a
      user, the list is replaced, and the statistics only when the list is
      non-empty (an empty list keeps the previous statistics). */
  function LoadUserReviews(state: ProfileState, user: Option<Account>, all: seq<Review>): (r: ProfileState)
    ensures user.None? ==> r == state
    ensures user.Some? ==> r.reviews == UserReviews(all, user.value.id)
    ensures user.Some? && |r.reviews| == 0 ==> r.stats == state.stats
    ensures user.Some? && |r.reviews| > 0 ==>
      r.stats.totalReviews == |r.reviews| && r.stats.averageRating == Sum(r.reviews, RatingOf) as real / |r.reviews| as real
  {
    match user
    case None => state
    case Some(u) =>
      var mine := UserReviews(all, u.id);
      if |mine| > 0 then ProfileState(mine, Stats(|mine|, Mean(mine, RatingOf)))
      else ProfileState(mine, state.stats)
  }

  /** A user without reviews sees the initial statistics `{ 0, 0 }`. */
  lemma NoReviewsKeepsZeroStats(u: Account, all: seq<Review>)
    requires forall i :: 0 <= i < |all| ==> all[i].userId != u.id
    ensures LoadUserReviews(Initial, Some(u), all) == Initial
  {
    FilterNone(all, (x: Review) => x.userId == u.id);
  }

  /** With every rating in [1, 5] the average lies in [1, 5] once there is a
      review. */
  lemma AverageInRange(state: ProfileState, u: Account, all: seq<Review>)
    requires forall i :: 0 <= i < |all| ==> 1 <= all[i].rating <= 5
    ensures var r := LoadUserReviews(state, Some(u), all);
      |r.reviews| > 0 ==> 1.0 <= r.stats.averageRating <= 5.0
  {
    var mine := UserReviews(all, u.id);
    if |mine| > 0 {
      forall k | 0 <= k < |mine|
        ensures 1 <= RatingOf(mine[k]) <= 5
      {
        assert mine[k] in all;
      }
      MeanBounds(mine, RatingOf, 1, 5);
    }
  }
}
