/** The review logic of DoctorDetailScreen.js: which reviews are shown, how
    they are ordered, what deleting does, which reviews the current user may
    edit, and the review-count label. */
module DoctorDetail {
  import opened Common
  import opened Lists
  import opened Entities
  import Text

  /** The values of `REVIEW_SORT_OPTIONS`; the screen starts with
      `DateDesc`. */
  const DateDesc := "date_desc"
  const DateAsc := "date_asc"
  const RatingDesc := "rating_desc"
  const RatingAsc := "rating_asc"

  /** The `loadData` filter: the reviews of the doctor on screen. */
  function DoctorReviews(all: seq<Review>, doctorId: string): (r: seq<Review>)
    ensures forall x :: x in r <==> x in all && x.doctorId == doctorId
    ensures forall x :: multiset(r)[x] == if x.doctorId == doctorId then multiset(all)[x] else 0
    ensures IsSubsequence(r, all)
  {
    Filter(all, (x: Review) => x.doctorId == doctorId)
  }

  /** The comparator of `sortReviewsArray`; an unknown option returns 0. */
  function ReviewComparator(option: string): (Review, Review) -> bool
  {
    if option == DateDesc then Descending((x: Review) => x.date as real)
    else if option == DateAsc then Ascending((x: Review) => x.date as real)
    else if option == RatingDesc then Descending((x: Review) => x.rating as real)
    else if option == RatingAsc then Ascending((x: Review) => x.rating as real)
    else Unordered()
  }

  /** `sortReviewsArray(reviews, option)`: a sorted copy, a permutation of the
      input ordered as the option says. */
  function SortReviews(reviews: seq<Review>, option: string): (r: seq<Review>)
    ensures multiset(r) == multiset(reviews)
    ensures option == DateDesc ==> forall i, j :: 0 <= i < j < |r| ==> r[i].date >= r[j].date
    ensures option == DateAsc ==> forall i, j :: 0 <= i < j < |r| ==> r[i].date <= r[j].date
    ensures option == RatingDesc ==> forall i, j :: 0 <= i < j < |r| ==> r[i].rating >= r[j].rating
    ensures option == RatingAsc ==> forall i, j :: 0 <= i < j < |r| ==> r[i].rating <= r[j].rating
    ensures option !in {DateDesc, DateAsc, RatingDesc, RatingAsc} ==> r == reviews
  {
    ReviewSortOrder(reviews, option);
    Sort(reviews, ReviewComparator(option))
  }

  lemma ReviewSortOrder(s: seq<Review>, option: string)
    ensures option == DateDesc ==> forall i, j :: 0 <= i < j < |s| ==>
      Sort(s, ReviewComparator(option))[i].date >= Sort(s, ReviewComparator(option))[j].date
    ensures option == DateAsc ==> forall i, j :: 0 <= i < j < |s| ==>
      Sort(s, ReviewComparator(option))[i].date <= Sort(s, ReviewComparator(option))[j].date
    ensures option == RatingDesc ==> forall i, j :: 0 <= i < j < |s| ==>
      Sort(s, ReviewComparator(option))[i].rating >= Sort(s, ReviewComparator(option))[j].rating
    ensures option == RatingAsc ==> forall i, j :: 0 <= i < j < |s| ==>
      Sort(s, ReviewComparator(option))[i].rating <= Sort(s, ReviewComparator(option))[j].rating
    ensures option !in {DateDesc, DateAsc, RatingDesc, RatingAsc} ==> Sort(s, ReviewComparator(option)) == s
  {
    if option == DateDesc {
      SortDescending(s, (x: Review) => x.date as real);
    } else if option == DateAsc {
      SortAscending(s, (x: Review) => x.date as real);
    } else if option == RatingDesc {
      SortDescending(s, (x: Review) => x.rating as real);
    } else if option == RatingAsc {
      SortAscending(s, (x: Review) => x.rating as real);
    } else {
      SortUnordered(s, Unordered<Review>());
    }
  }

  /** Re-sorting an already sorted list with the same option changes
      nothing: the sort is stable and the list has no inversions. */
  lemma SortReviewsIdempotent(reviews: seq<Review>, option: string)
    ensures SortReviews(SortReviews(reviews, option), option) == SortReviews(reviews, option)
  {
    var before := ReviewComparator(option);
    var once := SortReviews(reviews, option);
    if option == DateDesc {
      DescendingIsStrictWeakOrder((x: Review) => x.date as real);
    } else if option == DateAsc {
      AscendingIsStrictWeakOrder((x: Review) => x.date as real);
    } else if option == RatingDesc {
      DescendingIsStrictWeakOrder((x: Review) => x.rating as real);
    } else if option == RatingAsc {
      AscendingIsStrictWeakOrder((x: Review) => x.rating as real);
    } else {
      SortUnordered(once, before);
    }
    if option in {DateDesc, DateAsc, RatingDesc, RatingAsc} {
      SortSorted(reviews, before);
      SortOfSorted(once, before);
    }
  }

  /** Sorting a sequence that has no inversions is the identity. */
  lemma {:induction false} SortOfSorted<T(!new)>(s: seq<T>, before: (T, T) -> bool)
    requires SortedBy(s, before)
    ensures Sort(s, before) == s
    decreases |s|
  {
    if |s| > 0 {
      assert SortedBy(s[1..], before) by {
        forall i, j | 0 <= i < j < |s[1..]|
          ensures !before(s[1..][j], s[1..][i])
        {
          assert s[1..][j] == s[j + 1] && s[1..][i] == s[i + 1];
        }
      }
      SortOfSorted(s[1..], before);
      if |s| > 1 {
        assert !before(s[1], s[0]);
      }
      assert s == [s[0]] + s[1..];
    }
  }

  /** The reviews the screen shows after `loadData`. */
  function ShownReviews(all: seq<Review>, doctorId: string, option: string): (r: seq<Review>)
    ensures forall x :: x in r <==> x in all && x.doctorId == doctorId
    ensures multiset(r) == multiset(DoctorReviews(all, doctorId))
  {
    SortReviews(DoctorReviews(all, doctorId), option)
  }

  /** The delete action: every stored review with the given id is removed,
      all others stay, in order. */
  function DeleteReview(all: seq<Review>, reviewId: string): (r: seq<Review>)
    ensures forall x :: x in r <==> x in all && x.id != reviewId
    ensures forall x: Review :: x.id != reviewId ==> multiset(r)[x] == multiset(all)[x]
    ensures IsSubsequence(r, all)
    ensures |r| == |all| - |Filter(all, (x: Review) => x.id == reviewId)|
  {
    DeleteCount(all, reviewId);
    Filter(all, (x: Review) => x.id != reviewId)
  }

  /** Kept and removed reviews add up to the stored ones. */
  lemma {:induction false} DeleteCount(all: seq<Review>, reviewId: string)
    ensures |Filter(all, (x: Review) => x.id != reviewId)| + |Filter(all, (x: Review) => x.id == reviewId)| == |all|
    decreases |all|
  {
    if |all| > 0 {
      DeleteCount(all[1..], reviewId);
    }
  }

  /** Deleting an id no stored review has changes nothing. */
  lemma DeleteAbsent(all: seq<Review>, reviewId: string)
    requires forall i :: 0 <= i < |all| ==> all[i].id != reviewId
    ensures DeleteReview(all, reviewId) == all
  {
    FilterAll(all, (x: Review) => x.id != reviewId);
  }

  /** The props the screen gives each review card. */
  datatype CardActions = CardActions(canEdit: bool, editTarget: Option<Review>, deleteTarget: Option<string>)

  /** `item.userId === user?.id`: with nobody signed in, `user?.id` is
      `undefined`, which equals no stored `userId`. */
  function Actions(review: Review, user: Option<Account>): (r: CardActions)
    ensures r.canEdit <==> user.Some? && user.value.id == review.userId
    ensures r.editTarget.Some? <==> r.canEdit
    ensures r.editTarget.Some? ==> r.editTarget.value == review
    ensures r.deleteTarget.Some? <==> r.canEdit
    ensures r.deleteTarget.Some? ==> r.deleteTarget.value == review.id
  {
    var own := match user case None => false case Some(u) => review.userId == u.id;
    CardActions(own, if own then Some(review) else None, if own then Some(review.id) else None)
  }

  /** The delete a card offers is the author's own, and it removes that
      review; when review ids are unique it removes nothing else. */
  lemma DeleteOffered(all: seq<Review>, review: Review, user: Option<Account>)
    requires Actions(review, user).deleteTarget.Some?
    ensures user.Some? && user.value.id == review.userId
    ensures review !in DeleteReview(all, Actions(review, user).deleteTarget.value)
    ensures (forall a, b :: 0 <= a < b < |all| ==> all[a].id != all[b].id) && review in all ==>
      multiset(DeleteReview(all, Actions(review, user).deleteTarget.value)) == multiset(all) - multiset{review}
  {
    if (forall a, b :: 0 <= a < b < |all| ==> all[a].id != all[b].id) && review in all {
      DeleteUniqueId(all, review);
    }
  }

  /** Among reviews with distinct ids, deleting one's id removes exactly it. */
  lemma DeleteUniqueId(all: seq<Review>, review: Review)
    requires forall a, b :: 0 <= a < b < |all| ==> all[a].id != all[b].id
    requires review in all
    ensures multiset(DeleteReview(all, review.id)) == multiset(all) - multiset{review}
  {
    var r := DeleteReview(all, review.id);
    var m := multiset(all) - multiset{review};
    UniqueKeysCount(all, (x: Review) => x.id, review);
    forall x
      ensures multiset(r)[x] == m[x]
    {
      if x == review {
        assert x !in r;
      } else if x.id == review.id {
        if x in all {
          SameId(all, x, review);
        }
        assert x !in r;
      }
    }
    assert multiset(r) == m;
  }

  /** Distinct ids: two stored reviews sharing an id are the same review. */
  lemma SameId(all: seq<Review>, x: Review, y: Review)
    requires forall a, b :: 0 <= a < b < |all| ==> all[a].id != all[b].id
    requires x in all && y in all && x.id == y.id
    ensures x == y
  {
    var i :| 0 <= i < |all| && all[i] == x;
    var j :| 0 <= j < |all| && all[j] == y;
  }

  /** What pressing "Оставить отзыв" does. */
  datatype AddReviewAction =
    | Alert(title: string, message: string)
    | Navigate(doctorId: string, doctorName: Option<string>)

  const SignInRequired := "Необходимо войти в систему для оставления отзыва"

  /** `handleAddReview`: without a user, an alert and no navigation. */
  function AddReview(user: Option<Account>, doctorId: string, doctor: Option<Doctor>): (r: AddReviewAction)
    ensures r.Navigate? <==> user.Some?
    ensures r.Alert? ==> r.message == SignInRequired
    ensures r.Navigate? ==>
      (&& r.doctorId == doctorId
       && (r.doctorName.Some? <==> doctor.Some?)
       && (doctor.Some? ==> r.doctorName.value == doctor.value.name))
  {
    match user
    case None => Alert("Ошибка", SignInRequired)
    case Some(_) =>
      Navigate(doctorId, match doctor case None => None case Some(d) => Some(d.name))
  }

  /** The noun after the review count: singular only for exactly one. */
  function CountNoun(reviewsCount: int): (r: string)
    ensures r == "отзыв" <==> reviewsCount == 1
    ensures r == "отзывов" <==> reviewsCount != 1
  {
    if reviewsCount == 1 then "отзыв" else "отзывов"
  }

  /** `{doctor.reviewsCount} {noun}`: the label starts with the count's digits
      and ends with the noun. */
  function CountLabel(reviewsCount: int): (r: string)
    ensures |r| == |Text.IntText(reviewsCount)| + 1 + |CountNoun(reviewsCount)|
    ensures r[..|Text.IntText(reviewsCount)|] == Text.IntText(reviewsCount)
    ensures r[|r| - |CountNoun(reviewsCount)|..] == CountNoun(reviewsCount)
  {
    Text.IntText(reviewsCount) + " " + CountNoun(reviewsCount)
  }
}
