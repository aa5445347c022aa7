/** `handleSubmit` of AddReviewScreen.js over the stored reviews and doctors.
    The clock (`Date.now()` for the id, `new Date()` for the date) is given
    as parameters. */
module AddReview {
  import opened Common
  import opened Lists
  import opened Entities
  import Text
  import DoctorDetail

  const ChooseRating := "Пожалуйста, выберите оценку"
  const WriteComment := "Пожалуйста, оставьте комментарий"
  const SaveFailed := "Не удалось добавить отзыв"

  /** How a submission ends. `Rejected` is a validation alert and `Failed`
      the alert of the `catch` block; neither saves anything. `Saved` holds
      the new review list and the doctor list that is written back, or
      `None` when no doctor has the id and the doctors are not re-saved. */
  datatype Submission =
    | Rejected(message: string)
    | Failed(message: string)
    | Saved(reviews: seq<Review>, doctors: Option<seq<Doctor>>)

  /** The form as the screen holds it. */
  datatype Form = Form(rating: int, comment: string, visitDate: string)

  /** The record `handleSubmit` appends. */
  function NewReview(id: string, doctorId: string, user: Account, form: Form, date: int): (r: Review)
    ensures r.doctorId == doctorId && r.userId == user.id && r.authorEmail == user.email
    ensures r.rating == form.rating && r.comment == Text.Trim(form.comment)
    ensures r.visitDate.None? <==> form.visitDate == ""
    ensures r.visitDate.Some? ==> r.visitDate.value == form.visitDate
  {
    Review(id, doctorId, user.id, user.email, form.rating, Text.Trim(form.comment),
           if form.visitDate == "" then None else Some(form.visitDate), date)
  }

  /** Some review in `reviews` is about the doctor `doctorId`. */
  predicate HasReviewFor(reviews: seq<Review>, doctorId: string)
  {
    exists k :: 0 <= k < |reviews| && reviews[k].doctorId == doctorId
  }

  /** The doctor after the recount: `rating` is the mean of its reviews and
      `reviewsCount` their number; the old count is not used. */
  function Recounted(d: Doctor, reviews: seq<Review>): (r: Doctor)
    requires HasReviewFor(reviews, d.id)
    ensures r.id == d.id && r.name == d.name && r.specialty == d.specialty
    ensures r.experience == d.experience && r.avatar == d.avatar
    ensures r.reviewsCount == |DoctorDetail.DoctorReviews(reviews, d.id)| >= 1
    ensures r.rating == Sum(DoctorDetail.DoctorReviews(reviews, d.id), RatingOf) as real / r.reviewsCount as real
  {
    var mine := DoctorDetail.DoctorReviews(reviews, d.id);
    assert |mine| > 0 by {
      var k :| 0 <= k < |reviews| && reviews[k].doctorId == d.id;
      assert reviews[k] in mine;
    }
    d.(rating := Mean(mine, RatingOf), reviewsCount := |mine|)
  }

  /** `i` is the position `doctors.find(d => d.id === doctorId)` stops at. */
  ghost predicate FirstWithId(doctors: seq<Doctor>, doctorId: string, i: int)
  {
    0 <= i < |doctors| && doctors[i].id == doctorId && forall j :: 0 <= j < i ==> doctors[j].id != doctorId
  }

  /** There is only one first position. */
  lemma FirstWithIdUnique(doctors: seq<Doctor>, doctorId: string, i: int, k: int)
    requires FirstWithId(doctors, doctorId, i) && FirstWithId(doctors, doctorId, k)
    ensures i == k
  {
    assert !(i < k) && !(k < i);
  }

  /** The doctor write-back: the first doctor with the id is recounted over
      `reviews`, every other entry (a later doctor with the same id
      included) is kept; `None` when no doctor has the id. */
  function UpdateDoctors(doctors: seq<Doctor>, doctorId: string, reviews: seq<Review>): (r: Option<seq<Doctor>>)
    requires HasReviewFor(reviews, doctorId)
    ensures r.Some? <==> exists i :: 0 <= i < |doctors| && doctors[i].id == doctorId
    ensures r.Some? ==> |r.value| == |doctors|
    ensures r.Some? ==>
      exists i :: FirstWithId(doctors, doctorId, i) && r.value[i] == Recounted(doctors[i], reviews)
        && forall j :: 0 <= j < |doctors| && j != i ==> r.value[j] == doctors[j]
  {
    match FindFirst(doctors, (d: Doctor) => d.id == doctorId)
    case None => None
    case Some(i) =>
      assert FirstWithId(doctors, doctorId, i);
      Some(doctors[i := Recounted(doctors[i], reviews)])
  }

  /** `handleSubmit`. `user` is the signed-in account, if any: reading
      `user.id` without one throws inside the `try`, after the reviews were
      read and before anything is written. */
  function Submit(reviews: seq<Review>, doctors: seq<Doctor>, user: Option<Account>,
                  doctorId: string, form: Form, id: string, date: int): (r: Submission)
    ensures form.rating == 0 ==> r == Rejected(ChooseRating)
    ensures form.rating != 0 && Text.Trim(form.comment) == "" ==> r == Rejected(WriteComment)
    ensures form.rating != 0 && Text.Trim(form.comment) != "" && user.None? ==> r == Failed(SaveFailed)
    ensures r.Saved? <==> form.rating != 0 && Text.Trim(form.comment) != "" && user.Some?
    ensures r.Saved? ==> r.reviews == reviews + [NewReview(id, doctorId, user.value, form, date)]
    ensures r.Saved? ==> HasReviewFor(r.reviews, doctorId)
    ensures r.Saved? ==> r.doctors == UpdateDoctors(doctors, doctorId, r.reviews)
  {
    if form.rating == 0 then Rejected(ChooseRating)
    else if Text.Trim(form.comment) == "" then Rejected(WriteComment)
    else
      match user
      case None => Failed(SaveFailed)
      case Some(u) =>
        var added := NewReview(id, doctorId, u, form, date);
        var updated := reviews + [added];
        assert updated[|reviews|] == added;
        Saved(updated, UpdateDoctors(doctors, doctorId, updated))
  }

  /** Appending a review adds exactly one to its doctor's review count. */
  lemma NewReviewIsCounted(reviews: seq<Review>, added: Review)
    ensures |DoctorDetail.DoctorReviews(reviews + [added], added.doctorId)| ==
            |DoctorDetail.DoctorReviews(reviews, added.doctorId)| + 1
  {
    FilterConcat(reviews, [added], (x: Review) => x.doctorId == added.doctorId);
  }

  /** When `i` is the first doctor with the id, the write-back recounts
      exactly that doctor and keeps every other one. */
  lemma UpdateDoctorsAt(doctors: seq<Doctor>, doctorId: string, reviews: seq<Review>, i: int)
    requires HasReviewFor(reviews, doctorId)
    requires FirstWithId(doctors, doctorId, i)
    ensures UpdateDoctors(doctors, doctorId, reviews).Some?
    ensures UpdateDoctors(doctors, doctorId, reviews).value[i] == Recounted(doctors[i], reviews)
    ensures forall j :: 0 <= j < |doctors| && j != i ==> UpdateDoctors(doctors, doctorId, reviews).value[j] == doctors[j]
  {
    var ds := UpdateDoctors(doctors, doctorId, reviews);
    var k :| FirstWithId(doctors, doctorId, k) && ds.value[k] == Recounted(doctors[k], reviews)
      && forall j :: 0 <= j < |doctors| && j != k ==> ds.value[j] == doctors[j];
    FirstWithIdUnique(doctors, doctorId, i, k);
  }

  /** After a saved submission the first doctor with the id counts one more
      review than were stored for it before, whatever `reviewsCount` said;
      every other doctor is unchanged. */
  lemma CountAfterSubmit(reviews: seq<Review>, doctors: seq<Doctor>, u: Account,
                         doctorId: string, form: Form, id: string, date: int, i: nat)
    requires form.rating != 0 && Text.Trim(form.comment) != ""
    requires i < |doctors| && doctors[i].id == doctorId
    requires forall j :: 0 <= j < i ==> doctors[j].id != doctorId
    ensures var r := Submit(reviews, doctors, Some(u), doctorId, form, id, date);
      && r.Saved? && r.doctors.Some?
      && r.doctors.value[i].reviewsCount == |DoctorDetail.DoctorReviews(reviews, doctorId)| + 1
      && forall j :: 0 <= j < |doctors| && j != i ==> r.doctors.value[j] == doctors[j]
  {
    var added := NewReview(id, doctorId, u, form, date);
    var updated := reviews + [added];
    var r := Submit(reviews, doctors, Some(u), doctorId, form, id, date);
    assert r.Saved? && r.reviews == updated;
    assert FirstWithId(doctors, doctorId, i);
    UpdateDoctorsAt(doctors, doctorId, updated, i);
    NewReviewIsCounted(reviews, added);
  }

  /** With the doctor's stored ratings and the new rating in [1, 5], the
      recomputed rating of the updated doctor lies in [1, 5]. */
  lemma RatingStaysInRange(reviews: seq<Review>, doctorId: string, added: Review, d: Doctor)
    requires added.doctorId == doctorId && d.id == doctorId
    requires 1 <= added.rating <= 5
    requires forall k :: 0 <= k < |reviews| && reviews[k].doctorId == doctorId ==> 1 <= reviews[k].rating <= 5
    ensures HasReviewFor(reviews + [added], doctorId)
    ensures 1.0 <= Recounted(d, reviews + [added]).rating <= 5.0
  {
    var updated := reviews + [added];
    var mine := DoctorDetail.DoctorReviews(updated, doctorId);
    NewReviewIsCounted(reviews, added);
    forall k | 0 <= k < |mine|
      ensures 1 <= RatingOf(mine[k]) <= 5
    {
      assert mine[k] in updated;
      if mine[k] != added {
        assert mine[k] in reviews;
      }
    }
    MeanBounds(mine, RatingOf, 1, 5);
  }
}
