/** ReviewList.js: the doctor names looked up for a list of reviews and the
    text of each list item. */
module ReviewList {
  import opened Common
  import opened Lists
  import opened Entities
  import Text

  const FallbackName := "Врач"
  const Star: char := '★'

  /** The doctor `doctors.find(d => d.id === doctorId)` returns. */
  function DoctorById(doctors: seq<Doctor>, doctorId: string): (r: Option<Doctor>)
    ensures r.Some? <==> exists j :: 0 <= j < |doctors| && doctors[j].id == doctorId
    ensures r.Some? ==> exists j :: 0 <= j < |doctors| && doctors[j] == r.value && doctors[j].id == doctorId
                          && forall k :: 0 <= k < j ==> doctors[k].id != doctorId
  {
    Find(doctors, (d: Doctor) => d.id == doctorId)
  }

  /** `loadDoctorNames`: for each review in turn, record the name of the
      doctor it refers to, if there is one. */
  function DoctorNames(reviews: seq<Review>, doctors: seq<Doctor>): (r: map<string, string>)
    ensures forall id :: id in r <==>
      (exists i :: 0 <= i < |reviews| && reviews[i].doctorId == id) && DoctorById(doctors, id).Some?
    ensures forall id :: id in r ==> r[id] == DoctorById(doctors, id).value.name
  {
    if |reviews| == 0 then map[]
    else
      var last := reviews[|reviews| - 1];
      var names := DoctorNames(reviews[..|reviews| - 1], doctors);
      assert forall i :: 0 <= i < |reviews| - 1 ==> reviews[..|reviews| - 1][i] == reviews[i];
      match DoctorById(doctors, last.doctorId)
      case None => names
      case Some(d) => names[last.doctorId := d.name]
  }

  /** `doctorNames[review.doctorId] || 'Врач'`: a missing entry and an
      empty name both fall back. */
  function DisplayName(names: map<string, string>, review: Review): (r: string)
    ensures r == FallbackName <==> review.doctorId !in names || names[review.doctorId] in {"", FallbackName}
    ensures r != FallbackName ==> r == names[review.doctorId]
  {
    if review.doctorId in names && names[review.doctorId] != "" then names[review.doctorId] else FallbackName
  }

  /** The name shown for a review of the list: the first doctor with its
      id, unless there is none or that doctor's name is empty. */
  lemma ShownName(reviews: seq<Review>, doctors: seq<Doctor>, i: nat)
    requires i < |reviews|
    ensures var shown := DisplayName(DoctorNames(reviews, doctors), reviews[i]);
      match DoctorById(doctors, reviews[i].doctorId)
      case None => shown == FallbackName
      case Some(d) => shown == if d.name == "" then FallbackName else d.name
  {
  }

  /** `'★'.repeat(count)`; a negative count is a RangeError. */
  function Repeat(count: int): (r: Result<string>)
    ensures r.Ok? <==> count >= 0
    ensures r.Ok? ==> |r.value| == count && forall k :: 0 <= k < |r.value| ==> r.value[k] == Star
    ensures r.Err? ==> r.message == "Invalid count value: " + Text.IntText(count)
  {
    if count < 0 then Err("Invalid count value: " + Text.IntText(count))
    else Ok(seq(count, (_: int) => Star))
  }

  datatype Item = Item(reviewId: string, doctorName: string, stars: string)

  /** The list item of one review: its id, the name shown for it and its
      star string. */
  predicate ItemOf(names: map<string, string>, review: Review, item: Item)
  {
    && item.reviewId == review.id
    && item.doctorName == DisplayName(names, review)
    && Repeat(review.rating) == Ok(item.stars)
  }

  /** The render aborts at review `i` with message `m`: `i` is the first
      review with a negative rating, and `m` is its RangeError. */
  predicate AbortsAt(reviews: seq<Review>, i: int, m: string)
  {
    && 0 <= i < |reviews|
    && reviews[i].rating < 0
    && m == Repeat(reviews[i].rating).message
    && forall j :: 0 <= j < i ==> reviews[j].rating >= 0
  }

  /** `reviews.map(...)`: one item per review, in order. A negative rating
      makes `repeat` throw, which aborts the whole render with the error of
      the first such review. */
  function Items(reviews: seq<Review>, names: map<string, string>): (r: Result<seq<Item>>)
    ensures r.Ok? <==> forall i :: 0 <= i < |reviews| ==> reviews[i].rating >= 0
    ensures r.Ok? ==> |r.value| == |reviews|
    ensures r.Ok? ==> forall i :: 0 <= i < |reviews| ==> ItemOf(names, reviews[i], r.value[i])
    ensures r.Err? ==> exists i :: AbortsAt(reviews, i, r.message)
  {
    if |reviews| == 0 then Ok([])
    else
      match Repeat(reviews[0].rating)
      case Err(m) =>
        assert AbortsAt(reviews, 0, m);
        Err(m)
      case Ok(stars) =>
        var tail := reviews[1..];
        assert forall j :: 1 <= j < |reviews| ==> reviews[j] == tail[j - 1];
        match Items(tail, names)
        case Err(m) =>
          assert exists i :: AbortsAt(reviews, i, m) by {
            var i :| AbortsAt(tail, i, m);
            assert AbortsAt(reviews, i + 1, m);
          }
          Err(m)
        case Ok(rest) =>
          var items := [Item(reviews[0].id, DisplayName(names, reviews[0]), stars)] + rest;
          assert ItemOf(names, reviews[0], items[0]);
          assert forall j :: 1 <= j < |reviews| ==> items[j] == rest[j - 1];
          Ok(items)
  }
}
