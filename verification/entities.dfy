/** The records of the doctor-review application as they sit in storage:
    doctors, reviews, and the signed-in account. Dates are integer
    timestamps; `rating` of a doctor is a real because it is recomputed as
    a mean. */
module Entities {
  import opened Common

  datatype Doctor = Doctor(
    id: string,
    name: string,
    specialty: string,
    experience: int,
    rating: real,
    reviewsCount: int,
    avatar: Option<string>)

  datatype Review = Review(
    id: string,
    doctorId: string,
    userId: string,
    authorEmail: string,
    rating: int,
    comment: string,
    visitDate: Option<string>,
    date: int)

  /** `r => r.rating`, the term the rating averages sum. */
  function RatingOf(x: Review): int
  {
    x.rating
  }

  /** The fields of the signed-in user the screens read. */
  datatype Account = Account(id: string, email: string)
}
