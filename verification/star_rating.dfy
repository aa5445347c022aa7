/** StarRating.js: how many stars are drawn, which are filled, and what a
    tap requests. */
module StarRating {
  import opened Common

  /** The prop defaults `rating = 0` and `maxRating = 5`. */
  const DefaultRating: real := 0.0
  const DefaultMaxRating: int := 5

  /** `Array.from({ length: maxRating })` has no elements for a negative
      length. */
  function StarCount(maxRating: int): nat
  {
    if maxRating < 0 then 0 else maxRating
  }

  /** The `filled` flag of every star, left to right: star `index` is filled
      when `index < rating`. */
  function Stars(rating: real, maxRating: int): (r: seq<bool>)
    ensures |r| == StarCount(maxRating)
    ensures forall i :: 0 <= i < |r| ==> (r[i] <==> (i as real) < rating)
  {
    seq(StarCount(maxRating), (i: int) => (i as real) < rating)
  }

  /** The stars of a widget given only a `rating`: five, filled up to the
      rating. */
  function DefaultStars(rating: real): (r: seq<bool>)
    ensures |r| == 5
    ensures forall i :: 0 <= i < 5 ==> (r[i] <==> (i as real) < rating)
  {
    Stars(rating, DefaultMaxRating)
  }

  /** A widget given no props draws five empty stars. */
  lemma DefaultsShowNoStar()
    ensures Stars(DefaultRating, DefaultMaxRating) == [false, false, false, false, false]
    ensures Filled(Stars(DefaultRating, DefaultMaxRating)) == 0
  {
    FilledPrefix(Stars(DefaultRating, DefaultMaxRating), 0);
  }

  /** The least integer not below `x`. */
  function Ceil(x: real): (c: int)
    ensures c as real >= x && (c - 1) as real < x
  {
    if x.Floor as real == x then x.Floor else x.Floor + 1
  }

  function Filled(stars: seq<bool>): nat
  {
    if |stars| == 0 then 0 else (if stars[0] then 1 else 0) + Filled(stars[1..])
  }

  /** A run of `k` filled stars followed by empty ones counts `k`. */
  lemma {:induction false} FilledPrefix(stars: seq<bool>, k: nat)
    requires k <= |stars|
    requires forall i :: 0 <= i < |stars| ==> (stars[i] <==> i < k)
    ensures Filled(stars) == k
    decreases |stars|
  {
    if |stars| > 0 {
      FilledPrefix(stars[1..], if k > 0 then k - 1 else 0);
    }
  }

  /** The number of filled stars is `ceil(rating)` kept within
      `[0, maxRating]`: an integer rating in range fills exactly that many,
      a fractional one rounds up. */
  lemma FilledCount(rating: real, maxRating: int)
    ensures var c := Ceil(rating);
      Filled(Stars(rating, maxRating)) == if c < 0 then 0 else if c > StarCount(maxRating) then StarCount(maxRating) else c
  {
    var c := Ceil(rating);
    var n := StarCount(maxRating);
    var k := if c < 0 then 0 else if c > n then n else c;
    var stars := Stars(rating, maxRating);
    forall i | 0 <= i < |stars|
      ensures stars[i] <==> i < k
    {
      if i < c {
        assert (i as real) <= (c - 1) as real;
      }
    }
    FilledPrefix(stars, k);
  }

  /** `handleStarPress(index)`: the rating requested from `onRatingChange`,
      if the component is enabled and has a callback. */
  function Press(index: int, disabled: bool, hasCallback: bool): (r: Option<int>)
    ensures r.Some? <==> !disabled && hasCallback
    ensures r.Some? ==> r.value == index + 1
  {
    if !disabled && hasCallback then Some(index + 1) else None
  }

  /** A press on any drawn star requests a rating in [1, maxRating], and
      once that rating is shown exactly the stars up to the pressed one are
      filled. */
  lemma PressThenShow(index: int, maxRating: int)
    requires 0 <= index < StarCount(maxRating)
    ensures 1 <= Press(index, false, true).value <= maxRating
    ensures var stars := Stars(Press(index, false, true).value as real, maxRating);
      Filled(stars) == index + 1 && stars[index] && (index + 1 < |stars| ==> !stars[index + 1])
  {
    FilledCount((index + 1) as real, maxRating);
  }
}
