/** Sequence operations that the JavaScript sources take from `Array.prototype`:
    `filter`, `find`, `reduce` over a sum, and a stable `sort` driven by a
    comparator. */
module Lists {
  import opened Common

  /** `a` can be obtained from `b` by deleting elements (order is kept).
      Matching is greedy, which loses no generality. */
  ghost predicate IsSubsequence<T(!new)>(a: seq<T>, b: seq<T>)
    decreases |b|
  {
    |a| == 0 || (|b| > 0 && (if a[0] == b[0] then IsSubsequence(a[1..], b[1..]) else IsSubsequence(a, b[1..])))
  }

  /** `Array.prototype.filter`: the elements satisfying `p`, every one of
      them with its multiplicity, in their original order. */
  function Filter<T(!new)>(s: seq<T>, p: T -> bool): (r: seq<T>)
    ensures |r| <= |s|
    ensures forall i :: 0 <= i < |r| ==> p(r[i])
    ensures forall x :: multiset(r)[x] == if p(x) then multiset(s)[x] else 0
    ensures forall x :: x in r <==> x in s && p(x)
    ensures IsSubsequence(r, s)
  {
    if |s| == 0 then []
    else
      assert s == [s[0]] + s[1..];
      var rest := Filter(s[1..], p);
      if p(s[0]) then
        assert ([s[0]] + rest)[1..] == rest;
        [s[0]] + rest
      else
        rest
  }

  lemma {:induction false} FilterConcat<T(!new)>(a: seq<T>, b: seq<T>, p: T -> bool)
    ensures Filter(a + b, p) == Filter(a, p) + Filter(b, p)
    decreases |a|
  {
    if |a| == 0 {
      assert a + b == b;
    } else {
      assert (a + b)[1..] == a[1..] + b;
      FilterConcat(a[1..], b, p);
    }
  }

  /** A filter that keeps everything returns its input unchanged. */
  lemma {:induction false} FilterAll<T(!new)>(s: seq<T>, p: T -> bool)
    requires forall i :: 0 <= i < |s| ==> p(s[i])
    ensures Filter(s, p) == s
    decreases |s|
  {
    if |s| > 0 {
      FilterAll(s[1..], p);
    }
  }

  /** A filter that keeps nothing returns `[]`. */
  lemma {:induction false} FilterNone<T(!new)>(s: seq<T>, p: T -> bool)
    requires forall i :: 0 <= i < |s| ==> !p(s[i])
    ensures Filter(s, p) == []
    decreases |s|
  {
    if |s| > 0 {
      FilterNone(s[1..], p);
    }
  }

  /** Filtering by `p` and then by `q` is filtering by their conjunction. */
  lemma {:induction false} FilterTwice<T(!new)>(s: seq<T>, p: T -> bool, q: T -> bool, pq: T -> bool)
    requires forall x :: pq(x) == (p(x) && q(x))
    ensures Filter(Filter(s, p), q) == Filter(s, pq)
    decreases |s|
  {
    if |s| > 0 {
      FilterTwice(s[1..], p, q, pq);
      if p(s[0]) {
        assert Filter(s, p)[1..] == Filter(s[1..], p);
      }
    }
  }

  /** Two predicates that agree everywhere filter alike. */
  lemma {:induction false} FilterSame<T(!new)>(s: seq<T>, p: T -> bool, q: T -> bool)
    requires forall x :: p(x) == q(x)
    ensures Filter(s, p) == Filter(s, q)
    decreases |s|
  {
    if |s| > 0 {
      FilterSame(s[1..], p, q);
    }
  }

  /** `Array.prototype.findIndex`: the first position whose element satisfies `p`. */
  function FindFirst<T(!new)>(s: seq<T>, p: T -> bool): (r: Option<nat>)
    ensures r.Some? ==> r.value < |s| && p(s[r.value]) && forall j :: 0 <= j < r.value ==> !p(s[j])
    ensures r.None? ==> forall j :: 0 <= j < |s| ==> !p(s[j])
  {
    if |s| == 0 then None
    else if p(s[0]) then Some(0)
    else
      match FindFirst(s[1..], p)
      case None => None
      case Some(i) => Some(i + 1)
  }

  /** `Array.prototype.find`: the first element satisfying `p`, if any. */
  function Find<T(!new)>(s: seq<T>, p: T -> bool): (r: Option<T>)
    ensures r.Some? <==> exists i :: 0 <= i < |s| && p(s[i])
    ensures r.Some? ==> exists i :: 0 <= i < |s| && s[i] == r.value && p(s[i]) && forall j :: 0 <= j < i ==> !p(s[j])
  {
    match FindFirst(s, p)
    case None => None
    case Some(i) => Some(s[i])
  }

  /** `s.reduce((sum, e) => sum + f(e), 0)` over integer values. */
  function Sum<T(!new)>(s: seq<T>, f: T -> int): int
  {
    if |s| == 0 then 0 else f(s[0]) + Sum(s[1..], f)
  }

  /** If every value lies in [lo, hi], the sum lies in [lo * n, hi * n]. */
  lemma {:induction false} SumBounds<T(!new)>(s: seq<T>, f: T -> int, lo: int, hi: int)
    requires forall i :: 0 <= i < |s| ==> lo <= f(s[i]) <= hi
    ensures lo * |s| <= Sum(s, f) <= hi * |s|
    decreases |s|
  {
    if |s| > 0 {
      SumBounds(s[1..], f, lo, hi);
    }
  }

  /** The exact mean of the values, the `reduce(...) / length` of the sources
      read without floating-point rounding. */
  function Mean<T(!new)>(s: seq<T>, f: T -> int): real
    requires |s| > 0
  {
    Sum(s, f) as real / |s| as real
  }

  /** The mean of values in [lo, hi] lies in [lo, hi]. */
  lemma MeanBounds<T(!new)>(s: seq<T>, f: T -> int, lo: int, hi: int)
    requires |s| > 0
    requires forall i :: 0 <= i < |s| ==> lo <= f(s[i]) <= hi
    ensures lo as real <= Mean(s, f) <= hi as real
  {
    SumBounds(s, f, lo, hi);
    QuotientBounds(Sum(s, f) as real, |s| as real, lo as real, hi as real);
  }

  lemma QuotientBounds(total: real, n: real, lo: real, hi: real)
    requires n > 0.0
    requires lo * n <= total <= hi * n
    ensures lo <= total / n <= hi
  {
    assert total / n - lo == (total - lo * n) / n;
    assert hi - total / n == (hi * n - total) / n;
  }

  // ---------------------------------------------------------------------
  // Sorting. A comparator `cmp` is read as the relation "a is placed
  // strictly before b", i.e. cmp(a, b) < 0. `Array.prototype.sort` is
  // stable, and the stable order for a strict weak ordering is unique, so
  // the insertion sort below yields exactly what the sources observe.
  // ---------------------------------------------------------------------

  ghost predicate Asymmetric<T(!new)>(before: (T, T) -> bool)
  {
    forall a, b :: before(a, b) ==> !before(b, a)
  }

  /** If a is before c, then any b is after a or before c. */
  ghost predicate NegativelyTransitive<T(!new)>(before: (T, T) -> bool)
  {
    forall a, b, c :: before(a, c) ==> before(a, b) || before(b, c)
  }

  ghost predicate StrictWeakOrder<T(!new)>(before: (T, T) -> bool)
  {
    Asymmetric(before) && NegativelyTransitive(before)
  }

  /** No element is placed strictly before an element that precedes it. */
  ghost predicate SortedBy<T(!new)>(s: seq<T>, before: (T, T) -> bool)
  {
    forall i, j :: 0 <= i < j < |s| ==> !before(s[j], s[i])
  }

  /** Inserts `x` after the elements strictly before it and ahead of the rest. */
  function Insert<T(!new)>(x: T, s: seq<T>, before: (T, T) -> bool): (r: seq<T>)
    ensures |r| == |s| + 1
    ensures multiset(r) == multiset(s) + multiset{x}
  {
    if |s| == 0 || !before(s[0], x) then [x] + s
    else
      assert s == [s[0]] + s[1..];
      [s[0]] + Insert(x, s[1..], before)
  }

  /** Stable sort: `[...s].sort(cmp)`. */
  function Sort<T(!new)>(s: seq<T>, before: (T, T) -> bool): (r: seq<T>)
    ensures |r| == |s|
    ensures multiset(r) == multiset(s)
  {
    if |s| == 0 then []
    else
      assert s == [s[0]] + s[1..];
      Insert(s[0], Sort(s[1..], before), before)
  }

  lemma {:induction false} InsertSorted<T(!new)>(x: T, s: seq<T>, before: (T, T) -> bool)
    requires StrictWeakOrder(before)
    requires SortedBy(s, before)
    ensures SortedBy(Insert(x, s, before), before)
    decreases |s|
  {
    var r := Insert(x, s, before);
    if |s| == 0 || !before(s[0], x) {
      assert r == [x] + s;
      forall i, j | 0 <= i < j < |r|
        ensures !before(r[j], r[i])
      {
        if i == 0 {
          if j > 1 {
            assert !before(s[j - 1], s[0]);
          }
        }
      }
    } else {
      var rest := Insert(x, s[1..], before);
      InsertSorted(x, s[1..], before);
      assert r == [s[0]] + rest;
      forall e | e in rest
        ensures !before(e, s[0])
      {
        assert e in multiset(rest);
        if e != x {
          assert e in multiset(s[1..]);
          var k :| 0 <= k < |s[1..]| && s[1..][k] == e;
          assert s[k + 1] == e;
        }
      }
      forall i, j | 0 <= i < j < |r|
        ensures !before(r[j], r[i])
      {
        if i == 0 {
          assert r[j] == rest[j - 1];
          assert r[j] in rest;
        } else {
          assert r[i] == rest[i - 1] && r[j] == rest[j - 1];
        }
      }
    }
  }

  /** Under a strict weak ordering the sorted sequence has no inversions. */
  lemma {:induction false} SortSorted<T(!new)>(s: seq<T>, before: (T, T) -> bool)
    requires StrictWeakOrder(before)
    ensures SortedBy(Sort(s, before), before)
    decreases |s|
  {
    if |s| > 0 {
      SortSorted(s[1..], before);
      InsertSorted(s[0], Sort(s[1..], before), before);
    }
  }

  /** With a comparator that always returns 0 the stable sort is the identity. */
  lemma {:induction false} SortUnordered<T(!new)>(s: seq<T>, before: (T, T) -> bool)
    requires forall a, b :: !before(a, b)
    ensures Sort(s, before) == s
    decreases |s|
  {
    if |s| > 0 {
      SortUnordered(s[1..], before);
      assert s == [s[0]] + s[1..];
    }
  }

  ghost predicate Tied<T(!new)>(a: T, b: T, before: (T, T) -> bool)
  {
    !before(a, b) && !before(b, a)
  }

  /** The elements of `s` that the comparator cannot tell apart from `y`, in order. */
  ghost function Ties<T(!new)>(s: seq<T>, y: T, before: (T, T) -> bool): seq<T>
  {
    if |s| == 0 then [] else (if Tied(s[0], y, before) then [s[0]] else []) + Ties(s[1..], y, before)
  }

  lemma {:induction false} InsertTies<T(!new)>(x: T, s: seq<T>, y: T, before: (T, T) -> bool)
    requires StrictWeakOrder(before)
    ensures Ties(Insert(x, s, before), y, before)
         == (if Tied(x, y, before) then [x] else []) + Ties(s, y, before)
    decreases |s|
  {
    var hx: seq<T> := if Tied(x, y, before) then [x] else [];
    if |s| == 0 || !before(s[0], x) {
      assert ([x] + s)[1..] == s;
    } else {
      var rest := Insert(x, s[1..], before);
      var h0: seq<T> := if Tied(s[0], y, before) then [s[0]] else [];
      InsertTies(x, s[1..], y, before);
      assert ([s[0]] + rest)[1..] == rest;
      assert Ties(Insert(x, s, before), y, before) == h0 + (hx + Ties(s[1..], y, before));
      assert Ties(s, y, before) == h0 + Ties(s[1..], y, before);
      if h0 != [] && hx != [] {
        assert false;
      }
      assert h0 + hx == hx + h0;
    }
  }

  /** Stability: the elements tied with any `y` keep their relative order. */
  lemma {:induction false} SortStable<T(!new)>(s: seq<T>, y: T, before: (T, T) -> bool)
    requires StrictWeakOrder(before)
    ensures Ties(Sort(s, before), y, before) == Ties(s, y, before)
    decreases |s|
  {
    if |s| > 0 {
      SortStable(s[1..], y, before);
      InsertTies(s[0], Sort(s[1..], before), y, before);
    }
  }

  /** The first element tied with `y` is the earliest such element of `s`. */
  lemma {:induction false} TiesHead<T(!new)>(s: seq<T>, y: T, before: (T, T) -> bool)
    requires |Ties(s, y, before)| > 0
    ensures exists k :: 0 <= k < |s| && s[k] == Ties(s, y, before)[0] && Tied(s[k], y, before)
                        && forall j :: 0 <= j < k ==> !Tied(s[j], y, before)
    decreases |s|
  {
    if !Tied(s[0], y, before) {
      TiesHead(s[1..], y, before);
      var k :| 0 <= k < |s[1..]| && s[1..][k] == Ties(s[1..], y, before)[0] && Tied(s[1..][k], y, before)
               && forall j :: 0 <= j < k ==> !Tied(s[1..][j], y, before);
      assert s[k + 1] == s[1..][k];
      assert forall j :: 1 <= j < k + 1 ==> s[j] == s[1..][j - 1];
    }
  }

  /** Permutations have the same elements. */
  lemma SameMembers<T>(a: seq<T>, b: seq<T>)
    requires multiset(a) == multiset(b)
    ensures forall x :: x in a <==> x in b
  {
    forall x
      ensures x in a <==> x in b
    {
      assert x in a <==> x in multiset(a);
    }
  }

  /** Two positions holding the same element make it occur twice. */
  lemma DuplicateCount<T>(s: seq<T>, i: int, j: int)
    requires 0 <= i < j < |s| && s[i] == s[j]
    ensures multiset(s)[s[i]] >= 2
  {
    assert s == s[..i] + [s[i]] + s[i + 1..j] + [s[j]] + s[j + 1..];
  }

  /** When no two positions share a key, every element occurs once. */
  lemma {:induction false} UniqueKeysCount<T, K>(s: seq<T>, key: T -> K, x: T)
    requires forall a, b :: 0 <= a < b < |s| ==> key(s[a]) != key(s[b])
    requires x in s
    ensures multiset(s)[x] == 1
    decreases |s|
  {
    assert s == [s[0]] + s[1..];
    if s[0] == x {
      assert x !in s[1..] by {
        forall k | 0 <= k < |s[1..]|
          ensures s[1..][k] != x
        {
          assert key(s[0]) != key(s[k + 1]);
        }
      }
    } else {
      UniqueKeysCount(s[1..], key, x);
    }
  }

  /** A permutation of a sequence with distinct keys has distinct keys. */
  lemma PermutationKeepsUniqueKeys<T, K>(s: seq<T>, t: seq<T>, key: T -> K)
    requires multiset(t) == multiset(s)
    requires forall a, b :: 0 <= a < b < |s| ==> key(s[a]) != key(s[b])
    ensures forall a, b :: 0 <= a < b < |t| ==> key(t[a]) != key(t[b])
  {
    forall a, b | 0 <= a < b < |t|
      ensures key(t[a]) != key(t[b])
    {
      var x, y := t[a], t[b];
      assert x in multiset(s) && y in multiset(s);
      UniqueKeysCount(s, key, x);
      if x == y {
        DuplicateCount(t, a, b);
      }
      assert x != y;
      var i :| 0 <= i < |s| && s[i] == x;
      var j :| 0 <= j < |s| && s[j] == y;
      assert i != j;
    }
  }

  /** The comparator `(a, b) => key(b) - key(a)`: larger keys first. */
  function Descending<T(!new)>(key: T -> real): (T, T) -> bool
  {
    (a: T, b: T) => key(a) > key(b)
  }

  /** The comparator `(a, b) => key(a) - key(b)`: smaller keys first. */
  function Ascending<T(!new)>(key: T -> real): (T, T) -> bool
  {
    (a: T, b: T) => key(a) < key(b)
  }

  /** The comparator `() => 0`. */
  function Unordered<T(!new)>(): (T, T) -> bool
  {
    (a: T, b: T) => false
  }

  lemma DescendingIsStrictWeakOrder<T(!new)>(key: T -> real)
    ensures StrictWeakOrder(Descending(key))
  {
  }

  lemma AscendingIsStrictWeakOrder<T(!new)>(key: T -> real)
    ensures StrictWeakOrder(Ascending(key))
  {
  }

  /** Sorting by a descending key gives non-increasing keys, as a permutation. */
  lemma SortDescending<T(!new)>(s: seq<T>, key: T -> real)
    ensures multiset(Sort(s, Descending(key))) == multiset(s)
    ensures forall i, j :: 0 <= i < j < |s| ==> key(Sort(s, Descending(key))[i]) >= key(Sort(s, Descending(key))[j])
  {
    DescendingIsStrictWeakOrder(key);
    SortSorted(s, Descending(key));
  }

  /** The first element after sorting by a descending key has the largest
      key. */
  lemma SortDescendingMax<T(!new)>(s: seq<T>, key: T -> real)
    requires |s| > 0
    ensures forall x :: x in s ==> key(x) <= key(Sort(s, Descending(key))[0])
  {
    var sorted := Sort(s, Descending(key));
    SortDescending(s, key);
    forall x | x in s
      ensures key(x) <= key(sorted[0])
    {
      assert x in multiset(sorted);
      var m :| 0 <= m < |sorted| && sorted[m] == x;
      if m > 0 {
        assert key(sorted[0]) >= key(sorted[m]);
      }
    }
  }

  /** The head of a sequence opens its own run of ties. */
  lemma TiesOfHead<T(!new)>(s: seq<T>, before: (T, T) -> bool)
    requires |s| > 0 && !before(s[0], s[0])
    ensures |Ties(s, s[0], before)| > 0 && Ties(s, s[0], before)[0] == s[0]
  {
    assert Tied(s[0], s[0], before);
  }

  /** The first element after sorting by a descending key is the earliest
      element of `s` with the largest key (the sort is stable). */
  lemma SortDescendingHead<T(!new)>(s: seq<T>, key: T -> real)
    requires |s| > 0
    ensures exists k :: 0 <= k < |s| && s[k] == Sort(s, Descending(key))[0]
                        && forall j :: 0 <= j < k ==> key(s[j]) < key(s[k])
  {
    DescendingIsStrictWeakOrder(key);
    var before := Descending(key);
    var sorted := Sort(s, before);
    var top := sorted[0];
    var k := EarliestTie(s, top, before);
    SortDescendingMax(s, key);
    forall j | 0 <= j < k
      ensures key(s[j]) < key(s[k])
    {
      assert before(s[j], top) || before(top, s[j]);
      assert key(s[j]) <= key(top) by {
        assert s[j] in s;
      }
    }
  }

  /** Where, in the unsorted input, the head of the stable sort comes from:
      the first element tied with it. */
  lemma EarliestTie<T(!new)>(s: seq<T>, top: T, before: (T, T) -> bool) returns (k: nat)
    requires StrictWeakOrder(before)
    requires |s| > 0 && top == Sort(s, before)[0]
    ensures k < |s| && s[k] == top
    ensures forall j :: 0 <= j < k ==> !Tied(s[j], top, before)
  {
    TiesOfHead(Sort(s, before), before);
    SortStable(s, top, before);
    TiesHead(s, top, before);
    k :| 0 <= k < |s| && s[k] == Ties(s, top, before)[0] && Tied(s[k], top, before)
         && forall j :: 0 <= j < k ==> !Tied(s[j], top, before);
  }

  /** In a sequence with non-increasing keys the first `k` elements form a
      top-`k` selection: none of the remaining elements has a larger key. */
  lemma PrefixDominates<T(!new)>(s: seq<T>, k: nat, key: T -> real)
    requires k <= |s|
    requires forall i, j :: 0 <= i < j < |s| ==> key(s[i]) >= key(s[j])
    ensures multiset(s[..k]) <= multiset(s)
    ensures forall x, y :: x in s[..k] && y in multiset(s) - multiset(s[..k]) ==> key(x) >= key(y)
  {
    assert s == s[..k] + s[k..];
    assert multiset(s) == multiset(s[..k]) + multiset(s[k..]);
    forall x, y | x in s[..k] && y in multiset(s) - multiset(s[..k])
      ensures key(x) >= key(y)
    {
      assert y in multiset(s[k..]);
      var i :| 0 <= i < k && s[..k][i] == x;
      var m :| 0 <= m < |s[k..]| && s[k..][m] == y;
      assert s[i] == x && s[k + m] == y;
    }
  }

  /** Sorting by an ascending key gives non-decreasing keys, as a permutation. */
  lemma SortAscending<T(!new)>(s: seq<T>, key: T -> real)
    ensures multiset(Sort(s, Ascending(key))) == multiset(s)
    ensures forall i, j :: 0 <= i < j < |s| ==> key(Sort(s, Ascending(key))[i]) <= key(Sort(s, Ascending(key))[j])
  {
    AscendingIsStrictWeakOrder(key);
    SortSorted(s, Ascending(key));
  }
}
