/**
  The recursive list minimum of `class Midterm` (Midterm/Midterm/Source.cpp).

  The list is an immutable sequence `s`. An iterator is an index `i` with
  `0 <= i <= |s|`: `begin()` is `0`, `++position` is `i + 1`, and `*position`
  is `s[i]`. The end sentinel `_tail` is taken to be the PAST-THE-END position
  `|s|`, so the test `position == _tail` (line 16) stops only after the last
  element has been examined. Were `_tail` the last node instead, the last
  element would never be compared; nothing in the file defines `_tail`, so
  this is an assumption of the model.

  The element type `Data_t` is a type parameter `T`. Its `operator<` is
  modelled as the strict weak order induced by an integer key:
  `x < y` iff `key(x) < key(y)`. Two distinct elements with equal keys are
  "equivalent" but not interchangeable, which makes visible which of them the
  strict comparison on line 18 keeps.
 */
module Midterm {
  import opened Results

  /** The message of the `length_error` thrown for an empty list. */
  const EmptyListMessage: string := "The List is Empty"

  /** `key(m)` is no greater than the key of any element of `s[lo..]`. */
  ghost predicate LowerBound<T>(m: T, s: seq<T>, key: T -> int, lo: nat)
  {
    forall j :: lo <= j < |s| ==> key(m) <= key(s[j])
  }

  /**
    `k` is the FIRST position at or after `lo` holding an element of least
    key among `s[lo..]`: no earlier position in that range ties with it.
   */
  ghost predicate FirstLeast<T>(s: seq<T>, key: T -> int, lo: nat, k: nat)
  {
    && lo <= k < |s|
    && LowerBound(s[k], s, key, lo)
    && forall j :: lo <= j < k ==> key(s[k]) < key(s[j])
  }

  /**
    The private helper `minimum(Data_t min, Iterator position)`: walk from
    position `i` to the sentinel `|s|`, replacing the accumulator `acc` by the
    current element only when that element is strictly smaller.
   */
  function MinFrom<T>(acc: T, s: seq<T>, key: T -> int, i: nat): (r: T)
    requires i <= |s|
    decreases |s| - i
    // at the sentinel the accumulator comes back unchanged
    ensures i == |s| ==> r == acc
    // the accumulator never grows
    ensures key(r) <= key(acc)
    // the result is a lower bound of every element still to be visited
    ensures LowerBound(r, s, key, i)
    // the result is the accumulator or one of the visited elements
    ensures r == acc || r in s[i..]
  {
    if i == |s| then acc
    else
      var acc' := if key(s[i]) < key(acc) then s[i] else acc;
      MinFrom(acc', s, key, i + 1)
  }

  /**
    The public `minimum()`: an empty list is a `length_error`; otherwise the
    helper starts at `begin()` with the first element as accumulator (so the
    first element is compared with itself, which changes nothing).
   */
  function Minimum<T>(s: seq<T>, key: T -> int): (r: Result<T>)
    ensures r.Failure? <==> |s| == 0
    ensures r.Failure? ==> r.error == LengthError(EmptyListMessage)
    ensures r.Success? ==> r.value in s && LowerBound(r.value, s, key, 0)
  {
    if |s| == 0 then Failure(LengthError(EmptyListMessage))
    else Success(MinFrom(s[0], s, key, 0))
  }

  /**
    Ties never replace the accumulator: when no remaining element is strictly
    smaller than `acc`, the helper returns `acc` itself, even if some
    remaining element has an equal key.
   */
  lemma {:induction false} MinFromKeepsLeastAccumulator<T>(acc: T, s: seq<T>, key: T -> int, i: nat)
    requires i <= |s|
    requires LowerBound(acc, s, key, i)
    ensures MinFrom(acc, s, key, i) == acc
    decreases |s| - i
  {
    if i < |s| {
      assert !(key(s[i]) < key(acc));
      MinFromKeepsLeastAccumulator(acc, s, key, i + 1);
    }
  }

  /**
    When some remaining element is strictly smaller than the accumulator, the
    helper returns the first remaining element of least key.
   */
  lemma {:induction false} MinFromReturnsFirstLeast<T>(acc: T, s: seq<T>, key: T -> int, i: nat, k: nat)
    requires FirstLeast(s, key, i, k)
    requires key(s[k]) < key(acc)
    ensures MinFrom(acc, s, key, i) == s[k]
    decreases |s| - i
  {
    if i == k {
      MinFromKeepsLeastAccumulator(s[k], s, key, i + 1);
    } else {
      var acc' := if key(s[i]) < key(acc) then s[i] else acc;
      assert key(s[k]) < key(acc');
      MinFromReturnsFirstLeast(acc', s, key, i + 1, k);
    }
  }

  /** Every non-empty suffix has a first element of least key. */
  lemma {:induction false} FirstLeastExists<T>(s: seq<T>, key: T -> int, lo: nat)
    requires lo < |s|
    ensures exists k: nat :: FirstLeast(s, key, lo, k)
    decreases |s| - lo
  {
    if lo == |s| - 1 {
      assert FirstLeast(s, key, lo, lo);
    } else {
      FirstLeastExists(s, key, lo + 1);
      var k': nat :| FirstLeast(s, key, lo + 1, k');
      if key(s[lo]) <= key(s[k']) {
        assert FirstLeast(s, key, lo, lo);
      } else {
        assert FirstLeast(s, key, lo, k');
      }
    }
  }

  /**
    Full characterisation of the public `minimum()`: it succeeds with `m`
    exactly when the list is non-empty and `m` is the element at the first
    position of least key.
   */
  lemma MinimumIsFirstLeast<T>(s: seq<T>, key: T -> int, m: T)
    ensures Minimum(s, key) == Success(m) <==> exists k: nat :: FirstLeast(s, key, 0, k) && m == s[k]
  {
    if |s| > 0 {
      FirstLeastExists(s, key, 0);
      var k: nat :| FirstLeast(s, key, 0, k);
      if k == 0 {
        MinFromKeepsLeastAccumulator(s[0], s, key, 0);
      } else {
        MinFromReturnsFirstLeast(s[0], s, key, 0, k);
      }
      assert Minimum(s, key) == Success(s[k]);
      // at most one position is the first of least key
      assert forall k': nat :: FirstLeast(s, key, 0, k') ==> k' == k;
    }
  }

  /** An independent reference minimum for integer lists, by head recursion. */
  function Least(s: seq<int>): (r: int)
    requires |s| > 0
  {
    if |s| == 1 then s[0]
    else
      var rest := Least(s[1..]);
      if s[0] <= rest then s[0] else rest
  }

  /**
    For a list of integers compared by their own value, `minimum()` agrees
    with the reference minimum `Least`.
   */
  lemma {:induction false} MinimumOfIntegers(s: seq<int>)
    requires |s| > 0
    ensures Minimum(s, x => x) == Success(Least(s))
  {
    LeastIsLeast(s);
    var m := Minimum(s, x => x).value;
    assert m <= Least(s) && Least(s) <= m;
  }

  /** `Least(s)` is an element of `s` no greater than any other. */
  lemma {:induction false} LeastIsLeast(s: seq<int>)
    requires |s| > 0
    ensures Least(s) in s
    ensures forall j :: 0 <= j < |s| ==> Least(s) <= s[j]
  {
    if |s| > 1 {
      LeastIsLeast(s[1..]);
      forall j | 1 <= j < |s|
        ensures Least(s[1..]) <= s[j]
      {
        assert s[j] == s[1..][j - 1];
      }
    }
  }
}
