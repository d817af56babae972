/**
  Index ranges of LRANGE, LTRIM and ZRANGE, which share their arithmetic.
 */
module Ranges {
  import opened Bytes

  function RangeStart(len: nat, start: int): (s: nat) {
    if start < 0 then (if len + start > 0 then len + start else 0) else Least(start, len)
  }

  function RangeStop(len: nat, stop: int): (e: int) {
    if stop < 0 then (if len + stop > 0 then len + stop else 0) else (if stop < len - 1 then stop else len - 1)
  }

  /** What LRANGE and ZRANGE report of a list. */
  function Range<T>(xs: seq<T>, start: int, stop: int): (r: seq<T>) {
    var s, e := RangeStart(|xs|, start), RangeStop(|xs|, stop);
    if s > e || s >= |xs| then [] else xs[s..e + 1]
  }

  /** Where a bound points, negative bounds counting from the end. */
  function Pointed(len: nat, bound: int): (p: int) {
    if bound < 0 then len + bound else bound
  }

  /** Index `i` of the list lies between the bounds. */
  predicate Between(len: nat, start: int, stop: int, i: nat) {
    Pointed(len, start) <= i <= Pointed(len, stop)
  }

  /** The indexes between the bounds are those from `first` up to `last`. */
  ghost predicate Selects(len: nat, start: int, stop: int, first: nat, last: nat) {
    first <= last <= len && forall i: nat | i < len :: first <= i < last <==> Between(len, start, stop, i)
  }

  /** `r` is the stretch of `xs` whose indexes lie between the bounds. */
  ghost predicate IsStretch<T(!new)>(xs: seq<T>, start: int, stop: int, r: seq<T>) {
    exists first: nat, last: nat | Selects(|xs|, start, stop, first, last) :: r == xs[first..last]
  }

  /** A range reports the elements between its bounds, in order, unless the stop points
      before the first element while the start does not point past it: then the first
      element is reported where nothing should be. */
  lemma RangeExactly<T(!new)>(xs: seq<T>, start: int, stop: int)
    ensures var reports := Range(xs, start, stop);
            var wrong := xs != [] && Pointed(|xs|, stop) < 0 && Pointed(|xs|, start) <= 0;
            && (IsStretch(xs, start, stop, reports) <==> !wrong)
            && (wrong ==> reports == xs[..1])
  {
    var s, e := RangeStart(|xs|, start), RangeStop(|xs|, stop);
    var reports := Range(xs, start, stop);
    if xs != [] && Pointed(|xs|, stop) < 0 && Pointed(|xs|, start) <= 0 {
      forall first: nat, last: nat | Selects(|xs|, start, stop, first, last) ensures first == last {
        assert !Between(|xs|, start, stop, first);
      }
    } else if s > e || s >= |xs| {
      assert Selects(|xs|, start, stop, 0, 0) && reports == xs[0..0];
    } else {
      assert Selects(|xs|, start, stop, s, e + 1);
    }
  }
}
