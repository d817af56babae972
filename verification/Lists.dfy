/**
  List commands that work in place: LREM from either end, and LTRIM with LRANGE.
 */
module Lists {
  import opened Bytes
  import opened Ranges

  function Occurrences(xs: seq<bytes>, v: bytes): (n: nat)
    ensures n <= |xs|
  {
    if xs == [] then 0 else (if xs[0] == v then 1 else 0) + Occurrences(xs[1..], v)
  }

  /** `xs` with every `v` taken out. */
  function Without(xs: seq<bytes>, v: bytes): (r: seq<bytes>) {
    if xs == [] then [] else (if xs[0] == v then [] else [xs[0]]) + Without(xs[1..], v)
  }

  /** Counting and taking out, item by item and in order. */
  lemma {:induction false} ItemsExactly(xs: seq<bytes>, x: bytes, v: bytes)
    ensures Occurrences(xs, v) == multiset(xs)[v]
    ensures Without([x] + xs, v) == (if x == v then [] else [x]) + Without(xs, v)
    ensures Without([], v) == []
  {
    assert ([x] + xs)[1..] == xs;
    if xs != [] {
      ItemsExactly(xs[1..], x, v);
      assert xs == [xs[0]] + xs[1..];
      assert multiset(xs) == multiset{xs[0]} + multiset(xs[1..]);
    }
  }

  // ----- what LREM means -----

  /** `r` is `xs` without its first `n` occurrences of `v`: all of them go from a
      prefix that holds just that many, and the rest of the list is untouched. */
  ghost predicate DropsFirst(xs: seq<bytes>, v: bytes, n: nat, r: seq<bytes>) {
    exists k | 0 <= k <= |xs| ::
      Occurrences(xs[..k], v) == Least(n, Occurrences(xs, v)) && r == Without(xs[..k], v) + xs[k..]
  }

  /** The mirror image: all occurrences go from a suffix. */
  ghost predicate DropsLast(xs: seq<bytes>, v: bytes, n: nat, r: seq<bytes>) {
    exists k | 0 <= k <= |xs| ::
      Occurrences(xs[k..], v) == Least(n, Occurrences(xs, v)) && r == xs[..k] + Without(xs[k..], v)
  }

  lemma {:induction false} SumsSplit(a: seq<bytes>, b: seq<bytes>, v: bytes)
    ensures Occurrences(a + b, v) == Occurrences(a, v) + Occurrences(b, v)
    ensures Without(a + b, v) == Without(a, v) + Without(b, v)
  {
    if a == [] {
      assert a + b == b;
    } else {
      assert (a + b)[1..] == a[1..] + b;
      SumsSplit(a[1..], b, v);
    }
  }

  /** `iter().position(..)`: the first occurrence. */
  function Position(xs: seq<bytes>, v: bytes): (p: Option<nat>)
    ensures p.Some? ==> p.value < |xs| && xs[p.value] == v && Occurrences(xs[..p.value], v) == 0
    ensures p == None <==> Occurrences(xs, v) == 0
  {
    if xs == [] then None
    else if xs[0] == v then Some(0)
    else
      match Position(xs[1..], v)
      case None => None
      case Some(p) =>
        assert xs[..p + 1][1..] == xs[1..][..p];
        Some(p + 1)
  }

  /** `xs` with its first `k` elements cleared of `v`. */
  function Cleared(xs: seq<bytes>, v: bytes, k: nat): (r: seq<bytes>)
    requires k <= |xs|
  {
    Without(xs[..k], v) + xs[k..]
  }

  lemma {:induction false} WithoutNone(xs: seq<bytes>, v: bytes)
    ensures Occurrences(Without(xs, v), v) == 0
    ensures Occurrences(xs, v) == 0 ==> Without(xs, v) == xs
  {
    if xs != [] {
      var tail := Without(xs[1..], v);
      WithoutNone(xs[1..], v);
      assert ([xs[0]] + tail)[1..] == tail && [] + tail == tail;
    }
  }

  /** Removing the first occurrence left in a list cleared up to `k` clears it further. */
  lemma ClearNext(xs: seq<bytes>, v: bytes, k: nat, p: nat) returns (k': nat)
    requires k <= |xs| && Position(Cleared(xs, v, k), v) == Some(p)
    ensures k < k' <= |xs| && Occurrences(xs[..k'], v) == Occurrences(xs[..k], v) + 1
    ensures Cleared(xs, v, k)[..p] + Cleared(xs, v, k)[p + 1..] == Cleared(xs, v, k')
  {
    hide Occurrences, Without, Position;
    var head := Without(xs[..k], v);
    WithoutNone(xs[..k], v);
    PastClean(head, xs[k..], v, p);
    var q := p - |head|;
    k' := k + q + 1;
    StretchCleared(xs[k..], v, q);
    assert xs[k..][..q + 1] == xs[k..k'];
    assert xs[..k'] == xs[..k] + xs[k..k'];
    SumsSplit(xs[..k], xs[k..k'], v);
    var r := Cleared(xs, v, k);
    assert r[..p] == head + xs[k..][..q];
    assert r[p + 1..] == xs[k'..];
    assert r[..p] + r[p + 1..] == head + xs[k..][..q] + xs[k'..];
  }

  /** The first occurrence in a list whose head holds none lies past the head. */
  lemma PastClean(head: seq<bytes>, tail: seq<bytes>, v: bytes, p: nat)
    requires Occurrences(head, v) == 0 && Position(head + tail, v) == Some(p)
    ensures |head| <= p && Position(tail, v) == Some(p - |head|)
    decreases |head|
  {
    if head == [] {
      assert head + tail == tail;
    } else {
      assert (head + tail)[1..] == head[1..] + tail;
      PastClean(head[1..], tail, v, p - 1);
    }
  }

  /** Up to and including its first occurrence, a list holds one, and is otherwise clean. */
  lemma StretchCleared(xs: seq<bytes>, v: bytes, q: nat)
    requires Position(xs, v) == Some(q)
    ensures Occurrences(xs[..q + 1], v) == 1 && Without(xs[..q + 1], v) == xs[..q]
  {
    assert xs[..q + 1] == xs[..q] + [v];
    SumsSplit(xs[..q], [v], v);
    WithoutNone(xs[..q], v);
    assert Without([v], v) == [] && Occurrences([v], v) == 1;
    assert xs[..q] + [] == xs[..q];
  }

  class ListKey {
    var items: seq<bytes>

    constructor (items: seq<bytes>)
      ensures this.items == items
    {
      this.items := items;
    }

    /** LREM with a count of zero or more; zero stands for every occurrence. */
    method RemoveFromFront(count: nat, v: bytes) returns (removed: nat)
      modifies this
      ensures DropsFirst(old(items), v, if count == 0 then |old(items)| else count, items)
      ensures removed == Least(if count == 0 then |old(items)| else count, Occurrences(old(items), v))
    {
      var times := if count == 0 then |items| else count;
      ghost var xs, k := items, 0;
      assert xs[..0] == [] && xs[0..] == xs;
      removed := 0;
      for i := 0 to times
        invariant k <= |xs| && items == Cleared(xs, v, k)
        invariant removed == Occurrences(xs[..k], v) && removed <= i
        invariant removed < i ==> Occurrences(items, v) == 0
      {
        match Position(items, v)
        case Some(p) =>
          k := ClearNext(xs, v, k, p);
          items := items[..p] + items[p + 1..];
          removed := removed + 1;
        case None =>
      }
      ClearedCount(xs, v, k);
    }

    /** LREM with a negative count, given by its magnitude. */
    method RemoveFromBack(limit: nat, v: bytes) returns (removed: nat)
      requires limit > 0
      modifies this
      ensures DropsLast(old(items), v, limit, items)
      ensures removed == Least(limit, Occurrences(old(items), v))
    {
      ghost var xs := items;
      var len := |items|;
      removed := 0;
      NothingBack(xs, v);
      hide Occurrences, Without, DropsLast;
      for i := 0 to len
        invariant items == xs[..len - i] + Without(xs[len - i..], v)
        invariant removed == Occurrences(xs[len - i..], v) && removed < limit
      {
        var idx := len - 1 - i;
        BackTurn(xs, v, idx);
        if items[idx] == v {
          items := items[..idx] + items[idx + 1..];
          removed := removed + 1;
          if removed >= limit {
            DropsFrom(xs, v, limit, idx);
            return;
          }
        }
      }
      assert xs[0..] == xs && len - len == 0;
      DropsFrom(xs, v, limit, 0);
    }

    /** LTRIM keeps what LRANGE with the same bounds reports. */
    method Trim(start: int, stop: int)
      modifies this
      ensures items == Range(old(items), start, stop)
    {
      var len := |items|;
      var s := RangeStart(len, start);
      var e := RangeStop(len, stop);
      if s > e || s >= len {
        items := [];
      } else {
        items := items[s..];
        items := items[..e - s + 1];
      }
    }
  }

  lemma DropsFrom(xs: seq<bytes>, v: bytes, n: nat, k: nat)
    requires k <= |xs| && Occurrences(xs[k..], v) == Least(n, Occurrences(xs, v))
    ensures DropsLast(xs, v, n, xs[..k] + Without(xs[k..], v))
  {
  }

  lemma NothingBack(xs: seq<bytes>, v: bytes)
    ensures xs == xs[..|xs|] + Without(xs[|xs|..], v) && Occurrences(xs[|xs|..], v) == 0
  {
  }

  /** One turn of the loop from the back. */
  lemma BackTurn(xs: seq<bytes>, v: bytes, idx: nat)
    requires idx < |xs|
    ensures var items := xs[..idx + 1] + Without(xs[idx + 1..], v);
            && items[idx] == xs[idx]
            && xs[..idx] + Without(xs[idx..], v) == (if xs[idx] == v then items[..idx] + items[idx + 1..] else items)
    ensures Occurrences(xs[idx..], v) == Occurrences(xs[idx + 1..], v) + (if xs[idx] == v then 1 else 0)
    ensures Occurrences(xs[idx..], v) <= Occurrences(xs, v)
  {
    hide Occurrences, Without;
    BackStep(xs, v, idx);
    Cut(xs, idx, Without(xs[idx + 1..], v));
  }

  lemma Cut(xs: seq<bytes>, idx: nat, kept: seq<bytes>)
    requires idx < |xs|
    ensures var items := xs[..idx + 1] + kept;
            && items[idx] == xs[idx]
            && items[..idx] + items[idx + 1..] == xs[..idx] + ([] + kept)
            && items == xs[..idx] + ([xs[idx]] + kept)
  {
  }

  /** What one more position from the back adds. */
  lemma BackStep(xs: seq<bytes>, v: bytes, idx: nat)
    requires idx < |xs|
    ensures xs[..idx + 1] == xs[..idx] + [xs[idx]]
    ensures Occurrences(xs[idx..], v) == Occurrences(xs[idx + 1..], v) + (if xs[idx] == v then 1 else 0)
    ensures Without(xs[idx..], v) == (if xs[idx] == v then [] else [xs[idx]]) + Without(xs[idx + 1..], v)
    ensures Occurrences(xs[idx..], v) <= Occurrences(xs, v)
  {
    assert xs[idx..][1..] == xs[idx + 1..];
    SumsSplit(xs[..idx], xs[idx..], v);
    assert xs[..idx] + xs[idx..] == xs;
  }

  lemma ClearedCount(xs: seq<bytes>, v: bytes, k: nat)
    requires k <= |xs|
    ensures Occurrences(xs, v) == Occurrences(xs[..k], v) + Occurrences(Cleared(xs, v, k), v)
  {
    SumsSplit(xs[..k], xs[k..], v);
    assert xs[..k] + xs[k..] == xs;
    SumsSplit(Without(xs[..k], v), xs[k..], v);
    WithoutNone(xs[..k], v);
  }
}
