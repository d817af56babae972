/**
  SRANDMEMBER: members picked by probing the set's iteration order at stride 31 from a
  clock-dependent start.
 */
module RandomMember {
  import opened Bytes
  import opened Listings
  import Backlog

  const STRIDE: nat := 31

  /** The index probed when `j` members have been picked. */
  function Probe(start: nat, size: nat, j: nat): (index: nat)
    requires size > 0
    ensures index < size
  {
    (start + j * STRIDE) % size
  }

  // ----- when probes collide -----

  ghost predicate Divides(a: int, b: int) {
    exists m :: b == a * m
  }

  lemma ProbesMeet(start: nat, size: nat, i: nat, j: nat)
    requires size > 0 && i < j
    ensures Probe(start, size, i) == Probe(start, size, j) <==> Divides(size, STRIDE * (j - i))
  {
    SameResidue(start + i * STRIDE, start + j * STRIDE, size);
  }

  lemma SameResidue(a: nat, b: nat, c: nat)
    requires c > 0
    ensures a % c == b % c <==> Divides(c, b - a)
  {
    var p, q, r := a / c, b / c, b % c;
    assert b == c * q + r;
    if a % c == r {
      assert a == c * p + r;
      Difference(c, q, p);
      assert b - a == c * (q - p);
    } else if Divides(c, b - a) {
      var m :| b - a == c * m;
      Difference(c, q, m);
      var k := q - m;
      assert a == c * k + r;
      NegativeMultiple(c, k);
      Backlog.QuotientUnique(a, k, r, c);
    }
  }

  lemma NegativeMultiple(c: nat, k: int)
    ensures k < 0 ==> c * k + c <= 0
  {
  }

  lemma Difference(c: int, p: int, q: int)
    ensures c * p - c * q == c * (p - q)
  {
  }

  /** A multiplicative inverse modulo 31. */
  function Inverse(r: nat): (s: nat)
    requires 0 < r < 31
    ensures (r * s) % 31 == 1
  {
    [0, 1, 16, 21, 8, 25, 26, 9, 4, 7, 28, 17, 13, 12, 20, 29,
     2, 11, 19, 18, 14, 3, 24, 27, 22, 5, 6, 23, 10, 15, 30][r]
  }

  /** 31 is prime: a size it does not divide can divide 31 * d only by dividing d. */
  lemma Euclid(size: nat, d: nat)
    requires size > 0 && size % 31 != 0 && Divides(size, 31 * d)
    ensures Divides(size, d)
  {
    var m :| 31 * d == size * m;
    var q, r := size / 31, size % 31;
    var s := Inverse(r);
    var k := (r * s) / 31;
    assert r * s == 31 * k + 1;
    assert size == 31 * q + r;
    var t := q * s + k;
    assert size * s == 31 * t + 1 by {
      Expand(q, r, s);
    }
    Combine(size, s, t, d, m);
    assert d == size * (s * d - t * m);
  }

  lemma Expand(q: int, r: int, s: int)
    ensures (31 * q + r) * s == 31 * (q * s) + r * s
  {
  }

  lemma Combine(size: int, s: int, t: int, d: int, m: int)
    requires size * s == 31 * t + 1 && 31 * d == size * m
    ensures d == size * (s * d - t * m)
  {
    assert (size * s) * d == (31 * t + 1) * d;
    assert (31 * t + 1) * d == t * (31 * d) + d;
    assert t * (31 * d) == t * (size * m);
    assert size * (s * d - t * m) == (size * s) * d - t * (size * m);
  }

  lemma NoSmallMultiple(size: nat, d: nat)
    requires 0 < d < size
    ensures !Divides(size, d)
  {
    forall m ensures d != size * m {
      Backlog.MultipleTooBig(size, m, size * m);
    }
  }

  /** The first `n` probes, no more than the set has members, are all different if and
      only if 31 does not divide the size, or divides it and `n` is at most size / 31. */
  lemma ProbesDistinctExactly(start: nat, size: nat, n: nat)
    requires 0 < size && n <= size
    ensures (forall i, j | 0 <= i < j < n :: Probe(start, size, i) != Probe(start, size, j))
            <==> (size % 31 != 0 || n <= size / 31)
  {
    var q := size / 31;
    if size % 31 != 0 || n <= q {
      forall i, j | 0 <= i < j < n ensures Probe(start, size, i) != Probe(start, size, j) {
        ProbesMeet(start, size, i, j);
        if size % 31 != 0 {
          if Divides(size, 31 * (j - i)) { Euclid(size, j - i); }
          NoSmallMultiple(size, j - i);
        } else {
          NoSmallMultiple(size, 31 * (j - i));
        }
      }
    } else {
      ProbesMeet(start, size, 0, q);
      assert 31 * q == size * 1;
    }
  }

  // ----- the loop -----

  /** One turn of the probing loop, which has been left once `n` indexes are picked: the
      number of picks decides the index, and a used index changes nothing. */
  function Iterate(start: nat, size: nat, n: nat, picked: seq<nat>): (picked': seq<nat>)
    requires size > 0
  {
    var index := Probe(start, size, |picked|);
    if |picked| >= n || index in picked then picked else picked + [index]
  }

  function IterateTimes(start: nat, size: nat, n: nat, picked: seq<nat>, times: nat): (picked': seq<nat>)
    requires size > 0
    decreases times
  {
    if times == 0 then picked else IterateTimes(start, size, n, Iterate(start, size, n, picked), times - 1)
  }

  /** Once a probe hits a used index, the loop makes no progress ever again. */
  lemma {:induction false} StuckForever(start: nat, size: nat, n: nat, picked: seq<nat>, times: nat)
    requires size > 0 && Probe(start, size, |picked|) in picked
    ensures IterateTimes(start, size, n, picked, times) == picked
  {
    if times > 0 {
      StuckForever(start, size, n, picked, times - 1);
    }
  }

  /** The picks are the first probes, and none was picked twice. */
  ghost predicate Picks(start: nat, size: nat, n: nat, picked: seq<nat>)
    requires size > 0
  {
    && |picked| <= n
    && (forall j | 0 <= j < |picked| :: picked[j] == Probe(start, size, j))
    && Distinct(picked)
  }

  lemma {:induction false} IteratesPick(start: nat, size: nat, n: nat, picked: seq<nat>, times: nat)
    requires size > 0 && Picks(start, size, n, picked)
    ensures Picks(start, size, n, IterateTimes(start, size, n, picked, times))
    decreases times
  {
    if times > 0 {
      IteratesPick(start, size, n, Iterate(start, size, n, picked), times - 1);
    }
  }

  /** While the first `n` probes differ, every turn picks one more. */
  lemma {:induction false} EachTurnPicks(start: nat, size: nat, n: nat, picked: seq<nat>, times: nat)
    requires size > 0 && Picks(start, size, n, picked)
    requires forall i, j | 0 <= i < j < n :: Probe(start, size, i) != Probe(start, size, j)
    ensures |IterateTimes(start, size, n, picked, times)| == Least(n, |picked| + times)
    decreases times
  {
    if times > 0 {
      EachTurnPicks(start, size, n, Iterate(start, size, n, picked), times - 1);
    }
  }

  /** The loop ends, after some number of turns, if and only if 31 does not divide the
      size or no more than size / 31 members are asked for; then `n` turns are enough. */
  lemma TerminatesExactly(start: nat, size: nat, n: nat)
    requires 0 < size && n <= size
    ensures (exists times: nat :: |IterateTimes(start, size, n, [], times)| >= n)
            <==> (size % 31 != 0 || n <= size / 31)
    ensures forall times: nat | times >= n ::
              |IterateTimes(start, size, n, [], times)| >= n <==> (size % 31 != 0 || n <= size / 31)
  {
    ProbesDistinctExactly(start, size, n);
    if size % 31 != 0 || n <= size / 31 {
      forall times: nat ensures |IterateTimes(start, size, n, [], times)| == Least(n, times) {
        EachTurnPicks(start, size, n, [], times);
      }
      assert |IterateTimes(start, size, n, [], n)| >= n;
    } else {
      forall times: nat ensures |IterateTimes(start, size, n, [], times)| < n {
        IteratesPick(start, size, n, [], times);
        var picked := IterateTimes(start, size, n, [], times);
        var i, j :| 0 <= i < j < n && Probe(start, size, i) == Probe(start, size, j);
      }
    }
  }

  /** SRANDMEMBER with a count of zero, two or more, on a non-empty set iterated as
      `members`, watched for a number of turns: the picks are different members, and the
      loop has ended when there are as many as asked for, or as the set has. It ends in
      that many turns, and in any greater number, exactly if it ever ends. */
  method PickDistinct(members: seq<bytes>, count: nat, start: nat, turns: nat)
    returns (result: seq<bytes>, ended: bool)
    requires members != [] && Distinct(members)
    ensures Distinct(result) && forall m | m in result :: m in members
    ensures |result| == |IterateTimes(start, |members|, Least(count, |members|), [], turns)|
    ensures |result| <= Least(count, |members|)
    ensures ended <==> |result| == Least(count, |members|)
    ensures turns >= Least(count, |members|) ==>
              (ended <==> |members| % 31 != 0 || Least(count, |members|) <= |members| / 31)
  {
    hide Iterate, IterateTimes, Distinct;
    var size, n := |members|, Least(count, |members|);
    TerminatesExactly(start, size, n);
    result := [];
    var used: set<nat> := {};
    ghost var picked: seq<nat> := [];
    PickNone(start, size, n);
    hide Picks;
    var left := turns;
    while |result| < n && left > 0
      invariant Picks(start, size, n, picked) && |result| == |picked|
      invariant forall i :: i in used <==> i in picked
      invariant |result| <= n
      invariant forall j | 0 <= j < |result| :: picked[j] < size && result[j] == members[picked[j]]
      invariant IterateTimes(start, size, n, picked, left) == IterateTimes(start, size, n, [], turns)
      decreases left
    {
      var index := Probe(start, size, |result|);
      OneTurn(start, size, n, picked, left);
      if index !in used {
        used := used + {index};
        result := result + [members[index]];
        picked := picked + [index];
      }
      left := left - 1;
    }
    DoneStays(start, size, n, picked, left);
    NamedDistinct(start, members, n, picked, result);
    ended := |result| >= n;
  }

  lemma PickNone(start: nat, size: nat, n: nat)
    requires size > 0
    ensures Picks(start, size, n, [])
  {
  }

  lemma OneTurn(start: nat, size: nat, n: nat, picked: seq<nat>, left: nat)
    requires size > 0 && left > 0 && |picked| < n && Picks(start, size, n, picked)
    ensures var index := Probe(start, size, |picked|);
            var picked' := if index in picked then picked else picked + [index];
            && Picks(start, size, n, picked')
            && IterateTimes(start, size, n, picked', left - 1) == IterateTimes(start, size, n, picked, left)
  {
  }

  lemma NamedDistinct(start: nat, members: seq<bytes>, n: nat, picked: seq<nat>, result: seq<bytes>)
    requires members != [] && Distinct(members) && Picks(start, |members|, n, picked) && |result| == |picked|
    requires forall j | 0 <= j < |result| :: picked[j] < |members| && result[j] == members[picked[j]]
    ensures Distinct(result) && |result| <= n && forall m | m in result :: m in members
  {
  }

  lemma {:induction false} DoneStays(start: nat, size: nat, n: nat, picked: seq<nat>, times: nat)
    requires size > 0 && (times == 0 || |picked| >= n)
    ensures IterateTimes(start, size, n, picked, times) == picked
  {
    if times > 0 {
      DoneStays(start, size, n, picked, times - 1);
    }
  }
}
