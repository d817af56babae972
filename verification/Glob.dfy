/**
  The glob matcher behind KEYS and SCAN MATCH: `?` stands for one byte, `*` for any
  run of bytes. It is a loop that remembers only the last star it passed.
 */
module Glob {
  import opened Bytes

  /** What a pattern means: the subject from `i` on matches the pattern from `j` on. */
  ghost predicate MatchesAt(s: bytes, p: bytes, i: nat, j: nat)
    requires i <= |s| && j <= |p|
    decreases |p| - j, 0
  {
    if j == |p| then i == |s|
    else if p[j] == STAR then MatchesFrom(s, p, i, j + 1)
    else i < |s| && (p[j] == QUESTION || p[j] == s[i]) && MatchesAt(s, p, i + 1, j + 1)
  }

  /** The pattern from `j` on matches the subject from `i` or from some later position. */
  ghost predicate MatchesFrom(s: bytes, p: bytes, i: nat, j: nat)
    requires i <= |s| && j <= |p|
    decreases |p| - j, 1
  {
    exists k | i <= k <= |s| :: MatchesAt(s, p, k, j)
  }

  ghost predicate Matches(s: bytes, p: bytes) {
    MatchesAt(s, p, 0, 0)
  }

  /** A match looks only at what is left of subject and pattern. */
  lemma MatchesTails(s: bytes, p: bytes, i: nat, j: nat)
    requires i <= |s| && j <= |p|
    ensures MatchesAt(s, p, i, j) <==> Matches(s[i..], p[j..])
  {
    if MatchesAt(s, p, i, j) {
      TailsShift(s, p, i, j, s[i..], p[j..], 0, 0);
    }
    if Matches(s[i..], p[j..]) {
      TailsShift(s[i..], p[j..], 0, 0, s, p, i, j);
    }
  }

  lemma {:induction false} TailsShift(s: bytes, p: bytes, i: nat, j: nat, s': bytes, p': bytes, i': nat, j': nat)
    requires i <= |s| && j <= |p| && i' <= |s'| && j' <= |p'|
    requires s[i..] == s'[i'..] && p[j..] == p'[j'..] && MatchesAt(s, p, i, j)
    ensures MatchesAt(s', p', i', j')
    decreases |p| - j
  {
    assert |s| - i == |s'| - i' && |p| - j == |p'| - j';
    if j < |p| {
      var next, next' := j + 1, j' + 1;
      assert p[j] == p[j..][0] == p'[j'..][0] == p'[j'];
      assert p[next..] == p[j..][1..] == p'[next'..];
      if p[j] == STAR {
        assert MatchesFrom(s, p, i, next);
        var k :| i <= k <= |s| && MatchesAt(s, p, k, next);
        assert MatchesAt(s', p', i', j') <==> MatchesFrom(s', p', i', next');
        var k' := i' + (k - i);
        assert s[k..] == s[i..][k - i..] == s'[k'..];
        TailsShift(s, p, k, next, s', p', k', next');
      } else {
        assert s[i] == s[i..][0] == s'[i'..][0] == s'[i'];
        assert s[i + 1..] == s[i..][1..] == s'[i' + 1..];
        TailsShift(s, p, i + 1, next, s', p', i' + 1, next');
      }
    }
  }

  /** What patterns mean: nothing matches nothing, `?` (63) any one byte, `*` (42) any run of
      bytes, and any other byte itself. */
  lemma MatchLaws(s: bytes, c: byte, p: bytes)
    ensures Matches(s, []) <==> s == []
    ensures Matches(s, [42] + p) <==> exists k | 0 <= k <= |s| :: Matches(s[k..], p)
    ensures Matches(s, [63] + p) <==> s != [] && Matches(s[1..], p)
    ensures c != 42 && c != 63 ==> (Matches(s, [c] + p) <==> s != [] && s[0] == c && Matches(s[1..], p))
  {
    var star := [42] + p;
    assert star[1..] == p && ([63] + p)[1..] == p && ([c] + p)[1..] == p;
    forall k | 0 <= k <= |s| ensures MatchesAt(s, star, k, 1) <==> Matches(s[k..], p) {
      MatchesTails(s, star, k, 1);
    }
    assert Matches(s, star) <==> MatchesFrom(s, star, 0, 1);
    if s != [] {
      MatchesTails(s, [63] + p, 1, 1);
      MatchesTails(s, [c] + p, 1, 1);
    }
  }

  // ----- the loop, as a recursive function over its four variables -----

  /** The state of the loop; `star` is the position of the last star taken, if any,
      and `mark` the subject position at which its run currently ends. */
  datatype Cursor = Cursor(si: nat, pi: nat, star: Option<nat>, mark: nat) {
    predicate Ok(s: bytes, p: bytes) {
      && si <= |s| && pi <= |p|
      && (star.Some? ==> star.value < pi && p[star.value] == STAR && mark <= si && si - mark == pi - star.value - 1)
      && (star == None ==> si == pi)
    }
  }

  predicate TakesByte(s: bytes, p: bytes, c: Cursor)
    requires c.Ok(s, p) && c.si < |s|
  {
    c.pi < |p| && (p[c.pi] == QUESTION || p[c.pi] == s[c.si])
  }

  predicate TakesStar(s: bytes, p: bytes, c: Cursor)
    requires c.Ok(s, p) && c.si < |s|
  {
    c.pi < |p| && p[c.pi] == STAR
  }

  /** One iteration: a literal or `?` first, then a star, then backtracking to the
      last star, then failure. */
  function Step(s: bytes, p: bytes, c: Cursor): (c': Option<Cursor>)
    requires c.Ok(s, p) && c.si < |s|
    ensures c'.Some? ==> c'.value.Ok(s, p)
  {
    if TakesByte(s, p, c) then Some(c.(si := c.si + 1, pi := c.pi + 1))
    else if TakesStar(s, p, c) then Some(Cursor(c.si, c.pi + 1, Some(c.pi), c.si))
    else if c.star.Some? then Some(Cursor(c.mark + 1, c.star.value + 1, c.star, c.mark + 1))
    else None
  }

  function StarRank(p: bytes, c: Cursor): (n: int) {
    if c.star.Some? then |p| - c.star.value else |p| + 1
  }

  function Loop(s: bytes, p: bytes, c: Cursor): (found: bool)
    requires c.Ok(s, p)
    decreases StarRank(p, c), |s| - c.mark, |s| - c.si
  {
    if c.si == |s| then OnlyStars(p, c.pi)
    else
      match Step(s, p, c)
      case None => false
      case Some(next) => Loop(s, p, next)
  }

  predicate OnlyStars(p: bytes, j: nat) {
    forall m | j <= m < |p| :: p[m] == STAR
  }

  function SimpleMatch(s: bytes, p: bytes): (found: bool) {
    Loop(s, p, Cursor(0, 0, None, 0))
  }

  /** The loop as written. It always ends, and decides what `SimpleMatch` decides. */
  method SimpleMatchLoop(s: bytes, p: bytes) returns (found: bool)
    ensures found == SimpleMatch(s, p)
  {
    var si: nat, pi: nat, mark: nat := 0, 0, 0;
    var star: Option<nat> := None;
    while si < |s|
      invariant Cursor(si, pi, star, mark).Ok(s, p)
      invariant Loop(s, p, Cursor(si, pi, star, mark)) == SimpleMatch(s, p)
      decreases StarRank(p, Cursor(si, pi, star, mark)), |s| - mark, |s| - si
    {
      ghost var c := Cursor(si, pi, star, mark);
      if pi < |p| && (p[pi] == QUESTION || p[pi] == s[si]) { si, pi := si + 1, pi + 1; }
      else if pi < |p| && p[pi] == STAR { star, mark, pi := Some(pi), si, pi + 1; }
      else if star.Some? { pi, mark, si := star.value + 1, mark + 1, mark + 1; }
      else { return false; }
      assert Step(s, p, c) == Some(Cursor(si, pi, star, mark));
    }
    while pi < |p| && p[pi] == STAR
      invariant pi <= |p|
      invariant OnlyStars(p, pi) == SimpleMatch(s, p)
    {
      pi := pi + 1;
    }
    found := pi == |p|;
  }

  // ----- soundness, for every subject and pattern -----

  lemma {:induction false} EmptySubject(s: bytes, p: bytes, j: nat)
    requires j <= |p|
    ensures MatchesAt(s, p, |s|, j) <==> OnlyStars(p, j)
    decreases |p| - j
  {
    if j < |p| {
      EmptySubject(s, p, j + 1);
    }
  }

  /** The rest matches from here, or the last star can be stretched further to match. */
  ghost predicate Promise(s: bytes, p: bytes, c: Cursor)
    requires c.Ok(s, p)
  {
    MatchesAt(s, p, c.si, c.pi) || (c.star.Some? && MatchesAt(s, p, c.mark, c.star.value))
  }

  lemma {:induction false} LoopSound(s: bytes, p: bytes, c: Cursor)
    requires c.Ok(s, p) && Loop(s, p, c)
    ensures Promise(s, p, c)
    decreases StarRank(p, c), |s| - c.mark, |s| - c.si
  {
    if c.si == |s| {
      EmptySubject(s, p, c.pi);
    } else {
      LoopSound(s, p, Step(s, p, c).value);
      if TakesByte(s, p, c) {
        assert MatchesAt(s, p, c.si + 1, c.pi + 1) ==> MatchesFrom(s, p, c.si, c.pi + 1);
      } else if TakesStar(s, p, c) {
        assert MatchesAt(s, p, c.si, c.pi + 1) ==> MatchesFrom(s, p, c.si, c.pi + 1);
      } else {
        assert MatchesFrom(s, p, c.mark + 1, c.star.value + 1) ==> MatchesFrom(s, p, c.mark, c.star.value + 1);
      }
    }
  }

  // ----- completeness, unless both sides contain a star -----

  /** A stretch of pattern without stars takes its own length off the subject. */
  lemma {:induction false} SplitStretch(s: bytes, p: bytes, i: nat, j: nat, n: nat)
    requires i <= |s| && j + n <= |p| && (forall m | j <= m < j + n :: p[m] != STAR)
    requires MatchesAt(s, p, i, j)
    ensures i + n <= |s| && MatchesAt(s, p, i + n, j + n)
    decreases n
  {
    if n > 0 {
      SplitStretch(s, p, i + 1, j + 1, n - 1);
    }
  }

  /** Some match is still within reach of the loop: from here if no star was taken,
      otherwise with the last star's run ending at the mark or later. */
  ghost predicate Reachable(s: bytes, p: bytes, c: Cursor)
    requires c.Ok(s, p)
  {
    if c.star == None then MatchesAt(s, p, c.si, c.pi)
    else
      && (forall m | c.star.value < m < c.pi :: p[m] != STAR)
      && MatchesFrom(s, p, c.mark, c.star.value + 1)
  }

  lemma ReachableStep(s: bytes, p: bytes, c: Cursor)
    requires c.Ok(s, p) && c.si < |s| && (STAR !in s || STAR !in p) && Reachable(s, p, c)
    ensures Step(s, p, c).Some? && Reachable(s, p, Step(s, p, c).value)
  {
    if c.star.Some? {
      var k :| c.mark <= k <= |s| && MatchesAt(s, p, k, c.star.value + 1);
      SplitStretch(s, p, k, c.star.value + 1, c.si - c.mark);
    }
  }

  lemma {:induction false} LoopComplete(s: bytes, p: bytes, c: Cursor)
    requires c.Ok(s, p) && (STAR !in s || STAR !in p) && Reachable(s, p, c)
    ensures Loop(s, p, c)
    decreases StarRank(p, c), |s| - c.mark, |s| - c.si
  {
    if c.si == |s| {
      if c.star.Some? {
        var k :| c.mark <= k <= |s| && MatchesAt(s, p, k, c.star.value + 1);
        SplitStretch(s, p, k, c.star.value + 1, c.si - c.mark);
      }
      EmptySubject(s, p, c.pi);
    } else {
      ReachableStep(s, p, c);
      LoopComplete(s, p, Step(s, p, c).value);
    }
  }

  /** The matcher never accepts wrongly, and it is exact whenever the subject or the
      pattern is free of the star byte. */
  lemma MatcherCorrect(s: bytes, p: bytes)
    ensures SimpleMatch(s, p) ==> Matches(s, p)
    ensures STAR !in s || STAR !in p ==> (SimpleMatch(s, p) <==> Matches(s, p))
  {
    var c := Cursor(0, 0, None, 0);
    if SimpleMatch(s, p) {
      LoopSound(s, p, c);
    } else if (STAR !in s || STAR !in p) && Matches(s, p) {
      LoopComplete(s, p, c);
    }
  }

  // ----- the subjects it fails on -----

  /** The subject up to `i`, a star, and a `?` for every byte from `i` on. */
  function Blind(s: bytes, i: nat): (p: bytes)
    requires i < |s|
    ensures |p| == |s| + 1
    ensures forall m | 0 <= m <= |s| :: p[m] == if m == i then STAR else if m < i then s[m] else QUESTION
  {
    s[..i] + [STAR] + seq(|s| - i, _ => QUESTION)
  }

  lemma {:induction false} QuestionsMatch(s: bytes, i: nat, k: nat)
    requires i <= k <= |s| && i < |s|
    ensures MatchesAt(s, Blind(s, i), k, k + 1)
    decreases |s| - k
  {
    if k < |s| {
      QuestionsMatch(s, i, k + 1);
    }
  }

  lemma {:induction false} CommonPrefix(s: bytes, p: bytes, i: nat)
    requires i <= |s| && i <= |p| && s[..i] == p[..i] && MatchesAt(s, p, i, i)
    ensures Matches(s, p)
  {
    if i > 0 {
      assert s[i - 1] == s[..i][i - 1] == p[..i][i - 1];
      assert s[..i][..i - 1] == s[..i - 1] && p[..i][..i - 1] == p[..i - 1];
      CommonPrefix(s, p, i - 1);
    }
  }

  lemma {:induction false} WalkFails(s: bytes, p: bytes, j: nat)
    requires |p| == |s| + 1 && p[|s|] == QUESTION && j <= |s|
    requires forall n | 0 <= n < |s| :: p[n] == QUESTION || p[n] == s[n]
    ensures !Loop(s, p, Cursor(j, j, None, 0))
    decreases |s| - j
  {
    if j < |s| {
      WalkFails(s, p, j + 1);
    }
  }

  /** At a star in the subject, a star in the pattern is taken for that byte and never
      remembered: for every subject with a star there is a pattern that matches it and
      is refused. */
  lemma StarSubjectFails(s: bytes, i: nat)
    requires i < |s| && s[i] == STAR
    ensures Matches(s, Blind(s, i)) && !SimpleMatch(s, Blind(s, i))
  {
    var p := Blind(s, i);
    QuestionsMatch(s, i, i);
    assert s[..i] == p[..i];
    CommonPrefix(s, p, i);
    WalkFails(s, p, 0);
  }

  /** The matcher is right on a subject for every pattern if and only if the subject
      does not contain the star byte. */
  lemma ExactIffNoStar(s: bytes)
    ensures (forall p: bytes :: SimpleMatch(s, p) <==> Matches(s, p)) <==> STAR !in s
  {
    if STAR in s {
      var i :| 0 <= i < |s| && s[i] == STAR;
      StarSubjectFails(s, i);
    } else {
      forall p: bytes ensures SimpleMatch(s, p) <==> Matches(s, p) {
        MatcherCorrect(s, p);
      }
    }
  }
}
