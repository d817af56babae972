/**
  SCAN: pages of keys in sorted order, resumed through a registry of cursor tokens that
  all clients share and that is cleared when it grows too large.

  One client's chain of pages is followed through any interleaving of writes and of
  other clients' scans.
 */
module Scan {
  import opened Bytes
  import opened Values
  import Glob

  const MAX_SCAN_CURSORS: nat := 1024

  // ----- the order of keys -----

  /** Byte-wise lexicographic order. */
  predicate Less(a: bytes, b: bytes) {
    if b == [] then false
    else if a == [] then true
    else a[0] < b[0] || (a[0] == b[0] && Less(a[1..], b[1..]))
  }

  /** Byte order: a proper prefix comes first, and otherwise the first byte that differs decides. */
  lemma {:induction false} LessExactly(a: bytes, b: bytes)
    ensures Less(a, b) <==>
            (|a| < |b| && a == b[..|a|])
            || exists i | 0 <= i < |a| && i < |b| :: a[..i] == b[..i] && a[i] < b[i]
  {
    if a != [] && b != [] {
      if a[0] == b[0] {
        LessExactly(a[1..], b[1..]);
        SameHead(a, b);
        hide Less;
      } else {
        FirstByte(a, b);
        assert a[..0] == b[..0];
      }
    }
  }

  /** A common first byte decides nothing. */
  lemma SameHead(a: bytes, b: bytes)
    requires a != [] && b != [] && a[0] == b[0]
    ensures |a| < |b| && a == b[..|a|] <==> |a[1..]| < |b[1..]| && a[1..] == b[1..][..|a[1..]|]
    ensures (exists i | 0 <= i < |a| && i < |b| :: a[..i] == b[..i] && a[i] < b[i])
            <==> exists i | 0 <= i < |a[1..]| && i < |b[1..]| :: a[1..][..i] == b[1..][..i] && a[1..][i] < b[1..][i]
  {
    assert a == [a[0]] + a[1..] && b == [b[0]] + b[1..];
    if i :| 0 <= i < |a[1..]| && i < |b[1..]| && a[1..][..i] == b[1..][..i] && a[1..][i] < b[1..][i] {
      assert a[..i + 1] == [a[0]] + a[1..][..i] && b[..i + 1] == [b[0]] + b[1..][..i] && a[i + 1] < b[i + 1];
    }
    if i :| 0 <= i < |a| && i < |b| && a[..i] == b[..i] && a[i] < b[i] {
      assert i > 0;
      assert a[1..][..i - 1] == a[..i][1..] && b[1..][..i - 1] == b[..i][1..];
      assert a[1..][i - 1] < b[1..][i - 1];
    }
    if |a| < |b| && a == b[..|a|] {
      assert a[1..] == b[1..][..|a[1..]|];
    }
  }

  lemma FirstByte(a: bytes, b: bytes)
    requires a != [] && b != []
    ensures forall i | 0 < i <= |a| && i <= |b| && a[..i] == b[..i] :: a[0] == b[0]
  {
    forall i | 0 < i <= |a| && i <= |b| && a[..i] == b[..i] ensures a[0] == b[0] {
      assert a[0] == a[..i][0] == b[..i][0] == b[0];
    }
  }

  lemma {:induction false} LessTransitive(a: bytes, b: bytes, c: bytes)
    requires Less(a, b) && Less(b, c)
    ensures Less(a, c)
  {
    if a != [] && a[0] == b[0] == c[0] {
      LessTransitive(a[1..], b[1..], c[1..]);
    }
  }

  lemma {:induction false} LessTotal(a: bytes, b: bytes)
    ensures Less(a, b) || a == b || Less(b, a)
    ensures !(Less(a, b) && Less(b, a)) && !Less(a, a)
  {
    if a != [] && b != [] {
      LessTotal(a[1..], b[1..]);
      assert a == [a[0]] + a[1..] && b == [b[0]] + b[1..];
    }
    if a != [] {
      LessTotal(a[1..], a[1..]);
    }
  }

  ghost predicate Ascending(keys: seq<bytes>) {
    forall i, j | 0 <= i < j < |keys| :: Less(keys[i], keys[j])
  }

  // ----- one page -----

  predicate After(k: bytes, start: Option<bytes>) {
    start.Some? ==> Less(start.value, k)
  }

  /** `page` is the first `count` keys after `start` in sorted order, and `hasMore`
      says whether keys remain. */
  ghost predicate IsPage(db: Db, start: Option<bytes>, count: nat, page: seq<bytes>, hasMore: bool) {
    && Ascending(page)
    && (forall k | k in page :: k in db && After(k, start))
    && (forall k | k in db && After(k, start) && k !in page :: hasMore && forall p | p in page :: Less(p, k))
    && (hasMore ==> |page| == AtLeastOne(count) && exists k | k in db && After(k, start) :: k !in page)
  }

  /** Whether a page's key is returned: still there, not expired, and matching. */
  predicate Hit(db: Db, k: bytes, now: nat, pattern: Option<bytes>) {
    k in db && !Expired(db[k], now) && (pattern.Some? ==> Glob.SimpleMatch(k, pattern.value))
  }

  function Hits(page: seq<bytes>, db: Db, now: nat, pattern: Option<bytes>): (r: seq<bytes>) {
    if page == [] then []
    else (if Hit(db, page[0], now, pattern) then [page[0]] else []) + Hits(page[1..], db, now, pattern)
  }

  lemma {:induction false} HitsExactly(page: seq<bytes>, db: Db, now: nat, pattern: Option<bytes>)
    requires Ascending(page)
    ensures forall k :: k in Hits(page, db, now, pattern) <==> k in page && Hit(db, k, now, pattern)
    ensures Ascending(Hits(page, db, now, pattern))
  {
    hide Hit, Less;
    if page != [] {
      HitsExactly(page[1..], db, now, pattern);
      assert forall k :: k in page <==> k == page[0] || k in page[1..];
      assert forall k | k in page[1..] :: Less(page[0], k);
    }
  }

  // ----- sorting the candidates -----

  /** What a reply means: a key of the page is returned only if it is still there, its
      expiry time is not reached, and it matches the pattern; and whenever that is so,
      unless both key and pattern hold `*`. */
  lemma HitsMatch(page: seq<bytes>, db: Db, now: nat, pattern: Option<bytes>)
    requires Ascending(page)
    ensures forall k | k in Hits(page, db, now, pattern) ::
              && k in page && k in db && (db[k].expireAt == None || db[k].expireAt.value > now)
              && (pattern == None || Glob.Matches(k, pattern.value))
    ensures forall k | STAR !in k || pattern == None || STAR !in pattern.value ::
              k in Hits(page, db, now, pattern) <==>
                && k in page && k in db && (db[k].expireAt == None || db[k].expireAt.value > now)
                && (pattern == None || Glob.Matches(k, pattern.value))
  {
    HitsExactly(page, db, now, pattern);
    hide Glob.SimpleMatch, Glob.Matches, Ascending, Hits;
    if pattern.Some? {
      forall k ensures Glob.SimpleMatch(k, pattern.value) ==> Glob.Matches(k, pattern.value)
               ensures STAR !in k || STAR !in pattern.value ==>
                         (Glob.SimpleMatch(k, pattern.value) <==> Glob.Matches(k, pattern.value))
      {
        Glob.MatcherCorrect(k, pattern.value);
      }
    }
  }

  function Insert(k: bytes, keys: seq<bytes>): (r: seq<bytes>) {
    if keys == [] then [k] else if Less(k, keys[0]) then [k] + keys else [keys[0]] + Insert(k, keys[1..])
  }

  function Sort(keys: seq<bytes>): (r: seq<bytes>) {
    if keys == [] then [] else Insert(keys[0], Sort(keys[1..]))
  }

  lemma {:induction false} InsertSorted(k: bytes, keys: seq<bytes>)
    requires Ascending(keys) && k !in keys
    ensures Ascending(Insert(k, keys))
    ensures forall x :: x in Insert(k, keys) <==> x == k || x in keys
    ensures |Insert(k, keys)| == |keys| + 1
  {
    hide Less;
    if keys != [] {
      LessTotal(k, keys[0]);
      assert forall x :: x in keys <==> x == keys[0] || x in keys[1..];
      assert forall x | x in keys[1..] :: Less(keys[0], x);
      if Less(k, keys[0]) {
        forall x | x in keys ensures Less(k, x) {
          if x != keys[0] { LessTransitive(k, keys[0], x); }
        }
      } else {
        InsertSorted(k, keys[1..]);
      }
    }
  }

  lemma {:induction false} SortSorts(keys: seq<bytes>)
    requires forall i, j | 0 <= i < j < |keys| :: keys[i] != keys[j]
    ensures Ascending(Sort(keys))
    ensures forall x :: x in Sort(keys) <==> x in keys
    ensures |Sort(keys)| == |keys|
  {
    hide Insert, Less;
    if keys != [] {
      SortSorts(keys[1..]);
      assert forall x :: x in keys <==> x == keys[0] || x in keys[1..];
      InsertSorted(keys[0], Sort(keys[1..]));
    }
  }

  /** `scan_keys` up to the page: filter what iteration yields, in any order, sort, truncate. */
  method CollectPage(db: Db, order: seq<bytes>, start: Option<bytes>, count: nat)
    returns (page: seq<bytes>, hasMore: bool)
    requires (forall i, j | 0 <= i < j < |order| :: order[i] != order[j]) && forall k :: k in order <==> k in db
    ensures IsPage(db, start, count, page, hasMore)
  {
    hide After, IsPage, Sort;
    var keys: seq<bytes> := [];
    for i := 0 to |order|
      invariant forall k :: k in keys <==> k in order[..i] && After(k, start)
      invariant forall a, b | 0 <= a < b < |keys| :: keys[a] != keys[b]
    {
      assert order[..i + 1] == order[..i] + [order[i]];
      assert order[i] !in order[..i];
      if After(order[i], start) { keys := keys + [order[i]]; }
    }
    assert order[..|order|] == order;
    SortedPage(db, keys, start, count);
    var sorted := Sort(keys);
    var n := AtLeastOne(count);
    hasMore := |sorted| > n;
    page := if hasMore then sorted[..n] else sorted;
  }

  /** The first keys of the sorted ones are a page. */
  lemma SortedPage(db: Db, keys: seq<bytes>, start: Option<bytes>, count: nat)
    requires forall k :: k in keys <==> k in db && After(k, start)
    requires forall a, b | 0 <= a < b < |keys| :: keys[a] != keys[b]
    ensures var sorted, n := Sort(keys), AtLeastOne(count);
            IsPage(db, start, count, if |sorted| > n then sorted[..n] else sorted, |sorted| > n)
  {
    hide After, Sort;
    SortSorts(keys);
    var sorted, n := Sort(keys), AtLeastOne(count);
    if |sorted| > n {
      FirstKeys(sorted, n);
    }
  }

  lemma FirstKeys(sorted: seq<bytes>, n: nat)
    requires Ascending(sorted) && n < |sorted|
    ensures Ascending(sorted[..n])
    ensures forall k | k in sorted && k !in sorted[..n] :: forall p | p in sorted[..n] :: Less(p, k)
    ensures sorted[n] in sorted && sorted[n] !in sorted[..n]
  {
    hide Less;
    LessTotal(sorted[n], sorted[n]);
    forall k, p | k in sorted && k !in sorted[..n] && p in sorted[..n] ensures Less(p, k) {
      var i :| 0 <= i < |sorted| && sorted[i] == k;
      assert i >= n;
    }
  }

  // ----- the registry and one client's chain -----

  /** How far one client's chain of pages has come. */
  datatype Chain =
    | Idle
    | Active(token: nat, last: bytes, returned: seq<bytes>, stable: set<bytes>)
    | Finished(returned: seq<bytes>, stable: set<bytes>)
    | Lost(last: bytes, returned: seq<bytes>, stable: set<bytes>)
      // its token was gone: the server ends the scan with cursor 0 and an empty page

  /** `pattern` is the MATCH argument of the followed client. `stable` in the chain is
      the set of keys that were a hit at every page so far. */
  datatype State = State(db: Db, cursors: map<nat, bytes>, nextCursor: nat, pattern: Option<bytes>, chain: Chain)

  datatype Step =
    | Write(newDb: Db)
    | OtherScan(cursor: nat, count: nat, page: seq<bytes>, hasMore: bool)
    | Begin(count: nat, page: seq<bytes>, hasMore: bool, now: nat)
    | Resume(count: nat, page: seq<bytes>, hasMore: bool, now: nat)

  /** Where a scan with this cursor starts; `None` for an unknown token. */
  function StartOf(s: State, cursor: nat): (start: Option<Option<bytes>>) {
    if cursor == 0 then Some(None)
    else if cursor in s.cursors then Some(Some(s.cursors[cursor]))
    else None
  }

  /** The page in the step is the one the server computes. */
  ghost predicate Allowed(s: State, step: Step) {
    match step
    case Write(_) => true
    case OtherScan(cursor, count, page, hasMore) =>
      var start := StartOf(s, cursor);
      start.Some? ==> IsPage(s.db, start.value, count, page, hasMore)
    case Begin(count, page, hasMore, _) => IsPage(s.db, None, count, page, hasMore)
    case Resume(count, page, hasMore, _) =>
      && s.chain.Active?
      && (s.chain.token in s.cursors ==> IsPage(s.db, Some(s.cursors[s.chain.token]), count, page, hasMore))
  }

  /** The registry after a scan: the used token is gone, and a new one, never used
      before, maps to the last key of the page if keys remain. */
  function Registry(s: State, cursor: nat, page: seq<bytes>, hasMore: bool): (s': State)
    requires hasMore ==> page != []
  {
    var left := s.cursors - {cursor};
    if !hasMore then s.(cursors := left)
    else
      var kept := if |left| >= MAX_SCAN_CURSORS then map[] else left;
      s.(cursors := kept[s.nextCursor := page[|page| - 1]], nextCursor := s.nextCursor + 1)
  }

  function Advance(
    s: State, page: seq<bytes>, hasMore: bool, returned: seq<bytes>, stable: set<bytes>
  ): (c: Chain)
    requires hasMore ==> page != []
  {
    if hasMore then Active(s.nextCursor, page[|page| - 1], returned, stable) else Finished(returned, stable)
  }

  ghost function Next(s: State, step: Step): (s': State)
    requires Allowed(s, step)
  {
    match step
    case Write(db) => s.(db := db)
    case OtherScan(cursor, count, page, hasMore) =>
      if StartOf(s, cursor) == None then s else Registry(s, cursor, page, hasMore)
    case Begin(count, page, hasMore, now) =>
      var hits := Hits(page, s.db, now, s.pattern);
      var stable := set k | k in s.db && Hit(s.db, k, now, s.pattern);
      Registry(s, 0, page, hasMore).(chain := Advance(s, page, hasMore, hits, stable))
    case Resume(count, page, hasMore, now) =>
      var c := s.chain;
      if c.token !in s.cursors then s.(chain := Lost(c.last, c.returned, c.stable))
      else
        var hits := c.returned + Hits(page, s.db, now, s.pattern);
        var stable := set k | k in c.stable && Hit(s.db, k, now, s.pattern);
        Registry(s, c.token, page, hasMore).(chain := Advance(s, page, hasMore, hits, stable))
  }

  /** What the followed client's keys are checked against at every page: the key is there,
      its expiry time is not reached, and it matches. */
  ghost predicate Matching(s: State, k: bytes, now: nat) {
    && k in s.db && (s.db[k].expireAt == None || s.db[k].expireAt.value > now)
    && (s.pattern == None || Glob.Matches(k, s.pattern.value))
  }

  /** The stable keys of a chain: all that match at its first page, then those of them that
      match at each further page, for keys without `*`, or under a pattern without; what
      others do in between changes nothing about them. */
  lemma StableMeans(s: State, step: Step)
    requires Allowed(s, step)
    ensures var s' := Next(s, step);
            && (step.Begin? ==>
                  && !s'.chain.Idle?
                  && forall k | STAR !in k || s.pattern == None || STAR !in s.pattern.value ::
                       k in s'.chain.stable <==> Matching(s, k, step.now))
            && (step.Resume? && s.chain.token in s.cursors ==>
                  && !s'.chain.Idle?
                  && forall k | STAR !in k || s.pattern == None || STAR !in s.pattern.value ::
                       k in s'.chain.stable <==> k in s.chain.stable && Matching(s, k, step.now))
            && (step.Write? || step.OtherScan? ==> s'.chain == s.chain)
  {
    hide Hit, Matching, IsPage, Hits;
    StableIs(s, step);
    hide Next, Allowed;
    if step.Begin? || step.Resume? {
      forall k | STAR !in k || s.pattern == None || STAR !in s.pattern.value
        ensures Hit(s.db, k, step.now, s.pattern) <==> Matching(s, k, step.now)
      {
        HitMeans(s, k, step.now);
      }
    }
  }

  lemma HitMeans(s: State, k: bytes, now: nat)
    requires STAR !in k || s.pattern == None || STAR !in s.pattern.value
    ensures Hit(s.db, k, now, s.pattern) <==> Matching(s, k, now)
  {
    hide Glob.SimpleMatch, Glob.Matches;
    if s.pattern.Some? {
      Glob.MatcherCorrect(k, s.pattern.value);
    }
  }

  lemma StableIs(s: State, step: Step)
    requires Allowed(s, step)
    ensures var s' := Next(s, step);
            && (step.Begin? ==>
                  !s'.chain.Idle? && forall k :: k in s'.chain.stable <==> Hit(s.db, k, step.now, s.pattern))
            && (step.Resume? && s.chain.token in s.cursors ==>
                  && !s'.chain.Idle?
                  && forall k :: k in s'.chain.stable <==> k in s.chain.stable && Hit(s.db, k, step.now, s.pattern))
            && (step.Write? || step.OtherScan? ==> s'.chain == s.chain)
  {
    hide Hit, IsPage, Hits;
    if step.Begin? {
      PageNotEmpty(s.db, None, step.count, step.page, step.hasMore);
      forall k ensures Hit(s.db, k, step.now, s.pattern) ==> k in s.db {
        if Hit(s.db, k, step.now, s.pattern) { HitPresent(s.db, k, step.now, s.pattern); }
      }
    } else if step.Resume? && s.chain.token in s.cursors {
      PageNotEmpty(s.db, Some(s.cursors[s.chain.token]), step.count, step.page, step.hasMore);
    } else if step.OtherScan? && StartOf(s, step.cursor).Some? {
      PageNotEmpty(s.db, StartOf(s, step.cursor).value, step.count, step.page, step.hasMore);
    }
  }

  ghost predicate AllowedRun(s: State, steps: seq<Step>)
    decreases |steps|
  {
    steps == [] || (Allowed(s, steps[0]) && AllowedRun(Next(s, steps[0]), steps[1..]))
  }

  ghost function Run(s: State, steps: seq<Step>): (s': State)
    requires AllowedRun(s, steps)
    decreases |steps|
  {
    if steps == [] then s else Run(Next(s, steps[0]), steps[1..])
  }

  /** No key returned twice, and every stable key up to `last` returned already. */
  ghost predicate CaughtUp(returned: seq<bytes>, stable: set<bytes>, last: Option<bytes>) {
    && Ascending(returned)
    && (forall k | k in returned :: last.Some? ==> !Less(last.value, k))
    && (forall k | k in stable && (last.Some? ==> !Less(last.value, k)) :: k in returned)
  }

  ghost predicate Inv(s: State) {
    && s.nextCursor > 0
    && (forall token | token in s.cursors :: token < s.nextCursor)
    && ChainOk(s, s.chain)
  }

  ghost predicate ChainOk(s: State, c: Chain) {
    match c
    case Idle => true
    case Lost(last, returned, stable) => CaughtUp(returned, stable, Some(last))
    case Finished(returned, stable) => CaughtUp(returned, stable, None)
    case Active(token, last, returned, stable) =>
      && 0 < token < s.nextCursor
      && (token in s.cursors ==> s.cursors[token] == last)
      && CaughtUp(returned, stable, Some(last))
  }

  /** The keys of an earlier page, then the hits of the next one. */
  lemma PageExtends(
    db: Db, start: Option<bytes>, count: nat, page: seq<bytes>, hasMore: bool, now: nat, pattern: Option<bytes>,
    returned: seq<bytes>, stable: set<bytes>, stable': set<bytes>)
    requires IsPage(db, start, count, page, hasMore)
    requires start.Some? ==> CaughtUp(returned, stable, start)
    requires start == None ==> returned == []
    requires forall k | k in stable' :: Hit(db, k, now, pattern) && (start.Some? ==> k in stable)
    ensures hasMore ==> page != []
    ensures CaughtUp(returned + Hits(page, db, now, pattern), stable',
                     if hasMore then Some(page[|page| - 1]) else None)
  {
    hide Less, Hit;
    HitsExactly(page, db, now, pattern);
    var hits := Hits(page, db, now, pattern);
    var all := returned + hits;
    forall i, j | 0 <= i < j < |all| ensures Less(all[i], all[j]) {
      if i < |returned| <= j {
        assert all[i] in returned && all[j] in hits;
        LessTotal(start.value, all[i]);
        if all[i] != start.value { LessTransitive(all[i], start.value, all[j]); }
      }
    }
    if hasMore {
      var last := page[|page| - 1];
      assert last in page;
      forall k | k in all ensures !Less(last, k) {
        if k in hits {
          var i :| 0 <= i < |page| && page[i] == k;
          LessTotal(k, last);
        } else if Less(last, k) {
          assert Less(start.value, last);
          LessTransitive(start.value, last, k);
        }
      }
    }
    forall k | k in stable' && (hasMore ==> !Less(page[|page| - 1], k)) ensures k in all {
      if After(k, start) {
        HitPresent(db, k, now, pattern);
        assert page != [] ==> page[|page| - 1] in page;
        assert k in page;
      }
    }
  }

  lemma HitPresent(db: Db, k: bytes, now: nat, pattern: Option<bytes>)
    requires Hit(db, k, now, pattern)
    ensures k in db
  {
  }

  /** A scan adds at most one token, a new one, and changes no other. */
  lemma RegistryTokens(s: State, cursor: nat, page: seq<bytes>, hasMore: bool)
    requires hasMore ==> page != []
    ensures var s' := Registry(s, cursor, page, hasMore);
            && s.nextCursor <= s'.nextCursor
            && forall t | t in s'.cursors ::
                 (t in s.cursors && s'.cursors[t] == s.cursors[t]) || s.nextCursor == t < s'.nextCursor
  {
  }

  lemma OtherKeeps(s: State, step: Step)
    requires Inv(s) && Allowed(s, step) && step.OtherScan?
    ensures Inv(Next(s, step))
  {
    hide Inv, IsPage, Registry;
    if StartOf(s, step.cursor).Some? {
      PageNotEmpty(s.db, StartOf(s, step.cursor).value, step.count, step.page, step.hasMore);
      RegistryKeeps(s, step.cursor, step.page, step.hasMore);
    }
  }

  lemma RegistryKeeps(s: State, cursor: nat, page: seq<bytes>, hasMore: bool)
    requires Inv(s) && (hasMore ==> page != [])
    ensures Inv(Registry(s, cursor, page, hasMore))
  {
    hide CaughtUp;
    RegistryTokens(s, cursor, page, hasMore);
    assert Registry(s, cursor, page, hasMore).chain == s.chain;
    hide Registry;
  }

  lemma BeginKeeps(s: State, step: Step)
    requires Inv(s) && Allowed(s, step) && step.Begin?
    ensures Inv(Next(s, step))
  {
    hide Hit, Hits, IsPage, CaughtUp;
    var page, now := step.page, step.now;
    PageNotEmpty(s.db, None, step.count, page, step.hasMore);
    var stable := set k | k in s.db && Hit(s.db, k, now, s.pattern);
    PageExtends(s.db, None, step.count, page, step.hasMore, now, s.pattern, [], {}, stable);
    assert [] + Hits(page, s.db, now, s.pattern) == Hits(page, s.db, now, s.pattern);
    RegistryKeeps(s, 0, page, step.hasMore);
  }

  lemma ResumeKeeps(s: State, step: Step)
    requires Inv(s) && Allowed(s, step) && step.Resume?
    ensures Inv(Next(s, step))
  {
    hide Hit, Hits, IsPage, CaughtUp;
    var c := s.chain;
    if c.token in s.cursors {
      var page, now := step.page, step.now;
      PageNotEmpty(s.db, Some(c.last), step.count, page, step.hasMore);
      var stable := set k | k in c.stable && Hit(s.db, k, now, s.pattern);
      PageExtends(s.db, Some(c.last), step.count, page, step.hasMore, now, s.pattern, c.returned, c.stable, stable);
    }
  }

  lemma StepKeeps(s: State, step: Step)
    requires Inv(s) && Allowed(s, step)
    ensures Inv(Next(s, step))
  {
    hide Allowed, CaughtUp;
    match step
    case Write(_) =>
    case OtherScan(_, _, _, _) => OtherKeeps(s, step);
    case Begin(_, _, _, _) => BeginKeeps(s, step);
    case Resume(_, _, _, _) => ResumeKeeps(s, step);
  }

  lemma PageNotEmpty(db: Db, start: Option<bytes>, count: nat, page: seq<bytes>, hasMore: bool)
    requires IsPage(db, start, count, page, hasMore)
    ensures hasMore ==> page != []
  {
  }

  lemma {:induction false} RunKeeps(s: State, steps: seq<Step>)
    requires Inv(s) && AllowedRun(s, steps)
    ensures Inv(Run(s, steps))
    decreases |steps|
  {
    hide Allowed, Next, Inv;
    if steps != [] {
      StepKeeps(s, steps[0]);
      RunKeeps(Next(s, steps[0]), steps[1..]);
    }
  }

  /** SCAN completeness: through any writes and any other scans between the pages, a
      chain for which cursor 0 has come back has returned no key twice, and of the keys
      present, unexpired and matching at each of its pages it has returned every one if it
      got to its last page, and if its token was gone, those up to its last position. */
  lemma ScanComplete(s: State, steps: seq<Step>)
    requires s.chain.Idle? && s.cursors == map[] && s.nextCursor == 1
    requires AllowedRun(s, steps)
    ensures var c := Run(s, steps).chain;
            && (c.Finished? || c.Lost? ==>
                  && Ascending(c.returned)
                  && (forall i, j | 0 <= i < j < |c.returned| :: c.returned[i] != c.returned[j]))
            && (c.Finished? ==> forall k | k in c.stable :: k in c.returned)
            && (c.Lost? ==> forall k | k in c.stable :: k in c.returned <==> !Less(c.last, k))
  {
    RunKeeps(s, steps);
    var c := Run(s, steps).chain;
    if c.Finished? || c.Lost? {
      forall i, j | 0 <= i < j < |c.returned| ensures c.returned[i] != c.returned[j] {
        LessTotal(c.returned[i], c.returned[j]);
        LessTotal(c.returned[i], c.returned[i]);
      }
    }
  }

  // ----- when a chain gets to its last page -----

  /** Another scan takes the chain's token away: it uses the token itself, or it needs a
      new one while the registry is full, which clears the registry. */
  predicate Kills(s: State, step: Step) {
    && step.OtherScan? && s.chain.Active? && StartOf(s, step.cursor).Some?
    && (step.cursor == s.chain.token || (step.hasMore && |s.cursors - {step.cursor}| >= MAX_SCAN_CURSORS))
  }

  /** No step takes the token away that the chain has at that time. */
  ghost predicate Spared(s: State, steps: seq<Step>)
    requires AllowedRun(s, steps)
    decreases |steps|
  {
    steps == [] || (!Kills(s, steps[0]) && Spared(Next(s, steps[0]), steps[1..]))
  }

  predicate Stored(s: State) {
    s.chain.Active? ==> s.chain.token in s.cursors
  }

  /** What a step of others does to the chain's token. */
  lemma OtherStep(s: State, step: Step)
    requires Inv(s) && s.chain.Active? && Allowed(s, step) && (step.Write? || step.OtherScan?)
    ensures Next(s, step).chain == s.chain
    ensures s.chain.token in Next(s, step).cursors <==> s.chain.token in s.cursors && !Kills(s, step)
  {
    hide CaughtUp, IsPage;
    if step.OtherScan? && StartOf(s, step.cursor).Some? {
      PageNotEmpty(s.db, StartOf(s, step.cursor).value, step.count, step.page, step.hasMore);
    }
  }

  /** A token just handed out is stored, and a chain whose token is stored is not lost. */
  lemma ResumeStores(s: State, step: Step)
    requires Inv(s) && s.chain.Active? && Stored(s) && Allowed(s, step) && step.Resume?
    ensures var s' := Next(s, step); Stored(s') && (s'.chain.Active? || s'.chain.Finished?)
  {
    hide CaughtUp, Hits;
    PageNotEmpty(s.db, Some(s.cursors[s.chain.token]), step.count, step.page, step.hasMore);
  }

  /** Between two pages of a chain, its token survives exactly if no step takes it away. */
  lemma {:induction false} TokenSurvives(s: State, steps: seq<Step>)
    requires Inv(s) && s.chain.Active? && AllowedRun(s, steps)
    requires forall step | step in steps :: step.Write? || step.OtherScan?
    ensures Run(s, steps).chain == s.chain
    ensures s.chain.token in Run(s, steps).cursors <==> s.chain.token in s.cursors && Spared(s, steps)
    decreases |steps|
  {
    hide Allowed, Next, Inv, Kills;
    if steps != [] {
      StepKeeps(s, steps[0]);
      OtherStep(s, steps[0]);
      TokenSurvives(Next(s, steps[0]), steps[1..]);
    }
  }

  /** A chain without its token never gets to its last page. */
  lemma {:induction false} NeverFinishes(s: State, steps: seq<Step>)
    requires Inv(s) && AllowedRun(s, steps) && forall step | step in steps :: !step.Begin?
    requires s.chain.Lost? || (s.chain.Active? && !Stored(s))
    ensures var t := Run(s, steps); t.chain.Lost? || (t.chain.Active? && !Stored(t))
    decreases |steps|
  {
    if steps != [] {
      StepKeeps(s, steps[0]);
      if s.chain.Active? && !steps[0].Resume? {
        OtherStep(s, steps[0]);
      }
      hide Inv, IsPage;
      NeverFinishes(Next(s, steps[0]), steps[1..]);
    }
  }

  lemma {:induction false} FinishedStays(s: State, steps: seq<Step>)
    requires s.chain.Finished? && AllowedRun(s, steps) && forall step | step in steps :: !step.Begin?
    ensures Run(s, steps).chain == s.chain && Spared(s, steps)
    decreases |steps|
  {
    hide IsPage;
    if steps != [] {
      FinishedStays(Next(s, steps[0]), steps[1..]);
    }
  }

  /** How a chain ends: it gets to its last page if and only if no other scan ever took
      its token away, and is lost otherwise. */
  lemma {:induction false} ChainEnds(s: State, steps: seq<Step>)
    requires Inv(s) && Stored(s) && (s.chain.Active? || s.chain.Finished?)
    requires AllowedRun(s, steps) && forall step | step in steps :: !step.Begin?
    ensures var t := Run(s, steps);
            && (t.chain.Active? || t.chain.Finished? || t.chain.Lost?)
            && (!t.chain.Active? ==> (t.chain.Finished? <==> Spared(s, steps)))
            && (t.chain.Active? ==> (Stored(t) <==> Spared(s, steps)))
    decreases |steps|
  {
    if s.chain.Finished? {
      FinishedStays(s, steps);
    } else if steps != [] {
      var step, s' := steps[0], Next(s, steps[0]);
      StepKeeps(s, step);
      if step.Resume? {
        ResumeStores(s, step);
        hide Inv, Allowed, Next;
        ChainEnds(s', steps[1..]);
      } else {
        OtherStep(s, step);
        hide Inv, Allowed, Next, Kills;
        if Kills(s, step) {
          NeverFinishes(s', steps[1..]);
        } else {
          ChainEnds(s', steps[1..]);
        }
      }
    }
  }

  /** A whole scan, from cursor 0 until cursor 0 comes back: it has returned every stable
      key if and only if no other scan took its token away, or none was above its last
      position. */
  lemma ScanExactly(s: State, begin: Step, steps: seq<Step>)
    requires Inv(s) && begin.Begin? && Allowed(s, begin)
    requires AllowedRun(Next(s, begin), steps) && forall step | step in steps :: !step.Begin?
    ensures var s', c := Next(s, begin), Run(Next(s, begin), steps).chain;
            !c.Active? ==>
              && (c.Finished? <==> Spared(s', steps))
              && (c.Lost? <==> !Spared(s', steps))
              && ((forall k | k in c.stable :: k in c.returned)
                  <==> Spared(s', steps) || forall k | k in c.stable :: !Less(c.last, k))
  {
    var s' := Next(s, begin);
    BeginKeeps(s, begin);
    PageNotEmpty(s.db, None, begin.count, begin.page, begin.hasMore);
    RunKeeps(s', steps);
    hide IsPage, Hits, Less;
    assert Stored(s') && (s'.chain.Active? || s'.chain.Finished?);
    hide Next, Allowed;
    ChainEnds(s', steps);
  }
}
