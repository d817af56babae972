/**
  Ordered reads of a sorted set. The index is a tree map from scores to hash sets:
  iteration visits buckets in ascending score order and the members of a bucket in
  an order of the set's own, fixed as long as the set does not change.
 */
module ZRanges {
  import opened Bytes
  import opened Listings
  import opened Values
  import opened Ranges
  import opened ZSets

  datatype Bucket = Bucket(key: int, members: seq<bytes>)

  /** A member with the key of its score. */
  type Item = (bytes, int)

  /** `bs` is what iterating over the index yields. */
  ghost predicate Iterates(bs: seq<Bucket>, scores: map<int, set<bytes>>) {
    && (forall i, j | 0 <= i < j < |bs| :: bs[i].key < bs[j].key)
    && (forall b | b in bs :: b.key in scores && ListsSet(b.members, scores[b.key]))
    && (forall key | key in scores :: exists b | b in bs :: b.key == key)
  }

  function Items(b: Bucket): (items: seq<Item>)
    ensures |items| == |b.members|
    ensures forall i | 0 <= i < |items| :: items[i] == (b.members[i], b.key)
  {
    seq(|b.members|, i requires 0 <= i < |b.members| => (b.members[i], b.key))
  }

  /** All members in iteration order. */
  function Flat(bs: seq<Bucket>): (items: seq<Item>) {
    if bs == [] then [] else Flat(bs[..|bs| - 1]) + Items(bs[|bs| - 1])
  }

  lemma FlatSnoc(bs: seq<Bucket>, k: nat)
    requires k < |bs|
    ensures Flat(bs[..k + 1]) == Flat(bs[..k]) + Items(bs[k])
  {
    assert bs[..k + 1][..k] == bs[..k];
  }

  lemma {:induction false} FlatPrefix(bs: seq<Bucket>, k: nat)
    requires k <= |bs|
    ensures Flat(bs[..k]) <= Flat(bs)
    decreases |bs| - k
  {
    if k == |bs| {
      assert bs[..k] == bs;
    } else {
      FlatSnoc(bs, k);
      FlatPrefix(bs, k + 1);
    }
  }

  lemma FlatAt(bs: seq<Bucket>, k: nat, n: nat)
    requires k < |bs| && n < |bs[k].members|
    ensures |Flat(bs[..k])| + n < |Flat(bs)|
    ensures Flat(bs)[|Flat(bs[..k])| + n] == (bs[k].members[n], bs[k].key)
  {
    hide Flat;
    FlatSnoc(bs, k);
    FlatPrefix(bs, k + 1);
  }

  // ----- the iteration lists the set, in score order -----

  function KeyMap(members: map<bytes, Score>): (keys: map<bytes, int>) {
    map m | m in members :: ScoreKey(members[m])
  }

  lemma {:induction false} FlatContents(bs: seq<Bucket>, item: Item)
    ensures item in Flat(bs) <==> exists b | b in bs :: item.0 in b.members && item.1 == b.key
  {
    if bs != [] {
      var n := |bs| - 1;
      FlatContents(bs[..n], item);
      assert item in Items(bs[n]) <==> item.0 in bs[n].members && item.1 == bs[n].key by {
        if item.0 in bs[n].members && item.1 == bs[n].key {
          var i :| 0 <= i < |bs[n].members| && bs[n].members[i] == item.0;
          assert Items(bs[n])[i] == item;
        }
      }
      assert forall b :: b in bs <==> b in bs[..n] || b == bs[n];
    }
  }

  ghost predicate Ascending(items: seq<Item>) {
    forall i, j | 0 <= i < j < |items| :: items[i].1 <= items[j].1
  }

  lemma {:induction false} FlatOrdered(bs: seq<Bucket>)
    requires forall i, j | 0 <= i < j < |bs| :: bs[i].key < bs[j].key
    requires forall b | b in bs :: Distinct(b.members)
    requires forall b, c, m | b in bs && c in bs && m in b.members && m in c.members :: b.key == c.key
    ensures Ascending(Flat(bs)) && DistinctKeys(Flat(bs))
  {
    if bs != [] {
      var n := |bs| - 1;
      FlatOrdered(bs[..n]);
      forall item | item in Flat(bs[..n])
        ensures item.1 < bs[n].key && item.0 !in bs[n].members
      {
        FlatContents(bs[..n], item);
        var b :| b in bs[..n] && item.0 in b.members && item.1 == b.key;
        assert b in bs && b.key < bs[n].key;
      }
    }
  }

  /** The bucket a member is found in when the index is iterated over. */
  lemma HomeBucket(z: Value, bs: seq<Bucket>, member: bytes) returns (home: nat)
    requires InSync(z) && Iterates(bs, z.scores) && member in z.members
    ensures home < |bs| && bs[home].key == ScoreKey(z.members[member])
    ensures member in bs[home].members
    ensures forall i | 0 <= i < home :: bs[i].key < bs[home].key
  {
    var key := ScoreKey(z.members[member]);
    var b :| b in bs && b.key == key;
    home :| 0 <= home < |bs| && bs[home] == b;
    assert member in z.scores[key];
  }

  lemma BucketMember(z: Value, bs: seq<Bucket>, b: Bucket, m: bytes)
    requires InSync(z) && Iterates(bs, z.scores) && b in bs && m in b.members
    ensures m in z.members && ScoreKey(z.members[m]) == b.key
  {
    assert m in z.scores[b.key];
  }

  lemma FlatOrderedOf(z: Value, bs: seq<Bucket>)
    requires InSync(z) && Iterates(bs, z.scores)
    ensures Ascending(Flat(bs)) && DistinctKeys(Flat(bs))
  {
    hide Indexes, Ascending, DistinctKeys, Flat;
    forall b, c, m | b in bs && c in bs && m in b.members && m in c.members ensures b.key == c.key {
      BucketMember(z, bs, b, m);
      BucketMember(z, bs, c, m);
    }
    FlatOrdered(bs);
  }

  /** Iterating over the index of a well-kept sorted set yields each member exactly
      once with its score, in ascending score order. */
  lemma FlatLists(z: Value, bs: seq<Bucket>)
    requires InSync(z) && Iterates(bs, z.scores)
    ensures ListsMap(Flat(bs), KeyMap(z.members)) && Ascending(Flat(bs))
  {
    hide Indexes, Iterates, Ascending, DistinctKeys, Flat;
    FlatOrderedOf(z, bs);
    forall item | item in Flat(bs) ensures item.0 in z.members && ScoreKey(z.members[item.0]) == item.1 {
      FlatContents(bs, item);
      var b :| b in bs && item.0 in b.members && item.1 == b.key;
      BucketMember(z, bs, b, item.0);
    }
    forall m | m in z.members ensures (m, ScoreKey(z.members[m])) in Flat(bs) {
      var home := HomeBucket(z, bs, m);
      FlatContents(bs, (m, ScoreKey(z.members[m])));
      assert bs[home] in bs;
    }
  }

  // ----- rank -----

  /** How many members a bucket yields before `member`. */
  function Before(members: seq<bytes>, member: bytes): (n: nat)
    ensures n <= |members|
    ensures member in members ==> n < |members| && members[n] == member
  {
    if members == [] || members[0] == member then 0 else 1 + Before(members[1..], member)
  }

  lemma IsZSet(z: Value)
    requires InSync(z)
    ensures z.ZSet?
  {
  }

  lemma FlatNothing(bs: seq<Bucket>)
    ensures Flat(bs[..0]) == []
  {
  }

  /** ZRANK: the position of a member in iteration order. */
  method ZRank(z: Value, bs: seq<Bucket>, member: bytes) returns (rank: Option<nat>)
    requires InSync(z) && Iterates(bs, z.scores)
    ensures rank.Some? <==> member in z.members
    ensures rank.Some? ==> rank.value < |Flat(bs)| && Flat(bs)[rank.value].0 == member
  {
    hide Flat, InSync, Iterates, ScoreKey;
    IsZSet(z);
    FlatNothing(bs);
    rank := None;
    if member !in z.members { return; }
    var target := ScoreKey(z.members[member]);
    ghost var home := HomeBucket(z, bs, member);
    var r := 0;
    for k := 0 to |bs|
      invariant k <= home
      invariant r == |Flat(bs[..k])|
    {
      FlatSnoc(bs, k);
      if bs[k].key < target {
        r := r + |bs[k].members|;
      } else if bs[k].key == target {
        var n := Before(bs[k].members, member);
        FlatAt(bs, k, n);
        return Some(r + n);
      }
    }
    assert false;
  }

  // ----- range by score -----

  /** A score interval; either end may be excluded. */
  datatype Interval = Interval(min: int, minExclusive: bool, max: int, maxExclusive: bool) {
    predicate Contains(key: int) {
      min <= key <= max && !(minExclusive && key == min) && !(maxExclusive && key == max)
    }
  }

  function Within(items: seq<Item>, iv: Interval): (r: seq<Item>) {
    if items == [] then []
    else
      var last := items[|items| - 1];
      Within(items[..|items| - 1], iv) + (if iv.Contains(last.1) then [last] else [])
  }

  lemma {:induction false} WithinAppend(a: seq<Item>, b: seq<Item>, iv: Interval)
    ensures Within(a + b, iv) == Within(a, iv) + Within(b, iv)
  {
    if b == [] {
      assert a + b == a;
    } else {
      var n := |b| - 1;
      assert (a + b)[..|a + b| - 1] == a + b[..n];
      WithinAppend(a, b[..n], iv);
    }
  }

  lemma {:induction false} WithinBucket(items: seq<Item>, iv: Interval, key: int)
    requires forall item | item in items :: item.1 == key
    ensures Within(items, iv) == if iv.Contains(key) then items else []
  {
    if items != [] {
      WithinBucket(items[..|items| - 1], iv, key);
    }
  }

  /** The elements from `offset` on, at most `count` of them. */
  function Slice(items: seq<Item>, offset: nat, count: Option<nat>): (r: seq<Item>) {
    var tail := if offset <= |items| then items[offset..] else [];
    if count.Some? && count.value < |tail| then tail[..count.value] else tail
  }

  /** Element by element: the slice starts at `offset` and ends after `count` elements or
      with the sequence. */
  lemma SliceExactly(items: seq<Item>, offset: nat, count: Option<nat>)
    ensures var r, left := Slice(items, offset, count), (if offset < |items| then |items| - offset else 0);
            && |r| == (if count.Some? && count.value < left then count.value else left)
            && forall i | 0 <= i < |r| :: r[i] == items[offset + i]
  {
  }

  predicate Full(items: seq<Item>, count: Option<nat>) {
    count.Some? && |items| >= count.value
  }

  lemma SliceFull(a: seq<Item>, b: seq<Item>, offset: nat, count: Option<nat>)
    requires Full(Slice(a, offset, count), count)
    ensures Slice(a + b, offset, count) == Slice(a, offset, count)
  {
    if offset <= |a| {
      assert (a + b)[offset..] == a[offset..] + b;
    }
  }

  lemma SliceSnoc(a: seq<Item>, x: Item, offset: nat, count: Option<nat>)
    ensures Slice(a + [x], offset, count)
         == if |a| < offset || Full(Slice(a, offset, count), count) then Slice(a, offset, count)
            else Slice(a, offset, count) + [x]
  {
    if offset <= |a| {
      assert (a + [x])[offset..] == a[offset..] + [x];
    } else if offset == |a| + 1 {
      assert (a + [x])[offset..] == [];
    }
  }

  /** The inner loop: skip up to the offset, then take up to the count. */
  method TakeBucket(b: Bucket, offset: nat, count: Option<nat>, ghost done: seq<Item>, soFar: seq<Item>, skippedSoFar: nat)
    returns (result: seq<Item>, skipped: nat)
    requires soFar == Slice(done, offset, count) && skippedSoFar == Least(|done|, offset)
    ensures result == Slice(done + Items(b), offset, count)
    ensures skipped == Least(|done + Items(b)|, offset)
  {
    hide Slice, Full, Items;
    ghost var items := Items(b);
    assert done + items[..0] == done;
    result, skipped := soFar, skippedSoFar;
    for i := 0 to |b.members|
      invariant result == Slice(done + items[..i], offset, count)
      invariant skipped == Least(|done| + i, offset)
    {
      ghost var seen := done + items[..i];
      assert done + items[..i + 1] == seen + [items[i]];
      SliceSnoc(seen, items[i], offset, count);
      if skipped < offset {
        skipped := skipped + 1;
      } else if Full(result, count) {
        assert seen + items[i..] == done + items;
        SliceFull(seen, items[i..], offset, count);
        return;
      } else {
        result := result + [(b.members[i], b.key)];
      }
    }
    assert items[..|b.members|] == items;
  }

  /** ZRANGEBYSCORE with an optional LIMIT. An interval whose minimum exceeds its
      maximum makes the tree map's range panic, so callers must not pass one. */
  method ZRangeByScore(bs: seq<Bucket>, iv: Interval, offset: nat, count: Option<nat>) returns (result: seq<Item>)
    requires iv.min <= iv.max
    ensures result == Slice(Within(Flat(bs), iv), offset, count)
  {
    assert Within(Flat(bs[..0]), iv) == [] && Slice([], offset, count) == [];
    hide Flat, Within, Slice;
    result := [];
    var skipped := 0;
    for k := 0 to |bs|
      invariant result == Slice(Within(Flat(bs[..k]), iv), offset, count)
      invariant skipped == Least(|Within(Flat(bs[..k]), iv)|, offset)
    {
      WithinStep(bs, k, iv);
      if !(iv.min <= bs[k].key <= iv.max)
         || (iv.minExclusive && bs[k].key == iv.min)
         || (iv.maxExclusive && bs[k].key == iv.max) {
        continue;
      }
      result, skipped := TakeBucket(bs[k], offset, count, Within(Flat(bs[..k]), iv), result, skipped);
      if Full(result, count) {
        StopEarly(bs, k + 1, iv, offset, count);
        return;
      }
    }
    assert bs[..|bs|] == bs;
  }

  lemma WithinStep(bs: seq<Bucket>, k: nat, iv: Interval)
    requires k < |bs|
    ensures Within(Flat(bs[..k + 1]), iv)
         == if iv.Contains(bs[k].key) then Within(Flat(bs[..k]), iv) + Items(bs[k]) else Within(Flat(bs[..k]), iv)
  {
    hide Flat, Within;
    FlatSnoc(bs, k);
    WithinAppend(Flat(bs[..k]), Items(bs[k]), iv);
    WithinBucket(Items(bs[k]), iv, bs[k].key);
  }

  /** Once the limit is reached, later buckets add nothing. */
  lemma StopEarly(bs: seq<Bucket>, k: nat, iv: Interval, offset: nat, count: Option<nat>)
    requires k <= |bs|
    requires Full(Slice(Within(Flat(bs[..k]), iv), offset, count), count)
    ensures Slice(Within(Flat(bs), iv), offset, count) == Slice(Within(Flat(bs[..k]), iv), offset, count)
  {
    hide Flat, Within;
    FlatPrefix(bs, k);
    var early := Flat(bs[..k]);
    var later := Flat(bs)[|early|..];
    assert Flat(bs) == early + later;
    WithinAppend(early, later, iv);
    SliceFull(Within(early, iv), Within(later, iv), offset, count);
  }

  // ----- range by position, and count -----

  const ALL_FINITE: Interval := Interval(-INFINITY, true, INFINITY, true)

  /** ZRANGE: an index range of everything with a finite score. */
  method ZRange(bs: seq<Bucket>, start: int, stop: int) returns (result: seq<Item>)
    ensures result == Range(Within(Flat(bs), ALL_FINITE), start, stop)
  {
    var all := ZRangeByScore(bs, ALL_FINITE, 0, None);
    result := Range(all, start, stop);
  }

  /** ZCOUNT's test of one score: above the minimum and below the maximum, with or without them. */
  predicate Counted(iv: Interval, key: int) {
    && (if iv.minExclusive then key > iv.min else key >= iv.min)
    && (if iv.maxExclusive then key < iv.max else key <= iv.max)
  }

  /** The two tests agree. */
  lemma CountedContains(iv: Interval, key: int)
    ensures Counted(iv, key) <==> iv.Contains(key)
  {
  }

  /** ZCOUNT: it counts over the member map, not over the index. */
  function ZCount(members: map<bytes, Score>, iv: Interval): (n: nat) {
    |set m | m in members && Counted(iv, ScoreKey(members[m]))|
  }

  lemma {:induction false} WithinContents(items: seq<Item>, iv: Interval)
    requires DistinctKeys(items)
    ensures forall item :: item in Within(items, iv) <==> item in items && iv.Contains(item.1)
    ensures DistinctKeys(Within(items, iv))
  {
    if items != [] {
      var n := |items| - 1;
      WithinContents(items[..n], iv);
      assert forall item :: item in items <==> item in items[..n] || item == items[n];
    }
  }

  /** The count over the members equals the length of the unlimited range over the index. */
  lemma CountIsRangeLength(z: Value, bs: seq<Bucket>, iv: Interval)
    requires InSync(z) && Iterates(bs, z.scores)
    ensures ZCount(z.members, iv) == |Slice(Within(Flat(bs), iv), 0, None)|
  {
    hide Flat, Within, Indexes, Iterates, Ascending;
    FlatLists(z, bs);
    WithinContents(Flat(bs), iv);
    var chosen := map m | m in z.members && iv.Contains(ScoreKey(z.members[m])) :: ScoreKey(z.members[m]);
    var r := Within(Flat(bs), iv);
    assert ListsMap(r, chosen) by {
      forall m | m in chosen ensures (m, chosen[m]) in r {
        assert (m, KeyMap(z.members)[m]) in Flat(bs);
      }
    }
    MapOfListing(r, chosen);
    forall m | m in z.members ensures Counted(iv, ScoreKey(z.members[m])) <==> iv.Contains(ScoreKey(z.members[m])) {
      CountedContains(iv, ScoreKey(z.members[m]));
    }
    assert chosen.Keys == set m | m in z.members && Counted(iv, ScoreKey(z.members[m]));
    assert |chosen| == |chosen.Keys|;
  }

  /** What ZRANGE 0 -1 reports: every member with a finite score. */
  function FullRange(bs: seq<Bucket>): (r: seq<Item>) {
    Range(Within(Flat(bs), ALL_FINITE), 0, -1)
  }

  lemma RangeOfAll<T>(xs: seq<T>)
    ensures Range(xs, 0, -1) == xs
  {
  }

  /** Scores below the finite ones come before `low`, those above from `high` on. */
  ghost predicate Stretch(items: seq<Item>, low: nat, high: nat) {
    && low <= high <= |items|
    && (forall i | 0 <= i < low :: items[i].1 <= -INFINITY)
    && (forall i | low <= i < high :: IsFinite(items[i].1))
    && (forall i | high <= i < |items| :: items[i].1 >= INFINITY)
  }

  lemma WithinSnoc(items: seq<Item>, last: Item)
    ensures Within(items + [last], ALL_FINITE) == Within(items, ALL_FINITE) + if IsFinite(last.1) then [last] else []
  {
    assert (items + [last])[..|items|] == items;
  }

  lemma StretchSnoc(items: seq<Item>, last: Item, low: nat, high: nat) returns (low': nat, high': nat)
    requires Ascending(items + [last]) && Stretch(items, low, high)
    ensures Stretch(items + [last], low', high')
    ensures (items + [last])[low'..high'] == items[low..high] + if IsFinite(last.1) then [last] else []
  {
    var n, all := |items|, items + [last];
    assert forall i | 0 <= i < n :: all[i] == items[i] && all[i].1 <= all[n].1;
    assert (low < n ==> items[low].1 <= last.1) && (high < n ==> items[high].1 <= last.1);
    low', high' := low, high;
    if last.1 <= -INFINITY {
      assert low == n && items[low..high] == [] && all[n + 1..n + 1] == [];
      low', high' := n + 1, n + 1;
    } else if last.1 < INFINITY {
      assert high == n && all[low..n + 1] == items[low..n] + [last];
      high' := n + 1;
    } else {
      assert all[low..high] == items[low..high];
    }
  }

  /** In ascending order the finite scores are one stretch. */
  lemma {:induction false} FiniteStretch(items: seq<Item>) returns (low: nat, high: nat)
    requires Ascending(items)
    ensures Stretch(items, low, high) && Within(items, ALL_FINITE) == items[low..high]
  {
    low, high := 0, 0;
    if items != [] {
      var n := |items| - 1;
      assert items == items[..n] + [items[n]];
      low, high := FiniteStretch(items[..n]);
      hide Within, Stretch, Ascending;
      WithinSnoc(items[..n], items[n]);
      low, high := StretchSnoc(items[..n], items[n], low, high);
    }
  }

  /** For a member with a finite score, the full range holds it at its rank if and only
      if no member scores minus infinity; one with an infinite score it never holds. */
  lemma RankInRange(z: Value, bs: seq<Bucket>, rank: nat)
    requires InSync(z) && Iterates(bs, z.scores) && rank < |Flat(bs)|
    ensures var member, full := Flat(bs)[rank].0, FullRange(bs);
            && member in z.members
            && ((rank < |full| && full[rank].0 == member)
                <==> IsFinite(ScoreKey(z.members[member]))
                     && forall m | m in z.members :: ScoreKey(z.members[m]) > -INFINITY)
  {
    hide Flat, Within, InSync, Iterates, Range, ScoreKey, Ascending;
    IsZSet(z);
    var flat := Flat(bs);
    FlatLists(z, bs);
    RangeOfAll(Within(flat, ALL_FINITE));
    var low, high := FiniteStretch(flat);
    if low == 0 {
      forall m | m in z.members ensures ScoreKey(z.members[m]) > -INFINITY {
        var item := (m, KeyMap(z.members)[m]);
        assert item in flat;
        var i :| 0 <= i < |flat| && flat[i] == item;
      }
    } else {
      assert flat[0] in flat && ScoreKey(z.members[flat[0].0]) == flat[0].1;
      assert rank < high - low ==> flat[low..high][rank] == flat[low + rank];
    }
    assert flat[rank] in flat;
  }

  /** Rank and range agree on every member if and only if every score is finite: ZRANGE
      leaves members with an infinite score out, ZRANK counts them. */
  lemma RankAgreesWithRange(z: Value, bs: seq<Bucket>)
    requires InSync(z) && Iterates(bs, z.scores)
    ensures (forall rank: nat | rank < |Flat(bs)| :: rank < |FullRange(bs)| && FullRange(bs)[rank].0 == Flat(bs)[rank].0)
            <==> (forall m | m in z.members :: IsFinite(ScoreKey(z.members[m])))
  {
    hide Flat, FullRange, InSync, Iterates, ScoreKey, Ascending, DistinctKeys;
    IsZSet(z);
    var flat := Flat(bs);
    FlatLists(z, bs);
    var full := FullRange(bs);
    if forall m | m in z.members :: IsFinite(ScoreKey(z.members[m])) {
      forall rank: nat | rank < |flat| ensures rank < |full| && full[rank].0 == flat[rank].0 {
        RankInRange(z, bs, rank);
        assert forall m | m in z.members :: IsFinite(ScoreKey(z.members[m])) && ScoreKey(z.members[m]) > -INFINITY;
      }
    } else {
      var m :| m in z.members && !IsFinite(ScoreKey(z.members[m]));
      assert (m, KeyMap(z.members)[m]) in flat;
      var rank: nat :| rank < |flat| && flat[rank] == (m, KeyMap(z.members)[m]);
      RankInRange(z, bs, rank);
    }
  }
}
