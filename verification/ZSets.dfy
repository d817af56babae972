/**
  Sorted sets: a member map and a score index kept in step, and the ordered reads
  over the index (rank, range by score with LIMIT, range by position, count).
 */
module ZSets {
  import opened Bytes
  import opened Listings
  import opened Values

  // ----- keeping the two structures in step -----

  /** Taking a member out of its bucket, and the bucket out of the index once it is empty. */
  function RemoveFromBucket(scores: map<int, set<bytes>>, key: int, member: bytes): (r: map<int, set<bytes>>) {
    if key !in scores then scores
    else if scores[key] - {member} == {} then scores - {key}
    else scores[key := scores[key] - {member}]
  }

  function AddToBucket(scores: map<int, set<bytes>>, key: int, member: bytes): (r: map<int, set<bytes>>) {
    scores[key := (if key in scores then scores[key] else {}) + {member}]
  }

  /** One pair of ZADD. */
  function Insert(z: Value, member: bytes, score: Score): (r: Value)
    requires z.ZSet?
    ensures r.ZSet? && r.members == z.members[member := score]
  {
    var cleared :=
      if member in z.members then RemoveFromBucket(z.scores, ScoreKey(z.members[member]), member) else z.scores;
    ZSet(z.members[member := score], AddToBucket(cleared, ScoreKey(score), member))
  }

  /** One member of ZREM. */
  function Remove(z: Value, member: bytes): (r: Value)
    requires z.ZSet?
    ensures r.ZSet? && r.members == z.members - {member}
  {
    if member !in z.members then z
    else ZSet(z.members - {member}, RemoveFromBucket(z.scores, ScoreKey(z.members[member]), member))
  }

  ghost predicate InSync(z: Value) {
    z.ZSet? && Indexes(z.scores, z.members)
  }

  lemma RemoveKeepsSync(z: Value, member: bytes)
    requires InSync(z)
    ensures InSync(Remove(z, member))
  {
  }

  lemma AddKeepsSync(z: Value, member: bytes, score: Score)
    requires InSync(z) && member !in z.members && !IsNaN(score)
    ensures InSync(ZSet(z.members[member := score], AddToBucket(z.scores, ScoreKey(score), member)))
  {
    forall key | key in z.scores ensures member !in z.scores[key] {
    }
  }

  /** A pair of ZADD keeps the index exact, whether the member is new or moves. */
  lemma InsertKeepsSync(z: Value, member: bytes, score: Score)
    requires InSync(z) && !IsNaN(score)
    ensures InSync(Insert(z, member, score))
  {
    RemoveKeepsSync(z, member);
    AddKeepsSync(Remove(z, member), member, score);
    assert (z.members - {member})[member := score] == z.members[member := score];
  }

  datatype Op = Zadd(member: bytes, score: Score) | Zrem(member: bytes)

  function Apply(z: Value, ops: seq<Op>): (r: Value)
    requires z.ZSet?
    ensures r.ZSet?
    decreases |ops|
  {
    if ops == [] then z
    else
      match ops[0]
      case Zadd(m, s) => Apply(Insert(z, m, s), ops[1..])
      case Zrem(m) => Apply(Remove(z, m), ops[1..])
  }

  /** A score the map of buckets can order. NaN it cannot: it takes NaN to equal any score. */
  predicate Orderable(op: Op) {
    op.Zadd? ==> !IsNaN(op.score)
  }

  /** Any sequence of insertions and removals keeps members and buckets in exact agreement. */
  lemma {:induction false} OpsKeepSync(z: Value, ops: seq<Op>)
    requires InSync(z) && forall op | op in ops :: Orderable(op)
    ensures InSync(Apply(z, ops))
    decreases |ops|
  {
    if ops != [] {
      assert Orderable(ops[0]);
      match ops[0]
      case Zadd(m, s) =>
        InsertKeepsSync(z, m, s);
        OpsKeepSync(Insert(z, m, s), ops[1..]);
      case Zrem(m) =>
        RemoveKeepsSync(z, m);
        OpsKeepSync(Remove(z, m), ops[1..]);
    }
  }

  function AddOps(items: seq<(Score, bytes)>): (ops: seq<Op>)
    ensures |ops| == |items|
    ensures forall i | 0 <= i < |items| :: ops[i] == Zadd(items[i].1, items[i].0)
  {
    seq(|items|, i requires 0 <= i < |items| => Zadd(items[i].1, items[i].0))
  }

  function RemoveOps(gone: seq<bytes>): (ops: seq<Op>)
    ensures |ops| == |gone|
    ensures forall i | 0 <= i < |gone| :: ops[i] == Zrem(gone[i])
  {
    seq(|gone|, i requires 0 <= i < |gone| => Zrem(gone[i]))
  }

  // ----- what they leave behind -----

  ghost predicate Names(items: seq<(Score, bytes)>, m: bytes) {
    exists i | 0 <= i < |items| :: items[i].1 == m
  }

  lemma AddStep(z: Value, items: seq<(Score, bytes)>)
    requires z.ZSet? && items != []
    ensures Apply(z, AddOps(items)) == Apply(Insert(z, items[0].1, items[0].0), AddOps(items[1..]))
    ensures Insert(z, items[0].1, items[0].0).members == z.members[items[0].1 := items[0].0]
    ensures forall m :: Names(items, m) <==> items[0].1 == m || Names(items[1..], m)
  {
    assert AddOps(items)[1..] == AddOps(items[1..]);
    forall m ensures Names(items, m) <==> items[0].1 == m || Names(items[1..], m) {
      if Names(items, m) {
        var i :| 0 <= i < |items| && items[i].1 == m;
        assert i > 0 ==> items[1..][i - 1] == items[i];
      }
      if Names(items[1..], m) {
        var i :| 0 <= i < |items[1..]| && items[1..][i].1 == m;
        assert items[i + 1].1 == m;
      }
    }
  }

  lemma {:induction false} AddsKeys(z: Value, items: seq<(Score, bytes)>, m: bytes)
    requires z.ZSet?
    ensures m in Apply(z, AddOps(items)).members <==> m in z.members || Names(items, m)
    ensures m in z.members && !Names(items, m) ==> Apply(z, AddOps(items)).members[m] == z.members[m]
    decreases |items|
  {
    if items != [] {
      AddStep(z, items);
      hide Apply, AddOps, Insert, Names;
      AddsKeys(Insert(z, items[0].1, items[0].0), items[1..], m);
    }
  }

  lemma {:induction false} AddsLast(z: Value, items: seq<(Score, bytes)>, i: nat)
    requires z.ZSet? && i < |items| && forall j | i < j < |items| :: items[j].1 != items[i].1
    ensures var r := Apply(z, AddOps(items)); items[i].1 in r.members && r.members[items[i].1] == items[i].0
    decreases |items|
  {
    AddStep(z, items);
    var z', tail := Insert(z, items[0].1, items[0].0), items[1..];
    if i == 0 {
      assert !Names(tail, items[0].1);
      AddsKeys(z', tail, items[0].1);
    } else {
      assert forall j | i - 1 < j < |tail| :: tail[j] == items[j + 1];
      hide Apply, AddOps, Insert;
      AddsLast(z', tail, i - 1);
    }
  }

  /** ZADD: the members named are there besides the old ones, each with the score of its
      last pair; every other score stays. */
  lemma AddsExactly(z: Value, items: seq<(Score, bytes)>)
    requires z.ZSet?
    ensures var r := Apply(z, AddOps(items));
            && r.members.Keys == z.members.Keys + (set i | 0 <= i < |items| :: items[i].1)
            && (forall i | 0 <= i < |items| && (forall j | i < j < |items| :: items[j].1 != items[i].1) ::
                  r.members[items[i].1] == items[i].0)
            && (forall m | m in z.members && (forall i | 0 <= i < |items| :: items[i].1 != m) :: r.members[m] == z.members[m])
  {
    hide Apply, AddOps;
    var r := Apply(z, AddOps(items));
    forall m ensures m in r.members <==> m in z.members.Keys + (set i | 0 <= i < |items| :: items[i].1) {
      AddsKeys(z, items, m);
    }
    forall i | 0 <= i < |items| && (forall j | i < j < |items| :: items[j].1 != items[i].1)
      ensures r.members[items[i].1] == items[i].0
    {
      AddsLast(z, items, i);
    }
    forall m | m in z.members && (forall i | 0 <= i < |items| :: items[i].1 != m) ensures r.members[m] == z.members[m] {
      AddsKeys(z, items, m);
    }
  }

  /** ZREM: exactly the members named are gone. */
  lemma {:induction false} RemovesExactly(z: Value, gone: seq<bytes>)
    requires z.ZSet?
    ensures Apply(z, RemoveOps(gone)).members == z.members - (set m | m in gone)
    decreases |gone|
  {
    if gone != [] {
      assert RemoveOps(gone)[1..] == RemoveOps(gone[1..]);
      RemovesExactly(Remove(z, gone[0]), gone[1..]);
      assert (set m | m in gone) == {gone[0]} + (set m | m in gone[1..]);
    }
  }

  class SortedSet {
    var members: map<bytes, Score>
    var scores: map<int, set<bytes>>

    ghost function View(): (z: Value)
      reads this
    {
      ZSet(members, scores)
    }

    constructor ()
      ensures View() == ZSet(map[], map[])
    {
      members, scores := map[], map[];
    }

    /** ZADD: the number of members that were new. */
    method Zadd(items: seq<(Score, bytes)>) returns (added: nat)
      requires forall i | 0 <= i < |items| :: !IsNaN(items[i].0)
      modifies this
      ensures View() == Apply(old(View()), AddOps(items))
      ensures members.Keys == old(members).Keys + (set i | 0 <= i < |items| :: items[i].1)
      ensures forall i | 0 <= i < |items| && (forall j | i < j < |items| :: items[j].1 != items[i].1) ::
                members[items[i].1] == items[i].0
      ensures forall m | m in old(members) && (forall i | 0 <= i < |items| :: items[i].1 != m) ::
                members[m] == old(members)[m]
      ensures Indexes(old(scores), old(members)) ==> Indexes(scores, members)
      ensures added == |members| - |old(members)|
    {
      hide Indexes, Apply, AddOps, RemoveFromBucket, AddToBucket, ScoreKey;
      ghost var ops, start := AddOps(items), View();
      added := 0;
      for k := 0 to |items|
        invariant Apply(View(), ops[k..]) == Apply(old(View()), ops)
        invariant added == |members| - |old(members)|
      {
        var (score, member) := items[k];
        ghost var before := View();
        ApplyTurn(before, ops, k);
        SizeAfterInsert(members, member, score);
        if member in members {
          scores := RemoveFromBucket(scores, ScoreKey(members[member]), member);
        } else {
          added := added + 1;
        }
        members := members[member := score];
        scores := AddToBucket(scores, ScoreKey(score), member);
        assert View() == Insert(before, member, score);
      }
      ApplyNothing(View(), ops);
      AddsExactly(start, items);
      if Indexes(start.scores, start.members) {
        OpsKeepSync(start, ops);
      }
    }

    /** ZREM: the number of members that were present. */
    method Zrem(gone: seq<bytes>) returns (removed: nat)
      modifies this
      ensures View() == Apply(old(View()), RemoveOps(gone))
      ensures members == old(members) - (set m | m in gone)
      ensures Indexes(old(scores), old(members)) ==> Indexes(scores, members)
      ensures removed == |old(members)| - |members|
    {
      hide Indexes, Apply, RemoveOps, RemoveFromBucket, ScoreKey;
      ghost var ops, start := RemoveOps(gone), View();
      removed := 0;
      for k := 0 to |gone|
        invariant Apply(View(), ops[k..]) == Apply(old(View()), ops)
        invariant removed == |old(members)| - |members|
      {
        ghost var before := View();
        ApplyTurn(before, ops, k);
        if gone[k] in members {
          SizeAfterRemove(members, gone[k]);
          scores := RemoveFromBucket(scores, ScoreKey(members[gone[k]]), gone[k]);
          members := members - {gone[k]};
          removed := removed + 1;
        }
        assert View() == Remove(before, gone[k]);
      }
      ApplyNothing(View(), ops);
      RemovesExactly(start, gone);
      if Indexes(start.scores, start.members) {
        OpsKeepSync(start, ops);
      }
    }
  }

  lemma ApplyTurn(z: Value, ops: seq<Op>, k: nat)
    requires z.ZSet? && k < |ops|
    ensures Apply(z, ops[k..])
         == Apply(if ops[k].Zadd? then Insert(z, ops[k].member, ops[k].score) else Remove(z, ops[k].member), ops[k + 1..])
  {
    assert ops[k..][1..] == ops[k + 1..];
  }

  lemma ApplyNothing(z: Value, ops: seq<Op>)
    requires z.ZSet?
    ensures Apply(z, ops[|ops|..]) == z
  {
  }

  lemma SizeAfterInsert(m: map<bytes, Score>, k: bytes, v: Score)
    ensures |m[k := v]| == if k in m then |m| else |m| + 1
  {
    assert m[k := v].Keys == m.Keys + {k};
    assert |m[k := v].Keys| == |m[k := v]| && |m.Keys| == |m|;
  }

  lemma SizeAfterRemove(m: map<bytes, Score>, k: bytes)
    requires k in m
    ensures |m - {k}| == |m| - 1
  {
    assert (m - {k}).Keys == m.Keys - {k};
    assert |(m - {k}).Keys| == |m - {k}| && |m.Keys| == |m|;
  }
}
