/**
  The databases as the background tasks see them: eviction down to a memory limit, and
  the sampling cycle that removes expired keys.
 */
module Keyspace {
  import opened Bytes
  import opened Values

  datatype Policy = NoEviction | AllKeysRandom | VolatileRandom

  // ----- sizes -----

  /** Key, value and a fixed overhead; `valueSize` stands for the value's own estimate. */
  function EntrySize(key: bytes, e: Entry, valueSize: Value -> nat): (n: nat) {
    |key| + valueSize(e.value) + 64
  }

  /** The full-scan estimate of one database, in whatever order it is scanned. */
  ghost function Total(db: Db, valueSize: Value -> nat): (n: nat)
    decreases |db|
  {
    if db == map[] then 0
    else
      var k :| k in db;
      SizeWithout(db, k);
      EntrySize(k, db[k], valueSize) + Total(db - {k}, valueSize)
  }

  lemma SizeWithout(db: Db, k: bytes)
    requires k in db
    ensures |db - {k}| == |db| - 1
  {
    assert (db - {k}).Keys == db.Keys - {k};
    assert |(db - {k}).Keys| == |db - {k}| && |db.Keys| == |db|;
  }

  /** Removing any key takes exactly its size off the estimate. */
  lemma {:induction false} TotalWithout(db: Db, k: bytes, valueSize: Value -> nat)
    requires k in db
    ensures Total(db, valueSize) == EntrySize(k, db[k], valueSize) + Total(db - {k}, valueSize)
    ensures Total(db, valueSize) == |k| + valueSize(db[k].value) + 64 + Total(db - {k}, valueSize)
    decreases |db|
  {
    var first :| first in db && Total(db, valueSize) == EntrySize(first, db[first], valueSize) + Total(db - {first}, valueSize);
    if first != k {
      SizeWithout(db, first);
      TotalWithout(db - {first}, k, valueSize);
      SizeWithout(db, k);
      TotalWithout(db - {k}, first, valueSize);
      assert db - {first} - {k} == db - {k} - {first};
    }
  }

  function SaturatingSub(a: nat, b: nat): (n: nat) {
    if a < b then 0 else a - b
  }

  ghost function TotalAll(dbs: seq<Db>, valueSize: Value -> nat): (n: nat) {
    if dbs == [] then 0 else Total(dbs[0], valueSize) + TotalAll(dbs[1..], valueSize)
  }

  function CountAll(dbs: seq<Db>): (n: nat) {
    if dbs == [] then 0 else |dbs[0]| + CountAll(dbs[1..])
  }

  lemma {:induction false} TotalAllUpdate(dbs: seq<Db>, i: nat, db: Db, valueSize: Value -> nat)
    requires i < |dbs|
    ensures TotalAll(dbs[i := db], valueSize) + Total(dbs[i], valueSize) == TotalAll(dbs, valueSize) + Total(db, valueSize)
    ensures CountAll(dbs[i := db]) + |dbs[i]| == CountAll(dbs) + |db|
  {
    if i == 0 {
      assert dbs[i := db][1..] == dbs[1..];
    } else {
      assert dbs[i := db][1..] == dbs[1..][i - 1 := db];
      TotalAllUpdate(dbs[1..], i - 1, db, valueSize);
    }
  }

  /** Evicting a key from one database. */
  lemma EvictOne(dbs: seq<Db>, i: nat, k: bytes, valueSize: Value -> nat)
    requires i < |dbs| && k in dbs[i]
    ensures var after := dbs[i := dbs[i] - {k}];
            && TotalAll(after, valueSize) == TotalAll(dbs, valueSize) - EntrySize(k, dbs[i][k], valueSize)
            && CountAll(after) == CountAll(dbs) - 1
  {
    TotalAllUpdate(dbs, i, dbs[i] - {k}, valueSize);
    TotalWithout(dbs[i], k, valueSize);
    SizeWithout(dbs[i], k);
  }

  /** The keys a policy may evict. */
  predicate Candidate(db: Db, k: bytes, policy: Policy) {
    k in db && (policy == VolatileRandom ==> db[k].expireAt.Some?)
  }

  /** Every database keeps a part of what it had, entries unchanged. */
  ghost predicate Reduced(dbs: seq<Db>, before: seq<Db>) {
    |dbs| == |before| &&
    forall i | 0 <= i < |dbs| :: forall k | k in dbs[i] :: k in before[i] && dbs[i][k] == before[i][k]
  }

  lemma ReducedLength(dbs: seq<Db>, before: seq<Db>)
    requires Reduced(dbs, before)
    ensures |dbs| == |before|
  {
  }

  /** Keys the policy may not evict are all still there. */
  ghost predicate Spared(dbs: seq<Db>, before: seq<Db>, policy: Policy)
    requires |dbs| == |before|
  {
    forall i | 0 <= i < |dbs| :: forall k | k in before[i] && !Candidate(before[i], k, policy) :: k in dbs[i]
  }

  /** Some evicted key alone would have kept the estimate over the target. */
  ghost predicate LastNeeded(dbs: seq<Db>, before: seq<Db>, target: nat, valueSize: Value -> nat)
    requires |dbs| == |before|
  {
    exists i | 0 <= i < |dbs| :: exists k | k in before[i] ::
      k !in dbs[i] && TotalAll(dbs, valueSize) + EntrySize(k, before[i][k], valueSize) > target
  }

  lemma NothingEvicted(dbs: seq<Db>, policy: Policy)
    ensures Reduced(dbs, dbs) && Spared(dbs, dbs, policy)
  {
  }

  /** What having spared and run out of candidates means under each policy. */
  lemma PolicyMeans(dbs: seq<Db>, before: seq<Db>, policy: Policy)
    requires Reduced(dbs, before) && Spared(dbs, before, policy)
    ensures policy == AllKeysRandom ==>
              ((forall i, k | 0 <= i < |dbs| :: !Candidate(dbs[i], k, policy)) <==> forall i | 0 <= i < |dbs| :: dbs[i] == map[])
    ensures policy == VolatileRandom ==>
              && ((forall i, k | 0 <= i < |dbs| :: !Candidate(dbs[i], k, policy))
                  <==> forall i, k | 0 <= i < |dbs| && k in dbs[i] :: dbs[i][k].expireAt == None)
              && forall i, k | 0 <= i < |dbs| && k in before[i] && before[i][k].expireAt == None ::
                   k in dbs[i] && dbs[i][k] == before[i][k]
  {
    if policy == AllKeysRandom && forall i, k | 0 <= i < |dbs| :: !Candidate(dbs[i], k, policy) {
      forall i | 0 <= i < |dbs| ensures dbs[i] == map[] {
        forall k ensures k !in dbs[i] {
          assert !Candidate(dbs[i], k, policy);
        }
      }
    }
    forall i, k | 0 <= i < |dbs| && k in before[i] && before[i][k].expireAt == None && policy == VolatileRandom
      ensures k in dbs[i] && dbs[i][k] == before[i][k]
    {
      assert !Candidate(before[i], k, policy);
    }
    if policy == VolatileRandom && forall i, k | 0 <= i < |dbs| :: !Candidate(dbs[i], k, policy) {
      forall i, k | 0 <= i < |dbs| && k in dbs[i] ensures dbs[i][k].expireAt == None {
        assert !Candidate(dbs[i], k, policy);
      }
    }
  }

  /** Evicting a candidate while over the target keeps everything eviction promises. */
  lemma EvictionStep(
    dbs: seq<Db>, start: seq<Db>, i: nat, k: bytes, policy: Policy, target: nat, valueSize: Value -> nat)
    requires Reduced(dbs, start) && Spared(dbs, start, policy)
    requires i < |dbs| && Candidate(dbs[i], k, policy) && TotalAll(dbs, valueSize) > target
    ensures var after := dbs[i := dbs[i] - {k}];
            Reduced(after, start) && Spared(after, start, policy) && LastNeeded(after, start, target, valueSize)
  {
    hide TotalAll;
    EvictOne(dbs, i, k, valueSize);
    var after := dbs[i := dbs[i] - {k}];
    assert dbs[i][k] == start[i][k] && k in start[i] && k !in after[i];
  }

  // ----- reads past an expiry cycle -----

  /** Removing nothing but expired keys changes no read, then or later. */
  lemma ExpiredInvisible(db: Db, r: Db, now: nat)
    requires forall k | k in r :: k in db && r[k] == db[k]
    requires forall k | k in db && k !in r :: Expired(db[k], now)
    ensures forall k, later | now <= later :: Lookup(r, k, later) == Lookup(db, k, later)
  {
  }

  function Volatile(db: Db): (keys: set<bytes>) {
    set k | k in db && db[k].expireAt.Some?
  }

  function ExpiredKeys(db: Db, sample: set<bytes>, now: nat): (keys: set<bytes>) {
    set k | k in sample && k in db && Expired(db[k], now)
  }

  /** One pass of the cycle over a database: what it found and what it sampled. */
  datatype Pass = Pass(before: Db, sample: set<bytes>)

  predicate SampledAll(p: Pass) {
    p.sample == Volatile(p.before)
  }

  /** The pass leaves `r` and ends the cycle: it took as many volatile keys as it may, or
      all of them, and no more than a quarter of the sample size had expired. */
  predicate Ends(p: Pass, size: nat, now: nat, r: Db) {
    var gone := ExpiredKeys(p.before, p.sample, now);
    && p.sample <= Volatile(p.before) && |p.sample| <= size && (|p.sample| == size || SampledAll(p))
    && |gone| * 4 <= size
    && r == p.before - gone
  }

  ghost predicate NoneExpired(db: Db, now: nat) {
    forall k | k in db :: !Expired(db[k], now)
  }

  /** What the pass that ends the cycle leaves: no expired key if it sampled all volatile
      keys, as it does if and only if there were no more than the sample size; otherwise
      an expired key can be left only among many volatile keys. */
  lemma PassLeaves(p: Pass, size: nat, now: nat, r: Db)
    requires Ends(p, size, now, r)
    ensures SampledAll(p) <==> |Volatile(p.before)| <= size
    ensures SampledAll(p) ==> NoneExpired(r, now)
    ensures !NoneExpired(r, now) ==> |Volatile(r)| * 4 > size * 3
  {
    var gone := ExpiredKeys(p.before, p.sample, now);
    assert Volatile(r) == Volatile(p.before) - gone;
    SubsetSize(gone, Volatile(p.before));
    SubsetSize(p.sample, Volatile(p.before));
    if |Volatile(p.before)| <= size && |p.sample| == size {
      assert |Volatile(p.before) - p.sample| == 0;
    }
    if SampledAll(p) {
      forall k | k in r ensures !Expired(r[k], now) {
        assert k in p.sample ==> k !in gone;
      }
    }
  }

  /** What the cycle promises of a database: the pass that ended it sampled all volatile
      keys unless there were too many; if it did, as it does when there were few from the
      start, no expired key is left, and if one is left there are many volatile keys;
      and no read of any key changes, then or later. */
  ghost predicate Swept(db: Db, r: Db, last: Pass, size: nat, now: nat) {
    && Ends(last, size, now, r)
    && (SampledAll(last) <==> |Volatile(last.before)| <= size)
    && (|Volatile(db)| <= size ==> SampledAll(last))
    && (SampledAll(last) ==> NoneExpired(r, now))
    && (!NoneExpired(r, now) ==> |Volatile(r)| * 4 > size * 3)
    && (forall k | k in r :: k in db && r[k] == db[k])
    && (forall k, later | now <= later :: Lookup(r, k, later) == Lookup(db, k, later))
  }

  lemma SubsetSize(a: set<bytes>, b: set<bytes>)
    ensures a <= b ==> |a| <= |b| && |b - a| == |b| - |a|
  {
    if a <= b {
      assert b == a + (b - a);
    }
  }

  // ----- the store -----

  class Databases {
    var dbs: seq<Db>
    var cachedUsage: nat

    constructor (count: nat)
      ensures dbs == seq(count, _ => map[])
    {
      dbs, cachedUsage := seq(count, _ => map[]), 0;
    }

    /** `estimated_memory`: a scan over every entry of every database. */
    method EstimatedMemory(valueSize: Value -> nat) returns (total: nat)
      ensures total == TotalAll(dbs, valueSize)
    {
      total := 0;
      for i := 0 to |dbs|
        invariant total + TotalAll(dbs[i..], valueSize) == TotalAll(dbs, valueSize)
      {
        assert dbs[i..][1..] == dbs[i + 1..];
        var rest := dbs[i];
        while rest != map[]
          invariant total + Total(rest, valueSize) + TotalAll(dbs[i + 1..], valueSize) == TotalAll(dbs, valueSize)
          decreases |rest|
        {
          var k :| k in rest;
          TotalWithout(rest, k, valueSize);
          SizeWithout(rest, k);
          total := total + EntrySize(k, rest[k], valueSize);
          rest := rest - {k};
        }
      }
    }

    /** `evict_until_under`. Each round takes one candidate, any candidate, from each
        database in turn until the running usage is at or under the target. */
    method EvictUntilUnder(target: nat, policy: Policy, valueSize: Value -> nat) returns (evicted: nat)
      modifies this
      ensures Reduced(dbs, old(dbs)) && Spared(dbs, old(dbs), policy)
      ensures evicted == CountAll(old(dbs)) - CountAll(dbs)
      ensures policy == NoEviction ==> dbs == old(dbs) && cachedUsage == old(cachedUsage)
      ensures policy != NoEviction ==>
                && cachedUsage == TotalAll(dbs, valueSize)
                && (cachedUsage <= target || forall i, k | 0 <= i < |dbs| :: !Candidate(dbs[i], k, policy))
      ensures policy == AllKeysRandom ==> cachedUsage <= target || forall i | 0 <= i < |dbs| :: dbs[i] == map[]
      ensures policy == VolatileRandom ==>
                && (cachedUsage <= target || forall i, k | 0 <= i < |dbs| && k in dbs[i] :: dbs[i][k].expireAt == None)
                && |dbs| == |old(dbs)|
                && forall i, k | 0 <= i < |dbs| && k in old(dbs)[i] && old(dbs)[i][k].expireAt == None ::
                     k in dbs[i] && dbs[i][k] == old(dbs)[i][k]
      ensures evicted > 0 ==> LastNeeded(dbs, old(dbs), target, valueSize)
    {
      hide Reduced, Spared, LastNeeded, TotalAll, CountAll, Candidate;
      NothingEvicted(dbs, policy);
      ReducedLength(dbs, dbs);
      if policy == NoEviction { return 0; }
      evicted := 0;
      var usage := EstimatedMemory(valueSize);
      var progressed := true;
      while usage > target && progressed
        invariant |dbs| == |old(dbs)| && Reduced(dbs, old(dbs)) && Spared(dbs, old(dbs), policy)
        invariant evicted == CountAll(old(dbs)) - CountAll(dbs)
        invariant usage == TotalAll(dbs, valueSize)
        invariant evicted > 0 ==> LastNeeded(dbs, old(dbs), target, valueSize)
        invariant usage <= target || progressed || forall i, k | 0 <= i < |dbs| :: !Candidate(dbs[i], k, policy)
        decreases CountAll(dbs), progressed
      {
        var taken: nat;
        usage, taken := EvictRound(target, policy, valueSize, usage, old(dbs));
        ReducedLength(dbs, old(dbs));
        progressed := taken > 0;
        evicted := evicted + taken;
      }
      cachedUsage := usage;
      ReducedLength(dbs, old(dbs));
      PolicyMeans(dbs, old(dbs), policy);
    }

    /** One round over the databases. */
    method EvictRound(target: nat, policy: Policy, valueSize: Value -> nat, usageBefore: nat, ghost start: seq<Db>)
      returns (usage: nat, taken: nat)
      requires Reduced(dbs, start) && Spared(dbs, start, policy)
      requires usageBefore == TotalAll(dbs, valueSize) > target
      modifies this`dbs
      ensures Reduced(dbs, start) && Spared(dbs, start, policy)
      ensures usage == TotalAll(dbs, valueSize)
      ensures taken == CountAll(old(dbs)) - CountAll(dbs)
      ensures taken > 0 ==> LastNeeded(dbs, start, target, valueSize)
      ensures taken == 0 ==> dbs == old(dbs) && forall i, k | 0 <= i < |dbs| :: !Candidate(dbs[i], k, policy)
    {
      hide Spared, LastNeeded, TotalAll, CountAll, EntrySize;
      ReducedLength(dbs, start);
      hide Reduced;
      usage, taken := usageBefore, 0;
      for i := 0 to |dbs|
        invariant |dbs| == |start|
        invariant Reduced(dbs, start) && Spared(dbs, start, policy)
        invariant usage == TotalAll(dbs, valueSize)
        invariant taken == CountAll(old(dbs)) - CountAll(dbs)
        invariant taken > 0 ==> LastNeeded(dbs, start, target, valueSize)
        invariant taken == 0 ==> dbs == old(dbs) && usage > target
        invariant taken == 0 ==> forall j, k | 0 <= j < i :: !Candidate(dbs[j], k, policy)
      {
        if usage <= target { break; }
        var candidates := set k | k in dbs[i] && Candidate(dbs[i], k, policy);
        assert forall k | Candidate(dbs[i], k, policy) :: k in candidates;
        if candidates != {} {
          var k :| k in candidates;
          var size := EntrySize(k, dbs[i][k], valueSize);
          EvictOne(dbs, i, k, valueSize);
          EvictionStep(dbs, start, i, k, policy, target, valueSize);
          dbs := dbs[i := dbs[i] - {k}];
          usage := SaturatingSub(usage, size);
          taken := taken + 1;
        }
      }
    }

    /** Any `size` volatile keys of a database, or all of them if there are fewer. */
    static method TakeSample(db: Db, size: nat) returns (sample: set<bytes>)
      ensures sample <= Volatile(db) && |sample| <= size && (|sample| == size || sample == Volatile(db))
    {
      sample := {};
      var rest := Volatile(db);
      while rest != {} && |sample| < size
        invariant sample !! rest && sample + rest == Volatile(db) && |sample| <= size
        decreases rest
      {
        var k :| k in rest;
        sample, rest := sample + {k}, rest - {k};
      }
    }

    /** The sampling loop on one database. */
    static method ExpireDb(db: Db, size: nat, now: nat) returns (r: Db, removed: nat, ghost last: Pass)
      requires size > 0
      ensures removed == |db| - |r|
      ensures Swept(db, r, last, size, now)
    {
      r, removed := db, 0;
      while true
        invariant forall k | k in r :: k in db && r[k] == db[k]
        invariant forall k | k in db && k !in r :: Expired(db[k], now)
        invariant removed == |db| - |r|
        decreases |r|
      {
        var sample := TakeSample(r, size);
        var gone := ExpiredKeys(r, sample, now);
        assert (r - gone).Keys == r.Keys - gone && |(r - gone).Keys| == |r - gone| && |r.Keys| == |r|;
        SubsetSize(gone, r.Keys);
        SubsetSize(Volatile(r), Volatile(db));
        last := Pass(r, sample);
        r, removed := r - gone, removed + |gone|;
        if |gone| * 4 <= size {
          PassLeaves(last, size, now, r);
          ExpiredInvisible(db, r, now);
          return;
        }
      }
    }

    /** `active_expire_cycle` with a fixed clock, every database in turn. */
    method ActiveExpireCycle(sampleSize: nat, now: nat) returns (total: nat, ghost last: seq<Pass>)
      modifies this`dbs
      ensures |dbs| == |old(dbs)| == |last|
      ensures total == CountAll(old(dbs)) - CountAll(dbs)
      ensures forall i | 0 <= i < |dbs| :: Swept(old(dbs)[i], dbs[i], last[i], AtLeastOne(sampleSize), now)
    {
      hide Swept, CountAll;
      var size := AtLeastOne(sampleSize);
      total, last := 0, [];
      for i := 0 to |dbs|
        invariant |dbs| == |old(dbs)| && |last| == i && total == CountAll(old(dbs)) - CountAll(dbs)
        invariant forall j | i <= j < |dbs| :: dbs[j] == old(dbs)[j]
        invariant forall j | 0 <= j < i :: Swept(old(dbs)[j], dbs[j], last[j], size, now)
      {
        var r, removed;
        ghost var pass;
        r, removed, pass := ExpireDb(dbs[i], size, now);
        TotalAllUpdate(dbs, i, r, _ => 0);
        dbs := dbs[i := r];
        total, last := total + removed, last + [pass];
      }
    }
  }
}
