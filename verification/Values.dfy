/**
  What a database holds: the seven value types, entries with expiry and version,
  and the lookup that hides expired entries.
 */
module Values {
  import opened Bytes
  import opened Listings

  /** A sorted-set score: the 64 bits of an IEEE double. */
  type Score = u64

  const INFINITY: int := 0x7FF0_0000_0000_0000

  /** The sign and magnitude of a double as one integer. For doubles that are not NaN,
      comparing these integers is comparing the doubles; both zeros give 0. */
  function ScoreKey(s: Score): (key: int)
    ensures -TWO_63 < key < TWO_63
  {
    if s < TWO_63 then s else TWO_63 - s
  }

  predicate IsNaN(s: Score) {
    ScoreKey(s) > INFINITY || ScoreKey(s) < -INFINITY
  }

  predicate IsFinite(key: int) {
    -INFINITY < key < INFINITY
  }

  // ----- the order of doubles -----

  const TWO_52: nat := 0x10_0000_0000_0000

  function Pow2(n: nat): (p: nat)
    ensures p > 0
  {
    if n == 0 then 1 else 2 * Pow2(n - 1)
  }

  /** The magnitude of the double with these 63 low bits, as a multiple of the smallest
      positive double: fraction alone for exponent zero, otherwise with its hidden bit and
      shifted. Infinity takes the value that would follow the largest finite double. */
  function Magnitude(low: nat): (m: nat) {
    var exponent, fraction := low / TWO_52, low % TWO_52;
    if exponent == 0 then fraction else (TWO_52 + fraction) * Pow2(exponent - 1)
  }

  /** The number a score stands for, as a multiple of the smallest positive double. */
  function Number(s: Score): (n: int) {
    if s < TWO_63 then Magnitude(s) else 0 - Magnitude(s - TWO_63)
  }

  lemma {:induction false} Pow2Grows(a: nat, b: nat)
    requires a <= b
    ensures Pow2(a) <= Pow2(b)
    decreases b - a
  {
    if a < b {
      Pow2Grows(a, b - 1);
    }
  }

  /** With exponent `e`, magnitudes lie between one power of two and the next. */
  lemma MagnitudeBounds(low: nat)
    ensures var e := low / TWO_52;
            && (e == 0 ==> Magnitude(low) < TWO_52)
            && (e > 0 ==> TWO_52 * Pow2(e - 1) <= Magnitude(low) < TWO_52 * Pow2(e))
  {
    var e, f := low / TWO_52, low % TWO_52;
    if e > 0 {
      Scale(f, TWO_52, Pow2(e - 1));
    }
  }

  lemma Scale(a: nat, b: nat, p: nat)
    requires a < b && p > 0
    ensures a * p < b * p
    ensures (b + a) * p == b * p + a * p
  {
  }

  lemma MagnitudeGrows(a: nat, b: nat)
    requires a < b
    ensures Magnitude(a) < Magnitude(b)
  {
    var e, e' := a / TWO_52, b / TWO_52;
    MagnitudeBounds(a);
    MagnitudeBounds(b);
    if e == e' {
      if e > 0 {
        Scale(a % TWO_52, b % TWO_52, Pow2(e - 1));
        Scale(a % TWO_52, TWO_52, Pow2(e - 1));
        Scale(b % TWO_52, TWO_52, Pow2(e - 1));
      }
    } else if e == 0 {
      Pow2Grows(0, e' - 1);
    } else {
      Pow2Grows(e, e' - 1);
    }
  }

  /** Comparing score keys is comparing the numbers, for all scores but NaN. */
  lemma ScoreOrder(s: Score, t: Score)
    requires !IsNaN(s) && !IsNaN(t)
    ensures ScoreKey(s) < ScoreKey(t) <==> Number(s) < Number(t)
    ensures ScoreKey(s) == ScoreKey(t) <==> Number(s) == Number(t)
  {
    var a, b := s % TWO_63, t % TWO_63;
    assert a == (if s < TWO_63 then s else s - TWO_63) && b == (if t < TWO_63 then t else t - TWO_63);
    MagnitudePositive(a);
    MagnitudePositive(b);
    if a < b {
      MagnitudeGrows(a, b);
    } else if b < a {
      MagnitudeGrows(b, a);
    }
  }

  lemma MagnitudePositive(low: nat)
    ensures Magnitude(low) == 0 <==> low == 0
  {
    if low > 0 {
      MagnitudeGrows(0, low);
    }
  }

  datatype StreamId = StreamId(ms: u64, seqNo: u64) {
    predicate Below(other: StreamId) {
      ms < other.ms || (ms == other.ms && seqNo < other.seqNo)
    }

    predicate AtMost(other: StreamId) {
      Below(other) || this == other
    }
  }

  const ZERO_ID: StreamId := StreamId(0, 0)

  datatype StreamEntry = StreamEntry(id: StreamId, fields: seq<(bytes, bytes)>)

  datatype Value =
    | Text(text: bytes)
    | List(items: seq<bytes>)
    | Set(elements: set<bytes>)
    | Hash(fields: map<bytes, bytes>)
    | ZSet(members: map<bytes, Score>, scores: map<int, set<bytes>>)
    | Stream(entries: seq<StreamEntry>, lastId: StreamId)
    | NestedHash(outer: map<bytes, map<bytes, bytes>>)

  datatype Entry = Entry(value: Value, expireAt: Option<u64>, version: nat)

  type Db = map<bytes, Entry>

  predicate Expired(e: Entry, now: nat) {
    e.expireAt.Some? && e.expireAt.value <= now
  }

  /** `entry`: the entry of a key, unless it is missing or expired. */
  function Lookup(db: Db, key: bytes, now: nat): (e: Option<Entry>)
    ensures e.Some? <==> key in db && (db[key].expireAt == None || now < db[key].expireAt.value)
    ensures e.Some? ==> e.value == db[key]
  {
    if key in db && !Expired(db[key], now) then Some(db[key]) else None
  }

  /** The entries `iterate_db` yields. */
  function LiveEntries(db: Db, now: nat): (live: Db)
    ensures forall k :: k in live <==> k in db && (db[k].expireAt == None || now < db[k].expireAt.value)
    ensures forall k | k in live :: live[k] == db[k]
  {
    map k | k in db && !Expired(db[k], now) :: db[k]
  }

  /** The score index agrees exactly with the members: each member is in the bucket of
      its score and in no other, and there is no bucket without members. No score is NaN,
      which the map of buckets takes to equal any score, so that it has no bucket of its own. */
  ghost predicate Indexes(scores: map<int, set<bytes>>, members: map<bytes, Score>) {
    && (forall m | m in members :: !IsNaN(members[m]))
    && (forall m | m in members :: ScoreKey(members[m]) in scores && m in scores[ScoreKey(members[m])])
    && (forall key | key in scores :: scores[key] != {})
    && (forall key, m | key in scores && m in scores[key] :: m in members && ScoreKey(members[m]) == key)
  }

  /** A member map determines its index. */
  lemma IndexUnique(s: map<int, set<bytes>>, t: map<int, set<bytes>>, members: map<bytes, Score>)
    requires Indexes(s, members) && Indexes(t, members)
    ensures s == t
  {
    assert s.Keys == t.Keys by {
      forall key | key in s ensures key in t {
        var m :| m in s[key];
        assert ScoreKey(members[m]) == key;
      }
      forall key | key in t ensures key in s {
        var m :| m in t[key];
        assert ScoreKey(members[m]) == key;
      }
    }
    forall key | key in s ensures s[key] == t[key] {
      forall m ensures m in s[key] <==> m in t[key] {
        if m in members { assert ScoreKey(members[m]) in s; }
      }
    }
  }

  /** Stream entries in strictly increasing id order. */
  ghost predicate Increasing(entries: seq<StreamEntry>) {
    forall i, j | 0 <= i < j < |entries| :: entries[i].id.Below(entries[j].id)
  }

  /** A sorted set's index agrees with its members, as every command on it keeps it.
      Stream entries may be in any order, which commands on an expired but stored key
      can bring about. */
  ghost predicate Indexed(v: Value) {
    v.ZSet? ==> Indexes(v.scores, v.members)
  }

  // ----- listings of values -----

  /** A value as iteration yields it, with an order fixed for each hash container. */
  datatype Listing =
    | TextListing(text: bytes)
    | ListListing(items: seq<bytes>)
    | SetListing(elements: seq<bytes>)
    | HashListing(fields: seq<(bytes, bytes)>)
    | ZSetListing(members: seq<(bytes, Score)>)
    | StreamListing(entries: seq<StreamEntry>, lastId: StreamId)
    | NestedListing(outer: seq<(bytes, seq<(bytes, bytes)>)>)

  ghost predicate Lists(l: Listing, v: Value) {
    match v
    case Text(text) => l == TextListing(text)
    case List(items) => l == ListListing(items)
    case Set(elements) => l.SetListing? && ListsSet(l.elements, elements)
    case Hash(fields) => l.HashListing? && ListsMap(l.fields, fields)
    case ZSet(members, _) => l.ZSetListing? && ListsMap(l.members, members)
    case Stream(entries, lastId) => l == StreamListing(entries, lastId)
    case NestedHash(outer) => l.NestedListing? && ListsNested(l.outer, outer)
  }

  /** A listing of a nested hash lists each inner hash once, in an order of its own. */
  ghost predicate ListsNested(
    pairs: seq<(bytes, seq<(bytes, bytes)>)>, outer: map<bytes, map<bytes, bytes>>)
  {
    && DistinctKeys(pairs)
    && (forall p | p in pairs :: p.0 in outer && ListsMap(p.1, outer[p.0]))
    && (forall f | f in outer :: exists p | p in pairs :: p.0 == f)
  }

  /** Inserting listed inner hashes one by one. */
  function InnerMaps(pairs: seq<(bytes, seq<(bytes, bytes)>)>): (r: seq<(bytes, map<bytes, bytes>)>)
    ensures |r| == |pairs|
    ensures forall i | 0 <= i < |pairs| :: r[i] == (pairs[i].0, MapOf(pairs[i].1))
  {
    seq(|pairs|, i requires 0 <= i < |pairs| => (pairs[i].0, MapOf(pairs[i].1)))
  }

  lemma NestedOfListing(pairs: seq<(bytes, seq<(bytes, bytes)>)>, outer: map<bytes, map<bytes, bytes>>)
    requires ListsNested(pairs, outer)
    ensures ListsMap(InnerMaps(pairs), outer)
    ensures MapOf(InnerMaps(pairs)) == outer
  {
    var r := InnerMaps(pairs);
    forall i | 0 <= i < |pairs| ensures MapOf(pairs[i].1) == outer[pairs[i].0] {
      MapOfListing(pairs[i].1, outer[pairs[i].0]);
    }
    forall f | f in outer ensures (f, outer[f]) in r {
      var p :| p in pairs && p.0 == f;
      var i :| 0 <= i < |pairs| && pairs[i] == p;
      assert r[i] == (f, outer[f]);
    }
    MapOfListing(r, outer);
  }

  // ----- listings of databases -----

  /** A live entry as iteration over a database meets it. */
  datatype Listed = Listed(key: bytes, listing: Listing, expireAt: Option<u64>)

  /** `items` is what iterating over the live entries of `db` at `now` yields. */
  ghost predicate ListsDb(items: seq<Listed>, db: Db, now: nat) {
    && (forall i, j | 0 <= i < j < |items| :: items[i].key != items[j].key)
    && (forall x | x in items ::
          && x.key in db && !Expired(db[x.key], now)
          && Lists(x.listing, db[x.key].value) && x.expireAt == db[x.key].expireAt)
    && (forall k | k in LiveEntries(db, now) :: exists x | x in items :: x.key == k)
  }
}
