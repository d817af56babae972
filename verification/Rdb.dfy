/**
  Binary snapshots: the encoder and decoder of entries, the file with its checksum,
  and the loader that rebuilds a store from it.

  Readers take the unread input. Rust's slicing panics where input is missing, and
  so does `Panic` here.
 */
module Rdb {
  import opened Bytes
  import opened Listings
  import opened Values
  import opened ZSets
  import opened Checksum

  datatype Decoded<+T> = Got(value: T, rest: bytes) | Panic | BadType

  // ----- fixed-width fields and blobs -----

  /** A length as written: the low 32 bits, most significant byte first. */
  function U32(n: nat): (s: bytes)
    ensures |s| == 4
  {
    BigEndian(n % TWO_32, 4)
  }

  function U64(n: u64): (s: bytes)
    ensures |s| == 8
  {
    LittleEndian(n, 8)
  }

  function Blob(data: bytes): (s: bytes) {
    U32(|data|) + data
  }

  function ReadU32(s: bytes): (r: Decoded<nat>)
    ensures r.Got? ==> |r.rest| <= |s|
  {
    if |s| < 4 then Panic else Got(FromBigEndian(s[..4]), s[4..])
  }

  function ReadU64(s: bytes): (r: Decoded<u64>)
    ensures r.Got? ==> |r.rest| <= |s|
  {
    if |s| < 8 then Panic
    else
      assert FromLittleEndian(s[..8]) < TWO_64 by {
        FromLittleEndianBound(s[..8]);
        WordWidths();
      }
      Got(FromLittleEndian(s[..8]), s[8..])
  }

  function ReadBlob(s: bytes): (r: Decoded<bytes>)
    ensures r.Got? ==> |r.rest| <= |s|
  {
    match ReadU32(s)
    case Got(n, rest) => if n <= |rest| then Got(rest[..n], rest[n..]) else Panic
    case Panic => Panic
    case BadType => BadType
  }

  /** A length comes back as itself if and only if it fits 32 bits. */
  lemma U32RoundTrip(n: nat, rest: bytes)
    ensures ReadU32(U32(n) + rest) == Got(n % TWO_32, rest)
    ensures ReadU32(U32(n) + rest) == Got(n, rest) <==> n < TWO_32
  {
    var s := U32(n) + rest;
    assert s[..4] == U32(n) && s[4..] == rest;
    WordWidths();
    BigEndianRoundTrip(n % TWO_32, 4);
  }

  lemma U64RoundTrip(n: u64, rest: bytes)
    ensures ReadU64(U64(n) + rest) == Got(n, rest)
  {
    var s := U64(n) + rest;
    assert s[..8] == U64(n) && s[8..] == rest;
    WordWidths();
    LittleEndianRoundTrip(n, 8);
  }

  lemma BlobRoundTrip(data: bytes, rest: bytes)
    requires |data| < TWO_32
    ensures ReadBlob(Blob(data) + rest) == Got(data, rest)
  {
    hide ReadU32, U32;
    assert Blob(data) + rest == U32(|data|) + (data + rest);
    U32RoundTrip(|data|, data + rest);
  }

  // ----- items -----

  function PairBytes(p: (bytes, bytes)): (s: bytes) {
    Blob(p.0) + Blob(p.1)
  }

  function ReadPair(s: bytes): (r: Decoded<(bytes, bytes)>)
    ensures r.Got? ==> |r.rest| <= |s|
  {
    match ReadBlob(s)
    case Panic => Panic
    case BadType => BadType
    case Got(a, rest) =>
      match ReadBlob(rest)
      case Panic => Panic
      case BadType => BadType
      case Got(b, after) => Got((a, b), after)
  }

  /** A sorted-set member: the score's eight bytes, then the member. */
  function MemberBytes(p: (bytes, Score)): (s: bytes) {
    U64(p.1) + Blob(p.0)
  }

  function ReadMember(s: bytes): (r: Decoded<(bytes, Score)>)
    ensures r.Got? ==> |r.rest| <= |s|
  {
    match ReadU64(s)
    case Panic => Panic
    case BadType => BadType
    case Got(score, rest) =>
      match ReadBlob(rest)
      case Panic => Panic
      case BadType => BadType
      case Got(m, after) => Got((m, score), after)
  }

  /** The count-prefixed pairs of a hash, of an inner hash or of a stream entry. */
  function PairsBytes(pairs: seq<(bytes, bytes)>): (s: bytes) {
    U32(|pairs|) + ConcatMap(pairs, PairBytes)
  }

  function ReadPairs(s: bytes): (r: Decoded<seq<(bytes, bytes)>>)
    ensures r.Got? ==> |r.rest| <= |s|
  {
    match ReadU32(s)
    case Panic => Panic
    case BadType => BadType
    case Got(n, rest) => ReadMany(n, ReadPair, rest, [])
  }

  function IdBytes(id: StreamId): (s: bytes) {
    U64(id.ms) + U64(id.seqNo)
  }

  function ReadId(s: bytes): (r: Decoded<StreamId>)
    ensures r.Got? ==> |r.rest| <= |s|
  {
    match ReadU64(s)
    case Panic => Panic
    case BadType => BadType
    case Got(ms, rest) =>
      match ReadU64(rest)
      case Panic => Panic
      case BadType => BadType
      case Got(seqNo, after) => Got(StreamId(ms, seqNo), after)
  }

  function StreamEntryBytes(e: StreamEntry): (s: bytes) {
    IdBytes(e.id) + PairsBytes(e.fields)
  }

  function ReadStreamEntry(s: bytes): (r: Decoded<StreamEntry>)
    ensures r.Got? ==> |r.rest| <= |s|
  {
    match ReadId(s)
    case Panic => Panic
    case BadType => BadType
    case Got(id, rest) =>
      match ReadPairs(rest)
      case Panic => Panic
      case BadType => BadType
      case Got(fields, after) => Got(StreamEntry(id, fields), after)
  }

  function InnerBytes(p: (bytes, seq<(bytes, bytes)>)): (s: bytes) {
    Blob(p.0) + PairsBytes(p.1)
  }

  function ReadInner(s: bytes): (r: Decoded<(bytes, seq<(bytes, bytes)>)>)
    ensures r.Got? ==> |r.rest| <= |s|
  {
    match ReadBlob(s)
    case Panic => Panic
    case BadType => BadType
    case Got(field, rest) =>
      match ReadPairs(rest)
      case Panic => Panic
      case BadType => BadType
      case Got(inner, after) => Got((field, inner), after)
  }

  // ----- many items -----

  ghost predicate Shrinks<T(!new)>(read: bytes -> Decoded<T>) {
    forall t: bytes :: read(t).Got? ==> |read(t).rest| <= |t|
  }

  /** `n` items in a row, collected in order. */
  function ReadMany<T(!new)>(n: nat, read: bytes -> Decoded<T>, s: bytes, acc: seq<T>): (r: Decoded<seq<T>>)
    requires Shrinks(read)
    ensures r.Got? ==> |r.rest| <= |s| && |r.value| == |acc| + n
    decreases n
  {
    if n == 0 then Got(acc, s)
    else
      match read(s)
      case Panic => Panic
      case BadType => BadType
      case Got(x, rest) => ReadMany(n - 1, read, rest, acc + [x])
  }

  /** The reading loop; the unread input stands for the position it advances. */
  method ReadManyLoop<T(!new)>(n: nat, read: bytes -> Decoded<T>, s: bytes) returns (r: Decoded<seq<T>>)
    requires Shrinks(read)
    ensures r == ReadMany(n, read, s, [])
  {
    var items: seq<T> := [];
    var rest := s;
    for k := 0 to n
      invariant ReadMany(n, read, s, []) == ReadMany(n - k, read, rest, items)
    {
      match read(rest)
      case Panic => return Panic;
      case BadType => return BadType;
      case Got(x, after) => items, rest := items + [x], after;
    }
    r := Got(items, rest);
  }

  /** The reader undoes the writer on `x`, whatever follows. */
  ghost predicate Undoes<T(!new)>(read: bytes -> Decoded<T>, encode: T -> bytes, x: T) {
    forall t: bytes :: read(encode(x) + t) == Got(x, t)
  }

  lemma {:induction false} ManyRoundTrip<T(!new)>(
    xs: seq<T>, encode: T -> bytes, read: bytes -> Decoded<T>, rest: bytes, acc: seq<T>)
    requires Shrinks(read) && forall x | x in xs :: Undoes(read, encode, x)
    ensures ReadMany(|xs|, read, ConcatMap(xs, encode) + rest, acc) == Got(acc + xs, rest)
    decreases |xs|
  {
    if xs == [] {
      assert ConcatMap(xs, encode) + rest == rest && acc + xs == acc;
    } else {
      var after := ConcatMap(xs[1..], encode) + rest;
      assert ConcatMap(xs, encode) + rest == encode(xs[0]) + after;
      assert Undoes(read, encode, xs[0]);
      ManyRoundTrip(xs[1..], encode, read, rest, acc + [xs[0]]);
      assert acc + [xs[0]] + xs[1..] == acc + xs;
    }
  }

  /** A count and then the items come back as the items. */
  lemma CountedRoundTrip<T(!new)>(xs: seq<T>, encode: T -> bytes, read: bytes -> Decoded<T>, rest: bytes)
    requires |xs| < TWO_32 && Shrinks(read) && forall x | x in xs :: Undoes(read, encode, x)
    ensures var s := U32(|xs|) + ConcatMap(xs, encode) + rest;
            ReadU32(s).Got? && ReadU32(s).value == |xs|
            && ReadMany(|xs|, read, ReadU32(s).rest, []) == Got(xs, rest)
  {
    hide U32, ReadU32, ConcatMap;
    var body := ConcatMap(xs, encode);
    ConcatAssociative(U32(|xs|), body, rest);
    U32RoundTrip(|xs|, body + rest);
    ManyRoundTrip(xs, encode, read, rest, []);
    assert [] + xs == xs;
  }

  // ----- each item comes back -----

  predicate Short(data: bytes) {
    |data| < TWO_32
  }

  predicate ShortPairs(pairs: seq<(bytes, bytes)>) {
    |pairs| < TWO_32 && forall p | p in pairs :: Short(p.0) && Short(p.1)
  }

  lemma BlobUndone(x: bytes)
    requires Short(x)
    ensures Undoes(ReadBlob, Blob, x)
  {
    forall t: bytes ensures ReadBlob(Blob(x) + t) == Got(x, t) {
      BlobRoundTrip(x, t);
    }
  }

  lemma PairUndone(p: (bytes, bytes))
    requires Short(p.0) && Short(p.1)
    ensures Undoes(ReadPair, PairBytes, p)
  {
    hide ReadBlob, Blob;
    forall t: bytes ensures ReadPair(PairBytes(p) + t) == Got(p, t) {
      ConcatAssociative(Blob(p.0), Blob(p.1), t);
      BlobRoundTrip(p.0, Blob(p.1) + t);
      BlobRoundTrip(p.1, t);
    }
  }

  lemma MemberUndone(p: (bytes, Score))
    requires Short(p.0)
    ensures Undoes(ReadMember, MemberBytes, p)
  {
    hide ReadBlob, Blob, ReadU64, U64;
    forall t: bytes ensures ReadMember(MemberBytes(p) + t) == Got(p, t) {
      ConcatAssociative(U64(p.1), Blob(p.0), t);
      U64RoundTrip(p.1, Blob(p.0) + t);
      BlobRoundTrip(p.0, t);
    }
  }

  lemma PairsRoundTrip(pairs: seq<(bytes, bytes)>, rest: bytes)
    requires ShortPairs(pairs)
    ensures ReadPairs(PairsBytes(pairs) + rest) == Got(pairs, rest)
  {
    hide ReadPair, PairBytes, ReadU32, U32, ConcatMap;
    forall p | p in pairs ensures Undoes(ReadPair, PairBytes, p) {
      PairUndone(p);
    }
    CountedRoundTrip(pairs, PairBytes, ReadPair, rest);
  }

  lemma IdRoundTrip(id: StreamId, rest: bytes)
    ensures ReadId(IdBytes(id) + rest) == Got(id, rest)
  {
    hide ReadU64, U64;
    ConcatAssociative(U64(id.ms), U64(id.seqNo), rest);
    U64RoundTrip(id.ms, U64(id.seqNo) + rest);
    U64RoundTrip(id.seqNo, rest);
  }

  lemma StreamEntryUndone(e: StreamEntry)
    requires ShortPairs(e.fields)
    ensures Undoes(ReadStreamEntry, StreamEntryBytes, e)
  {
    hide ReadId, IdBytes, ReadPairs, PairsBytes;
    forall t: bytes ensures ReadStreamEntry(StreamEntryBytes(e) + t) == Got(e, t) {
      ConcatAssociative(IdBytes(e.id), PairsBytes(e.fields), t);
      IdRoundTrip(e.id, PairsBytes(e.fields) + t);
      PairsRoundTrip(e.fields, t);
    }
  }

  lemma InnerUndone(p: (bytes, seq<(bytes, bytes)>))
    requires Short(p.0) && ShortPairs(p.1)
    ensures Undoes(ReadInner, InnerBytes, p)
  {
    hide ReadBlob, Blob, ReadPairs, PairsBytes;
    forall t: bytes ensures ReadInner(InnerBytes(p) + t) == Got(p, t) {
      ConcatAssociative(Blob(p.0), PairsBytes(p.1), t);
      BlobRoundTrip(p.0, PairsBytes(p.1) + t);
      PairsRoundTrip(p.1, t);
    }
  }

  // ----- values -----

  const TYPE_STRING: byte := 0x00
  const TYPE_LIST: byte := 0x01
  const TYPE_SET: byte := 0x02
  const TYPE_HASH: byte := 0x03
  const TYPE_ZSET: byte := 0x04
  const TYPE_STREAM: byte := 0x05
  const TYPE_NESTED: byte := 0x06
  const EXPIRETIME: byte := 0xFD
  const DB_SELECT: byte := 0xFE
  const DB_END: byte := 0xFF

  function TypeByte(l: Listing): (b: byte)
    ensures b <= TYPE_NESTED
  {
    match l
    case TextListing(_) => TYPE_STRING
    case ListListing(_) => TYPE_LIST
    case SetListing(_) => TYPE_SET
    case HashListing(_) => TYPE_HASH
    case ZSetListing(_) => TYPE_ZSET
    case StreamListing(_, _) => TYPE_STREAM
    case NestedListing(_) => TYPE_NESTED
  }

  /** The bytes after the key. */
  function Body(l: Listing): (s: bytes) {
    match l
    case TextListing(text) => Blob(text)
    case ListListing(items) => U32(|items|) + ConcatMap(items, Blob)
    case SetListing(elements) => U32(|elements|) + ConcatMap(elements, Blob)
    case HashListing(fields) => PairsBytes(fields)
    case ZSetListing(members) => U32(|members|) + ConcatMap(members, MemberBytes)
    case StreamListing(entries, lastId) => U32(|entries|) + (IdBytes(lastId) + ConcatMap(entries, StreamEntryBytes))
    case NestedListing(outer) => U32(|outer|) + ConcatMap(outer, InnerBytes)
  }

  function EncodeEntry(key: bytes, l: Listing): (s: bytes) {
    [TypeByte(l)] + Blob(key) + Body(l)
  }

  // ----- the format in bytes -----

  lemma {:induction false} Zeros(width: nat)
    ensures LittleEndian(0, width) == BigEndian(0, width) == seq(width, _ => 0)
  {
    if width > 0 {
      Zeros(width - 1);
    }
  }

  /** A small number in either kind of field. */
  lemma SmallFields(b: byte)
    ensures U32(b) == [0, 0, 0, b] && U64(b) == [b, 0, 0, 0, 0, 0, 0, 0]
  {
    Zeros(3);
    Zeros(7);
    assert BigEndian(b, 4) == BigEndian(0, 3) + [b];
    assert LittleEndian(b, 8) == [b] + LittleEndian(0, 7);
  }

  /** Lengths have their most significant byte first, words their least significant. */
  lemma FieldOrder()
    ensures U32(0x01020304) == [1, 2, 3, 4] && U64(0x3FF0_0000_0000_0000) == [0, 0, 0, 0, 0, 0, 240, 63]
  {
    assert BigEndian(0x01020304, 4) == [1, 2, 3, 4] by {
      assert BigEndian(0x01, 1) == [1];
      assert BigEndian(0x0102, 2) == [1, 2];
      assert BigEndian(0x010203, 3) == [1, 2, 3];
    }
    LittleOrder();
    hide LittleEndian, BigEndian;
  }

  lemma LittleOrder()
    ensures LittleEndian(0x3FF0_0000_0000_0000, 8) == [0, 0, 0, 0, 0, 0, 240, 63]
  {
    assert LittleEndian(0x3FF0, 2) == [240, 63] by {
      assert LittleEndian(0x3F, 1) == [63];
    }
    ZeroFirst(0x3FF0, 2);
    ZeroFirst(0x3FF000, 3);
    ZeroFirst(0x3FF00000, 4);
    ZeroFirst(0x3FF0000000, 5);
    ZeroFirst(0x3FF000000000, 6);
    ZeroFirst(0x3FF00000000000, 7);
    hide LittleEndian;
  }

  lemma ZeroFirst(n: nat, width: nat)
    ensures LittleEndian(256 * n, width + 1) == [0] + LittleEndian(n, width)
  {
  }

  lemma SmallBlob(b: byte)
    ensures Blob([b]) == [0, 0, 0, 1, b]
  {
    SmallFields(1);
  }

  lemma OneOf<T>(x: T, y: T, encode: T -> bytes)
    ensures ConcatMap([x], encode) == encode(x) && ConcatMap([x, y], encode) == encode(x) + encode(y)
  {
    assert [x][1..] == [] && [x, y][1..] == [y];
    assert ConcatMap([y], encode) == encode(y) + ConcatMap([], encode);
  }

  /** An entry of each type: the type's byte, the key, and the value. */
  lemma EntryFormat(key: bytes, a: bytes, b: bytes, score: Score, id: StreamId, last: StreamId)
    ensures EncodeEntry(key, TextListing(a)) == [0] + Blob(key) + Blob(a)
    ensures EncodeEntry(key, ListListing([a, b])) == [1] + Blob(key) + (U32(2) + (Blob(a) + Blob(b)))
    ensures EncodeEntry(key, SetListing([a, b])) == [2] + Blob(key) + (U32(2) + (Blob(a) + Blob(b)))
    ensures EncodeEntry(key, HashListing([(a, b)])) == [3] + Blob(key) + (U32(1) + (Blob(a) + Blob(b)))
    ensures EncodeEntry(key, ZSetListing([(a, score)])) == [4] + Blob(key) + (U32(1) + (U64(score) + Blob(a)))
    ensures EncodeEntry(key, StreamListing([StreamEntry(id, [(a, b)])], last))
         == [5] + Blob(key)
            + (U32(1) + ((U64(last.ms) + U64(last.seqNo)) + ((U64(id.ms) + U64(id.seqNo)) + (U32(1) + (Blob(a) + Blob(b))))))
    ensures EncodeEntry(key, NestedListing([(key, [(a, b)])]))
         == [6] + Blob(key) + (U32(1) + (Blob(key) + (U32(1) + (Blob(a) + Blob(b)))))
  {
    hide Blob, U32, U64, ConcatMap;
    OneOf(a, b, Blob);
    OneOf((a, b), (a, b), PairBytes);
    OneOf((a, score), (a, score), MemberBytes);
    OneOf((key, [(a, b)]), (key, [(a, b)]), InnerBytes);
    OneOf(StreamEntry(id, [(a, b)]), StreamEntry(id, [(a, b)]), StreamEntryBytes);
  }

  /** The loader inserts members and fills buckets as it reads. */
  function BuildZSet(pairs: seq<(bytes, Score)>): (z: Value)
    ensures z.ZSet?
  {
    if pairs == [] then ZSet(map[], map[])
    else
      var n := |pairs| - 1;
      var z := BuildZSet(pairs[..n]);
      ZSet(z.members[pairs[n].0 := pairs[n].1], AddToBucket(z.scores, ScoreKey(pairs[n].1), pairs[n].0))
  }

  /** The value the loader builds from the items of a listing. */
  function Rebuild(l: Listing): (v: Value) {
    match l
    case TextListing(text) => Text(text)
    case ListListing(items) => List(items)
    case SetListing(elements) => Set(SetOf(elements))
    case HashListing(fields) => Hash(MapOf(fields))
    case ZSetListing(members) => BuildZSet(members)
    case StreamListing(entries, lastId) => Stream(entries, lastId)
    case NestedListing(outer) => NestedHash(MapOf(InnerMaps(outer)))
  }

  function ReadCounted<T(!new)>(read: bytes -> Decoded<T>, s: bytes): (r: Decoded<seq<T>>)
    requires Shrinks(read)
    ensures r.Got? ==> |r.rest| <= |s|
  {
    match ReadU32(s)
    case Panic => Panic
    case BadType => BadType
    case Got(n, rest) => ReadMany(n, read, rest, [])
  }

  function ReadStream(s: bytes): (r: Decoded<Listing>)
    ensures r.Got? ==> |r.rest| <= |s|
  {
    match ReadU32(s)
    case Panic => Panic
    case BadType => BadType
    case Got(n, rest) =>
      match ReadId(rest)
      case Panic => Panic
      case BadType => BadType
      case Got(lastId, after) =>
        match ReadMany(n, ReadStreamEntry, after, [])
        case Panic => Panic
        case BadType => BadType
        case Got(entries, tail) => Got(StreamListing(entries, lastId), tail)
  }

  function Wrap<T, U>(r: Decoded<T>, f: T -> U): (r': Decoded<U>)
    ensures r'.Got? <==> r.Got?
    ensures r'.Got? ==> r'.rest == r.rest && r'.value == f(r.value)
  {
    match r
    case Panic => Panic
    case BadType => BadType
    case Got(x, rest) => Got(f(x), rest)
  }

  /** The items of a value of a given type, in file order. */
  function ReadBody(tag: byte, s: bytes): (r: Decoded<Listing>)
    ensures r.Got? ==> |r.rest| <= |s|
  {
    if tag == TYPE_STRING then Wrap(ReadBlob(s), x => TextListing(x))
    else if tag == TYPE_LIST then Wrap(ReadCounted(ReadBlob, s), x => ListListing(x))
    else if tag == TYPE_SET then Wrap(ReadCounted(ReadBlob, s), x => SetListing(x))
    else if tag == TYPE_HASH then Wrap(ReadPairs(s), x => HashListing(x))
    else if tag == TYPE_ZSET then Wrap(ReadCounted(ReadMember, s), x => ZSetListing(x))
    else if tag == TYPE_STREAM then ReadStream(s)
    else if tag == TYPE_NESTED then Wrap(ReadCounted(ReadInner, s), x => NestedListing(x))
    else BadType
  }

  /** `decode_entry`: at the end of the input it yields an empty key. */
  function DecodeEntry(s: bytes): (r: Decoded<(bytes, Value)>)
    ensures r.Got? ==> |r.rest| <= |s| && (s != [] ==> |r.rest| < |s|)
  {
    if s == [] then Got(([], Text([])), [])
    else
      match ReadBlob(s[1..])
      case Panic => Panic
      case BadType => BadType
      case Got(key, rest) => Wrap(ReadBody(s[0], rest), l => (key, Rebuild(l)))
  }

  /** Every length in a listing fits the 32-bit fields. */
  predicate Fits(l: Listing) {
    match l
    case TextListing(text) => Short(text)
    case ListListing(items) => |items| < TWO_32 && forall x | x in items :: Short(x)
    case SetListing(elements) => |elements| < TWO_32 && forall x | x in elements :: Short(x)
    case HashListing(fields) => ShortPairs(fields)
    case ZSetListing(members) => |members| < TWO_32 && forall p | p in members :: Short(p.0)
    case StreamListing(entries, _) => |entries| < TWO_32 && forall e | e in entries :: ShortPairs(e.fields)
    case NestedListing(outer) => |outer| < TWO_32 && forall p | p in outer :: Short(p.0) && ShortPairs(p.1)
  }

  lemma BlobsRoundTrip(items: seq<bytes>, rest: bytes)
    requires |items| < TWO_32 && forall x | x in items :: Short(x)
    ensures ReadCounted(ReadBlob, U32(|items|) + ConcatMap(items, Blob) + rest) == Got(items, rest)
  {
    hide ReadU32, U32, ConcatMap, ReadBlob, Blob;
    forall x | x in items ensures Undoes(ReadBlob, Blob, x) { BlobUndone(x); }
    CountedRoundTrip(items, Blob, ReadBlob, rest);
  }

  lemma MembersRoundTrip(members: seq<(bytes, Score)>, rest: bytes)
    requires |members| < TWO_32 && forall p | p in members :: Short(p.0)
    ensures ReadCounted(ReadMember, U32(|members|) + ConcatMap(members, MemberBytes) + rest) == Got(members, rest)
  {
    hide ReadU32, U32, ConcatMap, ReadMember, MemberBytes;
    forall p | p in members ensures Undoes(ReadMember, MemberBytes, p) { MemberUndone(p); }
    CountedRoundTrip(members, MemberBytes, ReadMember, rest);
  }

  lemma NestedRoundTrip(outer: seq<(bytes, seq<(bytes, bytes)>)>, rest: bytes)
    requires |outer| < TWO_32 && forall p | p in outer :: Short(p.0) && ShortPairs(p.1)
    ensures ReadCounted(ReadInner, U32(|outer|) + ConcatMap(outer, InnerBytes) + rest) == Got(outer, rest)
  {
    hide ReadU32, U32, ConcatMap, ReadInner, InnerBytes;
    forall p | p in outer ensures Undoes(ReadInner, InnerBytes, p) { InnerUndone(p); }
    CountedRoundTrip(outer, InnerBytes, ReadInner, rest);
  }

  lemma StreamRoundTrip(entries: seq<StreamEntry>, lastId: StreamId, rest: bytes)
    requires |entries| < TWO_32 && forall e | e in entries :: ShortPairs(e.fields)
    ensures ReadStream(U32(|entries|) + (IdBytes(lastId) + ConcatMap(entries, StreamEntryBytes)) + rest)
         == Got(StreamListing(entries, lastId), rest)
  {
    hide ReadU32, U32, ConcatMap, ReadStreamEntry, StreamEntryBytes, IdBytes, ReadId, ShortPairs;
    var items := ConcatMap(entries, StreamEntryBytes);
    ConcatAssociative(U32(|entries|), IdBytes(lastId) + items, rest);
    ConcatAssociative(IdBytes(lastId), items, rest);
    U32RoundTrip(|entries|, IdBytes(lastId) + items + rest);
    IdRoundTrip(lastId, items + rest);
    forall e | e in entries ensures Undoes(ReadStreamEntry, StreamEntryBytes, e) { StreamEntryUndone(e); }
    ManyRoundTrip(entries, StreamEntryBytes, ReadStreamEntry, rest, []);
    assert [] + entries == entries;
  }

  lemma BodyRoundTrip(l: Listing, rest: bytes)
    requires Fits(l)
    ensures ReadBody(TypeByte(l), Body(l) + rest) == Got(l, rest)
  {
    hide ReadCounted, U32, ConcatMap, ReadBlob, Blob, ReadPairs, PairsBytes, ReadStream, IdBytes;
    match l
    case TextListing(text) => BlobRoundTrip(text, rest);
    case ListListing(items) => BlobsRoundTrip(items, rest);
    case SetListing(elements) => BlobsRoundTrip(elements, rest);
    case HashListing(fields) => PairsRoundTrip(fields, rest);
    case ZSetListing(members) => MembersRoundTrip(members, rest);
    case StreamListing(entries, lastId) => StreamRoundTrip(entries, lastId, rest);
    case NestedListing(outer) => NestedRoundTrip(outer, rest);
  }

  /** One entry: decoding its bytes, whatever follows, rebuilds it from its listing. */
  lemma EntryRoundTrip(key: bytes, l: Listing, rest: bytes)
    requires Short(key) && Fits(l)
    ensures DecodeEntry(EncodeEntry(key, l) + rest) == Got((key, Rebuild(l)), rest)
  {
    hide ReadBlob, Blob, ReadBody, Body, Rebuild, TypeByte;
    var s := EncodeEntry(key, l) + rest;
    assert s[1..] == Blob(key) + (Body(l) + rest);
    BlobRoundTrip(key, Body(l) + rest);
    BodyRoundTrip(l, rest);
  }

  lemma {:induction false} BuildZSetInSync(pairs: seq<(bytes, Score)>)
    requires DistinctKeys(pairs) && forall p | p in pairs :: !IsNaN(p.1)
    ensures InSync(BuildZSet(pairs)) && BuildZSet(pairs).members == MapOf(pairs)
  {
    if pairs != [] {
      var n := |pairs| - 1;
      BuildZSetInSync(pairs[..n]);
      var z := BuildZSet(pairs[..n]);
      assert pairs[n].0 !in z.members by {
        assert forall p | p in pairs[..n] :: p.0 != pairs[n].0;
      }
      AddKeepsSync(z, pairs[n].0, pairs[n].1);
    }
  }

  /** Rebuilding from any listing of a value gives that value back, a sorted set's
      score index included. */
  lemma RebuildListed(l: Listing, v: Value)
    requires Lists(l, v) && Indexed(v)
    ensures Rebuild(l) == v
  {
    match v
    case Set(elements) => SetOfListing(l.elements, elements);
    case Hash(fields) => MapOfListing(l.fields, fields);
    case ZSet(members, scores) =>
      MapOfListing(l.members, members);
      BuildZSetInSync(l.members);
      IndexUnique(scores, BuildZSet(l.members).scores, members);
    case NestedHash(outer) => NestedOfListing(l.outer, outer);
    case _ =>
  }
}
