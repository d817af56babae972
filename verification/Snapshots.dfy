/**
  Snapshot files: header, checksum and one section per database; saving a store for
  any iteration order and loading the file back.
 */
module Snapshots {
  import opened Bytes
  import opened Listings
  import opened Values
  import opened Checksum
  import opened Rdb

  const MAGIC: bytes := [86, 69, 76, 79]
  const VERSION: bytes := [0, 1, 0, 0]

  // ----- saving -----

  function ItemBytes(x: Listed): (s: bytes) {
    (if x.expireAt.Some? then [EXPIRETIME] + U64(x.expireAt.value) else []) + EncodeEntry(x.key, x.listing)
  }

  /** A database section; the index is written as one byte. */
  function DbBytes(index: nat, items: seq<Listed>): (s: bytes) {
    [DB_SELECT, index % 256] + (ConcatMap(items, ItemBytes) + [DB_END])
  }

  function Sections(first: nat, dbs: seq<seq<Listed>>): (s: bytes)
    decreases |dbs|
  {
    if dbs == [] then [] else DbBytes(first, dbs[0]) + Sections(first + 1, dbs[1..])
  }

  function FileBytes(dbs: seq<seq<Listed>>): (file: bytes) {
    var body := Sections(0, dbs);
    MAGIC + VERSION + U64(Crc64(body)) + body
  }

  method SaveItems(items: seq<Listed>, buf: bytes) returns (r: bytes)
    ensures r == buf + ConcatMap(items, ItemBytes)
  {
    hide ItemBytes;
    r := buf;
    for k := 0 to |items|
      invariant r == buf + ConcatMap(items[..k], ItemBytes)
    {
      ConcatMapAppend(items[..k], [items[k]], ItemBytes);
      assert items[..k] + [items[k]] == items[..k + 1];
      assert ConcatMap([items[k]], ItemBytes) == ItemBytes(items[k]);
      r := r + ItemBytes(items[k]);
    }
    assert items[..|items|] == items;
  }

  method SaveSections(dbs: seq<seq<Listed>>, buf: bytes) returns (r: bytes)
    ensures r == buf + Sections(0, dbs)
  {
    hide ItemBytes, ConcatMap;
    r := buf;
    for i := 0 to |dbs|
      invariant r + Sections(i, dbs[i..]) == buf + Sections(0, dbs)
    {
      ghost var before, later := r, Sections(i + 1, dbs[i + 1..]);
      r := r + [DB_SELECT, i % 256];
      r := SaveItems(dbs[i], r);
      r := r + [DB_END];
      assert r == before + DbBytes(i, dbs[i]);
      assert dbs[i..][1..] == dbs[i + 1..];
      ConcatAssociative(before, DbBytes(i, dbs[i]), later);
    }
  }

  /** `save_rdb`: the buffer is filled section by section and the checksum patched in last. */
  method SaveRdb(dbs: seq<seq<Listed>>) returns (buf: bytes)
    ensures buf == FileBytes(dbs)
  {
    hide Crc64, Sections;
    buf := MAGIC + VERSION + [0, 0, 0, 0, 0, 0, 0, 0];
    buf := SaveSections(dbs, buf);
    var body := buf[16..];
    assert body == Sections(0, dbs);
    var crc := Crc64Loop(body);
    assert buf[..8] == MAGIC + VERSION;
    buf := buf[..8] + U64(crc) + buf[16..];
  }

  // ----- loading -----

  datatype LoadError = TooShort | BadMagic | CrcMismatch | UnknownOpcode | UnknownType | NoSuchDb

  datatype Outcome = Ok(count: nat) | Err(error: LoadError) | Panicked

  /** The store after loading, and how loading ended; on an error the entries read
      before it stay in the store. */
  datatype Load = Load(dbs: seq<Db>, outcome: Outcome)

  /** `set_with_entry` on one database. */
  function Put(db: Db, key: bytes, value: Value, expireAt: Option<u64>): (r: Db) {
    db[key := Entry(value, expireAt, if key in db then db[key].version + 1 else 0)]
  }

  /** Storing a decoded entry and going on; an empty key is skipped. */
  function Store(
    d: Decoded<(bytes, Value)>, expireAt: Option<u64>, bound: nat, current: nat, dbs: seq<Db>, count: nat
  ): (l: Load)
    requires d.Got? ==> |d.rest| < bound
    decreases bound, 0
  {
    match d
    case Panic => Load(dbs, Panicked)
    case BadType => Load(dbs, Err(UnknownType))
    case Got((key, value), rest) =>
      if key == [] then LoadBody(rest, current, dbs, count)
      else if current >= |dbs| then Load(dbs, Err(NoSuchDb))
      else LoadBody(rest, current, dbs[current := Put(dbs[current], key, value, expireAt)], count + 1)
  }

  function LoadBody(s: bytes, current: nat, dbs: seq<Db>, count: nat): (l: Load)
    decreases |s|, 1
  {
    if s == [] then Load(dbs, Ok(count))
    else if s[0] == DB_SELECT then
      if |s| < 2 then Load(dbs, Panicked) else LoadBody(s[2..], s[1], dbs, count)
    else if s[0] == DB_END then LoadBody(s[1..], current, dbs, count)
    else if s[0] == EXPIRETIME then
      match ReadU64(s[1..])
      case Panic => Load(dbs, Panicked)
      case BadType => Load(dbs, Panicked)
      case Got(at, rest) => Store(DecodeEntry(rest), Some(at), |s|, current, dbs, count)
    else if s[0] <= TYPE_NESTED then Store(DecodeEntry(s), None, |s|, current, dbs, count)
    else Load(dbs, Err(UnknownOpcode))
  }

  /** `load_rdb`: a stored checksum of zero is not compared. */
  function LoadFile(data: bytes, dbs: seq<Db>): (l: Load) {
    if |data| < 16 then Load(dbs, Err(TooShort))
    else if data[..4] != MAGIC then Load(dbs, Err(BadMagic))
    else
      var stored := FromLittleEndian(data[8..16]);
      if stored != 0 && stored != Crc64(data[16..]) then Load(dbs, Err(CrcMismatch))
      else LoadBody(data[16..], 0, dbs, 0)
  }

  /** The loop of `load_rdb`. */
  method LoadRdb(data: bytes, store: seq<Db>) returns (l: Load)
    ensures l == LoadFile(data, store)
  {
    hide DecodeEntry, ReadU64;
    if |data| < 16 { return Load(store, Err(TooShort)); }
    if data[..4] != MAGIC { return Load(store, Err(BadMagic)); }
    var stored := FromLittleEndian(data[8..16]);
    var computed := Crc64Loop(data[16..]);
    if stored != 0 && stored != computed { return Load(store, Err(CrcMismatch)); }
    var rest, dbs := data[16..], store;
    var current: nat, count: nat := 0, 0;
    while rest != []
      invariant LoadBody(rest, current, dbs, count) == LoadBody(data[16..], 0, store, 0)
      decreases |rest|
    {
      if rest[0] == DB_SELECT {
        if |rest| < 2 { return Load(dbs, Panicked); }
        current, rest := rest[1], rest[2..];
      } else if rest[0] == DB_END {
        rest := rest[1..];
      } else if rest[0] == EXPIRETIME || rest[0] <= TYPE_NESTED {
        var expireAt, from := None, rest;
        if rest[0] == EXPIRETIME {
          var at := ReadU64(rest[1..]);
          if !at.Got? { return Load(dbs, Panicked); }
          expireAt, from := Some(at.value), at.rest;
        }
        match DecodeEntry(from)
        case Panic => return Load(dbs, Panicked);
        case BadType => return Load(dbs, Err(UnknownType));
        case Got((key, value), after) =>
          rest := after;
          if key != [] {
            if current >= |dbs| { return Load(dbs, Err(NoSuchDb)); }
            dbs := dbs[current := Put(dbs[current], key, value, expireAt)];
            count := count + 1;
          }
      } else {
        return Load(dbs, Err(UnknownOpcode));
      }
    }
    l := Load(dbs, Ok(count));
  }

  // ----- loading what was saved -----

  predicate ItemFits(x: Listed) {
    Short(x.key) && Fits(x.listing)
  }

  predicate DbFits(items: seq<Listed>) {
    forall x | x in items :: ItemFits(x)
  }

  function PutItem(db: Db, x: Listed): (r: Db) {
    if x.key == [] then db else Put(db, x.key, Rebuild(x.listing), x.expireAt)
  }

  function PutItems(db: Db, items: seq<Listed>): (r: Db)
    decreases |items|
  {
    if items == [] then db else PutItems(PutItem(db, items[0]), items[1..])
  }

  function Named(items: seq<Listed>): (n: nat) {
    if items == [] then 0 else (if items[0].key == [] then 0 else 1) + Named(items[1..])
  }

  lemma LoadItem(x: Listed, rest: bytes, current: nat, dbs: seq<Db>, count: nat)
    requires ItemFits(x) && current < |dbs|
    ensures LoadBody(ItemBytes(x) + rest, current, dbs, count)
         == LoadBody(rest, current, dbs[current := PutItem(dbs[current], x)], count + Named([x]))
  {
    hide DecodeEntry, Rebuild, Fits, U64, ReadU64, TypeByte, Blob, Body;
    var entry := EncodeEntry(x.key, x.listing);
    EntryRoundTrip(x.key, x.listing, rest);
    assert Named([x]) == if x.key == [] then 0 else 1;
    assert dbs[current := dbs[current]] == dbs;
    var s := ItemBytes(x) + rest;
    if x.expireAt.Some? {
      assert s[0] == EXPIRETIME && s[1..] == U64(x.expireAt.value) + (entry + rest);
      U64RoundTrip(x.expireAt.value, entry + rest);
    } else {
      assert s == entry + rest && s[0] == TypeByte(x.listing);
    }
  }

  lemma {:induction false} LoadItems(items: seq<Listed>, rest: bytes, current: nat, dbs: seq<Db>, count: nat)
    requires current < |dbs| && DbFits(items)
    ensures LoadBody(ConcatMap(items, ItemBytes) + rest, current, dbs, count)
         == LoadBody(rest, current, dbs[current := PutItems(dbs[current], items)], count + Named(items))
    decreases |items|
  {
    hide LoadBody, ItemBytes, ItemFits;
    if items == [] {
      assert ConcatMap(items, ItemBytes) + rest == rest && dbs[current := dbs[current]] == dbs;
    } else {
      var after := ConcatMap(items[1..], ItemBytes) + rest;
      assert ConcatMap(items, ItemBytes) + rest == ItemBytes(items[0]) + after;
      LoadItem(items[0], after, current, dbs, count);
      var dbs' := dbs[current := PutItem(dbs[current], items[0])];
      LoadItems(items[1..], rest, current, dbs', count + Named([items[0]]));
      assert dbs'[current := PutItems(dbs'[current], items[1..])] == dbs[current := PutItems(dbs[current], items)];
      assert Named(items) == Named([items[0]]) + Named(items[1..]);
    }
  }

  lemma LoadDb(index: nat, items: seq<Listed>, rest: bytes, current: nat, dbs: seq<Db>, count: nat)
    requires index < 256 && index < |dbs| && DbFits(items)
    ensures LoadBody(DbBytes(index, items) + rest, current, dbs, count)
         == LoadBody(rest, index, dbs[index := PutItems(dbs[index], items)], count + Named(items))
  {
    hide ItemBytes, DbFits, PutItems, ConcatMap, Named, DecodeEntry, ReadU64;
    var s := DbBytes(index, items) + rest;
    var body := ConcatMap(items, ItemBytes);
    var end := [DB_END] + rest;
    assert s[0] == DB_SELECT && s[1] == index && s[2..] == body + end;
    LoadItems(items, end, index, dbs, count);
    assert end[0] == DB_END && end[1..] == rest;
    var dbs' := dbs[index := PutItems(dbs[index], items)];
    assert LoadBody(end, index, dbs', count + Named(items)) == LoadBody(rest, index, dbs', count + Named(items));
  }

  function NamedIn(dbs: seq<seq<Listed>>): (n: nat) {
    if dbs == [] then 0 else Named(dbs[0]) + NamedIn(dbs[1..])
  }

  /** Each database with its own section's items put in. */
  function PutSections(first: nat, listed: seq<seq<Listed>>, dbs: seq<Db>): (r: seq<Db>)
    requires first + |listed| <= |dbs|
    ensures |r| == |dbs|
    decreases |listed|
  {
    if listed == [] then dbs
    else PutSections(first + 1, listed[1..], dbs[first := PutItems(dbs[first], listed[0])])
  }

  lemma LoadNothing(current: nat, dbs: seq<Db>, count: nat)
    ensures LoadBody([], current, dbs, count) == Load(dbs, Ok(count))
  {
  }

  predicate AllFit(listed: seq<seq<Listed>>) {
    forall i | 0 <= i < |listed| :: DbFits(listed[i])
  }

  lemma {:induction false} LoadSections(first: nat, listed: seq<seq<Listed>>, current: nat, dbs: seq<Db>, count: nat)
    requires first + |listed| <= 256 && first + |listed| <= |dbs| && AllFit(listed)
    ensures LoadBody(Sections(first, listed), current, dbs, count)
         == Load(PutSections(first, listed, dbs), Ok(count + NamedIn(listed)))
    decreases |listed|
  {
    hide DbBytes, DbFits, PutItems, Named, LoadBody;
    if listed == [] {
      LoadNothing(current, dbs, count);
    } else {
      var later := Sections(first + 1, listed[1..]);
      LoadDb(first, listed[0], later, current, dbs, count);
      var dbs' := dbs[first := PutItems(dbs[first], listed[0])];
      LoadSections(first + 1, listed[1..], first, dbs', count + Named(listed[0]));
    }
  }

  lemma {:induction false} PutSectionsAt(first: nat, listed: seq<seq<Listed>>, dbs: seq<Db>, j: nat)
    requires first + |listed| <= |dbs| && j < |dbs|
    ensures PutSections(first, listed, dbs)[j]
         == if first <= j < first + |listed| then PutItems(dbs[j], listed[j - first]) else dbs[j]
    decreases |listed|
  {
    hide PutItems;
    if listed != [] {
      PutSectionsAt(first + 1, listed[1..], dbs[first := PutItems(dbs[first], listed[0])], j);
    }
  }

  // ----- files that are refused -----

  /** When a file is refused before anything is read from it: it is short, it does not
      begin with VELO, or its checksum is not zero and not right. */
  lemma RefusedExactly(data: bytes, dbs: seq<Db>)
    ensures LoadFile(data, dbs).outcome == Err(TooShort) <==> |data| < 16
    ensures LoadFile(data, dbs).outcome == Err(BadMagic) <==> |data| >= 16 && data[..4] != [86, 69, 76, 79]
    ensures LoadFile(data, dbs).outcome == Err(CrcMismatch) <==>
              && |data| >= 16 && data[..4] == [86, 69, 76, 79]
              && FromLittleEndian(data[8..16]) != 0 && FromLittleEndian(data[8..16]) != Crc64(data[16..])
    ensures LoadFile(data, dbs).outcome in {Err(TooShort), Err(BadMagic), Err(CrcMismatch)} ==> LoadFile(data, dbs).dbs == dbs
  {
    if |data| >= 16 {
      BodyErrors(data[16..], 0, dbs, 0);
    }
  }

  lemma {:induction false} BodyErrors(s: bytes, current: nat, dbs: seq<Db>, count: nat)
    ensures var o := LoadBody(s, current, dbs, count).outcome;
            o.Ok? || o.Panicked? || o.error == UnknownOpcode || o.error == UnknownType || o.error == NoSuchDb
    decreases |s|
  {
    if s == [] {
    } else if s[0] == DB_SELECT {
      if |s| >= 2 { BodyErrors(s[2..], s[1], dbs, count); }
    } else if s[0] == DB_END {
      BodyErrors(s[1..], current, dbs, count);
    } else if s[0] == EXPIRETIME || s[0] <= TYPE_NESTED {
      var at := ReadU64(s[1..]);
      var from := if s[0] != EXPIRETIME then s else if at.Got? then at.rest else [];
      var d := DecodeEntry(from);
      if d.Got? && |d.rest| < |s| {
        var Got((key, value), rest) := d;
        BodyErrors(rest, current, dbs, count);
        if current < |dbs| {
          var expireAt := if s[0] == EXPIRETIME && at.Got? then Some(at.value) else None;
          BodyErrors(rest, current, dbs[current := Put(dbs[current], key, value, expireAt)], count + 1);
        }
      }
    }
  }

  /** Where reading the body stops, and that what was read before stays: at a byte that is
      no marker or type, at an entry for a database that does not exist, and at a section
      marker without its index. */
  lemma StopsAt(items: seq<Listed>, x: Listed, op: byte, rest: bytes, current: nat, dbs: seq<Db>, count: nat)
    requires current < |dbs| && DbFits(items) && ItemFits(x) && x.key != []
    ensures 6 < op < 253 ==>
              LoadBody(ConcatMap(items, ItemBytes) + ([op] + rest), current, dbs, count)
              == Load(dbs[current := PutItems(dbs[current], items)], Err(UnknownOpcode))
    ensures LoadBody(ConcatMap(items, ItemBytes) + [254], current, dbs, count)
         == Load(dbs[current := PutItems(dbs[current], items)], Panicked)
    ensures |dbs| <= op ==>
              LoadBody(ConcatMap(items, ItemBytes) + ([254, op] + (ItemBytes(x) + rest)), current, dbs, count)
              == Load(dbs[current := PutItems(dbs[current], items)], Err(NoSuchDb))
  {
    hide ConcatMap, ItemBytes, PutItems, DbFits, ItemFits, DecodeEntry, ReadU64, Named;
    var after := dbs[current := PutItems(dbs[current], items)];
    var count' := count + Named(items);
    LoadItems(items, [op] + rest, current, dbs, count);
    LoadItems(items, [254], current, dbs, count);
    if |dbs| <= op {
      var file := [254, op] + (ItemBytes(x) + rest);
      LoadItems(items, file, current, dbs, count);
      assert file[0] == 254 && file[1] == op && file[2..] == ItemBytes(x) + rest;
      LoadNowhere(x, rest, op, after, count');
    }
  }

  lemma LoadNowhere(x: Listed, rest: bytes, current: nat, dbs: seq<Db>, count: nat)
    requires ItemFits(x) && x.key != [] && current >= |dbs|
    ensures LoadBody(ItemBytes(x) + rest, current, dbs, count) == Load(dbs, Err(NoSuchDb))
  {
    hide DecodeEntry, Rebuild, Fits, U64, ReadU64, TypeByte, Blob, Body;
    var entry := EncodeEntry(x.key, x.listing);
    EntryRoundTrip(x.key, x.listing, rest);
    var s := ItemBytes(x) + rest;
    if x.expireAt.Some? {
      assert s[0] == EXPIRETIME && s[1..] == U64(x.expireAt.value) + (entry + rest);
      U64RoundTrip(x.expireAt.value, entry + rest);
    } else {
      assert s == entry + rest && s[0] == TypeByte(x.listing);
    }
  }

  /** The frame in bytes: a store of one empty database, and entries that expire or not. */
  lemma FileFormat(x: Listed, at: u64)
    ensures FileBytes([[]]) == [86, 69, 76, 79, 0, 1, 0, 0] + [253, 1, 0, 0, 0, 0, 0, 192] + [254, 0, 255]
    ensures ItemBytes(x.(expireAt := Some(at))) == [253] + U64(at) + EncodeEntry(x.key, x.listing)
    ensures ItemBytes(x.(expireAt := None)) == EncodeEntry(x.key, x.listing)
  {
    hide U64, EncodeEntry;
    assert Sections(0, [[]]) == [254, 0, 255] by {
      var none: seq<seq<Listed>> := [];
      var one: seq<seq<Listed>> := [[]];
      assert one[1..] == none;
    }
    EmptyChecksum();
  }

  lemma EmptyChecksum()
    ensures U64(Crc64([254, 0, 255])) == [253, 1, 0, 0, 0, 0, 0, 192]
  {
    CrcOfSums([254, 0, 255]);
    var data: bytes := [254, 0, 255];
    assert Sum(data) == 509 && Weight(data) == 508;
    assert Crc64(data) == 0xC000_0000_0000_01FD;
    assert LittleEndian(0xC0, 1) == [192];
    assert LittleEndian(0xC000, 2) == [0, 192];
    assert LittleEndian(0xC00000, 3) == [0, 0, 192];
    assert LittleEndian(0xC0000000, 4) == [0, 0, 0, 192];
    assert LittleEndian(0xC000000000, 5) == [0, 0, 0, 0, 192];
    assert LittleEndian(0xC00000000000, 6) == [0, 0, 0, 0, 0, 192];
    assert LittleEndian(0xC0000000000001, 7) == [1, 0, 0, 0, 0, 0, 192];
  }

  // ----- the round trip -----

  /** What a snapshot carries of a database: the live entries with a non-empty key, at
      version zero. */
  function Restored(db: Db, now: nat): (r: Db) {
    map k | k in LiveEntries(db, now) && k != [] :: LiveEntries(db, now)[k].(version := 0)
  }

  /** A database after a snapshot is loaded over it: entries of the snapshot replace those
      there, counting their versions on, and all others stay. */
  function LoadedOver(prior: Db, snapshot: Db): (r: Db) {
    map k | k in prior.Keys + snapshot.Keys ::
      if k !in snapshot then prior[k]
      else snapshot[k].(version := if k in prior then prior[k].version + 1 else 0)
  }

  /** Loading over an empty database leaves the snapshot. */
  lemma LoadedOverEmpty(snapshot: Db)
    requires forall k | k in snapshot :: snapshot[k].version == 0
    ensures LoadedOver(map[], snapshot) == snapshot
  {
  }

  ghost predicate ListsKey(items: seq<Listed>, k: bytes) {
    exists x | x in items :: x.key == k
  }

  lemma {:induction false} PutItemsExactly(db: Db, items: seq<Listed>)
    requires forall i, j | 0 <= i < j < |items| :: items[i].key != items[j].key
    ensures var r := PutItems(db, items);
            && (forall k :: k in r <==> k in db || (k != [] && ListsKey(items, k)))
            && (forall k | k in db && (k == [] || !ListsKey(items, k)) :: r[k] == db[k])
            && (forall x | x in items && x.key != [] ::
                  r[x.key] == Entry(Rebuild(x.listing), x.expireAt, if x.key in db then db[x.key].version + 1 else 0))
    decreases |items|
  {
    hide Rebuild;
    if items != [] {
      var head, tail, db' := items[0], items[1..], PutItem(db, items[0]);
      PutItemsExactly(db', tail);
      forall x | x in tail ensures x.key != head.key {
        var i :| 0 <= i < |tail| && tail[i] == x;
        assert items[i + 1] == x;
      }
      forall k ensures ListsKey(items, k) <==> k == head.key || ListsKey(tail, k) {
        assert forall x :: x in items <==> x == head || x in tail;
      }
    }
  }

  lemma RestoredKeys(items: seq<Listed>, db: Db, now: nat)
    requires ListsDb(items, db, now)
    ensures forall k :: k in Restored(db, now) <==> k != [] && ListsKey(items, k)
    ensures forall x | x in items && x.key != [] ::
              Restored(db, now)[x.key] == Entry(db[x.key].value, x.expireAt, 0)
  {
    hide Lists;
    forall k ensures k in Restored(db, now) <==> k != [] && ListsKey(items, k) {
      if k in Restored(db, now) {
        var x :| x in items && x.key == k;
      }
    }
  }

  /** The number a load reports for a database is the number of entries it carries. */
  lemma NamedCounts(items: seq<Listed>, db: Db, now: nat)
    requires ListsDb(items, db, now)
    ensures Named(items) == |Restored(db, now)|
  {
    NamedKeys(items);
    RestoredKeys(items, db, now);
    assert Restored(db, now).Keys == KeysOf(items);
    assert |Restored(db, now).Keys| == |Restored(db, now)|;
  }

  function KeysOf(items: seq<Listed>): (keys: set<bytes>) {
    set x | x in items && x.key != [] :: x.key
  }

  lemma {:induction false} NamedKeys(items: seq<Listed>)
    requires forall i, j | 0 <= i < j < |items| :: items[i].key != items[j].key
    ensures Named(items) == |KeysOf(items)|
  {
    if items != [] {
      NamedKeys(items[1..]);
      var rest := KeysOf(items[1..]);
      assert KeysOf(items) == (if items[0].key == [] then {} else {items[0].key}) + rest;
      assert items[0].key !in rest;
    }
  }

  /** A listed database put into any other is the loaded one. */
  lemma PutItemsRestores(items: seq<Listed>, db: Db, now: nat, prior: Db)
    requires ListsDb(items, db, now) && forall k | k in LiveEntries(db, now) :: Indexed(db[k].value)
    ensures PutItems(prior, items) == LoadedOver(prior, Restored(db, now))
  {
    forall x | x in items ensures Rebuild(x.listing) == db[x.key].value {
      hide Rebuild, Lists, Indexed;
      RebuildListed(x.listing, db[x.key].value);
    }
    RestoredKeys(items, db, now);
    PutItemsExactly(prior, items);
    hide Rebuild, ListsDb, Restored, PutItems, LiveEntries, Indexed, LoadedOver;
    var r, snapshot := PutItems(prior, items), Restored(db, now);
    forall k | k in snapshot
      ensures k in r && r[k] == snapshot[k].(version := if k in prior then prior[k].version + 1 else 0)
    {
      var x :| x in items && x.key == k;
    }
    IsLoadedOver(prior, snapshot, r);
  }

  lemma IsLoadedOver(prior: Db, snapshot: Db, r: Db)
    requires forall k :: k in r <==> k in prior || k in snapshot
    requires forall k | k in prior && k !in snapshot :: r[k] == prior[k]
    requires forall k | k in snapshot :: r[k] == snapshot[k].(version := if k in prior then prior[k].version + 1 else 0)
    ensures r == LoadedOver(prior, snapshot)
  {
    assert r.Keys == LoadedOver(prior, snapshot).Keys;
  }

  /** Header and checksum of a saved file are accepted. */
  lemma SavedHeaderAccepted(listed: seq<seq<Listed>>, dbs: seq<Db>)
    ensures LoadFile(FileBytes(listed), dbs) == LoadBody(Sections(0, listed), 0, dbs, 0)
  {
    hide Crc64, LoadBody, Sections, U64;
    var body := Sections(0, listed);
    var file := FileBytes(listed);
    assert file[..4] == MAGIC && file[8..16] == U64(Crc64(body)) && file[16..] == body;
    CrcField(Crc64(body));
  }

  lemma CrcField(n: u64)
    ensures FromLittleEndian(U64(n)) == n
  {
    WordWidths();
    LittleEndianRoundTrip(n, 8);
  }

  /** Loading a snapshot into any store: for at most 256 databases whose lengths fit 32
      bits, saved in any iteration order at any time, every database saved is loaded over
      the one there, and further databases are left alone. */
  lemma RdbLoadedOver(dbs: seq<Db>, now: nat, listed: seq<seq<Listed>>, store: seq<Db>)
    requires |listed| == |dbs| <= 256 && |dbs| <= |store|
    requires forall i | 0 <= i < |dbs| :: ListsDb(listed[i], dbs[i], now)
    requires forall db: Db, k | db in dbs && k in LiveEntries(db, now) :: Indexed(db[k].value)
    requires AllFit(listed)
    ensures LoadFile(FileBytes(listed), store)
         == Load(seq(|store|, i requires 0 <= i < |store| =>
                   if i < |dbs| then LoadedOver(store[i], Restored(dbs[i], now)) else store[i]),
                 Ok(NamedIn(listed)))
  {
    hide LoadBody, Sections, AllFit, ListsDb, Restored, Indexed, FileBytes, LoadFile, PutItems, PutSections, LoadedOver;
    SavedHeaderAccepted(listed, store);
    LoadSections(0, listed, 0, store, 0);
    var end := PutSections(0, listed, store);
    forall i | 0 <= i < |store|
      ensures end[i] == if i < |dbs| then LoadedOver(store[i], Restored(dbs[i], now)) else store[i]
    {
      PutSectionsAt(0, listed, store, i);
      if i < |dbs| {
        PutItemsRestores(listed[i], dbs[i], now, store[i]);
      }
    }
    assert end == seq(|store|, i requires 0 <= i < |store| =>
                        if i < |dbs| then LoadedOver(store[i], Restored(dbs[i], now)) else store[i]);
  }

  /** RDB round trip: into an empty store, loading restores exactly the live entries with
      a non-empty key, values, score indexes and expiry times included, and nothing else. */
  lemma RdbRoundTrip(dbs: seq<Db>, now: nat, listed: seq<seq<Listed>>)
    requires |listed| == |dbs| <= 256
    requires forall i | 0 <= i < |dbs| :: ListsDb(listed[i], dbs[i], now)
    requires forall db: Db, k | db in dbs && k in LiveEntries(db, now) :: Indexed(db[k].value)
    requires AllFit(listed)
    ensures LoadFile(FileBytes(listed), seq(|dbs|, _ => map[]))
         == Load(seq(|dbs|, i requires 0 <= i < |dbs| => Restored(dbs[i], now)), Ok(NamedIn(listed)))
  {
    hide LoadFile, FileBytes, AllFit, ListsDb, Indexed, LoadedOver;
    var empty: seq<Db> := seq(|dbs|, _ => map[]);
    RdbLoadedOver(dbs, now, listed, empty);
    forall i | 0 <= i < |dbs| ensures LoadedOver(empty[i], Restored(dbs[i], now)) == Restored(dbs[i], now) {
      LoadedOverEmpty(Restored(dbs[i], now));
    }
    assert LoadFile(FileBytes(listed), empty).dbs == seq(|dbs|, i requires 0 <= i < |dbs| => Restored(dbs[i], now));
  }

  /** What the snapshot says of a key, but for its version. */
  function Bare(db: Db): (r: Db) {
    map k | k in db :: db[k].(version := 0)
  }

  /** A replica that loads a snapshot over what it held then holds what the snapshot
      carries, and nothing else, if and only if it held no key the snapshot does not have. */
  lemma StaleExactly(prior: Db, db: Db, now: nat)
    ensures var snapshot := Restored(db, now);
            && (Bare(LoadedOver(prior, snapshot)) == snapshot <==> prior.Keys <= snapshot.Keys)
            && (forall k | k in prior && k !in snapshot ::
                  k in LoadedOver(prior, snapshot) && LoadedOver(prior, snapshot)[k] == prior[k])
  {
    var snapshot := Restored(db, now);
    var r := Bare(LoadedOver(prior, snapshot));
    assert r.Keys == prior.Keys + snapshot.Keys;
    if prior.Keys <= snapshot.Keys {
      assert r.Keys == snapshot.Keys;
      assert forall k | k in snapshot :: r[k] == snapshot[k];
    }
  }

  /** So a key outlives a master that restarted empty: loading its snapshot, a saved
      empty database, leaves the replica with everything it held before. */
  lemma StaleKeysSurvive(prior: Db, now: nat)
    ensures LoadFile(FileBytes([[]]), [prior]) == Load([prior], Ok(0))
  {
    hide LoadFile, FileBytes;
    var listed: seq<seq<Listed>>, none: Db := [[]], map[];
    assert NamedIn(listed) == 0;
    RdbLoadedOver([none], now, listed, [prior]);
    assert LoadedOver(prior, Restored(none, now)) == prior;
    assert LoadFile(FileBytes(listed), [prior]).dbs == [prior];
  }

  /** A file whose stored checksum is right and not zero is rejected, with the store
      untouched, after any single byte of its payload is changed. */
  lemma OneByteRejected(file: bytes, dbs: seq<Db>, i: nat, b: byte)
    requires |file| >= 16 && file[..4] == MAGIC
    requires FromLittleEndian(file[8..16]) == Crc64(file[16..]) != 0
    requires 16 <= i < |file| && b != file[i]
    ensures LoadFile(file[i := b], dbs) == Load(dbs, Err(CrcMismatch))
  {
    hide Crc64, LoadBody, FromLittleEndian;
    var bad := file[i := b];
    assert bad[..4] == file[..4] && bad[8..16] == file[8..16];
    assert bad[16..] == file[16..][i - 16 := b];
    OneByteDetected(file[16..], i - 16, b);
  }
}
