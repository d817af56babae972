/**
  Rewriting the append-only file: the dataset as a minimal list of commands, and what
  replaying that list into an empty store rebuilds.
 */
module AofRewrite {
  import opened Bytes
  import opened Listings
  import opened Values
  import opened CommandLog
  import opened Commands
  import ZSets
  import Rdb
  import Streams

  // ----- the commands of a value -----

  function Scored(pairs: seq<(bytes, Score)>, fmt: ScoreText): (args: seq<bytes>) {
    if pairs == [] then [] else [fmt.show(pairs[0].1), pairs[0].0] + Scored(pairs[1..], fmt)
  }

  function AddEntry(key: bytes, e: StreamEntry): (cmd: Command) {
    [XADD, key, Streams.IdText(e.id)] + Unpaired(e.fields)
  }

  function AddEntries(key: bytes, entries: seq<StreamEntry>): (cmds: seq<Command>)
    ensures |cmds| == |entries|
    ensures forall i | 0 <= i < |entries| :: cmds[i] == AddEntry(key, entries[i])
  {
    seq(|entries|, i requires 0 <= i < |entries| => AddEntry(key, entries[i]))
  }

  function SetInner(key: bytes, field: bytes, inner: seq<(bytes, bytes)>): (cmds: seq<Command>)
    ensures |cmds| == |inner|
    ensures forall i | 0 <= i < |inner| :: cmds[i] == [NHSET, key, field, inner[i].0, inner[i].1]
  {
    seq(|inner|, i requires 0 <= i < |inner| => [NHSET, key, field, inner[i].0, inner[i].1])
  }

  function SetOuter(key: bytes, outer: seq<(bytes, seq<(bytes, bytes)>)>): (cmds: seq<Command>) {
    if outer == [] then []
    else
      var n := |outer| - 1;
      SetOuter(key, outer[..n]) + SetInner(key, outer[n].0, outer[n].1)
  }

  /** `commands_for_value`: one constructing command for most types, one per entry for
      streams, one per leaf for nested hashes, none for an empty container. */
  function CommandsFor(key: bytes, l: Listing, fmt: ScoreText): (cmds: seq<Command>) {
    match l
    case TextListing(text) => [[SET, key, text]]
    case ListListing(items) => if items == [] then [] else [[RPUSH, key] + items]
    case SetListing(elements) => if elements == [] then [] else [[SADD, key] + elements]
    case HashListing(fields) => if fields == [] then [] else [[HSET, key] + Unpaired(fields)]
    case ZSetListing(members) => if members == [] then [] else [[ZADD, key] + Scored(members, fmt)]
    case StreamListing(entries, _) => AddEntries(key, entries)
    case NestedListing(outer) => SetOuter(key, outer)
  }

  /** The commands in bytes: what is written for a value of each type. */
  lemma CommandForms(
    key: bytes, a: bytes, b: bytes, c: bytes, score: Score, e: StreamEntry, last: StreamId, fmt: ScoreText)
    ensures CommandsFor(key, TextListing(a), fmt) == [[[83, 69, 84], key, a]]
    ensures CommandsFor(key, ListListing([a, b]), fmt) == [[[82, 80, 85, 83, 72], key, a, b]]
    ensures CommandsFor(key, SetListing([a, b]), fmt) == [[[83, 65, 68, 68], key, a, b]]
    ensures CommandsFor(key, HashListing([(a, b)]), fmt) == [[[72, 83, 69, 84], key, a, b]]
    ensures CommandsFor(key, ZSetListing([(a, score)]), fmt) == [[[90, 65, 68, 68], key, fmt.show(score), a]]
    ensures CommandsFor(key, StreamListing([e], last), fmt)
         == [[[88, 65, 68, 68], key, Digits(e.id.ms) + [45] + Digits(e.id.seqNo)] + Unpaired(e.fields)]
    ensures CommandsFor(key, NestedListing([(a, [(b, c)])]), fmt) == [[[78, 72, 83, 69, 84], key, a, b, c]]
  {
    PairForms(a, b, [], []);
    hide Unpaired;
    assert [(a, b)] + [] == [(a, b)] && [a, b] + [] == [a, b];
    assert [RPUSH, key] + [a, b] == [RPUSH, key, a, b];
    assert [SADD, key] + [a, b] == [SADD, key, a, b];
    assert [HSET, key] + [a, b] == [HSET, key, a, b];
    assert [(a, score)][1..] == [];
    assert Scored([(a, score)], fmt) == [fmt.show(score), a] + [] == [fmt.show(score), a];
    assert [ZADD, key] + [fmt.show(score), a] == [ZADD, key, fmt.show(score), a];
    assert [(a, [(b, c)])][..0] == [];
    assert SetOuter(key, [(a, [(b, c)])]) == [] + SetInner(key, a, [(b, c)]);
  }

  function ItemCommands(x: Listed, fmt: ScoreText): (cmds: seq<Command>) {
    CommandsFor(x.key, x.listing, fmt)
    + if x.expireAt.Some? then [[PEXPIREAT, x.key, Digits(x.expireAt.value)]] else []
  }

  function DbCommands(items: seq<Listed>, fmt: ScoreText): (cmds: seq<Command>) {
    if items == [] then []
    else
      var n := |items| - 1;
      DbCommands(items[..n], fmt) + ItemCommands(items[n], fmt)
  }

  /** A database's section: nothing when it is empty, and SELECT only when the store
      has several databases. */
  function Section(index: nat, total: nat, items: seq<Listed>, fmt: ScoreText): (cmds: seq<Command>) {
    if items == [] then []
    else (if total > 1 then [[SELECT, Digits(index)]] else []) + DbCommands(items, fmt)
  }

  function Rewrite(listed: seq<seq<Listed>>, upTo: nat, fmt: ScoreText): (cmds: seq<Command>)
    requires upTo <= |listed|
  {
    if upTo == 0 then []
    else Rewrite(listed, upTo - 1, fmt) + Section(upTo - 1, |listed|, listed[upTo - 1], fmt)
  }

  // ----- what replay rebuilds -----

  /** The last id of a replayed stream. */
  function LastOf(entries: seq<StreamEntry>): (id: StreamId) {
    if entries == [] then ZERO_ID else entries[|entries| - 1].id
  }

  predicate Accepts(before: seq<StreamEntry>, e: StreamEntry) {
    LastOf(before).Below(e.id) && e.fields != []
  }

  /** The entries of a stream that their own XADD commands add: those with fields whose
      id is above the last one added. */
  function Accepted(entries: seq<StreamEntry>): (kept: seq<StreamEntry>) {
    if entries == [] then []
    else
      var n := |entries| - 1;
      var before := Accepted(entries[..n]);
      if Accepts(before, entries[n]) then before + [entries[n]] else before
  }

  /** The value a rewrite keeps of a value: empty containers are lost, empty inner
      hashes are lost, and of a stream the entries replay refuses are lost and the last
      id becomes that of the last entry left. */
  function Kept(v: Value): (k: Option<Value>) {
    match v
    case Text(_) => Some(v)
    case List(items) => if items == [] then None else Some(v)
    case Set(elements) => if elements == {} then None else Some(v)
    case Hash(fields) => if fields == map[] then None else Some(v)
    case ZSet(members, _) => if members == map[] then None else Some(v)
    case Stream(entries, _) =>
      var kept := Accepted(entries);
      if kept == [] then None else Some(Stream(kept, LastOf(kept)))
    case NestedHash(outer) =>
      var rest := map f | f in outer && outer[f] != map[] :: outer[f];
      if rest == map[] then None else Some(NestedHash(rest))
  }

  /** SET starts versions at one, the other commands at zero. */
  function FirstVersion(v: Value): (n: nat) {
    if v.Text? then 1 else 0
  }

  function Rewritten(db: Db, now: nat): (r: Db) {
    map k | k in LiveEntries(db, now) && Kept(db[k].value).Some? ::
      Entry(Kept(db[k].value).value, db[k].expireAt, FirstVersion(db[k].value))
  }

  lemma {:induction false} AcceptedOrdered(entries: seq<StreamEntry>)
    ensures var kept := Accepted(entries);
            && Increasing(kept) && |kept| <= |entries|
            && forall e | e in kept :: ZERO_ID.Below(e.id) && e.id.AtMost(LastOf(kept)) && e.fields != []
  {
    if entries != [] {
      var n := |entries| - 1;
      AcceptedOrdered(entries[..n]);
      var before := Accepted(entries[..n]);
      if Accepts(before, entries[n]) {
        forall e | e in before ensures e.id.Below(entries[n].id) {
          Streams.BelowTransitive(e.id, LastOf(before), entries[n].id);
        }
        Streams.IncreasingSnoc(before, entries[n]);
        assert before != [] ==> before[|before| - 1] in before;
      }
    }
  }

  /** An entry stands out if it has fields, an id above zero, and no earlier entry with
      fields has an id as high. */
  ghost predicate StandsOut(entries: seq<StreamEntry>, i: nat)
    requires i < |entries|
  {
    && entries[i].fields != [] && ZERO_ID.Below(entries[i].id)
    && forall j | 0 <= j < i && entries[j].fields != [] :: entries[j].id.Below(entries[i].id)
  }

  lemma StandsOutBefore(entries: seq<StreamEntry>, n: nat, i: nat)
    requires i < n <= |entries|
    ensures StandsOut(entries, i) <==> StandsOut(entries[..n], i)
  {
    assert forall j | 0 <= j < n :: entries[..n][j] == entries[j];
  }

  lemma IncreasingInit(entries: seq<StreamEntry>)
    requires entries != [] && Increasing(entries)
    ensures Increasing(entries[..|entries| - 1])
    ensures forall e | e in entries[..|entries| - 1] :: e.id.Below(entries[|entries| - 1].id)
  {
    assert forall j | 0 <= j < |entries| - 1 :: entries[..|entries| - 1][j] == entries[j];
  }

  /** Replay keeps exactly the entries that stand out, in order. */
  lemma AcceptedExactly(entries: seq<StreamEntry>)
    ensures var kept := Accepted(entries);
            && Increasing(kept)
            && (forall e | e in kept :: exists i | 0 <= i < |entries| :: StandsOut(entries, i) && entries[i] == e)
            && (forall i | 0 <= i < |entries| && StandsOut(entries, i) :: entries[i] in kept)
  {
    hide StandsOut, Accepted, Increasing;
    AcceptedOrdered(entries);
    KeptStandOut(entries);
    forall i | 0 <= i < |entries| && StandsOut(entries, i) ensures entries[i] in Accepted(entries) {
      StandOutKept(entries, i);
    }
  }

  /** Every entry with fields is at most the last one kept. */
  lemma {:induction false} AcceptedBound(entries: seq<StreamEntry>)
    ensures forall e | e in entries && e.fields != [] :: e.id.AtMost(LastOf(Accepted(entries)))
  {
    if entries != [] {
      hide StreamId.Below;
      var n := |entries| - 1;
      var e, before := entries[n], Accepted(entries[..n]);
      AcceptedBound(entries[..n]);
      assert entries == entries[..n] + [e];
      Streams.BelowTotal(LastOf(before), e.id);
      if Accepts(before, e) {
        forall d | d in entries[..n] && d.fields != [] ensures d.id.AtMost(e.id) {
          Streams.BelowTransitive(d.id, LastOf(before), e.id);
        }
      }
    }
  }

  /** The last entry is accepted exactly if it stands out. */
  lemma AcceptsLast(entries: seq<StreamEntry>)
    requires entries != []
    ensures Accepts(Accepted(entries[..|entries| - 1]), entries[|entries| - 1]) <==> StandsOut(entries, |entries| - 1)
  {
    hide Accepts, StandsOut, Increasing;
    var init := entries[..|entries| - 1];
    AcceptedBound(init);
    AcceptedOrdered(init);
    KeptBefore(init);
    LastStandsOut(entries, Accepted(init));
  }

  lemma {:induction false} KeptStandOut(entries: seq<StreamEntry>)
    ensures forall e | e in Accepted(entries) :: exists i | 0 <= i < |entries| :: StandsOut(entries, i) && entries[i] == e
  {
    if entries != [] {
      hide Accepts, StandsOut;
      var n := |entries| - 1;
      KeptStandOut(entries[..n]);
      AcceptsLast(entries);
      forall d | d in Accepted(entries[..n]) ensures exists i | 0 <= i < |entries| :: StandsOut(entries, i) && entries[i] == d {
        var i :| 0 <= i < n && StandsOut(entries[..n], i) && entries[..n][i] == d;
        StandsOutBefore(entries, n, i);
        assert StandsOut(entries, i) && entries[i] == d;
      }
    }
  }

  lemma {:induction false} StandOutKept(entries: seq<StreamEntry>, i: nat)
    requires i < |entries| && StandsOut(entries, i)
    ensures entries[i] in Accepted(entries)
  {
    hide Accepts, StandsOut;
    var n := |entries| - 1;
    AcceptsLast(entries);
    if i < n {
      StandsOutBefore(entries, n, i);
      StandOutKept(entries[..n], i);
    }
  }

  lemma {:induction false} KeptBefore(entries: seq<StreamEntry>)
    ensures forall e | e in Accepted(entries) :: e in entries
  {
    if entries != [] {
      var n := |entries| - 1;
      KeptBefore(entries[..n]);
      assert entries == entries[..n] + [entries[n]];
    }
  }

  lemma LastStandsOut(entries: seq<StreamEntry>, before: seq<StreamEntry>)
    requires entries != []
    requires forall e | e in entries[..|entries| - 1] && e.fields != [] :: e.id.AtMost(LastOf(before))
    requires forall e | e in before :: e in entries[..|entries| - 1] && e.fields != [] && ZERO_ID.Below(e.id)
    ensures Accepts(before, entries[|entries| - 1]) <==> StandsOut(entries, |entries| - 1)
  {
    var n := |entries| - 1;
    var e := entries[n];
    if Accepts(before, e) {
      forall j | 0 <= j < n && entries[j].fields != [] ensures entries[j].id.Below(e.id) {
        assert entries[j] in entries[..n];
        Streams.BelowTransitive(entries[j].id, LastOf(before), e.id);
      }
      assert before != [] ==> before[|before| - 1] in before;
    }
  }

  /** Replay keeps all of a stream if and only if its ids increase from above zero and
      no entry is without fields. */
  lemma AcceptedAll(entries: seq<StreamEntry>)
    ensures Accepted(entries) == entries
            <==> Increasing(entries) && forall e | e in entries :: ZERO_ID.Below(e.id) && e.fields != []
  {
    AcceptedOrdered(entries);
    hide Increasing, StreamId.Below;
    if Increasing(entries) && forall e | e in entries :: ZERO_ID.Below(e.id) && e.fields != [] {
      IncreasingAccepted(entries);
    }
  }

  lemma {:induction false} IncreasingAccepted(entries: seq<StreamEntry>)
    requires Increasing(entries) && forall e | e in entries :: ZERO_ID.Below(e.id) && e.fields != []
    ensures Accepted(entries) == entries
  {
    hide Increasing, StreamId.Below;
    if entries != [] {
      var n := |entries| - 1;
      var init, last := entries[..n], entries[n];
      IncreasingInit(entries);
      assert entries == init + [last];
      IncreasingAccepted(init);
      assert last in entries && init != [] ==> init[|init| - 1] in init;
    }
  }

  /** A rewrite keeps a value exactly as it is if and only if it is not an empty
      container, holds no empty inner hash, and, for a stream, its ids increase from
      above zero, no entry is without fields, and its last id is that of its last entry. */
  lemma KeptExactly(v: Value)
    ensures Kept(v) == Some(v) <==>
            match v
            case Text(_) => true
            case List(items) => items != []
            case Set(elements) => elements != {}
            case Hash(fields) => fields != map[]
            case ZSet(members, _) => members != map[]
            case Stream(entries, lastId) =>
              && entries != [] && lastId == entries[|entries| - 1].id
              && Increasing(entries)
              && forall e | e in entries :: ZERO_ID.Below(e.id) && e.fields != []
            case NestedHash(outer) => outer != map[] && forall f | f in outer :: outer[f] != map[]
  {
    if v.NestedHash? {
      var outer := v.outer;
      var rest := map f | f in outer && outer[f] != map[] :: outer[f];
      if forall f | f in outer :: outer[f] != map[] {
        assert rest == outer;
      } else {
        var f :| f in outer && outer[f] == map[];
        assert f !in rest;
      }
    } else if v.Stream? {
      AcceptedAll(v.entries);
    }
  }

  /** Such a loss can be brought about by commands: a stream expires, XADD appends a lower
      id behind the stored entry, and a new expiry time makes the key live again. */
  lemma RevivedStreamLosesEntry(key: bytes, fields: seq<(bytes, bytes)>, now: u64, later: u64)
    requires fields != [] && 1 <= now < later
    ensures var five, three := StreamEntry(StreamId(5, 0), fields), StreamEntry(StreamId(3, 0), fields);
            var expired := RunPExpireAt(RunXAdd(map[], key, Streams.IdText(five.id), fields, now), key, 1);
            var revived := RunPExpireAt(RunXAdd(expired, key, Streams.IdText(three.id), fields, now), key, later);
            && Lookup(revived, key, now) == Some(Entry(Stream([five, three], three.id), Some(later), 0))
            && Kept(revived[key].value) == Some(Stream([five], five.id))
  {
    hide Streams.ParseIdSpec, Streams.IdText;
    var five, three := StreamEntry(StreamId(5, 0), fields), StreamEntry(StreamId(3, 0), fields);
    Streams.IdTextRoundTrip(five.id);
    Streams.IdTextRoundTrip(three.id);
    assert [] + [five] == [five] && [five] + [three] == [five, three];
    assert [five, three][..1] == [five] && [five][..0] == [];
    assert Accepted([five]) == [five];
  }

  /** The database after a value's commands, on a database without the key. */
  function Built(db: Db, key: bytes, v: Option<Value>, version: nat): (r: Db) {
    if v == None then db else db[key := Entry(v.value, None, version)]
  }

  // ----- each value is rebuilt -----

  lemma RunOne(db: Db, cmd: Command, now: u64, fmt: ScoreText)
    requires cmd != []
    ensures RunAllOn(db, [cmd], now, fmt) == RunOn(db, cmd, now, fmt)
  {
    hide RunOn;
    match RunOn(db, cmd, now, fmt)
    case None =>
    case Some(db') => assert RunAllOn(db', [cmd][1..], now, fmt) == Some(db');
  }

  lemma {:induction false} ScoredParses(pairs: seq<(bytes, Score)>, fmt: ScoreText) returns (items: seq<(Score, bytes)>)
    requires RoundTrips(fmt) && forall p | p in pairs :: !IsNaN(p.1)
    ensures ParseScored(Scored(pairs, fmt), fmt) == Some(items)
    ensures |items| == |pairs| && forall i | 0 <= i < |pairs| :: items[i] == (pairs[i].1, pairs[i].0)
  {
    items := [];
    if pairs != [] {
      assert !IsNaN(pairs[0].1);
      var rest := ScoredParses(pairs[1..], fmt);
      items := [(pairs[0].1, pairs[0].0)] + rest;
      assert Scored(pairs, fmt)[2..] == Scored(pairs[1..], fmt);
    }
  }

  /** Inserting listed members one by one is building the set from the listing. */
  lemma {:induction false} InsertsBuild(pairs: seq<(bytes, Score)>, items: seq<(Score, bytes)>, k: nat)
    requires DistinctKeys(pairs) && |items| == |pairs| && k <= |pairs|
    requires forall p | p in pairs :: !IsNaN(p.1)
    requires forall i | 0 <= i < |pairs| :: items[i] == (pairs[i].1, pairs[i].0)
    ensures ZSets.Apply(Rdb.BuildZSet(pairs[..k]), ZSets.AddOps(items)[k..]) == Rdb.BuildZSet(pairs)
    decreases |pairs| - k
  {
    if k == |pairs| {
      assert pairs[..k] == pairs;
    } else {
      hide IsNaN;
      InsertBuilds(pairs, k);
      hide DistinctKeys, Rdb.BuildZSet, ZSets.Insert;
      var ops := ZSets.AddOps(items);
      assert ops[k..][1..] == ops[k + 1..] && ops[k..][0] == ZSets.Zadd(pairs[k].0, pairs[k].1);
      InsertsBuild(pairs, items, k + 1);
    }
  }

  lemma InsertBuilds(pairs: seq<(bytes, Score)>, k: nat)
    requires DistinctKeys(pairs) && k < |pairs| && forall p | p in pairs :: !IsNaN(p.1)
    ensures ZSets.Insert(Rdb.BuildZSet(pairs[..k]), pairs[k].0, pairs[k].1) == Rdb.BuildZSet(pairs[..k + 1])
  {
    hide IsNaN, ZSets.InSync;
    Rdb.BuildZSetInSync(pairs[..k]);
    assert pairs[k].0 !in Rdb.BuildZSet(pairs[..k]).members by {
      assert forall p | p in pairs[..k] :: p.0 != pairs[k].0;
    }
    assert pairs[..k + 1][..k] == pairs[..k];
  }

  /** ZADD with arguments that parse. */
  lemma ZAddRun(db: Db, key: bytes, args: seq<bytes>, items: seq<(Score, bytes)>, now: u64, fmt: ScoreText)
    requires ParseScored(args, fmt) == Some(items) && forall i | 0 <= i < |items| :: !IsNaN(items[i].0)
    ensures RunOn(db, [ZADD, key] + args, now, fmt) == Some(RunZAdd(db, key, items))
  {
    hide VerbOf, ParseScored, RunZAdd;
    Verbs();
    var cmd := [ZADD, key] + args;
    assert cmd[1..][0] == key && cmd[1..][1..] == args;
  }

  lemma ZSetRebuilt(db: Db, key: bytes, pairs: seq<(bytes, Score)>, now: u64, fmt: ScoreText)
    requires key !in db && DistinctKeys(pairs)
    requires RoundTrips(fmt) && forall p | p in pairs :: !IsNaN(p.1)
    ensures RunOn(db, [ZADD, key] + Scored(pairs, fmt), now, fmt)
         == Some(Built(db, key, Some(Rdb.BuildZSet(pairs)), 0))
  {
    hide RunOn, RoundTrips, ParseScored, Scored, IsNaN, DistinctKeys, ZSets.Apply, ZSets.AddOps;
    var items := ScoredParses(pairs, fmt);
    assert forall i | 0 <= i < |items| :: pairs[i] in pairs;
    ZAddRun(db, key, Scored(pairs, fmt), items, now, fmt);
    InsertsBuild(pairs, items, 0);
    assert Rdb.BuildZSet(pairs[..0]) == ZSet(map[], map[]);
    assert ZSets.AddOps(items)[0..] == ZSets.AddOps(items);
  }

  /** The stream once the commands of its first `k` entries have been replayed. */
  function StreamSoFar(db: Db, key: bytes, entries: seq<StreamEntry>, k: nat): (r: Db)
    requires k <= |entries|
  {
    var kept := Accepted(entries[..k]);
    if kept == [] then db else db[key := Entry(Stream(kept, LastOf(kept)), None, 0)]
  }

  lemma EntryAdded(db: Db, key: bytes, entries: seq<StreamEntry>, k: nat, now: u64, fmt: ScoreText)
    requires key !in db && k < |entries|
    ensures RunOn(StreamSoFar(db, key, entries, k), AddEntry(key, entries[k]), now, fmt)
         == Some(StreamSoFar(db, key, entries, k + 1))
  {
    hide VerbOf, Upper, Unpaired, Streams.ParseIdSpec, Streams.IdText;
    Verbs();
    var e, before, kept := entries[k], StreamSoFar(db, key, entries, k), Accepted(entries[..k]);
    var cmd := AddEntry(key, e);
    assert cmd[1..][0] == key && cmd[1..][1] == Streams.IdText(e.id) && cmd[1..][2..] == Unpaired(e.fields);
    IdIsNotMaxlen(e.id);
    Streams.IdTextRoundTrip(e.id);
    PairsOfUnpaired(e.fields);
    assert entries[..k + 1][..k] == entries[..k] && entries[..k + 1][k] == e;
    assert RunOn(before, cmd, now, fmt) == Some(RunXAdd(before, key, Streams.IdText(e.id), e.fields, now));
    AppendReplayed(kept, e, now);
    if Accepts(kept, e) {
      var end := Entry(Stream(kept + [e], e.id), None, 0);
      assert before[key := end] == db[key := end];
    }
  }

  /** XADD with an explicit id onto a replayed stream. */
  lemma AppendReplayed(kept: seq<StreamEntry>, e: StreamEntry, now: u64)
    ensures var added := Streams.Append(Stream(kept, LastOf(kept)), kept != [], Streams.Explicit(e.id), e.fields, None, now);
            added == if LastOf(kept).Below(e.id) then Streams.Added(Stream(kept + [e], e.id), e.id)
                     else Streams.Rejected(Streams.IdTooSmall)
  {
  }

  lemma {:induction false} EntriesAdded(db: Db, key: bytes, entries: seq<StreamEntry>, k: nat, now: u64, fmt: ScoreText)
    requires key !in db && k <= |entries|
    ensures AllNamed(AddEntries(key, entries))
    ensures RunAllOn(StreamSoFar(db, key, entries, k), AddEntries(key, entries)[k..], now, fmt)
         == Some(StreamSoFar(db, key, entries, |entries|))
    decreases |entries| - k
  {
    hide RunOn, AddEntry, StreamSoFar;
    assert AllNamed(AddEntries(key, entries)) by {
      forall i | 0 <= i < |entries| ensures AddEntries(key, entries)[i] != [] {
        EntryNamed(key, entries[i]);
      }
    }
    if k < |entries| {
      EntryAdded(db, key, entries, k, now, fmt);
      EntriesAdded(db, key, entries, k + 1, now, fmt);
      assert AddEntries(key, entries)[k..][1..] == AddEntries(key, entries)[k + 1..];
    }
  }

  lemma EntryNamed(key: bytes, e: StreamEntry)
    ensures AddEntry(key, e) != [] && AddEntry(key, e)[0] == XADD
  {
  }

  // ----- nested hashes, leaf by leaf -----

  /** The outer map after the listed inner hashes; an empty one leaves no trace. */
  function Outer(pairs: seq<(bytes, seq<(bytes, bytes)>)>): (m: map<bytes, map<bytes, bytes>>) {
    if pairs == [] then map[]
    else
      var n := |pairs| - 1;
      if pairs[n].1 == [] then Outer(pairs[..n]) else Outer(pairs[..n])[pairs[n].0 := MapOf(pairs[n].1)]
  }

  /** A key holding an outer map, or no key while the map is empty. */
  function WithOuter(db: Db, key: bytes, m: map<bytes, map<bytes, bytes>>): (r: Db) {
    if m == map[] then db else db[key := Entry(NestedHash(m), None, 0)]
  }

  function Partial(m: map<bytes, map<bytes, bytes>>, field: bytes, inner: seq<(bytes, bytes)>, k: nat)
    : (r: map<bytes, map<bytes, bytes>>)
    requires k <= |inner|
  {
    if k == 0 then m else m[field := MapOf(inner[..k])]
  }

  lemma NHSetRun(db: Db, key: bytes, field: bytes, sub: bytes, value: bytes, now: u64, fmt: ScoreText)
    ensures RunOn(db, [NHSET, key, field, sub, value], now, fmt) == Some(RunNHSet(db, key, field, sub, value))
  {
    hide VerbOf;
    Verbs();
    assert [NHSET, key, field, sub, value][1..] == [key, field, sub, value];
  }

  /** One leaf more. */
  lemma PartialNext(m: map<bytes, map<bytes, bytes>>, field: bytes, inner: seq<(bytes, bytes)>, k: nat)
    requires field !in m && k < |inner|
    ensures var current := Partial(m, field, inner, k);
            var leaf := if field in current then current[field] else map[];
            current[field := leaf[inner[k].0 := inner[k].1]] == Partial(m, field, inner, k + 1) != map[]
  {
    hide MapOf;
    MapOfSnoc(inner[..k], inner[k].0, inner[k].1);
    assert inner[..k + 1] == inner[..k] + [inner[k]];
    EmptyMap(inner[..0]);
    assert field in Partial(m, field, inner, k + 1);
  }

  lemma LeafSet(
    db: Db, key: bytes, m: map<bytes, map<bytes, bytes>>, field: bytes, inner: seq<(bytes, bytes)>, k: nat,
    now: u64, fmt: ScoreText)
    requires key !in db && field !in m && k < |inner|
    ensures RunOn(WithOuter(db, key, Partial(m, field, inner, k)), SetInner(key, field, inner)[k], now, fmt)
         == Some(WithOuter(db, key, Partial(m, field, inner, k + 1)))
  {
    hide RunOn, Partial;
    var before := WithOuter(db, key, Partial(m, field, inner, k));
    NHSetRun(before, key, field, inner[k].0, inner[k].1, now, fmt);
    PartialNext(m, field, inner, k);
    var end := Entry(NestedHash(Partial(m, field, inner, k + 1)), None, 0);
    assert before[key := end] == db[key := end];
  }

  lemma EmptyMap(pairs: seq<(bytes, bytes)>)
    requires pairs == []
    ensures MapOf(pairs) == map[]
  {
  }

  lemma {:induction false} InnerSet(
    db: Db, key: bytes, m: map<bytes, map<bytes, bytes>>, field: bytes, inner: seq<(bytes, bytes)>, k: nat,
    now: u64, fmt: ScoreText)
    requires key !in db && field !in m && k <= |inner|
    ensures RunAllOn(WithOuter(db, key, Partial(m, field, inner, k)), SetInner(key, field, inner)[k..], now, fmt)
         == Some(WithOuter(db, key, Partial(m, field, inner, |inner|)))
    decreases |inner| - k
  {
    hide RunOn, WithOuter, Partial;
    if k < |inner| {
      LeafSet(db, key, m, field, inner, k, now, fmt);
      InnerSet(db, key, m, field, inner, k + 1, now, fmt);
      assert SetInner(key, field, inner)[k..][1..] == SetInner(key, field, inner)[k + 1..];
    }
  }

  /** No command without a name, and none that selects a database. */
  predicate Plain(cmds: seq<Command>) {
    AllNamed(cmds) && forall i | 0 <= i < |cmds| :: VerbOf(cmds[i][0]) != Select
  }

  lemma PlainAppend(a: seq<Command>, b: seq<Command>)
    requires Plain(a) && Plain(b)
    ensures Plain(a + b)
  {
  }

  lemma {:induction false} OuterField(pairs: seq<(bytes, seq<(bytes, bytes)>)>, f: bytes) returns (i: nat)
    requires f in Outer(pairs)
    ensures i < |pairs| && pairs[i].0 == f && pairs[i].1 != [] && Outer(pairs)[f] == MapOf(pairs[i].1)
  {
    var n := |pairs| - 1;
    if pairs[n].1 != [] && pairs[n].0 == f {
      i := n;
    } else {
      i := OuterField(pairs[..n], f);
    }
  }

  lemma {:induction false} OuterHas(pairs: seq<(bytes, seq<(bytes, bytes)>)>, i: nat)
    requires DistinctKeys(pairs) && i < |pairs| && pairs[i].1 != []
    ensures pairs[i].0 in Outer(pairs) && Outer(pairs)[pairs[i].0] == MapOf(pairs[i].1)
  {
    hide MapOf;
    var n := |pairs| - 1;
    if i < n {
      assert pairs[..n][i] == pairs[i] && pairs[i].0 != pairs[n].0;
      OuterHas(pairs[..n], i);
    }
  }

  lemma OuterFresh(pairs: seq<(bytes, seq<(bytes, bytes)>)>, n: nat)
    requires DistinctKeys(pairs) && n < |pairs|
    ensures pairs[n].0 !in Outer(pairs[..n]) && DistinctKeys(pairs[..n])
  {
    hide MapOf, Outer;
    assert forall i | 0 <= i < n :: pairs[i].0 != pairs[n].0;
    if pairs[n].0 in Outer(pairs[..n]) {
      var i := OuterField(pairs[..n], pairs[n].0);
    }
  }

  lemma {:induction false} OuterSet(
    db: Db, key: bytes, pairs: seq<(bytes, seq<(bytes, bytes)>)>, now: u64, fmt: ScoreText)
    requires key !in db && DistinctKeys(pairs)
    ensures Plain(SetOuter(key, pairs))
    ensures RunAllOn(db, SetOuter(key, pairs), now, fmt) == Some(WithOuter(db, key, Outer(pairs)))
  {
    hide RunOn, WithOuter, DistinctKeys, MapOf, VerbOf;
    if pairs == [] {
      NoOuter(db, key);
    } else {
      var n := |pairs| - 1;
      var (field, inner) := pairs[n];
      OuterFresh(pairs, n);
      OuterSet(db, key, pairs[..n], now, fmt);
      var a, b := SetOuter(key, pairs[..n]), SetInner(key, field, inner);
      Verbs();
      PlainAppend(a, b);
      RunAllAppend(db, a, b, now, fmt);
      var m := Outer(pairs[..n]);
      InnerSet(db, key, m, field, inner, 0, now, fmt);
      assert b[0..] == b && inner[..|inner|] == inner;
    }
  }

  lemma NoOuter(db: Db, key: bytes)
    ensures WithOuter(db, key, map[]) == db
  {
  }

  lemma InnerListed(pairs: seq<(bytes, seq<(bytes, bytes)>)>, outer: map<bytes, map<bytes, bytes>>, i: nat)
    requires ListsNested(pairs, outer) && i < |pairs|
    ensures var (f, inner) := pairs[i];
            f in outer && MapOf(inner) == outer[f] && (inner == [] <==> outer[f] == map[])
  {
    MapOfListing(pairs[i].1, outer[pairs[i].0]);
  }

  lemma FieldListed(pairs: seq<(bytes, seq<(bytes, bytes)>)>, outer: map<bytes, map<bytes, bytes>>, f: bytes)
    returns (i: nat)
    requires ListsNested(pairs, outer) && f in outer
    ensures i < |pairs| && pairs[i].0 == f
  {
    var p :| p in pairs && p.0 == f;
    i :| 0 <= i < |pairs| && pairs[i] == p;
  }

  lemma OuterKept(pairs: seq<(bytes, seq<(bytes, bytes)>)>, outer: map<bytes, map<bytes, bytes>>)
    requires ListsNested(pairs, outer)
    ensures Outer(pairs) == map f | f in outer && outer[f] != map[] :: outer[f]
  {
    hide MapOf, Outer, ListsMap;
    assert DistinctKeys(pairs);
    hide ListsNested, DistinctKeys;
    var rest := map f | f in outer && outer[f] != map[] :: outer[f];
    forall f | f in Outer(pairs) ensures f in rest && Outer(pairs)[f] == rest[f] {
      var i := OuterField(pairs, f);
      InnerListed(pairs, outer, i);
    }
    forall f | f in rest ensures f in Outer(pairs) {
      var i := FieldListed(pairs, outer, f);
      InnerListed(pairs, outer, i);
      OuterHas(pairs, i);
    }
  }

  // ----- any value, any entry, any database -----

  /** A value with one constructing command, or with none when it is empty. */
  lemma OneCommandValue(db: Db, key: bytes, l: Listing, v: Value, now: u64, fmt: ScoreText)
    requires key !in db && Lists(l, v)
    requires v.Text? || v.List? || v.Set? || v.Hash?
    ensures Plain(CommandsFor(key, l, fmt))
    ensures RunAllOn(db, CommandsFor(key, l, fmt), now, fmt) == Some(Built(db, key, Kept(v), FirstVersion(v)))
  {
    hide VerbOf, RunOn, Unpaired, Accepted;
    Verbs();
    var cmds := CommandsFor(key, l, fmt);
    if cmds != [] {
      RunOne(db, cmds[0], now, fmt);
    }
    match v
    case Text(text) => SetLeaves(db, key, text, now, fmt);
    case List(items) => RPushLeaves(db, key, items, now, fmt);
    case Set(elements) =>
      SetOfListing(l.elements, elements);
      SAddLeaves(db, key, l.elements, now, fmt);
    case Hash(fields) => HashRun(db, key, l.fields, fields, now, fmt);
  }

  lemma HashRun(db: Db, key: bytes, pairs: seq<(bytes, bytes)>, fields: map<bytes, bytes>, now: u64, fmt: ScoreText)
    requires key !in db && ListsMap(pairs, fields)
    ensures pairs == [] <==> fields == map[]
    ensures pairs != [] ==>
              RunOn(db, [HSET, key] + Unpaired(pairs), now, fmt) == Some(Built(db, key, Some(Hash(fields)), 0))
  {
    hide RunOn, Unpaired, ListsMap;
    MapOfListing(pairs, fields);
    assert |fields| == 0 <==> fields == map[];
    if pairs != [] {
      var h := HSetLeaves(db, key, pairs, now, fmt);
      HashRebuilt(pairs, fields, h);
    }
  }

  lemma HashRebuilt(pairs: seq<(bytes, bytes)>, fields: map<bytes, bytes>, h: map<bytes, bytes>)
    requires ListsMap(pairs, fields) && h.Keys == set i | 0 <= i < |pairs| :: pairs[i].0
    requires forall i | 0 <= i < |pairs| && (forall j | i < j < |pairs| :: pairs[j].0 != pairs[i].0) :: h[pairs[i].0] == pairs[i].1
    ensures h == fields
  {
    forall i | 0 <= i < |pairs| ensures h[pairs[i].0] == fields[pairs[i].0] {
      assert pairs[i] in pairs;
    }
    forall f ensures f in h <==> f in fields {
      if f in fields {
        var i :| 0 <= i < |pairs| && pairs[i] == (f, fields[f]);
      }
    }
    assert h.Keys == fields.Keys;
  }

  lemma PlainOne(cmd: Command)
    requires cmd != [] && VerbOf(cmd[0]) != Select
    ensures Plain([cmd])
  {
  }

  lemma ZSetRun(db: Db, key: bytes, l: Listing, v: Value, now: u64, fmt: ScoreText)
    requires key !in db && Lists(l, v) && Indexed(v) && RoundTrips(fmt) && v.ZSet?
    ensures RunOn(db, [ZADD, key] + Scored(l.members, fmt), now, fmt) == Some(Built(db, key, Some(v), 0))
  {
    ZSetRebuilt(db, key, l.members, now, fmt);
    Rdb.RebuildListed(l, v);
  }

  lemma ListsZSet(l: Listing, v: Value)
    requires Lists(l, v) && v.ZSet?
    ensures l.ZSetListing? && (l.members == [] <==> v.members == map[])
  {
    MapOfListing(l.members, v.members);
    assert |v.members| == 0 <==> v.members == map[];
  }

  lemma ZSetValue(db: Db, key: bytes, l: Listing, v: Value, now: u64, fmt: ScoreText)
    requires key !in db && Lists(l, v) && Indexed(v) && RoundTrips(fmt) && v.ZSet?
    ensures Plain(CommandsFor(key, l, fmt))
    ensures RunAllOn(db, CommandsFor(key, l, fmt), now, fmt) == Some(Built(db, key, Kept(v), FirstVersion(v)))
  {
    hide VerbOf, RunOn, Indexed, Lists, RoundTrips, Scored, Plain, Built, Accepted;
    ListsZSet(l, v);
    if l.members != [] {
      var cmd := [ZADD, key] + Scored(l.members, fmt);
      ZSetRun(db, key, l, v, now, fmt);
      RunOne(db, cmd, now, fmt);
      Verbs();
      assert cmd[0] == ZADD;
      PlainOne(cmd);
    } else {
      PlainNone();
      BuiltNone(db, key);
    }
  }

  lemma PlainNone()
    ensures Plain([])
  {
  }

  lemma BuiltNone(db: Db, key: bytes)
    ensures Built(db, key, None, 0) == db
  {
  }

  lemma StreamValue(db: Db, key: bytes, l: Listing, v: Value, now: u64, fmt: ScoreText)
    requires key !in db && Lists(l, v) && v.Stream?
    ensures Plain(CommandsFor(key, l, fmt))
    ensures RunAllOn(db, CommandsFor(key, l, fmt), now, fmt) == Some(Built(db, key, Kept(v), FirstVersion(v)))
  {
    hide VerbOf, RunOn;
    Verbs();
    var es := v.entries;
    EntriesAdded(db, key, es, 0, now, fmt);
    assert AddEntries(key, es)[0..] == AddEntries(key, es) && es[..|es|] == es;
    forall i | 0 <= i < |es| ensures AddEntries(key, es)[i][0] == XADD {
      EntryNamed(key, es[i]);
    }
  }

  lemma NestedValue(db: Db, key: bytes, l: Listing, v: Value, now: u64, fmt: ScoreText)
    requires key !in db && Lists(l, v) && v.NestedHash?
    ensures Plain(CommandsFor(key, l, fmt))
    ensures RunAllOn(db, CommandsFor(key, l, fmt), now, fmt) == Some(Built(db, key, Kept(v), FirstVersion(v)))
  {
    hide VerbOf, RunOn, SetOuter, Outer;
    OuterSet(db, key, l.outer, now, fmt);
    OuterKept(l.outer, v.outer);
  }

  /** The commands of a value, run where its key is missing, rebuild what the rewrite keeps of it. */
  lemma ValueRebuilt(db: Db, key: bytes, l: Listing, v: Value, now: u64, fmt: ScoreText)
    requires key !in db && Lists(l, v) && Indexed(v) && RoundTrips(fmt)
    ensures Plain(CommandsFor(key, l, fmt))
    ensures RunAllOn(db, CommandsFor(key, l, fmt), now, fmt) == Some(Built(db, key, Kept(v), FirstVersion(v)))
  {
    hide Plain, CommandsFor, RunAllOn, Built, Kept, Indexed, Lists, RoundTrips;
    match v
    case ZSet(_, _) => ZSetValue(db, key, l, v, now, fmt);
    case Stream(_, _) => StreamValue(db, key, l, v, now, fmt);
    case NestedHash(_) => NestedValue(db, key, l, v, now, fmt);
    case _ => OneCommandValue(db, key, l, v, now, fmt);
  }

  /** The database after an entry's commands. */
  function WithItem(db: Db, x: Listed, v: Value): (r: Db) {
    if Kept(v) == None then db else db[x.key := Entry(Kept(v).value, x.expireAt, FirstVersion(v))]
  }

  lemma ItemRebuilt(db: Db, x: Listed, v: Value, now: u64, fmt: ScoreText)
    requires x.key !in db && Lists(x.listing, v) && Indexed(v) && RoundTrips(fmt)
    ensures Plain(ItemCommands(x, fmt))
    ensures RunAllOn(db, ItemCommands(x, fmt), now, fmt) == Some(WithItem(db, x, v))
  {
    hide VerbOf, Kept, CommandsFor, Indexed, Lists, RoundTrips;
    Verbs();
    ValueRebuilt(db, x.key, x.listing, v, now, fmt);
    var cmds := CommandsFor(x.key, x.listing, fmt);
    if x.expireAt.Some? {
      var at := x.expireAt.value;
      var cmd := [PEXPIREAT, x.key, Digits(at)];
      U64TextRoundTrip(at);
      var built := Built(db, x.key, Kept(v), FirstVersion(v));
      assert cmd[1..] == [x.key, Digits(at)];
      var end := if Kept(v).Some? then Entry(Kept(v).value, x.expireAt, FirstVersion(v)) else Entry(v, None, 0);
      assert Kept(v).Some? ==> built[x.key := end] == db[x.key := end];
      assert RunOn(built, cmd, now, fmt) == Some(RunPExpireAt(built, x.key, at));
      RunOne(built, cmd, now, fmt);
      RunAllAppend(db, cmds, [cmd], now, fmt);
    } else {
      assert cmds + [] == cmds;
    }
  }

  /** The database rebuilt from listed entries of `db`. */
  function WithItems(items: seq<Listed>, db: Db): (r: Db)
    requires forall i | 0 <= i < |items| :: items[i].key in db
  {
    if items == [] then map[]
    else
      var n := |items| - 1;
      WithItem(WithItems(items[..n], db), items[n], db[items[n].key].value)
  }

  lemma {:induction false} WithItemsKeys(items: seq<Listed>, db: Db)
    requires forall i | 0 <= i < |items| :: items[i].key in db
    ensures forall k | k in WithItems(items, db) :: exists i | 0 <= i < |items| :: items[i].key == k
  {
    hide Kept;
    if items != [] {
      var n := |items| - 1;
      WithItemsKeys(items[..n], db);
      forall k | k in WithItems(items, db) ensures exists i | 0 <= i < |items| :: items[i].key == k {
        if k in WithItems(items[..n], db) {
          var i :| 0 <= i < n && items[..n][i].key == k;
          assert items[i].key == k;
        } else {
          assert items[n].key == k;
        }
      }
    }
  }

  ghost predicate Listable(items: seq<Listed>, db: Db) {
    && (forall i, j | 0 <= i < j < |items| :: items[i].key != items[j].key)
    && (forall i | 0 <= i < |items| ::
          items[i].key in db && Lists(items[i].listing, db[items[i].key].value) && Indexed(db[items[i].key].value))
  }

  lemma {:induction false} DbRebuilt(items: seq<Listed>, db: Db, now: u64, fmt: ScoreText)
    requires Listable(items, db) && RoundTrips(fmt)
    ensures Plain(DbCommands(items, fmt))
    ensures RunAllOn(map[], DbCommands(items, fmt), now, fmt) == Some(WithItems(items, db))
  {
    hide VerbOf, RunOn, WithItem, ItemCommands, Indexed, Lists, RoundTrips;
    if items != [] {
      var n := |items| - 1;
      DbRebuilt(items[..n], db, now, fmt);
      var before := WithItems(items[..n], db);
      WithItemsKeys(items[..n], db);
      ItemRebuilt(before, items[n], db[items[n].key].value, now, fmt);
      RunAllAppend(map[], DbCommands(items[..n], fmt), ItemCommands(items[n], fmt), now, fmt);
    }
  }

  lemma {:induction false} WithItemsExactly(items: seq<Listed>, db: Db)
    requires Listable(items, db)
    ensures var r := WithItems(items, db);
            && (forall i | 0 <= i < |items| && Kept(db[items[i].key].value).Some? ::
                  && items[i].key in r
                  && r[items[i].key] == Entry(Kept(db[items[i].key].value).value, items[i].expireAt,
                                              FirstVersion(db[items[i].key].value)))
            && (forall k | k in r :: exists i | 0 <= i < |items| :: items[i].key == k && Kept(db[k].value).Some?)
  {
    hide Kept, Indexed, Lists, FirstVersion;
    if items != [] {
      var n := |items| - 1;
      WithItemsExactly(items[..n], db);
      var before, r := WithItems(items[..n], db), WithItems(items, db);
      forall k | k in r ensures exists i | 0 <= i < |items| :: items[i].key == k && Kept(db[k].value).Some? {
        if k in before {
          var i :| 0 <= i < n && items[..n][i].key == k && Kept(db[k].value).Some?;
          assert items[i].key == k;
        } else {
          assert items[n].key == k;
        }
      }
      forall i | 0 <= i < |items| && Kept(db[items[i].key].value).Some?
        ensures items[i].key in r
        ensures r[items[i].key] == Entry(Kept(db[items[i].key].value).value, items[i].expireAt,
                                         FirstVersion(db[items[i].key].value))
      {
        if i < n { assert items[..n][i] == items[i]; }
      }
    }
  }

  lemma WithItemsRewritten(items: seq<Listed>, db: Db, at: nat)
    requires ListsDb(items, db, at) && Listable(items, db)
    ensures WithItems(items, db) == Rewritten(db, at)
  {
    hide Kept, Indexed, Lists, FirstVersion;
    WithItemsExactly(items, db);
    var r, e := WithItems(items, db), Rewritten(db, at);
    assert forall i | 0 <= i < |items| :: items[i] in items;
    forall k ensures k in r <==> k in e {
      if k in e {
        var x :| x in items && x.key == k;
        var i :| 0 <= i < |items| && items[i] == x;
      }
    }
    assert r.Keys == e.Keys;
    forall k | k in r ensures r[k] == e[k] {
      var i :| 0 <= i < |items| && items[i].key == k;
    }
  }

  // ----- the whole file -----

  /** Database `i` rebuilt for every `i` below `k`, the others still empty. */
  function Progress(dbs: seq<Db>, at: nat, k: nat): (r: seq<Db>)
    ensures |r| == |dbs|
  {
    seq(|dbs|, i requires 0 <= i < |dbs| => if i < k then Rewritten(dbs[i], at) else map[])
  }

  /** One section, run with the earlier databases rebuilt, rebuilds the next. */
  lemma SectionRuns(
    dbs: seq<Db>, at: nat, k: u64, items: seq<Listed>, index: nat, now: u64, fmt: ScoreText) returns (index': nat)
    requires k < |dbs| && index < |dbs|
    requires ListsDb(items, dbs[k], at) && Listable(items, dbs[k]) && RoundTrips(fmt)
    ensures AllNamed(Section(k, |dbs|, items, fmt)) && index' < |dbs|
    ensures ExecuteAll(Server(Progress(dbs, at, k), index), Section(k, |dbs|, items, fmt), now, fmt)
         == Some(Server(Progress(dbs, at, k + 1), index'))
  {
    hide ExecuteAll, Listable, RoundTrips, ListsDb, Progress, Plain, AllNamed, DbCommands, RunAllOn, Rewritten, WithItems;
    ListableKeys(items, dbs[k]);
    WithItemsRewritten(items, dbs[k], at);
    ProgressNext(dbs, at, k);
    if items == [] {
      index' := index;
      NothingRuns(Server(Progress(dbs, at, k), index), now, fmt);
      NothingListed(dbs[k], at);
    } else {
      index' := k;
      DbRebuilt(items, dbs[k], now, fmt);
      RunSection(Server(Progress(dbs, at, k), index), k, DbCommands(items, fmt), WithItems(items, dbs[k]), now, fmt);
    }
  }

  /** Commands on one database of the store, with SELECT in front if there are several. */
  lemma RunSection(s: Server, k: u64, cmds: seq<Command>, db: Db, now: u64, fmt: ScoreText)
    requires k < |s.dbs| && s.dbIndex < |s.dbs|
    requires Plain(cmds) && RunAllOn(s.dbs[k], cmds, now, fmt) == Some(db)
    ensures var section := (if |s.dbs| > 1 then [[SELECT, Digits(k)]] else []) + cmds;
            AllNamed(section) && ExecuteAll(s, section, now, fmt) == Some(Server(s.dbs[k := db], k))
  {
    hide ExecuteAll, RunAllOn;
    ExecuteOnSelected(s.(dbIndex := k), cmds, now, fmt);
    if |s.dbs| > 1 {
      SelectFirst(s, k, cmds, now, fmt);
    } else {
      assert [] + cmds == cmds;
    }
  }

  lemma ListableKeys(items: seq<Listed>, db: Db)
    requires Listable(items, db)
    ensures forall i | 0 <= i < |items| :: items[i].key in db
  {
  }

  lemma ProgressNext(dbs: seq<Db>, at: nat, k: nat)
    requires k < |dbs|
    ensures Progress(dbs, at, k)[k] == map[]
    ensures Progress(dbs, at, k)[k := Rewritten(dbs[k], at)] == Progress(dbs, at, k + 1)
    ensures Rewritten(dbs[k], at) == map[] ==> Progress(dbs, at, k) == Progress(dbs, at, k + 1)
  {
    hide Rewritten;
  }

  lemma NothingListed(db: Db, at: nat)
    ensures WithItems([], db) == map[]
  {
  }

  lemma NothingRuns(s: Server, now: u64, fmt: ScoreText)
    ensures AllNamed([]) && ExecuteAll(s, [], now, fmt) == Some(s)
  {
  }

  /** SELECT, then commands. */
  lemma SelectFirst(s: Server, i: u64, cmds: seq<Command>, now: u64, fmt: ScoreText)
    requires AllNamed(cmds)
    ensures ExecuteAll(s, [[SELECT, Digits(i)]] + cmds, now, fmt) == ExecuteAll(s.(dbIndex := i), cmds, now, fmt)
  {
    hide Execute;
    var select := [SELECT, Digits(i)];
    SelectForms(s, i, [], [], now, fmt);
    assert ([select] + cmds)[1..] == cmds && ([select] + cmds)[0] == select;
  }

  ghost predicate Source(dbs: seq<Db>, at: nat, listed: seq<seq<Listed>>) {
    && |listed| == |dbs| < TWO_64
    && (forall i | 0 <= i < |dbs| :: ListsDb(listed[i], dbs[i], at))
    && (forall i | 0 <= i < |dbs| :: forall k | k in LiveEntries(dbs[i], at) :: Indexed(dbs[i][k].value))
  }

  lemma SourceListable(items: seq<Listed>, db: Db, at: nat)
    requires ListsDb(items, db, at) && forall k | k in LiveEntries(db, at) :: Indexed(db[k].value)
    ensures Listable(items, db)
  {
    hide Lists, Indexed;
    assert forall i | 0 <= i < |items| :: items[i] in items;
  }

  lemma {:induction false} RewriteRuns(
    dbs: seq<Db>, at: nat, listed: seq<seq<Listed>>, k: nat, now: u64, fmt: ScoreText) returns (index: nat)
    requires Source(dbs, at, listed) && RoundTrips(fmt) && dbs != [] && k <= |dbs|
    ensures AllNamed(Rewrite(listed, k, fmt)) && index < |dbs|
    ensures ExecuteAll(Server(Progress(dbs, at, 0), 0), Rewrite(listed, k, fmt), now, fmt)
         == Some(Server(Progress(dbs, at, k), index))
    decreases k
  {
    hide Execute, Section, Progress, RoundTrips, ListsDb, Indexed;
    if k == 0 {
      index := 0;
    } else {
      var last := RewriteRuns(dbs, at, listed, k - 1, now, fmt);
      SourceListable(listed[k - 1], dbs[k - 1], at);
      index := SectionRuns(dbs, at, k - 1, listed[k - 1], last, now, fmt);
      ExecuteAllAppend(Server(Progress(dbs, at, 0), 0),
                       Rewrite(listed, k - 1, fmt), Section(k - 1, |listed|, listed[k - 1], fmt), now, fmt);
    }
  }

  /** AOF rewrite preserves meaning: replaying the rewritten file, under any later
      clock, into an empty store with the same number of databases rebuilds every live
      key in its own database with what the rewrite keeps of its value and with its
      expiry time, and nothing else, in whatever order the dataset was listed. */
  lemma RewritePreserves(dbs: seq<Db>, at: nat, listed: seq<seq<Listed>>, now: u64, fmt: ScoreText)
    requires Source(dbs, at, listed) && RoundTrips(fmt) && dbs != []
    requires forall c | c in Rewrite(listed, |listed|, fmt) :: Encodable(c)
    ensures var file := EncodeAll(Rewrite(listed, |listed|, fmt));
            var end := ExecuteAll(Server(seq(|dbs|, _ => map[]), 0), Drain(file).cmds, now, fmt);
            end.Some? && end.value.dbs == seq(|dbs|, i requires 0 <= i < |dbs| => Rewritten(dbs[i], at))
  {
    hide ExecuteAll, Rewrite, Rewritten, Drain, RoundTrips, EncodeAll, Encodable;
    var n := |listed|;
    var index := RewriteRuns(dbs, at, listed, n, now, fmt);
    var cmds := Rewrite(listed, n, fmt);
    forall c | c in cmds ensures Loggable(c) {
      var i :| 0 <= i < |cmds| && cmds[i] == c;
    }
    LogRoundTrip(cmds);
    assert Progress(dbs, at, 0) == seq(|dbs|, _ => map[]);
    assert Progress(dbs, at, n) == seq(|dbs|, i requires 0 <= i < |dbs| => Rewritten(dbs[i], at));
  }

  // ----- the writer's loops -----

  method WriteCommands(cmds: seq<Command>, out: bytes) returns (r: bytes)
    ensures r == out + EncodeAll(cmds)
  {
    hide Encode, EncodeAll;
    EncodeNothing();
    r := out;
    for k := 0 to |cmds|
      invariant r == out + EncodeAll(cmds[..k])
    {
      assert cmds[..k + 1] == cmds[..k] + [cmds[k]];
      EncodeAllAppend(cmds[..k], [cmds[k]]);
      EncodeOne(cmds[k]);
      var encoded := EncodeCommandForAof(cmds[k]);
      r := r + encoded;
    }
    assert cmds[..|cmds|] == cmds;
  }

  method WriteItems(items: seq<Listed>, out: bytes, fmt: ScoreText) returns (r: bytes)
    ensures r == out + EncodeAll(DbCommands(items, fmt))
  {
    hide EncodeAll, ItemCommands;
    EncodeNothing();
    r := out;
    for k := 0 to |items|
      invariant r == out + EncodeAll(DbCommands(items[..k], fmt))
    {
      assert items[..k + 1][..k] == items[..k];
      EncodeAllAppend(DbCommands(items[..k], fmt), ItemCommands(items[k], fmt));
      r := WriteCommands(ItemCommands(items[k], fmt), r);
    }
    assert items[..|items|] == items;
  }

  /** `write_dataset`: database by database, entry by entry. */
  method WriteDataset(listed: seq<seq<Listed>>, fmt: ScoreText) returns (out: bytes)
    ensures out == EncodeAll(Rewrite(listed, |listed|, fmt))
  {
    hide EncodeAll, DbCommands;
    out := [];
    EncodeNothing();
    for i := 0 to |listed|
      invariant out == EncodeAll(Rewrite(listed, i, fmt))
    {
      var items := listed[i];
      EncodeAllAppend(Rewrite(listed, i, fmt), Section(i, |listed|, items, fmt));
      if items == [] { continue; }
      EncodeAllAppend(if |listed| > 1 then [[SELECT, Digits(i)]] else [], DbCommands(items, fmt));
      if |listed| > 1 {
        out := WriteCommands([[SELECT, Digits(i)]], out);
      }
      out := WriteItems(items, out, fmt);
    }
  }

  lemma EncodeNothing()
    ensures EncodeAll([]) == []
  {
  }
}
