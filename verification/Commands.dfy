/**
  The command dispatcher, for the commands a rewritten log is made of and in the
  forms it uses: SELECT, SET, RPUSH, SADD, HSET, ZADD, XADD, NHSET and PEXPIREAT.
 */
module Commands {
  import opened Bytes
  import opened Listings
  import opened Values
  import opened ZSets
  import opened CommandLog
  import Streams

  // ----- names -----

  const SELECT: bytes := [83, 69, 76, 69, 67, 84]
  const SET: bytes := [83, 69, 84]
  const RPUSH: bytes := [82, 80, 85, 83, 72]
  const SADD: bytes := [83, 65, 68, 68]
  const HSET: bytes := [72, 83, 69, 84]
  const ZADD: bytes := [90, 65, 68, 68]
  const XADD: bytes := [88, 65, 68, 68]
  const NHSET: bytes := [78, 72, 83, 69, 84]
  const PEXPIREAT: bytes := [80, 69, 88, 80, 73, 82, 69, 65, 84]
  const MAXLEN: bytes := [77, 65, 88, 76, 69, 78]

  /** ASCII upper case, as names are compared. */
  function Upper(s: bytes): (u: bytes)
    ensures |u| == |s|
    ensures forall i | 0 <= i < |s| :: u[i] == if 97 <= s[i] <= 122 then s[i] - 32 else s[i]
  {
    seq(|s|, i requires 0 <= i < |s| => if 97 <= s[i] <= 122 then s[i] - 32 else s[i])
  }

  datatype Verb = Select | SetText | RPush | SAdd | HSet | ZAdd | XAdd | NHSet | PExpireAt | Other

  function VerbOf(name: bytes): (v: Verb) {
    var u := Upper(name);
    if u == SELECT then Select
    else if u == SET then SetText
    else if u == RPUSH then RPush
    else if u == SADD then SAdd
    else if u == HSET then HSet
    else if u == ZADD then ZAdd
    else if u == XADD then XAdd
    else if u == NHSET then NHSet
    else if u == PEXPIREAT then PExpireAt
    else Other
  }

  lemma UpperFixed(name: bytes)
    requires forall b | b in name :: b < 97
    ensures Upper(name) == name
  {
    assert forall i | 0 <= i < |name| :: name[i] in name;
  }

  lemma Verbs()
    ensures VerbOf(SELECT) == Select && VerbOf(SET) == SetText && VerbOf(RPUSH) == RPush
    ensures VerbOf(SADD) == SAdd && VerbOf(HSET) == HSet && VerbOf(ZADD) == ZAdd
    ensures VerbOf(XADD) == XAdd && VerbOf(NHSET) == NHSet && VerbOf(PEXPIREAT) == PExpireAt
  {
    UpperFixed(SELECT);
    UpperFixed(SET);
    UpperFixed(RPUSH);
    UpperFixed(SADD);
    UpperFixed(HSET);
    UpperFixed(ZADD);
    UpperFixed(XADD);
    UpperFixed(NHSET);
    UpperFixed(PEXPIREAT);
    assert SADD[0] != HSET[0] && SADD[0] != ZADD[0] && SADD[0] != XADD[0];
    assert HSET[0] != ZADD[0] && HSET[0] != XADD[0] && ZADD[0] != XADD[0] && RPUSH[0] != NHSET[0];
  }

  // ----- arguments -----

  /** How scores are printed and read; the server uses Rust's `f64` text. */
  datatype ScoreText = ScoreText(show: Score -> bytes, parse: bytes -> Option<Score>)

  ghost predicate RoundTrips(fmt: ScoreText) {
    forall s: Score | !IsNaN(s) :: fmt.parse(fmt.show(s)) == Some(s)
  }

  /** Arguments two by two; an odd one at the end is dropped. */
  function Pairs(args: seq<bytes>): (ps: seq<(bytes, bytes)>) {
    if |args| < 2 then [] else [(args[0], args[1])] + Pairs(args[2..])
  }

  function Unpaired(ps: seq<(bytes, bytes)>): (args: seq<bytes>) {
    if ps == [] then [] else [ps[0].0, ps[0].1] + Unpaired(ps[1..])
  }

  lemma {:induction false} PairsOfUnpaired(ps: seq<(bytes, bytes)>)
    ensures Pairs(Unpaired(ps)) == ps
  {
    if ps != [] {
      PairsOfUnpaired(ps[1..]);
      assert Unpaired(ps)[2..] == Unpaired(ps[1..]);
    }
  }

  /** Name first, value second; an argument left over counts for nothing. */
  lemma PairForms(a: bytes, b: bytes, args: seq<bytes>, ps: seq<(bytes, bytes)>)
    ensures Pairs([a, b] + args) == [(a, b)] + Pairs(args) && Pairs([a]) == [] && Pairs([]) == []
    ensures Unpaired([(a, b)] + ps) == [a, b] + Unpaired(ps) && Unpaired([]) == []
  {
    assert ([a, b] + args)[2..] == args && ([(a, b)] + ps)[1..] == ps;
  }

  /** Score and member pairs; one score that does not parse fails the command. */
  function ParseScored(args: seq<bytes>, fmt: ScoreText): (items: Option<seq<(Score, bytes)>>) {
    if |args| < 2 then Some([])
    else
      match fmt.parse(args[0])
      case None => None
      case Some(score) =>
        match ParseScored(args[2..], fmt)
        case None => None
        case Some(rest) => Some([(score, args[1])] + rest)
  }

  /** The score comes before its member. */
  lemma ScoredForms(text: bytes, m: bytes, args: seq<bytes>, fmt: ScoreText)
    ensures ParseScored([], fmt) == Some([]) && ParseScored([text], fmt) == Some([])
    ensures fmt.parse(text) == None || ParseScored(args, fmt) == None ==> ParseScored([text, m] + args, fmt) == None
    ensures fmt.parse(text).Some? && ParseScored(args, fmt).Some? ==>
              ParseScored([text, m] + args, fmt) == Some([(fmt.parse(text).value, m)] + ParseScored(args, fmt).value)
  {
    assert ([text, m] + args)[2..] == args;
  }

  // ----- commands on one database -----

  /** The stored entry of a key, whether or not it has expired, or a new one. */
  function Raw(db: Db, key: bytes, default: Value): (e: Entry) {
    if key in db then db[key] else Entry(default, None, 0)
  }

  function RunSet(db: Db, key: bytes, text: bytes): (r: Db) {
    db[key := Entry(Text(text), None, Raw(db, key, Text([])).version + 1)]
  }

  function RunRPush(db: Db, key: bytes, items: seq<bytes>): (r: Db) {
    var e := Raw(db, key, List([]));
    if e.value.List? then db[key := e.(value := List(e.value.items + items))] else db
  }

  function RunSAdd(db: Db, key: bytes, elements: seq<bytes>): (r: Db) {
    var e := Raw(db, key, Set({}));
    if e.value.Set? then db[key := e.(value := Set(e.value.elements + SetOf(elements)))] else db
  }

  function RunHSet(db: Db, key: bytes, pairs: seq<(bytes, bytes)>): (r: Db) {
    var e := Raw(db, key, Hash(map[]));
    if pairs != [] && e.value.Hash? then db[key := e.(value := Hash(e.value.fields + MapOf(pairs)))] else db
  }

  function RunZAdd(db: Db, key: bytes, items: seq<(Score, bytes)>): (r: Db) {
    var e := Raw(db, key, ZSet(map[], map[]));
    if e.value.ZSet? then db[key := e.(value := ZSets.Apply(e.value, AddOps(items)))] else db
  }

  function RunXAdd(db: Db, key: bytes, idText: bytes, fields: seq<(bytes, bytes)>, now: u64): (r: Db) {
    var e := Raw(db, key, Stream([], ZERO_ID));
    if fields == [] || !e.value.Stream? then db
    else
      match Streams.Append(e.value, Lookup(db, key, now).Some?, Streams.ParseIdSpec(idText), fields, None, now)
      case Rejected(_) => db
      case Added(stream, _) => db[key := e.(value := stream)]
  }

  function RunNHSet(db: Db, key: bytes, field: bytes, sub: bytes, value: bytes): (r: Db) {
    var e := Raw(db, key, NestedHash(map[]));
    if !e.value.NestedHash? then db
    else
      var inner := if field in e.value.outer then e.value.outer[field] else map[];
      db[key := e.(value := NestedHash(e.value.outer[field := inner[sub := value]]))]
  }

  function RunPExpireAt(db: Db, key: bytes, at: u64): (r: Db) {
    if key in db then db[key := db[key].(expireAt := Some(at))] else db
  }

  /** A command on the selected database. `None` where this model does not follow the
      server: other commands, options of SET and XADD, NaN scores, and too few arguments,
      on which the server panics. Errors leave the database as it is. */
  function RunOn(db: Db, cmd: Command, now: u64, fmt: ScoreText): (r: Option<Db>)
    requires cmd != []
  {
    var args := cmd[1..];
    match VerbOf(cmd[0])
    case SetText => if |args| == 2 then Some(RunSet(db, args[0], args[1])) else None
    case RPush => if args != [] then Some(RunRPush(db, args[0], args[1..])) else None
    case SAdd => if args != [] then Some(RunSAdd(db, args[0], args[1..])) else None
    case HSet => if args != [] then Some(RunHSet(db, args[0], Pairs(args[1..]))) else None
    case ZAdd =>
      if args == [] then None
      else
        (match ParseScored(args[1..], fmt)
         case None => Some(db)
         case Some(items) =>
           if forall i | 0 <= i < |items| :: !IsNaN(items[i].0) then Some(RunZAdd(db, args[0], items)) else None)
    case XAdd =>
      if |args| < 2 then Some(db)
      else if Upper(args[1]) == MAXLEN then None
      else Some(RunXAdd(db, args[0], args[1], Pairs(args[2..]), now))
    case NHSet => Some(if |args| == 4 then RunNHSet(db, args[0], args[1], args[2], args[3]) else db)
    case PExpireAt =>
      Some(if |args| != 2 then db
           else RunPExpireAt(db, args[0], match ParseU64(args[1]) case None => 0 case Some(at) => at))
    case _ => None
  }

  function RunAllOn(db: Db, cmds: seq<Command>, now: u64, fmt: ScoreText): (r: Option<Db>)
    requires AllNamed(cmds)
    decreases |cmds|
  {
    if cmds == [] then Some(db)
    else
      match RunOn(db, cmds[0], now, fmt)
      case None => None
      case Some(db') => RunAllOn(db', cmds[1..], now, fmt)
  }

  lemma {:induction false} RunAllAppend(db: Db, a: seq<Command>, b: seq<Command>, now: u64, fmt: ScoreText)
    requires AllNamed(a) && AllNamed(b)
    ensures RunAllOn(db, a + b, now, fmt)
         == match RunAllOn(db, a, now, fmt)
            case None => None
            case Some(db') => RunAllOn(db', b, now, fmt)
    decreases |a|
  {
    hide RunOn;
    if a == [] {
      assert a + b == b;
    } else {
      assert (a + b)[1..] == a[1..] + b && (a + b)[0] == a[0];
      match RunOn(db, a[0], now, fmt)
      case None =>
      case Some(db') => RunAllAppend(db', a[1..], b, now, fmt);
    }
  }

  // ----- what the commands leave behind, on keys that exist or not -----

  /** The names in bytes, in either case. */
  lemma VerbTexts()
    ensures VerbOf([83, 69, 76, 69, 67, 84]) == Select && VerbOf([115, 101, 108, 101, 99, 116]) == Select
    ensures VerbOf([83, 69, 84]) == SetText && VerbOf([115, 101, 116]) == SetText
    ensures VerbOf([82, 80, 85, 83, 72]) == RPush && VerbOf([114, 112, 117, 115, 104]) == RPush
    ensures VerbOf([83, 65, 68, 68]) == SAdd && VerbOf([115, 97, 100, 100]) == SAdd
    ensures VerbOf([72, 83, 69, 84]) == HSet && VerbOf([104, 115, 101, 116]) == HSet
    ensures VerbOf([90, 65, 68, 68]) == ZAdd && VerbOf([122, 97, 100, 100]) == ZAdd
    ensures VerbOf([88, 65, 68, 68]) == XAdd && VerbOf([120, 97, 100, 100]) == XAdd
    ensures VerbOf([78, 72, 83, 69, 84]) == NHSet && VerbOf([110, 104, 115, 101, 116]) == NHSet
    ensures VerbOf([80, 69, 88, 80, 73, 82, 69, 65, 84]) == PExpireAt
    ensures VerbOf([112, 101, 120, 112, 105, 114, 101, 97, 116]) == PExpireAt
  {
    hide VerbOf;
    Verbs();
    assert Upper([115, 101, 108, 101, 99, 116]) == SELECT;
    assert Upper([115, 101, 116]) == SET;
    assert Upper([114, 112, 117, 115, 104]) == RPUSH;
    assert Upper([115, 97, 100, 100]) == SADD;
    assert Upper([104, 115, 101, 116]) == HSET;
    assert Upper([122, 97, 100, 100]) == ZADD;
    assert Upper([120, 97, 100, 100]) == XADD;
    assert Upper([110, 104, 115, 101, 116]) == NHSET;
    assert Upper([112, 101, 120, 112, 105, 114, 101, 97, 116]) == PEXPIREAT;
    SameUpper(SELECT, [115, 101, 108, 101, 99, 116]);
    SameUpper(SET, [115, 101, 116]);
    SameUpper(RPUSH, [114, 112, 117, 115, 104]);
    SameUpper(SADD, [115, 97, 100, 100]);
    SameUpper(HSET, [104, 115, 101, 116]);
    SameUpper(ZADD, [122, 97, 100, 100]);
    SameUpper(XADD, [120, 97, 100, 100]);
    SameUpper(NHSET, [110, 104, 115, 101, 116]);
    SameUpper(PEXPIREAT, [112, 101, 120, 112, 105, 114, 101, 97, 116]);
  }

  lemma SameUpper(upper: bytes, name: bytes)
    requires Upper(name) == upper && forall b | b in upper :: b < 97
    ensures VerbOf(name) == VerbOf(upper)
  {
    UpperFixed(upper);
  }

  /** SET: the text, no expiry, and the next version, whatever was there. */
  lemma SetLeaves(db: Db, key: bytes, text: bytes, now: u64, fmt: ScoreText)
    ensures RunOn(db, [SET, key, text], now, fmt)
         == Some(db[key := Entry(Text(text), None, if key in db then db[key].version + 1 else 1)])
  {
    hide VerbOf;
    Verbs();
    assert [SET, key, text][1..] == [key, text];
  }

  /** RPUSH: the old items followed by the new ones. */
  lemma RPushLeaves(db: Db, key: bytes, xs: seq<bytes>, now: u64, fmt: ScoreText)
    requires key in db ==> db[key].value.List?
    ensures RunOn(db, [RPUSH, key] + xs, now, fmt)
         == Some(db[key := if key in db then db[key].(value := List(db[key].value.items + xs)) else Entry(List(xs), None, 0)])
  {
    hide VerbOf;
    Verbs();
    var cmd := [RPUSH, key] + xs;
    assert cmd[1..][0] == key && cmd[1..][1..] == xs && [] + xs == xs;
  }

  /** SADD: the old elements and the new ones. */
  lemma SAddLeaves(db: Db, key: bytes, xs: seq<bytes>, now: u64, fmt: ScoreText)
    requires key in db ==> db[key].value.Set?
    ensures var added := set x | x in xs;
            RunOn(db, [SADD, key] + xs, now, fmt)
            == Some(db[key := if key in db then db[key].(value := Set(db[key].value.elements + added))
                              else Entry(Set(added), None, 0)])
  {
    hide VerbOf;
    Verbs();
    var cmd := [SADD, key] + xs;
    assert cmd[1..][0] == key && cmd[1..][1..] == xs;
    assert {} + (set x | x in xs) == set x | x in xs;
  }

  /** HSET: the fields named are there besides the old ones, each with the value of its
      last pair; every other field stays. */
  lemma HSetLeaves(db: Db, key: bytes, pairs: seq<(bytes, bytes)>, now: u64, fmt: ScoreText) returns (h: map<bytes, bytes>)
    requires pairs != [] && (key in db ==> db[key].value.Hash?)
    ensures RunOn(db, [HSET, key] + Unpaired(pairs), now, fmt)
         == Some(db[key := if key in db then db[key].(value := Hash(h)) else Entry(Hash(h), None, 0)])
    ensures var before: map<bytes, bytes> := if key in db then db[key].value.fields else map[];
            && h.Keys == before.Keys + (set i | 0 <= i < |pairs| :: pairs[i].0)
            && (forall i | 0 <= i < |pairs| && (forall j | i < j < |pairs| :: pairs[j].0 != pairs[i].0) ::
                  h[pairs[i].0] == pairs[i].1)
            && (forall f | f in before && (forall i | 0 <= i < |pairs| :: pairs[i].0 != f) :: h[f] == before[f])
  {
    hide RunOn, MapOf, Unpaired;
    var before: map<bytes, bytes> := if key in db then db[key].value.fields else map[];
    h := before + MapOf(pairs);
    WrittenOver(before, pairs);
    HSetDispatch(db, key, pairs, now, fmt);
  }

  lemma HSetDispatch(db: Db, key: bytes, pairs: seq<(bytes, bytes)>, now: u64, fmt: ScoreText)
    requires pairs != [] && (key in db ==> db[key].value.Hash?)
    ensures var h := (if key in db then db[key].value.fields else map[]) + MapOf(pairs);
            RunOn(db, [HSET, key] + Unpaired(pairs), now, fmt)
            == Some(db[key := if key in db then db[key].(value := Hash(h)) else Entry(Hash(h), None, 0)])
  {
    hide VerbOf, MapOf, Unpaired, Pairs;
    Verbs();
    PairsOfUnpaired(pairs);
    var cmd := [HSET, key] + Unpaired(pairs);
    assert cmd[1..][0] == key && cmd[1..][1..] == Unpaired(pairs);
  }

  /** Pairs written over a map. */
  lemma WrittenOver(before: map<bytes, bytes>, pairs: seq<(bytes, bytes)>)
    ensures var h := before + MapOf(pairs);
            && h.Keys == before.Keys + (set i | 0 <= i < |pairs| :: pairs[i].0)
            && (forall i | 0 <= i < |pairs| && (forall j | i < j < |pairs| :: pairs[j].0 != pairs[i].0) ::
                  h[pairs[i].0] == pairs[i].1)
            && (forall f | f in before && (forall i | 0 <= i < |pairs| :: pairs[i].0 != f) :: h[f] == before[f])
  {
    hide MapOf;
    var m := MapOf(pairs);
    forall i | 0 <= i < |pairs| ensures pairs[i].0 in m {
      assert pairs[i] in pairs;
    }
    forall f | f in m ensures exists i | 0 <= i < |pairs| :: pairs[i].0 == f {
      var i :| 0 <= i < |pairs| && pairs[i] == (f, m[f]);
    }
    assert (before + m).Keys == before.Keys + (set i | 0 <= i < |pairs| :: pairs[i].0);
    forall i | 0 <= i < |pairs| && (forall j | i < j < |pairs| :: pairs[j].0 != pairs[i].0)
      ensures (before + m)[pairs[i].0] == pairs[i].1
    {
      MapOfLast(pairs, i);
    }
  }

  /** ZADD: the members named are there besides the old ones, each with the score of its
      last pair; every other member stays. */
  lemma ZAddLeaves(
    db: Db, key: bytes, args: seq<bytes>, items: seq<(Score, bytes)>, now: u64, fmt: ScoreText) returns (z: Value)
    requires ParseScored(args, fmt) == Some(items) && forall i | 0 <= i < |items| :: !IsNaN(items[i].0)
    requires key in db ==> InSync(db[key].value)
    ensures RunOn(db, [ZADD, key] + args, now, fmt)
         == Some(db[key := if key in db then db[key].(value := z) else Entry(z, None, 0)])
    ensures InSync(z)
    ensures var before: map<bytes, Score> := if key in db then db[key].value.members else map[];
            && z.members.Keys == before.Keys + (set i | 0 <= i < |items| :: items[i].1)
            && (forall i | 0 <= i < |items| && (forall j | i < j < |items| :: items[j].1 != items[i].1) ::
                  z.members[items[i].1] == items[i].0)
            && (forall m | m in before && (forall i | 0 <= i < |items| :: items[i].1 != m) :: z.members[m] == before[m])
  {
    var start := if key in db then db[key].value else ZSet(map[], map[]);
    assert InSync(start) && start.ZSet?;
    z := Apply(start, AddOps(items));
    AddsExactly(start, items);
    forall op | op in AddOps(items) ensures Orderable(op) {
      hide Apply, InSync;
    }
    OpsKeepSync(start, AddOps(items));
    hide InSync, IsNaN, Apply, AddOps;
    ZAddDispatch(db, key, args, items, now, fmt);
  }

  lemma ZAddDispatch(db: Db, key: bytes, args: seq<bytes>, items: seq<(Score, bytes)>, now: u64, fmt: ScoreText)
    requires ParseScored(args, fmt) == Some(items) && forall i | 0 <= i < |items| :: !IsNaN(items[i].0)
    requires key in db ==> db[key].value.ZSet?
    ensures var z := Apply(if key in db then db[key].value else ZSet(map[], map[]), AddOps(items));
            RunOn(db, [ZADD, key] + args, now, fmt)
            == Some(db[key := if key in db then db[key].(value := z) else Entry(z, None, 0)])
  {
    hide VerbOf, ParseScored, Apply, AddOps, IsNaN;
    Verbs();
    var cmd := [ZADD, key] + args;
    assert cmd[1..][0] == key && cmd[1..][1..] == args;
  }

  /** XADD with an explicit id on a stream that can be seen: the entry goes to the back if
      its id is above the last one and it has fields; otherwise nothing changes. */
  lemma XAddLeaves(db: Db, key: bytes, id: StreamId, fields: seq<(bytes, bytes)>, now: u64, fmt: ScoreText)
    requires Lookup(db, key, now).Some? && db[key].value.Stream?
    ensures var v := db[key].value;
            RunOn(db, [XADD, key, Streams.IdText(id)] + Unpaired(fields), now, fmt)
            == Some(if v.lastId.Below(id) && fields != []
                    then db[key := db[key].(value := Stream(v.entries + [StreamEntry(id, fields)], id))]
                    else db)
  {
    hide VerbOf, Upper, Unpaired, Streams.ParseIdSpec, Streams.IdText;
    Verbs();
    var cmd := [XADD, key, Streams.IdText(id)] + Unpaired(fields);
    assert cmd[1..][0] == key && cmd[1..][1] == Streams.IdText(id) && cmd[1..][2..] == Unpaired(fields);
    IdIsNotMaxlen(id);
    Streams.IdTextRoundTrip(id);
    PairsOfUnpaired(fields);
  }

  lemma IdIsNotMaxlen(id: StreamId)
    ensures Upper(Streams.IdText(id)) != MAXLEN
  {
    var text := Streams.IdText(id);
    assert text[0] == Digits(id.ms)[0] && IsDigit(text[0]);
    assert Upper(text)[0] == text[0];
  }

  /** NHSET: one leaf is written, every other stays. */
  lemma NHSetLeaves(db: Db, key: bytes, field: bytes, sub: bytes, value: bytes, now: u64, fmt: ScoreText)
    requires key in db ==> db[key].value.NestedHash?
    ensures var outer: map<bytes, map<bytes, bytes>> := if key in db then db[key].value.outer else map[];
            var inner: map<bytes, bytes> := if field in outer then outer[field] else map[];
            var written := NestedHash(outer[field := inner[sub := value]]);
            RunOn(db, [NHSET, key, field, sub, value], now, fmt)
            == Some(db[key := if key in db then db[key].(value := written) else Entry(written, None, 0)])
  {
    hide VerbOf;
    Verbs();
    assert [NHSET, key, field, sub, value][1..] == [key, field, sub, value];
  }

  /** PEXPIREAT: the expiry time of a stored key and nothing else; text that is no number
      counts as zero. */
  lemma PExpireAtLeaves(db: Db, key: bytes, at: u64, text: bytes, now: u64, fmt: ScoreText)
    ensures RunOn(db, [PEXPIREAT, key, Digits(at)], now, fmt)
         == Some(if key in db then db[key := db[key].(expireAt := Some(at))] else db)
    ensures ParseU64(text) == None && key in db ==>
              RunOn(db, [PEXPIREAT, key, text], now, fmt) == Some(db[key := db[key].(expireAt := Some(0))])
  {
    hide VerbOf, ParseU64;
    Verbs();
    U64TextRoundTrip(at);
    assert [PEXPIREAT, key, Digits(at)][1..] == [key, Digits(at)];
    assert [PEXPIREAT, key, text][1..] == [key, text];
  }

  /** A command on a key of another type is an error and changes nothing. */
  lemma WrongTypeStays(db: Db, cmd: Command, now: u64, fmt: ScoreText)
    requires |cmd| >= 2 && cmd[1] in db && RunOn(db, cmd, now, fmt).Some?
    requires var v := db[cmd[1]].value;
             match VerbOf(cmd[0])
             case RPush => !v.List?
             case SAdd => !v.Set?
             case HSet => !v.Hash?
             case ZAdd => !v.ZSet?
             case XAdd => !v.Stream?
             case NHSet => !v.NestedHash?
             case _ => false
    ensures RunOn(db, cmd, now, fmt) == Some(db)
  {
    hide VerbOf, ParseScored, Pairs;
  }

  // ----- commands on the server -----

  datatype Server = Server(dbs: seq<Db>, dbIndex: nat)

  /** SELECT takes any number; a command on a database that does not exist is an error. */
  function Execute(s: Server, cmd: Command, now: u64, fmt: ScoreText): (r: Option<Server>)
    requires cmd != []
  {
    if VerbOf(cmd[0]) == Select then
      Some(if |cmd| != 2 then s
           else s.(dbIndex := match ParseU64(cmd[1]) case None => 0 case Some(i) => i))
    else
      match RunOn(if s.dbIndex < |s.dbs| then s.dbs[s.dbIndex] else map[], cmd, now, fmt)
      case None => None
      case Some(db) => Some(if s.dbIndex < |s.dbs| then s.(dbs := s.dbs[s.dbIndex := db]) else s)
  }

  /** SELECT takes any number, and zero for text that is none; other argument counts are an
      error. On a database that does not exist no command changes anything. */
  lemma SelectForms(s: Server, i: u64, text: bytes, cmd: Command, now: u64, fmt: ScoreText)
    ensures Execute(s, [SELECT, Digits(i)], now, fmt) == Some(s.(dbIndex := i))
    ensures ParseU64(text) == None ==> Execute(s, [SELECT, text], now, fmt) == Some(s.(dbIndex := 0))
    ensures Execute(s, [SELECT], now, fmt) == Some(s)
    ensures s.dbIndex >= |s.dbs| && cmd != [] && VerbOf(cmd[0]) != Select && Execute(s, cmd, now, fmt).Some? ==>
              Execute(s, cmd, now, fmt) == Some(s)
  {
    hide VerbOf, RunOn, ParseU64;
    Verbs();
    U64TextRoundTrip(i);
  }

  function ExecuteAll(s: Server, cmds: seq<Command>, now: u64, fmt: ScoreText): (r: Option<Server>)
    requires AllNamed(cmds)
    decreases |cmds|
  {
    if cmds == [] then Some(s)
    else
      match Execute(s, cmds[0], now, fmt)
      case None => None
      case Some(s') => ExecuteAll(s', cmds[1..], now, fmt)
  }

  lemma {:induction false} ExecuteAllAppend(s: Server, a: seq<Command>, b: seq<Command>, now: u64, fmt: ScoreText)
    requires AllNamed(a) && AllNamed(b)
    ensures ExecuteAll(s, a + b, now, fmt)
         == match ExecuteAll(s, a, now, fmt)
            case None => None
            case Some(s') => ExecuteAll(s', b, now, fmt)
    decreases |a|
  {
    hide Execute;
    if a == [] {
      assert a + b == b;
    } else {
      assert (a + b)[1..] == a[1..] + b && (a + b)[0] == a[0];
      match Execute(s, a[0], now, fmt)
      case None =>
      case Some(s') => ExecuteAllAppend(s', a[1..], b, now, fmt);
    }
  }

  /** Commands other than SELECT act on the selected database alone. */
  lemma {:induction false} ExecuteOnSelected(s: Server, cmds: seq<Command>, now: u64, fmt: ScoreText)
    requires s.dbIndex < |s.dbs|
    requires AllNamed(cmds) && forall i | 0 <= i < |cmds| :: VerbOf(cmds[i][0]) != Select
    ensures ExecuteAll(s, cmds, now, fmt)
         == match RunAllOn(s.dbs[s.dbIndex], cmds, now, fmt)
            case None => None
            case Some(db) => Some(s.(dbs := s.dbs[s.dbIndex := db]))
    decreases |cmds|
  {
    hide RunOn, VerbOf;
    if cmds == [] {
      assert s.dbs[s.dbIndex := s.dbs[s.dbIndex]] == s.dbs;
    } else {
      assert cmds[0] in cmds;
      match RunOn(s.dbs[s.dbIndex], cmds[0], now, fmt)
      case None =>
      case Some(db) =>
        var s' := s.(dbs := s.dbs[s.dbIndex := db]);
        ExecuteOnSelected(s', cmds[1..], now, fmt);
        var end := RunAllOn(db, cmds[1..], now, fmt);
        assert end.Some? ==> s'.dbs[s.dbIndex := end.value] == s.dbs[s.dbIndex := end.value];
    }
  }

  /** `replay_aof`: every command the buffer yields is run in turn. */
  method ReplayAof(data: bytes, empty: Server, now: u64, fmt: ScoreText) returns (end: Option<Server>)
    ensures end == ExecuteAll(empty, Drain(data).cmds, now, fmt)
  {
    hide Execute;
    var cmds, _, _ := DrainBuffer(data);
    var s := empty;
    for k := 0 to |cmds|
      invariant ExecuteAll(s, cmds[k..], now, fmt) == ExecuteAll(empty, cmds, now, fmt)
    {
      assert cmds[k..][0] == cmds[k] && cmds[k..][1..] == cmds[k + 1..];
      match Execute(s, cmds[k], now, fmt)
      case None => return None;
      case Some(s') => s := s';
    }
    end := Some(s);
  }

  /** Replaying a log in two pieces is replaying the first and then the second. */
  lemma ReplaySplits(s: Server, a: seq<Command>, b: seq<Command>, now: u64, fmt: ScoreText)
    requires (forall c | c in a :: Loggable(c)) && forall c | c in b :: Loggable(c)
    ensures ExecuteAll(s, Drain(EncodeAll(a) + EncodeAll(b)).cmds, now, fmt)
         == match ExecuteAll(s, Drain(EncodeAll(a)).cmds, now, fmt)
            case None => None
            case Some(s') => ExecuteAll(s', Drain(EncodeAll(b)).cmds, now, fmt)
  {
    hide Execute, ExecuteAll, Drain, EncodeAll;
    EncodeAllAppend(a, b);
    LogRoundTrip(a + b);
    LogRoundTrip(a);
    LogRoundTrip(b);
    ExecuteAllAppend(s, a, b, now, fmt);
  }

  /** Replaying RPUSH of some items and then of more, as two commands of a log, is
      replaying RPUSH of all of them. */
  lemma RPushReplay(s: Server, key: bytes, xs: seq<bytes>, ys: seq<bytes>, now: u64, fmt: ScoreText)
    requires Encodable([RPUSH, key] + xs) && Encodable([RPUSH, key] + ys) && Encodable([RPUSH, key] + (xs + ys))
    ensures ExecuteAll(s, Drain(Encode([RPUSH, key] + xs) + Encode([RPUSH, key] + ys)).cmds, now, fmt)
         == ExecuteAll(s, Drain(Encode([RPUSH, key] + (xs + ys))).cmds, now, fmt)
  {
    hide Encode, Drain, RunOn, VerbOf, Encodable;
    var a, b, c := [RPUSH, key] + xs, [RPUSH, key] + ys, [RPUSH, key] + (xs + ys);
    assert Encode(a) + Encode(b) == EncodeAll([a, b]) by {
      EncodeAllAppend([a], [b]);
      EncodeOne(a);
      EncodeOne(b);
      assert [a] + [b] == [a, b];
    }
    EncodeOne(c);
    LogRoundTrip([a, b]);
    LogRoundTrip([c]);
    Verbs();
    assert a[0] == RPUSH && b[0] == RPUSH && c[0] == RPUSH;
    var db: Db := if s.dbIndex < |s.dbs| then s.dbs[s.dbIndex] else map[];
    RPushTwice(db, key, xs, ys, now, fmt);
    var db1 := RunOn(db, a, now, fmt).value;
    assert [a, b][1..] == [b] && [b][1..] == [] && [c][1..] == [];
    if s.dbIndex < |s.dbs| {
      var s1 := s.(dbs := s.dbs[s.dbIndex := db1]);
      assert Execute(s, a, now, fmt) == Some(s1) && s1.dbs[s1.dbIndex] == db1;
      var db2 := RunOn(db1, b, now, fmt).value;
      assert s1.dbs[s.dbIndex := db2] == s.dbs[s.dbIndex := db2];
    } else {
      RPushTwice(map[], key, ys, [], now, fmt);
    }
  }

  lemma RPushTwice(db: Db, key: bytes, xs: seq<bytes>, ys: seq<bytes>, now: u64, fmt: ScoreText)
    ensures RunOn(db, [RPUSH, key] + xs, now, fmt).Some?
    ensures var db1 := RunOn(db, [RPUSH, key] + xs, now, fmt).value;
            RunOn(db1, [RPUSH, key] + ys, now, fmt).Some?
            && RunOn(db1, [RPUSH, key] + ys, now, fmt) == RunOn(db, [RPUSH, key] + (xs + ys), now, fmt)
  {
    if key in db && !db[key].value.List? {
      RPushStays(db, key, xs, now, fmt);
      RPushStays(db, key, ys, now, fmt);
      RPushStays(db, key, xs + ys, now, fmt);
    } else {
      RPushLeaves(db, key, xs, now, fmt);
      RPushLeaves(db, key, xs + ys, now, fmt);
      var db1 := RunOn(db, [RPUSH, key] + xs, now, fmt).value;
      RPushLeaves(db1, key, ys, now, fmt);
      hide RunOn;
      var before: seq<bytes> := if key in db then db[key].value.items else [];
      assert before + (xs + ys) == before + xs + ys;
      var end := if key in db then db[key].(value := List(before + xs + ys)) else Entry(List(xs + ys), None, 0);
      assert db1[key := end] == db[key := end];
    }
  }

  lemma RPushStays(db: Db, key: bytes, xs: seq<bytes>, now: u64, fmt: ScoreText)
    requires key in db && !db[key].value.List?
    ensures RunOn(db, [RPUSH, key] + xs, now, fmt) == Some(db)
  {
    hide VerbOf;
    Verbs();
    var cmd := [RPUSH, key] + xs;
    assert cmd[1..][0] == key && cmd[1..][1..] == xs;
  }
}
