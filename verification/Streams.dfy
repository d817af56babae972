/**
  Streams: id generation, appending, deleting and trimming.
 */
module Streams {
  import opened Bytes
  import opened Values

  // ----- the forms of an id argument -----

  datatype IdSpec =
    | Auto                   // "*"
    | AutoSeq(ms: u64)       // "ms-*"
    | Explicit(id: StreamId) // "ms-seq"
    | Malformed

  function FirstMinus(s: bytes): (n: nat)
    ensures n <= |s|
    ensures forall i | 0 <= i < n :: s[i] != MINUS
    ensures n < |s| ==> s[n] == MINUS
  {
    if s == [] || s[0] == MINUS then 0 else 1 + FirstMinus(s[1..])
  }

  function ParseIdSpec(text: bytes): (spec: IdSpec) {
    var n := FirstMinus(text);
    if text == [STAR] then Auto
    else if n == |text| then Malformed
    else
      match ParseU64(text[..n])
      case None => Malformed
      case Some(ms) =>
        var tail := text[n + 1..];
        if tail == [STAR] then AutoSeq(ms)
        else
          match ParseU64(tail)
          case None => Malformed
          case Some(seqNo) => Explicit(StreamId(ms, seqNo))
  }

  /** The text form of an id. */
  function IdText(id: StreamId): (text: bytes) {
    Digits(id.ms) + [MINUS] + Digits(id.seqNo)
  }

  /** Reading back a printed id gives that id. */
  lemma IdTextRoundTrip(id: StreamId)
    ensures ParseIdSpec(IdText(id)) == Explicit(id)
  {
    var text, a, b := IdText(id), Digits(id.ms), Digits(id.seqNo);
    forall i | 0 <= i < |a| ensures text[i] != MINUS {
      assert text[i] == a[i] && IsDigit(a[i]);
    }
    assert text[|a|] == MINUS;
    assert text[..|a|] == a && text[|a| + 1..] == b;
    assert text[0] == a[0] && IsDigit(a[0]);
    assert IsDigit(b[0]);
    U64TextRoundTrip(id.ms);
    U64TextRoundTrip(id.seqNo);
  }

  /** The other forms: "*" alone, and otherwise what is before and after the first "-",
      each a 64-bit number, or a star after it. */
  lemma IdSpecForms(text: bytes, before: bytes, after: bytes, ms: u64)
    requires MINUS !in before
    ensures ParseIdSpec([42]) == Auto
    ensures MINUS !in text && text != [42] ==> ParseIdSpec(text) == Malformed
    ensures ParseIdSpec(Digits(ms) + [45, 42]) == AutoSeq(ms)
    ensures ParseU64(before) == None ==> ParseIdSpec(before + [45] + after) == Malformed
    ensures ParseU64(after) == None && after != [42] ==> ParseIdSpec(before + [45] + after) == Malformed
    ensures ParseU64(before).Some? && ParseU64(after).Some? ==>
              ParseIdSpec(before + [45] + after)
              == if after == [42] then AutoSeq(ParseU64(before).value)
                 else Explicit(StreamId(ParseU64(before).value, ParseU64(after).value))
  {
    hide ParseU64, Digits;
    SplitAtMinus(before, after);
    SplitAtMinus(Digits(ms), [42]);
    assert Digits(ms) + [45, 42] == Digits(ms) + [45] + [42];
    U64TextRoundTrip(ms);
  }

  lemma SplitAtMinus(before: bytes, after: bytes)
    requires MINUS !in before
    ensures var text := before + [45] + after;
            && FirstMinus(text) == |before| < |text| && text != [STAR]
            && text[..|before|] == before && text[|before| + 1..] == after
  {
    var text := before + [45] + after;
    assert text[|before|] == MINUS;
    forall i | 0 <= i < |before| ensures text[i] != MINUS {
      assert text[i] == before[i];
    }
  }

  // ----- id generation -----

  datatype StreamError = NotInteger | IdTooSmall

  datatype Generated = Id(id: StreamId) | Refused(error: StreamError)

  function Increment(n: u64): (m: u64) {
    (n + 1) % TWO_64
  }

  /** `generate_stream_id`, given the last id it can see and the clock. */
  function Generate(spec: IdSpec, last: StreamId, now: u64): (g: Generated) {
    match spec
    case Auto =>
      if now > last.ms then Id(StreamId(now, 0)) else Id(StreamId(last.ms, Increment(last.seqNo)))
    case AutoSeq(ms) =>
      if ms == 0 && last.seqNo == 0 then Id(StreamId(1, 0))
      else if ms > last.ms then Id(StreamId(ms, 0))
      else Id(StreamId(ms, Increment(last.seqNo)))
    case Explicit(id) => if id == ZERO_ID then Refused(IdTooSmall) else Id(id)
    case Malformed => Refused(NotInteger)
  }

  /** An id generated without a last id to see is above zero. */
  lemma GeneratedAboveZero(spec: IdSpec, now: u64)
    ensures var g := Generate(spec, ZERO_ID, now); g.Id? ==> ZERO_ID.Below(g.id)
  {
  }

  // ----- changing a stream -----

  /** `while entries.len() > max { pop_front }`. */
  function KeepLast(entries: seq<StreamEntry>, max: nat): (r: seq<StreamEntry>) {
    if |entries| > max then entries[|entries| - max..] else entries
  }

  method TrimFront(entries: seq<StreamEntry>, max: nat) returns (r: seq<StreamEntry>, removed: nat)
    ensures r == KeepLast(entries, max)
    ensures removed == |entries| - |r|
  {
    r, removed := entries, 0;
    while |r| > max
      invariant removed <= |entries| && r == entries[removed..]
      invariant removed == 0 || |r| >= max
    {
      r, removed := r[1..], removed + 1;
    }
  }

  datatype AddResult = Added(stream: Value, id: StreamId) | Rejected(error: StreamError)

  /** XADD on the stored stream `raw`; `visible` says that the key's entry exists and is
      not expired. The last id is consulted and checked only when it is visible, but
      the entry is always appended to what is stored. */
  function Append(
    raw: Value, visible: bool, spec: IdSpec, fields: seq<(bytes, bytes)>, maxlen: Option<nat>, now: u64
  ): (r: AddResult)
    requires raw.Stream?
    ensures r.Added? ==> r.stream.Stream? && r.stream.lastId == r.id
  {
    match Generate(spec, if visible then raw.lastId else ZERO_ID, now)
    case Refused(e) => Rejected(e)
    case Id(id) =>
      if visible && id.AtMost(raw.lastId) then Rejected(IdTooSmall)
      else
        var entries := raw.entries + [StreamEntry(id, fields)];
        Added(Stream(if maxlen.Some? then KeepLast(entries, maxlen.value) else entries, id), id)
  }

  /** Deleting the first entry with an id, if there is one. */
  function Delete(entries: seq<StreamEntry>, id: StreamId): (r: seq<StreamEntry>)
    ensures |r| <= |entries|
    ensures forall e | e in r :: e in entries
  {
    if entries == [] then []
    else if entries[0].id == id then entries[1..]
    else [entries[0]] + Delete(entries[1..], id)
  }

  function DeleteAll(entries: seq<StreamEntry>, ids: seq<StreamId>): (r: seq<StreamEntry>)
    decreases |ids|
  {
    if ids == [] then entries else DeleteAll(Delete(entries, ids[0]), ids[1..])
  }

  /** XDEL's loop: it returns how many entries it removed. */
  method DeleteEntries(entries: seq<StreamEntry>, ids: seq<StreamId>)
    returns (r: seq<StreamEntry>, removed: nat)
    ensures r == DeleteAll(entries, ids)
    ensures removed == |entries| - |r|
  {
    r, removed := entries, 0;
    for k := 0 to |ids|
      invariant DeleteAll(r, ids[k..]) == DeleteAll(entries, ids)
      invariant removed == |entries| - |r|
    {
      assert ids[k..][1..] == ids[k + 1..];
      var next := Delete(r, ids[k]);
      removed := removed + (|r| - |next|);
      r := next;
    }
  }

  // ----- order -----

  /** Entries increase, and none is above the last id handed out. */
  ghost predicate Ordered(stream: Value) {
    && stream.Stream?
    && Increasing(stream.entries)
    && forall e | e in stream.entries :: e.id.AtMost(stream.lastId)
  }

  lemma IncreasingCons(head: StreamEntry, tail: seq<StreamEntry>)
    ensures Increasing([head] + tail) <==> Increasing(tail) && forall e | e in tail :: head.id.Below(e.id)
  {
    var all := [head] + tail;
    hide StreamId.Below;
    assert forall i | 0 <= i < |tail| :: tail[i] == all[i + 1];
    if Increasing(all) {
      forall e | e in tail ensures all[0].id.Below(e.id) {
        var i :| 0 <= i < |tail| && tail[i] == e;
        assert all[i + 1] == e;
      }
    } else {
      var i, j :| 0 <= i < j < |all| && !all[i].id.Below(all[j].id);
      assert all[j] == tail[j - 1] && tail[j - 1] in tail;
      assert i > 0 ==> all[i] == tail[i - 1];
    }
  }

  lemma {:induction false} DeleteExactly(entries: seq<StreamEntry>, id: StreamId)
    requires Increasing(entries)
    ensures Increasing(Delete(entries, id))
    ensures forall e :: e in Delete(entries, id) <==> e in entries && e.id != id
  {
    hide Increasing;
    if entries != [] {
      var head, tail := entries[0], entries[1..];
      assert entries == [head] + tail;
      IncreasingCons(head, tail);
      if head.id != id {
        DeleteExactly(tail, id);
        IncreasingCons(head, Delete(tail, id));
      }
    }
  }

  /** XDEL removes exactly the entries whose ids it was given, and keeps the order. */
  lemma {:induction false} DeleteAllExactly(entries: seq<StreamEntry>, ids: seq<StreamId>)
    requires Increasing(entries)
    ensures Increasing(DeleteAll(entries, ids))
    ensures forall e :: e in DeleteAll(entries, ids) <==> e in entries && e.id !in ids
    decreases |ids|
  {
    if ids != [] {
      DeleteExactly(entries, ids[0]);
      DeleteAllExactly(Delete(entries, ids[0]), ids[1..]);
      assert forall i :: i in ids <==> i == ids[0] || i in ids[1..];
    }
  }

  lemma KeepLastOrdered(entries: seq<StreamEntry>, max: nat)
    requires Increasing(entries)
    ensures Increasing(KeepLast(entries, max))
    ensures forall e | e in KeepLast(entries, max) :: e in entries
  {
  }

  lemma IncreasingSnoc(entries: seq<StreamEntry>, last: StreamEntry)
    requires Increasing(entries) && forall e | e in entries :: e.id.Below(last.id)
    ensures Increasing(entries + [last])
  {
    assert forall i | 0 <= i < |entries| :: entries[i] in entries;
  }

  /** XADD on a stream it can see keeps the order, and its id exceeds every earlier one. */
  lemma AppendOrdered(
    raw: Value, visible: bool, spec: IdSpec, fields: seq<(bytes, bytes)>, maxlen: Option<nat>, now: u64)
    requires Ordered(raw) && (visible || raw == Stream([], ZERO_ID))
    ensures var r := Append(raw, visible, spec, fields, maxlen, now);
            r.Added? ==> Ordered(r.stream) && raw.lastId.Below(r.id)
  {
    hide Increasing;
    var r := Append(raw, visible, spec, fields, maxlen, now);
    if r.Added? {
      GeneratedAboveZero(spec, now);
      var entries := raw.entries + [StreamEntry(r.id, fields)];
      assert raw.lastId.Below(r.id);
      IncreasingSnoc(raw.entries, StreamEntry(r.id, fields));
      if maxlen.Some? {
        KeepLastOrdered(entries, maxlen.value);
      }
    }
  }

  /** The ids an id argument asks for. */
  predicate Asks(spec: IdSpec, now: u64, id: StreamId) {
    match spec
    case Auto => id.ms >= now
    case AutoSeq(ms) => id.ms == ms
    case Explicit(wanted) => id == wanted
    case Malformed => false
  }

  /** XADD on a stream it can see is refused exactly when no id of the wanted form lies
      above the last one without carrying into the milliseconds; otherwise its id is the
      smallest such id, but for "0-*" on last id 0-0, which gives 1-0. */
  lemma IdIsSmallest(raw: Value, spec: IdSpec, fields: seq<(bytes, bytes)>, maxlen: Option<nat>, now: u64)
    requires raw.Stream?
    ensures var r, last := Append(raw, true, spec, fields, maxlen, now), raw.lastId;
            && (r.Added? <==>
                  match spec
                  case Auto => now > last.ms || last.seqNo < TWO_64 - 1
                  case AutoSeq(ms) => ms > last.ms || (ms == last.ms && last.seqNo < TWO_64 - 1)
                  case Explicit(id) => last.Below(id)
                  case Malformed => false)
            && (r.Added? && spec == AutoSeq(0) && last == ZERO_ID ==> r.id == StreamId(1, 0))
            && (r.Added? && !(spec == AutoSeq(0) && last == ZERO_ID) ==>
                  && last.Below(r.id) && Asks(spec, now, r.id)
                  && forall id: StreamId | last.Below(id) && Asks(spec, now, id) :: r.id.AtMost(id))
  {
  }

  /** XADD adds its entry at the back, or trims from the front to the last `maxlen`. */
  lemma AppendContents(
    raw: Value, visible: bool, spec: IdSpec, fields: seq<(bytes, bytes)>, maxlen: Option<nat>, now: u64)
    requires raw.Stream?
    ensures var r := Append(raw, visible, spec, fields, maxlen, now);
            r.Added? ==>
              var all := raw.entries + [StreamEntry(r.id, fields)];
              && |r.stream.entries| == (if maxlen.Some? && maxlen.value < |all| then maxlen.value else |all|)
              && r.stream.entries == all[|all| - |r.stream.entries|..]
  {
  }

  /** The id an argument gives when no last id can be seen, from the argument and the
      clock alone. */
  function UnseenId(spec: IdSpec, now: u64): (id: Option<StreamId>) {
    match spec
    case Auto => Some(if now > 0 then StreamId(now, 0) else StreamId(0, 1))
    case AutoSeq(ms) => Some(StreamId(if ms > 0 then ms else 1, 0))
    case Explicit(wanted) => if wanted == ZERO_ID then None else Some(wanted)
    case Malformed => None
  }

  /** On a stream whose key has expired but is still stored, XADD checks nothing: the
      order survives if and only if nothing is stored, or MAXLEN keeps at most one entry,
      or the last stored id is below the one the argument and the clock give. */
  lemma AppendToExpired(raw: Value, spec: IdSpec, fields: seq<(bytes, bytes)>, maxlen: Option<nat>, now: u64)
    requires Ordered(raw)
    ensures var r, id := Append(raw, false, spec, fields, maxlen, now), UnseenId(spec, now);
            && (r.Added? <==> id.Some?)
            && (id.Some? ==> r.id == id.value)
            && (id.Some? ==>
                  (Ordered(r.stream) <==>
                     || raw.entries == []
                     || (maxlen.Some? && maxlen.value <= 1)
                     || raw.entries[|raw.entries| - 1].id.Below(id.value)))
  {
    hide Increasing, StreamId.Below, KeepLast;
    AppendUnseen(raw, spec, fields, maxlen, now);
    var id := UnseenId(spec, now);
    if id.Some? {
      var added := StreamEntry(id.value, fields);
      LastAdded(raw.entries, added, maxlen);
      AllBelowLast(raw.entries, added, maxlen);
    }
  }

  /** What XADD makes of a stream it cannot see. */
  lemma AppendUnseen(raw: Value, spec: IdSpec, fields: seq<(bytes, bytes)>, maxlen: Option<nat>, now: u64)
    requires raw.Stream?
    ensures var r, id := Append(raw, false, spec, fields, maxlen, now), UnseenId(spec, now);
            && (r.Added? <==> id.Some?)
            && (id.Some? ==>
                  var all := raw.entries + [StreamEntry(id.value, fields)];
                  r == Added(Stream(if maxlen.Some? then KeepLast(all, maxlen.value) else all, id.value), id.value))
  {
    hide KeepLast;
  }

  /** Entries in order are at most the last. */
  lemma AllBelowLast(entries: seq<StreamEntry>, added: StreamEntry, maxlen: Option<nat>)
    ensures var all := entries + [added];
            var kept := if maxlen.Some? then KeepLast(all, maxlen.value) else all;
            Increasing(kept) ==> forall e | e in kept :: e.id.AtMost(added.id)
  {
    var all := entries + [added];
    var kept := if maxlen.Some? then KeepLast(all, maxlen.value) else all;
    if Increasing(kept) && kept != [] {
      assert kept[|kept| - 1] == added;
    }
  }

  lemma InOrder(entries: seq<StreamEntry>, e: StreamEntry)
    requires Increasing(entries) && e in entries
    ensures e.id.AtMost(entries[|entries| - 1].id)
  {
  }

  /** When the order survives an entry added at the back, all of it kept or the last few. */
  lemma LastAdded(entries: seq<StreamEntry>, added: StreamEntry, maxlen: Option<nat>)
    requires Increasing(entries)
    ensures var all := entries + [added];
            Increasing(if maxlen.Some? then KeepLast(all, maxlen.value) else all)
            <==> entries == [] || (maxlen.Some? && maxlen.value <= 1) || entries[|entries| - 1].id.Below(added.id)
  {
    var all, n := entries + [added], |entries|;
    var kept := if maxlen.Some? then KeepLast(all, maxlen.value) else all;
    if n == 0 || |kept| <= 1 { return; }
    var last := entries[n - 1];
    assert kept == all[n + 1 - |kept|..] && kept[|kept| - 2] == last && kept[|kept| - 1] == added;
    if last.id.Below(added.id) {
      forall e | e in entries ensures e.id.Below(added.id) {
        InOrder(entries, e);
      }
      IncreasingSnoc(entries, added);
      KeepLastOrdered(all, |kept|);
    }
  }

  /** It does break: id 3-0 is accepted behind entry 5-0. */
  lemma ExpiredStreamLosesOrder()
    ensures var five := StreamEntry(StreamId(5, 0), [([102], [118])]);
            var r := Append(Stream([five], StreamId(5, 0)), false, Explicit(StreamId(3, 0)), [([102], [118])], None, 9);
            r.Added? && !Ordered(r.stream)
  {
    var five := StreamEntry(StreamId(5, 0), [([102], [118])]);
    var raw := Stream([five], StreamId(5, 0));
    AppendToExpired(raw, Explicit(StreamId(3, 0)), [([102], [118])], None, 9);
  }

  // ----- runs of commands on one stream key without a TTL -----

  datatype StreamOp =
    | Xadd(spec: IdSpec, fields: seq<(bytes, bytes)>, maxlen: Option<nat>, now: u64)
    | Xdel(ids: seq<StreamId>)
    | Xtrim(max: nat)

  /** The stored stream, if the key exists. */
  type StreamKey = Option<Value>

  predicate IsStream(k: StreamKey) {
    k.Some? ==> k.value.Stream?
  }

  /** What the command makes of the key, and the id it hands out. */
  function Run1(k: StreamKey, op: StreamOp): (r: (StreamKey, Option<StreamId>))
    requires IsStream(k)
    ensures IsStream(r.0)
  {
    match op
    case Xadd(spec, fields, maxlen, now) =>
      (match Append(if k.Some? then k.value else Stream([], ZERO_ID), k.Some?, spec, fields, maxlen, now)
       case Rejected(_) => (k, None)
       case Added(stream, id) => (Some(stream), Some(id)))
    case Xdel(ids) => (if k.Some? then Some(k.value.(entries := DeleteAll(k.value.entries, ids))) else None, None)
    case Xtrim(max) => (if k.Some? then Some(k.value.(entries := KeepLast(k.value.entries, max))) else None, None)
  }

  function Run(k: StreamKey, ops: seq<StreamOp>): (r: (StreamKey, seq<StreamId>))
    requires IsStream(k)
    ensures IsStream(r.0)
    decreases |ops|
  {
    if ops == [] then (k, [])
    else
      var (k', id) := Run1(k, ops[0]);
      var (end, ids) := Run(k', ops[1..]);
      (end, (if id.Some? then [id.value] else []) + ids)
  }

  ghost predicate KeyOrdered(k: StreamKey) {
    k.Some? ==> Ordered(k.value)
  }

  function LastId(k: StreamKey): (id: StreamId)
    requires IsStream(k)
  {
    if k.Some? then k.value.lastId else ZERO_ID
  }

  lemma BelowTransitive(a: StreamId, b: StreamId, c: StreamId)
    requires a.AtMost(b) && b.AtMost(c)
    ensures a.AtMost(c)
    ensures a.Below(b) || b.Below(c) ==> a.Below(c)
  {
  }

  lemma BelowTotal(a: StreamId, b: StreamId)
    ensures a.Below(b) <==> !b.AtMost(a)
  {
  }

  lemma StepOrdered(k: StreamKey, op: StreamOp)
    requires IsStream(k) && KeyOrdered(k)
    ensures var (k', id) := Run1(k, op);
            && KeyOrdered(k')
            && LastId(k).AtMost(LastId(k'))
            && (id.Some? ==> LastId(k).Below(id.value) && id.value == LastId(k'))
  {
    match op
    case Xadd(spec, fields, maxlen, now) =>
      AppendOrdered(if k.Some? then k.value else Stream([], ZERO_ID), k.Some?, spec, fields, maxlen, now);
    case Xdel(ids) =>
      if k.Some? { DeleteAllExactly(k.value.entries, ids); }
    case Xtrim(max) =>
      if k.Some? { KeepLastOrdered(k.value.entries, max); }
  }

  /** What each command leaves behind: a refused XADD nothing, an accepted one its entry at
      the back and the last `maxlen`; XDEL all but the ids named; XTRIM the last `max`. */
  lemma StreamEffects(k: StreamKey, op: StreamOp)
    requires IsStream(k) && KeyOrdered(k)
    ensures var (k', id) := Run1(k, op);
            && (op.Xadd? && id == None ==> k' == k)
            && (op.Xadd? && id.Some? ==>
                  && k'.Some? && k'.value.lastId == id.value
                  && IsTail(k'.value.entries, (if k.Some? then k.value.entries else []) + [StreamEntry(id.value, op.fields)],
                            op.maxlen))
            && (!op.Xadd? ==> id == None && k'.Some? == k.Some? && (k.Some? ==> k'.value.lastId == k.value.lastId))
            && (op.Xdel? && k.Some? ==>
                  && Increasing(k'.value.entries)
                  && forall e :: e in k'.value.entries <==> e in k.value.entries && e.id !in op.ids)
            && (op.Xtrim? && k.Some? ==> IsTail(k'.value.entries, k.value.entries, Some(op.max)))
  {
    hide Increasing, DeleteAll, Generate, StreamId.Below;
    match op
    case Xadd(spec, fields, maxlen, now) =>
      AppendContents(if k.Some? then k.value else Stream([], ZERO_ID), k.Some?, spec, fields, maxlen, now);
      hide Append;
    case Xdel(ids) =>
      if k.Some? { DeleteAllExactly(k.value.entries, ids); }
    case Xtrim(max) =>
  }

  /** `r` is the end of `all`: `max` elements, or all of it if there are no more or no limit. */
  predicate IsTail(r: seq<StreamEntry>, all: seq<StreamEntry>, max: Option<nat>) {
    |r| == (if max.Some? && max.value < |all| then max.value else |all|) && r == all[|all| - |r|..]
  }

  /** Over any run of XADD (in every id form, under any clock), XDEL and XTRIM: the
      stream stays ordered, and every id handed out exceeds all handed out before it,
      whether or not their entries still exist. */
  lemma {:induction false} IdsIncrease(k: StreamKey, ops: seq<StreamOp>)
    requires IsStream(k) && KeyOrdered(k)
    ensures var (end, ids) := Run(k, ops);
            && KeyOrdered(end)
            && LastId(k).AtMost(LastId(end))
            && (forall i | 0 <= i < |ids| :: LastId(k).Below(ids[i]) && ids[i].AtMost(LastId(end)))
            && (forall i, j | 0 <= i < j < |ids| :: ids[i].Below(ids[j]))
    decreases |ops|
  {
    if ops != [] {
      var (k', id) := Run1(k, ops[0]);
      var (end, ids) := Run(k', ops[1..]);
      StepOrdered(k, ops[0]);
      IdsIncrease(k', ops[1..]);
      BelowTransitive(LastId(k), LastId(k'), LastId(end));
      forall i | 0 <= i < |ids| ensures LastId(k).Below(ids[i]) {
        BelowTransitive(LastId(k), LastId(k'), ids[i]);
      }
    }
  }
}
