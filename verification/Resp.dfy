/**
  The RESP wire format: the serializer for protocols 2 and 3 and the parser.

  Parsers take the unread input and give back the value with the input that
  follows it. Input that ends too early is a failure, exactly as malformed
  input is: the parser is built from `complete` combinators.
 */
module Resp {
  import opened Bytes

  datatype RespValue =
    | SimpleString(text: bytes)
    | Error(text: bytes)
    | Integer(i: i64)
    | BulkString(data: bytes)
    | NullBulk
    | Array(items: seq<RespValue>)
    | NullArray
    | Map(pairs: seq<MapEntry>)
    | Double(repr: bytes)  // the text the server prints for the number
    | Boolean(flag: bool)
    | Null

  datatype MapEntry = MapEntry(key: RespValue, value: RespValue)

  datatype Parsed<+T> = Parsed(value: T, rest: bytes) | Failure

  // ----- serializer -----

  function Header(tag: byte, n: int): (s: bytes)
    ensures s != [] && s[0] == tag
  {
    [tag] + Decimal(n) + CRLF
  }

  function Bulk(data: bytes): (s: bytes) {
    Header(36, |data|) + data + CRLF
  }

  /** The bytes of a value under a protocol version. */
  function Serialize(v: RespValue, protocol: nat): (s: bytes)
    decreases v
  {
    match v
    case SimpleString(text) => [PLUS] + text + CRLF
    case Error(text) => [MINUS] + text + CRLF
    case Integer(i) => Header(58, i)
    case NullBulk => if protocol >= 3 then [95] + CRLF else Header(36, -1)
    case BulkString(data) => Bulk(data)
    case NullArray => if protocol >= 3 then [95] + CRLF else Header(STAR, -1)
    case Array(items) => Header(STAR, |items|) + SerializeAll(items, protocol)
    case Map(pairs) =>
      (if protocol >= 3 then Header(37, |pairs|) else Header(STAR, |pairs| * 2))
      + SerializePairs(pairs, protocol)
    case Double(repr) => if protocol >= 3 then [44] + repr + CRLF else Bulk(repr)
    case Boolean(flag) =>
      if protocol >= 3 then [35, if flag then 116 else 102] + CRLF
      else [58, if flag then 49 else 48] + CRLF
    case Null => if protocol >= 3 then [95] + CRLF else Header(36, -1)
  }

  function SerializeAll(items: seq<RespValue>, protocol: nat): (s: bytes)
    decreases items
  {
    if items == [] then [] else Serialize(items[0], protocol) + SerializeAll(items[1..], protocol)
  }

  function SerializePairs(pairs: seq<MapEntry>, protocol: nat): (s: bytes)
    decreases pairs
  {
    if pairs == [] then [] else SerializeEntry(pairs[0], protocol) + SerializePairs(pairs[1..], protocol)
  }

  function SerializeEntry(e: MapEntry, protocol: nat): (s: bytes)
    decreases e
  {
    Serialize(e.key, protocol) + Serialize(e.value, protocol)
  }

  /** The serializer as the server runs it: it appends to an output buffer, item by item. */
  method SerializeValue(v: RespValue, out: bytes, protocol: nat) returns (result: bytes)
    ensures result == out + Serialize(v, protocol)
    decreases v
  {
    match v
    case Array(items) =>
      result := SerializeItems(items, out + Header(STAR, |items|), protocol);
    case Map(pairs) =>
      var header := if protocol >= 3 then Header(37, |pairs|) else Header(STAR, |pairs| * 2);
      result := SerializeMap(pairs, out + header, protocol);
    case _ =>
      result := out + Serialize(v, protocol);
  }

  method SerializeItems(items: seq<RespValue>, out: bytes, protocol: nat) returns (result: bytes)
    ensures result == out + SerializeAll(items, protocol)
    decreases items
  {
    hide Serialize, SerializeAll;
    SerializeNothing(protocol);
    result := out;
    for k := 0 to |items|
      invariant result == out + SerializeAll(items[..k], protocol)
    {
      SerializeAllSnoc(items[..k], items[k], protocol);
      assert items[..k] + [items[k]] == items[..k + 1];
      result := SerializeValue(items[k], result, protocol);
    }
    assert items[..|items|] == items;
  }

  lemma SerializeNothing(protocol: nat)
    ensures SerializeAll([], protocol) == [] && SerializePairs([], protocol) == []
  {
  }

  method SerializeMap(pairs: seq<MapEntry>, out: bytes, protocol: nat) returns (result: bytes)
    ensures result == out + SerializePairs(pairs, protocol)
    decreases pairs
  {
    hide SerializeEntry, SerializePairs;
    SerializeNothing(protocol);
    result := out;
    for k := 0 to |pairs|
      invariant result == out + SerializePairs(pairs[..k], protocol)
    {
      SerializePairsSnoc(pairs[..k], pairs[k], protocol);
      assert pairs[..k] + [pairs[k]] == pairs[..k + 1];
      result := SerializeMapEntry(pairs[k], result, protocol);
    }
    assert pairs[..|pairs|] == pairs;
  }

  method SerializeMapEntry(e: MapEntry, out: bytes, protocol: nat) returns (result: bytes)
    ensures result == out + SerializeEntry(e, protocol)
    decreases e
  {
    result := SerializeValue(e.key, out, protocol);
    result := SerializeValue(e.value, result, protocol);
  }

  lemma {:induction false} SerializeAllSnoc(items: seq<RespValue>, last: RespValue, protocol: nat)
    ensures SerializeAll(items + [last], protocol) == SerializeAll(items, protocol) + Serialize(last, protocol)
  {
    if items != [] {
      assert (items + [last])[1..] == items[1..] + [last];
      SerializeAllSnoc(items[1..], last, protocol);
    }
  }

  lemma {:induction false} SerializePairsSnoc(
    pairs: seq<MapEntry>, last: MapEntry, protocol: nat)
    ensures SerializePairs(pairs + [last], protocol)
         == SerializePairs(pairs, protocol) + SerializeEntry(last, protocol)
  {
    if pairs != [] {
      assert (pairs + [last])[1..] == pairs[1..] + [last];
      SerializePairsSnoc(pairs[1..], last, protocol);
    }
  }

  // ----- parser -----

  function FirstCr(s: bytes): (n: nat)
    ensures n <= |s|
    ensures forall i | 0 <= i < n :: s[i] != CR
    ensures n < |s| ==> s[n] == CR
  {
    if s == [] || s[0] == CR then 0 else FirstCr(s[1..]) + 1
  }

  function ParseCrlf<T>(value: T, s: bytes): (r: Parsed<T>)
    ensures r.Parsed? ==> |r.rest| < |s|
  {
    if CRLF <= s then Parsed(value, s[2..]) else Failure
  }

  function ParseLine(s: bytes): (r: Parsed<bytes>)
    ensures r.Parsed? ==> |r.rest| < |s|
  {
    var n := FirstCr(s);
    ParseCrlf(s[..n], s[n..])
  }

  /** nom's `i64`: an optional sign, at least one digit, then digits up to the
      first other byte; a value outside the 64-bit range is a failure. */
  function ParseI64(s: bytes): (r: Parsed<i64>)
    ensures r.Parsed? ==> |r.rest| < |s|
  {
    if s != [] && s[0] == MINUS then
      match ParseMagnitude(s[1..], TWO_63)
      case Failure => Failure
      case Parsed(n, rest) => Parsed(0 - n, rest)
    else
      match ParseMagnitude(if s != [] && s[0] == PLUS then s[1..] else s, TWO_63 - 1)
      case Failure => Failure
      case Parsed(n, rest) => Parsed(n, rest)
  }

  function ParseMagnitude(s: bytes, limit: nat): (r: Parsed<nat>)
    ensures r.Parsed? ==> |r.rest| < |s| && r.value <= limit
  {
    if s == [] || !IsDigit(s[0]) then Failure else AccumulateDigits(s, limit, 0)
  }

  function AccumulateDigits(s: bytes, limit: nat, acc: nat): (r: Parsed<nat>)
    requires acc <= limit
    ensures r.Parsed? ==> |r.rest| <= |s| && r.value <= limit
    ensures r.Parsed? && s != [] && IsDigit(s[0]) ==> |r.rest| < |s|
  {
    if s == [] || !IsDigit(s[0]) then Parsed(acc, s)
    else
      var next := acc * 10 + (s[0] - 48);
      if next <= limit then AccumulateDigits(s[1..], limit, next) else Failure
  }

  /** A signed length followed by CRLF. */
  function ParseHeader(s: bytes): (r: Parsed<i64>)
    ensures r.Parsed? ==> |r.rest| < |s|
  {
    match ParseI64(s)
    case Failure => Failure
    case Parsed(n, rest) => ParseCrlf(n, rest)
  }

  function ParseBulkBody(len: i64, s: bytes): (r: Parsed<RespValue>)
    ensures r.Parsed? ==> |r.rest| <= |s|
  {
    if len < 0 then Parsed(NullBulk, s)
    else if len > |s| then Failure
    else ParseCrlf(BulkString(s[..len]), s[len..])
  }

  /** The five alternatives start with different bytes, so trying them in turn
      is choosing by the first byte. */
  function ParseValue(s: bytes): (r: Parsed<RespValue>)
    ensures r.Parsed? ==> |r.rest| < |s|
    decreases |s|, 0
  {
    if s == [] then Failure
    else if s[0] == PLUS then
      match ParseLine(s[1..])
      case Failure => Failure
      case Parsed(text, rest) => Parsed(SimpleString(text), rest)
    else if s[0] == MINUS then
      match ParseLine(s[1..])
      case Failure => Failure
      case Parsed(text, rest) => Parsed(Error(text), rest)
    else if s[0] == 58 then
      match ParseHeader(s[1..])
      case Failure => Failure
      case Parsed(n, rest) => Parsed(Integer(n), rest)
    else if s[0] == 36 then
      match ParseHeader(s[1..])
      case Failure => Failure
      case Parsed(len, rest) => ParseBulkBody(len, rest)
    else if s[0] == STAR then
      match ParseHeader(s[1..])
      case Failure => Failure
      case Parsed(len, rest) =>
        if len < 0 then Parsed(NullArray, rest)
        else
          match ParseItems(len, rest)
          case Failure => Failure
          case Parsed(items, after) => Parsed(Array(items), after)
    else Failure
  }

  /** Exactly `n` values in a row. */
  function ParseItems(n: nat, s: bytes): (r: Parsed<seq<RespValue>>)
    ensures r.Parsed? ==> |r.rest| <= |s| && |r.value| == n
    decreases |s|, 1
  {
    if n == 0 then Parsed([], s)
    else
      match ParseValue(s)
      case Failure => Failure
      case Parsed(head, rest) =>
        match ParseItems(n - 1, rest)
        case Failure => Failure
        case Parsed(tail, after) => Parsed([head] + tail, after)
  }

  // ----- the forms in bytes -----

  /** What protocol 2 and protocol 3 write for each kind of value. */
  lemma WireForms(text: bytes, items: seq<RespValue>, pairs: seq<MapEntry>, p: nat)
    ensures Serialize(SimpleString(text), p) == [43] + text + [13, 10]
    ensures Serialize(Error(text), p) == [45] + text + [13, 10]
    ensures Serialize(Integer(0 - 12), p) == [58, 45, 49, 50, 13, 10]
    ensures Serialize(BulkString(text), p) == [36] + Decimal(|text|) + [13, 10] + text + [13, 10]
    ensures Serialize(Array(items), p) == [42] + Decimal(|items|) + [13, 10] + SerializeAll(items, p)
    ensures Serialize(NullBulk, 2) == Serialize(Null, 2) == [36, 45, 49, 13, 10] && Serialize(NullArray, 2) == [42, 45, 49, 13, 10]
    ensures Serialize(NullBulk, 3) == Serialize(NullArray, 3) == Serialize(Null, 3) == [95, 13, 10]
    ensures Serialize(Boolean(true), 2) == [58, 49, 13, 10] && Serialize(Boolean(false), 2) == [58, 48, 13, 10]
    ensures Serialize(Boolean(true), 3) == [35, 116, 13, 10] && Serialize(Boolean(false), 3) == [35, 102, 13, 10]
    ensures Serialize(Double(text), 2) == Serialize(BulkString(text), 2) && Serialize(Double(text), 3) == [44] + text + [13, 10]
    ensures Serialize(Map(pairs), 2) == [42] + Decimal(|pairs| * 2) + [13, 10] + SerializePairs(pairs, 2)
    ensures Serialize(Map(pairs), 3) == [37] + Decimal(|pairs|) + [13, 10] + SerializePairs(pairs, 3)
  {
    hide SerializeAll, SerializePairs;
    assert Digits(12) == Digits(1) + [50] && Digits(1) == [49];
    assert Decimal(-1) == [45, 49];
  }

  /** Items and entries are written one after another, a key before its value. */
  lemma WireSequences(a: RespValue, b: RespValue, items: seq<RespValue>, pairs: seq<MapEntry>, p: nat)
    ensures SerializeAll([], p) == [] && SerializePairs([], p) == []
    ensures SerializeAll([a] + items, p) == Serialize(a, p) + SerializeAll(items, p)
    ensures SerializePairs([MapEntry(a, b)] + pairs, p) == Serialize(a, p) + Serialize(b, p) + SerializePairs(pairs, p)
  {
    hide Serialize;
    assert ([a] + items)[1..] == items && ([MapEntry(a, b)] + pairs)[1..] == pairs;
  }

  // ----- a parse reads from the front -----

  predicate IsSuffix(rest: bytes, s: bytes) {
    |rest| <= |s| && rest == s[|s| - |rest|..]
  }

  lemma SuffixAfter(rest: bytes, s: bytes, n: nat)
    requires n <= |s| && IsSuffix(rest, s[n..])
    ensures IsSuffix(rest, s)
  {
    assert s[n..][|s| - n - |rest|..] == s[|s| - |rest|..];
  }

  lemma SuffixTransitive(a: bytes, b: bytes, c: bytes)
    requires IsSuffix(a, b) && IsSuffix(b, c)
    ensures IsSuffix(a, c)
  {
    SuffixAfter(a, c, |c| - |b|);
  }

  lemma {:induction false} AccumulateLeaves(s: bytes, limit: nat, acc: nat)
    requires acc <= limit && AccumulateDigits(s, limit, acc).Parsed?
    ensures IsSuffix(AccumulateDigits(s, limit, acc).rest, s)
  {
    hide IsSuffix;
    if s != [] && IsDigit(s[0]) {
      AccumulateLeaves(s[1..], limit, acc * 10 + (s[0] - 48));
      SuffixAfter(AccumulateDigits(s, limit, acc).rest, s, 1);
    } else {
      WholeIsSuffix(s);
    }
  }

  lemma WholeIsSuffix(s: bytes)
    ensures IsSuffix(s, s)
  {
  }

  lemma DroppedIsSuffix(s: bytes, n: nat)
    requires n <= |s|
    ensures IsSuffix(s[n..], s)
  {
  }

  lemma HeaderLeaves(s: bytes)
    requires ParseHeader(s).Parsed?
    ensures IsSuffix(ParseHeader(s).rest, s)
  {
    hide IsSuffix, AccumulateDigits;
    var signed := s[0] == MINUS || s[0] == PLUS;
    var digits := if signed then s[1..] else s;
    var limit := if s[0] == MINUS then TWO_63 else TWO_63 - 1;
    AccumulateLeaves(digits, limit, 0);
    var after := AccumulateDigits(digits, limit, 0).rest;
    if signed {
      SuffixAfter(after, s, 1);
    }
    DroppedIsSuffix(after, 2);
    SuffixTransitive(after[2..], after, s);
  }

  lemma LineLeaves(s: bytes)
    requires ParseLine(s).Parsed?
    ensures IsSuffix(ParseLine(s).rest, s)
  {
    hide IsSuffix;
    var n := FirstCr(s);
    DroppedIsSuffix(s[n..], 2);
    SuffixAfter(s[n..][2..], s, n);
  }

  lemma BulkLeaves(len: i64, s: bytes)
    requires ParseBulkBody(len, s).Parsed?
    ensures IsSuffix(ParseBulkBody(len, s).rest, s)
  {
    hide IsSuffix;
    WholeIsSuffix(s);
    if len >= 0 {
      DroppedIsSuffix(s[len..], 2);
      SuffixAfter(s[len..][2..], s, len);
    }
  }

  /** What a successful parse leaves unread is the end of its input, byte for byte. */
  lemma {:induction false} RestIsSuffix(s: bytes)
    requires ParseValue(s).Parsed?
    ensures IsSuffix(ParseValue(s).rest, s)
    decreases |s|, 0
  {
    hide IsSuffix, ParseHeader, ParseLine, ParseBulkBody, ParseItems;
    if s[0] == PLUS || s[0] == MINUS {
      LineLeaves(s[1..]);
    } else {
      HeaderLeaves(s[1..]);
      var Parsed(len, rest) := ParseHeader(s[1..]);
      if s[0] == 36 {
        BulkLeaves(len, rest);
        SuffixTransitive(ParseBulkBody(len, rest).rest, rest, s[1..]);
      } else if s[0] == STAR && len >= 0 {
        ItemsLeave(len, rest);
        SuffixTransitive(ParseItems(len, rest).rest, rest, s[1..]);
      }
    }
    SuffixAfter(ParseValue(s).rest, s, 1);
  }

  lemma {:induction false} ItemsLeave(n: nat, s: bytes)
    requires ParseItems(n, s).Parsed?
    ensures IsSuffix(ParseItems(n, s).rest, s)
    decreases |s|, 1
  {
    hide IsSuffix, ParseValue;
    if n == 0 {
      WholeIsSuffix(s);
    } else {
      var rest := ParseValue(s).rest;
      RestIsSuffix(s);
      ItemsLeave(n - 1, rest);
      SuffixTransitive(ParseItems(n - 1, rest).rest, rest, s);
    }
  }

  // ----- what RESP2 can carry -----

  /** The value a RESP2 client sees: maps flattened, RESP3-only scalars replaced. */
  function Degrade(v: RespValue): (d: RespValue)
    decreases v
  {
    match v
    case Array(items) => Array(DegradeAll(items))
    case Map(pairs) => Array(DegradePairs(pairs))
    case Double(repr) => BulkString(repr)
    case Boolean(flag) => Integer(if flag then 1 else 0)
    case Null => NullBulk
    case _ => v
  }

  function DegradeAll(items: seq<RespValue>): (d: seq<RespValue>)
    ensures |d| == |items|
    decreases items
  {
    if items == [] then [] else [Degrade(items[0])] + DegradeAll(items[1..])
  }

  function DegradePairs(pairs: seq<MapEntry>): (d: seq<RespValue>)
    ensures |d| == 2 * |pairs|
    decreases pairs
  {
    if pairs == [] then []
    else DegradeEntry(pairs[0]) + DegradePairs(pairs[1..])
  }

  function DegradeEntry(e: MapEntry): (d: seq<RespValue>)
    ensures |d| == 2
    decreases e
  {
    [Degrade(e.key), Degrade(e.value)]
  }

  /** Every length fits the signed 64-bit header, as every Rust vector's does. */
  predicate Sized(v: RespValue)
    decreases v
  {
    match v
    case BulkString(data) => |data| < TWO_63
    case Double(repr) => |repr| < TWO_63
    case Array(items) => |items| < TWO_63 && forall x | x in items :: Sized(x)
    case Map(pairs) => |pairs| * 2 < TWO_63 && forall p | p in pairs :: Sized(p.key) && Sized(p.value)
    case _ => true
  }

  /** No simple string or error inside contains a carriage return. */
  predicate NoCr(v: RespValue)
    decreases v
  {
    match v
    case SimpleString(text) => CR !in text
    case Error(text) => CR !in text
    case Array(items) => forall x | x in items :: NoCr(x)
    case Map(pairs) => forall p | p in pairs :: NoCr(p.key) && NoCr(p.value)
    case _ => true
  }

  // ----- round trip -----

  /** Reading the digits of `n` before `tail` reaches `n` at `tail`. */
  lemma {:induction false} AccumulateOwnDigits(n: nat, limit: nat, tail: bytes)
    requires n <= limit
    ensures AccumulateDigits(Digits(n) + tail, limit, 0) == AccumulateDigits(tail, limit, n)
  {
    if n < 10 {
      assert (Digits(n) + tail)[1..] == tail;
    } else {
      var last := [48 + n % 10] + tail;
      assert Digits(n) + tail == Digits(n / 10) + last;
      AccumulateOwnDigits(n / 10, limit, last);
      assert last[1..] == tail;
    }
  }

  lemma MagnitudeRoundTrip(n: nat, limit: nat, rest: bytes)
    requires n <= limit
    ensures ParseMagnitude(Digits(n) + (CRLF + rest), limit) == Parsed(n, CRLF + rest)
  {
    var digits := Digits(n) + (CRLF + rest);
    assert digits[0] == Digits(n)[0] && IsDigit(Digits(n)[0]);
    AccumulateOwnDigits(n, limit, CRLF + rest);
  }

  lemma NegativeRoundTrip(m: nat, rest: bytes)
    requires 0 < m <= TWO_63
    ensures ParseI64([MINUS] + Digits(m) + (CRLF + rest)) == Parsed(0 - m, CRLF + rest)
  {
    hide Digits, ParseMagnitude;
    MagnitudeRoundTrip(m, TWO_63, rest);
    assert ([MINUS] + Digits(m) + (CRLF + rest))[1..] == Digits(m) + (CRLF + rest);
  }

  lemma NaturalRoundTrip(m: nat, rest: bytes)
    requires m < TWO_63
    ensures ParseI64(Digits(m) + (CRLF + rest)) == Parsed(m, CRLF + rest)
  {
    hide Digits, ParseMagnitude;
    MagnitudeRoundTrip(m, TWO_63 - 1, rest);
    assert (Digits(m) + (CRLF + rest))[0] == Digits(m)[0] && IsDigit(Digits(m)[0]);
  }

  lemma DecimalRoundTrip(n: i64, rest: bytes)
    ensures ParseI64(Decimal(n) + (CRLF + rest)) == Parsed(n, CRLF + rest)
  {
    hide Digits, ParseI64;
    if n < 0 {
      NegativeRoundTrip(0 - n, rest);
    } else {
      NaturalRoundTrip(n, rest);
    }
  }

  lemma HeaderRoundTrip(tag: byte, n: i64, rest: bytes)
    ensures ParseHeader((Header(tag, n) + rest)[1..]) == Parsed(n, rest)
  {
    assert (Header(tag, n) + rest)[1..] == Decimal(n) + (CRLF + rest);
    DecimalRoundTrip(n, rest);
    assert (CRLF + rest)[2..] == rest;
  }

  /** An array header is followed by that many values. */
  lemma ArrayFrame(n: nat, after: bytes)
    requires n < TWO_63
    ensures ParseValue(Header(STAR, n) + after)
         == match ParseItems(n, after)
            case Failure => Failure
            case Parsed(items, rest) => Parsed(Array(items), rest)
  {
    HeaderRoundTrip(STAR, n, after);
  }

  lemma LineFrame(tag: byte, text: bytes, rest: bytes)
    requires tag == PLUS || tag == MINUS
    ensures ParseValue([tag] + text + CRLF + rest)
         == match ParseLine(text + CRLF + rest)
            case Failure => Failure
            case Parsed(t, after) => Parsed(if tag == PLUS then SimpleString(t) else Error(t), after)
  {
    assert ([tag] + text + CRLF + rest)[1..] == text + CRLF + rest;
  }

  predicate IsScalar(v: RespValue) {
    !v.Array? && !v.Map?
  }

  lemma ScalarRoundTrip(v: RespValue, rest: bytes)
    requires IsScalar(v) && Sized(v) && NoCr(v)
    ensures ParseValue(Serialize(v, 2) + rest) == Parsed(Degrade(v), rest)
  {
    match v
    case SimpleString(text) =>
      LineFrame(PLUS, text, rest);
      LineRoundTrip(text, rest);
    case Error(text) =>
      LineFrame(MINUS, text, rest);
      LineRoundTrip(text, rest);
    case BulkString(data) => BulkRoundTrip(data, rest);
    case Double(repr) => BulkRoundTrip(repr, rest);
    case Integer(i) => HeaderRoundTrip(58, i, rest);
    case Boolean(flag) =>
      assert Serialize(v, 2) == Header(58, if flag then 1 else 0);
      HeaderRoundTrip(58, if flag then 1 else 0, rest);
    case NullArray => HeaderRoundTrip(STAR, -1, rest);
    case NullBulk => HeaderRoundTrip(36, -1, rest);
    case Null => HeaderRoundTrip(36, -1, rest);
  }

  lemma LineRoundTrip(text: bytes, rest: bytes)
    ensures CR !in text ==> ParseLine(text + CRLF + rest) == Parsed(text, rest)
    ensures CR in text && ParseLine(text + CRLF + rest).Parsed? ==>
              |ParseLine(text + CRLF + rest).value| < |text|
  {
    var s := text + CRLF + rest;
    assert s[|text|] == CR;
    if CR in text {
      var i :| 0 <= i < |text| && text[i] == CR;
      assert s[i] == CR;
    } else {
      assert FirstCr(s) == |text| by {
        assert forall i | 0 <= i < |text| :: s[i] == text[i];
      }
      assert s[..|text|] == text;
      assert s[|text|..] == CRLF + rest;
      assert (CRLF + rest)[2..] == rest;
    }
  }

  lemma BulkRoundTrip(data: bytes, rest: bytes)
    requires |data| < TWO_63
    ensures ParseValue(Bulk(data) + rest) == Parsed(BulkString(data), rest)
  {
    var after := data + CRLF + rest;
    assert Bulk(data) + rest == Header(36, |data|) + after;
    HeaderRoundTrip(36, |data|, after);
    assert after[..|data|] == data;
    assert after[|data|..] == CRLF + rest;
    assert (CRLF + rest)[2..] == rest;
  }

  /** RESP round trip, exactly: parsing the RESP2 bytes of `v` in front of any
      `rest` gives back the RESP2 view of `v` and `rest` if and only if no simple
      string or error in `v` contains a carriage return. */
  lemma RoundTrip(v: RespValue, rest: bytes)
    requires Sized(v)
    ensures ParseValue(Serialize(v, 2) + rest) == Parsed(Degrade(v), rest) <==> NoCr(v)
  {
    if NoCr(v) {
      RoundTripForward(v, rest);
    } else {
      RoundTripBroken(v, rest);
    }
  }

  lemma {:induction false} RoundTripForward(v: RespValue, rest: bytes)
    requires Sized(v) && NoCr(v)
    ensures ParseValue(Serialize(v, 2) + rest) == Parsed(Degrade(v), rest)
    decreases v
  {
    match v
    case Array(items) =>
      assert Serialize(v, 2) + rest == Header(STAR, |items|) + (SerializeAll(items, 2) + rest);
      ArrayFrame(|items|, SerializeAll(items, 2) + rest);
      ItemsRoundTrip(items, rest);
    case Map(pairs) =>
      assert Serialize(v, 2) + rest == Header(STAR, |pairs| * 2) + (SerializePairs(pairs, 2) + rest);
      ArrayFrame(|pairs| * 2, SerializePairs(pairs, 2) + rest);
      PairsRoundTrip(pairs, rest);
    case _ => ScalarRoundTrip(v, rest);
  }

  lemma {:induction false} ItemsRoundTrip(items: seq<RespValue>, rest: bytes)
    requires forall x | x in items :: Sized(x) && NoCr(x)
    ensures ParseItems(|items|, SerializeAll(items, 2) + rest) == Parsed(DegradeAll(items), rest)
    decreases items
  {
    hide Serialize, ParseValue, Degrade, NoCr, Sized;
    if items == [] {
      assert SerializeAll(items, 2) + rest == rest;
    } else {
      var after := SerializeAll(items[1..], 2) + rest;
      assert SerializeAll(items, 2) + rest == Serialize(items[0], 2) + after;
      RoundTripForward(items[0], after);
      ItemsRoundTrip(items[1..], rest);
    }
  }

  lemma {:induction false} EntryRoundTrip(e: MapEntry, n: nat, after: bytes)
    requires Sized(e.key) && Sized(e.value) && NoCr(e.key) && NoCr(e.value)
    ensures ParseItems(n + 2, SerializeEntry(e, 2) + after)
         == match ParseItems(n, after)
            case Failure => Failure
            case Parsed(tail, rest) => Parsed(DegradeEntry(e) + tail, rest)
    decreases e
  {
    hide Serialize, ParseValue, Degrade, NoCr, Sized;
    var middle := Serialize(e.value, 2) + after;
    assert SerializeEntry(e, 2) + after == Serialize(e.key, 2) + middle;
    RoundTripForward(e.key, middle);
    RoundTripForward(e.value, after);
    match ParseItems(n, after)
    case Failure =>
    case Parsed(tail, _) =>
      assert [Degrade(e.key)] + ([Degrade(e.value)] + tail) == DegradeEntry(e) + tail;
  }

  lemma {:induction false} PairsRoundTrip(pairs: seq<MapEntry>, rest: bytes)
    requires forall p | p in pairs :: Sized(p.key) && Sized(p.value) && NoCr(p.key) && NoCr(p.value)
    ensures ParseItems(|pairs| * 2, SerializePairs(pairs, 2) + rest) == Parsed(DegradePairs(pairs), rest)
    decreases pairs
  {
    hide Serialize, ParseValue, Degrade, NoCr, Sized, SerializeEntry, DegradeEntry;
    if pairs == [] {
      assert SerializePairs(pairs, 2) + rest == rest;
    } else {
      var after := SerializePairs(pairs[1..], 2) + rest;
      assert SerializePairs(pairs, 2) + rest == SerializeEntry(pairs[0], 2) + after;
      PairsRoundTrip(pairs[1..], rest);
      EntryRoundTrip(pairs[0], (|pairs| - 1) * 2, after);
    }
  }

  ghost predicate Differs<T>(r: Parsed<T>, expected: T) {
    r.Failure? || r.value != expected
  }

  /** A value holding a carriage return never comes back as itself. */
  lemma {:induction false} RoundTripBroken(v: RespValue, rest: bytes)
    requires Sized(v) && !NoCr(v)
    ensures Differs(ParseValue(Serialize(v, 2) + rest), Degrade(v))
    decreases v
  {
    hide ParseValue, ParseLine, Header;
    match v
    case SimpleString(text) =>
      LineFrame(PLUS, text, rest);
      LineRoundTrip(text, rest);
    case Error(text) =>
      LineFrame(MINUS, text, rest);
      LineRoundTrip(text, rest);
    case Array(items) =>
      assert Serialize(v, 2) + rest == Header(STAR, |items|) + (SerializeAll(items, 2) + rest);
      ArrayFrame(|items|, SerializeAll(items, 2) + rest);
      ItemsBroken(items, rest);
    case Map(pairs) =>
      assert Serialize(v, 2) + rest == Header(STAR, |pairs| * 2) + (SerializePairs(pairs, 2) + rest);
      ArrayFrame(|pairs| * 2, SerializePairs(pairs, 2) + rest);
      PairsBroken(pairs, rest);
  }

  lemma {:induction false} ItemsBroken(items: seq<RespValue>, rest: bytes)
    requires forall x | x in items :: Sized(x)
    requires exists x | x in items :: !NoCr(x)
    ensures Differs(ParseItems(|items|, SerializeAll(items, 2) + rest), DegradeAll(items))
    decreases items
  {
    hide Serialize, ParseValue, Degrade, NoCr, Sized;
    var after := SerializeAll(items[1..], 2) + rest;
    assert SerializeAll(items, 2) + rest == Serialize(items[0], 2) + after;
    var x :| x in items && !NoCr(x);
    if NoCr(items[0]) {
      assert x in items[1..];
      RoundTripForward(items[0], after);
      ItemsBroken(items[1..], rest);
      TailDiffers([Degrade(items[0])], ParseItems(|items| - 1, after), DegradeAll(items[1..]));
    } else {
      RoundTripBroken(items[0], after);
      assert DegradeAll(items)[0] == Degrade(items[0]);
    }
  }

  lemma {:induction false} EntryBroken(e: MapEntry, n: nat, after: bytes, tail: seq<RespValue>)
    requires Sized(e.key) && Sized(e.value)
    requires !(NoCr(e.key) && NoCr(e.value))
    ensures Differs(ParseItems(n + 2, SerializeEntry(e, 2) + after), DegradeEntry(e) + tail)
    decreases e
  {
    hide Serialize, ParseValue, Degrade, NoCr, Sized;
    var middle := Serialize(e.value, 2) + after;
    assert SerializeEntry(e, 2) + after == Serialize(e.key, 2) + middle;
    var expected := DegradeEntry(e) + tail;
    assert expected[0] == Degrade(e.key) && expected[1] == Degrade(e.value);
    var r := ParseItems(n + 2, Serialize(e.key, 2) + middle);
    if !NoCr(e.key) {
      RoundTripBroken(e.key, middle);
      assert r.Parsed? ==> r.value[0] != expected[0];
    } else {
      RoundTripForward(e.key, middle);
      RoundTripBroken(e.value, after);
      var inner := ParseItems(n + 1, middle);
      assert inner.Parsed? ==> inner.value[0] != Degrade(e.value);
      assert r.Parsed? ==> r.value[1] == inner.value[0];
    }
  }

  lemma {:induction false} PairsBroken(pairs: seq<MapEntry>, rest: bytes)
    requires forall p | p in pairs :: Sized(p.key) && Sized(p.value)
    requires exists p | p in pairs :: !(NoCr(p.key) && NoCr(p.value))
    ensures Differs(ParseItems(|pairs| * 2, SerializePairs(pairs, 2) + rest), DegradePairs(pairs))
    decreases pairs
  {
    hide Serialize, ParseValue, Degrade, NoCr, Sized, SerializeEntry, DegradeEntry;
    var n, tail := (|pairs| - 1) * 2, DegradePairs(pairs[1..]);
    var after := SerializePairs(pairs[1..], 2) + rest;
    assert SerializePairs(pairs, 2) + rest == SerializeEntry(pairs[0], 2) + after;
    if NoCr(pairs[0].key) && NoCr(pairs[0].value) {
      EntryRoundTrip(pairs[0], n, after);
      PairsBroken(pairs[1..], rest);
      TailDiffers(DegradeEntry(pairs[0]), ParseItems(n, after), tail);
    } else {
      EntryBroken(pairs[0], n, after, tail);
    }
  }

  lemma TailDiffers<T>(head: seq<T>, r: Parsed<seq<T>>, tail: seq<T>)
    requires Differs(r, tail)
    ensures r.Parsed? ==> head + r.value != head + tail
  {
    if r.Parsed? {
      assert (head + r.value)[|head|..] == r.value && (head + tail)[|head|..] == tail;
    }
  }

  /** What a RESP2 client sees of each kind of value. */
  lemma DegradedForms(text: bytes, a: RespValue, b: RespValue, pairs: seq<MapEntry>)
    ensures Degrade(Boolean(true)) == Integer(1) && Degrade(Boolean(false)) == Integer(0)
    ensures Degrade(Null) == NullBulk && Degrade(Double(text)) == BulkString(text)
    ensures Degrade(Map([])) == Array([])
    ensures Degrade(Map([MapEntry(a, b)] + pairs))
         == Array([Degrade(a), Degrade(b)] + (match Degrade(Map(pairs)) case Array(rest) => rest case _ => []))
  {
    hide Degrade;
    assert ([MapEntry(a, b)] + pairs)[1..] == pairs;
    DegradeMap([MapEntry(a, b)] + pairs);
    DegradeMap(pairs);
    DegradeMap([]);
    DegradeScalars(text);
  }

  lemma DegradeMap(pairs: seq<MapEntry>)
    ensures Degrade(Map(pairs)) == Array(DegradePairs(pairs))
  {
  }

  lemma DegradeScalars(text: bytes)
    ensures Degrade(Boolean(true)) == Integer(1) && Degrade(Boolean(false)) == Integer(0)
    ensures Degrade(Null) == NullBulk && Degrade(Double(text)) == BulkString(text)
  {
  }

  // ----- more input never changes a successful parse -----

  lemma {:induction false} AccumulateExtend(s: bytes, limit: nat, acc: nat, more: bytes)
    requires acc <= limit
    requires AccumulateDigits(s, limit, acc).Parsed? && AccumulateDigits(s, limit, acc).rest != []
    ensures var r := AccumulateDigits(s, limit, acc);
            AccumulateDigits(s + more, limit, acc) == Parsed(r.value, r.rest + more)
  {
    if IsDigit(s[0]) {
      assert (s + more)[1..] == s[1..] + more;
      AccumulateExtend(s[1..], limit, acc * 10 + (s[0] - 48), more);
    }
  }

  lemma MagnitudeExtend(s: bytes, limit: nat, more: bytes)
    requires ParseMagnitude(s, limit).Parsed? && ParseMagnitude(s, limit).rest != []
    ensures var r := ParseMagnitude(s, limit); ParseMagnitude(s + more, limit) == Parsed(r.value, r.rest + more)
  {
    AccumulateExtend(s, limit, 0, more);
  }

  lemma SignedExtend(s: bytes, more: bytes)
    requires s != [] && (s[0] == MINUS || s[0] == PLUS)
    requires ParseI64(s).Parsed? && ParseI64(s).rest != []
    ensures ParseI64(s + more) == Parsed(ParseI64(s).value, ParseI64(s).rest + more)
  {
    hide ParseMagnitude;
    MagnitudeExtend(s[1..], if s[0] == MINUS then TWO_63 else TWO_63 - 1, more);
    assert (s + more)[1..] == s[1..] + more && (s + more)[0] == s[0];
  }

  lemma UnsignedExtend(s: bytes, more: bytes)
    requires s != [] && s[0] != MINUS && s[0] != PLUS
    requires ParseI64(s).Parsed? && ParseI64(s).rest != []
    ensures ParseI64(s + more) == Parsed(ParseI64(s).value, ParseI64(s).rest + more)
  {
    hide ParseMagnitude;
    MagnitudeExtend(s, TWO_63 - 1, more);
    assert (s + more)[0] == s[0];
  }

  lemma CrlfExtend<T>(value: T, s: bytes, more: bytes)
    requires ParseCrlf(value, s).Parsed?
    ensures ParseCrlf(value, s).value == value
    ensures ParseCrlf(value, s + more) == Parsed(value, ParseCrlf(value, s).rest + more)
  {
    assert (s + more)[2..] == s[2..] + more;
  }

  lemma SomeText(s: bytes)
    requires ParseI64(s).Parsed?
    ensures s != []
  {
  }

  lemma HeaderExtend(s: bytes, more: bytes)
    requires ParseHeader(s).Parsed?
    ensures ParseHeader(s + more) == Parsed(ParseHeader(s).value, ParseHeader(s).rest + more)
  {
    hide ParseI64, ParseCrlf;
    SomeText(s);
    NotCrlf(ParseI64(s).value);
    if s[0] == MINUS || s[0] == PLUS {
      SignedExtend(s, more);
    } else {
      UnsignedExtend(s, more);
    }
    CrlfExtend(ParseI64(s).value, ParseI64(s).rest, more);
  }

  lemma NotCrlf<T>(value: T)
    ensures ParseCrlf(value, []).Failure?
  {
  }

  lemma LineExtend(s: bytes, more: bytes)
    requires ParseLine(s).Parsed?
    ensures ParseLine(s + more) == Parsed(ParseLine(s).value, ParseLine(s).rest + more)
  {
    var n := FirstCr(s);
    FirstCrExtend(s, more);
    assert (s + more)[..n] == s[..n];
    assert (s + more)[n..] == s[n..] + more;
    assert (s[n..] + more)[2..] == s[n..][2..] + more;
  }

  lemma {:induction false} FirstCrExtend(s: bytes, more: bytes)
    requires FirstCr(s) < |s|
    ensures FirstCr(s + more) == FirstCr(s)
  {
    if s[0] != CR {
      assert (s + more)[1..] == s[1..] + more;
      FirstCrExtend(s[1..], more);
    }
  }

  /** A parse that succeeds gives the same value when more input is appended, and
      leaves the appended input unread. */
  lemma {:induction false} ParseExtend(s: bytes, more: bytes)
    requires ParseValue(s).Parsed?
    ensures ParseValue(s + more) == Parsed(ParseValue(s).value, ParseValue(s).rest + more)
    decreases |s|, 0
  {
    assert (s + more)[1..] == s[1..] + more;
    if s[0] == PLUS || s[0] == MINUS {
      LineExtend(s[1..], more);
    } else {
      HeaderExtend(s[1..], more);
      var Parsed(len, rest) := ParseHeader(s[1..]);
      if s[0] == 36 && len >= 0 {
        assert (rest + more)[..len] == rest[..len];
        assert (rest + more)[len..] == rest[len..] + more;
        assert (rest[len..] + more)[2..] == rest[len..][2..] + more;
      } else if s[0] == STAR && len >= 0 {
        ItemsExtend(len, rest, more);
      }
    }
  }

  lemma {:induction false} ItemsExtend(n: nat, s: bytes, more: bytes)
    requires ParseItems(n, s).Parsed?
    ensures ParseItems(n, s + more) == Parsed(ParseItems(n, s).value, ParseItems(n, s).rest + more)
    decreases |s|, 1
  {
    if n > 0 {
      ParseExtend(s, more);
      ItemsExtend(n - 1, ParseValue(s).rest, more);
    }
  }

  /** Prefix freeness: cutting a serialized value short anywhere leaves bytes that
      do not parse. */
  lemma TornValueFails(v: RespValue, cut: nat)
    requires Sized(v) && NoCr(v)
    requires cut < |Serialize(v, 2)|
    ensures ParseValue(Serialize(v, 2)[..cut]).Failure?
  {
    var s := Serialize(v, 2);
    var torn := s[..cut];
    assert s == torn + s[cut..] == s + [];
    RoundTripForward(v, []);
    if ParseValue(torn).Parsed? {
      ParseExtend(torn, s[cut..]);
    }
  }
}
