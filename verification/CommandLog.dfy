/**
  Commands as bytes: the encoder shared by the append-only file and replication,
  the command parser, and the loop that consumes a buffer command by command.
 */
module CommandLog {
  import opened Bytes
  import opened Resp

  /** A command is its argument vector; the first argument is the name. */
  type Command = seq<bytes>

  predicate Encodable(cmd: Command) {
    |cmd| < TWO_63 && forall a | a in cmd :: |a| < TWO_63
  }

  /** A command the replay loop can apply: it has a name, and lengths fit a header. */
  predicate Loggable(cmd: Command) {
    cmd != [] && Encodable(cmd)
  }

  /** No command is without a name. */
  predicate AllNamed(cmds: seq<Command>) {
    forall i | 0 <= i < |cmds| :: cmds[i] != []
  }

  function Bulks(cmd: Command): (vs: seq<RespValue>)
    ensures |vs| == |cmd|
    ensures forall i | 0 <= i < |cmd| :: vs[i] == BulkString(cmd[i])
  {
    seq(|cmd|, i requires 0 <= i < |cmd| => BulkString(cmd[i]))
  }

  /** The bytes of a command: a RESP array of bulk strings. */
  function Encode(cmd: Command): (s: bytes)
    ensures s != []
  {
    Serialize(Array(Bulks(cmd)), 2)
  }

  function EncodeAll(cmds: seq<Command>): (s: bytes) {
    ConcatMap(cmds, Encode)
  }

  /** `encode_command_for_aof`: the loop that builds the bytes argument by argument. */
  method EncodeCommandForAof(args: Command) returns (out: bytes)
    ensures out == Encode(args)
  {
    hide Decimal;
    out := [STAR] + Decimal(|args|) + CRLF;
    for k := 0 to |args|
      invariant out == Header(STAR, |args|) + SerializeAll(Bulks(args)[..k], 2)
    {
      SerializeAllSnoc(Bulks(args)[..k], BulkString(args[k]), 2);
      assert Bulks(args)[..k] + [BulkString(args[k])] == Bulks(args)[..k + 1];
      out := out + ([36] + Decimal(|args[k]|) + CRLF + args[k] + CRLF);
    }
    assert Bulks(args)[..|args|] == Bulks(args);
  }

  /** The arguments a parsed array carries: bulk and simple strings; anything else is skipped. */
  function Arguments(items: seq<RespValue>): (args: Command) {
    if items == [] then []
    else
      match items[0]
      case BulkString(data) => [data] + Arguments(items[1..])
      case SimpleString(text) => [text] + Arguments(items[1..])
      case _ => Arguments(items[1..])
  }

  /** `parse_command`: a value that is not an array is an empty command. */
  function ParseCommand(s: bytes): (r: Parsed<Command>)
    ensures r.Parsed? ==> |r.rest| < |s|
  {
    match ParseValue(s)
    case Failure => Failure
    case Parsed(v, rest) => Parsed(if v.Array? then Arguments(v.items) else [], rest)
  }

  /** What one run of the consuming loop does to a buffer: the commands it hands
      to the dispatcher, the bytes it consumes, and whether it stopped on a parse error. */
  datatype Drained = Drained(cmds: seq<Command>, consumed: nat, failed: bool)

  function Drain(buf: bytes): (d: Drained)
    ensures d.consumed <= |buf| && AllNamed(d.cmds)
    decreases |buf|
  {
    if buf == [] then Drained([], 0, false)
    else
      match ParseCommand(buf)
      case Failure => Drained([], 0, true)
      case Parsed(args, rest) =>
        if args == [] then Drained([], 0, false)
        else
          var d := Drain(rest);
          Drained([args] + d.cmds, |buf| - |rest| + d.consumed, d.failed)
  }

  /** The loop of `replay_aof` and `stream_commands`, which advances a buffer in place. */
  method DrainBuffer(data: bytes) returns (cmds: seq<Command>, left: bytes, failed: bool)
    ensures cmds == Drain(data).cmds
    ensures failed == Drain(data).failed
    ensures left == data[Drain(data).consumed..]
  {
    hide ParseCommand, IsSuffix, Drain;
    var buf := data;
    cmds, failed := [], false;
    WholeIsSuffix(data);
    while buf != []
      invariant Drain(data).cmds == cmds + Drain(buf).cmds
      invariant Drain(data).failed == Drain(buf).failed
      invariant !failed
      invariant |data| - Drain(data).consumed == |buf| - Drain(buf).consumed
      invariant IsSuffix(buf, data)
      decreases |buf|
    {
      DrainTurn(buf);
      match ParseCommand(buf)
      case Failure =>
        failed := true;
        break;
      case Parsed(args, rest) =>
        if args == [] { break; }
        cmds := cmds + [args];
        SuffixTransitive(rest, buf, data);
        buf := rest;
    }
    DrainTurn(buf);
    left := buf;
    SuffixIsEnd(left, data);
  }

  /** What one turn of the loop finds. */
  lemma DrainTurn(buf: bytes)
    ensures buf == [] ==> Drain(buf) == Drained([], 0, false)
    ensures buf != [] && ParseCommand(buf).Failure? ==> Drain(buf) == Drained([], 0, true)
    ensures ParseCommand(buf).Parsed? ==> IsSuffix(ParseCommand(buf).rest, buf)
    ensures buf != [] && ParseCommand(buf).Parsed? && ParseCommand(buf).value == [] ==> Drain(buf) == Drained([], 0, false)
    ensures buf != [] && ParseCommand(buf).Parsed? && ParseCommand(buf).value != [] ==>
              var rest := ParseCommand(buf).rest;
              Drain(buf) == Drained([ParseCommand(buf).value] + Drain(rest).cmds,
                                    |buf| - |rest| + Drain(rest).consumed, Drain(rest).failed)
  {
    hide ParseValue, IsSuffix;
    if ParseCommand(buf).Parsed? {
      RestIsSuffix(buf);
    }
  }

  lemma SuffixIsEnd(rest: bytes, s: bytes)
    requires IsSuffix(rest, s)
    ensures |rest| <= |s| && rest == s[|s| - |rest|..]
  {
  }

  /** Which items of an array become arguments, in order. */
  lemma {:induction false} ArgumentsExactly(a: seq<RespValue>, b: seq<RespValue>, v: RespValue)
    ensures Arguments(a + b) == Arguments(a) + Arguments(b)
    ensures Arguments([v]) == if v.BulkString? then [v.data] else if v.SimpleString? then [v.text] else []
  {
    if a == [] {
      assert a + b == b;
    } else {
      assert (a + b)[1..] == a[1..] + b;
      ArgumentsExactly(a[1..], b, v);
    }
  }

  /** A value that is not an array, or an array without arguments, stops the loop without
      an error, and what follows it is not looked at. */
  lemma NonCommandStops(v: RespValue, rest: bytes)
    requires Sized(v) && NoCr(v)
    requires match Degrade(v) case Array(items) => Arguments(items) == [] case _ => true
    ensures Drain(Serialize(v, 2) + rest) == Drained([], 0, false)
  {
    hide Serialize, ParseValue, Sized, NoCr, Arguments;
    SerializedSomething(v);
    RoundTripForward(v, rest);
  }

  lemma SerializedSomething(v: RespValue)
    ensures Serialize(v, 2) != []
  {
  }

  /** A command of one argument, byte by byte. */
  lemma EncodedForm(arg: bytes)
    ensures Encode([arg]) == [42, 49, 13, 10, 36] + Decimal(|arg|) + [13, 10] + arg + [13, 10]
  {
    hide Decimal;
    assert Decimal(1) == [49] by { DecimalOne(); }
    assert Bulks([arg]) == [BulkString(arg)];
    assert SerializeAll([BulkString(arg)], 2) == Serialize(BulkString(arg), 2) + SerializeAll([], 2);
  }

  lemma DecimalOne()
    ensures Decimal(1) == [49]
  {
  }

  // ----- round trip of one command -----

  lemma {:induction false} ArgumentsOfBulks(items: seq<RespValue>, cmd: Command)
    requires |items| == |cmd|
    requires forall i | 0 <= i < |cmd| :: items[i] == BulkString(cmd[i])
    ensures Arguments(items) == cmd
    ensures DegradeAll(items) == items
  {
    if items != [] {
      ArgumentsOfBulks(items[1..], cmd[1..]);
    }
  }

  lemma EncodeRoundTrip(cmd: Command, rest: bytes)
    requires Encodable(cmd)
    ensures ParseCommand(Encode(cmd) + rest) == Parsed(cmd, rest)
  {
    RoundTripForward(Array(Bulks(cmd)), rest);
    ArgumentsOfBulks(Bulks(cmd), cmd);
  }

  lemma TornCommandFails(cmd: Command, cut: nat)
    requires Encodable(cmd)
    requires cut < |Encode(cmd)|
    ensures ParseCommand(Encode(cmd)[..cut]).Failure?
  {
    TornValueFails(Array(Bulks(cmd)), cut);
  }

  // ----- round trip of a log -----

  lemma EncodeAllAppend(a: seq<Command>, b: seq<Command>)
    ensures EncodeAll(a + b) == EncodeAll(a) + EncodeAll(b)
  {
    ConcatMapAppend(a, b, Encode);
  }

  lemma EncodeOne(cmd: Command)
    ensures EncodeAll([cmd]) == Encode(cmd)
  {
    assert ConcatMap([cmd], Encode) == Encode(cmd) + ConcatMap([], Encode);
  }

  /** The number of commands of `cmds` that lie wholly within the first `n` bytes of their log. */
  function Whole(cmds: seq<Command>, n: nat): (k: nat)
    ensures k <= |cmds|
  {
    if cmds == [] || n < |Encode(cmds[0])| then 0
    else 1 + Whole(cmds[1..], n - |Encode(cmds[0])|)
  }

  /** `Whole` is the largest number of leading commands whose bytes fit in `n`. */
  lemma {:induction false} WholeIsLargest(cmds: seq<Command>, n: nat, j: nat)
    requires j <= |cmds|
    ensures |EncodeAll(cmds[..j])| <= n <==> j <= Whole(cmds, n)
  {
    if j > 0 {
      var size := |Encode(cmds[0])|;
      assert cmds[..j][1..] == cmds[1..][..j - 1];
      if n >= size {
        WholeIsLargest(cmds[1..], n - size, j - 1);
      }
    }
  }

  lemma DrainStep(cmd: Command, rest: bytes)
    requires Loggable(cmd)
    ensures var d := Drain(rest);
            Drain(Encode(cmd) + rest) == Drained([cmd] + d.cmds, |Encode(cmd)| + d.consumed, d.failed)
  {
    EncodeRoundTrip(cmd, rest);
  }

  lemma DrainTorn(cmd: Command, cut: nat)
    requires Loggable(cmd) && 0 < cut < |Encode(cmd)|
    ensures Drain(Encode(cmd)[..cut]) == Drained([], 0, true)
  {
    TornCommandFails(cmd, cut);
  }

  /** Torn-log recovery: replaying the first `n` bytes of a log applies, in order,
      exactly the commands that lie wholly inside them, consumes exactly their
      bytes, and stops on an error precisely when the cut splits a command. */
  lemma {:induction false} TornLogRecovery(cmds: seq<Command>, n: nat)
    requires forall c | c in cmds :: Loggable(c)
    requires n <= |EncodeAll(cmds)|
    ensures var k := Whole(cmds, n);
            var whole := |EncodeAll(cmds[..k])|;
            Drain(EncodeAll(cmds)[..n]) == Drained(cmds[..k], whole, whole != n)
  {
    var k := Whole(cmds, n);
    if n == 0 {
      assert EncodeAll(cmds)[..n] == [] && cmds[..k] == [];
    } else if n < |Encode(cmds[0])| {
      assert EncodeAll(cmds)[..n] == Encode(cmds[0])[..n] && cmds[..k] == [];
      DrainTorn(cmds[0], n);
    } else {
      var m := n - |Encode(cmds[0])|;
      WholeStep(cmds, n, m, k);
      DrainStep(cmds[0], EncodeAll(cmds[1..])[..m]);
      TornLogRecovery(cmds[1..], m);
    }
  }

  lemma WholeStep(cmds: seq<Command>, n: nat, m: nat, k: nat)
    requires cmds != [] && n == m + |Encode(cmds[0])| && n <= |EncodeAll(cmds)|
    requires k == Whole(cmds, n)
    ensures k == 1 + Whole(cmds[1..], m) && m <= |EncodeAll(cmds[1..])|
    ensures EncodeAll(cmds)[..n] == Encode(cmds[0]) + EncodeAll(cmds[1..])[..m]
    ensures cmds[..k] == [cmds[0]] + cmds[1..][..k - 1]
    ensures |EncodeAll(cmds[..k])| == |Encode(cmds[0])| + |EncodeAll(cmds[1..][..k - 1])|
  {
    assert cmds[..k][1..] == cmds[1..][..k - 1];
  }

  /** Whatever follows them, whole commands come back first. */
  lemma {:induction false} DrainWhole(cmds: seq<Command>, rest: bytes)
    requires forall c | c in cmds :: Loggable(c)
    ensures var d := Drain(rest);
            Drain(EncodeAll(cmds) + rest) == Drained(cmds + d.cmds, |EncodeAll(cmds)| + d.consumed, d.failed)
  {
    hide Drain, Encode;
    if cmds == [] {
      assert EncodeAll(cmds) + rest == rest;
    } else {
      var after := EncodeAll(cmds[1..]) + rest;
      ConcatAssociative(Encode(cmds[0]), EncodeAll(cmds[1..]), rest);
      DrainStep(cmds[0], after);
      DrainWhole(cmds[1..], rest);
    }
  }

  /** A log cut off at `n` is not shortened before later commands are appended to it. Its
      whole commands still come back first; the later ones all do if the cut splits none. */
  lemma AppendedToTorn(cmds: seq<Command>, n: nat, later: seq<Command>)
    requires forall c | c in cmds :: Loggable(c)
    requires forall c | c in later :: Loggable(c)
    requires n <= |EncodeAll(cmds)|
    ensures var k := Whole(cmds, n);
            var replayed := Drain(EncodeAll(cmds)[..n] + EncodeAll(later)).cmds;
            && cmds[..k] <= replayed
            && (|EncodeAll(cmds[..k])| == n ==> replayed == cmds[..k] + later)
  {
    hide Drain, Encode;
    var k := Whole(cmds, n);
    var whole := EncodeAll(cmds[..k]);
    WholeIsLargest(cmds, n, k);
    EncodeAllAppend(cmds[..k], cmds[k..]);
    assert cmds[..k] + cmds[k..] == cmds;
    var torn := EncodeAll(cmds)[..n][|whole|..];
    assert EncodeAll(cmds)[..n] == whole + torn;
    ConcatAssociative(whole, torn, EncodeAll(later));
    DrainWhole(cmds[..k], torn + EncodeAll(later));
    LogRoundTrip(later);
    assert torn == [] ==> torn + EncodeAll(later) == EncodeAll(later);
  }

  /** But none need come back otherwise: a log cut off one byte into any command hides
      whatever is appended to it. */
  lemma TornHidesLater(cmds: seq<Command>, k: nat, later: seq<Command>)
    requires forall c | c in cmds :: Loggable(c)
    requires k < |cmds| && later != []
    ensures var n := |EncodeAll(cmds[..k])| + 1;
            && n <= |EncodeAll(cmds)|
            && Drain(EncodeAll(cmds)[..n] + EncodeAll(later)) == Drained(cmds[..k], n - 1, true)
  {
    hide Drain;
    var whole, rest := EncodeAll(cmds[..k]), EncodeAll(cmds[k..]);
    EncodeAllAppend(cmds[..k], cmds[k..]);
    assert cmds[..k] + cmds[k..] == cmds;
    StartsWithStar(cmds[k..]);
    StartsWithStar(later);
    assert EncodeAll(cmds)[..|whole| + 1] == whole + [STAR];
    ConcatAssociative(whole, [STAR], EncodeAll(later));
    DrainWhole(cmds[..k], [STAR] + EncodeAll(later));
    TwoStarsFail(EncodeAll(later));
  }

  lemma StartsWithStar(cmds: seq<Command>)
    requires cmds != []
    ensures EncodeAll(cmds) != [] && EncodeAll(cmds)[0] == STAR
  {
  }

  lemma TwoStarsFail(rest: bytes)
    requires rest != [] && rest[0] == STAR
    ensures Drain([STAR] + rest) == Drained([], 0, true)
  {
    assert ParseHeader(rest).Failure?;
    hide ParseHeader;
    assert ([STAR] + rest)[1..] == rest;
  }

  /** A complete log replays to exactly its commands. */
  lemma LogRoundTrip(cmds: seq<Command>)
    requires forall c | c in cmds :: Loggable(c)
    ensures Drain(EncodeAll(cmds)) == Drained(cmds, |EncodeAll(cmds)|, false)
  {
    var log := EncodeAll(cmds);
    var k := Whole(cmds, |log|);
    assert k == |cmds| && cmds[..k] == cmds by {
      assert cmds[..|cmds|] == cmds;
      WholeIsLargest(cmds, |log|, |cmds|);
    }
    TornLogRecovery(cmds, |log|);
    assert log[..|log|] == log;
  }

  /** Different command lists have different logs. */
  lemma EncodeAllInjective(a: seq<Command>, b: seq<Command>)
    requires forall c | c in a :: Loggable(c)
    requires forall c | c in b :: Loggable(c)
    requires EncodeAll(a) == EncodeAll(b)
    ensures a == b
  {
    LogRoundTrip(a);
    LogRoundTrip(b);
  }
}
