/**
  Byte strings, 64-bit words and their text and fixed-width forms.

  Everything the server writes to a socket, a log or a snapshot is a sequence
  of bytes; Rust's `Vec<u8>` is modelled by `bytes`.
 */
module Bytes {

  type byte = b: int | 0 <= b < 256
  type bytes = seq<byte>

  const TWO_32: int := 0x1_0000_0000
  const TWO_63: int := 0x8000_0000_0000_0000
  const TWO_64: int := 0x1_0000_0000_0000_0000

  type u64 = x: int | 0 <= x < 0x1_0000_0000_0000_0000
  type i64 = x: int | -0x8000_0000_0000_0000 <= x < 0x8000_0000_0000_0000

  const CR: byte := 13
  const LF: byte := 10
  const CRLF: bytes := [13, 10]
  const PLUS: byte := 43
  const MINUS: byte := 45
  const STAR: byte := 42
  const QUESTION: byte := 63

  datatype Option<+T> = None | Some(value: T)

  function Least(a: nat, b: nat): (n: nat) {
    if a < b then a else b
  }

  /** `max(1)`. */
  function AtLeastOne(count: nat): (n: nat) {
    if count == 0 then 1 else count
  }

  /** The encodings of `xs`, one after another. */
  function ConcatMap<T>(xs: seq<T>, encode: T -> bytes): (s: bytes) {
    if xs == [] then [] else encode(xs[0]) + ConcatMap(xs[1..], encode)
  }

  lemma {:induction false} ConcatMapAppend<T>(a: seq<T>, b: seq<T>, encode: T -> bytes)
    ensures ConcatMap(a + b, encode) == ConcatMap(a, encode) + ConcatMap(b, encode)
  {
    if a == [] {
      assert a + b == b;
    } else {
      ConcatMapAppend(a[1..], b, encode);
      assert (a + b)[1..] == a[1..] + b;
      ConcatAssociative(encode(a[0]), ConcatMap(a[1..], encode), ConcatMap(b, encode));
    }
  }

  lemma ConcatAssociative(a: bytes, b: bytes, c: bytes)
    ensures a + b + c == a + (b + c)
  {
  }

  // ----- decimal text -----

  predicate IsDigit(b: byte) {
    48 <= b <= 57
  }

  /** The text `n.to_string()` of a non-negative integer. */
  function Digits(n: nat): (text: bytes)
    ensures text != []
    ensures forall b | b in text :: IsDigit(b)
  {
    if n < 10 then [48 + n] else Digits(n / 10) + [48 + n % 10]
  }

  /** The text `i.to_string()` of a signed integer. */
  function Decimal(i: int): (text: bytes)
    ensures text != []
  {
    if i < 0 then [MINUS] + Digits(-i) else Digits(i)
  }

  /** Rust's `text.parse::<u64>()`: an optional `+`, then at least one digit and
      nothing else, refusing a value of 2^64 or more. */
  function ParseU64(text: bytes): (n: Option<u64>)
  {
    var digits := if text != [] && text[0] == PLUS then text[1..] else text;
    if digits == [] then None else AccumulateU64(digits, 0)
  }

  function AccumulateU64(digits: bytes, acc: u64): (n: Option<u64>)
  {
    if digits == [] then Some(acc)
    else if !IsDigit(digits[0]) then None
    else
      var next := acc * 10 + (digits[0] - 48);
      if next >= TWO_64 then None else AccumulateU64(digits[1..], next)
  }

  /** Accumulating the text of `n` before `tail` reaches `n` at `tail`. */
  lemma {:induction false} AccumulateDigits(n: u64, tail: bytes)
    ensures AccumulateU64(Digits(n) + tail, 0) == AccumulateU64(tail, n)
  {
    if n < 10 {
      assert (Digits(n) + tail)[1..] == tail;
    } else {
      var last := [48 + n % 10] + tail;
      assert Digits(n) + tail == Digits(n / 10) + last;
      AccumulateDigits(n / 10, last);
      assert last[1..] == tail;
    }
  }

  /** Printing and parsing an unsigned word is the identity. */
  lemma {:induction false} U64TextRoundTrip(n: u64)
    ensures ParseU64(Digits(n)) == Some(n)
  {
    AccumulateDigits(n, []);
    assert Digits(n) + [] == Digits(n);
    assert IsDigit(Digits(n)[0]);
  }

  /** What such text must look like: digits, after at most one `+`. */
  lemma U64TextForm(text: bytes)
    requires ParseU64(text).Some?
    ensures var digits := if text[0] == 43 then text[1..] else text;
            text != [] && digits != [] && forall b | b in digits :: 48 <= b <= 57
    ensures ParseU64([43] + text) == if text[0] == 43 then None else ParseU64(text)
  {
    var digits := if text != [] && text[0] == PLUS then text[1..] else text;
    AccumulatesDigits(digits, 0);
    assert ([43] + text)[1..] == text;
  }

  lemma {:induction false} AccumulatesDigits(digits: bytes, acc: u64)
    requires AccumulateU64(digits, acc).Some?
    ensures forall b | b in digits :: IsDigit(b)
  {
    if digits != [] {
      AccumulatesDigits(digits[1..], acc * 10 + (digits[0] - 48));
      assert digits == [digits[0]] + digits[1..];
    }
  }

  // ----- fixed-width integers -----

  /** `width` bytes of `n`, least significant first (`to_le_bytes`). */
  function LittleEndian(n: nat, width: nat): (s: bytes)
    ensures |s| == width
  {
    if width == 0 then [] else [n % 256] + LittleEndian(n / 256, width - 1)
  }

  function FromLittleEndian(s: bytes): (n: nat)
  {
    if s == [] then 0 else s[0] + 256 * FromLittleEndian(s[1..])
  }

  /** `width` bytes of `n`, most significant first (`to_be_bytes`). */
  function BigEndian(n: nat, width: nat): (s: bytes)
    ensures |s| == width
  {
    if width == 0 then [] else BigEndian(n / 256, width - 1) + [n % 256]
  }

  function FromBigEndian(s: bytes): (n: nat)
  {
    if s == [] then 0 else 256 * FromBigEndian(s[..|s| - 1]) + s[|s| - 1]
  }

  function Pow256(k: nat): (p: nat)
    ensures p > 0
  {
    if k == 0 then 1 else 256 * Pow256(k - 1)
  }

  lemma {:induction false} LittleEndianRoundTrip(n: nat, width: nat)
    requires n < Pow256(width)
    ensures FromLittleEndian(LittleEndian(n, width)) == n
  {
    if width > 0 {
      LittleEndianRoundTrip(n / 256, width - 1);
    }
  }

  lemma {:induction false} BigEndianRoundTrip(n: nat, width: nat)
    requires n < Pow256(width)
    ensures FromBigEndian(BigEndian(n, width)) == n
  {
    if width > 0 {
      BigEndianRoundTrip(n / 256, width - 1);
      var s := BigEndian(n, width);
      assert s[..width - 1] == BigEndian(n / 256, width - 1);
    }
  }

  lemma {:induction false} FromLittleEndianBound(s: bytes)
    ensures FromLittleEndian(s) < Pow256(|s|)
  {
    if s != [] {
      FromLittleEndianBound(s[1..]);
    }
  }

  lemma WordWidths()
    ensures Pow256(4) == TWO_32
    ensures Pow256(8) == TWO_64
  {
    assert Pow256(2) == 65536;
    assert Pow256(4) == 65536 * 65536;
    assert Pow256(6) == 65536 * 65536 * 65536;
  }
}
