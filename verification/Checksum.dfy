/**
  The snapshot checksum: a multiplicative hash modulo 2^64 with multiplier 2^60 + 1.
 */
module Checksum {
  import opened Bytes

  const TWO_60: int := 0x1000_0000_0000_0000
  const MULTIPLIER: int := 0x1000_0000_0000_0001

  function Crc64(data: bytes): (crc: u64) {
    if data == [] then 0
    else (Crc64(data[..|data| - 1]) * MULTIPLIER + data[|data| - 1]) % TWO_64
  }

  /** The accumulating loop, with Rust's wrapping multiplication and addition. */
  method Crc64Loop(data: bytes) returns (crc: u64)
    ensures crc == Crc64(data)
  {
    crc := 0;
    for k := 0 to |data|
      invariant crc == Crc64(data[..k])
    {
      assert data[..k + 1][..k] == data[..k];
      WrapOnce(crc * MULTIPLIER, data[k]);
      crc := (crc * MULTIPLIER % TWO_64 + data[k]) % TWO_64;
    }
    assert data[..|data|] == data;
  }

  lemma WrapOnce(x: nat, b: nat)
    ensures (x % TWO_64 + b) % TWO_64 == (x + b) % TWO_64
  {
  }

  // ----- what it computes -----

  function Sum(data: bytes): (s: nat)
    ensures s <= 255 * |data|
  {
    if data == [] then 0 else data[0] + Sum(data[1..])
  }

  /** Each byte times the number of bytes after it. */
  function Weight(data: bytes): (w: nat) {
    if data == [] then 0 else data[0] * (|data| - 1) + Weight(data[1..])
  }

  /** The closed form: byte `i` of `n` counts 1 + (n - 1 - i) * 2^60 times. */
  function Weighted(data: bytes): (w: nat) {
    if data == [] then 0 else data[0] * (1 + (|data| - 1) * TWO_60) + Weighted(data[1..])
  }

  lemma {:induction false} WeightedSplit(data: bytes)
    ensures Weighted(data) == Sum(data) + Weight(data) * TWO_60
  {
    if data != [] {
      WeightedSplit(data[1..]);
      var b, k := data[0], |data| - 1;
      assert b * (1 + k * TWO_60) == b + (b * k) * TWO_60;
    }
  }

  lemma {:induction false} SnocSums(data: bytes, b: byte)
    ensures Sum(data + [b]) == Sum(data) + b
    ensures Weight(data + [b]) == Weight(data) + Sum(data)
  {
    if data == [] {
      assert data + [b] == [b];
    } else {
      SnocSums(data[1..], b);
      assert (data + [b])[1..] == data[1..] + [b];
      assert data[0] * |data| == data[0] * (|data| - 1) + data[0];
    }
  }

  lemma Fold(s: nat, w: nat, b: nat)
    ensures ((s + w * TWO_60) % TWO_64 * MULTIPLIER + b) % TWO_64 == (s + b + (w + s) * TWO_60) % TWO_64
  {
    var x := s + w * TWO_60;
    var q := x / TWO_64;
    assert x % TWO_64 == x - q * TWO_64;
    var y := s + b + (w + s) * TWO_60;
    var k := w * 0x100_0000_0000_0000 - q * MULTIPLIER;
    assert x % TWO_64 * MULTIPLIER + b == y + k * TWO_64;
    Periodic(y, k);
  }

  lemma Periodic(y: int, k: int)
    ensures (y + k * TWO_64) % TWO_64 == y % TWO_64
  {
  }

  lemma CrcSnoc(data: bytes, b: byte)
    ensures Crc64(data + [b]) == (Crc64(data) * MULTIPLIER + b) % TWO_64
  {
    assert (data + [b])[..|data|] == data;
    WrapOnce(Crc64(data) * MULTIPLIER, b);
  }

  lemma {:induction false} CrcOfSums(data: bytes)
    ensures Crc64(data) == (Sum(data) + Weight(data) * TWO_60) % TWO_64
  {
    if data != [] {
      hide Crc64, Sum, Weight;
      var init, last := data[..|data| - 1], data[|data| - 1];
      CrcOfSums(init);
      assert data == init + [last];
      CrcSnoc(init, last);
      SnocSums(init, last);
      var s, w := Sum(init), Weight(init);
      Fold(s, w, last);
      assert Sum(data) == s + last && Weight(data) == w + s;
    }
  }

  /** The loop computes the weighted sum of the bytes modulo 2^64. */
  lemma CrcClosedForm(data: bytes)
    ensures Crc64(data) == Weighted(data) % TWO_64
  {
    CrcOfSums(data);
    WeightedSplit(data);
  }

  // ----- what it detects -----

  lemma LowBits(s: nat, w: nat)
    ensures (s + w * TWO_60) % TWO_64 % TWO_60 == s % TWO_60
  {
  }

  lemma {:induction false} SumUpdate(data: bytes, i: nat, b: byte)
    requires i < |data|
    ensures Sum(data[i := b]) == Sum(data) - data[i] + b
  {
    if i == 0 {
      assert data[i := b][1..] == data[1..];
    } else {
      SumUpdate(data[1..], i - 1, b);
      assert data[i := b][1..] == data[1..][i - 1 := b];
    }
  }

  /** Changing one byte always changes the checksum. */
  lemma OneByteDetected(data: bytes, i: nat, b: byte)
    requires i < |data| && b != data[i]
    ensures Crc64(data[i := b]) != Crc64(data)
  {
    hide Crc64, Sum, Weight;
    var data' := data[i := b];
    CrcOfSums(data);
    CrcOfSums(data');
    LowBits(Sum(data), Weight(data));
    LowBits(Sum(data'), Weight(data'));
    SumUpdate(data, i, b);
    NearResiduesDiffer(Sum(data), Sum(data'));
  }

  lemma NearResiduesDiffer(x: nat, y: nat)
    requires x != y && -256 < x - y < 256
    ensures x % TWO_60 != y % TWO_60
  {
  }

  lemma SplitUnique(s: nat, h: nat, s': nat, h': nat)
    requires s < TWO_60 && s' < TWO_60
    ensures s + h * TWO_60 == s' + h' * TWO_60 <==> s == s' && h == h'
  {
  }

  lemma HighBits(s: nat, w: nat)
    requires s < TWO_60
    ensures (s + w * TWO_60) % TWO_64 == s + (w % 16) * TWO_60
  {
    var q := w / 16;
    assert w == 16 * q + w % 16;
    var r := s + (w % 16) * TWO_60;
    assert s + w * TWO_60 == r + q * TWO_64;
    Periodic(r, q);
  }

  /** Exactly which payloads collide: those with the same byte sum and the same weight
      modulo 16. The bound on the length, 2^52 bytes, keeps the sum below 2^60. */
  lemma CollisionsExactly(a: bytes, b: bytes)
    requires |a| < 0x10_0000_0000_0000 && |b| < 0x10_0000_0000_0000
    ensures Crc64(a) == Crc64(b) <==> Sum(a) == Sum(b) && Weight(a) % 16 == Weight(b) % 16
  {
    hide Crc64, Sum, Weight;
    CrcOfSums(a);
    CrcOfSums(b);
    HighBits(Sum(a), Weight(a));
    HighBits(Sum(b), Weight(b));
    SplitUnique(Sum(a), Weight(a) % 16, Sum(b), Weight(b) % 16);
  }
}
