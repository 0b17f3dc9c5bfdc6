/**
 Go's `binary.Uvarint`, the unsigned LEB128-style varint decoder: seven value
 bits per byte, least significant group first, a byte below 0x80 ends the
 number. It returns the value and the count of bytes read; a count of 0 means
 the buffer ended inside the number, a negative count means the value would
 not fit in 64 bits.
 */
module Varint {
  import opened Bytes

  const MAX_VARINT_LEN64: nat := 10

  /** 2^(7 i), the weight of the i-th seven-bit group. */
  function Pow128(i: nat): (r: nat)
    ensures r > 0
  {
    if i == 0 then 1 else 128 * Pow128(i - 1)
  }

  lemma Pow128Nine()
    ensures Pow128(9) == 0x8000_0000_0000_0000
  {
  }

  lemma {:induction false} Pow128Monotone(i: nat, j: nat)
    requires i <= j
    ensures Pow128(i) <= Pow128(j)
    decreases j
  {
    if i < j {
      Pow128Monotone(i, j - 1);
    }
  }

  /** The number a run of varint bytes denotes, least significant group
      first: byte i contributes its low seven bits at weight 128^i. */
  function Leb(s: Bytes): nat
  {
    if |s| == 0 then 0 else s[0] % 128 + 128 * Leb(s[1..])
  }

  /** The regrouping behind `LebAppend`, kept apart from `Leb` so the
      solver sees only plain integers. */
  lemma RegroupNext(low: int, rest: int, g: int, w: int)
    ensures low + 128 * (rest + g * w) == (low + 128 * rest) + g * (128 * w)
  {
  }

  /** Appending a byte adds its low seven bits at the next weight. */
  lemma {:induction false} LebAppend(s: Bytes, b: byte)
    ensures Leb(s + [b]) == Leb(s) + (b % 128) * Pow128(|s|)
  {
    if |s| > 0 {
      assert (s + [b])[1..] == s[1..] + [b];
      LebAppend(s[1..], b);
      RegroupNext(s[0] % 128, Leb(s[1..]), b % 128, Pow128(|s| - 1));
    }
  }

  /** Every byte before position n carries the continuation bit. */
  predicate Continued(buf: Bytes, n: nat)
    requires n <= |buf|
  {
    forall i :: 0 <= i < n ==> buf[i] >= 0x80
  }

  /**
   `binary.Uvarint(buf)`. A positive count n means the number ended at byte
   n - 1 (the first byte below 0x80) and the value is the number those n bytes
   denote. A count of 0 means the buffer ended first. A negative count means
   overflow: an eleventh byte would be needed, or the tenth byte, which ends
   the number, holds more than the one bit left of 64.
   */
  function Uvarint(buf: Bytes): (r: (uint64, int))
    ensures r.1 > 0 ==>
      && r.1 <= |buf| && r.1 <= MAX_VARINT_LEN64
      && Continued(buf, r.1 - 1) && buf[r.1 - 1] < 0x80
      && r.0 == Leb(buf[..r.1])
    ensures r.1 == 0 <==> |buf| <= MAX_VARINT_LEN64 && Continued(buf, |buf|)
    ensures r.1 < 0 ==>
      || (r.1 == -11 && |buf| > MAX_VARINT_LEN64 && Continued(buf, MAX_VARINT_LEN64))
      || (r.1 == -10 && |buf| >= MAX_VARINT_LEN64 && Continued(buf, 9) && 1 < buf[9] < 0x80)
    ensures r.1 <= 0 ==> r.0 == 0
  {
    UvarintFrom(buf, 0, 0)
  }

  /** Adding a seven-bit group at weight i to a value below that weight
      stays below the next weight. */
  lemma GroupBelowNextWeight(x: nat, b: nat, i: nat)
    requires x < Pow128(i) && b < 128
    ensures x + b * Pow128(i) < Pow128(i + 1)
  {
    var w := Pow128(i);
    var rest: nat := 127 - b;
    assert rest * w >= 0;
    assert b * w + rest * w == 127 * w;
  }

  /** The low seven bits of a byte: the byte itself below 0x80, the byte
      less its continuation bit from 0x80 up. */
  lemma LowBits(b: byte)
    ensures b < 0x80 ==> b % 128 == b
    ensures b >= 0x80 ==> b % 128 == b - 0x80
  {
  }

  /** A byte below 0x80 at position i ends the number: its value is the
      number the first i + 1 bytes denote, and it fits in 64 bits unless it
      is the tenth byte and holds more than one bit. */
  lemma FinalStep(buf: Bytes, i: nat, x: nat)
    requires i < |buf| && i < MAX_VARINT_LEN64 && x < Pow128(i)
    requires x == Leb(buf[..i]) && buf[i] < 0x80
    requires i == MAX_VARINT_LEN64 - 1 ==> buf[i] <= 1
    ensures x + buf[i] * Pow128(i) == Leb(buf[..i + 1])
    ensures x + buf[i] * Pow128(i) < TWO_TO_THE_64
  {
    var b := buf[i];
    assert buf[..i + 1] == buf[..i] + [b];
    LebAppend(buf[..i], b);
    LowBits(b);
    Pow128Nine();
    if i < MAX_VARINT_LEN64 - 1 {
      GroupBelowNextWeight(x, b, i);
      Pow128Monotone(i + 1, 9);
    }
  }

  /** A byte of 0x80 or more at position i continues the number: the decoder
      state for position i + 1 keeps the loop's requirements. */
  lemma ContinueStep(buf: Bytes, i: nat, x: nat)
    requires i < |buf| && x < Pow128(i)
    requires Continued(buf, i) && x == Leb(buf[..i]) && buf[i] >= 0x80
    ensures Continued(buf, i + 1)
    ensures x + (buf[i] - 0x80) * Pow128(i) == Leb(buf[..i + 1])
    ensures x + (buf[i] - 0x80) * Pow128(i) < Pow128(i + 1)
  {
    var b := buf[i];
    var g := b - 0x80;
    assert buf[..i + 1] == buf[..i] + [b];
    LebAppend(buf[..i], b);
    LowBits(b);
    GroupBelowNextWeight(x, g, i);
  }

  /** The decoding loop at byte i, with x the number the continuation bytes
      before it denote. */
  function UvarintFrom(buf: Bytes, i: nat, x: nat): (r: (uint64, int))
    requires i <= |buf| && i <= MAX_VARINT_LEN64 && x < Pow128(i)
    requires Continued(buf, i) && x == Leb(buf[..i])
    ensures r.1 > 0 ==>
      && i < r.1 <= |buf| && r.1 <= MAX_VARINT_LEN64
      && Continued(buf, r.1 - 1) && buf[r.1 - 1] < 0x80
      && r.0 == Leb(buf[..r.1])
    ensures r.1 == 0 <==> |buf| <= MAX_VARINT_LEN64 && Continued(buf, |buf|)
    ensures r.1 < 0 ==>
      || (r.1 == -11 && |buf| > MAX_VARINT_LEN64 && Continued(buf, MAX_VARINT_LEN64))
      || (r.1 == -10 && |buf| >= MAX_VARINT_LEN64 && Continued(buf, 9) && 1 < buf[9] < 0x80)
    ensures r.1 <= 0 ==> r.0 == 0
    decreases |buf| - i
  {
    if i == |buf| then (0, 0)
    else if i == MAX_VARINT_LEN64 then (0, -(i + 1))
    else if buf[i] < 0x80 then
      if i == MAX_VARINT_LEN64 - 1 && buf[i] > 1 then (0, -(i + 1))
      else
        FinalStep(buf, i, x);
        (x + buf[i] * Pow128(i), i + 1)
    else
      ContinueStep(buf, i, x);
      UvarintFrom(buf, i + 1, x + (buf[i] - 0x80) * Pow128(i))
  }

  /** On a one-byte buffer the decoder returns the byte itself when it is below
      0x80; a byte of 0x80 or more is an unfinished varint and decodes to 0. */
  lemma UvarintOneByte(b: byte)
    ensures b < 0x80 ==> Uvarint([b]) == (b, 1)
    ensures 0x80 <= b ==> Uvarint([b]) == (0, 0)
  {
    if 0x80 <= b {
      assert UvarintFrom([b], 1, b - 0x80) == (0, 0);
    }
  }
}
