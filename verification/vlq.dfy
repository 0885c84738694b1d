/**
 The signed variable-length offset codec (write_vlq, read_vlq, oor_vlq) and
 the byte swap reverse_vlq.

 write_vlq packs an offset into a 64-bit word: the low six bits of the
 magnitude go in first, together with 0x40 when the offset is negative; each
 further six-bit digit is shifted in at the bottom with 0x80 set. Seen as
 bytes in memory order (little-endian), the word therefore starts with the
 most significant digit and ends with the least significant one.
 read_vlq starts on the most significant digit and steps to LOWER addresses,
 so an encoding is laid out in a buffer from its top index downward.
 */
module Vlq {
  import opened Machine

  // ---------------------------------------------------------------------
  // The 64-bit word and its byte view
  // ---------------------------------------------------------------------

  /** Byte `i` of the word in memory order (the `vlq_c[i]` view of the
      little-endian word). */
  function WordByte(w: bv64, i: nat): bv8
    requires i < 8
  {
    if i == 0 then (w & 0xff) as bv8
    else if i == 1 then ((w >> 8) & 0xff) as bv8
    else if i == 2 then ((w >> 16) & 0xff) as bv8
    else if i == 3 then ((w >> 24) & 0xff) as bv8
    else if i == 4 then ((w >> 32) & 0xff) as bv8
    else if i == 5 then ((w >> 40) & 0xff) as bv8
    else if i == 6 then ((w >> 48) & 0xff) as bv8
    else ((w >> 56) & 0xff) as bv8
  }

  /** The eight bytes of the word in memory order. */
  function ByteView(w: bv64): (bs: seq<byte>)
    ensures |bs| == 8
    ensures forall i | 0 <= i < 8 :: bs[i] == WordByte(w, i) as int
  {
    seq(8, i requires 0 <= i < 8 => WordByte(w, i) as int)
  }

  function Zeros(k: nat): (z: seq<byte>)
    ensures |z| == k
    ensures forall i | 0 <= i < k :: z[i] == 0
  {
    seq(k, i => 0)
  }

  lemma ReverseBytes(w: bv64, i: nat)
    requires i < 8
    ensures WordByte(ReverseVlqWord(w), i) == WordByte(w, 7 - i)
  {
    if i == 0 {} else if i == 1 {} else if i == 2 {} else if i == 3 {}
    else if i == 4 {} else if i == 5 {} else if i == 6 {} else {}
  }

  function ReverseVlqWord(vlq: bv64): bv64
  {
    ((vlq << 56) & 0xff00000000000000) |
    ((vlq << 40) & 0x00ff000000000000) |
    ((vlq << 24) & 0x0000ff0000000000) |
    ((vlq <<  8) & 0x000000ff00000000) |
    ((vlq >>  8) & 0x00000000ff000000) |
    ((vlq >> 24) & 0x0000000000ff0000) |
    ((vlq >> 40) & 0x000000000000ff00) |
    ((vlq >> 56) & 0x00000000000000ff)
  }

  /** reverse_vlq: a 64-bit byte swap. The masks discard whatever an
      arithmetic right shift of a negative int64_t brings in, so the right
      shifts are modelled as logical ones. The left shifts overflow int64_t
      (undefined in C) whenever a byte they move holds a high bit; they are
      modelled on the two's-complement bit pattern. */
  function ReverseVlq(vlq: bv64): (r: bv64)
    ensures forall i | 0 <= i < 8 :: WordByte(r, i) == WordByte(vlq, 7 - i)
  {
    forall i | 0 <= i < 8 ensures WordByte(ReverseVlqWord(vlq), i) == WordByte(vlq, 7 - i) {
      ReverseBytes(vlq, i);
    }
    ReverseVlqWord(vlq)
  }

  /** Swapping the word reverses its byte view. */
  lemma ReverseVlqView(w: bv64)
    ensures ByteView(ReverseVlq(w)) == Reverse(ByteView(w))
  {
  }

  lemma ReverseVlqInvolution(w: bv64)
    ensures ReverseVlq(ReverseVlq(w)) == w
  {
  }

  function Reverse(s: seq<byte>): (r: seq<byte>)
    ensures |r| == |s|
    ensures forall i | 0 <= i < |s| :: r[i] == s[|s| - 1 - i]
  {
    seq(|s|, i requires 0 <= i < |s| => s[|s| - 1 - i])
  }

  /** Shifting the word left by one byte and or-ing a byte into the bottom
      prepends that byte to the memory-order view and drops the top byte. */
  lemma ShiftInByte(w: bv64, b: bv8)
    ensures ByteView((w << 8) | (b as bv64)) == [b as int] + ByteView(w)[..7]
  {
    var shifted := (w << 8) | (b as bv64);
    forall i | 0 <= i < 8
      ensures WordByte(shifted, i) == if i == 0 then b else WordByte(w, i - 1)
    {
      ShiftedByte(w, b, i);
    }
  }

  lemma ShiftedByte(w: bv64, b: bv8, i: nat)
    requires i < 8
    ensures WordByte((w << 8) | (b as bv64), i) == if i == 0 then b else WordByte(w, i - 1)
  {
    if i == 0 {} else if i == 1 {} else if i == 2 {} else if i == 3 {}
    else if i == 4 {} else if i == 5 {} else if i == 6 {} else {}
  }

  lemma SingleByteWord(b: bv8)
    ensures ByteView(b as bv64) == [b as int] + Zeros(7)
  {
    var widened := b as bv64;
    forall i | 0 <= i < 8 ensures WordByte(widened, i) == if i == 0 then b else 0 {
      WidenedByte(b, i);
    }
  }

  lemma WidenedByte(b: bv8, i: nat)
    requires i < 8
    ensures WordByte(b as bv64, i) == if i == 0 then b else 0
  {
    if i == 0 {} else if i == 1 {} else if i == 2 {} else if i == 3 {}
    else if i == 4 {} else if i == 5 {} else if i == 6 {} else {}
  }

  // ---------------------------------------------------------------------
  // Byte fields
  // ---------------------------------------------------------------------

  /** `b & 0x80`: another digit follows. */
  predicate Continues(b: byte) { b >= 0x80 }

  /** `b & 0x40`: sign bit of the least significant digit. */
  predicate Negative(b: byte) { (b / 0x40) % 2 == 1 }

  /** `b & 0x3f`: the six-bit digit. */
  function Digit(b: byte): nat { b % 0x40 }

  // ---------------------------------------------------------------------
  // Reference layout of an encoding
  // ---------------------------------------------------------------------

  /** Offsets write_vlq accepts: int32 values other than INT32_MIN, whose
      negation overflows (and then never reaches zero under >>= 6). */
  predicate ValidOffset(offset: int) { INT32_MIN < offset <= INT32_MAX }

  function Magnitude(offset: int): nat { if offset < 0 then -offset else offset }

  function Pow64(k: nat): (r: nat)
    ensures r >= 1
  {
    if k == 0 then 1 else 64 * Pow64(k - 1)
  }

  /** Number of base-64 digits of `m` (one for zero): the least `n` with
      `m < 64^n`. */
  function DigitCount(m: nat): (n: nat)
    ensures 1 <= n
  {
    if m < 64 then 1 else 1 + DigitCount(m / 64)
  }

  lemma {:induction false} DigitCountIsLeast(m: nat)
    ensures m < Pow64(DigitCount(m))
    ensures DigitCount(m) == 1 || Pow64(DigitCount(m) - 1) <= m
  {
    if m >= 64 {
      DigitCountIsLeast(m / 64);
    }
  }

  lemma {:induction false} DigitCountAtMost(m: nat, k: nat)
    requires 1 <= k && m < Pow64(k)
    ensures DigitCount(m) <= k
  {
    if m >= 64 {
      DigitCountAtMost(m / 64, k - 1);
    }
  }

  /** The digits of `q`, most significant first, every byte flagged 0x80. */
  function Leading(q: nat): (e: seq<byte>)
    ensures |e| == DigitCount(q)
    ensures forall i | 0 <= i < |e| :: Continues(e[i])
  {
    (if q < 64 then [] else Leading(q / 64)) + [q % 64 + 0x80]
  }

  /** The bytes of an encoding in memory order of the word: most significant
      digit first, each but the last flagged 0x80, the last carrying 0x40 when
      the offset is negative. */
  function Encoding(offset: int): (e: seq<byte>)
    requires ValidOffset(offset)
    ensures |e| == DigitCount(Magnitude(offset))
    ensures 1 <= |e| <= 6
    ensures !Continues(e[|e| - 1])
    ensures Negative(e[|e| - 1]) <==> offset < 0
    ensures forall i | 0 <= i < |e| - 1 :: Continues(e[i])
  {
    var m := Magnitude(offset);
    DigitCountAtMost(m, 6);
    (if m < 64 then [] else Leading(m / 64)) + [m % 64 + (if offset < 0 then 0x40 else 0)]
  }

  // ---------------------------------------------------------------------
  // write_vlq
  // ---------------------------------------------------------------------

  /** The word written through `*vlq` and the returned length. */
  datatype Encoded = Encoded(word: bv64, len: nat)

  /** The `for (n = 1; offset >>= 6; n++)` loop: while digits remain, shift
      the word up one byte and put the next digit, flagged 0x80, at the
      bottom. */
  function PushDigits(rest: nat, word: bv64, n: nat): Encoded
    decreases rest
  {
    if rest == 0 then Encoded(word, n)
    else PushDigits(rest / 64, ShiftIn(word, rest % 64 + 0x80), n + 1)
  }

  /** `(word << 8) | d`: one byte shifted in at the bottom. */
  function ShiftIn(word: bv64, d: byte): bv64
  {
    (word << 8) | (AsBv8(d) as bv64)
  }

  /** Shifting a byte in prepends it to the memory-order view and drops the
      top byte. */
  lemma ShiftInView(word: bv64, d: byte)
    ensures ByteView(ShiftIn(word, d)) == [d] + ByteView(word)[..7]
  {
    AsBv8Value(d);
    ShiftInByte(word, AsBv8(d));
  }

  /** The byte as a bit-vector, counted up from zero: the direct conversion
      `d as bv8` is correct too, but its round trip back to int is costly
      for the solver. */
  function AsBv8(d: byte): bv8
    decreases d
  {
    if d == 0 then 0 else AsBv8(d - 1) + 1
  }

  lemma {:induction false} AsBv8Value(d: byte)
    ensures AsBv8(d) as int == d
    decreases d
  {
    if d > 0 {
      AsBv8Value(d - 1);
    }
  }

  /** The counted-up conversion is the direct one. */
  lemma AsBv8Cast(d: byte)
    ensures AsBv8(d) == d as bv8
  {
    AsBv8Value(d);
  }

  /** The effect of the digit loop on the byte view of the word: each digit
      is prepended and the top byte falls off. */
  function PushedView(rest: nat, view: seq<byte>): (r: seq<byte>)
    requires |view| == 8
    ensures |r| == 8
    decreases rest
  {
    if rest == 0 then view else PushedView(rest / 64, [rest % 64 + 0x80] + view[..7])
  }

  lemma {:induction false} PushDigitsLength(rest: nat, word: bv64, n: nat)
    ensures PushDigits(rest, word, n).len == n + (if rest == 0 then 0 else DigitCount(rest))
    decreases rest
  {
    if rest > 0 {
      PushDigitsLength(rest / 64, ShiftIn(word, rest % 64 + 0x80), n + 1);
    }
  }

  lemma {:induction false} PushDigitsView(rest: nat, word: bv64, n: nat)
    ensures ByteView(PushDigits(rest, word, n).word) == PushedView(rest, ByteView(word))
    decreases rest
  {
    if rest > 0 {
      ShiftInView(word, rest % 64 + 0x80);
      PushDigitsView(rest / 64, ShiftIn(word, rest % 64 + 0x80), n + 1);
    }
  }

  /** Pushing the digits of `rest` onto a view holding `prefix` and zeros
      puts `Leading(rest)` in front of `prefix`. */
  lemma {:induction false} PushedViewLayout(rest: nat, prefix: seq<byte>)
    requires 1 <= |prefix| <= 8
    requires rest > 0 ==> |prefix| + DigitCount(rest) <= 8
    ensures rest > 0 ==> PushedView(rest, prefix + Zeros(8 - |prefix|)) == Leading(rest) + prefix + Zeros(8 - DigitCount(rest) - |prefix|)
    decreases rest
  {
    if rest > 0 {
      var d: byte := rest % 64 + 0x80;
      var view := prefix + Zeros(8 - |prefix|);
      var prefix' := [d] + prefix;
      assert [d] + view[..7] == prefix' + Zeros(8 - |prefix'|);
      PushedViewLayout(rest / 64, prefix');
      if rest / 64 > 0 {
        assert Leading(rest) == Leading(rest / 64) + [d];
        assert Leading(rest / 64) + prefix' == Leading(rest) + prefix;
      } else {
        assert Leading(rest) == [d];
      }
    }
  }

  /** write_vlq: encodes a non-INT32_MIN offset. The returned length is the
      number of base-64 digits of |offset|, at most six. */
  function WriteVlq(offset: int): (e: Encoded)
    requires ValidOffset(offset)
    ensures 1 <= e.len <= 6
    ensures e.len == DigitCount(Magnitude(offset))
  {
    // offset = ~offset + 1 when negative; the first byte is the low digit
    // or-ed with 0x40 for a negative offset
    var m := Magnitude(offset);
    var first := AsBv8(LowByte(offset));
    PushDigitsLength(m / 64, first as bv64, 1);
    EncodingLayout(offset);
    PushDigits(m / 64, first as bv64, 1)
  }

  /** The word write_vlq produces holds, in memory order, exactly
      `Encoding(offset)` followed by zeros. */
  lemma WriteVlqLayout(offset: int)
    requires ValidOffset(offset)
    ensures ByteView(WriteVlq(offset).word) == Encoding(offset) + Zeros(8 - |Encoding(offset)|)
  {
    var m := Magnitude(offset);
    var first := AsBv8(LowByte(offset));
    AsBv8Value(LowByte(offset));
    SingleByteWord(first);
    PushDigitsView(m / 64, first as bv64, 1);
    EncodingLayout(offset);
  }

  /** The byte write_vlq starts from: the low digit, with 0x40 when negative. */
  function LowByte(offset: int): byte
  {
    Magnitude(offset) % 64 + (if offset < 0 then 0x40 else 0)
  }

  /** The remaining digits pushed in front of the low byte give the reference
      layout. */
  lemma EncodingLayout(offset: int)
    requires ValidOffset(offset)
    ensures var m := Magnitude(offset);
      && 1 + (if m / 64 == 0 then 0 else DigitCount(m / 64)) == DigitCount(m)
      && PushedView(m / 64, [LowByte(offset)] + Zeros(7)) == Encoding(offset) + Zeros(8 - |Encoding(offset)|)
  {
    var m := Magnitude(offset);
    DigitCountAtMost(m, 6);
    PushedViewLayout(m / 64, [LowByte(offset)]);
  }

  // ---------------------------------------------------------------------
  // read_vlq
  // ---------------------------------------------------------------------

  /** The decoded offset and the number of bytes consumed. */
  datatype Decoded = Decoded(offset: int, len: nat)

  /** The digit loop of read_vlq: accumulate the digit of `blob[p]`, then
      step to `p - 1` while the byte just read has 0x80 set. The first byte is
      read with an accumulator of zero, which is the source's unshifted first
      digit. None stands for undefined behaviour: the int32 shift `x << 6`
      overflowing, or a continuation byte at index 0 sending the read below
      the buffer. */
  function ReadDigits(blob: seq<byte>, p: int, x: nat, n: nat): Option<Decoded>
    requires 0 <= p < |blob|
    decreases p
  {
    if x * 64 > INT32_MAX then None
    else
      var x' := x * 64 + Digit(blob[p]);
      if !Continues(blob[p]) then
        // the sign comes from the last byte read: *(vlq + 1) & 0x40
        Some(Decoded(if Negative(blob[p]) then -x' else x', n + 1))
      else if p == 0 then None
      else ReadDigits(blob, p - 1, x', n + 1)
  }

  /** read_vlq, started on `blob[p]`. */
  function ReadVlq(blob: seq<byte>, p: int): (r: Option<Decoded>)
    requires 0 <= p < |blob|
    ensures r.Some? ==> 1 <= r.value.len <= p + 1
    ensures r.Some? ==> INT32_MIN < r.value.offset <= INT32_MAX
  {
    ReadDigitsBounds(blob, p, 0, 0);
    ReadDigits(blob, p, 0, 0)
  }

  lemma {:induction false} ReadDigitsBounds(blob: seq<byte>, p: int, x: nat, n: nat)
    requires 0 <= p < |blob|
    ensures var r := ReadDigits(blob, p, x, n);
      r.Some? ==> n + 1 <= r.value.len <= n + p + 1 && INT32_MIN < r.value.offset <= INT32_MAX
    decreases p
  {
    if x * 64 <= INT32_MAX && Continues(blob[p]) && p > 0 {
      ReadDigitsBounds(blob, p - 1, x * 64 + Digit(blob[p]), n + 1);
    }
  }

  /** Reading the 0x80-flagged digits of `q`, laid out from `p` downward,
      leaves the accumulator at `q` and the cursor on the next byte. */
  lemma {:induction false} ReadLeading(blob: seq<byte>, p: int, q: nat, n: nat)
    requires q <= INT32_MAX
    requires DigitCount(q) <= p < |blob|
    requires forall i | 0 <= i < DigitCount(q) :: blob[p - i] == Leading(q)[i]
    ensures ReadDigits(blob, p, 0, n) == ReadDigits(blob, p - DigitCount(q), q, n + DigitCount(q))
    decreases q
  {
    if q < 64 {
      assert Leading(q) == [q + 0x80];
      assert blob[p - 0] == Leading(q)[0];
    } else {
      var k := DigitCount(q / 64);
      forall i | 0 <= i < k ensures blob[p - i] == Leading(q / 64)[i] {
        assert Leading(q)[i] == Leading(q / 64)[i];
      }
      ReadLeading(blob, p, q / 64, n);
      assert blob[p - k] == Leading(q)[k] == q % 64 + 0x80;
      ReadFlagged(blob, p - k, q / 64, n + k, q);
    }
  }

  /** One step of the read over a 0x80-flagged digit that completes `q`. */
  lemma ReadFlagged(blob: seq<byte>, p: int, x: nat, n: nat, q: nat)
    requires 0 < p < |blob| && q <= INT32_MAX && x == q / 64
    requires blob[p] == q % 64 + 0x80
    ensures ReadDigits(blob, p, x, n) == ReadDigits(blob, p - 1, q, n + 1)
  {
    assert Digit(blob[p]) == q % 64;
  }

  /** Round trip: read_vlq started on the top byte of `Encoding(offset)`,
      laid out downward, returns the offset and the encoding's length. */
  lemma ReadWriteVlq(blob: seq<byte>, p: int, offset: int)
    requires ValidOffset(offset)
    requires |Encoding(offset)| - 1 <= p < |blob|
    requires forall i | 0 <= i < |Encoding(offset)| :: blob[p - i] == Encoding(offset)[i]
    ensures ReadVlq(blob, p) == Some(Decoded(offset, |Encoding(offset)|))
  {
    var m := Magnitude(offset);
    var e := Encoding(offset);
    if m >= 64 {
      var k := DigitCount(m / 64);
      forall i | 0 <= i < k ensures blob[p - i] == Leading(m / 64)[i] {
        assert e[i] == Leading(m / 64)[i];
      }
      ReadLeading(blob, p, m / 64, 0);
      assert blob[p - k] == e[k];
    } else {
      assert blob[p] == e[0];
    }
  }

  // ---------------------------------------------------------------------
  // oor_vlq
  // ---------------------------------------------------------------------

  /** oor_vlq: nonzero when the delta `offset - vlqSum` would not be a valid
      offset. The subtraction wraps as int32 arithmetic does; the test is
      phrased on the wrapped value. */
  function OorVlq(offset: i32, vlqSum: i32): (r: int)
    ensures r == 0 || r == 1
    ensures r == 0 <==> INT32_MIN < offset - vlqSum <= INT32_MAX
  {
    var sub := Wrap32(offset - vlqSum);
    if vlqSum >= 0 then
      (if sub <= offset && sub != INT32_MIN then 0 else 1)
    else
      (if sub >= offset then 0 else 1)
  }
}
