/**
  The bits of Advanced Video Coding data (ITU-T H.264): numbers as bits,
  the payload of a memory area without its emulation prevention bytes
  (section 7.3.1), and Exp-Golomb codes (section 9.1).
 */
module AvcBits {
  import opened Arithmetic
  import opened Octets

  type Bit = x: int | 0 <= x < 2

  function Pow2(n: nat): (p: nat)
    ensures p > 0
  {
    if n == 0 then 1 else 2 * Pow2(n - 1)
  }

  // The number that some bits represent, most significant bit first.
  function Value(bits: seq<Bit>): nat {
    if bits == [] then 0 else 2 * Value(bits[..|bits| - 1]) + bits[|bits| - 1]
  }

  // The last n bits of a number.
  function Binary(v: nat, n: nat): (bits: seq<Bit>)
    ensures |bits| == n
  {
    if n == 0 then [] else Binary(v / 2, n - 1) + [v % 2]
  }

  lemma {:induction false} ValueBound(bits: seq<Bit>)
    ensures Value(bits) < Pow2(|bits|)
  {
    if bits != [] {
      ValueBound(bits[..|bits| - 1]);
    }
  }

  lemma {:induction false} ValueOfBinary(v: nat, n: nat)
    requires v < Pow2(n)
    ensures Value(Binary(v, n)) == v
  {
    if n > 0 {
      ValueOfBinary(v / 2, n - 1);
      assert Binary(v, n)[..n - 1] == Binary(v / 2, n - 1);
    }
  }

  lemma {:induction false} ValueOfConcat(a: seq<Bit>, b: seq<Bit>)
    ensures Value(a + b) == Value(a) * Pow2(|b|) + Value(b)
  {
    if b == [] {
      assert a + b == a;
    } else {
      var n := |b| - 1;
      ValueOfConcat(a, b[..n]);
      ValueOfLast(a, b);
      TwiceProduct(Value(a), Pow2(n));
    }
  }

  lemma ValueOfLast(a: seq<Bit>, b: seq<Bit>)
    requires b != []
    ensures Value(a + b) == 2 * Value(a + b[..|b| - 1]) + b[|b| - 1]
  {
    assert (a + b)[..|a| + |b| - 1] == a + b[..|b| - 1];
  }

  // A bit of a number is found by shifting it to the right.
  lemma {:induction false} BitOfBinary(v: nat, n: nat, k: nat)
    requires k < n
    ensures Binary(v, n)[k] == v / Pow2(n - 1 - k) % 2
  {
    if k < n - 1 {
      BitOfBinary(v / 2, n - 1, k);
      DivideTwice(v, 2, Pow2(n - 2 - k));
    }
  }

  // ----- Emulation prevention -----

  // The byte 03 after 00 00 is not part of the payload.
  predicate Dropped(data: seq<Byte>, p: nat)
    requires p < |data|
  {
    p >= 2 && data[p] == 3 && data[p - 1] == 0 && data[p - 2] == 0
  }

  // The payload from a byte on.
  function PayloadFrom(data: seq<Byte>, p: nat): seq<Byte>
    requires p <= |data|
    decreases |data| - p
  {
    if p == |data| then []
    else (if Dropped(data, p) then [] else [data[p]]) + PayloadFrom(data, p + 1)
  }

  function DroppedFrom(data: seq<Byte>, p: nat): nat
    requires p <= |data|
    decreases |data| - p
  {
    if p == |data| then 0 else (if Dropped(data, p) then 1 else 0) + DroppedFrom(data, p + 1)
  }

  function Bits(bytes: seq<Byte>): (bits: seq<Bit>)
    ensures |bits| == 8 * |bytes|
  {
    if bytes == [] then [] else Binary(bytes[0], 8) + Bits(bytes[1..])
  }

  // The payload bits from a bit of a byte on. That byte itself is never skipped.
  function BitsFrom(data: seq<Byte>, byte: nat, bit: nat): seq<Bit>
    requires byte <= |data| && bit <= 8
  {
    if byte == |data| then [] else Binary(data[byte], 8)[bit..] + Bits(PayloadFrom(data, byte + 1))
  }

  // The raw bits, including those of the bytes that will be dropped.
  function RawBits(data: seq<Byte>, byte: nat, bit: nat): int {
    8 * (|data| - byte) - bit
  }

  lemma {:induction false} PayloadLength(data: seq<Byte>, p: nat)
    requires p <= |data|
    ensures |PayloadFrom(data, p)| + DroppedFrom(data, p) == |data| - p
    decreases |data| - p
  {
    if p < |data| {
      PayloadLength(data, p + 1);
    }
  }

  // Raw bits are payload bits and the bits of dropped bytes: the raw count is
  // exact if and only if no dropped byte is left.
  lemma RawAndPayload(data: seq<Byte>, byte: nat, bit: nat)
    requires byte < |data| && bit < 8
    ensures RawBits(data, byte, bit) == |BitsFrom(data, byte, bit)| + 8 * DroppedFrom(data, byte + 1)
  {
    PayloadLength(data, byte + 1);
  }

  predicate EnoughRaw(data: seq<Byte>, byte: nat, bit: nat, n: nat) {
    n <= RawBits(data, byte, bit)
  }

  // The raw guard is right about the payload for all numbers of bits exactly when
  // nothing after the current byte will be dropped.
  lemma ExactGuardIff(data: seq<Byte>, byte: nat, bit: nat)
    requires byte < |data| && bit < 8
    ensures (forall n: nat :: EnoughRaw(data, byte, bit, n) ==> n <= |BitsFrom(data, byte, bit)|)
       <==> (forall p :: byte < p < |data| ==> !Dropped(data, p))
  {
    RawAndPayload(data, byte, bit);
    NoDropped(data, byte + 1);
    hide BitsFrom, Dropped, DroppedFrom;
    assert EnoughRaw(data, byte, bit, RawBits(data, byte, bit));
  }

  lemma {:induction false} NoDropped(data: seq<Byte>, from: nat)
    requires from <= |data|
    ensures DroppedFrom(data, from) == 0 <==> forall p :: from <= p < |data| ==> !Dropped(data, p)
    decreases |data| - from
  {
    if from < |data| {
      NoDropped(data, from + 1);
    }
  }

  lemma {:induction false} DroppedBefore(data: seq<Byte>, p: nat, q: nat)
    requires p <= q <= |data|
    ensures DroppedFrom(data, q) <= DroppedFrom(data, p) <= DroppedFrom(data, q) + q - p
    decreases q - p
  {
    hide Dropped;
    if p < q {
      DroppedBefore(data, p + 1, q);
    }
  }

  // Without dropped bytes among the last four ones, the guard is right for up to 32 bits.
  lemma GuardUpTo32(data: seq<Byte>, byte: nat, bit: nat, n: nat)
    requires byte <= |data| && bit < 8 && (byte < |data| || bit == 0) && n <= 32
    requires forall p :: |data| - 4 <= p < |data| && 0 <= p ==> !Dropped(data, p)
    ensures n <= RawBits(data, byte, bit) <==> n <= |BitsFrom(data, byte, bit)|
  {
    if byte < |data| {
      RawAndPayload(data, byte, bit);
      var last := |data| - 4;
      if byte < last {
        NoDropped(data, last);
        PayloadLength(data, last);
        PayloadLength(data, byte + 1);
        DroppedBefore(data, byte + 1, last);
        hide Dropped, DroppedFrom, PayloadFrom;
      } else {
        NoDropped(data, byte + 1);
      }
    }
  }

  // The guard is not right for 24 bits of 00 00 03: only 16 bits are left.
  lemma GuardFailsOnFinalDroppedByte()
    ensures RawBits([0, 0, 3], 0, 0) == 24 && |BitsFrom([0, 0, 3], 0, 0)| == 16
  {
    var data: seq<Byte> := [0, 0, 3];
    assert Dropped(data, 2) && DroppedFrom(data, 3) == 0 && DroppedFrom(data, 2) == 1;
    RawAndPayload(data, 0, 0);
  }

  // The NAL unit syntax of section 7.3.1: bytes are read from left to right, and 03
  // is discarded after two zeros. The state is the number of zeros just before.
  function Unescape(zeros: nat, data: seq<Byte>): seq<Byte>
    requires zeros <= 2
    decreases |data|
  {
    if data == [] then []
    else if zeros == 2 && data[0] == 3 then Unescape(0, data[1..])
    else [data[0]] + Unescape(if data[0] == 0 then (if zeros == 2 then 2 else zeros + 1) else 0, data[1..])
  }

  // What an encoder does (section 7.4.1.1): insert 03 after two zeros when the next
  // byte is 00, 01, 02 or 03.
  function Escape(zeros: nat, payload: seq<Byte>): seq<Byte>
    requires zeros <= 2
    decreases |payload|
  {
    if payload == [] then []
    else
      var b := payload[0];
      if zeros == 2 && b <= 3 then [3, b] + Escape(if b == 0 then 1 else 0, payload[1..])
      else [b] + Escape(if b == 0 then zeros + 1 else 0, payload[1..])
  }

  lemma {:induction false} UnescapeEscape(zeros: nat, payload: seq<Byte>)
    requires zeros <= 2
    ensures Unescape(zeros, Escape(zeros, payload)) == payload
    decreases |payload|
  {
    if payload != [] {
      var b, e := payload[0], Escape(zeros, payload);
      if zeros == 2 && b <= 3 {
        var z := if b == 0 then 1 else 0;
        UnescapeEscape(z, payload[1..]);
        assert e[1..] == [b] + Escape(z, payload[1..]) && e[1..][1..] == Escape(z, payload[1..]);
        assert Unescape(0, e[1..]) == [b] + Unescape(z, e[1..][1..]);
      } else {
        var z := if b == 0 then zeros + 1 else 0;
        UnescapeEscape(z, payload[1..]);
        assert e[1..] == Escape(z, payload[1..]);
      }
    }
  }

  // The number of zeros just before a position, up to two.
  function ZerosBefore(data: seq<Byte>, p: nat): (z: nat)
    requires p <= |data|
    ensures z <= 2
  {
    if p == 0 || data[p - 1] != 0 then 0 else if p == 1 || data[p - 2] != 0 then 1 else 2
  }

  // Looking at two bytes back is the same as reading from left to right.
  lemma {:induction false} PayloadIsUnescaped(data: seq<Byte>, p: nat)
    requires p <= |data|
    ensures PayloadFrom(data, p) == Unescape(ZerosBefore(data, p), data[p..])
    decreases |data| - p
  {
    if p < |data| {
      PayloadIsUnescaped(data, p + 1);
      assert data[p..][1..] == data[p + 1..];
    }
  }
}
