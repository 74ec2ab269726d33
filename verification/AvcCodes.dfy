/**
  The codes that syntax elements of Advanced Video Coding data are made of
  (ITU-T H.264, sections 7.2, 9.1 and 9.1.1): how they are written and what
  reading some bits should give.
 */
module AvcCodes {
  import opened AvcBits

  // What reading gives: a value and the bits after it, not enough bits, or a code
  // that the integer type cannot hold.
  datatype Reading<T> = Read(value: T, rest: seq<Bit>) | Truncated | OutOfRange
  {
    predicate IsFailure() { !Read? }
    function PropagateFailure<U>(): Reading<U>
      requires IsFailure()
    {
      if Truncated? then Truncated else OutOfRange
    }
    function Extract(): (T, seq<Bit>)
      requires !IsFailure()
    {
      (value, rest)
    }
  }

  // ----- u(n): n bits -----

  function EncodeU(v: nat, n: nat): seq<Bit> {
    Binary(v, n)
  }

  function DecodeU(bits: seq<Bit>, n: nat): Reading<nat> {
    if |bits| < n then Truncated else Read(Value(bits[..n]), bits[n..])
  }

  lemma DecodeEncodeU(v: nat, n: nat, rest: seq<Bit>)
    requires v < Pow2(n)
    ensures DecodeU(EncodeU(v, n) + rest, n) == Read(v, rest)
  {
    ValueOfBinary(v, n);
    assert (EncodeU(v, n) + rest)[..n] == EncodeU(v, n);
  }

  lemma {:induction false} BinaryOfValue(bits: seq<Bit>)
    ensures Binary(Value(bits), |bits|) == bits
  {
    if bits != [] {
      BinaryOfValue(bits[..|bits| - 1]);
    }
  }

  lemma EncodeDecodeU(bits: seq<Bit>, n: nat)
    requires DecodeU(bits, n).Read?
    ensures DecodeU(bits, n).value < Pow2(n)
    ensures bits == EncodeU(DecodeU(bits, n).value, n) + DecodeU(bits, n).rest
  {
    ValueBound(bits[..n]);
    BinaryOfValue(bits[..n]);
  }

  // ----- ue(v): unsigned Exp-Golomb codes -----

  function Zeros(n: nat): (bits: seq<Bit>)
    ensures |bits| == n
  {
    if n == 0 then [] else [0] + Zeros(n - 1)
  }

  // The largest power of two in a number.
  function Log2(x: nat): (n: nat)
    requires x > 0
    ensures Pow2(n) <= x < Pow2(n + 1)
  {
    if x == 1 then 0 else 1 + Log2(x / 2)
  }

  function EncodeUe(v: nat): seq<Bit> {
    var z := Log2(v + 1);
    Zeros(z) + [1] + Binary(v + 1 - Pow2(z), z)
  }

  // The code of a number is the next number on twice as many bits less one: the first half
  // is made of zeros, and the first one is its most significant bit.
  lemma UeIsNextNumber(v: nat)
    ensures var z := Log2(v + 1); EncodeUe(v) == Binary(v + 1, 2 * z + 1) && Pow2(z) <= v + 1 < Pow2(z + 1)
  {
    hide Binary, Zeros, Value, Log2, Pow2;
    var z := Log2(v + 1);
    LogIsPower(v + 1);
    var low := Binary(v + 1 - Pow2(z), z);
    ValueOfBinary(v + 1 - Pow2(z), z);
    ValueOfConcat([1], low);
    ValueOfOne();
    ValueOfZeros(z, [1] + low);
    assert Zeros(z) + [1] + low == Zeros(z) + ([1] + low);
    BinaryOfValue(EncodeUe(v));
  }

  lemma ValueOfOne()
    ensures Value([1]) == 1
  {
    assert [1][..0] == [];
  }

  lemma {:induction false} ValueOfZeros(n: nat, bits: seq<Bit>)
    ensures Value(Zeros(n) + bits) == Value(bits)
  {
    if n == 0 {
      assert Zeros(0) + bits == bits;
    } else {
      ValueOfZeros(n - 1, bits);
      assert Zeros(n) + bits == [0] + (Zeros(n - 1) + bits);
      ValueOfConcat([0], Zeros(n - 1) + bits);
      assert Value([0]) == 0 by { assert [0][..0] == []; }
    }
  }

  function LeadingZeros(bits: seq<Bit>): (n: nat)
    ensures n <= |bits|
  {
    if bits == [] || bits[0] == 1 then 0 else 1 + LeadingZeros(bits[1..])
  }

  // Read an Exp-Golomb code into an integer type with some number of value bits.
  function DecodeUe(bits: seq<Bit>, width: nat): Reading<nat> {
    var z := LeadingZeros(bits);
    if z == |bits| then Truncated
    else if z >= width then OutOfRange
    else if |bits| < 2 * z + 1 then Truncated
    else Read(Pow2(z) - 1 + Value(bits[z + 1..2 * z + 1]), bits[2 * z + 1..])
  }

  lemma {:induction false} LeadingZerosOf(n: nat, rest: seq<Bit>)
    ensures LeadingZeros(Zeros(n) + [1] + rest) == n
  {
    if n > 0 {
      LeadingZerosOf(n - 1, rest);
      assert (Zeros(n) + [1] + rest)[1..] == Zeros(n - 1) + [1] + rest;
    }
  }

  lemma {:induction false} BeginsWithZeros(bits: seq<Bit>)
    ensures bits[..LeadingZeros(bits)] == Zeros(LeadingZeros(bits))
    ensures LeadingZeros(bits) < |bits| ==> bits[LeadingZeros(bits)] == 1
  {
    if bits != [] && bits[0] == 0 {
      BeginsWithZeros(bits[1..]);
      var z := LeadingZeros(bits[1..]);
      assert bits[..z + 1] == [bits[0]] + bits[1..][..z];
    }
  }

  lemma {:induction false} LogBound(x: nat, n: nat)
    requires 0 < x < Pow2(n)
    ensures Log2(x) < n
  {
    if x > 1 {
      LogBound(x / 2, n - 1);
    }
  }

  lemma {:induction false} LogUnique(x: nat, n: nat)
    requires Pow2(n) <= x < Pow2(n + 1)
    ensures Log2(x) == n
    decreases n
  {
    if n > 0 {
      LogUnique(x / 2, n - 1);
    }
  }

  lemma CodeParts(z: nat, low: seq<Bit>, rest: seq<Bit>)
    requires |low| == z
    ensures var bits := Zeros(z) + [1] + low + rest;
            LeadingZeros(bits) == z && bits[z + 1..2 * z + 1] == low && bits[2 * z + 1..] == rest
  {
    hide Zeros, LeadingZeros;
    assert Zeros(z) + [1] + low + rest == Zeros(z) + [1] + (low + rest);
    LeadingZerosOf(z, low + rest);
  }

  // Reading undoes writing, whatever comes next.
  lemma DecodeEncodeUe(v: nat, width: nat, rest: seq<Bit>)
    requires v + 1 < Pow2(width)
    ensures DecodeUe(EncodeUe(v) + rest, width) == Read(v, rest)
  {
    hide Binary, Value, Zeros, LeadingZeros, Log2, Pow2;
    var z := Log2(v + 1);
    LogBound(v + 1, width);
    LogIsPower(v + 1);
    CodeParts(z, Binary(v + 1 - Pow2(z), z), rest);
    ValueOfBinary(v + 1 - Pow2(z), z);
  }

  lemma LogIsPower(x: nat)
    requires x > 0
    ensures x - Pow2(Log2(x)) < Pow2(Log2(x)) <= x
  {
  }

  lemma {:induction false} ZeroAtEnd(n: nat)
    ensures Zeros(n) + [0] == Zeros(n + 1)
  {
    if n > 0 {
      ZeroAtEnd(n - 1);
      assert Zeros(n) + [0] == [0] + (Zeros(n - 1) + [0]);
    }
  }

  lemma {:induction false} OnlyZeros(n: nat, width: nat)
    ensures LeadingZeros(Zeros(n)) == n && DecodeUe(Zeros(n), width) == Truncated
  {
    if n > 0 {
      OnlyZeros(n - 1, width);
    }
  }

  // What reading gives, after the leading zeros and the first one.
  lemma AfterLeadingZeros(z: nat, rest: seq<Bit>, width: nat)
    ensures DecodeUe(Zeros(z) + [1] + rest, width)
         == if z >= width then OutOfRange
            else if |rest| < z then Truncated
            else Read(Pow2(z) - 1 + Value(rest[..z]), rest[z..])
  {
    hide Zeros, LeadingZeros, Value, Pow2;
    LeadingZerosOf(z, rest);
    if |rest| >= z {
      var low, after := rest[..z], rest[z..];
      assert rest == low + after;
      CodeParts(z, low, after);
      assert Zeros(z) + [1] + rest == Zeros(z) + [1] + low + after;
    }
  }

  // There is only one way to write what was read.
  lemma EncodeDecodeUe(bits: seq<Bit>, width: nat)
    requires DecodeUe(bits, width).Read?
    ensures var r := DecodeUe(bits, width); r.value + 1 < Pow2(width) && bits == EncodeUe(r.value) + r.rest
  {
    hide Binary, Value, Zeros, LeadingZeros, Pow2, Log2;
    var z := LeadingZeros(bits);
    var low := bits[z + 1..2 * z + 1];
    BeginsWithZeros(bits);
    ValueBound(low);
    BinaryOfValue(low);
    TwicePow2(z);
    LogUnique(Pow2(z) + Value(low), z);
    PowGrows(z + 1, width);
    assert bits == bits[..z] + [bits[z]] + low + bits[2 * z + 1..];
  }

  lemma TwicePow2(n: nat)
    ensures Pow2(n + 1) == 2 * Pow2(n)
  {
  }

  lemma {:induction false} PowGrows(m: nat, n: nat)
    requires m <= n
    ensures Pow2(m) <= Pow2(n)
  {
    if m < n {
      PowGrows(m, n - 1);
    }
  }

  // ----- se(v): signed Exp-Golomb codes -----

  // The division of C++, which truncates toward zero.
  function TruncatedDivision(a: int, b: nat): int
    requires b > 0
  {
    if a >= 0 then a / b else -(-a / b)
  }

  // The signed value of an unsigned code (table 9-3).
  function SignedValue(code: nat): int {
    TruncatedDivision((if code % 2 == 0 then -1 else 1) * (code + 1), 2)
  }

  function SignedCode(v: int): nat {
    if v > 0 then 2 * v - 1 else -2 * v
  }

  // Odd codes are positive and even ones are not (table 9-3).
  lemma SignedTable(code: nat)
    ensures SignedValue(code) == if code % 2 == 1 then (code + 1) / 2 else -(code / 2)
  {
  }

  lemma SignedRoundTrip(v: int, code: nat)
    ensures SignedValue(SignedCode(v)) == v
    ensures SignedCode(SignedValue(code)) == code
  {
    if v <= 0 {
      assert SignedValue(SignedCode(v)) == -((-2 * v + 1) / 2);
    }
  }

  function EncodeSe(v: int): seq<Bit> {
    EncodeUe(SignedCode(v))
  }

  function DecodeSe(bits: seq<Bit>, width: nat): Reading<int> {
    var (code, rest) :- DecodeUe(bits, width);
    Read(SignedValue(code), rest)
  }

  lemma DecodeEncodeSe(v: int, width: nat, rest: seq<Bit>)
    requires SignedCode(v) + 1 < Pow2(width)
    ensures DecodeSe(EncodeSe(v) + rest, width) == Read(v, rest)
  {
    hide DecodeUe, EncodeUe, SignedCode, SignedValue;
    DecodeEncodeUe(SignedCode(v), width, rest);
    SignedRoundTrip(v, 0);
  }

  lemma EncodeDecodeSe(bits: seq<Bit>, width: nat)
    requires DecodeSe(bits, width).Read?
    ensures var r := DecodeSe(bits, width); SignedCode(r.value) + 1 < Pow2(width) && bits == EncodeSe(r.value) + r.rest
  {
    hide DecodeUe, EncodeUe, SignedCode, SignedValue, Pow2;
    EncodeDecodeUe(bits, width);
    SignedRoundTrip(0, DecodeUe(bits, width).value);
  }
}
