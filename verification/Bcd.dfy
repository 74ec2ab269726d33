/**
  Binary Coded Decimal numbers (tsBCD.cpp): one decimal digit in each half of a byte,
  most significant digit first.
 */
module Bcd {
  import opened Arithmetic
  import opened Octets

  type UInt32 = x: int | 0 <= x < 0x1_0000_0000

  function Pow10(n: nat): (p: nat)
    ensures p > 0
  {
    if n == 0 then 1 else 10 * Pow10(n - 1)
  }

  // The half of a byte that holds a digit.
  function Nibble(bytes: seq<Byte>, i: nat): (d: nat)
    requires i / 2 < |bytes|
    ensures d < 16
  {
    if i % 2 == 0 then bytes[i / 2] / 16 else bytes[i / 2] % 16
  }

  // The number that some digits represent.
  function Number(bytes: seq<Byte>, count: nat): nat
    requires count <= 2 * |bytes|
  {
    if count == 0 then 0 else 10 * Number(bytes, count - 1) + Nibble(bytes, count - 1)
  }

  // Two digits are in each byte, the first one in the upper half.
  lemma DigitsOfByte(bytes: seq<Byte>, k: nat)
    requires k < |bytes|
    ensures Number(bytes, 2 * k + 1) == 10 * Number(bytes, 2 * k) + bytes[k] / 16
    ensures Number(bytes, 2 * k + 2) == 100 * Number(bytes, 2 * k) + 10 * (bytes[k] / 16) + bytes[k] % 16
  {
    assert Nibble(bytes, 2 * k) == bytes[k] / 16 && Nibble(bytes, 2 * k + 1) == bytes[k] % 16;
  }

  // A number without its last digits.
  function DropDigits(value: nat, n: nat): nat {
    QuotientIsNatural(value, Pow10(n));
    value / Pow10(n)
  }

  // The digit of a number at some place among the last count ones.
  function Digit(value: nat, count: nat, i: nat): (d: nat)
    requires i < count
    ensures d < 10
  {
    DropDigits(value, count - 1 - i) % 10
  }

  // All digits are written, from index from on.
  predicate Written(bytes: seq<Byte>, value: nat, count: nat, from: nat)
    requires count <= 2 * |bytes|
  {
    forall i :: from <= i < count ==> Nibble(bytes, i) == Digit(value, count, i)
  }

  // Nothing else than the digits from index from on has changed.
  predicate OthersUnchanged(before: seq<Byte>, after: seq<Byte>, count: nat, from: nat) {
    && |before| == |after|
    && forall i :: 0 <= i < 2 * |after| && !(from <= i < count) ==> Nibble(after, i) == Nibble(before, i)
  }

  // Reading all digits that are written gives the number modulo a power of ten.
  lemma {:induction false} NumberOfDigits(bytes: seq<Byte>, value: nat, count: nat, k: nat)
    requires k <= count <= 2 * |bytes| && Written(bytes, value, count, 0)
    ensures Number(bytes, k) == DropDigits(value, count - k) % Pow10(k)
  {
    hide Nibble, DropDigits, Pow10;
    if k == 0 {
      NoDigit(DropDigits(value, count));
    } else {
      NumberOfDigits(bytes, value, count, k - 1);
      OneMoreDigit(value, count - k, k - 1);
      assert Nibble(bytes, k - 1) == Digit(value, count, k - 1);
    }
  }

  lemma NoDigit(x: nat)
    ensures x % Pow10(0) == 0
  {
  }

  lemma OneMoreDigit(value: nat, j: nat, k: nat)
    ensures DropDigits(value, j) % Pow10(k + 1)
            == 10 * (DropDigits(value, j + 1) % Pow10(k)) + DropDigits(value, j) % 10
  {
    NextDigit(value, j);
    LastDigit(DropDigits(value, j), Pow10(k));
  }

  lemma NextDigit(value: nat, j: nat)
    ensures DropDigits(value, j) / 10 == DropDigits(value, j + 1)
  {
    DivideTwice(value, Pow10(j), 10);
  }

  lemma LastDigit(x: nat, p: nat)
    requires p > 0
    ensures x % (10 * p) == 10 * (x / 10 % p) + x % 10
  {
    var q, r := x / 10 / p, x / 10 % p;
    QuotientAndRemainder(x / 10, p);
    TimesTen(q, p);
    DivideUnique(x, 10 * p, q, 10 * r + x % 10);
  }

  lemma TimesTen(q: nat, p: nat)
    ensures q * (10 * p) == 10 * (q * p)
  {
  }

  // The digits read after writing are those of the number; as the number is on 32 bits,
  // so is the result.
  lemma ReadAfterWrite(bytes: seq<Byte>, value: UInt32, count: nat)
    requires count <= 2 * |bytes| && Written(bytes, value, count, 0)
    ensures Number(bytes, count) == value % Pow10(count) < 0x1_0000_0000
  {
    hide Number, Written;
    NumberOfDigits(bytes, value, count, count);
    AllDigits(value);
    hide Pow10, DropDigits;
    RemainderIsSmaller(value, Pow10(count));
  }

  lemma AllDigits(value: nat)
    ensures DropDigits(value, 0) == value
  {
  }

  method Decode(bcd: array<Byte>, count: nat) returns (result: UInt32)
    requires count <= 2 * bcd.Length
    ensures result == Number(bcd[..], count) % 0x1_0000_0000
  {
    hide Nibble;
    result := 0;
    var p := 0;
    for index := 0 to count
      invariant p == index / 2
      invariant result == Number(bcd[..], index) % 0x1_0000_0000
    {
      DigitAt(bcd[..], index);
      TruncateStep(Number(bcd[..], index), 10, Nibble(bcd[..], index), 0x1_0000_0000);
      if index % 2 == 0 {
        result := (10 * result + bcd[p] / 16) % 0x1_0000_0000;
      } else {
        result := (10 * result + bcd[p] % 16) % 0x1_0000_0000;
        p := p + 1;
      }
    }
  }

  lemma DigitAt(bytes: seq<Byte>, i: nat)
    requires i / 2 < |bytes|
    ensures Nibble(bytes, i) == if i % 2 == 0 then bytes[i / 2] / 16 else bytes[i / 2] % 16
  {
  }

  // The last digits of a value, from the last one. With an odd number of digits, the
  // low half of the last byte is kept.
  method Encode(bcd: array<Byte>, count: nat, value: UInt32)
    requires count <= 2 * bcd.Length
    modifies bcd
    ensures Written(bcd[..], value, count, 0)
    ensures OthersUnchanged(old(bcd[..]), bcd[..], count, 0)
    ensures Number(bcd[..], count) == value % Pow10(count)
  {
    hide Nibble, Number, DropDigits, Pow10;
    if count > 0 {
      var p, v := (count - 1) / 2, value;
      var index := count;
      AllDigits(value);
      while index > 0
        invariant 0 <= index <= count && p == (index - 1) / 2 && v == DropDigits(value, count - index)
        invariant Written(bcd[..], value, count, index)
        invariant OthersUnchanged(old(bcd[..]), bcd[..], count, index)
      {
        ghost var before := bcd[..];
        if index % 2 == 0 {
          bcd[p] := bcd[p] / 16 * 16 + v % 10;
        } else {
          bcd[p] := bcd[p] % 16 + v % 10 * 16;
        }
        OneDigit(before, bcd[..], index - 1, v % 10);
        NextDigit(value, count - index);
        p := p - (if index % 2 == 0 then 0 else 1);
        v := v / 10;
        index := index - 1;
      }
    }
    ReadAfterWrite(bcd[..], value, count);
  }

  // Writing one half of a byte changes this digit only.
  lemma OneDigit(before: seq<Byte>, after: seq<Byte>, i: nat, d: nat)
    requires i / 2 < |before| && d < 10
    requires after == before[i / 2 := if i % 2 == 0 then before[i / 2] % 16 + d * 16 else before[i / 2] / 16 * 16 + d]
    ensures Nibble(after, i) == d
    ensures forall j :: 0 <= j < 2 * |before| && j != i ==> Nibble(after, j) == Nibble(before, j)
  {
    forall j | 0 <= j < 2 * |before| && j != i ensures Nibble(after, j) == Nibble(before, j) {
      if j / 2 == i / 2 {
        assert j % 2 != i % 2;
      }
    }
  }

  // Decoding what was encoded gives the last digits of the value.
  method EncodeThenDecode(bcd: array<Byte>, count: nat, value: UInt32) returns (result: UInt32)
    requires count <= 2 * bcd.Length
    modifies bcd
    ensures result == value % Pow10(count)
  {
    hide Written, OthersUnchanged, Number, Pow10;
    Encode(bcd, count, value);
    RemainderIsSmaller(value, Pow10(count));
    RemainderIsSmaller(value % Pow10(count), 0x1_0000_0000);
    result := Decode(bcd, count);
  }

  // ----- Text -----

  function DigitChar(d: nat): (c: char)
    requires d < 16
    ensures c as int == '0' as int + d
  {
    "0123456789:;<=>?"[d]
  }

  // The digits from one index to another one, as text.
  function Text(bytes: seq<Byte>, start: nat, end: nat): string
    requires start <= end <= 2 * |bytes|
    decreases end
  {
    if start == end then "" else Text(bytes, start, end - 1) + [DigitChar(Nibble(bytes, end - 1))]
  }

  // What a decimal text stands for.
  function DecimalValue(text: string): int {
    if text == "" then 0
    else 10 * DecimalValue(text[..|text| - 1]) + (text[|text| - 1] as int - '0' as int)
  }

  // The text of all digits stands for the number, with or without its leading zeros.
  lemma {:induction false} TextIsNumber(bytes: seq<Byte>, count: nat)
    requires count <= 2 * |bytes|
    ensures DecimalValue(Text(bytes, 0, count)) == DecimalValue(Stripped(Text(bytes, 0, count))) == Number(bytes, count)
  {
    hide DigitChar, Nibble, Stripped;
    StrippedValue(Text(bytes, 0, count));
    if count > 0 {
      TextIsNumber(bytes, count - 1);
      assert Text(bytes, 0, count)[..count - 1] == Text(bytes, 0, count - 1) by {
        TextLength(bytes, 0, count - 1);
      }
      TextLength(bytes, 0, count);
    }
  }

  lemma {:induction false} TextLength(bytes: seq<Byte>, start: nat, end: nat)
    requires start <= end <= 2 * |bytes|
    ensures |Text(bytes, start, end)| == end - start
    decreases end
  {
    if start < end {
      TextLength(bytes, start, end - 1);
    }
  }

  lemma {:induction false} StrippedValue(s: string)
    ensures DecimalValue(Stripped(s)) == DecimalValue(s)
  {
    if s != "" && s[0] == '0' {
      StrippedValue(s[1..]);
      ZeroFirst(s);
    }
  }

  lemma {:induction false} ZeroFirst(s: string)
    requires s != "" && s[0] == '0'
    ensures DecimalValue(s) == DecimalValue(s[1..])
  {
    if |s| > 1 {
      ZeroFirst(s[..|s| - 1]);
      assert s[..|s| - 1][1..] == s[1..][..|s| - 2];
    }
  }

  // A text without its leading zeros.
  function Stripped(s: string): string {
    if s != "" && s[0] == '0' then Stripped(s[1..]) else s
  }

  lemma {:induction false} StrippedOneMore(s: string, c: char)
    ensures Stripped(s + [c]) == if c != '0' || Stripped(s) != "" then Stripped(s) + [c] else ""
  {
    if s == "" {
      assert s + [c] == [c] && [c][1..] == "";
    } else if s[0] == '0' {
      assert (s + [c])[1..] == s[1..] + [c];
      StrippedOneMore(s[1..], c);
    }
  }

  // A number as text: with a decimal point after some digits, all digits after the
  // point and at least one digit before it; leading zeros are removed.
  function NumberText(bytes: seq<Byte>, count: nat, decimal: int): string
    requires count <= 2 * |bytes|
  {
    if decimal < 0 || decimal >= count then Stripped(Text(bytes, 0, count))
    else WholeText(Stripped(Text(bytes, 0, decimal))) + "." + Text(bytes, decimal, count)
  }

  function WholeText(s: string): string {
    if s == "" then "0" else s
  }

  method ToString(bcd: array<Byte>, count: nat, decimal: int) returns (str: string)
    requires count <= 2 * bcd.Length
    ensures str == NumberText(bcd[..], count, decimal)
  {
    hide Nibble, NumberText, DigitChar;
    str := "";
    NoText(bcd[..], decimal);
    var p := 0;
    for i := 0 to count
      invariant p == i / 2
      invariant str == NumberText(bcd[..], i, decimal)
    {
      TextOneMore(bcd[..], i, decimal);
      if decimal == i {
        if str == "" {
          str := str + "0";
        }
        str := str + ".";
      }
      DigitAt(bcd[..], i);
      var digit := if i % 2 == 0 then bcd[p] / 16 else bcd[p] % 16;
      p := if i % 2 == 0 then p else p + 1;
      if digit != 0 || str != "" {
        str := str + [DigitChar(digit)];
      }
    }
  }

  lemma NoText(bytes: seq<Byte>, decimal: int)
    ensures NumberText(bytes, 0, decimal) == ""
  {
  }

  lemma TextOneMore(bytes: seq<Byte>, i: nat, decimal: int)
    requires i / 2 < |bytes|
    ensures var s, d := NumberText(bytes, i, decimal), Nibble(bytes, i);
            var s' := if decimal == i then (if s == "" then "0" else s) + "." else s;
            NumberText(bytes, i + 1, decimal) == if d != 0 || s' != "" then s' + [DigitChar(d)] else s'
  {
    hide Nibble;
    StrippedOneMore(Text(bytes, 0, i), DigitChar(Nibble(bytes, i)));
    assert decimal == i ==> Text(bytes, i, i) == "";
  }
}
