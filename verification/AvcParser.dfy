/**
  The parser of Advanced Video Coding data (tsAVCParser.h, tsAVCParser.cpp,
  tsAVCParserTemplate.h): a cursor over raw bytes that silently drops the
  emulation prevention bytes.
 */
module AvcParser {
  import opened Arithmetic
  import opened Octets
  import opened AvcBits
  import opened AvcCodes

  // The result of reading: done, refused, or gone past the end of the memory area
  // because the raw bits that were counted include bytes to drop.
  datatype Status = Done | Refused | PastEnd

  lemma FirstBit(data: seq<Byte>, byte: nat, bit: nat)
    requires byte < |data| && bit < 8
    ensures BitsFrom(data, byte, bit) == [data[byte] / Pow2(7 - bit) % 2] + BitsFrom(data, byte, bit + 1)
  {
    hide Bits, Binary, PayloadFrom;
    BitOfBinary(data[byte], 8, bit);
  }

  // Where the cursor goes at the end of a byte.
  function NextPlace(data: seq<Byte>, byte: nat): nat
    requires byte < |data|
  {
    if byte + 1 < |data| && Dropped(data, byte + 1) then byte + 2 else byte + 1
  }

  lemma EndOfByte(data: seq<Byte>, byte: nat)
    requires byte < |data|
    ensures NextPlace(data, byte) <= |data|
    ensures BitsFrom(data, NextPlace(data, byte), 0) == BitsFrom(data, byte, 8) == Bits(PayloadFrom(data, byte + 1))
  {
    hide Binary;
    var q := NextPlace(data, byte);
    assert PayloadFrom(data, byte + 1) == PayloadFrom(data, q);
    if q < |data| {
      assert !Dropped(data, q) && PayloadFrom(data, q) == [data[q]] + PayloadFrom(data, q + 1);
    }
  }

  lemma WholeByte(data: seq<Byte>, byte: nat)
    requires byte < |data|
    ensures BitsFrom(data, byte, 0) == Binary(data[byte], 8) + BitsFrom(data, byte, 8)
  {
    hide Bits, Binary, PayloadFrom;
  }

  lemma RawAndPayloadLeft(data: seq<Byte>, byte: nat, bit: nat)
    requires byte <= |data| && (byte < |data| || bit == 0) && bit < 8
    ensures RawBits(data, byte, bit)
         == |BitsFrom(data, byte, bit)| + 8 * if byte < |data| then DroppedFrom(data, byte + 1) else 0
  {
    if byte < |data| {
      RawAndPayload(data, byte, bit);
    }
  }

  class Parser {
    var data: seq<Byte>  // the memory area to parse
    var byte: nat        // offset of the current byte
    var bit: nat         // current bit offset into this byte

    // The consistent state that all methods assert.
    ghost predicate Valid()
      reads this
    {
      byte <= |data| && (byte < |data| || bit == 0) && bit < 8
    }

    // The payload bits that remain to be read.
    function Rest(): seq<Bit>
      requires byte <= |data| && bit <= 8
      reads this
    {
      BitsFrom(data, byte, bit)
    }

    constructor (area: seq<Byte>)
      ensures Valid() && data == area && Rest() == Bits(PayloadFrom(area, 0))
    {
      data, byte, bit := area, 0, 0;
      new;
      hide Binary, Bits;
      if area != [] {
        assert PayloadFrom(area, 0) == [area[0]] + PayloadFrom(area, 1);
        BitsOfFirst(area[0], PayloadFrom(area, 1));
      } else {
        BitsOfNone();
      }
    }

    // Reset at a bit of the memory area, or at its end.
    method Reset(byteOffset: nat, bitOffset: nat)
      modifies this`byte, this`bit
      ensures Valid()
      ensures 8 * byte + bit == if 8 * byteOffset + bitOffset < 8 * |data| then 8 * byteOffset + bitOffset
              else 8 * |data|
    {
      byte := if byteOffset + bitOffset / 8 < |data| then byteOffset + bitOffset / 8 else |data|;
      bit := if byte == |data| then 0 else bitOffset % 8;
    }

    function EndOfStream(): bool
      reads this
    {
      byte >= |data|
    }

    function ByteAligned(): bool
      reads this
    {
      bit == 0
    }

    // The number of bytes that are not part of the payload after the current one.
    ghost function BytesToDrop(): nat
      requires byte <= |data|
      reads this
    {
      if byte < |data| then DroppedFrom(data, byte + 1) else 0
    }

    // Whole bytes only.
    function RemainingBytes(): (n: int)
      requires Valid()
      reads this
      ensures 8 * n <= RemainingBits() < 8 * n + 8
    {
      |data| - byte - (if bit != 0 then 1 else 0)
    }

    // Not only the payload bits, but also those of the bytes that will be dropped.
    function RemainingBits(): (n: nat)
      requires Valid()
      reads this
      ensures n == |Rest()| + 8 * BytesToDrop()
    {
      RawAndPayloadLeft(data, byte, bit);
      8 * (|data| - byte) - bit
    }

    method NextByte()
      requires byte < |data| && bit <= 8
      modifies this`byte, this`bit
      ensures Valid() && bit == 0 && byte == NextPlace(data, old(byte))
      ensures Rest() == Bits(PayloadFrom(data, old(byte) + 1))
    {
      EndOfByte(data, byte);
      byte := byte + 1;
      bit := 0;
      if byte < |data| && data[byte] == 3 && byte > 1 && data[byte - 1] == 0 && data[byte - 2] == 0 {
        byte := byte + 1;
      }
    }

    method NextBit() returns (b: Bit)
      requires Valid() && byte < |data|
      modifies this`byte, this`bit
      ensures Valid() && old(Rest()) == [b] + Rest()
      ensures bit == (old(bit) + 1) % 8
    {
      hide BitsFrom, Bits, Binary, PayloadFrom;
      FirstBit(data, byte, bit);
      EndOfByte(data, byte);
      b := data[byte] / Pow2(7 - bit) % 2;
      bit := bit + 1;
      if bit > 7 {
        NextByte();
      }
    }

    // Read n bits into an integer of some width. The guard counts raw bits. When
    // fewer bits of payload are left, the loops would go past the end of the area.
    method ReadBits(width: nat, n: nat) returns (status: Status, val: nat)
      requires Valid()
      modifies this`byte, this`bit
      ensures Valid()
      ensures status == Refused <==> n > old(RemainingBits())
      ensures status == Done <==> n <= |old(Rest())|
      ensures status == Done ==> val == Value(old(Rest())[..n]) % Pow2(width) && Rest() == old(Rest())[n..]
      ensures status != Done ==> val == 0 && byte == old(byte) && bit == old(bit)
    {
      hide BitsFrom, Value, Pow2, RawBits;
      val := 0;
      if RemainingBits() < n {
        return Refused, 0;
      }
      if |Rest()| < n {
        return PastEnd, 0;
      }
      val := ReadLoops(width, n);
      return Done, val;
    }

    // The loops of method readBits: leading bits, whole bytes, trailing bits.
    method ReadLoops(width: nat, count: nat) returns (val: nat)
      requires Valid() && count <= |Rest()|
      modifies this`byte, this`bit
      ensures Valid() && val == Value(old(Rest())[..count]) % Pow2(width) && Rest() == old(Rest())[count..]
    {
      hide BitsFrom, Value, Pow2, Binary, Bits, PayloadFrom;
      ghost var all := Rest();
      var n := count;
      val := 0;
      NoBits(width);
      while n > 0 && bit != 0
        invariant Valid() && ReadSoFar(all, count, n, width, val)
      {
        val, n := ReadOneBit(all, count, n, width, val);
      }
      while n > 7
        invariant Valid() && ReadSoFar(all, count, n, width, val) && (n > 0 ==> bit == 0)
      {
        val, n := ReadOneByte(all, count, n, width, val);
      }
      while n > 0
        invariant Valid() && ReadSoFar(all, count, n, width, val)
      {
        val, n := ReadOneBit(all, count, n, width, val);
      }
    }

    // All but the last n of some bits are read into an integer of some width.
    ghost predicate ReadSoFar(all: seq<Bit>, count: nat, n: nat, width: nat, val: nat)
      requires byte <= |data| && bit <= 8
      reads this
    {
      n <= count <= |all| && Rest() == all[count - n..] && val == Value(all[..count - n]) % Pow2(width)
    }

    method ReadOneBit(ghost all: seq<Bit>, ghost count: nat, n: nat, width: nat, val: nat) returns (val': nat, n': nat)
      requires Valid() && ReadSoFar(all, count, n, width, val) && n > 0
      modifies this`byte, this`bit
      ensures Valid() && n' == n - 1 && ReadSoFar(all, count, n', width, val')
    {
      hide Value, Pow2, BitsFrom;
      NotAtEnd(data, byte, bit);
      ghost var k := count - n;
      var b := NextBit();
      SplitOne(all, k, b, Rest());
      BitValue(b);
      AppendBits(all, k, [b], width);
      val', n' := (val * 2 + b) % Pow2(width), n - 1;
    }

    method ReadOneByte(ghost all: seq<Bit>, ghost count: nat, n: nat, width: nat, val: nat) returns (val': nat, n': nat)
      requires Valid() && ReadSoFar(all, count, n, width, val) && n > 7 && bit == 0
      modifies this`byte, this`bit
      ensures Valid() && bit == 0 && n' == n - 8 && ReadSoFar(all, count, n', width, val')
    {
      hide Value, Pow2, BitsFrom, Binary, Bits, PayloadFrom;
      NotAtEnd(data, byte, bit);
      WholeByte(data, byte);
      EndOfByte(data, byte);
      AppendBits(all, count - n, Binary(data[byte], 8), width);
      ByteValue(data[byte]);
      val' := (val * 256 + data[byte]) % Pow2(width);
      NextByte();
      n' := n - 8;
    }

    // The same, without moving.
    method NextBits(width: nat, n: nat) returns (status: Status, val: nat)
      requires Valid()
      modifies this`byte, this`bit
      ensures byte == old(byte) && bit == old(bit)
      ensures status == Refused <==> n > RemainingBits()
      ensures status == Done <==> n <= |Rest()|
      ensures val == if status == Done then Value(Rest()[..n]) % Pow2(width) else 0
    {
      hide BitsFrom, Value, Pow2, RawBits;
      var savedByte, savedBit := byte, bit;
      status, val := ReadBits(width, n);
      byte, bit := savedByte, savedBit;
    }

    // Read one bit.
    method ReadFlag() returns (valid: bool, b: Bit)
      requires Valid()
      modifies this`byte, this`bit
      ensures Valid() && valid == (old(Rest()) != [])
      ensures valid ==> old(Rest()) == [b] + Rest() && bit == (old(bit) + 1) % 8
      ensures !valid ==> byte == old(byte) && bit == old(bit)
    {
      hide BitsFrom, Value, Pow2, RawBits;
      ghost var all := Rest();
      Alignment(data, byte, bit);
      var status, val := ReadBits(8, 1);
      OneBitValue(all);
      valid, b := status == Done, val;
      Alignment(data, byte, bit);
    }

    // Only the first k bits are read, and they are a one and zeros.
    ghost predicate TrailingSoFar(all: seq<Bit>, k: nat)
      requires byte <= |data| && bit <= 8
      reads this
    {
      TrailingBits(all, k) && Rest() == all[k..]
    }

    method NextTrailingBit(ghost all: seq<Bit>, ghost n: nat, ghost k: nat) returns (valid: bool)
      requires Valid() && bit != 0 && TrailingSoFar(all, k) && k < n
      modifies this`byte, this`bit
      ensures Valid() && bit == (old(bit) + 1) % 8
      ensures if valid then TrailingSoFar(all, k + 1) else !TrailingBits(all, n)
    {
      hide BitsFrom;
      NotAtEndOfBits(data, byte, bit);
      var b;
      valid, b := ReadFlag();
      valid := valid && b == 0;
      SplitOne(all, k, b, Rest());
      OneMoreTrailingBit(all, n, k);
    }

    // Skip a one and the zeros up to the end of the byte, if they are there.
    method RbspTrailingBits() returns (valid: bool)
      requires Valid()
      modifies this`byte, this`bit
      ensures Valid()
      ensures valid == old(TrailingBits(Rest(), 8 - bit))
      ensures if valid then bit == 0 && Rest() == old(Rest()[8 - bit..]) else byte == old(byte) && bit == old(bit)
    {
      hide BitsFrom, TrailingBits;
      ghost var all, n, k: nat := Rest(), 8 - bit, 1;
      var savedByte, savedBit := byte, bit;
      Alignment(data, byte, bit);
      var b;
      valid, b := ReadFlag();
      valid := valid && b == 1;
      FirstTrailingBit(all, n);
      while valid && !ByteAligned()
        invariant Valid() && 1 <= k <= n
        invariant valid ==> TrailingSoFar(all, k) && bit == (k + savedBit) % 8
        invariant !valid ==> !TrailingBits(all, n)
        decreases n - k, valid
      {
        valid := NextTrailingBit(all, n, k);
        k := k + 1;
      }
      if !valid {
        byte, bit := savedByte, savedBit;
      }
    }

    // Read an Exp-Golomb code into an integer with some number of value bits. A code
    // with too many leading zeros makes the shift undefined: no value is known then.
    method ExpGolomb(width: nat) returns (status: Status, val: nat)
      requires Valid()
      modifies this`byte, this`bit
      ensures Valid()
      ensures Agrees(DecodeUe(old(Rest()), width), status, val, Rest())
      ensures status == PastEnd && !DecodeUe(old(Rest()), width).OutOfRange? ==> width > 33 || !CleanEnd(data)
      ensures |Rest()| <= old(|Rest()|) && (status == Done ==> |Rest()| < old(|Rest()|))
    {
      hide BitsFrom, Value, Pow2, DecodeUe, LeadingZeros, CleanEnd;
      ghost var all := Rest();
      var zeros := LeadingZeroBits();
      if zeros < 0 {
        return Refused, 0;
      }
      ghost var rest := Rest();
      AfterLeadingZeros(zeros, rest, width);
      GuardIsRight(data, byte, bit, zeros);
      status, val := ReadBits(width, zeros);
      if status != Done {
        return;
      }
      if zeros < width {
        NotTruncated(rest[..zeros], width);
        val := val + Pow2(zeros) - 1;
      } else {
        var unknown: nat := *;
        val := unknown;
      }
    }

    // The loop of method expColomb: skip zeros and the first one. The result is
    // negative when the end comes first.
    method LeadingZeroBits() returns (zeros: int)
      requires Valid()
      modifies this`byte, this`bit
      ensures Valid()
      ensures zeros >= 0 ==> old(Rest()) == Zeros(zeros) + [1] + Rest()
      ensures |Rest()| <= old(|Rest()|)
      ensures zeros < 0 ==> forall width: nat :: DecodeUe(old(Rest()), width) == Truncated
    {
      hide BitsFrom, DecodeUe, Zeros;
      ghost var all := Rest();
      zeros := -1;
      assert all == Zeros(0) + all by {
        assert Zeros(0) == [];
      }
      var b: Bit := 0;
      while b == 0
        invariant Valid() && zeros >= -1
        invariant ZerosRead(all, zeros, b, Rest())
        decreases |Rest()|, 1 - b
      {
        if EndOfStream() {
          NothingLeft(data, byte, bit);
          assert all == Zeros(zeros + 1);
          forall width: nat ensures DecodeUe(all, width) == Truncated {
            OnlyZeros(zeros + 1, width);
          }
          return -1;
        }
        ghost var n := zeros + 1;
        b := NextBit();
        ZeroAtEnd(n);
        assert all == Zeros(n) + [b] + Rest();
        zeros := zeros + 1;
      }
    }

    method Ue(width: nat) returns (status: Status, val: nat)
      requires Valid()
      modifies this`byte, this`bit
      ensures Valid()
      ensures Agrees(DecodeUe(old(Rest()), width), status, val, Rest())
      ensures status == PastEnd && !DecodeUe(old(Rest()), width).OutOfRange? ==> width > 33 || !CleanEnd(data)
      ensures |Rest()| <= old(|Rest()|) && (status == Done ==> |Rest()| < old(|Rest()|))
    {
      status, val := ExpGolomb(width);
    }

    method Se(width: nat) returns (status: Status, val: int)
      requires Valid()
      modifies this`byte, this`bit
      ensures Valid()
      ensures Agrees(DecodeSe(old(Rest()), width), status, val, Rest())
      ensures status == PastEnd && !DecodeSe(old(Rest()), width).OutOfRange? ==> width > 33 || !CleanEnd(data)
      ensures |Rest()| <= old(|Rest()|) && (status == Done ==> |Rest()| < old(|Rest()|))
    {
      hide DecodeUe;
      status, val := ExpGolomb(width);
      if status == Done {
        val := TruncatedDivision((if val % 2 == 0 then -1 else 1) * (val + 1), 2);
      }
    }

    // Read n bits that an unsigned integer type can hold.
    method U(width: nat, n: nat) returns (status: Status, val: nat)
      requires Valid() && n <= width
      modifies this`byte, this`bit
      ensures Valid()
      ensures Agrees(DecodeU(old(Rest()), n), status, val, Rest())
      ensures status == PastEnd ==> n > 32 || !CleanEnd(data)
      ensures |Rest()| <= old(|Rest()|)
    {
      hide BitsFrom, Value, Pow2, CleanEnd;
      ghost var all := Rest();
      GuardIsRight(data, byte, bit, n);
      status, val := ReadBits(width, n);
      if status == Done {
        NotTruncated(all[..n], width);
      }
    }
  }

  // One and zeros.
  ghost predicate TrailingBits(bits: seq<Bit>, n: nat) {
    0 < n <= |bits| && bits[..n] == [1] + Zeros(n - 1)
  }

  lemma FirstTrailingBit(all: seq<Bit>, n: nat)
    requires n > 0
    ensures all != [] && all[0] == 1 ==> TrailingBits(all, 1)
    ensures all == [] || all[0] != 1 ==> !TrailingBits(all, n)
  {
    if TrailingBits(all, n) {
      assert all[0] == all[..n][0] == 1;
    }
  }

  lemma OneMoreTrailingBit(all: seq<Bit>, n: nat, k: nat)
    requires 0 < k < n && k < |all| && TrailingBits(all, k)
    ensures all[k] == 0 ==> TrailingBits(all, k + 1)
    ensures all[k] != 0 ==> !TrailingBits(all, n)
  {
    hide Zeros;
    ZeroAtEnd(k - 1);
    assert all[..k + 1] == all[..k] + [all[k]];
    if TrailingBits(all, n) {
      AllZeros(n - 1);
      assert all[..n][k] == Zeros(n - 1)[k - 1];
    }
  }

  lemma {:induction false} AllZeros(n: nat)
    ensures forall i :: 0 <= i < n ==> Zeros(n)[i] == 0
  {
    if n > 0 {
      AllZeros(n - 1);
    }
  }

  // The bit offset and the number of bits left end on a byte boundary.
  lemma Alignment(data: seq<Byte>, byte: nat, bit: nat)
    requires byte <= |data| && (byte < |data| || bit == 0) && bit < 8
    ensures (|BitsFrom(data, byte, bit)| + bit) % 8 == 0
    ensures byte < |data| ==> |BitsFrom(data, byte, bit)| >= 8 - bit
  {
    if byte < |data| {
      WholeBytes(1 + |PayloadFrom(data, byte + 1)|);
    }
  }

  lemma WholeBytes(n: nat)
    ensures (8 * n) % 8 == 0
  {
  }

  lemma OneBitValue(bits: seq<Bit>)
    ensures bits != [] ==> Value(bits[..1]) % Pow2(8) == bits[0]
  {
    if bits != [] {
      assert bits[..1] == [bits[0]];
      BitValue(bits[0]);
      ByteValue(0);
    }
  }

  lemma NotTruncated(bits: seq<Bit>, width: nat)
    requires |bits| <= width
    ensures Value(bits) % Pow2(width) == Value(bits)
  {
    hide Value, Pow2;
    ValueBound(bits);
    PowGrows(|bits|, width);
    DivideUnique(Value(bits), Pow2(width), 0, Value(bits));
  }

  lemma NotAtEndOfBits(data: seq<Byte>, byte: nat, bit: nat)
    requires byte <= |data| && (byte < |data| || bit == 0) && bit < 8
    ensures bit != 0 ==> BitsFrom(data, byte, bit) != []
  {
  }

  lemma NothingLeft(data: seq<Byte>, byte: nat, bit: nat)
    requires byte == |data| && bit <= 8
    ensures BitsFrom(data, byte, bit) == []
  {
  }

  lemma GuardIsRight(data: seq<Byte>, byte: nat, bit: nat, n: nat)
    requires byte <= |data| && (byte < |data| || bit == 0) && bit < 8
    ensures n <= 32 && CleanEnd(data) ==> (n <= RawBits(data, byte, bit) <==> n <= |BitsFrom(data, byte, bit)|)
  {
    if n <= 32 && CleanEnd(data) {
      GuardUpTo32(data, byte, bit, n);
    }
  }

  // All but the last one of the bits read are zeros.
  ghost predicate ZerosRead(all: seq<Bit>, zeros: int, b: Bit, rest: seq<Bit>)
    requires zeros >= -1
  {
    if b == 0 then all == Zeros(zeros + 1) + rest else zeros >= 0 && all == Zeros(zeros) + [1] + rest
  }

  // What a method of the parser returns is what reading should give, whenever it is defined.
  ghost predicate Agrees<T>(r: Reading<T>, status: Status, val: T, rest: seq<Bit>) {
    match r
    case Read(v, after) => status == Done && val == v && rest == after
    case Truncated => status != Done
    case OutOfRange => true
  }

  // No byte is to be dropped among the last four ones.
  ghost predicate CleanEnd(data: seq<Byte>) {
    forall p :: 0 <= p < |data| && |data| - 4 <= p ==> !Dropped(data, p)
  }

  lemma BitsOfFirst(b: Byte, rest: seq<Byte>)
    ensures Bits([b] + rest) == Binary(b, 8) + Bits(rest)
  {
  }

  lemma BitsOfNone()
    ensures Bits([]) == []
  {
  }

  lemma NoBits(width: nat)
    ensures Value([]) % Pow2(width) == 0
  {
    hide Pow2;
    RemainderIsSmaller(0, Pow2(width));
  }

  lemma NotAtEnd(data: seq<Byte>, byte: nat, bit: nat)
    requires byte <= |data| && bit <= 8 && BitsFrom(data, byte, bit) != []
    ensures byte < |data|
  {
  }

  lemma ByteValue(b: Byte)
    ensures Value(Binary(b, 8)) == b && Pow2(8) == 256
  {
    assert Pow2(4) == 16;
    ValueOfBinary(b, 8);
  }

  lemma BitValue(b: Bit)
    ensures Value([b]) == b && Pow2(1) == 2
  {
    assert [b][..0] == [];
  }

  lemma SplitOne(all: seq<Bit>, k: nat, b: Bit, rest: seq<Bit>)
    requires k < |all| && all[k..] == [b] + rest
    ensures all[k..k + 1] == [b] && all[k + 1..] == rest
  {
    assert all[k + 1..] == all[k..][1..];
  }

  // Some more bits are read into an integer.
  lemma AppendBits(all: seq<Bit>, done: nat, more: seq<Bit>, width: nat)
    requires done + |more| <= |all| && all[done..done + |more|] == more
    ensures Value(all[..done + |more|]) % Pow2(width)
         == (Value(all[..done]) % Pow2(width) * Pow2(|more|) + Value(more)) % Pow2(width)
  {
    hide Value, Pow2;
    assert all[..done + |more|] == all[..done] + more;
    ValueOfConcat(all[..done], more);
    TruncateStep(Value(all[..done]), Pow2(|more|), Value(more), Pow2(width));
  }
}
