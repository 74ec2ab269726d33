/**
  What the S-box of AES stands for (section 5.1.1 of FIPS 197): the multiplicative
  inverse in GF(2^8), followed by an affine transformation. The S-box itself is a
  table (tsAES.cpp).
 */
module AesSubstitution {
  import opened AesTables

  function IfBit(b: bv8, mask: bv8, a: bv8): bv8 {
    if b & mask != 0 then a else 0
  }

  // The product of two elements of GF(2^8), with Horner's rule on the bits of b.
  function GfMul(a: bv8, b: bv8): bv8 {
    IfBit(b, 0x01, a) ^ Xtime(IfBit(b, 0x02, a) ^ Xtime(IfBit(b, 0x04, a) ^ Xtime(IfBit(b, 0x08, a)
      ^ Xtime(IfBit(b, 0x10, a) ^ Xtime(IfBit(b, 0x20, a) ^ Xtime(IfBit(b, 0x40, a) ^ Xtime(IfBit(b, 0x80, a))))))))
  }

  // The sum of b and of its rotations to the left by 1, 2, 3 and 4 bits.
  function Affine(b: bv8): bv8 {
    b ^ ((b << 1) | (b >> 7)) ^ ((b << 2) | (b >> 6)) ^ ((b << 3) | (b >> 5)) ^ ((b << 4) | (b >> 4)) ^ 0x63
  }

  // The sum of the rotations of b by 1, 3 and 6 bits.
  function UndoAffine(b: bv8): bv8 {
    ((b << 1) | (b >> 7)) ^ ((b << 3) | (b >> 5)) ^ ((b << 6) | (b >> 2)) ^ 0x05
  }

  lemma AffineUndone(b: bv8)
    ensures Affine(UndoAffine(b)) == b && UndoAffine(Affine(b)) == b
  {
  }

  // The inverse of x, before the affine transformation of its S-box entry.
  ghost predicate IsInverse(x: bv8, inverse: bv8) {
    if x == 0 then inverse == 0 else GfMul(inverse, x) == 1
  }

  lemma FirstQuarter(x: bv8)
    requires x < 0x40
    ensures IsInverse(x, UndoAffine(Sub(x)))
  {
    assert x != 0 ==> GfMul(UndoAffine(Sub(x)), x) == 1;
  }

  lemma SecondQuarter(x: bv8)
    requires 0x40 <= x < 0x80
    ensures IsInverse(x, UndoAffine(Sub(x)))
  {
    assert x != 0 ==> GfMul(UndoAffine(Sub(x)), x) == 1;
  }

  lemma ThirdQuarter(x: bv8)
    requires 0x80 <= x < 0xC0
    ensures IsInverse(x, UndoAffine(Sub(x)))
  {
    assert x != 0 ==> GfMul(UndoAffine(Sub(x)), x) == 1;
  }

  lemma LastQuarter(x: bv8)
    requires 0xC0 <= x
    ensures IsInverse(x, UndoAffine(Sub(x)))
  {
    assert x != 0 ==> GfMul(UndoAffine(Sub(x)), x) == 1;
  }

  // Every entry of the S-box is the affine transformation of the inverse of its index.
  lemma SubIsAffineOfInverse(x: bv8) returns (inverse: bv8)
    ensures IsInverse(x, inverse) && Sub(x) == Affine(inverse)
  {
    hide Sub, IsInverse, Affine, UndoAffine;
    inverse := UndoAffine(Sub(x));
    AffineUndone(Sub(x));
    if x < 0x40 {
      FirstQuarter(x);
    } else if x < 0x80 {
      SecondQuarter(x);
    } else if x < 0xC0 {
      ThirdQuarter(x);
    } else {
      LastQuarter(x);
    }
  }
}
