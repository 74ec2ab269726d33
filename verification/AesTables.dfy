/**
  Words, GF(2^8) products and lookup tables of the AES block cipher
  (tsAES.cpp). The S-box and its inverse are listed entry by entry; the other
  tables are given by the products that define them.
 */
module AesTables {

  // ----- 32-bit words and their bytes (macro BYTE, GetUInt32, RORc) -----

  function Byte0(w: bv32): bv8 { (w & 0xff) as bv8 }

  function Byte1(w: bv32): bv8 { ((w >> 8) & 0xff) as bv8 }

  function Byte2(w: bv32): bv8 { ((w >> 16) & 0xff) as bv8 }

  function Byte3(w: bv32): bv8 { ((w >> 24) & 0xff) as bv8 }

  // The word with most significant byte a and least significant byte d.
  function Word(a: bv8, b: bv8, c: bv8, d: bv8): bv32 {
    ((a as bv32) << 24) | ((b as bv32) << 16) | ((c as bv32) << 8) | (d as bv32)
  }

  // Rotation of a word by eight bits to the right.
  function RotateRight8(w: bv32): bv32 { (w >> 8) | (w << 24) }

  lemma WordBytes(a: bv8, b: bv8, c: bv8, d: bv8)
    ensures Byte3(Word(a, b, c, d)) == a && Byte2(Word(a, b, c, d)) == b
    ensures Byte1(Word(a, b, c, d)) == c && Byte0(Word(a, b, c, d)) == d
  {
  }

  lemma WordOfBytes(w: bv32)
    ensures Word(Byte3(w), Byte2(w), Byte1(w), Byte0(w)) == w
  {
  }

  function Xor(u: bv32, v: bv32): bv32 { u ^ v }

  lemma XorAssoc(u: bv32, v: bv32, w: bv32)
    ensures Xor(Xor(u, v), w) == Xor(u, Xor(v, w))
  {
  }

  lemma XorSelf(u: bv32, v: bv32)
    ensures Xor(Xor(u, v), v) == u
  {
  }

  lemma XorByte3(u: bv32, v: bv32)
    ensures Byte3(Xor(u, v)) == GfAdd(Byte3(u), Byte3(v))
  {
  }

  lemma XorByte2(u: bv32, v: bv32)
    ensures Byte2(Xor(u, v)) == GfAdd(Byte2(u), Byte2(v))
  {
  }

  lemma XorByte1(u: bv32, v: bv32)
    ensures Byte1(Xor(u, v)) == GfAdd(Byte1(u), Byte1(v))
  {
  }

  lemma XorByte0(u: bv32, v: bv32)
    ensures Byte0(Xor(u, v)) == GfAdd(Byte0(u), Byte0(v))
  {
  }

  lemma WordXor(a: bv8, b: bv8, c: bv8, d: bv8, a': bv8, b': bv8, c': bv8, d': bv8)
    ensures Xor(Word(a, b, c, d), Word(a', b', c', d'))
         == Word(GfAdd(a, a'), GfAdd(b, b'), GfAdd(c, c'), GfAdd(d, d'))
  {
  }

  // ----- GF(2^8), modulo x^8 + x^4 + x^3 + x + 1 -----

  function GfAdd(a: bv8, b: bv8): bv8 { a ^ b }

  function GfSum(a: bv8, b: bv8, c: bv8, d: bv8): bv8 { GfAdd(GfAdd(a, b), GfAdd(c, d)) }

  function Xtime(b: bv8): bv8 {
    (b << 1) ^ (if b & 0x80 == 0 then 0 else 0x1b)
  }

  function Mul3(b: bv8): bv8 { GfAdd(Xtime(b), b) }

  function Mul9(b: bv8): bv8 { GfAdd(Xtime(Xtime(Xtime(b))), b) }

  function MulB(b: bv8): bv8 { GfAdd(Mul9(b), Xtime(b)) }

  function MulD(b: bv8): bv8 { GfAdd(Mul9(b), Xtime(Xtime(b))) }

  function MulE(b: bv8): bv8 { GfAdd(GfAdd(Xtime(Xtime(Xtime(b))), Xtime(Xtime(b))), Xtime(b)) }

  lemma GfAssoc(a: bv8, b: bv8, c: bv8)
    ensures GfAdd(GfAdd(a, b), c) == GfAdd(a, GfAdd(b, c))
  {
  }

  lemma GfComm(a: bv8, b: bv8)
    ensures GfAdd(a, b) == GfAdd(b, a)
  {
  }

  lemma GfZero(a: bv8)
    ensures GfAdd(a, a) == 0 && GfAdd(0, a) == a && GfAdd(a, 0) == a
  {
  }

  // From here on, sums are rearranged by these laws only, never bit by bit.
  lemma GfPairs(a: bv8, b: bv8, c: bv8, d: bv8)
    ensures GfAdd(GfAdd(a, b), GfAdd(c, d)) == GfAdd(GfAdd(a, c), GfAdd(b, d))
  {
    hide GfAdd;
    GfAssoc(a, b, GfAdd(c, d));
    GfAssoc(b, c, d);
    GfComm(b, c);
    GfAssoc(c, b, d);
    GfAssoc(a, c, GfAdd(b, d));
  }

  lemma GfTwice(p: bv8, x: bv8)
    ensures GfAdd(p, GfAdd(p, x)) == x
  {
    hide GfAdd;
    GfAssoc(p, p, x);
    GfZero(p);
    GfZero(x);
  }

  lemma GfCommon(p: bv8, a: bv8, b: bv8)
    ensures GfAdd(GfAdd(p, a), GfAdd(p, b)) == GfAdd(a, b)
  {
    hide GfAdd;
    GfPairs(p, a, p, b);
    GfZero(p);
    GfZero(GfAdd(a, b));
  }

  lemma GfRotate(a: bv8, b: bv8, c: bv8, d: bv8)
    ensures GfSum(a, b, c, d) == GfSum(b, c, d, a)
  {
    hide GfAdd;
    GfComm(a, b);
    GfComm(c, d);
    GfPairs(b, a, c, d);
    GfComm(a, d);
  }

  lemma GfRows(a: bv8, b: bv8, c: bv8, d: bv8, a': bv8, b': bv8, c': bv8, d': bv8)
    ensures GfAdd(GfSum(a, b, c, d), GfSum(a', b', c', d'))
         == GfSum(GfAdd(a, a'), GfAdd(b, b'), GfAdd(c, c'), GfAdd(d, d'))
  {
    hide GfAdd;
    GfPairs(GfAdd(a, b), GfAdd(c, d), GfAdd(a', b'), GfAdd(c', d'));
    GfPairs(a, b, a', b');
    GfPairs(c, d, c', d');
  }

  // The sixteen terms of a sum, taken by columns instead of by rows.
  lemma GfTranspose(e0: bv8, e1: bv8, e2: bv8, e3: bv8, b0: bv8, b1: bv8, b2: bv8, b3: bv8,
                    d0: bv8, d1: bv8, d2: bv8, d3: bv8, n0: bv8, n1: bv8, n2: bv8, n3: bv8)
    ensures GfSum(GfSum(e0, e1, e2, e3), GfSum(b0, b1, b2, b3), GfSum(d0, d1, d2, d3), GfSum(n0, n1, n2, n3))
         == GfSum(GfSum(e0, b0, d0, n0), GfSum(e1, b1, d1, n1), GfSum(e2, b2, d2, n2), GfSum(e3, b3, d3, n3))
  {
    hide GfAdd;
    GfRows(e0, e1, e2, e3, b0, b1, b2, b3);
    GfRows(d0, d1, d2, d3, n0, n1, n2, n3);
    GfRows(GfAdd(e0, b0), GfAdd(e1, b1), GfAdd(e2, b2), GfAdd(e3, b3),
           GfAdd(d0, n0), GfAdd(d1, n1), GfAdd(d2, n2), GfAdd(d3, n3));
  }

  lemma XtimeAdd(a: bv8, b: bv8)
    ensures Xtime(GfAdd(a, b)) == GfAdd(Xtime(a), Xtime(b))
  {
    assert (a ^ b) << 1 == (a << 1) ^ (b << 1);
    if a & 0x80 == 0 {
      assert (a ^ b) & 0x80 == b & 0x80;
    } else {
      assert (a ^ b) & 0x80 == 0 <==> b & 0x80 != 0;
    }
  }

  // Multiplication by a constant distributes over addition.
  lemma Mul9Add(a: bv8, b: bv8)
    ensures Mul9(GfAdd(a, b)) == GfAdd(Mul9(a), Mul9(b))
  {
    hide Xtime, GfAdd;
    XtimeAdd(a, b);
    XtimeAdd(Xtime(a), Xtime(b));
    XtimeAdd(Xtime(Xtime(a)), Xtime(Xtime(b)));
    GfPairs(Xtime(Xtime(Xtime(a))), Xtime(Xtime(Xtime(b))), a, b);
  }

  lemma MulBAdd(a: bv8, b: bv8)
    ensures MulB(GfAdd(a, b)) == GfAdd(MulB(a), MulB(b))
  {
    hide Xtime, Mul9, GfAdd;
    XtimeAdd(a, b);
    Mul9Add(a, b);
    GfPairs(Mul9(a), Mul9(b), Xtime(a), Xtime(b));
  }

  lemma MulDAdd(a: bv8, b: bv8)
    ensures MulD(GfAdd(a, b)) == GfAdd(MulD(a), MulD(b))
  {
    hide Xtime, Mul9, GfAdd;
    XtimeAdd(a, b);
    XtimeAdd(Xtime(a), Xtime(b));
    Mul9Add(a, b);
    GfPairs(Mul9(a), Mul9(b), Xtime(Xtime(a)), Xtime(Xtime(b)));
  }

  lemma MulEAdd(a: bv8, b: bv8)
    ensures MulE(GfAdd(a, b)) == GfAdd(MulE(a), MulE(b))
  {
    hide Xtime, GfAdd;
    var a1, b1 := Xtime(a), Xtime(b);
    var a2, b2 := Xtime(a1), Xtime(b1);
    XtimeAdd(a, b);
    XtimeAdd(a1, b1);
    XtimeAdd(a2, b2);
    GfPairs(Xtime(a2), Xtime(b2), a2, b2);
    GfPairs(GfAdd(Xtime(a2), a2), GfAdd(Xtime(b2), b2), a1, b1);
  }

  lemma Mul9Sum(a: bv8, b: bv8, c: bv8, d: bv8)
    ensures Mul9(GfSum(a, b, c, d)) == GfSum(Mul9(a), Mul9(b), Mul9(c), Mul9(d))
  {
    hide Mul9, GfAdd;
    Mul9Add(GfAdd(a, b), GfAdd(c, d));
    Mul9Add(a, b);
    Mul9Add(c, d);
  }

  lemma MulBSum(a: bv8, b: bv8, c: bv8, d: bv8)
    ensures MulB(GfSum(a, b, c, d)) == GfSum(MulB(a), MulB(b), MulB(c), MulB(d))
  {
    hide MulB, GfAdd;
    MulBAdd(GfAdd(a, b), GfAdd(c, d));
    MulBAdd(a, b);
    MulBAdd(c, d);
  }

  lemma MulDSum(a: bv8, b: bv8, c: bv8, d: bv8)
    ensures MulD(GfSum(a, b, c, d)) == GfSum(MulD(a), MulD(b), MulD(c), MulD(d))
  {
    hide MulD, GfAdd;
    MulDAdd(GfAdd(a, b), GfAdd(c, d));
    MulDAdd(a, b);
    MulDAdd(c, d);
  }

  lemma MulESum(a: bv8, b: bv8, c: bv8, d: bv8)
    ensures MulE(GfSum(a, b, c, d)) == GfSum(MulE(a), MulE(b), MulE(c), MulE(d))
  {
    hide MulE, GfAdd;
    MulEAdd(GfAdd(a, b), GfAdd(c, d));
    MulEAdd(a, b);
    MulEAdd(c, d);
  }

  // One row of MixColumns; the other rows are its rotations.
  function MixRow(a: bv8, b: bv8, c: bv8, d: bv8): bv8 {
    GfSum(Xtime(a), Mul3(b), c, d)
  }

  // One row of InvMixColumns; the other rows are its rotations.
  function InvMixRow(a: bv8, b: bv8, c: bv8, d: bv8): bv8 {
    GfSum(MulE(a), MulB(b), MulD(c), Mul9(d))
  }

  // The products 0e.02 + 0b.01 + 0d.01 + 09.03 and so on: the first row of the
  // product of the two matrices is 1, 0, 0, 0.
  lemma InverseCoefficient0(x: bv8)
    ensures GfSum(MulE(Xtime(x)), MulB(x), MulD(x), Mul9(Mul3(x))) == x
  {
    hide Xtime, GfAdd;
    var x1 := Xtime(x);
    var x2 := Xtime(x1);
    var x3 := Xtime(x2);
    var x4 := Xtime(x3);
    var sum := GfAdd(GfAdd(x4, x3), x2);
    var n := GfAdd(GfAdd(x4, x1), GfAdd(x3, x));
    Mul9Add(x1, x);
    GfComm(sum, MulB(x));
    GfPairs(MulB(x), sum, MulD(x), n);
    GfCommon(Mul9(x), x1, x2);
    GfPairs(x4, x1, x3, x);
    GfCommon(GfAdd(x4, x3), x2, GfAdd(x1, x));
    GfAssoc(x2, x1, x);
    GfComm(x1, x2);
    GfTwice(GfAdd(x1, x2), x);
  }

  lemma InverseCoefficient1(x: bv8)
    ensures GfSum(MulE(Mul3(x)), MulB(Xtime(x)), MulD(x), Mul9(x)) == 0
  {
    hide Xtime, GfAdd;
    var x1 := Xtime(x);
    var x2 := Xtime(x1);
    var x3 := Xtime(x2);
    var x4 := Xtime(x3);
    MulEAdd(x1, x);
    GfAssoc(x4, x3, x2);
    GfComm(x4, GfAdd(x3, x2));
    GfCommon(GfAdd(x3, x2), x4, x1);
    GfTwice(GfAdd(x4, x1), x2);
    GfComm(MulD(x), Mul9(x));
    GfTwice(Mul9(x), x2);
    GfZero(x2);
  }

  lemma InverseCoefficient2(x: bv8)
    ensures GfSum(MulE(x), MulB(Mul3(x)), MulD(Xtime(x)), Mul9(x)) == 0
  {
    hide Xtime, GfAdd, Mul9;
    var x1 := Xtime(x);
    var x2 := Xtime(x1);
    var x3 := Xtime(x2);
    var m, n, v := Mul9(x1), Mul9(x), GfAdd(x2, x1);
    MulBAdd(x1, x);
    GfPairs(m, x2, n, x1);
    GfAssoc(m, x3, n);
    GfComm(x3, n);
    GfAssoc(m, n, x3);
    GfAssoc(x3, x2, x1);
    GfComm(x3, v);
    GfComm(GfAdd(m, n), v);
    GfCommon(v, x3, GfAdd(m, n));
    GfComm(x3, GfAdd(m, n));
    GfZero(GfAdd(GfAdd(m, n), x3));
  }

  lemma InverseCoefficient3(x: bv8)
    ensures GfSum(MulE(x), MulB(x), MulD(Mul3(x)), Mul9(Xtime(x))) == 0
  {
    hide Xtime, GfAdd, Mul9;
    var x1 := Xtime(x);
    var x2 := Xtime(x1);
    var x3 := Xtime(x2);
    var m, n, w := Mul9(x1), Mul9(x), GfAdd(x3, x2);
    MulDAdd(x1, x);
    GfPairs(m, x3, n, x2);
    GfAssoc(m, n, w);
    GfComm(GfAdd(m, GfAdd(n, w)), m);
    GfTwice(m, GfAdd(n, w));
    GfComm(w, x1);
    GfComm(n, x1);
    GfCommon(x1, w, n);
    GfComm(w, n);
    GfZero(GfAdd(n, w));
  }

  lemma InverseMatrixRow(a: bv8, b: bv8, c: bv8, d: bv8)
    ensures InvMixRow(MixRow(a, b, c, d), MixRow(b, c, d, a), MixRow(c, d, a, b), MixRow(d, a, b, c)) == a
  {
    hide GfAdd, GfSum, Xtime, Mul3, Mul9, MulB, MulD, MulE;
    MulESum(Xtime(a), Mul3(b), c, d);
    GfRotate(a, Xtime(b), Mul3(c), d);
    MulBSum(a, Xtime(b), Mul3(c), d);
    GfRotate(a, b, Xtime(c), Mul3(d));
    GfRotate(b, Xtime(c), Mul3(d), a);
    MulDSum(a, b, Xtime(c), Mul3(d));
    GfRotate(Xtime(d), Mul3(a), b, c);
    Mul9Sum(Mul3(a), b, c, Xtime(d));
    GfTranspose(MulE(Xtime(a)), MulE(Mul3(b)), MulE(c), MulE(d), MulB(a), MulB(Xtime(b)), MulB(Mul3(c)), MulB(d),
                MulD(a), MulD(b), MulD(Xtime(c)), MulD(Mul3(d)), Mul9(Mul3(a)), Mul9(b), Mul9(c), Mul9(Xtime(d)));
    InverseCoefficient0(a);
    InverseCoefficient1(b);
    InverseCoefficient2(c);
    InverseCoefficient3(d);
    GfUnit(a);
  }

  lemma GfUnit(a: bv8)
    ensures GfSum(a, 0, 0, 0) == a
  {
    hide GfAdd;
    GfZero(a);
    GfZero(0);
  }

  lemma InvMixRowAdd(a: bv8, b: bv8, c: bv8, d: bv8, a': bv8, b': bv8, c': bv8, d': bv8)
    ensures InvMixRow(GfAdd(a, a'), GfAdd(b, b'), GfAdd(c, c'), GfAdd(d, d'))
         == GfAdd(InvMixRow(a, b, c, d), InvMixRow(a', b', c', d'))
  {
    hide GfAdd, GfSum, Mul9, MulB, MulD, MulE;
    MulEAdd(a, a');
    MulBAdd(b, b');
    MulDAdd(c, c');
    Mul9Add(d, d');
    GfRows(MulE(a), MulB(b), MulD(c), Mul9(d), MulE(a'), MulB(b'), MulD(c'), Mul9(d'));
  }

  // ----- S-boxes -----

  // The S-box, entry by entry as in the low byte of table Te4_0.
  function Sub(x: bv8): bv8 {
    if x < 0x04 then (if x & 2 == 0 then if x & 1 == 0 then 0x63 else 0x7c else if x & 1 == 0 then 0x77 else 0x7b)
    else if x < 0x08 then (if x & 2 == 0 then if x & 1 == 0 then 0xf2 else 0x6b else if x & 1 == 0 then 0x6f else 0xc5)
    else if x < 0x0c then (if x & 2 == 0 then if x & 1 == 0 then 0x30 else 0x01 else if x & 1 == 0 then 0x67 else 0x2b)
    else if x < 0x10 then (if x & 2 == 0 then if x & 1 == 0 then 0xfe else 0xd7 else if x & 1 == 0 then 0xab else 0x76)
    else if x < 0x14 then (if x & 2 == 0 then if x & 1 == 0 then 0xca else 0x82 else if x & 1 == 0 then 0xc9 else 0x7d)
    else if x < 0x18 then (if x & 2 == 0 then if x & 1 == 0 then 0xfa else 0x59 else if x & 1 == 0 then 0x47 else 0xf0)
    else if x < 0x1c then (if x & 2 == 0 then if x & 1 == 0 then 0xad else 0xd4 else if x & 1 == 0 then 0xa2 else 0xaf)
    else if x < 0x20 then (if x & 2 == 0 then if x & 1 == 0 then 0x9c else 0xa4 else if x & 1 == 0 then 0x72 else 0xc0)
    else if x < 0x24 then (if x & 2 == 0 then if x & 1 == 0 then 0xb7 else 0xfd else if x & 1 == 0 then 0x93 else 0x26)
    else if x < 0x28 then (if x & 2 == 0 then if x & 1 == 0 then 0x36 else 0x3f else if x & 1 == 0 then 0xf7 else 0xcc)
    else if x < 0x2c then (if x & 2 == 0 then if x & 1 == 0 then 0x34 else 0xa5 else if x & 1 == 0 then 0xe5 else 0xf1)
    else if x < 0x30 then (if x & 2 == 0 then if x & 1 == 0 then 0x71 else 0xd8 else if x & 1 == 0 then 0x31 else 0x15)
    else if x < 0x34 then (if x & 2 == 0 then if x & 1 == 0 then 0x04 else 0xc7 else if x & 1 == 0 then 0x23 else 0xc3)
    else if x < 0x38 then (if x & 2 == 0 then if x & 1 == 0 then 0x18 else 0x96 else if x & 1 == 0 then 0x05 else 0x9a)
    else if x < 0x3c then (if x & 2 == 0 then if x & 1 == 0 then 0x07 else 0x12 else if x & 1 == 0 then 0x80 else 0xe2)
    else if x < 0x40 then (if x & 2 == 0 then if x & 1 == 0 then 0xeb else 0x27 else if x & 1 == 0 then 0xb2 else 0x75)
    else if x < 0x44 then (if x & 2 == 0 then if x & 1 == 0 then 0x09 else 0x83 else if x & 1 == 0 then 0x2c else 0x1a)
    else if x < 0x48 then (if x & 2 == 0 then if x & 1 == 0 then 0x1b else 0x6e else if x & 1 == 0 then 0x5a else 0xa0)
    else if x < 0x4c then (if x & 2 == 0 then if x & 1 == 0 then 0x52 else 0x3b else if x & 1 == 0 then 0xd6 else 0xb3)
    else if x < 0x50 then (if x & 2 == 0 then if x & 1 == 0 then 0x29 else 0xe3 else if x & 1 == 0 then 0x2f else 0x84)
    else if x < 0x54 then (if x & 2 == 0 then if x & 1 == 0 then 0x53 else 0xd1 else if x & 1 == 0 then 0x00 else 0xed)
    else if x < 0x58 then (if x & 2 == 0 then if x & 1 == 0 then 0x20 else 0xfc else if x & 1 == 0 then 0xb1 else 0x5b)
    else if x < 0x5c then (if x & 2 == 0 then if x & 1 == 0 then 0x6a else 0xcb else if x & 1 == 0 then 0xbe else 0x39)
    else if x < 0x60 then (if x & 2 == 0 then if x & 1 == 0 then 0x4a else 0x4c else if x & 1 == 0 then 0x58 else 0xcf)
    else if x < 0x64 then (if x & 2 == 0 then if x & 1 == 0 then 0xd0 else 0xef else if x & 1 == 0 then 0xaa else 0xfb)
    else if x < 0x68 then (if x & 2 == 0 then if x & 1 == 0 then 0x43 else 0x4d else if x & 1 == 0 then 0x33 else 0x85)
    else if x < 0x6c then (if x & 2 == 0 then if x & 1 == 0 then 0x45 else 0xf9 else if x & 1 == 0 then 0x02 else 0x7f)
    else if x < 0x70 then (if x & 2 == 0 then if x & 1 == 0 then 0x50 else 0x3c else if x & 1 == 0 then 0x9f else 0xa8)
    else if x < 0x74 then (if x & 2 == 0 then if x & 1 == 0 then 0x51 else 0xa3 else if x & 1 == 0 then 0x40 else 0x8f)
    else if x < 0x78 then (if x & 2 == 0 then if x & 1 == 0 then 0x92 else 0x9d else if x & 1 == 0 then 0x38 else 0xf5)
    else if x < 0x7c then (if x & 2 == 0 then if x & 1 == 0 then 0xbc else 0xb6 else if x & 1 == 0 then 0xda else 0x21)
    else if x < 0x80 then (if x & 2 == 0 then if x & 1 == 0 then 0x10 else 0xff else if x & 1 == 0 then 0xf3 else 0xd2)
    else if x < 0x84 then (if x & 2 == 0 then if x & 1 == 0 then 0xcd else 0x0c else if x & 1 == 0 then 0x13 else 0xec)
    else if x < 0x88 then (if x & 2 == 0 then if x & 1 == 0 then 0x5f else 0x97 else if x & 1 == 0 then 0x44 else 0x17)
    else if x < 0x8c then (if x & 2 == 0 then if x & 1 == 0 then 0xc4 else 0xa7 else if x & 1 == 0 then 0x7e else 0x3d)
    else if x < 0x90 then (if x & 2 == 0 then if x & 1 == 0 then 0x64 else 0x5d else if x & 1 == 0 then 0x19 else 0x73)
    else if x < 0x94 then (if x & 2 == 0 then if x & 1 == 0 then 0x60 else 0x81 else if x & 1 == 0 then 0x4f else 0xdc)
    else if x < 0x98 then (if x & 2 == 0 then if x & 1 == 0 then 0x22 else 0x2a else if x & 1 == 0 then 0x90 else 0x88)
    else if x < 0x9c then (if x & 2 == 0 then if x & 1 == 0 then 0x46 else 0xee else if x & 1 == 0 then 0xb8 else 0x14)
    else if x < 0xa0 then (if x & 2 == 0 then if x & 1 == 0 then 0xde else 0x5e else if x & 1 == 0 then 0x0b else 0xdb)
    else if x < 0xa4 then (if x & 2 == 0 then if x & 1 == 0 then 0xe0 else 0x32 else if x & 1 == 0 then 0x3a else 0x0a)
    else if x < 0xa8 then (if x & 2 == 0 then if x & 1 == 0 then 0x49 else 0x06 else if x & 1 == 0 then 0x24 else 0x5c)
    else if x < 0xac then (if x & 2 == 0 then if x & 1 == 0 then 0xc2 else 0xd3 else if x & 1 == 0 then 0xac else 0x62)
    else if x < 0xb0 then (if x & 2 == 0 then if x & 1 == 0 then 0x91 else 0x95 else if x & 1 == 0 then 0xe4 else 0x79)
    else if x < 0xb4 then (if x & 2 == 0 then if x & 1 == 0 then 0xe7 else 0xc8 else if x & 1 == 0 then 0x37 else 0x6d)
    else if x < 0xb8 then (if x & 2 == 0 then if x & 1 == 0 then 0x8d else 0xd5 else if x & 1 == 0 then 0x4e else 0xa9)
    else if x < 0xbc then (if x & 2 == 0 then if x & 1 == 0 then 0x6c else 0x56 else if x & 1 == 0 then 0xf4 else 0xea)
    else if x < 0xc0 then (if x & 2 == 0 then if x & 1 == 0 then 0x65 else 0x7a else if x & 1 == 0 then 0xae else 0x08)
    else if x < 0xc4 then (if x & 2 == 0 then if x & 1 == 0 then 0xba else 0x78 else if x & 1 == 0 then 0x25 else 0x2e)
    else if x < 0xc8 then (if x & 2 == 0 then if x & 1 == 0 then 0x1c else 0xa6 else if x & 1 == 0 then 0xb4 else 0xc6)
    else if x < 0xcc then (if x & 2 == 0 then if x & 1 == 0 then 0xe8 else 0xdd else if x & 1 == 0 then 0x74 else 0x1f)
    else if x < 0xd0 then (if x & 2 == 0 then if x & 1 == 0 then 0x4b else 0xbd else if x & 1 == 0 then 0x8b else 0x8a)
    else if x < 0xd4 then (if x & 2 == 0 then if x & 1 == 0 then 0x70 else 0x3e else if x & 1 == 0 then 0xb5 else 0x66)
    else if x < 0xd8 then (if x & 2 == 0 then if x & 1 == 0 then 0x48 else 0x03 else if x & 1 == 0 then 0xf6 else 0x0e)
    else if x < 0xdc then (if x & 2 == 0 then if x & 1 == 0 then 0x61 else 0x35 else if x & 1 == 0 then 0x57 else 0xb9)
    else if x < 0xe0 then (if x & 2 == 0 then if x & 1 == 0 then 0x86 else 0xc1 else if x & 1 == 0 then 0x1d else 0x9e)
    else if x < 0xe4 then (if x & 2 == 0 then if x & 1 == 0 then 0xe1 else 0xf8 else if x & 1 == 0 then 0x98 else 0x11)
    else if x < 0xe8 then (if x & 2 == 0 then if x & 1 == 0 then 0x69 else 0xd9 else if x & 1 == 0 then 0x8e else 0x94)
    else if x < 0xec then (if x & 2 == 0 then if x & 1 == 0 then 0x9b else 0x1e else if x & 1 == 0 then 0x87 else 0xe9)
    else if x < 0xf0 then (if x & 2 == 0 then if x & 1 == 0 then 0xce else 0x55 else if x & 1 == 0 then 0x28 else 0xdf)
    else if x < 0xf4 then (if x & 2 == 0 then if x & 1 == 0 then 0x8c else 0xa1 else if x & 1 == 0 then 0x89 else 0x0d)
    else if x < 0xf8 then (if x & 2 == 0 then if x & 1 == 0 then 0xbf else 0xe6 else if x & 1 == 0 then 0x42 else 0x68)
    else if x < 0xfc then (if x & 2 == 0 then if x & 1 == 0 then 0x41 else 0x99 else if x & 1 == 0 then 0x2d else 0x0f)
    else (if x & 2 == 0 then if x & 1 == 0 then 0xb0 else 0x54 else if x & 1 == 0 then 0xbb else 0x16)
  }

  // The inverse S-box, entry by entry as in the low byte of table Td4.
  function InvSub(x: bv8): bv8 {
    if x < 0x04 then (if x & 2 == 0 then if x & 1 == 0 then 0x52 else 0x09 else if x & 1 == 0 then 0x6a else 0xd5)
    else if x < 0x08 then (if x & 2 == 0 then if x & 1 == 0 then 0x30 else 0x36 else if x & 1 == 0 then 0xa5 else 0x38)
    else if x < 0x0c then (if x & 2 == 0 then if x & 1 == 0 then 0xbf else 0x40 else if x & 1 == 0 then 0xa3 else 0x9e)
    else if x < 0x10 then (if x & 2 == 0 then if x & 1 == 0 then 0x81 else 0xf3 else if x & 1 == 0 then 0xd7 else 0xfb)
    else if x < 0x14 then (if x & 2 == 0 then if x & 1 == 0 then 0x7c else 0xe3 else if x & 1 == 0 then 0x39 else 0x82)
    else if x < 0x18 then (if x & 2 == 0 then if x & 1 == 0 then 0x9b else 0x2f else if x & 1 == 0 then 0xff else 0x87)
    else if x < 0x1c then (if x & 2 == 0 then if x & 1 == 0 then 0x34 else 0x8e else if x & 1 == 0 then 0x43 else 0x44)
    else if x < 0x20 then (if x & 2 == 0 then if x & 1 == 0 then 0xc4 else 0xde else if x & 1 == 0 then 0xe9 else 0xcb)
    else if x < 0x24 then (if x & 2 == 0 then if x & 1 == 0 then 0x54 else 0x7b else if x & 1 == 0 then 0x94 else 0x32)
    else if x < 0x28 then (if x & 2 == 0 then if x & 1 == 0 then 0xa6 else 0xc2 else if x & 1 == 0 then 0x23 else 0x3d)
    else if x < 0x2c then (if x & 2 == 0 then if x & 1 == 0 then 0xee else 0x4c else if x & 1 == 0 then 0x95 else 0x0b)
    else if x < 0x30 then (if x & 2 == 0 then if x & 1 == 0 then 0x42 else 0xfa else if x & 1 == 0 then 0xc3 else 0x4e)
    else if x < 0x34 then (if x & 2 == 0 then if x & 1 == 0 then 0x08 else 0x2e else if x & 1 == 0 then 0xa1 else 0x66)
    else if x < 0x38 then (if x & 2 == 0 then if x & 1 == 0 then 0x28 else 0xd9 else if x & 1 == 0 then 0x24 else 0xb2)
    else if x < 0x3c then (if x & 2 == 0 then if x & 1 == 0 then 0x76 else 0x5b else if x & 1 == 0 then 0xa2 else 0x49)
    else if x < 0x40 then (if x & 2 == 0 then if x & 1 == 0 then 0x6d else 0x8b else if x & 1 == 0 then 0xd1 else 0x25)
    else if x < 0x44 then (if x & 2 == 0 then if x & 1 == 0 then 0x72 else 0xf8 else if x & 1 == 0 then 0xf6 else 0x64)
    else if x < 0x48 then (if x & 2 == 0 then if x & 1 == 0 then 0x86 else 0x68 else if x & 1 == 0 then 0x98 else 0x16)
    else if x < 0x4c then (if x & 2 == 0 then if x & 1 == 0 then 0xd4 else 0xa4 else if x & 1 == 0 then 0x5c else 0xcc)
    else if x < 0x50 then (if x & 2 == 0 then if x & 1 == 0 then 0x5d else 0x65 else if x & 1 == 0 then 0xb6 else 0x92)
    else if x < 0x54 then (if x & 2 == 0 then if x & 1 == 0 then 0x6c else 0x70 else if x & 1 == 0 then 0x48 else 0x50)
    else if x < 0x58 then (if x & 2 == 0 then if x & 1 == 0 then 0xfd else 0xed else if x & 1 == 0 then 0xb9 else 0xda)
    else if x < 0x5c then (if x & 2 == 0 then if x & 1 == 0 then 0x5e else 0x15 else if x & 1 == 0 then 0x46 else 0x57)
    else if x < 0x60 then (if x & 2 == 0 then if x & 1 == 0 then 0xa7 else 0x8d else if x & 1 == 0 then 0x9d else 0x84)
    else if x < 0x64 then (if x & 2 == 0 then if x & 1 == 0 then 0x90 else 0xd8 else if x & 1 == 0 then 0xab else 0x00)
    else if x < 0x68 then (if x & 2 == 0 then if x & 1 == 0 then 0x8c else 0xbc else if x & 1 == 0 then 0xd3 else 0x0a)
    else if x < 0x6c then (if x & 2 == 0 then if x & 1 == 0 then 0xf7 else 0xe4 else if x & 1 == 0 then 0x58 else 0x05)
    else if x < 0x70 then (if x & 2 == 0 then if x & 1 == 0 then 0xb8 else 0xb3 else if x & 1 == 0 then 0x45 else 0x06)
    else if x < 0x74 then (if x & 2 == 0 then if x & 1 == 0 then 0xd0 else 0x2c else if x & 1 == 0 then 0x1e else 0x8f)
    else if x < 0x78 then (if x & 2 == 0 then if x & 1 == 0 then 0xca else 0x3f else if x & 1 == 0 then 0x0f else 0x02)
    else if x < 0x7c then (if x & 2 == 0 then if x & 1 == 0 then 0xc1 else 0xaf else if x & 1 == 0 then 0xbd else 0x03)
    else if x < 0x80 then (if x & 2 == 0 then if x & 1 == 0 then 0x01 else 0x13 else if x & 1 == 0 then 0x8a else 0x6b)
    else if x < 0x84 then (if x & 2 == 0 then if x & 1 == 0 then 0x3a else 0x91 else if x & 1 == 0 then 0x11 else 0x41)
    else if x < 0x88 then (if x & 2 == 0 then if x & 1 == 0 then 0x4f else 0x67 else if x & 1 == 0 then 0xdc else 0xea)
    else if x < 0x8c then (if x & 2 == 0 then if x & 1 == 0 then 0x97 else 0xf2 else if x & 1 == 0 then 0xcf else 0xce)
    else if x < 0x90 then (if x & 2 == 0 then if x & 1 == 0 then 0xf0 else 0xb4 else if x & 1 == 0 then 0xe6 else 0x73)
    else if x < 0x94 then (if x & 2 == 0 then if x & 1 == 0 then 0x96 else 0xac else if x & 1 == 0 then 0x74 else 0x22)
    else if x < 0x98 then (if x & 2 == 0 then if x & 1 == 0 then 0xe7 else 0xad else if x & 1 == 0 then 0x35 else 0x85)
    else if x < 0x9c then (if x & 2 == 0 then if x & 1 == 0 then 0xe2 else 0xf9 else if x & 1 == 0 then 0x37 else 0xe8)
    else if x < 0xa0 then (if x & 2 == 0 then if x & 1 == 0 then 0x1c else 0x75 else if x & 1 == 0 then 0xdf else 0x6e)
    else if x < 0xa4 then (if x & 2 == 0 then if x & 1 == 0 then 0x47 else 0xf1 else if x & 1 == 0 then 0x1a else 0x71)
    else if x < 0xa8 then (if x & 2 == 0 then if x & 1 == 0 then 0x1d else 0x29 else if x & 1 == 0 then 0xc5 else 0x89)
    else if x < 0xac then (if x & 2 == 0 then if x & 1 == 0 then 0x6f else 0xb7 else if x & 1 == 0 then 0x62 else 0x0e)
    else if x < 0xb0 then (if x & 2 == 0 then if x & 1 == 0 then 0xaa else 0x18 else if x & 1 == 0 then 0xbe else 0x1b)
    else if x < 0xb4 then (if x & 2 == 0 then if x & 1 == 0 then 0xfc else 0x56 else if x & 1 == 0 then 0x3e else 0x4b)
    else if x < 0xb8 then (if x & 2 == 0 then if x & 1 == 0 then 0xc6 else 0xd2 else if x & 1 == 0 then 0x79 else 0x20)
    else if x < 0xbc then (if x & 2 == 0 then if x & 1 == 0 then 0x9a else 0xdb else if x & 1 == 0 then 0xc0 else 0xfe)
    else if x < 0xc0 then (if x & 2 == 0 then if x & 1 == 0 then 0x78 else 0xcd else if x & 1 == 0 then 0x5a else 0xf4)
    else if x < 0xc4 then (if x & 2 == 0 then if x & 1 == 0 then 0x1f else 0xdd else if x & 1 == 0 then 0xa8 else 0x33)
    else if x < 0xc8 then (if x & 2 == 0 then if x & 1 == 0 then 0x88 else 0x07 else if x & 1 == 0 then 0xc7 else 0x31)
    else if x < 0xcc then (if x & 2 == 0 then if x & 1 == 0 then 0xb1 else 0x12 else if x & 1 == 0 then 0x10 else 0x59)
    else if x < 0xd0 then (if x & 2 == 0 then if x & 1 == 0 then 0x27 else 0x80 else if x & 1 == 0 then 0xec else 0x5f)
    else if x < 0xd4 then (if x & 2 == 0 then if x & 1 == 0 then 0x60 else 0x51 else if x & 1 == 0 then 0x7f else 0xa9)
    else if x < 0xd8 then (if x & 2 == 0 then if x & 1 == 0 then 0x19 else 0xb5 else if x & 1 == 0 then 0x4a else 0x0d)
    else if x < 0xdc then (if x & 2 == 0 then if x & 1 == 0 then 0x2d else 0xe5 else if x & 1 == 0 then 0x7a else 0x9f)
    else if x < 0xe0 then (if x & 2 == 0 then if x & 1 == 0 then 0x93 else 0xc9 else if x & 1 == 0 then 0x9c else 0xef)
    else if x < 0xe4 then (if x & 2 == 0 then if x & 1 == 0 then 0xa0 else 0xe0 else if x & 1 == 0 then 0x3b else 0x4d)
    else if x < 0xe8 then (if x & 2 == 0 then if x & 1 == 0 then 0xae else 0x2a else if x & 1 == 0 then 0xf5 else 0xb0)
    else if x < 0xec then (if x & 2 == 0 then if x & 1 == 0 then 0xc8 else 0xeb else if x & 1 == 0 then 0xbb else 0x3c)
    else if x < 0xf0 then (if x & 2 == 0 then if x & 1 == 0 then 0x83 else 0x53 else if x & 1 == 0 then 0x99 else 0x61)
    else if x < 0xf4 then (if x & 2 == 0 then if x & 1 == 0 then 0x17 else 0x2b else if x & 1 == 0 then 0x04 else 0x7e)
    else if x < 0xf8 then (if x & 2 == 0 then if x & 1 == 0 then 0xba else 0x77 else if x & 1 == 0 then 0xd6 else 0x26)
    else if x < 0xfc then (if x & 2 == 0 then if x & 1 == 0 then 0xe1 else 0x69 else if x & 1 == 0 then 0x14 else 0x63)
    else (if x & 2 == 0 then if x & 1 == 0 then 0x55 else 0x21 else if x & 1 == 0 then 0x0c else 0x7d)
  }

  lemma InvSubSub(x: bv8)
    ensures InvSub(Sub(x)) == x
  {
  }

  // ----- Columns -----

  function SubWord(w: bv32): bv32 {
    Word(Sub(Byte3(w)), Sub(Byte2(w)), Sub(Byte1(w)), Sub(Byte0(w)))
  }

  function InvSubWord(w: bv32): bv32 {
    Word(InvSub(Byte3(w)), InvSub(Byte2(w)), InvSub(Byte1(w)), InvSub(Byte0(w)))
  }

  // One column of MixColumns, as the matrix product of section 5.1.3 of FIPS 197.
  function MixColumn(w: bv32): bv32 {
    var a, b, c, d := Byte3(w), Byte2(w), Byte1(w), Byte0(w);
    Word(MixRow(a, b, c, d), MixRow(b, c, d, a), MixRow(c, d, a, b), MixRow(d, a, b, c))
  }

  // One column of InvMixColumns, as the matrix product of section 5.3.3 of FIPS 197.
  function InvMixColumn(w: bv32): bv32 {
    var a, b, c, d := Byte3(w), Byte2(w), Byte1(w), Byte0(w);
    Word(InvMixRow(a, b, c, d), InvMixRow(b, c, d, a), InvMixRow(c, d, a, b), InvMixRow(d, a, b, c))
  }

  lemma InvMixColumnXor(u: bv32, v: bv32)
    ensures InvMixColumn(Xor(u, v)) == Xor(InvMixColumn(u), InvMixColumn(v))
  {
    hide Byte0, Byte1, Byte2, Byte3, Word, Xor, GfAdd, InvMixRow;
    var a, b, c, d := Byte3(u), Byte2(u), Byte1(u), Byte0(u);
    var a', b', c', d' := Byte3(v), Byte2(v), Byte1(v), Byte0(v);
    XorByte3(u, v);
    XorByte2(u, v);
    XorByte1(u, v);
    XorByte0(u, v);
    InvMixRowAdd(a, b, c, d, a', b', c', d');
    InvMixRowAdd(b, c, d, a, b', c', d', a');
    InvMixRowAdd(c, d, a, b, c', d', a', b');
    InvMixRowAdd(d, a, b, c, d', a', b', c');
    WordXor(InvMixRow(a, b, c, d), InvMixRow(b, c, d, a), InvMixRow(c, d, a, b), InvMixRow(d, a, b, c),
            InvMixRow(a', b', c', d'), InvMixRow(b', c', d', a'), InvMixRow(c', d', a', b'), InvMixRow(d', a', b', c'));
  }

  lemma InvMixMixColumn(w: bv32)
    ensures InvMixColumn(MixColumn(w)) == w
  {
    hide Byte0, Byte1, Byte2, Byte3, Word, MixRow, InvMixRow;
    var a, b, c, d := Byte3(w), Byte2(w), Byte1(w), Byte0(w);
    WordOfBytes(w);
    WordBytes(MixRow(a, b, c, d), MixRow(b, c, d, a), MixRow(c, d, a, b), MixRow(d, a, b, c));
    InverseMatrixRow(a, b, c, d);
    InverseMatrixRow(b, c, d, a);
    InverseMatrixRow(c, d, a, b);
    InverseMatrixRow(d, a, b, c);
  }

  lemma InvSubSubWord(w: bv32)
    ensures InvSubWord(SubWord(w)) == w
  {
    hide Byte0, Byte1, Byte2, Byte3, Word, Sub, InvSub;
    var a, b, c, d := Byte3(w), Byte2(w), Byte1(w), Byte0(w);
    WordOfBytes(w);
    WordBytes(Sub(a), Sub(b), Sub(c), Sub(d));
    InvSubSub(a);
    InvSubSub(b);
    InvSubSub(c);
    InvSubSub(d);
  }

  // ----- Round tables: Te0[x] = S[x].[02, 01, 01, 03] and so on -----

  function Te0(x: bv8): bv32 { Word(Xtime(Sub(x)), Sub(x), Sub(x), Mul3(Sub(x))) }

  function Te1(x: bv8): bv32 { Word(Mul3(Sub(x)), Xtime(Sub(x)), Sub(x), Sub(x)) }

  function Te2(x: bv8): bv32 { Word(Sub(x), Mul3(Sub(x)), Xtime(Sub(x)), Sub(x)) }

  function Te3(x: bv8): bv32 { Word(Sub(x), Sub(x), Mul3(Sub(x)), Xtime(Sub(x))) }

  // Tables Te4_3 .. Te4_0: the S-box in one byte of the word.
  function Te4At3(x: bv8): bv32 { Word(Sub(x), 0, 0, 0) }

  function Te4At2(x: bv8): bv32 { Word(0, Sub(x), 0, 0) }

  function Te4At1(x: bv8): bv32 { Word(0, 0, Sub(x), 0) }

  function Te4At0(x: bv8): bv32 { Word(0, 0, 0, Sub(x)) }

  // Tables Tks0 .. Tks3: one byte times a column of the InvMixColumns matrix.
  function Tks0(x: bv8): bv32 { Word(MulE(x), Mul9(x), MulD(x), MulB(x)) }

  function Tks1(x: bv8): bv32 { Word(MulB(x), MulE(x), Mul9(x), MulD(x)) }

  function Tks2(x: bv8): bv32 { Word(MulD(x), MulB(x), MulE(x), Mul9(x)) }

  function Tks3(x: bv8): bv32 { Word(Mul9(x), MulD(x), MulB(x), MulE(x)) }

  // Tables Td0 .. Td3: Td0[x] = Si[x].[0e, 09, 0d, 0b] and so on.
  function Td0(x: bv8): bv32 { Tks0(InvSub(x)) }

  function Td1(x: bv8): bv32 { Tks1(InvSub(x)) }

  function Td2(x: bv8): bv32 { Tks2(InvSub(x)) }

  function Td3(x: bv8): bv32 { Tks3(InvSub(x)) }

  // Table Td4: the inverse S-box in each byte of the word.
  function Td4(x: bv8): bv32 { Word(InvSub(x), InvSub(x), InvSub(x), InvSub(x)) }

  // The bytes of four columns taken along a diagonal.
  function Diagonal(a: bv32, b: bv32, c: bv32, d: bv32): bv32 {
    Word(Byte3(a), Byte2(b), Byte1(c), Byte0(d))
  }

  // One word of a table-driven encryption round.
  function EncryptColumn(a: bv32, b: bv32, c: bv32, d: bv32, key: bv32): bv32 {
    Xor(Xor(Xor(Xor(Te0(Byte3(a)), Te1(Byte2(b))), Te2(Byte1(c))), Te3(Byte0(d))), key)
  }

  // One word of the last encryption round.
  function EncryptLast(a: bv32, b: bv32, c: bv32, d: bv32, key: bv32): bv32 {
    Xor(Xor(Xor(Xor(Te4At3(Byte3(a)), Te4At2(Byte2(b))), Te4At1(Byte1(c))), Te4At0(Byte0(d))), key)
  }

  // One word of a table-driven decryption round.
  function DecryptColumn(a: bv32, b: bv32, c: bv32, d: bv32, key: bv32): bv32 {
    Xor(Xor(Xor(Xor(Td0(Byte3(a)), Td1(Byte2(b))), Td2(Byte1(c))), Td3(Byte0(d))), key)
  }

  // One word of the last decryption round.
  function DecryptLast(a: bv32, b: bv32, c: bv32, d: bv32, key: bv32): bv32 {
    Xor(Xor(Xor(Xor(Td4(Byte3(a)) & 0xff000000, Td4(Byte2(b)) & 0x00ff0000),
                Td4(Byte1(c)) & 0x0000ff00), Td4(Byte0(d)) & 0x000000ff), key)
  }

  // The transformation of one word of an inner decryption round key.
  function InverseKeyWord(w: bv32): bv32 {
    Xor(Xor(Xor(Tks0(Byte3(w)), Tks1(Byte2(w))), Tks2(Byte1(w))), Tks3(Byte0(w)))
  }

  // Function setup_mix of the key schedule.
  function SetupMix(w: bv32): bv32 {
    Xor(Xor(Xor(Te4At3(Byte2(w)), Te4At2(Byte1(w))), Te4At1(Byte0(w))), Te4At0(Byte3(w)))
  }

  // ----- What the tables compute -----

  lemma GfLeft(a: bv8, b: bv8, c: bv8, d: bv8)
    ensures GfAdd(GfAdd(GfAdd(a, b), c), d) == GfSum(a, b, c, d)
  {
    hide GfAdd;
    GfAssoc(GfAdd(a, b), c, d);
  }

  // Four words added byte by byte.
  lemma WordXor4(a0: bv8, a1: bv8, a2: bv8, a3: bv8, b0: bv8, b1: bv8, b2: bv8, b3: bv8,
                 c0: bv8, c1: bv8, c2: bv8, c3: bv8, d0: bv8, d1: bv8, d2: bv8, d3: bv8)
    ensures Xor(Xor(Xor(Word(a0, a1, a2, a3), Word(b0, b1, b2, b3)), Word(c0, c1, c2, c3)), Word(d0, d1, d2, d3))
         == Word(GfSum(a0, b0, c0, d0), GfSum(a1, b1, c1, d1), GfSum(a2, b2, c2, d2), GfSum(a3, b3, c3, d3))
  {
    hide Xor, Word, GfAdd, GfSum;
    WordXor(a0, a1, a2, a3, b0, b1, b2, b3);
    WordXor(GfAdd(a0, b0), GfAdd(a1, b1), GfAdd(a2, b2), GfAdd(a3, b3), c0, c1, c2, c3);
    WordXor(GfAdd(GfAdd(a0, b0), c0), GfAdd(GfAdd(a1, b1), c1), GfAdd(GfAdd(a2, b2), c2), GfAdd(GfAdd(a3, b3), c3),
            d0, d1, d2, d3);
    GfLeft(a0, b0, c0, d0);
    GfLeft(a1, b1, c1, d1);
    GfLeft(a2, b2, c2, d2);
    GfLeft(a3, b3, c3, d3);
  }

  // A word holding one byte in each of four words is their sum.
  lemma WordOfParts(a: bv8, b: bv8, c: bv8, d: bv8)
    ensures Xor(Xor(Xor(Word(a, 0, 0, 0), Word(0, b, 0, 0)), Word(0, 0, c, 0)), Word(0, 0, 0, d)) == Word(a, b, c, d)
  {
    hide Xor, Word, GfAdd;
    WordXor4(a, 0, 0, 0, 0, b, 0, 0, 0, 0, c, 0, 0, 0, 0, d);
    GfZero(a);
    GfZero(b);
    GfZero(c);
    GfZero(d);
    GfZero(0);
  }

  lemma TableMixColumn(p: bv8, q: bv8, r: bv8, t: bv8)
    ensures Xor(Xor(Xor(Word(Xtime(p), p, p, Mul3(p)), Word(Mul3(q), Xtime(q), q, q)),
                    Word(r, Mul3(r), Xtime(r), r)), Word(t, t, Mul3(t), Xtime(t)))
         == MixColumn(Word(p, q, r, t))
  {
    hide Byte0, Byte1, Byte2, Byte3, Word, Xor, GfAdd, GfSum, Xtime, Mul3;
    WordXor4(Xtime(p), p, p, Mul3(p), Mul3(q), Xtime(q), q, q, r, Mul3(r), Xtime(r), r, t, t, Mul3(t), Xtime(t));
    WordBytes(p, q, r, t);
    GfRotate(p, Xtime(q), Mul3(r), t);
    GfRotate(p, q, Xtime(r), Mul3(t));
    GfRotate(q, Xtime(r), Mul3(t), p);
    GfRotate(Xtime(t), Mul3(p), q, r);
  }

  lemma TableInvMixColumn(p: bv8, q: bv8, r: bv8, t: bv8)
    ensures Xor(Xor(Xor(Tks0(p), Tks1(q)), Tks2(r)), Tks3(t)) == InvMixColumn(Word(p, q, r, t))
  {
    hide Byte0, Byte1, Byte2, Byte3, Word, Xor, GfAdd, GfSum, Mul9, MulB, MulD, MulE;
    WordXor4(MulE(p), Mul9(p), MulD(p), MulB(p), MulB(q), MulE(q), Mul9(q), MulD(q),
             MulD(r), MulB(r), MulE(r), Mul9(r), Mul9(t), MulD(t), MulB(t), MulE(t));
    WordBytes(p, q, r, t);
    GfRotate(Mul9(p), MulE(q), MulB(r), MulD(t));
    GfRotate(MulD(p), Mul9(q), MulE(r), MulB(t));
    GfRotate(Mul9(q), MulE(r), MulB(t), MulD(p));
    GfRotate(MulE(t), MulB(p), MulD(q), Mul9(r));
  }

  // A table-driven encryption word is SubBytes, ShiftRows, MixColumns and AddRoundKey.
  lemma EncryptColumnIsRound(a: bv32, b: bv32, c: bv32, d: bv32, key: bv32)
    ensures EncryptColumn(a, b, c, d, key) == Xor(MixColumn(SubWord(Diagonal(a, b, c, d))), key)
  {
    hide Byte0, Byte1, Byte2, Byte3, Word, Xor, Sub, Xtime, Mul3, MixColumn;
    WordBytes(Byte3(a), Byte2(b), Byte1(c), Byte0(d));
    TableMixColumn(Sub(Byte3(a)), Sub(Byte2(b)), Sub(Byte1(c)), Sub(Byte0(d)));
  }

  lemma EncryptLastIsRound(a: bv32, b: bv32, c: bv32, d: bv32, key: bv32)
    ensures EncryptLast(a, b, c, d, key) == Xor(SubWord(Diagonal(a, b, c, d)), key)
  {
    hide Byte0, Byte1, Byte2, Byte3, Word, Xor, Sub;
    WordBytes(Byte3(a), Byte2(b), Byte1(c), Byte0(d));
    WordOfParts(Sub(Byte3(a)), Sub(Byte2(b)), Sub(Byte1(c)), Sub(Byte0(d)));
  }

  // A table-driven decryption word is InvSubBytes, InvShiftRows, InvMixColumns and AddRoundKey.
  lemma DecryptColumnIsRound(a: bv32, b: bv32, c: bv32, d: bv32, key: bv32)
    ensures DecryptColumn(a, b, c, d, key) == Xor(InvMixColumn(InvSubWord(Diagonal(a, b, c, d))), key)
  {
    hide Byte0, Byte1, Byte2, Byte3, Word, Xor, InvSub, Tks0, Tks1, Tks2, Tks3, InvMixColumn;
    WordBytes(Byte3(a), Byte2(b), Byte1(c), Byte0(d));
    TableInvMixColumn(InvSub(Byte3(a)), InvSub(Byte2(b)), InvSub(Byte1(c)), InvSub(Byte0(d)));
  }

  lemma MaskedWord(p: bv8, q: bv8, r: bv8, t: bv8)
    ensures Word(p, p, p, p) & 0xff000000 == Word(p, 0, 0, 0)
    ensures Word(q, q, q, q) & 0x00ff0000 == Word(0, q, 0, 0)
    ensures Word(r, r, r, r) & 0x0000ff00 == Word(0, 0, r, 0)
    ensures Word(t, t, t, t) & 0x000000ff == Word(0, 0, 0, t)
  {
  }

  lemma DecryptLastIsRound(a: bv32, b: bv32, c: bv32, d: bv32, key: bv32)
    ensures DecryptLast(a, b, c, d, key) == Xor(InvSubWord(Diagonal(a, b, c, d)), key)
  {
    hide Byte0, Byte1, Byte2, Byte3, Word, Xor, InvSub;
    var p, q, r, t := InvSub(Byte3(a)), InvSub(Byte2(b)), InvSub(Byte1(c)), InvSub(Byte0(d));
    WordBytes(Byte3(a), Byte2(b), Byte1(c), Byte0(d));
    MaskedWord(p, q, r, t);
    WordOfParts(p, q, r, t);
  }

  lemma InverseKeyWordIsInvMixColumn(w: bv32)
    ensures InverseKeyWord(w) == InvMixColumn(w)
  {
    hide Byte0, Byte1, Byte2, Byte3, Word, Xor, Tks0, Tks1, Tks2, Tks3, InvMixColumn;
    TableInvMixColumn(Byte3(w), Byte2(w), Byte1(w), Byte0(w));
    WordOfBytes(w);
  }

  // RotWord of section 5.2 of FIPS 197: [a0, a1, a2, a3] becomes [a1, a2, a3, a0].
  function RotWord(w: bv32): bv32 {
    Word(Byte2(w), Byte1(w), Byte0(w), Byte3(w))
  }

  lemma SetupMixIsSubRot(w: bv32)
    ensures SetupMix(w) == SubWord(RotWord(w))
  {
    hide Byte0, Byte1, Byte2, Byte3, Word, Xor, Sub;
    WordBytes(Byte2(w), Byte1(w), Byte0(w), Byte3(w));
    WordOfParts(Sub(Byte2(w)), Sub(Byte1(w)), Sub(Byte0(w)), Sub(Byte3(w)));
  }

  lemma RotateRightUndoesRotWord(w: bv32)
    ensures RotWord(RotateRight8(w)) == w
  {
  }

  // The extra step of 256-bit keys: rotating right first leaves SubWord alone.
  lemma SetupMixOfRotated(w: bv32)
    ensures SetupMix(RotateRight8(w)) == SubWord(w)
  {
    hide RotateRight8, RotWord, SubWord, SetupMix;
    SetupMixIsSubRot(RotateRight8(w));
    RotateRightUndoesRotWord(w);
  }
}
