/**
  Examples of FIPS 197: words of the key schedules of appendix A, and rounds of the cipher
  of appendix B.
 */
module AesExample {
  import opened AesTables
  import opened AesCipher

  // Appendix A.1: word 4 of the schedule of a 128-bit key.
  lemma WordOf128(w: seq<bv32>)
    requires w == [0x2b7e1516, 0x28aed2a6, 0xabf71588, 0x09cf4f3c]
    ensures ScheduleValue(w, 4) == 0xa0fafe17
  {
    assert Rcon(1) == 1;
  }

  // Appendix A.2: word 6 of the schedule of a 192-bit key.
  lemma WordOf192(w: seq<bv32>)
    requires w == [0x8e73b0f7, 0xda0e6452, 0xc810f32b, 0x809079e5, 0x62f8ead2, 0x522c6b7b]
    ensures ScheduleValue(w, 6) == 0xfe0c91f7
  {
    assert Rcon(1) == 1;
  }

  // Appendix A.3: word 12 of the schedule of a 256-bit key.
  lemma WordOf256(w: seq<bv32>)
    requires w == [0x603deb10, 0x15ca71be, 0x2b73aef0, 0x857d7781, 0x1f352c07, 0x3b6108d7,
                  0x2d9810a3, 0x0914dff4, 0x9ba35411, 0x8e6925af, 0xa51a8b5f, 0x2067fcde]
    ensures ScheduleValue(w, 8) == 0xa8b09c1a
  {
  }

  // The bytes of a block, column by column.
  lemma FirstState(b: seq<bv8>)
    requires b == [0x32, 0x43, 0xf6, 0xa8, 0x88, 0x5a, 0x30, 0x8d, 0x31, 0x31, 0x98, 0xa2, 0xe0, 0x37, 0x07, 0x34]
    ensures Load(b) == State(0x3243f6a8, 0x885a308d, 0x313198a2, 0xe0370734) && Store(Load(b)) == b
  {
    StoreLoad(b);
    hide Store;
  }

  // Appendix B: round 1.
  lemma FirstRound()
    ensures Round(State(0x193de3be, 0xa0f4e22b, 0x9ac68d2a, 0xe9f84808),
                  State(0xa0fafe17, 0x88542cb1, 0x23a33939, 0x2a6c7605))
         == State(0xa49c7ff2, 0x689f352b, 0x6b5bea43, 0x026a5049)
  {
    FirstSubstitution();
    FirstMixColumns();
    hide SubBytes, ShiftRows, MixColumns;
  }

  lemma FirstSubstitution()
    ensures ShiftRows(SubBytes(State(0x193de3be, 0xa0f4e22b, 0x9ac68d2a, 0xe9f84808)))
         == State(0xd4bf5d30, 0xe0b452ae, 0xb84111f1, 0x1e2798e5)
  {
  }

  lemma FirstMixColumns()
    ensures MixColumns(State(0xd4bf5d30, 0xe0b452ae, 0xb84111f1, 0x1e2798e5))
         == State(0x046681e5, 0xe0cb199a, 0x48f8d37a, 0x2806264c)
  {
  }

  // Appendix B: the last round.
  lemma LastRound()
    ensures AddRoundKey(ShiftRows(SubBytes(State(0xeb40f21e, 0x592e3884, 0x8ba113e7, 0x1bc342d2))),
                        State(0xd014f9a8, 0xc9ee2589, 0xe13f0cc8, 0xb6630ca6))
         == State(0x3925841d, 0x02dc09fb, 0xdc118597, 0x196a0b32)
  {
  }
}
