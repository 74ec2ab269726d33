/**
  The AES cipher as FIPS 197 describes it, round by round: the key schedule
  recurrence, the cipher, the straightforward inverse cipher and the equivalent
  inverse cipher with transformed round keys. The class in Aes.dfy is proved
  against these definitions.
 */
module AesCipher {
  import opened AesTables

  // The four columns of the cipher state.
  datatype State = State(c0: bv32, c1: bv32, c2: bv32, c3: bv32)

  function AddRoundKey(s: State, k: State): State {
    State(Xor(s.c0, k.c0), Xor(s.c1, k.c1), Xor(s.c2, k.c2), Xor(s.c3, k.c3))
  }

  function SubBytes(s: State): State {
    State(SubWord(s.c0), SubWord(s.c1), SubWord(s.c2), SubWord(s.c3))
  }

  function InvSubBytes(s: State): State {
    State(InvSubWord(s.c0), InvSubWord(s.c1), InvSubWord(s.c2), InvSubWord(s.c3))
  }

  function ShiftRows(s: State): State {
    State(Diagonal(s.c0, s.c1, s.c2, s.c3), Diagonal(s.c1, s.c2, s.c3, s.c0),
          Diagonal(s.c2, s.c3, s.c0, s.c1), Diagonal(s.c3, s.c0, s.c1, s.c2))
  }

  function InvShiftRows(s: State): State {
    State(Diagonal(s.c0, s.c3, s.c2, s.c1), Diagonal(s.c1, s.c0, s.c3, s.c2),
          Diagonal(s.c2, s.c1, s.c0, s.c3), Diagonal(s.c3, s.c2, s.c1, s.c0))
  }

  function MixColumns(s: State): State {
    State(MixColumn(s.c0), MixColumn(s.c1), MixColumn(s.c2), MixColumn(s.c3))
  }

  function InvMixColumns(s: State): State {
    State(InvMixColumn(s.c0), InvMixColumn(s.c1), InvMixColumn(s.c2), InvMixColumn(s.c3))
  }

  // ----- Blocks of sixteen bytes -----

  function WordAt(b: seq<bv8>, i: nat): bv32
    requires i + 4 <= |b|
  {
    Word(b[i], b[i + 1], b[i + 2], b[i + 3])
  }

  function Load(b: seq<bv8>): State
    requires |b| == 16
  {
    State(WordAt(b, 0), WordAt(b, 4), WordAt(b, 8), WordAt(b, 12))
  }

  function WordBytesOf(w: bv32): (b: seq<bv8>)
    ensures |b| == 4
  {
    [Byte3(w), Byte2(w), Byte1(w), Byte0(w)]
  }

  function Store(s: State): (b: seq<bv8>)
    ensures |b| == 16
  {
    WordBytesOf(s.c0) + WordBytesOf(s.c1) + WordBytesOf(s.c2) + WordBytesOf(s.c3)
  }

  lemma LoadStore(s: State)
    ensures Load(Store(s)) == s
  {
    hide Byte0, Byte1, Byte2, Byte3, Word;
    WordOfBytes(s.c0);
    WordOfBytes(s.c1);
    WordOfBytes(s.c2);
    WordOfBytes(s.c3);
  }

  lemma StoreLoad(b: seq<bv8>)
    requires |b| == 16
    ensures Store(Load(b)) == b
  {
    hide Byte0, Byte1, Byte2, Byte3, Word;
    WordBytes(b[0], b[1], b[2], b[3]);
    WordBytes(b[4], b[5], b[6], b[7]);
    WordBytes(b[8], b[9], b[10], b[11]);
    WordBytes(b[12], b[13], b[14], b[15]);
  }

  // ----- Key schedule (section 5.2) -----

  function Rcon(i: nat): bv8 {
    if i == 0 then 0 else if i == 1 then 1 else Xtime(Rcon(i - 1))
  }

  // The word that follows the words w in the schedule of an nk-word key.
  function ScheduleValue(w: seq<bv32>, nk: nat): bv32
    requires 4 <= nk <= |w|
  {
    var temp := w[|w| - 1];
    Xor(w[|w| - nk],
        if |w| % nk == 0 then Xor(SubWord(RotWord(temp)), Word(Rcon(|w| / nk), 0, 0, 0))
        else if nk > 6 && |w| % nk == 4 then SubWord(temp)
        else temp)
  }

  // The words are the beginning of the schedule of the key.
  ghost predicate IsSchedule(w: seq<bv32>, key: seq<bv8>)
    requires |key| >= 16 && |key| % 4 == 0
  {
    var nk := |key| / 4;
    forall i {:trigger w[i]} :: 0 <= i < |w| ==>
      w[i] == if i < nk then WordAt(key, 4 * i) else ScheduleValue(w[..i], nk)
  }

  lemma {:induction false} ScheduleIsUnique(w: seq<bv32>, v: seq<bv32>, key: seq<bv8>)
    requires |key| >= 16 && |key| % 4 == 0
    requires |w| == |v| && IsSchedule(w, key) && IsSchedule(v, key)
    ensures w == v
  {
    hide ScheduleValue, WordAt;
    if w != [] {
      var n := |w| - 1;
      SchedulePrefix(w, key, n);
      SchedulePrefix(v, key, n);
      ScheduleIsUnique(w[..n], v[..n], key);
      assert w[n] == v[n];
      assert w == w[..n] + [w[n]] && v == v[..n] + [v[n]];
    }
  }

  lemma SchedulePrefix(w: seq<bv32>, key: seq<bv8>, n: nat)
    requires |key| >= 16 && |key| % 4 == 0 && n <= |w|
    requires IsSchedule(w, key)
    ensures IsSchedule(w[..n], key)
  {
    hide ScheduleValue, WordAt;
    forall i | 0 <= i < n ensures w[..n][..i] == w[..i] && w[..n][i] == w[i] { }
  }

  lemma AppendWord(w: seq<bv32>, x: bv32, key: seq<bv8>)
    requires |key| >= 16 && |key| % 4 == 0
    requires IsSchedule(w, key)
    requires x == if |w| < |key| / 4 then WordAt(key, 4 * |w|) else ScheduleValue(w, |key| / 4)
    ensures IsSchedule(w + [x], key)
  {
    hide ScheduleValue, WordAt;
    var v := w + [x];
    forall i | 0 <= i < |v| ensures v[..i] == w[..i] { }
    forall i | 0 <= i < |w| ensures v[i] == w[i] { }
    assert v[..|w|] == w;
  }

  function RoundKey(w: seq<bv32>, r: nat): State
    requires 4 * r + 4 <= |w|
  {
    State(w[4 * r], w[4 * r + 1], w[4 * r + 2], w[4 * r + 3])
  }

  // ----- Cipher (section 5.1) -----

  function Round(s: State, k: State): State {
    AddRoundKey(MixColumns(ShiftRows(SubBytes(s))), k)
  }

  // The state after rounds 1 to n.
  function Rounds(s: State, w: seq<bv32>, n: nat): State
    requires 4 * n + 4 <= |w|
  {
    if n == 0 then s else Round(Rounds(s, w, n - 1), RoundKey(w, n))
  }

  function Cipher(s: State, w: seq<bv32>, nr: nat): State
    requires 0 < nr && 4 * nr + 4 <= |w|
  {
    AddRoundKey(ShiftRows(SubBytes(Rounds(AddRoundKey(s, RoundKey(w, 0)), w, nr - 1))), RoundKey(w, nr))
  }

  // ----- Inverse cipher (section 5.3) -----

  function InvRound(s: State, k: State): State {
    InvMixColumns(AddRoundKey(InvSubBytes(InvShiftRows(s)), k))
  }

  // The state after n inverse rounds, with the keys nr - 1, nr - 2 and so on.
  function InvRounds(s: State, w: seq<bv32>, nr: nat, n: nat): State
    requires n <= nr && 4 * nr + 4 <= |w|
  {
    if n == 0 then s else InvRound(InvRounds(s, w, nr, n - 1), RoundKey(w, nr - n))
  }

  function InvCipher(s: State, w: seq<bv32>, nr: nat): State
    requires 0 < nr && 4 * nr + 4 <= |w|
  {
    AddRoundKey(InvSubBytes(InvShiftRows(InvRounds(AddRoundKey(s, RoundKey(w, nr)), w, nr, nr - 1))), RoundKey(w, 0))
  }

  // ----- Equivalent inverse cipher (section 5.3.5) -----

  // The decryption schedule: the round keys in reverse order, all but the first
  // and the last through InvMixColumns.
  function DecryptionKey(w: seq<bv32>, nr: nat, r: nat): State
    requires r <= nr && 4 * nr + 4 <= |w|
  {
    if r == 0 || r == nr then RoundKey(w, nr - r) else InvMixColumns(RoundKey(w, nr - r))
  }

  ghost predicate IsDecryptionSchedule(dw: seq<bv32>, w: seq<bv32>, nr: nat)
    requires 4 * nr + 4 <= |w| && 4 * nr + 4 <= |dw|
  {
    forall r {:trigger RoundKey(dw, r)} :: 0 <= r <= nr ==> RoundKey(dw, r) == DecryptionKey(w, nr, r)
  }

  function EqInvRound(s: State, k: State): State {
    AddRoundKey(InvMixColumns(InvShiftRows(InvSubBytes(s))), k)
  }

  function EqInvRounds(s: State, dw: seq<bv32>, n: nat): State
    requires 4 * n + 4 <= |dw|
  {
    if n == 0 then s else EqInvRound(EqInvRounds(s, dw, n - 1), RoundKey(dw, n))
  }

  function EqInvCipher(s: State, dw: seq<bv32>, nr: nat): State
    requires 0 < nr && 4 * nr + 4 <= |dw|
  {
    AddRoundKey(InvShiftRows(InvSubBytes(EqInvRounds(AddRoundKey(s, RoundKey(dw, 0)), dw, nr - 1))), RoundKey(dw, nr))
  }

  // ----- The inverse cipher undoes the cipher -----

  lemma InvShiftShiftRows(s: State)
    ensures InvShiftRows(ShiftRows(s)) == s
  {
    hide Byte0, Byte1, Byte2, Byte3, Word;
    WordBytes(Byte3(s.c0), Byte2(s.c1), Byte1(s.c2), Byte0(s.c3));
    WordBytes(Byte3(s.c1), Byte2(s.c2), Byte1(s.c3), Byte0(s.c0));
    WordBytes(Byte3(s.c2), Byte2(s.c3), Byte1(s.c0), Byte0(s.c1));
    WordBytes(Byte3(s.c3), Byte2(s.c0), Byte1(s.c1), Byte0(s.c2));
    WordOfBytes(s.c0);
    WordOfBytes(s.c1);
    WordOfBytes(s.c2);
    WordOfBytes(s.c3);
  }

  // SubBytes works byte by byte, so that it commutes with any move of bytes.
  lemma InvSubDiagonal(a: bv32, b: bv32, c: bv32, d: bv32)
    ensures InvSubWord(Diagonal(a, b, c, d)) == Diagonal(InvSubWord(a), InvSubWord(b), InvSubWord(c), InvSubWord(d))
    ensures SubWord(Diagonal(a, b, c, d)) == Diagonal(SubWord(a), SubWord(b), SubWord(c), SubWord(d))
  {
    hide Byte0, Byte1, Byte2, Byte3, Word, Sub, InvSub;
    WordBytes(Byte3(a), Byte2(b), Byte1(c), Byte0(d));
    InvSubWordBytes(a);
    InvSubWordBytes(b);
    InvSubWordBytes(c);
    InvSubWordBytes(d);
  }

  lemma InvSubWordBytes(w: bv32)
    ensures Byte3(InvSubWord(w)) == InvSub(Byte3(w)) && Byte2(InvSubWord(w)) == InvSub(Byte2(w))
    ensures Byte1(InvSubWord(w)) == InvSub(Byte1(w)) && Byte0(InvSubWord(w)) == InvSub(Byte0(w))
    ensures Byte3(SubWord(w)) == Sub(Byte3(w)) && Byte2(SubWord(w)) == Sub(Byte2(w))
    ensures Byte1(SubWord(w)) == Sub(Byte1(w)) && Byte0(SubWord(w)) == Sub(Byte0(w))
  {
    hide Byte0, Byte1, Byte2, Byte3, Word, Sub, InvSub;
    WordBytes(InvSub(Byte3(w)), InvSub(Byte2(w)), InvSub(Byte1(w)), InvSub(Byte0(w)));
    WordBytes(Sub(Byte3(w)), Sub(Byte2(w)), Sub(Byte1(w)), Sub(Byte0(w)));
  }

  lemma InvSubShiftCommute(s: State)
    ensures InvSubBytes(InvShiftRows(s)) == InvShiftRows(InvSubBytes(s))
  {
    hide Diagonal, InvSubWord;
    InvSubDiagonal(s.c0, s.c3, s.c2, s.c1);
    InvSubDiagonal(s.c1, s.c0, s.c3, s.c2);
    InvSubDiagonal(s.c2, s.c1, s.c0, s.c3);
    InvSubDiagonal(s.c3, s.c2, s.c1, s.c0);
  }

  lemma InvSubSubBytes(s: State)
    ensures InvSubBytes(SubBytes(s)) == s
  {
    hide SubWord, InvSubWord;
    InvSubSubWord(s.c0);
    InvSubSubWord(s.c1);
    InvSubSubWord(s.c2);
    InvSubSubWord(s.c3);
  }

  lemma InvMixMixColumns(s: State)
    ensures InvMixColumns(MixColumns(s)) == s
  {
    hide MixColumn, InvMixColumn;
    InvMixMixColumn(s.c0);
    InvMixMixColumn(s.c1);
    InvMixMixColumn(s.c2);
    InvMixMixColumn(s.c3);
  }

  lemma InvMixColumnsAdd(s: State, k: State)
    ensures InvMixColumns(AddRoundKey(s, k)) == AddRoundKey(InvMixColumns(s), InvMixColumns(k))
  {
    hide InvMixColumn, Xor;
    InvMixColumnXor(s.c0, k.c0);
    InvMixColumnXor(s.c1, k.c1);
    InvMixColumnXor(s.c2, k.c2);
    InvMixColumnXor(s.c3, k.c3);
  }

  lemma AddRoundKeyTwice(s: State, k: State)
    ensures AddRoundKey(AddRoundKey(s, k), k) == s
  {
    hide Xor;
    XorSelf(s.c0, k.c0);
    XorSelf(s.c1, k.c1);
    XorSelf(s.c2, k.c2);
    XorSelf(s.c3, k.c3);
  }

  // InvShiftRows and InvSubBytes undo the first half of a round.
  lemma InvHalfRound(s: State)
    ensures InvSubBytes(InvShiftRows(ShiftRows(SubBytes(s)))) == s
  {
    hide ShiftRows, SubBytes, InvShiftRows, InvSubBytes;
    InvShiftShiftRows(SubBytes(s));
    InvSubSubBytes(s);
  }

  // One inverse round goes from the middle of a round to the middle of the round before it.
  lemma InvRoundUndoesRound(x: State, k: State)
    ensures InvRound(ShiftRows(SubBytes(Round(x, k))), k) == ShiftRows(SubBytes(x))
  {
    hide ShiftRows, SubBytes, MixColumns, InvShiftRows, InvSubBytes, InvMixColumns, AddRoundKey;
    InvHalfRound(Round(x, k));
    AddRoundKeyTwice(MixColumns(ShiftRows(SubBytes(x))), k);
    InvMixMixColumns(ShiftRows(SubBytes(x)));
  }

  // After n inverse rounds, the state is that of the cipher n rounds before its end,
  // seen between ShiftRows and MixColumns.
  lemma {:induction false} InvRoundsRetrace(s: State, w: seq<bv32>, nr: nat, n: nat)
    requires n < nr && 4 * nr + 4 <= |w|
    ensures InvRounds(ShiftRows(SubBytes(Rounds(s, w, nr - 1))), w, nr, n)
         == ShiftRows(SubBytes(Rounds(s, w, nr - 1 - n)))
  {
    hide ShiftRows, SubBytes, Round, InvRound, RoundKey;
    if n > 0 {
      InvRoundsRetrace(s, w, nr, n - 1);
      InvRoundUndoesRound(Rounds(s, w, nr - 1 - n), RoundKey(w, nr - n));
    }
  }

  lemma InverseCipherUndoesCipher(s: State, w: seq<bv32>, nr: nat)
    requires 0 < nr && 4 * nr + 4 <= |w|
    ensures InvCipher(Cipher(s, w, nr), w, nr) == s
  {
    hide ShiftRows, SubBytes, InvShiftRows, InvSubBytes, AddRoundKey, Rounds;
    var first := AddRoundKey(s, RoundKey(w, 0));
    AddRoundKeyTwice(ShiftRows(SubBytes(Rounds(first, w, nr - 1))), RoundKey(w, nr));
    InvRoundsRetrace(first, w, nr, nr - 1);
    RoundsZero(first, w);
    InvHalfRound(first);
    AddRoundKeyTwice(s, RoundKey(w, 0));
  }

  lemma RoundsZero(s: State, w: seq<bv32>)
    requires 4 <= |w|
    ensures Rounds(s, w, 0) == s
  {
  }

  // ----- The equivalent inverse cipher is the inverse cipher -----

  lemma EquivalentRound(x: State, k: State)
    ensures EqInvRound(x, InvMixColumns(k)) == InvRound(x, k)
  {
    hide InvShiftRows, InvSubBytes, InvMixColumns, AddRoundKey;
    InvSubShiftCommute(x);
    InvMixColumnsAdd(InvSubBytes(InvShiftRows(x)), k);
  }

  lemma {:induction false} EquivalentRounds(s: State, w: seq<bv32>, dw: seq<bv32>, nr: nat, n: nat)
    requires n < nr && 4 * nr + 4 <= |w| && 4 * nr + 4 <= |dw|
    requires IsDecryptionSchedule(dw, w, nr)
    ensures EqInvRounds(s, dw, n) == InvRounds(s, w, nr, n)
  {
    hide InvRound, EqInvRound, InvMixColumns, RoundKey;
    if n > 0 {
      EquivalentRounds(s, w, dw, nr, n - 1);
      assert RoundKey(dw, n) == DecryptionKey(w, nr, n);
      EquivalentRound(InvRounds(s, w, nr, n - 1), RoundKey(w, nr - n));
    }
  }

  lemma EquivalentInverseCipher(s: State, w: seq<bv32>, dw: seq<bv32>, nr: nat)
    requires 0 < nr && 4 * nr + 4 <= |w| && 4 * nr + 4 <= |dw|
    requires IsDecryptionSchedule(dw, w, nr)
    ensures EqInvCipher(s, dw, nr) == InvCipher(s, w, nr)
  {
    hide InvShiftRows, InvSubBytes, AddRoundKey, EqInvRounds, InvRounds;
    assert RoundKey(dw, 0) == DecryptionKey(w, nr, 0);
    assert RoundKey(dw, nr) == DecryptionKey(w, nr, nr);
    var first := AddRoundKey(s, RoundKey(w, nr));
    EquivalentRounds(first, w, dw, nr, nr - 1);
    InvSubShiftCommute(InvRounds(first, w, nr, nr - 1));
  }

  // Decryption with the transformed keys restores every block, for any number of rounds.
  lemma DecryptionUndoesEncryption(p: seq<bv8>, w: seq<bv32>, dw: seq<bv32>, nr: nat)
    requires |p| == 16 && 0 < nr && 4 * nr + 4 <= |w| && 4 * nr + 4 <= |dw|
    requires IsDecryptionSchedule(dw, w, nr)
    ensures Store(EqInvCipher(Load(Store(Cipher(Load(p), w, nr))), dw, nr)) == p
  {
    hide Load, Store, Cipher, EqInvCipher, InvCipher;
    LoadStore(Cipher(Load(p), w, nr));
    EquivalentInverseCipher(Cipher(Load(p), w, nr), w, dw, nr);
    InverseCipherUndoesCipher(Load(p), w, nr);
    StoreLoad(p);
  }
}
