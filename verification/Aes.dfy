/**
  The AES block cipher object (tsAES.cpp): its scheduled keys, the three key
  schedules and the table-driven encryption and decryption of one block.
 */
module Aes {
  import opened AesTables
  import opened AesCipher

  const BLOCK_SIZE := 16

  predicate IsKeyLength(n: nat) {
    n == 16 || n == 24 || n == 32
  }

  // The number of rounds for a key size in bytes.
  function ExpectedRounds(n: nat): int {
    10 + (n / 8 - 2) * 2
  }

  // Table rcon.
  function RconWord(i: nat): bv32
    requires i < 10
  {
    [0x01000000, 0x02000000, 0x04000000, 0x08000000, 0x10000000,
     0x20000000, 0x40000000, 0x80000000, 0x1B000000, 0x36000000][i]
  }

  lemma RconTable(i: nat)
    requires i < 10
    ensures RconWord(i) == Word(Rcon(i + 1), 0, 0, 0)
  {
    assert Rcon(1) == 0x01 && Rcon(2) == 0x02 && Rcon(3) == 0x04;
    assert Rcon(4) == 0x08 && Rcon(5) == 0x10 && Rcon(6) == 0x20;
    assert Rcon(7) == 0x40 && Rcon(8) == 0x80 && Rcon(9) == 0x1b && Rcon(10) == 0x36;
  }

  lemma EncryptRound(s: State, k: State)
    ensures State(EncryptColumn(s.c0, s.c1, s.c2, s.c3, k.c0), EncryptColumn(s.c1, s.c2, s.c3, s.c0, k.c1),
                  EncryptColumn(s.c2, s.c3, s.c0, s.c1, k.c2), EncryptColumn(s.c3, s.c0, s.c1, s.c2, k.c3))
         == Round(s, k)
    ensures State(EncryptLast(s.c0, s.c1, s.c2, s.c3, k.c0), EncryptLast(s.c1, s.c2, s.c3, s.c0, k.c1),
                  EncryptLast(s.c2, s.c3, s.c0, s.c1, k.c2), EncryptLast(s.c3, s.c0, s.c1, s.c2, k.c3))
         == AddRoundKey(ShiftRows(SubBytes(s)), k)
  {
    hide EncryptColumn, EncryptLast, Diagonal, SubWord, MixColumn, Xor;
    EncryptWord(s.c0, s.c1, s.c2, s.c3, k.c0);
    EncryptWord(s.c1, s.c2, s.c3, s.c0, k.c1);
    EncryptWord(s.c2, s.c3, s.c0, s.c1, k.c2);
    EncryptWord(s.c3, s.c0, s.c1, s.c2, k.c3);
  }

  lemma EncryptWord(a: bv32, b: bv32, c: bv32, d: bv32, k: bv32)
    ensures EncryptColumn(a, b, c, d, k) == Xor(MixColumn(Diagonal(SubWord(a), SubWord(b), SubWord(c), SubWord(d))), k)
    ensures EncryptLast(a, b, c, d, k) == Xor(Diagonal(SubWord(a), SubWord(b), SubWord(c), SubWord(d)), k)
  {
    hide *;
    EncryptColumnIsRound(a, b, c, d, k);
    EncryptLastIsRound(a, b, c, d, k);
    InvSubDiagonal(a, b, c, d);
  }

  lemma DecryptRound(s: State, k: State)
    ensures State(DecryptColumn(s.c0, s.c3, s.c2, s.c1, k.c0), DecryptColumn(s.c1, s.c0, s.c3, s.c2, k.c1),
                  DecryptColumn(s.c2, s.c1, s.c0, s.c3, k.c2), DecryptColumn(s.c3, s.c2, s.c1, s.c0, k.c3))
         == EqInvRound(s, k)
    ensures State(DecryptLast(s.c0, s.c3, s.c2, s.c1, k.c0), DecryptLast(s.c1, s.c0, s.c3, s.c2, k.c1),
                  DecryptLast(s.c2, s.c1, s.c0, s.c3, k.c2), DecryptLast(s.c3, s.c2, s.c1, s.c0, k.c3))
         == AddRoundKey(InvShiftRows(InvSubBytes(s)), k)
  {
    hide DecryptColumn, DecryptLast, Diagonal, InvSubWord, InvMixColumn, Xor;
    DecryptWord(s.c0, s.c3, s.c2, s.c1, k.c0);
    DecryptWord(s.c1, s.c0, s.c3, s.c2, k.c1);
    DecryptWord(s.c2, s.c1, s.c0, s.c3, k.c2);
    DecryptWord(s.c3, s.c2, s.c1, s.c0, k.c3);
  }

  lemma DecryptWord(a: bv32, b: bv32, c: bv32, d: bv32, k: bv32)
    ensures DecryptColumn(a, b, c, d, k)
         == Xor(InvMixColumn(Diagonal(InvSubWord(a), InvSubWord(b), InvSubWord(c), InvSubWord(d))), k)
    ensures DecryptLast(a, b, c, d, k) == Xor(Diagonal(InvSubWord(a), InvSubWord(b), InvSubWord(c), InvSubWord(d)), k)
  {
    hide *;
    DecryptColumnIsRound(a, b, c, d, k);
    DecryptLastIsRound(a, b, c, d, k);
    InvSubDiagonal(a, b, c, d);
  }

  method PutUInt32(a: array<bv8>, i: nat, w: bv32)
    requires i + 4 <= a.Length
    modifies a
    ensures a[..i + 4] == old(a[..i]) + WordBytesOf(w)
    ensures a[i + 4..] == old(a[i + 4..])
  {
    hide Byte0, Byte1, Byte2, Byte3;
    a[i], a[i + 1], a[i + 2], a[i + 3] := Byte3(w), Byte2(w), Byte1(w), Byte0(w);
  }

  // Write the four words of a state at the beginning of an array.
  method PutState(a: array<bv8>, s0: bv32, s1: bv32, s2: bv32, s3: bv32)
    requires a.Length >= BLOCK_SIZE
    modifies a
    ensures a[..BLOCK_SIZE] == Store(State(s0, s1, s2, s3)) && a[BLOCK_SIZE..] == old(a[BLOCK_SIZE..])
  {
    hide WordBytesOf;
    ghost var rest := a[BLOCK_SIZE..];
    PutUInt32(a, 0, s0);
    assert rest == a[4..][12..];
    PutUInt32(a, 4, s1);
    assert rest == a[8..][8..];
    PutUInt32(a, 8, s2);
    assert rest == a[12..][4..];
    PutUInt32(a, 12, s3);
  }

  class BlockCipher {
    var nr: nat             // number of rounds, zero before a key is set
    const eK: array<bv32>   // scheduled encryption keys
    const dK: array<bv32>   // scheduled decryption keys

    ghost predicate Valid() {
      eK.Length == 60 && dK.Length == 60 && eK != dK
    }

    // A key is set: the decryption schedule is the one of the encryption schedule.
    ghost predicate Keyed()
      reads this, eK, dK
    {
      Valid() && nr in {10, 12, 14} && IsDecryptionSchedule(dK[..], eK[..], nr)
    }

    ghost predicate HasKey(key: seq<bv8>)
      reads this, eK, dK
    {
      Keyed() && IsKeyLength(|key|) && nr == ExpectedRounds(|key|) && IsSchedule(eK[..4 * nr + 4], key)
    }

    constructor ()
      ensures Valid() && nr == 0 && fresh(eK) && fresh(dK)
    {
      nr := 0;
      eK := new bv32[60];
      dK := new bv32[60];
    }

    method SetKey(key: seq<bv8>, rounds: nat) returns (ok: bool)
      requires Valid()
      modifies this, eK, dK
      ensures ok <==> |key| in {16, 24, 32} && (rounds == 0 || rounds == |key| / 4 + 6)
      ensures ok ==> HasKey(key) && nr == |key| / 4 + 6 && IsSchedule(eK[..|key| + 28], key)
      ensures !ok ==> unchanged(this) && unchanged(eK) && unchanged(dK)
    {
      if !IsKeyLength(|key|) {
        return false;
      }
      var expected := ExpectedRounds(|key|);
      if rounds != 0 && rounds != expected {
        return false;
      }
      nr := expected;
      LoadKey(key);
      if |key| == 16 {
        Schedule128(key);
      } else if |key| == 24 {
        Schedule192(key);
      } else {
        Schedule256(key);
      }
      SetInverseKey();
      ok := true;
    }

    // Write word n of the encryption schedule.
    method PutKeyWord(n: nat, x: bv32, ghost key: seq<bv8>)
      requires Valid() && IsKeyLength(|key|) && n < 60
      requires IsSchedule(eK[..n], key)
      requires x == if n < |key| / 4 then WordAt(key, 4 * n) else ScheduleValue(eK[..n], |key| / 4)
      modifies eK
      ensures IsSchedule(eK[..n + 1], key)
    {
      ghost var w := eK[..n];
      eK[n] := x;
      assert eK[..n + 1] == w + [x];
      AppendWord(w, x, key);
    }

    // Words 0 to 3 of a turn of the key schedule, the same for all key sizes.
    method PutFourKeyWords(nk: nat, i: nat, rk: nat, ghost key: seq<bv8>)
      requires Valid() && IsKeyLength(|key|) && nk == |key| / 4 && i < 10
      requires rk == nk * i && rk + nk + 4 <= 60
      requires IsSchedule(eK[..rk + nk], key)
      modifies eK
      ensures IsSchedule(eK[..rk + nk + 4], key)
    {
      hide Xor, SetupMix, RconWord, IsSchedule, ScheduleValue;
      var temp := eK[rk + nk - 1];
      NextWord(eK[..rk + nk], nk, i, 0);
      PutKeyWord(rk + nk, Xor(Xor(eK[rk], SetupMix(temp)), RconWord(i)), key);
      PutNextKeyWord(nk, i, rk, 1, key);
      PutNextKeyWord(nk, i, rk, 2, key);
      PutNextKeyWord(nk, i, rk, 3, key);
    }

    // Word j of a turn when it is the sum of word j of the turn before and of the word before.
    method PutNextKeyWord(nk: nat, i: nat, rk: nat, j: nat, ghost key: seq<bv8>)
      requires Valid() && IsKeyLength(|key|) && nk == |key| / 4 && i < 10
      requires 0 < j < nk && (nk == 8 ==> j != 4) && rk == nk * i && rk + nk + j < 60
      requires IsSchedule(eK[..rk + nk + j], key)
      modifies eK
      ensures IsSchedule(eK[..rk + nk + j + 1], key)
    {
      hide Xor, SetupMix, RotateRight8, RconWord, IsSchedule, ScheduleValue;
      NextWord(eK[..rk + nk + j], nk, i, j);
      PutKeyWord(rk + nk + j, Xor(eK[rk + j], eK[rk + nk + j - 1]), key);
    }

    // The first four words of any key.
    method LoadKey(key: seq<bv8>)
      requires Valid() && IsKeyLength(|key|)
      modifies eK
      ensures IsSchedule(eK[..4], key)
    {
      hide WordAt;
      assert IsSchedule(eK[..0], key);
      hide IsSchedule, ScheduleValue;
      PutKeyWord(0, WordAt(key, 0), key);
      PutKeyWord(1, WordAt(key, 4), key);
      PutKeyWord(2, WordAt(key, 8), key);
      PutKeyWord(3, WordAt(key, 12), key);
    }

    // The branch of SetKey for 128-bit keys.
    method Schedule128(ghost key: seq<bv8>)
      requires Valid() && |key| == 16 && IsSchedule(eK[..4], key)
      modifies eK
      ensures IsSchedule(eK[..44], key)
    {
      hide WordAt, IsSchedule;
      var i, rk := 0, 0;
      while true
        invariant 0 <= i < 10 && rk == 4 * i
        invariant IsSchedule(eK[..rk + 4], key)
        decreases 10 - i
      {
        PutFourKeyWords(4, i, rk, key);
        i := i + 1;
        if i == 10 {
          break;
        }
        rk := rk + 4;
      }
    }

    // The branch of SetKey for 192-bit keys.
    method Schedule192(key: seq<bv8>)
      requires Valid() && |key| == 24 && IsSchedule(eK[..4], key)
      modifies eK
      ensures IsSchedule(eK[..52], key)
    {
      hide WordAt, IsSchedule, ScheduleValue;
      PutKeyWord(4, WordAt(key, 16), key);
      PutKeyWord(5, WordAt(key, 20), key);
      var i, rk := 0, 0;
      while true
        invariant 0 <= i < 8 && rk == 6 * i
        invariant IsSchedule(eK[..rk + 6], key)
        decreases 8 - i
      {
        PutFourKeyWords(6, i, rk, key);
        i := i + 1;
        if i == 8 {
          break;
        }
        PutNextKeyWord(6, i - 1, rk, 4, key);
        PutNextKeyWord(6, i - 1, rk, 5, key);
        rk := rk + 6;
      }
    }

    // Words 4 to 7 of a turn of the schedule of a 256-bit key.
    method PutLastKeyWords(i: nat, rk: nat, ghost key: seq<bv8>)
      requires Valid() && |key| == 32 && i < 6 && rk == 8 * i
      requires IsSchedule(eK[..rk + 12], key)
      modifies eK
      ensures IsSchedule(eK[..rk + 16], key)
    {
      hide Xor, SetupMix, RotateRight8, RconWord, IsSchedule, ScheduleValue;
      var temp := eK[rk + 11];
      NextWord(eK[..rk + 12], 8, i, 4);
      PutKeyWord(rk + 12, Xor(eK[rk + 4], SetupMix(RotateRight8(temp))), key);
      PutNextKeyWord(8, i, rk, 5, key);
      PutNextKeyWord(8, i, rk, 6, key);
      PutNextKeyWord(8, i, rk, 7, key);
    }

    // The branch of SetKey for 256-bit keys.
    method Schedule256(key: seq<bv8>)
      requires Valid() && |key| == 32 && IsSchedule(eK[..4], key)
      modifies eK
      ensures IsSchedule(eK[..60], key)
    {
      hide WordAt, IsSchedule, ScheduleValue;
      PutKeyWord(4, WordAt(key, 16), key);
      PutKeyWord(5, WordAt(key, 20), key);
      PutKeyWord(6, WordAt(key, 24), key);
      PutKeyWord(7, WordAt(key, 28), key);
      var i, rk := 0, 0;
      while true
        invariant 0 <= i < 7 && rk == 8 * i
        invariant IsSchedule(eK[..rk + 8], key)
        decreases 7 - i
      {
        PutFourKeyWords(8, i, rk, key);
        i := i + 1;
        if i == 7 {
          break;
        }
        PutLastKeyWords(i - 1, rk, key);
        rk := rk + 8;
      }
    }

    // Write round key r of the decryption schedule.
    method PutRoundKey(r: nat, k0: bv32, k1: bv32, k2: bv32, k3: bv32)
      requires Valid() && r <= 14
      modifies dK
      ensures RoundKey(dK[..], r) == State(k0, k1, k2, k3)
      ensures forall q :: 0 <= q < r ==> RoundKey(dK[..], q) == old(RoundKey(dK[..], q))
    {
      dK[4 * r], dK[4 * r + 1], dK[4 * r + 2], dK[4 * r + 3] := k0, k1, k2, k3;
    }

    // The end of SetKey: the round keys in reverse order, the inner ones transformed.
    method SetInverseKey()
      requires Valid() && nr in {10, 12, 14}
      modifies dK
      ensures IsDecryptionSchedule(dK[..], eK[..], nr)
    {
      hide InverseKeyWord, RoundKey, DecryptionKey;
      ghost var w := eK[..];
      var rrk := 4 * nr;
      CopiedKeys(w, nr);
      PutRoundKey(0, eK[rrk], eK[rrk + 1], eK[rrk + 2], eK[rrk + 3]);
      var i := 1;
      while i < nr
        invariant 1 <= i <= nr && rrk == 4 * (nr - i + 1)
        invariant forall r {:trigger RoundKey(dK[..], r)} :: 0 <= r < i ==>
                RoundKey(dK[..], r) == DecryptionKey(w, nr, r)
      {
        rrk := rrk - 4;
        TransformedKey(w, nr, i);
        PutRoundKey(i, InverseKeyWord(eK[rrk]), InverseKeyWord(eK[rrk + 1]),
                    InverseKeyWord(eK[rrk + 2]), InverseKeyWord(eK[rrk + 3]));
        i := i + 1;
      }
      PutRoundKey(nr, eK[0], eK[1], eK[2], eK[3]);
    }

    // One table-driven round: one half of a turn of the loop of Encrypt.
    method EncryptRound(s0: bv32, s1: bv32, s2: bv32, s3: bv32, rk: nat, ghost first: State)
      returns (t0: bv32, t1: bv32, t2: bv32, t3: bv32)
      requires Valid() && 4 <= rk && rk + 4 <= 60 && rk % 4 == 0
      requires State(s0, s1, s2, s3) == Rounds(first, eK[..], rk / 4 - 1)
      ensures State(t0, t1, t2, t3) == Rounds(first, eK[..], rk / 4)
    {
      hide EncryptColumn, Rounds;
      t0 := EncryptColumn(s0, s1, s2, s3, eK[rk]);
      t1 := EncryptColumn(s1, s2, s3, s0, eK[rk + 1]);
      t2 := EncryptColumn(s2, s3, s0, s1, eK[rk + 2]);
      t3 := EncryptColumn(s3, s0, s1, s2, eK[rk + 3]);
      EncryptStep(first, eK[..], rk / 4 - 1, State(s0, s1, s2, s3));
    }

    // The last round of Encrypt.
    method EncryptLastRound(t0: bv32, t1: bv32, t2: bv32, t3: bv32, rk: nat, ghost first: State)
      returns (s0: bv32, s1: bv32, s2: bv32, s3: bv32)
      requires Valid() && 0 < nr && rk == 4 * nr && rk + 4 <= 60
      requires State(t0, t1, t2, t3) == Rounds(first, eK[..], nr - 1)
      ensures State(s0, s1, s2, s3)
              == AddRoundKey(ShiftRows(SubBytes(Rounds(first, eK[..], nr - 1))), RoundKey(eK[..], nr))
    {
      hide EncryptLast, Rounds, RoundKey, AddRoundKey, ShiftRows, SubBytes;
      s0 := EncryptLast(t0, t1, t2, t3, eK[rk]);
      s1 := EncryptLast(t1, t2, t3, t0, eK[rk + 1]);
      s2 := EncryptLast(t2, t3, t0, t1, eK[rk + 2]);
      s3 := EncryptLast(t3, t0, t1, t2, eK[rk + 3]);
      EncryptEnd(first, eK[..], nr, State(t0, t1, t2, t3));
    }

    // The loop of Encrypt, from the block to the last state.
    method EncryptBlock(block: seq<bv8>) returns (s0: bv32, s1: bv32, s2: bv32, s3: bv32)
      requires Keyed() && |block| == BLOCK_SIZE
      ensures State(s0, s1, s2, s3) == Cipher(Load(block), eK[..], nr)
    {
      hide WordAt, Xor, EncryptLast, AddRoundKey, Rounds, RoundKey, ShiftRows, SubBytes;
      ghost var first := AddRoundKey(Load(block), RoundKey(eK[..], 0));
      s0, s1 := Xor(WordAt(block, 0), eK[0]), Xor(WordAt(block, 4), eK[1]);
      s2, s3 := Xor(WordAt(block, 8), eK[2]), Xor(WordAt(block, 12), eK[3]);
      FirstState(block, eK[..]);
      var t0, t1, t2, t3;
      var r, rk := nr / 2, 0;
      while true
        invariant 1 <= r <= nr / 2 && rk == 8 * (nr / 2 - r)
        invariant State(s0, s1, s2, s3) == Rounds(first, eK[..], rk / 4)
        decreases r
      {
        t0, t1, t2, t3 := EncryptRound(s0, s1, s2, s3, rk + 4, first);
        rk := rk + 8;
        r := r - 1;
        if r == 0 {
          break;
        }
        s0, s1, s2, s3 := EncryptRound(t0, t1, t2, t3, rk, first);
      }
      s0, s1, s2, s3 := EncryptLastRound(t0, t1, t2, t3, rk, first);
    }

    method Encrypt(plain: array<bv8>, cipher: array<bv8>) returns (ok: bool)
      requires Keyed()
      modifies cipher
      ensures ok <==> plain.Length == BLOCK_SIZE && cipher.Length >= BLOCK_SIZE
      ensures ok ==> cipher[..BLOCK_SIZE] == Store(Cipher(Load(old(plain[..])), eK[..], nr))
      ensures ok ==> cipher[BLOCK_SIZE..] == old(cipher[BLOCK_SIZE..])
      ensures !ok ==> unchanged(cipher)
    {
      if plain.Length != BLOCK_SIZE || cipher.Length < BLOCK_SIZE {
        return false;
      }
      hide Cipher, EqInvCipher, InvCipher, Load, Store;
      var s0, s1, s2, s3 := EncryptBlock(plain[..]);
      PutState(cipher, s0, s1, s2, s3);
      ok := true;
    }

    // One table-driven round: one half of a turn of the loop of Decrypt.
    method DecryptRound(s0: bv32, s1: bv32, s2: bv32, s3: bv32, rk: nat, ghost first: State)
      returns (t0: bv32, t1: bv32, t2: bv32, t3: bv32)
      requires Valid() && 4 <= rk && rk + 4 <= 60 && rk % 4 == 0
      requires State(s0, s1, s2, s3) == EqInvRounds(first, dK[..], rk / 4 - 1)
      ensures State(t0, t1, t2, t3) == EqInvRounds(first, dK[..], rk / 4)
    {
      hide DecryptColumn, EqInvRounds;
      t0 := DecryptColumn(s0, s3, s2, s1, dK[rk]);
      t1 := DecryptColumn(s1, s0, s3, s2, dK[rk + 1]);
      t2 := DecryptColumn(s2, s1, s0, s3, dK[rk + 2]);
      t3 := DecryptColumn(s3, s2, s1, s0, dK[rk + 3]);
      DecryptStep(first, dK[..], rk / 4 - 1, State(s0, s1, s2, s3));
    }

    // The last round of Decrypt.
    method DecryptLastRound(t0: bv32, t1: bv32, t2: bv32, t3: bv32, rk: nat, ghost first: State)
      returns (s0: bv32, s1: bv32, s2: bv32, s3: bv32)
      requires Valid() && 0 < nr && rk == 4 * nr && rk + 4 <= 60
      requires State(t0, t1, t2, t3) == EqInvRounds(first, dK[..], nr - 1)
      ensures State(s0, s1, s2, s3)
              == AddRoundKey(InvShiftRows(InvSubBytes(EqInvRounds(first, dK[..], nr - 1))), RoundKey(dK[..], nr))
    {
      hide DecryptLast, EqInvRounds, RoundKey, AddRoundKey, InvShiftRows, InvSubBytes;
      s0 := DecryptLast(t0, t3, t2, t1, dK[rk]);
      s1 := DecryptLast(t1, t0, t3, t2, dK[rk + 1]);
      s2 := DecryptLast(t2, t1, t0, t3, dK[rk + 2]);
      s3 := DecryptLast(t3, t2, t1, t0, dK[rk + 3]);
      DecryptEnd(first, dK[..], nr, State(t0, t1, t2, t3));
    }

    // The loop of Decrypt, from the block to the last state.
    method DecryptBlock(block: seq<bv8>) returns (s0: bv32, s1: bv32, s2: bv32, s3: bv32)
      requires Keyed() && |block| == BLOCK_SIZE
      ensures State(s0, s1, s2, s3) == EqInvCipher(Load(block), dK[..], nr)
    {
      hide WordAt, Xor, DecryptLast, AddRoundKey, EqInvRounds, RoundKey, InvShiftRows, InvSubBytes;
      ghost var first := AddRoundKey(Load(block), RoundKey(dK[..], 0));
      s0, s1 := Xor(WordAt(block, 0), dK[0]), Xor(WordAt(block, 4), dK[1]);
      s2, s3 := Xor(WordAt(block, 8), dK[2]), Xor(WordAt(block, 12), dK[3]);
      FirstState(block, dK[..]);
      var t0, t1, t2, t3;
      var r, rk := nr / 2, 0;
      while true
        invariant 1 <= r <= nr / 2 && rk == 8 * (nr / 2 - r)
        invariant State(s0, s1, s2, s3) == EqInvRounds(first, dK[..], rk / 4)
        decreases r
      {
        t0, t1, t2, t3 := DecryptRound(s0, s1, s2, s3, rk + 4, first);
        rk := rk + 8;
        r := r - 1;
        if r == 0 {
          break;
        }
        s0, s1, s2, s3 := DecryptRound(t0, t1, t2, t3, rk, first);
      }
      s0, s1, s2, s3 := DecryptLastRound(t0, t1, t2, t3, rk, first);
    }

    method Decrypt(cipher: array<bv8>, plain: array<bv8>) returns (ok: bool)
      requires Keyed()
      modifies plain
      ensures ok <==> cipher.Length == BLOCK_SIZE && plain.Length >= BLOCK_SIZE
      ensures ok ==> plain[..BLOCK_SIZE] == Store(EqInvCipher(Load(old(cipher[..])), dK[..], nr))
      ensures ok ==> plain[..BLOCK_SIZE] == Store(InvCipher(Load(old(cipher[..])), eK[..], nr))
      ensures ok ==> plain[BLOCK_SIZE..] == old(plain[BLOCK_SIZE..])
      ensures !ok ==> unchanged(plain)
    {
      if cipher.Length != BLOCK_SIZE || plain.Length < BLOCK_SIZE {
        return false;
      }
      hide Cipher, EqInvCipher, InvCipher, Load, Store;
      EquivalentInverseCipher(Load(cipher[..]), eK[..], dK[..], nr);
      var s0, s1, s2, s3 := DecryptBlock(cipher[..]);
      PutState(plain, s0, s1, s2, s3);
      ok := true;
    }
  }

  // What the schedule asks for word j of turn i, in the terms of the code.
  lemma NextWord(w: seq<bv32>, nk: nat, i: nat, j: nat)
    requires nk in {4, 6, 8} && i < 10 && j < nk && |w| == nk * (i + 1) + j
    ensures ScheduleValue(w, nk)
         == if j == 0 then Xor(Xor(w[|w| - nk], SetupMix(w[|w| - 1])), RconWord(i))
            else if nk == 8 && j == 4 then Xor(w[|w| - nk], SetupMix(RotateRight8(w[|w| - 1])))
            else Xor(w[|w| - nk], w[|w| - 1])
  {
    hide *;
    var temp := w[|w| - 1];
    TurnAndWord(nk, i, j);
    ScheduleValueAt(w, nk, i + 1, j);
    if j == 0 {
      XorAssoc(w[|w| - nk], SetupMix(temp), RconWord(i));
      SetupMixIsSubRot(temp);
      RconTable(i);
    } else {
      SetupMixOfRotated(temp);
    }
  }

  lemma TurnAndWord(nk: nat, i: nat, j: nat)
    requires nk in {4, 6, 8} && j < nk
    ensures (nk * (i + 1) + j) / nk == i + 1 && (nk * (i + 1) + j) % nk == j
  {
  }

  lemma ScheduleValueAt(w: seq<bv32>, nk: nat, q: nat, j: nat)
    requires 4 <= nk <= |w| && |w| / nk == q && |w| % nk == j
    ensures ScheduleValue(w, nk)
         == Xor(w[|w| - nk],
                if j == 0 then Xor(SubWord(RotWord(w[|w| - 1])), Word(Rcon(q), 0, 0, 0))
                else if nk > 6 && j == 4 then SubWord(w[|w| - 1])
                else w[|w| - 1])
  {
    hide Word, Xor, SubWord, RotWord, Rcon;
  }

  lemma CopiedKeys(w: seq<bv32>, nr: nat)
    requires 4 * nr + 4 <= |w|
    ensures DecryptionKey(w, nr, 0) == State(w[4 * nr], w[4 * nr + 1], w[4 * nr + 2], w[4 * nr + 3])
    ensures DecryptionKey(w, nr, nr) == State(w[0], w[1], w[2], w[3])
  {
  }

  lemma TransformedKey(w: seq<bv32>, nr: nat, r: nat)
    requires 0 < r < nr && 4 * nr + 4 <= |w|
    ensures DecryptionKey(w, nr, r)
         == State(InverseKeyWord(w[4 * (nr - r)]), InverseKeyWord(w[4 * (nr - r) + 1]),
                  InverseKeyWord(w[4 * (nr - r) + 2]), InverseKeyWord(w[4 * (nr - r) + 3]))
  {
    hide InverseKeyWord, InvMixColumn;
    InverseKeyWordIsInvMixColumn(w[4 * (nr - r)]);
    InverseKeyWordIsInvMixColumn(w[4 * (nr - r) + 1]);
    InverseKeyWordIsInvMixColumn(w[4 * (nr - r) + 2]);
    InverseKeyWordIsInvMixColumn(w[4 * (nr - r) + 3]);
  }

  // The state before the first round.
  lemma FirstState(b: seq<bv8>, w: seq<bv32>)
    requires |b| == 16 && 4 <= |w|
    ensures State(Xor(WordAt(b, 0), w[0]), Xor(WordAt(b, 4), w[1]), Xor(WordAt(b, 8), w[2]), Xor(WordAt(b, 12), w[3]))
         == Rounds(AddRoundKey(Load(b), RoundKey(w, 0)), w, 0)
         == EqInvRounds(AddRoundKey(Load(b), RoundKey(w, 0)), w, 0)
  {
    hide WordAt, Xor;
  }

  // One table-driven round, two of which make one turn of the loop.
  lemma EncryptStep(first: State, w: seq<bv32>, n: nat, s: State)
    requires 4 * n + 8 <= |w| && s == Rounds(first, w, n)
    ensures State(EncryptColumn(s.c0, s.c1, s.c2, s.c3, w[4 * n + 4]),
                  EncryptColumn(s.c1, s.c2, s.c3, s.c0, w[4 * n + 5]),
                  EncryptColumn(s.c2, s.c3, s.c0, s.c1, w[4 * n + 6]),
                  EncryptColumn(s.c3, s.c0, s.c1, s.c2, w[4 * n + 7]))
         == Rounds(first, w, n + 1)
  {
    hide EncryptColumn, EncryptLast, Round, ShiftRows, SubBytes, AddRoundKey;
    EncryptRound(s, RoundKey(w, n + 1));
  }

  lemma EncryptEnd(first: State, w: seq<bv32>, nr: nat, s: State)
    requires 0 < nr && 4 * nr + 4 <= |w| && s == Rounds(first, w, nr - 1)
    ensures State(EncryptLast(s.c0, s.c1, s.c2, s.c3, w[4 * nr]),
                  EncryptLast(s.c1, s.c2, s.c3, s.c0, w[4 * nr + 1]),
                  EncryptLast(s.c2, s.c3, s.c0, s.c1, w[4 * nr + 2]),
                  EncryptLast(s.c3, s.c0, s.c1, s.c2, w[4 * nr + 3]))
         == AddRoundKey(ShiftRows(SubBytes(Rounds(first, w, nr - 1))), RoundKey(w, nr))
  {
    hide EncryptColumn, EncryptLast, Round, ShiftRows, SubBytes, AddRoundKey, Rounds;
    EncryptRound(s, RoundKey(w, nr));
  }

  lemma DecryptStep(first: State, w: seq<bv32>, n: nat, s: State)
    requires 4 * n + 8 <= |w| && s == EqInvRounds(first, w, n)
    ensures State(DecryptColumn(s.c0, s.c3, s.c2, s.c1, w[4 * n + 4]),
                  DecryptColumn(s.c1, s.c0, s.c3, s.c2, w[4 * n + 5]),
                  DecryptColumn(s.c2, s.c1, s.c0, s.c3, w[4 * n + 6]),
                  DecryptColumn(s.c3, s.c2, s.c1, s.c0, w[4 * n + 7]))
         == EqInvRounds(first, w, n + 1)
  {
    hide DecryptColumn, DecryptLast, EqInvRound, InvShiftRows, InvSubBytes, AddRoundKey;
    DecryptRound(s, RoundKey(w, n + 1));
  }

  lemma DecryptEnd(first: State, w: seq<bv32>, nr: nat, s: State)
    requires 0 < nr && 4 * nr + 4 <= |w| && s == EqInvRounds(first, w, nr - 1)
    ensures State(DecryptLast(s.c0, s.c3, s.c2, s.c1, w[4 * nr]),
                  DecryptLast(s.c1, s.c0, s.c3, s.c2, w[4 * nr + 1]),
                  DecryptLast(s.c2, s.c1, s.c0, s.c3, w[4 * nr + 2]),
                  DecryptLast(s.c3, s.c2, s.c1, s.c0, w[4 * nr + 3]))
         == AddRoundKey(InvShiftRows(InvSubBytes(EqInvRounds(first, w, nr - 1))), RoundKey(w, nr))
  {
    hide DecryptColumn, DecryptLast, EqInvRound, InvShiftRows, InvSubBytes, AddRoundKey, EqInvRounds;
    DecryptRound(s, RoundKey(w, nr));
  }

  // Whatever key was set, decrypting an encrypted block restores it.
  method EncryptThenDecrypt(aes: BlockCipher, key: seq<bv8>, block: array<bv8>, work: array<bv8>) returns (ok: bool)
    requires aes.Valid() && block.Length == BLOCK_SIZE && work.Length == BLOCK_SIZE
    modifies aes, aes.eK, aes.dK, block, work
    ensures ok <==> IsKeyLength(|key|)
    ensures ok ==> block[..] == old(block[..])
  {
    hide Store, Load, Cipher, EqInvCipher, InvCipher, IsDecryptionSchedule, IsSchedule;
    ok := aes.SetKey(key, 0);
    if ok {
      ghost var p := block[..];
      var encrypted := aes.Encrypt(block, work);
      assert work[..BLOCK_SIZE] == work[..];
      DecryptionUndoesEncryption(p, aes.eK[..], aes.dK[..], aes.nr);
      var decrypted := aes.Decrypt(work, block);
      assert block[..BLOCK_SIZE] == block[..];
    }
  }
}
