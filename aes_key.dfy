/**
 * The key schedule of AesInitKey as a function on values: the words of
 * the expanded key, the byte order of BE32 on a little-endian machine,
 * and the tweak that protocol version 6 applies to three round keys.
 */
module AesKeySchedule {
  import opened AesTables
  import opened AesField

  // ---------------------------------------------------------------------
  // Word helpers of the schedule
  // ---------------------------------------------------------------------

  /** BE32 on a little-endian machine: the four bytes in reverse order. */
  function Bswap32(x: bv32): bv32
  {
    Pack(Byte3(x), Byte2(x), Byte1(x), Byte0(x))
  }

  /** SubDword: every byte of the word replaced through SBox. */
  function SubDword(v: bv32): bv32
  {
    Pack(SBox(Byte0(v)), SBox(Byte1(v)), SBox(Byte2(v)), SBox(Byte3(v)))
  }

  lemma Bswap32Bytes(x: bv32)
    ensures Byte0(Bswap32(x)) == Byte3(x)
    ensures Byte1(Bswap32(x)) == Byte2(x)
    ensures Byte2(Bswap32(x)) == Byte1(x)
    ensures Byte3(Bswap32(x)) == Byte0(x)
  {
    PackBytes(x, Byte3(x), Byte2(x), Byte1(x), Byte0(x));
  }

  /** Reversing the bytes twice gives back the word. */
  lemma Bswap32Twice(x: bv32)
    ensures Bswap32(Bswap32(x)) == x
  {
    Bswap32Bytes(x);
    Bswap32Bytes(Bswap32(x));
    PackBytes(x, 0, 0, 0, 0);
  }

  lemma SubDwordBytes(v: bv32)
    ensures Byte0(SubDword(v)) == SBox(Byte0(v))
    ensures Byte1(SubDword(v)) == SBox(Byte1(v))
    ensures Byte2(SubDword(v)) == SBox(Byte2(v))
    ensures Byte3(SubDword(v)) == SBox(Byte3(v))
  {
    PackBytes(v, SBox(Byte0(v)), SBox(Byte1(v)), SBox(Byte2(v)), SBox(Byte3(v)));
  }

  /** The word that takes the place of Key[i - 1] when i is a multiple of
      the key length in words: BE32(SubDword(ROR32(BE32(prev), 24)) ^ rc). */
  function ScheduleTemp(prev: bv32, rc: bv32): bv32
  {
    Bswap32(Xor(SubDword(Ror32(Bswap32(prev), 24)), rc))
  }

  // The bytes of ScheduleTemp, one lemma per byte: the byte order of the
  // stored word is reversed, rotated, substituted and reversed again.

  lemma ScheduleTempByte0(prev: bv32, rc: bv32)
    ensures Byte0(ScheduleTemp(prev, rc)) == Add(SBox(Byte1(prev)), Byte3(rc))
  {
    var t := Bswap32(prev);
    var u := Ror32(t, 24);
    var v := SubDword(u);
    Bswap32Bytes(prev);
    Ror24Bytes(t);
    SubDwordBytes(u);
    XorBytes(v, rc);
    Bswap32Bytes(Xor(v, rc));
  }

  lemma ScheduleTempByte1(prev: bv32, rc: bv32)
    ensures Byte1(ScheduleTemp(prev, rc)) == Add(SBox(Byte2(prev)), Byte2(rc))
  {
    var t := Bswap32(prev);
    var u := Ror32(t, 24);
    var v := SubDword(u);
    Bswap32Bytes(prev);
    Ror24Bytes(t);
    SubDwordBytes(u);
    XorBytes(v, rc);
    Bswap32Bytes(Xor(v, rc));
  }

  lemma ScheduleTempByte2(prev: bv32, rc: bv32)
    ensures Byte2(ScheduleTemp(prev, rc)) == Add(SBox(Byte3(prev)), Byte1(rc))
  {
    var t := Bswap32(prev);
    var u := Ror32(t, 24);
    var v := SubDword(u);
    Bswap32Bytes(prev);
    Ror24Bytes(t);
    SubDwordBytes(u);
    XorBytes(v, rc);
    Bswap32Bytes(Xor(v, rc));
  }

  lemma ScheduleTempByte3(prev: bv32, rc: bv32)
    ensures Byte3(ScheduleTemp(prev, rc)) == Add(SBox(Byte0(prev)), Byte0(rc))
  {
    var t := Bswap32(prev);
    var u := Ror32(t, 24);
    var v := SubDword(u);
    Bswap32Bytes(prev);
    Ror24Bytes(t);
    SubDwordBytes(u);
    XorBytes(v, rc);
    Bswap32Bytes(Xor(v, rc));
  }

  /** x^n in GF(2^8): the value of the round constant of round n + 1. */
  function XPow(n: nat): bv8
  {
    if n == 0 then 1 else XTime(XPow(n - 1))
  }

  /** RCon[j] holds x^(j-1) in its most significant byte and zeros in the
      other three. */
  lemma RConIsPowerOfX(j: int)
    requires 1 <= j < |RCon|
    ensures Byte3(RCon[j]) == XPow(j - 1)
    ensures Byte0(RCon[j]) == 0 && Byte1(RCon[j]) == 0 && Byte2(RCon[j]) == 0
  {
    assert XPow(0) == 1;
    assert XPow(1) == 2;
    assert XPow(2) == 4;
    assert XPow(3) == 8;
    assert XPow(4) == 0x10;
    assert XPow(5) == 0x20;
    assert XPow(6) == 0x40;
    assert XPow(7) == 0x80;
    assert XPow(8) == 0x1b;
    assert XPow(9) == 0x36;
  }

  /** With a round constant, ScheduleTemp is SubWord(RotWord(prev)) xor
      Rcon of section 5.2 of FIPS 197, read in the order the bytes are
      stored: RotWord takes bytes 1, 2, 3, 0 of prev, and x^(j-1) is added
      to the first of them. */
  lemma ScheduleTempIsFips(prev: bv32, j: int)
    requires 1 <= j < |RCon|
    ensures Lanes(ScheduleTemp(prev, RCon[j]))
         == [Add(SBox(Byte1(prev)), XPow(j - 1)), SBox(Byte2(prev)), SBox(Byte3(prev)), SBox(Byte0(prev))]
  {
    RConIsPowerOfX(j);
    ScheduleTempByte0(prev, RCon[j]);
    ScheduleTempByte1(prev, RCon[j]);
    ScheduleTempByte2(prev, RCon[j]);
    ScheduleTempByte3(prev, RCon[j]);
    AddZero(SBox(Byte2(prev)));
    AddZero(SBox(Byte3(prev)));
    AddZero(SBox(Byte0(prev)));
  }

  lemma AddZero(a: bv8)
    ensures Add(a, 0) == a
  {
  }

  // ---------------------------------------------------------------------
  // The expanded key
  // ---------------------------------------------------------------------

  /** The key lengths AesInitKey is used with: 16 to 23 bytes, that is four
      or five words (the caller passes 16 for protocol versions 5 and 6
      and 20 for version 4). The 48 words of the key array hold the
      expanded key of five words. */
  predicate ValidKeyBytes(keyBytes: int)
  {
    16 <= keyBytes < 24
  }

  /** Ctx->rounds: the number of whole key words plus 6. */
  function Rounds(keyBytes: int): (rounds: nat)
    requires ValidKeyBytes(keyBytes)
    ensures 4 * (rounds - 6) <= keyBytes < 4 * (rounds - 5)
    ensures 10 <= rounds <= 11
  {
    keyBytes / 4 + 6
  }

  /** Word j of the key, from its bytes 4j to 4j + 3, little-endian. */
  function KeyWord(key: seq<bv8>, j: int): bv32
    requires 0 <= j && 4 * j + 4 <= |key|
  {
    Word(key[4 * j .. 4 * j + 4])
  }

  /** Every word of the schedule past the key has a round constant. */
  lemma RConIndex(nk: nat, i: nat, r: int)
    requires 4 <= nk <= 5 && i < 4 * (nk + 7) && r == i / nk
    ensures 0 <= r < |RCon|
  {
  }

  /** The word AesInitKey stores at Key[i], given the words before it. */
  function NextKeyWord(w: seq<bv32>, nk: nat, i: nat): bv32
    requires 4 <= nk <= 5 && nk <= i == |w| && i < 4 * (nk + 7)
  {
    var temp := if i % nk == 0 then ScheduleTemp(w[i - 1], RCon[i / nk]) else w[i - 1];
    Xor(w[i - nk], temp)
  }

  /** The first n words of the expanded key with nk key words. */
  function KeyWords(key: seq<bv8>, nk: nat, n: nat): (w: seq<bv32>)
    requires 4 <= nk <= 5 && 4 * nk <= |key| && n <= 4 * (nk + 7)
    ensures |w| == n
    decreases n
  {
    if n <= nk then seq(n, j requires 0 <= j < n => KeyWord(key, j))
    else
      var w := KeyWords(key, nk, n - 1);
      w + [NextKeyWord(w, nk, n - 1)]
  }

  /** Computing more words does not change the words computed before. */
  lemma {:induction false} KeyWordsPrefix(key: seq<bv8>, nk: nat, m: nat, n: nat, j: nat)
    requires 4 <= nk <= 5 && 4 * nk <= |key| && j < m <= n <= 4 * (nk + 7)
    ensures KeyWords(key, nk, n)[j] == KeyWords(key, nk, m)[j]
    decreases n
  {
    if n == m {
    } else if n <= nk {
    } else {
      KeyWordsPrefix(key, nk, m, n - 1, j);
    }
  }

  /** The expanded key starts with the key. */
  lemma KeyWordsStart(key: seq<bv8>, nk: nat, n: nat, j: nat)
    requires 4 <= nk <= 5 && 4 * nk <= |key| && nk <= n <= 4 * (nk + 7) && j < nk
    ensures KeyWords(key, nk, n)[j] == KeyWord(key, j)
  {
    KeyWordsPrefix(key, nk, nk, n, j);
  }

  /** Every later word is what NextKeyWord computes from the words before
      it: the word nk places before it plus the word just before it or, at
      each multiple of nk, that word rotated, substituted and added to a
      round constant (the recurrence of section 5.2 of FIPS 197). */
  lemma KeyWordsRecurrence(key: seq<bv8>, nk: nat, n: nat, i: nat)
    requires 4 <= nk <= 5 && 4 * nk <= |key| && nk <= i < n <= 4 * (nk + 7)
    ensures KeyWords(key, nk, n)[i] == NextKeyWord(KeyWords(key, nk, n)[..i], nk, i)
  {
    KeyWordsLast(key, nk, i);
    KeyWordsPrefix(key, nk, i + 1, n, i);
    KeyWordsPrefixSlice(key, nk, i, n);
  }

  lemma KeyWordsPrefixSlice(key: seq<bv8>, nk: nat, m: nat, n: nat)
    requires 4 <= nk <= 5 && 4 * nk <= |key| && m <= n <= 4 * (nk + 7)
    ensures KeyWords(key, nk, n)[..m] == KeyWords(key, nk, m)
  {
    forall j | 0 <= j < m
      ensures KeyWords(key, nk, n)[..m][j] == KeyWords(key, nk, m)[j]
    {
      KeyWordsPrefix(key, nk, m, n, j);
    }
  }

  /** The recurrence for every word past the key at once. */
  lemma KeyWordsSteps(key: seq<bv8>, nk: nat, n: nat)
    requires 4 <= nk <= 5 && 4 * nk <= |key| && nk <= n <= 4 * (nk + 7)
    ensures forall i | nk <= i < n ::
      KeyWords(key, nk, n)[i] == NextKeyWord(KeyWords(key, nk, n)[..i], nk, i)
  {
    forall i | nk <= i < n
      ensures KeyWords(key, nk, n)[i] == NextKeyWord(KeyWords(key, nk, n)[..i], nk, i)
    {
      KeyWordsRecurrence(key, nk, n, i);
    }
  }

  lemma KeyWordsLast(key: seq<bv8>, nk: nat, i: nat)
    requires 4 <= nk <= 5 && 4 * nk <= |key| && nk <= i < 4 * (nk + 7)
    ensures KeyWords(key, nk, i + 1)[i] == NextKeyWord(KeyWords(key, nk, i), nk, i)
  {
  }

  /** The V6 change to the schedule: bytes 64, 96 and 128 of the key array,
      the least significant bytes of words 16, 24 and 32. */
  function V6Tweak(w: seq<bv32>): (t: seq<bv32>)
    requires 33 <= |w|
    ensures |t| == |w|
  {
    w[16 := Xor(w[16], 0x73)][24 := Xor(w[24], 0x09)][32 := Xor(w[32], 0xE4)]
  }

  /** The byte the tweak adds to the least significant byte of word j. */
  function V6Delta(j: int): bv8
  {
    if j == 16 then 0x73 else if j == 24 then 0x09 else if j == 32 then 0xE4 else 0
  }

  /** A schedule that differs from w exactly in words 16, 24 and 32, each
      changed as AesInitKey changes it, is V6Tweak(w). */
  lemma V6TweakOf(w: seq<bv32>, t: seq<bv32>)
    requires 33 <= |w| == |t|
    requires t[16] == Xor(w[16], 0x73) && t[24] == Xor(w[24], 0x09) && t[32] == Xor(w[32], 0xE4)
    requires forall j | 0 <= j < |w| && j != 16 && j != 24 && j != 32 :: t[j] == w[j]
    ensures t == V6Tweak(w)
  {
  }

  lemma V6TweakWord(w: seq<bv32>, j: int)
    requires 33 <= |w| && 0 <= j < |w|
    ensures V6Tweak(w)[j] == Xor(w[j], V6Delta(j) as bv32)
  {
    if j != 16 && j != 24 && j != 32 {
      XorZero(w[j]);
    }
  }

  lemma XorZero(x: bv32)
    ensures Xor(x, 0) == x
  {
  }

  lemma LowByteWord(d: bv8)
    ensures Byte0(d as bv32) == d && Byte1(d as bv32) == 0 && Byte2(d as bv32) == 0 && Byte3(d as bv32) == 0
  {
  }

  /** The tweak adds its constant to byte 0 of words 16, 24 and 32, and
      changes no other byte of the key array. */
  lemma V6TweakBytes(w: seq<bv32>, j: int)
    requires 33 <= |w| && 0 <= j < |w|
    ensures Lanes(V6Tweak(w)[j]) == [Add(Byte0(w[j]), V6Delta(j)), Byte1(w[j]), Byte2(w[j]), Byte3(w[j])]
  {
    V6TweakWord(w, j);
    XorBytes(w[j], V6Delta(j) as bv32);
    LowByteWord(V6Delta(j));
    AddZero(Byte1(w[j]));
    AddZero(Byte2(w[j]));
    AddZero(Byte3(w[j]));
  }

  /** What AesInitKey leaves in the first (rounds + 1) * 4 words of the key
      array. */
  function KeySchedule(key: seq<bv8>, isV6: bool): (w: seq<bv32>)
    requires ValidKeyBytes(|key|)
    ensures |w| == 4 * (Rounds(|key|) + 1)
  {
    var w := KeyWords(key, |key| / 4, 4 * (Rounds(|key|) + 1));
    if isV6 then V6Tweak(w) else w
  }
  /** The schedule is the nk-word recurrence run to the last round key,
      tweaked for protocol version 6. */
  lemma KeyScheduleOfWords(key: seq<bv8>, isV6: bool, nk: nat, w: seq<bv32>)
    requires ValidKeyBytes(|key|) && nk == |key| / 4
    requires w == KeyWords(key, nk, 4 * (nk + 7))
    ensures |w| == 4 * (Rounds(|key|) + 1)
    ensures KeySchedule(key, isV6) == if isV6 then V6Tweak(w) else w
  {
  }

}
