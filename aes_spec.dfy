/**
 * What vlmcsd's software AES computes, as functions on values: a block is
 * a sequence of 16 bytes, the key schedule a sequence of 32-bit words
 * stored little-endian. The in-place implementation in module Aes is
 * proved to compute these functions; the lemmas here prove what the
 * functions promise (inverse pairs, the padding rule, the CBC round trip,
 * the key schedule step of section 5.2 of FIPS 197).
 */
module AesSpec {
  import opened Wrappers
  import opened AesTables
  import opened AesField

  // ---------------------------------------------------------------------
  // Round transformations on one block
  // ---------------------------------------------------------------------

  /** XorBlock(in, out): out with every byte of in added to it. */
  function XorBlock(inp: seq<bv8>, out: seq<bv8>): (r: seq<bv8>)
    requires |inp| == 16 && |out| == 16
    ensures |r| == 16
  {
    seq(16, i requires 0 <= i < 16 => Add(out[i], inp[i]))
  }

  /** Adding the same block twice gives back the original block. */
  lemma XorBlockTwice(inp: seq<bv8>, out: seq<bv8>)
    requires |inp| == 16 && |out| == 16
    ensures XorBlock(inp, XorBlock(inp, out)) == out
  {
    forall i | 0 <= i < 16
      ensures XorBlock(inp, XorBlock(inp, out))[i] == out[i]
    {
      AddCancels(out[i], inp[i]);
    }
  }

  lemma AddCancels(a: bv8, b: bv8)
    ensures Add(Add(a, b), b) == a
  {
  }

  /** Adding a block of zeros changes nothing. */
  lemma XorBlockZero(out: seq<bv8>)
    requires |out| == 16
    ensures XorBlock(Zeros(16), out) == out
  {
  }

  function Zeros(n: nat): (z: seq<bv8>)
    ensures |z| == n && forall i :: 0 <= i < n ==> z[i] == 0
  {
    seq(n, _ => 0)
  }

  /** SubBytes: every byte replaced through the table SBox. */
  function SubBytes(b: seq<bv8>): (r: seq<bv8>)
    requires |b| == 16
    ensures |r| == 16
  {
    seq(16, i requires 0 <= i < 16 => SBox(b[i]))
  }

  /** SubBytesR: every byte replaced through the table SBoxR. */
  function SubBytesR(b: seq<bv8>): (r: seq<bv8>)
    requires |b| == 16
    ensures |r| == 16
  {
    seq(16, i requires 0 <= i < 16 => SBoxR(b[i]))
  }

  /** SubBytesR undoes SubBytes. */
  lemma SubBytesRUndoesSubBytes(b: seq<bv8>)
    requires |b| == 16
    ensures SubBytesR(SubBytes(b)) == b
  {
    forall i | 0 <= i < 16
      ensures SubBytesR(SubBytes(b))[i] == b[i]
    {
      SBoxRUndoesSBox(b[i]);
    }
  }

  /** SubBytes undoes SubBytesR. */
  lemma SubBytesUndoesSubBytesR(b: seq<bv8>)
    requires |b| == 16
    ensures SubBytes(SubBytesR(b)) == b
  {
    forall i | 0 <= i < 16
      ensures SubBytes(SubBytesR(b))[i] == b[i]
    {
      SBoxUndoesSBoxR(b[i]);
    }
  }

  lemma SBoxRUndoesSBox(x: bv8)
    ensures SBoxR(SBox(x)) == x
  {
    SBoxInverse(x, x);
  }

  lemma SBoxUndoesSBoxR(y: bv8)
    ensures SBox(SBoxR(y)) == y
  {
    SBoxInverse(y, y);
  }

  /** The byte that ShiftRows moves to position i: (i + ((i & 3) << 2)) & 0xf.
      Bytes are stored column by column, so position i is row i & 3 of
      column i >> 2. */
  function ShiftIndex(i: int): (j: int)
    requires 0 <= i < 16
    ensures 0 <= j < 16
  {
    var x := i as bv8;
    ((x + ((x & 3) << 2)) & 0xf) as int
  }

  /** The byte that ShiftRowsR moves to position i: (i - ((i & 3) << 2)) & 0xf.
      The mask keeps the low four bits, so the subtraction may wrap around. */
  function ShiftIndexR(i: int): (j: int)
    requires 0 <= i < 16
    ensures 0 <= j < 16
  {
    var x := i as bv8;
    ((x - ((x & 3) << 2)) & 0xf) as int
  }

  /** The two index maps are inverse permutations of 0..15. */
  lemma ShiftIndexRUndoesShiftIndex(i: int)
    requires 0 <= i < 16
    ensures ShiftIndexR(ShiftIndex(i)) == i
  {
  }

  lemma ShiftIndexUndoesShiftIndexR(i: int)
    requires 0 <= i < 16
    ensures ShiftIndex(ShiftIndexR(i)) == i
  {
  }

  /** ShiftRows as section 5.1.2 of FIPS 197 states it: the byte in row r
      and column c comes from row r and column (c + r) mod 4. */
  lemma ShiftIndexIsFips(r: int, c: int)
    requires 0 <= r < 4 && 0 <= c < 4
    ensures ShiftIndex(r + 4 * c) == r + 4 * ((c + r) % 4)
  {
  }

  /** ShiftRowsR as section 5.3.1 of FIPS 197 states it: the byte in row r
      and column c comes from row r and column (c - r) mod 4. */
  lemma ShiftIndexRIsFips(r: int, c: int)
    requires 0 <= r < 4 && 0 <= c < 4
    ensures ShiftIndexR(r + 4 * c) == r + 4 * ((c - r) % 4)
  {
  }

  function ShiftRows(b: seq<bv8>): (r: seq<bv8>)
    requires |b| == 16
    ensures |r| == 16
  {
    seq(16, i requires 0 <= i < 16 => b[ShiftIndex(i)])
  }

  function ShiftRowsR(b: seq<bv8>): (r: seq<bv8>)
    requires |b| == 16
    ensures |r| == 16
  {
    seq(16, i requires 0 <= i < 16 => b[ShiftIndexR(i)])
  }

  /** ShiftRowsR undoes ShiftRows. */
  lemma ShiftRowsRUndoesShiftRows(b: seq<bv8>)
    requires |b| == 16
    ensures ShiftRowsR(ShiftRows(b)) == b
  {
    forall i | 0 <= i < 16
      ensures ShiftRowsR(ShiftRows(b))[i] == b[i]
    {
      ShiftRowsRUndoesShiftRowsAt(b, i);
    }
  }

  lemma ShiftRowsRUndoesShiftRowsAt(b: seq<bv8>, i: int)
    requires |b| == 16 && 0 <= i < 16
    ensures ShiftRowsR(ShiftRows(b))[i] == b[i]
  {
    ShiftIndexRUndoesShiftIndex(i);
  }

  /** ShiftRows undoes ShiftRowsR. */
  lemma ShiftRowsUndoesShiftRowsR(b: seq<bv8>)
    requires |b| == 16
    ensures ShiftRows(ShiftRowsR(b)) == b
  {
    forall i | 0 <= i < 16
      ensures ShiftRows(ShiftRowsR(b))[i] == b[i]
    {
      ShiftRowsUndoesShiftRowsRAt(b, i);
    }
  }

  lemma ShiftRowsUndoesShiftRowsRAt(b: seq<bv8>, i: int)
    requires |b| == 16 && 0 <= i < 16
    ensures ShiftRows(ShiftRowsR(b))[i] == b[i]
  {
    ShiftIndexUndoesShiftIndexR(i);
  }

  /** Column c (0 to 3) of a block: bytes 4c to 4c + 3. */
  function Column(b: seq<bv8>, c: int): (col: seq<bv8>)
    requires |b| == 16 && 0 <= c < 4
    ensures |col| == 4
  {
    b[4 * c .. 4 * c + 4]
  }

  /** The index of the byte k rows below byte i in its column, cyclically:
      bytes 4c to 4c + 3 make up column c. */
  function RowBelow(i: int, k: bv8): (j: int)
    requires 0 <= i < 16
    ensures 0 <= j < 16
  {
    var x := i as bv8;
    ((x & 0xc) | ((x + k) & 3)) as int
  }

  /** RowBelow stays in column i / 4 and moves k rows down from row i % 4. */
  lemma RowBelowIsFips(i: int, k: bv8)
    requires 0 <= i < 16 && k < 4
    ensures RowBelow(i, k) == 4 * (i / 4) + (i % 4 + k as int) % 4
  {
    RowBelowInColumn(i / 4, i % 4, k);
  }

  lemma RowBelowInColumn(c: int, r: int, k: bv8)
    requires 0 <= c < 4 && 0 <= r < 4 && k < 4
    ensures RowBelow(4 * c + r, k) == 4 * c + (if r + k as int < 4 then r + k as int else r + k as int - 4)
  {
    if c == 0 {
    } else if c == 1 {
    } else if c == 2 {
    } else {
    }
  }

  lemma RowBelowZero(i: int)
    requires 0 <= i < 16
    ensures RowBelow(i, 0) == i
  {
  }

  /** Moving down j rows and then k rows is moving down j + k rows. */
  lemma RowBelowAdds(i: int, j: bv8, k: bv8)
    requires 0 <= i < 16
    ensures RowBelow(RowBelow(i, j), k) == RowBelow(i, j + k)
  {
  }

  /** Four rows down is back in the same row. */
  lemma RowBelowWraps(i: int, k: bv8)
    requires 0 <= i < 16
    ensures RowBelow(i, k + 4) == RowBelow(i, k)
  {
  }

  /** MixColumns: every column mixed as section 5.1.3 of FIPS 197 says. */
  function MixColumns(b: seq<bv8>): (r: seq<bv8>)
    requires |b| == 16
    ensures |r| == 16
  {
    seq(16, i requires 0 <= i < 16 => MixRow(b[i], b[RowBelow(i, 1)], b[RowBelow(i, 2)], b[RowBelow(i, 3)]))
  }

  /** MixColumnsR: every column mixed as section 5.3.3 of FIPS 197 says. */
  function MixColumnsR(b: seq<bv8>): (r: seq<bv8>)
    requires |b| == 16
    ensures |r| == 16
  {
    seq(16, i requires 0 <= i < 16 => InvMixRow(b[i], b[RowBelow(i, 1)], b[RowBelow(i, 2)], b[RowBelow(i, 3)]))
  }

  /** The byte of MixColumns(b) k rows below byte i mixes the same four
      bytes of b as byte i does, rotated by k. */
  lemma MixColumnsBelow(b: seq<bv8>, i: int, k: bv8)
    requires |b| == 16 && 0 <= i < 16
    ensures MixColumns(b)[RowBelow(i, k)]
         == MixRow(b[RowBelow(i, k)], b[RowBelow(i, k + 1)], b[RowBelow(i, k + 2)], b[RowBelow(i, k + 3)])
  {
    RowBelowAdds(i, k, 1);
    RowBelowAdds(i, k, 2);
    RowBelowAdds(i, k, 3);
  }

  lemma MixColumnsRUndoesMixColumnsAt(b: seq<bv8>, i: int)
    requires |b| == 16 && 0 <= i < 16
    ensures MixColumnsR(MixColumns(b))[i] == b[i]
  {
    MixColumnsBelow(b, i, 0);
    MixColumnsBelow(b, i, 1);
    MixColumnsBelow(b, i, 2);
    MixColumnsBelow(b, i, 3);
    RowBelowWraps(i, 0);
    RowBelowWraps(i, 1);
    RowBelowWraps(i, 2);
    RowBelowZero(i);
    InvMixRowOfMixRows(b[i], b[RowBelow(i, 1)], b[RowBelow(i, 2)], b[RowBelow(i, 3)]);
  }

  /** MixColumnsR undoes MixColumns. */
  lemma MixColumnsRUndoesMixColumns(b: seq<bv8>)
    requires |b| == 16
    ensures MixColumnsR(MixColumns(b)) == b
  {
    forall i | 0 <= i < 16
      ensures MixColumnsR(MixColumns(b))[i] == b[i]
    {
      MixColumnsRUndoesMixColumnsAt(b, i);
    }
    SameBytes(MixColumnsR(MixColumns(b)), b);
  }

  /** Column c of MixColumns(b) is column c of b mixed as section 5.1.3 of
      FIPS 197 says: byte r mixes the bytes of rows r, r + 1, r + 2 and
      r + 3 of the column, cyclically. */
  lemma MixColumnsOfColumn(b: seq<bv8>, c: int)
    requires |b| == 16 && 0 <= c < 4
    ensures MixColumns(b)[4 * c] == MixRow(b[4 * c], b[4 * c + 1], b[4 * c + 2], b[4 * c + 3])
    ensures MixColumns(b)[4 * c + 1] == MixRow(b[4 * c + 1], b[4 * c + 2], b[4 * c + 3], b[4 * c])
    ensures MixColumns(b)[4 * c + 2] == MixRow(b[4 * c + 2], b[4 * c + 3], b[4 * c], b[4 * c + 1])
    ensures MixColumns(b)[4 * c + 3] == MixRow(b[4 * c + 3], b[4 * c], b[4 * c + 1], b[4 * c + 2])
  {
    MixColumnsRow(b, c, 0, 1, 2, 3, 4 * c, 4 * c + 1, 4 * c + 2, 4 * c + 3);
    MixColumnsRow(b, c, 1, 2, 3, 0, 4 * c + 1, 4 * c + 2, 4 * c + 3, 4 * c);
    MixColumnsRow(b, c, 2, 3, 0, 1, 4 * c + 2, 4 * c + 3, 4 * c, 4 * c + 1);
    MixColumnsRow(b, c, 3, 0, 1, 2, 4 * c + 3, 4 * c, 4 * c + 1, 4 * c + 2);
  }

  /** Column c of MixColumnsR(b) is column c of b mixed as section 5.3.3 of
      FIPS 197 says. */
  lemma MixColumnsROfColumn(b: seq<bv8>, c: int)
    requires |b| == 16 && 0 <= c < 4
    ensures MixColumnsR(b)[4 * c] == InvMixRow(b[4 * c], b[4 * c + 1], b[4 * c + 2], b[4 * c + 3])
    ensures MixColumnsR(b)[4 * c + 1] == InvMixRow(b[4 * c + 1], b[4 * c + 2], b[4 * c + 3], b[4 * c])
    ensures MixColumnsR(b)[4 * c + 2] == InvMixRow(b[4 * c + 2], b[4 * c + 3], b[4 * c], b[4 * c + 1])
    ensures MixColumnsR(b)[4 * c + 3] == InvMixRow(b[4 * c + 3], b[4 * c], b[4 * c + 1], b[4 * c + 2])
  {
    MixColumnsRRow(b, c, 0, 1, 2, 3, 4 * c, 4 * c + 1, 4 * c + 2, 4 * c + 3);
    MixColumnsRRow(b, c, 1, 2, 3, 0, 4 * c + 1, 4 * c + 2, 4 * c + 3, 4 * c);
    MixColumnsRRow(b, c, 2, 3, 0, 1, 4 * c + 2, 4 * c + 3, 4 * c, 4 * c + 1);
    MixColumnsRRow(b, c, 3, 0, 1, 2, 4 * c + 3, 4 * c, 4 * c + 1, 4 * c + 2);
  }

  /** Byte i = 4c + r of MixColumns(b) mixes the bytes of rows r, r + 1,
      r + 2 and r + 3 of column c, cyclically. */
  lemma MixColumnsRow(b: seq<bv8>, c: int, r: int, r1: int, r2: int, r3: int, i: int, j1: int, j2: int, j3: int)
    requires |b| == 16 && 0 <= c < 4 && 0 <= r < 4 && 0 <= r1 < 4 && 0 <= r2 < 4 && 0 <= r3 < 4
    requires r + 1 == r1 || r + 1 == r1 + 4
    requires r + 2 == r2 || r + 2 == r2 + 4
    requires r + 3 == r3 || r + 3 == r3 + 4
    requires i == 4 * c + r && j1 == 4 * c + r1 && j2 == 4 * c + r2 && j3 == 4 * c + r3
    ensures MixColumns(b)[i] == MixRow(b[i], b[j1], b[j2], b[j3])
  {
    RowBelowIs(c, r, 1, r1);
    RowBelowIs(c, r, 2, r2);
    RowBelowIs(c, r, 3, r3);
  }

  /** The same for MixColumnsR. */
  lemma MixColumnsRRow(b: seq<bv8>, c: int, r: int, r1: int, r2: int, r3: int, i: int, j1: int, j2: int, j3: int)
    requires |b| == 16 && 0 <= c < 4 && 0 <= r < 4 && 0 <= r1 < 4 && 0 <= r2 < 4 && 0 <= r3 < 4
    requires r + 1 == r1 || r + 1 == r1 + 4
    requires r + 2 == r2 || r + 2 == r2 + 4
    requires r + 3 == r3 || r + 3 == r3 + 4
    requires i == 4 * c + r && j1 == 4 * c + r1 && j2 == 4 * c + r2 && j3 == 4 * c + r3
    ensures MixColumnsR(b)[i] == InvMixRow(b[i], b[j1], b[j2], b[j3])
  {
    RowBelowIs(c, r, 1, r1);
    RowBelowIs(c, r, 2, r2);
    RowBelowIs(c, r, 3, r3);
  }

  /** Row j is k rows below row r of the same column, cyclically. */
  lemma RowBelowIs(c: int, r: int, k: bv8, j: int)
    requires 0 <= c < 4 && 0 <= r < 4 && 0 <= j < 4 && k < 4
    requires r + k as int == j || r + k as int == j + 4
    ensures RowBelow(4 * c + r, k) == 4 * c + j
  {
    RowBelowInColumn(c, r, k);
  }

  /** Blocks with the same 16 bytes are equal. */
  lemma SameBytes(x: seq<bv8>, y: seq<bv8>)
    requires |x| == 16 && |y| == 16
    requires forall i | 0 <= i < 16 :: x[i] == y[i]
    ensures x == y
  {
  }

  /** The 16 bytes of round key words k to k + 3, each word little-endian. */
  function RoundKey(w: seq<bv32>, k: nat): (rk: seq<bv8>)
    requires k + 4 <= |w|
    ensures |rk| == 16
  {
    Lanes(w[k]) + Lanes(w[k + 1]) + Lanes(w[k + 2]) + Lanes(w[k + 3])
  }

  /** Byte r of column c of the round key is byte r of word k + c. */
  lemma RoundKeyColumn(w: seq<bv32>, k: nat, c: int)
    requires k + 4 <= |w| && 0 <= c < 4
    ensures RoundKey(w, k)[4 * c] == Byte0(w[k + c])
    ensures RoundKey(w, k)[4 * c + 1] == Byte1(w[k + c])
    ensures RoundKey(w, k)[4 * c + 2] == Byte2(w[k + c])
    ensures RoundKey(w, k)[4 * c + 3] == Byte3(w[k + c])
  {
    var l0, l1, l2, l3 := Lanes(w[k]), Lanes(w[k + 1]), Lanes(w[k + 2]), Lanes(w[k + 3]);
    assert RoundKey(w, k) == l0 + l1 + l2 + l3;
    var rk := l0 + l1 + l2 + l3;
    if c == 0 {
      assert rk[..4] == l0;
    } else if c == 1 {
      assert rk[4..8] == l1;
    } else if c == 2 {
      assert rk[8..12] == l2;
    } else {
      assert rk[12..] == l3;
    }
  }

  /** AddRoundKey(d, &Key[k]): the XorBlock of the round key into the block. */
  function AddRoundKey(b: seq<bv8>, w: seq<bv32>, k: nat): (r: seq<bv8>)
    requires |b| == 16 && k + 4 <= |w|
    ensures |r| == 16
  {
    XorBlock(RoundKey(w, k), b)
  }

  lemma AddRoundKeyTwice(b: seq<bv8>, w: seq<bv32>, k: nat)
    requires |b| == 16 && k + 4 <= |w|
    ensures AddRoundKey(AddRoundKey(b, w, k), w, k) == b
  {
    XorBlockTwice(RoundKey(w, k), b);
  }

  // ---------------------------------------------------------------------
  // The block cipher
  // ---------------------------------------------------------------------

  /** The block at the start of round r of AesEncryptBlock, when the loop
      variable is 4r: r full rounds applied to b. */
  function RoundState(w: seq<bv32>, b: seq<bv8>, r: nat): (s: seq<bv8>)
    requires |b| == 16 && 4 * r <= |w|
    ensures |s| == 16
    decreases r
  {
    if r == 0 then b
    else MixColumns(ShiftRows(SubBytes(AddRoundKey(RoundState(w, b, r - 1), w, 4 * (r - 1)))))
  }

  /** The block after SubBytes and ShiftRows of round r, before the loop
      either stops or applies MixColumns. */
  function RoundOutput(w: seq<bv32>, b: seq<bv8>, r: nat): (s: seq<bv8>)
    requires |b| == 16 && 4 * r + 4 <= |w|
    ensures |s| == 16
  {
    ShiftRows(SubBytes(AddRoundKey(RoundState(w, b, r), w, 4 * r)))
  }

  /** AesEncryptBlock: rounds - 1 full rounds, then a round without
      MixColumns, then the last round key. */
  function EncryptBlock(w: seq<bv32>, rounds: nat, b: seq<bv8>): (c: seq<bv8>)
    requires |b| == 16 && 1 <= rounds && 4 * (rounds + 1) <= |w|
    ensures |c| == 16
  {
    AddRoundKey(RoundOutput(w, b, rounds - 1), w, 4 * rounds)
  }

  /** The rest of AesEncryptBlock when its loop variable is 4r and the
      block is s: round r, and the rounds after it, and the last round
      key. */
  function EncryptRounds(w: seq<bv32>, rounds: nat, s: seq<bv8>, r: nat): (c: seq<bv8>)
    requires |s| == 16 && r < rounds && 4 * (rounds + 1) <= |w|
    ensures |c| == 16
    decreases rounds - r
  {
    var t := ShiftRows(SubBytes(AddRoundKey(s, w, 4 * r)));
    if r >= rounds - 1 then AddRoundKey(t, w, 4 * rounds)
    else EncryptRounds(w, rounds, MixColumns(t), r + 1)
  }

  /** The last pass of the AesEncryptBlock loop: round r = rounds - 1
      without MixColumns, then the last round key. */
  lemma EncryptRoundsLast(w: seq<bv32>, rounds: nat, s: seq<bv8>, r: nat)
    requires |s| == 16 && r + 1 == rounds && 4 * (rounds + 1) <= |w|
    ensures EncryptRounds(w, rounds, s, r) == AddRoundKey(ShiftRows(SubBytes(AddRoundKey(s, w, 4 * r))), w, 4 * rounds)
  {
  }

  /** A pass of the AesEncryptBlock loop that does not stop: round r with
      MixColumns, then round r + 1. */
  lemma EncryptRoundsNext(w: seq<bv32>, rounds: nat, s: seq<bv8>, r: nat)
    requires |s| == 16 && r + 1 < rounds && 4 * (rounds + 1) <= |w|
    ensures EncryptRounds(w, rounds, s, r) == EncryptRounds(w, rounds, MixColumns(ShiftRows(SubBytes(AddRoundKey(s, w, 4 * r)))), r + 1)
  {
  }

  /** Encrypting a plaintext is finishing the encryption from round 0. */
  lemma EncryptRoundsFromStart(w: seq<bv32>, rounds: nat, b: seq<bv8>)
    requires |b| == 16 && 1 <= rounds && 4 * (rounds + 1) <= |w|
    ensures EncryptRounds(w, rounds, b, 0) == EncryptBlock(w, rounds, b)
  {
    EncryptRoundsFromState(w, rounds, b, 0, rounds - 1);
    EncryptRoundsLastState(w, rounds, b);
  }

  /** Finishing the encryption from the block at the start of round r is
      finishing it from the block at the start of the last round. */
  lemma EncryptRoundsFromState(w: seq<bv32>, rounds: nat, b: seq<bv8>, r: nat, last: nat)
    requires |b| == 16 && r <= last && last + 1 == rounds && 4 * (rounds + 1) <= |w|
    ensures EncryptRounds(w, rounds, RoundState(w, b, r), r) == EncryptRounds(w, rounds, RoundState(w, b, last), last)
    decreases last - r
  {
    if r < last {
      EncryptRoundsFromState(w, rounds, b, r + 1, last);
      EncryptRoundsStateStep(w, rounds, b, r);
    }
  }

  /** The last round from the block at its start gives the encryption. */
  lemma EncryptRoundsLastState(w: seq<bv32>, rounds: nat, b: seq<bv8>)
    requires |b| == 16 && 1 <= rounds && 4 * (rounds + 1) <= |w|
    ensures EncryptRounds(w, rounds, RoundState(w, b, rounds - 1), rounds - 1) == EncryptBlock(w, rounds, b)
  {
    EncryptRoundsLast(w, rounds, RoundState(w, b, rounds - 1), rounds - 1);
  }

  /** Round r takes the block at the start of round r to the block at the
      start of round r + 1. */
  lemma EncryptRoundsStateStep(w: seq<bv32>, rounds: nat, b: seq<bv8>, r: nat)
    requires |b| == 16 && r + 1 < rounds && 4 * (rounds + 1) <= |w|
    ensures EncryptRounds(w, rounds, RoundState(w, b, r), r) == EncryptRounds(w, rounds, RoundState(w, b, r + 1), r + 1)
  {
    EncryptRoundsNext(w, rounds, RoundState(w, b, r), r);
  }

  /** The rest of AesDecryptBlock when its loop variable is 4r and the
      block is s: undo round r, and the rounds below it. */
  function DecryptRounds(w: seq<bv32>, s: seq<bv8>, r: nat): (p: seq<bv8>)
    requires |s| == 16 && 4 * r + 4 <= |w|
    ensures |p| == 16
    decreases r
  {
    var t := AddRoundKey(SubBytesR(ShiftRowsR(s)), w, 4 * r);
    if r == 0 then t else DecryptRounds(w, MixColumnsR(t), r - 1)
  }

  /** One pass of the AesDecryptBlock loop that does not stop: undo
      round r, apply MixColumnsR, go on with round r - 1. */
  lemma DecryptRoundsNext(w: seq<bv32>, s: seq<bv8>, r: nat)
    requires |s| == 16 && 4 * r + 4 <= |w| && 0 < r
    ensures DecryptRounds(w, s, r) == DecryptRounds(w, MixColumnsR(AddRoundKey(SubBytesR(ShiftRowsR(s)), w, 4 * r)), r - 1)
  {
  }

  /** AesDecryptBlock: the last round key, then the rounds in reverse. */
  function DecryptBlock(w: seq<bv32>, rounds: nat, c: seq<bv8>): (p: seq<bv8>)
    requires |c| == 16 && 1 <= rounds && 4 * (rounds + 1) <= |w|
    ensures |p| == 16
  {
    DecryptRounds(w, AddRoundKey(c, w, 4 * rounds), rounds - 1)
  }

  /** Undoing round r and those below it, on the block that round r of
      the encryption produced before MixColumns, gives the plaintext. */
  lemma {:induction false} DecryptRoundsUndoesRounds(w: seq<bv32>, b: seq<bv8>, r: nat)
    requires |b| == 16 && 4 * r + 4 <= |w|
    ensures DecryptRounds(w, RoundOutput(w, b, r), r) == b
  {
    var s := RoundState(w, b, r);
    ShiftRowsRUndoesShiftRows(SubBytes(AddRoundKey(s, w, 4 * r)));
    SubBytesRUndoesSubBytes(AddRoundKey(s, w, 4 * r));
    AddRoundKeyTwice(s, w, 4 * r);
    if r > 0 {
      MixColumnsRUndoesMixColumns(RoundOutput(w, b, r - 1));
      DecryptRoundsUndoesRounds(w, b, r - 1);
    }
  }

  /** With the same key schedule, AesDecryptBlock undoes AesEncryptBlock. */
  lemma DecryptUndoesEncrypt(w: seq<bv32>, rounds: nat, b: seq<bv8>)
    requires |b| == 16 && 1 <= rounds && 4 * (rounds + 1) <= |w|
    ensures DecryptBlock(w, rounds, EncryptBlock(w, rounds, b)) == b
  {
    DecryptBlockStart(w, rounds, RoundOutput(w, b, rounds - 1));
    DecryptRoundsUndoesRounds(w, b, rounds - 1);
  }

  /** Decryption first removes the last round key that encryption added. */
  lemma DecryptBlockStart(w: seq<bv32>, rounds: nat, y: seq<bv8>)
    requires |y| == 16 && 1 <= rounds && 4 * (rounds + 1) <= |w|
    ensures DecryptBlock(w, rounds, AddRoundKey(y, w, 4 * rounds)) == DecryptRounds(w, y, rounds - 1)
  {
    AddRoundKeyTwice(y, w, 4 * rounds);
  }
}
