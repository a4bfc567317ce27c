/**
 * vlmcsd's software AES as it runs: every operation changes a block of 16
 * bytes in place, at an offset into a byte buffer (the CBC routines pass
 * pointers into the middle of their data), and the context holds the
 * expanded key in an array of 48 words. Each method is proved to compute
 * the function of the same name in AesSpec, AesKeySchedule or AesModes,
 * and to leave every other byte as it was.
 */
module Aes {
  import opened Wrappers
  import opened AesTables
  import opened AesField
  import opened AesKeySchedule
  import AesSpec
  import AesModes

  /** The 16 bytes of a at offset off. */
  function Blk(a: seq<bv8>, off: nat): (b: AesModes.Block)
    requires off + 16 <= |a|
  {
    a[off..off + 16]
  }

  /** x and y agree everywhere except perhaps on the block at off. */
  ghost predicate Outside(x: seq<bv8>, y: seq<bv8>, off: nat)
  {
    |x| == |y| && forall t | 0 <= t < |x| && !(off <= t < off + 16) :: x[t] == y[t]
  }

  lemma OutsideTrans(x: seq<bv8>, y: seq<bv8>, z: seq<bv8>, off: nat)
    requires Outside(x, y, off) && Outside(y, z, off)
    ensures Outside(x, z, off)
  {
  }

  /** The 32-bit word stored little-endian at a[p..p + 4]: a DWORD read
      through a cast pointer on a little-endian machine. */
  function LoadWord(a: array<bv8>, p: nat): bv32
    requires p + 4 <= a.Length
    reads a
  {
    Pack(a[p], a[p + 1], a[p + 2], a[p + 3])
  }

  /** A DWORD store through a cast pointer: the four bytes of w, least
      significant first. */
  method StoreWord(a: array<bv8>, p: nat, w: bv32)
    requires p + 4 <= a.Length
    modifies a
    ensures a[p] == Byte0(w) && a[p + 1] == Byte1(w) && a[p + 2] == Byte2(w) && a[p + 3] == Byte3(w)
    ensures forall k | 0 <= k < a.Length && !(p <= k < p + 4) :: a[k] == old(a[k])
  {
    a[p], a[p + 1], a[p + 2], a[p + 3] := Byte0(w), Byte1(w), Byte2(w), Byte3(w);
  }

  // ---------------------------------------------------------------------
  // Block operations
  // ---------------------------------------------------------------------

  /** XorBlock(in, out): out ^= in, one DWORD at a time. The two blocks may
      lie in the same buffer but do not overlap. */
  method XorBlock(src: array<bv8>, si: nat, dst: array<bv8>, di: nat)
    requires si + 16 <= src.Length && di + 16 <= dst.Length
    requires src == dst ==> si + 16 <= di || di + 16 <= si
    modifies dst
    ensures Blk(dst[..], di) == AesSpec.XorBlock(Blk(old(src[..]), si), Blk(old(dst[..]), di))
    ensures forall k | 0 <= k < dst.Length && !(di <= k < di + 16) :: dst[k] == old(dst[k])
  {
    ghost var S, O := src[..], dst[..];
    for i := 0 to 4
      invariant forall t | di <= t < di + 4 * i :: dst[t] == Add(O[t], S[si + (t - di)])
      invariant forall t | 0 <= t < dst.Length && !(di <= t < di + 4 * i) :: dst[t] == O[t]
      invariant src != dst ==> src[..] == S
    {
      XorWordAt(src, si, dst, di, i, S, O);
    }
    SameBlock(dst[..], di, AesSpec.XorBlock(Blk(S, si), Blk(O, di)));
  }

  /** One pass of XorBlock: DWORD i of out ^= DWORD i of in. */
  method XorWordAt(src: array<bv8>, si: nat, dst: array<bv8>, di: nat, i: nat, ghost S: seq<bv8>, ghost O: seq<bv8>)
    requires si + 16 <= src.Length && di + 16 <= dst.Length && i < 4
    requires src == dst ==> si + 16 <= di || di + 16 <= si
    requires |S| == src.Length && |O| == dst.Length && (src == dst ==> S == O)
    requires forall t | di <= t < di + 4 * i :: dst[t] == Add(O[t], S[si + (t - di)])
    requires forall t | 0 <= t < dst.Length && !(di <= t < di + 4 * i) :: dst[t] == O[t]
    requires src != dst ==> src[..] == S
    modifies dst
    ensures forall t | di <= t < di + 4 * (i + 1) :: dst[t] == Add(O[t], S[si + (t - di)])
    ensures forall t | 0 <= t < dst.Length && !(di <= t < di + 4 * (i + 1)) :: dst[t] == O[t]
    ensures src != dst ==> src[..] == S
  {
    var p, q := di + 4 * i, si + 4 * i;
    ghost var d0, d1, d2, d3 := dst[p], dst[p + 1], dst[p + 2], dst[p + 3];
    ghost var s0, s1, s2, s3 := src[q], src[q + 1], src[q + 2], src[q + 3];
    var x := Xor(LoadWord(dst, p), LoadWord(src, q));
    XorWordBytes(d0, d1, d2, d3, s0, s1, s2, s3, x);
    assert d0 == O[p] && d1 == O[p + 1] && d2 == O[p + 2] && d3 == O[p + 3];
    assert s0 == S[q] && s1 == S[q + 1] && s2 == S[q + 2] && s3 == S[q + 3];
    StoreWord(dst, p, x);
    forall t | di <= t < p + 4
      ensures dst[t] == Add(O[t], S[si + (t - di)])
    {
      if t < p {
      } else if t == p {
      } else if t == p + 1 {
      } else if t == p + 2 {
      } else {
      }
    }
  }

  /** The byte loop SubBytes and SubBytesR share: block[i] = box[block[i]]
      for every i, with box the table SBox or SBoxR. */
  method SubstituteBytes(a: array<bv8>, off: nat, box: bv8 -> bv8)
    requires off + 16 <= a.Length
    modifies a
    ensures forall t | off <= t < off + 16 :: a[t] == box(old(a[t]))
    ensures forall k | 0 <= k < a.Length && !(off <= k < off + 16) :: a[k] == old(a[k])
  {
    ghost var O := a[..];
    for i := 0 to 16
      invariant forall t | off <= t < off + i :: a[t] == box(O[t])
      invariant forall t | 0 <= t < a.Length && !(off <= t < off + i) :: a[t] == O[t]
    {
      a[off + i] := box(a[off + i]);
    }
  }

  /** SubBytes: every byte of the block replaced through SBox. */
  method SubBytes(a: array<bv8>, off: nat)
    requires off + 16 <= a.Length
    modifies a
    ensures Blk(a[..], off) == AesSpec.SubBytes(Blk(old(a[..]), off))
    ensures forall k | 0 <= k < a.Length && !(off <= k < off + 16) :: a[k] == old(a[k])
  {
    ghost var O := a[..];
    SubstituteBytes(a, off, SBox);
    SameBlock(a[..], off, AesSpec.SubBytes(Blk(O, off)));
  }

  /** SubBytesR: every byte of the block replaced through SBoxR. */
  method SubBytesR(a: array<bv8>, off: nat)
    requires off + 16 <= a.Length
    modifies a
    ensures Blk(a[..], off) == AesSpec.SubBytesR(Blk(old(a[..]), off))
    ensures forall k | 0 <= k < a.Length && !(off <= k < off + 16) :: a[k] == old(a[k])
  {
    ghost var O := a[..];
    SubstituteBytes(a, off, SBoxR);
    SameBlock(a[..], off, AesSpec.SubBytesR(Blk(O, off)));
  }

  /** ShiftRows: the block copied to bIn, then byte i taken from
      bIn[(i + ((i & 3) << 2)) & 0xf]. */
  method ShiftRows(a: array<bv8>, off: nat)
    requires off + 16 <= a.Length
    modifies a
    ensures Blk(a[..], off) == AesSpec.ShiftRows(Blk(old(a[..]), off))
    ensures forall k | 0 <= k < a.Length && !(off <= k < off + 16) :: a[k] == old(a[k])
  {
    ghost var O := a[..];
    var bIn := a[off..off + 16];
    for i := 0 to 16
      invariant forall t | off <= t < off + i :: a[t] == bIn[AesSpec.ShiftIndex(t - off)]
      invariant forall t | 0 <= t < a.Length && !(off <= t < off + i) :: a[t] == O[t]
    {
      a[off + i] := bIn[AesSpec.ShiftIndex(i)];
    }
    SameBlock(a[..], off, AesSpec.ShiftRows(Blk(O, off)));
  }

  /** ShiftRowsR: the block copied, then byte i taken from
      b[(i - ((i & 3) << 2)) & 0xf]. */
  method ShiftRowsR(a: array<bv8>, off: nat)
    requires off + 16 <= a.Length
    modifies a
    ensures Blk(a[..], off) == AesSpec.ShiftRowsR(Blk(old(a[..]), off))
    ensures forall k | 0 <= k < a.Length && !(off <= k < off + 16) :: a[k] == old(a[k])
  {
    ghost var O := a[..];
    var b := a[off..off + 16];
    for i := 0 to 16
      invariant forall t | off <= t < off + i :: a[t] == b[AesSpec.ShiftIndexR(t - off)]
      invariant forall t | 0 <= t < a.Length && !(off <= t < off + i) :: a[t] == O[t]
    {
      a[off + i] := b[AesSpec.ShiftIndexR(i)];
    }
    SameBlock(a[..], off, AesSpec.ShiftRowsR(Blk(O, off)));
  }

  /** Column c of M, at M[4c..4c + 4], is what f makes of column c and the
      little-endian word at O[p..p + 4]. */
  ghost predicate ColumnIs(f: (int, bv32) -> bv32, c: int, O: seq<bv8>, p: nat, M: seq<bv8>)
    requires 0 <= c < 4 && p + 4 <= |O| && |M| == 16
  {
    var m := f(c, Pack(O[p], O[p + 1], O[p + 2], O[p + 3]));
    var q := 4 * c;
    M[q] == Byte0(m) && M[q + 1] == Byte1(m) && M[q + 2] == Byte2(m) && M[q + 3] == Byte3(m)
  }

  /** The word loop of MixColumns, MixColumnsR and AddRoundKey: each of the
      four DWORDs of the block, read little-endian, replaced by f of its
      index and of it, f being MixWord, MixWordR or the sum with a round
      key word. M names the block this produces. */
  method UpdateWords(a: array<bv8>, off: nat, f: (int, bv32) -> bv32, ghost M: seq<bv8>)
    requires off + 16 <= a.Length && |M| == 16
    requires forall c | 0 <= c < 4 :: ColumnIs(f, c, a[..], off + 4 * c, M)
    modifies a
    ensures forall t | off <= t < off + 16 :: a[t] == M[t - off]
    ensures forall k | 0 <= k < a.Length && !(off <= k < off + 16) :: a[k] == old(a[k])
  {
    ghost var O := a[..];
    for i := 0 to 4
      invariant forall t | off <= t < off + 4 * i :: a[t] == M[t - off]
      invariant forall t | 0 <= t < a.Length && !(off <= t < off + 4 * i) :: a[t] == O[t]
    {
      UpdateWordAt(a, off, f, M, i, O);
    }
  }

  /** One pass of UpdateWords: DWORD i of the block replaced by f of i and
      of it. */
  method UpdateWordAt(a: array<bv8>, off: nat, f: (int, bv32) -> bv32, ghost M: seq<bv8>, i: nat, ghost O: seq<bv8>)
    requires off + 16 <= a.Length && |M| == 16 && i < 4 && |O| == a.Length
    requires forall c | 0 <= c < 4 :: ColumnIs(f, c, O, off + 4 * c, M)
    requires forall t | off <= t < off + 4 * i :: a[t] == M[t - off]
    requires forall t | 0 <= t < a.Length && !(off <= t < off + 4 * i) :: a[t] == O[t]
    modifies a
    ensures forall t | off <= t < off + 4 * (i + 1) :: a[t] == M[t - off]
    ensures forall t | 0 <= t < a.Length && !(off <= t < off + 4 * (i + 1)) :: a[t] == O[t]
  {
    ghost var p := off + 4 * i;
    assert ColumnIs(f, i, O, p, M);
    assert a[p] == O[p] && a[p + 1] == O[p + 1] && a[p + 2] == O[p + 2] && a[p + 3] == O[p + 3];
    var word := LoadWord(a, off + 4 * i);
    ghost var P := a[..];
    StoreWord(a, off + 4 * i, f(i, word));
    assert a[p] == M[4 * i];
    assert a[p + 1] == M[4 * i + 1];
    assert a[p + 2] == M[4 * i + 2];
    assert a[p + 3] == M[4 * i + 3];
    forall t | off <= t < p + 4
      ensures a[t] == M[t - off]
    {
      if t < p {
        assert a[t] == P[t];
      }
    }
  }

  /** MixColumns: each word of the block replaced by MixWord of it. */
  method MixColumns(a: array<bv8>, off: nat)
    requires off + 16 <= a.Length
    modifies a
    ensures Blk(a[..], off) == AesSpec.MixColumns(Blk(old(a[..]), off))
    ensures forall k | 0 <= k < a.Length && !(off <= k < off + 16) :: a[k] == old(a[k])
  {
    ghost var O := a[..];
    ghost var B := Blk(O, off);
    var f := (c: int, word: bv32) => MixWord(word);
    forall c | 0 <= c < 4
      ensures ColumnIs(f, c, O, off + 4 * c, AesSpec.MixColumns(B))
    {
      MixWordOfColumn(B, c, Pack(O[off + 4 * c], O[off + 4 * c + 1], O[off + 4 * c + 2], O[off + 4 * c + 3]));
    }
    UpdateWords(a, off, f, AesSpec.MixColumns(B));
    SameBlock(a[..], off, AesSpec.MixColumns(B));
  }

  /** MixColumnsR: each word of the block replaced by MixWordR of it. */
  method MixColumnsR(a: array<bv8>, off: nat)
    requires off + 16 <= a.Length
    modifies a
    ensures Blk(a[..], off) == AesSpec.MixColumnsR(Blk(old(a[..]), off))
    ensures forall k | 0 <= k < a.Length && !(off <= k < off + 16) :: a[k] == old(a[k])
  {
    ghost var O := a[..];
    ghost var B := Blk(O, off);
    var f := (c: int, word: bv32) => MixWordR(word);
    forall c | 0 <= c < 4
      ensures ColumnIs(f, c, O, off + 4 * c, AesSpec.MixColumnsR(B))
    {
      MixWordROfColumn(B, c, Pack(O[off + 4 * c], O[off + 4 * c + 1], O[off + 4 * c + 2], O[off + 4 * c + 3]));
    }
    UpdateWords(a, off, f, AesSpec.MixColumnsR(B));
    SameBlock(a[..], off, AesSpec.MixColumnsR(B));
  }

  /** The word MixColumns stores for column c is that column of
      MixColumns(b). */
  lemma MixWordOfColumn(b: seq<bv8>, c: int, w: bv32)
    requires |b| == 16 && 0 <= c < 4
    requires w == Pack(b[4 * c], b[4 * c + 1], b[4 * c + 2], b[4 * c + 3])
    ensures Byte0(MixWord(w)) == AesSpec.MixColumns(b)[4 * c]
    ensures Byte1(MixWord(w)) == AesSpec.MixColumns(b)[4 * c + 1]
    ensures Byte2(MixWord(w)) == AesSpec.MixColumns(b)[4 * c + 2]
    ensures Byte3(MixWord(w)) == AesSpec.MixColumns(b)[4 * c + 3]
  {
    PackBytes(w, b[4 * c], b[4 * c + 1], b[4 * c + 2], b[4 * c + 3]);
    MixWordByte0(w);
    MixWordByte1(w);
    MixWordByte2(w);
    MixWordByte3(w);
    AesSpec.MixColumnsOfColumn(b, c);
  }

  /** The word MixColumnsR stores for column c is that column of
      MixColumnsR(b). */
  lemma MixWordROfColumn(b: seq<bv8>, c: int, w: bv32)
    requires |b| == 16 && 0 <= c < 4
    requires w == Pack(b[4 * c], b[4 * c + 1], b[4 * c + 2], b[4 * c + 3])
    ensures Byte0(MixWordR(w)) == AesSpec.MixColumnsR(b)[4 * c]
    ensures Byte1(MixWordR(w)) == AesSpec.MixColumnsR(b)[4 * c + 1]
    ensures Byte2(MixWordR(w)) == AesSpec.MixColumnsR(b)[4 * c + 2]
    ensures Byte3(MixWordR(w)) == AesSpec.MixColumnsR(b)[4 * c + 3]
  {
    PackBytes(w, b[4 * c], b[4 * c + 1], b[4 * c + 2], b[4 * c + 3]);
    MixWordRByte0(w);
    MixWordRByte1(w);
    MixWordRByte2(w);
    MixWordRByte3(w);
    AesSpec.MixColumnsROfColumn(b, c);
  }

  /** The bytes of the sum of two words stored little-endian. */
  lemma XorWordBytes(a0: bv8, a1: bv8, a2: bv8, a3: bv8, b0: bv8, b1: bv8, b2: bv8, b3: bv8, x: bv32)
    requires x == Xor(Pack(a0, a1, a2, a3), Pack(b0, b1, b2, b3))
    ensures Byte0(x) == Add(a0, b0) && Byte1(x) == Add(a1, b1) && Byte2(x) == Add(a2, b2) && Byte3(x) == Add(a3, b3)
  {
    XorBytes(Pack(a0, a1, a2, a3), Pack(b0, b1, b2, b3));
    PackBytes(0, a0, a1, a2, a3);
    PackBytes(0, b0, b1, b2, b3);
  }

  /** A block whose 16 bytes are those of b is b. */
  lemma SameBlock(a: seq<bv8>, off: nat, b: seq<bv8>)
    requires off + 16 <= |a| && |b| == 16
    requires forall k | 0 <= k < 16 :: a[off + k] == b[k]
    ensures Blk(a, off) == b
  {
    AesSpec.SameBytes(Blk(a, off), b);
  }

  /** One pass of the loop of AesEncryptCbc, on the contents of the
      buffer before (d) and after (d2) it: when the blocks up to off are
      the ciphertext e and those after it still the plaintext p, and the
      pass encrypts block off + 16 chained with block off, then the blocks
      up to off + 16 are the ciphertext. */
  lemma ChainStep(enc: AesModes.Block -> AesModes.Block, p: seq<bv8>, e: seq<bv8>, d: seq<bv8>, d2: seq<bv8>, off: nat, j: nat)
    requires off == 16 * j && off + 32 <= |p| <= |d| && |d2| == |d| && |e| == |p|
    requires AesModes.BlockAt(e, j + 1) == enc(AesModes.Chain(Some(AesModes.BlockAt(e, j)), AesModes.BlockAt(p, j + 1)))
    requires forall t | 0 <= t < off + 16 :: d[t] == e[t]
    requires forall t | off + 16 <= t < |p| :: d[t] == p[t]
    requires Blk(d2, off + 16) == enc(AesModes.Chain(Some(Blk(d, off)), Blk(d, off + 16)))
    requires forall t | 0 <= t < |d| && !(off + 16 <= t < off + 32) :: d2[t] == d[t]
    ensures forall t | 0 <= t < off + 32 :: d2[t] == e[t]
    ensures forall t | off + 32 <= t < |p| :: d2[t] == p[t]
  {
    SameBlock(d, off, AesModes.BlockAt(e, j));
    SameBlock(d, off + 16, AesModes.BlockAt(p, j + 1));
    BlockBytes(d2, off + 16, e, off + 16);
  }

  /** One pass of the loop of AesDecryptCbc, on the contents of the
      buffer before (d) and after (d2) it: when the blocks up to cc + 16
      are the ciphertext c and those after it already the plaintext q, and
      the pass turns block cc into its decryption chained with block
      cc - 16, then the blocks from cc on are the plaintext. */
  lemma UnchainStep(dec: AesModes.Block -> AesModes.Block, c: seq<bv8>, q: seq<bv8>, d: seq<bv8>, d2: seq<bv8>, cc: nat, j: nat)
    requires cc == 16 * j && 16 <= cc && cc + 16 <= |c| <= |d| && |d2| == |d| && |q| == |c|
    requires AesModes.BlockAt(q, j) == AesModes.Chain(Some(AesModes.BlockAt(c, j - 1)), dec(AesModes.BlockAt(c, j)))
    requires forall t | 0 <= t < cc + 16 :: d[t] == c[t]
    requires forall t | cc + 16 <= t < |c| :: d[t] == q[t]
    requires Blk(d2, cc) == AesModes.Chain(Some(Blk(d, cc - 16)), dec(Blk(d, cc)))
    requires forall t | 0 <= t < |d| && !(cc <= t < cc + 16) :: d2[t] == d[t]
    ensures forall t | 0 <= t < cc :: d2[t] == c[t]
    ensures forall t | cc <= t < |c| :: d2[t] == q[t]
  {
    SameBlock(d, cc - 16, AesModes.BlockAt(c, j - 1));
    SameBlock(d, cc, AesModes.BlockAt(c, j));
    BlockBytes(d2, cc, q, cc);
  }

  /** The iv argument of the CBC functions: a null pointer, or the block
      it points to. */
  function IvOf(iv: array?<bv8>): Option<AesModes.Block>
    requires iv != null ==> 16 <= iv.Length
    reads iv
  {
    if iv == null then None else Some(iv[..16])
  }

  /** The padding of AesEncryptCbc: pad = (~len & 15) + 1 bytes, each
      equal to pad, written after the data, and the new length. */
  method PadData(data: array<bv8>, len: nat) returns (n: nat)
    requires len + AesModes.PadLength(len) <= data.Length
    modifies data
    ensures n == len + AesModes.PadLength(len)
    ensures data[..n] == AesModes.Pad(old(data[..len]))
    ensures forall t | n <= t < data.Length :: data[t] == old(data[t])
  {
    ghost var D := data[..len];
    var pad := AesModes.PadLength(len);
    forall j | len <= j < len + pad {
      data[j] := pad as bv8;
    }
    n := len + pad;
    AesModes.PadShape(D);
    forall t | 0 <= t < n
      ensures data[t] == AesModes.Pad(D)[t]
    {
      if t < len {
        assert data[t] == D[t];
      }
    }
  }

  /** The bytes of a block equal to a block of e are those of e. */
  lemma BlockBytes(a: seq<bv8>, off: nat, e: seq<bv8>, k: nat)
    requires off + 16 <= |a| && k + 16 <= |e|
    requires Blk(a, off) == e[k..k + 16]
    ensures forall t | off <= t < off + 16 :: a[t] == e[t - off + k]
  {
    forall t | off <= t < off + 16
      ensures a[t] == e[t - off + k]
    {
      assert a[t] == Blk(a, off)[t - off];
    }
  }

  // ---------------------------------------------------------------------
  // The cipher context
  // ---------------------------------------------------------------------

  /** AesCtx: the expanded key, 48 words, and the number of rounds. */
  class AesCtx {
    const Key: array<bv32>
    var rounds: nat

    /** The context after AesInitKey: a schedule of rounds + 1 round keys
        within the 48 words. */
    predicate Ready()
      reads this
    {
      Key.Length == 48 && 1 <= rounds && 4 * (rounds + 1) <= 48
    }

    /** The used words of the expanded key. */
    function Schedule(): (w: seq<bv32>)
      requires Ready()
      reads this, Key
      ensures |w| == 4 * (rounds + 1)
    {
      Key[..4 * (rounds + 1)]
    }

    /** With 11 rounds the schedule fills all 48 words of the key. */
    lemma WholeSchedule()
      requires Ready() && rounds == 11
      ensures Key[..] == Schedule()
    {
    }

    /** A context with room for the expanded key; AesInitKey fills it. */
    constructor ()
      ensures Key.Length == 48 && fresh(Key)
    {
      Key := new bv32[48];
      rounds := 0;
    }

    /** AddRoundKey(block, &Key[k]): the four key words added to the four
        words of the block. */
    method AddRoundKey(a: array<bv8>, off: nat, k: nat)
      requires off + 16 <= a.Length && k + 4 <= Key.Length
      modifies a
      ensures Blk(a[..], off) == AesSpec.AddRoundKey(Blk(old(a[..]), off), Key[..], k)
      ensures forall t | 0 <= t < a.Length && !(off <= t < off + 16) :: a[t] == old(a[t])
    {
      ghost var O := a[..];
      ghost var B := Blk(O, off);
      var rk := Key[k..k + 4];
      var f := (c: int, word: bv32) => if 0 <= c < 4 then Xor(word, rk[c]) else word;
      forall c | 0 <= c < 4
        ensures ColumnIs(f, c, O, off + 4 * c, AesSpec.AddRoundKey(B, Key[..], k))
      {
        AddKeyColumn(B, Key[..], k, c, Xor(Pack(O[off + 4 * c], O[off + 4 * c + 1], O[off + 4 * c + 2], O[off + 4 * c + 3]), Key[k + c]));
      }
      UpdateWords(a, off, f, AesSpec.AddRoundKey(B, Key[..], k));
      SameBlock(a[..], off, AesSpec.AddRoundKey(B, Key[..], k));
    }

    /** AesEncryptBlock: rounds - 1 full rounds (AddRoundKey, SubBytes,
        ShiftRows, MixColumns), a last round without MixColumns, then the
        last round key; the block is encrypted in place. */
    method EncryptBlock(a: array<bv8>, off: nat)
      requires Ready() && off + 16 <= a.Length
      modifies a
      ensures Blk(a[..], off) == AesSpec.EncryptBlock(Key[..], rounds, Blk(old(a[..]), off))
      ensures forall t | 0 <= t < a.Length && !(off <= t < off + 16) :: a[t] == old(a[t])
    {
      ghost var B := Blk(a[..], off);
      AesSpec.EncryptRoundsFromStart(Key[..], rounds, B);
      EncryptRoundsLoop(a, off, AesSpec.EncryptBlock(Key[..], rounds, B));
      AddRoundKey(a, off, 4 * rounds);
      assert forall t | 0 <= t < a.Length && !(off <= t < off + 16) :: a[t] == old(a[..])[t];
    }

    /** The loop of AesEncryptBlock, against any block g that the rounds
        and the last round key turn the block into: when the loop stops,
        only the last round key is missing. */
    method EncryptRoundsLoop(a: array<bv8>, off: nat, ghost g: seq<bv8>)
      requires Ready() && off + 16 <= a.Length
      requires AesSpec.EncryptRounds(Key[..], rounds, Blk(a[..], off), 0) == g
      modifies a
      ensures AesSpec.AddRoundKey(Blk(a[..], off), Key[..], 4 * rounds) == g
      ensures Outside(old(a[..]), a[..], off)
    {
      ghost var A := a[..];
      var i := 0;
      ghost var r: nat := 0;
      while true
        invariant i == 4 * r && r < rounds
        invariant AesSpec.EncryptRounds(Key[..], rounds, Blk(a[..], off), r) == g
        invariant Outside(A, a[..], off)
        decreases rounds - r
      {
        ghost var S := a[..];
        var last := EncryptPass(a, off, i, r, g);
        OutsideTrans(A, S, a[..], off);
        if last {
          break;
        }
        i := i + 4;
        r := r + 1;
      }
    }

    /** One pass of the AesEncryptBlock loop: AddRoundKey with the words
        from i, SubBytes, ShiftRows and, unless this was the last round
        (i >= 4 * (rounds - 1)), MixColumns. */
    method EncryptPass(a: array<bv8>, off: nat, i: nat, ghost r: nat, ghost g: seq<bv8>) returns (last: bool)
      requires Ready() && off + 16 <= a.Length && i == 4 * r && r < rounds
      requires AesSpec.EncryptRounds(Key[..], rounds, Blk(a[..], off), r) == g
      modifies a
      ensures last <==> r == rounds - 1
      ensures last ==> AesSpec.AddRoundKey(Blk(a[..], off), Key[..], 4 * rounds) == g
      ensures !last ==> AesSpec.EncryptRounds(Key[..], rounds, Blk(a[..], off), r + 1) == g
      ensures Outside(old(a[..]), a[..], off)
    {
      ghost var S := Blk(a[..], off);
      ForwardRound(a, off, i);
      last := i >= (rounds - 1) * 4;
      if last {
        AesSpec.EncryptRoundsLast(Key[..], rounds, S, r);
      } else {
        MixColumns(a, off);
        AesSpec.EncryptRoundsNext(Key[..], rounds, S, r);
      }
    }

    /** The steps of an AesEncryptBlock round before the loop test:
        AddRoundKey with the words from k, SubBytes, ShiftRows. */
    method ForwardRound(a: array<bv8>, off: nat, k: nat)
      requires off + 16 <= a.Length && k + 4 <= Key.Length
      modifies a
      ensures Blk(a[..], off) == AesSpec.ShiftRows(AesSpec.SubBytes(AesSpec.AddRoundKey(Blk(old(a[..]), off), Key[..], k)))
      ensures forall t | 0 <= t < a.Length && !(off <= t < off + 16) :: a[t] == old(a[t])
    {
      AddRoundKey(a, off, k);
      SubBytes(a, off);
      ShiftRows(a, off);
    }

    /** AesDecryptBlock: the last round key, then the rounds in reverse
        (ShiftRowsR, SubBytesR, AddRoundKey, and MixColumnsR except after
        round 0); the block is decrypted in place. */
    method DecryptBlock(a: array<bv8>, off: nat)
      requires Ready() && off + 16 <= a.Length
      modifies a
      ensures Blk(a[..], off) == AesSpec.DecryptBlock(Key[..], rounds, Blk(old(a[..]), off))
      ensures forall t | 0 <= t < a.Length && !(off <= t < off + 16) :: a[t] == old(a[t])
    {
      ghost var C := Blk(a[..], off);
      AddRoundKey(a, off, 4 * rounds);
      DecryptRoundsLoop(a, off, AesSpec.DecryptBlock(Key[..], rounds, C));
      assert forall t | 0 <= t < a.Length && !(off <= t < off + 16) :: a[t] == old(a[..])[t];
    }

    /** The loop of AesDecryptBlock, against any block g that undoing
        every round turns the block into. */
    method DecryptRoundsLoop(a: array<bv8>, off: nat, ghost g: seq<bv8>)
      requires Ready() && off + 16 <= a.Length
      requires AesSpec.DecryptRounds(Key[..], Blk(a[..], off), rounds - 1) == g
      modifies a
      ensures Blk(a[..], off) == g
      ensures Outside(old(a[..]), a[..], off)
    {
      ghost var A := a[..];
      ghost var w := Key[..];
      var i := 4 * (rounds - 1);
      ghost var r: nat := rounds - 1;
      while true
        invariant i == 4 * r && r < rounds
        invariant AesSpec.DecryptRounds(w, Blk(a[..], off), r) == g
        invariant Outside(A, a[..], off)
        decreases r
      {
        var last := DecryptPass(a, off, i, r, g, A);
        if last {
          break;
        }
        r := r - 1;
        i := i - 4;
      }
    }

    /** One pass of the AesDecryptBlock loop: ShiftRowsR, SubBytesR,
        AddRoundKey with the words from i and, unless this was round 0
        (i == 0), MixColumnsR. */
    method DecryptPass(a: array<bv8>, off: nat, i: nat, ghost r: nat, ghost g: seq<bv8>, ghost A: seq<bv8>) returns (last: bool)
      requires Ready() && off + 16 <= a.Length && i == 4 * r && r < rounds
      requires AesSpec.DecryptRounds(Key[..], Blk(a[..], off), r) == g
      requires Outside(A, a[..], off)
      modifies a
      ensures last <==> r == 0
      ensures last ==> Blk(a[..], off) == g
      ensures !last ==> AesSpec.DecryptRounds(Key[..], Blk(a[..], off), r - 1) == g
      ensures Outside(A, a[..], off)
    {
      ghost var S := Blk(a[..], off);
      ghost var O := a[..];
      InverseRound(a, off, i);
      last := i == 0;
      if !last {
        MixColumnsR(a, off);
        AesSpec.DecryptRoundsNext(Key[..], S, r);
      }
      OutsideTrans(A, O, a[..], off);
    }

    /** The steps of an AesDecryptBlock round before the loop test:
        ShiftRowsR, SubBytesR, AddRoundKey with the words from k. */
    method InverseRound(a: array<bv8>, off: nat, k: nat)
      requires off + 16 <= a.Length && k + 4 <= Key.Length
      modifies a
      ensures Blk(a[..], off) == AesSpec.AddRoundKey(AesSpec.SubBytesR(AesSpec.ShiftRowsR(Blk(old(a[..]), off))), Key[..], k)
      ensures forall t | 0 <= t < a.Length && !(off <= t < off + 16) :: a[t] == old(a[t])
    {
      ShiftRowsR(a, off);
      SubBytesR(a, off);
      AddRoundKey(a, off, k);
    }

    /** enc is AesEncryptBlock under this context, as a function on
        blocks. */
    ghost predicate Encrypts(enc: AesModes.Block -> AesModes.Block)
      requires Ready()
      reads this, Key
    {
      forall x: AesModes.Block :: enc(x) == AesSpec.EncryptBlock(Key[..], rounds, x)
    }

    /** AesEncryptCbc: the data padded in place to whole blocks, the iv
        (when there is one) added to the first block, and every block
        encrypted after the ciphertext block before it has been added. */
    method EncryptCbc(iv: array?<bv8>, data: array<bv8>, len: nat) returns (n: nat)
      requires Ready()
      requires iv != null ==> 16 <= iv.Length && iv != data
      requires len + AesModes.PadLength(len) <= data.Length
      modifies data
      ensures n == len + AesModes.PadLength(len)
      ensures data[..n] == AesModes.CbcEncrypt(AesModes.Encryptor(Key[..], rounds), old(IvOf(iv)), AesModes.Pad(old(data[..len])))
      ensures forall t | n <= t < data.Length :: data[t] == old(data[t])
    {
      n := PadData(data, len);
      ghost var enc := AesModes.Encryptor(Key[..], rounds);
      assert Encrypts(enc);
      ChainBlocks(iv, data, n, enc);
    }

    /** The chaining of AesEncryptCbc on n bytes of whole blocks: the
        first block encrypted after the iv (when there is one) has been
        added, and the loop over the blocks after it. */
    method ChainBlocks(iv: array?<bv8>, data: array<bv8>, n: nat, ghost enc: AesModes.Block -> AesModes.Block)
      requires Ready() && Encrypts(enc)
      requires iv != null ==> 16 <= iv.Length && iv != data
      requires n % 16 == 0 && 16 <= n <= data.Length
      modifies data
      ensures data[..n] == AesModes.CbcEncrypt(enc, old(IvOf(iv)), old(data[..n]))
      ensures forall t | n <= t < data.Length :: data[t] == old(data[t])
    {
      ghost var P := data[..n];
      ghost var E := AesModes.CbcEncrypt(enc, IvOf(iv), P);
      AesModes.CbcEncryptBlockAt(enc, IvOf(iv), P, 0);
      ChainStart(iv, data, n, enc, P, E);
      AesModes.CbcEncryptChains(enc, IvOf(iv), P);
      ChainLoop(data, n, enc, P, E);
    }

    /** The first block of AesEncryptCbc against any ciphertext e whose
        first block is the plaintext's first block chained with the iv
        and encrypted. */
    method ChainStart(iv: array?<bv8>, data: array<bv8>, n: nat, ghost enc: AesModes.Block -> AesModes.Block, ghost p: seq<bv8>, ghost e: seq<bv8>)
      requires Ready() && Encrypts(enc)
      requires iv != null ==> 16 <= iv.Length && iv != data
      requires 16 <= n <= data.Length && p == data[..n] && |e| == n
      requires e[0..16] == enc(AesModes.Chain(IvOf(iv), p[0..16]))
      modifies data
      ensures forall t | 0 <= t < 16 :: data[t] == e[t]
      ensures forall t | 16 <= t < n :: data[t] == p[t]
      ensures forall t | n <= t < data.Length :: data[t] == old(data[t])
    {
      SameBlock(data[..], 0, p[0..16]);
      FirstBlock(iv, data, enc);
      BlockBytes(data[..], 0, e, 0);
    }

    /** The loop of AesEncryptCbc over the blocks after the first: each
        pass encrypts the next block chained with the ciphertext block
        before it, so when the first block of data is block 0 of e and the
        others are still the plaintext p, the loop leaves e in data when e
        keeps the chaining equation of CBC encryption of p. */
    method ChainLoop(data: array<bv8>, n: nat, ghost enc: AesModes.Block -> AesModes.Block, ghost p: seq<bv8>, ghost e: seq<bv8>)
      requires Ready() && Encrypts(enc)
      requires n % 16 == 0 && 16 <= n <= data.Length && |p| == n && |e| == n
      requires forall j | 0 < j && 16 * j + 16 <= n
        :: AesModes.BlockAt(e, j) == enc(AesModes.Chain(Some(AesModes.BlockAt(e, j - 1)), AesModes.BlockAt(p, j)))
      requires forall t | 0 <= t < 16 :: data[t] == e[t]
      requires forall t | 16 <= t < n :: data[t] == p[t]
      modifies data
      ensures data[..n] == e
      ensures forall t | n <= t < data.Length :: data[t] == old(data[t])
    {
      ghost var m := n / 16;
      var i := n - 16;
      var off := 0;
      ghost var j := 0;
      while i != 0
        invariant off == 16 * j && i == 16 * (m - 1 - j) && j < m
        invariant forall t | 0 <= t < off + 16 :: data[t] == e[t]
        invariant forall t | off + 16 <= t < n :: data[t] == p[t]
        invariant forall t | n <= t < data.Length :: data[t] == old(data[t])
      {
        ChainNext(data, off, j, enc, p, e);
        off := off + 16;
        i := i - 16;
        j := j + 1;
      }
      assert data[..n] == e;
    }

    /** One pass of the loop of AesEncryptCbc: block off + 16 of the
        plaintext p is encrypted chained with ciphertext block off, so the
        ciphertext e now reaches up to off + 32. */
    method ChainNext(data: array<bv8>, off: nat, ghost j: nat, ghost enc: AesModes.Block -> AesModes.Block, ghost p: seq<bv8>, ghost e: seq<bv8>)
      requires Ready() && Encrypts(enc)
      requires off == 16 * j && off + 32 <= |p| <= data.Length && |e| == |p|
      requires AesModes.BlockAt(e, j + 1) == enc(AesModes.Chain(Some(AesModes.BlockAt(e, j)), AesModes.BlockAt(p, j + 1)))
      requires forall t | 0 <= t < off + 16 :: data[t] == e[t]
      requires forall t | off + 16 <= t < |p| :: data[t] == p[t]
      modifies data
      ensures forall t | 0 <= t < off + 32 :: data[t] == e[t]
      ensures forall t | off + 32 <= t < |p| :: data[t] == p[t]
      ensures forall t | |p| <= t < data.Length :: data[t] == old(data[t])
    {
      ghost var d := data[..];
      NextBlock(data, off, enc);
      ChainStep(enc, p, e, d, data[..], off, j);
    }

    /** The first block of AesEncryptCbc: the iv added when there is one,
        then the block encrypted. */
    method FirstBlock(iv: array?<bv8>, data: array<bv8>, ghost enc: AesModes.Block -> AesModes.Block)
      requires Ready() && Encrypts(enc) && 16 <= data.Length
      requires iv != null ==> 16 <= iv.Length && iv != data
      modifies data
      ensures Blk(data[..], 0) == enc(AesModes.Chain(IvOf(iv), Blk(old(data[..]), 0)))
      ensures forall t | 16 <= t < data.Length :: data[t] == old(data[t])
    {
      if iv != null {
        XorBlock(iv, 0, data, 0);
      }
      EncryptBlock(data, 0);
    }

    /** One pass of the AesEncryptCbc loop: the ciphertext block at off
        added to the plaintext block after it, which is then encrypted. */
    method NextBlock(data: array<bv8>, off: nat, ghost enc: AesModes.Block -> AesModes.Block)
      requires Ready() && Encrypts(enc) && off + 32 <= data.Length
      modifies data
      ensures Blk(data[..], off + 16) == enc(AesModes.Chain(Some(Blk(old(data[..]), off)), Blk(old(data[..]), off + 16)))
      ensures forall t | 0 <= t < data.Length && !(off + 16 <= t < off + 32) :: data[t] == old(data[t])
    {
      XorBlock(data, off, data, off + 16);
      EncryptBlock(data, off + 16);
    }

    /** dec is AesDecryptBlock under this context's key schedule. */
    ghost predicate Decrypts(dec: AesModes.Block -> AesModes.Block)
      requires Ready()
      reads this, Key
    {
      forall x: AesModes.Block :: dec(x) == AesSpec.DecryptBlock(Key[..], rounds, x)
    }

    /** AesDecryptCbc: from the last block down to the second, each block
        decrypted and the ciphertext block before it added; then the first
        block decrypted and the iv (when there is one) added. */
    method DecryptCbc(iv: array?<bv8>, data: array<bv8>, len: nat)
      requires Ready()
      requires iv != null ==> 16 <= iv.Length && iv != data
      requires len % 16 == 0 && 16 <= len <= data.Length
      modifies data
      ensures data[..len] == AesModes.CbcDecrypt(AesModes.Decryptor(Key[..], rounds), old(IvOf(iv)), old(data[..len]))
      ensures forall t | len <= t < data.Length :: data[t] == old(data[t])
    {
      ghost var dec := AesModes.Decryptor(Key[..], rounds);
      assert Decrypts(dec);
      ghost var C := data[..len];
      ghost var Q := AesModes.CbcDecrypt(dec, IvOf(iv), C);
      AesModes.CbcDecryptChains(dec, IvOf(iv), C);
      AesModes.CbcDecryptBlockAt(dec, IvOf(iv), C, 0);
      UnchainLoop(data, len, dec, C, Q);
      UnchainFirst(iv, data, len, dec, C, Q);
    }

    /** The first block of AesDecryptCbc against any plaintext q whose
        first block is the decrypted first ciphertext block plus the iv,
        once the loop has left the rest of q in data. */
    method UnchainFirst(iv: array?<bv8>, data: array<bv8>, n: nat, ghost dec: AesModes.Block -> AesModes.Block, ghost c: seq<bv8>, ghost q: seq<bv8>)
      requires Ready() && Decrypts(dec)
      requires iv != null ==> 16 <= iv.Length && iv != data
      requires 16 <= n <= data.Length && |c| == n && |q| == n
      requires q[0..16] == AesModes.Chain(IvOf(iv), dec(c[0..16]))
      requires forall t | 0 <= t < 16 :: data[t] == c[t]
      requires forall t | 16 <= t < n :: data[t] == q[t]
      modifies data
      ensures data[..n] == q
      ensures forall t | n <= t < data.Length :: data[t] == old(data[t])
    {
      SameBlock(data[..], 0, c[0..16]);
      FirstPlain(iv, data, dec);
      BlockBytes(data[..], 0, q, 0);
      assert data[..n] == q;
    }

    /** The loop of AesDecryptCbc, from the last block down to the second:
        when q keeps the chaining equation of CBC decryption of c, the
        ciphertext in data, the loop leaves the blocks of q after the first
        in data and the first block as it was. */
    method UnchainLoop(data: array<bv8>, n: nat, ghost dec: AesModes.Block -> AesModes.Block, ghost c: seq<bv8>, ghost q: seq<bv8>)
      requires Ready() && Decrypts(dec)
      requires n % 16 == 0 && 16 <= n <= data.Length && |c| == n && |q| == n
      requires forall j | 0 < j && 16 * j + 16 <= n
        :: AesModes.BlockAt(q, j) == AesModes.Chain(Some(AesModes.BlockAt(c, j - 1)), dec(AesModes.BlockAt(c, j)))
      requires forall t | 0 <= t < n :: data[t] == c[t]
      modifies data
      ensures forall t | 0 <= t < 16 :: data[t] == c[t]
      ensures forall t | 16 <= t < n :: data[t] == q[t]
      ensures forall t | n <= t < data.Length :: data[t] == old(data[t])
    {
      ghost var j := n / 16 - 1;
      var cc := n - 16;
      while cc > 0
        invariant 0 <= j && cc == 16 * j && cc + 16 <= n
        invariant forall t | 0 <= t < cc + 16 :: data[t] == c[t]
        invariant forall t | cc + 16 <= t < n :: data[t] == q[t]
        invariant forall t | n <= t < data.Length :: data[t] == old(data[t])
      {
        UnchainNext(data, cc, j, dec, c, q);
        cc := cc - 16;
        j := j - 1;
      }
    }

    /** One pass of the loop of AesDecryptCbc: block cc decrypted and the
        ciphertext block before it added, giving block cc of the plaintext
        q while the blocks before it are still the ciphertext c. */
    method UnchainNext(data: array<bv8>, cc: nat, ghost j: nat, ghost dec: AesModes.Block -> AesModes.Block, ghost c: seq<bv8>, ghost q: seq<bv8>)
      requires Ready() && Decrypts(dec)
      requires cc == 16 * j && 16 <= cc && cc + 16 <= |c| <= data.Length && |q| == |c|
      requires AesModes.BlockAt(q, j) == AesModes.Chain(Some(AesModes.BlockAt(c, j - 1)), dec(AesModes.BlockAt(c, j)))
      requires forall t | 0 <= t < cc + 16 :: data[t] == c[t]
      requires forall t | cc + 16 <= t < |c| :: data[t] == q[t]
      modifies data
      ensures forall t | 0 <= t < cc :: data[t] == c[t]
      ensures forall t | cc <= t < |c| :: data[t] == q[t]
      ensures forall t | |c| <= t < data.Length :: data[t] == old(data[t])
    {
      ghost var d := data[..];
      UnchainBlock(data, cc, dec);
      UnchainStep(dec, c, q, d, data[..], cc, j);
    }

    /** Block cc decrypted and the block before it added to it. */
    method UnchainBlock(data: array<bv8>, cc: nat, ghost dec: AesModes.Block -> AesModes.Block)
      requires Ready() && Decrypts(dec) && 16 <= cc && cc + 16 <= data.Length
      modifies data
      ensures Blk(data[..], cc) == AesModes.Chain(Some(Blk(old(data[..]), cc - 16)), dec(Blk(old(data[..]), cc)))
      ensures forall t | 0 <= t < data.Length && !(cc <= t < cc + 16) :: data[t] == old(data[t])
    {
      ghost var O := data[..];
      DecryptBlock(data, cc);
      assert Blk(data[..], cc) == dec(Blk(O, cc));
      SameBlock(data[..], cc - 16, Blk(O, cc - 16));
      XorBlock(data, cc - 16, data, cc);
    }

    /** The end of AesDecryptCbc: the first block decrypted and the iv
        (when there is one) added. */
    method FirstPlain(iv: array?<bv8>, data: array<bv8>, ghost dec: AesModes.Block -> AesModes.Block)
      requires Ready() && Decrypts(dec) && 16 <= data.Length
      requires iv != null ==> 16 <= iv.Length && iv != data
      modifies data
      ensures Blk(data[..], 0) == AesModes.Chain(IvOf(iv), dec(Blk(old(data[..]), 0)))
      ensures forall t | 16 <= t < data.Length :: data[t] == old(data[t])
    {
      DecryptBlock(data, 0);
      if iv != null {
        XorBlock(iv, 0, data, 0);
      }
    }

    /** memcpy(Ctx->Key, Key, 4 * nk): the key, read little-endian, into
        the first nk words. */
    method CopyKey(key: seq<bv8>, nk: nat)
      requires 4 <= nk <= 5 && 4 * nk <= |key| && Key.Length == 48
      modifies Key
      ensures Key[..nk] == KeyWords(key, nk, nk)
    {
      forall j | 0 <= j < nk {
        Key[j] := KeyWord(key, j);
      }
    }

    /** The loop of AesInitKey: every word from nk to n - 1 computed from
        the word nk places back and the word just before it. */
    method ExpandKey(key: seq<bv8>, nk: nat, n: nat)
      requires 4 <= nk <= 5 && 4 * nk <= |key| && nk <= n <= 4 * (nk + 7) && n <= Key.Length
      requires Key[..nk] == KeyWords(key, nk, nk)
      modifies Key
      ensures Key[..n] == KeyWords(key, nk, n)
    {
      ghost var w := KeyWords(key, nk, n);
      KeyWordsSteps(key, nk, n);
      KeyWordsPrefixSlice(key, nk, nk, n);
      ExpandWords(nk, n, w);
    }

    /** The AesInitKey loop against any word sequence w that follows the
        recurrence past its first nk words: Key ends up holding w. */
    method ExpandWords(nk: nat, n: nat, ghost w: seq<bv32>)
      requires 4 <= nk <= 5 && nk <= n <= 4 * (nk + 7) && n <= Key.Length && |w| == n
      requires forall i | nk <= i < n :: w[i] == NextKeyWord(w[..i], nk, i)
      requires Key[..nk] == w[..nk]
      modifies Key
      ensures Key[..n] == w
    {
      for i := nk to n
        invariant Key[..i] == w[..i]
      {
        NextWord(nk, i, w);
      }
    }

    /** One pass of the AesInitKey loop: Key[i] from Key[i - nk] and
        Key[i - 1], through ScheduleTemp at each multiple of nk. */
    method NextWord(nk: nat, i: nat, ghost w: seq<bv32>)
      requires 4 <= nk <= 5 && nk <= i < 4 * (nk + 7) && i < Key.Length && i < |w|
      requires Key[..i] == w[..i] && w[i] == NextKeyWord(w[..i], nk, i)
      modifies Key
      ensures Key[..i + 1] == w[..i + 1]
    {
      var temp := Key[i - 1];
      if i % nk == 0 {
        var r := i / nk;
        RConIndex(nk, i, r);
        temp := ScheduleTemp(temp, RCon[r]);
      }
      Key[i] := Xor(Key[i - nk], temp);
      assert Key[..i + 1] == w[..i + 1];
    }

    /** AesInitKey: rounds from the key length, the key copied into the
        first words, every later word from the words before it, and for
        protocol version 6 three bytes of the schedule changed. */
    method InitKey(key: seq<bv8>, isV6: bool)
      requires Key.Length == 48 && ValidKeyBytes(|key|)
      modifies this, Key
      ensures rounds == Rounds(|key|) && Ready()
      ensures Schedule() == KeySchedule(key, isV6)
    {
      var nk := |key| / 4;
      assert 4 <= nk <= 5;
      rounds := nk + 6;
      CopyKey(key, nk);
      var i := 4 * (rounds + 1);
      ExpandKey(key, nk, i);
      KeyScheduleOfWords(key, isV6, nk, Key[..i]);
      if isV6 {
        TweakV6(i, Key[..i]);
      }
    }

    /** The protocol version 6 change: the low byte of words 16, 24 and 32
        flipped by fixed masks, every other word left as it was. */
    method TweakV6(n: nat, ghost w: seq<bv32>)
      requires 33 <= n <= Key.Length && Key[..n] == w
      modifies Key
      ensures Key[..n] == V6Tweak(w)
    {
      Key[16] := Xor(Key[16], 0x73);
      Key[24] := Xor(Key[24], 0x09);
      Key[32] := Xor(Key[32], 0xE4);
      V6TweakOf(w, Key[..n]);
    }
  }

  /** The word AddRoundKey stores for column c is that column of the block
      with the round key added. */
  lemma AddKeyColumn(b: seq<bv8>, w: seq<bv32>, k: nat, c: int, x: bv32)
    requires |b| == 16 && k + 4 <= |w| && 0 <= c < 4
    requires x == Xor(Pack(b[4 * c], b[4 * c + 1], b[4 * c + 2], b[4 * c + 3]), w[k + c])
    ensures Byte0(x) == AesSpec.AddRoundKey(b, w, k)[4 * c]
    ensures Byte1(x) == AesSpec.AddRoundKey(b, w, k)[4 * c + 1]
    ensures Byte2(x) == AesSpec.AddRoundKey(b, w, k)[4 * c + 2]
    ensures Byte3(x) == AesSpec.AddRoundKey(b, w, k)[4 * c + 3]
  {
    XorBytes(Pack(b[4 * c], b[4 * c + 1], b[4 * c + 2], b[4 * c + 3]), w[k + c]);
    PackBytes(0, b[4 * c], b[4 * c + 1], b[4 * c + 2], b[4 * c + 3]);
    AesSpec.RoundKeyColumn(w, k, c);
  }
  // ---------------------------------------------------------------------
  // The MAC of protocol version 4
  // ---------------------------------------------------------------------

  /** AesCmacV4: a context keyed with the version 4 key; the message padded
      in place with 0x80 and zeros up to 16 bytes past its end; the MAC
      starts at zero and every block up to the one holding the 0x80 is
      added to it and encrypted; the MAC is copied out. */
  method CmacV4(message: array<bv8>, size: nat, macOut: array<bv8>, mo: nat)
    requires size + 16 <= message.Length && mo + 16 <= macOut.Length
    modifies message, macOut
    ensures macOut[mo..mo + 16] == AesModes.CmacV4(old(message[..size]))
    ensures forall t | 0 <= t < message.Length && !(macOut == message && mo <= t < mo + 16) ::
      message[t] == Marked(old(message[..]), size)[t]
    ensures macOut != message ==>
      forall t | 0 <= t < macOut.Length && !(mo <= t < mo + 16) :: macOut[t] == old(macOut[t])
  {
    ghost var enc := AesModes.Encryptor(KeySchedule(AesKeyV4, false), AesModes.CmacRounds);
    ghost var d := message[..];
    var ctx := CmacContext();
    var mac := MarkAndMac(ctx, message, size, enc);
    ghost var e := message[..];
    CopyMac(mac, macOut, mo);
    forall t | 0 <= t < message.Length && !(macOut == message && mo <= t < mo + 16)
      ensures message[t] == Marked(d, size)[t]
    {
      assert message[t] == e[t];
    }
  }

  /** The message buffer after the memsets of AesCmacV4: the message, the
      byte 0x80, fifteen zero bytes, then whatever followed them. */
  ghost function Marked(d: seq<bv8>, size: nat): (r: seq<bv8>)
    requires size + 16 <= |d|
    ensures |r| == |d|
    ensures forall t | 0 <= t < |r| ::
      r[t] == (if t < size || size + 16 <= t then d[t] else if t == size then 0x80 else 0)
  {
    d[..size] + [0x80] + AesSpec.Zeros(15) + d[size + 16..]
  }

  /** A buffer that holds the marked message and, after it, the rest of d
      is Marked(d, size). */
  lemma MarkedBuffer(d: seq<bv8>, e: seq<bv8>, size: nat)
    requires size + 16 <= |d| == |e|
    requires e[..size + 16] == d[..size] + [0x80] + AesSpec.Zeros(15)
    requires forall t | size + 16 <= t < |e| :: e[t] == d[t]
    ensures e == Marked(d, size)
  {
    assert e == e[..size + 16] + e[size + 16..];
    assert e[size + 16..] == d[size + 16..];
  }

  /** The memsets and the loop of AesCmacV4, with any context whose block
      encryption is enc: the CBC-MAC under enc of the padded message. */
  method MarkAndMac(ctx: AesCtx, message: array<bv8>, size: nat, ghost enc: AesModes.Block -> AesModes.Block)
      returns (mac: array<bv8>)
    requires ctx.Ready() && ctx.Encrypts(enc)
    requires size + 16 <= message.Length
    modifies message
    ensures fresh(mac) && mac.Length == 16
    ensures mac[..] == AesModes.CbcMac(enc, AesModes.CmacBlocks(old(message[..size])))
    ensures message[..] == Marked(old(message[..]), size)
  {
    ghost var msg := message[..size];
    ghost var d := message[..];
    MarkEnd(message, size);
    MarkedBuffer(d, message[..], size);
    ghost var M := AesModes.CmacBlocks(msg);
    MarkedBlocks(msg, message[..]);
    mac := MacBlocks(ctx, message, size, enc, M);
  }

  /** The context of AesCmacV4: AesInitKey with the 20-byte key of
      version 4, so 11 rounds and a schedule filling all 48 words. */
  method CmacContext() returns (ctx: AesCtx)
    ensures fresh(ctx) && fresh(ctx.Key) && ctx.Ready()
    ensures ctx.Encrypts(AesModes.Encryptor(KeySchedule(AesKeyV4, false), AesModes.CmacRounds))
  {
    ctx := new AesCtx();
    ctx.InitKey(AesKeyV4, false);
    ctx.WholeSchedule();
  }

  /** The two memsets of AesCmacV4 on the message: the 16 bytes after it
      set to zero, then its first byte past the end to 0x80. */
  method MarkEnd(message: array<bv8>, size: nat)
    requires size + 16 <= message.Length
    modifies message
    ensures message[..size + 16] == old(message[..size]) + [0x80] + AesSpec.Zeros(15)
    ensures forall t | size + 16 <= t < message.Length :: message[t] == old(message[t])
  {
    ghost var msg := message[..size];
    forall t | size <= t < size + 16 {
      message[t] := 0;
    }
    message[size] := 0x80;
    assert message[..size + 16] == msg + [0x80] + AesSpec.Zeros(15);
  }

  /** After the memsets the buffer holds the blocks the MAC chains. */
  lemma MarkedBlocks(msg: seq<bv8>, d: seq<bv8>)
    requires |msg| + 16 <= |d| && d[..|msg| + 16] == msg + [0x80] + AesSpec.Zeros(15)
    ensures |AesModes.CmacBlocks(msg)| % 16 == 0 && |msg| < |AesModes.CmacBlocks(msg)| <= |msg| + 16
    ensures d[..|AesModes.CmacBlocks(msg)|] == AesModes.CmacBlocks(msg)
  {
    var m := AesModes.CmacBlocks(msg);
    AesModes.CmacBlocksShape(msg);
    forall t | 0 <= t < |m|
      ensures d[t] == m[t]
    {
      assert d[t] == d[..|msg| + 16][t];
    }
    assert d[..|m|] == m;
  }

  /** A buffer that holds m at its start holds each block of m. */
  lemma HeldBlock(a: seq<bv8>, m: seq<bv8>, j: nat)
    requires 16 * j + 16 <= |m| <= |a| && a[..|m|] == m
    ensures Blk(a, 16 * j) == AesModes.BlockAt(m, j)
  {
    forall k | 0 <= k < 16
      ensures a[16 * j + k] == AesModes.BlockAt(m, j)[k]
    {
      assert a[16 * j + k] == a[..|m|][16 * j + k];
    }
    SameBlock(a, 16 * j, AesModes.BlockAt(m, j));
  }

  /** memcpy(MacOut, mac, 16), with MacOut at offset mo of its buffer. */
  method CopyMac(mac: array<bv8>, macOut: array<bv8>, mo: nat)
    requires mac.Length == 16 && mo + 16 <= macOut.Length && mac != macOut
    modifies macOut
    ensures macOut[mo..mo + 16] == mac[..]
    ensures forall t | 0 <= t < macOut.Length && !(mo <= t < mo + 16) :: macOut[t] == old(macOut[t])
  {
    forall t | 0 <= t < 16 {
      macOut[mo + t] := mac[t];
    }
  }

  /** The MAC buffer of AesCmacV4 and its loop: starting from a zero MAC,
      every block of m (the message with its end marked, held in the
      buffer) added to the MAC and the MAC encrypted, which is the CBC-MAC
      of m. */
  method MacBlocks(ctx: AesCtx, message: array<bv8>, size: nat, ghost enc: AesModes.Block -> AesModes.Block, ghost m: seq<bv8>)
      returns (mac: array<bv8>)
    requires ctx.Ready() && ctx.Encrypts(enc)
    requires |m| % 16 == 0 && size < |m| <= size + 16 && |m| <= message.Length
    requires message[..|m|] == m
    ensures fresh(mac) && mac.Length == 16
    ensures mac[..] == AesModes.CbcMac(enc, m)
  {
    mac := new bv8[16](_ => 0);
    assert mac[..] == AesSpec.Zeros(16);
    ghost var q := |m| / 16;
    assert |m| == 16 * q;
    var i := 0;
    ghost var j := 0;
    assert m[..0] == [];
    while i <= size
      invariant i == 16 * j && j <= q
      invariant mac[..] == AesModes.CbcMac(enc, m[..i])
    {
      assert j < q;
      AesModes.CbcMacStep(enc, m, j);
      HeldBlock(message[..], m, j);
      MacNext(ctx, message, i, mac, enc);
      i := i + 16;
      j := j + 1;
    }
    assert j == q;
    assert m[..16 * q] == m;
  }

  /** One pass of the loop of AesCmacV4: the block at i added to the MAC
      and the MAC encrypted. */
  method MacNext(ctx: AesCtx, message: array<bv8>, i: nat, mac: array<bv8>, ghost enc: AesModes.Block -> AesModes.Block)
    requires ctx.Ready() && ctx.Encrypts(enc)
    requires i + 16 <= message.Length && mac.Length == 16 && mac != message
    modifies mac
    ensures mac[..] == enc(AesSpec.XorBlock(Blk(message[..], i), old(mac[..])))
  {
    ghost var O := mac[..];
    assert Blk(O, 0) == O;
    XorBlock(message, i, mac, 0);
    ctx.EncryptBlock(mac, 0);
    assert mac[..] == Blk(mac[..], 0);
  }
}
