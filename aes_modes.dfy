/**
 * The modes built on the block cipher, as functions on values: the pad
 * that AesEncryptCbc appends, CBC encryption and decryption with an
 * optional initialisation vector, and the MAC of protocol version 4
 * (a CBC-MAC under a fixed key, with 0x80 and zeros appended).
 */
module AesModes {
  import opened Wrappers
  import opened AesTables
  import opened AesField
  import opened AesSpec
  import opened AesKeySchedule

  /** A key schedule that AesEncryptBlock and AesDecryptBlock can use. */
  predicate ValidCipher(w: seq<bv32>, rounds: nat)
  {
    1 <= rounds && 4 * (rounds + 1) <= |w|
  }

  /** A block of 16 bytes. */
  type Block = b: seq<bv8> | |b| == 16 witness Zeros(16)

  /** AesEncryptBlock under one key schedule, as a function on blocks: the
      CIPH_K of section 6.2 of NIST SP 800-38A. */
  function Encryptor(w: seq<bv32>, rounds: nat): (f: Block -> Block)
    requires ValidCipher(w, rounds)
  {
    (b: Block) => EncryptBlock(w, rounds, b)
  }

  /** AesDecryptBlock under one key schedule, as a function on blocks. */
  function Decryptor(w: seq<bv32>, rounds: nat): (f: Block -> Block)
    requires ValidCipher(w, rounds)
  {
    (b: Block) => DecryptBlock(w, rounds, b)
  }

  /** dec undoes enc on every block. */
  ghost predicate Inverts(dec: Block -> Block, enc: Block -> Block)
  {
    forall x: Block :: dec(enc(x)) == x
  }

  /** With the same key schedule, the decryptor undoes the encryptor. */
  lemma DecryptorInvertsEncryptor(w: seq<bv32>, rounds: nat)
    requires ValidCipher(w, rounds)
    ensures Inverts(Decryptor(w, rounds), Encryptor(w, rounds))
  {
    forall x: Block
      ensures Decryptor(w, rounds)(Encryptor(w, rounds)(x)) == x
    {
      DecryptUndoesEncrypt(w, rounds, x);
    }
  }

  // ---------------------------------------------------------------------
  // Padding
  // ---------------------------------------------------------------------

  /** pad = (~len & 15) + 1. Only the low four bits of the 64-bit len
      take part, so len mod 16 stands for it. The pad is 16 - len mod 16:
      between 1 and 16 bytes, a whole block when len is already a
      multiple of 16, and len + pad is a multiple of 16. */
  function PadLength(len: nat): (pad: nat)
    ensures pad == 16 - len % 16
  {
    var low := (len % 16) as bv8;
    LowBits(low);
    ((!low) & 15) as nat + 1
  }

  lemma LowBits(low: bv8)
    requires low < 16
    ensures ((!low) & 15) as nat == 15 - low as nat
  {
  }

  /** The data followed by pad copies of the byte pad. */
  function Pad(data: seq<bv8>): (p: seq<bv8>)
    ensures |p| == |data| + PadLength(|data|)
  {
    data + PadBytes(PadLength(|data|))
  }

  function PadBytes(pad: nat): (q: seq<bv8>)
    requires pad <= 16
    ensures |q| == pad && forall i :: 0 <= i < pad ==> q[i] as int == pad
  {
    seq(pad, _ => pad as bv8)
  }

  /** The padded data is a whole number of blocks, starts with the data
      and ends with pad bytes equal to pad. */
  lemma PadShape(data: seq<bv8>)
    ensures |Pad(data)| == |data| + PadLength(|data|) && |Pad(data)| % 16 == 0
    ensures Pad(data)[..|data|] == data
    ensures forall i :: |data| <= i < |Pad(data)| ==> Pad(data)[i] as int == PadLength(|data|)
  {
    var q := PadBytes(PadLength(|data|));
    assert Pad(data) == data + q;
  }

  /** The pad can be removed again: the last byte says how many bytes to
      drop, and dropping them gives back the data. */
  lemma PadIsRemovable(data: seq<bv8>)
    ensures |Pad(data)| >= 1 && 1 <= Pad(data)[|Pad(data)| - 1] as int <= 16
    ensures Pad(data)[..|Pad(data)| - Pad(data)[|Pad(data)| - 1] as int] == data
  {
    PadShape(data);
  }

  // ---------------------------------------------------------------------
  // CBC
  // ---------------------------------------------------------------------

  /** The block the chaining adds to b: nothing without a previous block
      (a null iv before the first block), otherwise that block. */
  function Chain(prev: Option<Block>, b: Block): Block
  {
    match prev
    case None => b
    case Some(v) => XorBlock(v, b)
  }

  lemma ChainTwice(prev: Option<Block>, b: Block)
    ensures Chain(prev, Chain(prev, b)) == b
  {
    if prev.Some? {
      XorBlockTwice(prev.value, b);
    }
  }

  /** The block chained into the next one: the iv before the first block,
      else the last ciphertext block so far. */
  function Previous(iv: Option<Block>, done: seq<bv8>): Option<Block>
    requires |done| % 16 == 0
  {
    if |done| == 0 then iv else Some(done[|done| - 16..])
  }

  /** CBC encryption of whole blocks, section 6.2 of NIST SP 800-38A, with
      the first block left as it is when there is no iv. */
  function CbcEncrypt(enc: Block -> Block, iv: Option<Block>, p: seq<bv8>): (c: seq<bv8>)
    requires |p| % 16 == 0
    ensures |c| == |p|
    decreases |p|
  {
    if |p| == 0 then []
    else
      var front := CbcEncrypt(enc, iv, p[..|p| - 16]);
      front + enc(Chain(Previous(iv, front), p[|p| - 16..]))
  }

  /** CBC decryption of whole blocks: every block decrypted and added to
      the ciphertext block before it, or to the iv. */
  function CbcDecrypt(dec: Block -> Block, iv: Option<Block>, c: seq<bv8>): (p: seq<bv8>)
    requires |c| % 16 == 0
    ensures |p| == |c|
    decreases |c|
  {
    if |c| == 0 then []
    else
      var front := c[..|c| - 16];
      CbcDecrypt(dec, iv, front) + Chain(Previous(iv, front), dec(c[|c| - 16..]))
  }

  /** With a block decryption that undoes the block encryption and the
      same iv, CBC decryption undoes CBC encryption. */
  lemma {:induction false} CbcDecryptUndoesEncrypt(enc: Block -> Block, dec: Block -> Block, iv: Option<Block>, p: seq<bv8>)
    requires Inverts(dec, enc) && |p| % 16 == 0
    ensures CbcDecrypt(dec, iv, CbcEncrypt(enc, iv, p)) == p
    decreases |p|
  {
    if |p| > 0 {
      var init: seq<bv8>, last: Block := p[..|p| - 16], p[|p| - 16..];
      CbcDecryptUndoesEncrypt(enc, dec, iv, init);
      CbcRoundTripStep(enc, dec, iv, init, last);
      assert p == init + last;
    }
  }

  /** The round trip on some blocks extends to one more block. */
  lemma CbcRoundTripStep(enc: Block -> Block, dec: Block -> Block, iv: Option<Block>, init: seq<bv8>, last: Block)
    requires Inverts(dec, enc) && |init| % 16 == 0
    requires CbcDecrypt(dec, iv, CbcEncrypt(enc, iv, init)) == init
    ensures CbcDecrypt(dec, iv, CbcEncrypt(enc, iv, init + last)) == init + last
  {
    var front := CbcEncrypt(enc, iv, init);
    var x := Chain(Previous(iv, front), last);
    CbcEncryptOfBlocks(enc, iv, init, last);
    CbcDecryptOfBlocks(dec, iv, front, enc(x));
    ChainTwice(Previous(iv, front), last);
  }

  /** Encrypting some blocks and one more block. */
  lemma CbcEncryptOfBlocks(enc: Block -> Block, iv: Option<Block>, init: seq<bv8>, last: Block)
    requires |init| % 16 == 0
    ensures CbcEncrypt(enc, iv, init + last)
         == CbcEncrypt(enc, iv, init) + enc(Chain(Previous(iv, CbcEncrypt(enc, iv, init)), last))
  {
    var p := init + last;
    assert p[..|p| - 16] == init;
    assert p[|p| - 16..] == last;
  }

  /** Decrypting some blocks and one more block. */
  lemma CbcDecryptOfBlocks(dec: Block -> Block, iv: Option<Block>, front: seq<bv8>, block: Block)
    requires |front| % 16 == 0
    ensures CbcDecrypt(dec, iv, front + block) == CbcDecrypt(dec, iv, front) + Chain(Previous(iv, front), dec(block))
  {
    var c := front + block;
    assert c[..|c| - 16] == front;
    assert c[|c| - 16..] == block;
  }

  /** Block j (bytes 16j up to 16j + 16) of a sequence of whole blocks. */
  function BlockAt(s: seq<bv8>, j: nat): Block
    requires 16 * j + 16 <= |s|
  {
    s[16 * j..16 * j + 16]
  }

  /** The chaining equation of CBC encryption: every ciphertext block after
      the first is the encryption of its plaintext block chained with the
      ciphertext block before it. */
  lemma CbcEncryptChains(enc: Block -> Block, iv: Option<Block>, p: seq<bv8>)
    requires |p| % 16 == 0
    ensures forall j | 0 < j && 16 * j + 16 <= |p|
      :: BlockAt(CbcEncrypt(enc, iv, p), j) == enc(Chain(Some(BlockAt(CbcEncrypt(enc, iv, p), j - 1)), BlockAt(p, j)))
  {
    forall j | 0 < j && 16 * j + 16 <= |p|
      ensures BlockAt(CbcEncrypt(enc, iv, p), j) == enc(Chain(Some(BlockAt(CbcEncrypt(enc, iv, p), j - 1)), BlockAt(p, j)))
    {
      assert (16 * j) % 16 == 0;
      CbcEncryptBlockAt(enc, iv, p, 16 * j);
    }
  }

  /** The block at k of the CBC encryption is the encryption of the block at k of the
      plaintext chained with the ciphertext block before it, or with the
      iv for the first block: what the loop of AesEncryptCbc computes in
      place, one block at a time. */
  lemma {:induction false} CbcEncryptBlockAt(enc: Block -> Block, iv: Option<Block>, p: seq<bv8>, k: nat)
    requires |p| % 16 == 0 && k % 16 == 0 && k + 16 <= |p|
    ensures CbcEncrypt(enc, iv, p)[k..k + 16]
         == enc(Chain(if k == 0 then iv else Some(CbcEncrypt(enc, iv, p)[k - 16..k]), p[k..k + 16]))
    decreases |p|
  {
    var init := p[..|p| - 16];
    var c := CbcEncrypt(enc, iv, p);
    CbcEncryptLast(enc, iv, p);
    if k + 16 < |p| {
      var front := CbcEncrypt(enc, iv, init);
      CbcEncryptBlockAt(enc, iv, init, k);
      assert c[k..k + 16] == front[k..k + 16];
      assert init[k..k + 16] == p[k..k + 16];
      if k > 0 {
        assert c[k - 16..k] == front[k - 16..k];
      }
    } else {
      assert c[k..k + 16] == c[|p| - 16..];
      assert p[k..k + 16] == p[|p| - 16..];
    }
  }

  /** The last block of the CBC encryption, and the blocks before it are
      the CBC encryption of the plaintext without its last block. */
  lemma CbcEncryptLast(enc: Block -> Block, iv: Option<Block>, p: seq<bv8>)
    requires |p| % 16 == 0 && 16 <= |p|
    ensures CbcEncrypt(enc, iv, p)[..|p| - 16] == CbcEncrypt(enc, iv, p[..|p| - 16])
    ensures CbcEncrypt(enc, iv, p)[|p| - 16..]
         == enc(Chain(if |p| == 16 then iv else Some(CbcEncrypt(enc, iv, p)[|p| - 32..|p| - 16]), p[|p| - 16..]))
  {
    var front := CbcEncrypt(enc, iv, p[..|p| - 16]);
    var last := enc(Chain(Previous(iv, front), p[|p| - 16..]));
    var c := CbcEncrypt(enc, iv, p);
    assert c == front + last;
    assert c[..|p| - 16] == front;
    assert c[|p| - 16..] == last;
    if |p| > 16 {
      assert c[|p| - 32..|p| - 16] == front[|front| - 16..];
    }
  }

  /** The chaining equation of CBC decryption: every plaintext block after
      the first is the decryption of its ciphertext block chained with the
      ciphertext block before it. */
  lemma CbcDecryptChains(dec: Block -> Block, iv: Option<Block>, c: seq<bv8>)
    requires |c| % 16 == 0
    ensures forall j | 0 < j && 16 * j + 16 <= |c|
      :: BlockAt(CbcDecrypt(dec, iv, c), j) == Chain(Some(BlockAt(c, j - 1)), dec(BlockAt(c, j)))
  {
    forall j | 0 < j && 16 * j + 16 <= |c|
      ensures BlockAt(CbcDecrypt(dec, iv, c), j) == Chain(Some(BlockAt(c, j - 1)), dec(BlockAt(c, j)))
    {
      assert (16 * j) % 16 == 0;
      CbcDecryptBlockAt(dec, iv, c, 16 * j);
    }
  }

  /** The block at k of the CBC decryption depends only on the ciphertext
      blocks at k and k - 16 (or the iv): what each pass of the loop of AesDecryptCbc
      computes in place. */
  lemma {:induction false} CbcDecryptBlockAt(dec: Block -> Block, iv: Option<Block>, c: seq<bv8>, k: nat)
    requires |c| % 16 == 0 && k % 16 == 0 && k + 16 <= |c|
    ensures CbcDecrypt(dec, iv, c)[k..k + 16]
         == Chain(if k == 0 then iv else Some(c[k - 16..k]), dec(c[k..k + 16]))
    decreases |c|
  {
    var front := c[..|c| - 16];
    var q := CbcDecrypt(dec, iv, c);
    CbcDecryptLast(dec, iv, c);
    if k + 16 < |c| {
      var init := CbcDecrypt(dec, iv, front);
      CbcDecryptBlockAt(dec, iv, front, k);
      assert q[k..k + 16] == init[k..k + 16];
      assert front[k..k + 16] == c[k..k + 16];
      if k > 0 {
        assert front[k - 16..k] == c[k - 16..k];
      }
    } else {
      assert q[k..k + 16] == q[|c| - 16..];
      assert c[k..k + 16] == c[|c| - 16..];
      if k > 0 {
        assert c[k - 16..k] == c[|c| - 32..|c| - 16];
      }
    }
  }

  /** The last block of the CBC decryption, and the blocks before it are
      the CBC decryption of the ciphertext without its last block. */
  lemma CbcDecryptLast(dec: Block -> Block, iv: Option<Block>, c: seq<bv8>)
    requires |c| % 16 == 0 && 16 <= |c|
    ensures CbcDecrypt(dec, iv, c)[..|c| - 16] == CbcDecrypt(dec, iv, c[..|c| - 16])
    ensures CbcDecrypt(dec, iv, c)[|c| - 16..]
         == Chain(if |c| == 16 then iv else Some(c[|c| - 32..|c| - 16]), dec(c[|c| - 16..]))
  {
    var front := c[..|c| - 16];
    var init := CbcDecrypt(dec, iv, front);
    var last := Chain(Previous(iv, front), dec(c[|c| - 16..]));
    var q := CbcDecrypt(dec, iv, c);
    assert q == init + last;
    assert q[..|c| - 16] == init;
    assert q[|c| - 16..] == last;
    if |c| > 16 {
      assert front[|front| - 16..] == c[|c| - 32..|c| - 16];
    }
  }


  lemma SliceOfFront(a: seq<bv8>, b: seq<bv8>, i: nat, j: nat)
    requires i <= j <= |a|
    ensures (a + b)[i..j] == a[i..j]
  {
  }

  lemma SliceOfBack(a: seq<bv8>, b: seq<bv8>)
    ensures (a + b)[|a|..|a| + |b|] == b
  {
  }

  /** AesEncryptCbc followed by AesDecryptCbc under the same key schedule
      and iv gives back the padded data, from which the data can be
      recovered (PadIsRemovable). */
  lemma AesCbcRoundTrip(w: seq<bv32>, rounds: nat, iv: Option<Block>, data: seq<bv8>)
    requires ValidCipher(w, rounds)
    ensures |Pad(data)| % 16 == 0
    ensures CbcDecrypt(Decryptor(w, rounds), iv, CbcEncrypt(Encryptor(w, rounds), iv, Pad(data))) == Pad(data)
  {
    PadShape(data);
    DecryptorInvertsEncryptor(w, rounds);
    CbcDecryptUndoesEncrypt(Encryptor(w, rounds), Decryptor(w, rounds), iv, Pad(data));
  }

  // ---------------------------------------------------------------------
  // The MAC of protocol version 4
  // ---------------------------------------------------------------------

  /** The MAC of whole blocks: starting from zero, every block is added to
      the MAC and the sum encrypted. */
  function CbcMac(enc: Block -> Block, m: seq<bv8>): Block
    requires |m| % 16 == 0
    decreases |m|
  {
    if |m| == 0 then Zeros(16)
    else enc(XorBlock(m[|m| - 16..], CbcMac(enc, m[..|m| - 16])))
  }

  /** One pass of the loop of AesCmacV4: the MAC of the blocks up to
      block j + 1 is the encryption of block j added to the MAC of the
      blocks before it. */
  lemma CbcMacStep(enc: Block -> Block, m: seq<bv8>, j: nat)
    requires 16 * j + 16 <= |m|
    ensures CbcMac(enc, m[..16 * j + 16]) == enc(XorBlock(BlockAt(m, j), CbcMac(enc, m[..16 * j])))
  {
    var p := m[..16 * j + 16];
    assert p[..|p| - 16] == m[..16 * j];
    assert p[|p| - 16..] == BlockAt(m, j);
  }

  lemma XorBlockCommutes(x: Block, y: Block)
    ensures XorBlock(x, y) == XorBlock(y, x)
  {
    forall i | 0 <= i < 16
      ensures XorBlock(x, y)[i] == XorBlock(y, x)[i]
    {
      AddCommutes(x[i], y[i]);
    }
    SameBytes(XorBlock(x, y), XorBlock(y, x));
  }

  /** The MAC is the last block of the CBC encryption of the same blocks
      under an all-zero iv. */
  lemma {:induction false} CbcMacIsLastCbcBlock(enc: Block -> Block, m: seq<bv8>)
    requires |m| % 16 == 0 && |m| >= 16
    ensures CbcMac(enc, m) == CbcEncrypt(enc, Some(Zeros(16)), m)[|m| - 16..]
    decreases |m|
  {
    var iv: Option<Block> := Some(Zeros(16));
    var front := CbcEncrypt(enc, iv, m[..|m| - 16]);
    var last: Block := m[|m| - 16..];
    var c := CbcEncrypt(enc, iv, m);
    assert c[|c| - 16..] == enc(Chain(Previous(iv, front), last));
    var mac := CbcMac(enc, m[..|m| - 16]);
    if |m| > 16 {
      CbcMacIsLastCbcBlock(enc, m[..|m| - 16]);
    }
    assert Previous(iv, front) == Some(mac);
    XorBlockCommutes(mac, last);
  }

  /** The blocks AesCmacV4 reads: the message, the byte 0x80 and zeros, up
      to the end of the block that holds the 0x80. */
  function CmacBlocks(msg: seq<bv8>): (m: seq<bv8>)
    ensures |m| % 16 == 0 && |msg| < |m| <= |msg| + 16
  {
    (msg + [0x80] + Zeros(15))[..16 * (|msg| / 16 + 1)]
  }

  /** The MAC chains |msg| / 16 + 1 blocks: the message, then 0x80, then
      zeros to the end of the block. */
  lemma CmacBlocksShape(msg: seq<bv8>)
    ensures |CmacBlocks(msg)| == 16 * (|msg| / 16 + 1)
    ensures CmacBlocks(msg)[..|msg|] == msg
    ensures CmacBlocks(msg)[|msg|] == 0x80
    ensures forall i :: |msg| < i < |CmacBlocks(msg)| ==> CmacBlocks(msg)[i] == 0
  {
  }

  /** The rounds of the schedule built from the 20-byte key of version 4. */
  const CmacRounds: nat := 11

  /** AesCmacV4: the MAC under the version 4 key of the padded message. */
  function CmacV4(msg: seq<bv8>): Block
  {
    CbcMac(Encryptor(KeySchedule(AesKeyV4, false), CmacRounds), CmacBlocks(msg))
  }
}
