/**
 * Arithmetic in GF(2^8) as FIPS 197 section 4 defines it, and the 32-bit
 * word macros of vlmcsd's crypto.c (Mul2 ... MulE, ROR32) that compute it
 * on the four bytes of a little-endian word at once, together with the
 * column mixing of MixColumns and MixColumnsR.
 *
 * Sums of field elements are written with Add rather than with `^`, so
 * that a sum keeps the shape in which it was built while a proof rewrites
 * its terms one by one.
 */
module AesField {

  // ---------------------------------------------------------------------
  // Bytes as elements of GF(2^8)
  // ---------------------------------------------------------------------

  /** Addition of two field elements (FIPS 197 section 4.1): exclusive or. */
  function Add(a: bv8, b: bv8): bv8
  {
    a ^ b
  }

  /** The sum of four field elements, added left to right. */
  function Sum4(a: bv8, b: bv8, c: bv8, d: bv8): bv8
  {
    Add(Add(Add(a, b), c), d)
  }

  /** Multiplication by x: what the Mul2 macro does to each byte. */
  function XTime(b: bv8): bv8
  {
    ((b & 0x7f) << 1) ^ ((b >> 7) * 0x1b)
  }

  /** XTime is xtime() of FIPS 197 section 4.2.1: a shift left, reduced
      modulo m(x) = x^8 + x^4 + x^3 + x + 1 (0x11b) when bit 7 was set. */
  lemma XTimeIsReduction(b: bv8)
    ensures XTime(b) as bv16 == ((b as bv16) << 1) ^ (if b & 0x80 == 0 then 0 else 0x11b)
  {
  }

  /** The product of two field elements (FIPS 197 section 4.2): the sum of
      a * x^i over the bits i set in b, each a * x^i obtained from the
      previous one by multiplication by x. */
  function GMul(a: bv8, b: bv8): bv8
  {
    var t1 := XTime(a);
    var t2 := XTime(t1);
    var t3 := XTime(t2);
    var t4 := XTime(t3);
    var t5 := XTime(t4);
    var t6 := XTime(t5);
    var t7 := XTime(t6);
    (if b & 0x01 == 0 then 0 else a) ^ (if b & 0x02 == 0 then 0 else t1) ^
    (if b & 0x04 == 0 then 0 else t2) ^ (if b & 0x08 == 0 then 0 else t3) ^
    (if b & 0x10 == 0 then 0 else t4) ^ (if b & 0x20 == 0 then 0 else t5) ^
    (if b & 0x40 == 0 then 0 else t6) ^ (if b & 0x80 == 0 then 0 else t7)
  }

  /** Multiplication by x distributes over addition. */
  lemma XTimeLinear(a: bv8, b: bv8)
    ensures XTime(Add(a, b)) == Add(XTime(a), XTime(b))
  {
  }

  // The products by the constants of MixColumns and InvMixColumns, as the
  // sums of powers of x in which the word macros compute them.

  lemma GMul02(a: bv8)
    ensures GMul(a, 0x02) == XTime(a)
  {
  }

  lemma GMul03(a: bv8)
    ensures GMul(a, 0x03) == Add(XTime(a), a)
  {
  }

  lemma GMul09(a: bv8)
    ensures GMul(a, 0x09) == Add(XTime(XTime(XTime(a))), a)
  {
  }

  lemma GMul0B(a: bv8)
    ensures GMul(a, 0x0b) == Add(XTime(XTime(XTime(a))), Add(XTime(a), a))
  {
  }

  lemma GMul0D(a: bv8)
    ensures GMul(a, 0x0d) == Add(Add(XTime(XTime(XTime(a))), XTime(XTime(a))), a)
  {
  }

  lemma GMul0E(a: bv8)
    ensures GMul(a, 0x0e) == Add(Add(XTime(XTime(XTime(a))), XTime(XTime(a))), XTime(a))
  {
  }

  // Rearrangements of sums: addition is commutative and associative.

  lemma AddCommutes(p: bv8, q: bv8)
    ensures Add(p, q) == Add(q, p)
  {
  }

  lemma AddAssociates(p: bv8, q: bv8, r: bv8)
    ensures Add(Add(p, q), r) == Add(p, Add(q, r))
  {
  }

  lemma SwapPairs(p: bv8, q: bv8, r: bv8, s: bv8)
    ensures Add(Add(p, q), Add(r, s)) == Add(Add(p, r), Add(q, s))
  {
    AddAssociates(p, q, Add(r, s));
    AddAssociates(q, r, s);
    AddCommutes(q, r);
    AddAssociates(r, q, s);
    AddAssociates(p, r, Add(q, s));
  }

  lemma SwapPairsNested(p: bv8, q: bv8, r: bv8, s: bv8, t: bv8, u: bv8)
    ensures Add(Add(p, q), Add(Add(r, s), Add(t, u))) == Add(Add(p, Add(r, t)), Add(q, Add(s, u)))
  {
    SwapPairs(r, s, t, u);
    SwapPairs(p, q, Add(r, t), Add(s, u));
  }

  lemma SwapTriples(p: bv8, q: bv8, r: bv8, s: bv8, t: bv8, u: bv8)
    ensures Add(Add(Add(p, q), Add(r, s)), Add(t, u)) == Add(Add(Add(p, r), t), Add(Add(q, s), u))
  {
    SwapPairs(p, q, r, s);
    SwapPairs(Add(p, r), Add(q, s), t, u);
  }

  /** A sum of four terms does not depend on where it starts. */
  lemma Sum4Rotates(a: bv8, b: bv8, c: bv8, d: bv8)
    ensures Sum4(a, b, c, d) == Sum4(d, a, b, c)
  {
    AddCommutes(Add(Add(a, b), c), d);
    AddAssociates(d, a, b);
    AddAssociates(d, Add(a, b), c);
  }

  /** Adding two sums of four terms adds them term by term. */
  lemma Sum4Interchange(a0: bv8, a1: bv8, a2: bv8, a3: bv8, b0: bv8, b1: bv8, b2: bv8, b3: bv8)
    ensures Add(Sum4(a0, a1, a2, a3), Sum4(b0, b1, b2, b3))
         == Sum4(Add(a0, b0), Add(a1, b1), Add(a2, b2), Add(a3, b3))
  {
    SwapPairs(Add(Add(a0, a1), a2), a3, Add(Add(b0, b1), b2), b3);
    SwapPairs(Add(a0, a1), a2, Add(b0, b1), b2);
    SwapPairs(a0, a1, b0, b1);
  }

  /** Adding four rows of four terms is adding four diagonals. */
  lemma SumOfRowsIsSumOfDiagonals(x00: bv8, x01: bv8, x02: bv8, x03: bv8,
                                  x10: bv8, x11: bv8, x12: bv8, x13: bv8,
                                  x20: bv8, x21: bv8, x22: bv8, x23: bv8,
                                  x30: bv8, x31: bv8, x32: bv8, x33: bv8)
    ensures Sum4(Sum4(x00, x01, x02, x03), Sum4(x10, x11, x12, x13),
                 Sum4(x20, x21, x22, x23), Sum4(x30, x31, x32, x33))
         == Sum4(Sum4(x00, x13, x22, x31), Sum4(x01, x10, x23, x32),
                 Sum4(x02, x11, x20, x33), Sum4(x03, x12, x21, x30))
  {
    Sum4Rotates(x10, x11, x12, x13);
    Sum4Rotates(x23, x20, x21, x22);
    Sum4Rotates(x20, x21, x22, x23);
    Sum4Rotates(x32, x33, x30, x31);
    Sum4Rotates(x33, x30, x31, x32);
    Sum4Rotates(x30, x31, x32, x33);
    Sum4Interchange(x00, x01, x02, x03, x13, x10, x11, x12);
    Sum4Interchange(Add(x00, x13), Add(x01, x10), Add(x02, x11), Add(x03, x12), x22, x23, x20, x21);
    Sum4Interchange(Add(Add(x00, x13), x22), Add(Add(x01, x10), x23), Add(Add(x02, x11), x20), Add(Add(x03, x12), x21),
                    x31, x32, x33, x30);
  }

  // Multiplication by each InvMixColumns constant distributes over
  // addition.

  lemma GMul09Linear(x: bv8, y: bv8)
    ensures GMul(Add(x, y), 0x09) == Add(GMul(x, 0x09), GMul(y, 0x09))
  {
    GMul09(Add(x, y)); GMul09(x); GMul09(y);
    XTimeLinear(x, y);
    XTimeLinear(XTime(x), XTime(y));
    XTimeLinear(XTime(XTime(x)), XTime(XTime(y)));
    SwapPairs(XTime(XTime(XTime(x))), XTime(XTime(XTime(y))), x, y);
  }

  lemma GMul0BLinear(x: bv8, y: bv8)
    ensures GMul(Add(x, y), 0x0b) == Add(GMul(x, 0x0b), GMul(y, 0x0b))
  {
    GMul0B(Add(x, y)); GMul0B(x); GMul0B(y);
    XTimeLinear(x, y);
    XTimeLinear(XTime(x), XTime(y));
    XTimeLinear(XTime(XTime(x)), XTime(XTime(y)));
    SwapPairsNested(XTime(XTime(XTime(x))), XTime(XTime(XTime(y))), XTime(x), XTime(y), x, y);
  }

  lemma GMul0DLinear(x: bv8, y: bv8)
    ensures GMul(Add(x, y), 0x0d) == Add(GMul(x, 0x0d), GMul(y, 0x0d))
  {
    GMul0D(Add(x, y)); GMul0D(x); GMul0D(y);
    XTimeLinear(x, y);
    XTimeLinear(XTime(x), XTime(y));
    XTimeLinear(XTime(XTime(x)), XTime(XTime(y)));
    SwapTriples(XTime(XTime(XTime(x))), XTime(XTime(XTime(y))), XTime(XTime(x)), XTime(XTime(y)), x, y);
  }

  lemma GMul0ELinear(x: bv8, y: bv8)
    ensures GMul(Add(x, y), 0x0e) == Add(GMul(x, 0x0e), GMul(y, 0x0e))
  {
    GMul0E(Add(x, y)); GMul0E(x); GMul0E(y);
    XTimeLinear(x, y);
    XTimeLinear(XTime(x), XTime(y));
    XTimeLinear(XTime(XTime(x)), XTime(XTime(y)));
    SwapTriples(XTime(XTime(XTime(x))), XTime(XTime(XTime(y))), XTime(XTime(x)), XTime(XTime(y)), XTime(x), XTime(y));
  }

  lemma GMul09Sum4(w: bv8, x: bv8, y: bv8, z: bv8)
    ensures GMul(Sum4(w, x, y, z), 0x09) == Sum4(GMul(w, 0x09), GMul(x, 0x09), GMul(y, 0x09), GMul(z, 0x09))
  {
    GMul09Linear(Add(Add(w, x), y), z);
    GMul09Linear(Add(w, x), y);
    GMul09Linear(w, x);
  }

  lemma GMul0BSum4(w: bv8, x: bv8, y: bv8, z: bv8)
    ensures GMul(Sum4(w, x, y, z), 0x0b) == Sum4(GMul(w, 0x0b), GMul(x, 0x0b), GMul(y, 0x0b), GMul(z, 0x0b))
  {
    GMul0BLinear(Add(Add(w, x), y), z);
    GMul0BLinear(Add(w, x), y);
    GMul0BLinear(w, x);
  }

  lemma GMul0DSum4(w: bv8, x: bv8, y: bv8, z: bv8)
    ensures GMul(Sum4(w, x, y, z), 0x0d) == Sum4(GMul(w, 0x0d), GMul(x, 0x0d), GMul(y, 0x0d), GMul(z, 0x0d))
  {
    GMul0DLinear(Add(Add(w, x), y), z);
    GMul0DLinear(Add(w, x), y);
    GMul0DLinear(w, x);
  }

  lemma GMul0ESum4(w: bv8, x: bv8, y: bv8, z: bv8)
    ensures GMul(Sum4(w, x, y, z), 0x0e) == Sum4(GMul(w, 0x0e), GMul(x, 0x0e), GMul(y, 0x0e), GMul(z, 0x0e))
  {
    GMul0ELinear(Add(Add(w, x), y), z);
    GMul0ELinear(Add(w, x), y);
    GMul0ELinear(w, x);
  }

  // ---------------------------------------------------------------------
  // Column mixing on bytes (FIPS 197 sections 5.1.3 and 5.3.3)
  // ---------------------------------------------------------------------

  /** One output byte of MixColumns: {02}a + {03}b + c + d, where a is the
      byte in the same row and b, c, d the bytes below it, cyclically. */
  function MixRow(a: bv8, b: bv8, c: bv8, d: bv8): bv8
  {
    Sum4(GMul(a, 0x02), GMul(b, 0x03), c, d)
  }

  /** One output byte of InvMixColumns: {0e}a + {0b}b + {0d}c + {09}d. */
  function InvMixRow(a: bv8, b: bv8, c: bv8, d: bv8): bv8
  {
    Sum4(GMul(a, 0x0e), GMul(b, 0x0b), GMul(c, 0x0d), GMul(d, 0x09))
  }

  /** MixColumns on one column s0..s3. */
  function MixColumn(s: seq<bv8>): (r: seq<bv8>)
    requires |s| == 4
    ensures |r| == 4
  {
    [MixRow(s[0], s[1], s[2], s[3]), MixRow(s[1], s[2], s[3], s[0]),
     MixRow(s[2], s[3], s[0], s[1]), MixRow(s[3], s[0], s[1], s[2])]
  }

  /** InvMixColumns on one column s0..s3. */
  function InvMixColumn(s: seq<bv8>): (r: seq<bv8>)
    requires |s| == 4
    ensures |r| == 4
  {
    [InvMixRow(s[0], s[1], s[2], s[3]), InvMixRow(s[1], s[2], s[3], s[0]),
     InvMixRow(s[2], s[3], s[0], s[1]), InvMixRow(s[3], s[0], s[1], s[2])]
  }

  // The coefficient of each input byte in an output byte of
  // InvMixColumns(MixColumns(s)): {0e}{02} + {0b} + {0d} + {09}{03} = 1 for
  // the byte in the same row, and 0 for the three others.

  lemma SameRowCoefficient(a: bv8)
    ensures Sum4(GMul(GMul(a, 0x02), 0x0e), GMul(a, 0x0b), GMul(a, 0x0d), GMul(GMul(a, 0x03), 0x09)) == a
  {
  }

  lemma NextRowCoefficient(b: bv8)
    ensures Sum4(GMul(GMul(b, 0x03), 0x0e), GMul(GMul(b, 0x02), 0x0b), GMul(b, 0x0d), GMul(b, 0x09)) == 0
  {
  }

  lemma OppositeRowCoefficient(c: bv8)
    ensures Sum4(GMul(c, 0x0e), GMul(GMul(c, 0x03), 0x0b), GMul(GMul(c, 0x02), 0x0d), GMul(c, 0x09)) == 0
  {
  }

  lemma PreviousRowCoefficient(d: bv8)
    ensures Sum4(GMul(d, 0x0e), GMul(d, 0x0b), GMul(GMul(d, 0x03), 0x0d), GMul(GMul(d, 0x02), 0x09)) == 0
  {
  }

  lemma Sum4Zeros(a: bv8)
    ensures Sum4(a, 0, 0, 0) == a
  {
  }

  /** InvMixColumns recovers each byte that MixColumns mixed. */
  lemma InvMixRowOfMixRows(a: bv8, b: bv8, c: bv8, d: bv8)
    ensures InvMixRow(MixRow(a, b, c, d), MixRow(b, c, d, a), MixRow(c, d, a, b), MixRow(d, a, b, c)) == a
  {
    GMul0ESum4(GMul(a, 0x02), GMul(b, 0x03), c, d);
    GMul0BSum4(GMul(b, 0x02), GMul(c, 0x03), d, a);
    GMul0DSum4(GMul(c, 0x02), GMul(d, 0x03), a, b);
    GMul09Sum4(GMul(d, 0x02), GMul(a, 0x03), b, c);
    SumOfRowsIsSumOfDiagonals(
      GMul(GMul(a, 0x02), 0x0e), GMul(GMul(b, 0x03), 0x0e), GMul(c, 0x0e), GMul(d, 0x0e),
      GMul(GMul(b, 0x02), 0x0b), GMul(GMul(c, 0x03), 0x0b), GMul(d, 0x0b), GMul(a, 0x0b),
      GMul(GMul(c, 0x02), 0x0d), GMul(GMul(d, 0x03), 0x0d), GMul(a, 0x0d), GMul(b, 0x0d),
      GMul(GMul(d, 0x02), 0x09), GMul(GMul(a, 0x03), 0x09), GMul(b, 0x09), GMul(c, 0x09));
    SameRowCoefficient(a);
    NextRowCoefficient(b);
    OppositeRowCoefficient(c);
    PreviousRowCoefficient(d);
    Sum4Zeros(a);
  }

  // ---------------------------------------------------------------------
  // Words: four bytes in little-endian order
  // ---------------------------------------------------------------------

  /** The bytes of a word, byte 0 being the least significant: the byte
      at the lowest address on a little-endian machine. */
  function Byte0(w: bv32): bv8 { (w & 0xff) as bv8 }
  function Byte1(w: bv32): bv8 { ((w >> 8) & 0xff) as bv8 }
  function Byte2(w: bv32): bv8 { ((w >> 16) & 0xff) as bv8 }
  function Byte3(w: bv32): bv8 { ((w >> 24) & 0xff) as bv8 }

  /** The four bytes of a word, lowest address first. */
  function Lanes(w: bv32): (c: seq<bv8>)
    ensures |c| == 4
  {
    [Byte0(w), Byte1(w), Byte2(w), Byte3(w)]
  }

  /** The word with bytes b0..b3, lowest address first. */
  function Pack(b0: bv8, b1: bv8, b2: bv8, b3: bv8): bv32
  {
    (b0 as bv32) | ((b1 as bv32) << 8) | ((b2 as bv32) << 16) | ((b3 as bv32) << 24)
  }

  /** The word stored in four consecutive bytes: the DWORD cast of the
      source on a little-endian machine. */
  function Word(c: seq<bv8>): bv32
    requires |c| == 4
  {
    Pack(c[0], c[1], c[2], c[3])
  }

  lemma PackBytes(w: bv32, b0: bv8, b1: bv8, b2: bv8, b3: bv8)
    ensures Pack(Byte0(w), Byte1(w), Byte2(w), Byte3(w)) == w
    ensures Byte0(Pack(b0, b1, b2, b3)) == b0
    ensures Byte1(Pack(b0, b1, b2, b3)) == b1
    ensures Byte2(Pack(b0, b1, b2, b3)) == b2
    ensures Byte3(Pack(b0, b1, b2, b3)) == b3
  {
  }

  /** Storing a word and loading it back gives the word, and loading four
      bytes and storing the word gives the bytes. */
  lemma WordLanes(w: bv32, c: seq<bv8>)
    requires |c| == 4
    ensures Word(Lanes(w)) == w
    ensures Lanes(Word(c)) == c
  {
    PackBytes(w, c[0], c[1], c[2], c[3]);
  }

  /** ROR32: rotation of a word to the right by n bits. */
  function Ror32(w: bv32, n: bv5): bv32
  {
    (w >> n) | (w << (32 - n as bv32))
  }

  /** Exclusive or of two words, named so that the proofs below can
      follow it term by term. */
  function Xor(a: bv32, b: bv32): bv32 { a ^ b }

  /** Exclusive or of words acts byte by byte. */
  lemma XorBytes(a: bv32, b: bv32)
    ensures Byte0(Xor(a, b)) == Add(Byte0(a), Byte0(b))
    ensures Byte1(Xor(a, b)) == Add(Byte1(a), Byte1(b))
    ensures Byte2(Xor(a, b)) == Add(Byte2(a), Byte2(b))
    ensures Byte3(Xor(a, b)) == Add(Byte3(a), Byte3(b))
  {
    XorBytesOf(Xor(a, b), a, b);
  }

  lemma XorBytesOf(m: bv32, a: bv32, b: bv32)
    requires m == a ^ b
    ensures Byte0(m) == Add(Byte0(a), Byte0(b))
    ensures Byte1(m) == Add(Byte1(a), Byte1(b))
    ensures Byte2(m) == Add(Byte2(a), Byte2(b))
    ensures Byte3(m) == Add(Byte3(a), Byte3(b))
  {
  }

  /** Rotating right by 8, 16 or 24 bits moves every byte one, two or
      three places towards the lowest address, cyclically. */
  lemma Ror8Bytes(w: bv32)
    ensures Byte0(Ror32(w, 8)) == Byte1(w)
    ensures Byte1(Ror32(w, 8)) == Byte2(w)
    ensures Byte2(Ror32(w, 8)) == Byte3(w)
    ensures Byte3(Ror32(w, 8)) == Byte0(w)
  {
  }

  lemma Ror16Bytes(w: bv32)
    ensures Byte0(Ror32(w, 16)) == Byte2(w)
    ensures Byte1(Ror32(w, 16)) == Byte3(w)
    ensures Byte2(Ror32(w, 16)) == Byte0(w)
    ensures Byte3(Ror32(w, 16)) == Byte1(w)
  {
  }

  lemma Ror24Bytes(w: bv32)
    ensures Byte0(Ror32(w, 24)) == Byte3(w)
    ensures Byte1(Ror32(w, 24)) == Byte0(w)
    ensures Byte2(Ror32(w, 24)) == Byte1(w)
    ensures Byte3(Ror32(w, 24)) == Byte2(w)
  {
  }

  // ---------------------------------------------------------------------
  // The Mul macros: a field product on each byte of a word
  // ---------------------------------------------------------------------

  /** Mul2: each byte shifted left within its lane, and 0x1b added back
      into the bytes whose high bit fell out. */
  function Mul2(w: bv32): bv32
  {
    Xor((w & 0x7f7f7f7f) << 1, ((w & 0x80808080) >> 7) * 0x1b)
  }

  function Mul3(w: bv32): bv32 { Xor(Mul2(w), w) }
  function Mul4(w: bv32): bv32 { Mul2(Mul2(w)) }
  function Mul8(w: bv32): bv32 { Mul2(Mul2(Mul2(w))) }
  function Mul9(w: bv32): bv32 { Xor(Mul8(w), w) }
  function MulB(w: bv32): bv32 { Xor(Mul8(w), Mul3(w)) }
  function MulD(w: bv32): bv32 { Xor(Xor(Mul8(w), Mul4(w)), w) }
  function MulE(w: bv32): bv32 { Xor(Xor(Mul8(w), Mul4(w)), Mul2(w)) }

  /** Mul2 multiplies every byte of the word by x. */
  lemma Mul2Bytes(w: bv32)
    ensures Byte0(Mul2(w)) == XTime(Byte0(w))
    ensures Byte1(Mul2(w)) == XTime(Byte1(w))
    ensures Byte2(Mul2(w)) == XTime(Byte2(w))
    ensures Byte3(Mul2(w)) == XTime(Byte3(w))
  {
  }

  /** Mul3 multiplies every byte by {03}. */
  lemma Mul3Bytes(w: bv32)
    ensures Byte0(Mul3(w)) == GMul(Byte0(w), 0x03)
    ensures Byte1(Mul3(w)) == GMul(Byte1(w), 0x03)
    ensures Byte2(Mul3(w)) == GMul(Byte2(w), 0x03)
    ensures Byte3(Mul3(w)) == GMul(Byte3(w), 0x03)
  {
    Mul2Bytes(w);
    XorBytes(Mul2(w), w);
    GMul03(Byte0(w));
    GMul03(Byte1(w));
    GMul03(Byte2(w));
    GMul03(Byte3(w));
  }

  /** Mul8 multiplies every byte by {08}, as x * x * x. */
  lemma Mul8Bytes(w: bv32)
    ensures Byte0(Mul8(w)) == XTime(XTime(XTime(Byte0(w))))
    ensures Byte1(Mul8(w)) == XTime(XTime(XTime(Byte1(w))))
    ensures Byte2(Mul8(w)) == XTime(XTime(XTime(Byte2(w))))
    ensures Byte3(Mul8(w)) == XTime(XTime(XTime(Byte3(w))))
  {
    Mul2Bytes(w);
    Mul2Bytes(Mul2(w));
    Mul2Bytes(Mul2(Mul2(w)));
  }

  /** Mul9 multiplies every byte by {09}. */
  lemma Mul9Bytes(w: bv32)
    ensures Byte0(Mul9(w)) == GMul(Byte0(w), 0x09)
    ensures Byte1(Mul9(w)) == GMul(Byte1(w), 0x09)
    ensures Byte2(Mul9(w)) == GMul(Byte2(w), 0x09)
    ensures Byte3(Mul9(w)) == GMul(Byte3(w), 0x09)
  {
    Mul8Bytes(w);
    XorBytes(Mul8(w), w);
    GMul09(Byte0(w));
    GMul09(Byte1(w));
    GMul09(Byte2(w));
    GMul09(Byte3(w));
  }

  /** MulB multiplies every byte by {0b}. */
  lemma MulBBytes(w: bv32)
    ensures Byte0(MulB(w)) == GMul(Byte0(w), 0x0b)
    ensures Byte1(MulB(w)) == GMul(Byte1(w), 0x0b)
    ensures Byte2(MulB(w)) == GMul(Byte2(w), 0x0b)
    ensures Byte3(MulB(w)) == GMul(Byte3(w), 0x0b)
  {
    Mul2Bytes(w);
    Mul8Bytes(w);
    XorBytes(Mul2(w), w);
    XorBytes(Mul8(w), Mul3(w));
    GMul0B(Byte0(w));
    GMul0B(Byte1(w));
    GMul0B(Byte2(w));
    GMul0B(Byte3(w));
  }

  /** MulD multiplies every byte by {0d}. */
  lemma MulDBytes(w: bv32)
    ensures Byte0(MulD(w)) == GMul(Byte0(w), 0x0d)
    ensures Byte1(MulD(w)) == GMul(Byte1(w), 0x0d)
    ensures Byte2(MulD(w)) == GMul(Byte2(w), 0x0d)
    ensures Byte3(MulD(w)) == GMul(Byte3(w), 0x0d)
  {
    Mul2Bytes(w);
    Mul2Bytes(Mul2(w));
    Mul8Bytes(w);
    XorBytes(Mul8(w), Mul4(w));
    XorBytes(Xor(Mul8(w), Mul4(w)), w);
    GMul0D(Byte0(w));
    GMul0D(Byte1(w));
    GMul0D(Byte2(w));
    GMul0D(Byte3(w));
  }

  /** MulE multiplies every byte by {0e}. */
  lemma MulEBytes(w: bv32)
    ensures Byte0(MulE(w)) == GMul(Byte0(w), 0x0e)
    ensures Byte1(MulE(w)) == GMul(Byte1(w), 0x0e)
    ensures Byte2(MulE(w)) == GMul(Byte2(w), 0x0e)
    ensures Byte3(MulE(w)) == GMul(Byte3(w), 0x0e)
  {
    Mul2Bytes(w);
    Mul2Bytes(Mul2(w));
    Mul8Bytes(w);
    XorBytes(Mul8(w), Mul4(w));
    XorBytes(Xor(Mul8(w), Mul4(w)), Mul2(w));
    GMul0E(Byte0(w));
    GMul0E(Byte1(w));
    GMul0E(Byte2(w));
    GMul0E(Byte3(w));
  }

  // ---------------------------------------------------------------------
  // Column mixing on words
  // ---------------------------------------------------------------------

  /** The word computation of MixColumns:
      Mul2(w) ^ ROR32(Mul3(w), 8) ^ ROR32(w, 16) ^ ROR32(w, 24). */
  function MixWord(w: bv32): bv32
  {
    Xor(Xor(Xor(Mul2(w), Ror32(Mul3(w), 8)), Ror32(w, 16)), Ror32(w, 24))
  }

  /** The word computation of MixColumnsR:
      MulE(w) ^ ROR32(MulB(w), 8) ^ ROR32(MulD(w), 16) ^ ROR32(Mul9(w), 24). */
  function MixWordR(w: bv32): bv32
  {
    Xor(Xor(Xor(MulE(w), Ror32(MulB(w), 8)), Ror32(MulD(w), 16)), Ror32(Mul9(w), 24))
  }

  /** Byte 0 of MixWord(w) is MixColumns' output in row 0. */
  lemma MixWordByte0(w: bv32)
    ensures Byte0(MixWord(w)) == MixRow(Byte0(w), Byte1(w), Byte2(w), Byte3(w))
  {
    XorBytes(Xor(Xor(Mul2(w), Ror32(Mul3(w), 8)), Ror32(w, 16)), Ror32(w, 24));
    XorBytes(Xor(Mul2(w), Ror32(Mul3(w), 8)), Ror32(w, 16));
    XorBytes(Mul2(w), Ror32(Mul3(w), 8));
    Mul2Bytes(w);
    GMul02(Byte0(w));
    Mul3Bytes(w);
    Ror8Bytes(Mul3(w));
    Ror16Bytes(w);
    Ror24Bytes(w);
  }

  /** Byte 1 of MixWord(w) is MixColumns' output in row 1. */
  lemma MixWordByte1(w: bv32)
    ensures Byte1(MixWord(w)) == MixRow(Byte1(w), Byte2(w), Byte3(w), Byte0(w))
  {
    XorBytes(Xor(Xor(Mul2(w), Ror32(Mul3(w), 8)), Ror32(w, 16)), Ror32(w, 24));
    XorBytes(Xor(Mul2(w), Ror32(Mul3(w), 8)), Ror32(w, 16));
    XorBytes(Mul2(w), Ror32(Mul3(w), 8));
    Mul2Bytes(w);
    GMul02(Byte1(w));
    Mul3Bytes(w);
    Ror8Bytes(Mul3(w));
    Ror16Bytes(w);
    Ror24Bytes(w);
  }

  /** Byte 2 of MixWord(w) is MixColumns' output in row 2. */
  lemma MixWordByte2(w: bv32)
    ensures Byte2(MixWord(w)) == MixRow(Byte2(w), Byte3(w), Byte0(w), Byte1(w))
  {
    XorBytes(Xor(Xor(Mul2(w), Ror32(Mul3(w), 8)), Ror32(w, 16)), Ror32(w, 24));
    XorBytes(Xor(Mul2(w), Ror32(Mul3(w), 8)), Ror32(w, 16));
    XorBytes(Mul2(w), Ror32(Mul3(w), 8));
    Mul2Bytes(w);
    GMul02(Byte2(w));
    Mul3Bytes(w);
    Ror8Bytes(Mul3(w));
    Ror16Bytes(w);
    Ror24Bytes(w);
  }

  /** Byte 3 of MixWord(w) is MixColumns' output in row 3. */
  lemma MixWordByte3(w: bv32)
    ensures Byte3(MixWord(w)) == MixRow(Byte3(w), Byte0(w), Byte1(w), Byte2(w))
  {
    XorBytes(Xor(Xor(Mul2(w), Ror32(Mul3(w), 8)), Ror32(w, 16)), Ror32(w, 24));
    XorBytes(Xor(Mul2(w), Ror32(Mul3(w), 8)), Ror32(w, 16));
    XorBytes(Mul2(w), Ror32(Mul3(w), 8));
    Mul2Bytes(w);
    GMul02(Byte3(w));
    Mul3Bytes(w);
    Ror8Bytes(Mul3(w));
    Ror16Bytes(w);
    Ror24Bytes(w);
  }

  /** Byte 0 of MixWordR(w) is InvMixColumns' output in row 0. */
  lemma MixWordRByte0(w: bv32)
    ensures Byte0(MixWordR(w)) == InvMixRow(Byte0(w), Byte1(w), Byte2(w), Byte3(w))
  {
    XorBytes(Xor(Xor(MulE(w), Ror32(MulB(w), 8)), Ror32(MulD(w), 16)), Ror32(Mul9(w), 24));
    XorBytes(Xor(MulE(w), Ror32(MulB(w), 8)), Ror32(MulD(w), 16));
    XorBytes(MulE(w), Ror32(MulB(w), 8));
    MulEBytes(w);
    MulBBytes(w);
    MulDBytes(w);
    Mul9Bytes(w);
    Ror8Bytes(MulB(w));
    Ror16Bytes(MulD(w));
    Ror24Bytes(Mul9(w));
  }

  /** Byte 1 of MixWordR(w) is InvMixColumns' output in row 1. */
  lemma MixWordRByte1(w: bv32)
    ensures Byte1(MixWordR(w)) == InvMixRow(Byte1(w), Byte2(w), Byte3(w), Byte0(w))
  {
    XorBytes(Xor(Xor(MulE(w), Ror32(MulB(w), 8)), Ror32(MulD(w), 16)), Ror32(Mul9(w), 24));
    XorBytes(Xor(MulE(w), Ror32(MulB(w), 8)), Ror32(MulD(w), 16));
    XorBytes(MulE(w), Ror32(MulB(w), 8));
    MulEBytes(w);
    MulBBytes(w);
    MulDBytes(w);
    Mul9Bytes(w);
    Ror8Bytes(MulB(w));
    Ror16Bytes(MulD(w));
    Ror24Bytes(Mul9(w));
  }

  /** Byte 2 of MixWordR(w) is InvMixColumns' output in row 2. */
  lemma MixWordRByte2(w: bv32)
    ensures Byte2(MixWordR(w)) == InvMixRow(Byte2(w), Byte3(w), Byte0(w), Byte1(w))
  {
    XorBytes(Xor(Xor(MulE(w), Ror32(MulB(w), 8)), Ror32(MulD(w), 16)), Ror32(Mul9(w), 24));
    XorBytes(Xor(MulE(w), Ror32(MulB(w), 8)), Ror32(MulD(w), 16));
    XorBytes(MulE(w), Ror32(MulB(w), 8));
    MulEBytes(w);
    MulBBytes(w);
    MulDBytes(w);
    Mul9Bytes(w);
    Ror8Bytes(MulB(w));
    Ror16Bytes(MulD(w));
    Ror24Bytes(Mul9(w));
  }

  /** Byte 3 of MixWordR(w) is InvMixColumns' output in row 3. */
  lemma MixWordRByte3(w: bv32)
    ensures Byte3(MixWordR(w)) == InvMixRow(Byte3(w), Byte0(w), Byte1(w), Byte2(w))
  {
    XorBytes(Xor(Xor(MulE(w), Ror32(MulB(w), 8)), Ror32(MulD(w), 16)), Ror32(Mul9(w), 24));
    XorBytes(Xor(MulE(w), Ror32(MulB(w), 8)), Ror32(MulD(w), 16));
    XorBytes(MulE(w), Ror32(MulB(w), 8));
    MulEBytes(w);
    MulBBytes(w);
    MulDBytes(w);
    Mul9Bytes(w);
    Ror8Bytes(MulB(w));
    Ror16Bytes(MulD(w));
    Ror24Bytes(Mul9(w));
  }

  /** On the column held in a word, MixWord computes MixColumns. */
  lemma MixWordIsMixColumn(w: bv32)
    ensures Lanes(MixWord(w)) == MixColumn(Lanes(w))
  {
    MixWordByte0(w); MixWordByte1(w); MixWordByte2(w); MixWordByte3(w);
  }

  /** On the column held in a word, MixWordR computes InvMixColumns. */
  lemma MixWordRIsInvMixColumn(w: bv32)
    ensures Lanes(MixWordR(w)) == InvMixColumn(Lanes(w))
  {
    MixWordRByte0(w); MixWordRByte1(w); MixWordRByte2(w); MixWordRByte3(w);
  }

  // MixWordR(MixWord(w)) recovers each byte of w: row r of the result is
  // InvMixColumns applied to the four MixColumns outputs, rotated to row r.

  lemma MixWordRUndoesByte0(w: bv32)
    ensures Byte0(MixWordR(MixWord(w))) == Byte0(w)
  {
    MixWordRByte0(MixWord(w));
    MixWordByte0(w); MixWordByte1(w); MixWordByte2(w); MixWordByte3(w);
    InvMixRowOfMixRows(Byte0(w), Byte1(w), Byte2(w), Byte3(w));
  }

  lemma MixWordRUndoesByte1(w: bv32)
    ensures Byte1(MixWordR(MixWord(w))) == Byte1(w)
  {
    MixWordRByte1(MixWord(w));
    MixWordByte0(w); MixWordByte1(w); MixWordByte2(w); MixWordByte3(w);
    InvMixRowOfMixRows(Byte1(w), Byte2(w), Byte3(w), Byte0(w));
  }

  lemma MixWordRUndoesByte2(w: bv32)
    ensures Byte2(MixWordR(MixWord(w))) == Byte2(w)
  {
    MixWordRByte2(MixWord(w));
    MixWordByte0(w); MixWordByte1(w); MixWordByte2(w); MixWordByte3(w);
    InvMixRowOfMixRows(Byte2(w), Byte3(w), Byte0(w), Byte1(w));
  }

  lemma MixWordRUndoesByte3(w: bv32)
    ensures Byte3(MixWordR(MixWord(w))) == Byte3(w)
  {
    MixWordRByte3(MixWord(w));
    MixWordByte0(w); MixWordByte1(w); MixWordByte2(w); MixWordByte3(w);
    InvMixRowOfMixRows(Byte3(w), Byte0(w), Byte1(w), Byte2(w));
  }

  /** MixColumnsR undoes MixColumns, word by word. */
  lemma MixWordRUndoesMixWord(w: bv32)
    ensures MixWordR(MixWord(w)) == w
  {
    var x := MixWordR(MixWord(w));
    MixWordRUndoesByte0(w); MixWordRUndoesByte1(w);
    MixWordRUndoesByte2(w); MixWordRUndoesByte3(w);
    assert Lanes(x) == Lanes(w);
    WordLanes(x, Lanes(w));
    WordLanes(w, Lanes(w));
  }
}
