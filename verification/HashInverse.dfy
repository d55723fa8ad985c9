/** The hash read backwards, and its value on three texts. */
module HashInverse {
  import opened LogLines
  import opened Murmur
  import Etag

  // ----- Each operation has an inverse

  /** Bit `k` of `x`. */
  function Bit(x: nat, k: nat): nat {
    if k == 0 then x % 2 else Bit(x / 2, k - 1)
  }

  /** Exclusive or goes bit by bit. */
  lemma {:induction false} XorBit(a: nat, b: nat, k: nat)
    ensures Bit(Xor(a, b), k) == 1 <==> Bit(a, k) != Bit(b, k)
    decreases k
  {
    hide Xor;
    XorOnce(a, b);
    if k > 0 {
      XorBit(a / 2, b / 2, k - 1);
    }
  }

  lemma {:induction false} XorTwice(a: nat, b: nat)
    ensures Xor(Xor(a, b), b) == a && Xor(b, Xor(b, a)) == a
    decreases a + b
  {
    hide Xor;
    if a + b == 0 {
      XorZero(0);
    } else {
      XorOnce(a, b);
      XorOnce(b, a);
      XorTwice(a / 2, b / 2);
      XorOnce(Xor(a, b), b);
      XorOnce(b, Xor(b, a));
    }
  }

  lemma {:induction false} XorCommutes(a: nat, b: nat)
    ensures Xor(a, b) == Xor(b, a)
    decreases a + b
  {
    hide Xor;
    if a + b > 0 {
      XorOnce(a, b);
      XorOnce(b, a);
      XorCommutes(a / 2, b / 2);
    }
  }

  function Untimes(x: nat): nat {
    x * UNMUL % WORD
  }

  lemma Remainder(x: nat, z: int)
    requires x < WORD
    ensures (z * WORD + x) % WORD == x
  {
  }

  lemma TimesUndone(x: nat)
    requires x < WORD
    ensures Untimes(Times(x)) == x
  {
    var q := x * MUL / WORD;
    var z := x * 0x4a15d006d409ab6f - q * UNMUL;
    assert Times(x) == x * MUL - q * WORD;
    assert Times(x) * UNMUL == z * WORD + x;
    Remainder(x, z);
  }

  /** Folding again unfolds. */
  lemma FoldTwice(x: nat)
    requires x < WORD
    ensures Fold(x) < WORD && Fold(Fold(x)) == x
  {
    hide Xor, Fold;
    var low, mask := x % 131072, x / 0x8000_0000_0000;
    FoldParts(x);
    var y := Fold(x);
    assert y / 131072 == x / 131072;
    assert y / 0x8000_0000_0000 == y / 131072 / 0x4000_0000;
    assert x / 0x8000_0000_0000 == x / 131072 / 0x4000_0000;
    FoldParts(y);
    XorTwice(low, mask);
  }

  function Unfinish(y: nat): nat {
    Fold(Untimes(Fold(y)))
  }

  lemma FinishUndone(h: nat)
    requires h < WORD
    ensures Unfinish(Finish(h)) == h
  {
    hide Times, Untimes, Fold;
    FoldTwice(h);
    TimesUndone(Fold(h));
    FoldTwice(Times(Fold(h)));
  }

  function Unmix(y: nat): nat {
    Untimes(Fold(Untimes(y)))
  }

  lemma MixUndone(d: nat)
    requires d < WORD
    ensures Unmix(MixBlock(d)) == d
  {
    hide Times, Untimes, Fold;
    TimesUndone(d);
    FoldTwice(Times(d));
    TimesUndone(Fold(Times(d)));
  }

  /** The number mixed into `hash` to give `state`. */
  function Unabsorb(hash: nat, state: nat): nat {
    Xor(hash, Untimes(state))
  }

  lemma AbsorbUndone(hash: nat, data: nat)
    requires hash < WORD && data < WORD
    ensures Unabsorb(hash, Absorb(hash, data)) == data
  {
    hide Times, Untimes, Xor;
    XorWord(hash, data);
    TimesUndone(Xor(hash, data));
    XorTwice(data, hash);
  }

  lemma OneBlock(b: Bytes, seed: nat)
    requires |b| == 8
    ensures Hash(b, seed) == Finish(Absorb(Xor(seed, Times(8)), MixBlock(LittleEndian(b))))
  {
    hide Finish, Xor, Absorb, MixBlock, LittleEndian;
    assert b[..8] == b && b[8..] == [];
    assert Blocks(Xor(seed, Times(8)), b) == Absorb(Xor(seed, Times(8)), MixBlock(LittleEndian(b)));
  }

  /** Eight bytes can be read back from their hash and its seed. */
  lemma BlockRecovered(b: Bytes, seed: nat)
    requires |b| == 8 && seed < WORD
    ensures LittleEndian(b) == Unmix(Unabsorb(Xor(seed, Times(8)), Unfinish(Hash(b, seed))))
  {
    hide Hash, Finish, Unfinish, Unmix, MixBlock, Xor, Absorb, Unabsorb, LittleEndian;
    var start, data := Xor(seed, Times(8)), LittleEndian(b);
    OneBlock(b, seed);
    BlockIsWord(b);
    XorWord(seed, Times(8));
    WordsOut(start, data);
    FinishUndone(Absorb(start, MixBlock(data)));
    AbsorbUndone(start, MixBlock(data));
    MixUndone(data);
  }

  lemma OneTail(b: Bytes, seed: nat)
    requires 0 < |b| < 8
    ensures Hash(b, seed) == Finish(Absorb(Xor(seed, Times(|b|)), LittleEndian(b)))
  {
    hide Finish, Xor, Absorb, LittleEndian;
    assert b[0..] == b;
  }

  lemma AbsorbWord(h: nat, x: nat)
    ensures Absorb(h, x) < WORD
  {
  }

  /** So can a shorter text, whose bytes enter unmixed. */
  lemma TailRecovered(b: Bytes, seed: nat)
    requires 0 < |b| < 8 && seed < WORD
    ensures LittleEndian(b) == Unabsorb(Xor(seed, Times(|b|)), Unfinish(Hash(b, seed)))
  {
    hide Hash, Finish, Unfinish, Xor, Absorb, Unabsorb, LittleEndian, Times;
    var start, data := Xor(seed, Times(|b|)), LittleEndian(b);
    OneTail(b, seed);
    BlockIsWord(b);
    XorWord(seed, Times(|b|));
    AbsorbWord(start, data);
    FinishUndone(Absorb(start, data));
    AbsorbUndone(start, data);
  }

  // ----- Values

  lemma NextBit(a: nat, b: nat, p: nat, q: nat)
    requires p < 2 && q < 2
    ensures Xor(2 * a + p, 2 * b + q) == 2 * Xor(a, b) + (p + q) % 2
  {
    hide Xor;
    XorOnce(2 * a + p, 2 * b + q);
    assert (2 * a + p) / 2 == a && (2 * b + q) / 2 == b;
  }

  /** Exclusive or of two numbers below 4. */
  function XorPair(p: nat, q: nat): nat {
    if p == q then 0 else if p == 0 then q else if q == 0 then p else if p + q <= 6 then 6 - p - q else 0
  }

  lemma NextPair(a: nat, b: nat, p: nat, q: nat)
    requires p < 4 && q < 4
    ensures Xor(4 * a + p, 4 * b + q) == 4 * Xor(a, b) + XorPair(p, q)
  {
    hide Xor;
    NextBit(a, b, p / 2, q / 2);
    NextBit(2 * a + p / 2, 2 * b + q / 2, p % 2, q % 2);
  }

  /** Exclusive or of two hexadecimal digits. */
  function XorDigit(p: nat, q: nat): nat {
    4 * XorPair(p / 4, q / 4) + XorPair(p % 4, q % 4)
  }

  lemma NextDigit(a: nat, b: nat, p: nat, q: nat)
    requires p < 16 && q < 16
    ensures Xor(16 * a + p, 16 * b + q) == 16 * Xor(a, b) + XorDigit(p, q)
  {
    hide Xor, XorPair;
    NextPair(a, b, p / 4, q / 4);
    NextPair(4 * a + p / 4, 4 * b + q / 4, p % 4, q % 4);
  }

  function Five(p4: nat, p3: nat, p2: nat, p1: nat, p0: nat): nat {
    65536 * p4 + 4096 * p3 + 256 * p2 + 16 * p1 + p0
  }

  /** Two numbers of five hexadecimal digits. */
  lemma FiveDigits(p4: nat, p3: nat, p2: nat, p1: nat, p0: nat, q4: nat, q3: nat, q2: nat, q1: nat, q0: nat)
    requires p4 < 16 && p3 < 16 && p2 < 16 && p1 < 16 && p0 < 16
    requires q4 < 16 && q3 < 16 && q2 < 16 && q1 < 16 && q0 < 16
    ensures Xor(Five(p4, p3, p2, p1, p0), Five(q4, q3, q2, q1, q0))
         == Five(XorDigit(p4, q4), XorDigit(p3, q3), XorDigit(p2, q2), XorDigit(p1, q1), XorDigit(p0, q0))
  {
    hide Xor, XorDigit;
    XorZero(0);
    NextDigit(0, 0, p4, q4);
    NextDigit(p4, q4, p3, q3);
    NextDigit(16 * p4 + p3, 16 * q4 + q3, p2, q2);
    NextDigit(256 * p4 + 16 * p3 + p2, 256 * q4 + 16 * q3 + q2, p1, q1);
    NextDigit(4096 * p4 + 256 * p3 + 16 * p2 + p1, 4096 * q4 + 256 * q3 + 16 * q2 + q1, p0, q0);
  }

  /** A fold only touches the last seventeen bits. */
  lemma FoldDigits(x: nat, p4: nat, p3: nat, p2: nat, p1: nat, p0: nat, q4: nat, q3: nat, q2: nat, q1: nat, q0: nat)
    requires p4 < 16 && p3 < 16 && p2 < 16 && p1 < 16 && p0 < 16
    requires q4 < 16 && q3 < 16 && q2 < 16 && q1 < 16 && q0 < 16
    requires x < WORD && x % 131072 == Five(p4, p3, p2, p1, p0) && x / 0x8000_0000_0000 == Five(q4, q3, q2, q1, q0)
    ensures Fold(x) == x - x % 131072
      + Five(XorDigit(p4, q4), XorDigit(p3, q3), XorDigit(p2, q2), XorDigit(p1, q1), XorDigit(p0, q0))
  {
    hide Xor, Fold, XorDigit;
    FiveDigits(p4, p3, p2, p1, p0, q4, q3, q2, q1, q0);
    FoldParts(x);
  }

  lemma FinishOnce(h: nat)
    ensures Finish(h) == Fold(Times(Fold(h)))
  {
  }

  lemma FoldOne()
    ensures Fold(1) == 1
  {
    hide Xor;
    XorZero(1);
  }

  lemma FoldMul()
    ensures Fold(MUL) == 0xc6a4a7935bd064dc
  {
    hide Fold, Xor;
    FoldDigits(MUL, 0x1, 0xe, 0x9, 0x9, 0x5, 0x1, 0x8, 0xd, 0x4, 0x9);
  }

  lemma FoldLetter()
    ensures Fold(0xecc3befc3b503f04) == 0xecc3befc3b51e683
  {
    hide Fold, Xor;
    FoldDigits(0xecc3befc3b503f04, 0x0, 0x3, 0xf, 0x0, 0x4, 0x1, 0xd, 0x9, 0x8, 0x7);
  }

  lemma FoldProduct()
    ensures Fold(0x071717d2d36b653f) == 0x071717d2d36b6b11
  {
    hide Fold, Xor;
    assert XorDigit(0x5, 0xe) == 0xb;
    assert XorDigit(0xf, 0xe) == 0x1;
    FoldDigits(0x071717d2d36b653f, 0x1, 0x6, 0x5, 0x3, 0xf, 0x0, 0x0, 0xe, 0x2, 0xe);
  }

  lemma Products()
    ensures Times(0) == 0 && Times(1) == MUL
    ensures Times(0xc6a4a7935bd1e9f4) == 0xecc3befc3b503f04
    ensures Times(0xecc3befc3b51e683) == 0x071717d2d36b653f
  {
  }

  lemma XorLetter()
    ensures Xor(MUL, 97) == 0xc6a4a7935bd1e9f4
  {
    hide Xor;
    assert MUL == 16 * (16 * 0xc6a4a7935bd1e9 + 9) + 5;
    XorZero(0xc6a4a7935bd1e9);
    NextDigit(0xc6a4a7935bd1e9, 0, 9, 6);
    NextDigit(16 * 0xc6a4a7935bd1e9 + 9, 6, 5, 1);
  }

  lemma ZeroXor(x: nat)
    ensures Xor(0, x) == x
  {
    hide Xor;
    XorZero(x);
    XorCommutes(x, 0);
  }

  /** The empty text under the seed 1. */
  lemma EmptyTextValue()
    ensures Hash([], 1) == 0xc6a4a7935bd064dc
  {
    hide Fold, Xor, Times, Finish;
    XorZero(1);
    Products();
    FoldOne();
    FoldMul();
    FinishOnce(1);
  }

  lemma LetterOnce()
    ensures Hash([97], 0) == Finish(Absorb(Xor(0, Times(1)), 97))
  {
    hide Finish, Xor, Absorb, Times;
    OneTail([97], 0);
    assert LittleEndian([97]) == 97;
  }

  /** The letter `a` under the seed 0. */
  lemma LetterValue()
    ensures Hash([97], 0) == 0x071717d2d36b6b11
  {
    hide Fold, Xor, Times, Finish, Hash;
    LetterOnce();
    Products();
    ZeroXor(MUL);
    XorLetter();
    FinishOnce(0xecc3befc3b503f04);
    FoldLetter();
    FoldProduct();
  }

  // ----- The etag of the empty file

  lemma StartDigits()
    ensures XorDigit(0xc, 0xb) == 0x7 && XorDigit(0x7, 0xd) == 0xa && XorDigit(0x0, 0x1) == 0x1
  {
  }

  lemma MoreDigits()
    ensures XorDigit(0xf, 0xe) == 0x1 && XorDigit(0x6, 0x9) == 0xf && XorDigit(0x8, 0x9) == 0x1
    ensures XorDigit(0xf, 0x5) == 0xa && XorDigit(0x0, 0x0) == 0x0
  {
  }

  lemma XorStart()
    ensures Xor(0xc70f68f0, 0x6a4a7935bd1e9950) == 0x6a4a79357a11f1a0
  {
    hide Xor, XorDigit;
    ZeroXor(0x6a4a7935);
    StartDigits();
    MoreDigits();
    NextDigit(0, 0x6a4a7935, 0xc, 0xb);
    NextDigit(0xc, 0x6a4a7935b, 0x7, 0xd);
    NextDigit(0xc7, 0x6a4a7935bd, 0x0, 0x1);
    NextDigit(0xc70, 0x6a4a7935bd1, 0xf, 0xe);
    NextDigit(0xc70f, 0x6a4a7935bd1e, 0x6, 0x9);
    NextDigit(0xc70f6, 0x6a4a7935bd1e9, 0x8, 0x9);
    NextDigit(0xc70f68, 0x6a4a7935bd1e99, 0xf, 0x5);
    NextDigit(0xc70f68f, 0x6a4a7935bd1e995, 0x0, 0x0);
  }

  lemma FoldState()
    ensures Fold(0x9f35129e5b219ca0) == 0x9f35129e5b20a2ca
  {
    hide Fold, Xor;
    assert XorDigit(0x9, 0x3) == 0xa;
    assert XorDigit(0xc, 0xe) == 0x2;
    assert XorDigit(0xa, 0x6) == 0xc;
    FoldDigits(0x9f35129e5b219ca0, 0x1, 0x9, 0xc, 0xa, 0x0, 0x1, 0x3, 0xe, 0x6, 0xa);
  }

  lemma FoldLast()
    ensures Fold(0x98da369c73129992) == 0x98da369c7313a826
  {
    hide Fold, Xor;
    assert XorDigit(0x9, 0x3) == 0xa;
    assert XorDigit(0x9, 0x1) == 0x8;
    assert XorDigit(0x9, 0xb) == 0x2;
    FoldDigits(0x98da369c73129992, 0x0, 0x9, 0x9, 0x9, 0x2, 0x1, 0x3, 0x1, 0xb, 0x4);
  }

  lemma StateProducts()
    ensures Times(16) == 0x6a4a7935bd1e9950
    ensures Times(0x6a4a79357a11f1a0) == 0xf42460a484fc4220
    ensures Times(0xf42460a484fc4220) == 0x9f35129e5b219ca0
    ensures Times(0x9f35129e5b20a2ca) == 0x98da369c73129992
  {
  }

  lemma ZeroBlock(h: nat)
    ensures Absorb(h, MixBlock(0)) == Times(h)
  {
    hide Xor;
    XorZero(0);
    XorZero(h);
  }

  lemma {:induction false} AllZero(b: Bytes)
    requires forall i :: 0 <= i < |b| ==> b[i] == 0
    ensures LittleEndian(b) == 0
    decreases |b|
  {
    if b != [] {
      AllZero(b[1..]);
    }
  }

  lemma NextZeroBlock(h: nat, b: Bytes)
    requires |b| >= 8 && forall i :: 0 <= i < 8 ==> b[i] == 0
    ensures Blocks(h, b) == Blocks(Times(h), b[8..])
  {
    hide Absorb, MixBlock, Times, LittleEndian;
    AllZero(b[..8]);
    ZeroBlock(h);
  }

  lemma TwoZeroBlocks(h: nat, b: Bytes)
    requires |b| == 16 && forall i :: 0 <= i < 16 ==> b[i] == 0
    ensures Blocks(h, b) == Times(Times(h))
  {
    hide Absorb, MixBlock, Times, LittleEndian;
    NextZeroBlock(h, b);
    NextZeroBlock(Times(h), b[8..]);
  }

  lemma {:induction false} PackedZero(n: nat)
    ensures forall i :: 0 <= i < n ==> Etag.Packed(0, n)[i] == 0
  {
    if n > 0 {
      PackedZero(n - 1);
    }
  }

  lemma ZeroBuffer()
    ensures var b := Etag.Buffer(0, 0); |b| == 16 && forall i :: 0 <= i < 16 ==> b[i] == 0
  {
    PackedZero(8);
  }

  lemma ZerosHash(b: Bytes)
    requires |b| == 16 && forall i :: 0 <= i < 16 ==> b[i] == 0
    ensures Hash(b, Etag.SEED) == 0x98da369c7313a826
  {
    hide Xor, Fold, Times, Blocks;
    XorStart();
    StateProducts();
    TwoZeroBlocks(0x6a4a79357a11f1a0, b);
    FoldState();
    FoldLast();
    assert b[16..] == [];
  }

  /** The etag of an empty file of time zero is 98da369c7313a826. */
  lemma EmptyFileEtag()
    ensures Etag.HexNumber(Etag.EtagOf(0, 0)) == 0x98da369c7313a826
  {
    hide Hash, Etag.Hex, Etag.HexNumber, Etag.EtagOf, Etag.Buffer;
    ZeroBuffer();
    ZerosHash(Etag.Buffer(0, 0));
    Etag.EtagSpellsHash(0, 0);
  }
}
