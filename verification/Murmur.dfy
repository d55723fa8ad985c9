/** The 64-bit hash behind etags and agent ids (`util::MurMurHash64`), on unsigned numbers modulo
    2 to the 64. */
module Murmur {
  import opened LogLines

  const WORD: nat := 0x1_0000_0000_0000_0000
  const MUL: nat := 0xc6a4a7935bd1e995

  /** `MUL` times this is 1 modulo 2 to the 64. */
  const UNMUL: nat := 0x5f7a0ea7e59b19bd

  // ----- Operations on words

  /** Bitwise exclusive or. */
  function Xor(a: nat, b: nat): nat
    decreases a + b
  {
    if a == 0 && b == 0 then 0 else 2 * Xor(a / 2, b / 2) + (a + b) % 2
  }

  function Times(x: nat): (r: nat)
    ensures r < WORD
  {
    x * MUL % WORD
  }

  /** `x ^ (x >> 47)`. */
  function Fold(x: nat): nat {
    Xor(x, x / 0x8000_0000_0000)
  }

  /** The mixing of a block before it enters the hash. */
  function MixBlock(data: nat): nat {
    Times(Fold(Times(data)))
  }

  /** Bytes as a number, the first byte lowest. */
  function LittleEndian(b: Bytes): nat {
    if b == [] then 0 else LittleEndian(b[1..]) * 256 + b[0]
  }

  function Absorb(hash: nat, data: nat): nat {
    Times(Xor(hash, data))
  }

  // ----- The hash

  /** The state after the whole 8-byte blocks of `b`. */
  function Blocks(hash: nat, b: Bytes): nat
    decreases |b|
  {
    if |b| < 8 then hash else Blocks(Absorb(hash, MixBlock(LittleEndian(b[..8]))), b[8..])
  }

  /** The last bytes, fewer than a block, enter unmixed. */
  function WithTail(hash: nat, tail: Bytes): nat {
    if tail == [] then hash else Absorb(hash, LittleEndian(tail))
  }

  function Finish(hash: nat): nat {
    Fold(Times(Fold(hash)))
  }

  function Aligned(b: Bytes): (n: nat)
    ensures n <= |b| && n % 8 == 0 && |b| - n < 8
  {
    |b| - |b| % 8
  }

  function Hash(b: Bytes, seed: nat): nat {
    Finish(WithTail(Blocks(Xor(seed, Times(|b|)), b), b[Aligned(b)..]))
  }

  /** The tail loop: the bytes from last to first. */
  method ReadTail(b: Bytes) returns (data: nat)
    ensures data == LittleEndian(b)
  {
    data := 0;
    var n := |b| - 1;
    while n >= 0
      invariant -1 <= n < |b|
      invariant data == LittleEndian(b[n + 1..])
    {
      assert b[n..][1..] == b[n + 1..];
      data := data * 256 + b[n];
      n := n - 1;
    }
  }

  /** The hashing loops; the length of a buffer fits a signed 32-bit integer. */
  method MurMurHash64(b: Bytes, seed: nat) returns (hash: nat)
    requires |b| < 0x8000_0000
    ensures hash == Hash(b, seed)
  {
    hide Times, Xor, Fold, LittleEndian;
    var end := Aligned(b);
    hash := Xor(seed, Times(|b|));
    ghost var blocks := Blocks(hash, b);
    var p := 0;
    while p != end
      invariant 0 <= p <= end && p % 8 == 0
      invariant Blocks(hash, b[p..]) == blocks
      decreases end - p
    {
      assert b[p..][..8] == b[p..p + 8] && b[p..][8..] == b[p + 8..];
      var data := LittleEndian(b[p..p + 8]);
      data := Times(data);
      data := Times(Fold(data));
      hash := Xor(hash, data);
      hash := Times(hash);
      p := p + 8;
    }
    if |b| % 8 != 0 {
      var data := ReadTail(b[end..]);
      hash := Xor(hash, data);
      hash := Times(hash);
    }
    hash := Times(Fold(hash));
    hash := Fold(hash);
  }

  // ----- Each operation keeps distinct words distinct

  lemma TimesInjective(x: nat, y: nat)
    requires x < WORD && y < WORD && Times(x) == Times(y)
    ensures x == y
  {
    var q := x * MUL / WORD - y * MUL / WORD;
    assert (x - y) * MUL == q * WORD;
    var k := MUL * UNMUL / WORD;
    assert MUL * UNMUL == k * WORD + 1;
    assert (x - y) * (k * WORD + 1) == q * UNMUL * WORD;
    assert x - y == (q * UNMUL - (x - y) * k) * WORD;
  }

  lemma {:induction false} XorZero(x: nat)
    ensures Xor(x, 0) == x
    decreases x
  {
    if x > 0 {
      XorZero(x / 2);
    }
  }

  lemma XorOnce(a: nat, b: nat)
    ensures Xor(a, b) == 2 * Xor(a / 2, b / 2) + (a + b) % 2
  {
  }

  lemma {:induction false} XorCancels(a: nat, b: nat, c: nat)
    ensures Xor(a, b) == Xor(a, c) ==> b == c
    ensures Xor(b, a) == Xor(c, a) ==> b == c
    decreases a + b + c
  {
    hide Xor;
    if a + b + c > 0 {
      XorCancels(a / 2, b / 2, c / 2);
      XorOnce(a, b);
      XorOnce(a, c);
      XorOnce(b, a);
      XorOnce(c, a);
    }
  }

  function Pow2(k: nat): nat {
    if k == 0 then 1 else 2 * Pow2(k - 1)
  }

  lemma {:induction false} XorBelow(a: nat, b: nat, k: nat)
    requires a < Pow2(k) && b < Pow2(k)
    ensures Xor(a, b) < Pow2(k)
    decreases k
  {
    if k > 0 {
      XorBelow(a / 2, b / 2, k - 1);
    }
  }

  /** The low k bits of `h` are zero. */
  predicate High(h: nat, k: nat) {
    k == 0 || (h % 2 == 0 && High(h / 2, k - 1))
  }

  lemma {:induction false} MultipleIsHigh(q: nat, k: nat)
    ensures High(q * Pow2(k), k)
    decreases k
  {
    if k > 0 {
      var t := q * Pow2(k - 1);
      assert q * Pow2(k) == 2 * t;
      MultipleIsHigh(q, k - 1);
    }
  }

  /** A number below 2 to the k only changes the low k bits. */
  lemma {:induction false} XorLow(h: nat, r: nat, a: nat, k: nat)
    requires High(h, k) && r < Pow2(k) && a < Pow2(k)
    ensures Xor(h + r, a) == h + Xor(r, a)
    decreases k
  {
    hide Xor;
    if k == 0 {
      XorZero(h);
      XorZero(0);
    } else {
      assert h % 2 == 0 && Pow2(k) == 2 * Pow2(k - 1);
      XorLow(h / 2, r / 2, a / 2, k - 1);
      hide High, Pow2;
      XorOnce(h + r, a);
      XorOnce(r, a);
      assert (h + r) / 2 == h / 2 + r / 2;
      assert (h + r + a) % 2 == (r + a) % 2;
    }
  }

  lemma Powers()
    ensures Pow2(17) == 131072 && Pow2(64) == WORD
  {
    assert Pow2(8) == 256;
    assert Pow2(16) == 65536;
    assert Pow2(24) == 0x100_0000;
    assert Pow2(32) == 0x1_0000_0000;
    assert Pow2(40) == 0x100_0000_0000;
    assert Pow2(48) == 0x1_0000_0000_0000;
    assert Pow2(56) == 0x100_0000_0000_0000;
  }

  lemma XorWord(a: nat, b: nat)
    requires a < WORD && b < WORD
    ensures Xor(a, b) < WORD
  {
    Powers();
    XorBelow(a, b, 64);
  }

  /** Folding only touches the low 17 bits, so the rest, and with it the mask, can be read off. */
  lemma FoldParts(x: nat)
    requires x < WORD
    ensures var low, mask := x % 131072, x / 0x8000_0000_0000;
      mask < 131072 && Xor(low, mask) < 131072 && Fold(x) == x - low + Xor(low, mask) < WORD
  {
    hide Xor, Pow2, High;
    var q, low, mask := x / 131072, x % 131072, x / 0x8000_0000_0000;
    Powers();
    MultipleIsHigh(q, 17);
    assert q * Pow2(17) == x - low;
    XorLow(x - low, low, mask, 17);
    XorBelow(low, mask, 17);
  }

  lemma FoldInjective(x: nat, y: nat)
    requires x < WORD && y < WORD && Fold(x) == Fold(y)
    ensures x == y
  {
    hide Xor, Fold;
    FoldParts(x);
    FoldParts(y);
    assert x / 131072 == y / 131072;
    assert x / 0x8000_0000_0000 == x / 131072 / 0x4000_0000;
    assert y / 0x8000_0000_0000 == y / 131072 / 0x4000_0000;
    XorCancels(x / 0x8000_0000_0000, x % 131072, y % 131072);
  }

  // ----- The whole hash

  function Pow256(n: nat): nat {
    if n == 0 then 1 else 256 * Pow256(n - 1)
  }

  lemma {:induction false} LittleEndianBelow(b: Bytes)
    ensures LittleEndian(b) < Pow256(|b|)
    decreases |b|
  {
    if b != [] {
      LittleEndianBelow(b[1..]);
    }
  }

  lemma PowersOf256()
    ensures forall n :: 0 <= n <= 8 ==> Pow256(n) <= WORD
    ensures Pow256(8) == WORD
  {
    assert Pow256(1) == 256 && Pow256(2) == 65536 && Pow256(3) == 0x100_0000 && Pow256(4) == 0x1_0000_0000;
    assert Pow256(5) == 0x100_0000_0000 && Pow256(6) == 0x1_0000_0000_0000 && Pow256(7) == 0x100_0000_0000_0000;
  }

  lemma BlockIsWord(b: Bytes)
    requires |b| <= 8
    ensures LittleEndian(b) < WORD
  {
    LittleEndianBelow(b);
    PowersOf256();
  }

  lemma {:induction false} LittleEndianInjective(a: Bytes, b: Bytes)
    requires |a| == |b| && LittleEndian(a) == LittleEndian(b)
    ensures a == b
    decreases |a|
  {
    if a != [] {
      LittleEndianInjective(a[1..], b[1..]);
      assert a == [a[0]] + a[1..] && b == [b[0]] + b[1..];
    }
  }

  lemma MixInjective(x: nat, y: nat)
    requires x < WORD && y < WORD && MixBlock(x) == MixBlock(y)
    ensures x == y
  {
    hide Times, Fold;
    FoldParts(Times(x));
    FoldParts(Times(y));
    TimesInjective(Fold(Times(x)), Fold(Times(y)));
    FoldInjective(Times(x), Times(y));
    TimesInjective(x, y);
  }

  lemma AbsorbInjective(h: nat, h': nat, d: nat, d': nat)
    requires h < WORD && h' < WORD && d < WORD && d' < WORD && Absorb(h, d) == Absorb(h', d')
    ensures h == h' <==> d == d'
  {
    hide Times, Xor;
    XorWord(h, d);
    XorWord(h', d');
    TimesInjective(Xor(h, d), Xor(h', d'));
    XorCancels(h, d, d');
    XorCancels(d, h, h');
  }

  lemma FinishInjective(h: nat, h': nat)
    requires h < WORD && h' < WORD && Finish(h) == Finish(h')
    ensures h == h'
  {
    hide Times, Fold;
    FoldParts(h);
    FoldParts(h');
    FoldInjective(Times(Fold(h)), Times(Fold(h')));
    TimesInjective(Fold(h), Fold(h'));
    FoldInjective(h, h');
  }

  lemma {:induction false} BlocksKeepWords(h: nat, b: Bytes)
    requires h < WORD
    ensures Blocks(h, b) < WORD
    decreases |b|
  {
    if |b| >= 8 {
      BlocksKeepWords(Absorb(h, MixBlock(LittleEndian(b[..8]))), b[8..]);
    }
  }

  /** The same bytes keep different states different. */
  lemma {:induction false} BlocksInjective(h: nat, h': nat, b: Bytes)
    requires h < WORD && h' < WORD && Blocks(h, b) == Blocks(h', b)
    ensures h == h'
    decreases |b|
  {
    if |b| >= 8 {
      var d := MixBlock(LittleEndian(b[..8]));
      BlocksInjective(Absorb(h, d), Absorb(h', d), b[8..]);
      AbsorbInjective(h, h', d, d);
    }
  }

  /** The strings agree outside the block, or the tail, that starts at 8 * i. */
  ghost predicate DifferOnlyIn(a: Bytes, b: Bytes, i: nat) {
    |a| == |b| && a != b && forall k :: 0 <= k < |a| && !(8 * i <= k < 8 * i + 8) ==> a[k] == b[k]
  }

  lemma AgreeBefore(a: Bytes, b: Bytes, i: nat)
    requires DifferOnlyIn(a, b, i) && |a| >= 8
    ensures i == 0 ==> a[..8] != b[..8] && a[8..] == b[8..]
    ensures i > 0 ==> a[..8] == b[..8] && DifferOnlyIn(a[8..], b[8..], i - 1)
  {
    assert a == a[..8] + a[8..] && b == b[..8] + b[8..];
  }

  lemma SameLength(a: Bytes, b: Bytes, i: nat)
    requires DifferOnlyIn(a, b, i)
    ensures |a| == |b|
  {
  }

  lemma WordsOut(h: nat, x: nat)
    ensures MixBlock(x) < WORD && Absorb(h, MixBlock(x)) < WORD
  {
  }

  /** A change inside one whole block changes the state. */
  lemma {:induction false} BlockChangeShows(h: nat, a: Bytes, b: Bytes, i: nat)
    requires h < WORD && DifferOnlyIn(a, b, i) && 8 * i + 8 <= |a|
    ensures Blocks(h, a) != Blocks(h, b)
    decreases i
  {
    hide LittleEndian, MixBlock, Absorb, DifferOnlyIn;
    AgreeBefore(a, b, i);
    SameLength(a, b, i);
    var x, y := LittleEndian(a[..8]), LittleEndian(b[..8]);
    if i == 0 {
      BlockIsWord(a[..8]);
      BlockIsWord(b[..8]);
      if Blocks(h, a) == Blocks(h, b) {
        WordsOut(h, x);
        WordsOut(h, y);
        BlocksInjective(Absorb(h, MixBlock(x)), Absorb(h, MixBlock(y)), a[8..]);
        AbsorbInjective(h, h, MixBlock(x), MixBlock(y));
        MixInjective(x, y);
        LittleEndianInjective(a[..8], b[..8]);
      }
    } else {
      WordsOut(h, x);
      BlockChangeShows(Absorb(h, MixBlock(x)), a[8..], b[8..], i - 1);
    }
  }

  /** A change confined to the tail leaves the blocks alone. */
  lemma {:induction false} TailChangeHides(h: nat, a: Bytes, b: Bytes)
    requires |a| == |b| && a[..Aligned(a)] == b[..Aligned(b)]
    ensures Blocks(h, a) == Blocks(h, b)
    decreases |a|
  {
    if |a| >= 8 {
      assert a[..8] == a[..Aligned(a)][..8] == b[..8];
      assert a[8..][..Aligned(a[8..])] == a[..Aligned(a)][8..];
      assert b[8..][..Aligned(b[8..])] == b[..Aligned(b)][8..];
      TailChangeHides(Absorb(h, MixBlock(LittleEndian(a[..8]))), a[8..], b[8..]);
    }
  }

  lemma TailChangeShows(h: nat, x: Bytes, y: Bytes)
    requires h < WORD && |x| == |y| < 8 && x != y
    ensures WithTail(h, x) != WithTail(h, y)
  {
    hide LittleEndian, Absorb;
    BlockIsWord(x);
    BlockIsWord(y);
    if WithTail(h, x) == WithTail(h, y) {
      AbsorbInjective(h, h, LittleEndian(x), LittleEndian(y));
      LittleEndianInjective(x, y);
    }
  }

  lemma TailKeeps(h: nat, h': nat, tail: Bytes)
    requires h < WORD && h' < WORD && h != h' && |tail| < 8
    ensures WithTail(h, tail) != WithTail(h', tail) && WithTail(h, tail) < WORD && WithTail(h', tail) < WORD
  {
    BlockIsWord(tail);
    if tail != [] && WithTail(h, tail) == WithTail(h', tail) {
      AbsorbInjective(h, h', LittleEndian(tail), LittleEndian(tail));
    }
  }

  lemma TailWords(h: nat, tail: Bytes)
    requires h < WORD
    ensures WithTail(h, tail) < WORD
  {
  }

  /** Two strings of the same length that differ only inside one 8-byte block, or only in the tail,
      have different hashes under every seed. */
  lemma HashSeparates(a: Bytes, b: Bytes, seed: nat, i: nat)
    requires seed < WORD && DifferOnlyIn(a, b, i)
    ensures Hash(a, seed) != Hash(b, seed)
  {
    hide Times, Xor, Blocks, WithTail, Finish;
    var end := Aligned(a);
    var h := Xor(seed, Times(|a|));
    XorWord(seed, Times(|a|));
    BlocksKeepWords(h, a);
    BlocksKeepWords(h, b);
    if 8 * i + 8 <= |a| {
      BlockChangeShows(h, a, b, i);
      assert a[end..] == b[end..];
      TailKeeps(Blocks(h, a), Blocks(h, b), a[end..]);
      if Hash(a, seed) == Hash(b, seed) {
        FinishInjective(WithTail(Blocks(h, a), a[end..]), WithTail(Blocks(h, b), b[end..]));
      }
    } else {
      assert a == a[..end] + a[end..] && b == b[..end] + b[end..];
      TailChangeHides(h, a, b);
      TailChangeShows(Blocks(h, a), a[end..], b[end..]);
      TailWords(Blocks(h, a), a[end..]);
      TailWords(Blocks(h, a), b[end..]);
      if Hash(a, seed) == Hash(b, seed) {
        FinishInjective(WithTail(Blocks(h, a), a[end..]), WithTail(Blocks(h, b), b[end..]));
      }
    }
  }
}
