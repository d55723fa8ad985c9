/** The weak etag of a file, from its size and modification time (`etag_from_size_mtime`). */
module Etag {
  import opened LogLines
  import opened Murmur

  const SEED: nat := 3339675888

  /** A number's `n` low bytes, lowest first. */
  function Packed(w: nat, n: nat): (b: Bytes)
    ensures |b| == n
  {
    if n == 0 then [] else [w % 256] + Packed(w / 256, n - 1)
  }

  /** A signed 64-bit time as an unsigned word. */
  function Unsigned(t: int): nat
    requires -0x8000_0000_0000_0000 <= t < 0x8000_0000_0000_0000
  {
    if t >= 0 then t else t + WORD
  }

  /** Lower-case hexadecimal digit. */
  function Digit(n: nat): Byte
    requires n < 16
  {
    if n < 10 then 48 + n else 87 + n
  }

  /** `n` hexadecimal digits, padded with zeros. */
  function Hex(w: nat, n: nat): (s: Bytes)
    ensures |s| == n
  {
    if n == 0 then [] else Hex(w / 16, n - 1) + [Digit(w % 16)]
  }

  predicate Fits(size: nat, mtime: int) {
    size < WORD && -0x8000_0000_0000_0000 <= mtime < 0x8000_0000_0000_0000
  }

  function Buffer(size: nat, mtime: int): Bytes
    requires Fits(size, mtime)
  {
    Packed(size, 8) + Packed(Unsigned(mtime), 8)
  }

  function EtagOf(size: nat, mtime: int): Bytes
    requires Fits(size, mtime)
  {
    Hex(Hash(Buffer(size, mtime), SEED), 16)
  }

  method EtagFromSizeMtime(size: nat, mtime: int) returns (etag: Bytes)
    requires Fits(size, mtime)
    ensures etag == EtagOf(size, mtime)
  {
    var buf := Buffer(size, mtime);
    var hash := MurMurHash64(buf, SEED);
    etag := Hex(hash, 16);
  }

  lemma {:induction false} PackedUnpacks(w: nat, n: nat)
    requires w < Pow256(n)
    ensures LittleEndian(Packed(w, n)) == w
    decreases n
  {
    if n > 0 {
      PackedUnpacks(w / 256, n - 1);
      assert Packed(w, n)[1..] == Packed(w / 256, n - 1);
    }
  }

  function Pow16(n: nat): nat {
    if n == 0 then 1 else 16 * Pow16(n - 1)
  }

  const HEX_DIGITS: string := "0123456789abcdef"

  /** The number that hexadecimal digits stand for. */
  function HexNumber(s: Bytes): nat {
    if s == [] then 0
    else
      var c := s[|s| - 1];
      var digit :=
        if '0' as int <= c <= '9' as int then c - '0' as int else if c >= 'a' as int then c - 'a' as int + 10 else 0;
      16 * HexNumber(s[..|s| - 1]) + digit
  }

  lemma LowDigit(d: nat)
    requires d < 16
    ensures Digit(d) as char == HEX_DIGITS[d]
  {
  }

  /** The digits are lower-case and read as the number. */
  lemma {:induction false} HexReads(w: nat, n: nat)
    requires w < Pow16(n)
    ensures HexNumber(Hex(w, n)) == w
    ensures forall i :: 0 <= i < n ==> Hex(w, n)[i] as char in HEX_DIGITS
    decreases n
  {
    if n > 0 {
      HexReads(w / 16, n - 1);
      LowDigit(w % 16);
      assert Hex(w, n)[..n - 1] == Hex(w / 16, n - 1);
    }
  }

  lemma {:induction false} HexInjective(x: nat, y: nat, n: nat)
    requires x < Pow16(n) && y < Pow16(n) && Hex(x, n) == Hex(y, n)
    ensures x == y
    decreases n
  {
    if n > 0 {
      assert Hex(x, n)[n - 1] == Digit(x % 16) && Hex(y, n)[n - 1] == Digit(y % 16);
      assert Hex(x, n)[..n - 1] == Hex(x / 16, n - 1) && Hex(y, n)[..n - 1] == Hex(y / 16, n - 1);
      HexInjective(x / 16, y / 16, n - 1);
    }
  }

  lemma SixteenDigits()
    ensures Pow16(16) == WORD
  {
    assert Pow16(4) == 65536;
    assert Pow16(8) == 0x1_0000_0000;
    assert Pow16(12) == 0x1_0000_0000_0000;
  }

  lemma HashIsWord(b: Bytes, seed: nat)
    requires seed < WORD
    ensures Hash(b, seed) < WORD
  {
    hide Times, Xor, Blocks, WithTail, Fold;
    var h := Xor(seed, Times(|b|));
    XorWord(seed, Times(|b|));
    BlocksKeepWords(h, b);
    TailWords(Blocks(h, b), b[Aligned(b)..]);
    var f := WithTail(Blocks(h, b), b[Aligned(b)..]);
    FoldParts(f);
    FoldParts(Times(Fold(f)));
  }

  /** The size comes first, then the time in two's complement, each lowest byte first. */
  lemma BufferHolds(size: nat, mtime: int)
    requires Fits(size, mtime)
    ensures var b := Buffer(size, mtime);
      && |b| == 16 && LittleEndian(b[..8]) == size
      && LittleEndian(b[8..]) == (if mtime < 0 then 0x1_0000_0000_0000_0000 + mtime else mtime)
  {
    PowersOf256();
    PackedUnpacks(size, 8);
    PackedUnpacks(Unsigned(mtime), 8);
    var b := Buffer(size, mtime);
    assert b[..8] == Packed(size, 8) && b[8..] == Packed(Unsigned(mtime), 8);
  }

  /** Exactly one of the two packed numbers changes: the buffers differ in one block only. */
  lemma OneBlockDiffers(size: nat, mtime: int, size': nat, mtime': int)
    requires Fits(size, mtime) && Fits(size', mtime') && (size == size' <==> mtime != mtime')
    ensures DifferOnlyIn(Buffer(size, mtime), Buffer(size', mtime'), if size == size' then 1 else 0)
  {
    PowersOf256();
    PackedUnpacks(size, 8);
    PackedUnpacks(size', 8);
    PackedUnpacks(Unsigned(mtime), 8);
    PackedUnpacks(Unsigned(mtime'), 8);
    var a, b := Buffer(size, mtime), Buffer(size', mtime');
    assert a[..8] == Packed(size, 8) && b[..8] == Packed(size', 8);
    assert a[8..] == Packed(Unsigned(mtime), 8) && b[8..] == Packed(Unsigned(mtime'), 8);
  }

  /** An etag is sixteen lower-case hexadecimal digits that read as the hash. */
  lemma EtagSpellsHash(size: nat, mtime: int)
    requires Fits(size, mtime)
    ensures var s := EtagOf(size, mtime);
      && |s| == 16 && HexNumber(s) == Hash(Buffer(size, mtime), SEED)
      && forall i :: 0 <= i < 16 ==> s[i] as char in HEX_DIGITS
  {
    hide Hash, Hex, HexNumber, Buffer;
    HashIsWord(Buffer(size, mtime), SEED);
    SixteenDigits();
    HexReads(Hash(Buffer(size, mtime), SEED), 16);
  }

  /** An etag always changes when exactly one of size and modification time does. */
  lemma EtagChanges(size: nat, mtime: int, size': nat, mtime': int)
    requires Fits(size, mtime) && Fits(size', mtime') && (size == size' <==> mtime != mtime')
    ensures EtagOf(size, mtime) != EtagOf(size', mtime')
  {
    hide Hash, Hex, Buffer, DifferOnlyIn;
    var a, b := Buffer(size, mtime), Buffer(size', mtime');
    OneBlockDiffers(size, mtime, size', mtime');
    HashSeparates(a, b, SEED, if size == size' then 1 else 0);
    HashIsWord(a, SEED);
    HashIsWord(b, SEED);
    SixteenDigits();
    if Hex(Hash(a, SEED), 16) == Hex(Hash(b, SEED), 16) {
      HexInjective(Hash(a, SEED), Hash(b, SEED), 16);
    }
  }
}
