/** Words of two and four bytes and their conversion between network and host order. */
module Words {
  import opened Bits
  import opened Memory

  function Be32(a: Byte, b: Byte, c: Byte, d: Byte): nat {
    Shl(Shl(Shl(a, 8) + b, 8) + c, 8) + d
  }

  /** A load on a little-endian host. */
  function Le32(a: Byte, b: Byte, c: Byte, d: Byte): nat { Be32(d, c, b, a) }

  function ByteOf(x: nat, i: nat): (r: Byte) {
    ByteRange(Low(Shr(x, 8 * i), 8));
    Low(Shr(x, 8 * i), 8)
  }

  lemma {:induction false} ByteRange(x: nat)
    ensures x < 256 <==> x < Pow2(8)
  {
    Pow2OfBytes(1);
    assert Pow256(1) == 256;
  }

  /** Conversion of a 32-bit word between network and host order, in both directions. */
  function Swap32(x: nat): nat {
    Be32(ByteOf(x, 0), ByteOf(x, 1), ByteOf(x, 2), ByteOf(x, 3))
  }

  lemma {:induction false} BitOfByteOf(x: nat, i: nat, k: nat)
    requires k < 8
    ensures Bit(ByteOf(x, i), k) == Bit(x, 8 * i + k)
  {
    BitOfLow(Shr(x, 8 * i), 8, k);
    BitOfShr(x, 8 * i, k);
  }

  lemma {:induction false} BitOfBe32(s: seq<Byte>, k: nat)
    requires |s| == 4
    ensures Bit(Be32(s[0], s[1], s[2], s[3]), k) == (k < 32 && Bit(s[3 - k / 8], k % 8))
  {
    hide Shl, Bit, Pow2;
    ByteRange(s[0]);
    ByteRange(s[1]);
    ByteRange(s[2]);
    ByteRange(s[3]);
    var ab := Shl(s[0], 8) + s[1];
    var abc := Shl(ab, 8) + s[2];
    BitOfJoin(abc, 8, s[3], k);
    if k >= 8 {
      BitOfJoin(ab, 8, s[2], k - 8);
      if k >= 16 {
        BitOfJoin(s[0], 8, s[1], k - 16);
        if k >= 32 { BitAbove(s[0], 8, k - 24); }
      }
    }
  }

  lemma {:induction false} BitOfSwap32(x: nat, k: nat)
    ensures Bit(Swap32(x), k) == (k < 32 && Bit(x, 8 * (3 - k / 8) + k % 8))
  {
    hide Be32, ByteOf, Bit;
    BitOfBe32([ByteOf(x, 0), ByteOf(x, 1), ByteOf(x, 2), ByteOf(x, 3)], k);
    if k < 32 { BitOfByteOf(x, 3 - k / 8, k % 8); }
  }

  function Swap16(x: nat): nat {
    Shl(ByteOf(x, 0), 8) + ByteOf(x, 1)
  }

  /** The conversion of a word of `n` bytes. */
  function Swapped(x: nat, n: nat): nat {
    if n == 4 then Swap32(x) else if n == 2 then Swap16(x) else x
  }

  /** The `n` bytes read the same in both directions. */
  predicate Mirrored(x: nat, n: nat) {
    forall i: nat | i < n :: ByteOf(x, i) == ByteOf(x, n - 1 - i)
  }

  /** The result of copying the `n` low bytes of `v` over those of `was`. */
  function Overlaid(was: nat, v: nat, n: nat): nat {
    Shl(Shr(was, 8 * n), 8 * n) + Low(v, 8 * n)
  }

  lemma {:induction false} ByteOfIsDiv(x: nat)
    ensures ByteOf(x, 0) == x % 256 && ByteOf(x, 1) == x / 256 % 256
    ensures ByteOf(x, 2) == x / 0x1_0000 % 256 && ByteOf(x, 3) == x / 0x100_0000 % 256
  {
    hide Pow2, Low, Shr;
    forall i: nat | i < 4 ensures Pow256(i) > 0 && ByteOf(x, i) == x / Pow256(i) % 256 {
      Pow2OfBytes(i);
      ShrIsDiv(x, 8 * i);
      LowIsMod(Shr(x, 8 * i), 8);
      Pow2OfBytes(1);
    }
    assert Pow256(0) == 1 && Pow256(1) == 256 && Pow256(2) == 0x1_0000 && Pow256(3) == 0x100_0000;
  }

  lemma {:induction false} SwapIsArithmetic(x: nat)
    ensures Swap16(x) == 256 * ByteOf(x, 0) + ByteOf(x, 1)
    ensures Swap32(x) == 0x100_0000 * ByteOf(x, 0) + 0x1_0000 * ByteOf(x, 1) + 256 * ByteOf(x, 2) + ByteOf(x, 3)
  {
    hide Pow2, Shl, ByteOf;
    var ab := Shl(ByteOf(x, 0), 8) + ByteOf(x, 1);
    Pow2OfBytes(1);
    assert Pow256(1) == 256;
    ShlIsMul(ByteOf(x, 0), 8);
    ShlIsMul(ab, 8);
    ShlIsMul(Shl(ab, 8) + ByteOf(x, 2), 8);
  }

  lemma {:induction false} LowBytes(x: nat)
    ensures Low(x, 8) == x % 256 && Low(x, 16) == x % 0x1_0000
  {
    hide Pow2, Low;
    LowIsMod(x, 8);
    LowIsMod(x, 16);
    Pow2OfBytes(1);
    Pow2OfBytes(2);
    assert Pow256(2) == 0x1_0000 && Pow256(1) == 256;
  }

  lemma {:induction false} RestOfHigh(q: nat, r: nat)
    ensures r < 256 ==> (256 * q + r) % 256 == r
    ensures r < 0x1_0000 ==> (0x1_0000 * q + r) % 0x1_0000 == r
  {
  }

  lemma {:induction false} LowTwoBytes(x: nat)
    ensures x % 0x1_0000 == x % 256 + 256 * (x / 256 % 256)
  {
    Divisions(x);
    Divisions(x / 256);
    RestOfHigh(x / 256 / 256, x % 256 + 256 * (x / 256 % 256));
  }

  /** The low half of a word and of the converted word. */
  lemma {:induction false} LowHalf(x: nat)
    ensures Low(x, 8) == ByteOf(x, 0) && Low(x, 16) == ByteOf(x, 0) + 256 * ByteOf(x, 1)
    ensures Low(Swap16(x), 8) == ByteOf(x, 1)
    ensures Low(Swap32(x), 16) == ByteOf(x, 3) + 256 * ByteOf(x, 2)
  {
    hide Pow2, Low, ByteOf, Swap16, Swap32;
    ByteOfIsDiv(x);
    LowBytes(x);
    LowTwoBytes(x);
    SwapIsArithmetic(x);
    LowBytes(Swap16(x));
    LowBytes(Swap32(x));
    RestOfHigh(ByteOf(x, 0), ByteOf(x, 1));
    RestOfHigh(256 * ByteOf(x, 0) + ByteOf(x, 1), 256 * ByteOf(x, 2) + ByteOf(x, 3));
  }

  /** Dividing twice by 256 and three times. */
  lemma {:induction false} Divisions(x: nat)
    ensures x == 256 * (x / 256) + x % 256
    ensures x / 0x1_0000 == x / 256 / 256 && x / 0x100_0000 == x / 256 / 256 / 256
    ensures x < 0x1_0000_0000 ==> x / 256 / 256 / 256 < 256
    ensures x < 0x1_0000 ==> x / 256 < 256
  {
  }

  lemma {:induction false} WordOfBytes(x: nat)
    ensures x < 0x1_0000 ==> x == ByteOf(x, 0) + 256 * ByteOf(x, 1)
    ensures x < 0x1_0000_0000 ==>
              x == ByteOf(x, 0) + 256 * ByteOf(x, 1) + 0x1_0000 * ByteOf(x, 2) + 0x100_0000 * ByteOf(x, 3)
  {
    hide Pow2, Low, ByteOf;
    ByteOfIsDiv(x);
    Divisions(x);
    Divisions(x / 256);
    Divisions(x / 256 / 256);
  }

  /** A word is changed by the conversion unless its bytes read the same in both directions; one half of the
      result is enough to tell. */
  lemma {:induction false} SwappedExactly(x: nat, n: nat)
    requires n == 2 || n == 4
    requires x < Pow2(8 * n)
    ensures Mirrored(x, n) <==> Low(Swapped(x, n), 4 * n) == Low(x, 4 * n)
    ensures Mirrored(x, n) ==> Swapped(x, n) == x
  {
    hide Pow2, Low, ByteOf, Swap16, Swap32;
    SwapIsArithmetic(x);
    LowHalf(x);
    WordOfBytes(x);
    Pow2OfBytes(n);
    assert Pow256(2) == 0x1_0000 && Pow256(4) == 0x1_0000_0000;
    if n == 2 {
      assert Mirrored(x, n) <==> ByteOf(x, 0) == ByteOf(x, 1);
    } else {
      assert Mirrored(x, n) <==> ByteOf(x, 0) == ByteOf(x, 3) && ByteOf(x, 1) == ByteOf(x, 2);
    }
  }

  /** The copied bytes are those of `v`; the word is `v` if the bytes above were zero. */
  lemma {:induction false} OverlaidBytes(was: nat, v: nat, n: nat, k: nat)
    requires v < Pow2(8 * n) && n <= k && was < Pow2(8 * k)
    ensures Low(Overlaid(was, v, n), 8 * n) == v && Overlaid(was, v, n) < Pow2(8 * k)
    ensures Overlaid(was, v, n) == v <==> Shr(was, 8 * n) == 0
  {
    hide Pow2, Low, Shl, Shr;
    var hi := Shr(was, 8 * n);
    LowSmall(v, 8 * n);
    ShrBound(was, 8 * n, 8 * (k - n));
    JoinBound(hi, 8 * (k - n), v, 8 * n);
    LowOfJoin(hi, 8 * n, v);
    ShlIsMul(hi, 8 * n);
    if hi > 0 { MulAtLeast(hi, Pow2(8 * n)); }
  }

  lemma {:induction false} ShrBound(x: nat, n: nat, m: nat)
    requires x < Pow2(m + n)
    ensures Shr(x, n) < Pow2(m)
  {
    if n > 0 { ShrBound(x / 2, n - 1, m); }
  }

  lemma {:induction false} LowOfJoin(hi: nat, n: nat, lo: nat)
    requires lo < Pow2(n)
    ensures Low(Shl(hi, n) + lo, n) == lo
  {
    if n > 0 {
      assert (Shl(hi, n) + lo) / 2 == Shl(hi, n - 1) + lo / 2;
      LowOfJoin(hi, n - 1, lo / 2);
    }
  }
}
