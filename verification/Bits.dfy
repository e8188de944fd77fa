/** Bit-level arithmetic, shared by the expression compiler and the field accessors.

    Integers are looked at through `Bit(x, k)`, in two's complement when negative. Shifts, masks and the
    bitwise operators are defined by halving and products by adding, so that proofs about them stay linear; `LowIsMod`,
    `ShlIsMul`, `ShrIsDiv` and `ProductIsMul` tie them to the usual arithmetic. */
module Bits {

  function Pow2(n: nat): (r: nat)
    ensures r >= 1
  {
    if n == 0 then 1 else 2 * Pow2(n - 1)
  }

  /** Bit number `k` of `x`, the least significant one being number 0. */
  predicate Bit(x: int, k: nat)
    decreases k, x
  {
    if k == 0 then x % 2 == 1 else Bit(x / 2, k - 1)
  }

  /** The low `w` bits of `x`, that is `x` modulo 2^w. */
  function Low(x: int, w: nat): (r: nat)
    ensures r < Pow2(w)
    decreases w, x
  {
    if w == 0 then 0 else 2 * Low(x / 2, w - 1) + x % 2
  }

  function Shl(x: nat, n: nat): (r: nat)
    ensures r >= x
    decreases n, x
  {
    if n == 0 then x else 2 * Shl(x, n - 1)
  }

  function Shr(x: nat, n: nat): (r: nat)
    ensures r <= x
    decreases n, x
  {
    if n == 0 then x else Shr(x / 2, n - 1)
  }

  /** Multiplication. */
  function Product(a: int, b: int): int
    decreases if b < 0 then -b else b
  {
    if b == 0 then 0 else if b > 0 then Product(a, b - 1) + a else Product(a, b + 1) - a
  }

  datatype BitOp = And | Or | Xor {
    predicate On(a: bool, b: bool) {
      match this
      case And => a && b
      case Or => a || b
      case Xor => a != b
    }
  }

  function Combine(op: BitOp, a: nat, b: nat): nat
    decreases a + b
  {
    if a == 0 && b == 0 then 0
    else 2 * Combine(op, a / 2, b / 2) + (if op.On(a % 2 == 1, b % 2 == 1) then 1 else 0)
  }

  // ---------------------------------------------------------------- bits of every operation

  lemma {:induction false} BitOfZero(k: nat)
    ensures !Bit(0, k)
  {
    if k > 0 { BitOfZero(k - 1); }
  }

  lemma {:induction false} BitOfCombine(op: BitOp, a: nat, b: nat, k: nat)
    ensures Bit(Combine(op, a, b), k) == op.On(Bit(a, k), Bit(b, k))
    decreases k
  {
    if a == 0 && b == 0 {
      BitOfZero(k);
    } else if k > 0 {
      BitOfCombine(op, a / 2, b / 2, k - 1);
    }
  }

  lemma {:induction false} BitOfShl(x: nat, n: nat, k: nat)
    ensures Bit(Shl(x, n), k) == (k >= n && Bit(x, k - n))
  {
    if n > 0 && k > 0 { BitOfShl(x, n - 1, k - 1); }
  }

  lemma {:induction false} BitOfShr(x: nat, n: nat, k: nat)
    ensures Bit(Shr(x, n), k) == Bit(x, k + n)
  {
    if n > 0 { BitOfShr(x / 2, n - 1, k); }
  }

  lemma {:induction false} BitOfLow(x: int, w: nat, k: nat)
    ensures Bit(Low(x, w), k) == (k < w && Bit(x, k))
    decreases k
  {
    if w == 0 {
      BitOfZero(k);
    } else if k > 0 {
      BitOfLow(x / 2, w - 1, k - 1);
    }
  }

  lemma {:induction false} BitOfOnes(n: nat, k: nat)
    ensures Bit(Pow2(n) - 1, k) == (k < n)
  {
    if n == 0 {
      BitOfZero(k);
    } else if k > 0 {
      assert (Pow2(n) - 1) / 2 == Pow2(n - 1) - 1;
      BitOfOnes(n - 1, k - 1);
    }
  }

  lemma {:induction false} BitOfJoin(hi: nat, n: nat, lo: nat, k: nat)
    requires lo < Pow2(n)
    ensures Bit(Shl(hi, n) + lo, k) == if k < n then Bit(lo, k) else Bit(hi, k - n)
  {
    if n > 0 && k > 0 {
      assert (Shl(hi, n) + lo) / 2 == Shl(hi, n - 1) + lo / 2;
      BitOfJoin(hi, n - 1, lo / 2, k - 1);
    }
  }

  /** A number below 2^w has no bit at or above position w. */
  lemma {:induction false} BitAbove(x: nat, w: nat, k: nat)
    requires x < Pow2(w) && k >= w
    ensures !Bit(x, k)
  {
    if w == 0 {
      BitOfZero(k);
    } else {
      BitAbove(x / 2, w - 1, k - 1);
    }
  }

  /** Natural numbers with the same bits are equal. */
  lemma {:induction false} SameBits(a: nat, b: nat)
    requires forall k: nat :: Bit(a, k) == Bit(b, k)
    ensures a == b
    decreases a + b
  {
    assert Bit(a, 0) == Bit(b, 0);
    if a != 0 || b != 0 {
      forall k: nat ensures Bit(a / 2, k) == Bit(b / 2, k) {
        assert Bit(a, k + 1) == Bit(b, k + 1);
      }
      SameBits(a / 2, b / 2);
    }
  }

  // ---------------------------------------------------------------- derived equations

  /** And-ing with w ones keeps the low w bits. */
  lemma {:induction false} AndOnes(w: nat, x: nat)
    ensures Combine(And, Pow2(w) - 1, x) == Low(x, w)
  {
    forall k: nat ensures Bit(Combine(And, Pow2(w) - 1, x), k) == Bit(Low(x, w), k) {
      BitOfCombine(And, Pow2(w) - 1, x, k);
      BitOfOnes(w, k);
      BitOfLow(x, w, k);
    }
    SameBits(Combine(And, Pow2(w) - 1, x), Low(x, w));
  }

  /** Or-ing a number into the zero bits left by a shift adds it. */
  lemma {:induction false} OrIsJoin(hi: nat, n: nat, lo: nat)
    requires lo < Pow2(n)
    ensures Combine(Or, Shl(hi, n), lo) == Shl(hi, n) + lo
  {
    forall k: nat ensures Bit(Combine(Or, Shl(hi, n), lo), k) == Bit(Shl(hi, n) + lo, k) {
      BitOfCombine(Or, Shl(hi, n), lo, k);
      BitOfShl(hi, n, k);
      BitOfJoin(hi, n, lo, k);
      if k >= n { BitAbove(lo, n, k); }
    }
    SameBits(Combine(Or, Shl(hi, n), lo), Shl(hi, n) + lo);
  }

  lemma {:induction false} CombineBound(op: BitOp, a: nat, b: nat, w: nat)
    requires a < Pow2(w) && b < Pow2(w)
    ensures Combine(op, a, b) < Pow2(w)
    decreases w
  {
    if w > 0 && !(a == 0 && b == 0) {
      CombineBound(op, a / 2, b / 2, w - 1);
    }
  }

  lemma {:induction false} JoinBound(hi: nat, m: nat, lo: nat, n: nat)
    requires hi < Pow2(m) && lo < Pow2(n)
    ensures Shl(hi, n) + lo < Pow2(m + n)
  {
    if n > 0 { JoinBound(hi, m, lo / 2, n - 1); }
  }

  lemma {:induction false} Pow2Mono(m: nat, n: nat)
    requires m <= n
    ensures Pow2(m) <= Pow2(n)
  {
    if m < n { Pow2Mono(m, n - 1); }
  }

  function Pow256(k: nat): nat {
    if k == 0 then 1 else 256 * Pow256(k - 1)
  }

  lemma {:induction false} Pow2Plus8(n: nat)
    ensures Pow2(n + 8) == 256 * Pow2(n)
  {
    assert Pow2(n + 4) == 2 * Pow2(n + 3) == 4 * Pow2(n + 2) == 8 * Pow2(n + 1) == 16 * Pow2(n);
    assert Pow2(n + 8) == 2 * Pow2(n + 7) == 4 * Pow2(n + 6) == 8 * Pow2(n + 5) == 16 * Pow2(n + 4);
  }

  lemma {:induction false} Pow2OfBytes(k: nat)
    ensures Pow2(8 * k) == Pow256(k)
  {
    if k > 0 {
      Pow2OfBytes(k - 1);
      Pow2Plus8(8 * (k - 1));
    }
  }

  lemma {:induction false} LowSmall(x: nat, w: nat)
    requires x < Pow2(w)
    ensures Low(x, w) == x
  {
    if w > 0 { LowSmall(x / 2, w - 1); }
  }

  /** Truncating to m bits first does not change the low w <= m bits. */
  lemma {:induction false} LowLow(x: int, m: nat, w: nat)
    requires w <= m
    ensures Low(Low(x, m), w) == Low(x, w)
    decreases w
  {
    if w > 0 { LowLow(x / 2, m - 1, w - 1); }
  }

  lemma {:induction false} HalfOfShifted(x: int, p: int)
    ensures (x + 2 * p) / 2 == x / 2 + p && (x + 2 * p) % 2 == x % 2
  {
  }

  /** Adding 2^m does not change the low w <= m bits. */
  lemma {:induction false} LowPlus(x: int, m: nat, w: nat)
    requires w <= m
    ensures Low(x + Pow2(m), w) == Low(x, w)
    decreases w
  {
    if w > 0 {
      HalfOfShifted(x, Pow2(m - 1));
      LowPlus(x / 2, m - 1, w - 1);
    }
  }

  // ---------------------------------------------------------------- arithmetic on low bits

  lemma {:induction false} HalfOfSum(a: int, b: int, c: int)
    ensures (a + b + c) / 2 == a / 2 + b / 2 + (a % 2 + b % 2 + c) / 2
    ensures (a + b + c) % 2 == (a % 2 + b % 2 + c) % 2
  {
  }

  /** Having the same low bits, from the first bit up. */
  lemma {:induction false} SameLow(a: int, b: int, w: nat)
    requires w > 0
    ensures Low(a, w) == Low(b, w) <==> a % 2 == b % 2 && Low(a / 2, w - 1) == Low(b / 2, w - 1)
  {
  }

  /** The low bits of a sum depend on the low bits of the summands. */
  lemma {:induction false} LowAddCarry(a: int, a': int, b: int, b': int, c: int, w: nat)
    requires Low(a, w) == Low(a', w) && Low(b, w) == Low(b', w) && 0 <= c <= 1
    ensures Low(a + b + c, w) == Low(a' + b' + c, w)
    decreases w
  {
    hide Low;
    if w > 0 {
      SameLow(a, a', w);
      SameLow(b, b', w);
      HalfOfSum(a, b, c);
      HalfOfSum(a', b', c);
      LowAddCarry(a / 2, a' / 2, b / 2, b' / 2, (a % 2 + b % 2 + c) / 2, w - 1);
      SameLow(a + b + c, a' + b' + c, w);
    }
  }

  lemma {:induction false} LowAdd(a: int, a': int, b: int, b': int, w: nat)
    requires Low(a, w) == Low(a', w) && Low(b, w) == Low(b', w)
    ensures Low(a + b, w) == Low(a' + b', w)
  {
    LowAddCarry(a, a', b, b', 0, w);
  }

  lemma {:induction false} LowNot(a: int, a': int, w: nat)
    requires Low(a, w) == Low(a', w)
    ensures Low(-1 - a, w) == Low(-1 - a', w)
    decreases w
  {
    hide Low;
    if w > 0 {
      assert (-1 - a) / 2 == -1 - a / 2 && (-1 - a') / 2 == -1 - a' / 2;
      SameLow(a, a', w);
      LowNot(a / 2, a' / 2, w - 1);
      SameLow(-1 - a, -1 - a', w);
    }
  }

  lemma {:induction false} LowSub(a: int, a': int, b: int, b': int, w: nat)
    requires Low(a, w) == Low(a', w) && Low(b, w) == Low(b', w)
    ensures Low(a - b, w) == Low(a' - b', w)
  {
    hide Low;
    LowNot(b, b', w);
    LowAddCarry(a, a', -1 - b, -1 - b', 1, w);
    assert a + (-1 - b) + 1 == a - b && a' + (-1 - b') + 1 == a' - b';
  }

  /** Numbers with the same low bits stay so for fewer bits. */
  lemma {:induction false} LowNarrow(a: int, b: int, m: nat, w: nat)
    requires Low(a, m) == Low(b, m) && w <= m
    ensures Low(a, w) == Low(b, w)
  {
    hide Low;
    LowLow(a, m, w);
    LowLow(b, m, w);
  }

  /** The low bits of a product depend on the low bits of the factors. */
  lemma {:induction false} LowProduct(a: int, a': int, b: int, b': int, w: nat)
    requires Low(a, w) == Low(a', w) && Low(b, w) == Low(b', w)
    ensures Low(Product(a, b), w) == Low(Product(a', b'), w)
  {
    hide Low, Product;
    LowProductRight(a, b, b', w);
    LowProductRight(b', a, a', w);
    ProductIsMul(a, b');
    ProductIsMul(b', a);
    ProductIsMul(b', a');
    ProductIsMul(a', b');
    assert a * b' == b' * a && a' * b' == b' * a';
  }

  lemma {:induction false} LowProductRight(a: int, b: int, b': int, w: nat)
    requires Low(b, w) == Low(b', w)
    ensures Low(Product(a, b), w) == Low(Product(a, b'), w)
    decreases if a < 0 then -a else a
  {
    hide Low, Product;
    ProductIsMul(a, b);
    ProductIsMul(a, b');
    if a > 0 {
      LowProductRight(a - 1, b, b', w);
      ProductIsMul(a - 1, b);
      ProductIsMul(a - 1, b');
      LowAdd(Product(a - 1, b), Product(a - 1, b'), b, b', w);
      assert a * b == (a - 1) * b + b && a * b' == (a - 1) * b' + b';
    } else if a < 0 {
      LowProductRight(a + 1, b, b', w);
      ProductIsMul(a + 1, b);
      ProductIsMul(a + 1, b');
      LowSub(Product(a + 1, b), Product(a + 1, b'), b, b', w);
      assert a * b == (a + 1) * b - b && a * b' == (a + 1) * b' - b';
    }
  }

  lemma {:induction false} LowMinusOne(m: nat)
    ensures Low(-1, m) == Pow2(m) - 1
  {
    if m > 0 { LowMinusOne(m - 1); }
  }

  /** A number that is 2^n too small has ones above its n bits. */
  lemma {:induction false} LowOfDropped(v: nat, n: nat, m: nat)
    requires v < Pow2(n)
    ensures Low(v - Pow2(n), n + m) == Shl(Pow2(m) - 1, n) + v
    decreases n
  {
    if n == 0 {
      LowMinusOne(m);
    } else {
      assert (v - Pow2(n)) / 2 == v / 2 - Pow2(n - 1) && (v - Pow2(n)) % 2 == v % 2;
      LowOfDropped(v / 2, n - 1, m);
    }
  }

  /** A bitwise operator works on high and low parts separately. */
  lemma {:induction false} CombineParts(op: BitOp, h: nat, l: nat, h': nat, l': nat, n: nat)
    requires l < Pow2(n) && l' < Pow2(n)
    ensures Combine(op, Shl(h, n) + l, Shl(h', n) + l') == Shl(Combine(op, h, h'), n) + Combine(op, l, l')
  {
    var x, y := Shl(h, n) + l, Shl(h', n) + l';
    CombineBound(op, l, l', n);
    forall k: nat ensures Bit(Combine(op, x, y), k) == Bit(Shl(Combine(op, h, h'), n) + Combine(op, l, l'), k) {
      BitOfCombine(op, x, y, k);
      BitOfJoin(h, n, l, k);
      BitOfJoin(h', n, l', k);
      BitOfJoin(Combine(op, h, h'), n, Combine(op, l, l'), k);
      if k < n {
        BitOfCombine(op, l, l', k);
      } else {
        BitOfCombine(op, h, h', k - n);
      }
    }
    SameBits(Combine(op, x, y), Shl(Combine(op, h, h'), n) + Combine(op, l, l'));
  }

  function OnesIf(d: bool, n: nat): nat { if d then Pow2(n) - 1 else 0 }

  lemma {:induction false} CombineOnes(op: BitOp, d: bool, d': bool, n: nat)
    ensures Combine(op, OnesIf(d, n), OnesIf(d', n)) == OnesIf(op.On(d, d'), n)
  {
    forall k: nat ensures Bit(Combine(op, OnesIf(d, n), OnesIf(d', n)), k) == Bit(OnesIf(op.On(d, d'), n), k) {
      BitOfCombine(op, OnesIf(d, n), OnesIf(d', n), k);
      BitOfOnes(n, k);
      BitOfZero(k);
    }
    SameBits(Combine(op, OnesIf(d, n), OnesIf(d', n)), OnesIf(op.On(d, d'), n));
  }

  // ---------------------------------------------------------------- the usual arithmetic

  lemma {:induction false} ShlIsMul(x: nat, n: nat)
    ensures Shl(x, n) == x * Pow2(n)
  {
    if n > 0 {
      ShlIsMul(x, n - 1);
      DoubleMul(x, Pow2(n - 1));
    }
  }

  lemma {:induction false} ProductIsMul(a: int, b: int)
    ensures Product(a, b) == a * b
    decreases if b < 0 then -b else b
  {
    if b > 0 {
      ProductIsMul(a, b - 1);
      assert a * b == a * (b - 1) + a;
    } else if b < 0 {
      ProductIsMul(a, b + 1);
      assert a * b == a * (b + 1) - a;
    }
  }

  lemma {:induction false} MulAtLeast(k: int, d: int)
    requires d >= 0
    ensures k >= 1 ==> k * d >= d
    ensures k <= -1 ==> k * d <= -d
  {
  }

  /** Quotient and remainder are determined by the division equation. */
  lemma {:induction false} DivUnique(x: int, d: nat, q: int, r: nat)
    requires d > 0 && x == q * d + r && r < d
    ensures x / d == q && x % d == r
  {
    assert (x / d - q) * d == r - x % d;
    MulAtLeast(x / d - q, d);
  }

  lemma {:induction false} DoubleMul(q: int, p: int)
    ensures q * (2 * p) == 2 * (q * p)
  {
  }

  lemma {:induction false} HalveDivision(x: int, p: nat)
    requires p > 0
    ensures x / (2 * p) == (x / 2) / p
    ensures x % (2 * p) == 2 * ((x / 2) % p) + x % 2
  {
    var q, r := (x / 2) / p, (x / 2) % p;
    assert x / 2 == q * p + r;
    DoubleMul(q, p);
    DivUnique(x, 2 * p, q, 2 * r + x % 2);
  }

  lemma {:induction false} LowIsMod(x: int, w: nat)
    ensures Low(x, w) == x % Pow2(w)
    decreases w
  {
    if w > 0 {
      LowIsMod(x / 2, w - 1);
      HalveDivision(x, Pow2(w - 1));
    }
  }

  lemma {:induction false} ShrIsDiv(x: nat, n: nat)
    ensures Shr(x, n) == x / Pow2(n)
  {
    if n > 0 {
      ShrIsDiv(x / 2, n - 1);
      HalveDivision(x, Pow2(n - 1));
    }
  }
}
