/** C types and C values of formatted expressions.

    The C value of a tree is its P4 value, or that value minus 2^32: a 32-bit concatenation of two operands of
    type int sets the sign bit. `Dropped` says of which trees; unmasked operators pass the difference on. */
module ExprValues {
  import opened Bits
  import opened P4Expr
  import opened CLang
  import opened ExprCompiler

  // ---------------------------------------------------------------- C types of formatted expressions

  function UnRank(op: UnOp, t: Ty, rank: Rank): Rank {
    match op
    case Neg | Cmpl => ContainerOf(t.Width()).Promoted()
    case CastBits(w) => if t.Width() > w then ContainerOf(w).Promoted() else rank
    case CastToBool => rank
    case LNot | CastToBit => INT
  }

  function BinRank(op: BinOp, t: Ty, l: Rank, r: Rank): Rank {
    match op
    case Compare(_) | LAnd | LOr => INT
    case Bitwise(_) | Concat => Common(l, r)
    case _ => ContainerOf(t.Width()).Promoted()
  }

  /** The C type of what `Format` returns for `e`. */
  function CRank(e: Expr): (r: Rank)
    ensures r.bits >= 32
  {
    match e
    case Const(v, _, base) => NumRank(v, base)
    case IntConst(v) => NumRank(v, Dec)
    case BoolLit(_) | LocalBool(_) => INT
    case Local(_, _, w) => ContainerOf(w).Promoted()
    case Field(_, _) => UINT
    case Unary(op, a) => UnRank(op, TypeOf(a), CRank(a))
    case Binary(op, l, r) => BinRank(op, TypeOf(l), CRank(l), CRank(r))
    case Mux(_, l, r) => Common(CRank(l), CRank(r))
  }

  lemma {:induction false} RankOfTruncated(w: nat, x: CExpr, n: nat)
    ensures RankOf(Truncated(w, x, n).expr) == ContainerOf(w).Promoted()
  {
    hide Pow2, Low, Shl, Shr, Combine, Product;
    assert RankOf(MaskTemp(w, n)) == RankOf(MaskedTemp(w, n)) == ContainerOf(w).Promoted();
  }

  lemma {:induction false} RankOfUn(op: UnOp, t: Ty, x: CExpr, n: nat)
    ensures RankOf(FormatUn(op, t, x, n).expr) == UnRank(op, t, RankOf(x))
  {
    hide Pow2, Low, Shl, Shr, Combine, Product;
  }

  lemma {:induction false} RankOfOper(op: COp, x: CExpr, y: CExpr)
    ensures RankOf(Oper(op, x, y)) == OperRank(op, RankOf(x), RankOf(y))
  {
  }

  lemma {:induction false} RankOfSimple(op: BinOp, tl: Ty, tr: Ty, x: CExpr, y: CExpr, n: nat)
    requires !IsComplex(op)
    ensures RankOf(FormatSimple(op, tl, tr, x, y, n).expr) == BinRank(op, tl, RankOf(x), RankOf(y))
  {
    hide Pow2, Low, Shl, Shr, Combine, Product;
    match op {
      case Sub => RankOfTruncated(tl.Width(), Oper(Plus, x, Oper(Minus, Num(Pow2(tl.Width()), Dec), y)), n);
      case Bitwise(bop) => RankOfOper(BitOper(bop), x, y);
      case Compare(cop) => RankOfOper(Rel(cop), x, y);
      case LAnd =>
      case LOr =>
      case Concat =>
        RankOfOper(ShiftL, x, Num(tr.Width(), Dec));
        RankOfOper(BitOper(Or), Oper(ShiftL, x, Num(tr.Width(), Dec)), y);
    }
  }

  lemma {:induction false} RankOfFormat(e: Expr, n: nat)
    ensures RankOf(Format(e, n).expr) == CRank(e)
  {
    hide Pow2, Low, Shl, Shr, Combine, Product;
    match e {
      case Unary(op, a) =>
        RankOfFormat(a, n);
        RankOfUn(op, TypeOf(a), Format(a, n).expr, Format(a, n).next);
      case Binary(op, l, r) =>
        var cl := Format(l, n);
        var cr := Format(r, cl.next);
        RankOfFormat(l, n);
        RankOfFormat(r, cl.next);
        if !IsComplex(op) { RankOfSimple(op, TypeOf(l), TypeOf(r), cl.expr, cr.expr, cr.next); }
      case Mux(c, l, r) =>
        var n1 := Format(c, n).next;
        RankOfFormat(l, n1);
        RankOfFormat(r, Format(l, n1).next);
      case _ =>
    }
  }

  /** Only three C types occur. */
  predicate Known(r: Rank) { r == INT || r == UINT || r == LONG }

  lemma {:induction false} RankKnown(e: Expr)
    ensures Known(CRank(e))
  {
    hide Pow2;
    match e {
      case Unary(_, a) => RankKnown(a);
      case Binary(_, l, r) =>
        RankKnown(l);
        RankKnown(r);
      case Mux(_, l, r) =>
        RankKnown(l);
        RankKnown(r);
      case _ =>
    }
  }

  /** Narrow expressions are never of type long. */
  lemma {:induction false} NarrowRank(e: Expr)
    requires WellTyped(e) && (TypeOf(e).BitTy? ==> TypeOf(e).w <= 31) && !TypeOf(e).InfInt?
    ensures CRank(e).bits == 32
  {
    hide Pow2;
    match e {
      case Const(v, w, base) =>
        Pow2Mono(w, 31);
        Pow2Is(31);
      case Unary(op, a) =>
        if op.CastToBool? || (op.CastBits? && TypeOf(a).w <= op.w) { NarrowRank(a); }
      case Binary(op, l, r) =>
        if op.Bitwise? || op.Concat? {
          NarrowRank(l);
          NarrowRank(r);
        }
      case Mux(_, l, r) =>
        NarrowRank(l);
        NarrowRank(r);
      case _ =>
    }
  }

  // ---------------------------------------------------------------- C values

  const TWO31: nat := 0x8000_0000
  const TWO32: nat := 0x1_0000_0000

  function Minus32(a: int, d: bool): int { if d then a - TWO32 else a }

  /** Whether `v`, the bits of `l op r` computed in the type `t`, comes out 2^32 too small. */
  predicate DroppedBits(t: Rank, op: BitOp, v: nat, dl: bool, dr: bool) {
    if t.bits == 64 then op.On(dl, dr) else t.signed && v >= TWO31
  }

  /** The same for any operator. All but these two give booleans or are masked. */
  predicate DroppedBy(op: BinOp, t: Rank, v: nat, dl: bool, dr: bool) {
    match op
    case Concat => t == INT && v >= TWO31
    case Bitwise(bop) => DroppedBits(t, bop, v, dl, dr)
    case _ => false
  }

  /** The C value of `e` is 2^32 less than its P4 value. */
  predicate Dropped(e: Expr, rho: Inputs) {
    match e
    case Unary(op, a) => op.CastBits? && TypeOf(a).Width() <= op.w && Dropped(a, rho)
    case Binary(op, l, r) =>
      DroppedBy(op, Common(CRank(l), CRank(r)), Value(e, rho), Dropped(l, rho), Dropped(r, rho))
    case Mux(c, l, r) =>
      Common(CRank(l), CRank(r)).signed && if Value(c, rho) != 0 then Dropped(l, rho) else Dropped(r, rho)
    case _ => false
  }

  function CValue(e: Expr, rho: Inputs): int { Minus32(Value(e, rho), Dropped(e, rho)) }

  /** What is known of the P4 value `a` of an expression of C type `r`. */
  predicate Held(r: Rank, a: nat, d: bool) {
    if d then r.signed && a < TWO32 && (r.bits == 32 ==> a >= TWO31) else r.Fits(a)
  }

  lemma {:induction false} Pow2Double(k: nat)
    ensures Pow2(k + 1) == 2 * Pow2(k)
  {
  }

  lemma {:induction false} Pow2Is(k: nat)
    requires k == 8 || k == 16 || k == 31 || k == 32 || k == 63 || k == 64
    ensures k == 31 ==> Pow2(k) == 0x8000_0000
    ensures k == 32 ==> Pow2(k) == 0x1_0000_0000
    ensures k == 63 ==> Pow2(k) == 0x8000_0000_0000_0000
    ensures k == 64 ==> Pow2(k) == 0x1_0000_0000_0000_0000
  {
    hide Pow2;
    Pow2OfBytes(4);
    Pow2OfBytes(8);
    Pow2Double(31);
    Pow2Double(63);
    assert Pow256(4) == 0x1_0000_0000;
    assert Pow256(6) == 0x1_0000 * Pow256(4);
    assert Pow256(8) == 0x1_0000 * Pow256(6);
  }

  lemma {:induction false} LowMinus32(a: int, d: bool, w: nat)
    requires w <= 32
    ensures Low(Minus32(a, d), w) == Low(a, w)
  {
    hide Pow2, Low;
    Pow2Is(32);
    if d { LowPlus(a - TWO32, 32, w); }
  }

  /** A negative number is not changed by conversion to a signed type that can hold it. */
  lemma {:induction false} WrapNegative(t: Rank, y: int)
    requires (t == INT && -0x8000_0000 <= y < 0) || (t == LONG && -0x8000_0000_0000_0000 <= y < 0)
    ensures t.Wrap(y) == y
  {
    hide Pow2, Low;
    Pow2Is(t.bits);
    Pow2Is(t.ValueBits());
    LowPlus(y, t.bits, t.bits);
    LowSmall(y + Pow2(t.bits), t.bits);
  }

  /** Conversion to the common type: exact, except that an unsigned type makes up for what was dropped. */
  lemma {:induction false} ConvertHeld(r: Rank, q: Rank, a: nat, d: bool)
    requires Known(r) && Known(q) && Held(r, a, d)
    ensures var t := Common(r, q);
            && t == Common(q, r) && Known(t)
            && t.Wrap(Minus32(a, d)) == Minus32(a, d && t.signed)
            && Held(t, a, d && t.signed)
  {
    hide Pow2, Low;
    var t := Common(r, q);
    if !d {
      FitsCommon(r, q, a);
      WrapFits(t, a);
    } else if t == UINT {
      Pow2Is(32);
      LowMinus32(a, d, 32);
      LowSmall(a, 32);
    } else {
      WrapNegative(t, a - TWO32);
    }
  }

  // ---------------------------------------------------------------- every value is held by its type

  lemma {:induction false} BoolFits(b: bool)
    ensures INT.Fits(FromBool(b))
  {
    Pow2Is(31);
  }

  lemma {:induction false} ContainerHolds(w: nat, v: nat)
    requires w <= 32 && v < Pow2(w)
    ensures ContainerOf(w).Promoted().Fits(v)
    ensures Low(v, ContainerOf(w).bits) == v
  {
    hide Pow2, Low, Shl, Shr, Combine, Product;
    var c := ContainerOf(w);
    Pow2Mono(w, c.bits);
    LowSmall(v, c.bits);
    Pow2Mono(w, c.Promoted().ValueBits());
  }

  lemma {:induction false} NumFits(v: nat, base: Base)
    requires v < 0x8000_0000_0000_0000
    ensures NumRank(v, base).Fits(v)
  {
    hide Pow2, Low, Shl, Shr, Combine, Product;
    Pow2Is(NumRank(v, base).ValueBits());
  }

  lemma {:induction false} UnHeld(op: UnOp, t: Ty, rank: Rank, a: nat, d: bool)
    requires UnOk(op, t) && t.Has(a) && Held(rank, a, d) && (d ==> t == BitTy(32))
    ensures Held(UnRank(op, t, rank), UnValue(op, t, a), op.CastBits? && t.w <= op.w && d)
  {
    hide Pow2, Low, Shl, Shr, Combine, Product;
    match op {
      case Neg => ContainerHolds(t.w, UnValue(op, t, a));
      case Cmpl => ContainerHolds(t.w, UnValue(op, t, a));
      case CastBits(w) =>
        if t.w > w {
          ContainerHolds(w, UnValue(op, t, a));
        } else {
          Pow2Mono(t.w, w);
          LowSmall(a, w);
        }
      case LNot => BoolFits(a == 0);
      case CastToBool =>
      case CastToBit => BoolFits(a == 1);
    }
  }

  /** The bits of two operands of type long, put together. */
  lemma {:induction false} LongBits(op: BitOp, a: nat, b: nat, dl: bool, dr: bool)
    requires a < TWO32 && b < TWO32
    ensures Combine(op, a, b) < TWO32
    ensures LONG.Wrap(Combine(op, Low(Minus32(a, dl), 64), Low(Minus32(b, dr), 64)))
         == Minus32(Combine(op, a, b), op.On(dl, dr))
  {
    hide Pow2, Low, Shl, Combine;
    Pow2Is(32);
    var v := Combine(op, a, b);
    CombineBound(op, a, b, 32);
    LongPattern(a, dl);
    LongPattern(b, dr);
    CombineParts(op, OnesIf(dl, 32), a, OnesIf(dr, 32), b, 32);
    CombineOnes(op, dl, dr, 32);
    LongPattern(v, op.On(dl, dr));
    LongOfPattern(Minus32(v, op.On(dl, dr)));
  }

  /** The 64 bits of a number that may be 2^32 too small. */
  lemma {:induction false} LongPattern(a: nat, d: bool)
    requires a < TWO32
    ensures Low(Minus32(a, d), 64) == Shl(OnesIf(d, 32), 32) + a
  {
    hide Pow2, Low, Shl;
    Pow2Is(32);
    if d {
      LowOfDropped(a, 32, 32);
    } else {
      Pow2Mono(32, 64);
      LowSmall(a, 64);
      ShlIsMul(0, 32);
    }
  }

  lemma {:induction false} LongOfPattern(y: int)
    requires -0x8000_0000_0000_0000 <= y < 0x8000_0000_0000_0000
    ensures LONG.Wrap(Low(y, 64)) == y
  {
    hide Pow2, Low;
    Pow2Is(63);
    Pow2Is(64);
    LowLow(y, 64, 64);
    if y < 0 { WrapNegative(LONG, y); } else { WrapFits(LONG, y); }
  }

  /** A pattern of 32 bits converted to int or unsigned int. */
  lemma {:induction false} WrapPattern(t: Rank, v: nat)
    requires (t == INT || t == UINT) && v < TWO32
    ensures t.Wrap(v) == Minus32(v, t.signed && v >= TWO31) && Held(t, v, t.signed && v >= TWO31)
  {
    hide Pow2, Low;
    Pow2Is(31);
    Pow2Is(32);
    LowSmall(v, 32);
  }

  /** What a bitwise operator makes of two operands. */
  lemma {:induction false} BitsOfHeld(op: BitOp, rl: Rank, rr: Rank, a: nat, b: nat, dl: bool, dr: bool)
    requires Known(rl) && Known(rr) && Held(rl, a, dl) && Held(rr, b, dr) && a < TWO32 && b < TWO32
    ensures var t := Common(rl, rr);
            var v := Combine(op, a, b);
            && t.Wrap(Combine(op, Low(Minus32(a, dl), t.bits), Low(Minus32(b, dr), t.bits)))
               == Minus32(v, DroppedBits(t, op, v, dl, dr))
            && Held(t, v, DroppedBits(t, op, v, dl, dr))
  {
    hide Pow2, Low, Combine;
    var t := Common(rl, rr);
    if t == LONG {
      LongBits(op, a, b, dl, dr);
      Pow2Is(63);
    } else {
      Pow2Is(32);
      LowMinus32(a, dl, 32);
      LowMinus32(b, dr, 32);
      LowSmall(a, 32);
      LowSmall(b, 32);
      CombineBound(op, a, b, 32);
      WrapPattern(t, Combine(op, a, b));
    }
  }

  /** Operands of less than 32 bits are not dropped. */
  lemma {:induction false} NarrowBits(op: BitOp, t: Rank, w: nat, a: nat, b: nat)
    requires w <= 31 && a < Pow2(w) && b < Pow2(w)
    ensures !DroppedBits(t, op, Combine(op, a, b), false, false)
  {
    hide Pow2, Combine;
    CombineBound(op, a, b, w);
    Pow2Mono(w, 31);
    Pow2Is(31);
  }

  lemma {:induction false} BitTyRange(w: nat, a: nat)
    requires w <= 32 && a < Pow2(w)
    ensures a < TWO32 && (w < 32 ==> a < TWO31)
  {
    hide Pow2;
    Pow2Is(31);
    Pow2Is(32);
    Pow2Mono(w, if w < 32 then 31 else 32);
  }

  lemma {:induction false} BinHeld(op: BinOp, tl: Ty, tr: Ty, rl: Rank, rr: Rank, a: nat, b: nat, dl: bool, dr: bool)
    requires BinOk(op, tl, tr) && tl.Has(a) && tr.Has(b) && Known(rl) && Known(rr)
    requires Held(rl, a, dl) && (dl ==> tl == BitTy(32)) && Held(rr, b, dr) && (dr ==> tr == BitTy(32))
    requires op.Concat? ==> rl.bits == rr.bits == 32
    ensures var v := BinValue(op, tl, tr, a, b);
            var d := DroppedBy(op, Common(rl, rr), v, dl, dr);
            Held(BinRank(op, tl, rl, rr), v, d) && (d ==> BinTy(op, tl, tr) == BitTy(32))
  {
    hide Pow2, Low, Shl, Shr, Combine, Product, Held;
    var v := BinValue(op, tl, tr, a, b);
    BinStaysInType(op, tl, tr, a, b);
    match op {
      case Bitwise(bop) =>
        BitTyRange(tl.w, a);
        BitTyRange(tl.w, b);
        BitsOfHeld(bop, rl, rr, a, b, dl, dr);
        if tl.w < 32 { NarrowBits(bop, Common(rl, rr), tl.w, a, b); }
      case Concat =>
        BitTyRange(tl.w + tr.w, v);
        WrapPattern(Common(rl, rr), v);
      case Compare(_) | LAnd | LOr =>
        BoolFits(v == 1);
        FitsHeld(INT, v);
      case _ =>
        ContainerHolds(tl.w, v);
        FitsHeld(BinRank(op, tl, rl, rr), v);
    }
  }

  lemma {:induction false} FitsHeld(r: Rank, a: nat)
    requires r.Fits(a)
    ensures Held(r, a, false)
  {
  }

  ghost predicate HeldByType(e: Expr, rho: Inputs) {
    Held(CRank(e), Value(e, rho), Dropped(e, rho)) && (Dropped(e, rho) ==> TypeOf(e) == BitTy(32))
  }

  lemma {:induction false} BinaryHeld(e: Expr, rho: Inputs)
    requires e.Binary? && WellTyped(e) && InRange(e, rho) && HeldByType(e.l, rho) && HeldByType(e.r, rho)
    ensures HeldByType(e, rho)
  {
    hide Pow2, Low, Shl, Shr, Combine, Product, Held, Known;
    ValueInType(e.l, rho);
    ValueInType(e.r, rho);
    RankKnown(e.l);
    RankKnown(e.r);
    if e.op.Concat? {
      NarrowRank(e.l);
      NarrowRank(e.r);
    }
    BinHeld(e.op, TypeOf(e.l), TypeOf(e.r), CRank(e.l), CRank(e.r), Value(e.l, rho), Value(e.r, rho),
            Dropped(e.l, rho), Dropped(e.r, rho));
  }

  /** The C type of an expression holds its C value, and only 32-bit expressions of a signed type are dropped. */
  lemma {:induction false} ValueHeld(e: Expr, rho: Inputs)
    requires WellTyped(e) && InRange(e, rho)
    ensures HeldByType(e, rho)
  {
    hide Pow2, Low, Shl, Shr, Combine, Product;
    match e {
      case Const(v, w, base) =>
        BitTyRange(w, v);
        NumFits(v, base);
      case IntConst(v) => NumFits(v, Dec);
      case BoolLit(b) => BoolFits(b);
      case LocalBool(id) => BoolFits(rho.localBool(id));
      case Local(_, id, w) => ContainerHolds(w, rho.local(id));
      case Field(id, w) => Pow2Mono(w, UINT.ValueBits());
      case Unary(op, a) =>
        ValueInType(a, rho);
        ValueHeld(a, rho);
        UnHeld(op, TypeOf(a), CRank(a), Value(a, rho), Dropped(a, rho));
      case Binary(_, l, r) =>
        BinaryHeld(e, rho) by {
          ValueHeld(l, rho);
          ValueHeld(r, rho);
        }
      case Mux(c, l, r) =>
        ValueHeld(l, rho);
        ValueHeld(r, rho);
        RankKnown(l);
        RankKnown(r);
        ConvertHeld(CRank(l), CRank(r), Value(l, rho), Dropped(l, rho));
        ConvertHeld(CRank(r), CRank(l), Value(r, rho), Dropped(r, rho));
    }
  }

  // ---------------------------------------------------------------- where the difference shows

  /** When comparing `a` and `b`, converted to the type `t`, gives the P4 result: unsigned types make up for
      what was dropped; in a signed one a dropped operand is negative, and thus below any other. */
  predicate CompareAgrees(op: CmpOp, t: Rank, dl: bool, dr: bool, a: nat, b: nat) {
    || !t.signed
    || dl == dr
    || match op {
         case Equ | Neq => a != b
         case Lss | Geq => if dl then a < b else a >= b
         case Leq | Grt => if dl then a <= b else a > b
       }
  }

  /** The condition is exact, for each of the six operators and each common type. */
  lemma {:induction false} CompareExactly(op: CmpOp, t: Rank, dl: bool, dr: bool, a: nat, b: nat)
    requires a < TWO32 && b < TWO32
    ensures Compares(op, Minus32(a, dl && t.signed), Minus32(b, dr && t.signed)) == Compares(op, a, b)
        <==> CompareAgrees(op, t, dl, dr, a, b)
  {
  }

  /** In the type int, only the order can be wrong, and it is exactly if one value is below 2^31 and the other
      is not. */
  lemma {:induction false} IntCompareAgrees(op: CmpOp, dl: bool, dr: bool, a: nat, b: nat)
    requires Held(INT, a, dl) && Held(INT, b, dr)
    ensures CompareAgrees(op, INT, dl, dr, a, b) <==> op.Equ? || op.Neq? || (a < TWO31 <==> b < TWO31)
  {
    hide Pow2;
    Pow2Is(31);
  }

  /** Every comparison in the tree gives the P4 result, and no dropped value makes a shift count that should be
      below 32 negative. */
  predicate Agrees(e: Expr, rho: Inputs) {
    match e
    case Unary(_, a) => Agrees(a, rho)
    case Binary(op, l, r) =>
      && Agrees(l, rho) && Agrees(r, rho)
      && (op.Compare? ==> CompareAgrees(op.cop, Common(CRank(l), CRank(r)), Dropped(l, rho), Dropped(r, rho),
                                        Value(l, rho), Value(r, rho)))
      && (op.ShiftLeft? || op.ShiftRight? ==> Dropped(r, rho) ==> Value(r, rho) >= 32)
    case Mux(c, l, r) => Agrees(c, rho) && Agrees(l, rho) && Agrees(r, rho)
    case _ => true
  }

  /** No concatenation of total width 32 has two operands of type int. */
  predicate ConcatsFit(e: Expr) {
    match e
    case Unary(_, a) => ConcatsFit(a)
    case Binary(op, l, r) =>
      && ConcatsFit(l) && ConcatsFit(r)
      && (op.Concat? ==> TypeOf(l).Width() + TypeOf(r).Width() < 32 || Common(CRank(l), CRank(r)) != INT)
    case Mux(c, l, r) => ConcatsFit(c) && ConcatsFit(l) && ConcatsFit(r)
    case _ => true
  }

  /** Such trees have their P4 values in C, all of them. */
  lemma {:induction false} ConcatsFitAgree(e: Expr, rho: Inputs)
    requires WellTyped(e) && InRange(e, rho) && ConcatsFit(e)
    ensures Agrees(e, rho) && !Dropped(e, rho)
  {
    hide Pow2, Low, Shl, Shr, Combine, Product, CRank;
    match e {
      case Unary(_, a) => ConcatsFitAgree(a, rho);
      case Binary(op, l, r) =>
        ConcatsFitAgree(l, rho);
        ConcatsFitAgree(r, rho);
        ValueInType(e, rho);
        if op.Concat? {
          BitTyRange(TypeOf(l).w + TypeOf(r).w, Value(e, rho));
        } else if op.Bitwise? {
          BitsNotDropped(e, rho);
        }
      case Mux(c, l, r) =>
        ConcatsFitAgree(c, rho);
        ConcatsFitAgree(l, rho);
        ConcatsFitAgree(r, rho);
      case _ =>
    }
  }

  /** Bits of two operands that are not dropped are not dropped. */
  lemma {:induction false} BitsNotDropped(e: Expr, rho: Inputs)
    requires e.Binary? && e.op.Bitwise? && WellTyped(e) && InRange(e, rho)
    requires !Dropped(e.l, rho) && !Dropped(e.r, rho)
    ensures !Dropped(e, rho)
  {
    hide Pow2, Low, Combine, CRank;
    var t := Common(CRank(e.l), CRank(e.r));
    if t == INT {
      RankKnown(e.l);
      RankKnown(e.r);
      ValueHeld(e.l, rho);
      ValueHeld(e.r, rho);
      CombineBound(e.op.bop, Value(e.l, rho), Value(e.r, rho), 31);
      Pow2Is(31);
    } else {
      RankKnown(e.l);
      RankKnown(e.r);
    }
  }
}
