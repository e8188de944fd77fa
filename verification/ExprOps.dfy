/** One operator: what the code produced for it does when its operands have the C values that `ExprValues`
    says. */
module ExprOps {
  import opened Options
  import opened Bits
  import opened P4Expr
  import opened CLang
  import opened Names
  import opened ExprCompiler
  import opened ExprValues

  // ---------------------------------------------------------------- running the hoisted statements

  /** No temporary drawn after counter value `n` is declared yet. */
  ghost predicate Fresh(env: Temps, n: nat) {
    forall t: TempName :: t in env ==> t.counter <= n
  }

  /** `env'` adds to `env` only temporaries drawn after counter value `n`. */
  ghost predicate Grows(env: Temps, env': Temps, n: nat) {
    Extends(env, env') && forall t: TempName :: t in env' ==> t in env || t.counter > n
  }

  /** Started in `env` with the counter at `n`, the statements of `c` run without undefined behaviour,
      declare only new temporaries, and leave the expression with value `v`. */
  ghost predicate Yields(c: Code, n: nat, env: Temps, rho: Inputs, v: int) {
    var r := Exec(c.pre, env, rho);
    c.next >= n && r.Some? && Grows(env, r.value, n) && Fresh(r.value, c.next) && Eval(c.expr, r.value, rho) == Some(v)
  }

  ghost predicate Undefined(c: Code, env: Temps, rho: Inputs) {
    Exec(c.pre, env, rho) == None
  }

  lemma {:induction false} YieldsAfter(first: seq<Stmt>, c: Code, n: nat, n1: nat, env: Temps, env1: Temps,
                                       rho: Inputs, v: int)
    requires Exec(first, env, rho) == Some(env1) && Grows(env, env1, n) && n <= n1
    requires Yields(c, n1, env1, rho, v)
    ensures Yields(c.After(first), n, env, rho, v)
  {
    hide Pow2, Low, Shl, Shr, Combine, Product;
    ExecAppend(first, c.pre, env, rho);
  }

  lemma {:induction false} UndefinedAfter(first: seq<Stmt>, c: Code, env: Temps, rho: Inputs)
    requires var mid := Exec(first, env, rho); mid.Some? ==> Undefined(c, mid.value, rho)
    ensures Undefined(c.After(first), env, rho)
  {
    hide Pow2, Low, Shl, Shr, Combine, Product;
    ExecAppend(first, c.pre, env, rho);
  }

  /** The environment after the three statements of a truncation whose operand has value `y`. */
  function MaskEnv(w: nat, n: nat, env: Temps): Temps {
    env[TempName(Bitmask(w), n + 1) := Pow2(w) - 1]
  }

  lemma {:induction false} ExecOne(a: Stmt, env: Temps, rho: Inputs)
    ensures Exec([a], env, rho) == Step(a, env, rho)
  {
    hide Pow2, Low, Shl, Shr, Combine, Product;
    assert [a][1..] == [];
  }

  lemma {:induction false} ExecThree(a: Stmt, b: Stmt, c: Stmt, env: Temps, rho: Inputs)
    ensures var e1 := Step(a, env, rho);
            var e2 := if e1.None? then None else Step(b, e1.value, rho);
            Exec([a, b, c], env, rho) == if e2.None? then None else Step(c, e2.value, rho)
  {
    hide Pow2, Low, Shl, Shr, Combine, Product;
    assert [a, b, c] == [a] + ([b] + [c]);
    ExecAppend([a], [b] + [c], env, rho);
    ExecOne(a, env, rho);
    var e1 := Step(a, env, rho);
    if e1.Some? {
      ExecAppend([b], [c], e1.value, rho);
      ExecOne(b, e1.value, rho);
      var e2 := Step(b, e1.value, rho);
      if e2.Some? { ExecOne(c, e2.value, rho); }
    }
  }

  function TruncatedEnv(w: nat, n: nat, env: Temps, v: nat): Temps {
    MaskEnv(w, n, env)[TempName(Casted, n + 3) := v][TempName(Masked, n + 2) := v]
  }

  lemma {:induction false} TruncatedExec(w: nat, x: CExpr, n: nat, env: Temps, rho: Inputs, y: int)
    requires 1 <= w <= 32 && Fresh(env, n) && Eval(x, env, rho) == Some(y)
    ensures Exec(MaskStmts(w, x, n), env, rho) == Some(TruncatedEnv(w, n, env, Low(y, ContainerOf(w).bits)))
  {
    hide Pow2, Low, Shl, Shr, Combine, Product;
    var c := ContainerOf(w);
    var m1, m2, m3 := TempName(Bitmask(w), n + 1), TempName(Casted, n + 3), TempName(Masked, n + 2);
    var v := Low(y, c.bits);
    ContainerHolds(w, Pow2(w) - 1);
    var e1 := MaskEnv(w, n, env);
    var e2 := e1[m2 := v];
    EvalExtends(x, env, e1, rho);
    LowLow(y, c.bits, c.bits);
    assert Step(Decl(c, m1, Num(Pow2(w) - 1, Hex)), env, rho) == Some(e1);
    assert Step(Decl(c, m2, Cast(c, x)), e1, rho) == Some(e2);
    assert Eval(Temp(m2, c), e2, rho) == Some(v);
    assert Step(Decl(c, m3, Cast(c, Temp(m2, c))), e2, rho) == Some(e2[m3 := v]);
    ExecThree(Decl(c, m1, Num(Pow2(w) - 1, Hex)), Decl(c, m2, Cast(c, x)), Decl(c, m3, Cast(c, Temp(m2, c))), env, rho);
  }

  lemma {:induction false} TruncatedYields(w: nat, x: CExpr, n: nat, env: Temps, rho: Inputs, y: int)
    requires 1 <= w <= 32 && Fresh(env, n) && Eval(x, env, rho) == Some(y)
    ensures Yields(Truncated(w, x, n), n, env, rho, Low(y, w))
  {
    hide Pow2, Low, Shl, Shr, Combine, Product, Operate, Exec, NumRank;
    TruncatedExec(w, x, n, env, rho, y);
    var c := ContainerOf(w);
    var env' := TruncatedEnv(w, n, env, Low(y, c.bits));
    assert Grows(env, env', n) && Fresh(env', n + 3);
    MaskedValue(w, y);
    assert Eval(MaskTemp(w, n), env', rho) == Some(Pow2(w) - 1);
    assert Eval(MaskedTemp(w, n), env', rho) == Some(Low(y, c.bits));
  }

  /** Masking the truncated value of `y` with `w` ones gives the low `w` bits of `y`. */
  lemma {:induction false} MaskedValue(w: nat, y: int)
    requires 1 <= w <= 32
    ensures var t := ContainerOf(w).Promoted();
            Operate(BitOper(And), t, t, Pow2(w) - 1, Low(y, ContainerOf(w).bits)) == Some(Low(y, w))
  {
    hide Pow2, Low, Shl, Shr, Combine, Product;
    var c := ContainerOf(w);
    var v := Low(y, c.bits);
    var t := c.Promoted();
    ContainerHolds(w, Pow2(w) - 1);
    ContainerHolds(c.bits, v);
    FitsBits(t, Pow2(w) - 1);
    FitsBits(t, v);
    AndOnes(w, v);
    LowLow(y, c.bits, w);
    ContainerHolds(w, Low(y, w));
    WrapFits(t, Low(y, w));
  }

  lemma {:induction false} TruncatedUndefined(w: nat, x: CExpr, n: nat, env: Temps, rho: Inputs)
    requires Fresh(env, n) && 1 <= w <= 32
    requires Eval(x, MaskEnv(w, n, env), rho) == None
    ensures Undefined(Truncated(w, x, n), env, rho)
  {
    hide Pow2, Low, Shl, Shr, Combine, Product;
    var c := ContainerOf(w);
    ContainerHolds(w, Pow2(w) - 1);
    var m2, m3 := TempName(Casted, n + 3), TempName(Masked, n + 2);
    ExecThree(Decl(c, TempName(Bitmask(w), n + 1), Num(Pow2(w) - 1, Hex)), Decl(c, m2, Cast(c, x)),
              Decl(c, m3, Cast(c, Temp(m2, c))), env, rho);
  }

  // ---------------------------------------------------------------- unary operators

  lemma {:induction false} CastBitsYields(w: nat, t: Ty, x: CExpr, n: nat, env: Temps, rho: Inputs, a: nat, d: bool)
    requires UnOk(CastBits(w), t) && t.Has(a) && (d ==> t == BitTy(32))
    requires Fresh(env, n) && Eval(x, env, rho) == Some(Minus32(a, d))
    ensures Yields(FormatUn(CastBits(w), t, x, n), n, env, rho, Minus32(UnValue(CastBits(w), t, a), t.w <= w && d))
  {
    hide Pow2, Low, Shl, Shr, Combine, Product, Operate, NumRank;
    if t.w > w {
      hide Yields, Eval, Exec, Truncated;
      LowMinus32(a, d, w);
      TruncatedYields(w, x, n, env, rho, Minus32(a, d));
    } else {
      Pow2Mono(t.w, w);
      LowSmall(a, w);
    }
  }

  lemma {:induction false} BoolOpYields(op: UnOp, t: Ty, x: CExpr, n: nat, env: Temps, rho: Inputs, a: nat)
    requires op.LNot? || op.CastToBool? || op.CastToBit?
    requires UnOk(op, t) && t.Has(a)
    requires Fresh(env, n) && Eval(x, env, rho) == Some(a)
    ensures Yields(FormatUn(op, t, x, n), n, env, rho, UnValue(op, t, a))
  {
    if op.CastToBit? {
      CondYields(x, env, rho, a);
    }
  }

  lemma {:induction false} CondYields(x: CExpr, env: Temps, rho: Inputs, a: nat)
    requires a < 2 && Eval(x, env, rho) == Some(a)
    ensures Eval(Cond(x, Num(1, Dec), Num(0, Dec)), env, rho) == Some(a)
  {
    hide Pow2, Low;
    BoolFits(a == 1);
    WrapFits(INT, a);
  }

  /** Masked operators and truncating casts give the P4 value, however large or negative the operand. */
  lemma {:induction false} UnYields(op: UnOp, t: Ty, x: CExpr, n: nat, env: Temps, rho: Inputs, a: nat, d: bool)
    requires UnOk(op, t) && t.Has(a) && (d ==> t == BitTy(32))
    requires Fresh(env, n) && Eval(x, env, rho) == Some(Minus32(a, d))
    ensures Yields(FormatUn(op, t, x, n), n, env, rho,
                   Minus32(UnValue(op, t, a), op.CastBits? && t.Width() <= op.w && d))
  {
    hide Pow2, Low, Yields, Eval, Exec, Fresh, RankOf, Truncated;
    match op {
      case Neg => NegYields(t.w, x, n, env, rho, a, Minus32(a, d)) by { LowMinus32(a, d, t.w); }
      case Cmpl => CmplYields(t.w, x, n, env, rho, a, Minus32(a, d)) by { LowMinus32(a, d, t.w); }
      case CastBits(w) => CastBitsYields(w, t, x, n, env, rho, a, d);
      case _ => BoolOpYields(op, t, x, n, env, rho, a);
    }
  }

  /** The low bits of `2^w - x`. */
  lemma {:induction false} FromPowerLow(w: nat, x: CExpr, env: Temps, rho: Inputs, a: int, y: int)
    requires 1 <= w <= 32 && Low(y, w) == Low(a, w) && Eval(x, env, rho) == Some(y)
    ensures var r := Eval(Oper(Minus, Num(Pow2(w), Dec), x), env, rho);
            r.Some? && Low(r.value, w) == Low(0 - a, w)
  {
    hide Pow2, Low, RankOf, NumRank;
    var t := Common(RankOf(Num(Pow2(w), Dec)), RankOf(x));
    LowOfWrap(t, Pow2(w), w);
    LowOfWrap(t, y, w);
    LowSub(t.Wrap(Pow2(w)), Pow2(w), t.Wrap(y), a, w);
    LowOfWrap(t, t.Wrap(Pow2(w)) - t.Wrap(y), w);
    LowPlus(0 - a, w, w);
    assert 0 - a + Pow2(w) == Pow2(w) - a;
  }

  lemma {:induction false} NegYields(w: nat, x: CExpr, n: nat, env: Temps, rho: Inputs, a: int, y: int)
    requires 1 <= w <= 32 && Low(y, w) == Low(a, w)
    requires Fresh(env, n) && Eval(x, env, rho) == Some(y)
    ensures Yields(Truncated(w, Oper(Minus, Num(Pow2(w), Dec), x), n), n, env, rho, Low(0 - a, w))
  {
    hide Pow2, Low, Eval, Yields, Truncated;
    var e := Oper(Minus, Num(Pow2(w), Dec), x);
    FromPowerLow(w, x, env, rho, a, y);
    TruncatedYields(w, e, n, env, rho, Eval(e, env, rho).value);
  }

  lemma {:induction false} CmplYields(w: nat, x: CExpr, n: nat, env: Temps, rho: Inputs, a: int, y: int)
    requires 1 <= w <= 32 && Low(y, w) == Low(a, w)
    requires Fresh(env, n) && Eval(x, env, rho) == Some(y)
    ensures Yields(Truncated(w, BitNot(x), n), n, env, rho, Low(0 - 1 - a, w))
  {
    hide Pow2, Low;
    LowOfWrap(RankOf(x), 0 - 1 - y, w);
    LowNot(y, a, w);
    TruncatedYields(w, BitNot(x), n, env, rho, RankOf(x).Wrap(0 - 1 - y));
  }

  // ---------------------------------------------------------------- binary operators

  lemma {:induction false} SubYields(w: nat, x: CExpr, y: CExpr, n: nat, env: Temps, rho: Inputs, a: int, b: int,
                                     u: int, v: int)
    requires 1 <= w <= 32 && Low(u, w) == Low(a, w) && Low(v, w) == Low(b, w)
    requires Fresh(env, n) && Eval(x, env, rho) == Some(u) && Eval(y, env, rho) == Some(v)
    ensures Yields(Truncated(w, Oper(Plus, x, Oper(Minus, Num(Pow2(w), Dec), y)), n), n, env, rho, Low(a - b, w))
  {
    hide Pow2, Low, RankOf, Yields, Truncated;
    var d := Oper(Minus, Num(Pow2(w), Dec), y);
    FromPowerLow(w, y, env, rho, b, v);
    var z := Eval(d, env, rho).value;
    SumLow(Common(RankOf(x), RankOf(d)), u, a, z, 0 - b, w);
    assert a + (0 - b) == a - b;
    var t := Common(RankOf(x), RankOf(d));
    assert Eval(Oper(Plus, x, d), env, rho) == Some(t.Wrap(t.Wrap(u) + t.Wrap(z)));
    TruncatedYields(w, Oper(Plus, x, d), n, env, rho, t.Wrap(t.Wrap(u) + t.Wrap(z)));
  }

  /** Sums and products wrap around above the low bits. */
  lemma {:induction false} SumLow(t: Rank, u: int, a: int, v: int, b: int, w: nat)
    requires w <= t.bits && Low(u, w) == Low(a, w) && Low(v, w) == Low(b, w)
    ensures Low(t.Wrap(t.Wrap(u) + t.Wrap(v)), w) == Low(a + b, w)
  {
    hide *;
    LowOfWrap(t, u, w);
    LowOfWrap(t, v, w);
    LowOfWrap(t, t.Wrap(u) + t.Wrap(v), w);
    LowAdd(t.Wrap(u), a, t.Wrap(v), b, w);
  }

  lemma {:induction false} ProductLow(t: Rank, u: int, a: int, v: int, b: int, w: nat)
    requires w <= t.bits && Low(u, w) == Low(a, w) && Low(v, w) == Low(b, w)
    ensures Low(t.Wrap(Product(t.Wrap(u), t.Wrap(v))), w) == Low(Product(a, b), w)
  {
    hide *;
    LowOfWrap(t, u, w);
    LowOfWrap(t, v, w);
    LowOfWrap(t, Product(t.Wrap(u), t.Wrap(v)), w);
    LowProduct(t.Wrap(u), a, t.Wrap(v), b, w);
  }

  /** The cast of the left operand restores its P4 value. */
  lemma {:induction false} CastHolds(w: nat, x: CExpr, env: Temps, rho: Inputs, a: nat, d: bool)
    requires 1 <= w <= 32 && a < Pow2(w) && (d ==> w == 32) && Eval(x, env, rho) == Some(Minus32(a, d))
    ensures var l := Cast(ContainerOf(w), x);
            RankOf(l) == ContainerOf(w).Promoted() && RankOf(l).Fits(a) && Eval(l, env, rho) == Some(a)
  {
    hide Pow2, Low;
    ContainerHolds(w, a);
    if d { LowMinus32(a, d, 32); }
  }

  /** A shift by 32 or more, or by a dropped and thus negative count. */
  predicate BadShift(op: BinOp, count: nat, dropped: bool) {
    (op.ShiftLeft? || op.ShiftRight?) && (count >= 32 || dropped)
  }

  /** What the C operator of a complex operation computes on its operands, up to the mask. */
  lemma {:induction false} ComplexValue(op: BinOp, tl: Ty, tr: Ty, rl: Rank, rr: Rank, a: nat, b: nat, d: bool)
    requires IsComplex(op) && BinOk(op, tl, tr) && tl.Has(a) && tr.Has(b) && (d ==> tr == BitTy(32))
    requires rl == ContainerOf(tl.w).Promoted() && rl.Fits(a) && rr.bits >= 32
    ensures var r := Operate(COpOf(op), rl, rr, a, Minus32(b, d));
            if BadShift(op, b, d) then r == None
            else r.Some? && Low(r.value, tl.w) == BinValue(op, tl, tr, a, b)
  {
    hide Pow2, Low, Shl, Shr, Product;
    var t := Common(rl, rr);
    FitsBits(rl, a);
    match op {
      case Add =>
        LowMinus32(b, d, tl.w);
        SumLow(t, a, a, Minus32(b, d), b, tl.w);
      case Mul =>
        LowMinus32(b, d, tl.w);
        ProductLow(t, a, a, Minus32(b, d), b, tl.w);
      case ShiftLeft =>
        Pow2Is(32);
        LowOfWrap(rl, Shl(a, b), tl.w);
      case ShiftRight =>
        Pow2Is(32);
        LowSmall(Shr(a, b), tl.w);
    }
  }

  /** The left operand is cast, the result masked: the P4 value, or undefined. */
  lemma {:induction false} ArithYields(op: BinOp, tl: Ty, tr: Ty, x: CExpr, y: CExpr, n: nat, env: Temps,
                                       rho: Inputs, a: nat, b: nat, dl: bool, dr: bool)
    requires IsComplex(op) && BinOk(op, tl, tr) && tl.Has(a) && tr.Has(b)
    requires (dl ==> tl == BitTy(32)) && (dr ==> tr == BitTy(32))
    requires Fresh(env, n) && Eval(x, env, rho) == Some(Minus32(a, dl)) && Eval(y, env, rho) == Some(Minus32(b, dr))
    ensures var c := FormatArith(op, tl, x, y, n);
            if BadShift(op, b, dr) then Undefined(c, env, rho)
            else Yields(c, n, env, rho, BinValue(op, tl, tr, a, b))
  {
    hide Pow2, Low, Shl, Shr, Product, RankOf, Operate, BinValue;
    var w := tl.w;
    var l := Cast(ContainerOf(w), x);
    var e := Oper(COpOf(op), l, y);
    CastHolds(w, x, env, rho, a, dl);
    ComplexValue(op, tl, tr, RankOf(l), RankOf(y), a, b, dr);
    if BadShift(op, b, dr) {
      var env' := MaskEnv(w, n, env);
      EvalExtends(l, env, env', rho);
      EvalExtends(y, env, env', rho);
      TruncatedUndefined(w, e, n, env, rho);
    } else {
      TruncatedYields(w, e, n, env, rho, Operate(COpOf(op), RankOf(l), RankOf(y), a, Minus32(b, dr)).value);
    }
  }

  /** A concatenation joins its operands, converted to their common type. */
  lemma {:induction false} ConcatYields(x: CExpr, y: CExpr, m: nat, env: Temps, rho: Inputs, a: nat, b: nat)
    requires b < Pow2(m) && m < 32 && RankOf(x).Fits(a) && RankOf(y).Fits(b) && Shl(a, m) + b < TWO32
    requires Known(RankOf(x)) && Known(RankOf(y)) && RankOf(x).bits == RankOf(y).bits == 32
    requires Eval(x, env, rho) == Some(a) && Eval(y, env, rho) == Some(b)
    ensures var v := Shl(a, m) + b;
            Eval(Oper(BitOper(Or), Oper(ShiftL, x, Num(m, Dec)), y), env, rho)
              == Some(Minus32(v, Common(RankOf(x), RankOf(y)) == INT && v >= TWO31))
  {
    hide Pow2, Low, Shl, Combine, RankOf;
    var rx, ry := RankOf(x), RankOf(y);
    var t := Common(rx, ry);
    var s := Oper(ShiftL, x, Num(m, Dec));
    RankOfOper(ShiftL, x, Num(m, Dec));
    FitsBits(rx, a);
    FitsCommon(ry, rx, b);
    FitsBits(t, b);
    assert Eval(s, env, rho) == Some(rx.Wrap(Shl(a, m)));
    // converted to the unsigned pattern, the possibly negative shift result is the shifted value again
    LowOfWrap(rx, Shl(a, m), 32);
    Pow2Is(32);
    LowSmall(Shl(a, m), 32);
    OrIsJoin(a, m, b);
    WrapPattern(t, Shl(a, m) + b);
  }

  /** A comparison compares what conversion to the common type makes of its operands. */
  lemma {:induction false} CompareYields(cop: CmpOp, x: CExpr, y: CExpr, env: Temps, rho: Inputs, a: nat, b: nat,
                                         dl: bool, dr: bool)
    requires Known(RankOf(x)) && Known(RankOf(y)) && Held(RankOf(x), a, dl) && Held(RankOf(y), b, dr)
    requires Eval(x, env, rho) == Some(Minus32(a, dl)) && Eval(y, env, rho) == Some(Minus32(b, dr))
    ensures var t := Common(RankOf(x), RankOf(y));
            Eval(Oper(Rel(cop), x, y), env, rho)
              == Some(FromBool(Compares(cop, Minus32(a, dl && t.signed), Minus32(b, dr && t.signed))))
  {
    hide Pow2, Low, RankOf;
    ConvertHeld(RankOf(x), RankOf(y), a, dl);
    ConvertHeld(RankOf(y), RankOf(x), b, dr);
  }

  /** Bitwise operators need no mask: the bits are right, and `DroppedBits` says what the type makes of them. */
  lemma {:induction false} BitwiseYields(bop: BitOp, x: CExpr, y: CExpr, env: Temps, rho: Inputs, a: nat, b: nat,
                                         dl: bool, dr: bool)
    requires Known(RankOf(x)) && Known(RankOf(y)) && Held(RankOf(x), a, dl) && Held(RankOf(y), b, dr)
    requires a < TWO32 && b < TWO32
    requires Eval(x, env, rho) == Some(Minus32(a, dl)) && Eval(y, env, rho) == Some(Minus32(b, dr))
    ensures var v := Combine(bop, a, b);
            Eval(Oper(BitOper(bop), x, y), env, rho)
              == Some(Minus32(v, DroppedBits(Common(RankOf(x), RankOf(y)), bop, v, dl, dr)))
  {
    hide Pow2, Low, Combine, RankOf, DroppedBits, Held;
    BitsOfHeld(bop, RankOf(x), RankOf(y), a, b, dl, dr);
  }

  lemma {:induction false} LogicYields(op: BinOp, tl: Ty, tr: Ty, x: CExpr, y: CExpr, n: nat, env: Temps,
                                       rho: Inputs, a: nat, b: nat)
    requires op.LAnd? || op.LOr?
    requires BinOk(op, tl, tr) && tl.Has(a) && tr.Has(b)
    requires Fresh(env, n) && Eval(x, env, rho) == Some(a) && Eval(y, env, rho) == Some(b)
    ensures Yields(FormatSimple(op, tl, tr, x, y, n), n, env, rho, BinValue(op, tl, tr, a, b))
  {
    hide Pow2, Low, Shl, Combine, RankOf;
  }

  lemma {:induction false} JoinYields(tl: Ty, tr: Ty, x: CExpr, y: CExpr, env: Temps, rho: Inputs, a: nat, b: nat)
    requires BinOk(Concat, tl, tr) && tl.Has(a) && tr.Has(b) && RankOf(x).Fits(a) && RankOf(y).Fits(b)
    requires Known(RankOf(x)) && Known(RankOf(y)) && RankOf(x).bits == RankOf(y).bits == 32
    requires Eval(x, env, rho) == Some(a) && Eval(y, env, rho) == Some(b)
    ensures var v := BinValue(Concat, tl, tr, a, b);
            Eval(FormatSimple(Concat, tl, tr, x, y, 0).expr, env, rho)
              == Some(Minus32(v, Common(RankOf(x), RankOf(y)) == INT && v >= TWO31))
  {
    hide Pow2, Low, Shl, Combine, RankOf, Eval;
    BinStaysInType(Concat, tl, tr, a, b);
    BitTyRange(tl.w + tr.w, Shl(a, tr.w) + b);
    ConcatYields(x, y, tr.w, env, rho, a, b);
  }

  /** An expression that needs no statement. */
  lemma {:induction false} YieldsAtOnce(x: CExpr, n: nat, env: Temps, rho: Inputs, v: int)
    requires Fresh(env, n) && Eval(x, env, rho) == Some(v)
    ensures Yields(Code([], x, n), n, env, rho, v)
  {
    hide Eval;
  }

  /** What is known of the operands of a binary operator. */
  ghost predicate Operands(op: BinOp, tl: Ty, tr: Ty, x: CExpr, y: CExpr, a: nat, b: nat, dl: bool, dr: bool) {
    && BinOk(op, tl, tr) && tl.Has(a) && tr.Has(b) && Known(RankOf(x)) && Known(RankOf(y))
    && Held(RankOf(x), a, dl) && (dl ==> tl == BitTy(32)) && Held(RankOf(y), b, dr) && (dr ==> tr == BitTy(32))
    && (op.Concat? ==> RankOf(x).bits == RankOf(y).bits == 32)
  }

  lemma {:induction false} SimpleYields(op: BinOp, tl: Ty, tr: Ty, x: CExpr, y: CExpr, n: nat, env: Temps,
                                        rho: Inputs, a: nat, b: nat, dl: bool, dr: bool)
    requires !IsComplex(op) && Operands(op, tl, tr, x, y, a, b, dl, dr)
    requires op.Compare? ==> CompareAgrees(op.cop, Common(RankOf(x), RankOf(y)), dl, dr, a, b)
    requires Fresh(env, n) && Eval(x, env, rho) == Some(Minus32(a, dl)) && Eval(y, env, rho) == Some(Minus32(b, dr))
    ensures var v := BinValue(op, tl, tr, a, b);
            var d := DroppedBy(op, Common(RankOf(x), RankOf(y)), v, dl, dr);
            Yields(FormatSimple(op, tl, tr, x, y, n), n, env, rho, Minus32(v, d))
  {
    hide Pow2, Low, Shl, Combine, RankOf, Eval, Yields, Fresh, Known, Held, CompareAgrees, Compares, Truncated;
    match op {
      case Sub =>
        LowMinus32(a, dl, tl.w);
        LowMinus32(b, dr, tl.w);
        SubYields(tl.w, x, y, n, env, rho, a, b, Minus32(a, dl), Minus32(b, dr));
      case Bitwise(bop) =>
        BitTyRange(tl.w, a);
        BitTyRange(tr.w, b);
        BitwiseYields(bop, x, y, env, rho, a, b, dl, dr);
        var v := Combine(bop, a, b);
        YieldsAtOnce(FormatSimple(op, tl, tr, x, y, n).expr, n, env, rho,
                     Minus32(v, DroppedBits(Common(RankOf(x), RankOf(y)), bop, v, dl, dr)));
      case Compare(cop) =>
        ComparedRange(cop, tl, a);
        ComparedRange(cop, tl, b);
        CompareYields(cop, x, y, env, rho, a, b, dl, dr);
        CompareExactly(cop, Common(RankOf(x), RankOf(y)), dl, dr, a, b);
        YieldsAtOnce(Oper(Rel(cop), x, y), n, env, rho, FromBool(Compares(cop, a, b)));
      case LAnd => LogicYields(op, tl, tr, x, y, n, env, rho, a, b);
      case LOr => LogicYields(op, tl, tr, x, y, n, env, rho, a, b);
      case Concat =>
        HeldFits(RankOf(x), a);
        HeldFits(RankOf(y), b);
        JoinYields(tl, tr, x, y, env, rho, a, b);
        var v := BinValue(op, tl, tr, a, b);
        YieldsAtOnce(FormatSimple(op, tl, tr, x, y, n).expr, n, env, rho,
                     Minus32(v, Common(RankOf(x), RankOf(y)) == INT && v >= TWO31));
    }
  }

  lemma {:induction false} HeldFits(r: Rank, a: nat)
    requires Held(r, a, false)
    ensures r.Fits(a)
  {
  }

  lemma {:induction false} ComparedRange(cop: CmpOp, t: Ty, a: nat)
    requires t.IsBits() || t.BoolTy?
    requires t.Has(a)
    ensures a < TWO32
  {
    hide Pow2;
    if t.IsBits() { BitTyRange(t.w, a); }
  }
}
