/** The expression compiler is correct: after the hoisted statements have run, the returned C expression
    has the P4 value of the tree, up to the sign that `ExprValues` describes; and what a compiled field
    assignment hands over to the field. */
module ExprCorrect {
  import opened Options
  import opened Bits
  import opened P4Expr
  import opened CLang
  import opened Names
  import opened Words
  import opened ExprCompiler
  import opened ExprValues
  import opened ExprOps

  // ---------------------------------------------------------------- whole trees

  /** Two pieces of code in a row: both run, and the first expression keeps its value. */
  lemma {:induction false} YieldsBoth(c: Code, d: Code, n: nat, env: Temps, rho: Inputs, a: int, b: int)
    requires Yields(c, n, env, rho, a)
    requires Yields(d, c.next, Exec(c.pre, env, rho).value, rho, b)
    ensures var r := Exec(c.pre + d.pre, env, rho);
            && r.Some? && Grows(env, r.value, n) && Fresh(r.value, d.next)
            && Eval(c.expr, r.value, rho) == Some(a) && Eval(d.expr, r.value, rho) == Some(b)
  {
    hide Pow2, Low;
    ExecAppend(c.pre, d.pre, env, rho);
    var mid := Exec(c.pre, env, rho).value;
    EvalExtends(c.expr, mid, Exec(d.pre, mid, rho).value, rho);
  }

  /** The outcome of compiled code: the C value of the tree, or undefined behaviour exactly when some shift
      in it is by 32 or more. */
  ghost predicate Correct(e: Expr, c: Code, n: nat, env: Temps, rho: Inputs) {
    if ShiftsBelow32(e, rho) then Yields(c, n, env, rho, CValue(e, rho)) else Undefined(c, env, rho)
  }

  /** The C value has the 32 low bits of the P4 value, and is the P4 value unless it is negative. */
  lemma {:induction false} CValueRight(e: Expr, rho: Inputs)
    requires WellTyped(e) && InRange(e, rho)
    ensures Low(CValue(e, rho), 32) == Low(Value(e, rho), 32)
    ensures CValue(e, rho) == Value(e, rho) <==> CValue(e, rho) >= 0
    ensures CValue(e, rho) != Value(e, rho) ==> TypeOf(e) == BitTy(32) && CRank(e).signed
  {
    hide Pow2, Low, Value, Dropped, CRank;
    LowMinus32(Value(e, rho), Dropped(e, rho), 32);
    ValueHeld(e, rho);
  }

  lemma {:induction false} CValueNotDropped(e: Expr, rho: Inputs)
    ensures CValue(e, rho) == Value(e, rho) <==> !Dropped(e, rho)
  {
    hide Value, Dropped;
  }

  lemma {:induction false} TreeCorrect(e: Expr, n: nat, env: Temps, rho: Inputs)
    requires WellTyped(e) && InRange(e, rho) && Agrees(e, rho) && Fresh(env, n)
    ensures Correct(e, Format(e, n), n, env, rho)
    decreases e, 3
  {
    hide Correct;
    match e {
      case Unary(op, a) =>
        TreeCorrect(a, n, env, rho);
        UnaryCorrect(op, a, n, env, rho);
      case Binary(_, _, _) => BinaryCorrect(e, n, env, rho);
      case Mux(_, _, _) => MuxCorrect(e, n, env, rho);
      case _ => LeafCorrect(e, n, env, rho);
    }
  }

  lemma {:induction false} LeafCorrect(e: Expr, n: nat, env: Temps, rho: Inputs)
    requires !e.Unary? && !e.Binary? && !e.Mux?
    requires WellTyped(e) && InRange(e, rho) && Fresh(env, n)
    ensures Correct(e, Format(e, n), n, env, rho)
  {
    hide Pow2, Low;
    match e {
      case Local(_, id, w) => ContainerHolds(w, rho.local(id));
      case Field(id, w) =>
        Pow2Mono(w, 32);
        LowSmall(rho.field(id), 32);
        ExecOne(DebugCheck(id), env, rho);
      case _ =>
    }
  }

  lemma {:induction false} UnaryCorrect(op: UnOp, a: Expr, n: nat, env: Temps, rho: Inputs)
    requires var e := Unary(op, a); WellTyped(e) && InRange(e, rho) && Fresh(env, n)
    requires Correct(a, Format(a, n), n, env, rho)
    ensures Correct(Unary(op, a), Format(Unary(op, a), n), n, env, rho)
  {
    hide Pow2, Low, RankOf, CRank, FormatUn, UnValue;
    var c := Format(a, n);
    if ShiftsBelow32(a, rho) {
      ValueInType(a, rho);
      ValueHeld(a, rho);
      var env1 := Exec(c.pre, env, rho).value;
      UnYields(op, TypeOf(a), c.expr, c.next, env1, rho, Value(a, rho), Dropped(a, rho));
      YieldsAfter(c.pre, FormatUn(op, TypeOf(a), c.expr, c.next), n, c.next, env, env1, rho, CValue(Unary(op, a), rho));
    } else {
      UndefinedAfter(c.pre, FormatUn(op, TypeOf(a), c.expr, c.next), env, rho);
    }
  }

  /** Both operands `l` and `r` of `root`, formatted one after the other. */
  ghost predicate BothCorrect(l: Expr, r: Expr, n: nat, env: Temps, rho: Inputs) {
    var cl := Format(l, n);
    var cr := Format(r, cl.next);
    var after := Exec(cl.pre + cr.pre, env, rho);
    if ShiftsBelow32(l, rho) && ShiftsBelow32(r, rho) then
      && n <= cl.next <= cr.next && after.Some? && Grows(env, after.value, n) && Fresh(after.value, cr.next)
      && Eval(cl.expr, after.value, rho) == Some(CValue(l, rho))
      && Eval(cr.expr, after.value, rho) == Some(CValue(r, rho))
    else after == None
  }

  lemma {:induction false} OperandsCorrect(root: Expr, l: Expr, r: Expr, n: nat, env: Temps, rho: Inputs)
    requires l < root && r < root
    requires WellTyped(l) && InRange(l, rho) && Agrees(l, rho) && WellTyped(r) && InRange(r, rho) && Agrees(r, rho)
    requires Fresh(env, n)
    ensures BothCorrect(l, r, n, env, rho)
    decreases root, 0
  {
    hide Pow2, Low, CValue, WellTyped, InRange, Agrees, ShiftsBelow32, Format, Exec, Eval;
    var cl := Format(l, n);
    var cr := Format(r, cl.next);
    TreeCorrect(l, n, env, rho);
    ExecAppend(cl.pre, cr.pre, env, rho);
    if ShiftsBelow32(l, rho) {
      TreeCorrect(r, cl.next, Exec(cl.pre, env, rho).value, rho);
      if ShiftsBelow32(r, rho) { YieldsBoth(cl, cr, n, env, rho, CValue(l, rho), CValue(r, rho)); }
    }
  }

  /** What the operands are worth, as needed to apply an operator to them. */
  lemma {:induction false} OperandFacts(e: Expr, n: nat, rho: Inputs)
    requires e.Binary? && WellTyped(e) && InRange(e, rho)
    ensures var x := Format(e.l, n).expr;
            var y := Format(e.r, Format(e.l, n).next).expr;
            && RankOf(x) == CRank(e.l) && RankOf(y) == CRank(e.r)
            && Operands(e.op, TypeOf(e.l), TypeOf(e.r), x, y, Value(e.l, rho), Value(e.r, rho),
                        Dropped(e.l, rho), Dropped(e.r, rho))
  {
    hide Pow2, Low, Format, Held, Known;
    ValueInType(e.l, rho);
    ValueInType(e.r, rho);
    ValueHeld(e.l, rho);
    ValueHeld(e.r, rho);
    RankOfFormat(e.l, n);
    RankOfFormat(e.r, Format(e.l, n).next);
    RankKnown(e.l);
    RankKnown(e.r);
    if e.op.Concat? {
      NarrowRank(e.l);
      NarrowRank(e.r);
    }
  }

  lemma {:induction false} BinaryCorrect(e: Expr, n: nat, env: Temps, rho: Inputs)
    requires e.Binary? && WellTyped(e) && InRange(e, rho) && Agrees(e, rho) && Fresh(env, n)
    ensures Correct(e, Format(e, n), n, env, rho)
    decreases e, 2
  {
    hide Pow2, Low, RankOf, CRank, BinValue, FormatSimple, FormatComplex, Exec, Eval, CompareAgrees, Held, Known,
         DroppedBits;
    if IsComplex(e.op) {
      ComplexTree(e, n, env, rho);
    } else {
      var cl := Format(e.l, n);
      var cr := Format(e.r, cl.next);
      OperandsCorrect(e, e.l, e.r, n, env, rho);
      OperandFacts(e, n, rho);
      var first := cl.pre + cr.pre;
      var after := Exec(first, env, rho);
      var c := FormatSimple(e.op, TypeOf(e.l), TypeOf(e.r), cl.expr, cr.expr, cr.next);
      if after.None? {
        UndefinedAfter(first, c, env, rho);
      } else {
        SimpleYields(e.op, TypeOf(e.l), TypeOf(e.r), cl.expr, cr.expr, cr.next, after.value, rho,
                     Value(e.l, rho), Value(e.r, rho), Dropped(e.l, rho), Dropped(e.r, rho));
        YieldsAfter(first, c, n, cr.next, env, after.value, rho, CValue(e, rho));
      }
    }
  }

  /** A complex operation on two right operands: its P4 value, or undefined if one of them is, or if it is a shift
      by 32 or more or by a dropped count. */
  ghost predicate ComplexRight(e: Expr, c: Code, n: nat, env: Temps, rho: Inputs)
    requires e.Binary?
  {
    if ShiftsBelow32(e.l, rho) && ShiftsBelow32(e.r, rho) && !BadShift(e.op, Value(e.r, rho), Dropped(e.r, rho))
    then Yields(c, n, env, rho, Value(e, rho))
    else Undefined(c, env, rho)
  }

  lemma {:induction false} ComplexTree(e: Expr, n: nat, env: Temps, rho: Inputs)
    requires e.Binary? && IsComplex(e.op) && WellTyped(e) && InRange(e, rho) && Fresh(env, n)
    requires Agrees(e.l, rho) && Agrees(e.r, rho)
    ensures ComplexRight(e, Format(e, n), n, env, rho)
    decreases e, 1, 1
  {
    hide Pow2, Low, BinValue, FormatComplex, Exec, Eval, Value, Dropped, BadShift;
    var cl := Format(e.l, n);
    var cr := Format(e.r, cl.next);
    OperandsCorrect(e, e.l, e.r, n, env, rho);
    var first := cl.pre + cr.pre;
    var after := Exec(first, env, rho);
    var c := FormatComplex(e, cr.next);
    if after.None? {
      UndefinedAfter(first, c, env, rho);
    } else {
      ComplexCorrect(e, cr.next, after.value, rho);
      if Exec(c.pre, after.value, rho).Some? {
        YieldsAfter(first, c, n, cr.next, env, after.value, rho, Value(e, rho));
      } else {
        UndefinedAfter(first, c, env, rho);
      }
    }
  }

  /** The second formatting of the operands of a complex operator, and the operator. */
  lemma {:induction false} ComplexCorrect(e: Expr, n: nat, env: Temps, rho: Inputs)
    requires e.Binary? && IsComplex(e.op) && WellTyped(e) && InRange(e, rho) && Fresh(env, n)
    requires Agrees(e.l, rho) && Agrees(e.r, rho)
    ensures ComplexRight(e, FormatComplex(e, n), n, env, rho)
    decreases e, 1, 0
  {
    hide Pow2, Low, RankOf, CRank, BinValue, FormatArith, Format, Exec, Eval, Held, Known, BadShift;
    var dl := Format(e.l, n);
    var dr := Format(e.r, dl.next);
    OperandsCorrect(e, e.l, e.r, n, env, rho);
    OperandFacts(e, n, rho);
    var first := dl.pre + dr.pre;
    var c := FormatArith(e.op, TypeOf(e.l), dl.expr, dr.expr, dr.next);
    var after := Exec(first, env, rho);
    if after.Some? {
      ArithYields(e.op, TypeOf(e.l), TypeOf(e.r), dl.expr, dr.expr, dr.next, after.value, rho,
                  Value(e.l, rho), Value(e.r, rho), Dropped(e.l, rho), Dropped(e.r, rho));
    }
    if after.None? || BadShift(e.op, Value(e.r, rho), Dropped(e.r, rho)) {
      UndefinedAfter(first, c, env, rho);
    } else {
      YieldsAfter(first, c, n, dr.next, env, after.value, rho, Value(e, rho));
    }
  }

  /** The chosen arm, converted to the common type of both. */
  lemma {:induction false} MuxYields(e: Expr, x: CExpr, y: CExpr, z: CExpr, env: Temps, rho: Inputs)
    requires e.Mux? && WellTyped(e) && InRange(e, rho) && RankOf(y) == CRank(e.l) && RankOf(z) == CRank(e.r)
    requires Eval(x, env, rho) == Some(CValue(e.c, rho))
    requires Eval(y, env, rho) == Some(CValue(e.l, rho)) && Eval(z, env, rho) == Some(CValue(e.r, rho))
    ensures Eval(Cond(x, y, z), env, rho) == Some(CValue(e, rho))
  {
    hide Pow2, Low, RankOf, CRank, Held, Known;
    ValueHeld(e.c, rho);
    ValueHeld(e.l, rho);
    ValueHeld(e.r, rho);
    RankKnown(e.l);
    RankKnown(e.r);
    ConvertHeld(CRank(e.l), CRank(e.r), Value(e.l, rho), Dropped(e.l, rho));
    ConvertHeld(CRank(e.r), CRank(e.l), Value(e.r, rho), Dropped(e.r, rho));
  }

  lemma {:induction false} MuxCorrect(e: Expr, n: nat, env: Temps, rho: Inputs)
    requires e.Mux? && WellTyped(e) && InRange(e, rho) && Agrees(e, rho) && Fresh(env, n)
    ensures Correct(e, Format(e, n), n, env, rho)
    decreases e, 2
  {
    hide Pow2, Low, RankOf, CRank, Exec, Held, Known, Eval, CValue, Value;
    var cc := Format(e.c, n);
    var cl := Format(e.l, cc.next);
    var cr := Format(e.r, cl.next);
    var arms := cl.pre + cr.pre;
    assert Format(e, n).pre == cc.pre + arms;
    ExecAppend(cc.pre, arms, env, rho);
    TreeCorrect(e.c, n, env, rho);
    if ShiftsBelow32(e.c, rho) {
      var mid := Exec(cc.pre, env, rho).value;
      OperandsCorrect(e, e.l, e.r, cc.next, mid, rho);
      if ShiftsBelow32(e, rho) {
        var after := Exec(arms, mid, rho).value;
        EvalExtends(cc.expr, mid, after, rho);
        RankOfFormat(e.l, cc.next);
        RankOfFormat(e.r, cl.next);
        MuxYields(e, cc.expr, cl.expr, cr.expr, after, rho);
      }
    }
  }

  /** The compiler is correct on every well-typed tree whose comparisons agree: from any state in which the
      counter's names are unused, the hoisted statements followed by the returned expression compute the P4
      value modulo 2^32. */
  lemma {:induction false} FormatCorrect(e: Expr, n: nat, env: Temps, rho: Inputs)
    requires WellTyped(e) && InRange(e, rho) && Agrees(e, rho) && Fresh(env, n)
    ensures Correct(e, Format(e, n), n, env, rho)
    ensures Low(CValue(e, rho), 32) == Low(Value(e, rho), 32)
    ensures ConcatsFit(e) ==> CValue(e, rho) == Value(e, rho)
  {
    hide *;
    TreeCorrect(e, n, env, rho);
    CValueRight(e, rho);
    if ConcatsFit(e) {
      ConcatsFitAgree(e, rho);
      CValueNotDropped(e, rho);
    }
  }

  /** Trees without a 32-bit concatenation of int operands have exactly their P4 value, with no condition on
      comparisons. */
  lemma {:induction false} FormatExact(e: Expr, n: nat, env: Temps, rho: Inputs)
    requires WellTyped(e) && InRange(e, rho) && ConcatsFit(e) && Fresh(env, n)
    ensures var c := Format(e, n);
            if ShiftsBelow32(e, rho) then Yields(c, n, env, rho, Value(e, rho)) else Undefined(c, env, rho)
  {
    hide Yields, Undefined, Format, Value, Low;
    ConcatsFitAgree(e, rho);
    FormatCorrect(e, n, env, rho);
  }

  // ---------------------------------------------------------------- the comparisons that are not right

  lemma {:induction false} ValueOfCompare(cop: CmpOp, l: Expr, r: Expr, rho: Inputs)
    ensures Value(Binary(Compare(cop), l, r), rho) == FromBool(Compares(cop, Value(l, rho), Value(r, rho)))
  {
  }

  /** A comparison of two right operands gives the P4 result if and only if `CompareAgrees`, and otherwise the
      opposite. */
  lemma {:induction false} ComparisonExactly(cop: CmpOp, l: Expr, r: Expr, n: nat, env: Temps, rho: Inputs)
    requires var e := Binary(Compare(cop), l, r); WellTyped(e) && InRange(e, rho) && ShiftsBelow32(e, rho)
    requires Agrees(l, rho) && Agrees(r, rho) && Fresh(env, n)
    ensures var e := Binary(Compare(cop), l, r);
            var c := Format(e, n);
            var after := Exec(c.pre, env, rho);
            var right := CompareAgrees(cop, Common(CRank(l), CRank(r)), Dropped(l, rho), Dropped(r, rho),
                                       Value(l, rho), Value(r, rho));
            && after.Some?
            && Eval(c.expr, after.value, rho) == Some(if right then Value(e, rho) else 1 - Value(e, rho))
  {
    hide Pow2, Low, Exec, Eval, RankOf, CRank, CompareAgrees, Held, Known, Compares, Minus32, Value, Dropped, Agrees;
    var e := Binary(Compare(cop), l, r);
    ValueOfCompare(cop, l, r, rho);
    var cl := Format(l, n);
    var cr := Format(r, cl.next);
    OperandsCorrect(e, l, r, n, env, rho);
    OperandFacts(e, n, rho);
    ComparedRange(cop, TypeOf(l), Value(l, rho));
    ComparedRange(cop, TypeOf(r), Value(r, rho));
    var env1 := Exec(cl.pre + cr.pre, env, rho).value;
    CompareYields(cop, cl.expr, cr.expr, env1, rho, Value(l, rho), Value(r, rho), Dropped(l, rho), Dropped(r, rho));
    CompareExactly(cop, Common(CRank(l), CRank(r)), Dropped(l, rho), Dropped(r, rho), Value(l, rho), Value(r, rho));
    assert cl.pre + cr.pre + [] == cl.pre + cr.pre;
  }

  /** Two 16-bit variables put together. */
  function TwoWords(i: nat, j: nat): Expr {
    Binary(Concat, Local(ControlLocal, i, 16), Local(ControlLocal, j, 16))
  }

  /** The first two variables are all ones, the others zero. */
  function SomeOnes(): Inputs { Inputs(id => if id < 2 then 0xFFFF else 0, _ => false, _ => 0, 0) }

  lemma {:induction false} TwoWordsValue()
    ensures WellTyped(TwoWords(0, 1)) && InRange(TwoWords(0, 1), SomeOnes()) && CRank(TwoWords(0, 1)) == INT
    ensures WellTyped(TwoWords(2, 3)) && InRange(TwoWords(2, 3), SomeOnes()) && CRank(TwoWords(2, 3)) == INT
    ensures Value(TwoWords(0, 1), SomeOnes()) == 0xFFFF_FFFF && Value(TwoWords(2, 3), SomeOnes()) == 0
    ensures Dropped(TwoWords(0, 1), SomeOnes()) && !Dropped(TwoWords(2, 3), SomeOnes())
  {
    hide Pow2, Shl, Low;
    Pow2OfBytes(2);
    assert Pow256(2) == 0x1_0000;
    ShlIsMul(0xFFFF, 16);
    ShlIsMul(0, 16);
  }

  /** What the code for `e` evaluates to when the program runs it first. */
  function Outcome(e: Expr, rho: Inputs): Option<int> {
    var c := Format(e, 0);
    var after := Exec(c.pre, map[], rho);
    if after.None? then None else Eval(c.expr, after.value, rho)
  }

  /** `(a ++ b) == 4294967295` is false in C when both words are all ones: the concatenation is the int -1, and
      the literal is a long. */
  lemma {:induction false} EqualityGoesWrong()
    ensures var e := Binary(Compare(Equ), TwoWords(0, 1), Const(0xFFFF_FFFF, 32, Dec));
            WellTyped(e) && InRange(e, SomeOnes()) && Value(e, SomeOnes()) == 1 && Outcome(e, SomeOnes()) == Some(0)
  {
    hide Pow2, Low, Exec, Eval, Shl, Format, RankOf;
    TwoWordsValue();
    Pow2Is(32);
    ComparisonExactly(Equ, TwoWords(0, 1), Const(0xFFFF_FFFF, 32, Dec), 0, map[], SomeOnes());
  }

  /** `(a ++ b) < (c ++ d)` is true in C when the first two words are all ones and the others zero. */
  lemma {:induction false} OrderGoesWrong()
    ensures var e := Binary(Compare(Lss), TwoWords(0, 1), TwoWords(2, 3));
            WellTyped(e) && InRange(e, SomeOnes()) && Value(e, SomeOnes()) == 0 && Outcome(e, SomeOnes()) == Some(1)
  {
    hide Pow2, Low, Exec, Eval, Shl, Format, RankOf;
    TwoWordsValue();
    ComparisonExactly(Lss, TwoWords(0, 1), TwoWords(2, 3), 0, map[], SomeOnes());
  }

  /** A shift of two right operands is undefined in C exactly if its count is 32 or more, or dropped: that is right
      if and only if no count below 32 is dropped. */
  lemma {:induction false} ShiftExactly(e: Expr, n: nat, env: Temps, rho: Inputs)
    requires e.Binary? && (e.op.ShiftLeft? || e.op.ShiftRight?) && WellTyped(e) && InRange(e, rho) && Fresh(env, n)
    requires Agrees(e.l, rho) && Agrees(e.r, rho) && ShiftsBelow32(e.l, rho) && ShiftsBelow32(e.r, rho)
    ensures Exec(Format(e, n).pre, env, rho) == None <==> Value(e.r, rho) >= 32 || Dropped(e.r, rho)
    ensures Correct(e, Format(e, n), n, env, rho) <==> (Dropped(e.r, rho) ==> Value(e.r, rho) >= 32)
  {
    hide Pow2, Low, Exec, Eval, Format, Agrees, InRange, WellTyped;
    ComplexTree(e, n, env, rho);
  }

  /** `x >> ((a ++ b) ^ 4294967295)` is undefined in C when both words are all ones, although it shifts by zero. */
  lemma {:induction false} ShiftGoesWrong()
    ensures var count := Binary(Bitwise(Xor), TwoWords(0, 1), Const(0xFFFF_FFFF, 32, Dec));
            var e := Binary(ShiftRight, Local(ControlLocal, 0, 16), count);
            && WellTyped(e) && InRange(e, SomeOnes())
            && Value(count, SomeOnes()) == 0 && Value(e, SomeOnes()) == 0xFFFF && Outcome(e, SomeOnes()) == None
  {
    hide Pow2, Low, Exec, Eval, Shl, Format, RankOf, Combine;
    TwoWordsValue();
    Pow2Is(32);
    XorSelf(0xFFFF_FFFF);
    var count := Binary(Bitwise(Xor), TwoWords(0, 1), Const(0xFFFF_FFFF, 32, Dec));
    assert Value(count, SomeOnes()) == 0 && Dropped(count, SomeOnes());
    ShiftExactly(Binary(ShiftRight, Local(ControlLocal, 0, 16), count), 0, map[], SomeOnes());
  }

  lemma {:induction false} XorSelf(a: nat)
    ensures Combine(Xor, a, a) == 0
    decreases a
  {
    if a > 0 { XorSelf(a / 2); }
  }

  // ---------------------------------------------------------------- field assignments

  /** The value handed over to the field: an assignment whose right-hand side goes through the expression
      compiler declares a temporary that holds the P4 value, the full one, as the declaration truncates. It is
      undefined exactly when some shift in the tree is by 32 or more. */
  lemma {:induction false} AssignmentCorrect(w: nat, e: Expr, n: nat, env: Temps, rho: Inputs)
    requires WellTyped(e) && TypeOf(e) == BitTy(w) && TypeOf(e).IsBits() && InRange(e, rho) && Agrees(e, rho)
    requires !e.Local? && Fresh(env, n)
    ensures var r := Exec(Assignment(w, e, n), env, rho);
            var target := AssignmentTarget(w, n);
            if ShiftsBelow32(e, rho) then r.Some? && target in r.value && r.value[target] == Value(e, rho)
            else r == None
  {
    hide Pow2, Low, Value, Exec, Eval, Dropped;
    var c := Format(e, n + 1);
    var last := Decl(ContainerOf(w), AssignmentTarget(w, n), c.expr);
    TreeCorrect(e, n + 1, env, rho);
    ExecAppend(c.pre, [last], env, rho);
    if ShiftsBelow32(e, rho) {
      var mid := Exec(c.pre, env, rho).value;
      ExecOne(last, mid, rho);
      ValueInType(e, rho);
      ContainerHolds(w, Value(e, rho));
      ValueHeld(e, rho);
      LowMinus32(Value(e, rho), Dropped(e, rho), 32);
    }
  }

  /** The bytes of the temporary after the copy from a variable of `w` bits with value `v`. */
  function Copied(w: nat, v: nat, unset: nat): nat {
    Overlaid(Low(unset, ContainerOf(w).bits), v, (w + 7) / 8)
  }

  lemma {:induction false} CopiedHolds(w: nat, v: nat, unset: nat)
    requires 1 <= w <= 32 && v < Pow2(w)
    ensures var x := Copied(w, v, unset);
            && x < Pow2(ContainerOf(w).bits) && Low(x, w) == v
            && (x == v <==> Shr(Low(unset, ContainerOf(w).bits), 8 * ((w + 7) / 8)) == 0)
  {
    hide Pow2, Low, Shl, Shr, Overlaid;
    var n := (w + 7) / 8;
    var k := ContainerOf(w).bits / 8;
    Pow2Mono(w, 8 * n);
    OverlaidBytes(Low(unset, 8 * k), v, n, k);
    LowLow(Copied(w, v, unset), 8 * n, w);
    LowSmall(v, w);
  }

  /** What an assignment of a bare variable leaves in the temporary. */
  function Stored(scope: Scope, w: nat, v: nat, unset: nat): nat {
    var c := ContainerOf(w);
    if scope.ControlLocal? && c.bits > 8 then Swapped(Copied(w, v, unset), c.bits / 8) else Copied(w, v, unset)
  }

  lemma {:induction false} CopyStored(scope: Scope, id: nat, w: nat, n: nat, env: Temps, rho: Inputs)
    requires Fresh(env, n)
    ensures var r := Exec(Assignment(w, Local(scope, id, w), n), env, rho);
            var target := AssignmentTarget(w, n);
            r.Some? && target in r.value && r.value[target] == Stored(scope, w, rho.local(id), rho.unset)
  {
    hide Pow2, Low, Overlaid, Swapped, Exec;
    var c, name := ContainerOf(w), AssignmentTarget(w, n);
    var first := [Uninitialised(c, name)];
    var second := [CopyBytes(name, id, (w + 7) / 8)];
    var third := if scope.ControlLocal? && c.bits > 8 then [SwapBytes(name, c.bits / 8)] else [];
    assert Assignment(w, Local(scope, id, w), n) == first + (second + third);
    ExecAppend(first, second + third, env, rho);
    ExecOne(first[0], env, rho);
    var e1 := env[name := Low(rho.unset, c.bits)];
    ExecAppend(second, third, e1, rho);
    ExecOne(second[0], e1, rho);
    var e2 := e1[name := Copied(w, rho.local(id), rho.unset)];
    if third != [] { ExecOne(third[0], e2, rho); } else { ExecNothing(e2, rho); }
  }

  lemma {:induction false} ExecNothing(env: Temps, rho: Inputs)
    ensures Exec([], env, rho) == Some(env)
  {
  }

  /** An action parameter reaches the field, whose accessor stores the low `w` bits. The temporary as a whole
      has its value if and only if the bytes that are not copied happen to be zero; there are some only for
      widths from 17 to 24. */
  lemma {:induction false} ParameterStored(w: nat, v: nat, unset: nat)
    requires 1 <= w <= 32 && v < Pow2(w)
    ensures Low(Stored(Parameter, w, v, unset), w) == v
    ensures Stored(Parameter, w, v, unset) == v
       <==> !(17 <= w <= 24) || Shr(Low(unset, 32), 24) == 0
  {
    hide Pow2, Low, Shl, Shr, Overlaid;
    CopiedHolds(w, v, unset);
    var n, k := (w + 7) / 8, ContainerOf(w).bits / 8;
    if n == k { ShrSmall(Low(unset, 8 * k), 8 * k); }
  }

  lemma {:induction false} ShrSmall(x: nat, n: nat)
    requires x < Pow2(n)
    ensures Shr(x, n) == 0
  {
    if n > 0 { ShrSmall(x / 2, n - 1); }
  }

  /** A variable of the control block wider than 8 bits reaches the field with its bytes in opposite order: right
      if and only if the copied bytes read the same in both directions. */
  lemma {:induction false} ControlLocalStored(w: nat, v: nat, unset: nat)
    requires 1 <= w <= 32 && v < Pow2(w)
    ensures Low(Stored(ControlLocal, w, v, unset), w) == v
       <==> w <= 8 || Mirrored(Copied(w, v, unset), ContainerOf(w).bits / 8)
  {
    hide Pow2, Low, Shl, Shr, Overlaid, Swapped, Mirrored, Copied;
    CopiedHolds(w, v, unset);
    if w > 8 {
      var x, k := Copied(w, v, unset), ContainerOf(w).bits / 8;
      SwappedExactly(x, k);
      if Low(Swapped(x, k), w) == v { LowNarrow(Swapped(x, k), x, w, 4 * k); }
    }
  }

  /** A 16-bit variable of the control block that holds 0x0102 reaches the field as 0x0201. */
  lemma {:induction false} LocalGoesWrong(rho: Inputs)
    requires rho.local(0) == 0x0102
    ensures var r := Exec(Assignment(16, Local(ControlLocal, 0, 16), 0), map[], rho);
            var target := AssignmentTarget(16, 0);
            r.Some? && target in r.value && r.value[target] == 0x0201
  {
    hide Pow2, Low, Shl, Shr, Overlaid, Swapped, ByteOf, Exec;
    CopyStored(ControlLocal, 0, 16, 0, map[], rho);
    Pow2OfBytes(2);
    assert Pow256(2) == 0x1_0000;
    CopiedHolds(16, 0x0102, rho.unset);
    ShrSmall(Low(rho.unset, 16), 16);
    Swap16Of(0x0102);
  }

  lemma {:induction false} Swap16Of(x: nat)
    ensures Swapped(x, 2) == 256 * (x % 256) + x / 256 % 256
  {
    hide ByteOf;
    SwapIsArithmetic(x);
    ByteOfIsDiv(x);
  }
}
