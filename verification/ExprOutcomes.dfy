/** What the code compiled for each operator computes from header fields, in the usual arithmetic: the
    correctness theorem without the functions it is stated with. */
module ExprOutcomes {
  import opened Options
  import opened Bits
  import opened P4Expr
  import opened CLang
  import opened Names
  import opened ExprCompiler
  import opened ExprValues
  import opened ExprOps
  import opened ExprCorrect
  import F = Fields
  import opened Memory

  /** A program that starts with the code of `e` gets the value `Value(e, rho)`, or none if a shift is too far. */
  lemma {:induction false} OutcomeIsValue(e: Expr, rho: Inputs)
    requires WellTyped(e) && InRange(e, rho) && ConcatsFit(e)
    ensures Outcome(e, rho) == if ShiftsBelow32(e, rho) then Some(Value(e, rho)) else None
  {
    hide Format, Exec, Eval, Value, WellTyped, InRange, ConcatsFit, ShiftsBelow32;
    FormatExact(e, 0, map[], rho);
  }

  /** The fields number 0 and 1 hold `a` and `b`. */
  ghost predicate Holds(w: nat, v: nat, a: nat, b: nat, rho: Inputs) {
    1 <= w <= 32 && 1 <= v <= 32 && rho.field(0) == a < Pow2(w) && rho.field(1) == b < Pow2(v)
  }

  function Fields(op: BinOp, w: nat, v: nat): Expr { Binary(op, Field(0, w), Field(1, v)) }

  lemma {:induction false} BinaryOutcome(op: BinOp, w: nat, v: nat, a: nat, b: nat, rho: Inputs)
    requires Holds(w, v, a, b, rho) && BinOk(op, BitTy(w), BitTy(v))
    ensures Outcome(Fields(op, w, v), rho)
         == if (op.ShiftLeft? || op.ShiftRight?) && b >= 32 then None
            else Some(BinValue(op, BitTy(w), BitTy(v), a, b))
  {
    hide Outcome, BinValue, Pow2;
    OutcomeIsValue(Fields(op, w, v), rho);
  }

  /** Sums, differences and products of fields of equal width are computed modulo 2^w. */
  lemma {:induction false} Arithmetic(w: nat, a: nat, b: nat, rho: Inputs)
    requires Holds(w, w, a, b, rho)
    ensures Outcome(Fields(Add, w, w), rho) == Some((a + b) % Pow2(w))
    ensures Outcome(Fields(Sub, w, w), rho) == Some((a - b) % Pow2(w))
    ensures Outcome(Fields(Mul, w, w), rho) == Some((a * b) % Pow2(w))
  {
    hide Outcome, Pow2, Low, Product;
    BinaryOutcome(Add, w, w, a, b, rho);
    BinaryOutcome(Sub, w, w, a, b, rho);
    BinaryOutcome(Mul, w, w, a, b, rho);
    LowIsMod(a + b, w);
    LowIsMod(a - b, w);
    LowIsMod(a * b, w);
    ProductIsMul(a, b);
  }

  /** Shifts multiply and divide by powers of two; by 32 or more they are undefined in C. */
  lemma {:induction false} Shifts(w: nat, v: nat, a: nat, b: nat, rho: Inputs)
    requires Holds(w, v, a, b, rho)
    ensures Outcome(Fields(ShiftLeft, w, v), rho) == if b < 32 then Some((a * Pow2(b)) % Pow2(w)) else None
    ensures Outcome(Fields(ShiftRight, w, v), rho) == if b < 32 then Some(a / Pow2(b)) else None
  {
    hide Outcome, Pow2, Low, Shl, Shr;
    BinaryOutcome(ShiftLeft, w, v, a, b, rho);
    BinaryOutcome(ShiftRight, w, v, a, b, rho);
    ShlIsMul(a, b);
    LowIsMod(a * Pow2(b), w);
    ShrIsDiv(a, b);
  }

  /** Fields of any width are compared as unsigned numbers. */
  lemma {:induction false} Comparisons(w: nat, a: nat, b: nat, rho: Inputs)
    requires Holds(w, w, a, b, rho)
    ensures Outcome(Fields(Compare(Equ), w, w), rho) == Some(if a == b then 1 else 0)
    ensures Outcome(Fields(Compare(Neq), w, w), rho) == Some(if a == b then 0 else 1)
    ensures Outcome(Fields(Compare(Lss), w, w), rho) == Some(if a < b then 1 else 0)
    ensures Outcome(Fields(Compare(Leq), w, w), rho) == Some(if a <= b then 1 else 0)
    ensures Outcome(Fields(Compare(Grt), w, w), rho) == Some(if a > b then 1 else 0)
    ensures Outcome(Fields(Compare(Geq), w, w), rho) == Some(if a >= b then 1 else 0)
  {
    hide Outcome, Pow2;
    BinaryOutcome(Compare(Equ), w, w, a, b, rho);
    BinaryOutcome(Compare(Neq), w, w, a, b, rho);
    BinaryOutcome(Compare(Lss), w, w, a, b, rho);
    BinaryOutcome(Compare(Leq), w, w, a, b, rho);
    BinaryOutcome(Compare(Grt), w, w, a, b, rho);
    BinaryOutcome(Compare(Geq), w, w, a, b, rho);
  }

  /** And, or, exclusive or work bit by bit. */
  lemma {:induction false} Bitwises(w: nat, a: nat, b: nat, rho: Inputs, k: nat)
    requires Holds(w, w, a, b, rho)
    ensures var r := Outcome(Fields(Bitwise(And), w, w), rho);
            r.Some? && r.value >= 0 && Bit(r.value, k) == (Bit(a, k) && Bit(b, k))
    ensures var r := Outcome(Fields(Bitwise(Or), w, w), rho);
            r.Some? && r.value >= 0 && Bit(r.value, k) == (Bit(a, k) || Bit(b, k))
    ensures var r := Outcome(Fields(Bitwise(Xor), w, w), rho);
            r.Some? && r.value >= 0 && Bit(r.value, k) == (Bit(a, k) != Bit(b, k))
  {
    hide Outcome, Pow2, Combine, Bit;
    BinaryOutcome(Bitwise(And), w, w, a, b, rho);
    BinaryOutcome(Bitwise(Or), w, w, a, b, rho);
    BinaryOutcome(Bitwise(Xor), w, w, a, b, rho);
    BitOfCombine(And, a, b, k);
    BitOfCombine(Or, a, b, k);
    BitOfCombine(Xor, a, b, k);
  }

  /** Fields can be put together up to 32 bits. */
  lemma {:induction false} Concatenation(w: nat, v: nat, a: nat, b: nat, rho: Inputs)
    requires Holds(w, v, a, b, rho) && w + v <= 32
    ensures Outcome(Fields(Concat, w, v), rho) == Some(a * Pow2(v) + b)
  {
    hide Outcome, Pow2, Shl;
    BinaryOutcome(Concat, w, v, a, b, rho);
    ShlIsMul(a, v);
  }

  /** Negation and complement stay within the width; a cast keeps the low bits. */
  lemma {:induction false} Unaries(w: nat, v: nat, a: nat, rho: Inputs)
    requires Holds(w, v, a, 0, rho)
    ensures Outcome(Unary(Neg, Field(0, w)), rho) == Some((0 - a) % Pow2(w))
    ensures Outcome(Unary(Cmpl, Field(0, w)), rho) == Some(Pow2(w) - 1 - a)
    ensures Outcome(Unary(CastBits(v), Field(0, w)), rho) == Some(a % Pow2(v))
  {
    hide Outcome, Pow2, Low;
    OutcomeIsValue(Unary(Neg, Field(0, w)), rho);
    OutcomeIsValue(Unary(Cmpl, Field(0, w)), rho);
    OutcomeIsValue(Unary(CastBits(v), Field(0, w)), rho);
    LowIsMod(0 - a, w);
    LowIsMod(-1 - a, w);
    LowIsMod(a, v);
    DivUnique(-1 - a, Pow2(w), -1, Pow2(w) - 1 - a);
  }

  /** Boolean operators. */
  lemma {:induction false} Logic(rho: Inputs)
    ensures var p, q := rho.localBool(0), rho.localBool(1);
            && Outcome(Binary(LAnd, LocalBool(0), LocalBool(1)), rho) == Some(if p && q then 1 else 0)
            && Outcome(Binary(LOr, LocalBool(0), LocalBool(1)), rho) == Some(if p || q then 1 else 0)
            && Outcome(Unary(LNot, LocalBool(0)), rho) == Some(if p then 0 else 1)
            && Outcome(Unary(CastToBit, LocalBool(0)), rho) == Some(if p then 1 else 0)
  {
    hide Outcome, Pow2;
    OutcomeIsValue(Binary(LAnd, LocalBool(0), LocalBool(1)), rho);
    OutcomeIsValue(Binary(LOr, LocalBool(0), LocalBool(1)), rho);
    OutcomeIsValue(Unary(LNot, LocalBool(0)), rho);
    OutcomeIsValue(Unary(CastToBit, LocalBool(0)), rho);
  }

  /** The choice between two fields. */
  lemma {:induction false} Choice(w: nat, a: nat, b: nat, rho: Inputs)
    requires Holds(w, w, a, b, rho)
    ensures Outcome(Mux(LocalBool(0), Field(0, w), Field(1, w)), rho) == Some(if rho.localBool(0) then a else b)
  {
    hide Outcome, Pow2;
    OutcomeIsValue(Mux(LocalBool(0), Field(0, w), Field(1, w)), rho);
  }

  // ---------------------------------------------------------------- operators that nest

  function Sum(): Expr { Fields(Add, 8, 8) }
  function Pair(): Expr { Binary(Concat, Sum(), Field(1, 8)) }
  function Test(c: nat): Expr { Binary(Compare(Equ), Pair(), Const(c, 16, Hex)) }
  function Less(): Expr { Binary(Sub, Field(0, 8), Const(1, 8, Dec)) }

  ghost predicate Proper(e: Expr, rho: Inputs) {
    WellTyped(e) && InRange(e, rho) && ConcatsFit(e) && ShiftsBelow32(e, rho)
  }

  lemma {:induction false} ProperLeaf(e: Expr, rho: Inputs)
    requires match e case Field(id, w) => 1 <= w <= 32 && rho.field(id) < Pow2(w)
                     case Const(v, w, _) => 1 <= w <= 32 && v < Pow2(w)
                     case _ => false
    ensures Proper(e, rho) && TypeOf(e) == BitTy(e.w)
    ensures Value(e, rho) == if e.Field? then rho.field(e.id) else e.value
  {
    hide Pow2;
  }

  lemma {:induction false} ProperBinary(op: BinOp, l: Expr, r: Expr, rho: Inputs)
    requires Proper(l, rho) && Proper(r, rho) && BinOk(op, TypeOf(l), TypeOf(r)) && !op.ShiftLeft? && !op.ShiftRight?
    requires op.Concat? ==> TypeOf(l).Width() + TypeOf(r).Width() < 32
    ensures var e := Binary(op, l, r);
            && Proper(e, rho) && TypeOf(e) == BinTy(op, TypeOf(l), TypeOf(r))
            && Value(e, rho) == BinValue(op, TypeOf(l), TypeOf(r), Value(l, rho), Value(r, rho))
  {
    hide BinValue;
  }

  lemma {:induction false} TestValue(x: nat, y: nat, c: nat, rho: Inputs)
    requires Holds(8, 8, x, y, rho) && c < 0x1_0000
    ensures Proper(Test(c), rho) && TypeOf(Test(c)) == BoolTy
    ensures Value(Test(c), rho) == FromBool(256 * ((x + y) % 256) + y == c)
  {
    hide Pow2, Low, Shl, Proper, Value, TypeOf;
    Pow2OfBytes(1);
    Pow2OfBytes(2);
    assert Pow256(1) == 256 && Pow256(2) == 0x1_0000;
    ProperLeaf(Field(0, 8), rho);
    ProperLeaf(Field(1, 8), rho);
    ProperLeaf(Const(c, 16, Hex), rho);
    ProperBinary(Add, Field(0, 8), Field(1, 8), rho);
    ProperBinary(Concat, Sum(), Field(1, 8), rho);
    ProperBinary(Compare(Equ), Pair(), Const(c, 16, Hex), rho);
    LowIsMod(x + y, 8);
    ShlIsMul(Low(x + y, 8), 8);
  }

  lemma {:induction false} LessValue(x: nat, y: nat, rho: Inputs)
    requires Holds(8, 8, x, y, rho)
    ensures Proper(Less(), rho) && TypeOf(Less()) == BitTy(8) && Value(Less(), rho) == (x - 1) % 256
    ensures var e := Unary(Cmpl, Field(1, 8));
            Proper(e, rho) && TypeOf(e) == BitTy(8) && Value(e, rho) == 255 - y
  {
    hide Pow2, Low;
    Pow2OfBytes(1);
    assert Pow256(1) == 256;
    ProperLeaf(Field(0, 8), rho);
    ProperLeaf(Field(1, 8), rho);
    ProperLeaf(Const(1, 8, Dec), rho);
    ProperBinary(Sub, Field(0, 8), Const(1, 8, Dec), rho);
    LowIsMod(x - 1, 8);
    LowIsMod(-1 - y, 8);
  }

  /** `((x + y) ++ y) == c ? x - 1 : ~y` on fields of eight bits. */
  lemma {:induction false} Nested(x: nat, y: nat, c: nat, rho: Inputs)
    requires Holds(8, 8, x, y, rho) && c < 0x1_0000
    ensures Outcome(Mux(Test(c), Less(), Unary(Cmpl, Field(1, 8))), rho)
         == Some(if 256 * ((x + y) % 256) + y == c then (x - 1) % 256 else 255 - y)
  {
    hide Outcome, Pow2, Test, Less;
    TestValue(x, y, c, rho);
    LessValue(x, y, rho);
    var e := Mux(Test(c), Less(), Unary(Cmpl, Field(1, 8)));
    assert Proper(e, rho);
    OutcomeIsValue(e, rho);
  }

  // ---------------------------------------------------------------- from the tree to the bits in the packet

  /** An assignment to a header field: when the emitted statements have run and the accessor has written the
      temporary to the field, the field reads as the P4 value of the tree, and fields elsewhere read as before. */
  lemma {:induction false} FieldAssigned(w: nat, e: Expr, n: nat, env: Temps, rho: Inputs, mem: seq<Byte>,
                                         mem': seq<Byte>, p: nat, q: nat, u: nat)
    requires WellTyped(e) && TypeOf(e) == BitTy(w) && TypeOf(e).IsBits() && InRange(e, rho) && Agrees(e, rho)
    requires !e.Local? && Fresh(env, n) && ShiftsBelow32(e, rho)
    requires var r, target := Exec(Assignment(w, e, n), env, rho), AssignmentTarget(w, n);
             r.Some? && target in r.value ==> F.Written(mem, mem', p, w, r.value[target])
    requires q + u <= 8 * |mem| && (q + u <= p || p + w <= q)
    ensures p + w <= 8 * |mem'| && q + u <= 8 * |mem'|
    ensures F.FieldValue(mem', p, w) == Value(e, rho)
    ensures F.FieldValue(mem', q, u) == F.FieldValue(mem, q, u)
  {
    hide Pow2, Low, Value, Exec, Assignment, F.FieldValue, F.MemBit, Bit;
    AssignmentCorrect(w, e, n, env, rho);
    F.GetAfterSet(mem, mem', p, w, Value(e, rho));
    F.SetKeepsOthers(mem, mem', p, w, Value(e, rho), q, u);
    ValueInType(e, rho);
    LowSmall(Value(e, rho), w);
  }

  /** `f = f - 1` decrements a field modulo 2^w, as the forwarding programs do with the time to live. */
  lemma {:induction false} Decrement(w: nat, rho: Inputs, mem: seq<Byte>, mem': seq<Byte>, p: nat)
    requires 1 <= w <= 32 && p + w <= 8 * |mem| && rho.field(0) == F.FieldValue(mem, p, w)
    requires var e := Binary(Sub, Field(0, w), Const(1, w, Dec));
             var r, target := Exec(Assignment(w, e, 0), map[], rho), AssignmentTarget(w, 0);
             r.Some? && target in r.value ==> F.Written(mem, mem', p, w, r.value[target])
    ensures p + w <= 8 * |mem'|
    ensures F.FieldValue(mem', p, w) == (F.FieldValue(mem, p, w) - 1) % Pow2(w)
  {
    hide Pow2, Low, Exec, Assignment, F.FieldValue, F.Written;
    F.FieldBelow(mem, p, w);
    Pow2Mono(1, w);
    assert Pow2(1) == 2 by { Pow2Of1(); }
    var e := Binary(Sub, Field(0, w), Const(1, w, Dec));
    ProperLeaf(Field(0, w), rho);
    ProperLeaf(Const(1, w, Dec), rho);
    ProperBinary(Sub, Field(0, w), Const(1, w, Dec), rho);
    ConcatsFitAgree(e, rho);
    FieldAssigned(w, e, 0, map[], rho, mem, mem', p, p, 0);
    LowIsMod(F.FieldValue(mem, p, w) - 1, w);
  }

  lemma {:induction false} Pow2Of1()
    ensures Pow2(1) == 2
  {
    assert Pow2(1) == 2 * Pow2(0);
  }
}
