/** Unsigned P4_16 expression trees over `bit<w>` (w <= 32) and `bool`, and their meaning as given in
    section 8.5 of the P4_16 language specification, version 1.0.0 (operations on bit types). */
module P4Expr {
  import opened Bits

  datatype Base = Dec | Hex

  /** `InfInt` is the type of an integer literal with no width; it occurs as a shift count. */
  datatype Ty = BitTy(w: nat) | BoolTy | InfInt {
    function Width(): nat { if BitTy? then w else 0 }

    predicate IsBits() { BitTy? && 1 <= w <= 32 }

    /** The values of the type; booleans are 0 and 1. */
    predicate Has(v: nat) {
      match this
      case BitTy(w) => v < Pow2(w)
      case BoolTy => v < 2
      case InfInt => v < 0x8000_0000_0000_0000
    }
  }

  datatype CmpOp = Equ | Neq | Lss | Leq | Grt | Geq

  datatype UnOp = Neg | Cmpl | LNot | CastBits(w: nat) | CastToBool | CastToBit

  datatype BinOp = Add | Sub | Mul | ShiftLeft | ShiftRight | Bitwise(bop: BitOp) | Compare(cop: CmpOp)
                 | LAnd | LOr | Concat

  /** Where a variable is declared: in the control or parser block, or as a parameter of the action. */
  datatype Scope = ControlLocal | Parameter

  datatype Expr =
    | Const(value: nat, w: nat, base: Base)
    | IntConst(value: nat)
    | BoolLit(b: bool)
    | Local(scope: Scope, id: nat, w: nat)
    | LocalBool(id: nat)
    | Field(id: nat, w: nat)        // header field
    | Unary(uop: UnOp, e: Expr)
    | Binary(op: BinOp, l: Expr, r: Expr)
    | Mux(c: Expr, l: Expr, r: Expr)

  /** The values of variables and fields when the statement runs, and what a C variable declared without an
      initialiser happens to hold. */
  datatype Inputs = Inputs(local: nat -> nat, localBool: nat -> bool, field: nat -> nat, unset: nat)

  // ---------------------------------------------------------------- typing

  function UnTy(op: UnOp, t: Ty): Ty {
    match op
    case Neg | Cmpl => t
    case LNot | CastToBool => BoolTy
    case CastBits(w) => BitTy(w)
    case CastToBit => BitTy(1)
  }

  predicate UnOk(op: UnOp, t: Ty) {
    match op
    case Neg | Cmpl => t.IsBits()
    case CastBits(w) => t.IsBits() && 1 <= w <= 32
    case LNot | CastToBit => t == BoolTy
    case CastToBool => t == BitTy(1)
  }

  function BinTy(op: BinOp, l: Ty, r: Ty): Ty {
    match op
    case Compare(_) | LAnd | LOr => BoolTy
    case Concat => BitTy(l.Width() + r.Width())
    case _ => l
  }

  predicate BinOk(op: BinOp, l: Ty, r: Ty) {
    match op
    case Add | Sub | Mul | Bitwise(_) => l.IsBits() && l == r
    case ShiftLeft | ShiftRight => l.IsBits() && (r.IsBits() || r.InfInt?)
    case Compare(c) => l == r && (l.IsBits() || (l.BoolTy? && (c.Equ? || c.Neq?)))
    case LAnd | LOr => l == r == BoolTy
    case Concat => l.IsBits() && r.IsBits() && l.w + r.w <= 32
  }

  function TypeOf(e: Expr): Ty {
    match e
    case Const(_, w, _) => BitTy(w)
    case IntConst(_) => InfInt
    case BoolLit(_) | LocalBool(_) => BoolTy
    case Local(_, _, w) => BitTy(w)
    case Field(_, w) => BitTy(w)
    case Unary(op, a) => UnTy(op, TypeOf(a))
    case Binary(op, l, r) => BinTy(op, TypeOf(l), TypeOf(r))
    case Mux(_, l, _) => TypeOf(l)
  }

  predicate WellTyped(e: Expr) {
    match e
    case Const(v, w, _) => 1 <= w <= 32 && v < Pow2(w)
    case IntConst(v) => v < 0x8000_0000_0000_0000
    case BoolLit(_) | LocalBool(_) => true
    case Local(_, _, w) => 1 <= w <= 32
    case Field(_, w) => 1 <= w <= 32
    case Unary(op, a) => WellTyped(a) && UnOk(op, TypeOf(a))
    case Binary(op, l, r) => WellTyped(l) && WellTyped(r) && BinOk(op, TypeOf(l), TypeOf(r))
    case Mux(c, l, r) =>
      && WellTyped(c) && WellTyped(l) && WellTyped(r)
      && TypeOf(c) == BoolTy && TypeOf(l) == TypeOf(r) && (TypeOf(l).IsBits() || TypeOf(l) == BoolTy)
  }

  /** Every variable and field read by `e` holds a value of its declared width. */
  predicate InRange(e: Expr, rho: Inputs) {
    match e
    case Local(_, id, w) => rho.local(id) < Pow2(w)
    case Field(id, w) => rho.field(id) < Pow2(w)
    case Const(_, _, _) | IntConst(_) | BoolLit(_) | LocalBool(_) => true
    case Unary(_, a) => InRange(a, rho)
    case Binary(_, l, r) => InRange(l, rho) && InRange(r, rho)
    case Mux(c, l, r) => InRange(c, rho) && InRange(l, rho) && InRange(r, rho)
  }

  // ---------------------------------------------------------------- meaning

  function FromBool(b: bool): nat { if b then 1 else 0 }

  predicate Compares(op: CmpOp, a: int, b: int) {
    match op
    case Equ => a == b
    case Neq => a != b
    case Lss => a < b
    case Leq => a <= b
    case Grt => a > b
    case Geq => a >= b
  }

  function UnValue(op: UnOp, t: Ty, a: nat): nat {
    match op
    case Neg => Low(0 - a, t.Width())
    case Cmpl => Low(0 - 1 - a, t.Width())
    case LNot => FromBool(a == 0)
    case CastBits(w) => Low(a, w)
    case CastToBool | CastToBit => a
  }

  function BinValue(op: BinOp, l: Ty, r: Ty, a: nat, b: nat): nat {
    match op
    case Add => Low(a + b, l.Width())
    case Sub => Low(a - b, l.Width())
    case Mul => Low(Product(a, b), l.Width())
    case ShiftLeft => Low(Shl(a, b), l.Width())
    case ShiftRight => Shr(a, b)
    case Bitwise(bop) => Combine(bop, a, b)
    case Compare(cop) => FromBool(Compares(cop, a, b))
    case LAnd => FromBool(a != 0 && b != 0)
    case LOr => FromBool(a != 0 || b != 0)
    case Concat => Shl(a, r.Width()) + b
  }

  /** The P4 value of `e`. */
  function Value(e: Expr, rho: Inputs): nat {
    match e
    case Const(v, _, _) => v
    case IntConst(v) => v
    case BoolLit(b) => FromBool(b)
    case Local(_, id, _) => rho.local(id)
    case LocalBool(id) => FromBool(rho.localBool(id))
    case Field(id, _) => rho.field(id)
    case Unary(op, a) => UnValue(op, TypeOf(a), Value(a, rho))
    case Binary(op, l, r) => BinValue(op, TypeOf(l), TypeOf(r), Value(l, rho), Value(r, rho))
    case Mux(c, l, r) => if Value(c, rho) != 0 then Value(l, rho) else Value(r, rho)
  }

  lemma {:induction false} UnStaysInType(op: UnOp, t: Ty, a: nat)
    requires UnOk(op, t) && t.Has(a)
    ensures UnTy(op, t).Has(UnValue(op, t, a))
  {
  }

  lemma {:induction false} BinStaysInType(op: BinOp, l: Ty, r: Ty, a: nat, b: nat)
    requires BinOk(op, l, r) && l.Has(a) && r.Has(b)
    ensures BinTy(op, l, r).Has(BinValue(op, l, r, a, b))
  {
    hide Pow2, Low, Shl, Shr, Combine, Product;
    match op {
      case Bitwise(bop) => CombineBound(bop, a, b, l.w);
      case Concat => JoinBound(a, l.w, b, r.w);
      case _ =>
    }
  }

  /** No operator ever leaves the range [0, 2^w) of its type. */
  lemma {:induction false} ValueInType(e: Expr, rho: Inputs)
    requires WellTyped(e) && InRange(e, rho)
    ensures TypeOf(e).Has(Value(e, rho))
  {
    match e {
      case Unary(op, a) =>
        ValueInType(a, rho);
        UnStaysInType(op, TypeOf(a), Value(a, rho));
      case Binary(op, l, r) =>
        ValueInType(l, rho);
        ValueInType(r, rho);
        BinStaysInType(op, TypeOf(l), TypeOf(r), Value(l, rho), Value(r, rho));
      case Mux(_, l, r) =>
        ValueInType(l, rho);
        ValueInType(r, rho);
      case _ =>
    }
  }

  /** Every shift in the tree, in taken and untaken branches alike, is by less than 32. */
  predicate ShiftsBelow32(e: Expr, rho: Inputs) {
    match e
    case Unary(_, a) => ShiftsBelow32(a, rho)
    case Binary(op, l, r) =>
      && ShiftsBelow32(l, rho) && ShiftsBelow32(r, rho)
      && (op.ShiftLeft? || op.ShiftRight? ==> Value(r, rho) < 32)
    case Mux(c, l, r) => ShiftsBelow32(c, rho) && ShiftsBelow32(l, rho) && ShiftsBelow32(r, rho)
    case _ => true
  }
}
