/** The expression compiler: P4 trees to C expressions plus hoisted temporaries.

    `Format` is the specification of one call: the statements it appends to the pre-statement buffer, the
    expression it returns, and the name counter afterwards. The class below it is the compiler with its
    global buffer and counter, proved to do exactly that. */
module ExprCompiler {
  import opened Bits
  import opened P4Expr
  import opened CLang
  import opened Names

  // ---------------------------------------------------------------- what one call produces

  datatype Code = Code(pre: seq<Stmt>, expr: CExpr, next: nat) {
    function After(first: seq<Stmt>): Code { this.(pre := first + pre) }
  }

  function ContainerOf(w: nat): Container {
    if w <= 8 then Container(8) else if w <= 16 then Container(16) else Container(32)
  }

  function MaskTemp(w: nat, n: nat): CExpr { Temp(TempName(Bitmask(w), n + 1), ContainerOf(w)) }
  function MaskedTemp(w: nat, n: nat): CExpr { Temp(TempName(Masked, n + 2), ContainerOf(w)) }
  function CastTemp(w: nat, n: nat): CExpr { Temp(TempName(Casted, n + 3), ContainerOf(w)) }

  function Declare(t: CExpr, e: CExpr): Stmt
    requires t.Temp?
  {
    Decl(t.c, t.name, e)
  }

  function MaskStmts(w: nat, x: CExpr, n: nat): seq<Stmt> {
    [Declare(MaskTemp(w, n), Num(Pow2(w) - 1, Hex)),
     Declare(CastTemp(w, n), Cast(ContainerOf(w), x)),
     Declare(MaskedTemp(w, n), Cast(ContainerOf(w), CastTemp(w, n)))]
  }

  /** Truncation of `x` to `w` bits: the mask, a cast and the masked value get a temporary each. */
  function Truncated(w: nat, x: CExpr, n: nat): Code {
    Code(MaskStmts(w, x, n), Oper(BitOper(And), MaskTemp(w, n), MaskedTemp(w, n)), n + 3)
  }

  function FormatUn(op: UnOp, t: Ty, x: CExpr, n: nat): Code {
    match op
    case Neg => Truncated(t.Width(), Oper(Minus, Num(Pow2(t.Width()), Dec), x), n)
    case Cmpl => Truncated(t.Width(), BitNot(x), n)
    case LNot => Code([], Not(x), n)
    case CastBits(w) => if t.Width() > w then Truncated(w, x, n) else Code([], x, n)
    case CastToBool => Code([], x, n)
    case CastToBit => Code([], Cond(x, Num(1, Dec), Num(0, Dec)), n)
  }

  /** Operators whose operands are formatted a second time before use. */
  predicate IsComplex(op: BinOp) {
    op.Add? || op.Mul? || op.ShiftLeft? || op.ShiftRight?
  }

  function COpOf(op: BinOp): COp
    requires IsComplex(op)
  {
    match op
    case Add => Plus
    case Mul => Times
    case ShiftLeft => ShiftL
    case ShiftRight => ShiftR
  }

  function FormatArith(op: BinOp, t: Ty, x: CExpr, y: CExpr, n: nat): Code
    requires IsComplex(op)
  {
    Truncated(t.Width(), Oper(COpOf(op), Cast(ContainerOf(t.Width()), x), y), n)
  }

  function FormatSimple(op: BinOp, tl: Ty, tr: Ty, x: CExpr, y: CExpr, n: nat): Code
    requires !IsComplex(op)
  {
    match op
    case Sub => Truncated(tl.Width(), Oper(Plus, x, Oper(Minus, Num(Pow2(tl.Width()), Dec), y)), n)
    case Bitwise(bop) => Code([], Oper(BitOper(bop), x, y), n)
    case Compare(cop) => Code([], Oper(Rel(cop), x, y), n)
    case LAnd => Code([], AndAnd(x, y), n)
    case LOr => Code([], OrOr(x, y), n)
    case Concat => Code([], Oper(BitOper(Or), Oper(ShiftL, x, Num(tr.Width(), Dec)), y), n)
  }

  /** The operands of a complex operator once more, and the operation on them. */
  function FormatComplex(e: Expr, n: nat): Code
    requires e.Binary? && IsComplex(e.op)
    decreases e, 0
  {
    var dl := Format(e.l, n);
    var dr := Format(e.r, dl.next);
    FormatArith(e.op, TypeOf(e.l), dl.expr, dr.expr, dr.next).After(dl.pre + dr.pre)
  }

  function Format(e: Expr, n: nat): Code
    decreases e, 1
  {
    match e
    case Const(v, _, base) => Code([], Num(v, base), n)
    case IntConst(v) => Code([], Num(v, Dec), n)
    case BoolLit(b) => Code([], Num(FromBool(b), Dec), n)
    case Local(_, id, w) => Code([], LocalRef(id, ContainerOf(w)), n)
    case LocalBool(id) => Code([], BoolRef(id), n)
    case Field(id, _) => Code([DebugCheck(id)], GetField(id), n)
    case Unary(op, a) =>
      var c := Format(a, n);
      FormatUn(op, TypeOf(a), c.expr, c.next).After(c.pre)
    case Binary(op, l, r) =>
      var cl := Format(l, n);
      var cr := Format(r, cl.next);
      var rest := if IsComplex(op) then FormatComplex(e, cr.next)
                  else FormatSimple(op, TypeOf(l), TypeOf(r), cl.expr, cr.expr, cr.next);
      rest.After(cl.pre + cr.pre)
    case Mux(c, l, r) =>
      var cc := Format(c, n);
      var cl := Format(l, cc.next);
      var cr := Format(r, cl.next);
      Code(cc.pre + cl.pre + cr.pre, Cond(cc.expr, cl.expr, cr.expr), cr.next)
  }

  function AssignmentTarget(w: nat, n: nat): TempName {
    TempName(FieldValue(ContainerOf(w).bits), n + 1)
  }

  /** The code of an assignment of `e` to a header field of `w` bits, up to the call that stores it: the
      hoisted statements and the declaration of the value to store. A bare variable is not formatted as an
      expression but copied byte by byte, and one that belongs to the control block is converted to network
      order. */
  function Assignment(w: nat, e: Expr, n: nat): seq<Stmt> {
    var c, name := ContainerOf(w), AssignmentTarget(w, n);
    if e.Local? then
      [Uninitialised(c, name), CopyBytes(name, e.id, (w + 7) / 8)]
      + if e.scope.ControlLocal? && c.bits > 8 then [SwapBytes(name, c.bits / 8)] else []
    else
      var code := Format(e, n + 1);
      code.pre + [Decl(c, name, code.expr)]
  }

  /** The compiler state: the buffer of hoisted statements and the name generator. */
  class Generator {
    var preStatements: seq<Stmt>
    var varNameCounter: nat
    var generatedVarNames: set<TempName>

    constructor ()
      ensures Valid() && preStatements == [] && varNameCounter == 0 && generatedVarNames == {}
    {
      preStatements, varNameCounter, generatedVarNames := [], 0, {};
    }

    /** Every name generated so far carries a value that the counter has passed. */
    ghost predicate Valid()
      reads this`varNameCounter, this`generatedVarNames
    {
      forall name :: name in generatedVarNames ==> name.counter <= varNameCounter
    }

    method GenerateVarName(part: Purpose) returns (name: TempName)
      requires Valid()
      modifies this`varNameCounter, this`generatedVarNames
      ensures Valid() && varNameCounter == old(varNameCounter) + 1
      ensures name == TempName(part, varNameCounter) && name !in old(generatedVarNames)
      ensures generatedVarNames == old(generatedVarNames) + {name}
    {
      varNameCounter := varNameCounter + 1;
      name := TempName(part, varNameCounter);
      generatedVarNames := generatedVarNames + {name};
    }

    method PrependStatement(s: Stmt)
      modifies this`preStatements
      ensures preStatements == old(preStatements) + [s]
    {
      preStatements := preStatements + [s];
    }

    method FormatTypeMask(w: nat) returns (mask: CExpr)
      requires Valid()
      modifies this
      ensures Valid()
      ensures mask == MaskTemp(w, old(varNameCounter)) && varNameCounter == old(varNameCounter) + 1
      ensures preStatements == old(preStatements) + [Declare(mask, Num(Pow2(w) - 1, Hex))]
    {
      var name := GenerateVarName(Bitmask(w));
      mask := Temp(name, ContainerOf(w));
      PrependStatement(Declare(mask, Num(Pow2(w) - 1, Hex)));
    }

    method Casting(w: nat, x: CExpr) returns (r: CExpr)
      requires Valid()
      modifies this
      ensures Valid()
      ensures r == Temp(TempName(Casted, old(varNameCounter) + 1), ContainerOf(w))
      ensures varNameCounter == old(varNameCounter) + 1
      ensures preStatements == old(preStatements) + [Declare(r, Cast(ContainerOf(w), x))]
    {
      var name := GenerateVarName(Casted);
      r := Temp(name, ContainerOf(w));
      PrependStatement(Declare(r, Cast(ContainerOf(w), x)));
    }

    method Masking(w: nat, x: CExpr) returns (r: CExpr)
      requires Valid()
      modifies this
      ensures Valid()
      ensures Produced(old(preStatements), Truncated(w, x, old(varNameCounter)), r)
    {
      var mask := FormatTypeMask(w);
      var name := GenerateVarName(Masked);
      var masked := Temp(name, ContainerOf(w));
      var cast := Casting(w, x);
      PrependStatement(Declare(masked, Cast(ContainerOf(w), cast)));
      r := Oper(BitOper(And), mask, masked);
    }

    /** The current state is the one after `c` was produced on top of `before`, and `x` is its expression. */
    ghost predicate Produced(before: seq<Stmt>, c: Code, x: CExpr)
      reads this
    {
      x == c.expr && preStatements == before + c.pre && varNameCounter == c.next
    }

    method FormatUnary(op: UnOp, t: Ty, x: CExpr) returns (r: CExpr)
      requires Valid()
      modifies this
      ensures Valid()
      ensures Produced(old(preStatements), FormatUn(op, t, x, old(varNameCounter)), r)
    {
      var w := t.Width();
      match op {
        case Neg => r := Masking(w, Oper(Minus, Num(Pow2(w), Dec), x));
        case Cmpl => r := Masking(w, BitNot(x));
        case LNot => r := Not(x);
        case CastBits(v) => if w > v { r := Masking(v, x); } else { r := x; }
        case CastToBool => r := x;
        case CastToBit => r := Cond(x, Num(1, Dec), Num(0, Dec));
      }
    }

    method FormatSimpleOp(op: BinOp, tl: Ty, tr: Ty, left: CExpr, right: CExpr) returns (x: CExpr)
      requires !IsComplex(op)
      requires Valid()
      modifies this
      ensures Valid()
      ensures Produced(old(preStatements), FormatSimple(op, tl, tr, left, right, old(varNameCounter)), x)
    {
      var w := tl.Width();
      match op {
        case Sub => x := Masking(w, Oper(Plus, left, Oper(Minus, Num(Pow2(w), Dec), right)));
        case Bitwise(bop) => x := Oper(BitOper(bop), left, right);
        case Compare(cop) => x := Oper(Rel(cop), left, right);
        case LAnd => x := AndAnd(left, right);
        case LOr => x := OrOr(left, right);
        case Concat => x := Oper(BitOper(Or), Oper(ShiftL, left, Num(tr.Width(), Dec)), right);
      }
    }

    method FormatComplexOp(e: Expr) returns (x: CExpr)
      requires e.Binary? && IsComplex(e.op)
      requires Valid()
      modifies this
      ensures Valid()
      ensures Produced(old(preStatements), FormatComplex(e, old(varNameCounter)), x)
      decreases e, 0
    {
      hide Valid, Format, FormatUn, FormatSimple;
      var lhs := FormatExpr(e.l);
      var rhs := FormatExpr(e.r);
      x := Masking(TypeOf(e.l).Width(), Oper(COpOf(e.op), Cast(ContainerOf(TypeOf(e.l).Width()), lhs), rhs));
    }

    method FormatOperator(e: Expr) returns (x: CExpr)
      requires e.Binary?
      requires Valid()
      modifies this
      ensures Valid()
      ensures Produced(old(preStatements), Format(e, old(varNameCounter)), x)
      decreases e, 1
    {
      hide Valid, FormatSimple, FormatComplex, FormatUn, TypeOf, ContainerOf;
      ghost var before := preStatements;
      var left := FormatExpr(e.l);
      var right := FormatExpr(e.r);
      ghost var cl := Format(e.l, old(varNameCounter));
      assert preStatements == before + (cl.pre + Format(e.r, cl.next).pre);
      if IsComplex(e.op) {
        x := FormatComplexOp(e);
      } else {
        x := FormatSimpleOp(e.op, TypeOf(e.l), TypeOf(e.r), left, right);
      }
    }

    method FormatExpr(e: Expr) returns (x: CExpr)
      requires Valid()
      modifies this
      ensures Valid()
      ensures Produced(old(preStatements), Format(e, old(varNameCounter)), x)
      decreases e, 2
    {
      hide Valid, FormatUn, FormatComplex, FormatSimple;
      match e {
        case Const(v, _, base) => x := Num(v, base);
        case IntConst(v) => x := Num(v, Dec);
        case BoolLit(b) => x := Num(FromBool(b), Dec);
        case Local(_, id, w) => x := LocalRef(id, ContainerOf(w));
        case LocalBool(id) => x := BoolRef(id);
        case Field(id, _) =>
          PrependStatement(DebugCheck(id));
          x := GetField(id);
        case Unary(op, a) =>
          var src := FormatExpr(a);
          x := FormatUnary(op, TypeOf(a), src);
        case Binary(_, _, _) => x := FormatOperator(e);
        case Mux(c, l, r) =>
          var cond := FormatExpr(c);
          var yes := FormatExpr(l);
          var no := FormatExpr(r);
          x := Cond(cond, yes, no);
      }
    }

    /** One statement: the hoisted declarations come first, and the buffer is empty afterwards. */
    method FormatFieldAssignment(w: nat, src: Expr) returns (code: seq<Stmt>)
      requires Valid()
      modifies this
      ensures Valid()
      ensures code == old(preStatements) + Assignment(w, src, old(varNameCounter))
      ensures preStatements == []
    {
      var c := ContainerOf(w);
      var name := GenerateVarName(FieldValue(c.bits));
      var body := [];
      if src.Local? {
        body := [Uninitialised(c, name), CopyBytes(name, src.id, (w + 7) / 8)];
        if src.scope.ControlLocal? && c.bits > 8 {
          body := body + [SwapBytes(name, c.bits / 8)];
        }
      } else {
        var value := FormatExpr(src);
        body := [Decl(c, name, value)];
      }
      code := preStatements + body;
      preStatements := [];
    }
  }
}
