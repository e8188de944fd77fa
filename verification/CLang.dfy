/** The C fragment that the expression compiler emits: declarations of temporaries with an initialiser,
    and expressions over them. Arithmetic is that of a two's complement LP64 machine: operands are promoted
    and converted to their common type, results wrap around, stores into a temporary truncate. */
module CLang {
  import opened Options
  import opened Bits
  import opened Names
  import opened Words
  import P4 = P4Expr

  /** The type of an expression: int, unsigned int or long. */
  datatype Rank = Rank(bits: nat, signed: bool) {
    /** Number of bits of the largest representable value. */
    function ValueBits(): nat { if signed && bits > 0 then bits - 1 else bits }

    /** Conversion of an integer to this type. */
    function Wrap(x: int): int {
      var y := Low(x, bits);
      if y < Pow2(ValueBits()) then y else y - Pow2(bits)
    }

    /** Non-negative and representable. */
    predicate Fits(x: int) { 0 <= x < Pow2(ValueBits()) }
  }

  const INT := Rank(32, true)
  const UINT := Rank(32, false)
  const LONG := Rank(64, true)

  /** The type of a declared temporary or variable: uint8_t, uint16_t or uint32_t. */
  datatype Container = Container(bits: nat) {
    /** The type of an expression reading it. */
    function Promoted(): (r: Rank)
      ensures r.bits >= 32
    {
      if bits < 32 then INT else Rank(bits, false)
    }
  }

  function Common(a: Rank, b: Rank): Rank {
    if a.bits > b.bits then a else if b.bits > a.bits then b else Rank(a.bits, a.signed && b.signed)
  }

  datatype COp = Plus | Minus | Times | ShiftL | ShiftR | BitOper(bop: BitOp) | Rel(cop: P4.CmpOp)

  datatype CExpr =
    | Num(value: nat, base: P4.Base)
    | Temp(name: TempName, c: Container)
    | LocalRef(id: nat, c: Container)
    | BoolRef(id: nat)
    | GetField(id: nat)             // GET32_def(...), a uint32_t
    | Cast(c: Container, e: CExpr)
    | BitNot(e: CExpr)
    | Not(e: CExpr)
    | Oper(op: COp, l: CExpr, r: CExpr)
    | AndAnd(l: CExpr, r: CExpr)
    | OrOr(l: CExpr, r: CExpr)
    | Cond(cond: CExpr, l: CExpr, r: CExpr)

  /** `DebugCheck` stands for the validity warning put in front of a field read; it computes nothing.
      `CopyBytes` is a memcpy of the first `n` bytes of a variable over those of a temporary, on a little-endian
      host; `SwapBytes` converts a temporary of `n` bytes to network order. */
  datatype Stmt =
    | Decl(c: Container, name: TempName, e: CExpr)
    | DebugCheck(id: nat)
    | Uninitialised(c: Container, name: TempName)
    | CopyBytes(name: TempName, id: nat, n: nat)
    | SwapBytes(name: TempName, n: nat)

  /** The temporaries declared so far. Names stand for their texts, which `TextInjective` allows. */
  type Temps = map<TempName, nat>

  function NumRank(value: nat, base: P4.Base): (r: Rank)
    ensures r.bits >= 32
  {
    if value < 0x8000_0000 then INT else if base.Hex? && value < 0x1_0000_0000 then UINT else LONG
  }

  function OperRank(op: COp, l: Rank, r: Rank): Rank {
    match op
    case Rel(_) => INT
    case ShiftL => l
    case ShiftR => l
    case _ => Common(l, r)
  }

  /** The static C type of an expression. */
  function RankOf(e: CExpr): (r: Rank)
    ensures r.bits >= 32
  {
    match e
    case Num(v, base) => NumRank(v, base)
    case Temp(_, c) => c.Promoted()
    case LocalRef(_, c) => c.Promoted()
    case BoolRef(_) | Not(_) | AndAnd(_, _) | OrOr(_, _) => INT
    case GetField(_) => UINT
    case Cast(c, _) => c.Promoted()
    case BitNot(a) => RankOf(a)
    case Oper(op, l, r) => OperRank(op, RankOf(l), RankOf(r))
    case Cond(_, l, r) => Common(RankOf(l), RankOf(r))
  }

  /** `None` is undefined behaviour: a shift by at least the width of the left operand's type. */
  function Operate(op: COp, tl: Rank, tr: Rank, a: int, b: int): Option<int> {
    var t := Common(tl, tr);
    match op
    case Plus => Some(t.Wrap(t.Wrap(a) + t.Wrap(b)))
    case Minus => Some(t.Wrap(t.Wrap(a) - t.Wrap(b)))
    case Times => Some(t.Wrap(Product(t.Wrap(a), t.Wrap(b))))
    case BitOper(bop) => Some(t.Wrap(Combine(bop, Low(a, t.bits), Low(b, t.bits))))
    case Rel(cop) => Some(P4.FromBool(P4.Compares(cop, t.Wrap(a), t.Wrap(b))))
    case ShiftL => if 0 <= b < tl.bits then Some(tl.Wrap(Shl(Low(a, tl.bits), b))) else None
    case ShiftR =>
      if !(0 <= b < tl.bits) then None
      else if a >= 0 then Some(Shr(a, b)) else Some(-1 - Shr(-1 - a, b))
  }

  /** The value of an expression; `None` also for a temporary that is not declared. */
  function Eval(e: CExpr, env: Temps, rho: P4.Inputs): Option<int> {
    match e
    case Num(v, _) => Some(v)
    case Temp(name, _) => if name in env then Some(env[name]) else None
    case LocalRef(id, c) => Some(Low(rho.local(id), c.bits))
    case BoolRef(id) => Some(P4.FromBool(rho.localBool(id)))
    case GetField(id) => Some(Low(rho.field(id), 32))
    case Cast(c, a) =>
      var v := Eval(a, env, rho);
      if v.None? then None else Some(Low(v.value, c.bits))
    case BitNot(a) =>
      var v := Eval(a, env, rho);
      if v.None? then None else Some(RankOf(a).Wrap(-1 - v.value))
    case Not(a) =>
      var v := Eval(a, env, rho);
      if v.None? then None else Some(P4.FromBool(v.value == 0))
    case Oper(op, l, r) =>
      var a, b := Eval(l, env, rho), Eval(r, env, rho);
      if a.None? || b.None? then None else Operate(op, RankOf(l), RankOf(r), a.value, b.value)
    case AndAnd(l, r) =>
      var a := Eval(l, env, rho);
      if a.None? then None
      else if a.value == 0 then Some(0)
      else
        var b := Eval(r, env, rho);
        if b.None? then None else Some(P4.FromBool(b.value != 0))
    case OrOr(l, r) =>
      var a := Eval(l, env, rho);
      if a.None? then None
      else if a.value != 0 then Some(1)
      else
        var b := Eval(r, env, rho);
        if b.None? then None else Some(P4.FromBool(b.value != 0))
    case Cond(c, l, r) =>
      var a := Eval(c, env, rho);
      if a.None? then None
      else
        var b := if a.value != 0 then Eval(l, env, rho) else Eval(r, env, rho);
        if b.None? then None else Some(Common(RankOf(l), RankOf(r)).Wrap(b.value))
  }

  /** Runs statements in order; `None` on undefined behaviour and on a second declaration of a name. */
  function Exec(ss: seq<Stmt>, env: Temps, rho: P4.Inputs): Option<Temps> {
    if ss == [] then Some(env)
    else
      var next := Step(ss[0], env, rho);
      if next.None? then None else Exec(ss[1..], next.value, rho)
  }

  function Step(s: Stmt, env: Temps, rho: P4.Inputs): Option<Temps> {
    match s
    case DebugCheck(_) => Some(env)
    case Decl(c, name, e) =>
      var v := Eval(e, env, rho);
      if name in env || v.None? then None else Some(env[name := Low(v.value, c.bits)])
    case Uninitialised(c, name) => if name in env then None else Some(env[name := Low(rho.unset, c.bits)])
    case CopyBytes(name, id, n) =>
      if name !in env then None else Some(env[name := Overlaid(env[name], rho.local(id), n)])
    case SwapBytes(name, n) => if name !in env then None else Some(env[name := Swapped(env[name], n)])
  }

  ghost predicate Extends(env: Temps, env': Temps) {
    forall name :: name in env ==> name in env' && env'[name] == env[name]
  }

  lemma {:induction false} EvalExtends(e: CExpr, env: Temps, env': Temps, rho: P4.Inputs)
    requires Extends(env, env') && Eval(e, env, rho).Some?
    ensures Eval(e, env', rho) == Eval(e, env, rho)
  {
    hide Pow2, Low, Shl, Shr, Combine, Product;
    match e {
      case Cast(_, a) => EvalExtends(a, env, env', rho);
      case BitNot(a) => EvalExtends(a, env, env', rho);
      case Not(a) => EvalExtends(a, env, env', rho);
      case Oper(_, l, r) =>
        EvalExtends(l, env, env', rho);
        EvalExtends(r, env, env', rho);
      case AndAnd(l, r) =>
        EvalExtends(l, env, env', rho);
        if Eval(l, env, rho).value != 0 { EvalExtends(r, env, env', rho); }
      case OrOr(l, r) =>
        EvalExtends(l, env, env', rho);
        if Eval(l, env, rho).value == 0 { EvalExtends(r, env, env', rho); }
      case Cond(c, l, r) =>
        EvalExtends(c, env, env', rho);
        if Eval(c, env, rho).value != 0 {
          EvalExtends(l, env, env', rho);
        } else {
          EvalExtends(r, env, env', rho);
        }
      case _ =>
    }
  }

  lemma {:induction false} ExecAppend(ss: seq<Stmt>, tt: seq<Stmt>, env: Temps, rho: P4.Inputs)
    ensures var mid := Exec(ss, env, rho);
            Exec(ss + tt, env, rho) == if mid.None? then None else Exec(tt, mid.value, rho)
  {
    if ss == [] {
      assert ss + tt == tt;
    } else {
      assert (ss + tt)[1..] == ss[1..] + tt;
      var next := Step(ss[0], env, rho);
      if next.Some? { ExecAppend(ss[1..], tt, next.value, rho); }
    }
  }

  lemma {:induction false} FitsBits(t: Rank, x: nat)
    requires t.Fits(x)
    ensures Low(x, t.bits) == x
  {
    hide Pow2, Low, Shl, Shr, Combine, Product;
    Pow2Mono(t.ValueBits(), t.bits);
    LowSmall(x, t.bits);
  }

  lemma {:induction false} WrapFits(t: Rank, x: int)
    requires t.Fits(x)
    ensures t.Wrap(x) == x
  {
    hide Pow2, Low, Shl, Shr, Combine, Product;
    FitsBits(t, x);
  }

  /** Wrapping to a type keeps its low bits. */
  lemma {:induction false} LowOfWrap(t: Rank, x: int, w: nat)
    requires w <= t.bits
    ensures Low(t.Wrap(x), w) == Low(x, w)
  {
    hide Pow2, Low, Shl, Shr, Combine, Product;
    LowLow(x, t.bits, w);
    LowPlus(Low(x, t.bits) - Pow2(t.bits), t.bits, w);
  }

  lemma {:induction false} FitsCommon(a: Rank, b: Rank, x: int)
    requires a.Fits(x)
    ensures Common(a, b).Fits(x) && Common(b, a).Fits(x)
  {
    hide Pow2, Low, Shl, Shr, Combine, Product;
    Pow2Mono(a.ValueBits(), Common(a, b).ValueBits());
    Pow2Mono(a.ValueBits(), Common(b, a).ValueBits());
  }
}
