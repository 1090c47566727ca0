// The C integer expressions that are emitted, and what C says they mean.
//
// `int` has 32 bits and `long long` 64.  An out-of-range conversion to a signed type wraps, and a
// right shift of a negative value keeps the sign, as GCC and Clang define both.

module CInteger {
  import opened Wrappers
  import opened BitArray
  import opened Evaluate

  datatype CType = CBool | CInt(bits: Bits, signed: bool)

  const INT := CInt(32, true)
  const LONG_LONG := CInt(64, true)
  const UNSIGNED_LONG_LONG := CInt(64, false)

  // The temporaries of the emitted statement expressions.
  datatype Temp = TmpLhs | TmpRhs | TmpResult

  datatype COp = CArith(op: ArithOp) | CDivide(remainder: bool) | CBits(bop: BitOp)

  datatype CExpr =
    | CConst(ty: CType, value: int)
    | CVar(x: Temp)
    | CCast(ty: CType, e: CExpr)
    | CNot(e: CExpr)
    | CPlus(e: CExpr)
    | CMinus(e: CExpr)
    | CCompl(e: CExpr)
    | COr(l: CExpr, r: CExpr)
    | CAnd(l: CExpr, r: CExpr)
    | CShl(l: CExpr, r: CExpr)
    | CShr(l: CExpr, r: CExpr)
    | CCompare(cop: CompareOp, l: CExpr, r: CExpr)
    | CBinary(op: COp, l: CExpr, r: CExpr)
    | CCond(c: CExpr, l: CExpr, r: CExpr)
    // ({T x = e; body;})
    | CLet(x: Temp, ty: CType, e: CExpr, body: CExpr)
    // if (c) { fatal(); } body
    | CCheck(c: CExpr, body: CExpr)
    // __builtin_add_overflow(l, r, &result): the flag, and the result
    | COverflows(aop: ArithOp, ty: CType, l: CExpr, r: CExpr)
    | CWrapped(aop: ArithOp, ty: CType, l: CExpr, r: CExpr)

  // `Trap` is a call of one of the fatal functions.
  datatype COut = Val(v: int) | Trap | Undefined {
    predicate IsFailure() {
      !Val?
    }

    function PropagateFailure(): COut
      requires !Val?
    {
      this
    }

    function Extract(): int
      requires Val?
    {
      v
    }
  }

  /** Integer promotion (ISO/IEC 9899:1999 section 6.3.1.1). */
  function Promote(t: CType): CType
    ensures Promote(t).CInt?
  {
    if t.CBool? || t.bits < 32 then INT else t
  }

  /** The usual arithmetic conversions (section 6.3.1.8). */
  function Common(a: CType, b: CType): CType
    ensures Common(a, b).CInt?
  {
    var p, q := Promote(a), Promote(b);
    if p.bits > q.bits then p
    else if q.bits > p.bits then q
    else CInt(p.bits, p.signed && q.signed)
  }

  /** Conversion to a type (sections 6.3.1.2 and 6.3.1.3). */
  function Convert(v: int, t: CType): int {
    match t
    case CBool => Digit(v != 0)
    case CInt(n, signed) => FromBits(ToBits(v, n), signed)
  }

  /** A result of an operation in type `t`: unsigned types wrap, signed overflow is undefined. */
  function InType(v: int, t: CType): COut
    requires t.CInt?
  {
    if !t.signed then Val(Convert(v, t))
    else if Fits(v, t.bits, true) then Val(v)
    else Undefined
  }

  // What C's own operators do to two values of one type; each is the operator that the evaluator uses.

  /** Relational and equality operators (sections 6.5.8 and 6.5.9): the sign of the difference. */
  predicate CRelation(op: CompareOp, a: int, b: int): (r: bool)
    ensures r == op.Holds(a, b)
  {
    match op
    case Eq => a - b == 0
    case Ne => a - b != 0
    case Le => !(a - b > 0)
    case Lt => b - a > 0
    case Ge => !(b - a > 0)
    case Gt => a - b > 0
  }

  /** Additive and multiplicative operators before the type limits them (sections 6.5.5 and 6.5.6). */
  function CExact(op: ArithOp, a: int, b: int): (r: int)
    ensures r == op.Exact(a, b)
  {
    match op
    case Add => a + b
    case Sub => a + -b
    case Mul => a * b
  }

  /** The quotient of section 6.5.5: the fraction is discarded. */
  function CQuotient(a: int, b: int): (q: int)
    requires b != 0
    ensures q == Quotient(a, b)
  {
    if a < 0 then (if b < 0 then -a / -b else -(-a / b)) else (if b < 0 then -(a / -b) else a / b)
  }

  function CRemainder(a: int, b: int): (r: int)
    requires b != 0
    ensures r == Remainder(a, b)
  {
    a - b * CQuotient(a, b)
  }

  /** The bits of the result of `|`, `^` and `&` (sections 6.5.10 to 6.5.12). */
  function CBitwise(op: BitOp, a: seq<bool>, b: seq<bool>): (r: seq<bool>)
    requires |a| == |b|
    ensures r == Bitwise(op, a, b)
  {
    seq(|a|, i requires 0 <= i < |a| =>
      match op {
        case BitOr => !(!a[i] && !b[i])
        case BitXor => (a[i] && !b[i]) || (!a[i] && b[i])
        case BitAnd => !(!a[i] || !b[i])
      })
  }

  predicate ShiftOk(count: int, t: CType)
    requires t.CInt?
  {
    0 <= count < t.bits
  }

  function Operate(op: COp, a: int, b: int, t: CType): COut
    requires t.CInt?
  {
    match op
    case CArith(aop) => InType(CExact(aop, a, b), t)
    case CDivide(remainder) =>
      if b == 0 then Undefined
      else if t.signed && !Fits(CQuotient(a, b), t.bits, true) then Undefined
      else InType(if remainder then CRemainder(a, b) else CQuotient(a, b), t)
    case CBits(bop) => Val(FromBits(CBitwise(bop, ToBits(a, t.bits), ToBits(b, t.bits)), t.signed))
  }

  /** The type of an expression, where the temporaries have the types `ts`. */
  function CTypeOf(e: CExpr, ts: Temp -> CType): CType {
    match e
    case CConst(t, _) => t
    case CVar(x) => ts(x)
    case CCast(t, _) => t
    case CNot(_) => INT
    case CPlus(x) => Promote(CTypeOf(x, ts))
    case CMinus(x) => Promote(CTypeOf(x, ts))
    case CCompl(x) => Promote(CTypeOf(x, ts))
    case COr(_, _) => INT
    case CAnd(_, _) => INT
    case CShl(l, _) => Promote(CTypeOf(l, ts))
    case CShr(l, _) => Promote(CTypeOf(l, ts))
    case CCompare(_, _, _) => INT
    case CBinary(_, l, r) => Common(CTypeOf(l, ts), CTypeOf(r, ts))
    case CCond(_, l, r) => Common(CTypeOf(l, ts), CTypeOf(r, ts))
    case CLet(x, t, _, body) => CTypeOf(body, With(ts, x, t))
    case CCheck(_, body) => CTypeOf(body, ts)
    case COverflows(_, _, _, _) => CBool
    case CWrapped(_, t, _, _) => t
  }

  function With<T>(f: Temp -> T, x: Temp, v: T): Temp -> T {
    y => if y == x then v else f(y)
  }

  function CEval(e: CExpr, ts: Temp -> CType, vs: Temp -> int): COut {
    match e
    case CConst(_, v) => Val(v)
    case CVar(x) => Val(vs(x))
    case CCast(t, x) =>
      var v :- CEval(x, ts, vs);
      Val(Convert(v, t))
    case CNot(x) =>
      var v :- CEval(x, ts, vs);
      Val(Digit(v == 0))
    case CPlus(x) => CEval(x, ts, vs)
    case CMinus(x) =>
      var v :- CEval(x, ts, vs);
      InType(-v, Promote(CTypeOf(x, ts)))
    case CCompl(x) =>
      var v :- CEval(x, ts, vs);
      var t := Promote(CTypeOf(x, ts));
      Val(FromBits(Complement(ToBits(v, t.bits)), t.signed))
    case COr(l, r) =>
      var a :- CEval(l, ts, vs);
      if a != 0 then Val(1)
      else
        var b :- CEval(r, ts, vs);
        Val(Digit(b != 0))
    case CAnd(l, r) =>
      var a :- CEval(l, ts, vs);
      if a == 0 then Val(0)
      else
        var b :- CEval(r, ts, vs);
        Val(Digit(b != 0))
    case CShl(l, r) =>
      var a :- CEval(l, ts, vs);
      var b :- CEval(r, ts, vs);
      var t := Promote(CTypeOf(l, ts));
      if !ShiftOk(b, t) || (t.signed && a < 0) then Undefined else InType(a * Pow2(b), t)
    case CShr(l, r) =>
      var a :- CEval(l, ts, vs);
      var b :- CEval(r, ts, vs);
      if !ShiftOk(b, Promote(CTypeOf(l, ts))) then Undefined else Val(Shifted(a, b))
    case CCompare(op, l, r) =>
      var a :- CEval(l, ts, vs);
      var b :- CEval(r, ts, vs);
      var t := Common(CTypeOf(l, ts), CTypeOf(r, ts));
      Val(Digit(CRelation(op, Convert(a, t), Convert(b, t))))
    case CBinary(op, l, r) =>
      var a :- CEval(l, ts, vs);
      var b :- CEval(r, ts, vs);
      var t := Common(CTypeOf(l, ts), CTypeOf(r, ts));
      Operate(op, Convert(a, t), Convert(b, t), t)
    case CCond(c, l, r) =>
      var v :- CEval(c, ts, vs);
      var x :- if v != 0 then CEval(l, ts, vs) else CEval(r, ts, vs);
      Val(Convert(x, Common(CTypeOf(l, ts), CTypeOf(r, ts))))
    case CLet(x, t, e1, body) =>
      var v :- CEval(e1, ts, vs);
      CEval(body, With(ts, x, t), With(vs, x, Convert(v, t)))
    case CCheck(c, body) =>
      var v :- CEval(c, ts, vs);
      if v != 0 then Trap else CEval(body, ts, vs)
    case COverflows(op, t, l, r) =>
      var a :- CEval(l, ts, vs);
      var b :- CEval(r, ts, vs);
      Val(Digit(Convert(CExact(op, a, b), t) != CExact(op, a, b)))
    case CWrapped(op, t, l, r) =>
      var a :- CEval(l, ts, vs);
      var b :- CEval(r, ts, vs);
      Val(Convert(CExact(op, a, b), t))
  }
}
