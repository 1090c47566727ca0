// The C text of integer and boolean expressions, as trees.

module StrGen {
  import opened Wrappers
  import opened BitArray
  import opened Evaluate
  import opened CInteger

  // `byte` is the C type char; `usize` is unsigned long; the arithmetic helpers have a form for
  // compilers with the overflow builtins and a portable form.
  datatype Target = Target(charSigned: bool, word: Bits, gnu: bool)

  function CTypeFor(t: Type, target: Target): CType {
    match t
    case Bool => CBool
    case Byte => CInt(8, target.charSigned)
    case Int(n, signed) => CInt(n, signed)
    case Enum(n, signed) => CInt(n, signed)
  }

  function MinOf(n: nat, signed: bool): int
    requires n > 0
  {
    if signed then -Pow2(n - 1) else 0
  }

  function MaxOf(n: nat, signed: bool): int
    requires n > 0
  {
    if signed then Pow2(n - 1) - 1 else Pow2(n) - 1
  }

  /** A decimal literal with the suffix LL. */
  function Literal(v: int): CExpr {
    if v < 0 then CMinus(CConst(LONG_LONG, -v)) else CConst(LONG_LONG, v)
  }

  /** The least value has no literal of its own. */
  function GenInteger(v: int, n: Bits, signed: bool): CExpr {
    if !signed then CCast(CInt(n, false), CConst(UNSIGNED_LONG_LONG, v))
    else if v == MinOf(n, true) then CBinary(CArith(Sub), CCast(CInt(n, true), Literal(v + 1)), CConst(INT, 1))
    else CCast(CInt(n, true), Literal(v))
  }

  function GenValue(t: Type, v: int): CExpr {
    match t
    case Bool => CConst(CBool, v)
    case Byte => CConst(INT, v)
    case Int(n, signed) => GenInteger(v, n, signed)
    case Enum(n, signed) => GenInteger(v, n, signed)
  }

  function Lhs(): CExpr { CVar(TmpLhs) }
  function Rhs(): CExpr { CVar(TmpRhs) }
  function Max(t: CType): CExpr requires t.CInt? { CConst(t, MaxOf(t.bits, t.signed)) }
  function Min(t: CType): CExpr requires t.CInt? { CConst(t, MinOf(t.bits, t.signed)) }
  function Minus(l: CExpr, r: CExpr): CExpr { CBinary(CArith(Sub), l, r) }
  function Over(l: CExpr, r: CExpr): CExpr { CBinary(CDivide(false), l, r) }

  /** The body of __sunder_add_T and its like. */
  function Helper(op: ArithOp, wrapping: bool, t: CType, gnu: bool): CExpr
    requires t.CInt?
  {
    if gnu then
      if wrapping then CWrapped(op, t, Lhs(), Rhs())
      else CCheck(COverflows(op, t, Lhs(), Rhs()), CWrapped(op, t, Lhs(), Rhs()))
    else if wrapping then
      if t.signed then
        CCast(t, CBinary(CArith(op), CCast(CInt(t.bits, false), Lhs()), CCast(CInt(t.bits, false), Rhs())))
      else CBinary(CArith(op), Lhs(), Rhs())
    else
      Portable(op, t)
  }

  /** The checked operations without builtins. */
  function Portable(op: ArithOp, t: CType): CExpr
    requires t.CInt?
  {
    var l, r, body := Lhs(), Rhs(), CBinary(CArith(op), Lhs(), Rhs());
    match op
    case Add =>
      if t.signed then
        CCheck(CAnd(CCompare(Gt, l, CConst(INT, 0)), CCompare(Gt, r, Minus(Max(t), l))),
          CCheck(CAnd(CCompare(Lt, l, CConst(INT, 0)), CCompare(Lt, r, Minus(Min(t), l))), body))
      else CCheck(CCompare(Gt, l, Minus(Max(t), r)), body)
    case Sub =>
      if t.signed then
        CCheck(CAnd(CCompare(Lt, r, CConst(INT, 0)), CCompare(Gt, l, CBinary(CArith(Add), Max(t), r))),
          CCheck(CAnd(CCompare(Gt, r, CConst(INT, 0)), CCompare(Lt, l, CBinary(CArith(Add), Min(t), r))), body))
      else CCheck(CCompare(Lt, l, r), body)
    case Mul =>
      if t.signed then
        CCheck(CAnd(CCompare(Eq, l, CMinus(CConst(INT, 1))), CCompare(Eq, r, Min(t))),
          CCheck(CAnd(CCompare(Eq, r, CMinus(CConst(INT, 1))), CCompare(Eq, l, Min(t))),
            CCheck(SignedMulGuard(t), body)))
      else CCheck(CAnd(CCompare(Ne, l, CConst(INT, 0)), CCompare(Gt, r, Over(Max(t), l))), body)
  }

  /** The four divisions that guard a signed product, under the test that they may be made. */
  function SignedMulGuard(t: CType): CExpr
    requires t.CInt?
  {
    var l, r, zero := Lhs(), Rhs(), CConst(INT, 0);
    CAnd(CAnd(CCompare(Ne, l, zero), CCompare(Ne, l, CMinus(CConst(INT, 1)))),
      COr(COr(COr(
        CAnd(CCompare(Gt, l, zero), CCompare(Gt, r, Over(Max(t), l))),
        CAnd(CCompare(Gt, l, zero), CCompare(Lt, r, Over(Min(t), l)))),
        CAnd(CCompare(Lt, l, zero), CCompare(Lt, r, Over(Max(t), l)))),
        CAnd(CCompare(Lt, l, zero), CCompare(Gt, r, Over(Min(t), l)))))
  }

  function DivideHelper(remainder: bool, t: CType): CExpr
    requires t.CInt?
  {
    var l, r, body := Lhs(), Rhs(), CBinary(CDivide(remainder), Lhs(), Rhs());
    CCheck(CCompare(Eq, r, CConst(INT, 0)),
      if t.signed then
        CCheck(CAnd(CCompare(Eq, l, Min(t)), CCompare(Eq, r, CMinus(CConst(INT, 1)))), body)
      else body)
  }

  /** ({T lhs = l; U rhs = r; body;}) */
  function Temporaries(t: CType, l: CExpr, u: CType, r: CExpr, body: CExpr): CExpr {
    CLet(TmpLhs, t, l, CLet(TmpRhs, u, r, body))
  }

  function GenShl(t: CType, word: CType): CExpr
    requires t.CInt? && word.CInt?
  {
    CCond(CCompare(Lt, Rhs(), CConst(word, t.bits)),
      CCast(t, CShl(CCast(CInt(t.bits, false), Lhs()), Rhs())),
      CCast(t, CConst(INT, 0)))
  }

  function GenShr(t: CType, word: CType): CExpr
    requires t.CInt? && word.CInt?
  {
    CCond(CCompare(Lt, Rhs(), CConst(word, t.bits)), CShr(Lhs(), Rhs()), CCast(t, Overshift(t)))
  }

  /** What is left when every bit is shifted out. */
  function Overshift(t: CType): CExpr
    requires t.CInt?
  {
    if t.signed then CCond(CCompare(Lt, Lhs(), CConst(INT, 0)), CMinus(CConst(INT, 1)), CConst(INT, 0))
    else CConst(INT, 0)
  }

  /** The least value of a type, shifted down from that of long long. */
  function Least(t: CType, word: CType): CExpr
    requires t.CInt? && word.CInt?
  {
    CCast(t, CShr(CConst(LONG_LONG, MinOf(64, true)), CConst(word, 64 - t.bits)))
  }

  function GenNeg(t: CType, e: CExpr, word: CType): CExpr
    requires t.CInt? && word.CInt?
  {
    CLet(TmpRhs, t, e, CCheck(CCompare(Eq, Rhs(), Least(t, word)), CMinus(Rhs())))
  }

  function GenNegWrapping(t: CType, e: CExpr, gnu: bool): CExpr
    requires t.CInt?
  {
    CLet(TmpResult, t, CCompl(e),
      Temporaries(t, CVar(TmpResult), t, CCast(t, CConst(INT, 1)), CCast(t, Helper(Add, true, t, gnu))))
  }

  function Gen(e: Expr, target: Target): CExpr {
    match e
    case Const(t, v) => GenValue(t, v)
    case Cast(t, x) =>
      var g := Gen(x, target);
      CCast(CTypeFor(t, target), if TypeOf(x).Byte? then CCast(CInt(8, false), g) else g)
    case Unary(op, x) => GenUnary(op, Gen(x, target), CTypeFor(TypeOf(x), target), target)
    case Or(l, r) => COr(Gen(l, target), Gen(r, target))
    case And(l, r) => CAnd(Gen(l, target), Gen(r, target))
    case Shl(l, r) =>
      var t, word := CTypeFor(TypeOf(l), target), CInt(target.word, false);
      Temporaries(t, Gen(l, target), CTypeFor(TypeOf(r), target), Gen(r, target),
        if t.CInt? then GenShl(t, word) else CConst(INT, 0))
    case Shr(l, r) =>
      var t, word := CTypeFor(TypeOf(l), target), CInt(target.word, false);
      Temporaries(t, Gen(l, target), CTypeFor(TypeOf(r), target), Gen(r, target),
        if t.CInt? then GenShr(t, word) else CConst(INT, 0))
    case Compare(op, l, r) => CCompare(op, Gen(l, target), Gen(r, target))
    case Binary(op, l, r) => CBinary(CBits(op), Gen(l, target), Gen(r, target))
    case Arith(op, wrapping, l, r) =>
      var t := CTypeFor(TypeOf(l), target);
      Temporaries(t, Gen(l, target), CTypeFor(TypeOf(r), target), Gen(r, target),
        if t.CInt? then CCast(t, Helper(op, wrapping, t, target.gnu)) else CConst(INT, 0))
    case Divide(remainder, l, r) =>
      var t := CTypeFor(TypeOf(l), target);
      Temporaries(t, Gen(l, target), CTypeFor(TypeOf(r), target), Gen(r, target),
        if t.CInt? then CCast(t, DivideHelper(remainder, t)) else CConst(INT, 0))
  }

  function GenUnary(op: UnaryOp, g: CExpr, t: CType, target: Target): CExpr {
    match op
    case Not => CNot(g)
    case Pos => CPlus(g)
    case Neg => if t.CInt? then GenNeg(t, g, CInt(target.word, false)) else CMinus(g)
    case NegWrapping => if t.CInt? then GenNegWrapping(t, g, target.gnu) else CMinus(g)
    case BitNot => CCast(t, CCompl(g))
  }
}
