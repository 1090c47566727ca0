// The checked helpers: they yield the exact result, or stop the program, exactly when it fits.

module HelperProof {
  import opened Wrappers
  import opened BitArray
  import opened Evaluate
  import opened EvaluateProof
  import opened CInteger
  import opened StrGen
  import opened CIntegerProof

  /** The type `t`, or what arithmetic in it makes of it. */
  predicate Near(ct: CType, t: CType) {
    ct == t || ct == Promote(t) || ct == INT
  }

  /** An expression of value `v`, whose type is near `t`. */
  ghost predicate Is(e: CExpr, ts: Temp -> CType, vs: Temp -> int, v: int, t: CType) {
    t.CInt? && CEval(e, ts, vs) == Val(v) && Fits(v, Promote(t).bits, Promote(t).signed) && Near(CTypeOf(e, ts), t)
  }

  predicate NotBothInt(a: CType, b: CType, t: CType) {
    a != INT || b != INT || Promote(t) == INT
  }

  lemma {:induction false} NotInt(a: CType, b: CType, t: CType)
    requires a == t
    ensures NotBothInt(a, b, t)
  {
  }

  lemma {:induction false} CommonIs(a: CType, b: CType, t: CType)
    requires t.CInt? && Near(a, t) && Near(b, t) && NotBothInt(a, b, t)
    ensures Common(a, b) == Promote(t)
  {
  }

  lemma {:induction false} CompareStep(op: CompareOp, l: CExpr, r: CExpr, ts: Temp -> CType, vs: Temp -> int, a: int,
                                       b: int, t: CType)
    requires CEval(l, ts, vs) == Val(a) && CEval(r, ts, vs) == Val(b) && t == Common(CTypeOf(l, ts), CTypeOf(r, ts))
    ensures CEval(CCompare(op, l, r), ts, vs) == Val(Digit(op.Holds(Convert(a, t), Convert(b, t))))
  {
    hide Operate, Convert, Common, CTypeOf;
  }

  lemma {:induction false} CompareIs(op: CompareOp, l: CExpr, r: CExpr, ts: Temp -> CType, vs: Temp -> int, x: int,
                                     y: int, t: CType)
    requires Is(l, ts, vs, x, t) && Is(r, ts, vs, y, t) && NotBothInt(CTypeOf(l, ts), CTypeOf(r, ts), t)
    ensures CEval(CCompare(op, l, r), ts, vs) == Val(Digit(op.Holds(x, y)))
  {
    hide CEval, CTypeOf, Common, Promote, Convert, Fits, Near, NotBothInt;
    var p := Promote(t);
    CommonIs(CTypeOf(l, ts), CTypeOf(r, ts), t);
    ConvertFitting(x, p.bits, p.signed);
    ConvertFitting(y, p.bits, p.signed);
    CompareStep(op, l, r, ts, vs, x, y, p);
  }

  lemma {:induction false} BinaryType(op: COp, l: CExpr, r: CExpr, ts: Temp -> CType)
    ensures CTypeOf(CBinary(op, l, r), ts) == Common(CTypeOf(l, ts), CTypeOf(r, ts))
  {
  }

  lemma {:induction false} BinaryIs(op: COp, l: CExpr, r: CExpr, ts: Temp -> CType, vs: Temp -> int, x: int, y: int,
                                    v: int, t: CType)
    requires Is(l, ts, vs, x, t) && Is(r, ts, vs, y, t) && NotBothInt(CTypeOf(l, ts), CTypeOf(r, ts), t)
    requires Operate(op, x, y, Promote(t)) == Val(v) && Fits(v, Promote(t).bits, Promote(t).signed)
    ensures Is(CBinary(op, l, r), ts, vs, v, t)
  {
    var p := Promote(t);
    assert Near(p, t);
    hide CEval, CTypeOf, Common, Promote, Convert, Fits, Near, NotBothInt, Operate;
    CommonIs(CTypeOf(l, ts), CTypeOf(r, ts), t);
    ConvertFitting(x, p.bits, p.signed);
    ConvertFitting(y, p.bits, p.signed);
    BinaryStep(op, l, r, ts, vs, x, y, p);
    BinaryType(op, l, r, ts);
  }

  lemma {:induction false} ArithIs(op: ArithOp, l: CExpr, r: CExpr, ts: Temp -> CType, vs: Temp -> int, x: int, y: int,
                                   t: CType)
    requires Is(l, ts, vs, x, t) && Is(r, ts, vs, y, t) && NotBothInt(CTypeOf(l, ts), CTypeOf(r, ts), t)
    requires Fits(op.Exact(x, y), Promote(t).bits, Promote(t).signed)
    ensures Is(CBinary(CArith(op), l, r), ts, vs, op.Exact(x, y), t)
  {
    hide CEval, CTypeOf, Promote, Fits, Near, NotBothInt, Operate;
    ArithFits(op, x, y, Promote(t));
    BinaryIs(CArith(op), l, r, ts, vs, x, y, op.Exact(x, y), t);
  }

  lemma {:induction false} DivideFits(remainder: bool, x: int, y: int, p: CType)
    requires p.CInt? && y != 0 && Fits(Quotient(x, y), p.bits, p.signed) && Fits(Remainder(x, y), p.bits, p.signed)
    ensures Operate(CDivide(remainder), x, y, p) == Val(if remainder then Remainder(x, y) else Quotient(x, y))
  {
    hide Quotient, Remainder, Fits;
    ConvertFitting(if remainder then Remainder(x, y) else Quotient(x, y), p.bits, p.signed);
  }

  lemma {:induction false} DivideIs(remainder: bool, l: CExpr, r: CExpr, ts: Temp -> CType, vs: Temp -> int, x: int,
                                    y: int, t: CType)
    requires Is(l, ts, vs, x, t) && Is(r, ts, vs, y, t) && NotBothInt(CTypeOf(l, ts), CTypeOf(r, ts), t) && y != 0
    requires Fits(Quotient(x, y), Promote(t).bits, Promote(t).signed)
    requires Fits(Remainder(x, y), Promote(t).bits, Promote(t).signed)
    ensures Is(CBinary(CDivide(remainder), l, r), ts, vs, if remainder then Remainder(x, y) else Quotient(x, y), t)
  {
    hide CEval, CTypeOf, Promote, Fits, Near, NotBothInt, Operate, Quotient, Remainder;
    DivideFits(remainder, x, y, Promote(t));
    BinaryIs(CDivide(remainder), l, r, ts, vs, x, y, if remainder then Remainder(x, y) else Quotient(x, y), t);
  }

  lemma {:induction false} AndIs(l: CExpr, r: CExpr, ts: Temp -> CType, vs: Temp -> int, p: bool, q: bool)
    requires CEval(l, ts, vs) == Val(Digit(p)) && (p ==> CEval(r, ts, vs) == Val(Digit(q)))
    ensures CEval(CAnd(l, r), ts, vs) == Val(Digit(p && q))
  {
    hide Operate, Convert, Common, CTypeOf;
  }

  lemma {:induction false} OrIs(l: CExpr, r: CExpr, ts: Temp -> CType, vs: Temp -> int, p: bool, q: bool)
    requires CEval(l, ts, vs) == Val(Digit(p)) && CEval(r, ts, vs) == Val(Digit(q))
    ensures CEval(COr(l, r), ts, vs) == Val(Digit(p || q))
  {
    hide Operate, Convert, Common, CTypeOf;
  }

  lemma {:induction false} CheckIs(c: CExpr, body: CExpr, ts: Temp -> CType, vs: Temp -> int, p: bool)
    requires CEval(c, ts, vs) == Val(Digit(p))
    ensures CEval(CCheck(c, body), ts, vs) == if p then Trap else CEval(body, ts, vs)
  {
  }

  /** The parameters and the constants of a helper. */
  lemma {:induction false} Operands4(t: CType, ts: Temp -> CType, vs: Temp -> int, a: int, b: int)
    requires Operands(t, ts, vs, a, b)
    ensures Is(Lhs(), ts, vs, a, t) && Is(Rhs(), ts, vs, b, t)
    ensures Is(Max(t), ts, vs, MaxOf(t.bits, t.signed), t) && Is(Min(t), ts, vs, MinOf(t.bits, t.signed), t)
    ensures Is(CConst(INT, 0), ts, vs, 0, t)
    ensures t.signed ==> Is(CMinus(CConst(INT, 1)), ts, vs, -1, t)
  {
    FitsPromoted(a, t.bits, t.signed);
    FitsPromoted(b, t.bits, t.signed);
    FitsPromoted(MaxOf(t.bits, t.signed), t.bits, t.signed);
    FitsPromoted(MinOf(t.bits, t.signed), t.bits, t.signed);
    SmallConstants(t, ts, vs);
    hide Promote, Fits;
  }

  lemma {:induction false} SmallConstants(t: CType, ts: Temp -> CType, vs: Temp -> int)
    requires t.CInt?
    ensures Is(CConst(INT, 0), ts, vs, 0, t)
    ensures t.signed ==> Is(CMinus(CConst(INT, 1)), ts, vs, -1, t)
  {
    hide Operate, Convert, ToBits, FromBits;
    Powers();
    MinusStep(CConst(INT, 1), ts, vs, 1);
  }

  ghost predicate Ends(e: CExpr, ts: Temp -> CType, vs: Temp -> int, exact: int, t: CType)
    requires t.CInt?
  {
    CEval(e, ts, vs) == if Fits(exact, t.bits, t.signed) then Val(exact) else Trap
  }

  /** A guard of a signed helper: a test of the sign of `z`, and a comparison of `x` with the bound `bound`
      moved by `z`, which is only made where it cannot overflow. */
  lemma {:induction false} GuardIs(sign: CompareOp, op: CompareOp, move: ArithOp, z: CExpr, x: CExpr, m: CExpr,
                ts: Temp -> CType, vs: Temp -> int, c: int, y: int, bound: int, t: CType)
    requires Is(z, ts, vs, c, t) && Is(x, ts, vs, y, t) && Is(m, ts, vs, bound, t) && Is(CConst(INT, 0), ts, vs, 0, t)
    requires CTypeOf(z, ts) == t && CTypeOf(x, ts) == t
    requires sign.Holds(c, 0) ==> Fits(move.Exact(bound, c), Promote(t).bits, Promote(t).signed)
    ensures CEval(CAnd(CCompare(sign, z, CConst(INT, 0)), CCompare(op, x, CBinary(CArith(move), m, z))), ts, vs) ==
              Val(Digit(sign.Holds(c, 0) && op.Holds(y, move.Exact(bound, c))))
  {
    assert t == INT ==> Promote(t) == INT;
    hide CEval, CTypeOf, Promote, Fits;
    CompareIs(sign, z, CConst(INT, 0), ts, vs, c, 0, t);
    if sign.Holds(c, 0) {
      ArithIs(move, m, z, ts, vs, bound, c, t);
      CompareIs(op, x, CBinary(CArith(move), m, z), ts, vs, y, move.Exact(bound, c), t);
    }
    AndIs(CCompare(sign, z, CConst(INT, 0)), CCompare(op, x, CBinary(CArith(move), m, z)), ts, vs,
      sign.Holds(c, 0), op.Holds(y, move.Exact(bound, c)));
  }

  /** The operation itself, where its exact result fits the type. */
  lemma {:induction false} BodyIs(op: ArithOp, t: CType, ts: Temp -> CType, vs: Temp -> int, a: int, b: int)
    requires Operands(t, ts, vs, a, b) && Fits(op.Exact(a, b), t.bits, t.signed)
    ensures CEval(CBinary(CArith(op), Lhs(), Rhs()), ts, vs) == Val(op.Exact(a, b))
  {
    Operands4(t, ts, vs, a, b);
    FitsPromoted(op.Exact(a, b), t.bits, t.signed);
    hide CEval, Fits, Promote;
    ArithIs(op, Lhs(), Rhs(), ts, vs, a, b, t);
  }

  /** Two checks in a row. */
  lemma {:induction false} TwoChecks(c1: CExpr, c2: CExpr, body: CExpr, ts: Temp -> CType, vs: Temp -> int, p: bool,
                                     q: bool)
    requires CEval(c1, ts, vs) == Val(Digit(p)) && CEval(c2, ts, vs) == Val(Digit(q))
    ensures CEval(CCheck(c1, CCheck(c2, body)), ts, vs) == if p || q then Trap else CEval(body, ts, vs)
  {
    CheckIs(c1, CCheck(c2, body), ts, vs, p);
    CheckIs(c2, body, ts, vs, q);
  }

  lemma {:induction false} PortableSignedAdd(t: CType, ts: Temp -> CType, vs: Temp -> int, a: int, b: int)
    requires Operands(t, ts, vs, a, b) && t.signed
    ensures Ends(Portable(Add, t), ts, vs, a + b, t)
  {
    var l, r, zero, body := Lhs(), Rhs(), CConst(INT, 0), CBinary(CArith(Add), Lhs(), Rhs());
    var max, min := MaxOf(t.bits, t.signed), MinOf(t.bits, t.signed);
    hide CEval, CTypeOf, Promote, Near, NotBothInt, MaxOf, MinOf;
    if Fits(a + b, t.bits, t.signed) {
      BodyIs(Add, t, ts, vs, a, b);
    }
    SignedAddGuard(Gt, t, ts, vs, a, b);
    SignedAddGuard(Lt, t, ts, vs, a, b);
    TwoChecks(CAnd(CCompare(Gt, l, zero), CCompare(Gt, r, Minus(Max(t), l))),
      CAnd(CCompare(Lt, l, zero), CCompare(Lt, r, Minus(Min(t), l))), body, ts, vs,
      a > 0 && b > max - a, a < 0 && b < min - a);
  }

  /** The guard against a sum above the type, or below it. */
  lemma {:induction false} SignedAddGuard(sign: CompareOp, t: CType, ts: Temp -> CType, vs: Temp -> int, a: int, b: int)
    requires Operands(t, ts, vs, a, b) && t.signed && (sign == Gt || sign == Lt)
    ensures var (m, bound) := if sign == Gt then (Max(t), MaxOf(t.bits, t.signed)) else (Min(t), MinOf(t.bits, t.signed));
            CEval(CAnd(CCompare(sign, Lhs(), CConst(INT, 0)), CCompare(sign, Rhs(), Minus(m, Lhs()))), ts, vs) ==
              Val(Digit(sign.Holds(a, 0) && sign.Holds(b, bound - a)))
  {
    var (m, bound) := if sign == Gt then (Max(t), MaxOf(t.bits, t.signed)) else (Min(t), MinOf(t.bits, t.signed));
    OperandTypes(t, ts, vs, a, b);
    assert sign.Holds(a, 0) ==> Fits(Sub.Exact(bound, a), Promote(t).bits, Promote(t).signed) by {
      PromotedRoom(t.bits, t.signed);
    }
    hide CEval, CTypeOf, Promote, Fits, MaxOf, MinOf, Near;
    Operands4(t, ts, vs, a, b);
    GuardIs(sign, sign, Sub, Lhs(), Rhs(), m, ts, vs, a, b, bound, t);
  }

  lemma {:induction false} OperandTypes(t: CType, ts: Temp -> CType, vs: Temp -> int, a: int, b: int)
    requires Operands(t, ts, vs, a, b)
    ensures CTypeOf(Lhs(), ts) == t && CTypeOf(Rhs(), ts) == t && CTypeOf(Max(t), ts) == t && CTypeOf(Min(t), ts) == t
  {
    hide Promote, Fits, Common;
  }

  lemma {:induction false} RoomBelowMax(t: CType, b: int)
    requires t.CInt? && !t.signed && Fits(b, t.bits, t.signed)
    ensures var d := Sub.Exact(MaxOf(t.bits, t.signed), b);
            d == MaxOf(t.bits, t.signed) - b && Fits(d, Promote(t).bits, Promote(t).signed)
  {
    PromotedRoom(t.bits, t.signed);
  }

  lemma {:induction false} UnsignedAddGuard(t: CType, ts: Temp -> CType, vs: Temp -> int, a: int, b: int)
    requires Operands(t, ts, vs, a, b) && !t.signed
    ensures CEval(CCompare(Gt, Lhs(), Minus(Max(t), Rhs())), ts, vs) == Val(Digit(a > MaxOf(t.bits, t.signed) - b))
  {
    var l, r, max := Lhs(), Rhs(), MaxOf(t.bits, t.signed);
    RoomBelowMax(t, b);
    OperandTypes(t, ts, vs, a, b);
    NotInt(CTypeOf(Max(t), ts), CTypeOf(r, ts), t);
    NotInt(CTypeOf(l, ts), CTypeOf(Minus(Max(t), r), ts), t);
    hide CEval, CTypeOf, Promote, Fits, Near, NotBothInt, MaxOf, MinOf;
    Operands4(t, ts, vs, a, b);
    ArithIs(Sub, Max(t), r, ts, vs, max, b, t);
    CompareIs(Gt, l, Minus(Max(t), r), ts, vs, a, max - b, t);
  }

  lemma {:induction false} PortableUnsignedAdd(t: CType, ts: Temp -> CType, vs: Temp -> int, a: int, b: int)
    requires Operands(t, ts, vs, a, b) && !t.signed
    ensures Ends(Portable(Add, t), ts, vs, a + b, t)
  {
    var l, r, body := Lhs(), Rhs(), CBinary(CArith(Add), Lhs(), Rhs());
    hide CEval, CTypeOf, Promote;
    UnsignedAddGuard(t, ts, vs, a, b);
    if Fits(a + b, t.bits, t.signed) {
      BodyIs(Add, t, ts, vs, a, b);
    }
    CheckIs(CCompare(Gt, l, Minus(Max(t), r)), body, ts, vs, a > MaxOf(t.bits, t.signed) - b);
  }

  lemma {:induction false} PortableAdd(t: CType, ts: Temp -> CType, vs: Temp -> int, a: int, b: int)
    requires Operands(t, ts, vs, a, b)
    ensures Ends(Portable(Add, t), ts, vs, a + b, t)
  {
    if t.signed {
      PortableSignedAdd(t, ts, vs, a, b);
    } else {
      PortableUnsignedAdd(t, ts, vs, a, b);
    }
  }

  lemma {:induction false} PortableSignedSub(t: CType, ts: Temp -> CType, vs: Temp -> int, a: int, b: int)
    requires Operands(t, ts, vs, a, b) && t.signed
    ensures Ends(Portable(Sub, t), ts, vs, a - b, t)
  {
    var l, r, zero, body := Lhs(), Rhs(), CConst(INT, 0), CBinary(CArith(Sub), Lhs(), Rhs());
    var max, min := MaxOf(t.bits, t.signed), MinOf(t.bits, t.signed);
    assert CTypeOf(l, ts) == t && CTypeOf(r, ts) == t;
    assert t == INT ==> Promote(t) == INT;
    hide CEval, CTypeOf, Promote;
    Operands4(t, ts, vs, a, b);
    PromotedRoom(t.bits, t.signed);
    if Fits(a - b, t.bits, t.signed) {
      BodyIs(Sub, t, ts, vs, a, b);
    }
    hide Fits;
    GuardIs(Lt, Gt, Add, r, l, Max(t), ts, vs, b, a, max, t);
    GuardIs(Gt, Lt, Add, r, l, Min(t), ts, vs, b, a, min, t);
    TwoChecks(CAnd(CCompare(Lt, r, zero), CCompare(Gt, l, CBinary(CArith(Add), Max(t), r))),
      CAnd(CCompare(Gt, r, zero), CCompare(Lt, l, CBinary(CArith(Add), Min(t), r))), body, ts, vs,
      b < 0 && a > max + b, b > 0 && a < min + b);
  }

  lemma {:induction false} PortableUnsignedSub(t: CType, ts: Temp -> CType, vs: Temp -> int, a: int, b: int)
    requires Operands(t, ts, vs, a, b) && !t.signed
    ensures Ends(Portable(Sub, t), ts, vs, a - b, t)
  {
    var l, r, body := Lhs(), Rhs(), CBinary(CArith(Sub), Lhs(), Rhs());
    assert CTypeOf(l, ts) == t && CTypeOf(r, ts) == t;
    assert t == INT ==> Promote(t) == INT;
    hide CEval, CTypeOf, Promote;
    Operands4(t, ts, vs, a, b);
    PromotedRoom(t.bits, t.signed);
    if Fits(a - b, t.bits, t.signed) {
      BodyIs(Sub, t, ts, vs, a, b);
    }
    hide Fits;
    CompareIs(Lt, l, r, ts, vs, a, b, t);
    CheckIs(CCompare(Lt, l, r), body, ts, vs, a < b);
  }

  lemma {:induction false} PortableSub(t: CType, ts: Temp -> CType, vs: Temp -> int, a: int, b: int)
    requires Operands(t, ts, vs, a, b)
    ensures Ends(Portable(Sub, t), ts, vs, a - b, t)
  {
    if t.signed {
      PortableSignedSub(t, ts, vs, a, b);
    } else {
      PortableUnsignedSub(t, ts, vs, a, b);
    }
  }

  // ---------- Products and quotients ----------

  lemma {:induction false} OverBound(a: int, b: int, m: int)
    requires a > 0 && m >= 0
    ensures b > m / a <==> a * b > m
    ensures 0 <= m / a <= m
  {
    var q := m / a;
    assert m == q * a + m % a;
    DivisionFacts(m, a);
    if b > q {
      MulLe(a, q + 1, b);
      assert a * (q + 1) == q * a + a;
    } else {
      MulLe(a, b, q);
      assert a * q == q * a;
    }
  }

  ghost predicate MulOverflows(a: int, b: int, max: int)
    requires a != 0
  {
    (a > 0 && b > Quotient(max, a)) || (a > 0 && b < Quotient(-max - 1, a)) ||
    (a < 0 && b < Quotient(max, a)) || (a < 0 && b > Quotient(-max - 1, a))
  }

  /** Dividing the bounds by one factor tells whether the product leaves them. */
  lemma {:induction false} MulGuards(a: int, b: int, max: int)
    requires max >= 0 && a != 0 && a != -1
    ensures MulOverflows(a, b, max) <==> a * b > max || a * b < -max - 1
    ensures -max - 1 <= Quotient(max, a) <= max && -max - 1 <= Quotient(-max - 1, a) <= max
  {
    if a > 0 {
      OverBound(a, b, max);
      OverBound(a, -b, max + 1);
      Signs(a, b);
    } else {
      OverBound(-a, -b, max);
      OverBound(-a, b, max + 1);
      Signs(a, b);
      HalfBound(max + 1, -a);
    }
  }

  lemma {:induction false} HalfBound(m: int, a: int)
    requires m >= 1 && a >= 2
    ensures m / a <= m - 1
  {
    var q := m / a;
    DivisionFacts(m, a);
    MulLe(q, 2, a);
  }

  lemma {:induction false} GuardOver(sign: CompareOp, op: CompareOp, m: CExpr, ts: Temp -> CType, vs: Temp -> int,
                  a: int, b: int, bound: int, t: CType)
    requires Operands(t, ts, vs, a, b) && Is(m, ts, vs, bound, t) && CTypeOf(m, ts) == t && a != 0
    requires Fits(Quotient(bound, a), Promote(t).bits, Promote(t).signed) && Promote(t).signed
    ensures CEval(CAnd(CCompare(sign, Lhs(), CConst(INT, 0)), CCompare(op, Rhs(), Over(m, Lhs()))), ts, vs) ==
              Val(Digit(sign.Holds(a, 0) && op.Holds(b, Quotient(bound, a))))
  {
    var l, r, zero := Lhs(), Rhs(), CConst(INT, 0);
    Operands4(t, ts, vs, a, b);
    assert Fits(Remainder(bound, a), Promote(t).bits, Promote(t).signed) by {
      QuotientBounds(bound, a);
      hide Quotient;
    }
    assert CTypeOf(l, ts) == t && CTypeOf(r, ts) == t;
    NotInt(t, INT, t);
    NotInt(t, t, t);
    NotInt(t, CTypeOf(Over(m, l), ts), t);
    hide CEval, CTypeOf, Promote, Fits, Near, NotBothInt, Quotient, Remainder;
    CompareIs(sign, l, zero, ts, vs, a, 0, t);
    DivideIs(false, m, l, ts, vs, bound, a, t);
    CompareIs(op, r, Over(m, l), ts, vs, b, Quotient(bound, a), t);
    AndIs(CCompare(sign, l, zero), CCompare(op, r, Over(m, l)), ts, vs, sign.Holds(a, 0), op.Holds(b, Quotient(bound, a)));
  }

  lemma {:induction false} SignedMulGuardIs(t: CType, ts: Temp -> CType, vs: Temp -> int, a: int, b: int)
    requires Operands(t, ts, vs, a, b) && t.signed
    ensures CEval(SignedMulGuard(t), ts, vs) ==
              Val(Digit(a != 0 && a != -1 && MulOverflows(a, b, MaxOf(t.bits, true))))
  {
    var l, zero, one := Lhs(), CConst(INT, 0), CMinus(CConst(INT, 1));
    var nonzero, other := CCompare(Ne, l, zero), CCompare(Ne, l, one);
    Operands4(t, ts, vs, a, b);
    assert CTypeOf(l, ts) == t && CTypeOf(zero, ts) == INT && CTypeOf(one, ts) == INT;
    NotInt(t, INT, t);
    CompareIs(Ne, l, zero, ts, vs, a, 0, t);
    CompareIs(Ne, l, one, ts, vs, a, -1, t);
    hide CEval, CTypeOf, Near, NotBothInt;
    AndIs(nonzero, other, ts, vs, a != 0, a != -1);
    if a != 0 && a != -1 {
      FourDivisions(t, ts, vs, a, b);
      AndIs(CAnd(nonzero, other), Divisions(t), ts, vs, true, MulOverflows(a, b, MaxOf(t.bits, true)));
    } else {
      AndIs(CAnd(nonzero, other), Divisions(t), ts, vs, false, false);
    }
  }

  function Divisions(t: CType): CExpr
    requires t.CInt?
  {
    SignedMulGuard(t).r
  }

  lemma {:induction false} FourDivisions(t: CType, ts: Temp -> CType, vs: Temp -> int, a: int, b: int)
    requires Operands(t, ts, vs, a, b) && t.signed && a != 0 && a != -1
    ensures CEval(Divisions(t), ts, vs) == Val(Digit(MulOverflows(a, b, MaxOf(t.bits, true))))
  {
    var l, r, zero := Lhs(), Rhs(), CConst(INT, 0);
    var max, min := MaxOf(t.bits, true), MinOf(t.bits, true);
    Operands4(t, ts, vs, a, b);
    PromotedRoom(t.bits, true);
    MulGuards(a, b, max);
    assert CTypeOf(Max(t), ts) == t && CTypeOf(Min(t), ts) == t;
    assert Fits(Quotient(max, a), Promote(t).bits, Promote(t).signed);
    assert Fits(Quotient(min, a), Promote(t).bits, Promote(t).signed);
    hide CEval, CTypeOf, Promote, Fits, Quotient, MaxOf, MinOf;
    GuardOver(Gt, Gt, Max(t), ts, vs, a, b, max, t);
    GuardOver(Gt, Lt, Min(t), ts, vs, a, b, min, t);
    GuardOver(Lt, Lt, Max(t), ts, vs, a, b, max, t);
    GuardOver(Lt, Gt, Min(t), ts, vs, a, b, min, t);
    var p1, p2 := a > 0 && b > Quotient(max, a), a > 0 && b < Quotient(min, a);
    var p3, p4 := a < 0 && b < Quotient(max, a), a < 0 && b > Quotient(min, a);
    var g1, g2 := CAnd(CCompare(Gt, l, zero), CCompare(Gt, r, Over(Max(t), l))), CAnd(CCompare(Gt, l, zero), CCompare(Lt, r, Over(Min(t), l)));
    var g3, g4 := CAnd(CCompare(Lt, l, zero), CCompare(Lt, r, Over(Max(t), l))), CAnd(CCompare(Lt, l, zero), CCompare(Gt, r, Over(Min(t), l)));
    OrIs(g1, g2, ts, vs, p1, p2);
    OrIs(COr(g1, g2), g3, ts, vs, p1 || p2, p3);
    OrIs(COr(COr(g1, g2), g3), g4, ts, vs, p1 || p2 || p3, p4);
  }

  lemma {:induction false} PortableSignedMul(t: CType, ts: Temp -> CType, vs: Temp -> int, a: int, b: int)
    requires Operands(t, ts, vs, a, b) && t.signed
    ensures Ends(Portable(Mul, t), ts, vs, a * b, t)
  {
    var l, r, one, body := Lhs(), Rhs(), CMinus(CConst(INT, 1)), CBinary(CArith(Mul), Lhs(), Rhs());
    var max, min := MaxOf(t.bits, true), MinOf(t.bits, true);
    var c1 := CAnd(CCompare(Eq, l, one), CCompare(Eq, r, Min(t)));
    var c2 := CAnd(CCompare(Eq, r, one), CCompare(Eq, l, Min(t)));
    var p1, p2, p3 := a == -1 && b == min, b == -1 && a == min, a != 0 && a != -1 && MulOverflows(a, b, max);
    MinusOneChecks(t, ts, vs, a, b);
    SignedMulGuardIs(t, ts, vs, a, b);
    PromotedRoom(t.bits, true);
    ProductFits(a, b, max);
    if Fits(a * b, t.bits, t.signed) {
      BodyIs(Mul, t, ts, vs, a, b);
    }
    hide CEval, MulOverflows, MaxOf, MinOf, SignedMulGuard;
    CheckIs(SignedMulGuard(t), body, ts, vs, p3);
    TwoChecks(c1, c2, CCheck(SignedMulGuard(t), body), ts, vs, p1, p2);
  }

  lemma {:induction false} MinusOneChecks(t: CType, ts: Temp -> CType, vs: Temp -> int, a: int, b: int)
    requires Operands(t, ts, vs, a, b) && t.signed
    ensures var one := CMinus(CConst(INT, 1));
            CEval(CAnd(CCompare(Eq, Lhs(), one), CCompare(Eq, Rhs(), Min(t))), ts, vs) ==
              Val(Digit(a == -1 && b == MinOf(t.bits, true))) &&
            CEval(CAnd(CCompare(Eq, Rhs(), one), CCompare(Eq, Lhs(), Min(t))), ts, vs) ==
              Val(Digit(b == -1 && a == MinOf(t.bits, true)))
  {
    var l, r, one, min := Lhs(), Rhs(), CMinus(CConst(INT, 1)), MinOf(t.bits, true);
    Operands4(t, ts, vs, a, b);
    assert CTypeOf(l, ts) == t && CTypeOf(r, ts) == t && CTypeOf(Min(t), ts) == t;
    NotInt(t, INT, t);
    NotInt(t, t, t);
    assert CTypeOf(one, ts) == INT;
    hide CEval, CTypeOf, Near, NotBothInt, MinOf;
    CompareIs(Eq, l, one, ts, vs, a, -1, t);
    CompareIs(Eq, r, one, ts, vs, b, -1, t);
    CompareIs(Eq, l, Min(t), ts, vs, a, min, t);
    CompareIs(Eq, r, Min(t), ts, vs, b, min, t);
    AndIs(CCompare(Eq, l, one), CCompare(Eq, r, Min(t)), ts, vs, a == -1, b == min);
    AndIs(CCompare(Eq, r, one), CCompare(Eq, l, Min(t)), ts, vs, b == -1, a == min);
  }

  lemma {:induction false} ProductFits(a: int, b: int, max: int)
    requires max >= 1 && -max - 1 <= a <= max && -max - 1 <= b <= max
    ensures (-max - 1 <= a * b <= max) <==>
              !(a == -1 && b == -max - 1) && !(b == -1 && a == -max - 1) && !(a != 0 && a != -1 && MulOverflows(a, b, max))
  {
    if a == 0 {
    } else if a == -1 {
      Signs(1, b);
    } else {
      MulGuards(a, b, max);
      if b == -1 {
        Signs(a, 1);
      }
    }
  }

  lemma {:induction false} PortableUnsignedMul(t: CType, ts: Temp -> CType, vs: Temp -> int, a: int, b: int)
    requires Operands(t, ts, vs, a, b) && !t.signed
    ensures Ends(Portable(Mul, t), ts, vs, a * b, t)
  {
    var l, r, zero, body := Lhs(), Rhs(), CConst(INT, 0), CBinary(CArith(Mul), Lhs(), Rhs());
    var max := MaxOf(t.bits, t.signed);
    PromotedRoom(t.bits, t.signed);
    UnsignedMulGuard(t, ts, vs, a, b);
    if a > 0 {
      OverBound(a, b, max);
      MulLe(a, 0, b);
    }
    if Fits(a * b, t.bits, t.signed) {
      BodyIs(Mul, t, ts, vs, a, b);
    }
    hide CEval, MaxOf, MinOf;
    CheckIs(CAnd(CCompare(Ne, l, zero), CCompare(Gt, r, Over(Max(t), l))), body, ts, vs, a != 0 && b > Quotient(max, a));
  }

  lemma {:induction false} UnsignedMulGuard(t: CType, ts: Temp -> CType, vs: Temp -> int, a: int, b: int)
    requires Operands(t, ts, vs, a, b) && !t.signed
    ensures CEval(CAnd(CCompare(Ne, Lhs(), CConst(INT, 0)), CCompare(Gt, Rhs(), Over(Max(t), Lhs()))), ts, vs) ==
              Val(Digit(a != 0 && b > Quotient(MaxOf(t.bits, t.signed), a)))
  {
    var l, r, zero, max := Lhs(), Rhs(), CConst(INT, 0), MaxOf(t.bits, t.signed);
    Operands4(t, ts, vs, a, b);
    if a > 0 {
      UnsignedQuotient(t.bits, max, a);
    }
    assert CTypeOf(l, ts) == t && CTypeOf(r, ts) == t && CTypeOf(Max(t), ts) == t && CTypeOf(zero, ts) == INT;
    NotInt(t, INT, t);
    NotInt(t, t, t);
    NotInt(t, CTypeOf(Over(Max(t), l), ts), t);
    assert a >= 0;
    hide CEval, CTypeOf, Promote, Near, NotBothInt, Quotient, Remainder, MaxOf, Fits;
    CompareIs(Ne, l, zero, ts, vs, a, 0, t);
    if a != 0 {
      DivideIs(false, Max(t), l, ts, vs, max, a, t);
      CompareIs(Gt, r, Over(Max(t), l), ts, vs, b, Quotient(max, a), t);
    }
    AndIs(CCompare(Ne, l, zero), CCompare(Gt, r, Over(Max(t), l)), ts, vs, a != 0, a != 0 && b > Quotient(max, a));
  }

  lemma {:induction false} UnsignedQuotient(n: Bits, max: int, a: int)
    requires max == MaxOf(n, false) && a > 0
    ensures var p := Promote(CInt(n, false));
            Fits(Quotient(max, a), p.bits, p.signed) && Fits(Remainder(max, a), p.bits, p.signed)
  {
    PromotedRoom(n, false);
    DivisionFacts(max, a);
    assert Remainder(max, a) == max - max / a * a;
  }

  // ---------- All helpers ----------

  /** A checked helper yields the exact result if it fits the type, and otherwise stops the program. */
  lemma {:induction false} CheckedHelper(op: ArithOp, t: CType, gnu: bool, ts: Temp -> CType, vs: Temp -> int, a: int,
                                         b: int)
    requires Operands(t, ts, vs, a, b)
    ensures Ends(CCast(t, Helper(op, false, t, gnu)), ts, vs, op.Exact(a, b), t)
  {
    var body := Helper(op, false, t, gnu);
    if gnu {
      BuiltinHelper(op, t, ts, vs, a, b);
    } else {
      match op
      case Add => PortableAdd(t, ts, vs, a, b);
      case Sub => PortableSub(t, ts, vs, a, b);
      case Mul =>
        if t.signed {
          PortableSignedMul(t, ts, vs, a, b);
        } else {
          PortableUnsignedMul(t, ts, vs, a, b);
        }
    }
    assert Ends(body, ts, vs, op.Exact(a, b), t);
    CastStep(t, body, ts, vs);
    hide CEval, Helper;
    if Fits(op.Exact(a, b), t.bits, t.signed) {
      ConvertFitting(op.Exact(a, b), t.bits, t.signed);
    }
  }

  lemma {:induction false} BuiltinHelper(op: ArithOp, t: CType, ts: Temp -> CType, vs: Temp -> int, a: int, b: int)
    requires Operands(t, ts, vs, a, b)
    ensures Ends(Helper(op, false, t, true), ts, vs, op.Exact(a, b), t)
  {
    var exact := op.Exact(a, b);
    WrapFits(exact, t.bits, t.signed);
    if Fits(exact, t.bits, t.signed) {
      WrapFitting(exact, t.bits, t.signed);
    }
    var c := COverflows(op, t, Lhs(), Rhs());
    var p := Wrap(exact, t.bits, t.signed) != exact;
    hide CEval, Wrap, Fits;
    BuiltinStep(op, t, ts, vs, a, b);
    CheckIs(c, CWrapped(op, t, Lhs(), Rhs()), ts, vs, p);
  }

  lemma {:induction false} BuiltinStep(op: ArithOp, t: CType, ts: Temp -> CType, vs: Temp -> int, a: int, b: int)
    requires Operands(t, ts, vs, a, b)
    ensures var exact := op.Exact(a, b);
            var wrapped := Wrap(exact, t.bits, t.signed);
            CEval(COverflows(op, t, Lhs(), Rhs()), ts, vs) == Val(Digit(wrapped != exact)) &&
            CEval(CWrapped(op, t, Lhs(), Rhs()), ts, vs) == Val(wrapped)
  {
    hide CTypeOf, Operate, Common, ToBits, Signed, Unsigned;
    assert CEval(Lhs(), ts, vs) == Val(a) && CEval(Rhs(), ts, vs) == Val(b);
    assert Convert(op.Exact(a, b), t) == Wrap(op.Exact(a, b), t.bits, t.signed);
    hide Wrap, Fits, Convert;
  }

  /** The division helpers stop the program on a zero divisor and on a quotient that does not fit. */
  lemma {:induction false} DivideHelperIs(remainder: bool, t: CType, ts: Temp -> CType, vs: Temp -> int, a: int, b: int)
    requires Operands(t, ts, vs, a, b)
    ensures CEval(CCast(t, DivideHelper(remainder, t)), ts, vs) ==
              match DivideValue(remainder, a, b, Int(t.bits, t.signed)) {
                case Some(v) => Val(v)
                case None => Trap
              }
  {
    var l, r, zero, one := Lhs(), Rhs(), CConst(INT, 0), CMinus(CConst(INT, 1));
    var body, min := CBinary(CDivide(remainder), Lhs(), Rhs()), MinOf(t.bits, true);
    DivideBody(remainder, t, ts, vs, a, b);
    Operands4(t, ts, vs, a, b);
    NotInt(t, INT, t);
    assert CTypeOf(r, ts) == t && CTypeOf(zero, ts) == INT;
    CompareIs(Eq, r, zero, ts, vs, b, 0, t);
    CastStep(t, DivideHelper(remainder, t), ts, vs);
    if t.signed {
      MinCheck(t, ts, vs, a, b);
      hide CEval, CTypeOf, DivideValue, MinOf, Convert, Fits;
      TwoChecks(CCompare(Eq, r, zero), CAnd(CCompare(Eq, l, Min(t)), CCompare(Eq, r, one)), body, ts, vs,
        b == 0, a == min && b == -1);
    } else {
      hide CEval, CTypeOf, DivideValue, MinOf, Convert, Fits;
      CheckIs(CCompare(Eq, r, zero), body, ts, vs, b == 0);
    }
  }

  lemma {:induction false} MinCheck(t: CType, ts: Temp -> CType, vs: Temp -> int, a: int, b: int)
    requires Operands(t, ts, vs, a, b) && t.signed
    ensures CEval(CAnd(CCompare(Eq, Lhs(), Min(t)), CCompare(Eq, Rhs(), CMinus(CConst(INT, 1)))), ts, vs) ==
              Val(Digit(a == MinOf(t.bits, true) && b == -1))
  {
    var l, r, one, min := Lhs(), Rhs(), CMinus(CConst(INT, 1)), MinOf(t.bits, true);
    Operands4(t, ts, vs, a, b);
    assert CTypeOf(l, ts) == t && CTypeOf(r, ts) == t && CTypeOf(Min(t), ts) == t && CTypeOf(one, ts) == INT;
    NotInt(t, INT, t);
    NotInt(t, t, t);
    hide CEval, CTypeOf, Near, NotBothInt, MinOf;
    CompareIs(Eq, r, one, ts, vs, b, -1, t);
    CompareIs(Eq, l, Min(t), ts, vs, a, min, t);
    AndIs(CCompare(Eq, l, Min(t)), CCompare(Eq, r, one), ts, vs, a == min, b == -1);
  }

  /** The quotient of two values of a type fits it, except that of the least value and -1. */
  lemma {:induction false} DivideBody(remainder: bool, t: CType, ts: Temp -> CType, vs: Temp -> int, a: int, b: int)
    requires Operands(t, ts, vs, a, b)
    ensures DivideValue(remainder, a, b, Int(t.bits, t.signed)).None? <==>
              b == 0 || (t.signed && a == MinOf(t.bits, true) && b == -1)
    ensures DivideValue(remainder, a, b, Int(t.bits, t.signed)).Some? ==>
              var v := DivideValue(remainder, a, b, Int(t.bits, t.signed)).value;
              CEval(CBinary(CDivide(remainder), Lhs(), Rhs()), ts, vs) == Val(v) && Convert(v, t) == v
  {
    QuotientFits(t, a, b);
    if b != 0 && Fits(Quotient(a, b), t.bits, t.signed) {
      DivideEvaluates(remainder, t, ts, vs, a, b);
    }
    hide CEval, Convert, Quotient, Remainder, Fits;
  }

  lemma {:induction false} QuotientFits(t: CType, a: int, b: int)
    requires t.CInt? && Fits(a, t.bits, t.signed) && Fits(b, t.bits, t.signed)
    ensures b != 0 ==> (Fits(Quotient(a, b), t.bits, t.signed) <==> !(t.signed && a == MinOf(t.bits, true) && b == -1))
    ensures b != 0 && Fits(Quotient(a, b), t.bits, t.signed) ==> Fits(Remainder(a, b), t.bits, t.signed)
  {
    PromotedRoom(t.bits, t.signed);
    if b != 0 {
      QuotientRange(a, b, MinOf(t.bits, t.signed), MaxOf(t.bits, t.signed));
      hide Quotient, Remainder;
    }
  }

  lemma {:induction false} DivideEvaluates(remainder: bool, t: CType, ts: Temp -> CType, vs: Temp -> int, a: int,
                                           b: int)
    requires Operands(t, ts, vs, a, b) && b != 0
    requires Fits(Quotient(a, b), t.bits, t.signed) && Fits(Remainder(a, b), t.bits, t.signed)
    ensures var v := if remainder then Remainder(a, b) else Quotient(a, b);
            CEval(CBinary(CDivide(remainder), Lhs(), Rhs()), ts, vs) == Val(v) && Convert(v, t) == v
  {
    var q, m := Quotient(a, b), Remainder(a, b);
    assert CTypeOf(Lhs(), ts) == t && CTypeOf(Rhs(), ts) == t;
    hide CEval, CTypeOf, Quotient, Remainder, Fits, Promote, Near, NotBothInt, Convert;
    FitsPromoted(q, t.bits, t.signed);
    FitsPromoted(m, t.bits, t.signed);
    Operands4(t, ts, vs, a, b);
    NotInt(t, t, t);
    ConvertFitting(if remainder then m else q, t.bits, t.signed);
    DivideIs(remainder, Lhs(), Rhs(), ts, vs, a, b, t);
  }

  lemma {:induction false} QuotientRange(a: int, b: int, min: int, max: int)
    requires min <= a <= max && min <= b <= max && b != 0 && (min == 0 || min == -max - 1) && max >= 1
    ensures min <= Quotient(a, b) <= max <==> !(min < 0 && a == min && b == -1)
    ensures min <= Quotient(a, b) <= max ==> min <= Remainder(a, b) <= max
  {
    QuotientBounds(a, b);
    if a == min && b != -1 && Abs(b) >= 2 && a != 0 {
      HalfBound(Abs(a), Abs(b));
    }
  }

  /** The promoted type has room for everything between the bounds of a type. */
  lemma {:induction false} PromotedRoom(n: Bits, signed: bool)
    ensures var p := Promote(CInt(n, signed));
            forall x :: MinOf(n, signed) <= x <= MaxOf(n, signed) <==> Fits(x, n, signed)
    ensures var p := Promote(CInt(n, signed));
            forall x :: MinOf(n, signed) <= x <= MaxOf(n, signed) ==> Fits(x, p.bits, p.signed)
    ensures signed ==> MinOf(n, true) == -MaxOf(n, true) - 1
    ensures MaxOf(n, signed) >= 127 && (!signed ==> MinOf(n, signed) == 0)
  {
    Bounds(n);
    Powers();
  }
}
