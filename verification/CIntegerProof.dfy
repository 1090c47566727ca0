// Emitted C operations on values in range: what each of them yields.

module CIntegerProof {
  import opened Wrappers
  import opened BitArray
  import opened Evaluate
  import opened EvaluateProof
  import opened CInteger
  import opened StrGen

  lemma {:induction false} Powers()
    ensures Pow2(1) == 2 && Pow2(7) == 0x80 && Pow2(8) == 0x100 && Pow2(15) == 0x8000 && Pow2(16) == 0x1_0000
    ensures Pow2(31) == 0x8000_0000 && Pow2(32) == 0x1_0000_0000
    ensures Pow2(63) == 0x8000_0000_0000_0000 && Pow2(64) == 0x1_0000_0000_0000_0000
  {
    assert Pow2(2) == 4;
    assert Pow2(4) == 16;
    assert Pow2(6) == 64;
    assert Pow2(7) == 128;
    Pow2Add(8, 7);
    Pow2Add(8, 8);
    Pow2Add(16, 15);
    Pow2Add(16, 16);
    Pow2Add(32, 31);
    Pow2Add(32, 32);
  }

  /** The bounds of a type as numbers. */
  lemma {:induction false} Bounds(n: Bits)
    ensures Pow2(n) == 2 * Pow2((n as nat) - 1)
    ensures n == 8 ==> Pow2(n) == 0x100
    ensures n == 16 ==> Pow2(n) == 0x1_0000
    ensures n == 32 ==> Pow2(n) == 0x1_0000_0000
    ensures n == 64 ==> Pow2(n) == 0x1_0000_0000_0000_0000
  {
    Powers();
  }

  lemma {:induction false} ConvertFitting(v: int, n: Bits, signed: bool)
    requires Fits(v, n, signed)
    ensures Convert(v, CInt(n, signed)) == v
  {
    WrapFitting(v, n, signed);
  }

  lemma {:induction false} FitsPromoted(v: int, n: Bits, signed: bool)
    requires Fits(v, n, signed)
    ensures var p := Promote(CInt(n, signed)); Fits(v, p.bits, p.signed)
  {
    Bounds(n);
    Powers();
  }

  /** What arithmetic in the promoted type gives when the exact result fits. */
  lemma {:induction false} ArithFits(op: ArithOp, a: int, b: int, p: CType)
    requires p.CInt? && Fits(op.Exact(a, b), p.bits, p.signed)
    ensures Operate(CArith(op), a, b, p) == Val(op.Exact(a, b))
  {
    ConvertFitting(op.Exact(a, b), p.bits, p.signed);
  }

  // One step of an evaluation.

  lemma {:induction false} CastStep(t: CType, e: CExpr, ts: Temp -> CType, vs: Temp -> int)
    ensures CEval(CCast(t, e), ts, vs) ==
              var r := CEval(e, ts, vs); if r.Val? then Val(Convert(r.v, t)) else r
  {
  }

  lemma {:induction false} CastType(t: CType, e: CExpr, ts: Temp -> CType)
    ensures CTypeOf(CCast(t, e), ts) == t
  {
  }

  lemma {:induction false} ConstIs(t: CType, v: int, ts: Temp -> CType, vs: Temp -> int)
    ensures CEval(CConst(t, v), ts, vs) == Val(v) && CTypeOf(CConst(t, v), ts) == t
  {
  }

  lemma {:induction false} VarIs(x: Temp, ts: Temp -> CType, vs: Temp -> int)
    ensures CEval(CVar(x), ts, vs) == Val(vs(x)) && CTypeOf(CVar(x), ts) == ts(x)
  {
  }

  lemma {:induction false} MinusStep(e: CExpr, ts: Temp -> CType, vs: Temp -> int, v: int)
    requires CEval(e, ts, vs) == Val(v)
    ensures CEval(CMinus(e), ts, vs) == InType(-v, Promote(CTypeOf(e, ts)))
    ensures CTypeOf(CMinus(e), ts) == Promote(CTypeOf(e, ts))
  {
    hide InType, Promote, Convert, Operate, Common;
  }

  lemma {:induction false} ShrStep(l: CExpr, r: CExpr, ts: Temp -> CType, vs: Temp -> int, a: int, b: nat)
    requires CEval(l, ts, vs) == Val(a) && CEval(r, ts, vs) == Val(b) && b < Promote(CTypeOf(l, ts)).bits
    ensures CEval(CShr(l, r), ts, vs) == Val(Shifted(a, b)) && CTypeOf(CShr(l, r), ts) == Promote(CTypeOf(l, ts))
  {
    hide Shifted, Operate, Convert, Common, ToBits, FromBits, Complement, InType;
  }

  lemma {:induction false} ShlStep(l: CExpr, r: CExpr, ts: Temp -> CType, vs: Temp -> int, a: int, b: nat)
    requires CEval(l, ts, vs) == Val(a) && CEval(r, ts, vs) == Val(b) && b < Promote(CTypeOf(l, ts)).bits && a >= 0
    ensures CEval(CShl(l, r), ts, vs) == InType(a * Pow2(b), Promote(CTypeOf(l, ts)))
    ensures CTypeOf(CShl(l, r), ts) == Promote(CTypeOf(l, ts))
  {
    hide InType;
  }

  lemma {:induction false} CondStep(c: CExpr, l: CExpr, r: CExpr, ts: Temp -> CType, vs: Temp -> int, p: bool, v: int)
    requires CEval(c, ts, vs) == Val(Digit(p)) && CEval(if p then l else r, ts, vs) == Val(v)
    ensures CEval(CCond(c, l, r), ts, vs) == Val(Convert(v, Common(CTypeOf(l, ts), CTypeOf(r, ts))))
    ensures CTypeOf(CCond(c, l, r), ts) == Common(CTypeOf(l, ts), CTypeOf(r, ts))
  {
    hide Convert;
  }

  lemma {:induction false} CheckType(c: CExpr, body: CExpr, ts: Temp -> CType)
    ensures CTypeOf(CCheck(c, body), ts) == CTypeOf(body, ts)
  {
  }

  lemma {:induction false} LetStep(x: Temp, t: CType, e: CExpr, body: CExpr, ts: Temp -> CType, vs: Temp -> int, v: int)
    requires CEval(e, ts, vs).Val? && Convert(CEval(e, ts, vs).v, t) == v
    ensures CEval(CLet(x, t, e, body), ts, vs) == CEval(body, With(ts, x, t), With(vs, x, v))
    ensures CTypeOf(CLet(x, t, e, body), ts) == CTypeOf(body, With(ts, x, t))
  {
    hide Convert;
  }

  lemma {:induction false} BinaryStep(op: COp, l: CExpr, r: CExpr, ts: Temp -> CType, vs: Temp -> int, a: int, b: int,
                                      t: CType)
    requires CEval(l, ts, vs) == Val(a) && CEval(r, ts, vs) == Val(b) && t == Common(CTypeOf(l, ts), CTypeOf(r, ts))
    ensures CEval(CBinary(op, l, r), ts, vs) == Operate(op, Convert(a, t), Convert(b, t), t)
  {
    hide Operate, Convert, Common, CTypeOf;
  }

  // The operands of a helper: its parameters, in the type `t`.
  ghost predicate Operands(t: CType, ts: Temp -> CType, vs: Temp -> int, a: int, b: int) {
    t.CInt? && ts(TmpLhs) == t && ts(TmpRhs) == t && vs(TmpLhs) == a && vs(TmpRhs) == b &&
    Fits(a, t.bits, t.signed) && Fits(b, t.bits, t.signed)
  }

  // ---------- Wrapping helpers ----------

  lemma {:induction false} BitsAdd(x: int, y: int, x': int, y': int, n: nat)
    requires ToBits(x, n) == ToBits(x', n) && ToBits(y, n) == ToBits(y', n)
    ensures ToBits(x + y, n) == ToBits(x' + y', n)
  {
    SameBits(x, x', n);
    SameBits(y, y', n);
    var j :| Differ(x, x', j, n);
    var k :| Differ(y, y', k, n);
    assert (j + k) * Pow2(n) == j * Pow2(n) + k * Pow2(n);
    assert Differ(x + y, x' + y', j + k, n);
    SameBits(x + y, x' + y', n);
  }

  lemma {:induction false} BitsMul(x: int, y: int, x': int, y': int, n: nat)
    requires ToBits(x, n) == ToBits(x', n) && ToBits(y, n) == ToBits(y', n)
    ensures ToBits(x * y, n) == ToBits(x' * y', n)
  {
    SameBits(x, x', n);
    SameBits(y, y', n);
    var j :| Differ(x, x', j, n);
    var k :| Differ(y, y', k, n);
    var p := Pow2(n);
    ProductExpands(x', y', j, k, p);
    assert Differ(x * y, x' * y', x' * k + j * y' + j * k * p, n);
    SameBits(x * y, x' * y', n);
  }

  lemma {:induction false} ProductExpands(x: int, y: int, j: int, k: int, p: int)
    ensures (x + j * p) * (y + k * p) == x * y + (x * k + j * y + j * k * p) * p
  {
  }

  lemma {:induction false} BitsExact(op: ArithOp, x: int, y: int, x': int, y': int, n: nat)
    requires ToBits(x, n) == ToBits(x', n) && ToBits(y, n) == ToBits(y', n)
    ensures ToBits(op.Exact(x, y), n) == ToBits(op.Exact(x', y'), n)
  {
    match op
    case Add => BitsAdd(x, y, x', y', n);
    case Sub =>
      NegSame(y, y', n);
      BitsAdd(x, -y, x', -y', n);
      assert x + -y == x - y && x' + -y' == x' - y';
    case Mul => BitsMul(x, y, x', y', n);
  }

  /** The operands of the portable wrapping helpers, as they enter the operation. */
  function UnsignedOf(v: int, n: Bits): int {
    Wrap(v, n, false)
  }

  /** Where the portable wrapping product is made in `int`, and overflows. */
  predicate Overflows(op: ArithOp, wrapping: bool, n: Bits, gnu: bool, a: int, b: int) {
    !gnu && wrapping && op.Mul? && n == 16 && UnsignedOf(a, 16) * UnsignedOf(b, 16) >= 0x8000_0000
  }

  lemma {:induction false} WrappingHelper(op: ArithOp, t: CType, gnu: bool, ts: Temp -> CType, vs: Temp -> int, a: int,
                                          b: int)
    requires Operands(t, ts, vs, a, b)
    ensures CEval(CCast(t, Helper(op, true, t, gnu)), ts, vs) ==
            if Overflows(op, true, t.bits, gnu, a, b) then Undefined else Val(Wrap(op.Exact(a, b), t.bits, t.signed))
  {
    hide CEval, Helper, UnsignedOf;
    if gnu {
      GnuWrapping(op, t, ts, vs, a, b);
    } else if op.Mul? && t.bits == 16 {
      PortableProductUndefined(t, ts, vs, a, b);
    } else {
      PortableWrapping(op, t, ts, vs, a, b);
    }
  }

  lemma {:induction false} GnuWrapping(op: ArithOp, t: CType, ts: Temp -> CType, vs: Temp -> int, a: int, b: int)
    requires Operands(t, ts, vs, a, b)
    ensures CEval(CCast(t, Helper(op, true, t, true)), ts, vs) == Val(Wrap(op.Exact(a, b), t.bits, t.signed))
  {
    assert CEval(Helper(op, true, t, true), ts, vs) == Val(Wrap(op.Exact(a, b), t.bits, t.signed));
    WrapNarrow(op.Exact(a, b), t.bits, t.signed, t.bits, t.signed);
  }

  lemma {:induction false} PortableWrapping(op: ArithOp, t: CType, ts: Temp -> CType, vs: Temp -> int, a: int, b: int)
    requires Operands(t, ts, vs, a, b) && !(op.Mul? && t.bits == 16)
    ensures CEval(CCast(t, Helper(op, true, t, false)), ts, vs) == Val(Wrap(op.Exact(a, b), t.bits, t.signed))
  {
    var n := t.bits;
    var x, y := Entering(a, t), Entering(b, t);
    PortableOperand(a, t);
    PortableOperand(b, t);
    PortableBody(op, t, ts, vs, a, b);
    hide CEval, Helper, Operate, Entering;
    PortableExact(op, n, x, y);
    BitsExact(op, x, y, a, b, n);
    var r := Operate(CArith(op), x, y, Promote(CInt(n, false)));
    WrapNarrow(r.v, n, t.signed, n, t.signed);
    WrapSame(r.v, op.Exact(a, b), n, t.signed);
  }

  /** The operand of a portable wrapping helper, as it enters the operation. */
  function Entering(v: int, t: CType): int
    requires t.CInt?
  {
    if t.signed then Wrap(v, t.bits, false) else v
  }

  /** An operand enters the operation as its unsigned counterpart, promoted. */
  lemma {:induction false} PortableOperand(v: int, t: CType)
    requires t.CInt? && Fits(v, t.bits, t.signed)
    ensures Fits(Entering(v, t), t.bits, false) && ToBits(Entering(v, t), t.bits) == ToBits(v, t.bits)
    ensures Convert(Entering(v, t), Promote(CInt(t.bits, false))) == Entering(v, t)
    ensures Entering(v, t) == UnsignedOf(v, t.bits)
  {
    WrapFits(v, t.bits, false);
    if !t.signed {
      WrapFitting(v, t.bits, false);
    }
    FitsPromoted(Entering(v, t), t.bits, false);
    var p := Promote(CInt(t.bits, false));
    ConvertFitting(Entering(v, t), p.bits, p.signed);
  }

  lemma {:induction false} PortableBody(op: ArithOp, t: CType, ts: Temp -> CType, vs: Temp -> int, a: int, b: int)
    requires Operands(t, ts, vs, a, b)
    ensures var r := Operate(CArith(op), Entering(a, t), Entering(b, t), Promote(CInt(t.bits, false)));
            CEval(CCast(t, Helper(op, true, t, false)), ts, vs) ==
              (if !r.Val? then r else if t.signed then Val(Convert(Convert(r.v, t), t)) else Val(Convert(r.v, t)))
  {
    PortableOperand(a, t);
    PortableOperand(b, t);
    var u := CInt(t.bits, false);
    CastStep(u, Lhs(), ts, vs);
    CastStep(u, Rhs(), ts, vs);
    CastStep(t, Helper(op, true, t, false), ts, vs);
    assert CEval(Lhs(), ts, vs) == Val(a) && CEval(Rhs(), ts, vs) == Val(b);
    if t.signed {
      var l, r := CCast(u, Lhs()), CCast(u, Rhs());
      BinaryStep(CArith(op), l, r, ts, vs, Entering(a, t), Entering(b, t), Promote(u));
      CastStep(t, CBinary(CArith(op), l, r), ts, vs);
      hide CEval, Operate, ToBits, Fits, UnsignedOf;
    } else {
      BinaryStep(CArith(op), Lhs(), Rhs(), ts, vs, a, b, Promote(u));
      hide CEval, Operate, ToBits, Fits, UnsignedOf;
    }
  }

  /** In `int` nothing but a product of 16-bit values can overflow; wider types wrap. */
  lemma {:induction false} PortableExact(op: ArithOp, n: Bits, x: int, y: int)
    requires Fits(x, n, false) && Fits(y, n, false) && !(op.Mul? && n == 16)
    ensures var r := Operate(CArith(op), x, y, Promote(CInt(n, false)));
            r.Val? && ToBits(r.v, n) == ToBits(op.Exact(x, y), n)
  {
    Bounds(n);
    Powers();
    var p := Promote(CInt(n, false));
    if n < 32 {
      if op.Mul? {
        MulLe(x, y, 255);
        MulLe(255, x, 255);
        MulLe(x, 0, y);
      }
    } else {
      WrapFits(op.Exact(x, y), n, false);
    }
  }

  /** The product of two 16-bit values without builtins is undefined exactly when the product of their
      unsigned counterparts does not fit `int`. */
  lemma {:induction false} PortableProductUndefined(t: CType, ts: Temp -> CType, vs: Temp -> int, a: int, b: int)
    requires Operands(t, ts, vs, a, b) && t.bits == 16
    ensures CEval(CCast(t, Helper(Mul, true, t, false)), ts, vs).Undefined? <==>
              UnsignedOf(a, 16) * UnsignedOf(b, 16) >= 0x8000_0000
    ensures !CEval(CCast(t, Helper(Mul, true, t, false)), ts, vs).Undefined? ==>
              CEval(CCast(t, Helper(Mul, true, t, false)), ts, vs) == Val(Wrap(a * b, 16, t.signed))
  {
    Powers();
    PortableBody(Mul, t, ts, vs, a, b);
    PortableOperand(a, t);
    PortableOperand(b, t);
    hide CEval, Helper;
    var x, y := UnsignedOf(a, 16), UnsignedOf(b, 16);
    MulLe(x, 0, y);
    BitsMul(x, y, a, b, 16);
    if x * y < 0x8000_0000 {
      WrapNarrow(x * y, 16, t.signed, 16, t.signed);
      WrapSame(x * y, a * b, 16, t.signed);
    }
  }

  lemma {:induction false} PortableProductExample()
    ensures UnsignedOf(65535, 16) * UnsignedOf(65535, 16) >= 0x8000_0000
  {
    Powers();
    WrapFitting(65535, 16, false);
  }
}
