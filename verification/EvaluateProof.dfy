// What compile-time evaluation computes, without bits.

module EvaluateProof {
  import opened Wrappers
  import opened BitArray
  import opened Evaluate

  /** The value of `x` in an integer type: the low bits, read with or without a sign. */
  function Wrap(x: int, n: nat, signed: bool): int
    requires n > 0
  {
    FromBits(ToBits(x, n), signed)
  }

  lemma {:induction false} FromBitsFits(bits: seq<bool>, signed: bool)
    requires bits != []
    ensures Fits(FromBits(bits, signed), |bits|, signed) && ToBits(FromBits(bits, signed), |bits|) == bits
  {
    if signed {
      SignedBits(bits);
    } else {
      UnsignedBits(bits);
    }
  }

  lemma {:induction false} WrapFits(x: int, n: nat, signed: bool)
    requires n > 0
    ensures Fits(Wrap(x, n, signed), n, signed) && ToBits(Wrap(x, n, signed), n) == ToBits(x, n)
  {
    FromBitsFits(ToBits(x, n), signed);
  }

  lemma {:induction false} WrapFitting(x: int, n: nat, signed: bool)
    requires n > 0 && Fits(x, n, signed)
    ensures Wrap(x, n, signed) == x
  {
    if signed {
      BitsSigned(x, n);
    } else {
      BitsUnsigned(x, n);
    }
  }

  /** The wrapped value is the one value of the type that is congruent to `x` modulo 2^n. */
  lemma {:induction false} WrapIsUnique(x: int, v: int, n: nat, signed: bool)
    requires n > 0
    ensures v == Wrap(x, n, signed) <==> Fits(v, n, signed) && Congruent(v, x, n)
  {
    WrapFits(x, n, signed);
    SameBits(Wrap(x, n, signed), x, n);
    if Fits(v, n, signed) && Congruent(v, x, n) {
      SameBits(v, x, n);
      WrapFitting(v, n, signed);
    }
  }

  /** Only the low bits matter. */
  lemma {:induction false} WrapSame(x: int, y: int, n: nat, signed: bool)
    requires n > 0 && ToBits(x, n) == ToBits(y, n)
    ensures Wrap(x, n, signed) == Wrap(y, n, signed)
  {
  }

  lemma {:induction false} WrapNarrow(x: int, m: nat, s: bool, n: nat, signed: bool)
    requires 0 < n <= m
    ensures Wrap(Wrap(x, m, s), n, signed) == Wrap(x, n, signed) && ToBits(Wrap(x, m, s), n) == ToBits(x, n)
  {
    WrapFits(x, m, s);
    Trim(Wrap(x, m, s), m, n);
    Trim(x, m, n);
  }

  // ---------- Casts ----------

  lemma {:induction false} BitsOfZero(n: nat)
    ensures ToBits(0, n) == Same(false, n) && Unsigned(Same(false, n)) == 0
    decreases n
  {
    if n > 0 {
      BitsOfZero(n - 1);
      assert Same(false, n)[1..] == Same(false, n - 1);
    }
  }

  lemma {:induction false} NonZeroBits(v: int, t: Type)
    requires t.Has(v)
    ensures Unsigned(ToBits(v, t.Width())) == 0 <==> v == 0
  {
    var n := t.Width();
    HasFits(t, v);
    BitsOfZero(n);
    if Unsigned(ToBits(v, n)) == 0 {
      UnsignedBits(ToBits(v, n));
      WrapSame(v, 0, n, t.IsSigned());
      WrapFitting(v, n, t.IsSigned());
      WrapZero(n, t.IsSigned());
    }
  }

  lemma {:induction false} WrapZero(n: nat, signed: bool)
    requires n > 0
    ensures Wrap(0, n, signed) == 0
  {
    WrapFitting(0, n, signed);
  }

  lemma {:induction false} HasFits(t: Type, v: int)
    requires t.Has(v)
    ensures Fits(v, t.Width(), t.IsSigned())
  {
    if t.Bool? {
      assert Pow2(8) == 2 * Pow2(7);
    }
  }

  /** Resizing the bits of a value with its sign gives the bits of the value at the new size. */
  lemma {:induction false} ResizeIs(v: int, n: nat, signed: bool, m: nat)
    requires n > 0 && Fits(v, n, signed)
    ensures Resize(ToBits(v, n), signed && ToBits(v, n)[n - 1], m) == ToBits(v, m)
  {
    if m <= n {
      Trim(v, n, m);
    } else {
      Extend(v, n, signed, m);
      if signed {
        SignBit(v, n);
      }
    }
  }

  /** A cast to an integer, an enum or a byte wraps; a cast to a boolean asks for zero. */
  lemma {:induction false} CastIs(v: int, from: Type, to: Type)
    requires from.Has(v)
    ensures CastValue(v, from, to) == if to.Bool? then Digit(v != 0) else Wrap(v, to.Width(), to.IsSigned())
  {
    HasFits(from, v);
    if to.Bool? {
      NonZeroBits(v, from);
    } else {
      ResizeIs(v, from.Width(), from.IsSigned(), to.Width());
    }
  }

  /** The result of a cast is the unique value of the target type congruent to the source value modulo
      two to the target's width: sign and zero extension, and truncation. */
  lemma {:induction false} CastIsUnique(v: int, from: Type, to: Type, r: int)
    requires from.Has(v) && !to.Bool?
    ensures r == CastValue(v, from, to) <==> to.Has(r) && Congruent(r, v, to.Width())
  {
    CastIs(v, from, to);
    WrapIsUnique(v, r, to.Width(), to.IsSigned());
  }

  // ---------- Operators ----------

  lemma {:induction false} NegStep(x: int, n: nat)
    requires n > 0
    ensures ToBits(-x, n) == [x % 2 == 1] +
              (if x % 2 == 0 then ToBits(-(x / 2), n - 1) else Complement(ToBits(x / 2, n - 1)))
  {
    if x % 2 == 1 {
      ComplementIs(x / 2, n - 1);
      assert (-x) / 2 == -(x / 2) - 1;
    } else {
      assert (-x) / 2 == -(x / 2);
    }
  }

  lemma {:induction false} NegSame(x: int, y: int, n: nat)
    requires ToBits(x, n) == ToBits(y, n)
    ensures ToBits(-x, n) == ToBits(-y, n)
    decreases n
  {
    if n > 0 {
      var h, k := x / 2, y / 2;
      assert ToBits(x, n)[0] == ToBits(y, n)[0] && ToBits(x, n)[1..] == ToBits(y, n)[1..];
      assert ToBits(h, n - 1) == ToBits(k, n - 1);
      NegStep(x, n);
      NegStep(y, n);
      if x % 2 == 0 {
        NegSame(h, k, n - 1);
      }
    }
  }

  lemma {:induction false} NegWrappingIs(v: int, t: Type)
    ensures NegWrappingValue(v, t) == Wrap(-v, t.Width(), true)
  {
    hide ToBits, Unsigned, Signed, Pow2;
    var n := t.Width();
    UnsignedBits(ToBits(v, n));
    NegSame(Unsigned(ToBits(v, n)), v, n);
  }

  lemma {:induction false} BitNotIs(v: int, n: nat, signed: bool)
    requires n > 0
    ensures FromBits(Complement(ToBits(v, n)), signed) == Wrap(-v - 1, n, signed)
  {
    ComplementIs(v, n);
  }

  lemma {:induction false} ShlIs(v: int, count: nat, t: Type)
    ensures ShlValue(v, count, t) == Wrap(v * Pow2(count), t.Width(), t.IsSigned())
  {
    ShiftLeftIs(v, t.Width(), count);
  }

  lemma {:induction false} ShrIs(v: int, count: nat, t: Type)
    requires t.Has(v) && t.Int?
    ensures ShrValue(v, count, t) == Shifted(v, count) && t.Has(Shifted(v, count))
  {
    ShiftRightIs(v, t.Width(), t.IsSigned(), count);
    WrapFitting(Shifted(v, count), t.Width(), t.IsSigned());
  }

  /** A magnitude that needs at most `n` bits. */
  ghost predicate MagnitudeFits(x: int, n: nat) {
    -Pow2(n) < x < Pow2(n)
  }

  lemma {:induction false} Pow2Add(n: nat, m: nat)
    ensures Pow2(n + m) == Pow2(n) * Pow2(m)
    decreases n
  {
    if n > 0 {
      Pow2Add(n - 1, m);
      assert Pow2(n + m) == 2 * (Pow2(n - 1) * Pow2(m));
    }
  }

  lemma {:induction false} MulLe(x: int, y: int, z: int)
    requires 0 <= x && y <= z
    ensures x * y <= x * z
  {
    assert x * (z - y) >= 0;
  }

  lemma {:induction false} Signs(x: int, y: int)
    ensures (-x) * y == -(x * y) && x * (-y) == -(x * y) && (-x) * (-y) == x * y
  {
  }

  lemma {:induction false} ProductBound(a: int, b: int, p: int)
    requires -p < a < p && -p < b < p
    ensures -(p * p) < a * b < p * p
  {
    var x: int, y: int := Abs(a), Abs(b);
    MulLe(x, y, p - 1);
    MulLe(p - 1, x, p - 1);
    assert (p - 1) * x == x * (p - 1);
    assert (p - 1) * (p - 1) == p * p - 2 * p + 1;
    Signs(x, y);
    assert 0 <= x * y by {
      MulLe(x, 0, y);
    }
  }

  lemma {:induction false} TwicePlusSquare(p: int)
    requires p >= 2
    ensures 2 * p <= p * p
  {
    MulLe(p, 2, p);
  }

  lemma {:induction false} FitsMagnitude(x: int, n: nat, signed: bool)
    requires n > 0 && Fits(x, n, signed)
    ensures -Pow2(n) < x < Pow2(n)
  {
  }

  lemma {:induction false} ExactBound(op: ArithOp, a: int, b: int, p: int)
    requires p >= 2 && -p < a < p && -p < b < p
    ensures -(p * p) < op.Exact(a, b) < p * p
  {
    if op.Mul? {
      ProductBound(a, b, p);
    } else {
      TwicePlusSquare(p);
    }
  }

  /** The exact sum, difference or product of two values always fits a bit array of twice their width, so
      the wrapping operations never fail; and the trimmed result is the exact one, wrapped. */
  lemma {:induction false} WrappingIs(op: ArithOp, a: int, b: int, t: Type)
    requires t.Int? && t.Has(a) && t.Has(b)
    ensures MagnitudeFits(op.Exact(a, b), 2 * t.Width())
    ensures WrappingValue(op, a, b, t) == Wrap(op.Exact(a, b), t.Width(), t.IsSigned())
  {
    var n: nat := t.Width();
    FitsMagnitude(a, n, t.IsSigned());
    FitsMagnitude(b, n, t.IsSigned());
    Pow2Add(n, n);
    assert Pow2(n) == 2 * Pow2(n - 1);
    ExactBound(op, a, b, Pow2(n));
    Trim(op.Exact(a, b), 2 * n, n);
  }

  lemma {:induction false} QuotientBounds(a: int, b: int)
    requires b != 0
    ensures Abs(Quotient(a, b)) <= Abs(a)
    ensures Abs(Remainder(a, b)) < Abs(b) && Abs(Remainder(a, b)) <= Abs(a)
    ensures Remainder(a, b) != 0 ==> (Remainder(a, b) < 0) == (a < 0)
    ensures a >= 0 && b > 0 ==> Quotient(a, b) >= 0
  {
    var x: int, y: int := Abs(a), Abs(b);
    var q := x / y;
    DivisionFacts(x, y);
    Signs(q, y);
    Signs(x / y, b);
  }

  lemma {:induction false} DivisionFacts(x: int, y: int)
    requires 0 <= x && 0 < y
    ensures 0 <= x / y <= x && 0 <= x - x / y * y < y && x - x / y * y <= x
  {
    var q := x / y;
    assert x == q * y + x % y;
    MulLe(q, 1, y);
    MulLe(q, 0, y);
  }

  lemma {:induction false} DivideHas(remainder: bool, a: int, b: int, t: Type)
    requires t.Int? && t.Has(a) && t.Has(b)
    ensures var r := DivideValue(remainder, a, b, t); r.Some? ==> t.Has(r.value)
  {
    if b != 0 {
      QuotientBounds(a, b);
    }
  }

  lemma {:induction false} BinaryHas(op: BitOp, a: int, b: int, t: Type)
    requires t.Has(a) && t.Has(b)
    ensures t.Has(BinaryValue(op, a, b, t))
  {
    if !t.Bool? {
      FromBitsFits(Bitwise(op, ToBits(a, t.Width()), ToBits(b, t.Width())), t.IsSigned());
    }
  }

  /** A value is a value of the expression's type. */
  lemma {:induction false} EvalHas(e: Expr, word: Bits, lazy: bool)
    requires WellTyped(e, word)
    ensures Eval(e, lazy).Some? ==> TypeOf(e).Has(Eval(e, lazy).value)
    decreases e
  {
    hide CastValue, UnaryValue, ShlValue, ShrValue, BinaryValue, ArithValue, DivideValue;
    match e
    case Const(_, _) =>
    case Cast(t, x) =>
      EvalHas(x, word, lazy);
      if Eval(x, lazy).Some? {
        CastHas(Eval(x, lazy).value, TypeOf(x), t);
      }
    case Unary(op, x) =>
      EvalHas(x, word, lazy);
      if Eval(x, lazy).Some? {
        UnaryHas(op, Eval(x, lazy).value, TypeOf(x));
      }
    case Or(l, r) =>
    case And(l, r) =>
    case Compare(_, _, _) =>
    case _ =>
      EvalHas(e.lhs, word, lazy);
      EvalHas(e.rhs, word, lazy);
      if Eval(e.lhs, lazy).Some? && Eval(e.rhs, lazy).Some? {
        OperatorHas(e, Eval(e.lhs, lazy).value, Eval(e.rhs, lazy).value, lazy);
      }
  }

  lemma {:induction false} CastHas(v: int, from: Type, to: Type)
    requires from.Has(v)
    ensures to.Has(CastValue(v, from, to))
  {
    CastIs(v, from, to);
    WrapFits(v, to.Width(), to.IsSigned());
  }

  lemma {:induction false} OperatorHas(e: Expr, a: int, b: int, lazy: bool)
    requires e.Shl? || e.Shr? || e.Binary? || e.Arith? || e.Divide?
    requires Eval(e.lhs, lazy) == Some(a) && Eval(e.rhs, lazy) == Some(b)
    requires TypeOf(e.lhs).Has(a) && TypeOf(e.rhs).Has(b)
    requires !e.Binary? ==> TypeOf(e.lhs).Int?
    requires e.Binary? || e.Arith? || e.Divide? ==> TypeOf(e.lhs) == TypeOf(e.rhs)
    ensures Eval(e, lazy).Some? ==> TypeOf(e).Has(Eval(e, lazy).value)
  {
    var t := TypeOf(e.lhs);
    match e
    case Shl(_, _) =>
      if b >= 0 {
        ShlIs(a, b, t);
        WrapFits(a * Pow2(b), t.Width(), t.IsSigned());
      }
    case Shr(_, _) =>
      if b >= 0 {
        ShrIs(a, b, t);
      }
    case Binary(op, _, _) =>
      BinaryHas(op, a, b, t);
    case Arith(op, wrapping, _, _) =>
      WrappingIs(op, a, b, t);
      WrapFits(op.Exact(a, b), t.Width(), t.IsSigned());
    case Divide(remainder, _, _) =>
      DivideHas(remainder, a, b, t);
  }

  lemma {:induction false} UnaryHas(op: UnaryOp, v: int, t: Type)
    requires t.Has(v) && (op.Not? ==> t.Bool?) && (op.Neg? || op.NegWrapping? ==> t.Int? && t.signed)
    requires op.BitNot? ==> t.Int? || t.Byte?
    ensures UnaryValue(op, v, t).Some? ==> t.Has(UnaryValue(op, v, t).value)
  {
    match op
    case NegWrapping =>
      NegWrappingIs(v, t);
      WrapFits(-v, t.Width(), true);
    case BitNot =>
      FromBitsFits(Complement(ToBits(v, t.Width())), t.IsSigned());
    case _ =>
  }

  /** Evaluating both operands of `and` and `or` gives no other value than stopping early. */
  lemma {:induction false} LazyAgrees(e: Expr)
    ensures Eval(e, false).Some? ==> Eval(e, true) == Eval(e, false)
    decreases e
  {
    match e
    case Const(_, _) =>
    case Cast(_, x) => LazyAgrees(x);
    case Unary(_, x) => LazyAgrees(x);
    case Or(l, r) => LazyAgrees(l); LazyAgrees(r);
    case And(l, r) => LazyAgrees(l); LazyAgrees(r);
    case Shl(l, r) => LazyAgrees(l); LazyAgrees(r);
    case Shr(l, r) => LazyAgrees(l); LazyAgrees(r);
    case Compare(_, l, r) => LazyAgrees(l); LazyAgrees(r);
    case Binary(_, l, r) => LazyAgrees(l); LazyAgrees(r);
    case Arith(_, _, l, r) => LazyAgrees(l); LazyAgrees(r);
    case Divide(_, l, r) => LazyAgrees(l); LazyAgrees(r);
  }

  /** Every operand that stopping early leaves out has a value when it is evaluated all the same. */
  predicate SkippedHaveValues(e: Expr) {
    match e
    case Const(_, _) => true
    case Cast(_, x) => SkippedHaveValues(x)
    case Unary(_, x) => SkippedHaveValues(x)
    case Or(l, r) =>
      SkippedHaveValues(l) && if Eval(l, true) == Some(0) then SkippedHaveValues(r) else Eval(r, false).Some?
    case And(l, r) =>
      SkippedHaveValues(l) && if Eval(l, true) == Some(0) then Eval(r, false).Some? else SkippedHaveValues(r)
    case Shl(l, r) => SkippedHaveValues(l) && SkippedHaveValues(r)
    case Shr(l, r) => SkippedHaveValues(l) && SkippedHaveValues(r)
    case Compare(_, l, r) => SkippedHaveValues(l) && SkippedHaveValues(r)
    case Binary(_, l, r) => SkippedHaveValues(l) && SkippedHaveValues(r)
    case Arith(_, _, l, r) => SkippedHaveValues(l) && SkippedHaveValues(r)
    case Divide(_, l, r) => SkippedHaveValues(l) && SkippedHaveValues(r)
  }

  /** Evaluating both operands of `and` and `or` succeeds exactly where stopping early does and every operand
      that it leaves out has a value. */
  lemma {:induction false} EagerExactly(e: Expr)
    ensures Eval(e, false).Some? <==> Eval(e, true).Some? && SkippedHaveValues(e)
    decreases e
  {
    match e
    case Const(_, _) =>
    case Cast(_, x) => LazyAgrees(x); EagerExactly(x);
    case Unary(_, x) => LazyAgrees(x); EagerExactly(x);
    case Or(l, r) => LazyAgrees(l); LazyAgrees(r); EagerExactly(l); EagerExactly(r);
    case And(l, r) => LazyAgrees(l); LazyAgrees(r); EagerExactly(l); EagerExactly(r);
    case Shl(l, r) => LazyAgrees(l); LazyAgrees(r); EagerExactly(l); EagerExactly(r);
    case Shr(l, r) => LazyAgrees(l); LazyAgrees(r); EagerExactly(l); EagerExactly(r);
    case Compare(_, l, r) => LazyAgrees(l); LazyAgrees(r); EagerExactly(l); EagerExactly(r);
    case Binary(_, l, r) => LazyAgrees(l); LazyAgrees(r); EagerExactly(l); EagerExactly(r);
    case Arith(_, _, l, r) => LazyAgrees(l); LazyAgrees(r); EagerExactly(l); EagerExactly(r);
    case Divide(_, l, r) => LazyAgrees(l); LazyAgrees(r); EagerExactly(l); EagerExactly(r);
  }
}
