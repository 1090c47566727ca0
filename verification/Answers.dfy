// What the operators of an expression answer, in terms of their operands alone.

module Answers {
  import opened Wrappers
  import opened BitArray
  import opened Evaluate
  import opened EvaluateProof

  // ---------- Comparisons ----------

  /** The answer of a comparison, which is always true or false. */
  function Answer(op: CompareOp, l: Expr, r: Expr, lazy: bool): bool {
    Eval(Compare(op, l, r), lazy) == Some(1)
  }

  /** `<` is the sign of the difference, `==` is no difference, and the other four follow from these. */
  lemma {:induction false} ComparisonAnswers(l: Expr, r: Expr, lazy: bool)
    requires Eval(l, lazy).Some? && Eval(r, lazy).Some?
    ensures var x, y := Eval(l, lazy).value, Eval(r, lazy).value;
            (Answer(Lt, l, r, lazy) <==> y - x > 0) && (Answer(Eq, l, r, lazy) <==> y - x == 0)
    ensures Answer(Le, l, r, lazy) <==> Answer(Lt, l, r, lazy) || Answer(Eq, l, r, lazy)
    ensures Answer(Ge, l, r, lazy) <==> Answer(Gt, l, r, lazy) || Answer(Eq, l, r, lazy)
    ensures Answer(Gt, l, r, lazy) <==> Answer(Lt, r, l, lazy)
    ensures Answer(Ne, l, r, lazy) <==> !Answer(Eq, l, r, lazy)
    ensures forall op :: !Answer(op, l, r, lazy) ==> Eval(Compare(op, l, r), lazy) == Some(0)
  {
    hide Eval;
    CompareIsHolds(Gt, l, r, lazy);
    CompareIsHolds(Lt, r, l, lazy);
    forall op: CompareOp
      ensures Eval(Compare(op, l, r), lazy) == Some(Digit(op.Holds(Eval(l, lazy).value, Eval(r, lazy).value)))
    {
      CompareIsHolds(op, l, r, lazy);
    }
  }

  lemma {:induction false} CompareIsHolds(op: CompareOp, l: Expr, r: Expr, lazy: bool)
    requires Eval(l, lazy).Some? && Eval(r, lazy).Some?
    ensures Eval(Compare(op, l, r), lazy) == Some(Digit(op.Holds(Eval(l, lazy).value, Eval(r, lazy).value)))
  {
    hide TypeOf, CastValue, UnaryValue;
  }

  // ---------- Bitwise operators ----------

  lemma {:induction false} BitwiseTail(op: BitOp, p: seq<bool>, q: seq<bool>)
    requires |p| == |q| > 0
    ensures Bitwise(op, p, q)[1..] == Bitwise(op, p[1..], q[1..])
  {
  }

  /** Or and and share out the digits of the sum; xor has what or has and and has not. */
  lemma {:induction false} UnsignedSums(p: seq<bool>, q: seq<bool>)
    requires |p| == |q|
    ensures Unsigned(Bitwise(BitOr, p, q)) + Unsigned(Bitwise(BitAnd, p, q)) == Unsigned(p) + Unsigned(q)
    ensures Unsigned(Bitwise(BitXor, p, q)) == Unsigned(Bitwise(BitOr, p, q)) - Unsigned(Bitwise(BitAnd, p, q))
    decreases |p|
  {
    if p != [] {
      BitwiseTail(BitOr, p, q);
      BitwiseTail(BitAnd, p, q);
      BitwiseTail(BitXor, p, q);
      UnsignedSums(p[1..], q[1..]);
    }
  }

  lemma {:induction false} SignedSums(p: seq<bool>, q: seq<bool>)
    requires |p| == |q| > 0
    ensures Signed(Bitwise(BitOr, p, q)) + Signed(Bitwise(BitAnd, p, q)) == Signed(p) + Signed(q)
    ensures Signed(Bitwise(BitXor, p, q)) == Signed(Bitwise(BitOr, p, q)) - Signed(Bitwise(BitAnd, p, q))
    decreases |p|
  {
    if |p| > 1 {
      BitwiseTail(BitOr, p, q);
      BitwiseTail(BitAnd, p, q);
      BitwiseTail(BitXor, p, q);
      SignedSums(p[1..], q[1..]);
    }
  }

  lemma {:induction false} BackToBits(bits: seq<bool>, signed: bool)
    requires bits != []
    ensures ToBits(FromBits(bits, signed), |bits|) == bits
  {
    if signed {
      SignedBits(bits);
    } else {
      UnsignedBits(bits);
    }
  }

  lemma {:induction false} BackToValue(v: int, n: nat, signed: bool)
    requires n > 0 && Fits(v, n, signed)
    ensures FromBits(ToBits(v, n), signed) == v
  {
    if signed {
      BitsSigned(v, n);
    } else {
      BitsUnsigned(v, n);
    }
  }

  /** The value of a bitwise operator on two values of `n` bits. */
  function OnBits(op: BitOp, x: int, y: int, n: nat, signed: bool): int
    requires n > 0
  {
    FromBits(Bitwise(op, ToBits(x, n), ToBits(y, n)), signed)
  }

  lemma {:induction false} OnBitsIs(x: int, y: int, n: nat, signed: bool)
    requires n > 0 && Fits(x, n, signed) && Fits(y, n, signed)
    ensures OnBits(BitOr, x, y, n, signed) + OnBits(BitAnd, x, y, n, signed) == x + y
    ensures OnBits(BitXor, x, y, n, signed) == OnBits(BitOr, x, y, n, signed) - OnBits(BitAnd, x, y, n, signed)
  {
    hide ToBits, FromBits;
    BackToValue(x, n, signed);
    BackToValue(y, n, signed);
    SumsEitherWay(ToBits(x, n), ToBits(y, n), signed);
  }

  lemma {:induction false} OnBitsAt(x: int, y: int, n: nat, signed: bool, k: nat)
    requires k < n
    ensures var p, q := ToBits(x, n)[k], ToBits(y, n)[k];
            (ToBits(OnBits(BitOr, x, y, n, signed), n)[k] <==> p || q) &&
            (ToBits(OnBits(BitXor, x, y, n, signed), n)[k] <==> !(p <==> q)) &&
            (ToBits(OnBits(BitAnd, x, y, n, signed), n)[k] <==> p && q)
  {
    hide ToBits, FromBits;
    BackToBits(Bitwise(BitOr, ToBits(x, n), ToBits(y, n)), signed);
    BackToBits(Bitwise(BitXor, ToBits(x, n), ToBits(y, n)), signed);
    BackToBits(Bitwise(BitAnd, ToBits(x, n), ToBits(y, n)), signed);
  }

  lemma {:induction false} BinaryIsOnBits(op: BitOp, l: Expr, r: Expr, lazy: bool)
    requires !TypeOf(l).Bool? && Eval(l, lazy).Some? && Eval(r, lazy).Some?
    ensures Eval(Binary(op, l, r), lazy) ==
            Some(OnBits(op, Eval(l, lazy).value, Eval(r, lazy).value, TypeOf(l).Width(), TypeOf(l).IsSigned()))
  {
    hide ToBits, FromBits, Bitwise;
  }

  /** The values of `l | r`, `l ^ r` and `l & r` by their sums and by their bits. */
  lemma {:induction false} BitwiseAnswers(l: Expr, r: Expr, lazy: bool, word: Bits)
    requires WellTyped(Binary(BitOr, l, r), word) && !TypeOf(l).Bool?
    requires Eval(l, lazy).Some? && Eval(r, lazy).Some?
    ensures Eval(Binary(BitOr, l, r), lazy).Some? && Eval(Binary(BitXor, l, r), lazy).Some? &&
            Eval(Binary(BitAnd, l, r), lazy).Some?
    ensures var x, y := Eval(l, lazy).value, Eval(r, lazy).value;
            var or, xor, and := Eval(Binary(BitOr, l, r), lazy).value, Eval(Binary(BitXor, l, r), lazy).value,
                                Eval(Binary(BitAnd, l, r), lazy).value;
            or + and == x + y && xor == or - and &&
            forall k :: 0 <= k < TypeOf(l).Width() ==>
              (BitOf(or, k, l) <==> BitOf(x, k, l) || BitOf(y, k, l)) &&
              (BitOf(xor, k, l) <==> !(BitOf(x, k, l) <==> BitOf(y, k, l))) &&
              (BitOf(and, k, l) <==> BitOf(x, k, l) && BitOf(y, k, l))
  {
    var t, x, y := TypeOf(l), Eval(l, lazy).value, Eval(r, lazy).value;
    EvalHas(l, word, lazy);
    EvalHas(r, word, lazy);
    assert Fits(x, t.Width(), t.IsSigned()) && Fits(y, t.Width(), t.IsSigned());
    BinaryIsOnBits(BitOr, l, r, lazy);
    BinaryIsOnBits(BitXor, l, r, lazy);
    BinaryIsOnBits(BitAnd, l, r, lazy);
    hide Eval, ToBits, WellTyped, OnBits, Fits;
    OnBitsIs(x, y, t.Width(), t.IsSigned());
    forall k | 0 <= k < t.Width()
      ensures (BitOf(OnBits(BitOr, x, y, t.Width(), t.IsSigned()), k, l) <==> BitOf(x, k, l) || BitOf(y, k, l)) &&
              (BitOf(OnBits(BitXor, x, y, t.Width(), t.IsSigned()), k, l) <==> !(BitOf(x, k, l) <==> BitOf(y, k, l))) &&
              (BitOf(OnBits(BitAnd, x, y, t.Width(), t.IsSigned()), k, l) <==> BitOf(x, k, l) && BitOf(y, k, l))
    {
      OnBitsAt(x, y, t.Width(), t.IsSigned(), k);
    }
  }

  /** Bit `k` of a value of the type of `e`. */
  predicate BitOf(v: int, k: nat, e: Expr)
    requires k < TypeOf(e).Width()
  {
    ToBits(v, TypeOf(e).Width())[k]
  }

  lemma {:induction false} SumsEitherWay(p: seq<bool>, q: seq<bool>, signed: bool)
    requires |p| == |q| > 0
    ensures FromBits(Bitwise(BitOr, p, q), signed) + FromBits(Bitwise(BitAnd, p, q), signed) ==
              FromBits(p, signed) + FromBits(q, signed)
    ensures FromBits(Bitwise(BitXor, p, q), signed) ==
              FromBits(Bitwise(BitOr, p, q), signed) - FromBits(Bitwise(BitAnd, p, q), signed)
  {
    UnsignedSums(p, q);
    SignedSums(p, q);
  }

  /** On booleans they are the logical operators. */
  lemma {:induction false} BooleanAnswers(l: Expr, r: Expr, lazy: bool)
    requires TypeOf(l).Bool? && Eval(l, lazy).Some? && Eval(r, lazy).Some?
    ensures var x, y := Eval(l, lazy).value != 0, Eval(r, lazy).value != 0;
            Eval(Binary(BitOr, l, r), lazy) == Some(if x then 1 else if y then 1 else 0) &&
            Eval(Binary(BitXor, l, r), lazy) == Some(if x == y then 0 else 1) &&
            Eval(Binary(BitAnd, l, r), lazy) == Some(if !x then 0 else if y then 1 else 0)
  {
    forall op: BitOp
      ensures Eval(Binary(op, l, r), lazy) == Some(Digit(op.Apply(Eval(l, lazy).value != 0, Eval(r, lazy).value != 0)))
    {
    }
  }

  // ---------- Division ----------

  /** Quotient and remainder of a division that discards the fraction: a remainder takes the sign of the dividend. */
  ghost predicate Divides(a: int, b: int, q: int, r: int) {
    a == q * b + r && Abs(r) < Abs(b) && (r == 0 || (r < 0 <==> a < 0))
  }

  /** There is one such pair. */
  lemma {:induction false} DivisionIsUnique(a: int, b: int, q: int, r: int)
    requires b != 0
    ensures Divides(a, b, q, r) <==> q == Quotient(a, b) && r == Remainder(a, b)
  {
    QuotientBounds(a, b);
    var q0, r0 := Quotient(a, b), Remainder(a, b);
    assert a == q0 * b + r0;
    hide Quotient, Remainder;
    if Divides(a, b, q, r) {
      assert (q - q0) * b == r0 - r by {
        Distribute(q, q0, b);
      }
      SmallMultiple(q - q0, b, r0 - r);
    }
  }

  lemma {:induction false} Distribute(q: int, q0: int, b: int)
    ensures (q - q0) * b == q * b - q0 * b
  {
  }

  lemma {:induction false} SmallMultiple(k: int, b: int, d: int)
    requires k * b == d && Abs(d) < Abs(b)
    ensures k == 0
  {
    if k != 0 {
      AtLeast(k, b);
    }
  }

  lemma {:induction false} AtLeast(k: int, b: int)
    requires k != 0
    ensures Abs(k * b) >= Abs(b)
  {
    if k >= 1 {
      assert b >= 0 ==> k * b >= b;
      assert b <= 0 ==> k * b <= b;
    } else {
      assert b >= 0 ==> k * b <= -b;
      assert b <= 0 ==> k * b >= -b;
    }
  }

  /** `l / r` and `l % r` have values together, unless the divisor is zero or the quotient leaves the type, and the
      values are that pair. */
  lemma {:induction false} DivisionAnswers(l: Expr, r: Expr, lazy: bool)
    requires TypeOf(l).Int? && Eval(l, lazy).Some? && Eval(r, lazy).Some?
    ensures var x, y := Eval(l, lazy).value, Eval(r, lazy).value;
            var quotient, remainder := Eval(Divide(false, l, r), lazy), Eval(Divide(true, l, r), lazy);
            (quotient.Some? <==> remainder.Some?) && (quotient.Some? ==> Divides(x, y, quotient.value, remainder.value)) &&
            (quotient.None? <==> forall q, m :: Divides(x, y, q, m) ==> !Fits(q, TypeOf(l).Width(), TypeOf(l).IsSigned()))
  {
    var x, y, t := Eval(l, lazy).value, Eval(r, lazy).value, TypeOf(l);
    assert Eval(Divide(false, l, r), lazy) == DivideValue(false, x, y, t);
    assert Eval(Divide(true, l, r), lazy) == DivideValue(true, x, y, t);
    if y != 0 {
      var q, m := Quotient(x, y), Remainder(x, y);
      DivisionIsUnique(x, y, q, m);
      forall q', m' | Divides(x, y, q', m')
        ensures q' == q
      {
        DivisionIsUnique(x, y, q', m');
      }
    }
    hide Eval, Quotient, Remainder;
  }

  // ---------- Arithmetic ----------

  /** What sum, difference and product are, by inverse operations. */
  ghost predicate IsResult(op: ArithOp, x: int, y: int, v: int) {
    match op
    case Add => v - y == x
    case Sub => v + y == x
    case Mul => v == x * y
  }

  /** A checked operation has its exact value, or none when that leaves the type. */
  lemma {:induction false} ArithmeticAnswers(op: ArithOp, l: Expr, r: Expr, lazy: bool)
    requires TypeOf(l).Int? && Eval(l, lazy).Some? && Eval(r, lazy).Some?
    ensures var x, y := Eval(l, lazy).value, Eval(r, lazy).value;
            var n, s, e := TypeOf(l).Width(), TypeOf(l).IsSigned(), Eval(Arith(op, false, l, r), lazy);
            forall v :: IsResult(op, x, y, v) ==> e == if Fits(v, n, s) then Some(v) else None
  {
    ArithIsValue(op, false, l, r, lazy);
    hide Eval, Fits;
    forall v | IsResult(op, Eval(l, lazy).value, Eval(r, lazy).value, v)
      ensures v == op.Exact(Eval(l, lazy).value, Eval(r, lazy).value)
    {
    }
  }

  lemma {:induction false} ArithIsValue(op: ArithOp, wrapping: bool, l: Expr, r: Expr, lazy: bool)
    requires Eval(l, lazy).Some? && Eval(r, lazy).Some?
    ensures Eval(Arith(op, wrapping, l, r), lazy) ==
            ArithValue(op, wrapping, Eval(l, lazy).value, Eval(r, lazy).value, TypeOf(l))
  {
    hide ArithValue;
  }

  /** A wrapping operation has the value of the type that differs from the exact one by a multiple of two to its width. */
  lemma {:induction false} WrappingAnswers(op: ArithOp, l: Expr, r: Expr, lazy: bool, word: Bits, v: int)
    requires WellTyped(Arith(op, true, l, r), word) && Eval(l, lazy).Some? && Eval(r, lazy).Some?
    requires IsResult(op, Eval(l, lazy).value, Eval(r, lazy).value, v)
    ensures var n, s, e := TypeOf(l).Width(), TypeOf(l).IsSigned(), Eval(Arith(op, true, l, r), lazy);
            e.Some? && Fits(e.value, n, s) && Congruent(e.value, v, n)
  {
    var x, y, t := Eval(l, lazy).value, Eval(r, lazy).value, TypeOf(l);
    WrappedOperands(op, l, r, word);
    hide Eval, WellTyped, WrappingValue, Fits, Congruent, TypeOf;
    ArithIsValue(op, true, l, r, lazy);
    EvalHas(l, word, lazy);
    EvalHas(r, word, lazy);
    WrappedIs(op, x, y, t, v);
  }

  lemma {:induction false} WrappedOperands(op: ArithOp, l: Expr, r: Expr, word: Bits)
    requires WellTyped(Arith(op, true, l, r), word)
    ensures WellTyped(l, word) && WellTyped(r, word) && TypeOf(r) == TypeOf(l) && TypeOf(l).Int?
  {
  }

  lemma {:induction false} WrappedIs(op: ArithOp, x: int, y: int, t: Type, v: int)
    requires t.Int? && t.Has(x) && t.Has(y) && IsResult(op, x, y, v)
    ensures var w := WrappingValue(op, x, y, t);
            Fits(w, t.Width(), t.IsSigned()) && Congruent(w, v, t.Width())
  {
    assert op.Exact(x, y) == v;
    hide WrappingValue;
    WrappingIs(op, x, y, t);
    WrapFits(v, t.Width(), t.IsSigned());
    WrapIsUnique(v, Wrap(v, t.Width(), t.IsSigned()), t.Width(), t.IsSigned());
  }
}
