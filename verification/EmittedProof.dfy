// The emitted C text has the value that compile-time evaluation computes.

module EmittedProof {
  import opened Wrappers
  import opened BitArray
  import opened Evaluate
  import opened EvaluateProof
  import opened CInteger
  import opened StrGen
  import opened CIntegerProof
  import opened HelperProof

  /** How a C value `c` of type `ct` stands for a value.  Integers and booleans are themselves, in their own
      type or promoted; a byte has the same eight bits, and is itself where char is unsigned. */
  ghost predicate Holds(t: Type, v: int, ct: CType, c: int, target: Target) {
    match t
    case Bool => c == v && (ct == CBool || ct == INT)
    case Byte =>
      ToBits(c, 8) == ToBits(v, 8) && (ct == INT || ct == CInt(8, target.charSigned)) && Fits(c, 32, true) &&
      (!target.charSigned ==> c == v)
    case _ => c == v && (ct == CTypeFor(t, target) || ct == Promote(CTypeFor(t, target)))
  }

  ghost predicate Matches(t: Type, r: Option<int>, out: COut, ct: CType, target: Target) {
    match r
    case None => out == Trap
    case Some(v) => out.Val? && t.Has(v) && Holds(t, v, ct, out.v, target)
  }

  lemma {:induction false} IntegerMatches(t: Type, v: int, out: COut, ct: CType, target: Target)
    requires (t.Int? || t.Enum?) && t.Has(v) && out == Val(v)
    requires ct == CTypeFor(t, target) || ct == Promote(CTypeFor(t, target))
    ensures Matches(t, Some(v), out, ct, target)
  {
  }

  lemma {:induction false} ByteMatches(v: int, c: int, ct: CType, target: Target)
    requires Byte.Has(v) && ToBits(c, 8) == ToBits(v, 8) && Fits(c, 32, true) && (!target.charSigned ==> c == v)
    requires ct == INT || ct == CInt(8, target.charSigned)
    ensures Matches(Byte, Some(v), Val(c), ct, target)
  {
  }

  /** An integer or enum value is `Is` of its C type. */
  lemma {:induction false} IntegerIs(t: Type, v: int, g: CExpr, ts: Temp -> CType, vs: Temp -> int, target: Target)
    requires (t.Int? || t.Enum?) && t.Has(v) && CEval(g, ts, vs) == Val(v) && Holds(t, v, CTypeOf(g, ts), v, target)
    ensures Is(g, ts, vs, v, CTypeFor(t, target))
    ensures CTypeOf(g, ts) == INT ==> Promote(CTypeFor(t, target)) == INT
  {
    FitsPromoted(v, t.bits, t.signed);
  }

  // ---------- Values ----------

  lemma {:induction false} LiteralIs(v: int, ts: Temp -> CType, vs: Temp -> int)
    requires -0x8000_0000_0000_0000 < v < 0x8000_0000_0000_0000
    ensures CEval(Literal(v), ts, vs) == Val(v) && CTypeOf(Literal(v), ts) == LONG_LONG
  {
    Powers();
  }

  lemma {:induction false} LeastValueIs(v: int, n: Bits, ts: Temp -> CType, vs: Temp -> int)
    requires v == MinOf(n, true)
    ensures CEval(GenInteger(v, n, true), ts, vs) == Val(v)
    ensures CTypeOf(GenInteger(v, n, true), ts) == Promote(CInt(n, true))
  {
    var t := CInt(n, true);
    var l := Literal(v + 1);
    var e := CCast(t, l);
    Bounds(n);
    assert Fits(v + 1, n, true) && Fits(v, n, true);
    LiteralIs(v + 1, ts, vs);
    ConvertFitting(v + 1, n, true);
    CastStep(t, l, ts, vs);
    CastType(t, l, ts);
    FitsPromoted(v + 1, n, true);
    FitsPromoted(v, n, true);
    FitsPromoted(1, n, true);
    NotInt(t, INT, t);
    assert CEval(CConst(INT, 1), ts, vs) == Val(1) && CTypeOf(CConst(INT, 1), ts) == INT;
    hide CEval, CTypeOf, Literal, Fits, Promote, NotBothInt, Convert, MinOf;
    assert Is(e, ts, vs, v + 1, t) && Is(CConst(INT, 1), ts, vs, 1, t);
    ArithIs(Sub, e, CConst(INT, 1), ts, vs, v + 1, 1, t);
    CommonIs(t, INT, t);
    BinaryType(CArith(Sub), e, CConst(INT, 1), ts);
  }

  lemma {:induction false} IntegerValueIs(v: int, n: Bits, signed: bool, ts: Temp -> CType, vs: Temp -> int)
    requires Fits(v, n, signed)
    ensures CEval(GenInteger(v, n, signed), ts, vs) == Val(v)
    ensures var ct := CTypeOf(GenInteger(v, n, signed), ts); ct == CInt(n, signed) || ct == Promote(CInt(n, signed))
  {
    var t := CInt(n, signed);
    Bounds(n);
    if signed && v == MinOf(n, true) {
      LeastValueIs(v, n, ts, vs);
    } else {
      ConvertFitting(v, n, signed);
      var l := if signed then Literal(v) else CConst(UNSIGNED_LONG_LONG, v);
      if signed {
        LiteralIs(v, ts, vs);
      }
      CastStep(t, l, ts, vs);
      CastType(t, l, ts);
      assert CEval(l, ts, vs) == Val(v);
      hide CEval, CTypeOf, Fits, Convert;
    }
  }

  lemma {:induction false} ValueAgrees(t: Type, v: int, ts: Temp -> CType, vs: Temp -> int, target: Target)
    requires t.Has(v)
    ensures Matches(t, Some(v), CEval(GenValue(t, v), ts, vs), CTypeOf(GenValue(t, v), ts), target)
  {
    match t
    case Bool =>
    case Byte => Powers();
    case Int(n, signed) => IntegerValueIs(v, n, signed, ts, vs);
    case Enum(n, signed) => IntegerValueIs(v, n, signed, ts, vs);
  }

  // ---------- Casts ----------

  function Inner(from: Type, c: int): int {
    if from.Byte? then Convert(c, CInt(8, false)) else c
  }

  lemma {:induction false} InnerIs(v: int, from: Type, ct: CType, c: int, target: Target)
    requires from.Has(v) && Holds(from, v, ct, c, target)
    ensures Inner(from, c) == v
  {
    if from.Byte? {
      WrapSame(c, v, 8, false);
      WrapFitting(v, 8, false);
    }
  }

  lemma {:induction false} CastAgrees(v: int, from: Type, to: Type, target: Target)
    requires from.Has(v)
    ensures var ct := CTypeFor(to, target);
            Matches(to, Some(CastValue(v, from, to)), Val(Convert(v, ct)), ct, target)
  {
    CastIs(v, from, to);
    CastHas(v, from, to);
    hide CastValue, ToBits, Fits, Signed, Unsigned, FromBits;
    if to.Byte? {
      ByteCast(v, target);
    } else if !to.Bool? {
      ConvertWrap(v, to.bits, to.signed);
      hide Wrap, Convert;
      IntegerMatches(to, CastValue(v, from, to), Val(Convert(v, CTypeFor(to, target))), CTypeFor(to, target), target);
    }
  }

  lemma {:induction false} ByteCast(v: int, target: Target)
    ensures var ct := CInt(8, target.charSigned); Matches(Byte, Some(Wrap(v, 8, false)), Val(Convert(v, ct)), ct,
            target)
  {
    WrapFits(v, 8, false);
    WrapFits(v, 8, target.charSigned);
    ByteFits(Wrap(v, 8, target.charSigned), target);
    ConvertWrap(v, 8, target.charSigned);
    hide ToBits, Signed, Unsigned, FromBits;
    ByteMatches(Wrap(v, 8, false), Wrap(v, 8, target.charSigned), CInt(8, target.charSigned), target);
  }

  lemma {:induction false} ByteFits(c: int, target: Target)
    requires Fits(c, 8, target.charSigned)
    ensures Fits(c, 32, true)
  {
    Powers();
  }

  // ---------- Unary operators ----------

  lemma {:induction false} NotAgrees(v: int, g: CExpr, ts: Temp -> CType, vs: Temp -> int, target: Target)
    requires Matches(Bool, Some(v), CEval(g, ts, vs), CTypeOf(g, ts), target)
    ensures Matches(Bool, Some(1 - v), CEval(CNot(g), ts, vs), CTypeOf(CNot(g), ts), target)
  {
  }

  lemma {:induction false} ShiftedPower(m: nat, k: nat, n: nat)
    requires n == m + k
    ensures Shifted(-Pow2(n), k) == -Pow2(m)
    decreases k
  {
    if k > 0 {
      assert -Pow2(n) / 2 == -Pow2(n - 1);
      ShiftedPower(m, k - 1, n - 1);
    }
  }

  lemma {:induction false} LeastIs(t: CType, word: CType, ts: Temp -> CType, vs: Temp -> int)
    requires t.CInt? && t.signed && word.CInt?
    ensures CEval(Least(t, word), ts, vs) == Val(MinOf(t.bits, true)) && CTypeOf(Least(t, word), ts) == t
  {
    hide CEval, CTypeOf;
    var k: nat := 64 - t.bits;
    var l, r := CConst(LONG_LONG, MinOf(64, true)), CConst(word, k);
    ConstIs(LONG_LONG, MinOf(64, true), ts, vs);
    ConstIs(word, k, ts, vs);
    ShrStep(l, r, ts, vs, MinOf(64, true), k);
    CastStep(t, CShr(l, r), ts, vs);
    CastType(t, CShr(l, r), ts);
    LeastValue(t.bits);
    hide Convert, MinOf, Shifted;
  }

  lemma {:induction false} LeastValue(n: Bits)
    ensures Shifted(MinOf(64, true), 64 - n) == MinOf(n, true) &&
            Convert(MinOf(n, true), CInt(n, true)) == MinOf(n, true)
  {
    var m: nat := n - 1;
    MinIs(n, m);
    MinIs(64, 63);
    ShiftedPower(m, 64 - n, 63);
    hide Shifted, Pow2, MinOf, Convert;
    LeastFits(n);
  }

  lemma {:induction false} LeastFits(n: Bits)
    ensures Convert(MinOf(n, true), CInt(n, true)) == MinOf(n, true)
  {
    ConvertFitting(MinOf(n, true), n, true);
  }

  lemma {:induction false} MinIs(n: nat, m: nat)
    requires n == m + 1
    ensures MinOf(n, true) == -Pow2(m)
  {
  }

  lemma {:induction false} NegAgrees(v: int, t: Type, g: CExpr, ts: Temp -> CType, vs: Temp -> int, target: Target)
    requires t.Int? && t.signed && Matches(t, Some(v), CEval(g, ts, vs), CTypeOf(g, ts), target)
    ensures var n := GenNeg(CTypeFor(t, target), g, CInt(target.word, false));
            Matches(t, UnaryValue(Neg, v, t), CEval(n, ts, vs), CTypeOf(n, ts), target)
  {
    hide CEval, CTypeOf;
    var ct, word := CTypeFor(t, target), CInt(target.word, false);
    var body := CCheck(CCompare(Eq, Rhs(), Least(ct, word)), CMinus(Rhs()));
    ConvertFitting(v, t.bits, true);
    NegValue(v, t);
    LetStep(TmpRhs, ct, g, body, ts, vs, v);
    NegBody(v, ct, word, With(ts, TmpRhs, ct), With(vs, TmpRhs, v));
    hide UnaryValue, MinOf, Least, Promote, Convert;
    if v != MinOf(t.bits, true) {
      IntegerMatches(t, -v, Val(-v), Promote(ct), target);
    }
  }

  lemma {:induction false} NegValue(v: int, t: Type)
    requires t.Int? && t.signed && t.Has(v)
    ensures UnaryValue(Neg, v, t) == if v == MinOf(t.bits, true) then None else Some(-v)
    ensures v != MinOf(t.bits, true) ==> t.Has(-v)
  {
  }

  lemma {:induction false} NegBody(v: int, ct: CType, word: CType, ts: Temp -> CType, vs: Temp -> int)
    requires ct.CInt? && ct.signed && Fits(v, ct.bits, true) && word.CInt?
    requires ts(TmpRhs) == ct && vs(TmpRhs) == v
    ensures var body := CCheck(CCompare(Eq, Rhs(), Least(ct, word)), CMinus(Rhs()));
            CEval(body, ts, vs) == (if v == MinOf(ct.bits, true) then Trap else Val(-v)) &&
            CTypeOf(body, ts) == Promote(ct)
  {
    hide CEval, CTypeOf;
    var least, min := Least(ct, word), MinOf(ct.bits, true);
    LeastIs(ct, word, ts, vs);
    FitsPromoted(v, ct.bits, true);
    FitsPromoted(min, ct.bits, true);
    VarIs(TmpRhs, ts, vs);
    NotInt(ct, ct, ct);
    MinusStep(Rhs(), ts, vs, v);
    CheckType(CCompare(Eq, Rhs(), least), CMinus(Rhs()), ts);
    if v != min {
      FitsPromoted(-v, ct.bits, true);
    }
    CompareIs(Eq, Rhs(), least, ts, vs, v, min, ct);
    CheckIs(CCompare(Eq, Rhs(), least), CMinus(Rhs()), ts, vs, v == min);
    hide MinOf, Least;
  }

  /** `~x` in the promoted type is -x - 1. */
  lemma {:induction false} ComplIs(c: int, g: CExpr, ts: Temp -> CType, vs: Temp -> int)
    requires CEval(g, ts, vs) == Val(c)
    ensures var p := Promote(CTypeOf(g, ts));
            CEval(CCompl(g), ts, vs) == Val(Wrap(-c - 1, p.bits, p.signed)) && CTypeOf(CCompl(g), ts) == p
  {
    hide ToBits, FromBits, Complement, Wrap, Promote, CTypeOf;
    var p := Promote(CTypeOf(g, ts));
    BitNotIs(c, p.bits, p.signed);
    ComplStep(c, g, ts, vs);
  }

  lemma {:induction false} ComplStep(c: int, g: CExpr, ts: Temp -> CType, vs: Temp -> int)
    requires CEval(g, ts, vs) == Val(c)
    ensures var p := Promote(CTypeOf(g, ts));
            CEval(CCompl(g), ts, vs) == Val(FromBits(Complement(ToBits(c, p.bits)), p.signed)) && CTypeOf(CCompl(g), ts) == p
  {
    hide ToBits, FromBits, Complement, Promote, Operate, Convert, Common;
  }

  /** The complement of a C value, cast to a type. */
  lemma {:induction false} ComplCast(c: int, g: CExpr, ct: CType, ts: Temp -> CType, vs: Temp -> int)
    requires CEval(g, ts, vs) == Val(c) && ct.CInt? && ct.bits <= Promote(CTypeOf(g, ts)).bits
    ensures CEval(CCast(ct, CCompl(g)), ts, vs) == Val(Wrap(-c - 1, ct.bits, ct.signed))
    ensures CTypeOf(CCast(ct, CCompl(g)), ts) == ct
  {
    hide CEval, CTypeOf, ToBits, Signed, Unsigned, FromBits;
    var p := Promote(CTypeOf(g, ts));
    ComplIs(c, g, ts, vs);
    CastStep(ct, CCompl(g), ts, vs);
    CastType(ct, CCompl(g), ts);
    WrapNarrow(-c - 1, p.bits, p.signed, ct.bits, ct.signed);
    ConvertWrap(Wrap(-c - 1, p.bits, p.signed), ct.bits, ct.signed);
  }

  lemma {:induction false} BitNotAgrees(v: int, t: Type, g: CExpr, ts: Temp -> CType, vs: Temp -> int, target: Target)
    requires (t.Int? || t.Byte?) && Matches(t, Some(v), CEval(g, ts, vs), CTypeOf(g, ts), target)
    ensures var n := CCast(CTypeFor(t, target), CCompl(g));
            Matches(t, UnaryValue(BitNot, v, t), CEval(n, ts, vs), CTypeOf(n, ts), target)
  {
    hide CEval, CTypeOf;
    var c, ct := CEval(g, ts, vs).v, CTypeFor(t, target);
    ComplCast(c, g, ct, ts, vs);
    if t.Byte? {
      ByteCompl(c, v, target);
    } else {
      ComplBits(v, v, t.bits, t.signed, t.bits, t.signed, t.signed);
      hide ToBits, Signed, Unsigned, Wrap, Promote, FromBits, Complement;
      IntegerMatches(t, Wrap(-v - 1, t.bits, t.signed), Val(Wrap(-v - 1, t.bits, t.signed)), ct, target);
    }
  }

  lemma {:induction false} ByteCompl(c: int, v: int, target: Target)
    requires ToBits(c, 8) == ToBits(v, 8)
    ensures var ct := CInt(8, target.charSigned);
            Matches(Byte, UnaryValue(BitNot, v, Byte), Val(Wrap(-c - 1, 8, ct.signed)), ct, target)
  {
    var s := target.charSigned;
    ComplBits(c, v, 8, s, 8, s, false);
    ByteFits(Wrap(-c - 1, 8, s), target);
    hide ToBits, Signed, Unsigned, Wrap, FromBits, Complement;
    ByteMatches(Wrap(-v - 1, 8, false), Wrap(-c - 1, 8, s), CInt(8, s), target);
  }

  /** Complementing in a wider type and wrapping is complementing. */
  lemma {:induction false} ComplBits(c: int, v: int, m: nat, s: bool, n: nat, signed: bool, own: bool)
    requires 0 < n <= m && ToBits(c, n) == ToBits(v, n)
    ensures Wrap(Wrap(-c - 1, m, s), n, signed) == Wrap(-c - 1, n, signed)
    ensures Fits(Wrap(-c - 1, n, signed), n, signed) && Fits(Wrap(-v - 1, n, own), n, own)
    ensures ToBits(Wrap(-c - 1, n, signed), n) == ToBits(Wrap(-v - 1, n, own), n)
    ensures FromBits(Complement(ToBits(v, n)), own) == Wrap(-v - 1, n, own) == Wrap(-c - 1, n, own)
  {
    ComplementIs(c, n);
    ComplementIs(v, n);
    WrapNarrow(-c - 1, m, s, n, signed);
    WrapFits(-c - 1, n, signed);
    WrapFits(-v - 1, n, own);
  }

  lemma {:induction false} NegWrappingAgrees(v: int, t: Type, g: CExpr, ts: Temp -> CType, vs: Temp -> int,
                                             target: Target)
    requires t.Int? && t.signed && Matches(t, Some(v), CEval(g, ts, vs), CTypeOf(g, ts), target)
    ensures var n := GenNegWrapping(CTypeFor(t, target), g, target.gnu);
            Matches(t, UnaryValue(NegWrapping, v, t), CEval(n, ts, vs), CTypeOf(n, ts), target)
  {
    hide CEval, CTypeOf, Helper, ToBits, Signed, Unsigned, FromBits;
    var ct, p := CTypeFor(t, target), Promote(CTypeOf(g, ts));
    var not := Wrap(-v - 1, t.bits, true);
    ComplIs(v, g, ts, vs);
    OneFits(t.bits);
    var helper := CCast(ct, Helper(Add, true, ct, target.gnu));
    CastType(ct, Helper(Add, true, ct, target.gnu), NegTypes(ts, ct));
    ComplBits(v, v, p.bits, p.signed, t.bits, true, true);
    ConvertWrap(Wrap(-v - 1, p.bits, p.signed), t.bits, true);
    WrapFitting(not, t.bits, true);
    ConvertWrap(not, t.bits, true);
    NegWrappingSteps(ct, g, helper, ts, vs, Wrap(-v - 1, p.bits, p.signed), not);
    assert Operands(ct, NegTypes(ts, ct), NegValues(vs, not), not, 1);
    WrappingHelper(Add, ct, target.gnu, NegTypes(ts, ct), NegValues(vs, not), not, 1);
    NegWrappingSum(v, t);
    hide Wrap, NegWrappingValue, Promote, NegTypes, NegValues;
    IntegerMatches(t, NegWrappingValue(v, t), Val(NegWrappingValue(v, t)), ct, target);
  }

  lemma {:induction false} ConvertWrap(x: int, n: Bits, signed: bool)
    ensures Convert(x, CInt(n, signed)) == Wrap(x, n, signed)
  {
  }

  lemma {:induction false} NegWrappingSum(v: int, t: Type)
    requires t.Int? && t.signed
    ensures Wrap(Wrap(-v - 1, t.bits, true) + 1, t.bits, true) == NegWrappingValue(v, t) &&
            t.Has(NegWrappingValue(v, t))
  {
    hide ToBits, Signed, Unsigned, FromBits, NegWrappingValue;
    var not, n: nat := Wrap(-v - 1, t.bits, true), t.bits;
    WrapFits(-v - 1, n, true);
    BitsAdd(not, 1, -v - 1, 1, n);
    assert -v - 1 + 1 == -v;
    WrapSame(not + 1, -v, n, true);
    NegWrappingIs(v, t);
    WrapFits(-v, n, true);
  }

  // What the temporaries of a wrapping negation have when its helper is called.
  function NegTypes(ts: Temp -> CType, ct: CType): Temp -> CType {
    With(With(With(ts, TmpResult, ct), TmpLhs, ct), TmpRhs, ct)
  }

  function NegValues(vs: Temp -> int, not: int): Temp -> int {
    With(With(With(vs, TmpResult, not), TmpLhs, not), TmpRhs, 1)
  }

  lemma {:induction false} OneFits(n: Bits)
    ensures Fits(1, n, true) && Convert(1, CInt(n, true)) == 1
  {
    Bounds(n);
    ConvertFitting(1, n, true);
  }

  lemma {:induction false} NegWrappingSteps(ct: CType, g: CExpr, helper: CExpr, ts: Temp -> CType, vs: Temp -> int,
                                            w: int, not: int)
    requires ct.CInt? && ct.signed && CEval(CCompl(g), ts, vs) == Val(w) && Convert(w, ct) == not &&
             Convert(not, ct) == not
    requires Convert(1, ct) == 1
    ensures var e := CLet(TmpResult, ct, CCompl(g),
                       Temporaries(ct, CVar(TmpResult), ct, CCast(ct, CConst(INT, 1)), helper));
            CEval(e, ts, vs) == CEval(helper, NegTypes(ts, ct), NegValues(vs, not)) &&
            CTypeOf(e, ts) == CTypeOf(helper, NegTypes(ts, ct))
  {
    hide Convert, CEval, CTypeOf;
    var one := CCast(ct, CConst(INT, 1));
    var ts1, vs1 := With(ts, TmpResult, ct), With(vs, TmpResult, not);
    var ts2, vs2 := With(ts1, TmpLhs, ct), With(vs1, TmpLhs, not);
    var body := Temporaries(ct, CVar(TmpResult), ct, one, helper);
    LetStep(TmpResult, ct, CCompl(g), body, ts, vs, not);
    VarIs(TmpResult, ts1, vs1);
    ConstIs(INT, 1, ts2, vs2);
    CastStep(ct, CConst(INT, 1), ts2, vs2);
    TemporariesIs(ct, CVar(TmpResult), ct, one, helper, ts1, vs1, not, 1);
  }

  /** Both temporaries are filled, and then the body is evaluated. */
  lemma {:induction false} TemporariesIs(t: CType, l: CExpr, u: CType, r: CExpr, body: CExpr, ts: Temp -> CType,
                                         vs: Temp -> int, a: int, b: int)
    requires CEval(l, ts, vs) == Val(a) && Convert(a, t) == a
    requires CEval(r, With(ts, TmpLhs, t), With(vs, TmpLhs, a)) == Val(b) && Convert(b, u) == b
    ensures CEval(Temporaries(t, l, u, r, body), ts, vs) ==
              CEval(body, With(With(ts, TmpLhs, t), TmpRhs, u), With(With(vs, TmpLhs, a), TmpRhs, b))
    ensures CTypeOf(Temporaries(t, l, u, r, body), ts) == CTypeOf(body, With(With(ts, TmpLhs, t), TmpRhs, u))
  {
    hide Convert, CEval, CTypeOf;
    LetStep(TmpLhs, t, l, CLet(TmpRhs, u, r, body), ts, vs, a);
    LetStep(TmpRhs, u, r, body, With(ts, TmpLhs, t), With(vs, TmpLhs, a), b);
  }

  // ---------- Shifts ----------

  // What the temporaries have in a shift: the operand in its type, the count in usize.
  ghost predicate Counted(t: CType, word: CType, ts: Temp -> CType, vs: Temp -> int, a: int, b: nat) {
    t.CInt? && word.CInt? && !word.signed && word.bits >= 32 &&
    ts(TmpLhs) == t && vs(TmpLhs) == a && Fits(a, t.bits, t.signed) &&
    ts(TmpRhs) == word && vs(TmpRhs) == b && Fits(b, word.bits, false)
  }

  lemma {:induction false} CountCheck(t: CType, word: CType, ts: Temp -> CType, vs: Temp -> int, a: int, b: nat)
    requires Counted(t, word, ts, vs, a, b)
    ensures CEval(CCompare(Lt, Rhs(), CConst(word, t.bits)), ts, vs) == Val(Digit(b < t.bits))
  {
    VarIs(TmpRhs, ts, vs);
    ConstIs(word, t.bits, ts, vs);
    Powers();
    NotInt(word, word, word);
    hide CEval, CTypeOf, NotBothInt;
    CompareIs(Lt, Rhs(), CConst(word, t.bits), ts, vs, b, t.bits, word);
  }

  /** A conditional between two expressions near `t` whose chosen value fits `t`. */
  lemma {:induction false} CondIs(c: CExpr, l: CExpr, r: CExpr, ts: Temp -> CType, vs: Temp -> int, p: bool, v: int,
                                  t: CType)
    requires t.CInt? && CEval(c, ts, vs) == Val(Digit(p)) && CEval(if p then l else r, ts, vs) == Val(v) && Fits(v, t.bits, t.signed)
    requires Near(CTypeOf(l, ts), t) && Near(CTypeOf(r, ts), t) && NotBothInt(CTypeOf(l, ts), CTypeOf(r, ts), t)
    ensures CEval(CCond(c, l, r), ts, vs) == Val(v) && CTypeOf(CCond(c, l, r), ts) == Promote(t)
  {
    hide CEval, CTypeOf, Near, NotBothInt;
    CondStep(c, l, r, ts, vs, p, v);
    CommonIs(CTypeOf(l, ts), CTypeOf(r, ts), t);
    FitsPromoted(v, t.bits, t.signed);
    var q := Promote(t);
    ConvertFitting(v, q.bits, q.signed);
  }

  lemma {:induction false} ZeroFits(n: Bits, signed: bool)
    ensures Fits(0, n, signed) && Convert(0, CInt(n, signed)) == 0
  {
    ConvertFitting(0, n, signed);
  }

  /** The operand of a left shift is made unsigned, and no bit of it is lost before the cast back. */
  lemma {:induction false} ShiftedUp(x: int, n: Bits, b: nat)
    requires Fits(x, n, false) && b < n
    ensures var r := InType(x * Pow2(b), Promote(CInt(n, false))); r.Val? && ToBits(r.v, n) == ToBits(x * Pow2(b), n)
  {
    var p := Promote(CInt(n, false));
    if n < 32 {
      Powers();
      Pow2Grows(b, (n as nat) - 1);
      MulLe(x, Pow2(b), Pow2((n as nat) - 1));
      MulLe(x, 0, Pow2(b));
      assert n == 8 || n == 16;
      assert 0 <= x * Pow2(b) < 0x8000_0000;
    } else {
      WrapFits(x * Pow2(b), n, false);
    }
  }

  lemma {:induction false} ShlValueIs(a: int, b: nat, t: Type)
    requires t.Int? && t.Has(a)
    ensures b < t.bits ==> ShlValue(a, b, t) == Wrap(Wrap(a, t.bits, false) * Pow2(b), t.bits, t.signed)
    ensures b >= t.bits ==> ShlValue(a, b, t) == 0
    ensures t.Has(ShlValue(a, b, t))
  {
    ShlIs(a, b, t);
    if b >= t.bits {
      ShlNothing(a, b, t);
    }
    hide ShlValue, Signed, Unsigned;
    WrapFits(a, t.bits, false);
    BitsMul(Wrap(a, t.bits, false), Pow2(b), a, Pow2(b), t.bits);
    WrapFits(a * Pow2(b), t.bits, t.signed);
    hide ToBits;
    WrapSame(Wrap(a, t.bits, false) * Pow2(b), a * Pow2(b), t.bits, t.signed);
  }

  lemma {:induction false} ShlNothing(a: int, b: nat, t: Type)
    requires t.Int? && b >= t.bits
    ensures ShlValue(a, b, t) == 0
  {
    BitsOfZero(t.bits);
    WrapFitting(0, t.bits, t.signed);
  }

  lemma {:induction false} ShlTaken(t: CType, word: CType, ts: Temp -> CType, vs: Temp -> int, a: int, b: nat)
    requires Counted(t, word, ts, vs, a, b) && b < t.bits
    ensures CEval(CCast(t, CShl(CCast(CInt(t.bits, false), Lhs()), Rhs())), ts, vs) ==
              Val(Wrap(Wrap(a, t.bits, false) * Pow2(b), t.bits, t.signed))
  {
    var u := CInt(t.bits, false);
    var x := Wrap(a, t.bits, false);
    var l := CCast(u, Lhs());
    VarIs(TmpLhs, ts, vs);
    VarIs(TmpRhs, ts, vs);
    WrapFits(a, t.bits, false);
    ConvertWrap(a, t.bits, false);
    hide CEval, CTypeOf, ToBits, Signed, Unsigned;
    CastStep(u, Lhs(), ts, vs);
    CastType(u, Lhs(), ts);
    ShlStep(l, Rhs(), ts, vs, x, b);
    CastStep(t, CShl(l, Rhs()), ts, vs);
    ShiftedUp(x, t.bits, b);
    var r := InType(x * Pow2(b), Promote(u));
    WrapSame(r.v, x * Pow2(b), t.bits, t.signed);
    ConvertWrap(r.v, t.bits, t.signed);
  }

  lemma {:induction false} ShlBody(t: Type, ct: CType, word: CType, ts: Temp -> CType, vs: Temp -> int, a: int, b: nat)
    requires t.Int? && t.Has(a) && ct == CInt(t.bits, t.signed) && Counted(ct, word, ts, vs, a, b)
    ensures CEval(GenShl(ct, word), ts, vs) == Val(ShlValue(a, b, t)) && t.Has(ShlValue(a, b, t))
    ensures CTypeOf(GenShl(ct, word), ts) == Promote(ct)
  {
    hide CEval, CTypeOf, ToBits, Signed, Unsigned, ShlValue;
    var c, l := CCompare(Lt, Rhs(), CConst(word, ct.bits)), CCast(ct, CShl(CCast(CInt(ct.bits, false), Lhs()), Rhs()));
    var r := CCast(ct, CConst(INT, 0));
    ShlValueIs(a, b, t);
    CountCheck(ct, word, ts, vs, a, b);
    CastType(ct, CShl(CCast(CInt(ct.bits, false), Lhs()), Rhs()), ts);
    CastType(ct, CConst(INT, 0), ts);
    ConstIs(INT, 0, ts, vs);
    CastStep(ct, CConst(INT, 0), ts, vs);
    ZeroFits(ct.bits, ct.signed);
    if b < ct.bits {
      ShlTaken(ct, word, ts, vs, a, b);
    }
    CondIs(c, l, r, ts, vs, b < ct.bits, ShlValue(a, b, t), ct);
  }

  lemma {:induction false} OvershiftValue(a: int, b: nat, t: Type)
    requires t.Int? && t.Has(a) && b >= t.bits
    ensures ShrValue(a, b, t) == if a < 0 then -1 else 0
  {
    SignOnly(if a < 0 then -1 else 0, t.bits);
    WrapFitting(if a < 0 then -1 else 0, t.bits, t.signed);
  }

  lemma {:induction false} OvershiftIs(t: CType, word: CType, ts: Temp -> CType, vs: Temp -> int, a: int, b: nat)
    requires Counted(t, word, ts, vs, a, b)
    ensures var e := CCast(t, Overshift(t));
            CEval(e, ts, vs) == Val(if a < 0 then -1 else 0) && CTypeOf(e, ts) == t
  {
    hide CEval, CTypeOf;
    CastStep(t, Overshift(t), ts, vs);
    CastType(t, Overshift(t), ts);
    ConstIs(INT, 0, ts, vs);
    ZeroFits(t.bits, t.signed);
    if t.signed {
      VarIs(TmpLhs, ts, vs);
      ConstIs(INT, 1, ts, vs);
      MinusStep(CConst(INT, 1), ts, vs, 1);
      FitsPromoted(a, t.bits, t.signed);
      FitsPromoted(0, t.bits, t.signed);
      NotInt(t, INT, t);
      CompareIs(Lt, Lhs(), CConst(INT, 0), ts, vs, a, 0, t);
      Powers();
      CondIs(CCompare(Lt, Lhs(), CConst(INT, 0)), CMinus(CConst(INT, 1)), CConst(INT, 0), ts, vs, a < 0,
        if a < 0 then -1 else 0, INT);
      ConvertFitting(-1, t.bits, t.signed);
    }
  }

  lemma {:induction false} ShrBody(t: Type, ct: CType, word: CType, ts: Temp -> CType, vs: Temp -> int, a: int, b: nat)
    requires t.Int? && t.Has(a) && ct == CInt(t.bits, t.signed) && Counted(ct, word, ts, vs, a, b)
    ensures CEval(GenShr(ct, word), ts, vs) == Val(ShrValue(a, b, t)) && t.Has(ShrValue(a, b, t))
    ensures CTypeOf(GenShr(ct, word), ts) == Promote(ct)
  {
    hide CEval, CTypeOf, ToBits, Signed, Unsigned, ShrValue, Shifted;
    var c, l, r := CCompare(Lt, Rhs(), CConst(word, ct.bits)), CShr(Lhs(), Rhs()), CCast(ct, Overshift(ct));
    ShrIs(a, b, t);
    CountCheck(ct, word, ts, vs, a, b);
    OvershiftIs(ct, word, ts, vs, a, b);
    VarIs(TmpLhs, ts, vs);
    VarIs(TmpRhs, ts, vs);
    if b < ct.bits {
      ShrStep(Lhs(), Rhs(), ts, vs, a, b);
    } else {
      OvershiftValue(a, b, t);
    }
    ShrType(Lhs(), Rhs(), ts);
    CondIs(c, l, r, ts, vs, b < ct.bits, ShrValue(a, b, t), ct);
  }

  lemma {:induction false} ShrType(l: CExpr, r: CExpr, ts: Temp -> CType)
    ensures CTypeOf(CShr(l, r), ts) == Promote(CTypeOf(l, ts))
  {
  }

  // ---------- Comparisons and bitwise operators ----------

  lemma {:induction false} DigitConvert(v: int, a: CType, b: CType)
    requires (v == 0 || v == 1) && (a == CBool || a == INT) && (b == CBool || b == INT)
    ensures Common(a, b) == INT && Convert(v, INT) == v
  {
    Powers();
    ConvertFitting(v, 32, true);
  }

  lemma {:induction false} CompareType(op: CompareOp, l: CExpr, r: CExpr, ts: Temp -> CType)
    ensures CTypeOf(CCompare(op, l, r), ts) == INT
  {
  }

  ghost predicate HoldsInC(op: CompareOp, c: COut, d: COut) {
    c.Val? && d.Val? && op.Holds(c.v, d.v)
  }

  /** Bytes are compared as the ints that they are promoted to. */
  lemma {:induction false} ByteCompare(op: CompareOp, x: int, y: int, l: CExpr, r: CExpr, ts: Temp -> CType,
                                       vs: Temp -> int,
                                       target: Target)
    requires Matches(Byte, Some(x), CEval(l, ts, vs), CTypeOf(l, ts), target)
    requires Matches(Byte, Some(y), CEval(r, ts, vs), CTypeOf(r, ts), target)
    ensures CEval(CCompare(op, l, r), ts, vs) == Val(Digit(HoldsInC(op, CEval(l, ts, vs), CEval(r, ts, vs))))
  {
    hide CEval, CTypeOf, ToBits, Fits;
    var c, d := CEval(l, ts, vs).v, CEval(r, ts, vs).v;
    assert Common(CTypeOf(l, ts), CTypeOf(r, ts)) == INT;
    CompareStep(op, l, r, ts, vs, c, d, INT);
    ConvertFitting(c, 32, true);
    ConvertFitting(d, 32, true);
  }

  /** Comparisons agree; those of bytes compare the C values. */
  lemma {:induction false} CompareAgrees(op: CompareOp, t: Type, x: int, y: int, l: CExpr, r: CExpr,
                      ts: Temp -> CType, vs: Temp -> int, target: Target)
    requires Matches(t, Some(x), CEval(l, ts, vs), CTypeOf(l, ts), target)
    requires Matches(t, Some(y), CEval(r, ts, vs), CTypeOf(r, ts), target)
    ensures var holds := if t.Byte? then HoldsInC(op, CEval(l, ts, vs), CEval(r, ts, vs)) else op.Holds(x, y);
            Matches(Bool, Some(Digit(holds)), CEval(CCompare(op, l, r), ts, vs), CTypeOf(CCompare(op, l, r), ts), target)
  {
    hide CEval, CTypeOf;
    CompareType(op, l, r, ts);
    match t
    case Bool =>
      DigitConvert(x, CTypeOf(l, ts), CTypeOf(r, ts));
      DigitConvert(y, CTypeOf(l, ts), CTypeOf(r, ts));
      CompareStep(op, l, r, ts, vs, x, y, INT);
    case Byte =>
      ByteCompare(op, x, y, l, r, ts, vs, target);
    case _ =>
      IntegerIs(t, x, l, ts, vs, target);
      IntegerIs(t, y, r, ts, vs, target);
      CompareIs(op, l, r, ts, vs, x, y, CTypeFor(t, target));
  }

  /** A bitwise operator on promoted operands has the value that it has at their own width. */
  lemma {:induction false} BitsWiden(op: BitOp, x: int, y: int, n: nat, signed: bool, m: nat)
    requires 0 < n < m && Fits(x, n, signed) && Fits(y, n, signed)
    ensures FromBits(Bitwise(op, ToBits(x, m), ToBits(y, m)), true) ==
            FromBits(Bitwise(op, ToBits(x, n), ToBits(y, n)), signed)
  {
    var bits := Bitwise(op, ToBits(x, n), ToBits(y, n));
    var r := FromBits(bits, signed);
    FromBitsFits(bits, signed);
    BitwiseExtend(op, x, y, n, signed, m);
    if signed {
      SignBit(x, n);
      SignBit(y, n);
      SignBit(r, n);
    }
    assert (r < 0) == op.Apply(x < 0, y < 0);
    Extend(r, n, signed, m);
    FitsWider(r, n, signed, m);
    WrapFitting(r, m, true);
  }

  lemma {:induction false} FitsWider(r: int, n: nat, signed: bool, m: nat)
    requires 0 < n < m && Fits(r, n, signed)
    ensures Fits(r, m, true)
  {
    Pow2Grows(n, m - 1);
  }

  lemma {:induction false} BinaryTyped(op: BitOp, x: int, y: int, t: Type, p: CType)
    requires t.Int? && t.Has(x) && t.Has(y) && p == Promote(CInt(t.bits, t.signed))
    ensures Operate(CBits(op), x, y, p) == Val(BinaryValue(op, x, y, t)) && t.Has(BinaryValue(op, x, y, t))
  {
    BinaryHas(op, x, y, t);
    if t.bits < 32 {
      hide ToBits, Signed, Unsigned, FromBits;
      BitsWiden(op, x, y, t.bits, t.signed, 32);
    }
  }

  lemma {:induction false} IntegerBinary(op: BitOp, t: Type, x: int, y: int, l: CExpr, r: CExpr,
                      ts: Temp -> CType, vs: Temp -> int, target: Target)
    requires t.Int? && Matches(t, Some(x), CEval(l, ts, vs), CTypeOf(l, ts), target)
    requires Matches(t, Some(y), CEval(r, ts, vs), CTypeOf(r, ts), target)
    ensures var e := CBinary(CBits(op), l, r);
            Matches(t, Some(BinaryValue(op, x, y, t)), CEval(e, ts, vs), CTypeOf(e, ts), target)
  {
    hide CEval, CTypeOf, BinaryValue;
    var ct := CTypeFor(t, target);
    IntegerIs(t, x, l, ts, vs, target);
    IntegerIs(t, y, r, ts, vs, target);
    BinaryTyped(op, x, y, t, Promote(ct));
    FitsPromoted(BinaryValue(op, x, y, t), t.bits, t.signed);
    hide Operate;
    BinaryIs(CBits(op), l, r, ts, vs, x, y, BinaryValue(op, x, y, t), ct);
    BinaryType(CBits(op), l, r, ts);
    CommonIs(CTypeOf(l, ts), CTypeOf(r, ts), ct);
    IntegerMatches(t, BinaryValue(op, x, y, t), CEval(CBinary(CBits(op), l, r), ts, vs), Promote(ct), target);
  }

  lemma {:induction false} BoolBits(op: BitOp, x: int, y: int)
    requires Bool.Has(x) && Bool.Has(y)
    ensures Operate(CBits(op), x, y, INT) == Val(BinaryValue(op, x, y, Bool))
  {
    Powers();
    BitsWiden(op, x, y, 1, false, 32);
    var bits := Bitwise(op, ToBits(x, 1), ToBits(y, 1));
    assert Unsigned(bits) == Digit(bits[0]) by {
      assert Unsigned(bits[1..]) == 0;
    }
  }

  lemma {:induction false} ByteBits(op: BitOp, c: int, d: int, x: int, y: int, target: Target)
    requires Byte.Has(x) && Byte.Has(y) && Holds(Byte, x, INT, c, target) && Holds(Byte, y, INT, d, target)
    ensures var r := Operate(CBits(op), c, d, INT);
            Matches(Byte, Some(BinaryValue(op, x, y, Byte)), r, INT, target)
  {
    var w, v := FromBits(Bitwise(op, ToBits(c, 32), ToBits(d, 32)), true), FromBits(Bitwise(op, ToBits(x, 8), ToBits(y, 8)), false);
    hide ToBits, Signed, Unsigned, FromBits, Bitwise;
    LowBits(op, c, d, x, y);
    if !target.charSigned {
      BitsWiden(op, x, y, 8, false, 32);
    }
    ByteMatches(v, w, INT, target);
  }

  lemma {:induction false} LowBits(op: BitOp, c: int, d: int, x: int, y: int)
    requires ToBits(c, 8) == ToBits(x, 8) && ToBits(d, 8) == ToBits(y, 8)
    ensures var w := FromBits(Bitwise(op, ToBits(c, 32), ToBits(d, 32)), true);
            var v := FromBits(Bitwise(op, ToBits(x, 8), ToBits(y, 8)), false);
            Fits(w, 32, true) && Fits(v, 8, false) && ToBits(w, 8) == ToBits(v, 8)
  {
    hide Signed, Unsigned;
    var wide, narrow := Bitwise(op, ToBits(c, 32), ToBits(d, 32)), Bitwise(op, ToBits(x, 8), ToBits(y, 8));
    Trim(c, 32, 8);
    Trim(d, 32, 8);
    FromBitsFits(wide, true);
    FromBitsFits(narrow, false);
    Trim(FromBits(wide, true), 32, 8);
    assert wide[..8] == narrow;
  }

  lemma {:induction false} BoolBinary(op: BitOp, x: int, y: int, l: CExpr, r: CExpr, ts: Temp -> CType,
                                      vs: Temp -> int, target: Target)
    requires Matches(Bool, Some(x), CEval(l, ts, vs), CTypeOf(l, ts), target)
    requires Matches(Bool, Some(y), CEval(r, ts, vs), CTypeOf(r, ts), target)
    ensures var e := CBinary(CBits(op), l, r);
            Matches(Bool, Some(BinaryValue(op, x, y, Bool)), CEval(e, ts, vs), CTypeOf(e, ts), target)
  {
    hide CEval, CTypeOf, BinaryValue, Operate, Convert, Common, Fits, ToBits, Bitwise;
    BinaryType(CBits(op), l, r, ts);
    DigitConvert(x, CTypeOf(l, ts), CTypeOf(r, ts));
    DigitConvert(y, CTypeOf(l, ts), CTypeOf(r, ts));
    BinaryStep(CBits(op), l, r, ts, vs, x, y, INT);
    BoolBits(op, x, y);
    BinaryHas(op, x, y, Bool);
  }

  lemma {:induction false} ByteBinary(op: BitOp, x: int, y: int, l: CExpr, r: CExpr, ts: Temp -> CType,
                                      vs: Temp -> int, target: Target)
    requires Matches(Byte, Some(x), CEval(l, ts, vs), CTypeOf(l, ts), target)
    requires Matches(Byte, Some(y), CEval(r, ts, vs), CTypeOf(r, ts), target)
    ensures var e := CBinary(CBits(op), l, r);
            Matches(Byte, Some(BinaryValue(op, x, y, Byte)), CEval(e, ts, vs), CTypeOf(e, ts), target)
  {
    hide CEval, CTypeOf, BinaryValue, Operate, ToBits, Fits;
    var c, d := CEval(l, ts, vs).v, CEval(r, ts, vs).v;
    BinaryType(CBits(op), l, r, ts);
    assert Common(CTypeOf(l, ts), CTypeOf(r, ts)) == INT;
    BinaryStep(CBits(op), l, r, ts, vs, c, d, INT);
    ConvertFitting(c, 32, true);
    ConvertFitting(d, 32, true);
    ByteBits(op, c, d, x, y, target);
  }

  lemma {:induction false} BinaryAgrees(op: BitOp, t: Type, x: int, y: int, l: CExpr, r: CExpr,
                     ts: Temp -> CType, vs: Temp -> int, target: Target)
    requires !t.Enum? && Matches(t, Some(x), CEval(l, ts, vs), CTypeOf(l, ts), target)
    requires Matches(t, Some(y), CEval(r, ts, vs), CTypeOf(r, ts), target)
    ensures var e := CBinary(CBits(op), l, r);
            Matches(t, Some(BinaryValue(op, x, y, t)), CEval(e, ts, vs), CTypeOf(e, ts), target)
  {
    hide CEval, CTypeOf, BinaryValue, Matches;
    match t
    case Bool => BoolBinary(op, x, y, l, r, ts, vs, target);
    case Byte => ByteBinary(op, x, y, l, r, ts, vs, target);
    case Int(_, _) => IntegerBinary(op, t, x, y, l, r, ts, vs, target);
  }

  // ---------- Whole expressions ----------

  /** Whether the C value of a byte is negative where char is signed: casts and complements are chars, literals are
      not, and a bitwise operator works on the signs too. */
  predicate Negative(e: Expr) {
    match e
    case Cast(_, _) => Eval(e, true).Some? && Eval(e, true).value >= 0x80
    case Unary(_, _) => Eval(e, true).Some? && Eval(e, true).value >= 0x80
    case Binary(op, l, r) => op.Apply(Negative(l), Negative(r))
    case _ => false
  }

  /** The C value of a byte where char is signed. */
  function CharValue(v: int, negative: bool): int {
    if negative then v - 0x100 else v
  }

  /** Whether the C values of two bytes compare as the bytes do: they have the same sign, or the comparison of the
      bytes is that of their signs. */
  predicate ComparesAlike(op: CompareOp, a: int, p: bool, b: int, q: bool) {
    p == q || op.Holds(a, b) == op.Holds(-Digit(p), -Digit(q))
  }

  /** Every comparison of bytes and every product that is evaluated means in C what it means at compile time. */
  predicate Portable(e: Expr, target: Target) {
    match e
    case Const(_, _) => true
    case Cast(_, x) => Portable(x, target)
    case Unary(_, x) => Portable(x, target)
    case Or(l, r) => Portable(l, target) && (Eval(l, true) == Some(0) ==> Portable(r, target))
    case And(l, r) => Portable(l, target) && (Eval(l, true).Some? && Eval(l, true) != Some(0) ==> Portable(r, target))
    case Compare(op, l, r) =>
      Portable(l, target) && Portable(r, target) &&
      (TypeOf(l).Byte? && target.charSigned && Eval(l, true).Some? && Eval(r, true).Some? ==>
         ComparesAlike(op, Eval(l, true).value, Negative(l), Eval(r, true).value, Negative(r)))
    case Binary(_, l, r) => Portable(l, target) && Portable(r, target)
    case Arith(op, wrapping, l, r) =>
      Portable(l, target) && (Eval(l, true).Some? ==> Portable(r, target)) &&
      (TypeOf(l).Int? && Eval(l, true).Some? && Eval(r, true).Some? ==>
         !Overflows(op, wrapping, TypeOf(l).bits, target.gnu, Eval(l, true).value, Eval(r, true).value))
    case _ => Portable(e.lhs, target) && (Eval(e.lhs, true).Some? ==> Portable(e.rhs, target))
  }

  lemma {:induction false} UnaryAgrees(op: UnaryOp, v: int, t: Type, g: CExpr, ts: Temp -> CType, vs: Temp -> int,
                                       target: Target)
    requires Matches(t, Some(v), CEval(g, ts, vs), CTypeOf(g, ts), target)
    requires op.Not? ==> t.Bool?
    requires op.Pos? ==> t.Int?
    requires op.Neg? || op.NegWrapping? ==> t.Int? && t.signed
    requires op.BitNot? ==> t.Int? || t.Byte?
    ensures var e := GenUnary(op, g, CTypeFor(t, target), target);
            Matches(t, UnaryValue(op, v, t), CEval(e, ts, vs), CTypeOf(e, ts), target)
  {
    match op
    case Not => NotAgrees(v, g, ts, vs, target);
    case Pos => PosAgrees(v, t, g, ts, vs, target);
    case Neg => NegAgrees(v, t, g, ts, vs, target);
    case NegWrapping => NegWrappingAgrees(v, t, g, ts, vs, target);
    case BitNot => BitNotAgrees(v, t, g, ts, vs, target);
  }

  lemma {:induction false} PosAgrees(v: int, t: Type, g: CExpr, ts: Temp -> CType, vs: Temp -> int, target: Target)
    requires t.Int? && Matches(t, Some(v), CEval(g, ts, vs), CTypeOf(g, ts), target)
    ensures Matches(t, Some(v), CEval(CPlus(g), ts, vs), CTypeOf(CPlus(g), ts), target)
  {
    assert Promote(Promote(CTypeFor(t, target))) == Promote(CTypeFor(t, target));
  }

  lemma {:induction false} ArithAgrees(op: ArithOp, wrapping: bool, t: Type, a: int, b: int, ts: Temp -> CType,
                                       vs: Temp -> int, target: Target)
    requires t.Int? && !Overflows(op, wrapping, t.bits, target.gnu, a, b) && Operands(CTypeFor(t, target), ts, vs, a, b)
    ensures var ct := CTypeFor(t, target);
            var e := CCast(ct, Helper(op, wrapping, ct, target.gnu));
            Matches(t, ArithValue(op, wrapping, a, b, t), CEval(e, ts, vs), CTypeOf(e, ts), target)
  {
    hide CEval, CTypeOf, ToBits, Signed, Unsigned, FromBits, WrappingValue, Helper;
    var ct := CTypeFor(t, target);
    CastType(ct, Helper(op, wrapping, ct, target.gnu), ts);
    if wrapping {
      WrappingHelper(op, ct, target.gnu, ts, vs, a, b);
      WrappingIs(op, a, b, t);
      WrapFits(op.Exact(a, b), t.bits, t.signed);
    } else {
      CheckedHelper(op, ct, target.gnu, ts, vs, a, b);
    }
  }

  lemma {:induction false} DivideAgrees(remainder: bool, t: Type, a: int, b: int, ts: Temp -> CType, vs: Temp -> int,
                                        target: Target)
    requires t.Int? && Operands(CTypeFor(t, target), ts, vs, a, b)
    ensures var ct := CTypeFor(t, target);
            var e := CCast(ct, DivideHelper(remainder, ct));
            Matches(t, DivideValue(remainder, a, b, t), CEval(e, ts, vs), CTypeOf(e, ts), target)
  {
    hide CEval, CTypeOf, DivideHelper;
    var ct := CTypeFor(t, target);
    CastType(ct, DivideHelper(remainder, ct), ts);
    DivideHelperIs(remainder, ct, ts, vs, a, b);
    DivideHas(remainder, a, b, t);
    hide DivideValue;
  }

  // A failing operand fails the expression.
  lemma {:induction false} TemporariesFail(t: CType, l: CExpr, u: CType, r: CExpr, body: CExpr, ts: Temp -> CType,
                                           vs: Temp -> int, a: int)
    ensures CEval(l, ts, vs) == Trap ==> CEval(Temporaries(t, l, u, r, body), ts, vs) == Trap
    ensures CEval(l, ts, vs).Val? && CEval(r, With(ts, TmpLhs, t), With(vs, TmpLhs, Convert(CEval(l, ts, vs).v, t))) == Trap ==>
              CEval(Temporaries(t, l, u, r, body), ts, vs) == Trap
  {
    hide Convert;
    if CEval(l, ts, vs).Val? {
      var v := Convert(CEval(l, ts, vs).v, t);
      LetStep(TmpLhs, t, l, CLet(TmpRhs, u, r, body), ts, vs, v);
    }
  }

  /** The operand of a temporary: an integer is stored unchanged. */
  lemma {:induction false} StoredIs(t: Type, r: Option<int>, out: COut, ct: CType, target: Target)
    requires t.Int? && Matches(t, r, out, ct, target) && r.Some?
    ensures out == Val(r.value) && Convert(r.value, CTypeFor(t, target)) == r.value && Fits(r.value, t.bits, t.signed)
  {
    ConvertFitting(r.value, t.bits, t.signed);
  }

  function Body(e: Expr, target: Target): CExpr
    requires e.Shl? || e.Shr? || e.Arith? || e.Divide?
    requires TypeOf(e.lhs).Int?
  {
    var ct, word := CTypeFor(TypeOf(e.lhs), target), CInt(target.word, false);
    match e
    case Shl(_, _) => GenShl(ct, word)
    case Shr(_, _) => GenShr(ct, word)
    case Arith(op, wrapping, _, _) => CCast(ct, Helper(op, wrapping, ct, target.gnu))
    case Divide(remainder, _, _) => CCast(ct, DivideHelper(remainder, ct))
  }

  predicate IsTwoOperand(e: Expr, target: Target) {
    (e.Shl? || e.Shr? || e.Arith? || e.Divide?) && TypeOf(e.lhs).Int? &&
    (if e.Shl? || e.Shr? then TypeOf(e.rhs) == Int(target.word, false) else TypeOf(e.rhs) == TypeOf(e.lhs)) &&
    target.word >= 32
  }

  lemma {:induction false} BodyAgrees(e: Expr, target: Target, a: int, b: int, ts: Temp -> CType, vs: Temp -> int)
    requires IsTwoOperand(e, target) && TypeOf(e.lhs).Has(a) && TypeOf(e.rhs).Has(b)
    requires Eval(e.lhs, true) == Some(a) && Eval(e.rhs, true) == Some(b)
    requires e.Arith? ==> !Overflows(e.aop, e.wrapping, TypeOf(e.lhs).bits, target.gnu, a, b)
    ensures var ts2 := With(With(ts, TmpLhs, CTypeFor(TypeOf(e.lhs), target)), TmpRhs, CTypeFor(TypeOf(e.rhs), target));
            var vs2 := With(With(vs, TmpLhs, a), TmpRhs, b);
            Matches(TypeOf(e), Eval(e, true), CEval(Body(e, target), ts2, vs2), CTypeOf(Body(e, target), ts2), target)
  {
    hide CEval, CTypeOf, ShlValue, ShrValue, ArithValue, DivideValue, Helper, DivideHelper, GenShl, GenShr;
    var t, ct, word := TypeOf(e.lhs), CTypeFor(TypeOf(e.lhs), target), CInt(target.word, false);
    var ts2 := With(With(ts, TmpLhs, ct), TmpRhs, CTypeFor(TypeOf(e.rhs), target));
    var vs2 := With(With(vs, TmpLhs, a), TmpRhs, b);
    match e
    case Shl(_, _) =>
      ShlBody(t, ct, word, ts2, vs2, a, b);
      IntegerMatches(t, ShlValue(a, b, t), CEval(Body(e, target), ts2, vs2), Promote(ct), target);
    case Shr(_, _) =>
      ShrBody(t, ct, word, ts2, vs2, a, b);
      IntegerMatches(t, ShrValue(a, b, t), CEval(Body(e, target), ts2, vs2), Promote(ct), target);
    case Arith(op, wrapping, _, _) =>
      ArithAgrees(op, wrapping, t, a, b, ts2, vs2, target);
    case Divide(remainder, _, _) =>
      DivideAgrees(remainder, t, a, b, ts2, vs2, target);
  }

  /** An operation with temporaries, given that its operands agree. */
  lemma {:induction false} TwoOperandAgrees(e: Expr, target: Target, ts: Temp -> CType, vs: Temp -> int)
    requires IsTwoOperand(e, target)
    requires e.Arith? && Eval(e.lhs, true).Some? && Eval(e.rhs, true).Some? ==>
               !Overflows(e.aop, e.wrapping, TypeOf(e.lhs).bits, target.gnu, Eval(e.lhs, true).value, Eval(e.rhs, true).value)
    requires Matches(TypeOf(e.lhs), Eval(e.lhs, true), CEval(Gen(e.lhs, target), ts, vs),
             CTypeOf(Gen(e.lhs, target), ts), target)
    requires Eval(e.lhs, true).Some? ==>
               var ts1 := With(ts, TmpLhs, CTypeFor(TypeOf(e.lhs), target));
               var vs1 := With(vs, TmpLhs, Eval(e.lhs, true).value);
               Matches(TypeOf(e.rhs), Eval(e.rhs, true), CEval(Gen(e.rhs, target), ts1, vs1), CTypeOf(Gen(e.rhs, target), ts1), target)
    ensures Matches(TypeOf(e), Eval(e, true), CEval(Gen(e, target), ts, vs), CTypeOf(Gen(e, target), ts), target)
  {
    var t, u := CTypeFor(TypeOf(e.lhs), target), CTypeFor(TypeOf(e.rhs), target);
    var l, r, body := Gen(e.lhs, target), Gen(e.rhs, target), Body(e, target);
    assert Gen(e, target) == Temporaries(t, l, u, r, body);
    OperandsDecide(e);
    hide CEval, CTypeOf, Gen, Eval, Body, TypeOf, IsTwoOperand;
    TemporariesFail(t, l, u, r, body, ts, vs, 0);
    if Eval(e.lhs, true).Some? {
      var a := Eval(e.lhs, true).value;
      var ts1, vs1 := With(ts, TmpLhs, t), With(vs, TmpLhs, a);
      StoredIs(TypeOf(e.lhs), Eval(e.lhs, true), CEval(l, ts, vs), CTypeOf(l, ts), target);
      if Eval(e.rhs, true).Some? {
        var b := Eval(e.rhs, true).value;
        StoredIs(TypeOf(e.rhs), Eval(e.rhs, true), CEval(r, ts1, vs1), CTypeOf(r, ts1), target);
        TemporariesIs(t, l, u, r, body, ts, vs, a, b);
        BodyAgrees(e, target, a, b, ts, vs);
      }
    }
  }

  lemma {:induction false} OperandsDecide(e: Expr)
    requires e.Shl? || e.Shr? || e.Arith? || e.Divide?
    ensures Eval(e.lhs, true).None? || Eval(e.rhs, true).None? ==> Eval(e, true).None?
    ensures TypeOf(e) == TypeOf(e.lhs)
  {
  }

  lemma {:induction false} CastExpr(x: Expr, t: Type, target: Target, ts: Temp -> CType, vs: Temp -> int)
    requires Matches(TypeOf(x), Eval(x, true), CEval(Gen(x, target), ts, vs), CTypeOf(Gen(x, target), ts), target)
    ensures var e := Cast(t, x);
            Matches(t, Eval(e, true), CEval(Gen(e, target), ts, vs), CTypeOf(Gen(e, target), ts), target)
  {
    var g, ct := Gen(x, target), CTypeFor(t, target);
    var inner := if TypeOf(x).Byte? then CCast(CInt(8, false), g) else g;
    assert Gen(Cast(t, x), target) == CCast(ct, inner);
    assert Eval(Cast(t, x), true) == if Eval(x, true).None? then None else Some(CastValue(Eval(x, true).value, TypeOf(x), t));
    hide CEval, CTypeOf, Gen, Eval, CastValue, Convert;
    CastStep(CInt(8, false), g, ts, vs);
    CastStep(ct, inner, ts, vs);
    CastType(ct, inner, ts);
    if Eval(x, true).Some? {
      var v, c := Eval(x, true).value, CEval(g, ts, vs).v;
      InnerIs(v, TypeOf(x), CTypeOf(g, ts), c, target);
      CastAgrees(v, TypeOf(x), t, target);
    }
  }

  lemma {:induction false} UnaryExpr(op: UnaryOp, x: Expr, target: Target, ts: Temp -> CType, vs: Temp -> int)
    requires WellTyped(Unary(op, x), target.word)
    requires Matches(TypeOf(x), Eval(x, true), CEval(Gen(x, target), ts, vs), CTypeOf(Gen(x, target), ts), target)
    ensures var e := Unary(op, x);
            Matches(TypeOf(e), Eval(e, true), CEval(Gen(e, target), ts, vs), CTypeOf(Gen(e, target), ts), target)
  {
    var g, t := Gen(x, target), TypeOf(x);
    var e := GenUnary(op, g, CTypeFor(t, target), target);
    assert Gen(Unary(op, x), target) == e;
    assert Eval(Unary(op, x), true) == if Eval(x, true).None? then None else UnaryValue(op, Eval(x, true).value, t);
    hide Gen, Eval;
    if Eval(x, true).Some? {
      hide CEval, CTypeOf, UnaryValue, GenUnary;
      UnaryAgrees(op, Eval(x, true).value, t, g, ts, vs, target);
    } else {
      UnaryFails(op, g, CTypeFor(t, target), target, ts, vs);
    }
  }

  lemma {:induction false} UnaryFails(op: UnaryOp, g: CExpr, t: CType, target: Target, ts: Temp -> CType,
                                      vs: Temp -> int)
    requires CEval(g, ts, vs) == Trap
    ensures CEval(GenUnary(op, g, t, target), ts, vs) == Trap
  {
    hide CEval, Helper, Temporaries, Least;
    TrapOut(g, t, ts, vs);
    match op
    case Neg =>
      if t.CInt? {
        LetTrap(TmpRhs, t, g, GenNeg(t, g, CInt(target.word, false)).body, ts, vs);
      }
    case NegWrapping =>
      if t.CInt? {
        LetTrap(TmpResult, t, CCompl(g), GenNegWrapping(t, g, target.gnu).body, ts, vs);
      }
    case BitNot =>
      TrapOut(CCompl(g), t, ts, vs);
    case _ =>
  }

  lemma {:induction false} TrapOut(g: CExpr, t: CType, ts: Temp -> CType, vs: Temp -> int)
    requires CEval(g, ts, vs) == Trap
    ensures CEval(CNot(g), ts, vs) == Trap && CEval(CPlus(g), ts, vs) == Trap && CEval(CMinus(g), ts, vs) == Trap
    ensures CEval(CCompl(g), ts, vs) == Trap && CEval(CCast(t, g), ts, vs) == Trap
  {
  }

  lemma {:induction false} LetTrap(x: Temp, t: CType, g: CExpr, body: CExpr, ts: Temp -> CType, vs: Temp -> int)
    requires CEval(g, ts, vs) == Trap
    ensures CEval(CLet(x, t, g, body), ts, vs) == Trap
  {
  }

  lemma {:induction false} OrExpr(l: Expr, r: Expr, target: Target, ts: Temp -> CType, vs: Temp -> int)
    requires Matches(Bool, Eval(l, true), CEval(Gen(l, target), ts, vs), CTypeOf(Gen(l, target), ts), target)
    requires Eval(l, true) == Some(0) ==>
               Matches(Bool, Eval(r, true), CEval(Gen(r, target), ts, vs), CTypeOf(Gen(r, target), ts), target)
    ensures Matches(Bool, Eval(Or(l, r), true), CEval(Gen(Or(l, r), target), ts, vs), INT, target)
  {
    OrEval(l, r);
    OrStep(Gen(l, target), Gen(r, target), ts, vs);
    assert Gen(Or(l, r), target) == COr(Gen(l, target), Gen(r, target));
    hide Gen, Eval, CEval, CTypeOf;
  }

  lemma {:induction false} OrEval(l: Expr, r: Expr)
    ensures Eval(Or(l, r), true) == (match Eval(l, true) {
                case None => None
                case Some(a) =>
                  if a != 0 then Some(1)
                  else match Eval(r, true) { case None => None case Some(b) => Some(Digit(b != 0)) }
              })
  {
  }

  lemma {:induction false} OrStep(l: CExpr, r: CExpr, ts: Temp -> CType, vs: Temp -> int)
    ensures CEval(COr(l, r), ts, vs) == (match CEval(l, ts, vs) {
                case Val(a) =>
                  if a != 0 then Val(1)
                  else match CEval(r, ts, vs) { case Val(b) => Val(Digit(b != 0)) case out => out }
                case out => out
              })
  {
  }

  lemma {:induction false} AndExpr(l: Expr, r: Expr, target: Target, ts: Temp -> CType, vs: Temp -> int)
    requires Matches(Bool, Eval(l, true), CEval(Gen(l, target), ts, vs), CTypeOf(Gen(l, target), ts), target)
    requires Eval(l, true).Some? && Eval(l, true) != Some(0) ==>
               Matches(Bool, Eval(r, true), CEval(Gen(r, target), ts, vs), CTypeOf(Gen(r, target), ts), target)
    ensures Matches(Bool, Eval(And(l, r), true), CEval(Gen(And(l, r), target), ts, vs), INT, target)
  {
    AndEval(l, r);
    AndStep(Gen(l, target), Gen(r, target), ts, vs);
    assert Gen(And(l, r), target) == CAnd(Gen(l, target), Gen(r, target));
    hide Gen, Eval, CEval, CTypeOf;
  }

  lemma {:induction false} AndEval(l: Expr, r: Expr)
    ensures Eval(And(l, r), true) == (match Eval(l, true) {
                case None => None
                case Some(a) =>
                  if a == 0 then Some(0)
                  else match Eval(r, true) { case None => None case Some(b) => Some(Digit(b != 0)) }
              })
  {
  }

  lemma {:induction false} AndStep(l: CExpr, r: CExpr, ts: Temp -> CType, vs: Temp -> int)
    ensures CEval(CAnd(l, r), ts, vs) == (match CEval(l, ts, vs) {
                case Val(a) =>
                  if a == 0 then Val(0)
                  else match CEval(r, ts, vs) { case Val(b) => Val(Digit(b != 0)) case out => out }
                case out => out
              })
  {
  }

  /** Comparisons and bitwise operators evaluate both operands in place. */
  lemma {:induction false} InPlaceExpr(e: Expr, target: Target, ts: Temp -> CType, vs: Temp -> int)
    requires (e.Compare? || e.Binary?) && WellTyped(e, target.word)
    requires e.Compare? && TypeOf(e.lhs).Byte? && Eval(e.lhs, true).Some? && Eval(e.rhs, true).Some? ==>
               HoldsInC(e.cop, CEval(Gen(e.lhs, target), ts, vs), CEval(Gen(e.rhs, target), ts, vs)) ==
               e.cop.Holds(Eval(e.lhs, true).value, Eval(e.rhs, true).value)
    requires Matches(TypeOf(e.lhs), Eval(e.lhs, true), CEval(Gen(e.lhs, target), ts, vs),
             CTypeOf(Gen(e.lhs, target), ts), target)
    requires Matches(TypeOf(e.rhs), Eval(e.rhs, true), CEval(Gen(e.rhs, target), ts, vs),
             CTypeOf(Gen(e.rhs, target), ts), target)
    ensures Matches(TypeOf(e), Eval(e, true), CEval(Gen(e, target), ts, vs), CTypeOf(Gen(e, target), ts), target)
  {
    var g, h, t := Gen(e.lhs, target), Gen(e.rhs, target), TypeOf(e.lhs);
    var c := if e.Compare? then CCompare(e.cop, g, h) else CBinary(CBits(e.bop), g, h);
    assert Gen(e, target) == c;
    assert TypeOf(e.rhs) == t && TypeOf(e) == if e.Compare? then Bool else t;
    InPlaceValue(e);
    InPlaceFails(c, g, h, ts, vs);
    assert e.Binary? ==> !t.Enum?;
    hide Gen, Eval, CEval, CTypeOf, BinaryValue, WellTyped;
    if Eval(e.lhs, true).Some? && Eval(e.rhs, true).Some? {
      var x, y := Eval(e.lhs, true).value, Eval(e.rhs, true).value;
      if e.Compare? {
        CompareAgrees(e.cop, t, x, y, g, h, ts, vs, target);
      } else {
        BinaryAgrees(e.bop, t, x, y, g, h, ts, vs, target);
      }
    }
  }

  lemma {:induction false} InPlaceValue(e: Expr)
    requires e.Compare? || e.Binary?
    ensures Eval(e.lhs, true).None? || Eval(e.rhs, true).None? ==> Eval(e, true).None?
    ensures Eval(e.lhs, true).Some? && Eval(e.rhs, true).Some? ==>
              var x, y := Eval(e.lhs, true).value, Eval(e.rhs, true).value;
              Eval(e, true) == Some(if e.Compare? then Digit(e.cop.Holds(x, y)) else BinaryValue(e.bop, x, y, TypeOf(e.lhs)))
  {
    hide BinaryValue;
  }

  lemma {:induction false} InPlaceFails(c: CExpr, g: CExpr, h: CExpr, ts: Temp -> CType, vs: Temp -> int)
    requires (c.CCompare? || c.CBinary?) && c.l == g && c.r == h
    ensures CEval(g, ts, vs) == Trap ==> CEval(c, ts, vs) == Trap
    ensures CEval(g, ts, vs).Val? && CEval(h, ts, vs) == Trap ==> CEval(c, ts, vs) == Trap
  {
  }

  /** The emitted text of an expression computes its value, stopping early in `and` and `or`; it stops the
      program exactly when there is no value, and its behaviour is never undefined. */
  lemma {:induction false} EmittedText(e: Expr, target: Target, ts: Temp -> CType, vs: Temp -> int)
    requires WellTyped(e, target.word) && Portable(e, target) && target.word >= 32
    ensures Matches(TypeOf(e), Eval(e, true), CEval(Gen(e, target), ts, vs), CTypeOf(Gen(e, target), ts), target)
    decreases e, 0
  {
    match e
    case Const(t, v) =>
      ValueAgrees(t, v, ts, vs, target);
    case Cast(t, x) =>
      EmittedText(x, target, ts, vs);
      hide CEval, CTypeOf, Gen, Eval;
      CastExpr(x, t, target, ts, vs);
    case Unary(op, x) =>
      EmittedText(x, target, ts, vs);
      hide CEval, CTypeOf, Gen, Eval;
      UnaryExpr(op, x, target, ts, vs);
    case Or(l, r) =>
      EmittedText(l, target, ts, vs);
      if Eval(l, true) == Some(0) {
        EmittedText(r, target, ts, vs);
      }
      LogicType(l, r, target, ts);
      hide CEval, CTypeOf, Gen, Eval;
      OrExpr(l, r, target, ts, vs);
    case And(l, r) =>
      EmittedText(l, target, ts, vs);
      if Eval(l, true).Some? && Eval(l, true) != Some(0) {
        EmittedText(r, target, ts, vs);
      }
      LogicType(l, r, target, ts);
      hide CEval, CTypeOf, Gen, Eval;
      AndExpr(l, r, target, ts, vs);
    case Compare(_, l, r) =>
      EmittedText(l, target, ts, vs);
      EmittedText(r, target, ts, vs);
      if TypeOf(l).Byte? && Eval(l, true).Some? && Eval(r, true).Some? {
        ComparedBytes(e, target, ts, vs);
      }
      hide CEval, CTypeOf, Gen, Eval;
      InPlaceExpr(e, target, ts, vs);
    case Binary(_, l, r) =>
      EmittedText(l, target, ts, vs);
      EmittedText(r, target, ts, vs);
      hide CEval, CTypeOf, Gen, Eval;
      InPlaceExpr(e, target, ts, vs);
    case _ =>
      assert IsTwoOperand(e, target);
      EmittedText(e.lhs, target, ts, vs);
      if Eval(e.lhs, true).Some? {
        EmittedText(e.rhs, target, With(ts, TmpLhs, CTypeFor(TypeOf(e.lhs), target)), With(vs, TmpLhs, Eval(e.lhs, true).value));
      }
      hide CEval, CTypeOf, Gen, Eval;
      TwoOperandAgrees(e, target, ts, vs);
  }

  /** The operands of a comparison of bytes, as C sees them. */
  lemma {:induction false} ComparedBytes(e: Expr, target: Target, ts: Temp -> CType, vs: Temp -> int)
    requires e.Compare? && TypeOf(e.lhs).Byte? && WellTyped(e, target.word) && Portable(e, target) && target.word >= 32
    requires Eval(e.lhs, true).Some? && Eval(e.rhs, true).Some?
    ensures HoldsInC(e.cop, CEval(Gen(e.lhs, target), ts, vs), CEval(Gen(e.rhs, target), ts, vs)) ==
            e.cop.Holds(Eval(e.lhs, true).value, Eval(e.rhs, true).value)
    decreases e, -1
  {
    var l, r, op := e.lhs, e.rhs, e.cop;
    if target.charSigned {
      ByteInC(l, target, ts, vs);
      ByteInC(r, target, ts, vs);
      ByteRange(l, target.word);
      ByteRange(r, target.word);
      hide CEval, Gen, Eval, Negative, WellTyped;
      CharsCompare(op, Eval(l, true).value, Negative(l), Eval(r, true).value, Negative(r));
    } else {
      EmittedText(l, target, ts, vs);
      EmittedText(r, target, ts, vs);
      hide CEval, Gen, Eval;
    }
  }

  lemma {:induction false} ByteRange(e: Expr, word: Bits)
    requires WellTyped(e, word) && TypeOf(e).Byte? && Eval(e, true).Some?
    ensures 0 <= Eval(e, true).value < 0x100
  {
    EvalHas(e, word, true);
    Powers();
  }

  /** The C values of two bytes compare as the bytes do exactly where `ComparesAlike` says so. */
  lemma {:induction false} CharsCompare(op: CompareOp, a: int, p: bool, b: int, q: bool)
    requires 0 <= a < 0x100 && 0 <= b < 0x100
    ensures op.Holds(CharValue(a, p), CharValue(b, q)) == op.Holds(a, b) <==> ComparesAlike(op, a, p, b, q)
  {
  }

  /** The C value of a byte where char is signed. */
  lemma {:induction false} ByteInC(e: Expr, target: Target, ts: Temp -> CType, vs: Temp -> int)
    requires TypeOf(e).Byte? && target.charSigned && WellTyped(e, target.word) && Portable(e, target) &&
             target.word >= 32
    requires Eval(e, true).Some?
    ensures CEval(Gen(e, target), ts, vs) == Val(CharValue(Eval(e, true).value, Negative(e)))
    decreases e, 1
  {
    EmittedText(e, target, ts, vs);
    ByteRange(e, target.word);
    match e
    case Const(_, v) => ConstIs(INT, v, ts, vs);
    case Cast(_, x) => CharText(e, target, ts, vs);
    case Unary(_, x) => CharText(e, target, ts, vs);
    case Binary(op, l, r) =>
      ByteOperands(e, target);
      hide CEval, CTypeOf, Gen, Eval, Negative, Portable, WellTyped, TypeOf, Common, ToBits, Fits;
      ByteInC(l, target, ts, vs);
      ByteInC(r, target, ts, vs);
      ByteRange(l, target.word);
      ByteRange(r, target.word);
      EmittedText(l, target, ts, vs);
      EmittedText(r, target, ts, vs);
      TypesOfBytes(e, target, ts, vs);
      BinaryText(e, target, ts, vs);
    case _ =>
  }

  lemma {:induction false} ByteOperands(e: Expr, target: Target)
    requires e.Binary? && TypeOf(e).Byte? && WellTyped(e, target.word) && Portable(e, target) && Eval(e, true).Some?
    ensures TypeOf(e.lhs).Byte? && WellTyped(e.lhs, target.word) && Portable(e.lhs, target) && Eval(e.lhs, true).Some?
    ensures TypeOf(e.rhs).Byte? && WellTyped(e.rhs, target.word) && Portable(e.rhs, target) && Eval(e.rhs, true).Some?
  {
  }

  lemma {:induction false} TypesOfBytes(e: Expr, target: Target, ts: Temp -> CType, vs: Temp -> int)
    requires e.Binary? && Eval(e.lhs, true).Some? && Eval(e.rhs, true).Some?
    requires Matches(Byte, Eval(e.lhs, true), CEval(Gen(e.lhs, target), ts, vs), CTypeOf(Gen(e.lhs, target), ts),
             target)
    requires Matches(Byte, Eval(e.rhs, true), CEval(Gen(e.rhs, target), ts, vs), CTypeOf(Gen(e.rhs, target), ts),
             target)
    ensures BytesTyped(e, target, ts)
  {
    hide CEval, CTypeOf, Gen, Eval, ToBits, Fits;
  }

  /** A cast or a complement of a byte is a char. */
  lemma {:induction false} CharText(e: Expr, target: Target, ts: Temp -> CType, vs: Temp -> int)
    requires (e.Cast? || e.Unary?) && TypeOf(e).Byte? && target.charSigned && WellTyped(e, target.word)
    requires Eval(e, true).Some? && 0 <= Eval(e, true).value < 0x100
    requires Matches(Byte, Eval(e, true), CEval(Gen(e, target), ts, vs), CTypeOf(Gen(e, target), ts), target)
    ensures CEval(Gen(e, target), ts, vs) == Val(CharValue(Eval(e, true).value, Negative(e)))
  {
    var t, v := CInt(8, true), Eval(e, true).value;
    assert Gen(e, target).CCast? && Gen(e, target).ty == t;
    assert Negative(e) == (v >= 0x80);
    hide CEval, CTypeOf, Gen, Eval, Negative, WellTyped, ToBits, Fits, Convert, Wrap;
    var g := Gen(e, target).e;
    var c := CEval(CCast(t, g), ts, vs).v;
    CastStep(t, g, ts, vs);
    ConvertWrap(CEval(g, ts, vs).v, 8, true);
    WrapFits(CEval(g, ts, vs).v, 8, true);
    CharIs(c, v);
  }

  lemma {:induction false} CharIs(c: int, v: int)
    requires Fits(c, 8, true) && 0 <= v < 0x100 && ToBits(c, 8) == ToBits(v, 8)
    ensures c == CharValue(v, v >= 0x80)
  {
    Powers();
    NineBits(c, v);
  }

  /** A number of nine bits whose low eight are those of a byte. */
  lemma {:induction false} NineBits(c: int, v: int)
    requires Fits(c, 9, true) && 0 <= v < 0x100 && ToBits(c, 8) == ToBits(v, 8)
    ensures c == CharValue(v, c < 0)
  {
    hide ToBits, Fits, Differ, CharValue;
    SameBits(c, v, 8);
    NineRange(c);
    var k :| Differ(c, v, k, 8);
    NineDiffer(c, v, k);
    NineIs(c, v, k);
  }

  lemma {:induction false} NineIs(c: int, v: int, k: int)
    requires -0x100 <= c < 0x100 && 0 <= v < 0x100 && c == v + k * 0x100
    ensures c == CharValue(v, c < 0)
  {
  }

  lemma {:induction false} NineRange(c: int)
    requires Fits(c, 9, true)
    ensures -0x100 <= c < 0x100
  {
    Powers();
  }

  lemma {:induction false} NineDiffer(c: int, v: int, k: int)
    requires Differ(c, v, k, 8)
    ensures c == v + k * 0x100
  {
    assert Pow2(8) == 0x100 by {
      Powers();
    }
  }

  /** A bitwise operator on bytes works on the ints that they are promoted to. */
  lemma {:induction false} BinaryText(e: Expr, target: Target, ts: Temp -> CType, vs: Temp -> int)
    requires e.Binary? && TypeOf(e).Byte? && target.charSigned
    requires Eval(e, true).Some? && 0 <= Eval(e, true).value < 0x100
    requires Eval(e.lhs, true).Some? && 0 <= Eval(e.lhs, true).value < 0x100
    requires Eval(e.rhs, true).Some? && 0 <= Eval(e.rhs, true).value < 0x100
    requires Matches(Byte, Eval(e, true), CEval(Gen(e, target), ts, vs), CTypeOf(Gen(e, target), ts), target)
    requires CEval(Gen(e.lhs, target), ts, vs) == Val(CharValue(Eval(e.lhs, true).value, Negative(e.lhs)))
    requires CEval(Gen(e.rhs, target), ts, vs) == Val(CharValue(Eval(e.rhs, true).value, Negative(e.rhs)))
    requires BytesTyped(e, target, ts)
    ensures CEval(Gen(e, target), ts, vs) == Val(CharValue(Eval(e, true).value, Negative(e)))
  {
    var op, g, h := e.bop, Gen(e.lhs, target), Gen(e.rhs, target);
    assert Gen(e, target) == CBinary(CBits(op), g, h);
    assert Negative(e) == op.Apply(Negative(e.lhs), Negative(e.rhs));
    BytesCommon(e, target, ts);
    hide CEval, CTypeOf, Gen, Eval, Negative, ToBits, FromBits, Bitwise, Operate, Convert, Common, BytesTyped, Fits;
    var c, d := CEval(g, ts, vs).v, CEval(h, ts, vs).v;
    BinaryValueText(op, g, h, ts, vs, c, d);
    MatchedBits(Eval(e, true).value, CEval(Gen(e, target), ts, vs), CTypeOf(Gen(e, target), ts), target);
    NineBits(CEval(Gen(e, target), ts, vs).v, Eval(e, true).value);
  }

  lemma {:induction false} MatchedBits(v: int, out: COut, t: CType, target: Target)
    requires Matches(Byte, Some(v), out, t, target)
    ensures out.Val? && ToBits(out.v, 8) == ToBits(v, 8)
  {
    hide ToBits, Fits;
  }

  lemma {:induction false} BinaryValueText(op: BitOp, g: CExpr, h: CExpr, ts: Temp -> CType, vs: Temp -> int, c: int,
                                           d: int)
    requires CEval(g, ts, vs) == Val(c) && CEval(h, ts, vs) == Val(d) && INT == Common(CTypeOf(g, ts), CTypeOf(h, ts))
    requires -0x100 <= c < 0x100 && -0x100 <= d < 0x100
    ensures var out := CEval(CBinary(CBits(op), g, h), ts, vs);
            out.Val? && Fits(out.v, 9, true) && (out.v < 0) == op.Apply(c < 0, d < 0)
  {
    hide CEval, CTypeOf, ToBits, FromBits, Bitwise, Operate, Convert, Common, Fits;
    NineFits(c, d);
    BinaryStep(CBits(op), g, h, ts, vs, c, d, INT);
    ConvertFitting(c, 32, true);
    ConvertFitting(d, 32, true);
    SignsApply(op, c, d);
  }

  lemma {:induction false} BytesCommon(e: Expr, target: Target, ts: Temp -> CType)
    requires e.Binary? && BytesTyped(e, target, ts)
    ensures INT == Common(CTypeOf(Gen(e.lhs, target), ts), CTypeOf(Gen(e.rhs, target), ts))
  {
    hide Common, CTypeOf, Gen;
  }

  lemma {:induction false} NineFits(c: int, d: int)
    requires -0x100 <= c < 0x100 && -0x100 <= d < 0x100
    ensures Fits(c, 9, true) && Fits(d, 9, true) && Fits(c, 32, true) && Fits(d, 32, true)
  {
    Powers();
  }

  predicate BytesTyped(e: Expr, target: Target, ts: Temp -> CType)
    requires e.Binary?
  {
    Common(CTypeOf(Gen(e.lhs, target), ts), CTypeOf(Gen(e.rhs, target), ts)) == INT
  }

  lemma {:induction false} SignsApply(op: BitOp, c: int, d: int)
    requires Fits(c, 9, true) && Fits(d, 9, true)
    ensures var w := FromBits(Bitwise(op, ToBits(c, 32), ToBits(d, 32)), true);
            Fits(w, 9, true) && (w < 0) == op.Apply(c < 0, d < 0) && Operate(CBits(op), c, d, INT) == Val(w)
  {
    var bits := Bitwise(op, ToBits(c, 9), ToBits(d, 9));
    BitsWiden(op, c, d, 9, true, 32);
    FromBitsFits(bits, true);
    SignBit(c, 9);
    SignBit(d, 9);
    SignBit(FromBits(bits, true), 9);
  }

  lemma {:induction false} LogicType(l: Expr, r: Expr, target: Target, ts: Temp -> CType)
    ensures CTypeOf(Gen(Or(l, r), target), ts) == INT && CTypeOf(Gen(And(l, r), target), ts) == INT
  {
  }

  /** Whenever compile-time evaluation yields a value, the emitted C text yields it too. */
  lemma {:induction false} EvaluationAgreesWithC(e: Expr, target: Target, ts: Temp -> CType, vs: Temp -> int)
    requires WellTyped(e, target.word) && Portable(e, target) && target.word >= 32
    requires Eval(e, false).Some?
    ensures var out := CEval(Gen(e, target), ts, vs);
            out.Val? && Holds(TypeOf(e), Eval(e, false).value, CTypeOf(Gen(e, target), ts), out.v, target)
  {
    LazyAgrees(e);
    EmittedText(e, target, ts, vs);
  }

  /** It yields a value exactly where the C text does and every operand that the text skips has a value. */
  lemma {:induction false} EvaluationFailsWithC(e: Expr, target: Target, ts: Temp -> CType, vs: Temp -> int)
    requires WellTyped(e, target.word) && Portable(e, target) && target.word >= 32
    ensures Eval(e, false).Some? <==> CEval(Gen(e, target), ts, vs).Val? && SkippedHaveValues(e)
    ensures Eval(e, false).None? <==> CEval(Gen(e, target), ts, vs) == Trap || !SkippedHaveValues(e)
  {
    EagerExactly(e);
    EmittedText(e, target, ts, vs);
  }

  /** Such an operand makes evaluation fail alone: whatever has no value at compile time has none after `false and`
      either, while the emitted text is false. */
  lemma {:induction false} ShortCircuitDiffers(e: Expr, target: Target, ts: Temp -> CType, vs: Temp -> int)
    requires WellTyped(e, target.word) && TypeOf(e).Bool? && Eval(e, false).None?
    ensures var f := And(Const(Bool, 0), e);
            WellTyped(f, target.word) && Eval(f, false).None? && CEval(Gen(f, target), ts, vs) == Val(0)
  {
    var l := Const(Bool, 0);
    assert Gen(And(l, e), target) == CAnd(CConst(CBool, 0), Gen(e, target));
    AndStep(CConst(CBool, 0), Gen(e, target), ts, vs);
    ConstIs(CBool, 0, ts, vs);
  }

  /** Where char is signed, a comparison of bytes that have values agrees with C exactly where `ComparesAlike` says so:
      for `==` and `!=`, unless the bytes are equal and exactly one of them is a negative char. */
  lemma {:induction false} ByteComparisonExactly(op: CompareOp, l: Expr, r: Expr, target: Target, ts: Temp -> CType,
                                                 vs: Temp -> int)
    requires WellTyped(Compare(op, l, r), target.word) && TypeOf(l).Byte? && target.charSigned && target.word >= 32
    requires Portable(l, target) && Portable(r, target) && Eval(l, true).Some? && Eval(r, true).Some?
    ensures var e, x, y := Compare(op, l, r), Eval(l, true).value, Eval(r, true).value;
            (Eval(e, true).Some? && CEval(Gen(e, target), ts, vs) == Val(Eval(e, true).value) <==>
               ComparesAlike(op, x, Negative(l), y, Negative(r))) &&
            (op.Eq? || op.Ne? ==> (ComparesAlike(op, x, Negative(l), y, Negative(r)) <==>
                                     x != y || Negative(l) == Negative(r)))
  {
    assert TypeOf(r).Byte? && WellTyped(l, target.word) && WellTyped(r, target.word);
    InPlaceValue(Compare(op, l, r));
    hide CEval, CTypeOf, Gen, Eval, Negative, Portable, WellTyped;
    BytesInC(op, l, r, target, ts, vs);
    ByteRange(l, target.word);
    ByteRange(r, target.word);
    CharsCompare(op, Eval(l, true).value, Negative(l), Eval(r, true).value, Negative(r));
  }

  lemma {:induction false} BytesInC(op: CompareOp, l: Expr, r: Expr, target: Target, ts: Temp -> CType, vs: Temp -> int)
    requires WellTyped(l, target.word) && TypeOf(l).Byte? && Portable(l, target) && Eval(l, true).Some?
    requires WellTyped(r, target.word) && TypeOf(r).Byte? && Portable(r, target) && Eval(r, true).Some?
    requires target.charSigned && target.word >= 32
    ensures CEval(Gen(Compare(op, l, r), target), ts, vs) ==
            Val(Digit(op.Holds(CharValue(Eval(l, true).value, Negative(l)), CharValue(Eval(r, true).value, Negative(r)))))
  {
    assert Gen(Compare(op, l, r), target) == CCompare(op, Gen(l, target), Gen(r, target));
    hide CEval, CTypeOf, Gen, Eval, Negative, Portable, WellTyped, Matches, HoldsInC, CharValue;
    ByteInC(l, target, ts, vs);
    ByteInC(r, target, ts, vs);
    EmittedText(l, target, ts, vs);
    EmittedText(r, target, ts, vs);
    ByteCompare(op, Eval(l, true).value, Eval(r, true).value, Gen(l, target), Gen(r, target), ts, vs, target);
  }

  /** The text of an expression computes its value, or stops the program where there is none. */
  ghost predicate TextAgrees(e: Expr, target: Target) {
    forall ts: Temp -> CType, vs: Temp -> int ::
      Matches(TypeOf(e), Eval(e, true), CEval(Gen(e, target), ts, vs), CTypeOf(Gen(e, target), ts), target)
  }

  /** So does the text of every operand that is evaluated. */
  ghost predicate PartsAgree(e: Expr, target: Target) {
    TextAgrees(e, target) &&
    match e
    case Const(_, _) => true
    case Cast(_, x) => PartsAgree(x, target)
    case Unary(_, x) => PartsAgree(x, target)
    case Or(l, r) => PartsAgree(l, target) && (Eval(l, true) == Some(0) ==> PartsAgree(r, target))
    case And(l, r) =>
      PartsAgree(l, target) && (Eval(l, true).Some? && Eval(l, true) != Some(0) ==> PartsAgree(r, target))
    case Compare(_, l, r) => PartsAgree(l, target) && PartsAgree(r, target)
    case Binary(_, l, r) => PartsAgree(l, target) && PartsAgree(r, target)
    case _ => PartsAgree(e.lhs, target) && (Eval(e.lhs, true).Some? ==> PartsAgree(e.rhs, target))
  }

  /** `Portable` is exact: the text and its parts agree with compile-time evaluation where it holds, and nowhere else. */
  lemma {:induction false} PortableExactly(e: Expr, target: Target)
    requires WellTyped(e, target.word) && target.word >= 32
    ensures PartsAgree(e, target) <==> Portable(e, target)
    decreases e
  {
    if Portable(e, target) {
      TextsAgree(e, target);
    }
    hide TextAgrees, Eval, Negative, ComparesAlike;
    match e
    case Const(_, _) =>
    case Cast(_, x) => PortableExactly(x, target);
    case Unary(_, x) => PortableExactly(x, target);
    case Compare(_, l, r) =>
      PortableExactly(l, target);
      PortableExactly(r, target);
      if TextAgrees(e, target) && Portable(l, target) && Portable(r, target) {
        ComparedAlike(e, target);
      }
    case Arith(_, _, l, r) =>
      PortableExactly(l, target);
      PortableExactly(r, target);
      if TextAgrees(e, target) && Portable(l, target) && (Eval(l, true).Some? ==> Portable(r, target)) {
        NotOverflowing(e, target);
      }
    case _ =>
      PortableExactly(e.lhs, target);
      PortableExactly(e.rhs, target);
  }

  lemma {:induction false} TextsAgree(e: Expr, target: Target)
    requires WellTyped(e, target.word) && Portable(e, target) && target.word >= 32
    ensures TextAgrees(e, target)
  {
    hide Matches, Eval, CEval, Gen, CTypeOf, WellTyped, Portable;
    forall ts: Temp -> CType, vs: Temp -> int
      ensures Matches(TypeOf(e), Eval(e, true), CEval(Gen(e, target), ts, vs), CTypeOf(Gen(e, target), ts), target)
    {
      EmittedText(e, target, ts, vs);
    }
  }

  lemma {:induction false} TextAgreesAt(e: Expr, target: Target, ts: Temp -> CType, vs: Temp -> int)
    requires TextAgrees(e, target)
    ensures Matches(TypeOf(e), Eval(e, true), CEval(Gen(e, target), ts, vs), CTypeOf(Gen(e, target), ts), target)
  {
    hide Matches, Eval, CEval, Gen, CTypeOf;
  }

  lemma {:induction false} ComparedAlike(e: Expr, target: Target)
    requires e.Compare? && WellTyped(e, target.word) && target.word >= 32 && TextAgrees(e, target)
    requires Portable(e.lhs, target) && Portable(e.rhs, target)
    ensures Portable(e, target)
  {
    var l, r := e.lhs, e.rhs;
    if TypeOf(l).Byte? && target.charSigned && Eval(l, true).Some? && Eval(r, true).Some? {
      var ts, vs := (x: Temp) => INT, (x: Temp) => 0;
      TextAgreesAt(e, target, ts, vs);
      InPlaceValue(e);
      assert TypeOf(e) == Bool;
      hide TextAgrees, Eval, Negative, ComparesAlike, CEval, Gen, CTypeOf, WellTyped;
      ByteComparisonExactly(e.cop, l, r, target, ts, vs);
    }
  }

  lemma {:induction false} NotOverflowing(e: Expr, target: Target)
    requires e.Arith? && WellTyped(e, target.word) && target.word >= 32 && TextAgrees(e, target)
    requires Portable(e.lhs, target) && (Eval(e.lhs, true).Some? ==> Portable(e.rhs, target))
    ensures Portable(e, target)
  {
    var l, r := e.lhs, e.rhs;
    if TypeOf(l).Int? && Eval(l, true).Some? && Eval(r, true).Some? {
      var a, b := Eval(l, true).value, Eval(r, true).value;
      if Overflows(e.aop, e.wrapping, TypeOf(l).bits, target.gnu, a, b) {
        var ts, vs := (x: Temp) => INT, (x: Temp) => 0;
        TextAgreesAt(e, target, ts, vs);
        OverflowText(e, target, ts, vs);
        assert false;
      }
    }
  }

  lemma {:induction false} OverflowText(e: Expr, target: Target, ts: Temp -> CType, vs: Temp -> int)
    requires e.Arith? && TypeOf(e.lhs).Int? && WellTyped(e, target.word) && target.word >= 32
    requires Portable(e.lhs, target) && Portable(e.rhs, target) && Eval(e.lhs, true).Some? && Eval(e.rhs, true).Some?
    requires Overflows(e.aop, e.wrapping, TypeOf(e.lhs).bits, target.gnu, Eval(e.lhs, true).value,
             Eval(e.rhs, true).value)
    ensures CEval(Gen(e, target), ts, vs) == Undefined
  {
    var t, a, b := TypeOf(e.lhs), Eval(e.lhs, true).value, Eval(e.rhs, true).value;
    var ct := CTypeFor(t, target);
    var l, r, body := Gen(e.lhs, target), Gen(e.rhs, target), CCast(ct, Helper(e.aop, true, ct, target.gnu));
    assert e.wrapping && TypeOf(e.rhs) == t && WellTyped(e.lhs, target.word) && WellTyped(e.rhs, target.word);
    assert Gen(e, target) == Temporaries(ct, l, ct, r, body);
    hide CEval, CTypeOf, Gen, Eval, TypeOf, WellTyped, Portable, Helper, Overflows, Matches, Convert, Fits, Wrap,
      Temporaries;
    EmittedText(e.lhs, target, ts, vs);
    StoredIs(t, Eval(e.lhs, true), CEval(l, ts, vs), CTypeOf(l, ts), target);
    var ts1, vs1 := With(ts, TmpLhs, ct), With(vs, TmpLhs, a);
    EmittedText(e.rhs, target, ts1, vs1);
    StoredIs(t, Eval(e.rhs, true), CEval(r, ts1, vs1), CTypeOf(r, ts1), target);
    TemporariesIs(ct, l, ct, r, body, ts, vs, a, b);
    OverflowBody(e.aop, ct, target.gnu, ts, vs, a, b);
  }

  lemma {:induction false} OverflowBody(op: ArithOp, t: CType, gnu: bool, ts: Temp -> CType, vs: Temp -> int, a: int,
                                        b: int)
    requires t.CInt? && Fits(a, t.bits, t.signed) && Fits(b, t.bits, t.signed) && Overflows(op, true, t.bits, gnu, a, b)
    ensures var ts2, vs2 := With(With(ts, TmpLhs, t), TmpRhs, t), With(With(vs, TmpLhs, a), TmpRhs, b);
            CEval(CCast(t, Helper(op, true, t, gnu)), ts2, vs2) == Undefined
  {
    hide CEval, Helper, Overflows, Fits, Wrap;
    WrappingHelper(op, t, gnu, With(With(ts, TmpLhs, t), TmpRhs, t), With(With(vs, TmpLhs, a), TmpRhs, b), a, b);
  }

  /** Where char is signed, comparing bytes does not agree: the complement of a byte equals its literal at
      compile time, but in C one is a char and the other an int, and they are equal only below 0x80. */
  lemma {:induction false} ByteComparisonDiffers(v: int, target: Target, ts: Temp -> CType, vs: Temp -> int)
    requires target.charSigned && 0 <= v < 0x100
    ensures var l, r := Unary(BitNot, Const(Byte, v)), Const(Byte, 0xff - v);
            WellTyped(Compare(Eq, l, r), target.word) && Eval(Compare(Eq, l, r), false) == Some(1) &&
            CEval(Gen(Compare(Eq, l, r), target), ts, vs) == Val(Digit(0xff - v < 0x80))
  {
    var l, r := Unary(BitNot, Const(Byte, v)), Const(Byte, 0xff - v);
    var g, h := CCast(CInt(8, true), CCompl(CConst(INT, v))), CConst(INT, 0xff - v);
    ByteComplement(v, target.word);
    ByteTexts(v, 0xff - v, target);
    hide Gen, Eval, WellTyped, CEval, CTypeOf, ToBits, Signed, Unsigned, FromBits;
    Powers();
    ConstIs(INT, v, ts, vs);
    ConstIs(INT, 0xff - v, ts, vs);
    ComplCast(v, CConst(INT, v), CInt(8, true), ts, vs);
    SignedComplement(v);
    CompareStep(Eq, g, h, ts, vs, Wrap(-v - 1, 8, true), 0xff - v, INT);
    ConvertFitting(Wrap(-v - 1, 8, true), 32, true);
    ConvertFitting(0xff - v, 32, true);
  }

  lemma {:induction false} SignedComplement(v: int)
    requires 0 <= v < 0x100
    ensures Wrap(-v - 1, 8, true) == if v < 0x80 then -v - 1 else 0xff - v
  {
    Powers();
    var r := if v < 0x80 then -v - 1 else 0xff - v;
    var k := if v < 0x80 then 0 else 1;
    assert Differ(r, -v - 1, k, 8);
    WrapIsUnique(-v - 1, r, 8, true);
  }

  lemma {:induction false} ByteTexts(v: int, w: int, target: Target)
    requires target.charSigned
    ensures Gen(Compare(Eq, Unary(BitNot, Const(Byte, v)), Const(Byte, w)), target) ==
              CCompare(Eq, CCast(CInt(8, true), CCompl(CConst(INT, v))), CConst(INT, w))
  {
    assert Gen(Const(Byte, v), target) == CConst(INT, v);
    assert Gen(Unary(BitNot, Const(Byte, v)), target) == CCast(CInt(8, true), CCompl(CConst(INT, v)));
  }

  lemma {:induction false} ByteComplement(v: int, word: Bits)
    requires 0 <= v < 0x100
    ensures var l, r := Unary(BitNot, Const(Byte, v)), Const(Byte, 0xff - v);
            WellTyped(Compare(Eq, l, r), word) && Eval(Compare(Eq, l, r), false) == Some(1)
  {
    var c := Const(Byte, v);
    BitNotByte(v);
    assert Byte.Has(v) && Byte.Has(0xff - v) by {
      Powers();
    }
    hide ToBits, Signed, Unsigned, FromBits, Complement, Fits, UnaryValue;
    assert WellTyped(c, word) && WellTyped(Unary(BitNot, c), word) && WellTyped(Const(Byte, 0xff - v), word);
    assert Eval(c, false) == Some(v);
    assert Eval(Unary(BitNot, c), false) == UnaryValue(BitNot, v, Byte);
  }

  lemma {:induction false} BitNotByte(v: int)
    requires 0 <= v < 0x100
    ensures UnaryValue(BitNot, v, Byte) == Some(0xff - v)
  {
    BitNotIs(v, 8, false);
    assert Differ(0xff - v, -v - 1, 1, 8) by {
      Powers();
    }
    assert Fits(0xff - v, 8, false) by {
      Powers();
    }
    hide ToBits, Signed, Unsigned, FromBits, Complement, Fits, Differ;
    WrapIsUnique(-v - 1, 0xff - v, 8, false);
  }
}
