// The evaluator with its byte buffers, bit arrays and loops.

module Evaluator {
  import opened Wrappers
  import opened BitArray
  import opened Evaluate
  import opened EvaluateProof
  import opened BitArrayObject

  // ---------- Bytes ----------

  /** `a | b` and `a & b` on uint8_t. */
  function Byte8(op: BitOp, a: int, b: int): int {
    Unsigned(Bitwise(op, ToBits(a, 8), ToBits(b, 8)))
  }

  lemma {:induction false} MaskBits(bit: bool, k: nat, n: nat)
    requires k < n
    ensures ToBits(Digit(bit) * Pow2(k), n) == Same(false, n)[k := bit]
    decreases k
  {
    if k == 0 {
      BitsOfZero(n - 1);
      assert Digit(bit) * Pow2(0) == Digit(bit);
      assert Same(false, n)[0 := bit] == [bit] + Same(false, n - 1);
    } else {
      MaskBits(bit, k - 1, n - 1);
      Doubled(Digit(bit), k);
      assert Same(false, n)[k := bit] == [false] + Same(false, n - 1)[k - 1 := bit];
    }
  }

  lemma {:induction false} OrBit(bits: seq<bool>, bit: bool, k: nat)
    requires k < |bits|
    ensures Bitwise(BitOr, bits, Same(false, |bits|)[k := bit]) == bits[k := bits[k] || bit]
  {
  }

  lemma {:induction false} OrMask(a: int, bit: bool, k: nat, n: nat)
    requires k < n
    ensures var r := Unsigned(Bitwise(BitOr, ToBits(a, n), ToBits(Digit(bit) * Pow2(k), n)));
            0 <= r < Pow2(n) && ToBits(r, n) == ToBits(a, n)[k := ToBits(a, n)[k] || bit]
  {
    hide ToBits, Unsigned, Bitwise, Pow2;
    MaskBits(bit, k, n);
    OrBit(ToBits(a, n), bit, k);
    UnsignedBits(Bitwise(BitOr, ToBits(a, n), ToBits(Digit(bit) * Pow2(k), n)));
  }

  lemma {:induction false} AndBit(bits: seq<bool>, k: nat)
    requires k < |bits|
    ensures var masked := Bitwise(BitAnd, bits, Same(false, |bits|)[k := true]);
            (forall i :: 0 <= i < |bits| ==> !masked[i]) <==> !bits[k]
  {
    if bits[k] {
      assert Bitwise(BitAnd, bits, Same(false, |bits|)[k := true])[k];
    }
  }

  lemma {:induction false} AndMask(a: int, k: nat, n: nat)
    requires k < n
    ensures Unsigned(Bitwise(BitAnd, ToBits(a, n), ToBits(Pow2(k), n))) != 0 <==> ToBits(a, n)[k]
  {
    hide ToBits, Unsigned, Bitwise, Pow2;
    MaskBits(true, k, n);
    assert Digit(true) * Pow2(k) == Pow2(k);
    AndBit(ToBits(a, n), k);
    ZeroBits(Bitwise(BitAnd, ToBits(a, n), ToBits(Pow2(k), n)));
  }

  lemma {:induction false} ZeroBits(bits: seq<bool>)
    ensures Unsigned(bits) == 0 <==> forall i :: 0 <= i < |bits| ==> !bits[i]
  {
    UnsignedBits(bits);
    BitsOfZero(|bits|);
    if forall i :: 0 <= i < |bits| ==> !bits[i] {
      assert bits == Same(false, |bits|);
    }
  }

  lemma {:induction false} ByteSize()
    ensures Pow2(8) == 0x100 && Pow2(7) == 0x80
  {
    assert Pow2(4) == 16 && Pow2(3) == 8;
    Pow2Add(4, 4);
    Pow2Add(4, 3);
  }

  /** A byte buffer holds a bit array, eight bits a byte. */
  ghost predicate Packs(bytes: seq<int>, bits: seq<bool>) {
    |bits| == 8 * |bytes| && (forall k :: 0 <= k < |bytes| ==> 0 <= bytes[k] < 0x100) &&
    forall j :: 0 <= j < |bits| ==> ToBits(bytes[j / 8], 8)[j % 8] == bits[j]
  }

  /** Packing by shifting and or-ing. */
  method Pack(bits: seq<bool>) returns (bytes: array<int>)
    requires |bits| % 8 == 0
    ensures fresh(bytes) && Packs(bytes[..], bits)
  {
    hide ToBits, Unsigned;
    bytes := new int[|bits| / 8](_ => 0);
    BitsOfZero(8);
    ByteSize();
    var i := 0;
    while i < |bits|
      invariant 0 <= i <= |bits| && bytes.Length == |bits| / 8
      invariant forall k :: 0 <= k < bytes.Length ==> 0 <= bytes[k] < 0x100
      invariant forall j :: 0 <= j < |bits| ==> ToBits(bytes[j / 8], 8)[j % 8] == (j < i && bits[j])
    {
      var mask := Digit(bits[i]) * Pow2(i % 8);
      OrMask(bytes[i / 8], bits[i], i % 8, 8);
      bytes[i / 8] := Byte8(BitOr, bytes[i / 8], mask);
      i := i + 1;
    }
  }

  /** The bytes of a value. */
  method ToBytes(v: int, t: Type) returns (bytes: array<int>)
    requires t.Has(v)
    ensures fresh(bytes) && Packs(bytes[..], ToBits(v, t.Width()))
  {
    hide ToBits;
    if t.Bool? || t.Byte? {
      bytes := new int[1](_ => 0);
      bytes[0] := v;
      ByteSize();
    } else {
      var bits := BitsOf(v, t);
      bytes := Pack(bits[..]);
    }
  }

  /** The bits of a value of a type: there is always room for them. */
  method BitsOf(v: int, t: Type) returns (bits: array<bool>)
    requires t.Has(v) && !t.Bool?
    ensures fresh(bits) && bits[..] == ToBits(v, t.Width())
  {
    bits := new bool[t.Width()](_ => false);
    FitsMagnitude(v, t.Width(), t.IsSigned());
    var failed := BigintToBitarr(bits, v);
    assert !failed;
  }

  // ---------- Casts ----------

  method IsNonZero(bytes: array<int>, ghost bits: seq<bool>) returns (r: bool)
    requires Packs(bytes[..], bits)
    ensures r == (Unsigned(bits) != 0)
  {
    r := false;
    var i := 0;
    ghost var bs := bytes[..];
    while i < bytes.Length
      invariant 0 <= i <= bytes.Length
      invariant r == exists k :: 0 <= k < i && bs[k] != 0
    {
      assert bs[i] == bytes[i];
      r := r || bytes[i] != 0;
      i := i + 1;
    }
    NonZeroBytes(bs, bits);
  }

  lemma {:induction false} NonZeroBytes(bytes: seq<int>, bits: seq<bool>)
    requires Packs(bytes, bits)
    ensures Unsigned(bits) != 0 <==> exists k :: 0 <= k < |bytes| && bytes[k] != 0
  {
    hide ToBits, Unsigned;
    ZeroBits(bits);
    BitsOfZero(8);
    if k :| 0 <= k < |bytes| && bytes[k] != 0 {
      ByteOf(bytes, bits, k);
      ZeroBits(bits[8 * k..8 * k + 8]);
      var i :| 0 <= i < 8 && bits[8 * k..8 * k + 8][i];
      assert bits[8 * k + i];
    } else {
      forall j | 0 <= j < |bits| ensures !bits[j] {
        assert bytes[j / 8] == 0;
      }
    }
  }

  /** A byte is the value of its eight bits. */
  lemma {:induction false} ByteOf(bytes: seq<int>, bits: seq<bool>, k: nat)
    requires Packs(bytes, bits) && k < |bytes|
    ensures bytes[k] == Unsigned(bits[8 * k..8 * k + 8])
  {
    hide ToBits, Unsigned;
    var b := bits[8 * k..8 * k + 8];
    forall i | 0 <= i < 8 ensures ToBits(bytes[k], 8)[i] == b[i] {
      assert (8 * k + i) / 8 == k && (8 * k + i) % 8 == i;
    }
    assert ToBits(bytes[k], 8) == b;
    ByteSize();
    BitsUnsigned(bytes[k], 8);
  }

  /** Unpacking bit by bit, with copies of the extension bit past the last byte. */
  method Unpack(bytes: array<int>, extend: bool, count: nat, ghost bits: seq<bool>) returns (res: array<bool>)
    requires Packs(bytes[..], bits)
    ensures fresh(res) && res[..] == Resize(bits, extend, count)
  {
    res := new bool[count](_ => false);
    ghost var bs := bytes[..];
    hide ToBits, Unsigned;
    var i := 0;
    while i < count
      invariant 0 <= i <= count == res.Length && bytes[..] == bs
      invariant forall j :: 0 <= j < i ==> res[j] == Resize(bits, extend, count)[j]
    {
      if i >= bytes.Length * 8 {
        res[i] := extend;
      } else {
        var byte := bytes[i / 8];
        assert byte == bs[i / 8];
        AndMask(byte, i % 8, 8);
        res[i] := Byte8(BitAnd, byte, Pow2(i % 8)) != 0;
      }
      i := i + 1;
    }
  }

  method EvalCast(v: int, from: Type, to: Type) returns (res: int)
    requires from.Has(v)
    ensures res == CastValue(v, from, to)
  {
    hide ToBits, Unsigned, Signed;
    var bytes := ToBytes(v, from);
    ghost var bits := ToBits(v, from.Width());
    if to.Bool? {
      var nonzero := IsNonZero(bytes, bits);
      return if nonzero then 1 else 0;
    }
    if to.Byte? {
      ByteOf(bytes[..], bits, 0);
      assert bits[..8] == bits[8 * 0..8 * 0 + 8];
      return bytes[0];
    }
    res := ToInteger(bytes, from, to, bits);
  }

  /** The top bit of the last byte is the extension bit of a signed value. */
  method ToInteger(bytes: array<int>, from: Type, to: Type, ghost bits: seq<bool>) returns (res: int)
    requires |bits| == from.Width() && Packs(bytes[..], bits)
    ensures res == FromBits(Resize(bits, from.IsSigned() && bits[|bits| - 1], to.Width()), to.IsSigned())
  {
    hide ToBits, Unsigned, Signed, Byte8;
    var last := bytes[bytes.Length - 1];
    TopBit(bytes[..], bits);
    var extend := from.IsSigned() && Byte8(BitAnd, last, 0x80) != 0;
    var result := Unpack(bytes, extend, to.Width(), bits);
    hide Resize;
    res := BitarrToBigint(result[..], to.IsSigned());
  }

  lemma {:induction false} TopBit(bytes: seq<int>, bits: seq<bool>)
    requires Packs(bytes, bits) && bytes != []
    ensures Byte8(BitAnd, bytes[|bytes| - 1], 0x80) != 0 <==> bits[|bits| - 1]
  {
    hide ToBits, Unsigned;
    var last, j := bytes[|bytes| - 1], |bits| - 1;
    assert j / 8 == |bytes| - 1 && j % 8 == 7;
    ByteSize();
    AndMask(last, 7, 8);
    assert Byte8(BitAnd, last, 0x80) == Byte8(BitAnd, last, Pow2(7));
  }

  // ---------- Operators ----------

  method EvalBitNot(v: int, t: Type) returns (res: int)
    requires t.Has(v) && (t.Int? || t.Byte?)
    ensures Some(res) == UnaryValue(BitNot, v, t)
  {
    hide ToBits, Unsigned, Signed;
    var rhs := BitsOf(v, t);
    var bits := new bool[rhs.Length](_ => false);
    var i := 0;
    while i < rhs.Length
      invariant 0 <= i <= rhs.Length == bits.Length && rhs[..] == ToBits(v, t.Width())
      invariant forall j :: 0 <= j < i ==> bits[j] == !rhs[j]
    {
      bits[i] := !rhs[i];
      i := i + 1;
    }
    assert bits[..] == Complement(rhs[..]);
    res := BitarrToBigint(bits[..], t.IsSigned());
  }

  method EvalNegWrapping(v: int, t: Type) returns (res: int)
    requires t.Has(v) && t.Int? && t.signed
    ensures res == NegWrappingValue(v, t)
  {
    hide ToBits, Unsigned, Signed;
    var bits := BitsOf(v, t);
    TwosComplementNeg(bits);
    res := BitarrToBigint(bits[..], true);
  }

  method EvalShl(v: int, count: nat, t: Type) returns (res: int)
    requires t.Has(v) && t.Int?
    ensures res == ShlValue(v, count, t)
  {
    hide ToBits, Unsigned, Signed;
    var bits := BitsOf(v, t);
    Shiftl(bits, count);
    res := BitarrToBigint(bits[..], t.IsSigned());
  }

  method EvalShr(v: int, count: nat, t: Type) returns (res: int)
    requires t.Has(v) && t.Int?
    ensures res == ShrValue(v, count, t)
  {
    hide ToBits, Unsigned, Signed;
    var bits := BitsOf(v, t);
    Shiftr(bits, count, v < 0);
    res := BitarrToBigint(bits[..], t.IsSigned());
  }

  method EvalBinary(op: BitOp, a: int, b: int, t: Type) returns (res: int)
    requires t.Has(a) && t.Has(b) && !t.Enum?
    ensures res == BinaryValue(op, a, b, t)
  {
    hide ToBits, Unsigned, Signed;
    if t.Bool? {
      return Digit(op.Apply(a != 0, b != 0));
    }
    var lhs := BitsOf(a, t);
    var rhs := BitsOf(b, t);
    var bits := new bool[lhs.Length](_ => false);
    var i := 0;
    while i < lhs.Length
      invariant 0 <= i <= lhs.Length == rhs.Length == bits.Length
      invariant lhs[..] == ToBits(a, t.Width()) && rhs[..] == ToBits(b, t.Width())
      invariant forall j :: 0 <= j < i ==> bits[j] == op.Apply(lhs[j], rhs[j])
    {
      bits[i] := op.Apply(lhs[i], rhs[i]);
      i := i + 1;
    }
    assert bits[..] == Bitwise(op, lhs[..], rhs[..]);
    res := BitarrToBigint(bits[..], t.IsSigned());
  }

  /** The exact result always fits the array of twice the width. */
  method EvalWrapping(op: ArithOp, a: int, b: int, t: Type) returns (res: int)
    requires t.Int? && t.Has(a) && t.Has(b)
    ensures res == WrappingValue(op, a, b, t)
  {
    var exact := op.Exact(a, b);
    var n: nat := t.Width();
    WrappingIs(op, a, b, t);
    var wrapped := new bool[2 * n](_ => false);
    var failed := BigintToBitarr(wrapped, exact);
    assert !failed;
    var trimmed := new bool[n](_ => false);
    var i := 0;
    while i < trimmed.Length
      invariant 0 <= i <= trimmed.Length == n && wrapped[..] == ToBits(exact, 2 * n)
      invariant trimmed[..i] == wrapped[..i]
    {
      trimmed[i] := wrapped[i];
      assert trimmed[..i + 1] == trimmed[..i] + [trimmed[i]] && wrapped[..i + 1] == wrapped[..i] + [wrapped[i]];
      i := i + 1;
    }
    assert trimmed[..] == ToBits(exact, 2 * n)[..n];
    res := BitarrToBigint(trimmed[..], t.IsSigned());
  }

  method EvalUnary(op: UnaryOp, v: int, t: Type) returns (res: Option<int>)
    requires t.Has(v) && (op.Not? ==> t.Bool?) && (op.Neg? || op.NegWrapping? ==> t.Int? && t.signed)
    requires op.BitNot? ==> t.Int? || t.Byte?
    ensures res == UnaryValue(op, v, t)
  {
    match op
    case Not => res := Some(1 - v);
    case Pos => res := Some(v);
    case Neg =>
      if !Fits(-v, t.Width(), true) {
        return None;
      }
      res := Some(-v);
    case NegWrapping =>
      var r := EvalNegWrapping(v, t);
      res := Some(r);
    case BitNot =>
      var r := EvalBitNot(v, t);
      res := Some(r);
  }

  method EvalArith(op: ArithOp, wrapping: bool, a: int, b: int, t: Type) returns (res: Option<int>)
    requires t.Int? && t.Has(a) && t.Has(b)
    ensures res == ArithValue(op, wrapping, a, b, t)
  {
    if wrapping {
      var r := EvalWrapping(op, a, b, t);
      return Some(r);
    }
    var exact := op.Exact(a, b);
    if !Fits(exact, t.Width(), t.IsSigned()) {
      return None;
    }
    return Some(exact);
  }

  /** An operator on the values of both operands. */
  method EvalOperator(e: Expr, a: int, b: int, ghost word: Bits) returns (res: Option<int>)
    requires !e.Const? && !e.Cast? && !e.Unary? && WellTyped(e, word)
    requires Eval(e.lhs, false) == Some(a) && Eval(e.rhs, false) == Some(b)
    requires TypeOf(e.lhs).Has(a) && TypeOf(e.rhs).Has(b)
    ensures res == Eval(e, false)
  {
    var t := TypeOf(e.lhs);
    hide ShlValue, ShrValue, BinaryValue, ArithValue, DivideValue;
    match e
    case Or(_, _) => res := Some(Digit(a != 0 || b != 0));
    case And(_, _) => res := Some(Digit(a != 0 && b != 0));
    case Shl(_, _) =>
      var r := EvalShl(a, b, t);
      res := Some(r);
    case Shr(_, _) =>
      var r := EvalShr(a, b, t);
      res := Some(r);
    case Compare(op, _, _) => res := Some(Digit(op.Holds(a, b)));
    case Binary(op, _, _) =>
      var r := EvalBinary(op, a, b, t);
      res := Some(r);
    case Arith(op, wrapping, _, _) => res := EvalArith(op, wrapping, a, b, t);
    case Divide(remainder, _, _) => res := DivideValue(remainder, a, b, t);
  }

  /** Evaluates an expression; None is a fatal error. */
  method EvalRvalue(e: Expr, ghost word: Bits) returns (res: Option<int>)
    requires WellTyped(e, word)
    ensures res == Eval(e, false)
    decreases e
  {
    hide CastValue, UnaryValue, ShlValue, ShrValue, BinaryValue, ArithValue, DivideValue;
    match e
    case Const(_, v) =>
      return Some(v);
    case Cast(t, x) =>
      var v :- EvalRvalue(x, word);
      EvalHas(x, word, false);
      var r := EvalCast(v, TypeOf(x), t);
      return Some(r);
    case Unary(op, x) =>
      var v :- EvalRvalue(x, word);
      EvalHas(x, word, false);
      res := EvalUnary(op, v, TypeOf(x));
    case _ =>
      BothOperands(e);
      var a :- EvalRvalue(e.lhs, word);
      var b :- EvalRvalue(e.rhs, word);
      EvalHas(e.lhs, word, false);
      EvalHas(e.rhs, word, false);
      res := EvalOperator(e, a, b, word);
  }

  lemma {:induction false} BothOperands(e: Expr)
    requires !e.Const? && !e.Cast? && !e.Unary?
    ensures Eval(e.lhs, false).None? || Eval(e.rhs, false).None? ==> Eval(e, false).None?
  {
  }
}
