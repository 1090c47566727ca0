// Compile-time evaluation of integer and boolean expressions, by way of bit arrays.

module Evaluate {
  import opened Wrappers
  import opened BitArray

  type Bits = n: nat | n == 8 || n == 16 || n == 32 || n == 64 witness 8

  // An enum has the size and the sign of its underlying type.
  datatype Type = Bool | Byte | Int(bits: Bits, signed: bool) | Enum(bits: Bits, signed: bool) {
    function Width(): Bits {
      if Bool? || Byte? then 8 else bits
    }

    predicate IsSigned() {
      (Int? || Enum?) && signed
    }

    /** The values of the type; booleans are 0 and 1. */
    ghost predicate Has(v: int) {
      if Bool? then v == 0 || v == 1 else Fits(v, Width(), IsSigned())
    }
  }

  datatype UnaryOp = Not | Pos | Neg | NegWrapping | BitNot

  datatype ArithOp = Add | Sub | Mul {
    function Exact(a: int, b: int): int {
      match this
      case Add => a + b
      case Sub => a - b
      case Mul => a * b
    }
  }

  function Abs(x: int): nat {
    if x < 0 then -x else x
  }

  /** The quotient of C: rounded toward zero. */
  function Quotient(a: int, b: int): int
    requires b != 0
  {
    if (a < 0) == (b < 0) then Abs(a) / Abs(b) else -(Abs(a) / Abs(b))
  }

  function Remainder(a: int, b: int): int
    requires b != 0
  {
    a - Quotient(a, b) * b
  }

  datatype CompareOp = Eq | Ne | Le | Lt | Ge | Gt {
    predicate Holds(a: int, b: int) {
      match this
      case Eq => a == b
      case Ne => a != b
      case Le => a <= b
      case Lt => a < b
      case Ge => a >= b
      case Gt => a > b
    }
  }

  datatype Expr =
    | Const(ty: Type, value: int)
    | Cast(ty: Type, e: Expr)
    | Unary(uop: UnaryOp, e: Expr)
    | Or(lhs: Expr, rhs: Expr)
    | And(lhs: Expr, rhs: Expr)
    | Shl(lhs: Expr, rhs: Expr)
    | Shr(lhs: Expr, rhs: Expr)
    | Compare(cop: CompareOp, lhs: Expr, rhs: Expr)
    | Binary(bop: BitOp, lhs: Expr, rhs: Expr)
    | Arith(aop: ArithOp, wrapping: bool, lhs: Expr, rhs: Expr)
    | Divide(remainder: bool, lhs: Expr, rhs: Expr)

  function TypeOf(e: Expr): Type {
    match e
    case Const(t, _) => t
    case Cast(t, _) => t
    case Unary(_, x) => TypeOf(x)
    case Or(_, _) => Bool
    case And(_, _) => Bool
    case Shl(l, _) => TypeOf(l)
    case Shr(l, _) => TypeOf(l)
    case Compare(_, _, _) => Bool
    case Binary(_, l, _) => TypeOf(l)
    case Arith(_, _, l, _) => TypeOf(l)
    case Divide(_, l, _) => TypeOf(l)
  }

  /** What the resolver accepts, on a target whose `usize` has `word` bits. */
  ghost predicate WellTyped(e: Expr, word: Bits) {
    match e
    case Const(t, v) => t.Has(v)
    case Cast(_, x) => WellTyped(x, word)
    case Unary(op, x) =>
      WellTyped(x, word) &&
      (match op
       case Not => TypeOf(x).Bool?
       case Pos => TypeOf(x).Int?
       case Neg => TypeOf(x).Int? && TypeOf(x).signed
       case NegWrapping => TypeOf(x).Int? && TypeOf(x).signed
       case BitNot => TypeOf(x).Int? || TypeOf(x).Byte?)
    case Or(l, r) => WellTyped(l, word) && WellTyped(r, word) && TypeOf(l).Bool? && TypeOf(r).Bool?
    case And(l, r) => WellTyped(l, word) && WellTyped(r, word) && TypeOf(l).Bool? && TypeOf(r).Bool?
    case Shl(l, r) => WellTyped(l, word) && WellTyped(r, word) && TypeOf(l).Int? && TypeOf(r) == Int(word, false)
    case Shr(l, r) => WellTyped(l, word) && WellTyped(r, word) && TypeOf(l).Int? && TypeOf(r) == Int(word, false)
    case Compare(_, l, r) => WellTyped(l, word) && WellTyped(r, word) && TypeOf(l) == TypeOf(r)
    case Binary(_, l, r) =>
      WellTyped(l, word) && WellTyped(r, word) && TypeOf(l) == TypeOf(r) && !TypeOf(l).Enum?
    case Arith(_, _, l, r) => WellTyped(l, word) && WellTyped(r, word) && TypeOf(l) == TypeOf(r) && TypeOf(l).Int?
    case Divide(_, l, r) => WellTyped(l, word) && WellTyped(r, word) && TypeOf(l) == TypeOf(r) && TypeOf(l).Int?
  }

  function FromBits(bits: seq<bool>, signed: bool): int
    requires signed ==> bits != []
  {
    if signed then Signed(bits) else Unsigned(bits)
  }

  /** The low bits of a bit array, or the array with copies of one bit after it. */
  function Resize(bits: seq<bool>, fill: bool, n: nat): (r: seq<bool>)
    ensures |r| == n
  {
    if n <= |bits| then bits[..n] else bits + Same(fill, n - |bits|)
  }

  /** A cast goes through the bytes of the value; the top bit of a signed value fills what is added. */
  function CastValue(v: int, from: Type, to: Type): int
  {
    var bits := ToBits(v, from.Width());
    if to.Bool? then (if Unsigned(bits) != 0 then 1 else 0)
    else FromBits(Resize(bits, from.IsSigned() && bits[|bits| - 1], to.Width()), to.IsSigned())
  }

  function NegWrappingValue(v: int, t: Type): int
  {
    Signed(ToBits(-Unsigned(ToBits(v, t.Width())), t.Width()))
  }

  function UnaryValue(op: UnaryOp, v: int, t: Type): Option<int>
  {
    match op
    case Not => Some(1 - v)
    case Pos => Some(v)
    case Neg => if Fits(-v, t.Width(), true) then Some(-v) else None
    case NegWrapping => Some(NegWrappingValue(v, t))
    case BitNot => Some(FromBits(Complement(ToBits(v, t.Width())), t.IsSigned()))
  }

  function ShlValue(v: int, count: nat, t: Type): int
  {
    FromBits(ShiftLeft(ToBits(v, t.Width()), count), t.IsSigned())
  }

  function ShrValue(v: int, count: nat, t: Type): int
  {
    FromBits(ShiftRight(ToBits(v, t.Width()), count, v < 0), t.IsSigned())
  }

  function BinaryValue(op: BitOp, a: int, b: int, t: Type): int
  {
    if t.Bool? then Digit(op.Apply(a != 0, b != 0))
    else FromBits(Bitwise(op, ToBits(a, t.Width()), ToBits(b, t.Width())), t.IsSigned())
  }

  /** A wrapping operation goes through a bit array of twice the width, of which the low half is kept. */
  function WrappingValue(op: ArithOp, a: int, b: int, t: Type): int {
    FromBits(ToBits(op.Exact(a, b), 2 * t.Width())[..t.Width()], t.IsSigned())
  }

  function ArithValue(op: ArithOp, wrapping: bool, a: int, b: int, t: Type): Option<int> {
    if wrapping then Some(WrappingValue(op, a, b, t))
    else if Fits(op.Exact(a, b), t.Width(), t.IsSigned()) then Some(op.Exact(a, b))
    else None
  }

  /** The quotient must fit, for a remainder too. */
  function DivideValue(remainder: bool, a: int, b: int, t: Type): Option<int> {
    if b == 0 then None
    else if !Fits(Quotient(a, b), t.Width(), t.IsSigned()) then None
    else Some(if remainder then Remainder(a, b) else Quotient(a, b))
  }

  /** The value of an expression; None is a fatal error.  The evaluator computes both operands of `and`
      and `or`; with `lazy` the second one is only computed when it decides. */
  function Eval(e: Expr, lazy: bool): Option<int> {
    match e
    case Const(_, v) => Some(v)
    case Cast(t, x) =>
      var v :- Eval(x, lazy);
      Some(CastValue(v, TypeOf(x), t))
    case Unary(op, x) =>
      var v :- Eval(x, lazy);
      UnaryValue(op, v, TypeOf(x))
    case Or(l, r) =>
      var a :- Eval(l, lazy);
      if lazy && a != 0 then Some(1)
      else
        var b :- Eval(r, lazy);
        Some(Digit(a != 0 || b != 0))
    case And(l, r) =>
      var a :- Eval(l, lazy);
      if lazy && a == 0 then Some(0)
      else
        var b :- Eval(r, lazy);
        Some(Digit(a != 0 && b != 0))
    case Shl(l, r) =>
      var a :- Eval(l, lazy);
      var b :- Eval(r, lazy);
      if b < 0 then None else Some(ShlValue(a, b, TypeOf(l)))
    case Shr(l, r) =>
      var a :- Eval(l, lazy);
      var b :- Eval(r, lazy);
      if b < 0 then None else Some(ShrValue(a, b, TypeOf(l)))
    case Compare(op, l, r) =>
      var a :- Eval(l, lazy);
      var b :- Eval(r, lazy);
      Some(Digit(op.Holds(a, b)))
    case Binary(op, l, r) =>
      var a :- Eval(l, lazy);
      var b :- Eval(r, lazy);
      Some(BinaryValue(op, a, b, TypeOf(l)))
    case Arith(op, wrapping, l, r) =>
      var a :- Eval(l, lazy);
      var b :- Eval(r, lazy);
      ArithValue(op, wrapping, a, b, TypeOf(l))
    case Divide(remainder, l, r) =>
      var a :- Eval(l, lazy);
      var b :- Eval(r, lazy);
      DivideValue(remainder, a, b, TypeOf(l))
  }
}
