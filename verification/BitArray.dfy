// Bit arrays, least significant bit first, and the integers they stand for.

module BitArray {

  function Pow2(n: nat): (r: int)
    ensures r >= 1
  {
    if n == 0 then 1 else 2 * Pow2(n - 1)
  }

  function Digit(b: bool): int {
    if b then 1 else 0
  }

  /** The low `n` bits of an integer in two's complement. */
  function ToBits(x: int, n: nat): (bits: seq<bool>)
    ensures |bits| == n
    decreases n
  {
    if n == 0 then [] else [x % 2 == 1] + ToBits(x / 2, n - 1)
  }

  function Unsigned(bits: seq<bool>): (r: int)
    ensures 0 <= r < Pow2(|bits|)
  {
    if bits == [] then 0 else Digit(bits[0]) + 2 * Unsigned(bits[1..])
  }

  /** The last bit is the sign. */
  function Signed(bits: seq<bool>): (r: int)
    requires bits != []
    ensures -Pow2(|bits| - 1) <= r < Pow2(|bits| - 1)
  {
    if |bits| == 1 then -Digit(bits[0]) else Digit(bits[0]) + 2 * Signed(bits[1..])
  }

  function Same(b: bool, n: nat): (bits: seq<bool>)
    ensures |bits| == n && forall i :: 0 <= i < n ==> bits[i] == b
  {
    seq(n, _ => b)
  }

  // ---------- Conversions undo each other ----------

  lemma {:induction false} UnsignedBits(bits: seq<bool>)
    ensures ToBits(Unsigned(bits), |bits|) == bits
  {
    if bits != [] {
      UnsignedBits(bits[1..]);
    }
  }

  lemma {:induction false} SignedBits(bits: seq<bool>)
    requires bits != []
    ensures ToBits(Signed(bits), |bits|) == bits
    decreases |bits|
  {
    if |bits| == 1 {
      assert ToBits(Signed(bits) / 2, 0) == [];
    } else {
      SignedBits(bits[1..]);
    }
  }

  lemma {:induction false} BitsUnsigned(x: int, n: nat)
    requires 0 <= x < Pow2(n)
    ensures Unsigned(ToBits(x, n)) == x
    decreases n
  {
    if n > 0 {
      BitsUnsigned(x / 2, n - 1);
    }
  }

  lemma {:induction false} BitsSigned(x: int, n: nat)
    requires n > 0 && -Pow2(n - 1) <= x < Pow2(n - 1)
    ensures Signed(ToBits(x, n)) == x
    decreases n
  {
    if n == 1 {
      assert ToBits(x / 2, 0) == [];
    } else {
      BitsSigned(x / 2, n - 1);
      assert ToBits(x, n)[1..] == ToBits(x / 2, n - 1);
    }
  }

  // ---------- Congruence ----------

  ghost predicate Congruent(x: int, y: int, n: nat) {
    exists k: int :: Differ(x, y, k, n)
  }

  ghost predicate Differ(x: int, y: int, k: int, n: nat) {
    x == y + k * Pow2(n)
  }

  /** The low bits of an integer are those of exactly the integers congruent to it. */
  lemma {:induction false} SameBits(x: int, y: int, n: nat)
    ensures ToBits(x, n) == ToBits(y, n) <==> Congruent(x, y, n)
    decreases n
  {
    if n == 0 {
      assert Differ(x, y, x - y, 0);
    } else {
      SameBits(x / 2, y / 2, n - 1);
      if ToBits(x, n) == ToBits(y, n) {
        assert ToBits(x, n)[0] == ToBits(y, n)[0] && ToBits(x, n)[1..] == ToBits(y, n)[1..];
        var k :| Differ(x / 2, y / 2, k, n - 1);
        Doubled(k, n);
        assert Differ(x, y, k, n);
      }
      if Congruent(x, y, n) {
        var k :| Differ(x, y, k, n);
        Doubled(k, n);
        assert Differ(x / 2, y / 2, k, n - 1);
      }
    }
  }

  lemma {:induction false} Doubled(k: int, n: nat)
    requires n > 0
    ensures k * Pow2(n) == 2 * (k * Pow2(n - 1))
  {
  }

  // ---------- Prefixes and extensions ----------

  lemma {:induction false} Trim(x: int, n: nat, m: nat)
    requires m <= n
    ensures ToBits(x, n)[..m] == ToBits(x, m)
    decreases m
  {
    if m > 0 {
      Trim(x / 2, n - 1, m - 1);
      assert ToBits(x, n)[..m] == [x % 2 == 1] + ToBits(x / 2, n - 1)[..m - 1];
    }
  }

  /** An integer that fits `n` bits, with or without a sign. */
  predicate Fits(x: int, n: nat, signed: bool) {
    if signed then n > 0 && -Pow2(n - 1) <= x < Pow2(n - 1) else 0 <= x < Pow2(n)
  }

  lemma {:induction false} SignOnly(x: int, n: nat)
    requires x == 0 || x == -1
    ensures ToBits(x, n) == Same(x < 0, n)
    decreases n
  {
    if n > 0 {
      SignOnly(x / 2, n - 1);
    }
  }

  /** Beyond the bits that an integer needs come copies of its sign. */
  lemma {:induction false} Extend(x: int, n: nat, signed: bool, m: nat)
    requires Fits(x, n, signed) && n <= m
    ensures ToBits(x, m) == ToBits(x, n) + Same(x < 0, m - n)
    decreases n
  {
    if n == 0 || (signed && n == 1) {
      SignOnly(x, n);
      SignOnly(x, m);
    } else {
      Extend(x / 2, n - 1, signed, m - 1);
    }
  }

  lemma {:induction false} SignBit(x: int, n: nat)
    requires n > 0 && -Pow2(n - 1) <= x < Pow2(n - 1)
    ensures ToBits(x, n)[n - 1] == (x < 0)
    decreases n
  {
    if n > 1 {
      SignBit(x / 2, n - 1);
    }
  }

  lemma {:induction false} Pow2Grows(n: nat, m: nat)
    requires n <= m
    ensures Pow2(n) <= Pow2(m)
    decreases m
  {
    if n < m {
      Pow2Grows(n, m - 1);
    }
  }

  // ---------- Bitwise operators ----------

  datatype BitOp = BitOr | BitXor | BitAnd {
    function Apply(a: bool, b: bool): bool {
      match this
      case BitOr => a || b
      case BitXor => a != b
      case BitAnd => a && b
    }
  }

  function Complement(bits: seq<bool>): (r: seq<bool>)
    ensures |r| == |bits| && forall i :: 0 <= i < |bits| ==> r[i] == !bits[i]
  {
    seq(|bits|, i requires 0 <= i < |bits| => !bits[i])
  }

  function Bitwise(op: BitOp, a: seq<bool>, b: seq<bool>): (r: seq<bool>)
    requires |a| == |b|
    ensures |r| == |a| && forall i :: 0 <= i < |a| ==> r[i] == op.Apply(a[i], b[i])
  {
    seq(|a|, i requires 0 <= i < |a| => op.Apply(a[i], b[i]))
  }

  lemma {:induction false} ComplementIs(x: int, n: nat)
    ensures ToBits(-x - 1, n) == Complement(ToBits(x, n))
    decreases n
  {
    if n > 0 {
      ComplementIs(x / 2, n - 1);
      assert (-x - 1) / 2 == -(x / 2) - 1;
    }
  }

  /** A bitwise operator on wider, sign-extended operands gives the extension of its result. */
  lemma {:induction false} BitwiseExtend(op: BitOp, x: int, y: int, n: nat, signed: bool, m: nat)
    requires Fits(x, n, signed) && Fits(y, n, signed) && n <= m
    ensures Bitwise(op, ToBits(x, m), ToBits(y, m)) ==
              Bitwise(op, ToBits(x, n), ToBits(y, n)) + Same(op.Apply(x < 0, y < 0), m - n)
  {
    Extend(x, n, signed, m);
    Extend(y, n, signed, m);
  }

  // ---------- Shifts ----------

  function ShiftLeft(bits: seq<bool>, k: nat): (r: seq<bool>)
    ensures |r| == |bits|
  {
    if k >= |bits| then Same(false, |bits|) else Same(false, k) + bits[..|bits| - k]
  }

  function ShiftRight(bits: seq<bool>, k: nat, high: bool): (r: seq<bool>)
    ensures |r| == |bits|
  {
    if k >= |bits| then Same(high, |bits|) else bits[k..] + Same(high, k)
  }

  /** Division by a power of two, rounded down. */
  function Shifted(x: int, k: nat): int
    decreases k
  {
    if k == 0 then x else Shifted(x / 2, k - 1)
  }

  lemma {:induction false} ShiftLeftIs(x: int, n: nat, k: nat)
    ensures ToBits(x * Pow2(k), n) == ShiftLeft(ToBits(x, n), k)
    decreases k
  {
    if n == 0 {
    } else if k == 0 {
      assert x * Pow2(0) == x;
      assert ToBits(x, n)[..n - 0] == ToBits(x, n);
    } else {
      var y := x * Pow2(k - 1);
      assert x * Pow2(k) == 2 * y by {
        Doubled(x, k);
      }
      ShiftLeftIs(x, n - 1, k - 1);
      assert ToBits(2 * y, n) == [false] + ToBits(y, n - 1);
      Trim(x, n, n - 1);
      if k < n {
        Trim(x, n - 1, n - k);
        Trim(x, n, n - k);
      }
    }
  }

  lemma {:induction false} ShiftRightIs(x: int, n: nat, signed: bool, k: nat)
    requires Fits(x, n, signed) && n > 0
    ensures ToBits(Shifted(x, k), n) == ShiftRight(ToBits(x, n), k, x < 0) && Fits(Shifted(x, k), n, signed)
    decreases k
  {
    if k == 0 {
      assert ToBits(x, n)[0..] == ToBits(x, n);
    } else {
      var h := x / 2;
      Extend(x, n, signed, n + 1);
      assert ToBits(x, n + 1)[1..] == ToBits(h, n);
      assert ToBits(h, n) == ToBits(x, n)[1..] + [x < 0];
      ShiftRightIs(h, n, signed, k - 1);
    }
  }
}
