// Bit arrays as they are worked on in place.

module BitArrayObject {
  import opened Wrappers
  import opened BitArray
  import opened Evaluate
  import opened EvaluateProof

  lemma {:induction false} UnsignedAppend(s: seq<bool>, b: bool)
    ensures Unsigned(s + [b]) == Unsigned(s) + Digit(b) * Pow2(|s|)
    decreases |s|
  {
    if s == [] {
      assert [] + [b] == [b];
      assert Unsigned([b]) == Digit(b) by {
        assert Unsigned([b][1..]) == 0;
      }
    } else {
      assert (s + [b])[0] == s[0] && (s + [b])[1..] == s[1..] + [b];
      UnsignedAppend(s[1..], b);
    }
  }

  lemma {:induction false} UnsignedComplement(s: seq<bool>)
    ensures Unsigned(Complement(s)) == Pow2(|s|) - 1 - Unsigned(s)
    decreases |s|
  {
    if s != [] {
      assert Complement(s)[1..] == Complement(s[1..]);
      UnsignedComplement(s[1..]);
    }
  }

  lemma {:induction false} SignedIs(s: seq<bool>)
    requires s != []
    ensures Signed(s) == Unsigned(s) - (if s[|s| - 1] then Pow2(|s|) else 0)
    decreases |s|
  {
    if |s| == 1 {
      assert Unsigned(s[1..]) == 0;
      assert Pow2(1) == 2;
    } else {
      SignedIs(s[1..]);
    }
  }

  /** Two bit arrays of the same length whose values differ by a multiple of two to that length are equal. */
  lemma {:induction false} SameArray(a: seq<bool>, x: int, k: int)
    requires Differ(Unsigned(a), x, k, |a|)
    ensures a == ToBits(x, |a|)
  {
    UnsignedBits(a);
    SameBits(Unsigned(a), x, |a|);
  }

  method Compl(a: array<bool>)
    modifies a
    ensures a[..] == Complement(old(a[..]))
  {
    ghost var was := a[..];
    var i := 0;
    while i < a.Length
      invariant 0 <= i <= a.Length
      invariant forall j :: 0 <= j < i ==> a[j] == !was[j]
      invariant forall j :: i <= j < a.Length ==> a[j] == was[j]
    {
      a[i] := !a[i];
      i := i + 1;
    }
  }

  /** Adds one with a carry; what is carried out of the last bit is lost. */
  method AddOne(a: array<bool>) returns (carry: int)
    modifies a
    ensures 0 <= carry <= 1
    ensures Unsigned(a[..]) + carry * Pow2(a.Length) == Unsigned(old(a[..])) + 1
  {
    ghost var was := a[..];
    carry := 1;
    var i := 0;
    while i < a.Length
      invariant 0 <= i <= a.Length && 0 <= carry <= 1
      invariant a[i..] == was[i..]
      invariant Unsigned(a[..i]) + carry * Pow2(i) == Unsigned(was[..i]) + 1
    {
      ghost var done := a[..i];
      var bit := if a[i] then 1 else 0;
      var sum := carry + bit;
      assert a[i] == was[i];
      UnsignedAppend(done, sum % 2 == 1);
      UnsignedAppend(was[..i], was[i]);
      CarryStep(Unsigned(done), Unsigned(was[..i]), carry, bit, Pow2(i));
      a[i] := sum % 2 == 1;
      carry := if sum >= 2 then 1 else 0;
      assert a[..i] == done;
      assert a[..i + 1] == done + [a[i]] && was[..i + 1] == was[..i] + [was[i]];
      assert a[i + 1..] == was[i + 1..];
      i := i + 1;
    }
    assert a[..i] == a[..] && was[..i] == was;
  }

  /** res = -rhs: every bit is inverted, and one is added. */
  method TwosComplementNeg(a: array<bool>)
    modifies a
    ensures a[..] == ToBits(-Unsigned(old(a[..])), a.Length)
  {
    ghost var was := a[..];
    Compl(a);
    var carry := AddOne(a);
    UnsignedComplement(was);
    assert (1 - carry) * Pow2(a.Length) == Pow2(a.Length) - carry * Pow2(a.Length);
    assert Differ(Unsigned(a[..]), -Unsigned(was), 1 - carry, a.Length);
    SameArray(a[..], -Unsigned(was), 1 - carry);
  }

  lemma {:induction false} CarryStep(x: int, y: int, carry: int, bit: int, p: int)
    requires 0 <= carry <= 1 && 0 <= bit <= 1 && x + carry * p == y + 1
    ensures var sum := carry + bit;
            x + (if sum % 2 == 1 then 1 else 0) * p + (if sum >= 2 then 1 else 0) * (2 * p) == y + bit * p + 1
  {
  }

  // ---------- Shifts, one place at a time ----------

  lemma {:induction false} ShiftLeftOnce(s: seq<bool>, n: nat)
    requires s != []
    ensures ShiftLeft(s, n + 1) == [false] + ShiftLeft(s, n)[..|s| - 1]
  {
    if n + 1 < |s| {
      assert s[..|s| - n][..|s| - n - 1] == s[..|s| - (n + 1)];
    }
  }

  method MoveUp(a: array<bool>)
    requires a.Length > 0
    modifies a
    ensures a[..] == [false] + old(a[..])[..a.Length - 1]
  {
    ghost var was := a[..];
    var i := a.Length - 1;
    while i != 0
      invariant 0 <= i < a.Length
      invariant forall j :: 0 <= j <= i ==> a[j] == was[j]
      invariant forall j :: i < j < a.Length ==> a[j] == was[j - 1]
    {
      a[i] := a[i - 1];
      i := i - 1;
    }
    a[0] := false;
  }

  method Shiftl(a: array<bool>, nbits: nat)
    modifies a
    ensures a[..] == ShiftLeft(old(a[..]), nbits)
  {
    ghost var was := a[..];
    if a.Length == 0 {
      return;
    }
    assert was[..|was|] == was;
    var n := 0;
    while n < nbits
      invariant 0 <= n <= nbits
      invariant a[..] == ShiftLeft(was, n)
    {
      ShiftLeftOnce(was, n);
      MoveUp(a);
      n := n + 1;
    }
  }

  lemma {:induction false} ShiftRightOnce(s: seq<bool>, n: nat, high: bool)
    requires s != []
    ensures ShiftRight(s, n + 1, high) == ShiftRight(s, n, high)[1..] + [high]
  {
  }

  method MoveDown(a: array<bool>, high: bool)
    requires a.Length > 0
    modifies a
    ensures a[..] == old(a[..])[1..] + [high]
  {
    ghost var was := a[..];
    var i := 0;
    while i < a.Length - 1
      invariant 0 <= i <= a.Length - 1
      invariant forall j :: 0 <= j < i ==> a[j] == was[j + 1]
      invariant forall j :: i <= j < a.Length ==> a[j] == was[j]
    {
      a[i] := a[i + 1];
      i := i + 1;
    }
    a[a.Length - 1] := high;
  }

  method Shiftr(a: array<bool>, nbits: nat, high: bool)
    modifies a
    ensures a[..] == ShiftRight(old(a[..]), nbits, high)
  {
    ghost var was := a[..];
    if a.Length == 0 {
      return;
    }
    assert was[0..] == was;
    var n := 0;
    while n < nbits
      invariant 0 <= n <= nbits
      invariant a[..] == ShiftRight(was, n, high)
    {
      ShiftRightOnce(was, n, high);
      MoveDown(a, high);
      n := n + 1;
    }
  }

  // ---------- Integers and bit arrays ----------

  lemma {:induction false} MagnitudeBits(x: int, n: nat)
    requires x < 0 && MagnitudeFits(x, n)
    ensures ToBits(-Unsigned(ToBits(-x, n)), n) == ToBits(x, n)
  {
    BitsUnsigned(-x, n);
  }

  /** Writes the two's complement bits of an integer; fails when its magnitude needs more bits. */
  method BigintToBitarr(res: array<bool>, x: int) returns (failed: bool)
    modifies res
    ensures failed <==> !MagnitudeFits(x, res.Length)
    ensures res[..] == if failed then old(res[..]) else ToBits(x, res.Length)
  {
    var magnitude: int := Abs(x);
    if magnitude >= Pow2(res.Length) {
      return true;
    }
    var i := 0;
    while i < res.Length
      invariant 0 <= i <= res.Length
      invariant res[..i] == ToBits(magnitude, res.Length)[..i]
    {
      res[i] := ToBits(magnitude, res.Length)[i];
      assert res[..i + 1] == res[..i] + [res[i]];
      i := i + 1;
    }
    assert res[..] == ToBits(magnitude, res.Length);
    if x < 0 {
      TwosComplementNeg(res);
      MagnitudeBits(x, res.Length);
    }
    return false;
  }

  /** Reads a bit array: the magnitude of a negative value comes from its two's complement. */
  method BitarrToBigint(bits: seq<bool>, signed: bool) returns (x: int)
    requires bits != []
    ensures x == FromBits(bits, signed)
  {
    var mag := new bool[|bits|];
    var i := 0;
    while i < |bits|
      invariant 0 <= i <= |bits|
      invariant mag[..i] == bits[..i]
    {
      mag[i] := bits[i];
      assert mag[..i + 1] == mag[..i] + [mag[i]];
      i := i + 1;
    }
    assert mag[..] == bits;
    var negative := signed && bits[|bits| - 1];
    if negative {
      TwosComplementNeg(mag);
    }
    ghost var m := mag[..];
    x := 0;
    i := 0;
    while i < |bits|
      invariant 0 <= i <= |bits| && mag[..] == m
      invariant x == Unsigned(m[..i])
    {
      UnsignedAppend(m[..i], m[i]);
      assert m[..i + 1] == m[..i] + [m[i]];
      x := x + (if mag[i] then 1 else 0) * Pow2(i);
      i := i + 1;
    }
    assert m[..i] == m;
    SignedIs(bits);
    if negative {
      NegativeMagnitude(bits);
      x := -x;
    }
  }

  lemma {:induction false} NegativeMagnitude(bits: seq<bool>)
    requires bits != [] && bits[|bits| - 1]
    ensures Unsigned(ToBits(-Unsigned(bits), |bits|)) == Pow2(|bits|) - Unsigned(bits)
  {
    var n := |bits|;
    SignedIs(bits);
    assert Differ(Pow2(n) - Unsigned(bits), -Unsigned(bits), 1, n);
    SameBits(Pow2(n) - Unsigned(bits), -Unsigned(bits), n);
    assert Unsigned(bits) > 0;
    BitsUnsigned(Pow2(n) - Unsigned(bits), n);
  }
}
