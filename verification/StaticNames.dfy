// Names of static symbols: a name that is taken gets a number, the least one that makes it free.

module StaticNames {
  import opened Sets
  import T = TypeName

  const UINT_MAX: nat := 0xFFFF_FFFF

  function Normalize(name: string, id: nat): string {
    if id == 0 then name else name + "." + T.Decimal(id)
  }

  lemma {:induction false} NormalizeInjective(name: string, i: nat, j: nat)
    requires Normalize(name, i) == Normalize(name, j)
    ensures i == j
  {
    T.DecimalValue(i);
    T.DecimalValue(j);
    if i != 0 && j != 0 {
      assert Normalize(name, i) == (name + ".") + T.Decimal(i) && Normalize(name, j) == (name + ".") + T.Decimal(j);
      T.Cancel(name + ".", T.Decimal(i), T.Decimal(j));
    } else {
      assert |Normalize(name, i)| == |name| + if i == 0 then 0 else 1 + |T.Decimal(i)|;
      assert |Normalize(name, j)| == |name| + if j == 0 then 0 else 1 + |T.Decimal(j)|;
    }
  }

  /** The number with which the name is free, all smaller ones taken. */
  ghost predicate IsFirstFree(name: string, taken: seq<string>, k: nat) {
    Normalize(name, k) !in taken && forall j: nat :: j < k ==> Normalize(name, j) in taken
  }

  ghost function Candidates(name: string, k: nat): (r: set<string>)
    ensures forall s :: s in r <==> exists j: nat :: j < k && s == Normalize(name, j)
  {
    if k == 0 then {} else Candidates(name, k - 1) + {Normalize(name, k - 1)}
  }

  lemma {:induction false} CandidatesCount(name: string, k: nat)
    ensures |Candidates(name, k)| == k
    decreases k
  {
    if k > 0 {
      CandidatesCount(name, k - 1);
      var s := Normalize(name, k - 1);
      if s in Candidates(name, k - 1) {
        var j: nat :| j < k - 1 && s == Normalize(name, j);
        NormalizeInjective(name, j, k - 1);
      }
    }
  }

  /** No more numbers are taken than there are names. */
  lemma {:induction false} TakenBound(name: string, taken: seq<string>, k: nat)
    requires forall j: nat :: j < k ==> Normalize(name, j) in taken
    ensures k <= |taken|
  {
    CandidatesCount(name, k);
    ElementsCount(taken);
    var names := set x | x in taken;
    assert Candidates(name, k) <= names;
    SubsetCount(Candidates(name, k), names);
  }

  lemma {:induction false} FirstFreeIsUnique(name: string, taken: seq<string>, i: nat, j: nat)
    requires IsFirstFree(name, taken, i) && IsFirstFree(name, taken, j)
    ensures i == j
  {
  }

  // ---------- Names over a run ----------

  ghost predicate Distinct(names: seq<string>) {
    forall i, j :: 0 <= i < j < |names| ==> names[i] != names[j]
  }

  ghost predicate IsUnique(name: string, taken: seq<string>, r: string) {
    exists k: nat :: IsFirstFree(name, taken, k) && r == Normalize(name, k)
  }

  /** The names after symbols of the given names were reserved and registered, one after the other. */
  ghost predicate Registers(before: seq<string>, requests: seq<string>, after: seq<string>)
    decreases |requests|
  {
    if requests == [] then after == before
    else exists r :: IsUnique(requests[0], before, r) && Registers(before + [r], requests[1..], after)
  }

  lemma {:induction false} StaysDistinct(before: seq<string>, requests: seq<string>, after: seq<string>)
    requires Distinct(before) && Registers(before, requests, after)
    ensures Distinct(after) && before <= after && |after| == |before| + |requests|
    decreases |requests|
  {
    if requests != [] {
      var r :| IsUnique(requests[0], before, r) && Registers(before + [r], requests[1..], after);
      StaysDistinct(before + [r], requests[1..], after);
    }
  }

  // ---------- Runs in which reservations and registrations interleave ----------

  // One step of the resolver: it reserves the name for a symbol, or registers the symbol for which step `of` reserved.
  datatype Step = Reserve(name: string) | Register(of: nat)

  /** Only a symbol with a reservation is registered, and only once. */
  ghost predicate Run(steps: seq<Step>) {
    (forall n: nat :: n < |steps| && steps[n].Register? ==> Registered(steps, |steps|, n)) &&
    (forall m: nat, n: nat :: m < n && Registered(steps, |steps|, m) && Registered(steps, |steps|, n) ==> steps[m].of != steps[n].of)
  }

  /** Step `p`, one of the first `n`, registers a symbol for which an earlier step has reserved a name. */
  ghost predicate Registered(steps: seq<Step>, n: nat, p: nat) {
    p < n <= |steps| && steps[p].Register? && steps[p].of < p && steps[steps[p].of].Reserve?
  }

  /** Counts up from `k` to the first free number. */
  ghost function FirstFree(name: string, taken: seq<string>, k: nat): (r: nat)
    requires forall j: nat :: j < k ==> Normalize(name, j) in taken
    ensures IsFirstFree(name, taken, r)
    decreases |taken| + 1 - k
  {
    TakenBound(name, taken, k);
    if Normalize(name, k) !in taken then k else FirstFree(name, taken, k + 1)
  }

  /** The registered names before step `n`. */
  ghost function NamesAt(steps: seq<Step>, n: nat): seq<string>
    requires Run(steps) && n <= |steps|
    decreases n, 0
  {
    if n == 0 then []
    else
      assert steps[n - 1].Register? ==> Registered(steps, |steps|, n - 1);
      match steps[n - 1]
      case Reserve(_) => NamesAt(steps, n - 1)
      case Register(of) => NamesAt(steps, n - 1) + [NameOf(steps, of)]
  }

  /** The name that step `k` reserves: unique among those registered then. */
  ghost function NameOf(steps: seq<Step>, k: nat): (r: string)
    requires Run(steps) && k < |steps| && steps[k].Reserve?
    ensures IsUnique(steps[k].name, NamesAt(steps, k), r)
    decreases k, 1
  {
    Normalize(steps[k].name, FirstFree(steps[k].name, NamesAt(steps, k), 0))
  }

  lemma {:induction false} NamesStep(steps: seq<Step>, n: nat)
    requires Run(steps) && 0 < n <= |steps|
    ensures steps[n - 1].Register? ==> Registered(steps, n, n - 1)
    ensures NamesAt(steps, n) ==
            match steps[n - 1] case Reserve(_) => NamesAt(steps, n - 1) case Register(of) => NamesAt(steps, n - 1) + [NameOf(steps, of)]
    ensures NamesAt(steps, n - 1) <= NamesAt(steps, n)
  {
    hide NameOf;
    assert steps[n - 1].Register? ==> Registered(steps, |steps|, n - 1);
  }

  /** Every name is that of a symbol registered before. */
  lemma {:induction false} WhoRegistered(steps: seq<Step>, n: nat, r: string) returns (p: nat)
    requires Run(steps) && n <= |steps| && r in NamesAt(steps, n)
    ensures Registered(steps, n, p) && NameOf(steps, steps[p].of) == r
    decreases n
  {
    NamesStep(steps, n);
    hide NameOf, NamesAt, Run;
    if r in NamesAt(steps, n - 1) {
      p := WhoRegistered(steps, n - 1, r);
    } else {
      p := n - 1;
    }
  }

  /** The name of a registered symbol stays. */
  lemma {:induction false} StaysRegistered(steps: seq<Step>, n: nat, p: nat)
    requires Run(steps) && n <= |steps| && Registered(steps, n, p)
    ensures NameOf(steps, steps[p].of) in NamesAt(steps, n)
    decreases n
  {
    hide NameOf, NamesAt, Run;
    NamesStep(steps, n);
    var names := NamesAt(steps, n - 1);
    if p < n - 1 {
      StaysRegistered(steps, n - 1, p);
      assert NameOf(steps, steps[p].of) in names;
    } else {
      assert NamesAt(steps, n) == names + [NameOf(steps, steps[p].of)];
    }
  }

  /** A repeated name belongs to two symbols. */
  lemma {:induction false} WhoRepeated(steps: seq<Step>, n: nat) returns (p: nat, q: nat)
    requires Run(steps) && n <= |steps| && !Distinct(NamesAt(steps, n))
    ensures Registered(steps, n, p) && Registered(steps, n, q) && p < q &&
            NameOf(steps, steps[p].of) == NameOf(steps, steps[q].of)
    decreases n
  {
    assert n > 0;
    NamesStep(steps, n);
    hide NameOf, NamesAt, Run, Distinct;
    if !Distinct(NamesAt(steps, n - 1)) {
      p, q := WhoRepeated(steps, n - 1);
    } else {
      var r := NameOf(steps, steps[n - 1].of);
      DistinctAppend(NamesAt(steps, n - 1), r);
      p := WhoRegistered(steps, n - 1, r);
      q := n - 1;
    }
  }

  /** Two registered symbols of the same name make the names repeat. */
  lemma {:induction false} Repeats(steps: seq<Step>, n: nat, p: nat, q: nat)
    requires Run(steps) && n <= |steps| && Registered(steps, n, p) && Registered(steps, n, q) && p < q
    requires NameOf(steps, steps[p].of) == NameOf(steps, steps[q].of)
    ensures !Distinct(NamesAt(steps, n))
  {
    hide NameOf, NamesAt, Run, Distinct;
    RepeatsAt(steps, p, q);
    NamesPrefix(steps, q + 1, n);
    PrefixDistinct(NamesAt(steps, q + 1), NamesAt(steps, n));
  }

  lemma {:induction false} RepeatsAt(steps: seq<Step>, p: nat, q: nat)
    requires Run(steps) && Registered(steps, q, p) && Registered(steps, q + 1, q)
    requires NameOf(steps, steps[p].of) == NameOf(steps, steps[q].of)
    ensures !Distinct(NamesAt(steps, q + 1))
  {
    hide NameOf, NamesAt, Run, Distinct;
    var names, r := NamesAt(steps, q), NameOf(steps, steps[q].of);
    NamesStep(steps, q + 1);
    assert NamesAt(steps, q + 1) == names + [r];
    StaysRegistered(steps, q, p);
    DistinctAppend(names, r);
  }

  lemma {:induction false} PrefixDistinct(names: seq<string>, more: seq<string>)
    requires names <= more && !Distinct(names)
    ensures !Distinct(more)
  {
    var i, j :| 0 <= i < j < |names| && names[i] == names[j];
    assert more[i] == more[j];
  }

  lemma {:induction false} NamesPrefix(steps: seq<Step>, m: nat, n: nat)
    requires Run(steps) && m <= n <= |steps|
    ensures NamesAt(steps, m) <= NamesAt(steps, n)
    decreases n
  {
    if m < n {
      NamesStep(steps, n);
      hide *;
      NamesPrefix(steps, m, n - 1);
      PrefixTransitive(NamesAt(steps, m), NamesAt(steps, n - 1), NamesAt(steps, n));
    }
  }

  lemma {:induction false} PrefixTransitive(a: seq<string>, b: seq<string>, c: seq<string>)
    requires a <= b <= c
    ensures a <= c
  {
    assert forall i :: 0 <= i < |a| ==> a[i] == b[i] && b[i] == c[i];
  }

  lemma {:induction false} DistinctAppend(names: seq<string>, r: string)
    ensures Distinct(names + [r]) <==> Distinct(names) && r !in names
  {
    var all := names + [r];
    if Distinct(all) {
      assert forall i :: 0 <= i < |names| ==> all[i] != all[|names|] && all[i] == names[i];
      assert forall i, j :: 0 <= i < j < |names| ==> all[i] != all[j];
    }
  }

  /** Steps `p` and `q` register two symbols, and the second reservation was made before the first registration. */
  ghost predicate Overlap(steps: seq<Step>, p: nat, q: nat) {
    Registered(steps, |steps|, p) && Registered(steps, |steps|, q) && steps[p].of < steps[q].of < p
  }

  function Requested(steps: seq<Step>, p: nat): string
    requires Run(steps) && Registered(steps, |steps|, p)
  {
    steps[steps[p].of].name
  }

  /** Some numbers make the same name of both. */
  ghost predicate CanClash(a: string, b: string) {
    exists i: nat, j: nat :: Normalize(a, i) == Normalize(b, j)
  }

  ghost predicate EndsInNumber(name: string) {
    exists stem: string, i: nat :: i > 0 && name == Normalize(stem, i)
  }

  lemma {:induction false} DotInside(a: string, x: string, b: string, y: string)
    requires a + "." + x == b + "." + y && |a| < |b|
    ensures '.' in x
  {
    var s := a + "." + x;
    assert s[|b|] == (b + "." + y)[|b|] == '.';
    assert s[|b|] == x[|b| - |a| - 1];
  }

  lemma {:induction false} LastDot(a: string, x: string, b: string, y: string)
    requires a + "." + x == b + "." + y && '.' !in x && '.' !in y
    ensures a == b && x == y
  {
    if |a| < |b| {
      DotInside(a, x, b, y);
    } else if |b| < |a| {
      DotInside(b, y, a, x);
    } else {
      var s := a + "." + x;
      assert a == s[..|a|] == (b + "." + y)[..|a|] == b;
      assert x == s[|a| + 1..] == (b + "." + y)[|a| + 1..] == y;
    }
  }

  lemma {:induction false} NoDot(n: nat)
    ensures '.' !in T.Decimal(n)
    decreases n
  {
    if n >= 10 {
      NoDot(n / 10);
    }
  }

  /** Two requests can only get the same name if they ask for the same one, or one of them asks for a name that
      ends in a number. */
  lemma {:induction false} ClashingNames(a: string, b: string)
    ensures CanClash(a, b) <==> a == b || (exists i: nat :: i > 0 && a == Normalize(b, i)) || exists i: nat :: i > 0 && b == Normalize(a, i)
  {
    assert Normalize(a, 0) == a && Normalize(b, 0) == b;
    if i: nat, j: nat :| Normalize(a, i) == Normalize(b, j) {
      SameNumbered(a, i, b, j);
    }
  }

  lemma {:induction false} SameNumbered(a: string, i: nat, b: string, j: nat)
    requires Normalize(a, i) == Normalize(b, j)
    ensures a == b || (i == 0 && j > 0) || (i > 0 && j == 0)
  {
    if i > 0 && j > 0 {
      NoDot(i);
      NoDot(j);
      assert Normalize(a, i) == a + "." + T.Decimal(i) && Normalize(b, j) == b + "." + T.Decimal(j);
      LastDot(a, T.Decimal(i), b, T.Decimal(j));
    }
  }

  /** A name that is reserved after the registration of another symbol differs from it. */
  lemma {:induction false} LaterDiffers(steps: seq<Step>, p: nat, q: nat)
    requires Run(steps) && Registered(steps, |steps|, p) && Registered(steps, |steps|, q) && p < steps[q].of
    ensures NameOf(steps, steps[p].of) != NameOf(steps, steps[q].of)
  {
    var k := steps[q].of;
    assert Registered(steps, k, p);
    StaysRegistered(steps, k, p);
  }

  /** Names only coincide where reservations overlap. */
  lemma {:induction false} ClashNeedsOverlap(steps: seq<Step>)
    requires Run(steps) && !Distinct(NamesAt(steps, |steps|))
    ensures exists p: nat, q: nat :: Overlap(steps, p, q) && CanClash(Requested(steps, p), Requested(steps, q))
  {
    var p, q := WhoRepeated(steps, |steps|);
    SameNameOverlaps(steps, p, q);
  }

  lemma {:induction false} SameNameOverlaps(steps: seq<Step>, p: nat, q: nat)
    requires Run(steps) && Registered(steps, |steps|, p) && Registered(steps, |steps|, q) && p < q
    requires NameOf(steps, steps[p].of) == NameOf(steps, steps[q].of)
    ensures exists p: nat, q: nat :: Overlap(steps, p, q) && CanClash(Requested(steps, p), Requested(steps, q))
  {
    var a, b := steps[p].of, steps[q].of;
    var i := FirstFree(steps[a].name, NamesAt(steps, a), 0);
    var j := FirstFree(steps[b].name, NamesAt(steps, b), 0);
    assert Normalize(Requested(steps, p), i) == Normalize(Requested(steps, q), j);
    assert p >= b by {
      if p < b {
        LaterDiffers(steps, p, q);
      }
    }
    hide NameOf, NamesAt, Normalize, IsFirstFree, IsUnique;
    assert p != b;
    if a < b {
      assert Overlap(steps, p, q);
    } else {
      assert CanClash(Requested(steps, q), Requested(steps, p));
      assert Overlap(steps, q, p);
    }
  }

  /** Two overlapping reservations of one name take the same name, or a third symbol has taken it already. */
  lemma {:induction false} OverlapClashes(steps: seq<Step>, p: nat, q: nat)
    requires Run(steps) && Overlap(steps, p, q) && Requested(steps, p) == Requested(steps, q)
    ensures !Distinct(NamesAt(steps, |steps|))
  {
    hide NameOf, NamesAt, Distinct, Normalize;
    var n := |steps|;
    var a, b := steps[p].of, steps[q].of;
    var r := NameOf(steps, a);
    if r in NamesAt(steps, b) {
      var o := WhoRegistered(steps, b, r);
      Repeats(steps, n, o, p);
    } else {
      StillFree(steps, a, b);
      if p < q {
        Repeats(steps, n, p, q);
      } else {
        Repeats(steps, n, q, p);
      }
    }
  }

  /** A name that nobody registered in the meantime is chosen again. */
  lemma {:induction false} StillFree(steps: seq<Step>, a: nat, b: nat)
    requires Run(steps) && a < b < |steps| && steps[a].Reserve? && steps[b] == steps[a] &&
             NameOf(steps, a) !in NamesAt(steps, b)
    ensures NameOf(steps, b) == NameOf(steps, a)
  {
    var name := steps[a].name;
    var i, j := FirstFree(name, NamesAt(steps, a), 0), FirstFree(name, NamesAt(steps, b), 0);
    assert NameOf(steps, a) == Normalize(name, i) && NameOf(steps, b) == Normalize(name, j);
    hide NameOf, Normalize;
    forall k: nat | k < i
      ensures Normalize(name, k) in NamesAt(steps, b)
    {
      NamesPrefix(steps, a, b);
    }
    hide NamesAt;
    assert IsFirstFree(name, NamesAt(steps, b), i);
    FirstFreeIsUnique(name, NamesAt(steps, b), i, j);
  }

  /** Over every run, the registered names are distinct exactly when no two requests for the same name overlap -
      provided that no request asks for a name that itself ends in a dot and a number. */
  lemma {:induction false} DistinctExactly(steps: seq<Step>)
    requires Run(steps) && forall k :: 0 <= k < |steps| && steps[k].Reserve? ==> !EndsInNumber(steps[k].name)
    ensures Distinct(NamesAt(steps, |steps|)) <==>
            forall p: nat, q: nat :: Overlap(steps, p, q) ==> Requested(steps, p) != Requested(steps, q)
  {
    if !Distinct(NamesAt(steps, |steps|)) {
      ClashNeedsOverlap(steps);
      var p: nat, q: nat :| Overlap(steps, p, q) && CanClash(Requested(steps, p), Requested(steps, q));
      ClashingNames(Requested(steps, p), Requested(steps, q));
      assert !EndsInNumber(Requested(steps, p)) && !EndsInNumber(Requested(steps, q));
      assert Requested(steps, p) == Requested(steps, q);
    }
    if p: nat, q: nat :| Overlap(steps, p, q) && Requested(steps, p) == Requested(steps, q) {
      OverlapClashes(steps, p, q);
    }
  }

  class Statics {
    // The addresses of the registered static symbols.
    var names: seq<string>

    constructor ()
      ensures names == []
    {
      names := [];
    }

    method NormalizeUnique(name: string) returns (normalized: string)
      requires |names| < UINT_MAX
      ensures IsUnique(name, names, normalized) && normalized !in names
    {
      hide Normalize;
      var id: nat := 0;
      normalized := Normalize(name, id);
      while true
        invariant id <= |names| && normalized == Normalize(name, id)
        invariant forall j: nat :: j < id ==> Normalize(name, j) in names
        decreases |names| - id
      {
        var collision := false;
        var i := |names|;
        while i > 0 && !collision
          invariant 0 <= i <= |names|
          invariant if collision then normalized in names else forall k :: i <= k < |names| ==> names[k] != normalized
        {
          i := i - 1;
          if names[i] == normalized {
            collision := true;
          }
        }
        if !collision {
          break;
        }
        TakenBound(name, names, id + 1);
        id := (id + 1) % (UINT_MAX + 1);
        normalized := Normalize(name, id);
      }
      assert IsFirstFree(name, names, id);
    }

    method Register(name: string)
      modifies this
      ensures names == old(names) + [name]
    {
      names := names + [name];
    }

    /** Reserves and registers one symbol after the other. */
    method DeclareAll(requests: seq<string>)
      requires |names| + |requests| <= UINT_MAX && Distinct(names)
      modifies this
      ensures Registers(old(names), requests, names) && Distinct(names)
    {
      ghost var before := names;
      assert requests[..0] == [];
      for i := 0 to |requests|
        invariant |names| == |before| + i && Registers(before, requests[..i], names)
      {
        var r := NormalizeUnique(requests[i]);
        RegistersOneMore(before, requests[..i], names, requests[i], r);
        assert requests[..i + 1] == requests[..i] + [requests[i]];
        Register(r);
      }
      assert requests[..|requests|] == requests;
      StaysDistinct(before, requests, names);
    }
  }

  lemma {:induction false} RegistersOneMore(before: seq<string>, requests: seq<string>, after: seq<string>,
                                            name: string, r: string)
    requires Registers(before, requests, after) && IsUnique(name, after, r)
    ensures Registers(before, requests + [name], after + [r])
    decreases |requests|
  {
    if requests == [] {
      assert (requests + [name])[1..] == [];
      assert Registers(before + [r], [], after + [r]);
    } else {
      var q :| IsUnique(requests[0], before, q) && Registers(before + [q], requests[1..], after);
      RegistersOneMore(before + [q], requests[1..], after, name, r);
      assert (requests + [name])[1..] == requests[1..] + [name];
    }
  }
}
