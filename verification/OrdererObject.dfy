// The orderer as the object it is: the walk methods over the syntax push and pop in place.

module OrdererObject {
  import opened Wrappers
  import opened Declarations
  import opened Order
  import opened OrderProof
  import opened OrderCycles

  // ---------- The walk as a fold over names ----------

  function OrderNames(env: Env, names: seq<string>, st: State): (r: Outcome)
    requires |st.status| == |env.decls|
    ensures r.Done? ==> |r.st.status| == |st.status| && UnorderedOnes(r.st) <= UnorderedOnes(st)
    decreases |names|
  {
    if names == [] then Done(st)
    else
      var st1 :- OrderName(env, names[0], st);
      OrderNames(env, names[1..], st1)
  }

  function OrderName(env: Env, name: string, st: State): (r: Outcome)
    requires |st.status| == |env.decls|
    ensures r.Done? ==> |r.st.status| == |st.status| && UnorderedOnes(r.st) <= UnorderedOnes(st)
  {
    match Lookup(env.decls, name)
    case None => Done(st)
    case Some(j) => OrderOne(env, j, st)
  }

  function Then(env: Env, r: Outcome, names: seq<string>): Outcome
    requires r.Done? ==> |r.st.status| == |env.decls|
  {
    match r
    case Done(st) => OrderNames(env, names, st)
    case Circular(_, _) => r
  }

  lemma {:induction false} NamesSplit(env: Env, a: seq<string>, b: seq<string>, st: State)
    requires |st.status| == |env.decls|
    ensures OrderNames(env, a + b, st) == Then(env, OrderNames(env, a, st), b)
    decreases |a|
  {
    if a == [] {
      assert a + b == b;
    } else {
      assert (a + b)[0] == a[0] && (a + b)[1..] == a[1..] + b;
      var r := OrderName(env, a[0], st);
      if r.Done? {
        NamesSplit(env, a[1..], b, r.st);
      }
    }
  }

  lemma {:induction false} NamesOne(env: Env, name: string, st: State)
    requires |st.status| == |env.decls|
    ensures OrderNames(env, [name], st) == OrderName(env, name, st)
  {
    var r := OrderName(env, name, st);
    if r.Done? {
      assert OrderNames(env, [name][1..], r.st) == r;
    }
  }

  function OrderActions(env: Env, i: nat, acts: seq<Action>, st: State): (r: Outcome)
    requires |st.status| == |env.decls| && i < |env.decls|
    ensures r.Done? ==> |r.st.status| == |st.status| && UnorderedOnes(r.st) <= UnorderedOnes(st)
    decreases |acts|
  {
    if acts == [] then Done(st)
    else
      var st1 :- OrderAction(env, i, acts[0], st);
      OrderActions(env, i, acts[1..], st1)
  }

  lemma {:induction false} WalkIsActions(env: Env, i: nat, k: nat, st: State)
    requires |st.status| == |env.decls| && i < |env.decls| && k <= |Walk(env, env.decls[i].kind)|
    ensures OrderWalk(env, i, k, st) == OrderActions(env, i, Walk(env, env.decls[i].kind)[k..], st)
    decreases |Walk(env, env.decls[i].kind)| - k
  {
    hide Walk;
    var acts := Walk(env, env.decls[i].kind);
    if k < |acts| {
      assert acts[k..][0] == acts[k] && acts[k..][1..] == acts[k + 1..];
      var r := OrderAction(env, i, acts[k], st);
      if r.Done? {
        WalkIsActions(env, i, k + 1, r.st);
      }
    }
  }

  lemma {:induction false} VisitsAreNames(env: Env, i: nat, names: seq<string>, acts: seq<Action>, st: State)
    requires |st.status| == |env.decls| && i < |env.decls|
    ensures OrderActions(env, i, Visits(names) + acts, st) ==
              match OrderNames(env, names, st) {
                case Done(s) => OrderActions(env, i, acts, s)
                case Circular(d, a) => Circular(d, a)
              }
    decreases |names|
  {
    if names == [] {
      assert Visits(names) + acts == acts;
    } else {
      assert (Visits(names) + acts)[0] == Visit(names[0]);
      assert (Visits(names) + acts)[1..] == Visits(names[1..]) + acts;
      var r := OrderName(env, names[0], st);
      if r.Done? {
        VisitsAreNames(env, i, names[1..], acts, r.st);
      }
    }
  }

  lemma {:induction false} VisitsAlone(env: Env, i: nat, names: seq<string>, st: State)
    requires |st.status| == |env.decls| && i < |env.decls|
    ensures OrderActions(env, i, Visits(names), st) == OrderNames(env, names, st)
  {
    VisitsAreNames(env, i, names, [], st);
    assert Visits(names) + [] == Visits(names);
  }

  lemma {:induction false} NameKeepsStack(env: Env, name: string, st: State)
    requires |st.status| == |env.decls|
    ensures var r := OrderName(env, name, st); r.Done? ==> r.st.dependencies == st.dependencies
  {
    var j := Lookup(env.decls, name);
    if j.Some? {
      assert OrderOne(env, j.value, st).Done? ==> OrderOne(env, j.value, st).st.dependencies == st.dependencies;
    }
  }

  lemma {:induction false} StackKept(env: Env, i: nat, k: nat, st: State)
    requires |st.status| == |env.decls| && i < |env.decls|
    ensures var r := OrderWalk(env, i, k, st); r.Done? ==> r.st.dependencies == st.dependencies
    decreases |Walk(env, env.decls[i].kind)| - k
  {
    hide Walk;
    var acts := Walk(env, env.decls[i].kind);
    if k < |acts| {
      var r := OrderAction(env, i, acts[k], st);
      if r.Done? {
        if acts[k].Visit? {
          NameKeepsStack(env, acts[k].name, st);
        }
        StackKept(env, i, k + 1, r.st);
      }
    }
  }

  // The error exit of the walk, with the dependencies as reported.
  datatype Verdict = Fine | CircularAt(dependencies: seq<nat>, at: nat) {
    predicate IsFailure() {
      CircularAt?
    }

    function PropagateFailure(): Verdict
      requires CircularAt?
    {
      this
    }
  }

  /** The method's verdict and the state it leaves are those of the outcome `r`. */
  ghost predicate Gives(v: Verdict, st: State, r: Outcome) {
    match r
    case Done(s) => v.Fine? && st == s
    case Circular(d, a) => v == CircularAt(d, a)
  }

  class Orderer {
    const env: Env
    var status: seq<Status>
    var topologicalOrder: seq<nat>
    var dependencies: seq<nat>

    constructor (env: Env)
      ensures this.env == env && Valid() && Now() == Initial(|env.decls|)
    {
      this.env := env;
      status := seq(|env.decls|, _ => Unordered);
      topologicalOrder := [];
      dependencies := [];
      new;
      assert status == Initial(|env.decls|).status;
    }

    ghost function Now(): State
      reads this
    {
      State(status, topologicalOrder, dependencies)
    }

    ghost predicate Valid()
      reads this
    {
      |status| == |env.decls|
    }

    method LookupName(name: string) returns (r: Option<nat>)
      ensures r == Lookup(env.decls, name)
    {
      var i := 0;
      while i < |env.decls|
        invariant 0 <= i <= |env.decls|
        invariant LookupFrom(env.decls, name, i) == Lookup(env.decls, name)
      {
        if env.decls[i].name == name && !env.decls[i].kind.Extend? {
          return Some(i);
        }
        i := i + 1;
      }
      return None;
    }

    method Tldecl(i: nat) returns (v: Verdict)
      requires Valid() && i < |env.decls|
      modifies this
      ensures Valid() && Gives(v, Now(), OrderOne(env, i, old(Now())))
      decreases UnorderedOnes(Now()), 0, 0
    {
      if status[i] == Ordered {
        return Fine;
      }
      if status[i] == Ordering {
        return CircularAt(dependencies, i);
      }
      ghost var st := Now();
      status := status[i := Ordering];
      dependencies := dependencies + [i];
      assert i in UnorderedOnes(st) && i !in UnorderedOnes(Now());
      assert UnorderedOnes(Now()) <= UnorderedOnes(st);
      ghost var st1 := Now();
      :- Decl(i);
      StackKept(env, i, 0, st1);
      dependencies := dependencies[..|dependencies| - 1];
      assert dependencies == st.dependencies;
      status := status[i := Ordered];
      topologicalOrder := topologicalOrder + [i];
      return Fine;
    }

    method Decl(i: nat) returns (v: Verdict)
      requires Valid() && i < |env.decls|
      modifies this
      ensures Valid() && Gives(v, Now(), OrderWalk(env, i, 0, old(Now())))
      decreases UnorderedOnes(Now()), 6
    {
      ghost var st := Now();
      WalkIsActions(env, i, 0, st);
      assert Walk(env, env.decls[i].kind)[0..] == Walk(env, env.decls[i].kind);
      match env.decls[i].kind
      case Variable(ty, e) =>
        VisitsAlone(env, i, MaybeType(env, ty) + MaybeExpr(env, e), st);
        v := Annotated(ty, e);
      case Constant(ty, e) =>
        VisitsAlone(env, i, MaybeType(env, ty) + MaybeExpr(env, e), st);
        v := Annotated(ty, e);
      case Function(isTemplate, params, ret) =>
        if isTemplate {
          return Fine;
        }
        VisitsAlone(env, i, TypesNames(env, params) + TypeNames(env, ret), st);
        v := Signature(params, ret);
      case Struct(isTemplate, members) =>
        if isTemplate {
          return Fine;
        }
        v := Aggregate(i, members);
      case Union(isTemplate, members) =>
        if isTemplate {
          return Fine;
        }
        v := Aggregate(i, members);
      case Enum(ty, values, functions) =>
        v := Enumeration(i, ty, values, functions);
      case Extend =>
        return Fine;
      case Alias(ty) =>
        VisitsAlone(env, i, TypeNames(env, ty), st);
        v := TypeWalk(ty);
      case ExternVariable(ty) =>
        VisitsAlone(env, i, TypeNames(env, ty), st);
        v := TypeWalk(ty);
      case ExternFunction(params, ret) =>
        VisitsAlone(env, i, TypesNames(env, params) + TypeNames(env, ret), st);
        v := Signature(params, ret);
      case ExternType =>
        return Fine;
    }

    method Annotated(ty: Option<Type>, e: Option<Expr>) returns (v: Verdict)
      requires Valid()
      modifies this
      ensures Valid() && Gives(v, Now(), OrderNames(env, MaybeType(env, ty) + MaybeExpr(env, e), old(Now())))
      decreases UnorderedOnes(Now()), 2
    {
      NamesSplit(env, MaybeType(env, ty), MaybeExpr(env, e), Now());
      if ty.Some? {
        :- TypeWalk(ty.value);
      }
      if e.Some? {
        :- ExprWalk(e.value);
      }
      return Fine;
    }

    method Signature(params: seq<Type>, ret: Type) returns (v: Verdict)
      requires Valid()
      modifies this
      ensures Valid() && Gives(v, Now(), OrderNames(env, TypesNames(env, params) + TypeNames(env, ret), old(Now())))
      decreases UnorderedOnes(Now()), 2
    {
      NamesSplit(env, TypesNames(env, params), TypeNames(env, ret), Now());
      :- TypesWalk(params);
      :- TypeWalk(ret);
      return Fine;
    }

    // Structs and unions.
    method Aggregate(i: nat, members: seq<Member>) returns (v: Verdict)
      requires Valid() && i < |env.decls|
      modifies this
      ensures Valid() && Gives(v, Now(),
              OrderActions(env, i, [MarkOrdered] + Visits(MembersNames(env, members)), old(Now())))
      decreases UnorderedOnes(Now()), 5
    {
      ghost var names := MembersNames(env, members);
      assert ([MarkOrdered] + Visits(names))[1..] == Visits(names);
      MarkSelf(i);
      VisitsAlone(env, i, names, Now());
      v := MembersWalk(members);
    }

    method MarkSelf(i: nat)
      requires Valid() && i < |env.decls|
      modifies this
      ensures Valid() && OrderAction(env, i, MarkOrdered, old(Now())) == Done(Now())
    {
      var j := LookupName(env.decls[i].name);
      if j.Some? {
        status := status[j.value := Ordered];
      }
    }

    method Enumeration(i: nat, ty: Option<Type>, values: seq<Value>, functions: seq<Member>) returns (v: Verdict)
      requires Valid() && i < |env.decls|
      modifies this
      ensures Valid() && Gives(v, Now(), OrderActions(env, i,
                Visits(MaybeType(env, ty) + ValuesNames(env, values)) + [MarkOrdered] + Visits(MembersNames(env, functions)),
                old(Now())))
      decreases UnorderedOnes(Now()), 5
    {
      ghost var before, after := MaybeType(env, ty) + ValuesNames(env, values), MembersNames(env, functions);
      assert Visits(before) + [MarkOrdered] + Visits(after) == Visits(before) + ([MarkOrdered] + Visits(after));
      VisitsAreNames(env, i, before, [MarkOrdered] + Visits(after), Now());
      NamesSplit(env, MaybeType(env, ty), ValuesNames(env, values), Now());
      if ty.Some? {
        :- TypeWalk(ty.value);
      }
      :- ValuesWalk(values);
      assert ([MarkOrdered] + Visits(after))[1..] == Visits(after);
      MarkSelf(i);
      VisitsAlone(env, i, after, Now());
      v := MembersWalk(functions);
    }

    method MemberWalk(m: Member) returns (v: Verdict)
      requires Valid()
      modifies this
      ensures Valid() && Gives(v, Now(), OrderNames(env, MemberNames(env, m), old(Now())))
      decreases UnorderedOnes(Now()), 3
    {
      match m
      case VariableMember(ty) => v := TypeWalk(ty);
      case ConstantMember(ty, e) => v := Annotated(ty, e);
      case FunctionMember(isTemplate, params, ret) =>
        if isTemplate {
          return Fine;
        }
        v := Signature(params, ret);
      case AliasMember(ty) => v := TypeWalk(ty);
    }

    method TypeWalk(t: Type) returns (v: Verdict)
      requires Valid()
      modifies this
      ensures Valid() && Gives(v, Now(), OrderNames(env, TypeNames(env, t), old(Now())))
      decreases UnorderedOnes(Now()), 1, t
    {
      match t
      case SymbolType(s) => v := SymbolWalk(s);
      case FunctionType(params, ret) =>
        NamesSplit(env, TypesNames(env, params), TypeNames(env, ret), Now());
        :- TypesWalk(params);
        v := TypeWalk(ret);
      case PointerType(base) => v := TypeWalk(base);
      case ArrayType(count, base) =>
        NamesSplit(env, ExprNames(env, count), TypeNames(env, base), Now());
        :- ExprWalk(count);
        v := TypeWalk(base);
      case SliceType(base) => v := TypeWalk(base);
      case MembersType(members) => v := TypesWalk(members);
      case EnumType(values) => v := ValuesWalk(values);
      case TypeofType(e) => v := ExprWalk(e);
    }

    method ExprWalk(e: Expr) returns (v: Verdict)
      requires Valid()
      modifies this
      ensures Valid() && Gives(v, Now(), OrderNames(env, ExprNames(env, e), old(Now())))
      decreases UnorderedOnes(Now()), 1, e
    {
      match e
      case SymbolExpr(s) => v := SymbolWalk(s);
      case Literal => v := Fine;
      case ListExpr(_, elements) => v := ExprsWalk(elements);
      case SliceExpr(_, start, count) =>
        NamesSplit(env, ExprNames(env, start), ExprNames(env, count), Now());
        :- ExprWalk(start);
        v := ExprWalk(count);
      case InitExpr(ty, members) =>
        NamesSplit(env, TypeNames(env, ty), ValuesNames(env, members), Now());
        :- TypeWalk(ty);
        v := ValuesWalk(members);
      case CastExpr(ty, x) =>
        NamesSplit(env, TypeNames(env, ty), ExprNames(env, x), Now());
        :- TypeWalk(ty);
        v := ExprWalk(x);
      case Defined(s) => v := SymbolWalk(s);
      case SizeofExpr(ty) => v := TypeWalk(ty);
      case Compound(parts) => v := ExprsWalk(parts);
    }

    method SymbolWalk(s: Symbol) returns (v: Verdict)
      requires Valid()
      modifies this
      ensures Valid() && Gives(v, Now(), OrderNames(env, SymbolNames(env, s), old(Now())))
      decreases UnorderedOnes(Now()), 1, s
    {
      if s.start.TypeofStart? {
        v := TypeWalk(s.start.ty);
        return;
      }
      if s.elements == [] {
        return Fine;
      }
      NamesSplit(env, ElementsNames(env, s.elements), Target(env, s), Now());
      :- ElementsWalk(s.elements);
      var first := LookupName(s.elements[0].name);
      if s.start.Root? || first.None? {
        var n := |env.namespace|;
        if |s.elements| <= n {
          return Fine;
        }
        var i := 0;
        while i < n
          invariant 0 <= i <= n && forall j :: 0 <= j < i ==> s.elements[j].name == env.namespace[j]
        {
          if s.elements[i].name != env.namespace[i] {
            return Fine;
          }
          i := i + 1;
        }
        v := NameWalk(s.elements[n].name);
        return;
      }
      v := NameWalk(s.elements[0].name);
    }

    method ValueWalk(x: Value) returns (v: Verdict)
      requires Valid()
      modifies this
      ensures Valid() && Gives(v, Now(), OrderNames(env, ValueNames(env, x), old(Now())))
      decreases UnorderedOnes(Now()), 1, x
    {
      if x.Value? {
        v := ExprWalk(x.e);
      } else {
        v := Fine;
      }
    }

    method NameWalk(name: string) returns (v: Verdict)
      requires Valid()
      modifies this
      ensures Valid() && Gives(v, Now(), OrderNames(env, [name], old(Now())))
      decreases UnorderedOnes(Now()), 0, 1
    {
      NamesOne(env, name, Now());
      var j := LookupName(name);
      if j.Some? {
        v := Tldecl(j.value);
      } else {
        v := Fine;
      }
    }

    method TypesWalk(xs: seq<Type>) returns (v: Verdict)
      requires Valid()
      modifies this
      ensures Valid() && Gives(v, Now(), OrderNames(env, TypesNames(env, xs), old(Now())))
      decreases UnorderedOnes(Now()), 1, xs
    {
      ghost var st := Now();
      var k := 0;
      assert xs[0..] == xs;
      while k < |xs|
        invariant 0 <= k <= |xs| && Valid() && UnorderedOnes(Now()) <= UnorderedOnes(st)
        invariant OrderNames(env, TypesNames(env, xs), st) == OrderNames(env, TypesNames(env, xs[k..]), Now())
      {
        assert xs[k..][0] == xs[k] && xs[k..][1..] == xs[k + 1..];
        NamesSplit(env, TypeNames(env, xs[k]), TypesNames(env, xs[k + 1..]), Now());
        :- TypeWalk(xs[k]);
        k := k + 1;
      }
      return Fine;
    }

    method ExprsWalk(xs: seq<Expr>) returns (v: Verdict)
      requires Valid()
      modifies this
      ensures Valid() && Gives(v, Now(), OrderNames(env, ExprsNames(env, xs), old(Now())))
      decreases UnorderedOnes(Now()), 1, xs
    {
      ghost var st := Now();
      var k := 0;
      assert xs[0..] == xs;
      while k < |xs|
        invariant 0 <= k <= |xs| && Valid() && UnorderedOnes(Now()) <= UnorderedOnes(st)
        invariant OrderNames(env, ExprsNames(env, xs), st) == OrderNames(env, ExprsNames(env, xs[k..]), Now())
      {
        assert xs[k..][0] == xs[k] && xs[k..][1..] == xs[k + 1..];
        NamesSplit(env, ExprNames(env, xs[k]), ExprsNames(env, xs[k + 1..]), Now());
        :- ExprWalk(xs[k]);
        k := k + 1;
      }
      return Fine;
    }

    method ElementsWalk(xs: seq<Element>) returns (v: Verdict)
      requires Valid()
      modifies this
      ensures Valid() && Gives(v, Now(), OrderNames(env, ElementsNames(env, xs), old(Now())))
      decreases UnorderedOnes(Now()), 1, xs
    {
      ghost var st := Now();
      var k := 0;
      assert xs[0..] == xs;
      while k < |xs|
        invariant 0 <= k <= |xs| && Valid() && UnorderedOnes(Now()) <= UnorderedOnes(st)
        invariant OrderNames(env, ElementsNames(env, xs), st) == OrderNames(env, ElementsNames(env, xs[k..]), Now())
      {
        assert xs[k..][0] == xs[k] && xs[k..][1..] == xs[k + 1..];
        NamesSplit(env, TypesNames(env, xs[k].arguments), ElementsNames(env, xs[k + 1..]), Now());
        :- TypesWalk(xs[k].arguments);
        k := k + 1;
      }
      return Fine;
    }

    method MembersWalk(xs: seq<Member>) returns (v: Verdict)
      requires Valid()
      modifies this
      ensures Valid() && Gives(v, Now(), OrderNames(env, MembersNames(env, xs), old(Now())))
      decreases UnorderedOnes(Now()), 4
    {
      ghost var st := Now();
      var k := 0;
      assert xs[0..] == xs;
      while k < |xs|
        invariant 0 <= k <= |xs| && Valid() && UnorderedOnes(Now()) <= UnorderedOnes(st)
        invariant OrderNames(env, MembersNames(env, xs), st) == OrderNames(env, MembersNames(env, xs[k..]), Now())
      {
        assert xs[k..][0] == xs[k] && xs[k..][1..] == xs[k + 1..];
        NamesSplit(env, MemberNames(env, xs[k]), MembersNames(env, xs[k + 1..]), Now());
        :- MemberWalk(xs[k]);
        k := k + 1;
      }
      return Fine;
    }

    method ValuesWalk(xs: seq<Value>) returns (v: Verdict)
      requires Valid()
      modifies this
      ensures Valid() && Gives(v, Now(), OrderNames(env, ValuesNames(env, xs), old(Now())))
      decreases UnorderedOnes(Now()), 1, xs
    {
      ghost var st := Now();
      var k := 0;
      assert xs[0..] == xs;
      while k < |xs|
        invariant 0 <= k <= |xs| && Valid() && UnorderedOnes(Now()) <= UnorderedOnes(st)
        invariant OrderNames(env, ValuesNames(env, xs), st) == OrderNames(env, ValuesNames(env, xs[k..]), Now())
      {
        assert xs[k..][0] == xs[k] && xs[k..][1..] == xs[k + 1..];
        NamesSplit(env, ValueNames(env, xs[k]), ValuesNames(env, xs[k + 1..]), Now());
        :- ValueWalk(xs[k]);
        k := k + 1;
      }
      return Fine;
    }
  }
}
