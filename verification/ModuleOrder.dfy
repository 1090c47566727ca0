// The ordering of one module: declarations are registered, checked, walked and listed.

module ModuleOrder {
  import opened Wrappers
  import opened Declarations
  import opened Order
  import opened OrderProof
  import opened OrderCycles
  import opened OrdererObject

  datatype OrderError =
    | Redeclaration(at: nat)
    | ExtendTooEarly(at: nat)
    | CircularDependency(dependencies: seq<nat>, at: nat)

  datatype OrderResult<+T> = Ok(value: T) | Err(error: OrderError) {
    predicate IsFailure() {
      Err?
    }

    function PropagateFailure<U>(): OrderResult<U>
      requires Err?
    {
      Err(error)
    }

    function Extract(): T
      requires Ok?
    {
      value
    }
  }

  predicate SameExtern(a: Kind, b: Kind) {
    (a.ExternVariable? && b.ExternVariable?) ||
    (a.ExternFunction? && b.ExternFunction?) ||
    (a.ExternType? && b.ExternType?)
  }

  predicate Clash(a: Decl, b: Decl) {
    a.name == b.name && !a.kind.Extend? && !b.kind.Extend? && !SameExtern(a.kind, b.kind)
  }

  ghost predicate Redeclares(decls: seq<Decl>) {
    exists i, j :: 0 <= i < j < |decls| && Clash(decls[i], decls[j])
  }

  ghost predicate DuplicateExtern(ks: seq<Decl>, d: Decl) {
    exists k :: 0 <= k < |ks| && ks[k].name == d.name && SameExtern(ks[k].kind, d.kind)
  }

  /** The declarations without the repeated extern ones. */
  ghost function Kept(decls: seq<Decl>): seq<Decl> {
    if decls == [] then []
    else
      var ks := Kept(decls[..|decls| - 1]);
      var d := decls[|decls| - 1];
      if DuplicateExtern(ks, d) then ks else ks + [d]
  }

  ghost predicate Names(ks: seq<Decl>, d: Decl) {
    exists k :: 0 <= k < |ks| && Stands(ks[k], d)
  }

  /** `k` stands for `d`: it is `d`, or another extern declaration of the same thing. */
  ghost predicate Stands(k: Decl, d: Decl) {
    k == d || (k.name == d.name && SameExtern(k.kind, d.kind))
  }

  lemma {:induction false} KeptStandsForAll(decls: seq<Decl>)
    ensures forall k :: k in Kept(decls) ==> k in decls
    ensures forall d :: d in decls ==> Names(Kept(decls), d)
    decreases |decls|
  {
    if decls != [] {
      var init, last := decls[..|decls| - 1], decls[|decls| - 1];
      KeptStandsForAll(init);
      var ks := Kept(init);
      assert decls == init + [last];
      forall d | d in decls ensures Names(Kept(decls), d) {
        if d in init {
          assert Names(ks, d);
          var k :| 0 <= k < |ks| && Stands(ks[k], d);
          assert Kept(decls)[k] == ks[k];
        } else if DuplicateExtern(ks, last) {
          var k :| 0 <= k < |ks| && ks[k].name == last.name && SameExtern(ks[k].kind, last.kind);
          assert Stands(Kept(decls)[k], d);
        } else {
          assert Stands(Kept(decls)[|ks|], d);
        }
      }
    }
  }

  ghost predicate UniqueIn(ks: seq<Decl>) {
    forall i, j :: 0 <= i < j < |ks| && !ks[i].kind.Extend? && !ks[j].kind.Extend? ==> ks[i].name != ks[j].name
  }

  lemma {:induction false} KeptIsUnique(decls: seq<Decl>)
    requires !Redeclares(decls)
    ensures UniqueIn(Kept(decls))
    decreases |decls|
  {
    if decls != [] {
      var init, last := decls[..|decls| - 1], decls[|decls| - 1];
      assert !Redeclares(init) by {
        forall i, j | 0 <= i < j < |init| ensures !Clash(init[i], init[j]) {
          assert init[i] == decls[i] && init[j] == decls[j];
        }
      }
      KeptIsUnique(init);
      KeptStandsForAll(init);
      var ks := Kept(init);
      if !DuplicateExtern(ks, last) && !last.kind.Extend? {
        forall i | 0 <= i < |ks| && !ks[i].kind.Extend? ensures ks[i].name != last.name {
          assert ks[i] in init;
          var x :| 0 <= x < |init| && init[x] == ks[i];
          assert !Clash(decls[x], decls[|decls| - 1]);
        }
      }
    }
  }

  lemma {:induction false} Prefix(decls: seq<Decl>, n: nat)
    requires n < |decls|
    ensures decls[..n + 1][..n] == decls[..n] && decls[..n + 1][n] == decls[n]
    ensures Redeclares(decls[..n + 1]) ==> Redeclares(decls)
    ensures Kept(decls[..n + 1]) == if DuplicateExtern(Kept(decls[..n]), decls[n]) then Kept(decls[..n])
                                    else Kept(decls[..n]) + [decls[n]]
  {
    assert decls[..n + 1][..n] == decls[..n];
    if Redeclares(decls[..n + 1]) {
      var i, j :| 0 <= i < j < n + 1 && Clash(decls[..n + 1][i], decls[..n + 1][j]);
      assert Clash(decls[i], decls[j]);
    }
  }

  /** Registers the declarations of a module; fails exactly on a redeclaration. */
  method OrdererNew(decls: seq<Decl>) returns (r: OrderResult<seq<Decl>>)
    ensures r.Ok? <==> !Redeclares(decls)
    ensures r.Ok? ==> r.value == Kept(decls) && UniqueIn(r.value)
    ensures r.Err? ==> r.error.Redeclaration?
  {
    var tldecls: seq<Decl> := [];
    var i := 0;
    while i < |decls|
      invariant 0 <= i <= |decls|
      invariant !Redeclares(decls[..i]) && tldecls == Kept(decls[..i])
    {
      ghost var done := decls[..i];
      var d := decls[i];
      Prefix(decls, i);
      KeptIsUnique(done);
      KeptStandsForAll(done);
      var existing := Lookup(tldecls, d.name);
      if existing.Some? && SameExtern(tldecls[existing.value].kind, d.kind) {
        StillUnique(done, d);
        assert done + [d] == decls[..i + 1];
        i := i + 1;
        continue;
      }
      if existing.Some? && !d.kind.Extend? {
        ghost var e := tldecls[existing.value];
        assert e in done;
        ghost var x :| 0 <= x < |done| && done[x] == e;
        assert Clash(decls[x], decls[i]);
        return Err(Redeclaration(i));
      }
      NoDuplicate(done, d);
      assert done + [d] == decls[..i + 1];
      tldecls := tldecls + [d];
      i := i + 1;
    }
    assert decls[..i] == decls;
    KeptIsUnique(decls);
    return OrderResult.Ok(tldecls);
  }

  /** A repeated extern declaration adds no clash. */
  lemma {:induction false} StillUnique(done: seq<Decl>, d: Decl)
    requires !Redeclares(done)
    requires Lookup(Kept(done), d.name).Some?
    requires SameExtern(Kept(done)[Lookup(Kept(done), d.name).value].kind, d.kind)
    ensures !Redeclares(done + [d]) && DuplicateExtern(Kept(done), d)
  {
    KeptStandsForAll(done);
    var e := Kept(done)[Lookup(Kept(done), d.name).value];
    assert e in done;
    var x :| 0 <= x < |done| && done[x] == e;
    var all := done + [d];
    forall i, j | 0 <= i < j < |all| ensures !Clash(all[i], all[j]) {
      if j < |done| {
        assert all[i] == done[i] && all[j] == done[j];
      } else {
        assert i < x ==> !Clash(done[i], done[x]);
        assert x < i ==> !Clash(done[x], done[i]);
      }
    }
  }

  /** A declaration that meets none of its name, or that extends, adds no clash and is kept. */
  lemma {:induction false} NoDuplicate(done: seq<Decl>, d: Decl)
    requires !Redeclares(done)
    requires d.kind.Extend? || Lookup(Kept(done), d.name).None?
    ensures !Redeclares(done + [d]) && !DuplicateExtern(Kept(done), d)
  {
    KeptStandsForAll(done);
    var all := done + [d];
    forall i, j | 0 <= i < j < |all| ensures !Clash(all[i], all[j]) {
      if j < |done| {
        assert all[i] == done[i] && all[j] == done[j];
      } else {
        assert Names(Kept(done), done[i]);
      }
    }
  }

  /** Checks that extend declarations come after all others. */
  method CheckExtends(tldecls: seq<Decl>, namespace: seq<string>) returns (r: Option<nat>)
    ensures r.None? <==> ExtendsTrail(Env(tldecls, namespace))
  {
    var i := 1;
    while i < |tldecls|
      invariant 1 <= i
      invariant forall x, y :: 0 <= x < y < i && y < |tldecls| && tldecls[x].kind.Extend? ==> tldecls[y].kind.Extend?
    {
      if !tldecls[i].kind.Extend? && tldecls[i - 1].kind.Extend? {
        return Some(i - 1);
      }
      i := i + 1;
    }
    return None;
  }

  /** Orders a module: the declarations in the order in which they are to be resolved. */
  method OrderModule(decls: seq<Decl>, namespace: seq<string>) returns (r: OrderResult<seq<Decl>>)
    ensures var env := Env(Kept(decls), namespace);
            match r
            case Err(Redeclaration(_)) => Redeclares(decls)
            case Err(ExtendTooEarly(_)) => !Redeclares(decls) && !ExtendsTrail(env)
            case Err(CircularDependency(deps, at)) =>
              !Redeclares(decls) && ExtendsTrail(env) && RealCycle(env, deps, at) && StuckOn(env, deps, at)
            case Ok(ordered) =>
              !Redeclares(decls) && ExtendsTrail(env) && OrderDecls(env).Done? &&
              IsTopological(env, OrderDecls(env).st.order) &&
              Listed(env, OrderDecls(env).st.order, ordered)
  {
    var tldecls :- OrdererNew(decls);
    var early := CheckExtends(tldecls, namespace);
    if early.Some? {
      return Err(ExtendTooEarly(early.value));
    }
    var orderer := new Orderer(Env(tldecls, namespace));
    ghost var env := orderer.env;
    ghost var start := orderer.Now();
    var i := 0;
    assert OrderFrom(env, 0, start) == OrderDecls(env);
    while i < |tldecls|
      invariant 0 <= i <= |tldecls| && orderer.Valid()
      invariant OrderFrom(env, i, orderer.Now()) == OrderDecls(env)
    {
      var v := orderer.Tldecl(i);
      if v.CircularAt? {
        CircularIsCycle(env);
        return Err(CircularDependency(v.dependencies, v.at));
      }
      i := i + 1;
    }
    OrderingIsTopological(env);
    var ordered: seq<Decl> := [];
    i := 0;
    while i < |tldecls|
      invariant 0 <= i <= |tldecls| == |orderer.topologicalOrder|
      invariant Listed(env, orderer.topologicalOrder[..i], ordered)
    {
      assert orderer.topologicalOrder[i] in orderer.topologicalOrder;
      ordered := ordered + [tldecls[orderer.topologicalOrder[i]]];
      i := i + 1;
    }
    assert orderer.topologicalOrder[..i] == orderer.topologicalOrder;
    return OrderResult.Ok(ordered);
  }

  ghost predicate Listed(env: Env, order: seq<nat>, ordered: seq<Decl>) {
    |ordered| == |order| && forall i :: 0 <= i < |order| ==> order[i] < |env.decls| && ordered[i] == env.decls[order[i]]
  }

  // ---------- The outcome depends on the order of the source ----------

  function Named(name: string): Symbol {
    Symbol(Plain, [Element(name, [])])
  }

  // struct S { const c = f; }  and  const f = sizeof(S);
  function ExampleStruct(): Decl {
    Decl("S", Struct(false, [ConstantMember(None, Some(SymbolExpr(Named("f"))))]))
  }

  function ExampleConstant(): Decl {
    Decl("f", Constant(None, Some(SizeofExpr(SymbolType(Named("S"))))))
  }

  lemma {:induction false} ExampleWalks(env: Env)
    requires env.decls == [ExampleStruct(), ExampleConstant()] || env.decls == [ExampleConstant(), ExampleStruct()]
    ensures Walk(env, ExampleStruct().kind) == [MarkOrdered, Visit("f")]
    ensures Walk(env, ExampleConstant().kind) == [Visit("S")]
  {
    assert "f" != "S";
    var f, s := Named("f"), Named("S");
    assert LookupFrom(env.decls, "f", 1) == if env.decls[1] == ExampleConstant() then Some(1) else None;
    assert Lookup(env.decls, "f").Some? && Lookup(env.decls, "S").Some?;
    assert ElementsNames(env, f.elements) == [] && ElementsNames(env, s.elements) == [];
    assert SymbolNames(env, f) == ["f"] && SymbolNames(env, s) == ["S"];
    var m := ConstantMember(None, Some(SymbolExpr(f)));
    assert MemberNames(env, m) == ["f"];
    assert MembersNames(env, [m][1..]) == [];
    assert MembersNames(env, [m]) == ["f"];
  }

  lemma {:induction false} OneWalks(env: Env, i: nat, st: State, st1: State)
    requires |st.status| == |env.decls| && i < |env.decls| && st.status[i].Unordered?
    requires st1 == State(st.status[i := Ordering], st.order, st.dependencies + [i])
    ensures OrderOne(env, i, st) ==
              match OrderWalk(env, i, 0, st1) {
                case Done(st2) => Done(State(st2.status[i := Ordered], st2.order + [i], st.dependencies))
                case Circular(d, a) => Circular(d, a)
              }
  {
  }

  lemma {:induction false} StructFirst()
    ensures OrderDecls(Env([ExampleStruct(), ExampleConstant()], [])) == Done(State([Ordered, Ordered], [1, 0], []))
  {
    var env := Env([ExampleStruct(), ExampleConstant()], []);
    ExampleWalks(env);
    assert Lookup(env.decls, "S") == Some(0);
    assert LookupFrom(env.decls, "f", 1) == Some(1);
    hide Walk, Lookup, OrderOne;
    var s1 := State([Ordering, Unordered], [], [0]);
    var s2 := State([Ordered, Unordered], [], [0]);
    var s3 := State([Ordered, Ordering], [], [0, 1]);
    var s4 := State([Ordered, Ordered], [1, 0], []);
    assert Initial(2).status == [Unordered, Unordered];
    AlreadyOrdered(env, 0, s3);
    assert OrderWalk(env, 1, 0, s3) == Done(s3);
    OneWalks(env, 1, s2, s3);
    assert OrderOne(env, 1, s2) == Done(State([Ordered, Ordered], [1], [0]));
    assert OrderWalk(env, 0, 1, s2) == Done(State([Ordered, Ordered], [1], [0]));
    assert s1.status[0 := Ordered] == s2.status;
    assert OrderAction(env, 0, MarkOrdered, s1) == Done(s2);
    assert OrderWalk(env, 0, 0, s1) == Done(State([Ordered, Ordered], [1], [0]));
    OneWalks(env, 0, Initial(2), s1);
    assert [Ordered, Ordered][0 := Ordered] == [Ordered, Ordered] && [1] + [0] == [1, 0];
    assert OrderOne(env, 0, Initial(2)) == Done(s4);
    AlreadyOrdered(env, 1, s4);
  }

  lemma {:induction false} AlreadyOrdered(env: Env, i: nat, st: State)
    requires |st.status| == |env.decls| && i < |env.decls| && st.status[i].Ordered?
    ensures OrderOne(env, i, st) == Done(st)
  {
  }

  lemma {:induction false} ConstantFirst()
    ensures OrderDecls(Env([ExampleConstant(), ExampleStruct()], [])) == Circular([0, 1], 0)
  {
    var env := Env([ExampleConstant(), ExampleStruct()], []);
    ExampleWalks(env);
    assert Lookup(env.decls, "f") == Some(0);
    assert LookupFrom(env.decls, "S", 1) == Some(1);
    var s1 := State([Ordering, Unordered], [], [0]);
    var s2 := State([Ordering, Ordering], [], [0, 1]);
    var s3 := State([Ordering, Ordered], [], [0, 1]);
    assert OrderOne(env, 0, s3) == Circular([0, 1], 0);
    hide Walk, Lookup, OrderOne;
    assert Initial(2).status == [Unordered, Unordered];
    assert OrderWalk(env, 1, 1, s3) == Circular([0, 1], 0);
    assert s2.status[1 := Ordered] == s3.status;
    assert OrderWalk(env, 1, 0, s2) == Circular([0, 1], 0);
    OneWalks(env, 1, s1, s2);
    assert OrderWalk(env, 0, 0, s1) == Circular([0, 1], 0);
    OneWalks(env, 0, Initial(2), s1);
  }

  /** The struct and the constant refer to each other.  With the struct first they are ordered; with
      the constant first they are a circular dependency. */
  lemma {:induction false} OrderMatters()
    ensures OrderDecls(Env([ExampleStruct(), ExampleConstant()], [])) == Done(State([Ordered, Ordered], [1, 0], []))
    ensures OrderDecls(Env([ExampleConstant(), ExampleStruct()], [])) == Circular([0, 1], 0)
  {
    StructFirst();
    ConstantFirst();
  }
}
