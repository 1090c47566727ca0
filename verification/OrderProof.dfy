// What an ordering promises, and when there is none.

module OrderProof {
  import opened Wrappers
  import opened Declarations
  import opened Order

  /** Only extend declarations may share a name. */
  ghost predicate UniqueNames(env: Env) {
    forall i, j :: 0 <= i < j < |env.decls| && !env.decls[i].kind.Extend? && !env.decls[j].kind.Extend? ==>
      env.decls[i].name != env.decls[j].name
  }

  // ---------- Paths of references ----------

  ghost predicate IsPath(env: Env, p: seq<nat>) {
    |p| >= 2 && forall j :: 0 <= j < |p| - 1 ==> Refers(env, p[j], p[j + 1])
  }

  ghost predicate Reaches(env: Env, u: nat, v: nat) {
    exists p :: IsPath(env, p) && p[0] == u && p[|p| - 1] == v
  }

  ghost predicate IsCycle(env: Env, p: seq<nat>) {
    IsPath(env, p) && p[0] == p[|p| - 1]
  }

  ghost predicate Before(order: seq<nat>, v: nat, u: nat) {
    exists a, b :: 0 <= a < b < |order| && order[a] == v && order[b] == u
  }

  /** `v` precedes `u`, or it was marked early while the walk that it started led to `u`. */
  ghost predicate Respected(env: Env, order: seq<nat>, u: nat, v: nat) {
    Before(order, v, u) || (v < |env.decls| && MayBeMarkedEarly(env.decls[v]) && Reaches(env, v, u))
  }

  ghost predicate Distinct(s: seq<nat>) {
    forall a, b :: 0 <= a < b < |s| ==> s[a] != s[b]
  }

  // ---------- What every step of the walk keeps ----------

  ghost predicate StatusOk(env: Env, st: State, i: nat)
    requires i < |env.decls| == |st.status|
  {
    match st.status[i]
    case Unordered => i !in st.order && i !in st.dependencies
    case Ordering => i !in st.order && i in st.dependencies
    case Ordered => i in st.order || (i in st.dependencies && MayBeMarkedEarly(env.decls[i]))
  }

  ghost predicate Inv(env: Env, st: State) {
    |st.status| == |env.decls| &&
    (forall x :: x in st.order ==> x < |env.decls| && x !in st.dependencies) &&
    (forall x :: x in st.dependencies ==> x < |env.decls|) &&
    Distinct(st.order) && Distinct(st.dependencies) &&
    (forall i: nat :: i < |env.decls| ==> StatusOk(env, st, i)) &&
    (forall j :: 0 <= j < |st.dependencies| - 1 ==> Refers(env, st.dependencies[j], st.dependencies[j + 1])) &&
    (forall u, v :: u in st.order && Refers(env, u, v) ==> Respected(env, st.order, u, v))
  }

  /** Reference `v` of the declaration being walked has been dealt with. */
  ghost predicate Settled(env: Env, st: State, v: nat) {
    v in st.order || (v < |env.decls| && v in st.dependencies && MayBeMarkedEarly(env.decls[v]))
  }

  ghost predicate WalkedTo(env: Env, st: State, i: nat, k: nat)
    requires i < |env.decls|
  {
    forall k', v | 0 <= k' < k && k' < |Walk(env, env.decls[i].kind)| && ActsOn(env, i, k', v) :: Settled(env, st, v)
  }

  /** How a later state continues an earlier one; declarations other than `i` that are being ordered
      keep their status. */
  ghost predicate Continues(env: Env, st: State, st': State, i: nat) {
    |st.status| == |st'.status| == |env.decls| && st'.dependencies == st.dependencies && st.order <= st'.order &&
    (forall d :: d in st.dependencies && d < |env.decls| && d != i ==> st'.status[d] == st.status[d]) &&
    (forall x :: x in st'.order && x !in st.order ==> x == i || (x < |env.decls| && !env.decls[x].kind.Extend?))
  }

  ghost predicate RealCycle(env: Env, dependencies: seq<nat>, at: nat) {
    (forall j :: 0 <= j < |dependencies| - 1 ==> Refers(env, dependencies[j], dependencies[j + 1])) &&
    at in dependencies && Refers(env, dependencies[|dependencies| - 1], at)
  }

  lemma {:induction false} LookupFirst(decls: seq<Decl>, name: string, i: nat, j: nat)
    requires i <= j < |decls| && decls[j].name == name && !decls[j].kind.Extend?
    requires forall x :: i <= x < |decls| && x != j && !decls[x].kind.Extend? ==> decls[x].name != name
    ensures LookupFrom(decls, name, i) == Some(j)
    decreases j - i
  {
    if i < j {
      LookupFirst(decls, name, i + 1, j);
    }
  }

  /** A declaration that marks itself looks itself up. */
  lemma {:induction false} LookupSelf(env: Env, i: nat)
    requires UniqueNames(env) && i < |env.decls| && !env.decls[i].kind.Extend?
    ensures Lookup(env.decls, env.decls[i].name) == Some(i)
  {
    forall x | 0 <= x < |env.decls| && x != i && !env.decls[x].kind.Extend?
      ensures env.decls[x].name != env.decls[i].name
    {
      if x < i {
        assert env.decls[x].name != env.decls[i].name;
      }
    }
    LookupFirst(env.decls, env.decls[i].name, 0, i);
  }

  lemma {:induction false} OneOk(env: Env, i: nat, st: State)
    requires UniqueNames(env) && Inv(env, st) && i < |env.decls|
    requires st.dependencies != [] ==> Refers(env, st.dependencies[|st.dependencies| - 1], i)
    ensures var r := OrderOne(env, i, st);
            if r.Done? then Inv(env, r.st) && Continues(env, st, r.st, i) && Settled(env, r.st, i) &&
                            (i in st.dependencies ==> r.st.status[i] == st.status[i])
            else RealCycle(env, r.dependencies, r.at)
    decreases UnorderedOnes(st), 0
  {
    assert StatusOk(env, st, i);
    if st.status[i].Unordered? {
      var st1 := State(st.status[i := Ordering], st.order, st.dependencies + [i]);
      assert i in UnorderedOnes(st) && i !in UnorderedOnes(st1);
      assert UnorderedOnes(st1) <= UnorderedOnes(st);
      StartOk(env, i, st, st1);
      WalkOk(env, i, 0, st1);
      var r := OrderWalk(env, i, 0, st1);
      if r.Done? {
        FinishOk(env, i, st, st1, r.st, State(r.st.status[i := Ordered], r.st.order + [i], st.dependencies));
      }
    }
  }

  lemma {:induction false} StartOk(env: Env, i: nat, st: State, st1: State)
    requires Inv(env, st) && i < |env.decls| && st.status[i].Unordered?
    requires st.dependencies != [] ==> Refers(env, st.dependencies[|st.dependencies| - 1], i)
    requires st1 == State(st.status[i := Ordering], st.order, st.dependencies + [i])
    ensures Inv(env, st1)
  {
    hide Refers, Respected, Walk;
    assert StatusOk(env, st, i);
    forall j: nat | j < |env.decls| ensures StatusOk(env, st1, j) {
      assert StatusOk(env, st, j);
    }
  }

  /** Only structs, unions and enums mark themselves early. */
  lemma {:induction false} MarkIsEarly(env: Env, k: Kind, j: nat)
    requires j < |Walk(env, k)| && Walk(env, k)[j] == MarkOrdered
    ensures k.Struct? || k.Union? || k.Enum?
  {
  }

  lemma {:induction false} WalkOk(env: Env, i: nat, k: nat, st: State)
    requires UniqueNames(env) && Inv(env, st) && i < |env.decls|
    requires st.dependencies != [] && st.dependencies[|st.dependencies| - 1] == i
    requires WalkedTo(env, st, i, k)
    ensures var r := OrderWalk(env, i, k, st);
            if r.Done? then Inv(env, r.st) && Continues(env, st, r.st, i) &&
                            WalkedTo(env, r.st, i, |Walk(env, env.decls[i].kind)|)
            else RealCycle(env, r.dependencies, r.at)
    decreases UnorderedOnes(st), 1 + (|Walk(env, env.decls[i].kind)| - k)
  {
    var acts := Walk(env, env.decls[i].kind);
    if k < |acts| {
      ActionOk(env, i, k, st);
      var r := OrderAction(env, i, acts[k], st);
      if r.Done? {
        WalkOk(env, i, k + 1, r.st);
        var r2 := OrderWalk(env, i, k + 1, r.st);
        if r2.Done? {
          ContinuesTwice(env, st, r.st, r2.st, i);
        }
      }
    }
  }

  lemma {:induction false} ContinuesTwice(env: Env, a: State, b: State, c: State, i: nat)
    requires Continues(env, a, b, i) && Continues(env, b, c, i)
    ensures Continues(env, a, c, i)
  {
  }

  lemma {:induction false} SettledLater(env: Env, a: State, b: State, i: nat, k: nat)
    requires i < |env.decls| && Continues(env, a, b, i) && WalkedTo(env, a, i, k)
    ensures WalkedTo(env, b, i, k)
  {
    forall k', v | 0 <= k' < k && k' < |Walk(env, env.decls[i].kind)| && ActsOn(env, i, k', v)
      ensures Settled(env, b, v)
    {
      assert Settled(env, a, v);
    }
  }

  lemma {:induction false} ActionOk(env: Env, i: nat, k: nat, st: State)
    requires UniqueNames(env) && Inv(env, st) && i < |env.decls| && k < |Walk(env, env.decls[i].kind)|
    requires st.dependencies != [] && st.dependencies[|st.dependencies| - 1] == i
    requires WalkedTo(env, st, i, k)
    ensures var r := OrderAction(env, i, Walk(env, env.decls[i].kind)[k], st);
            if r.Done? then Inv(env, r.st) && Continues(env, st, r.st, i) && WalkedTo(env, r.st, i, k + 1)
            else RealCycle(env, r.dependencies, r.at)
    decreases UnorderedOnes(st), 1
  {
    var a := Walk(env, env.decls[i].kind)[k];
    var r := OrderAction(env, i, a, st);
    match a
    case MarkOrdered =>
      MarkIsEarly(env, env.decls[i].kind, k);
      LookupSelf(env, i);
      MarkOk(env, i, st, r.st);
      SettledLater(env, st, r.st, i, k);
    case Visit(name) =>
      var j := Lookup(env.decls, name);
      if j.Some? {
        assert ActsOn(env, i, k, j.value);
        assert Refers(env, i, j.value);
        OneOk(env, j.value, st);
        if r.Done? {
          assert Continues(env, st, r.st, i);
          SettledLater(env, st, r.st, i, k);
        }
      }
  }

  lemma {:induction false} MarkOk(env: Env, i: nat, st: State, st1: State)
    requires Inv(env, st) && i < |env.decls| && i in st.dependencies && MayBeMarkedEarly(env.decls[i])
    requires st1 == st.(status := st.status[i := Ordered])
    ensures Inv(env, st1) && Continues(env, st, st1, i)
  {
    forall j: nat | j < |env.decls| ensures StatusOk(env, st1, j) {
      assert StatusOk(env, st, j);
    }
  }

  /** A declaration on the list of dependencies leads to the last one on it. */
  lemma {:induction false} LeadsToLast(env: Env, deps: seq<nat>, v: nat)
    requires deps != [] && v in deps
    requires forall j :: 0 <= j < |deps| - 1 ==> Refers(env, deps[j], deps[j + 1])
    requires Refers(env, deps[|deps| - 1], v)
    ensures Reaches(env, v, deps[|deps| - 1])
  {
    hide Refers;
    var j :| 0 <= j < |deps| && deps[j] == v;
    var last := deps[|deps| - 1];
    if j == |deps| - 1 {
      var p := [v, v];
      assert IsPath(env, p) && p[0] == v && p[|p| - 1] == last;
    } else {
      var p := deps[j..];
      forall x | 0 <= x < |p| - 1 ensures Refers(env, p[x], p[x + 1]) {
        assert p[x] == deps[j + x] && p[x + 1] == deps[j + x + 1];
      }
      assert IsPath(env, p) && p[0] == v && p[|p| - 1] == last;
    }
  }

  /** A declaration whose walk is finished goes to the end of the order. */
  lemma {:induction false} FinishOk(env: Env, i: nat, st: State, st1: State, st2: State, st3: State)
    requires Inv(env, st) && Inv(env, st1) && Inv(env, st2) && i < |env.decls| && st.status[i].Unordered?
    requires st1 == State(st.status[i := Ordering], st.order, st.dependencies + [i])
    requires Continues(env, st1, st2, i) && WalkedTo(env, st2, i, |Walk(env, env.decls[i].kind)|)
    requires st3 == State(st2.status[i := Ordered], st2.order + [i], st.dependencies)
    ensures Inv(env, st3) && Continues(env, st, st3, i)
  {
    assert StatusOk(env, st, i);
    assert i in st2.dependencies && i !in st2.order;
    forall j: nat | j < |env.decls| ensures StatusOk(env, st3, j) {
      assert StatusOk(env, st2, j);
    }
    forall u, v | u in st3.order && Refers(env, u, v) ensures Respected(env, st3.order, u, v) {
      if u == i {
        var k :| 0 <= k < |Walk(env, env.decls[i].kind)| && ActsOn(env, i, k, v);
        assert Settled(env, st2, v);
        if v in st2.order {
          BeforeLast(st2.order, v, i);
        } else {
          LeadsToLast(env, st2.dependencies, v);
        }
      } else {
        assert Respected(env, st2.order, u, v);
        if Before(st2.order, v, u) {
          BeforeGrows(st2.order, v, u, i);
        }
      }
    }
  }

  lemma {:induction false} BeforeLast(order: seq<nat>, v: nat, i: nat)
    requires v in order
    ensures Before(order + [i], v, i)
  {
    var a :| 0 <= a < |order| && order[a] == v;
    assert (order + [i])[a] == v && (order + [i])[|order|] == i;
  }

  lemma {:induction false} BeforeGrows(order: seq<nat>, v: nat, u: nat, i: nat)
    requires Before(order, v, u)
    ensures Before(order + [i], v, u)
  {
    var a, b :| 0 <= a < b < |order| && order[a] == v && order[b] == u;
    assert (order + [i])[a] == v && (order + [i])[b] == u;
  }
}
