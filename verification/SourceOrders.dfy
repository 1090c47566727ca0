// Ordering and the order of the source: which modules are ordered however their declarations are written down.

module SourceOrders {
  import opened Wrappers
  import opened Declarations
  import opened Order
  import opened OrderProof
  import opened OrderCycles

  // ---------- A declaration that is walked first ----------

  /** All that an ordered declaration refers to is marked. */
  ghost predicate Closed(env: Env, st: State) {
    forall u, v: nat :: u in st.order && Refers(env, u, v) ==> v < |st.status| && st.status[v].Ordered?
  }

  /** What is marked stays marked. */
  ghost predicate Grows(st: State, st': State) {
    |st'.status| == |st.status| && forall x :: 0 <= x < |st.status| && st.status[x].Ordered? ==> st'.status[x].Ordered?
  }

  /** The walk over declaration `i` has marked all that its first `k` actions arrive at. */
  ghost predicate Marked(env: Env, st: State, i: nat, k: nat)
    requires i < |env.decls|
  {
    forall k', v: nat :: 0 <= k' < k && k' < |Walk(env, env.decls[i].kind)| && ActsOn(env, i, k', v) ==>
      v < |st.status| && st.status[v].Ordered?
  }

  lemma {:induction false} OneCloses(env: Env, i: nat, st: State)
    requires UniqueNames(env) && Inv(env, st) && i < |env.decls| && Closed(env, st)
    requires st.dependencies != [] ==> Refers(env, st.dependencies[|st.dependencies| - 1], i)
    ensures var r := OrderOne(env, i, st);
            r.Done? ==> Inv(env, r.st) && Closed(env, r.st) && Grows(st, r.st) && r.st.status[i].Ordered?
    decreases UnorderedOnes(st), 0
  {
    hide Refers, ActsOn, Walk;
    OneOk(env, i, st);
    if st.status[i].Unordered? {
      var st1 := State(st.status[i := Ordering], st.order, st.dependencies + [i]);
      assert i in UnorderedOnes(st) && i !in UnorderedOnes(st1);
      assert UnorderedOnes(st1) <= UnorderedOnes(st);
      StartOk(env, i, st, st1);
      assert Closed(env, st1);
      WalkCloses(env, i, 0, st1);
      var r := OrderWalk(env, i, 0, st1);
      if r.Done? {
        FinishCloses(env, i, r.st, State(r.st.status[i := Ordered], r.st.order + [i], st.dependencies));
      }
    }
  }

  lemma {:induction false} FinishCloses(env: Env, i: nat, st: State, st': State)
    requires i < |env.decls| == |st.status| && Closed(env, st) && Marked(env, st, i, |Walk(env, env.decls[i].kind)|)
    requires st'.status == st.status[i := Ordered] && st'.order == st.order + [i]
    ensures Closed(env, st')
  {
    forall u, v: nat | u in st'.order && Refers(env, u, v) ensures v < |st'.status| && st'.status[v].Ordered? {
      if u !in st.order {
        var k :| 0 <= k < |Walk(env, env.decls[i].kind)| && ActsOn(env, i, k, v);
      }
    }
  }

  lemma {:induction false} WalkCloses(env: Env, i: nat, k: nat, st: State)
    requires UniqueNames(env) && Inv(env, st) && i < |env.decls| && Closed(env, st)
    requires st.dependencies != [] && st.dependencies[|st.dependencies| - 1] == i
    requires Marked(env, st, i, k)
    ensures var r := OrderWalk(env, i, k, st);
            r.Done? ==> Closed(env, r.st) && Grows(st, r.st) && Marked(env, r.st, i, |Walk(env, env.decls[i].kind)|)
    decreases UnorderedOnes(st), 1 + (|Walk(env, env.decls[i].kind)| - k)
  {
    hide Refers, ActsOn, Walk, Closed;
    var acts := Walk(env, env.decls[i].kind);
    if k < |acts| {
      ActionCloses(env, i, k, st);
      var r := OrderAction(env, i, acts[k], st);
      if r.Done? {
        WalkCloses(env, i, k + 1, r.st);
      }
    }
  }

  lemma {:induction false} ActionCloses(env: Env, i: nat, k: nat, st: State)
    requires UniqueNames(env) && Inv(env, st) && i < |env.decls| && Closed(env, st)
    requires k < |Walk(env, env.decls[i].kind)| && Marked(env, st, i, k)
    requires st.dependencies != [] && st.dependencies[|st.dependencies| - 1] == i
    ensures var r := OrderAction(env, i, Walk(env, env.decls[i].kind)[k], st);
            r.Done? ==> Inv(env, r.st) && Closed(env, r.st) && Grows(st, r.st) && Marked(env, r.st, i, k + 1) &&
                        r.st.dependencies == st.dependencies
    decreases UnorderedOnes(st), 1
  {
    var a := Walk(env, env.decls[i].kind)[k];
    match a
    case MarkOrdered =>
      MarkIsEarly(env, env.decls[i].kind, k);
      LookupSelf(env, i);
      MarkOk(env, i, st, OrderAction(env, i, a, st).st);
    case Visit(name) =>
      var j := Lookup(env.decls, name);
      if j.Some? {
        assert ActsOn(env, i, k, j.value);
        assert Refers(env, i, j.value);
        OneOk(env, j.value, st);
        OneCloses(env, j.value, st);
      }
  }

  /** The walk over a declaration is stopped by a cycle on which it is stuck, if nothing else on the cycle was
      walked before. */
  lemma {:induction false} StartStops(env: Env, st: State, p: seq<nat>)
    requires UniqueNames(env) && IsStuckCycle(env, p) && Inv(env, st) && Closed(env, st)
    requires st.dependencies != [] ==> Refers(env, st.dependencies[|st.dependencies| - 1], p[0])
    requires forall x :: x in p ==> x < |st.status| && st.status[x].Unordered?
    ensures OrderOne(env, p[0], st).Circular?
  {
    var u := p[0];
    var k :| 0 <= k < |Walk(env, env.decls[u].kind)| && HardAt(env, u, k, p[1]);
    var st1 := State(st.status[u := Ordering], st.order, st.dependencies + [u]);
    hide Refers, ActsOn, HardAt;
    StartOk(env, u, st, st1);
    forall x | x in p && x in st1.dependencies ensures x == u {
      assert StatusOk(env, st, x);
    }
    WalkStops(env, u, 0, st1, k, p);
  }

  /** The walk does not get past the reference that the cycle begins with. */
  lemma {:induction false} WalkStops(env: Env, u: nat, j: nat, st: State, k: nat, p: seq<nat>)
    requires UniqueNames(env) && IsCycle(env, p) && p[0] == u && u < |env.decls|
    requires j <= k < |Walk(env, env.decls[u].kind)| && HardAt(env, u, k, p[1])
    requires Inv(env, st) && Closed(env, st) && st.status[u].Ordering? && Marked(env, st, u, j)
    requires st.dependencies != [] && st.dependencies[|st.dependencies| - 1] == u
    requires forall x :: x in p && x in st.dependencies ==> x == u
    ensures OrderWalk(env, u, j, st).Circular?
    decreases k - j
  {
    var acts := Walk(env, env.decls[u].kind);
    var r := OrderAction(env, u, acts[j], st);
    if acts[j] == MarkOrdered {
      if j < k {
        InPrefix(acts, j, k);
      }
      assert false;
    } else if r.Done? {
      ActionCloses(env, u, j, st);
      var to := Lookup(env.decls, acts[j].name);
      if to.Some? {
        assert ActsOn(env, u, j, to.value);
        assert Refers(env, u, to.value);
        OneOk(env, to.value, st);
      }
      if j == k {
        CycleIsMarked(env, u, r.st, p);
        assert false;
      }
      WalkStops(env, u, j + 1, r.st, k, p);
    }
  }

  /** From a marked declaration, everything that it leads to is marked. */
  lemma {:induction false} CycleIsMarked(env: Env, u: nat, st: State, p: seq<nat>)
    requires Inv(env, st) && Closed(env, st) && u < |env.decls| && IsCycle(env, p) && p[0] == u
    requires forall x :: x in p && x in st.dependencies ==> x == u
    requires p[1] < |env.decls| && st.status[p[1]].Ordered?
    ensures st.status[u].Ordered?
  {
    hide Refers;
    var n := 1;
    while n < |p| - 1 && p[n] != u
      invariant 1 <= n < |p| && p[n] < |env.decls| && st.status[p[n]].Ordered?
      decreases |p| - n
    {
      assert StatusOk(env, st, p[n]);
      assert p[n] in p;
      assert Refers(env, p[n], p[n + 1]);
      n := n + 1;
    }
  }

  /** The declaration that is written first is walked before all others. */
  lemma {:induction false} FirstStops(env: Env, p: seq<nat>)
    requires UniqueNames(env) && IsStuckCycle(env, p) && p[0] == 0
    ensures OrderDecls(env).Circular?
  {
    hide Refers, Hard;
    InitialOk(env);
    PathWithin(env, p);
    StartStops(env, Initial(|env.decls|), p);
  }

  // ---------- The order in which declarations are reached ----------

  ghost function Unreached(env: Env, reached: seq<nat>): set<nat> {
    set x: nat | x < |env.decls| && x !in reached
  }

  lemma {:induction false} FewerLeft(env: Env, reached: seq<nat>, i: nat)
    requires i < |env.decls| && i !in reached
    ensures Unreached(env, reached + [i]) < Unreached(env, reached)
  {
    assert i in Unreached(env, reached) && i !in Unreached(env, reached + [i]);
  }

  lemma {:induction false} NoMoreLeft(env: Env, reached: seq<nat>, more: seq<nat>)
    requires reached <= more
    ensures Unreached(env, more) <= Unreached(env, reached)
  {
  }

  /** All that is reached from declaration `i`, in depth-first order, after what was reached before.  This is plain
      reachability: it knows of no marks and of no failures. */
  ghost function Reach(env: Env, i: nat, reached: seq<nat>): (r: seq<nat>)
    ensures reached <= r && (i < |env.decls| ==> i in r)
    decreases Unreached(env, reached), 0
  {
    if i >= |env.decls| || i in reached then reached
    else
      FewerLeft(env, reached, i);
      ReachWalk(env, i, 0, reached + [i])
  }

  ghost function ReachWalk(env: Env, i: nat, k: nat, reached: seq<nat>): (r: seq<nat>)
    requires i < |env.decls|
    ensures reached <= r
    decreases Unreached(env, reached), 1 + (|Walk(env, env.decls[i].kind)| - k)
  {
    if k >= |Walk(env, env.decls[i].kind)| then reached
    else
      var r := ReachAction(env, Walk(env, env.decls[i].kind)[k], reached);
      NoMoreLeft(env, reached, r);
      ReachWalk(env, i, k + 1, r)
  }

  ghost function ReachAction(env: Env, a: Action, reached: seq<nat>): (r: seq<nat>)
    ensures reached <= r
    decreases Unreached(env, reached), 1
  {
    if a.Visit? && Lookup(env.decls, a.name).Some? then Reach(env, Lookup(env.decls, a.name).value, reached) else reached
  }

  ghost function ReachFrom(env: Env, i: nat, reached: seq<nat>): (r: seq<nat>)
    ensures reached <= r
    decreases |env.decls| - i
  {
    if i >= |env.decls| then reached else ReachFrom(env, i + 1, Reach(env, i, reached))
  }

  /** The declarations in the order in which the source, read from its beginning, first reaches them. */
  ghost function Reached(env: Env): seq<nat> {
    ReachFrom(env, 0, [])
  }

  /** Some other declaration on the cycle is reached before the one that it begins with. */
  ghost predicate Preceded(p: seq<nat>, reached: seq<nat>) {
    p != [] && exists x: nat :: x in p && x != p[0] && Before(reached, x, p[0])
  }

  // ---------- Walks and reachability ----------

  /** What was reached is what is not unordered, and the list of dependencies follows the order of reaching. */
  ghost predicate Follows(env: Env, st: State, reached: seq<nat>) {
    |st.status| == |env.decls| && (forall x :: 0 <= x < |env.decls| ==> (x in reached <==> !st.status[x].Unordered?)) &&
    Distinct(reached) && (forall x :: x in reached ==> x < |env.decls|)
  }

  ghost predicate InOrder(dependencies: seq<nat>, reached: seq<nat>) {
    (forall x :: x in dependencies ==> x in reached) &&
    forall a, b :: 0 <= a < b < |dependencies| ==> Before(reached, dependencies[a], dependencies[b])
  }

  lemma {:induction false} BeforeMore(s: seq<nat>, t: seq<nat>, x: nat, y: nat)
    requires s <= t && Before(s, x, y)
    ensures Before(t, x, y)
  {
    var a, b :| 0 <= a < b < |s| && s[a] == x && s[b] == y;
    assert t[a] == x && t[b] == y;
  }

  lemma {:induction false} InOrderMore(dependencies: seq<nat>, s: seq<nat>, t: seq<nat>)
    requires s <= t && InOrder(dependencies, s)
    ensures InOrder(dependencies, t)
  {
    forall x | x in dependencies ensures x in t {
      var a :| 0 <= a < |s| && s[a] == x;
      assert t[a] == x;
    }
    forall a, b | 0 <= a < b < |dependencies| ensures Before(t, dependencies[a], dependencies[b]) {
      BeforeMore(s, t, dependencies[a], dependencies[b]);
    }
  }

  lemma {:induction false} InOrderPush(dependencies: seq<nat>, s: seq<nat>, i: nat)
    requires InOrder(dependencies, s)
    ensures InOrder(dependencies + [i], s + [i])
  {
    var more := dependencies + [i];
    InOrderMore(dependencies, s, s + [i]);
    assert (s + [i])[|s|] == i;
    forall a, b | 0 <= a < b < |more| ensures Before(s + [i], more[a], more[b]) {
      if b == |dependencies| {
        assert more[a] in dependencies;
        BeforeLast(s, more[a], i);
      } else {
        assert Before(s + [i], dependencies[a], dependencies[b]);
      }
    }
  }

  /** The walk starts declarations in the order of reaching, up to where it is stopped. */
  lemma {:induction false} OneFollows(env: Env, i: nat, st: State, reached: seq<nat>)
    requires UniqueNames(env) && i < |env.decls| && Follows(env, st, reached) && InOrder(st.dependencies, reached)
    ensures var r := OrderOne(env, i, st);
            if r.Done? then Follows(env, r.st, Reach(env, i, reached)) && r.st.dependencies == st.dependencies
            else InOrder(r.dependencies, Reach(env, i, reached))
    decreases UnorderedOnes(st), 0
  {
    if st.status[i].Unordered? {
      var st1 := State(st.status[i := Ordering], st.order, st.dependencies + [i]);
      assert i in UnorderedOnes(st) && i !in UnorderedOnes(st1);
      assert UnorderedOnes(st1) <= UnorderedOnes(st);
      InOrderPush(st.dependencies, reached, i);
      WalkFollows(env, i, 0, st1, reached + [i]);
      var r := OrderWalk(env, i, 0, st1);
      if r.Done? {
        var s := Reach(env, i, reached);
        assert s == ReachWalk(env, i, 0, reached + [i]);
        assert i in s;
      }
    }
  }

  lemma {:induction false} WalkFollows(env: Env, i: nat, k: nat, st: State, reached: seq<nat>)
    requires UniqueNames(env) && i < |env.decls| && i in reached && Follows(env, st, reached) &&
             InOrder(st.dependencies, reached)
    ensures var r := OrderWalk(env, i, k, st);
            if r.Done? then Follows(env, r.st, ReachWalk(env, i, k, reached)) && r.st.dependencies == st.dependencies
            else InOrder(r.dependencies, ReachWalk(env, i, k, reached))
    decreases UnorderedOnes(st), 1 + (|Walk(env, env.decls[i].kind)| - k)
  {
    hide Walk, InOrder;
    var acts := Walk(env, env.decls[i].kind);
    if k < |acts| {
      ActionFollows(env, i, k, st, reached);
      var r, s := OrderAction(env, i, acts[k], st), ReachAction(env, acts[k], reached);
      assert ReachWalk(env, i, k, reached) == ReachWalk(env, i, k + 1, s);
      if r.Done? {
        InOrderMore(st.dependencies, reached, s);
        WalkFollows(env, i, k + 1, r.st, s);
      } else {
        InOrderMore(r.dependencies, s, ReachWalk(env, i, k + 1, s));
      }
    }
  }

  lemma {:induction false} ActionFollows(env: Env, i: nat, k: nat, st: State, reached: seq<nat>)
    requires UniqueNames(env) && i < |env.decls| && i in reached && k < |Walk(env, env.decls[i].kind)|
    requires Follows(env, st, reached) && InOrder(st.dependencies, reached)
    ensures var a := Walk(env, env.decls[i].kind)[k];
            var r := OrderAction(env, i, a, st);
            if r.Done? then Follows(env, r.st, ReachAction(env, a, reached)) && r.st.dependencies == st.dependencies
            else InOrder(r.dependencies, ReachAction(env, a, reached))
    decreases UnorderedOnes(st), 1
  {
    var a := Walk(env, env.decls[i].kind)[k];
    match a
    case MarkOrdered => LookupSelf(env, i);
    case Visit(name) =>
      var j := Lookup(env.decls, name);
      if j.Some? {
        OneFollows(env, j.value, st, reached);
      }
  }
  lemma {:induction false} PrecededMore(p: seq<nat>, s: seq<nat>, t: seq<nat>)
    requires s <= t && Preceded(p, s)
    ensures Preceded(p, t)
  {
    var x: nat :| x in p && x != p[0] && Before(s, x, p[0]);
    BeforeMore(s, t, x, p[0]);
  }

  /** A walk that is not stopped reaches some other declaration of the cycle first. */
  lemma {:induction false} OneAvoids(env: Env, i: nat, st: State, reached: seq<nat>, p: seq<nat>)
    requires UniqueNames(env) && IsStuckCycle(env, p)
    requires Inv(env, st) && Closed(env, st) && i < |env.decls| && Follows(env, st, reached)
    requires InOrder(st.dependencies, reached)
    requires st.dependencies != [] ==> Refers(env, st.dependencies[|st.dependencies| - 1], i)
    requires OrderOne(env, i, st).Done? && p[0] !in reached && p[0] in Reach(env, i, reached)
    ensures Preceded(p, Reach(env, i, reached))
    decreases UnorderedOnes(st), 0
  {
    hide Refers, Hard;
    var st1 := State(st.status[i := Ordering], st.order, st.dependencies + [i]);
    assert i in UnorderedOnes(st) && i !in UnorderedOnes(st1);
    assert UnorderedOnes(st1) <= UnorderedOnes(st);
    var s1 := reached + [i];
    if i == p[0] {
      PathWithin(env, p);
      if forall x :: x in p ==> st.status[x].Unordered? {
        StartStops(env, st, p);
        assert false;
      } else {
        var x :| x in p && !st.status[x].Unordered?;
        BeforeLast(reached, x, i);
        assert Preceded(p, s1);
        PrecededMore(p, s1, Reach(env, i, reached));
      }
    } else {
      StartOk(env, i, st, st1);
      InOrderPush(st.dependencies, reached, i);
      WalkAvoids(env, i, 0, st1, s1, p);
    }
  }

  lemma {:induction false} WalkAvoids(env: Env, i: nat, k: nat, st: State, reached: seq<nat>, p: seq<nat>)
    requires UniqueNames(env) && IsStuckCycle(env, p)
    requires Inv(env, st) && Closed(env, st) && i < |env.decls| && i in reached && Follows(env, st, reached)
    requires st.dependencies != [] && st.dependencies[|st.dependencies| - 1] == i && InOrder(st.dependencies, reached)
    requires OrderWalk(env, i, k, st).Done? && p[0] !in reached && p[0] in ReachWalk(env, i, k, reached)
    ensures Preceded(p, ReachWalk(env, i, k, reached))
    decreases UnorderedOnes(st), 1 + (|Walk(env, env.decls[i].kind)| - k)
  {
    hide Refers, Hard, ActsOn;
    var acts := Walk(env, env.decls[i].kind);
    var r, s := OrderAction(env, i, acts[k], st), ReachAction(env, acts[k], reached);
    var all := ReachWalk(env, i, k + 1, s);
    assert ReachWalk(env, i, k, reached) == all;
    ActionStep(env, i, k, st, reached);
    if p[0] in s {
      var j := Lookup(env.decls, acts[k].name).value;
      VisitReaches(env, i, k, j);
      OneAvoids(env, j, st, reached, p);
      PrecededMore(p, s, all);
    } else {
      WalkAvoids(env, i, k + 1, r.st, s, p);
    }
  }

  lemma {:induction false} ActionStep(env: Env, i: nat, k: nat, st: State, reached: seq<nat>)
    requires UniqueNames(env) && Inv(env, st) && Closed(env, st) && i < |env.decls| && i in reached
    requires k < |Walk(env, env.decls[i].kind)| && Follows(env, st, reached) && InOrder(st.dependencies, reached)
    requires st.dependencies != [] && st.dependencies[|st.dependencies| - 1] == i
    requires OrderAction(env, i, Walk(env, env.decls[i].kind)[k], st).Done?
    ensures var st' := OrderAction(env, i, Walk(env, env.decls[i].kind)[k], st).st;
            var s := ReachAction(env, Walk(env, env.decls[i].kind)[k], reached);
            Inv(env, st') && Closed(env, st') && Follows(env, st', s) && st'.dependencies == st.dependencies &&
            InOrder(st.dependencies, s)
  {
    hide Refers, ActsOn, Walk, Follows, InOrder, Closed;
    ActionFollows(env, i, k, st, reached);
    ActionClosed(env, i, k, st);
    InOrderMore(st.dependencies, reached, ReachAction(env, Walk(env, env.decls[i].kind)[k], reached));
  }

  lemma {:induction false} ActionClosed(env: Env, i: nat, k: nat, st: State)
    requires UniqueNames(env) && Inv(env, st) && Closed(env, st) && i < |env.decls| &&
             k < |Walk(env, env.decls[i].kind)|
    requires st.dependencies != [] && st.dependencies[|st.dependencies| - 1] == i
    ensures var r := OrderAction(env, i, Walk(env, env.decls[i].kind)[k], st);
            r.Done? ==> Inv(env, r.st) && Closed(env, r.st)
  {
    hide Refers, Walk;
    var a := Walk(env, env.decls[i].kind)[k];
    match a
    case MarkOrdered =>
      MarkIsEarly(env, env.decls[i].kind, k);
      LookupSelf(env, i);
      MarkOk(env, i, st, OrderAction(env, i, a, st).st);
    case Visit(name) =>
      var j := Lookup(env.decls, name);
      if j.Some? {
        assert ActsOn(env, i, k, j.value);
        VisitReaches(env, i, k, j.value);
        OneOk(env, j.value, st);
        OneCloses(env, j.value, st);
      }
  }

  /** The same for the whole source from declaration `i` on. */
  lemma {:induction false} FromAvoids(env: Env, i: nat, st: State, reached: seq<nat>, p: seq<nat>)
    requires UniqueNames(env) && IsStuckCycle(env, p)
    requires Inv(env, st) && Closed(env, st) && Follows(env, st, reached) && st.dependencies == []
    requires OrderFrom(env, i, st).Done? && p[0] !in reached && p[0] in ReachFrom(env, i, reached)
    ensures Preceded(p, ReachFrom(env, i, reached))
    decreases |env.decls| - i
  {
    hide Refers, Hard;
    OneOk(env, i, st);
    OneCloses(env, i, st);
    OneFollows(env, i, st, reached);
    var r, s := OrderOne(env, i, st), Reach(env, i, reached);
    if p[0] in s {
      OneAvoids(env, i, st, reached, p);
      PrecededMore(p, s, ReachFrom(env, i + 1, s));
    } else {
      FromAvoids(env, i + 1, r.st, s, p);
    }
  }

  lemma {:induction false} FromFollows(env: Env, i: nat, st: State, reached: seq<nat>)
    requires UniqueNames(env) && Follows(env, st, reached) && st.dependencies == []
    ensures var r := OrderFrom(env, i, st);
            r.Circular? ==> InOrder(r.dependencies, ReachFrom(env, i, reached))
    decreases |env.decls| - i
  {
    if i < |env.decls| {
      OneFollows(env, i, st, reached);
      var r, s := OrderOne(env, i, st), Reach(env, i, reached);
      if r.Done? {
        FromFollows(env, i + 1, r.st, s);
      } else {
        InOrderMore(r.dependencies, s, ReachFrom(env, i + 1, s));
      }
    }
  }

  // ---------- Every declaration is reached, once ----------

  lemma {:induction false} ReachDistinct(env: Env, i: nat, reached: seq<nat>)
    requires Distinct(reached)
    ensures Distinct(Reach(env, i, reached))
    decreases Unreached(env, reached), 0
  {
    if i < |env.decls| && i !in reached {
      FewerLeft(env, reached, i);
      WalkDistinct(env, i, 0, reached + [i]);
    }
  }

  lemma {:induction false} WalkDistinct(env: Env, i: nat, k: nat, reached: seq<nat>)
    requires i < |env.decls| && Distinct(reached)
    ensures Distinct(ReachWalk(env, i, k, reached))
    decreases Unreached(env, reached), 1 + (|Walk(env, env.decls[i].kind)| - k)
  {
    hide Walk;
    if k < |Walk(env, env.decls[i].kind)| {
      var a := Walk(env, env.decls[i].kind)[k];
      if a.Visit? && Lookup(env.decls, a.name).Some? {
        ReachDistinct(env, Lookup(env.decls, a.name).value, reached);
      }
      var r := ReachAction(env, a, reached);
      NoMoreLeft(env, reached, r);
      WalkDistinct(env, i, k + 1, r);
    }
  }

  lemma {:induction false} AllReached(env: Env, i: nat, reached: seq<nat>)
    requires Distinct(reached)
    ensures Distinct(ReachFrom(env, i, reached))
    ensures forall x: nat :: i <= x < |env.decls| ==> x in ReachFrom(env, i, reached)
    decreases |env.decls| - i
  {
    if i < |env.decls| {
      ReachDistinct(env, i, reached);
      AllReached(env, i + 1, Reach(env, i, reached));
    }
  }

  /** A module is ordered exactly when on every cycle that begins with a reference made before a mark some other
      declaration is reached before that one. */
  lemma {:induction false} OrderableExactly(env: Env)
    requires UniqueNames(env)
    ensures OrderDecls(env).Done? <==> forall p :: IsStuckCycle(env, p) ==> Preceded(p, Reached(env))
  {
    hide *;
    if OrderDecls(env).Done? {
      forall p | IsStuckCycle(env, p) ensures Preceded(p, Reached(env)) {
        OrderedAvoids(env, p);
      }
    } else {
      var p := StoppedByFirst(env);
    }
  }

  lemma {:induction false} OrderedAvoids(env: Env, p: seq<nat>)
    requires UniqueNames(env) && OrderDecls(env).Done? && IsStuckCycle(env, p)
    ensures Preceded(p, Reached(env))
  {
    hide Refers, Hard, Preceded, OrderFrom, ReachFrom;
    InitialOk(env);
    AllReached(env, 0, []);
    PathWithin(env, p);
    FromAvoids(env, 0, Initial(|env.decls|), [], p);
  }

  lemma {:induction false} StoppedByFirst(env: Env) returns (p: seq<nat>)
    requires UniqueNames(env) && OrderDecls(env).Circular?
    ensures IsStuckCycle(env, p) && !Preceded(p, Reached(env))
  {
    hide Refers, Hard, Preceded, OrderFrom, ReachFrom, IsStuckCycle, InOrder;
    AllReached(env, 0, []);
    FromFollows(env, 0, Initial(|env.decls|), []);
    CircularIsCycle(env);
    var r := OrderDecls(env);
    var j: nat :| j < |r.dependencies| && r.dependencies[j] == r.at && IsStuckCycle(env, r.dependencies[j..] + [r.at]);
    ReportedIsFirst(r.dependencies, j, Reached(env));
    p := r.dependencies[j..] + [r.at];
  }


  /** The reported cycle begins with the declaration on it that was reached first. */
  lemma {:induction false} ReportedIsFirst(dependencies: seq<nat>, j: nat, reached: seq<nat>)
    requires InOrder(dependencies, reached) && Distinct(reached) && j < |dependencies|
    ensures !Preceded(dependencies[j..] + [dependencies[j]], reached)
  {
    var p := dependencies[j..] + [dependencies[j]];
    forall x: nat | x in p && x != p[0] ensures !Before(reached, x, p[0]) {
      var a :| 0 <= a < |p| && p[a] == x;
      assert x == dependencies[j + a];
      assert Before(reached, dependencies[j], x);
    }
  }

  // ---------- Another order of the source ----------

  /** `b` lists the declarations of `a` in the order `pi`. */
  ghost predicate Reorders(a: Env, b: Env, pi: seq<nat>) {
    b.namespace == a.namespace && |b.decls| == |a.decls| && IsPermutation(pi, |a.decls|) &&
    forall i :: 0 <= i < |pi| ==> pi[i] < |a.decls| && b.decls[i] == a.decls[pi[i]]
  }

  /** The walk only asks which names are declared. */
  ghost predicate SameNames(a: Env, b: Env) {
    b.namespace == a.namespace && forall name :: Lookup(b.decls, name).None? <==> Lookup(a.decls, name).None?
  }

  lemma {:induction false} SameValues(a: Env, b: Env, es: seq<Value>)
    requires SameNames(a, b)
    ensures ValuesNames(b, es) == ValuesNames(a, es)
    decreases es
  {
    hide SameNames;
    if es != [] {
      SameValue(a, b, es[0]);
      SameValues(a, b, es[1..]);
    }
  }

  lemma {:induction false} SameValue(a: Env, b: Env, v: Value)
    requires SameNames(a, b)
    ensures ValueNames(b, v) == ValueNames(a, v)
    decreases v
  {
    hide SameNames;
    if v.Value? {
      SameExpr(a, b, v.e);
    }
  }

  lemma {:induction false} SameExprs(a: Env, b: Env, es: seq<Expr>)
    requires SameNames(a, b)
    ensures ExprsNames(b, es) == ExprsNames(a, es)
    decreases es
  {
    hide SameNames;
    if es != [] {
      SameExpr(a, b, es[0]);
      SameExprs(a, b, es[1..]);
    }
  }

  lemma {:induction false} SameTypes(a: Env, b: Env, ts: seq<Type>)
    requires SameNames(a, b)
    ensures TypesNames(b, ts) == TypesNames(a, ts)
    decreases ts
  {
    hide SameNames;
    if ts != [] {
      SameType(a, b, ts[0]);
      SameTypes(a, b, ts[1..]);
    }
  }

  lemma {:induction false} SameElements(a: Env, b: Env, es: seq<Element>)
    requires SameNames(a, b)
    ensures ElementsNames(b, es) == ElementsNames(a, es)
    decreases es
  {
    hide SameNames;
    if es != [] {
      SameTypes(a, b, es[0].arguments);
      SameElements(a, b, es[1..]);
    }
  }

  lemma {:induction false} SameSymbol(a: Env, b: Env, s: Symbol)
    requires SameNames(a, b)
    ensures SymbolNames(b, s) == SymbolNames(a, s)
    decreases s
  {
    if s.start.TypeofStart? {
      SameType(a, b, s.start.ty);
    } else if s.elements != [] {
      SameElements(a, b, s.elements);
      assert Target(b, s) == Target(a, s);
    }
  }

  lemma {:induction false} SameExpr(a: Env, b: Env, e: Expr)
    requires SameNames(a, b)
    ensures ExprNames(b, e) == ExprNames(a, e)
    decreases e
  {
    hide SameNames;
    match e
    case SymbolExpr(s) => SameSymbol(a, b, s);
    case Literal =>
    case ListExpr(_, elements) => SameExprs(a, b, elements);
    case SliceExpr(_, start, count) =>
      SameExpr(a, b, start);
      SameExpr(a, b, count);
    case InitExpr(ty, members) =>
      SameType(a, b, ty);
      SameValues(a, b, members);
    case CastExpr(ty, x) =>
      SameType(a, b, ty);
      SameExpr(a, b, x);
    case Defined(s) => SameSymbol(a, b, s);
    case SizeofExpr(ty) => SameType(a, b, ty);
    case Compound(parts) => SameExprs(a, b, parts);
  }

  lemma {:induction false} SameType(a: Env, b: Env, t: Type)
    requires SameNames(a, b)
    ensures TypeNames(b, t) == TypeNames(a, t)
    decreases t
  {
    hide SameNames;
    match t
    case SymbolType(s) => SameSymbol(a, b, s);
    case FunctionType(params, ret) =>
      SameTypes(a, b, params);
      SameType(a, b, ret);
    case PointerType(base) => SameType(a, b, base);
    case ArrayType(count, base) =>
      SameExpr(a, b, count);
      SameType(a, b, base);
    case SliceType(base) => SameType(a, b, base);
    case MembersType(members) => SameTypes(a, b, members);
    case EnumType(values) => SameValues(a, b, values);
    case TypeofType(e) => SameExpr(a, b, e);
  }

  lemma {:induction false} SameAnnotated(a: Env, b: Env, t: Option<Type>, e: Option<Expr>)
    requires SameNames(a, b)
    ensures MaybeType(b, t) == MaybeType(a, t) && MaybeExpr(b, e) == MaybeExpr(a, e)
  {
    hide SameNames;
    if t.Some? {
      SameType(a, b, t.value);
    }
    if e.Some? {
      SameExpr(a, b, e.value);
    }
  }

  lemma {:induction false} SameMembers(a: Env, b: Env, ms: seq<Member>)
    requires SameNames(a, b)
    ensures MembersNames(b, ms) == MembersNames(a, ms)
    decreases |ms|
  {
    hide SameNames;
    if ms != [] {
      match ms[0] {
        case VariableMember(ty) => SameType(a, b, ty);
        case ConstantMember(t, e) => SameAnnotated(a, b, t, e);
        case FunctionMember(_, params, ret) =>
          SameTypes(a, b, params);
          SameType(a, b, ret);
        case AliasMember(ty) => SameType(a, b, ty);
      }
      SameMembers(a, b, ms[1..]);
    }
  }

  lemma {:induction false} SameWalk(a: Env, b: Env, k: Kind)
    requires SameNames(a, b)
    ensures Walk(b, k) == Walk(a, k)
  {
    hide SameNames, TypesNames, TypeNames, MembersNames, ValuesNames, MaybeType, MaybeExpr;
    match k
    case Variable(t, e) => SameAnnotated(a, b, t, e);
    case Constant(t, e) => SameAnnotated(a, b, t, e);
    case Function(_, params, ret) =>
      SameTypes(a, b, params);
      SameType(a, b, ret);
    case Struct(_, members) => SameMembers(a, b, members);
    case Union(_, members) => SameMembers(a, b, members);
    case Enum(t, values, functions) =>
      SameAnnotated(a, b, t, None);
      SameValues(a, b, values);
      SameMembers(a, b, functions);
    case Alias(ty) => SameType(a, b, ty);
    case ExternVariable(ty) => SameType(a, b, ty);
    case ExternFunction(params, ret) =>
      SameTypes(a, b, params);
      SameType(a, b, ret);
    case _ =>
  }

  // ---------- References in another order ----------

  /** A name means the same declaration in both orders. */
  lemma {:induction false} SameLookup(a: Env, b: Env, pi: seq<nat>, name: string)
    requires UniqueNames(a) && Reorders(a, b, pi)
    ensures Lookup(b.decls, name).Some? <==> Lookup(a.decls, name).Some?
    ensures Lookup(b.decls, name).Some? ==> Lookup(a.decls, name) == Some(pi[Lookup(b.decls, name).value])
  {
    var x, y := Lookup(a.decls, name), Lookup(b.decls, name);
    if y.Some? {
      var j := pi[y.value];
      assert j in pi;
      LookupSelf(a, j);
    }
    if x.Some? {
      assert x.value in pi;
      var i :| 0 <= i < |pi| && pi[i] == x.value;
      assert b.decls[i].name == name && !b.decls[i].kind.Extend?;
    }
  }

  lemma {:induction false} ReorderedNames(a: Env, b: Env, pi: seq<nat>)
    requires UniqueNames(a) && Reorders(a, b, pi)
    ensures SameNames(a, b) && UniqueNames(b)
  {
    forall name ensures Lookup(b.decls, name).None? <==> Lookup(a.decls, name).None? {
      SameLookup(a, b, pi, name);
    }
    forall i, j | 0 <= i < j < |b.decls| && !b.decls[i].kind.Extend? && !b.decls[j].kind.Extend?
      ensures b.decls[i].name != b.decls[j].name
    {
      assert pi[i] in pi && pi[j] in pi && pi[i] != pi[j];
      if pi[i] < pi[j] {
        assert a.decls[pi[i]].name != a.decls[pi[j]].name;
      } else {
        assert a.decls[pi[j]].name != a.decls[pi[i]].name;
      }
    }
  }

  /** References, and those made before a mark, are the same in both orders. */
  lemma {:induction false} SameReferences(a: Env, b: Env, pi: seq<nat>, u: nat, v: nat)
    requires UniqueNames(a) && Reorders(a, b, pi) && u < |pi| && v < |pi|
    ensures Refers(b, u, v) <==> Refers(a, pi[u], pi[v])
    ensures Hard(b, u, v) <==> Hard(a, pi[u], pi[v])
  {
    ReorderedNames(a, b, pi);
    assert pi[u] in pi && pi[v] in pi;
    SameWalk(a, b, b.decls[u].kind);
    var acts := Walk(a, a.decls[pi[u]].kind);
    hide Walk;
    assert Walk(b, b.decls[u].kind) == acts;
    forall k | 0 <= k < |acts| ensures ActsOn(b, u, k, v) <==> ActsOn(a, pi[u], k, pi[v]) {
      if acts[k].Visit? {
        SameLookup(a, b, pi, acts[k].name);
      }
    }
    assert forall k :: 0 <= k < |acts| ==> (HardAt(b, u, k, v) <==> HardAt(a, pi[u], k, pi[v]));
  }

  lemma {:induction false} ReferredTo(env: Env, u: nat, v: nat)
    requires Refers(env, u, v)
    ensures u < |env.decls| && v < |env.decls|
  {
  }

  ghost predicate Within(p: seq<nat>, n: nat) {
    forall j :: 0 <= j < |p| ==> p[j] < n
  }

  lemma {:induction false} PathWithin(env: Env, p: seq<nat>)
    requires IsPath(env, p)
    ensures Within(p, |env.decls|)
  {
    hide Refers;
    forall j | 0 <= j < |p| ensures p[j] < |env.decls| {
      if j < |p| - 1 {
        ReferredTo(env, p[j], p[j + 1]);
      } else {
        ReferredTo(env, p[j - 1], p[j]);
      }
    }
  }

  function Through(pi: seq<nat>, p: seq<nat>): (q: seq<nat>)
    requires Within(p, |pi|)
    ensures |q| == |p| && forall j :: 0 <= j < |p| ==> q[j] == pi[p[j]]
  {
    seq(|p|, j requires 0 <= j < |p| => pi[p[j]])
  }

  /** A cycle stays a cycle in the other order. */
  lemma {:induction false} CycleThrough(a: Env, b: Env, pi: seq<nat>, p: seq<nat>)
    requires UniqueNames(a) && Reorders(a, b, pi) && Within(p, |pi|) && |p| >= 2
    ensures p[0] == p[|p| - 1] ==> (IsStuckCycle(b, p) <==> IsStuckCycle(a, Through(pi, p)))
  {
    hide Reorders, Refers, Hard;
    var q := Through(pi, p);
    forall j | 0 <= j < |p| - 1
      ensures Refers(b, p[j], p[j + 1]) <==> Refers(a, q[j], q[j + 1])
    {
      SameReferences(a, b, pi, p[j], p[j + 1]);
    }
    SameReferences(a, b, pi, p[0], p[1]);
  }

  // ---------- The theorem ----------

  /** The declarations with declaration `i` moved to the front. */
  function MovedToFront(i: nat, n: nat): (pi: seq<nat>)
    requires i < n
    ensures |pi| == n
    ensures forall x :: 0 <= x < n ==> pi[x] == if x == 0 then i else if x <= i then x - 1 else x
  {
    seq(n, x requires 0 <= x => if x == 0 then i else if x <= i then x - 1 else x)
  }

  function Rearranged(env: Env, pi: seq<nat>): (b: Env)
    requires Within(pi, |env.decls|)
    ensures b.namespace == env.namespace && |b.decls| == |pi| && forall i :: 0 <= i < |pi| ==> b.decls[i] == env.decls[pi[i]]
  {
    Env(seq(|pi|, i requires 0 <= i < |pi| => env.decls[pi[i]]), env.namespace)
  }

  lemma {:induction false} MovedIsPermutation(i: nat, n: nat)
    requires i < n
    ensures IsPermutation(MovedToFront(i, n), n) && Within(MovedToFront(i, n), n)
  {
    var pi := MovedToFront(i, n);
    forall x: nat | x < n ensures x in pi {
      assert pi[if x == i then 0 else if x < i then x + 1 else x] == x;
    }
  }

  /** Where a cycle can stop the walk, it does when the declaration on which it is stuck is written first. */
  lemma {:induction false} StuckInSomeOrder(env: Env, p: seq<nat>) returns (b: Env, pi: seq<nat>)
    requires UniqueNames(env) && ExtendsTrail(env) && IsStuckCycle(env, p)
    ensures Reorders(env, b, pi) && ExtendsTrail(b) && OrderDecls(b).Circular?
  {
    hide Refers, Hard;
    PathWithin(env, p);
    var n, i := |env.decls|, p[0];
    MovedIsPermutation(i, n);
    pi := MovedToFront(i, n);
    b := Rearranged(env, pi);
    NotExtend(env, i, p[1]);
    assert ExtendsTrail(b);
    var q := seq(|p|, j requires 0 <= j < |p| => if p[j] == i then 0 else if p[j] < i then p[j] + 1 else p[j]);
    assert Through(pi, q) == p;
    CycleThrough(env, b, pi, q);
    ReorderedNames(env, b, pi);
    FirstStops(b, q);
  }

  lemma {:induction false} NotExtend(env: Env, u: nat, v: nat)
    requires Hard(env, u, v)
    ensures u < |env.decls| && !env.decls[u].kind.Extend?
  {
  }

  /** A module is ordered in every order of its source exactly when no cycle begins with a reference made before a mark. */
  lemma {:induction false} EveryOrderExactly(env: Env)
    requires UniqueNames(env) && ExtendsTrail(env)
    ensures (forall b, pi :: Reorders(env, b, pi) && ExtendsTrail(b) ==> OrderDecls(b).Done?) <==> forall p :: !IsStuckCycle(env, p)
  {
    hide Reorders, IsStuckCycle;
    if p :| IsStuckCycle(env, p) {
      var b, pi := StuckInSomeOrder(env, p);
    }
    if b, pi :| Reorders(env, b, pi) && ExtendsTrail(b) && OrderDecls(b).Circular? {
      var p := StuckInReordered(env, b, pi);
    }
  }

  lemma {:induction false} StuckInReordered(env: Env, b: Env, pi: seq<nat>) returns (p: seq<nat>)
    requires UniqueNames(env) && Reorders(env, b, pi) && OrderDecls(b).Circular?
    ensures IsStuckCycle(env, p)
  {
    hide Refers, Hard;
    ReorderedNames(env, b, pi);
    CircularIsCycle(b);
    var r := OrderDecls(b);
    var j: nat :| j < |r.dependencies| && r.dependencies[j] == r.at && IsStuckCycle(b, r.dependencies[j..] + [r.at]);
    var q := r.dependencies[j..] + [r.at];
    PathWithin(b, q);
    p := Through(pi, q);
    CycleThrough(env, b, pi, q);
  }
}
