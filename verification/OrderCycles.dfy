// When an ordering exists: references made before and after a declaration is marked.

module OrderCycles {
  import opened Wrappers
  import opened Declarations
  import opened Order
  import opened OrderProof

  /** `u` refers to `v` before it is marked: always, unless `u` is a struct, a union or an enum. */
  ghost predicate Hard(env: Env, u: nat, v: nat) {
    u < |env.decls| && exists k :: 0 <= k < |Walk(env, env.decls[u].kind)| && HardAt(env, u, k, v)
  }

  ghost predicate HardAt(env: Env, u: nat, k: nat, v: nat)
    requires u < |env.decls| && k < |Walk(env, env.decls[u].kind)|
  {
    ActsOn(env, u, k, v) && MarkOrdered !in Walk(env, env.decls[u].kind)[..k]
  }

  ghost predicate IsHardCycle(env: Env, p: seq<nat>) {
    |p| >= 2 && p[0] == p[|p| - 1] && forall j :: 0 <= j < |p| - 1 ==> Hard(env, p[j], p[j + 1])
  }

  /** A cycle whose first reference is made before the declaration is marked. */
  ghost predicate IsStuckCycle(env: Env, p: seq<nat>) {
    IsCycle(env, p) && Hard(env, p[0], p[1])
  }

  /** `m` lists the ordered declarations as they became so. */
  ghost predicate Marks(env: Env, st: State, m: seq<nat>) {
    Distinct(m) && (forall x: nat :: x in m <==> x < |st.status| && st.status[x].Ordered?) &&
    (forall u, v :: u in m && Hard(env, u, v) ==> Before(m, v, u))
  }

  ghost predicate HardStack(env: Env, st: State) {
    forall j :: 0 <= j < |st.dependencies| - 1 ==>
      st.dependencies[j] < |st.status| &&
      (st.status[st.dependencies[j]].Ordering? ==> Hard(env, st.dependencies[j], st.dependencies[j + 1]))
  }

  ghost predicate TopIsHard(env: Env, st: State, i: nat) {
    st.dependencies != [] ==>
      var last := st.dependencies[|st.dependencies| - 1];
      Refers(env, last, i) && last < |st.status| && (st.status[last].Ordering? ==> Hard(env, last, i))
  }

  /** How far the walk over declaration `i` has come: before its mark every reference is ordered. */
  ghost predicate HardWalked(env: Env, st: State, i: nat, k: nat)
    requires i < |env.decls| == |st.status|
  {
    var acts := Walk(env, env.decls[i].kind);
    k <= |acts| &&
    if MarkOrdered in acts[..k] then st.status[i].Ordered?
    else st.status[i].Ordering? &&
         forall k', v: nat :: 0 <= k' < k && ActsOn(env, i, k', v) ==> v < |st.status| && st.status[v].Ordered?
  }

  /** The dependencies from `at` on lead back to it, and begin with a reference made before a mark. */
  ghost predicate StuckOn(env: Env, dependencies: seq<nat>, at: nat) {
    exists j: nat :: j < |dependencies| && dependencies[j] == at && IsStuckCycle(env, dependencies[j..] + [at])
  }

  lemma {:induction false} OneMarks(env: Env, i: nat, st: State, m: seq<nat>) returns (m': seq<nat>)
    requires UniqueNames(env) && Inv(env, st) && i < |env.decls| && TopIsHard(env, st, i)
    requires Marks(env, st, m) && HardStack(env, st)
    ensures var r := OrderOne(env, i, st);
            if r.Done? then Marks(env, r.st, m') && m <= m' && r.st.status[i].Ordered?
            else StuckOn(env, r.dependencies, r.at)
    decreases UnorderedOnes(st), 0
  {
    assert StatusOk(env, st, i);
    m' := m;
    match st.status[i]
    case Ordered =>
    case Ordering =>
      ClosesCycle(env, st, i);
    case Unordered =>
      var st1 := State(st.status[i := Ordering], st.order, st.dependencies + [i]);
      assert i in UnorderedOnes(st) && i !in UnorderedOnes(st1);
      assert UnorderedOnes(st1) <= UnorderedOnes(st);
      StartOk(env, i, st, st1);
      StartMarks(env, i, st, st1, m);
      m' := WalkMarks(env, i, 0, st1, m);
      WalkOk(env, i, 0, st1);
      var r := OrderWalk(env, i, 0, st1);
      if r.Done? {
        var st3 := State(r.st.status[i := Ordered], r.st.order + [i], st.dependencies);
        if r.st.status[i].Ordered? {
          assert r.st.status[i := Ordered] == r.st.status;
        } else {
          m' := FinishMarks(env, i, r.st, m', st3);
        }
      }
  }

  lemma {:induction false} StartMarks(env: Env, i: nat, st: State, st1: State, m: seq<nat>)
    requires Marks(env, st, m) && HardStack(env, st) && |st.status| == |env.decls| && i < |env.decls|
    requires TopIsHard(env, st, i) && st.status[i].Unordered? && i !in st.dependencies
    requires st1 == State(st.status[i := Ordering], st.order, st.dependencies + [i])
    ensures Marks(env, st1, m) && HardStack(env, st1) && HardWalked(env, st1, i, 0)
  {
    hide Hard, Refers, Before, ActsOn;
  }

  /** The declaration that is reached again lies on a cycle, and was not marked when it led on. */
  lemma {:induction false} ClosesCycle(env: Env, st: State, i: nat)
    requires Inv(env, st) && i < |env.decls| && st.status[i].Ordering? && TopIsHard(env, st, i) && HardStack(env, st)
    ensures StuckOn(env, st.dependencies, i)
  {
    hide Hard, Refers;
    assert StatusOk(env, st, i);
    var deps := st.dependencies;
    var j :| 0 <= j < |deps| && deps[j] == i;
    var p := deps[j..] + [i];
    forall x | 0 <= x < |p| - 1 ensures Refers(env, p[x], p[x + 1]) {
      assert p[x] == deps[j + x];
      if j + x + 1 < |deps| {
        assert p[x + 1] == deps[j + x + 1];
      }
    }
    assert Hard(env, p[0], p[1]) by {
      if j + 1 < |deps| {
        assert p[1] == deps[j + 1];
      }
    }
    assert IsStuckCycle(env, p) && p[0] == i;
  }

  /** A declaration becomes ordered when all that it refers to before its mark is ordered. */
  lemma {:induction false} FinishMarks(env: Env, i: nat, st: State, m: seq<nat>, st': State) returns (m': seq<nat>)
    requires i < |env.decls| == |st.status| && Marks(env, st, m) && st.status[i].Ordering?
    requires st'.status == st.status[i := Ordered]
    requires forall v: nat :: Hard(env, i, v) ==> v < |st.status| && st.status[v].Ordered?
    ensures Marks(env, st', m') && m <= m'
  {
    hide Hard;
    m' := m + [i];
    forall u, v | u in m' && Hard(env, u, v) ensures Before(m', v, u) {
      if u == i {
        BeforeLast(m, v, i);
      } else {
        assert Before(m, v, u);
        BeforeGrows(m, v, u, i);
      }
    }
  }

  lemma {:induction false} InPrefix(acts: seq<Action>, k: int, n: int)
    requires 0 <= k < n <= |acts|
    ensures acts[k] in acts[..n]
  {
    assert acts[..n][k] == acts[k];
  }

  lemma {:induction false} HardWalkedAll(env: Env, st: State, i: nat, k: nat)
    requires i < |env.decls| == |st.status| && HardWalked(env, st, i, k) && !st.status[i].Ordered?
    requires k == |Walk(env, env.decls[i].kind)| || Walk(env, env.decls[i].kind)[k] == MarkOrdered
    ensures forall v: nat :: Hard(env, i, v) ==> v < |st.status| && st.status[v].Ordered?
  {
    var acts := Walk(env, env.decls[i].kind);
    forall v: nat | Hard(env, i, v) ensures v < |st.status| && st.status[v].Ordered? {
      var k' :| 0 <= k' < |acts| && HardAt(env, i, k', v);
      if k < k' {
        InPrefix(acts, k, k');
      }
      assert k' < k;
    }
  }

  lemma {:induction false} WalkMarks(env: Env, i: nat, k: nat, st: State, m: seq<nat>) returns (m': seq<nat>)
    requires UniqueNames(env) && Inv(env, st) && i < |env.decls|
    requires st.dependencies != [] && st.dependencies[|st.dependencies| - 1] == i
    requires WalkedTo(env, st, i, k) && HardWalked(env, st, i, k)
    requires Marks(env, st, m) && HardStack(env, st)
    ensures var r := OrderWalk(env, i, k, st);
            if r.Done? then Marks(env, r.st, m') && m <= m' && |r.st.status| == |env.decls| &&
                            HardWalked(env, r.st, i, |Walk(env, env.decls[i].kind)|) &&
                            (!r.st.status[i].Ordered? ==>
                              forall v: nat :: Hard(env, i, v) ==> v < |r.st.status| && r.st.status[v].Ordered?)
            else StuckOn(env, r.dependencies, r.at)
    decreases UnorderedOnes(st), 1 + (|Walk(env, env.decls[i].kind)| - k)
  {
    hide Hard, HardAt, ActsOn, StuckOn, Before;
    var acts := Walk(env, env.decls[i].kind);
    m' := m;
    if k < |acts| {
      m' := ActionMarks(env, i, k, st, m);
      ActionOk(env, i, k, st);
      var r := OrderAction(env, i, acts[k], st);
      if r.Done? {
        StackStays(env, st, r.st, i);
        m' := WalkMarks(env, i, k + 1, r.st, m');
      }
    } else if !st.status[i].Ordered? {
      HardWalkedAll(env, st, i, k);
    }
  }

  lemma {:induction false} StackStays(env: Env, st: State, st': State, i: nat)
    requires HardStack(env, st) && Continues(env, st, st', i) && Distinct(st.dependencies)
    requires st.dependencies != [] && st.dependencies[|st.dependencies| - 1] == i
    ensures HardStack(env, st')
  {
    hide Hard;
  }

  lemma {:induction false} ActionMarks(env: Env, i: nat, k: nat, st: State, m: seq<nat>) returns (m': seq<nat>)
    requires UniqueNames(env) && Inv(env, st) && i < |env.decls| && k < |Walk(env, env.decls[i].kind)|
    requires st.dependencies != [] && st.dependencies[|st.dependencies| - 1] == i
    requires HardWalked(env, st, i, k)
    requires Marks(env, st, m) && HardStack(env, st)
    ensures var r := OrderAction(env, i, Walk(env, env.decls[i].kind)[k], st);
            if r.Done? then Marks(env, r.st, m') && m <= m' && |r.st.status| == |env.decls| &&
                            HardWalked(env, r.st, i, k + 1)
            else StuckOn(env, r.dependencies, r.at)
    decreases UnorderedOnes(st), 1
  {
    var acts := Walk(env, env.decls[i].kind);
    var r := OrderAction(env, i, acts[k], st);
    m' := m;
    assert acts[..k + 1] == acts[..k] + [acts[k]];
    match acts[k]
    case MarkOrdered =>
      LookupSelf(env, i);
      if !st.status[i].Ordered? {
        HardWalkedAll(env, st, i, k);
        m' := FinishMarks(env, i, st, m, r.st);
      }
    case Visit(name) =>
      var j := Lookup(env.decls, name);
      if j.Some? {
        VisitReaches(env, i, k, j.value);
        m' := OneMarks(env, j.value, st, m);
        OneOk(env, j.value, st);
        if r.Done? {
          VisitWalked(env, i, k, j.value, st, r.st, m, m');
        }
      } else {
        VisitNothing(env, i, k, st);
      }
  }

  lemma {:induction false} VisitReaches(env: Env, i: nat, k: nat, j: nat)
    requires i < |env.decls| && k < |Walk(env, env.decls[i].kind)|
    requires ActsOn(env, i, k, j)
    ensures Refers(env, i, j)
    ensures MarkOrdered !in Walk(env, env.decls[i].kind)[..k] ==> Hard(env, i, j)
  {
    if MarkOrdered !in Walk(env, env.decls[i].kind)[..k] {
      assert HardAt(env, i, k, j);
    }
  }

  lemma {:induction false} VisitWalked(env: Env, i: nat, k: nat, j: nat, st: State, st': State, m: seq<nat>,
                                       m': seq<nat>)
    requires i < |env.decls| && k < |Walk(env, env.decls[i].kind)| && ActsOn(env, i, k, j)
    requires |st.status| == |env.decls| == |st'.status| && HardWalked(env, st, i, k) && j < |env.decls|
    requires Marks(env, st, m) && Marks(env, st', m') && m <= m' && st'.status[j].Ordered?
    requires st'.status[i] == st.status[i]
    ensures HardWalked(env, st', i, k + 1)
  {
    hide Hard, Before;
    var acts := Walk(env, env.decls[i].kind);
    assert acts[..k + 1] == acts[..k] + [acts[k]];
    forall x | 0 <= x < |st.status| && st.status[x].Ordered? ensures st'.status[x].Ordered? {
      assert x in m;
      assert x in m';
    }
  }

  lemma {:induction false} VisitNothing(env: Env, i: nat, k: nat, st: State)
    requires i < |env.decls| == |st.status| && k < |Walk(env, env.decls[i].kind)| && HardWalked(env, st, i, k)
    requires Walk(env, env.decls[i].kind)[k].Visit? && Lookup(env.decls, Walk(env, env.decls[i].kind)[k].name).None?
    ensures HardWalked(env, st, i, k + 1)
  {
    var acts := Walk(env, env.decls[i].kind);
    assert acts[..k + 1] == acts[..k] + [acts[k]];
    forall k', v: nat | 0 <= k' < k + 1 && ActsOn(env, i, k', v) ensures k' < k {
    }
  }

  // ---------- The whole module ----------

  /** Extend declarations come after all others. */
  ghost predicate ExtendsTrail(env: Env) {
    forall i, j :: 0 <= i < j < |env.decls| && env.decls[i].kind.Extend? ==> env.decls[j].kind.Extend?
  }

  function Range(lo: nat, hi: nat): (r: seq<nat>)
    requires lo <= hi
    ensures |r| == hi - lo && forall j :: 0 <= j < |r| ==> r[j] == lo + j
  {
    seq(hi - lo, j requires 0 <= j => lo + j)
  }

  ghost predicate ExtendsKeepTheirPlace(env: Env, order: seq<nat>) {
    forall a, b :: 0 <= a < b < |order| && order[a] < |env.decls| && env.decls[order[a]].kind.Extend? ==>
      order[b] < |env.decls| && env.decls[order[b]].kind.Extend? && order[a] < order[b]
  }

  ghost predicate IsPermutation(order: seq<nat>, n: nat) {
    |order| == n && Distinct(order) && forall x: nat :: x in order <==> x < n
  }

  /** The declarations before `i` are in the order, and no extend declaration from `i` on is. */
  ghost predicate UpTo(env: Env, st: State, i: nat) {
    (forall x: nat :: x < i ==> x in st.order) &&
    (forall x :: x in st.order && i <= x < |env.decls| ==> !env.decls[x].kind.Extend?)
  }

  lemma {:induction false} UpToStep(env: Env, i: nat, st: State, st': State)
    requires i < |env.decls| && st.dependencies == st'.dependencies == [] && UpTo(env, st, i)
    requires Continues(env, st, st', i) && Settled(env, st', i)
    ensures UpTo(env, st', i + 1)
  {
    assert st'.order[..|st.order|] == st.order;
    assert forall x :: x in st.order ==> x in st'.order;
    assert i in st'.order;
  }

  lemma {:induction false} FromOk(env: Env, i: nat, st: State, m: seq<nat>) returns (m': seq<nat>)
    requires UniqueNames(env) && Inv(env, st) && st.dependencies == [] && i <= |env.decls| && UpTo(env, st, i)
    requires Marks(env, st, m)
    ensures var r := OrderFrom(env, i, st);
            if r.Done? then Inv(env, r.st) && r.st.dependencies == [] && UpTo(env, r.st, |env.decls|) && Marks(env, r.st, m')
            else StuckOn(env, r.dependencies, r.at) && RealCycle(env, r.dependencies, r.at)
    decreases |env.decls| - i
  {
    m' := m;
    if i < |env.decls| {
      OneOk(env, i, st);
      m' := OneMarks(env, i, st, m);
      var r := OrderOne(env, i, st);
      if r.Done? {
        UpToStep(env, i, st, r.st);
        m' := FromOk(env, i + 1, r.st, m');
      }
    }
  }

  lemma {:induction false} InitialOk(env: Env)
    ensures Inv(env, Initial(|env.decls|)) && UpTo(env, Initial(|env.decls|), 0) && Marks(env, Initial(|env.decls|), [])
  {
    hide Hard, Refers;
  }

  /** Extend declarations are never referred to, and refer to nothing: they are appended one by one. */
  lemma {:induction false} ExtendsInOrder(env: Env, i: nat, st: State)
    requires UniqueNames(env) && Inv(env, st) && st.dependencies == [] && i <= |env.decls| && UpTo(env, st, i)
    requires forall x :: i <= x < |env.decls| ==> env.decls[x].kind.Extend?
    ensures var r := OrderFrom(env, i, st);
            r.Done? && r.st.order == st.order + Range(i, |env.decls|)
    decreases |env.decls| - i
  {
    if i < |env.decls| {
      assert StatusOk(env, st, i);
      assert Walk(env, env.decls[i].kind) == [];
      OneOk(env, i, st);
      var r := OrderOne(env, i, st);
      assert r.Done? && r.st.order == st.order + [i];
      UpToStep(env, i, st, r.st);
      ExtendsInOrder(env, i + 1, r.st);
      assert Range(i, |env.decls|) == [i] + Range(i + 1, |env.decls|);
      assert st.order + ([i] + Range(i + 1, |env.decls|)) == st.order + [i] + Range(i + 1, |env.decls|);
    } else {
      assert st.order + Range(i, i) == st.order;
    }
  }

  lemma {:induction false} ExtendsLast(env: Env, i: nat, st: State, n: nat)
    requires UniqueNames(env) && Inv(env, st) && st.dependencies == [] && i <= n <= |env.decls| && UpTo(env, st, i)
    requires forall x :: n <= x < |env.decls| ==> env.decls[x].kind.Extend?
    requires forall x :: 0 <= x < n ==> !env.decls[x].kind.Extend?
    ensures var r := OrderFrom(env, i, st);
            r.Done? ==> exists p :: r.st.order == p + Range(n, |env.decls|)
    decreases n - i
  {
    if i == n {
      ExtendsInOrder(env, i, st);
    } else {
      OneOk(env, i, st);
      var r := OrderOne(env, i, st);
      if r.Done? {
        UpToStep(env, i, st, r.st);
        ExtendsLast(env, i + 1, r.st, n);
      }
    }
  }

  lemma {:induction false} CountDistinct(order: seq<nat>, n: nat)
    requires Distinct(order) && forall x: nat :: x in order <==> x < n
    ensures |order| == n
    decreases n
  {
    assert order == [] || order[0] in order;
    if n > 0 {
      var last: nat := n - 1;
      assert last in order;
      var a :| 0 <= a < |order| && order[a] == last;
      var rest := order[..a] + order[a + 1..];
      forall x: nat ensures x in rest <==> x < n - 1 {
        if x in rest {
          assert x in order;
          var b :| 0 <= b < |order| && order[b] == x && b != a;
        }
        if x < n - 1 {
          assert x in order;
          var b :| 0 <= b < |order| && order[b] == x;
          assert b != a;
          assert rest[if b < a then b else b - 1] == x;
        }
      }
      CountDistinct(rest, n - 1);
    }
  }

  /** Along references made before the mark, declarations were ordered later and later. */
  lemma {:induction false} HardPathDescends(env: Env, m: seq<nat>, p: seq<nat>)
    requires Distinct(m) && (forall u, v :: u in m && Hard(env, u, v) ==> Before(m, v, u))
    requires |p| >= 2 && p[0] in m && forall j :: 0 <= j < |p| - 1 ==> Hard(env, p[j], p[j + 1])
    ensures Before(m, p[|p| - 1], p[0])
    decreases |p|
  {
    hide Hard;
    assert Hard(env, p[0], p[1]);
    assert Before(m, p[1], p[0]);
    if |p| > 2 {
      var q := p[1..];
      forall j | 0 <= j < |q| - 1 ensures Hard(env, q[j], q[j + 1]) {
        assert q[j] == p[j + 1] && q[j + 1] == p[j + 2];
      }
      HardPathDescends(env, m, q);
      BeforeTrans(m, p[|p| - 1], p[1], p[0]);
    }
  }

  lemma {:induction false} BeforeTrans(m: seq<nat>, x: nat, y: nat, z: nat)
    requires Distinct(m) && Before(m, x, y) && Before(m, y, z)
    ensures Before(m, x, z)
  {
    var a, b :| 0 <= a < b < |m| && m[a] == x && m[b] == y;
    var c, d :| 0 <= c < d < |m| && m[c] == y && m[d] == z;
    assert b == c;
  }

  ghost function OrderDecls(env: Env): Outcome {
    OrderFrom(env, 0, Initial(|env.decls|))
  }

  ghost predicate IsTopological(env: Env, order: seq<nat>) {
    IsPermutation(order, |env.decls|) && ExtendsKeepTheirPlace(env, order) &&
    forall u, v :: u in order && Refers(env, u, v) ==> Respected(env, order, u, v)
  }

  /** A successful ordering lists every declaration once, every reference is respected, extend
      declarations come last in their own order, and no cycle is made of references before a mark. */
  lemma {:induction false} OrderingIsTopological(env: Env)
    requires UniqueNames(env) && ExtendsTrail(env) && OrderDecls(env).Done?
    ensures IsTopological(env, OrderDecls(env).st.order)
    ensures forall p :: !IsHardCycle(env, p)
  {
    hide Hard, Refers, Respected;
    InitialOk(env);
    var m := FromOk(env, 0, Initial(|env.decls|), []);
    var st := OrderDecls(env).st;
    CountDistinct(st.order, |env.decls|);
    var n := FirstExtend(env);
    ExtendsLast(env, 0, Initial(|env.decls|), n);
    OrderSplits(env, st.order, n);
    forall p | IsHardCycle(env, p) ensures false {
      InMarks(env, st, m, p);
      HardPathDescends(env, m, p);
    }
  }

  lemma {:induction false} FirstExtend(env: Env) returns (n: nat)
    requires ExtendsTrail(env)
    ensures n <= |env.decls|
    ensures forall x :: 0 <= x < |env.decls| ==> (env.decls[x].kind.Extend? <==> n <= x)
  {
    n := 0;
    while n < |env.decls| && !env.decls[n].kind.Extend?
      invariant n <= |env.decls|
      invariant forall x :: 0 <= x < n ==> !env.decls[x].kind.Extend?
    {
      n := n + 1;
    }
  }

  lemma {:induction false} OrderSplits(env: Env, order: seq<nat>, n: nat)
    requires n <= |env.decls| && forall x :: 0 <= x < |env.decls| ==> (env.decls[x].kind.Extend? <==> n <= x)
    requires IsPermutation(order, |env.decls|) && exists p :: order == p + Range(n, |env.decls|)
    ensures ExtendsKeepTheirPlace(env, order)
  {
    var p :| order == p + Range(n, |env.decls|);
    forall x | x in order ensures x < |env.decls| {
    }
    forall a, b | 0 <= a < b < |order| && order[a] < |env.decls| && env.decls[order[a]].kind.Extend?
      ensures order[b] < |env.decls| && env.decls[order[b]].kind.Extend? && order[a] < order[b]
    {
      var c := |p| + (order[a] - n);
      assert order[c] == order[a];
      assert c == a;
    }
  }

  lemma {:induction false} InMarks(env: Env, st: State, m: seq<nat>, p: seq<nat>)
    requires Inv(env, st) && UpTo(env, st, |env.decls|) && Marks(env, st, m) && st.dependencies == []
    requires IsHardCycle(env, p)
    ensures p[0] in m
  {
    assert Hard(env, p[0], p[1]);
    assert StatusOk(env, st, p[0]);
  }

  /** A circular dependency is only reported for a real one: the reported declarations hold a cycle that
      starts with a reference made before a mark. */
  lemma {:induction false} CircularIsCycle(env: Env)
    requires UniqueNames(env) && OrderDecls(env).Circular?
    ensures var r := OrderDecls(env); RealCycle(env, r.dependencies, r.at) && StuckOn(env, r.dependencies, r.at)
  {
    InitialOk(env);
    var m := FromOk(env, 0, Initial(|env.decls|), []);
  }
}
