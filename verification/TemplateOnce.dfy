// A run that succeeds makes every instance once: its functions are on the list once each.

module TemplateOnce {
  import opened Templates
  import opened TemplateWalk
  import opened TemplateProof

  // ---------- The functions of one instance on the list ----------

  datatype Owner = Module | Instance(id: Id)

  function OwnerOf(chain: seq<Id>): Owner {
    if chain == [] then Module else Instance(chain[|chain| - 1])
  }

  /** The functions on the list that an instance, or the module itself, put there. */
  function PutBy(items: seq<Item>, o: Owner): seq<Fn> {
    if items == [] then []
    else
      var item := items[|items| - 1];
      PutBy(items[..|items| - 1], o) + if OwnerOf(item.chain) == o then [item.fn] else []
  }

  /** The functions that resolving a declaration puts on the list. */
  function Queued(actions: seq<Action>): seq<Fn> {
    if actions == [] then [] else (if actions[0].Queue? then [actions[0].fn] else []) + Queued(actions[1..])
  }

  predicate IsNew(o: Owner, st: State, st1: State) {
    o.Instance? && o.id in st1.known && o.id !in st.known
  }

  function OwnFunctions(p: Program, o: Owner, st: State, st1: State): seq<Fn> {
    if IsNew(o, st, st1) then Queued(p.actions(o.id)) else []
  }

  /** From `st` to `st1` every instance that became known put its functions on the list, and nobody else did. */
  ghost predicate AddsNew(p: Program, st: State, st1: State) {
    st.known <= st1.known && forall o :: PutBy(st1.items, o) == PutBy(st.items, o) + OwnFunctions(p, o, st, st1)
  }

  /** The same, while `owner` puts `own` there. */
  ghost predicate AddsOwn(p: Program, st: State, st1: State, owner: Owner, own: seq<Fn>) {
    st.known <= st1.known &&
    forall o :: !(o == owner && IsNew(o, st, st1)) ==>
      PutBy(st1.items, o) == PutBy(st.items, o) + if o == owner then own else OwnFunctions(p, o, st, st1)
  }

  lemma {:induction false} PutOne(items: seq<Item>, item: Item, o: Owner)
    ensures PutBy(items + [item], o) == PutBy(items, o) + if OwnerOf(item.chain) == o then [item.fn] else []
  {
    assert (items + [item])[..|items|] == items;
  }

  lemma {:induction false} AddsTwice(p: Program, a: State, b: State, c: State)
    requires AddsNew(p, a, b) && AddsNew(p, b, c)
    ensures AddsNew(p, a, c)
  {
    hide PutBy, Queued;
    forall o
      ensures PutBy(c.items, o) == PutBy(a.items, o) + OwnFunctions(p, o, a, c)
    {
      assert PutBy(b.items, o) == PutBy(a.items, o) + OwnFunctions(p, o, a, b);
      assert PutBy(c.items, o) == PutBy(b.items, o) + OwnFunctions(p, o, b, c);
    }
  }

  lemma {:induction false} OwnAfterNew(p: Program, a: State, b: State, c: State, owner: Owner, own: seq<Fn>)
    requires AddsNew(p, a, b) && AddsOwn(p, b, c, owner, own)
    ensures AddsOwn(p, a, c, owner, own)
  {
    hide PutBy, Queued;
    forall o | !(o == owner && IsNew(o, a, c))
      ensures PutBy(c.items, o) == PutBy(a.items, o) + if o == owner then own else OwnFunctions(p, o, a, c)
    {
      assert PutBy(b.items, o) == PutBy(a.items, o) + OwnFunctions(p, o, a, b);
      assert !(o == owner && IsNew(o, b, c));
    }
  }

  lemma {:induction false} OwnAfterQueue(p: Program, a: State, fn: Fn, chain: seq<Id>, c: State, own: seq<Fn>)
    requires AddsOwn(p, Enqueue(a, fn, chain), c, OwnerOf(chain), own)
    ensures AddsOwn(p, a, c, OwnerOf(chain), [fn] + own)
  {
    hide PutBy, Queued;
    var b, owner := Enqueue(a, fn, chain), OwnerOf(chain);
    forall o | !(o == owner && IsNew(o, a, c))
      ensures PutBy(c.items, o) == PutBy(a.items, o) + if o == owner then [fn] + own else OwnFunctions(p, o, a, c)
    {
      PutOne(a.items, Item(fn, chain), o);
      assert IsNew(o, a, c) <==> IsNew(o, b, c);
      if o == owner {
        assert PutBy(a.items, o) + [fn] + own == PutBy(a.items, o) + ([fn] + own);
      } else {
        assert PutBy(b.items, o) == PutBy(a.items, o) + [] == PutBy(a.items, o);
      }
    }
  }

  lemma {:induction false} ResolveOnce(p: Program, id: Id, chain: seq<Id>, st: State)
    ensures var r := Resolve(p, id, chain, st); r.Done? ==> AddsNew(p, st, r.st)
    decreases MAX_DEPTH - |chain|, 0, 0
  {
    if id !in st.known && |chain| + 1 <= MAX_DEPTH {
      var st0 := if p.isType(id) then Know(st, id) else st;
      var more := chain + [id];
      ActOnce(p, p.actions(id), more, st0);
      var r := Act(p, p.actions(id), more, st0);
      if r.Done? && (p.isType(id) || id !in r.st.known) {
        hide Resolve, Act, PutBy, Queued;
        assert OwnerOf(more) == Instance(id);
        MadeOnce(p, id, st, st0, r.st);
      }
    }
  }

  lemma {:induction false} MadeOnce(p: Program, id: Id, st: State, st0: State, st1: State)
    requires id !in st.known && st0 == (if p.isType(id) then Know(st, id) else st) && (p.isType(id) || id !in st1.known)
    requires AddsOwn(p, st0, st1, Instance(id), Queued(p.actions(id)))
    ensures AddsNew(p, st, Know(st1, id))
  {
    hide PutBy, Queued;
    var st2 := Know(st1, id);
    forall o
      ensures PutBy(st2.items, o) == PutBy(st.items, o) + OwnFunctions(p, o, st, st2)
    {
      assert !(o == Instance(id) && IsNew(o, st0, st1));
      assert o != Instance(id) ==> (IsNew(o, st, st2) <==> IsNew(o, st0, st1));
    }
  }

  lemma {:induction false} ActOnce(p: Program, actions: seq<Action>, chain: seq<Id>, st: State)
    ensures var r := Act(p, actions, chain, st); r.Done? ==> AddsOwn(p, st, r.st, OwnerOf(chain), Queued(actions))
    decreases MAX_DEPTH - |chain|, 1, |actions|
  {
    if actions == [] {
      NothingAdded(p, st, OwnerOf(chain));
    } else {
      var a := actions[0];
      var r := if a.Queue? then Done(Enqueue(st, a.fn, chain)) else Resolve(p, a.id, chain, st);
      if r.Done? {
        if a.Instantiate? {
          ResolveOnce(p, a.id, chain, st);
        }
        ActOnce(p, actions[1..], chain, r.st);
        var r1 := Act(p, actions[1..], chain, r.st);
        if r1.Done? {
          hide Resolve, PutBy, AddsOwn, AddsNew;
          if a.Queue? {
            OwnAfterQueue(p, st, a.fn, chain, r1.st, Queued(actions[1..]));
          } else {
            OwnAfterNew(p, st, r.st, r1.st, OwnerOf(chain), Queued(actions[1..]));
            assert [] + Queued(actions[1..]) == Queued(actions[1..]);
          }
        }
      }
    }
  }

  lemma {:induction false} NothingAdded(p: Program, st: State, owner: Owner)
    ensures AddsOwn(p, st, st, owner, []) && AddsNew(p, st, st)
  {
  }

  lemma {:induction false} CompleteOnce(p: Program, ids: seq<Id>, chain: seq<Id>, st: State)
    ensures var r := Complete(p, ids, chain, st); r.Done? ==> AddsNew(p, st, r.st)
    decreases |ids|
  {
    if ids == [] {
      NothingAdded(p, st, Module);
    } else {
      ResolveOnce(p, ids[0], chain, st);
      var r := Resolve(p, ids[0], chain, st);
      if r.Done? {
        CompleteOnce(p, ids[1..], chain, r.st);
        var r1 := Complete(p, ids[1..], chain, r.st);
        if r1.Done? {
          hide Resolve, AddsNew;
          AddsTwice(p, st, r.st, r1.st);
        }
      }
    }
  }

  lemma {:induction false} WalkOnce(p: Program, st: State, i: nat)
    requires i <= |st.items| && Shallow(st.items)
    ensures var r := Walk(p, st, i); r.Done? ==> AddsNew(p, st, r.st)
    decreases Pending(st.items[i..], 0), Pending(st.items[i..], 1), Pending(st.items[i..], 2), Pending(st.items[i..], 3),
              Pending(st.items[i..], 4), Pending(st.items[i..], 5), Pending(st.items[i..], 6), Pending(st.items[i..], 7),
              Pending(st.items[i..], 8), Pending(st.items[i..], 9), Pending(st.items[i..], 10), Pending(st.items[i..], 11),
              Pending(st.items[i..], 12), Pending(st.items[i..], 13), Pending(st.items[i..], 14), Pending(st.items[i..], 15),
              Pending(st.items[i..], 16)
  {
    hide AddsNew;
    if i == |st.items| {
      NothingAdded(p, st, Module);
    } else {
      var item := st.items[i];
      CompleteOnce(p, p.body(item.fn), item.chain, st);
      var r := Complete(p, p.body(item.fn), item.chain, st);
      if r.Done? {
        StepDrops(p, st, i);
        WalkOnce(p, r.st, i + 1);
        var r1 := Walk(p, r.st, i + 1);
        if r1.Done? {
          AddsTwice(p, st, r.st, r1.st);
        }
      }
    }
  }

  /** After a success the list has, for each instance that was made, the functions that it puts there, once each and in
      order; for the module those of its declarations; and no others. */
  lemma {:induction false} MadeExactlyOnce(p: Program)
    requires Run(p).Done?
    ensures var st := Run(p).st;
            PutBy(st.items, Module) == Queued(p.top) &&
            forall id :: PutBy(st.items, Instance(id)) == if id in st.known then Queued(p.actions(id)) else []
  {
    var empty := State({}, []);
    ActOnce(p, p.top, [], empty);
    ActGrows(p, p.top, [], empty);
    var r := Act(p, p.top, [], empty);
    StartShallow(r.st);
    WalkOnce(p, r.st, 0);
    var st := Run(p).st;
    hide Run, Act, Walk, Queued;
    OwnThenNew(p, empty, r.st, st, Queued(p.top));
    forall id
      ensures PutBy(st.items, Instance(id)) == if id in st.known then Queued(p.actions(id)) else []
    {
      assert PutBy(empty.items, Instance(id)) == [];
      assert OwnFunctions(p, Instance(id), empty, st) == if id in st.known then Queued(p.actions(id)) else [];
      assert [] + OwnFunctions(p, Instance(id), empty, st) == OwnFunctions(p, Instance(id), empty, st);
    }
  }

  lemma {:induction false} OwnThenNew(p: Program, a: State, b: State, c: State, own: seq<Fn>)
    requires AddsOwn(p, a, b, Module, own) && AddsNew(p, b, c)
    ensures PutBy(c.items, Module) == PutBy(a.items, Module) + own
    ensures forall id :: PutBy(c.items, Instance(id)) == PutBy(a.items, Instance(id)) + OwnFunctions(p, Instance(id), a, c)
  {
    hide PutBy, Queued;
    assert OwnFunctions(p, Module, b, c) == [];
    forall id
      ensures PutBy(c.items, Instance(id)) == PutBy(a.items, Instance(id)) + OwnFunctions(p, Instance(id), a, c)
    {
      var o := Instance(id);
      assert PutBy(b.items, o) == PutBy(a.items, o) + OwnFunctions(p, o, a, b);
    }
  }

  // ---------- Instances that are made while they are being made ----------

  /** A chain of signatures and members, each instance asking for the next. */
  ghost predicate IsLink(p: Program, path: seq<Id>) {
    |path| >= 2 && forall m :: 0 <= m < |path| - 1 ==> Instantiate(path[m + 1]) in p.actions(path[m])
  }

  ghost predicate LinksTo(p: Program, a: Id, b: Id) {
    exists path :: IsLink(p, path) && path[0] == a && path[|path| - 1] == b
  }

  /** `x` is asked for among the actions, or below what is. */
  ghost predicate Under(p: Program, actions: seq<Action>, x: Id) {
    exists y :: Instantiate(y) in actions && (x == y || LinksTo(p, y, x))
  }

  lemma {:induction false} UnderActions(p: Program, id: Id, x: Id)
    requires Under(p, p.actions(id), x)
    ensures LinksTo(p, id, x)
  {
    var y :| Instantiate(y) in p.actions(id) && (x == y || LinksTo(p, y, x));
    if x == y {
      assert IsLink(p, [id, x]);
    } else {
      var path :| IsLink(p, path) && path[0] == y && path[|path| - 1] == x;
      var more := [id] + path;
      forall m | 0 <= m < |more| - 1
        ensures Instantiate(more[m + 1]) in p.actions(more[m])
      {
        if m > 0 {
          assert Instantiate(path[m - 1 + 1]) in p.actions(path[m - 1]);
        }
      }
      assert IsLink(p, more);
    }
  }

  /** What becomes known, and what is made twice, comes from what is asked for. */
  ghost predicate FromActions(p: Program, actions: seq<Action>, st: State, r: Outcome) {
    match r
    case Done(st1) => forall x :: x in st1.known && x !in st.known ==> Under(p, actions, x)
    case Redeclared(id) => !p.isType(id) && LinksTo(p, id, id)
    case TooDeep(_) => true
  }

  lemma {:induction false} ResolveFrom(p: Program, id: Id, chain: seq<Id>, st: State)
    ensures FromActions(p, [Instantiate(id)], st, Resolve(p, id, chain, st))
    decreases MAX_DEPTH - |chain|, 0, 0
  {
    if id !in st.known && |chain| + 1 <= MAX_DEPTH {
      var st0 := if p.isType(id) then Know(st, id) else st;
      ActFrom(p, p.actions(id), chain + [id], st0);
      var r := Act(p, p.actions(id), chain + [id], st0);
      if r.Done? {
        forall x | x in r.st.known && x !in st0.known
          ensures LinksTo(p, id, x)
        {
          UnderActions(p, id, x);
        }
        assert Instantiate(id) in [Instantiate(id)];
      }
      hide LinksTo;
    }
  }

  lemma {:induction false} ActFrom(p: Program, actions: seq<Action>, chain: seq<Id>, st: State)
    ensures FromActions(p, actions, st, Act(p, actions, chain, st))
    decreases MAX_DEPTH - |chain|, 1, |actions|
  {
    hide LinksTo;
    if actions != [] {
      var a := actions[0];
      var r := if a.Queue? then Done(Enqueue(st, a.fn, chain)) else Resolve(p, a.id, chain, st);
      if a.Instantiate? {
        ResolveFrom(p, a.id, chain, st);
      }
      if r.Done? {
        ActFrom(p, actions[1..], chain, r.st);
        assert actions == [a] + actions[1..];
        UnderMore(p, a, actions[1..]);
      }
    }
  }

  lemma {:induction false} UnderMore(p: Program, a: Action, rest: seq<Action>)
    ensures forall x :: Under(p, [a], x) || Under(p, rest, x) ==> Under(p, [a] + rest, x)
  {
    hide LinksTo;
    forall x | Under(p, [a], x) || Under(p, rest, x)
      ensures Under(p, [a] + rest, x)
    {
      var y :| (Instantiate(y) in [a] || Instantiate(y) in rest) && (x == y || LinksTo(p, y, x));
      assert Instantiate(y) in [a] + rest;
    }
  }

  lemma {:induction false} CompleteFrom(p: Program, ids: seq<Id>, chain: seq<Id>, st: State)
    ensures var r := Complete(p, ids, chain, st); r.Redeclared? ==> !p.isType(r.id) && LinksTo(p, r.id, r.id)
    decreases |ids|
  {
    hide LinksTo;
    if ids != [] {
      ResolveFrom(p, ids[0], chain, st);
      var r := Resolve(p, ids[0], chain, st);
      if r.Done? {
        CompleteFrom(p, ids[1..], chain, r.st);
      }
    }
  }

  lemma {:induction false} WalkFrom(p: Program, st: State, i: nat)
    requires i <= |st.items| && Shallow(st.items)
    ensures var r := Walk(p, st, i); r.Redeclared? ==> !p.isType(r.id) && LinksTo(p, r.id, r.id)
    decreases Pending(st.items[i..], 0), Pending(st.items[i..], 1), Pending(st.items[i..], 2), Pending(st.items[i..], 3),
              Pending(st.items[i..], 4), Pending(st.items[i..], 5), Pending(st.items[i..], 6), Pending(st.items[i..], 7),
              Pending(st.items[i..], 8), Pending(st.items[i..], 9), Pending(st.items[i..], 10), Pending(st.items[i..], 11),
              Pending(st.items[i..], 12), Pending(st.items[i..], 13), Pending(st.items[i..], 14), Pending(st.items[i..], 15),
              Pending(st.items[i..], 16)
  {
    hide LinksTo;
    if i < |st.items| {
      var item := st.items[i];
      CompleteFrom(p, p.body(item.fn), item.chain, st);
      var r := Complete(p, p.body(item.fn), item.chain, st);
      if r.Done? {
        StepDrops(p, st, i);
        WalkFrom(p, r.st, i + 1);
      }
    }
  }

  /** An instance is only declared twice when it is a function instance that can be reached, and signatures and members
      lead back to it. */
  lemma {:induction false} RedeclaredIsLoop(p: Program)
    requires Run(p).Redeclared?
    ensures !p.isType(Run(p).id) && LinksTo(p, Run(p).id, Run(p).id) && Reachable(p, Run(p).id)
  {
    hide LinksTo;
    RunEnds(p);
    var empty := State({}, []);
    ActFrom(p, p.top, [], empty);
    ActGrows(p, p.top, [], empty);
    var r := Act(p, p.top, [], empty);
    if r.Done? {
      StartShallow(r.st);
      WalkFrom(p, r.st, 0);
    }
    var id := Run(p).id;
    var chain :| IsChain(p, chain) && 0 < |chain| <= MAX_DEPTH && chain[|chain| - 1] == id;
    assert Reachable(p, id);
  }

  lemma {:induction false} ChainAlong(p: Program, chain: seq<Id>, path: seq<Id>, n: nat)
    requires IsChain(p, chain) && chain != [] && IsLink(p, path) && chain[|chain| - 1] == path[0] && 1 <= n <= |path|
    ensures IsChain(p, chain + path[1..n])
    decreases n
  {
    hide IsChain, Asks;
    if n == 1 {
      assert chain + path[1..1] == chain;
    } else {
      ChainAlong(p, chain, path, n - 1);
      LinkAsks(p, chain, path, n - 2);
      ChainMore(p, chain + path[1..n - 1], path[n - 1]);
      assert chain + path[1..n - 1] + [path[n - 1]] == chain + path[1..n];
    }
  }

  lemma {:induction false} LinkAsks(p: Program, chain: seq<Id>, path: seq<Id>, m: nat)
    requires chain != [] && IsLink(p, path) && chain[|chain| - 1] == path[0] && m < |path| - 1
    ensures Asks(p, chain + path[1..m + 1], path[m + 1])
  {
    var c := chain + path[1..m + 1];
    assert c[|c| - 1] == path[m];
    assert Instantiate(path[m + 1]) in p.actions(path[m]);
  }

  /** Going around a loop makes chains of any length. */
  lemma {:induction false} LongChain(p: Program, id: Id, n: nat) returns (chain: seq<Id>)
    requires Reachable(p, id) && LinksTo(p, id, id)
    ensures IsChain(p, chain) && |chain| > n && chain[|chain| - 1] == id
    decreases n
  {
    hide Reachable, LinksTo, IsChain;
    if n == 0 {
      chain := SomeChain(p, id);
    } else {
      var c := LongChain(p, id, n - 1);
      chain := OnceAround(p, id, c);
    }
  }

  lemma {:induction false} SomeChain(p: Program, id: Id) returns (chain: seq<Id>)
    requires Reachable(p, id)
    ensures IsChain(p, chain) && chain != [] && chain[|chain| - 1] == id
  {
    hide IsChain;
    chain :| IsChain(p, chain) && chain != [] && chain[|chain| - 1] == id;
  }

  lemma {:induction false} OnceAround(p: Program, id: Id, chain: seq<Id>) returns (more: seq<Id>)
    requires LinksTo(p, id, id) && IsChain(p, chain) && chain != [] && chain[|chain| - 1] == id
    ensures IsChain(p, more) && |more| > |chain| && more[|more| - 1] == id
  {
    var path :| IsLink(p, path) && path[0] == id && path[|path| - 1] == id;
    assert |path| >= 2;
    hide IsChain, IsLink;
    ChainAlong(p, chain, path, |path|);
    more := chain + path[1..|path|];
  }

  /** A program without a chain that is too long is resolved. */
  lemma {:induction false} ShortChainsSucceed(p: Program)
    requires forall chain :: IsChain(p, chain) ==> |chain| <= MAX_DEPTH
    ensures Run(p).Done?
  {
    RunEnds(p);
    if Run(p).Redeclared? {
      RedeclaredIsLoop(p);
      var chain := LongChain(p, Run(p).id, MAX_DEPTH);
    }
  }

  /** The order of the requests decides: a function instance whose signature needs a struct that needs the function is made
      twice when it is asked for first, and once when the struct is. */
  lemma {:induction false} OrderOfRequests(f: Program, s: Program)
    requires f.top == [Instantiate(0)] && s.top == [Instantiate(1)]
    requires forall p :: p == f || p == s ==>
               p.actions(0) == [Instantiate(1), Queue(0)] && p.actions(1) == [Instantiate(0)] && !p.isType(0) &&
               p.isType(1) && p.body(0) == []
    ensures Run(f) == Redeclared(0) && Run(s).Done?
  {
    FunctionFirst(f);
    StructFirst(s);
  }

  lemma {:induction false} FunctionFirst(p: Program)
    requires p.top == [Instantiate(0)] && p.actions(0) == [Instantiate(1), Queue(0)] && p.actions(1) == [Instantiate(0)]
    requires !p.isType(0) && p.isType(1)
    ensures Run(p) == Redeclared(0)
  {
    var empty, st1, st2 := State({}, []), State({1}, []), State({1}, [Item(0, [0, 1, 0])]);
    assert [] + [0] == [0] && [0] + [1] == [0, 1] && [0, 1] + [0] == [0, 1, 0];
    assert p.actions(0)[1..] == [Queue(0)] && [Queue(0)][1..] == [] && p.actions(1)[1..] == [] && p.top[1..] == [];
    assert Resolve(p, 1, [0, 1, 0], st1) == Done(st1);
    assert Act(p, [Queue(0)], [0, 1, 0], st1) == Done(st2) by {
      assert Act(p, [], [0, 1, 0], st2) == Done(st2);
    }
    assert Act(p, p.actions(0), [0, 1, 0], st1) == Done(st2);
    var st3 := Know(st2, 0);
    assert Resolve(p, 0, [0, 1], st1) == Done(st3);
    assert Act(p, p.actions(1), [0, 1], st1) == Done(st3) by {
      assert Act(p, [], [0, 1], st3) == Done(st3);
    }
    assert Know(empty, 1) == st1;
    assert Resolve(p, 1, [0], empty) == Done(Know(st3, 1));
    assert Know(st3, 1) == st3;
    var st4 := Enqueue(st3, 0, [0]);
    assert Act(p, [Queue(0)], [0], st3) == Done(st4) by {
      assert Act(p, [], [0], st4) == Done(st4);
    }
    assert Act(p, p.actions(0), [0], empty) == Done(st4);
    assert Resolve(p, 0, [], empty) == Redeclared(0);
    assert Act(p, p.top, [], empty) == Redeclared(0);
  }

  lemma {:induction false} StructFirst(p: Program)
    requires p.top == [Instantiate(1)] && p.actions(0) == [Instantiate(1), Queue(0)] && p.actions(1) == [Instantiate(0)]
    requires !p.isType(0) && p.isType(1) && p.body(0) == []
    ensures Run(p).Done?
  {
    var empty, st1, st2 := State({}, []), State({1}, []), State({1}, [Item(0, [1, 0])]);
    assert [] + [1] == [1] && [1] + [0] == [1, 0];
    assert p.actions(0)[1..] == [Queue(0)] && [Queue(0)][1..] == [] && p.actions(1)[1..] == [] && p.top[1..] == [];
    assert Resolve(p, 1, [1, 0], st1) == Done(st1);
    assert Act(p, [Queue(0)], [1, 0], st1) == Done(st2) by {
      assert Act(p, [], [1, 0], st2) == Done(st2);
    }
    assert Act(p, p.actions(0), [1, 0], st1) == Done(st2);
    var st3 := Know(st2, 0);
    assert Resolve(p, 0, [1], st1) == Done(st3);
    assert Act(p, p.actions(1), [1], st1) == Done(st3) by {
      assert Act(p, [], [1], st3) == Done(st3);
    }
    assert Know(empty, 1) == st1 && Know(st3, 1) == st3;
    assert Resolve(p, 1, [], empty) == Done(st3);
    assert Act(p, p.top, [], empty) == Done(st3) by {
      assert Act(p, [], [], st3) == Done(st3);
    }
    assert Complete(p, p.body(0), [1, 0], st3) == Done(st3);
    StepDrops(p, st3, 0);
    assert Walk(p, st3, 1) == Done(st3);
  }
}
