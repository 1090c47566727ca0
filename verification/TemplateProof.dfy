// What the walk arrives at: every instance that is asked for, or a chain that is too long.

module TemplateProof {
  import opened Templates
  import opened TemplateWalk

  // ---------- Who asks for what ----------

  ghost function ActionsOf(p: Program, chain: seq<Id>): seq<Action> {
    if chain == [] then p.top else p.actions(chain[|chain| - 1])
  }

  /** The innermost instance of the chain asks for `id`, itself or in the body of a function that it queues. */
  ghost predicate Asks(p: Program, chain: seq<Id>, id: Id) {
    var actions := ActionsOf(p, chain);
    Instantiate(id) in actions || exists fn :: Queue(fn) in actions && id in p.body(fn)
  }

  ghost predicate IsChain(p: Program, chain: seq<Id>) {
    forall k :: 0 <= k < |chain| ==> Asks(p, chain[..k], chain[k])
  }

  ghost predicate Reachable(p: Program, id: Id) {
    exists chain :: IsChain(p, chain) && chain != [] && chain[|chain| - 1] == id
  }

  ghost predicate ReachableWithin(p: Program, id: Id) {
    exists chain :: IsChain(p, chain) && 0 < |chain| <= MAX_DEPTH && chain[|chain| - 1] == id
  }

  lemma {:induction false} ChainMore(p: Program, chain: seq<Id>, id: Id)
    requires IsChain(p, chain) && Asks(p, chain, id)
    ensures IsChain(p, chain + [id])
  {
    var more := chain + [id];
    forall k | 0 <= k < |more|
      ensures Asks(p, more[..k], more[k])
    {
      if k < |chain| {
        assert more[..k] == chain[..k];
      } else {
        assert more[..k] == chain;
      }
    }
  }

  // ---------- What every step keeps ----------

  ghost predicate ItemOk(p: Program, item: Item) {
    IsChain(p, item.chain) && |item.chain| <= MAX_DEPTH && Queue(item.fn) in ActionsOf(p, item.chain)
  }

  /** What an action asks for is there. */
  ghost predicate Served(a: Action, st: State) {
    match a
    case Instantiate(id) => id in st.known
    case Queue(fn) => exists item :: item in st.items && item.fn == fn
  }

  ghost predicate AllServed(actions: seq<Action>, st: State) {
    forall a :: a in actions ==> Served(a, st)
  }

  /** Known instances are reachable and, those in the making apart, have what they ask for. */
  ghost predicate Inv(p: Program, st: State, making: set<Id>) {
    (forall item :: item in st.items ==> ItemOk(p, item)) &&
    (forall id :: id in st.known ==> ReachableWithin(p, id)) &&
    forall id :: id in st.known && id !in making ==> AllServed(p.actions(id), st)
  }

  ghost predicate Keeps(p: Program, st: State, making: set<Id>, r: Outcome) {
    match r
    case Done(st1) => Inv(p, st1, making) && st.known <= st1.known && st.items <= st1.items
    case TooDeep(chain) => IsChain(p, chain) && |chain| == MAX_DEPTH + 1
    case Redeclared(id) => ReachableWithin(p, id)
  }

  lemma {:induction false} ServedStill(a: Action, st: State, st1: State)
    requires Served(a, st) && st.known <= st1.known && st.items <= st1.items
    ensures Served(a, st1)
  {
    if a.Queue? {
      var item :| item in st.items && item.fn == a.fn;
      assert item in st1.items;
    }
  }

  lemma {:induction false} AllServedStill(actions: seq<Action>, st: State, st1: State)
    requires AllServed(actions, st) && st.known <= st1.known && st.items <= st1.items
    ensures AllServed(actions, st1)
  {
    forall a | a in actions
      ensures Served(a, st1)
    {
      ServedStill(a, st, st1);
    }
  }

  lemma {:induction false} KnowKeeps(p: Program, st: State, making: set<Id>, id: Id, chain: seq<Id>)
    requires Inv(p, st, making) && IsChain(p, chain + [id]) && |chain| + 1 <= MAX_DEPTH
    ensures Inv(p, Know(st, id), making + {id})
    ensures AllServed(p.actions(id), st) ==> Inv(p, Know(st, id), making - {id})
    ensures AllServed(p.actions(id), st) && id !in making ==> Inv(p, Know(st, id), making)
  {
    var st1 := Know(st, id);
    assert (chain + [id])[|chain|] == id;
    assert ReachableWithin(p, id);
    forall x | x in st.known && x !in making
      ensures AllServed(p.actions(x), st1)
    {
      AllServedStill(p.actions(x), st, st1);
    }
    if AllServed(p.actions(id), st) {
      AllServedStill(p.actions(id), st, st1);
    }
  }

  lemma {:induction false} ResolveKeeps(p: Program, id: Id, chain: seq<Id>, st: State, making: set<Id>)
    requires Inv(p, st, making) && IsChain(p, chain) && |chain| <= MAX_DEPTH && Asks(p, chain, id)
    ensures Keeps(p, st, making, Resolve(p, id, chain, st))
    ensures var r := Resolve(p, id, chain, st); r.Done? ==> id in r.st.known
    decreases MAX_DEPTH - |chain|, 0, 0
  {
    ChainMore(p, chain, id);
    if id !in st.known && |chain| + 1 <= MAX_DEPTH {
      hide Inv, IsChain, Asks;
      var st0 := if p.isType(id) then Know(st, id) else st;
      InProgress(p, st, making, id, chain);
      var more := chain + [id];
      assert ActionsOf(p, more) == p.actions(id);
      ActKeeps(p, p.actions(id), 0, more, st0, making + {id});
      var r := Act(p, p.actions(id), more, st0);
      if r.Done? {
        Finished(p, r.st, making, id, chain);
      }
      MadeWithin(p, id, chain);
    }
  }

  lemma {:induction false} MadeWithin(p: Program, id: Id, chain: seq<Id>)
    requires IsChain(p, chain + [id]) && |chain| + 1 <= MAX_DEPTH
    ensures ReachableWithin(p, id)
  {
    assert (chain + [id])[|chain|] == id;
  }

  lemma {:induction false} InProgress(p: Program, st: State, making: set<Id>, id: Id, chain: seq<Id>)
    requires Inv(p, st, making) && IsChain(p, chain + [id]) && |chain| + 1 <= MAX_DEPTH
    ensures Inv(p, st, making + {id}) && Inv(p, Know(st, id), making + {id})
  {
    KnowKeeps(p, st, making, id, chain);
  }

  lemma {:induction false} Finished(p: Program, st: State, making: set<Id>, id: Id, chain: seq<Id>)
    requires Inv(p, st, making + {id}) && AllServed(p.actions(id), st) && IsChain(p, chain + [id]) &&
             |chain| + 1 <= MAX_DEPTH
    ensures Inv(p, Know(st, id), making)
  {
    KnowKeeps(p, st, making + {id}, id, chain);
    var st1 := Know(st, id);
    AllServedStill(p.actions(id), st, st1);
    forall x | x in st1.known && x !in making
      ensures AllServed(p.actions(x), st1)
    {
      if x != id {
        assert x !in making + {id};
      }
    }
  }

  /** The actions from the k-th one on. */
  lemma {:induction false} ActKeeps(p: Program, actions: seq<Action>, k: nat, chain: seq<Id>, st: State,
                                    making: set<Id>)
    requires Inv(p, st, making) && IsChain(p, chain) && |chain| <= MAX_DEPTH
    requires actions == ActionsOf(p, chain) && k <= |actions| && AllServed(actions[..k], st)
    ensures Keeps(p, st, making, Act(p, actions[k..], chain, st))
    ensures var r := Act(p, actions[k..], chain, st); r.Done? ==> AllServed(actions, r.st)
    decreases MAX_DEPTH - |chain|, 1, |actions| - k
  {
    if k == |actions| {
      assert actions[k..] == [] && actions[..k] == actions;
    } else {
      var a := actions[k];
      assert actions[k..][0] == a && actions[k..][1..] == actions[k + 1..] && a in actions;
      var r := if a.Queue? then Done(Enqueue(st, a.fn, chain)) else Resolve(p, a.id, chain, st);
      if a.Queue? {
        EnqueueKeeps(p, st, making, a.fn, chain);
      } else {
        assert Asks(p, chain, a.id);
        ResolveKeeps(p, a.id, chain, st, making);
      }
      if r.Done? {
        hide Inv, IsChain, Asks;
        OneMoreServed(actions, k, st, r.st);
        ActKeeps(p, actions, k + 1, chain, r.st, making);
      }
    }
  }

  lemma {:induction false} OneMoreServed(actions: seq<Action>, k: nat, st: State, st1: State)
    requires k < |actions| && AllServed(actions[..k], st) && Served(actions[k], st1)
    requires st.known <= st1.known && st.items <= st1.items
    ensures AllServed(actions[..k + 1], st1)
  {
    AllServedStill(actions[..k], st, st1);
    assert actions[..k + 1] == actions[..k] + [actions[k]];
  }

  lemma {:induction false} EnqueueKeeps(p: Program, st: State, making: set<Id>, fn: Fn, chain: seq<Id>)
    requires Inv(p, st, making) && IsChain(p, chain) && |chain| <= MAX_DEPTH && Queue(fn) in ActionsOf(p, chain)
    ensures Keeps(p, st, making, Done(Enqueue(st, fn, chain))) && Served(Queue(fn), Enqueue(st, fn, chain))
  {
    var st1 := Enqueue(st, fn, chain);
    assert forall item :: item in st1.items <==> item in st.items || item == Item(fn, chain);
    assert Item(fn, chain) in st1.items;
    forall x | x in st.known && x !in making
      ensures AllServed(p.actions(x), st1)
    {
      AllServedStill(p.actions(x), st, st1);
    }
  }

  lemma {:induction false} CompleteKeeps(p: Program, item: Item, k: nat, st: State)
    requires Inv(p, st, {}) && ItemOk(p, item) && k <= |p.body(item.fn)|
    requires forall id :: id in p.body(item.fn)[..k] ==> id in st.known
    ensures Keeps(p, st, {}, Complete(p, p.body(item.fn)[k..], item.chain, st))
    ensures var r := Complete(p, p.body(item.fn)[k..], item.chain, st);
            r.Done? ==> forall id :: id in p.body(item.fn) ==> id in r.st.known
    decreases |p.body(item.fn)| - k
  {
    var ids := p.body(item.fn);
    if k == |ids| {
      assert ids[k..] == [] && ids[..k] == ids;
    } else {
      assert ids[k..][0] == ids[k] && ids[k..][1..] == ids[k + 1..] && ids[k] in ids;
      ResolveKeeps(p, ids[k], item.chain, st, {});
      var r := Resolve(p, ids[k], item.chain, st);
      if r.Done? {
        assert ids[..k + 1] == ids[..k] + [ids[k]];
        CompleteKeeps(p, item, k + 1, r.st);
      }
    }
  }

  // ---------- The whole run ----------

  /** The bodies of the first `n` functions have what they ask for. */
  ghost predicate Completed(p: Program, st: State, n: nat)
    requires n <= |st.items|
  {
    forall i :: 0 <= i < n ==> BodyKnown(p, st.items[i].fn, st)
  }

  ghost predicate BodyKnown(p: Program, fn: Fn, st: State) {
    forall id :: id in p.body(fn) ==> id in st.known
  }

  ghost predicate Closed(p: Program, st: State) {
    Inv(p, st, {}) && Completed(p, st, |st.items|)
  }

  ghost predicate Ends(p: Program, st: State, r: Outcome) {
    match r
    case Done(st1) => Closed(p, st1) && st.known <= st1.known && st.items <= st1.items
    case TooDeep(chain) => IsChain(p, chain) && |chain| == MAX_DEPTH + 1
    case Redeclared(id) => ReachableWithin(p, id)
  }

  lemma {:induction false} WalkEnds(p: Program, st: State, i: nat)
    requires i <= |st.items| && Shallow(st.items) && Inv(p, st, {}) && Completed(p, st, i)
    ensures Ends(p, st, Walk(p, st, i))
    decreases Pending(st.items[i..], 0), Pending(st.items[i..], 1), Pending(st.items[i..], 2), Pending(st.items[i..], 3),
              Pending(st.items[i..], 4), Pending(st.items[i..], 5), Pending(st.items[i..], 6), Pending(st.items[i..], 7),
              Pending(st.items[i..], 8), Pending(st.items[i..], 9), Pending(st.items[i..], 10), Pending(st.items[i..], 11),
              Pending(st.items[i..], 12), Pending(st.items[i..], 13), Pending(st.items[i..], 14), Pending(st.items[i..], 15),
              Pending(st.items[i..], 16)
  {
    hide Inv, IsChain;
    if i < |st.items| {
      var item := st.items[i];
      var ids := p.body(item.fn);
      ItemsOk(p, st, item);
      assert ids[0..] == ids;
      CompleteKeeps(p, item, 0, st);
      var r := Complete(p, ids, item.chain, st);
      if r.Done? {
        StepDrops(p, st, i);
        assert r.st.items[i] == item;
        assert BodyKnown(p, item.fn, r.st);
        forall j | 0 <= j < i + 1
          ensures BodyKnown(p, r.st.items[j].fn, r.st)
        {
          if j < i {
            assert r.st.items[j] == st.items[j] && BodyKnown(p, st.items[j].fn, st);
          }
        }
        WalkEnds(p, r.st, i + 1);
      }
    }
  }

  lemma {:induction false} ItemsOk(p: Program, st: State, item: Item)
    requires Inv(p, st, {}) && item in st.items
    ensures ItemOk(p, item)
  {
  }

  lemma {:induction false} RunEnds(p: Program)
    ensures match Run(p) {
      case Done(st) => Closed(p, st) && AllServed(p.top, st)
      case TooDeep(chain) => IsChain(p, chain) && |chain| == MAX_DEPTH + 1
      case Redeclared(id) => ReachableWithin(p, id)
    }
  {
    var empty := State({}, []);
    assert p.top[0..] == p.top;
    ActKeeps(p, p.top, 0, [], empty, {});
    ActGrows(p, p.top, [], empty);
    var r := Act(p, p.top, [], empty);
    if r.Done? {
      StartShallow(r.st);
      WalkEnds(p, r.st, 0);
      var r1 := Walk(p, r.st, 0);
      if r1.Done? {
        AllServedStill(p.top, r.st, r1.st);
      }
    }
  }

  /** The run stops only at a chain of more instances than allowed, each asking for the next. */
  lemma {:induction false} StopsAtLongChain(p: Program)
    requires Run(p).TooDeep?
    ensures IsChain(p, Run(p).chain) && |Run(p).chain| == MAX_DEPTH + 1
  {
    RunEnds(p);
  }

  /** After a success the known instances are exactly those that can be reached, each one by a chain within the
      limit, and every function on the list was completed. */
  lemma {:induction false} SuccessIsComplete(p: Program)
    requires Run(p).Done?
    ensures var st := Run(p).st;
            (forall id :: id in st.known <==> Reachable(p, id)) &&
            (forall id :: Reachable(p, id) ==> ReachableWithin(p, id)) &&
            Completed(p, st, |st.items|) && AllServed(p.top, st)
  {
    RunEnds(p);
    var st := Run(p).st;
    forall id | Reachable(p, id)
      ensures id in st.known
    {
      var chain :| IsChain(p, chain) && chain != [] && chain[|chain| - 1] == id;
      ChainKnown(p, st, chain);
    }
  }

  lemma {:induction false} ChainKnown(p: Program, st: State, chain: seq<Id>)
    requires Closed(p, st) && AllServed(p.top, st) && IsChain(p, chain) && chain != []
    ensures chain[|chain| - 1] in st.known
    decreases |chain|
  {
    var n := |chain| - 1;
    var before, id := chain[..n], chain[n];
    assert Asks(p, before, id);
    PrefixChain(p, chain, n);
    hide IsChain, Asks;
    if before != [] {
      ChainKnown(p, st, before);
    }
    AskedIsKnown(p, st, before, id);
  }

  lemma {:induction false} PrefixChain(p: Program, chain: seq<Id>, n: nat)
    requires IsChain(p, chain) && n <= |chain|
    ensures IsChain(p, chain[..n])
  {
    forall k | 0 <= k < n
      ensures Asks(p, chain[..n][..k], chain[..n][k])
    {
      assert chain[..n][..k] == chain[..k];
    }
  }

  lemma {:induction false} AskedIsKnown(p: Program, st: State, chain: seq<Id>, id: Id)
    requires Closed(p, st) && AllServed(p.top, st) && Asks(p, chain, id)
    requires chain != [] ==> chain[|chain| - 1] in st.known
    ensures id in st.known
  {
    assert AllServed(ActionsOf(p, chain), st);
    hide Inv;
    if Instantiate(id) in ActionsOf(p, chain) {
      assert Served(Instantiate(id), st);
    } else {
      var fn :| Queue(fn) in ActionsOf(p, chain) && id in p.body(fn);
      assert Served(Queue(fn), st);
      var item :| item in st.items && item.fn == fn;
      var i :| 0 <= i < |st.items| && st.items[i] == item;
      assert BodyKnown(p, st.items[i].fn, st);
    }
  }

  ghost predicate ReachesOutside(p: Program, s: set<Id>) {
    exists id :: Reachable(p, id) && id !in s
  }

  /** A program that can reach infinitely many instances is always stopped. */
  lemma {:induction false} InfiniteIsStopped(p: Program)
    requires forall s :: ReachesOutside(p, s)
    ensures !Run(p).Done?
  {
    var known := if Run(p).Done? then Run(p).st.known else {};
    assert ReachesOutside(p, known);
    if Run(p).Done? {
      SuccessIsComplete(p);
    }
  }

  // ---------- Long chains that do not stop it ----------

  /** A function instance that calls itself: the second time it is known, so no chain is too long for it. */
  lemma {:induction false} SelfCall()
    ensures var p := Program([Instantiate(0)], _ => [Queue(0)], _ => false, _ => [0]);
            Run(p).Done? && IsChain(p, seq(MAX_DEPTH + 1, _ => 0))
  {
    var p := Program([Instantiate(0)], _ => [Queue(0)], _ => false, _ => [0]);
    RunSelfCall(p);
    var chain := seq(MAX_DEPTH + 1, _ => 0);
    assert Asks(p, [], 0);
    forall k | 0 <= k < |chain|
      ensures Asks(p, chain[..k], chain[k])
    {
      if k > 0 {
        assert Queue(0) in ActionsOf(p, chain[..k]) && 0 in p.body(0);
      }
    }
  }

  lemma {:induction false} RunSelfCall(p: Program)
    requires p.top == [Instantiate(0)] && p.actions(0) == [Queue(0)] && !p.isType(0) && p.body(0) == [0]
    ensures Run(p).Done?
  {
    var empty, st := State({}, []), State({0}, [Item(0, [0])]);
    assert [] + [0] == [0] && [Queue(0)][1..] == [] && p.top[1..] == [] && p.body(0)[1..] == [];
    assert Act(p, p.actions(0), [0], empty) == Done(State({}, [Item(0, [0])])) by {
      assert Act(p, [], [0], Enqueue(empty, 0, [0])) == Done(Enqueue(empty, 0, [0]));
    }
    assert Resolve(p, 0, [], empty) == Done(st);
    assert Act(p, [], [], st) == Done(st);
    assert Act(p, p.top, [], empty) == Done(st);
    assert Complete(p, p.body(0), [0], st) == Done(st) by {
      assert Complete(p, [], [0], st) == Done(st);
    }
    StepDrops(p, st, 0);
    assert Walk(p, st, 1) == Done(st);
  }
}
