// The walk over the list of functions ends although it makes the list longer.

module TemplateWalk {
  import opened Templates

  // ---------- New items are deeper ----------

  ghost predicate Deeper(more: seq<Item>, depth: nat) {
    forall i :: 0 <= i < |more| ==> depth <= |more[i].chain| <= MAX_DEPTH
  }

  ghost predicate Grows(st: State, r: Outcome, depth: nat) {
    r.Done? ==> st.known <= r.st.known && st.items <= r.st.items && Deeper(r.st.items[|st.items|..], depth)
  }

  lemma {:induction false} GrowsOn(a: State, b: State, c: Outcome, depth: nat, deeper: nat)
    requires Grows(a, Done(b), depth) && Grows(b, c, deeper) && depth <= deeper
    ensures Grows(a, c, depth)
  {
    if c.Done? {
      var n := |a.items|;
      assert c.st.items[..|b.items|] == b.items;
      forall i | n <= i < |c.st.items|
        ensures depth <= |c.st.items[i].chain| <= MAX_DEPTH
      {
        if i < |b.items| {
          assert b.items[n..][i - n] == c.st.items[i];
        } else {
          assert c.st.items[|b.items|..][i - |b.items|] == c.st.items[i];
        }
      }
      assert a.items == b.items[..n] == c.st.items[..n];
    }
  }

  lemma {:induction false} ResolveGrows(p: Program, id: Id, chain: seq<Id>, st: State)
    requires |chain| <= MAX_DEPTH
    ensures Grows(st, Resolve(p, id, chain, st), |chain| + 1)
    decreases MAX_DEPTH - |chain|, 0, 0
  {
    if id !in st.known && |chain| + 1 <= MAX_DEPTH {
      var st0 := if p.isType(id) then Know(st, id) else st;
      ActGrows(p, p.actions(id), chain + [id], st0);
    }
  }

  lemma {:induction false} ActGrows(p: Program, actions: seq<Action>, chain: seq<Id>, st: State)
    requires |chain| <= MAX_DEPTH
    ensures Grows(st, Act(p, actions, chain, st), |chain|)
    decreases MAX_DEPTH - |chain|, 1, |actions|
  {
    if actions != [] {
      if actions[0].Queue? {
        var st1 := Enqueue(st, actions[0].fn, chain);
        assert st1.items[|st.items|..] == [Item(actions[0].fn, chain)];
        ActGrows(p, actions[1..], chain, st1);
        GrowsOn(st, st1, Act(p, actions[1..], chain, st1), |chain|, |chain|);
      } else {
        ResolveGrows(p, actions[0].id, chain, st);
        var r := Resolve(p, actions[0].id, chain, st);
        if r.Done? {
          ActGrows(p, actions[1..], chain, r.st);
          GrowsOn(st, r.st, Act(p, actions[1..], chain, r.st), |chain|, |chain|);
        }
      }
    }
  }

  /** Completing a function at some depth puts only functions of a greater depth on the list. */
  lemma {:induction false} CompleteGrows(p: Program, ids: seq<Id>, chain: seq<Id>, st: State)
    requires |chain| <= MAX_DEPTH
    ensures Grows(st, Complete(p, ids, chain, st), |chain| + 1)
    decreases |ids|
  {
    if ids != [] {
      ResolveGrows(p, ids[0], chain, st);
      var r := Resolve(p, ids[0], chain, st);
      if r.Done? {
        CompleteGrows(p, ids[1..], chain, r.st);
        GrowsOn(st, r.st, Complete(p, ids[1..], chain, r.st), |chain| + 1, |chain| + 1);
      }
    }
  }

  // ---------- Pending items by depth ----------

  function Pending(items: seq<Item>, depth: nat): nat {
    if items == [] then 0 else (if |items[0].chain| == depth then 1 else 0) + Pending(items[1..], depth)
  }

  lemma {:induction false} PendingJoin(a: seq<Item>, b: seq<Item>, depth: nat)
    ensures Pending(a + b, depth) == Pending(a, depth) + Pending(b, depth)
    decreases |a|
  {
    if a == [] {
      assert a + b == b;
    } else {
      assert (a + b)[0] == a[0] && (a + b)[1..] == a[1..] + b;
      PendingJoin(a[1..], b, depth);
    }
  }

  lemma {:induction false} NonePending(more: seq<Item>, depth: nat, d: nat)
    requires Deeper(more, depth) && d < depth
    ensures Pending(more, d) == 0
    decreases |more|
  {
    if more != [] {
      assert more[0] == more[0];
      assert forall i :: 0 <= i < |more[1..]| ==> more[1..][i] == more[i + 1];
      NonePending(more[1..], depth, d);
    }
  }

  /** The pending counts of the depths up to that of the completed item: the same before it, one less at it. */
  lemma {:induction false} PendingDrops(item: Item, left: seq<Item>, more: seq<Item>, d: nat)
    requires Deeper(more, |item.chain| + 1) && d <= |item.chain|
    ensures Pending(left + more, d) == Pending([item] + left, d) - if d == |item.chain| then 1 else 0
  {
    PendingJoin(left, more, d);
    NonePending(more, |item.chain| + 1, d);
    assert ([item] + left)[1..] == left;
  }

  predicate Shallow(items: seq<Item>) {
    forall i :: 0 <= i < |items| ==> |items[i].chain| <= MAX_DEPTH
  }

  /** One step of the walk, as the vectors of pending counts see it. */
  lemma {:induction false} StepDrops(p: Program, st: State, i: nat)
    requires i < |st.items| && Shallow(st.items)
    requires Complete(p, p.body(st.items[i].fn), st.items[i].chain, st).Done?
    ensures var st1 := Complete(p, p.body(st.items[i].fn), st.items[i].chain, st).st;
            var d := |st.items[i].chain|;
            Shallow(st1.items) && i + 1 <= |st1.items| && d <= MAX_DEPTH &&
            Pending(st1.items[i + 1..], d) < Pending(st.items[i..], d) &&
            forall c: nat :: c < d ==> Pending(st1.items[i + 1..], c) == Pending(st.items[i..], c)
  {
    var item := st.items[i];
    CompleteGrows(p, p.body(item.fn), item.chain, st);
    var st1 := Complete(p, p.body(item.fn), item.chain, st).st;
    var left, more := st.items[i + 1..], st1.items[|st.items|..];
    assert st1.items == st.items + more;
    assert st1.items[i + 1..] == left + more && st.items[i..] == [item] + left;
    forall c: nat | c <= |item.chain|
      ensures Pending(left + more, c) == Pending([item] + left, c) - if c == |item.chain| then 1 else 0
    {
      PendingDrops(item, left, more, c);
    }
    forall k | 0 <= k < |st1.items|
      ensures |st1.items[k].chain| <= MAX_DEPTH
    {
      if k >= |st.items| {
        assert st1.items[k] == more[k - |st.items|];
      }
    }
  }

  // ---------- The whole run ----------

  /** The walk from the i-th item on.  It ends because the pending counts, from depth 0 to the greatest depth, get
      smaller in lexicographic order. */
  function Walk(p: Program, st: State, i: nat): Outcome
    requires i <= |st.items| && Shallow(st.items)
    decreases Pending(st.items[i..], 0), Pending(st.items[i..], 1), Pending(st.items[i..], 2), Pending(st.items[i..], 3),
              Pending(st.items[i..], 4), Pending(st.items[i..], 5), Pending(st.items[i..], 6), Pending(st.items[i..], 7),
              Pending(st.items[i..], 8), Pending(st.items[i..], 9), Pending(st.items[i..], 10), Pending(st.items[i..], 11),
              Pending(st.items[i..], 12), Pending(st.items[i..], 13), Pending(st.items[i..], 14), Pending(st.items[i..], 15),
              Pending(st.items[i..], 16)
  {
    if i == |st.items| then Done(st)
    else
      var r := Complete(p, p.body(st.items[i].fn), st.items[i].chain, st);
      if !r.Done? then r
      else
        StepDrops(p, st, i);
        Walk(p, r.st, i + 1)
  }

  function Run(p: Program): Outcome {
    ActGrows(p, p.top, [], State({}, []));
    var r := Act(p, p.top, [], State({}, []));
    if !r.Done? then r
    else
      StartShallow(r.st);
      Walk(p, r.st, 0)
  }

  lemma {:induction false} StartShallow(st: State)
    requires Grows(State({}, []), Done(st), 0)
    ensures Shallow(st.items)
  {
    assert st.items[0..] == st.items;
  }
}
