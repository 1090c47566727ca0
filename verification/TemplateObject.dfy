// The resolver's list of functions and the linked chain of instances, pushed and popped in place.

module TemplateObject {
  import opened Wrappers
  import opened Templates
  import opened TemplateWalk

  class Link {
    const next: Link?
    const id: Id
    const depth: nat

    constructor (next: Link?, id: Id)
      ensures this.next == next && this.id == id && depth == if next == null then 1 else next.depth + 1
    {
      this.next, this.id := next, id;
      this.depth := if next == null then 1 else next.depth + 1;
    }
  }

  /** The linked list holds the chain, the innermost instance first, and counts its links. */
  ghost predicate IsList(link: Link?, chain: seq<Id>)
    decreases |chain|
  {
    if link == null then chain == []
    else
      chain != [] && link.id == chain[|chain| - 1] && link.depth == |chain| && IsList(link.next, chain[..|chain| - 1])
  }

  lemma {:induction false} ListMore(link: Link, chain: seq<Id>)
    requires IsList(link.next, chain) && link.depth == (if link.next == null then 1 else link.next.depth + 1)
    ensures IsList(link, chain + [link.id])
  {
    assert (chain + [link.id])[..|chain|] == chain;
  }

  datatype Incomplete = Incomplete(fn: Fn, chain: Link?)

  ghost predicate Records(list: seq<Incomplete>, items: seq<Item>) {
    |list| == |items| && forall k :: 0 <= k < |list| ==> list[k].fn == items[k].fn && IsList(list[k].chain, items[k].chain)
  }

  lemma {:induction false} ActsFrom(p: Program, actions: seq<Action>, k: nat, c: seq<Id>, st: State)
    requires k <= |actions|
    ensures Act(p, actions[k..], c, st) ==
              if k == |actions| then Done(st)
              else match (if actions[k].Queue? then Done(Enqueue(st, actions[k].fn, c)) else Resolve(p, actions[k].id, c, st)) {
                case Done(st1) => Act(p, actions[k + 1..], c, st1)
                case failure => failure
              }
  {
    hide Resolve;
    if k < |actions| {
      assert actions[k..][0] == actions[k] && actions[k..][1..] == actions[k + 1..];
    }
  }

  lemma {:induction false} CompletesFrom(p: Program, ids: seq<Id>, k: nat, c: seq<Id>, st: State)
    requires k <= |ids|
    ensures Complete(p, ids[k..], c, st) ==
              if k == |ids| then Done(st)
              else match Resolve(p, ids[k], c, st) {
                case Done(st1) => Complete(p, ids[k + 1..], c, st1)
                case failure => failure
              }
  {
    hide Resolve;
    if k < |ids| {
      assert ids[k..][0] == ids[k] && ids[k..][1..] == ids[k + 1..];
    }
  }

  lemma {:induction false} WalksFrom(p: Program, st: State, i: nat)
    requires i <= |st.items| && Shallow(st.items)
    ensures i == |st.items| ==> Walk(p, st, i) == Done(st)
    ensures i < |st.items| ==>
              var r := Complete(p, p.body(st.items[i].fn), st.items[i].chain, st);
              if !r.Done? then Walk(p, st, i) == r
              else Shallow(r.st.items) && i + 1 <= |r.st.items| && Walk(p, st, i) == Walk(p, r.st, i + 1)
  {
    if i < |st.items| {
      if Complete(p, p.body(st.items[i].fn), st.items[i].chain, st).Done? {
        StepDrops(p, st, i);
      }
    }
  }

  const DEPTH_EXCEEDED := "maximum template instantiation depth exceeded"
  const REDECLARED := "redeclaration"

  class Resolver {
    const p: Program
    var known: set<Id>
    var incomplete: seq<Incomplete>
    var chain: Link?
    ghost var items: seq<Item>

    ghost predicate Valid()
      reads this
    {
      Records(incomplete, items)
    }

    ghost function St(): State
      reads this
    {
      State(known, items)
    }

    constructor (p: Program)
      ensures Valid() && this.p == p && St() == State({}, []) && chain == null
    {
      this.p, known, incomplete, chain, items := p, {}, [], null, [];
    }

    /** The state follows the specification, and a success leaves the chain as it was. */
    twostate predicate Follows(new r: Result<()>, o: Outcome)
      reads this
    {
      match o
      case Done(st) => r.Ok? && Valid() && St() == st && chain == old(chain)
      case TooDeep(_) => r == Fatal(DEPTH_EXCEEDED)
      case Redeclared(_) => r == Fatal(REDECLARED)
    }

    method GetInstance(id: Id, ghost c: seq<Id>) returns (r: Result<()>)
      requires Valid() && IsList(chain, c) && |c| <= MAX_DEPTH
      modifies this
      ensures Follows(r, Resolve(p, id, c, old(St())))
      decreases MAX_DEPTH - |c|, 0
    {
      if id in known {
        return Ok(());
      }
      var link := new Link(chain, id);
      ListMore(link, c);
      if link.depth > MAX_DEPTH {
        return Fatal(DEPTH_EXCEEDED);
      }
      chain := link;
      if p.isType(id) {
        known := known + {id};
      }
      hide Act;
      var _ :- ActAll(p.actions(id), c + [id]);
      if !p.isType(id) && id in known {
        return Fatal(REDECLARED);
      }
      known := known + {id};
      chain := link.next;
      r := Ok(());
    }

    method ActAll(actions: seq<Action>, ghost c: seq<Id>) returns (r: Result<()>)
      requires Valid() && IsList(chain, c) && |c| <= MAX_DEPTH
      modifies this
      ensures Follows(r, Act(p, actions, c, old(St())))
      decreases MAX_DEPTH - |c|, 1
    {
      hide Act, Resolve;
      assert actions[0..] == actions;
      var k := 0;
      while k < |actions|
        invariant 0 <= k <= |actions| && Valid() && chain == old(chain)
        invariant Act(p, actions, c, old(St())) == Act(p, actions[k..], c, St())
      {
        ActsFrom(p, actions, k, c, St());
        match actions[k] {
          case Queue(fn) =>
            incomplete := incomplete + [Incomplete(fn, chain)];
            items := items + [Item(fn, c)];
          case Instantiate(id) =>
            var _ :- GetInstance(id, c);
        }
        k := k + 1;
      }
      ActsFrom(p, actions, k, c, St());
      r := Ok(());
    }

    /** The chain is that of the function while its body is resolved. */
    method CompleteFunction(f: Incomplete, ghost c: seq<Id>) returns (r: Result<()>)
      requires Valid() && IsList(f.chain, c) && |c| <= MAX_DEPTH
      modifies this
      ensures Follows(r, Complete(p, p.body(f.fn), c, old(St())))
    {
      hide Complete, Resolve;
      var saved := chain;
      chain := f.chain;
      var ids := p.body(f.fn);
      assert ids[0..] == ids;
      var k := 0;
      while k < |ids|
        invariant 0 <= k <= |ids| && Valid() && chain == f.chain
        invariant Complete(p, ids, c, old(St())) == Complete(p, ids[k..], c, St())
      {
        CompletesFrom(p, ids, k, c, St());
        var _ :- GetInstance(ids[k], c);
        k := k + 1;
      }
      CompletesFrom(p, ids, k, c, St());
      chain := saved;
      r := Ok(());
    }

    /** The declarations of the module, and then the list, which grows while it is walked. */
    method ResolveModule() returns (r: Result<()>)
      requires Valid() && St() == State({}, []) && chain == null
      modifies this
      ensures Follows(r, Run(p))
    {
      hide Act, Complete, Walk, Shallow, Pending;
      ActGrows(p, p.top, [], St());
      var _ :- ActAll(p.top, []);
      StartShallow(St());
      var i := 0;
      while i < |incomplete|
        invariant 0 <= i <= |incomplete| && Valid() && chain == null && Shallow(St().items)
        invariant Run(p) == Walk(p, St(), i)
        decreases Pending(items[i..], 0), Pending(items[i..], 1), Pending(items[i..], 2), Pending(items[i..], 3),
                  Pending(items[i..], 4), Pending(items[i..], 5), Pending(items[i..], 6), Pending(items[i..], 7),
                  Pending(items[i..], 8), Pending(items[i..], 9), Pending(items[i..], 10), Pending(items[i..], 11),
                  Pending(items[i..], 12), Pending(items[i..], 13), Pending(items[i..], 14), Pending(items[i..], 15),
                  Pending(items[i..], 16)
      {
        WalksFrom(p, St(), i);
        InBounds(items, i);
        ghost var was := St();
        var _ :- CompleteFunction(incomplete[i], items[i].chain);
        StepDrops(p, was, i);
        i := i + 1;
      }
      WalksFrom(p, St(), i);
      r := Ok(());
    }
  }

  lemma {:induction false} InBounds(items: seq<Item>, i: nat)
    requires Shallow(items) && i < |items|
    ensures |items[i].chain| <= MAX_DEPTH
  {
  }
}
