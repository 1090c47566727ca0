// Chains that repeat an instance.  An instance of a function template joins the known ones only after its signature
// was resolved, so a signature that leads back to its own instance is followed until the chain is too long.

module TemplateLoops {
  import opened Templates
  import opened TemplateWalk
  import opened TemplateProof

  // ---------- A chain repeats nothing else ----------

  /** From the i-th instance of the chain to the j-th, each is asked for by the signature or the members of the one
      before. */
  ghost predicate Linked(p: Program, chain: seq<Id>, i: nat, j: nat)
    requires i <= j < |chain|
  {
    forall m :: i <= m < j ==> Instantiate(chain[m + 1]) in p.actions(chain[m])
  }

  /** Only a function instance repeats, and only where signatures and members alone lead back to it. */
  ghost predicate RepeatsOnlyLoops(p: Program, chain: seq<Id>) {
    forall i, j :: 0 <= i < j < |chain| && chain[i] == chain[j] ==> !p.isType(chain[i]) && Linked(p, chain, i, j)
  }

  /** What is not yet known on the chain is a function instance whose signature is being resolved. */
  ghost predicate UnknownIsOpen(p: Program, chain: seq<Id>, known: set<Id>) {
    forall k :: 0 <= k < |chain| && chain[k] !in known ==> !p.isType(chain[k]) && Linked(p, chain, k, |chain| - 1)
  }

  ghost predicate ItemSettled(p: Program, item: Item, chain: seq<Id>, known: set<Id>) {
    RepeatsOnlyLoops(p, item.chain) && forall x :: x in item.chain ==> x in known || x in chain
  }

  /** Once the chain is left, the instances that led to a function are known. */
  ghost predicate Settled(p: Program, st: State, chain: seq<Id>) {
    forall item :: item in st.items ==> ItemSettled(p, item, chain, st.known)
  }

  ghost predicate Tidy(p: Program, chain: seq<Id>, st: State) {
    RepeatsOnlyLoops(p, chain) && UnknownIsOpen(p, chain, st.known) && Settled(p, st, chain)
  }

  ghost predicate StaysTidy(p: Program, chain: seq<Id>, st: State, r: Outcome) {
    match r
    case Done(st1) => Tidy(p, chain, st1) && st.known <= st1.known
    case TooDeep(c) => RepeatsOnlyLoops(p, c)
    case Redeclared(_) => true
  }

  ghost predicate AllKnown(chain: seq<Id>, st: State) {
    forall x :: x in chain ==> x in st.known
  }

  /** An instance is asked for in the innermost one of the chain, or in a body once the whole chain is known. */
  ghost predicate Follows(p: Program, chain: seq<Id>, id: Id, st: State) {
    AllKnown(chain, st) || (chain != [] && Instantiate(id) in p.actions(chain[|chain| - 1]))
  }

  lemma {:induction false} LinkedOn(p: Program, chain: seq<Id>, k: nat, id: Id)
    requires k < |chain| && Linked(p, chain, k, |chain| - 1) && Instantiate(id) in p.actions(chain[|chain| - 1])
    ensures Linked(p, chain + [id], k, |chain|)
  {
    var more := chain + [id];
    forall m | k <= m < |chain|
      ensures Instantiate(more[m + 1]) in p.actions(more[m])
    {
    }
  }

  lemma {:induction false} LinkedBefore(p: Program, chain: seq<Id>, i: nat, j: nat, id: Id)
    requires i <= j < |chain| && Linked(p, chain, i, j)
    ensures Linked(p, chain + [id], i, j)
  {
  }

  lemma {:induction false} LongerRepeats(p: Program, id: Id, chain: seq<Id>, st: State)
    requires Tidy(p, chain, st) && Follows(p, chain, id, st) && id !in st.known
    ensures RepeatsOnlyLoops(p, chain + [id])
  {
    var more := chain + [id];
    forall i, j | 0 <= i < j < |more| && more[i] == more[j]
      ensures !p.isType(more[i]) && Linked(p, more, i, j)
    {
      if j < |chain| {
        LinkedBefore(p, chain, i, j, id);
      } else {
        LinkedOn(p, chain, i, id);
      }
    }
  }

  lemma {:induction false} LongerOpen(p: Program, id: Id, chain: seq<Id>, st: State, known: set<Id>)
    requires UnknownIsOpen(p, chain, st.known) && Follows(p, chain, id, st)
    requires st.known <= known && (p.isType(id) ==> id in known)
    ensures UnknownIsOpen(p, chain + [id], known)
  {
    var more := chain + [id];
    forall k | 0 <= k < |more| && more[k] !in known
      ensures !p.isType(more[k]) && Linked(p, more, k, |more| - 1)
    {
      if k < |chain| {
        LinkedOn(p, chain, k, id);
      }
    }
  }

  lemma {:induction false} SettledStill(p: Program, st: State, chain: seq<Id>, known: set<Id>, now: seq<Id>)
    requires Settled(p, st, chain) && st.known <= known && forall x :: x in chain ==> x in now || x in known
    ensures Settled(p, State(known, st.items), now)
  {
    forall item | item in st.items
      ensures ItemSettled(p, item, now, known)
    {
      assert ItemSettled(p, item, chain, st.known);
    }
  }

  lemma {:induction false} OpenStill(p: Program, chain: seq<Id>, known: set<Id>, known1: set<Id>)
    requires UnknownIsOpen(p, chain, known) && known <= known1
    ensures UnknownIsOpen(p, chain, known1)
  {
  }

  lemma {:induction false} ResolveTidy(p: Program, id: Id, chain: seq<Id>, st: State)
    requires |chain| <= MAX_DEPTH && Tidy(p, chain, st) && Follows(p, chain, id, st)
    ensures StaysTidy(p, chain, st, Resolve(p, id, chain, st))
    decreases MAX_DEPTH - |chain|, 0, 0
  {
    if id !in st.known {
      var more, st0 := chain + [id], if p.isType(id) then Know(st, id) else st;
      LongerRepeats(p, id, chain, st);
      if |chain| + 1 <= MAX_DEPTH {
        LongerOpen(p, id, chain, st, st0.known);
        SettledStill(p, st, chain, st0.known, more);
        assert p.actions(more[|more| - 1])[0..] == p.actions(id);
        hide RepeatsOnlyLoops, UnknownIsOpen, Settled;
        ActTidy(p, p.actions(id), 0, more, st0);
        var r := Act(p, p.actions(id), more, st0);
        if r.Done? {
          OpenStill(p, chain, st.known, Know(r.st, id).known);
          SettledStill(p, r.st, more, Know(r.st, id).known, chain);
        }
      }
    }
  }

  lemma {:induction false} ActTidy(p: Program, actions: seq<Action>, k: nat, chain: seq<Id>, st: State)
    requires |chain| <= MAX_DEPTH && Tidy(p, chain, st) && k <= |actions|
    requires chain != [] ==> actions == p.actions(chain[|chain| - 1])
    ensures StaysTidy(p, chain, st, Act(p, actions[k..], chain, st))
    decreases MAX_DEPTH - |chain|, 1, |actions| - k
  {
    hide RepeatsOnlyLoops, UnknownIsOpen;
    if k == |actions| {
      assert actions[k..] == [];
    } else {
      var a := actions[k];
      assert actions[k..][0] == a && actions[k..][1..] == actions[k + 1..] && a in actions;
      var r := if a.Queue? then Done(Enqueue(st, a.fn, chain)) else Resolve(p, a.id, chain, st);
      if a.Queue? {
        assert ItemSettled(p, Item(a.fn, chain), chain, st.known);
      } else {
        ResolveTidy(p, a.id, chain, st);
      }
      if r.Done? {
        ActTidy(p, actions, k + 1, chain, r.st);
      }
    }
  }

  lemma {:induction false} CompleteTidy(p: Program, ids: seq<Id>, chain: seq<Id>, st: State)
    requires |chain| <= MAX_DEPTH && Tidy(p, chain, st) && AllKnown(chain, st)
    ensures StaysTidy(p, chain, st, Complete(p, ids, chain, st))
    decreases |ids|
  {
    hide RepeatsOnlyLoops, UnknownIsOpen, Settled;
    if ids != [] {
      ResolveTidy(p, ids[0], chain, st);
      var r := Resolve(p, ids[0], chain, st);
      if r.Done? {
        CompleteTidy(p, ids[1..], chain, r.st);
      }
    }
  }

  lemma {:induction false} WalkTidy(p: Program, st: State, i: nat)
    requires i <= |st.items| && Shallow(st.items) && Settled(p, st, [])
    ensures Walk(p, st, i).TooDeep? ==> RepeatsOnlyLoops(p, Walk(p, st, i).chain)
    decreases Pending(st.items[i..], 0), Pending(st.items[i..], 1), Pending(st.items[i..], 2), Pending(st.items[i..], 3),
              Pending(st.items[i..], 4), Pending(st.items[i..], 5), Pending(st.items[i..], 6), Pending(st.items[i..], 7),
              Pending(st.items[i..], 8), Pending(st.items[i..], 9), Pending(st.items[i..], 10), Pending(st.items[i..], 11),
              Pending(st.items[i..], 12), Pending(st.items[i..], 13), Pending(st.items[i..], 14), Pending(st.items[i..], 15),
              Pending(st.items[i..], 16)
  {
    if i < |st.items| {
      var item := st.items[i];
      assert ItemSettled(p, item, [], st.known);
      SettledStill(p, st, [], st.known, item.chain);
      hide RepeatsOnlyLoops, Settled;
      CompleteTidy(p, p.body(item.fn), item.chain, st);
      var r := Complete(p, p.body(item.fn), item.chain, st);
      if r.Done? {
        StepDrops(p, st, i);
        SettledStill(p, r.st, item.chain, r.st.known, []);
        WalkTidy(p, r.st, i + 1);
      }
    }
  }

  /** The chain at which the run stops repeats an instance only where signatures and members alone lead back to it. */
  lemma {:induction false} RepetitionIsLoop(p: Program)
    requires Run(p).TooDeep?
    ensures RepeatsOnlyLoops(p, Run(p).chain)
  {
    var empty := State({}, []);
    assert p.top[0..] == p.top;
    ActTidy(p, p.top, 0, [], empty);
    ActGrows(p, p.top, [], empty);
    var r := Act(p, p.top, [], empty);
    if r.Done? {
      StartShallow(r.st);
      WalkTidy(p, r.st, 0);
    }
  }

  // ---------- Such a loop always stops the run ----------

  /** Function instances each of whose signatures asks for one of them. */
  ghost predicate SignatureLoop(p: Program, s: set<Id>) {
    forall x :: x in s ==> !p.isType(x) && exists y :: y in s && Instantiate(y) in p.actions(x)
  }

  lemma {:induction false} ResolveAvoids(p: Program, s: set<Id>, id: Id, chain: seq<Id>, st: State)
    requires SignatureLoop(p, s) && st.known !! s
    ensures var r := Resolve(p, id, chain, st); r.Done? ==> id !in s && r.st.known !! s
    decreases MAX_DEPTH - |chain|, 0, 0
  {
    if id in s {
      LoopMember(p, s, id);
    }
    hide SignatureLoop;
    if id !in st.known && |chain| + 1 <= MAX_DEPTH {
      var st0 := if p.isType(id) then Know(st, id) else st;
      assert st0.known !! s;
      ActAvoids(p, s, p.actions(id), chain + [id], st0);
    }
  }

  lemma {:induction false} LoopMember(p: Program, s: set<Id>, id: Id)
    requires SignatureLoop(p, s) && id in s
    ensures !p.isType(id) && exists y :: y in s && Instantiate(y) in p.actions(id)
  {
  }

  lemma {:induction false} ActAvoids(p: Program, s: set<Id>, actions: seq<Action>, chain: seq<Id>, st: State)
    requires SignatureLoop(p, s) && st.known !! s
    ensures var r := Act(p, actions, chain, st);
            r.Done? ==> r.st.known !! s && forall id :: id in s ==> Instantiate(id) !in actions
    decreases MAX_DEPTH - |chain|, 1, |actions|
  {
    hide SignatureLoop;
    if actions != [] {
      var a := actions[0];
      var r := if a.Queue? then Done(Enqueue(st, a.fn, chain)) else Resolve(p, a.id, chain, st);
      if a.Instantiate? {
        ResolveAvoids(p, s, a.id, chain, st);
      }
      if r.Done? {
        ActAvoids(p, s, actions[1..], chain, r.st);
        assert actions == [a] + actions[1..];
      }
    }
  }

  lemma {:induction false} CompleteAvoids(p: Program, s: set<Id>, ids: seq<Id>, chain: seq<Id>, st: State)
    requires SignatureLoop(p, s) && st.known !! s
    ensures var r := Complete(p, ids, chain, st); r.Done? ==> r.st.known !! s
    decreases |ids|
  {
    hide SignatureLoop;
    if ids != [] {
      ResolveAvoids(p, s, ids[0], chain, st);
      var r := Resolve(p, ids[0], chain, st);
      if r.Done? {
        CompleteAvoids(p, s, ids[1..], chain, r.st);
      }
    }
  }

  lemma {:induction false} WalkAvoids(p: Program, s: set<Id>, st: State, i: nat)
    requires i <= |st.items| && Shallow(st.items) && SignatureLoop(p, s) && st.known !! s
    ensures var r := Walk(p, st, i); r.Done? ==> r.st.known !! s
    decreases Pending(st.items[i..], 0), Pending(st.items[i..], 1), Pending(st.items[i..], 2), Pending(st.items[i..], 3),
              Pending(st.items[i..], 4), Pending(st.items[i..], 5), Pending(st.items[i..], 6), Pending(st.items[i..], 7),
              Pending(st.items[i..], 8), Pending(st.items[i..], 9), Pending(st.items[i..], 10), Pending(st.items[i..], 11),
              Pending(st.items[i..], 12), Pending(st.items[i..], 13), Pending(st.items[i..], 14), Pending(st.items[i..], 15),
              Pending(st.items[i..], 16)
  {
    hide SignatureLoop;
    if i < |st.items| {
      var item := st.items[i];
      CompleteAvoids(p, s, p.body(item.fn), item.chain, st);
      var r := Complete(p, p.body(item.fn), item.chain, st);
      if r.Done? {
        StepDrops(p, st, i);
        WalkAvoids(p, s, r.st, i + 1);
      }
    }
  }

  /** A function instance whose signature leads back to itself, alone or through other function instances, stops the run,
      however few instances there are. */
  lemma {:induction false} SignatureLoopStops(p: Program, s: set<Id>, id: Id)
    requires SignatureLoop(p, s) && id in s && Reachable(p, id)
    ensures !Run(p).Done?
  {
    hide SignatureLoop, Reachable, ReachableWithin, Completed, AllServed, Run;
    RunAvoids(p, s);
    if Run(p).Done? {
      SuccessIsComplete(p);
    }
  }

  lemma {:induction false} RunAvoids(p: Program, s: set<Id>)
    requires SignatureLoop(p, s)
    ensures Run(p).Done? ==> Run(p).st.known !! s
  {
    hide SignatureLoop;
    var empty := State({}, []);
    ActAvoids(p, s, p.top, [], empty);
    ActGrows(p, p.top, [], empty);
    var r := Act(p, p.top, [], empty);
    if r.Done? {
      StartShallow(r.st);
      WalkAvoids(p, s, r.st, 0);
    }
  }

  /** One function instance whose signature mentions itself: the chain is that instance, over and over. */
  lemma {:induction false} OwnSignature(p: Program)
    requires p.top == [Instantiate(0)] && p.actions(0) == [Instantiate(0)] && !p.isType(0)
    ensures Run(p) == TooDeep(seq(MAX_DEPTH + 1, _ => 0)) && |Run(p).chain| == 17
  {
    OwnSignatureStep(p, 0);
    assert seq(0, _ => 0) == [];
  }

  lemma {:induction false} OwnSignatureStep(p: Program, n: nat)
    requires p.actions(0) == [Instantiate(0)] && !p.isType(0) && n <= MAX_DEPTH
    ensures Resolve(p, 0, seq(n, _ => 0), State({}, [])) == TooDeep(seq(MAX_DEPTH + 1, _ => 0))
    decreases MAX_DEPTH - n
  {
    assert seq(n, _ => 0) + [0] == seq(n + 1, _ => 0);
    if n < MAX_DEPTH {
      OwnSignatureStep(p, n + 1);
    }
  }
}
