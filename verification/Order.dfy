// The ordering phase: a depth-first walk over the top-level declarations of a module.
//
// A declaration is unordered, being ordered, or ordered.  Structs, unions and enums become ordered
// before their walk is finished, so that they may refer to themselves; everything else that is
// reached again while it is being ordered is a circular dependency.

module Order {
  import opened Wrappers
  import opened Declarations

  datatype Status = Unordered | Ordering | Ordered

  datatype State = State(status: seq<Status>, order: seq<nat>, dependencies: seq<nat>)

  // `Circular` carries the list of dependencies that is reported, and the declaration that closes it.
  datatype Outcome = Done(st: State) | Circular(dependencies: seq<nat>, at: nat) {
    predicate IsFailure() {
      Circular?
    }

    function PropagateFailure(): Outcome
      requires Circular?
    {
      this
    }

    function Extract(): State
      requires Done?
    {
      st
    }
  }

  ghost function UnorderedOnes(st: State): set<nat> {
    set i: nat | i < |st.status| && st.status[i].Unordered?
  }

  /** Orders one top-level declaration, unless it is ordered already. */
  function OrderOne(env: Env, i: nat, st: State): (r: Outcome)
    requires |st.status| == |env.decls|
    ensures r.Done? ==> |r.st.status| == |st.status| && UnorderedOnes(r.st) <= UnorderedOnes(st)
    decreases UnorderedOnes(st), 0
  {
    if i >= |st.status| then Done(st)
    else
      match st.status[i]
      case Ordered => Done(st)
      case Ordering => Circular(st.dependencies, i)
      case Unordered =>
        var st1 := State(st.status[i := Ordering], st.order, st.dependencies + [i]);
        assert i in UnorderedOnes(st) && i !in UnorderedOnes(st1);
        assert UnorderedOnes(st1) <= UnorderedOnes(st);
        var st2 :- OrderWalk(env, i, 0, st1);
        Done(State(st2.status[i := Ordered], st2.order + [i], st.dependencies))
  }

  /** The walk over declaration `i`, from its action number `k` on. */
  function OrderWalk(env: Env, i: nat, k: nat, st: State): (r: Outcome)
    requires |st.status| == |env.decls| && i < |env.decls|
    ensures r.Done? ==> |r.st.status| == |st.status| && UnorderedOnes(r.st) <= UnorderedOnes(st)
    decreases UnorderedOnes(st), 1 + (|Walk(env, env.decls[i].kind)| - k)
  {
    var acts := Walk(env, env.decls[i].kind);
    if k >= |acts| then Done(st)
    else
      var st1 :- OrderAction(env, i, acts[k], st);
      OrderWalk(env, i, k + 1, st1)
  }

  function OrderAction(env: Env, i: nat, a: Action, st: State): (r: Outcome)
    requires |st.status| == |env.decls| && i < |env.decls|
    ensures r.Done? ==> |r.st.status| == |st.status| && UnorderedOnes(r.st) <= UnorderedOnes(st)
    decreases UnorderedOnes(st), 1
  {
    match a
    case MarkOrdered =>
      (match Lookup(env.decls, env.decls[i].name)
       case None => Done(st)
       case Some(j) => Done(st.(status := st.status[j := Ordered])))
    case Visit(name) =>
      match Lookup(env.decls, name)
      case None => Done(st)
      case Some(j) => OrderOne(env, j, st)
  }

  function OrderFrom(env: Env, i: nat, st: State): Outcome
    requires |st.status| == |env.decls|
    decreases |env.decls| - i
  {
    if i >= |env.decls| then Done(st)
    else
      var st1 :- OrderOne(env, i, st);
      OrderFrom(env, i + 1, st1)
  }

  function Initial(n: nat): State {
    State(seq(n, _ => Unordered), [], [])
  }
}
