// Template instances, and the functions whose bodies wait to be resolved.  Resolving a body can ask
// for further instances, which can put further functions on the list that is being walked.

module Templates {

  const MAX_DEPTH: nat := 16

  type Id = nat    // a template with its arguments
  type Fn = nat    // a function, or an instance of a function template

  // What resolving a declaration does: it asks for instances, and puts functions on the list.
  datatype Action = Instantiate(id: Id) | Queue(fn: Fn)

  // There can be infinitely many instances.
  datatype Program = Program(
    top: seq<Action>,             // the declarations of the module
    actions: Id -> seq<Action>,   // an instance: its signature or its members
    isType: Id -> bool,           // a struct or union, which is known before its members are resolved
    body: Fn -> seq<Id>)          // the instances that the body of a function asks for

  // A function on the list, with the instances that led to it, outermost first.
  datatype Item = Item(fn: Fn, chain: seq<Id>)

  datatype State = State(known: set<Id>, items: seq<Item>)

  // `Redeclared` is an instance of a function template that was made and entered while its own signature was being
  // resolved: entering it a second time is an error.
  datatype Outcome = Done(st: State) | TooDeep(chain: seq<Id>) | Redeclared(id: Id) {
    predicate IsFailure() {
      !Done?
    }

    function PropagateFailure(): Outcome
      requires !Done?
    {
      this
    }

    function Extract(): State
      requires Done?
    {
      st
    }
  }

  function Know(st: State, id: Id): State {
    st.(known := st.known + {id})
  }

  function Enqueue(st: State, fn: Fn, chain: seq<Id>): State {
    st.(items := st.items + [Item(fn, chain)])
  }

  /** An instance asked for by the innermost one of `chain`. */
  function Resolve(p: Program, id: Id, chain: seq<Id>, st: State): Outcome
    decreases MAX_DEPTH - |chain|, 0, 0
  {
    if id in st.known then Done(st)
    else if |chain| + 1 > MAX_DEPTH then TooDeep(chain + [id])
    else
      var st1 :- Act(p, p.actions(id), chain + [id], if p.isType(id) then Know(st, id) else st);
      if !p.isType(id) && id in st1.known then Redeclared(id) else Done(Know(st1, id))
  }

  function Act(p: Program, actions: seq<Action>, chain: seq<Id>, st: State): Outcome
    decreases MAX_DEPTH - |chain|, 1, |actions|
  {
    if actions == [] then Done(st)
    else
      var st1 :- if actions[0].Queue? then Done(Enqueue(st, actions[0].fn, chain)) else Resolve(p, actions[0].id, chain, st);
      Act(p, actions[1..], chain, st1)
  }

  /** The instances that a function body asks for. */
  function Complete(p: Program, ids: seq<Id>, chain: seq<Id>, st: State): Outcome
    decreases |ids|
  {
    if ids == [] then Done(st)
    else
      var st1 :- Resolve(p, ids[0], chain, st);
      Complete(p, ids[1..], chain, st1)
  }
}
