// The fragment of C that the code generator emits for function bodies, and its meaning.
//
// Every declaration of a function has its own C identifier, and no block declares one that is
// already visible around it (`SlotProof`), so one map from identifiers to values describes the
// whole frame.  A block zero-initialises the variables it declares and then
// runs its statements.  `fuel` counts loop iterations, as in the source language.

module CLang {
  import opened Wrappers
  import opened SourceLang

  // `argument_<i>_<name>` and `local_<n>_<name>`; the number alone identifies the variable.
  datatype Slot = Argument(i: nat) | Local(n: nat)

  datatype CExpr =
    | CConst(n: int)
    | CVar(slot: Slot)
    | CPrim(op: string, lhs: CExpr, rhs: CExpr)
    | CCall(f: string, arg: CExpr)

  datatype CBlock = CBlock(decls: seq<Slot>, body: seq<CStmt>)

  datatype CArms = CNoArm | CElse(body: CBlock) | CElif(cond: CExpr, body: CBlock, rest: CArms)

  datatype CCases = CNoCase | CElseCase(body: CBlock) | CCase(symbol: int, body: CBlock, rest: CCases)

  datatype CStmt =
    | CNested(block: CBlock)
    | CIf(arms: CArms)
    | CFor(slot: Slot, begin: CExpr, end: CExpr, body: CBlock)
    | CWhile(cond: CExpr, body: CBlock)
    | CBreak
    | CContinue
    | CSwitch(e: CExpr, cases: CCases)
    | CSetReturn(e: CExpr)       // __sunder_return = e;
    | CReturn(value: bool)       // return __sunder_return;  or  return;
    | CAssign(slot: Slot, e: CExpr)
    | CExprStmt(e: CExpr)

  datatype CFunction = CFunction(params: nat, body: CBlock)

  type Frame = map<Slot, int>

  datatype CState = CState(frame: Frame, ret: int, trace: seq<Event>, fuel: nat)

  datatype CExit = CExit(out: Outcome, st: CState)

  function Read(f: Frame, s: Slot): int {
    if s in f then f[s] else 0
  }

  function CEval(m: Machine, e: CExpr, f: Frame, trace: seq<Event>): (int, seq<Event>) {
    match e
    case CConst(n) => (n, trace)
    case CVar(s) => (Read(f, s), trace)
    case CPrim(op, l, r) =>
      var (a, t1) := CEval(m, l, f, trace);
      var (b, t2) := CEval(m, r, f, t1);
      (m.prim(op, a, b), t2)
    case CCall(g, arg) =>
      var (a, t) := CEval(m, arg, f, trace);
      (m.call(t, g, a), t + [Event(g, a)])
  }

  function Zeroed(f: Frame, decls: seq<Slot>): (g: Frame)
    ensures forall s :: s in decls ==> Read(g, s) == 0
    ensures forall s :: s !in decls ==> Read(g, s) == Read(f, s)
  {
    map s | s in f.Keys + (set d | d in decls) :: if s in decls then 0 else f[s]
  }

  function CExec(m: Machine, cs: seq<CStmt>, st: CState): (x: CExit)
    ensures x.st.fuel <= st.fuel
    decreases st.fuel, cs, 0
  {
    if cs == [] then CExit(Normal, st)
    else
      var x := CExecStmt(m, cs[0], st);
      if x.out.Normal? then CExec(m, cs[1..], x.st) else x
  }

  function CExecBlock(m: Machine, b: CBlock, st: CState): (x: CExit)
    ensures x.st.fuel <= st.fuel
    decreases st.fuel, b, 1
  {
    CExec(m, b.body, st.(frame := Zeroed(st.frame, b.decls)))
  }

  function CExecStmt(m: Machine, c: CStmt, st: CState): (x: CExit)
    ensures x.st.fuel <= st.fuel
    decreases st.fuel, c, 0
  {
    match c
    case CNested(b) => CExecBlock(m, b, st)
    case CIf(arms) => CExecArms(m, arms, st)
    case CWhile(cond, body) => CExecLoop(m, cond, body, st)
    case CFor(slot, begin, end, body) =>
      var (b, t) := CEval(m, begin, st.frame, st.trace);
      CExecRange(m, slot, end, body, st.(frame := st.frame[slot := b], trace := t))
    case CBreak => CExit(Broke, st)
    case CContinue => CExit(Continued, st)
    case CSwitch(e, cases) =>
      var (v, t) := CEval(m, e, st.frame, st.trace);
      CExecCases(m, v, cases, st.(trace := t))
    case CSetReturn(e) =>
      var (v, t) := CEval(m, e, st.frame, st.trace);
      CExit(Normal, st.(ret := v, trace := t))
    case CReturn(value) => CExit(Returned(if value then Some(st.ret) else None), st)
    case CAssign(slot, e) =>
      var (v, t) := CEval(m, e, st.frame, st.trace);
      CExit(Normal, st.(frame := st.frame[slot := v], trace := t))
    case CExprStmt(e) => CExit(Normal, st.(trace := CEval(m, e, st.frame, st.trace).1))
  }

  function CExecArms(m: Machine, a: CArms, st: CState): (x: CExit)
    ensures x.st.fuel <= st.fuel
    decreases st.fuel, a, 0
  {
    match a
    case CNoArm => CExit(Normal, st)
    case CElse(body) => CExecBlock(m, body, st)
    case CElif(cond, body, rest) =>
      var (c, t) := CEval(m, cond, st.frame, st.trace);
      if c != 0 then CExecBlock(m, body, st.(trace := t)) else CExecArms(m, rest, st.(trace := t))
  }

  function CExecCases(m: Machine, v: int, c: CCases, st: CState): (x: CExit)
    ensures x.st.fuel <= st.fuel
    decreases st.fuel, c, 0
  {
    match c
    case CNoCase => CExit(Normal, st)
    case CElseCase(body) => CExecBlock(m, body, st)
    case CCase(symbol, body, rest) =>
      if v == symbol then CExecBlock(m, body, st) else CExecCases(m, v, rest, st)
  }

  function CExecLoop(m: Machine, cond: CExpr, body: CBlock, st: CState): (x: CExit)
    ensures x.st.fuel <= st.fuel
    decreases st.fuel, body, 2
  {
    if st.fuel == 0 then CExit(OutOfFuel, st)
    else
      var (c, t) := CEval(m, cond, st.frame, st.trace);
      if c == 0 then CExit(Normal, st.(trace := t))
      else
        var x := CExecBlock(m, body, st.(trace := t, fuel := st.fuel - 1));
        match x.out
        case Normal => CExecLoop(m, cond, body, x.st)
        case Continued => CExecLoop(m, cond, body, x.st)
        case Broke => CExit(Normal, x.st)
        case _ => x
  }

  function CExecRange(m: Machine, slot: Slot, end: CExpr, body: CBlock, st: CState): (x: CExit)
    ensures x.st.fuel <= st.fuel
    decreases st.fuel, body, 2
  {
    if st.fuel == 0 then CExit(OutOfFuel, st)
    else
      var (e, t) := CEval(m, end, st.frame, st.trace);
      if m.prim("<", Read(st.frame, slot), e) == 0 then CExit(Normal, st.(trace := t))
      else
        var x := CExecBlock(m, body, st.(trace := t, fuel := st.fuel - 1));
        match x.out
        case Normal => CExecRange(m, slot, end, body, CStep(m, slot, x.st))
        case Continued => CExecRange(m, slot, end, body, CStep(m, slot, x.st))
        case Broke => CExit(Normal, x.st)
        case _ => x
  }

  function CStep(m: Machine, slot: Slot, st: CState): CState {
    st.(frame := st.frame[slot := m.prim("++", Read(st.frame, slot), 1)])
  }

  function ArgumentFrame(args: seq<int>): (f: Frame)
    ensures forall i: nat :: i < |args| ==> Read(f, Argument(i)) == args[i]
  {
    var f := map i: nat | i < |args| :: Argument(i) := args[i];
    assert forall i: nat :: i < |args| ==> Argument(i) in f && f[Argument(i)] == args[i];
    f
  }

  function CRun(m: Machine, f: CFunction, args: seq<int>, fuel: nat): Observed
    requires |args| == f.params
  {
    var x := CExecBlock(m, f.body, CState(ArgumentFrame(args), 0, [], fuel));
    Observed(x.out, x.st.trace, x.st.fuel)
  }

  /** Running one piece of code after another. */
  lemma {:induction false} CExecAppend(m: Machine, a: seq<CStmt>, b: seq<CStmt>, st: CState)
    ensures CExec(m, a + b, st) ==
            (var x := CExec(m, a, st); if x.out.Normal? then CExec(m, b, x.st) else x)
  {
    if a == [] {
      assert a + b == b;
    } else {
      assert (a + b)[0] == a[0] && (a + b)[1..] == a[1..] + b;
      var x := CExecStmt(m, a[0], st);
      if x.out.Normal? {
        CExecAppend(m, a[1..], b, x.st);
      }
    }
  }
}
