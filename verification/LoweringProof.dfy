// Lowering preserves meaning: for every fuel, the lowered function ends the same way, returns the
// same value, makes the same calls and uses the same number of loop iterations as the source.

module LoweringProof {
  import opened Wrappers
  import opened SourceLang
  import opened CLang
  import opened Lowering

  // ---------- How source and emitted states correspond ----------

  /** The first `n` variables hold the values of the first `n` entries' slots. */
  ghost predicate Holds(scope: seq<Entry>, n: nat, vars: seq<Binding>, f: Frame) {
    n <= |scope| && n <= |vars| &&
    forall i :: 0 <= i < n ==> scope[i].name == vars[i].name && Read(f, scope[i].slot) == vars[i].val
  }

  /** Entries have pairwise different slots, all of them numbered below `counter`. */
  ghost predicate ScopeOk(scope: seq<Entry>, counter: nat) {
    (forall i :: 0 <= i < |scope| && scope[i].slot.Local? ==> scope[i].slot.n < counter) &&
    (forall i, j :: 0 <= i < j < |scope| ==> scope[i].slot != scope[j].slot)
  }

  // A pending defer: its body, the context in which it was lowered, and what is pending around it.
  datatype Pending = Pending(body: seq<Stmt>, ctx: Ctx, around: Around)

  /** The defers from this one on are pending in the loop of the context, or in the function if it is in no loop. */
  ghost function LoopFloor(c: Ctx): nat {
    if c.loop.None? then 0 else c.loop.value.pend
  }

  ghost predicate LoopOk(c: Ctx, ps: seq<Pending>) {
    LoopFloor(c) <= |ps| &&
    (forall i :: LoopFloor(c) <= i < |ps| ==> ps[i].ctx.loop == c.loop) &&
    (c.loop.Some? ==>
       var l := c.loop.value;
       l.scope <= |c.scope| && forall i :: l.pend <= i < |ps| ==> l.scope <= |ps[i].ctx.scope|)
  }

  /** The flags say which of the pending defers have no jump. */
  ghost predicate AroundOk(c: Ctx, ps: seq<Pending>, around: Around) {
    (!around.outer ==> forall i :: 0 <= i < |ps| && i < LoopFloor(c) ==> NoJump(ps[i].body)) &&
    (!around.here ==> forall i :: LoopFloor(c) <= i < |ps| ==> NoJump(ps[i].body)) &&
    (forall i :: LoopFloor(c) <= i < |ps| ==> ps[i].around.loopInDefer == around.loopInDefer) &&
    (around.loopInDefer ==> around.inDefer)
  }

  /** The emitted blocks in `c.pend` are the lowered bodies of the pending defers `ps`, each of them
      lowered where only the earlier ones were pending. */
  ghost predicate CtxOk(c: Ctx, ps: seq<Pending>, around: Around)
    decreases |ps|
  {
    ScopeOk(c.scope, c.counter) && |ps| == |c.pend| && LoopOk(c, ps) && AroundOk(c, ps, around) &&
    (ps != [] ==>
       var n := |ps| - 1;
       var p := ps[n];
       p.ctx.pend == c.pend[..n] && p.ctx.scope <= c.scope && p.ctx.ret == c.ret &&
       p.around.inDefer && SafeReturns(p.body, c.ret, p.around) &&
       (var b := LowerBlock(p.body, p.ctx);
        b.Ok? && b.value.block == c.pend[n] && b.value.counter <= c.counter) &&
       CtxOk(p.ctx, ps[..n], p.around))
  }

  ghost function Weight(ps: seq<Pending>): nat {
    if ps == [] then 0 else Weight(ps[..|ps| - 1]) + Size(ps[|ps| - 1].body) + 1
  }

  ghost predicate Starts(c: Ctx, st: State, cst: CState) {
    |st.vars| == |c.scope| && Holds(c.scope, |c.scope|, st.vars, cst.frame) &&
    cst.trace == st.trace && cst.fuel == st.fuel
  }

  // ---------- Leaving a place where defers are pending ----------

  ghost function Floor(loop: Option<Loop>, out: Outcome): Loop {
    if out.Returned? || loop.None? then Loop(0, 0) else loop.value
  }

  /** What becomes of `x` once all defers that its way of leaving crosses have run. */
  ghost function Unwind(m: Machine, k: ReturnKind, ps: seq<Pending>, loop: Option<Loop>, x: Exit): Exit
    decreases |ps|
  {
    if x.out.Normal? || x.out.OutOfFuel? then x
    else
      var floor := Floor(loop, x.out);
      if |ps| <= floor.pend then Pop(x, floor.scope)
      else
        var p := ps[|ps| - 1];
        Unwind(m, k, ps[..|ps| - 1], loop, ExecDefer(m, k, p.body, Pop(x, |p.ctx.scope|)))
  }

  /** Where the return slot still has its value afterwards: at the end of code in a defer body, and at a jump out of
      a loop in a defer body.  A `return` that a defer turns into a jump has set it elsewhere. */
  ghost predicate Untouched(around: Around, out: Outcome) {
    (around.inDefer && out.Normal?) || (around.inDefer && around.loopInDefer && (out.Broke? || out.Continued?))
  }

  /** The emitted code, started in `cst`, ended in `y` as the source predicts by `x`, without
      touching the slots from `top` on. */
  ghost predicate Agrees(c: Ctx, around: Around, x: Exit, cst: CState, top: nat, y: CExit) {
    y.out == x.out && y.st.trace == x.st.trace && y.st.fuel == x.st.fuel &&
    (forall n: nat :: top <= n ==> Read(y.st.frame, Local(n)) == Read(cst.frame, Local(n))) &&
    (Untouched(around, x.out) ==> y.st.ret == cst.ret) &&
    (x.out.Normal? ==> |x.st.vars| == |c.scope| && Holds(c.scope, |c.scope|, x.st.vars, y.st.frame)) &&
    (x.out.Broke? || x.out.Continued? ==>
      c.loop.Some? && Holds(c.scope, c.loop.value.scope, x.st.vars, y.st.frame))
  }

  ghost predicate Matches(m: Machine, c: Ctx, ps: seq<Pending>, around: Around, x: Exit, cst: CState, top: nat, y: CExit) {
    Agrees(c, around, Unwind(m, c.ret, ps, c.loop, x), cst, top, y)
  }

  // ---------- Expressions ----------

  lemma {:induction false} EvalAgrees(m: Machine, e: Expr, scope: seq<Entry>, vars: seq<Binding>, f: Frame,
                                      t: seq<Event>)
    requires |vars| == |scope| && Holds(scope, |scope|, vars, f)
    requires LowerExpr(scope, e).Ok?
    ensures CEval(m, LowerExpr(scope, e).value, f, t) == Eval(m, e, vars, t)
  {
    match e
    case Const(_) =>
    case Name(x) => assert Names(vars) == EntryNames(scope);
    case Prim(op, l, r) =>
      EvalAgrees(m, l, scope, vars, f, t);
      EvalAgrees(m, r, scope, vars, f, Eval(m, l, vars, t).1);
    case Call(_, arg) => EvalAgrees(m, arg, scope, vars, f, t);
  }

  /** Assigning to a name updates exactly the slot it was resolved to. */
  lemma {:induction false} AssignAgrees(scope: seq<Entry>, counter: nat, vars: seq<Binding>, f: Frame, x: string,
                                        v: int)
    requires |vars| == |scope| && Holds(scope, |scope|, vars, f) && ScopeOk(scope, counter)
    requires LowerName(scope, x).Ok?
    ensures Holds(scope, |scope|, Update(vars, x, v), f[LowerName(scope, x).value := v])
    ensures |Update(vars, x, v)| == |scope|
    ensures LowerName(scope, x).value.Local? ==> LowerName(scope, x).value.n < counter
  {
    assert Names(vars) == EntryNames(scope);
  }

  // ---------- Small facts about unwinding ----------

  /** Dropping bindings that no crossed defer could see changes nothing. */
  lemma {:induction false} UnwindPop(m: Machine, c: Ctx, ps: seq<Pending>, around: Around, x: Exit)
    requires CtxOk(c, ps, around) && !x.out.Normal? && !x.out.OutOfFuel?
    ensures Unwind(m, c.ret, ps, c.loop, Pop(x, |c.scope|)) == Unwind(m, c.ret, ps, c.loop, x)
  {
    var floor := Floor(c.loop, x.out);
    if |ps| > floor.pend {
      var k := |ps[|ps| - 1].ctx.scope|;
      assert Pop(Pop(x, |c.scope|), k) == Pop(x, k);
    } else {
      assert Pop(Pop(x, |c.scope|), floor.scope) == Pop(x, floor.scope);
    }
  }

  /** A return crosses every defer, whatever loop it is in, if none of them jumps. */
  lemma {:induction false} UnwindReturned(m: Machine, c: Ctx, ps: seq<Pending>, around: Around, l1: Option<Loop>,
                                          l2: Option<Loop>, x: Exit)
    requires CtxOk(c, ps, around) && x.out.Returned? && forall i :: 0 <= i < |ps| ==> NoJump(ps[i].body)
    ensures var y := Unwind(m, c.ret, ps, l1, x);
            y == Unwind(m, c.ret, ps, l2, x) && (y.out.Returned? || y.out.OutOfFuel?)
    decreases |ps|
  {
    if ps != [] {
      var n := |ps| - 1;
      var p := ps[n];
      var z := Pop(x, |p.ctx.scope|);
      var y := ExecDefer(m, c.ret, p.body, z);
      NoJumpExec(m, c.ret, p.body, z.st);
      if y.out.Returned? {
        UnwindReturned(m, p.ctx, ps[..n], p.around, l1, l2, y);
      }
    }
  }

  // ---------- Blocks that are not left by break or continue ----------

  lemma {:induction false} NoJumpSplice(w: Whens, rest: seq<Stmt>)
    requires NoJumpWhens(w) && NoJump(rest)
    ensures NoJump(SelectedStmts(w) + rest)
  {
    NoJumpSelected(w);
  }

  lemma {:induction false} NoJumpSelected(w: Whens)
    requires NoJumpWhens(w)
    ensures NoJump(SelectedStmts(w))
  {
    match w
    case NoWhen =>
    case ElseWhen(_) =>
    case ElWhen(c, _, rest) =>
      if !c {
        NoJumpSelected(rest);
      }
  }

  ghost predicate Jumps(x: Exit) {
    x.out.Broke? || x.out.Continued?
  }

  lemma {:induction false} NoJumpExec(m: Machine, k: ReturnKind, ss: seq<Stmt>, st: State)
    requires NoJump(ss)
    ensures !Jumps(ExecStmts(m, k, ss, st))
    decreases st.fuel, Size(ss), 1
  {
    if ss != [] {
      var rest := ss[1..];
      assert NoJumpStmt(ss[0]) && NoJump(rest);
      var s := ss[0];
      if s.Var? {
        var (v, t) := if s.init.Some? then Eval(m, s.init.value, st.vars, st.trace) else (0, st.trace);
        NoJumpExec(m, k, rest, State(st.vars + [Binding(s.name, v)], t, st.fuel));
      } else if s.DeferBlock? {
        NoJumpExec(m, k, rest, st);
        var x := ExecStmts(m, k, rest, st);
        assert SizeStmt(s) == 2 + Size(s.body);
        NoJumpExec(m, k, s.body, x.st);
      } else if s.DeferExpr? {
        NoJumpExec(m, k, rest, st);
        SizeOne(ExprStmt(s.e));
        assert SizeStmt(s) == 4;
        NoJumpExec(m, k, [ExprStmt(s.e)], ExecStmts(m, k, rest, st).st);
      } else if s.When? {
        SplicedSize(ss);
        NoJumpSplice(s.whens, rest);
        NoJumpExec(m, k, SelectedStmts(s.whens) + rest, st);
      } else {
        NoJumpExecStmt(m, k, s, st);
        NoJumpExec(m, k, rest, ExecStmt(m, k, s, st).st);
      }
    }
  }

  lemma {:induction false} NoJumpExecStmt(m: Machine, k: ReturnKind, s: Stmt, st: State)
    requires !s.Var? && !s.DeferBlock? && !s.DeferExpr? && !s.When?
    requires NoJumpStmt(s)
    ensures !Jumps(ExecStmt(m, k, s, st))
    decreases st.fuel, SizeStmt(s), 0
  {
    match s
    case If(arms) => NoJumpExecArms(m, k, arms, st);
    case ForExpr(cond, body) => NoJumpLoop(m, k, cond, body, st);
    case ForRange(name, begin, end, body) =>
      var (b, t) := Eval(m, begin, st.vars, st.trace);
      NoJumpRange(m, k, end, body, |st.vars|, State(st.vars + [Binding(name, b)], t, st.fuel));
    case Switch(e, cases) =>
      var (v, t) := Eval(m, e, st.vars, st.trace);
      NoJumpExecCases(m, k, v, cases, st.(trace := t));
    case _ =>
  }

  lemma {:induction false} NoJumpExecArms(m: Machine, k: ReturnKind, a: Arms, st: State)
    requires NoJumpArms(a)
    ensures !Jumps(ExecArms(m, k, a, st))
    decreases st.fuel, SizeArms(a), 0
  {
    match a
    case NoArm =>
    case Else(body) => NoJumpExec(m, k, body, st);
    case Elif(cond, body, rest) =>
      var t := Eval(m, cond, st.vars, st.trace).1;
      NoJumpExec(m, k, body, st.(trace := t));
      NoJumpExecArms(m, k, rest, st.(trace := t));
  }

  lemma {:induction false} NoJumpExecCases(m: Machine, k: ReturnKind, v: int, c: Cases, st: State)
    requires NoJumpCases(c)
    ensures !Jumps(ExecCases(m, k, v, c, st))
    decreases st.fuel, SizeCases(c), 0
  {
    match c
    case NoCase =>
    case ElseCase(body) => NoJumpExec(m, k, body, st);
    case Case(_, body, rest) =>
      NoJumpExec(m, k, body, st);
      NoJumpExecCases(m, k, v, rest, st);
  }

  lemma {:induction false} NoJumpLoop(m: Machine, k: ReturnKind, cond: Expr, body: seq<Stmt>, st: State)
    ensures !Jumps(ExecLoop(m, k, cond, body, st))
    decreases st.fuel, 0, 0
  {
    if st.fuel != 0 {
      var (c, t) := Eval(m, cond, st.vars, st.trace);
      NoJumpLoop(m, k, cond, body, ExecStmts(m, k, body, State(st.vars, t, st.fuel - 1)).st);
    }
  }

  lemma {:induction false} NoJumpRange(m: Machine, k: ReturnKind, end: Expr, body: seq<Stmt>, n: nat, st: State)
    requires n < |st.vars|
    ensures !Jumps(ExecRange(m, k, end, body, n, st))
    decreases st.fuel, 0, 0
  {
    if st.fuel != 0 {
      var (e, t) := Eval(m, end, st.vars[..n], st.trace);
      var x := ExecStmts(m, k, body, State(st.vars, t, st.fuel - 1));
      NoJumpRange(m, k, end, body, n, Step(m, x.st, n));
    }
  }

  // ---------- Blocks that are not left by return ----------

  /** Where a jump is pending outside of the loop there is no `return`. */
  lemma {:induction false} NoReturnExec(m: Machine, k: ReturnKind, ss: seq<Stmt>, a: Around, st: State)
    requires SafeReturns(ss, k, a) && a.outer
    ensures !ExecStmts(m, k, ss, st).out.Returned?
    decreases st.fuel, Size(ss), 1
  {
    if ss != [] {
      var rest := ss[1..];
      var s := ss[0];
      if s.Var? {
        var (v, t) := if s.init.Some? then Eval(m, s.init.value, st.vars, st.trace) else (0, st.trace);
        NoReturnExec(m, k, rest, a, State(st.vars + [Binding(s.name, v)], t, st.fuel));
      } else if s.DeferBlock? {
        NoReturnExec(m, k, rest, AfterDefer(a, s.body), st);
        assert SizeStmt(s) == 2 + Size(s.body);
        NoReturnExec(m, k, s.body, InDefer(a), ExecStmts(m, k, rest, st).st);
      } else if s.DeferExpr? {
        NoReturnExec(m, k, rest, a, st);
        ExprExec(m, k, s.e, ExecStmts(m, k, rest, st).st);
      } else if s.When? {
        SplicedSize(ss);
        NoReturnExec(m, k, SelectedStmts(s.whens) + rest, a, st);
      } else {
        NoReturnStmt(m, k, s, a, st);
        NoReturnExec(m, k, rest, a, ExecStmt(m, k, s, st).st);
      }
    }
  }

  lemma {:induction false} ExprExec(m: Machine, k: ReturnKind, e: Expr, st: State)
    ensures ExecStmts(m, k, [ExprStmt(e)], st).out.Normal?
  {
    hide Eval;
    var st1 := ExecStmt(m, k, ExprStmt(e), st).st;
    assert [ExprStmt(e)][1..] == [];
    assert ExecStmts(m, k, [], st1) == Exit(Normal, st1);
  }

  lemma {:induction false} NoReturnStmt(m: Machine, k: ReturnKind, s: Stmt, a: Around, st: State)
    requires !s.Var? && !s.DeferBlock? && !s.DeferExpr? && !s.When?
    requires SafeReturnsStmt(s, k, a) && a.outer
    ensures !ExecStmt(m, k, s, st).out.Returned?
    decreases st.fuel, SizeStmt(s), 0
  {
    match s
    case If(arms) => NoReturnArms(m, k, arms, a, st);
    case ForExpr(cond, body) => NoReturnLoop(m, k, cond, body, InLoop(a), st);
    case ForRange(name, begin, end, body) =>
      var (b, t) := Eval(m, begin, st.vars, st.trace);
      NoReturnRange(m, k, end, body, InLoop(a), |st.vars|, State(st.vars + [Binding(name, b)], t, st.fuel));
    case Switch(e, cases) =>
      var (v, t) := Eval(m, e, st.vars, st.trace);
      NoReturnCases(m, k, v, cases, a, st.(trace := t));
    case _ =>
  }

  lemma {:induction false} NoReturnArms(m: Machine, k: ReturnKind, arms: Arms, a: Around, st: State)
    requires SafeReturnsArms(arms, k, a) && a.outer
    ensures !ExecArms(m, k, arms, st).out.Returned?
    decreases st.fuel, SizeArms(arms), 0
  {
    match arms
    case NoArm =>
    case Else(body) => NoReturnExec(m, k, body, a, st);
    case Elif(cond, body, rest) =>
      var t := Eval(m, cond, st.vars, st.trace).1;
      NoReturnExec(m, k, body, a, st.(trace := t));
      NoReturnArms(m, k, rest, a, st.(trace := t));
  }

  lemma {:induction false} NoReturnCases(m: Machine, k: ReturnKind, v: int, c: Cases, a: Around, st: State)
    requires SafeReturnsCases(c, k, a) && a.outer
    ensures !ExecCases(m, k, v, c, st).out.Returned?
    decreases st.fuel, SizeCases(c), 0
  {
    match c
    case NoCase =>
    case ElseCase(body) => NoReturnExec(m, k, body, a, st);
    case Case(_, body, rest) =>
      NoReturnExec(m, k, body, a, st);
      NoReturnCases(m, k, v, rest, a, st);
  }

  lemma {:induction false} NoReturnLoop(m: Machine, k: ReturnKind, cond: Expr, body: seq<Stmt>, a: Around, st: State)
    requires SafeReturns(body, k, a) && a.outer
    ensures !ExecLoop(m, k, cond, body, st).out.Returned?
    decreases st.fuel, Size(body), 2
  {
    if st.fuel != 0 {
      var (c, t) := Eval(m, cond, st.vars, st.trace);
      var st1 := State(st.vars, t, st.fuel - 1);
      NoReturnExec(m, k, body, a, st1);
      NoReturnLoop(m, k, cond, body, a, ExecStmts(m, k, body, st1).st);
    }
  }

  lemma {:induction false} NoReturnRange(m: Machine, k: ReturnKind, end: Expr, body: seq<Stmt>, a: Around, n: nat,
                                         st: State)
    requires n < |st.vars| && SafeReturns(body, k, a) && a.outer
    ensures !ExecRange(m, k, end, body, n, st).out.Returned?
    decreases st.fuel, Size(body), 2
  {
    if st.fuel != 0 {
      var (e, t) := Eval(m, end, st.vars[..n], st.trace);
      var st1 := State(st.vars, t, st.fuel - 1);
      NoReturnExec(m, k, body, a, st1);
      NoReturnRange(m, k, end, body, a, n, Step(m, ExecStmts(m, k, body, st1).st, n));
    }
  }

  /** A loop body that was left by a `return` crosses no jump. */
  lemma {:induction false} LoopReturns(m: Machine, c: Ctx, ps: seq<Pending>, around: Around, body: seq<Stmt>, st: State)
    requires CtxOk(c, ps, around) && SafeReturns(body, c.ret, InLoop(around))
    ensures ExecStmts(m, c.ret, body, st).out.Returned? ==> forall i :: 0 <= i < |ps| ==> NoJump(ps[i].body)
  {
    if around.outer || around.here {
      NoReturnExec(m, c.ret, body, InLoop(around), st);
    }
  }

  /** A jump in the copy of a defer goes to the loop around the defer exactly when that is the loop around the
      copy: when the defer was met in the innermost loop that the copy is in. */
  lemma {:induction false} JumpTarget(c: Ctx, ps: seq<Pending>, around: Around, i: nat)
    requires CtxOk(c, ps, around) && i < |ps|
    ensures ps[i].ctx.loop == c.loop <==> LoopFloor(c) <= i
  {
    FloorBelow(c, ps, around, i);
  }

  lemma {:induction false} FloorBelow(c: Ctx, ps: seq<Pending>, around: Around, i: nat)
    requires CtxOk(c, ps, around) && i < |ps|
    ensures LoopFloor(ps[i].ctx) <= i
    decreases |ps|
  {
    var n := |ps| - 1;
    if i < n {
      FloorBelow(ps[n].ctx, ps[..n], ps[n].around, i);
    }
  }

  // ---------- The simulation ----------
  //
  // In each lemma `x` is how the source ends and `y` how the emitted code ends.

  /** A statement list, followed by the copies of the defers it leaves pending. */
  lemma {:induction false} Sim(m: Machine, ss: seq<Stmt>, c: Ctx, ps: seq<Pending>, around: Around, st: State,
                               cst: CState,
                               r: Lowered, x: Exit, y: CExit)
    requires CtxOk(c, ps, around) && SafeReturns(ss, c.ret, around) && Starts(c, st, cst) && Ok(r) == LowerStmts(ss, c)
    requires forall d :: d in r.decls ==> Read(cst.frame, d) == 0
    requires x == ExecStmts(m, c.ret, ss, st) && y == CExec(m, r.code + Copies(r.pend, |c.pend|), cst)
    ensures Matches(m, c, ps, around, x, cst, r.counter, y)
    decreases st.fuel, Weight(ps) + Size(ss), 2
  {
    if ss == [] {
      assert r.code + Copies(r.pend, |c.pend|) == [];
    } else {
      match ss[0]
      case Var(_, _) => SimVar(m, ss, c, ps, around, st, cst, r, x, y);
      case DeferBlock(_) => SimDefer(m, ss, c, ps, around, st, cst, r, x, y);
      case DeferExpr(_) => SimDefer(m, ss, c, ps, around, st, cst, r, x, y);
      case When(w) =>
        SplicedSize(ss);
        Sim(m, SelectedStmts(w) + ss[1..], c, ps, around, st, cst, r, x, y);
      case _ => SimSeq(m, ss, c, ps, around, st, cst, r, x, y);
    }
  }

  /** A declaration puts its value into a fresh slot. */
  lemma {:induction false} VarStarts(name: string, v: int, c: Ctx, ps: seq<Pending>, around: Around, st: State,
                                     cst: CState, t: seq<Event>)
    requires CtxOk(c, ps, around) && Starts(c, st, cst)
    ensures var slot := Local(c.counter);
            Starts(c.(scope := c.scope + [Entry(name, slot)], counter := c.counter + 1),
                   State(st.vars + [Binding(name, v)], t, st.fuel), cst.(frame := cst.frame[slot := v], trace := t))
  {
  }

  lemma {:induction false} InnerOk(c: Ctx, ps: seq<Pending>, around: Around, name: string)
    requires CtxOk(c, ps, around)
    ensures CtxOk(c.(scope := c.scope + [Entry(name, Local(c.counter))], counter := c.counter + 1), ps, around)
  {
  }

  /** Using up more slots keeps a context in order. */
  lemma {:induction false} Grow(c: Ctx, ps: seq<Pending>, around: Around, counter: nat)
    requires CtxOk(c, ps, around) && c.counter <= counter
    ensures CtxOk(c.(counter := counter), ps, around)
  {
  }

  lemma {:induction false} SimVar(m: Machine, ss: seq<Stmt>, c: Ctx, ps: seq<Pending>, around: Around, st: State,
                                  cst: CState,
                                  r: Lowered, x: Exit, y: CExit)
    requires ss != [] && ss[0].Var?
    requires CtxOk(c, ps, around) && SafeReturns(ss[1..], c.ret, around) && Starts(c, st, cst) &&
             Ok(r) == LowerStmts(ss, c)
    requires forall d :: d in r.decls ==> Read(cst.frame, d) == 0
    requires x == ExecStmts(m, c.ret, ss, st) && y == CExec(m, r.code + Copies(r.pend, |c.pend|), cst)
    ensures Matches(m, c, ps, around, x, cst, r.counter, y)
    decreases st.fuel, Weight(ps) + Size(ss), 1
  {
    hide LowerStmts, ExecStmts, CExec, Eval, Copies, CtxOk, SafeReturns;
    var Var(name, init) := ss[0];
    var slot := Local(c.counter);
    var inner := c.(scope := c.scope + [Entry(name, slot)], counter := c.counter + 1);
    var (v, t) := if init.Some? then Eval(m, init.value, st.vars, st.trace) else (0, st.trace);
    var st1 := State(st.vars + [Binding(name, v)], t, st.fuel);
    VarLowered(ss, c);
    VarExecuted(m, c.ret, ss, st);
    InnerOk(c, ps, around, name);
    VarStarts(name, v, c, ps, around, st, cst, t);
    var r1 := LowerStmts(ss[1..], inner).value;
    var tail := r1.code + Copies(r.pend, |c.pend|);
    var cst1 := if init.Some? then cst.(frame := cst.frame[slot := v], trace := t) else cst;
    assert r.decls == [slot] + r1.decls && slot in r.decls;
    assert forall d :: d in r1.decls ==> d in r.decls;
    VarInitialized(m, c, ps, around, init, slot, st, cst, r.code, r1.code, Copies(r.pend, |c.pend|), cst1);
    var x1 := ExecStmts(m, c.ret, ss[1..], st1);
    Sim(m, ss[1..], inner, ps, around, st1, cst1, r1, x1, y);
    PopAgrees(m, c, inner, ps, around, x1, cst1, r1.counter, y);
    AgreesBefore(m, c, ps, around, x, cst, cst1, r1.counter, r1.counter, y);
  }

  lemma {:induction false} VarLowered(ss: seq<Stmt>, c: Ctx)
    requires ss != [] && ss[0].Var? && LowerStmts(ss, c).Ok?
    ensures var Var(name, init) := ss[0];
            var slot := Local(c.counter);
            var r1 := LowerStmts(ss[1..], c.(scope := c.scope + [Entry(name, slot)], counter := c.counter + 1));
            r1.Ok? && (init.Some? ==> LowerExpr(c.scope, init.value).Ok?) &&
            LowerStmts(ss, c).value ==
              r1.value.(code := (if init.Some? then [CAssign(slot, LowerExpr(c.scope, init.value).value)] else []) + r1.value.code,
                        decls := [slot] + r1.value.decls)
  {
    hide LowerExpr;
    if ss[0].init.None? {
      var Var(name, init) := ss[0];
      var r1 := LowerStmts(ss[1..], c.(scope := c.scope + [Entry(name, Local(c.counter))], counter := c.counter + 1));
      assert [] + r1.value.code == r1.value.code;
    }
  }

  lemma {:induction false} VarExecuted(m: Machine, k: ReturnKind, ss: seq<Stmt>, st: State)
    requires ss != [] && ss[0].Var?
    ensures var Var(name, init) := ss[0];
            var (v, t) := if init.Some? then Eval(m, init.value, st.vars, st.trace) else (0, st.trace);
            ExecStmts(m, k, ss, st) == Pop(ExecStmts(m, k, ss[1..], State(st.vars + [Binding(name, v)], t, st.fuel)), |st.vars|)
  {
    hide Eval;
  }

  /** The assignment that stores the initial value, if there is one. */
  lemma {:induction false} VarInitialized(m: Machine, c: Ctx, ps: seq<Pending>, around: Around, init: Option<Expr>,
                                          slot: Slot, st: State, cst: CState,
                                          code: seq<CStmt>, rest: seq<CStmt>, copies: seq<CStmt>, cst1: CState)
    requires Starts(c, st, cst) && (init.Some? ==> LowerExpr(c.scope, init.value).Ok?)
    requires code == (if init.Some? then [CAssign(slot, LowerExpr(c.scope, init.value).value)] else []) + rest
    requires cst1 == if init.None? then cst
                     else var (v, t) := Eval(m, init.value, st.vars, st.trace); cst.(frame := cst.frame[slot := v], trace := t)
    ensures CExec(m, code + copies, cst) == CExec(m, rest + copies, cst1)
  {
    hide LowerExpr, Eval, CEval;
    if init.Some? {
      EvalAgrees(m, init.value, c.scope, st.vars, cst.frame, st.trace);
      assert (code + copies)[1..] == rest + copies;
    } else {
      assert code == rest;
    }
  }

  /** An agreement reached from a later state holds from the earlier one too. */
  lemma {:induction false} AgreesBefore(m: Machine, c: Ctx, ps: seq<Pending>, around: Around, x: Exit, cst: CState,
                                        later: CState, t1: nat, t2: nat, y: CExit)
    requires t1 <= t2 && Matches(m, c, ps, around, x, later, t1, y)
    requires forall n: nat :: t2 <= n ==> Read(later.frame, Local(n)) == Read(cst.frame, Local(n))
    requires around.inDefer ==> later.ret == cst.ret
    ensures Matches(m, c, ps, around, x, cst, t2, y)
  {
  }

  /** Leaving the scope of a declaration. */
  lemma {:induction false} PopAgrees(m: Machine, c: Ctx, inner: Ctx, ps: seq<Pending>, around: Around, x: Exit,
                                     cst: CState, top: nat, y: CExit)
    requires CtxOk(c, ps, around) && inner.loop == c.loop && inner.ret == c.ret && c.scope <= inner.scope
    requires Matches(m, inner, ps, around, x, cst, top, y)
    ensures Matches(m, c, ps, around, Pop(x, |c.scope|), cst, top, y)
  {
    if x.out.Normal? || x.out.OutOfFuel? {
      assert Unwind(m, c.ret, ps, c.loop, Pop(x, |c.scope|)) == Pop(x, |c.scope|);
    } else {
      UnwindPop(m, c, ps, around, x);
      UnwindAbnormal(m, c.ret, ps, c.loop, x);
    }
  }

  lemma {:induction false} SimSeq(m: Machine, ss: seq<Stmt>, c: Ctx, ps: seq<Pending>, around: Around, st: State,
                                  cst: CState,
                                  r: Lowered, x: Exit, y: CExit)
    requires ss != [] && !ss[0].Var? && !ss[0].DeferBlock? && !ss[0].DeferExpr? && !ss[0].When?
    requires CtxOk(c, ps, around) && SafeReturnsStmt(ss[0], c.ret, around) && SafeReturns(ss[1..], c.ret, around) &&
             Starts(c, st, cst) && Ok(r) == LowerStmts(ss, c)
    requires forall d :: d in r.decls ==> Read(cst.frame, d) == 0
    requires x == ExecStmts(m, c.ret, ss, st) && y == CExec(m, r.code + Copies(r.pend, |c.pend|), cst)
    ensures Matches(m, c, ps, around, x, cst, r.counter, y)
    decreases st.fuel, Weight(ps) + Size(ss), 1
  {
    hide LowerStmts, LowerStmt, ExecStmts, ExecStmt, CExec, Copies, CtxOk, Matches, SafeReturns, SafeReturnsStmt;
    SeqSteps(m, c.ret, ss, c, st);
    var l := LowerStmt(ss[0], c).value;
    var c1 := c.(counter := l.counter);
    var r1 := LowerStmts(ss[1..], c1).value;
    var x1 := ExecStmt(m, c.ret, ss[0], st);
    var y1 := CExec(m, l.code, cst);
    SimStmt(m, ss[0], c, ps, around, st, cst, l, x1, y1);
    var tail := r1.code + Copies(r.pend, |c.pend|);
    assert r.code + Copies(r.pend, |c.pend|) == l.code + tail;
    CExecAppend(m, l.code, tail, cst);
    HowLeft(m, c, ps, around, x1, cst, l.counter, y1);
    if x1.out.Normal? {
      Grow(c, ps, around, l.counter);
      Sim(m, ss[1..], c1, ps, around, x1.st, y1.st, r1, x, y);
      SameMatches(m, c, l.counter, ps, around, x, y1.st, r.counter, y);
      AgreesBefore(m, c, ps, around, x, cst, y1.st, r.counter, r.counter, y);
    } else {
      assert x == x1 && y == y1;
      AgreesBefore(m, c, ps, around, x, cst, cst, l.counter, r.counter, y);
    }
  }

  /** The counter of a context does not matter for an agreement. */
  lemma {:induction false} SameMatches(m: Machine, c: Ctx, counter: nat, ps: seq<Pending>, around: Around, x: Exit,
                                       cst: CState, top: nat, y: CExit)
    requires Matches(m, c.(counter := counter), ps, around, x, cst, top, y)
    ensures Matches(m, c, ps, around, x, cst, top, y)
  {
  }

  lemma {:induction false} SeqSteps(m: Machine, k: ReturnKind, ss: seq<Stmt>, c: Ctx, st: State)
    requires ss != [] && !ss[0].Var? && !ss[0].DeferBlock? && !ss[0].DeferExpr? && !ss[0].When? && LowerStmts(ss, c).Ok?
    ensures var l := LowerStmt(ss[0], c);
            l.Ok? && c.counter <= l.value.counter &&
            var r1 := LowerStmts(ss[1..], c.(counter := l.value.counter));
            r1.Ok? && l.value.counter <= r1.value.counter &&
            LowerStmts(ss, c).value == r1.value.(code := l.value.code + r1.value.code)
    ensures var x := ExecStmt(m, k, ss[0], st);
            ExecStmts(m, k, ss, st) == if x.out.Normal? then ExecStmts(m, k, ss[1..], x.st) else x
  {
    hide LowerStmt, ExecStmt;
  }

  /** Leaving a block abnormally stays abnormal, whatever the defers crossed do. */
  lemma {:induction false} UnwindAbnormal(m: Machine, k: ReturnKind, ps: seq<Pending>, loop: Option<Loop>, x: Exit)
    requires !x.out.Normal?
    ensures !Unwind(m, k, ps, loop, x).out.Normal?
    decreases |ps|
  {
    if !x.out.OutOfFuel? && |ps| > Floor(loop, x.out).pend {
      var p := ps[|ps| - 1];
      UnwindAbnormal(m, k, ps[..|ps| - 1], loop, ExecDefer(m, k, p.body, Pop(x, |p.ctx.scope|)));
    }
  }

  lemma {:induction false} CopiesSplit(pend: seq<CBlock>, k: nat)
    requires k < |pend|
    ensures Copies(pend, k) == Copies(pend, k + 1) + [CNested(pend[k])]
    decreases |pend|
  {
    var n := |pend| - 1;
    if k < n {
      CopiesSplit(pend[..n], k);
    } else {
      assert Copies(pend[..n], k) == [];
    }
  }

  lemma {:induction false} DeferCtxOk(c: Ctx, ps: seq<Pending>, around: Around, body: seq<Stmt>)
    requires CtxOk(c, ps, around) && SafeReturns(body, c.ret, InDefer(around)) && LowerBlock(body, c).Ok?
    ensures var b := LowerBlock(body, c).value;
            CtxOk(c.(pend := c.pend + [b.block], counter := b.counter), ps + [Pending(body, c, InDefer(around))], AfterDefer(around, body))
    ensures CtxOk(c, ps, InDefer(around))
  {
    hide LowerBlock, SafeReturns, NoJump, AroundOk, LoopOk, ScopeOk, AfterDefer;
    var b := LowerBlock(body, c).value;
    var c1 := c.(pend := c.pend + [b.block], counter := b.counter);
    var ps1 := ps + [Pending(body, c, InDefer(around))];
    assert ps1[..|ps|] == ps && c1.pend[..|ps|] == c.pend;
    DeferAround(c, ps, around, body, c1);
    assert CtxOk(c, ps, InDefer(around));
  }

  lemma {:induction false} DeferAround(c: Ctx, ps: seq<Pending>, around: Around, body: seq<Stmt>, c1: Ctx)
    requires ScopeOk(c.scope, c.counter) && LoopOk(c, ps) && AroundOk(c, ps, around)
    requires c1.scope == c.scope && c1.loop == c.loop && c.counter <= c1.counter
    ensures var ps1 := ps + [Pending(body, c, InDefer(around))];
            ScopeOk(c1.scope, c1.counter) && LoopOk(c1, ps1) && AroundOk(c1, ps1, AfterDefer(around, body))
    ensures AroundOk(c, ps, InDefer(around))
  {
    hide NoJump;
  }

  lemma {:induction false} SimDefer(m: Machine, ss: seq<Stmt>, c: Ctx, ps: seq<Pending>, around: Around, st: State,
                                    cst: CState,
                                    r: Lowered, x: Exit, y: CExit)
    requires ss != [] && (ss[0].DeferBlock? || ss[0].DeferExpr?)
    requires CtxOk(c, ps, around) && SafeReturns(ss, c.ret, around) && Starts(c, st, cst) && Ok(r) == LowerStmts(ss, c)
    requires forall d :: d in r.decls ==> Read(cst.frame, d) == 0
    requires x == ExecStmts(m, c.ret, ss, st) && y == CExec(m, r.code + Copies(r.pend, |c.pend|), cst)
    ensures Matches(m, c, ps, around, x, cst, r.counter, y)
    decreases st.fuel, Weight(ps) + Size(ss), 1
  {
    hide LowerStmts, LowerBlock, ExecStmts, CExec, CExecStmt, CExecBlock, Size, SizeStmt, SafeReturns, NoJump;
    var body := DeferBody(ss[0]);
    DeferSteps(m, c.ret, ss, c, around, st);
    var b := LowerBlock(body, c).value;
    var c1 := c.(pend := c.pend + [b.block], counter := b.counter);
    var ps1 := ps + [Pending(body, c, InDefer(around))];
    var after := AfterDefer(around, body);
    assert ps1[..|ps|] == ps && ps1[|ps|].body == body;
    DeferCtxOk(c, ps, around, body);
    hide CtxOk, AfterDefer;
    CopiesSplit(r.pend, |c.pend|);
    var front := r.code + Copies(r.pend, |c.pend| + 1);
    assert r.pend[|c.pend|] == b.block;
    assert r.code + Copies(r.pend, |c.pend|) == front + [CNested(b.block)];
    CExecAppend(m, front, [CNested(b.block)], cst);
    var x1 := ExecStmts(m, c.ret, ss[1..], st);
    var y1 := CExec(m, front, cst);
    Sim(m, ss[1..], c1, ps1, after, st, cst, r, x1, y1);
    if x1.out.Normal? {
      NestedOnly(m, b.block, y1.st);
      assert y == CExecBlock(m, b.block, y1.st);
      HowLeft(m, c1, ps1, after, x1, cst, r.counter, y1);
      AfterSame(around, body);
      SimBlock(m, body, c, ps, InDefer(around), x1.st, y1.st, b, x, y);
      InDeferMatches(m, c, ps, around, x, y1.st, b.counter, y);
      AgreesBefore(m, c, ps, around, x, cst, y1.st, b.counter, r.counter, y);
    } else {
      DeferCrossed(m, c, ps, around, body, x1, cst, r.counter, y1);
      assert y == y1;
    }
  }

  lemma {:induction false} AfterSame(a: Around, body: seq<Stmt>)
    ensures AfterDefer(a, body).inDefer == a.inDefer && AfterDefer(a, body).loopInDefer == a.loopInDefer
  {
  }

  lemma {:induction false} InDeferMatches(m: Machine, c: Ctx, ps: seq<Pending>, around: Around, x: Exit, cst: CState,
                                          top: nat, y: CExit)
    requires Matches(m, c, ps, InDefer(around), x, cst, top, y)
    ensures Matches(m, c, ps, around, x, cst, top, y)
  {
  }

  /** What the lowering and the source semantics do with a defer. */
  lemma {:induction false} DeferSteps(m: Machine, k: ReturnKind, ss: seq<Stmt>, c: Ctx, a: Around, st: State)
    requires ss != [] && (ss[0].DeferBlock? || ss[0].DeferExpr?) && SafeReturns(ss, c.ret, a) && LowerStmts(ss, c).Ok?
    ensures var body := DeferBody(ss[0]);
            SafeReturns(body, c.ret, InDefer(a)) && SafeReturns(ss[1..], c.ret, AfterDefer(a, body)) &&
            Size(body) < Size(ss) && Size(ss[1..]) + Size(body) + 2 <= Size(ss) &&
            ExecStmts(m, k, ss, st) == ExecDefer(m, k, body, ExecStmts(m, k, ss[1..], st)) &&
            LowerBlock(body, c).Ok? &&
            var b := LowerBlock(body, c).value;
            var c1 := c.(pend := c.pend + [b.block], counter := b.counter);
            LowerStmts(ss[1..], c1) == LowerStmts(ss, c) && b.counter <= LowerStmts(ss, c).value.counter &&
            c1.pend <= LowerStmts(ss, c).value.pend
  {
    var body := DeferBody(ss[0]);
    if ss[0].DeferExpr? {
      SizeOne(ExprStmt(ss[0].e));
      assert SizeStmt(ss[0]) == 4;
      assert [ExprStmt(ss[0].e)][1..] == [] && NoJumpStmt(ExprStmt(ss[0].e));
      assert NoJump(body);
    } else {
      assert SizeStmt(ss[0]) == 2 + Size(body);
    }
    hide LowerBlock, ExecDefer, NoJump;
  }

  lemma {:induction false} NestedOnly(m: Machine, b: CBlock, cst: CState)
    ensures CExec(m, [CNested(b)], cst) == CExecBlock(m, b, cst)
  {
    COne(m, CNested(b), cst);
    hide CExecBlock;
  }

  /** Statements that were left normally crossed nothing; otherwise the emitted code is left abnormally, too. */
  lemma {:induction false} HowLeft(m: Machine, c: Ctx, ps: seq<Pending>, around: Around, x: Exit, cst: CState,
                                   top: nat, y: CExit)
    requires Matches(m, c, ps, around, x, cst, top, y)
    ensures y.out.Normal? <==> x.out.Normal?
    ensures x.out.Normal? ==> Starts(c, x.st, y.st) && (around.inDefer ==> y.st.ret == cst.ret)
    ensures x.out.Normal? ==> forall n: nat :: top <= n ==> Read(y.st.frame, Local(n)) == Read(cst.frame, Local(n))
  {
    if x.out.Normal? {
      assert Unwind(m, c.ret, ps, c.loop, x) == x;
    } else {
      UnwindAbnormal(m, c.ret, ps, c.loop, x);
    }
  }

  /** Statements after a defer that were left abnormally have already crossed it. */
  lemma {:induction false} DeferCrossed(m: Machine, c: Ctx, ps: seq<Pending>, around: Around, body: seq<Stmt>, x: Exit,
                                        cst: CState, top: nat, y: CExit)
    requires CtxOk(c, ps, around) && |x.st.vars| == |c.scope| && !x.out.Normal? && LowerBlock(body, c).Ok?
    requires var b := LowerBlock(body, c).value;
             Matches(m, c.(pend := c.pend + [b.block], counter := b.counter), ps + [Pending(body, c, InDefer(around))],
                     AfterDefer(around, body), x, cst, top, y)
    ensures Matches(m, c, ps, around, ExecDefer(m, c.ret, body, x), cst, top, y) && !y.out.Normal?
  {
    hide LowerBlock, NoJump, ExecStmts;
    var ps1 := ps + [Pending(body, c, InDefer(around))];
    assert ps1[..|ps|] == ps && |ps| >= LoopFloor(c);
    UnwindAbnormal(m, c.ret, ps1, c.loop, x);
    if !x.out.OutOfFuel? {
      assert Pop(x, |c.scope|) == x;
      assert Unwind(m, c.ret, ps1, c.loop, x) == Unwind(m, c.ret, ps, c.loop, ExecDefer(m, c.ret, body, x));
    }
  }

  lemma {:induction false} COne(m: Machine, s: CStmt, cst: CState)
    ensures CExec(m, [s], cst) == CExecStmt(m, s, cst)
  {
    assert [s][1..] == [];
  }

  lemma {:induction false} SimBlock(m: Machine, body: seq<Stmt>, c: Ctx, ps: seq<Pending>, around: Around, st: State,
                                    cst: CState,
                                    b: LoweredBlock, x: Exit, y: CExit)
    requires CtxOk(c, ps, around) && SafeReturns(body, c.ret, around) && Starts(c, st, cst) &&
             Ok(b) == LowerBlock(body, c)
    requires x == ExecStmts(m, c.ret, body, st) && y == CExecBlock(m, b.block, cst)
    ensures Matches(m, c, ps, around, x, cst, b.counter, y)
    decreases st.fuel, Weight(ps) + Size(body), 3
  {
    var r := LowerStmts(body, c).value;
    var cst1 := cst.(frame := Zeroed(cst.frame, r.decls));
    assert Starts(c, st, cst1);
    Sim(m, body, c, ps, around, st, cst1, r, x, y);
    AgreesBefore(m, c, ps, around, x, cst, cst1, r.counter, r.counter, y);
  }

  ghost predicate Leaves(c: Ctx, out: Outcome, last: CStmt, ret: int) {
    match out
    case Broke => last == CBreak && c.loop.Some?
    case Continued => last == CContinue && c.loop.Some?
    case Returned(v) => last.CReturn? && v == (if last.value then Some(ret) else None)
    case _ => false
  }

  /** A return leaves no jump pending outside of the loop around it. */
  ghost predicate MayLeave(c: Ctx, ps: seq<Pending>, out: Outcome) {
    out.Returned? ==> forall i :: 0 <= i < |ps| && i < LoopFloor(c) ==> NoJump(ps[i].body)
  }

  lemma {:induction false} MayLeaveBelow(c: Ctx, ps: seq<Pending>, around: Around, out: Outcome)
    requires CtxOk(c, ps, around) && ps != [] && MayLeave(c, ps, out) && |ps| > Floor(c.loop, out).pend
    ensures var n := |ps| - 1;
            MayLeave(ps[n].ctx, ps[..n], out) && (n >= LoopFloor(c) ==> ps[n].ctx.loop == c.loop) &&
            (n < LoopFloor(c) ==> out.Returned? && NoJump(ps[n].body) && forall i :: 0 <= i < n ==> NoJump(ps[..n][i].body))
  {
    hide NoJump, LowerBlock, SafeReturns, ScopeOk;
    var n := |ps| - 1;
    assert LoopFloor(ps[n].ctx) <= n;
    assert forall i :: 0 <= i < n ==> ps[..n][i] == ps[i];
  }

  /** Agreement at an abnormal exit only concerns what the enclosing context can see. */
  lemma {:induction false} Widen(inner: Ctx, within: Around, c: Ctx, around: Around, u: Exit, cst1: CState, cst: CState,
                                 t1: nat, t2: nat, y: CExit)
    requires Agrees(inner, within, u, cst1, t1, y) && t1 <= t2 && !u.out.Normal?
    requires u.out.Broke? || u.out.Continued? ==> inner.loop == c.loop && inner.scope <= c.scope
    requires forall n: nat :: t2 <= n ==> Read(cst1.frame, Local(n)) == Read(cst.frame, Local(n))
    requires Untouched(around, u.out) ==> Untouched(within, u.out) && cst1.ret == cst.ret
    ensures Agrees(c, around, u, cst, t2, y)
  {
  }

  /** Leaving through the copies of the pending defers. */
  lemma {:induction false} SimCopies(m: Machine, c: Ctx, ps: seq<Pending>, around: Around, out: Outcome, last: CStmt,
                                     st: State, cst: CState, y: CExit)
    requires CtxOk(c, ps, around) && Starts(c, st, cst) && Leaves(c, out, last, cst.ret) && MayLeave(c, ps, out)
    requires y == CExec(m, Copies(c.pend, Floor(c.loop, out).pend) + [last], cst)
    ensures Matches(m, c, ps, around, Exit(out, st), cst, c.counter, y)
    decreases st.fuel, Weight(ps), 0
  {
    hide ExecStmts, CExecBlock, LowerBlock, Unwind, SafeReturns, NoJump;
    var k := Floor(c.loop, out).pend;
    if |ps| <= k {
      NothingCrossed(m, c, ps, around, out, last, st, cst, y);
    } else {
      var n := |ps| - 1;
      var p := ps[n];
      var front := ps[..n];
      var rest := Copies(c.pend[..n], k) + [last];
      LatestPending(c, ps, around);
      LatestStarts(c, ps, around, st, cst);
      MayLeaveBelow(c, ps, around, out);
      assert Copies(c.pend, k) + [last] == [CNested(c.pend[n])] + rest;
      hide CExec, CtxOk, Copies, Matches, MayLeave;
      var st1 := State(Take(st.vars, |p.ctx.scope|), st.trace, st.fuel);
      var b := LowerBlock(p.body, p.ctx).value;
      var d := ExecStmts(m, c.ret, p.body, st1);
      var y1 := CExecBlock(m, c.pend[n], cst);
      NestedOnly(m, c.pend[n], cst);
      CExecAppend(m, [CNested(c.pend[n])], rest, cst);
      SimBlock(m, p.body, p.ctx, front, p.around, st1, cst, b, d, y1);
      HowLeft(m, p.ctx, front, p.around, d, cst, b.counter, y1);
      if d.out.Normal? {
        assert p.ctx.pend == c.pend[..n] && Floor(p.ctx.loop, out).pend == k;
        assert y == CExec(m, rest, y1.st);
        SimCopies(m, p.ctx, front, p.around, out, last, d.st, y1.st, y);
        CrossedNormally(m, c, ps, around, out, st, cst, d, y1, y);
      } else {
        CrossedAbnormally(m, c, ps, around, out, st, cst, b.counter, d, y1);
        assert y == y1;
      }
    }
  }

  /** The latest pending defer, as it was lowered. */
  lemma {:induction false} LatestPending(c: Ctx, ps: seq<Pending>, around: Around)
    requires CtxOk(c, ps, around) && ps != []
    ensures var n := |ps| - 1;
            var p := ps[n];
            |c.pend| == |ps| && p.ctx.pend == c.pend[..n] && p.ctx.scope <= c.scope && p.ctx.ret == c.ret &&
            p.around.inDefer && SafeReturns(p.body, c.ret, p.around) && CtxOk(p.ctx, ps[..n], p.around) &&
            (n >= LoopFloor(c) ==> p.around.loopInDefer == around.loopInDefer) &&
            var b := LowerBlock(p.body, p.ctx);
            b.Ok? && b.value.block == c.pend[n] && b.value.counter <= c.counter && p.ctx.counter <= b.value.counter
    ensures Weight(ps) == Weight(ps[..|ps| - 1]) + Size(ps[|ps| - 1].body) + 1
  {
  }

  lemma {:induction false} LatestStarts(c: Ctx, ps: seq<Pending>, around: Around, st: State, cst: CState)
    requires CtxOk(c, ps, around) && ps != [] && Starts(c, st, cst)
    ensures var p := ps[|ps| - 1]; Starts(p.ctx, State(Take(st.vars, |p.ctx.scope|), st.trace, st.fuel), cst)
  {
  }

  /** No defer is pending between here and the place that is left for. */
  lemma {:induction false} NothingCrossed(m: Machine, c: Ctx, ps: seq<Pending>, around: Around, out: Outcome,
                                          last: CStmt, st: State, cst: CState, y: CExit)
    requires CtxOk(c, ps, around) && Starts(c, st, cst) && Leaves(c, out, last, cst.ret) &&
             |ps| <= Floor(c.loop, out).pend
    requires y == CExec(m, Copies(c.pend, Floor(c.loop, out).pend) + [last], cst)
    ensures Matches(m, c, ps, around, Exit(out, st), cst, c.counter, y)
  {
    assert Copies(c.pend, Floor(c.loop, out).pend) + [last] == [last];
    COne(m, last, cst);
  }

  /** The latest pending defer ran to its end; the others follow. */
  lemma {:induction false} CrossedNormally(m: Machine, c: Ctx, ps: seq<Pending>, around: Around, out: Outcome,
                                           st: State, cst: CState, d: Exit, y1: CExit, y: CExit)
    requires CtxOk(c, ps, around) && !out.Normal? && !out.OutOfFuel? && |ps| > Floor(c.loop, out).pend &&
             MayLeave(c, ps, out)
    requires var p := ps[|ps| - 1];
             d == ExecStmts(m, c.ret, p.body, State(Take(st.vars, |p.ctx.scope|), st.trace, st.fuel)) &&
             Matches(m, p.ctx, ps[..|ps| - 1], p.around, Exit(out, d.st), y1.st, p.ctx.counter, y)
    requires d.out.Normal? && y1.st.ret == cst.ret
    requires forall n: nat :: c.counter <= n ==> Read(y1.st.frame, Local(n)) == Read(cst.frame, Local(n))
    ensures Matches(m, c, ps, around, Exit(out, st), cst, c.counter, y)
  {
    var n := |ps| - 1;
    var p, front, e := ps[n], ps[..n], Exit(out, d.st);
    LatestPending(c, ps, around);
    MayLeaveBelow(c, ps, around, out);
    assert Unwind(m, c.ret, ps, c.loop, Exit(out, st)) == Unwind(m, c.ret, front, c.loop, e);
    hide CtxOk, LowerBlock, ExecStmts, SafeReturns, MayLeave, NoJump;
    SameUnwind(m, c, ps, around, e);
    UnwindAbnormal(m, c.ret, front, c.loop, e);
    Widen(p.ctx, p.around, c, around, Unwind(m, c.ret, front, c.loop, e), y1.st, cst, p.ctx.counter, c.counter, y);
  }

  /** What is left crosses the earlier defers alike, seen from the loop around the copy or around the defer. */
  lemma {:induction false} SameUnwind(m: Machine, c: Ctx, ps: seq<Pending>, around: Around, e: Exit)
    requires CtxOk(c, ps, around) && ps != []
    requires var n := |ps| - 1;
             ps[n].ctx.loop == c.loop || e.out.OutOfFuel? || (e.out.Returned? && forall i :: 0 <= i < n ==> NoJump(ps[..n][i].body))
    ensures var n := |ps| - 1;
            var p := ps[n];
            Unwind(m, c.ret, ps[..n], c.loop, e) == Unwind(m, c.ret, ps[..n], p.ctx.loop, e) && p.ctx.ret == c.ret &&
            (p.ctx.loop == c.loop || Unwind(m, c.ret, ps[..n], c.loop, e).out.Returned? ||
             Unwind(m, c.ret, ps[..n], c.loop, e).out.OutOfFuel?)
  {
    LatestPending(c, ps, around);
    var n := |ps| - 1;
    var p := ps[n];
    hide CtxOk, LowerBlock, SafeReturns, NoJump;
    if p.ctx.loop != c.loop && e.out.Returned? {
      UnwindReturned(m, p.ctx, ps[..n], p.around, c.loop, p.ctx.loop, e);
    }
  }

  /** The latest pending defer was itself left by a jump or a return, or ran out of fuel. */
  lemma {:induction false} CrossedAbnormally(m: Machine, c: Ctx, ps: seq<Pending>, around: Around, out: Outcome,
                                             st: State, cst: CState, top: nat, d: Exit, y: CExit)
    requires CtxOk(c, ps, around) && !out.Normal? && !out.OutOfFuel? && |ps| > Floor(c.loop, out).pend &&
             MayLeave(c, ps, out)
    requires var p := ps[|ps| - 1];
             d == ExecStmts(m, c.ret, p.body, State(Take(st.vars, |p.ctx.scope|), st.trace, st.fuel)) &&
             Matches(m, p.ctx, ps[..|ps| - 1], p.around, d, cst, top, y)
    requires !d.out.Normal? && top <= c.counter
    ensures Matches(m, c, ps, around, Exit(out, st), cst, c.counter, y) && !y.out.Normal?
  {
    var n := |ps| - 1;
    var p, front := ps[n], ps[..n];
    LatestPending(c, ps, around);
    MayLeaveBelow(c, ps, around, out);
    if n < LoopFloor(c) {
      NoJumpExec(m, c.ret, p.body, State(Take(st.vars, |p.ctx.scope|), st.trace, st.fuel));
    }
    assert Unwind(m, c.ret, ps, c.loop, Exit(out, st)) == Unwind(m, c.ret, front, c.loop, d);
    hide CtxOk, LowerBlock, ExecStmts, SafeReturns, MayLeave, NoJump;
    SameUnwind(m, c, ps, around, d);
    UnwindAbnormal(m, c.ret, front, c.loop, d);
    Widen(p.ctx, p.around, c, around, Unwind(m, c.ret, front, c.loop, d), cst, cst, top, c.counter, y);
  }

  /** A statement that neither declares nor defers anything. */
  lemma {:induction false} SimStmt(m: Machine, s: Stmt, c: Ctx, ps: seq<Pending>, around: Around, st: State,
                                   cst: CState,
                                   l: LoweredStmt, x: Exit, y: CExit)
    requires !s.Var? && !s.DeferBlock? && !s.DeferExpr? && !s.When?
    requires CtxOk(c, ps, around) && SafeReturnsStmt(s, c.ret, around) && Starts(c, st, cst) && Ok(l) == LowerStmt(s, c)
    requires x == ExecStmt(m, c.ret, s, st) && y == CExec(m, l.code, cst)
    ensures Matches(m, c, ps, around, x, cst, l.counter, y)
    decreases st.fuel, Weight(ps) + SizeStmt(s), 0
  {
    match s
    case If(arms) =>
      var a := LowerArms(arms, c).value;
      COne(m, CIf(a.arms), cst);
      SimArms(m, arms, c, ps, around, st, cst, a, x, y);
    case ForExpr(cond, body) =>
      var e := LowerExpr(c.scope, cond).value;
      var b := LowerBlock(body, LoopCtx(c)).value;
      COne(m, CWhile(e, b.block), cst);
      SimLoop(m, cond, body, c, ps, around, st, cst, e, b, x, y);
    case ForRange(_, _, _, _) => SimForRange(m, s, c, ps, around, st, cst, l, x, y);
    case Switch(e, cases) =>
      EvalAgrees(m, e, c.scope, st.vars, cst.frame, st.trace);
      var (v, t) := Eval(m, e, st.vars, st.trace);
      var a := LowerCases(cases, c).value;
      COne(m, CSwitch(LowerExpr(c.scope, e).value, a.cases), cst);
      SimCases(m, v, cases, c, ps, around, st.(trace := t), cst.(trace := t), a, x, y);
      AgreesBefore(m, c, ps, around, x, cst, cst.(trace := t), a.counter, l.counter, y);
    case Break => SimCopies(m, c, ps, around, Broke, CBreak, st, cst, y);
    case Continue => SimCopies(m, c, ps, around, Continued, CContinue, st, cst, y);
    case Return(_) => SimReturn(m, s, c, ps, around, st, cst, l, x, y);
    case _ => SimSimple(m, s, c, ps, around, st, cst, l, x, y);
  }

  lemma {:induction false} SimSimple(m: Machine, s: Stmt, c: Ctx, ps: seq<Pending>, around: Around, st: State,
                                     cst: CState,
                                     l: LoweredStmt, x: Exit, y: CExit)
    requires s.Assign? || s.ExprStmt?
    requires CtxOk(c, ps, around) && Starts(c, st, cst) && Ok(l) == LowerStmt(s, c)
    requires x == ExecStmt(m, c.ret, s, st) && y == CExec(m, l.code, cst)
    ensures Matches(m, c, ps, around, x, cst, l.counter, y)
  {
    SimpleSteps(m, s, c, st, cst, l);
    EvalAgrees(m, s.e, c.scope, st.vars, cst.frame, st.trace);
    hide LowerStmt, LowerExpr, LowerName, ExecStmt, CExec, CtxOk, Eval, CEval, Update;
    var (v, t) := Eval(m, s.e, st.vars, st.trace);
    assert Unwind(m, c.ret, ps, c.loop, x) == x;
    if s.Assign? {
      ScopeIsOk(c, ps, around);
      AssignAgrees(c.scope, c.counter, st.vars, cst.frame, s.name, v);
    }
  }

  lemma {:induction false} ScopeIsOk(c: Ctx, ps: seq<Pending>, around: Around)
    requires CtxOk(c, ps, around)
    ensures ScopeOk(c.scope, c.counter)
  {
  }

  lemma {:induction false} SimpleSteps(m: Machine, s: Stmt, c: Ctx, st: State, cst: CState, l: LoweredStmt)
    requires (s.Assign? || s.ExprStmt?) && Ok(l) == LowerStmt(s, c)
    ensures l.counter == c.counter && LowerExpr(c.scope, s.e).Ok? && (s.Assign? ==> LowerName(c.scope, s.name).Ok?)
    ensures var (v, t) := Eval(m, s.e, st.vars, st.trace);
            ExecStmt(m, c.ret, s, st) ==
              Exit(Normal, if s.Assign? then st.(vars := Update(st.vars, s.name, v), trace := t) else st.(trace := t))
    ensures var (v, t) := CEval(m, LowerExpr(c.scope, s.e).value, cst.frame, cst.trace);
            CExec(m, l.code, cst) ==
              CExit(Normal, if s.Assign? then cst.(frame := cst.frame[LowerName(c.scope, s.name).value := v], trace := t)
                            else cst.(trace := t))
  {
    hide LowerExpr, LowerName, Eval, CEval, Update;
    COne(m, l.code[0], cst);
  }

  lemma {:induction false} SimReturn(m: Machine, s: Stmt, c: Ctx, ps: seq<Pending>, around: Around, st: State,
                                     cst: CState,
                                     l: LoweredStmt, x: Exit, y: CExit)
    requires s.Return? && ReturnSafe(c.ret, around) && CtxOk(c, ps, around) && Starts(c, st, cst) &&
             Ok(l) == LowerStmt(s, c)
    requires x == ExecStmt(m, c.ret, s, st) && y == CExec(m, l.code, cst)
    ensures Matches(m, c, ps, around, x, cst, l.counter, y)
    decreases st.fuel, Weight(ps), 1
  {
    assert forall i :: 0 <= i < |ps| && i < LoopFloor(c) ==> NoJump(ps[i].body);
    match s.value
    case None => SimCopies(m, c, ps, around, Returned(None), CReturn(false), st, cst, y);
    case Some(e) =>
      hide LowerStmt, LowerExpr, ExecStmt, CExec, Eval, CEval, CtxOk, Copies, NoJump;
      ReturnSteps(m, s, c, st, cst, l);
      EvalAgrees(m, e, c.scope, st.vars, cst.frame, st.trace);
      var (v, t) := Eval(m, e, st.vars, st.trace);
      var sized := c.ret.SizedReturn?;
      var cst1 := if sized then cst.(ret := v, trace := t) else cst.(trace := t);
      SimCopies(m, c, ps, around, x.out, CReturn(sized), x.st, cst1, y);
      ReturnUnwound(m, c, ps, around, x);
      ReturnSet(c, around, Unwind(m, c.ret, ps, c.loop, x), cst1, cst, c.counter, y);
  }

  /** In a loop in a defer body a return with a value is not turned into a jump. */
  lemma {:induction false} ReturnUnwound(m: Machine, c: Ctx, ps: seq<Pending>, around: Around, x: Exit)
    requires CtxOk(c, ps, around) && ReturnSafe(c.ret, around) && x.out.Returned?
    ensures var u := Unwind(m, c.ret, ps, c.loop, x);
            !u.out.Normal? && (c.ret.SizedReturn? && around.loopInDefer ==> (u.out.Returned? || u.out.OutOfFuel?))
  {
    UnwindAbnormal(m, c.ret, ps, c.loop, x);
    if c.ret.SizedReturn? && around.loopInDefer {
      UnwindReturned(m, c, ps, around, c.loop, c.loop, x);
    }
  }

  /** The value is computed, and stored if it has a size, before the defers run. */
  lemma {:induction false} ReturnSteps(m: Machine, s: Stmt, c: Ctx, st: State, cst: CState, l: LoweredStmt)
    requires s.Return? && s.value.Some? && Ok(l) == LowerStmt(s, c)
    ensures l.counter == c.counter && LowerExpr(c.scope, s.value.value).Ok?
    ensures var (v, t) := Eval(m, s.value.value, st.vars, st.trace);
            ExecStmt(m, c.ret, s, st) == Exit(Returned(if c.ret.SizedReturn? then Some(v) else None), st.(trace := t))
    ensures var (v, t) := CEval(m, LowerExpr(c.scope, s.value.value).value, cst.frame, cst.trace);
            CExec(m, l.code, cst) == CExec(m, Copies(c.pend, 0) + [CReturn(c.ret.SizedReturn?)],
                                           if c.ret.SizedReturn? then cst.(ret := v, trace := t) else cst.(trace := t))
  {
    hide LowerExpr, Eval, CEval, Copies;
    assert l.code[1..] == Copies(c.pend, 0) + [CReturn(c.ret.SizedReturn?)];
  }

  /** At a return it does not matter what the return slot held before. */
  lemma {:induction false} ReturnSet(c: Ctx, around: Around, u: Exit, cst1: CState, cst: CState, top: nat, y: CExit)
    requires Agrees(c, around, u, cst1, top, y) && cst1.frame == cst.frame
    requires Untouched(around, u.out) ==> cst1.ret == cst.ret
    ensures Agrees(c, around, u, cst, top, y)
  {
  }

  lemma {:induction false} SimArms(m: Machine, a: Arms, c: Ctx, ps: seq<Pending>, around: Around, st: State,
                                   cst: CState,
                                   l: LoweredArms, x: Exit, y: CExit)
    requires CtxOk(c, ps, around) && SafeReturnsArms(a, c.ret, around) && Starts(c, st, cst) && Ok(l) == LowerArms(a, c)
    requires x == ExecArms(m, c.ret, a, st) && y == CExecArms(m, l.arms, cst)
    ensures Matches(m, c, ps, around, x, cst, l.counter, y)
    decreases st.fuel, Weight(ps) + SizeArms(a), 0
  {
    match a
    case NoArm =>
    case Else(body) => SimBlock(m, body, c, ps, around, st, cst, LowerBlock(body, c).value, x, y);
    case Elif(cond, body, rest) =>
      EvalAgrees(m, cond, c.scope, st.vars, cst.frame, st.trace);
      var (v, t) := Eval(m, cond, st.vars, st.trace);
      var b := LowerBlock(body, c).value;
      var st1, cst1 := st.(trace := t), cst.(trace := t);
      if v != 0 {
        SimBlock(m, body, c, ps, around, st1, cst1, b, x, y);
        AgreesBefore(m, c, ps, around, x, cst, cst1, b.counter, l.counter, y);
      } else {
        var c1 := c.(counter := b.counter);
        Grow(c, ps, around, b.counter);
        SimArms(m, rest, c1, ps, around, st1, cst1, LowerArms(rest, c1).value, x, y);
        assert Matches(m, c, ps, around, x, cst1, l.counter, y);
        AgreesBefore(m, c, ps, around, x, cst, cst1, l.counter, l.counter, y);
      }
  }

  lemma {:induction false} SpreadExec(m: Machine, v: int, symbols: seq<int>, b: CBlock, rest: CCases, cst: CState)
    ensures CExecCases(m, v, Spread(symbols, b, rest), cst) ==
            if v in symbols then CExecBlock(m, b, cst) else CExecCases(m, v, rest, cst)
  {
    if symbols != [] {
      SpreadExec(m, v, symbols[1..], b, rest, cst);
    }
  }

  lemma {:induction false} SimCases(m: Machine, v: int, cs: Cases, c: Ctx, ps: seq<Pending>, around: Around, st: State,
                                    cst: CState,
                                    l: LoweredCases, x: Exit, y: CExit)
    requires CtxOk(c, ps, around) && SafeReturnsCases(cs, c.ret, around) && Starts(c, st, cst) &&
             Ok(l) == LowerCases(cs, c)
    requires x == ExecCases(m, c.ret, v, cs, st) && y == CExecCases(m, v, l.cases, cst)
    ensures Matches(m, c, ps, around, x, cst, l.counter, y)
    decreases st.fuel, Weight(ps) + SizeCases(cs), 0
  {
    match cs
    case NoCase =>
    case ElseCase(body) => SimBlock(m, body, c, ps, around, st, cst, LowerBlock(body, c).value, x, y);
    case Case(symbols, body, rest) =>
      var b := LowerBlock(body, c).value;
      var c1 := c.(counter := b.counter);
      var l1 := LowerCases(rest, c1).value;
      SpreadExec(m, v, symbols, b.block, l1.cases, cst);
      if v in symbols {
        SimBlock(m, body, c, ps, around, st, cst, b, x, y);
        AgreesBefore(m, c, ps, around, x, cst, cst, b.counter, l.counter, y);
      } else {
        Grow(c, ps, around, b.counter);
        SimCases(m, v, rest, c1, ps, around, st, cst, l1, x, y);
        assert Matches(m, c, ps, around, x, cst, l.counter, y);
      }
  }

  /** How a loop ends when an iteration was left by `x1`: a return has unwound everything, any other
      way of leaving has unwound exactly to the loop. */
  lemma {:induction false} BodyLeft(m: Machine, c: Ctx, inner: Ctx, ps: seq<Pending>, around: Around, x: Exit)
    requires CtxOk(c, ps, around) && c.ret == inner.ret
    requires inner.loop == Some(Loop(|ps|, |inner.scope|)) && |x.st.vars| == |inner.scope|
    requires x.out.Returned? ==> forall i :: 0 <= i < |ps| ==> NoJump(ps[i].body)
    ensures x.out.Returned? ==>
              var u := Unwind(m, inner.ret, ps, inner.loop, x);
              u == Unwind(m, c.ret, ps, c.loop, x) && (u.out.Returned? || u.out.OutOfFuel?)
    ensures !x.out.Returned? ==> Unwind(m, inner.ret, ps, inner.loop, x) == x
  {
    if x.out.Returned? {
      UnwindReturned(m, c, ps, around, inner.loop, c.loop, x);
    } else {
      assert Pop(x, |inner.scope|) == x;
    }
  }

  /** A loop that is left in its body, other than by `continue`. */
  lemma {:induction false} LoopLeft(m: Machine, c: Ctx, inner: Ctx, ps: seq<Pending>, around: Around, x1: Exit,
                                    cst1: CState, cst: CState, top: nat, y1: CExit,
                 x: Exit, y: CExit)
    requires CtxOk(c, ps, around) && c.ret == inner.ret && c.scope <= inner.scope && cst1.ret == cst.ret &&
             cst1.frame == cst.frame
    requires inner.loop == Some(Loop(|ps|, |inner.scope|)) && |x1.st.vars| == |inner.scope|
    requires Matches(m, inner, ps, InLoop(around), x1, cst1, top, y1) && !x1.out.Normal? && !x1.out.Continued?
    requires x1.out.Returned? ==> forall i :: 0 <= i < |ps| ==> NoJump(ps[i].body)
    requires x == (if x1.out.Broke? then Exit(Normal, x1.st) else x1)
    requires y == (if y1.out.Broke? then CExit(Normal, y1.st) else y1)
    ensures Matches(m, c, ps, around, Pop(x, |c.scope|), cst, top, y)
    ensures !y1.out.Normal? && !y1.out.Continued? && (x1.out.Broke? <==> y1.out.Broke?)
  {
    BodyLeft(m, c, inner, ps, around, x1);
    if x1.out.Returned? {
      UnwindPop(m, c, ps, around, x1);
      var u := Unwind(m, c.ret, ps, c.loop, x1);
      assert Agrees(inner, InLoop(around), u, cst1, top, y1);
      assert Agrees(c, around, u, cst, top, y1);
    }
  }

  lemma {:induction false} SimLoop(m: Machine, cond: Expr, body: seq<Stmt>, c: Ctx, ps: seq<Pending>, around: Around,
                                   st: State, cst: CState,
                                   e: CExpr, b: LoweredBlock, x: Exit, y: CExit)
    requires CtxOk(c, ps, around) && SafeReturns(body, c.ret, InLoop(around)) && Starts(c, st, cst)
    requires Ok(e) == LowerExpr(c.scope, cond) && Ok(b) == LowerBlock(body, LoopCtx(c))
    requires x == ExecLoop(m, c.ret, cond, body, st) && y == CExecLoop(m, e, b.block, cst)
    ensures Matches(m, c, ps, around, x, cst, b.counter, y)
    decreases st.fuel, Weight(ps) + Size(body), 4
  {
    hide ExecStmts, CExecBlock, LowerExpr, LowerBlock, CtxOk, Matches, Eval, CEval;
    if st.fuel == 0 {
      LoopDone(m, c, ps, around, OutOfFuel, st, cst, st.trace, b.counter);
    } else {
      EvalAgrees(m, cond, c.scope, st.vars, cst.frame, st.trace);
      var (v, t) := Eval(m, cond, st.vars, st.trace);
      if v == 0 {
        LoopDone(m, c, ps, around, Normal, st, cst, t, b.counter);
      } else {
        LoopCtxOk(c, ps, around);
        var cst1 := cst.(trace := t, fuel := cst.fuel - 1);
        SimPass(m, cond, body, c, ps, around, State(st.vars, t, st.fuel - 1), cst1, e, b, x, y);
        AgreesBefore(m, c, ps, around, x, cst, cst1, b.counter, b.counter, y);
      }
    }
  }

  lemma {:induction false} LoopCtxOk(c: Ctx, ps: seq<Pending>, around: Around)
    requires CtxOk(c, ps, around)
    ensures CtxOk(LoopCtx(c), ps, InLoop(around))
  {
  }

  /** The loop ends before its body. */
  lemma {:induction false} LoopDone(m: Machine, c: Ctx, ps: seq<Pending>, around: Around, out: Outcome, st: State,
                                    cst: CState, t: seq<Event>, top: nat)
    requires Starts(c, st, cst) && (out.Normal? || out.OutOfFuel?)
    ensures Matches(m, c, ps, around, Exit(out, st.(trace := t)), cst, top, CExit(out, cst.(trace := t)))
  {
    assert Unwind(m, c.ret, ps, c.loop, Exit(out, st.(trace := t))) == Exit(out, st.(trace := t));
  }

  function AfterPass(m: Machine, k: ReturnKind, cond: Expr, body: seq<Stmt>, x: Exit): Exit {
    if x.out.Normal? || x.out.Continued? then ExecLoop(m, k, cond, body, x.st)
    else if x.out.Broke? then Exit(Normal, x.st)
    else x
  }

  function CAfterPass(m: Machine, e: CExpr, body: CBlock, y: CExit): CExit {
    if y.out.Normal? || y.out.Continued? then CExecLoop(m, e, body, y.st)
    else if y.out.Broke? then CExit(Normal, y.st)
    else y
  }

  /** One run of the body of a loop, and what follows it. */
  lemma {:induction false} SimPass(m: Machine, cond: Expr, body: seq<Stmt>, c: Ctx, ps: seq<Pending>, around: Around,
                                   st: State, cst: CState,
                                   e: CExpr, b: LoweredBlock, x: Exit, y: CExit)
    requires CtxOk(c, ps, around) && CtxOk(LoopCtx(c), ps, InLoop(around)) &&
             SafeReturns(body, c.ret, InLoop(around)) && Starts(c, st, cst)
    requires Ok(e) == LowerExpr(c.scope, cond) && Ok(b) == LowerBlock(body, LoopCtx(c))
    requires x == AfterPass(m, c.ret, cond, body, ExecStmts(m, c.ret, body, st))
    requires y == CAfterPass(m, e, b.block, CExecBlock(m, b.block, cst))
    ensures Matches(m, c, ps, around, x, cst, b.counter, y)
    decreases st.fuel, Weight(ps) + Size(body), 5
  {
    hide ExecStmts, CExecBlock, LowerExpr, LowerBlock, ExecLoop, CExecLoop;
    var lc := LoopCtx(c);
    var x1 := ExecStmts(m, c.ret, body, st);
    var y1 := CExecBlock(m, b.block, cst);
    SimBlock(m, body, lc, ps, InLoop(around), st, cst, b, x1, y1);
    SameLength(c, ps, around, st, x1);
    LoopReturns(m, c, ps, around, body, st);
    hide CtxOk, SafeReturns, NoJump;
    if x1.out.Normal? || x1.out.Continued? {
      BodyLeft(m, c, lc, ps, around, x1);
      assert Agrees(lc, InLoop(around), x1, cst, b.counter, y1);
      SimLoop(m, cond, body, c, ps, around, x1.st, y1.st, e, b, x, y);
      AgreesBefore(m, c, ps, around, x, cst, y1.st, b.counter, b.counter, y);
    } else {
      LoopLeft(m, c, lc, ps, around, x1, cst, cst, b.counter, y1, x, if y1.out.Broke? then CExit(Normal, y1.st) else y1);
      assert Pop(x, |c.scope|) == x;
    }
  }

  lemma {:induction false} SameLength(c: Ctx, ps: seq<Pending>, around: Around, st: State, x: Exit)
    requires CtxOk(c, ps, around) && |st.vars| == |c.scope| && SameShape(st.vars, x.st.vars)
    ensures |x.st.vars| == |c.scope| && |ps| == |c.pend|
  {
  }

  lemma {:induction false} SimForRange(m: Machine, s: Stmt, c: Ctx, ps: seq<Pending>, around: Around, st: State,
                                       cst: CState,
                                       l: LoweredStmt, x: Exit, y: CExit)
    requires s.ForRange?
    requires CtxOk(c, ps, around) && SafeReturns(s.body, c.ret, InLoop(around)) && Starts(c, st, cst) &&
             Ok(l) == LowerStmt(s, c)
    requires x == ExecStmt(m, c.ret, s, st) && y == CExec(m, l.code, cst)
    ensures Matches(m, c, ps, around, x, cst, l.counter, y)
    decreases st.fuel, Weight(ps) + Size(s.body), 7
  {
    var ForRange(name, begin, end, body) := s;
    EvalAgrees(m, begin, c.scope, st.vars, cst.frame, st.trace);
    var (v, t) := Eval(m, begin, st.vars, st.trace);
    var slot := Local(c.counter);
    var rc := RangeCtx(c, name);
    var b := LowerBlock(body, rc).value;
    var e := LowerExpr(c.scope, end).value;
    COne(m, l.code[0], cst);
    var st1 := State(st.vars + [Binding(name, v)], t, st.fuel);
    var cst1 := cst.(frame := cst.frame[slot := v], trace := t);
    VarStarts(name, v, c, ps, around, st, cst, t);
    assert Starts(rc, st1, cst1);
    var x1 := ExecRange(m, c.ret, end, body, |c.scope|, st1);
    SimRange(m, name, end, body, c, ps, around, st1, cst1, e, b, x1, y);
    AgreesBefore(m, c, ps, around, x, cst, cst1, b.counter, b.counter, y);
  }

  lemma {:induction false} RangeOk(c: Ctx, ps: seq<Pending>, around: Around, name: string)
    requires CtxOk(c, ps, around)
    ensures CtxOk(RangeCtx(c, name), ps, InLoop(around))
  {
    InnerOk(c, ps, around, name);
  }

  lemma {:induction false} StepStarts(m: Machine, c: Ctx, ps: seq<Pending>, around: Around, name: string, st: State,
                                      cst: CState)
    requires CtxOk(c, ps, around) && Starts(RangeCtx(c, name), st, cst)
    ensures Starts(RangeCtx(c, name), Step(m, st, |c.scope|), CStep(m, Local(c.counter), cst))
  {
    var rc := RangeCtx(c, name);
    assert rc.scope[|c.scope|] == Entry(name, Local(c.counter));
    assert forall i :: 0 <= i < |c.scope| ==> rc.scope[i] == c.scope[i];
  }

  /** The loop variable goes out of scope. */
  lemma {:induction false} RangeDone(m: Machine, c: Ctx, ps: seq<Pending>, around: Around, name: string, out: Outcome,
                                     st: State, cst: CState, t: seq<Event>, top: nat)
    requires CtxOk(c, ps, around) && Starts(RangeCtx(c, name), st, cst) && (out.Normal? || out.OutOfFuel?)
    ensures Matches(m, c, ps, around, Pop(Exit(out, st.(trace := t)), |c.scope|), cst, top,
            CExit(out, cst.(trace := t)))
  {
    var rc := RangeCtx(c, name);
    assert forall i :: 0 <= i < |c.scope| ==> rc.scope[i] == c.scope[i];
  }

  lemma {:induction false} SimRange(m: Machine, name: string, end: Expr, body: seq<Stmt>, c: Ctx, ps: seq<Pending>,
                                    around: Around,
                                    st: State, cst: CState, e: CExpr, b: LoweredBlock, x: Exit, y: CExit)
    requires CtxOk(c, ps, around) && SafeReturns(body, c.ret, InLoop(around)) && Starts(RangeCtx(c, name), st, cst)
    requires Ok(e) == LowerExpr(c.scope, end) && Ok(b) == LowerBlock(body, RangeCtx(c, name))
    requires x == ExecRange(m, c.ret, end, body, |c.scope|, st) && y == CExecRange(m, Local(c.counter), e, b.block, cst)
    ensures Matches(m, c, ps, around, Pop(x, |c.scope|), cst, b.counter, y)
    decreases st.fuel, Weight(ps) + Size(body), 4
  {
    hide ExecStmts, CExecBlock, LowerExpr, LowerBlock, CtxOk, Matches, Eval, CEval;
    var n := |c.scope|;
    var rc := RangeCtx(c, name);
    if st.fuel == 0 {
      RangeDone(m, c, ps, around, name, OutOfFuel, st, cst, st.trace, b.counter);
    } else {
      RangeTest(m, name, end, c, ps, around, st, cst);
      var (v, t) := Eval(m, end, st.vars[..n], st.trace);
      if m.prim("<", st.vars[n].val, v) == 0 {
        RangeDone(m, c, ps, around, name, Normal, st, cst, t, b.counter);
      } else {
        RangeOk(c, ps, around, name);
        SimIteration(m, name, end, body, c, rc, ps, around, State(st.vars, t, st.fuel - 1),
                     cst.(trace := t, fuel := cst.fuel - 1), e, b, x, y);
        AgreesBefore(m, c, ps, around, Pop(x, n), cst, cst.(trace := t, fuel := cst.fuel - 1), b.counter, b.counter, y);
      }
    }
  }

  function AfterIteration(m: Machine, k: ReturnKind, end: Expr, body: seq<Stmt>, n: nat, x: Exit): Exit
    requires n < |x.st.vars|
  {
    if x.out.Normal? || x.out.Continued? then ExecRange(m, k, end, body, n, Step(m, x.st, n))
    else if x.out.Broke? then Exit(Normal, x.st)
    else x
  }

  function CAfterIteration(m: Machine, slot: Slot, e: CExpr, body: CBlock, y: CExit): CExit {
    if y.out.Normal? || y.out.Continued? then CExecRange(m, slot, e, body, CStep(m, slot, y.st))
    else if y.out.Broke? then CExit(Normal, y.st)
    else y
  }

  /** One iteration of a range loop, and what follows it. */
  lemma {:induction false} SimIteration(m: Machine, name: string, end: Expr, body: seq<Stmt>, c: Ctx, rc: Ctx,
                                        ps: seq<Pending>, around: Around,
                                        st: State, cst: CState, e: CExpr, b: LoweredBlock, x: Exit, y: CExit)
    requires CtxOk(c, ps, around) && SafeReturns(body, c.ret, InLoop(around)) && rc == RangeCtx(c, name) &&
             CtxOk(rc, ps, InLoop(around)) && Starts(rc, st, cst)
    requires Ok(e) == LowerExpr(c.scope, end) && Ok(b) == LowerBlock(body, rc)
    requires x == AfterIteration(m, c.ret, end, body, |c.scope|, ExecStmts(m, c.ret, body, st))
    requires y == CAfterIteration(m, Local(c.counter), e, b.block, CExecBlock(m, b.block, cst))
    ensures Matches(m, c, ps, around, Pop(x, |c.scope|), cst, b.counter, y)
    decreases st.fuel, Weight(ps) + Size(body), 5
  {
    hide ExecStmts, CExecBlock, LowerExpr, LowerBlock, ExecRange, CExecRange;
    var n := |c.scope|;
    var x1 := ExecStmts(m, c.ret, body, st);
    var y1 := CExecBlock(m, b.block, cst);
    SimBlock(m, body, rc, ps, InLoop(around), st, cst, b, x1, y1);
    assert |x1.st.vars| == |rc.scope| && |ps| == |c.pend|;
    LoopReturns(m, c, ps, around, body, st);
    hide CtxOk, SafeReturns, NoJump;
    if x1.out.Normal? || x1.out.Continued? {
      BodyLeft(m, c, rc, ps, around, x1);
      assert Agrees(rc, InLoop(around), x1, cst, b.counter, y1);
      StepStarts(m, c, ps, around, name, x1.st, y1.st);
      var cst2 := CStep(m, Local(c.counter), y1.st);
      SimRange(m, name, end, body, c, ps, around, Step(m, x1.st, n), cst2, e, b, x, y);
      AgreesBefore(m, c, ps, around, Pop(x, n), cst, cst2, b.counter, b.counter, y);
    } else {
      LoopLeft(m, c, rc, ps, around, x1, cst, cst, b.counter, y1, x, if y1.out.Broke? then CExit(Normal, y1.st) else y1);
    }
  }

  /** Both sides see the same bound and the same index before an iteration. */
  lemma {:induction false} RangeTest(m: Machine, name: string, end: Expr, c: Ctx, ps: seq<Pending>, around: Around,
                                     st: State, cst: CState)
    requires CtxOk(c, ps, around) && Starts(RangeCtx(c, name), st, cst) && LowerExpr(c.scope, end).Ok?
    ensures CEval(m, LowerExpr(c.scope, end).value, cst.frame, cst.trace) ==
            Eval(m, end, st.vars[..|c.scope|], st.trace)
    ensures Read(cst.frame, Local(c.counter)) == st.vars[|c.scope|].val
  {
    var n := |c.scope|;
    var rc := RangeCtx(c, name);
    assert rc.scope[n] == Entry(name, Local(c.counter));
    assert forall i :: 0 <= i < n ==> rc.scope[i] == c.scope[i];
    EvalAgrees(m, end, c.scope, st.vars[..n], cst.frame, st.trace);
  }

  // ---------- The theorem ----------

  /** A body that ends in a return statement is never left by falling off its end. */
  lemma {:induction false} EndsInReturnExec(m: Machine, k: ReturnKind, ss: seq<Stmt>, st: State)
    requires EndsInReturn(ss, false)
    ensures !ExecStmts(m, k, ss, st).out.Normal?
    decreases Size(ss)
  {
    var rest := ss[1..];
    match ss[0]
    case Var(name, init) =>
      var (v, t) := if init.Some? then Eval(m, init.value, st.vars, st.trace) else (0, st.trace);
      EndsInReturnExec(m, k, rest, State(st.vars + [Binding(name, v)], t, st.fuel));
    case DeferBlock(_) => EndsInReturnExec(m, k, rest, st);
    case DeferExpr(_) => EndsInReturnExec(m, k, rest, st);
    case When(w) =>
      SplicedSize(ss);
      EndsInReturnExec(m, k, SelectedStmts(w) + rest, st);
    case Return(_) =>
    case s => EndsInReturnExec(m, k, rest, ExecStmt(m, k, s, st).st);
  }

  /** A function is lowered without changing what its caller can observe: the way it ends and the
      value it returns, the calls it makes, and how many loop iterations it takes - for every
      behaviour of the operators and of the functions called, all arguments and every fuel. */
  lemma {:induction false} LoweringPreservesMeaning(m: Machine, f: Function, args: seq<int>, fuel: nat)
    requires LowerFunction(f).Ok? && SafeReturns(f.body, f.ret, NOTHING) && |args| == |f.params|
    ensures CRun(m, LowerFunction(f).value, args, fuel) == Run(m, f, args, fuel)
  {
    FunctionBody(f);
    var c := FunctionCtx(f);
    var b := LowerBlock(f.body, c).value;
    var st, cst := State(Arguments(f.params, args), [], fuel), CState(ArgumentFrame(args), 0, [], fuel);
    var x := ExecStmts(m, f.ret, f.body, st);
    var y := CExecBlock(m, b.block, cst);
    FunctionStarts(f, args, st, cst);
    SimBlock(m, f.body, c, [], NOTHING, st, cst, b, x, y);
    TopUnwind(m, c, NOTHING, x, cst, b.counter, y);
    if !f.ret.VoidReturn? {
      EndsInReturnExec(m, f.ret, f.body, st);
    }
    FinalReturnDead(m, b.block, f.ret, cst, y);
  }

  lemma {:induction false} FunctionBody(f: Function)
    requires LowerFunction(f).Ok?
    ensures LowerBlock(f.body, FunctionCtx(f)).Ok?
    ensures var b := LowerBlock(f.body, FunctionCtx(f)).value.block;
            LowerFunction(f).value == CFunction(|f.params|, CBlock(b.decls, b.body + FinalReturn(f.ret)))
    ensures !f.ret.VoidReturn? ==> EndsInReturn(f.body, false)
  {
  }

  /** The final return statement is only reached from a body that can fall off its end. */
  lemma {:induction false} FinalReturnDead(m: Machine, b: CBlock, k: ReturnKind, cst: CState, y: CExit)
    requires y == CExecBlock(m, b, cst) && (k.SizedReturn? ==> !y.out.Normal?)
    ensures CExecBlock(m, CBlock(b.decls, b.body + FinalReturn(k)), cst) == y
  {
    CExecAppend(m, b.body, FinalReturn(k), cst.(frame := Zeroed(cst.frame, b.decls)));
  }

  lemma {:induction false} FunctionStarts(f: Function, args: seq<int>, st: State, cst: CState)
    requires |args| == |f.params|
    requires st.vars == Arguments(f.params, args) && cst.frame == ArgumentFrame(args)
    requires st.trace == cst.trace && st.fuel == cst.fuel
    ensures CtxOk(FunctionCtx(f), [], NOTHING) && Starts(FunctionCtx(f), st, cst)
  {
  }

  /** At function level there is nothing left to unwind. */
  lemma {:induction false} TopUnwind(m: Machine, c: Ctx, around: Around, x: Exit, cst: CState, top: nat, y: CExit)
    requires c.loop.None? && Matches(m, c, [], around, x, cst, top, y)
    ensures y.out == x.out && y.st.trace == x.st.trace && y.st.fuel == x.st.fuel
  {
  }
}
