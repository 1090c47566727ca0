// Compiling one function body with the resolver and the code generator, and the families of
// programs that this lowering does not serve.

module FunctionCompiler {
  import opened Wrappers
  import opened SourceLang
  import opened CLang
  import opened Lowering
  import opened Resolver
  import opened Codegen
  import opened ResolverProof
  import ResolverObject
  import Emitter

  /** Resolves a function body and emits it.  `Ok(None)` is a compiler that dereferenced NULL. */
  method Compile(f: Function) returns (r: Result<Option<CFunction>>)
    ensures match CompleteFunction(f)
            case Fatal(why) => r == Fatal(why)
            case Ok(b) => r == Ok(GenFunction(b.st.defers, f, b.res))
    ensures NoLost(f.body, 0) ==> (r.Ok? <==> LowerFunction(f).Ok?)
    ensures r.Ok? && NoLost(f.body, 0) && SafeReturns(f.body, f.ret, NOTHING) ==>
              r.value.Some? && r.value.value.params == |f.params| &&
              forall m, args, fuel: nat :: |args| == |f.params| ==> CRun(m, r.value.value, args, fuel) == Run(m, f, args, fuel)
  {
    hide CompleteFunction, LowerFunction, GenFunction, NoLost, SafeReturns, Run, CRun;
    r := ResolveAndEmit(f);
    if NoLost(f.body, 0) {
      CompiledIsLowered(f);
      if r.Ok? && SafeReturns(f.body, f.ret, NOTHING) {
        AllRuns(f);
      }
    }
  }

  method ResolveAndEmit(f: Function) returns (r: Result<Option<CFunction>>)
    ensures match CompleteFunction(f)
            case Fatal(why) => r == Fatal(why)
            case Ok(b) => r == Ok(GenFunction(b.st.defers, f, b.res))
  {
    hide ResolveBlock, GenBlock, Distinct;
    if !Distinct(f.params) {
      return Fatal("redeclaration of parameter");
    }
    var resolver := new ResolverObject.Object(f);
    var body := resolver.Block(f.body);
    if body.Fatal? {
      return Fatal(body.why);
    }
    var stmts := body.value.stmts;
    if !f.ret.VoidReturn? && (|stmts| == 0 || !stmts[|stmts| - 1].RReturn?) {
      return Fatal("Non-void-returning function does not end with a return statement");
    }
    var emitter := new Emitter.Emitter(resolver.defers, f.ret);
    var block := emitter.Block(body.value, None, |resolver.defers|);
    if block.None? {
      return Ok(None);
    }
    var b := block.value;
    return Ok(Some(CFunction(|f.params|, CBlock(b.decls, b.body + FinalReturn(f.ret)))));
  }

  lemma {:induction false} AllRuns(f: Function)
    requires CompleteFunction(f).Ok? && NoLost(f.body, 0) && SafeReturns(f.body, f.ret, NOTHING)
    ensures var b := CompleteFunction(f).value;
            var code := GenFunction(b.st.defers, f, b.res);
            code.Some? && code.value.params == |f.params| &&
            forall m, args, fuel: nat :: |args| == |f.params| ==> CRun(m, code.value, args, fuel) == Run(m, f, args, fuel)
  {
    CompiledIsLowered(f);
    forall m, args, fuel: nat | |args| == |f.params|
      ensures var b := CompleteFunction(f).value;
              CRun(m, GenFunction(b.st.defers, f, b.res).value, args, fuel) == Run(m, f, args, fuel)
    {
      CompilerPreservesMeaning(m, f, args, fuel);
    }
  }

  // ---------- A `when` without a selected arm ----------

  const CLEANUP := DeferExpr(SourceLang.Call("cleanup", Const(0)))

  // defer cleanup(0); when false { }
  const LOSES_DEFER := Function([], VoidReturn, [CLEANUP, When(ElWhen(false, [], NoWhen))])

  /** A `when` that selects no arm makes the compiler forget the pending defer: the source calls
      `cleanup`, the emitted function does not. */
  lemma {:induction false} LostDeferExample(m: Machine, fuel: nat)
    ensures !NoLost(LOSES_DEFER.body, 0)
    ensures CompleteFunction(LOSES_DEFER).Ok?
    ensures var b := CompleteFunction(LOSES_DEFER).value;
            var code := GenFunction(b.st.defers, LOSES_DEFER, b.res);
            code.Some? && code.value.params == 0 &&
            CRun(m, code.value, [], fuel).trace == [] &&
            Run(m, LOSES_DEFER, [], fuel).trace == [Event("cleanup", 0)]
  {
    LostSource(m, fuel);
    LostResolved();
    var body := LOSES_DEFER.body;
    assert !NoLost(body[1..], 1);
    var b := CompleteFunction(LOSES_DEFER).value;
    var none: seq<CStmt> := [];
    assert none + none == none && [RDefer(0)][1..] == [];
    assert GenStmt(b.st.defers, VoidReturn, RDefer(0), 1) == Some(none);
    assert GenStmts(b.st.defers, VoidReturn, [RDefer(0)], 1) == Some([]);
    var code := GenFunction(b.st.defers, LOSES_DEFER, b.res);
    assert code == Some(CFunction(0, CBlock([], [])));
    var start := CState(Zeroed(ArgumentFrame([]), []), 0, [], fuel);
    assert CExec(m, none, start) == CExit(Normal, start);
  }

  lemma {:induction false} LostResolved()
    ensures CompleteFunction(LOSES_DEFER).Ok?
    ensures var b := CompleteFunction(LOSES_DEFER).value;
            b.res == RBlock([], [RDefer(0)], None, None) && |b.st.defers| == 1
  {
    var body := LOSES_DEFER.body;
    var w := ElWhen(false, [], NoWhen);
    assert body[0] == CLEANUP && body[1..] == [When(w)] && [When(w)][1..] == [];
    var st := StartOf(LOSES_DEFER);
    assert ParamScope([]) == [];
    var v := CCall("cleanup", CConst(0));
    assert ResolveExpr(st.tables, Const(0)) == Ok(CConst(0));
    assert ResolveExpr(st.tables, SourceLang.Call("cleanup", Const(0))) == Ok(v);
    var st1 := PushDefer(st, RBlock([], [RExprStmt(v)], None, None)).st;
    assert ResolveStmt(CLEANUP, st) == Ok(Step(Some(RDefer(0)), st1));
    var st2 := st1.(head := None);
    assert ResolveWhen(w, st1) == Ok(Step(RBlock([], [], None, None), st1));
    assert ResolveStmts([], st2) == Ok(Step([], st2));
    var none: seq<RStmt> := [];
    assert none + none == none && [When(w)][0] == When(w);
    assert ResolveStmts([When(w)], st1) == Ok(Step([], st2));
    assert [RDefer(0)] + none == [RDefer(0)];
    assert ResolveStmts(body, st) == Ok(Step([RDefer(0)], st2));
  }

  lemma {:induction false} LostSource(m: Machine, fuel: nat)
    ensures Run(m, LOSES_DEFER, [], fuel).trace == [Event("cleanup", 0)]
  {
    var body := LOSES_DEFER.body;
    var w := ElWhen(false, [], NoWhen);
    assert body[1..] == [When(w)] && [When(w)][1..] == [];
    assert SelectedStmts(w) + [] == [];
    var st := State([], [], fuel);
    assert ExecStmts(m, VoidReturn, [], st) == Exit(Normal, st);
    assert ExecStmts(m, VoidReturn, [When(w)], st) == Exit(Normal, st);
    var call := ExprStmt(SourceLang.Call("cleanup", Const(0)));
    assert [call][1..] == [];
    var st1 := st.(trace := [Event("cleanup", 0)]);
    assert Eval(m, Const(0), [], []) == (0, []);
    assert ExecStmt(m, VoidReturn, call, st) == Exit(Normal, st1);
    assert ExecStmts(m, VoidReturn, [], st1) == Exit(Normal, st1);
    assert ExecStmts(m, VoidReturn, [call], st) == Exit(Normal, st1);
    assert Arguments([], []) == [];
    assert body[0] == DeferExpr(call.e);
    assert ExecStmts(m, VoidReturn, body, st) == Exit(Normal, st1);
  }

  // ---------- A defer that is left by `break` ----------

  const FOREVER := Const(1)
  const MARK := ExprStmt(SourceLang.Call("mark", Const(0)))

  // for true { defer { break; } for true { return; } mark(0); }
  const JUMPING := Function([], VoidReturn,
    [ForExpr(FOREVER, [DeferBlock([Break]), ForExpr(FOREVER, [Return(None)]), MARK])])

  /** A `break` that leaves a defer body breaks out of the loop around the copy, not out of the loop
      around the defer: the source never calls `mark`, the emitted function does. */
  lemma {:induction false} JumpInDeferExample(m: Machine, fuel: nat)
    requires fuel >= 2
    ensures !SafeReturns(JUMPING.body, VoidReturn, NOTHING)
    ensures LowerFunction(JUMPING).Ok?
    ensures CRun(m, LowerFunction(JUMPING).value, [], fuel).trace == [Event("mark", 0)]
    ensures Run(m, JUMPING, [], fuel).trace == []
  {
    JumpSource(m, fuel);
    JumpLowered();
    JumpEmitted(m, fuel);
    JumpUnsafe();
  }

  lemma {:induction false} BreakJumps()
    ensures !NoJump([Break])
  {
    assert Break in [Break] && !NoJumpStmt(Break);
  }

  lemma {:induction false} JumpUnsafe()
    ensures !SafeReturns(JUMPING.body, VoidReturn, NOTHING)
  {
    BreakJumps();
    var k := VoidReturn;
    var inner := ForExpr(FOREVER, [Return(None)]);
    var body := [DeferBlock([Break]), inner, MARK];
    var a := InLoop(NOTHING);
    var after := AfterDefer(a, [Break]);
    assert body[1..] == [inner, MARK];
    assert !SafeReturnsStmt(Return(None), k, InLoop(after));
    assert !SafeReturns([Return(None)], k, InLoop(after));
    assert !SafeReturnsStmt(inner, k, after);
    assert !SafeReturns([inner, MARK], k, after);
    assert !SafeReturns(body, k, a);
    assert !SafeReturnsStmt(JUMPING.body[0], k, NOTHING);
  }

  lemma {:induction false} JumpSource(m: Machine, fuel: nat)
    requires fuel >= 2
    ensures Run(m, JUMPING, [], fuel).trace == []
  {
    var k := VoidReturn;
    var inner := ForExpr(FOREVER, [Return(None)]);
    var body := [DeferBlock([Break]), inner, MARK];
    assert body[1..] == [inner, MARK];
    assert JUMPING.body[1..] == [];
    var st1, st2 := State([], [], (fuel - 1) as nat), State([], [], (fuel - 2) as nat);
    assert ExecStmt(m, k, Return(None), st2) == Exit(Returned(None), st2);
    assert ExecStmts(m, k, [Return(None)], st2) == Exit(Returned(None), st2);
    assert Eval(m, FOREVER, [], []) == (1, []);
    assert ExecLoop(m, k, FOREVER, [Return(None)], st1) == Exit(Returned(None), st2);
    assert ExecStmt(m, k, inner, st1) == Exit(Returned(None), st2);
    assert ExecStmts(m, k, [inner, MARK], st1) == Exit(Returned(None), st2);
    assert ExecStmt(m, k, Break, st2) == Exit(Broke, st2);
    assert ExecStmts(m, k, [Break], st2) == Exit(Broke, st2);
    assert ExecStmts(m, k, body, st1) == Exit(Broke, st2);
    var st := State([], [], fuel);
    assert ExecLoop(m, k, FOREVER, body, st) == Exit(Normal, st2);
    assert ExecStmt(m, k, JUMPING.body[0], st) == Exit(Normal, st2);
    assert ExecStmts(m, k, [], st2) == Exit(Normal, st2);
    assert ExecStmts(m, k, JUMPING.body, st) == Exit(Normal, st2);
  }

  const BREAK_BLOCK := CBlock([], [CBreak])
  const INNER := CWhile(CConst(1), CBlock([], [CNested(BREAK_BLOCK), CReturn(false)]))
  const CMARK := CExprStmt(CCall("mark", CConst(0)))
  const OUTER := CWhile(CConst(1), CBlock([], [INNER, CMARK, CNested(BREAK_BLOCK)]))

  lemma {:induction false} JumpLowered()
    ensures LowerFunction(JUMPING) == Ok(CFunction(0, CBlock([], [OUTER])))
  {
    var c := FunctionCtx(JUMPING);
    var none: seq<CStmt> := [];
    JumpLoweredLoop(c);
    assert JUMPING.body[1..] == [] && c.(counter := 0) == c && [OUTER] + none == [OUTER];
    assert LowerStmts([], c) == Ok(Lowered([], [], [], 0));
    assert LowerStmts(JUMPING.body, c) == Ok(Lowered([OUTER], [], [], 0));
    assert LowerBlock(JUMPING.body, c) == Ok(LoweredBlock(CBlock([], [OUTER]), 0));
  }

  lemma {:induction false} JumpLoweredLoop(c: Ctx)
    requires c == FunctionCtx(JUMPING)
    ensures LowerStmt(JUMPING.body[0], c) == Ok(LoweredStmt([OUTER], 0))
  {
    var lc := LoopCtx(c);
    var inner := ForExpr(FOREVER, [Return(None)]);
    var body := [DeferBlock([Break]), inner, MARK];
    var dc := lc.(pend := [BREAK_BLOCK]);
    JumpLoweredDefer(lc);
    JumpLoweredRest(dc);
    assert body[1..] == [inner, MARK] && lc.pend + [BREAK_BLOCK] == [BREAK_BLOCK];
    assert LowerStmts(body, lc) == Ok(Lowered([INNER, CMARK], [], [BREAK_BLOCK], 0));
    JumpCopies();
    assert [INNER, CMARK] + [CNested(BREAK_BLOCK)] == [INNER, CMARK, CNested(BREAK_BLOCK)];
    assert LowerBlock(body, lc) == Ok(LoweredBlock(CBlock([], [INNER, CMARK, CNested(BREAK_BLOCK)]), 0));
  }

  lemma {:induction false} JumpLoweredDefer(lc: Ctx)
    requires lc.pend == [] && lc.counter == 0 && lc.loop.Some? && lc.loop.value.pend == 0
    ensures LowerBlock([Break], lc) == Ok(LoweredBlock(BREAK_BLOCK, 0))
  {
    var none: seq<CStmt> := [];
    assert none + [CBreak] == [CBreak] && [CBreak] + none == [CBreak];
    assert LowerStmt(Break, lc) == Ok(LoweredStmt([CBreak], 0));
    assert [Break][1..] == [] && lc.(counter := 0) == lc;
    assert LowerStmts([], lc) == Ok(Lowered([], [], [], 0));
    assert LowerStmts([Break], lc) == Ok(Lowered([CBreak], [], [], 0));
  }

  lemma {:induction false} JumpLoweredRest(dc: Ctx)
    requires dc.pend == [BREAK_BLOCK] && dc.counter == 0 && dc.ret == VoidReturn
    ensures LowerStmts([ForExpr(FOREVER, [Return(None)]), MARK], dc) ==
            Ok(Lowered([INNER, CMARK], [], [BREAK_BLOCK], 0))
  {
    var inner := ForExpr(FOREVER, [Return(None)]);
    JumpLoweredInner(dc);
    assert dc.(counter := 0) == dc && [inner, MARK][1..] == [MARK] && [MARK][1..] == [];
    assert LowerExpr(dc.scope, Const(0)) == Ok(CConst(0));
    assert LowerExpr(dc.scope, MARK.e) == Ok(CMARK.e);
    assert LowerStmt(MARK, dc) == Ok(LoweredStmt([CMARK], 0));
    assert LowerStmts([], dc) == Ok(Lowered([], [], [BREAK_BLOCK], 0));
    assert [CMARK] + [] == [CMARK] && [INNER] + [CMARK] == [INNER, CMARK];
    assert LowerStmts([MARK], dc) == Ok(Lowered([CMARK], [], [BREAK_BLOCK], 0));
  }

  lemma {:induction false} JumpCopies()
    ensures Copies([BREAK_BLOCK], 0) == [CNested(BREAK_BLOCK)]
  {
    assert [BREAK_BLOCK][..0] == [];
    assert [CNested(BREAK_BLOCK)] + [] == [CNested(BREAK_BLOCK)];
  }

  lemma {:induction false} JumpLoweredInner(dc: Ctx)
    requires dc.pend == [BREAK_BLOCK] && dc.counter == 0 && dc.ret == VoidReturn
    ensures LowerStmt(ForExpr(FOREVER, [Return(None)]), dc) == Ok(LoweredStmt([INNER], 0))
  {
    var ic := LoopCtx(dc);
    JumpCopies();
    var code := [CNested(BREAK_BLOCK), CReturn(false)];
    assert Copies(ic.pend, 0) + [CReturn(false)] == code;
    assert LowerStmt(Return(None), ic) == Ok(LoweredStmt(code, 0));
    assert [Return(None)][1..] == [] && ic.(counter := 0) == ic;
    assert LowerStmts([], ic) == Ok(Lowered([], [], [BREAK_BLOCK], 0));
    assert LowerStmts([Return(None)], ic) == Ok(Lowered(code, [], [BREAK_BLOCK], 0)) by { assert code + [] == code; }
    assert LowerBlock([Return(None)], ic) == Ok(LoweredBlock(CBlock([], code), 0)) by { assert code + [] == code; }
  }

  lemma {:induction false} JumpEmitted(m: Machine, fuel: nat)
    requires fuel >= 2
    ensures CRun(m, CFunction(0, CBlock([], [OUTER])), [], fuel).trace == [Event("mark", 0)]
  {
    var frame := ArgumentFrame([]);
    assert frame == map[];
    assert Zeroed(frame, []) == frame;
    var st := CState(frame, 0, [], fuel);
    var st1, st2 := st.(fuel := fuel - 1), st.(fuel := fuel - 2);
    assert CExecStmt(m, CBreak, st2) == CExit(Broke, st2);
    assert CExec(m, [CBreak], st2) == CExit(Broke, st2);
    assert CExecBlock(m, BREAK_BLOCK, st2) == CExit(Broke, st2);
    var code := [CNested(BREAK_BLOCK), CReturn(false)];
    assert CExecStmt(m, CNested(BREAK_BLOCK), st2) == CExit(Broke, st2);
    assert CExec(m, code, st2) == CExit(Broke, st2);
    assert CExecBlock(m, CBlock([], code), st2) == CExit(Broke, st2);
    assert CEval(m, CConst(1), frame, []) == (1, []);
    assert CExecLoop(m, CConst(1), CBlock([], code), st1) == CExit(Normal, st2);
    assert CExecStmt(m, INNER, st1) == CExit(Normal, st2);
    var st3 := st2.(trace := [Event("mark", 0)]);
    assert CEval(m, CConst(0), frame, []) == (0, []);
    assert CExecStmt(m, CMARK, st2) == CExit(Normal, st3);
    assert CExecStmt(m, CBreak, st3) == CExit(Broke, st3);
    assert CExec(m, [CBreak], st3) == CExit(Broke, st3);
    assert CExecBlock(m, BREAK_BLOCK, st3) == CExit(Broke, st3);
    assert CExecStmt(m, CNested(BREAK_BLOCK), st3) == CExit(Broke, st3);
    var outer := [INNER, CMARK, CNested(BREAK_BLOCK)];
    assert outer[1..] == [CMARK, CNested(BREAK_BLOCK)] && [CMARK, CNested(BREAK_BLOCK)][1..] == [CNested(BREAK_BLOCK)];
    assert CExec(m, [CNested(BREAK_BLOCK)], st3) == CExit(Broke, st3);
    assert CExec(m, [CMARK, CNested(BREAK_BLOCK)], st2) == CExit(Broke, st3);
    assert CExec(m, outer, st1) == CExit(Broke, st3);
    assert CExecBlock(m, CBlock([], outer), st1) == CExit(Broke, st3);
    assert CExecLoop(m, CConst(1), CBlock([], outer), st) == CExit(Normal, st3);
    assert CExecStmt(m, OUTER, st) == CExit(Normal, st3);
    assert [OUTER][1..] == [];
    assert CExec(m, [], st3) == CExit(Normal, st3);
    assert CExec(m, [OUTER], st) == CExit(Normal, st3);
  }

  // ---------- A `return` in a defer body that another defer turns into a jump ----------

  const CANCELLED := ForExpr(FOREVER, [DeferBlock([Break]), Return(Some(Const(5)))])

  // defer { for true { defer { break; } return 5; } } return 3;
  const OVERWRITING := Function([], SizedReturn, [DeferBlock([CANCELLED]), Return(Some(Const(3)))])

  /** The `return 5` never takes effect, but the emitted code has stored its value where the value of the pending
      `return 3` was waiting: the source returns 3, the emitted function 5. */
  lemma {:induction false} CancelledReturnExample(m: Machine, fuel: nat)
    requires fuel >= 1
    ensures !SafeReturns(OVERWRITING.body, SizedReturn, NOTHING)
    ensures LowerFunction(OVERWRITING).Ok?
    ensures CRun(m, LowerFunction(OVERWRITING).value, [], fuel).out == Returned(Some(5))
    ensures Run(m, OVERWRITING, [], fuel).out == Returned(Some(3))
  {
    CancelledSource(m, fuel);
    CancelledLowered();
    CancelledEmitted(m, fuel);
    CancelledUnsafe();
  }

  lemma {:induction false} CancelledUnsafe()
    ensures !SafeReturns(OVERWRITING.body, SizedReturn, NOTHING)
  {
    BreakJumps();
    var k := SizedReturn;
    var ret := Return(Some(Const(5)));
    var body := [DeferBlock([Break]), ret];
    var a := InDefer(NOTHING);
    assert body[1..] == [ret];
    var after := AfterDefer(InLoop(a), [Break]);
    assert !SafeReturnsStmt(ret, k, after);
    assert !SafeReturns([ret], k, after);
    assert !SafeReturns(body, k, InLoop(a));
    assert !SafeReturnsStmt(CANCELLED, k, a);
    assert !SafeReturns([CANCELLED], k, a);
  }

  lemma {:induction false} CancelledSource(m: Machine, fuel: nat)
    requires fuel >= 1
    ensures Run(m, OVERWRITING, [], fuel).out == Returned(Some(3))
  {
    var k := SizedReturn;
    var ret := Return(Some(Const(5)));
    var body := [DeferBlock([Break]), ret];
    assert body[1..] == [ret] && [ret][1..] == [] && [CANCELLED][1..] == [];
    var st, st1 := State([], [], fuel), State([], [], (fuel - 1) as nat);
    assert Eval(m, Const(5), [], []) == (5, []) && Eval(m, Const(3), [], []) == (3, []) && Eval(m, FOREVER, [], []) == (1, []);
    assert ExecStmt(m, k, ret, st1) == Exit(Returned(Some(5)), st1);
    assert ExecStmts(m, k, [ret], st1) == Exit(Returned(Some(5)), st1);
    assert ExecStmt(m, k, Break, st1) == Exit(Broke, st1);
    assert ExecStmts(m, k, [Break], st1) == Exit(Broke, st1);
    assert ExecStmts(m, k, body, st1) == Exit(Broke, st1);
    assert ExecLoop(m, k, FOREVER, body, st) == Exit(Normal, st1);
    assert ExecStmt(m, k, CANCELLED, st) == Exit(Normal, st1);
    assert ExecStmts(m, k, [], st1) == Exit(Normal, st1);
    assert ExecStmts(m, k, [CANCELLED], st) == Exit(Normal, st1);
    var last := [Return(Some(Const(3)))];
    assert OVERWRITING.body[1..] == last;
    assert ExecStmt(m, k, last[0], st) == Exit(Returned(Some(3)), st);
    assert ExecStmts(m, k, last, st) == Exit(Returned(Some(3)), st);
    assert ExecStmts(m, k, OVERWRITING.body, st) == Exit(Returned(Some(3)), st1);
  }

  const CANCELLED_CODE := [CSetReturn(CConst(5)), CNested(BREAK_BLOCK), CReturn(true), CNested(BREAK_BLOCK)]
  const OVERWRITE := CBlock([], [CWhile(CConst(1), CBlock([], CANCELLED_CODE))])

  lemma {:induction false} CancelledLowered()
    ensures LowerFunction(OVERWRITING) ==
            Ok(CFunction(0, CBlock([], [CSetReturn(CConst(3)), CNested(OVERWRITE), CReturn(true), CNested(OVERWRITE), CReturn(true)])))
  {
    var c := FunctionCtx(OVERWRITING);
    CancelledDefer(c);
    hide LowerStmt;
    var dc := c.(pend := [OVERWRITE]);
    assert c.pend + [OVERWRITE] == [OVERWRITE];
    ReturnLowered(dc, OVERWRITE, 3);
    assert OVERWRITING.body[1..] == [Return(Some(Const(3)))];
    var front := [CSetReturn(CConst(3)), CNested(OVERWRITE), CReturn(true)];
    assert LowerStmts(OVERWRITING.body, c) == Ok(Lowered(front, [], [OVERWRITE], 0));
    OneCopy(OVERWRITE);
    var code := front + [CNested(OVERWRITE)];
    assert LowerBlock(OVERWRITING.body, c) == Ok(LoweredBlock(CBlock([], code), 0));
    assert EndsInReturn([Return(Some(Const(3)))], false);
    assert code + [CReturn(true)] == [CSetReturn(CConst(3)), CNested(OVERWRITE), CReturn(true), CNested(OVERWRITE), CReturn(true)];
  }

  lemma {:induction false} CancelledDefer(c: Ctx)
    requires c.pend == [] && c.counter == 0 && c.ret == SizedReturn
    ensures LowerBlock([CANCELLED], c) == Ok(LoweredBlock(OVERWRITE, 0))
  {
    CancelledLoop(c);
    hide LowerStmt;
    var none: seq<CStmt> := [];
    assert [CANCELLED][1..] == [] && c.(counter := 0) == c && OVERWRITE.body + none == OVERWRITE.body;
    assert LowerStmts([], c) == Ok(Lowered([], [], [], 0));
    assert LowerStmts([CANCELLED], c) == Ok(Lowered(OVERWRITE.body, [], [], 0));
  }

  lemma {:induction false} OneCopy(b: CBlock)
    ensures Copies([b], 0) == [CNested(b)]
  {
    assert [b][..0] == [];
    assert [CNested(b)] + [] == [CNested(b)];
  }

  lemma {:induction false} ReturnLowered(c: Ctx, b: CBlock, n: int)
    requires c.pend == [b] && c.counter == 0 && c.ret == SizedReturn
    ensures LowerStmts([Return(Some(Const(n)))], c) ==
            Ok(Lowered([CSetReturn(CConst(n)), CNested(b), CReturn(true)], [], [b], 0))
  {
    OneCopy(b);
    var code := [CSetReturn(CConst(n)), CNested(b), CReturn(true)];
    assert [CSetReturn(CConst(n))] + [CNested(b)] + [CReturn(true)] == code && code + [] == code;
    assert LowerExpr(c.scope, Const(n)) == Ok(CConst(n));
    assert LowerStmt(Return(Some(Const(n))), c) == Ok(LoweredStmt(code, 0));
    assert [Return(Some(Const(n)))][1..] == [] && c.(counter := 0) == c;
    assert LowerStmts([], c) == Ok(Lowered([], [], [b], 0));
  }

  lemma {:induction false} CancelledLoop(c: Ctx)
    requires c.pend == [] && c.counter == 0 && c.ret == SizedReturn
    ensures LowerStmt(CANCELLED, c) == Ok(LoweredStmt(OVERWRITE.body, 0))
  {
    var lc := LoopCtx(c);
    var body := [DeferBlock([Break]), Return(Some(Const(5)))];
    JumpLoweredDefer(lc);
    var dc := lc.(pend := [BREAK_BLOCK]);
    assert lc.pend + [BREAK_BLOCK] == [BREAK_BLOCK] && body[1..] == [Return(Some(Const(5)))];
    ReturnLowered(dc, BREAK_BLOCK, 5);
    var front := [CSetReturn(CConst(5)), CNested(BREAK_BLOCK), CReturn(true)];
    assert LowerStmts(body, lc) == Ok(Lowered(front, [], [BREAK_BLOCK], 0));
    OneCopy(BREAK_BLOCK);
    assert front + [CNested(BREAK_BLOCK)] == CANCELLED_CODE;
    assert LowerBlock(body, lc) == Ok(LoweredBlock(CBlock([], CANCELLED_CODE), 0));
    assert LowerExpr(c.scope, FOREVER) == Ok(CConst(1));
  }

  lemma {:induction false} CancelledEmitted(m: Machine, fuel: nat)
    requires fuel >= 1
    ensures CRun(m, CFunction(0,
            CBlock([], [CSetReturn(CConst(3)), CNested(OVERWRITE), CReturn(true), CNested(OVERWRITE), CReturn(true)])), [], fuel).out
            == Returned(Some(5))
  {
    var frame := ArgumentFrame([]);
    assert frame == map[];
    assert Zeroed(frame, []) == frame;
    var st := CState(frame, 3, [], fuel);
    var st1 := st.(fuel := fuel - 1);
    var st2 := st1.(ret := 5);
    assert CEval(m, CConst(1), frame, []) == (1, []) && CEval(m, CConst(3), frame, []) == (3, []) && CEval(m, CConst(5), frame, []) == (5, []);
    assert CExecStmt(m, CBreak, st2) == CExit(Broke, st2);
    assert CExec(m, [CBreak], st2) == CExit(Broke, st2);
    assert CExecBlock(m, BREAK_BLOCK, st2) == CExit(Broke, st2);
    assert CExecStmt(m, CNested(BREAK_BLOCK), st2) == CExit(Broke, st2);
    assert CANCELLED_CODE[1..] == [CNested(BREAK_BLOCK), CReturn(true), CNested(BREAK_BLOCK)];
    assert CExec(m, CANCELLED_CODE[1..], st2) == CExit(Broke, st2);
    assert CExecStmt(m, CSetReturn(CConst(5)), st1) == CExit(Normal, st2);
    assert CExec(m, CANCELLED_CODE, st1) == CExit(Broke, st2);
    assert CExecBlock(m, CBlock([], CANCELLED_CODE), st1) == CExit(Broke, st2);
    assert CExecLoop(m, CConst(1), CBlock([], CANCELLED_CODE), st) == CExit(Normal, st2);
    assert CExecStmt(m, OVERWRITE.body[0], st) == CExit(Normal, st2);
    assert OVERWRITE.body[1..] == [] && CExec(m, [], st2) == CExit(Normal, st2);
    assert CExec(m, OVERWRITE.body, st) == CExit(Normal, st2);
    assert CExecBlock(m, OVERWRITE, st) == CExit(Normal, st2);
    CancelledTail(m, st, st2);
  }

  lemma {:induction false} CancelledTail(m: Machine, st: CState, st2: CState)
    requires CExecBlock(m, OVERWRITE, st) == CExit(Normal, st2) && st.frame == map[] && st.ret == 3 &&
             st.trace == [] && st2.ret == 5
    ensures var code := [CSetReturn(CConst(3)), CNested(OVERWRITE), CReturn(true), CNested(OVERWRITE), CReturn(true)];
            CExec(m, code, st.(ret := 0)).out == Returned(Some(5))
  {
    hide CExecBlock;
    var code := [CSetReturn(CConst(3)), CNested(OVERWRITE), CReturn(true), CNested(OVERWRITE), CReturn(true)];
    assert CEval(m, CConst(3), st.frame, []) == (3, []);
    assert code[1..][1..] == [CReturn(true), CNested(OVERWRITE), CReturn(true)];
    assert CExecStmt(m, CReturn(true), st2) == CExit(Returned(Some(5)), st2);
    assert CExec(m, code[1..][1..], st2) == CExit(Returned(Some(5)), st2);
    assert CExecStmt(m, CNested(OVERWRITE), st) == CExit(Normal, st2);
    assert CExec(m, code[1..], st) == CExit(Returned(Some(5)), st2);
    assert CExecStmt(m, code[0], st.(ret := 0)) == CExit(Normal, st);
  }
}
