// What the compiler should make of a function body: locals become numbered slots, and the body of
// every pending defer is copied to each place where its scope is left.  This is the reference
// that the resolver together with the code generator is compared with; it keeps the pending
// defers as a list, where the compiler links them through the heap.

module Lowering {
  import opened Wrappers
  import opened SourceLang
  import opened CLang

  datatype Entry = Entry(name: string, slot: Slot)

  // Where the innermost loop stands: the defers pending around it, and the bindings its body can see.
  datatype Loop = Loop(pend: nat, scope: nat)

  datatype Ctx = Ctx(scope: seq<Entry>, pend: seq<CBlock>, loop: Option<Loop>, counter: nat, ret: ReturnKind)

  // Emitted code, variables for the enclosing block to declare, defers pending at the end, next free slot.
  datatype Lowered = Lowered(code: seq<CStmt>, decls: seq<Slot>, pend: seq<CBlock>, counter: nat)

  datatype LoweredBlock = LoweredBlock(block: CBlock, counter: nat)
  datatype LoweredStmt = LoweredStmt(code: seq<CStmt>, counter: nat)
  datatype LoweredArms = LoweredArms(arms: CArms, counter: nat)
  datatype LoweredCases = LoweredCases(cases: CCases, counter: nat)

  function EntryNames(scope: seq<Entry>): (ns: seq<string>)
    ensures |ns| == |scope|
    ensures forall i :: 0 <= i < |scope| ==> ns[i] == scope[i].name
  {
    seq(|scope|, i requires 0 <= i < |scope| => scope[i].name)
  }

  function LowerName(scope: seq<Entry>, x: string): Result<Slot> {
    var i := LastIndex(EntryNames(scope), x);
    if i < |scope| then Ok(scope[i].slot) else Fatal("use of undeclared identifier")
  }

  function LowerExpr(scope: seq<Entry>, e: Expr): Result<CExpr> {
    match e
    case Const(n) => Ok(CConst(n))
    case Name(x) => var s :- LowerName(scope, x); Ok(CVar(s))
    case Prim(op, l, r) =>
      var a :- LowerExpr(scope, l);
      var b :- LowerExpr(scope, r);
      Ok(CPrim(op, a, b))
    case Call(f, arg) =>
      var a :- LowerExpr(scope, arg);
      Ok(CCall(f, a))
  }

  /** The pending defers above position `k`, latest first. */
  function Copies(pend: seq<CBlock>, k: nat): seq<CStmt> {
    if |pend| <= k then [] else [CNested(pend[|pend| - 1])] + Copies(pend[..|pend| - 1], k)
  }

  ghost predicate DeclsIn(decls: seq<Slot>, lo: nat, hi: nat) {
    forall d :: d in decls ==> d.Local? && lo <= d.n < hi
  }

  function LowerStmts(ss: seq<Stmt>, c: Ctx): (r: Result<Lowered>)
    ensures r.Ok? ==> c.counter <= r.value.counter && c.pend <= r.value.pend
    ensures r.Ok? ==> DeclsIn(r.value.decls, c.counter, r.value.counter)
    decreases Size(ss), 1
  {
    if ss == [] then Ok(Lowered([], [], c.pend, c.counter))
    else
      var rest := ss[1..];
      match ss[0]
      case Var(name, init) =>
        var slot := Local(c.counter);
        var inner := c.(scope := c.scope + [Entry(name, slot)], counter := c.counter + 1);
        if init.None? then
          var r :- LowerStmts(rest, inner);
          Ok(r.(decls := [slot] + r.decls))
        else
          var e :- LowerExpr(c.scope, init.value);
          var r :- LowerStmts(rest, inner);
          Ok(r.(code := [CAssign(slot, e)] + r.code, decls := [slot] + r.decls))
      case DeferBlock(body) =>
        assert SizeStmt(ss[0]) == 2 + Size(body);
        var b :- LowerBlock(body, c);
        LowerStmts(rest, c.(pend := c.pend + [b.block], counter := b.counter))
      case DeferExpr(e) =>
        assert SizeStmt(ss[0]) == 4;
        SizeOne(ExprStmt(e));
        var b :- LowerBlock([ExprStmt(e)], c);
        LowerStmts(rest, c.(pend := c.pend + [b.block], counter := b.counter))
      case When(w) => SplicedSize(ss); LowerStmts(SelectedStmts(w) + rest, c)
      case s =>
        var x :- LowerStmt(s, c);
        var r :- LowerStmts(rest, c.(counter := x.counter));
        Ok(r.(code := x.code + r.code))
  }

  function LowerBlock(body: seq<Stmt>, c: Ctx): (r: Result<LoweredBlock>)
    ensures r.Ok? ==> c.counter <= r.value.counter
    decreases Size(body), 2
  {
    var r :- LowerStmts(body, c);
    Ok(LoweredBlock(CBlock(r.decls, r.code + Copies(r.pend, |c.pend|)), r.counter))
  }

  function LowerStmt(s: Stmt, c: Ctx): (r: Result<LoweredStmt>)
    requires !s.Var? && !s.DeferBlock? && !s.DeferExpr? && !s.When?
    ensures r.Ok? ==> c.counter <= r.value.counter
    decreases SizeStmt(s), 0
  {
    match s
    case If(arms) =>
      var a :- LowerArms(arms, c);
      Ok(LoweredStmt([CIf(a.arms)], a.counter))
    case ForRange(name, begin, end, body) =>
      var b :- LowerExpr(c.scope, begin);
      var e :- LowerExpr(c.scope, end);
      var x :- LowerBlock(body, RangeCtx(c, name));
      Ok(LoweredStmt([CFor(Local(c.counter), b, e, x.block)], x.counter))
    case ForExpr(cond, body) =>
      var e :- LowerExpr(c.scope, cond);
      var x :- LowerBlock(body, LoopCtx(c));
      Ok(LoweredStmt([CWhile(e, x.block)], x.counter))
    case Break =>
      if c.loop.None? then Fatal("break statement outside of loop")
      else Ok(LoweredStmt(Copies(c.pend, c.loop.value.pend) + [CBreak], c.counter))
    case Continue =>
      if c.loop.None? then Fatal("continue statement outside of loop")
      else Ok(LoweredStmt(Copies(c.pend, c.loop.value.pend) + [CContinue], c.counter))
    case Switch(e, cases) =>
      var v :- LowerExpr(c.scope, e);
      var x :- LowerCases(cases, c);
      Ok(LoweredStmt([CSwitch(v, x.cases)], x.counter))
    case Return(None) =>
      if !c.ret.VoidReturn? then Fatal("illegal return statement in function with non-void return type")
      else Ok(LoweredStmt(Copies(c.pend, 0) + [CReturn(false)], c.counter))
    case Return(Some(e)) =>
      var v :- LowerExpr(c.scope, e);
      var store := if c.ret.SizedReturn? then CSetReturn(v) else CExprStmt(v);
      Ok(LoweredStmt([store] + Copies(c.pend, 0) + [CReturn(c.ret.SizedReturn?)], c.counter))
    case Assign(name, e) =>
      var slot :- LowerName(c.scope, name);
      var v :- LowerExpr(c.scope, e);
      Ok(LoweredStmt([CAssign(slot, v)], c.counter))
    case ExprStmt(e) =>
      var v :- LowerExpr(c.scope, e);
      Ok(LoweredStmt([CExprStmt(v)], c.counter))
    case _ => Fatal("unreachable")
  }

  /** The context of the body of a for-expr loop. */
  function LoopCtx(c: Ctx): Ctx {
    c.(loop := Some(Loop(|c.pend|, |c.scope|)))
  }

  /** The context of the body of a for-range loop, which sees the loop variable. */
  function RangeCtx(c: Ctx, name: string): Ctx {
    Ctx(c.scope + [Entry(name, Local(c.counter))], c.pend, Some(Loop(|c.pend|, |c.scope| + 1)), c.counter + 1, c.ret)
  }

  function LowerArms(a: Arms, c: Ctx): (r: Result<LoweredArms>)
    ensures r.Ok? ==> c.counter <= r.value.counter
    decreases SizeArms(a), 0
  {
    match a
    case NoArm => Ok(LoweredArms(CNoArm, c.counter))
    case Else(body) =>
      var b :- LowerBlock(body, c);
      Ok(LoweredArms(CElse(b.block), b.counter))
    case Elif(cond, body, rest) =>
      var e :- LowerExpr(c.scope, cond);
      var b :- LowerBlock(body, c);
      var r :- LowerArms(rest, c.(counter := b.counter));
      Ok(LoweredArms(CElif(e, b.block, r.arms), r.counter))
  }

  /** One copy of the case block for each enum value it lists. */
  function Spread(symbols: seq<int>, b: CBlock, rest: CCases): CCases {
    if symbols == [] then rest else CCase(symbols[0], b, Spread(symbols[1..], b, rest))
  }

  function LowerCases(cs: Cases, c: Ctx): (r: Result<LoweredCases>)
    ensures r.Ok? ==> c.counter <= r.value.counter
    decreases SizeCases(cs), 0
  {
    match cs
    case NoCase => Ok(LoweredCases(CNoCase, c.counter))
    case ElseCase(body) =>
      var b :- LowerBlock(body, c);
      Ok(LoweredCases(CElseCase(b.block), b.counter))
    case Case(symbols, body, rest) =>
      var b :- LowerBlock(body, c);
      var r :- LowerCases(rest, c.(counter := b.counter));
      Ok(LoweredCases(Spread(symbols, b.block, r.cases), r.counter))
  }

  /** Whether the last statement that resolving `ss` yields is a return statement.  A declaration
      without initialiser yields none. */
  predicate EndsInReturn(ss: seq<Stmt>, soFar: bool)
    decreases Size(ss)
  {
    if ss == [] then soFar
    else
      match ss[0]
      case Var(_, None) => EndsInReturn(ss[1..], soFar)
      case When(w) => SplicedSize(ss); EndsInReturn(SelectedStmts(w) + ss[1..], soFar)
      case Return(_) => EndsInReturn(ss[1..], true)
      case _ => EndsInReturn(ss[1..], false)
  }

  predicate Distinct<T(==)>(s: seq<T>) {
    forall i, j :: 0 <= i < j < |s| ==> s[i] != s[j]
  }

  function ParamScope(params: seq<string>): (s: seq<Entry>)
    ensures |s| == |params|
    ensures forall i :: 0 <= i < |s| ==> s[i] == Entry(params[i], Argument(i))
  {
    seq(|params|, i requires 0 <= i < |params| => Entry(params[i], Argument(i)))
  }

  function FunctionCtx(f: Function): Ctx {
    Ctx(ParamScope(f.params), [], None, 0, f.ret)
  }

  /** The final `return __sunder_return;` of a function that returns a value. */
  function FinalReturn(k: ReturnKind): seq<CStmt> {
    if k.SizedReturn? then [CReturn(true)] else []
  }

  function LowerFunction(f: Function): Result<CFunction> {
    if !Distinct(f.params) then Fatal("redeclaration of parameter")
    else
      var b :- LowerBlock(f.body, FunctionCtx(f));
      if !f.ret.VoidReturn? && !EndsInReturn(f.body, false) then
        Fatal("Non-void-returning function does not end with a return statement")
      else
        Ok(CFunction(|f.params|, CBlock(b.block.decls, b.block.body + FinalReturn(f.ret))))
  }
}
