// The part of the resolver that gives locals their slots and links defer statements into lists.
//
// A defer statement becomes a node on the heap that points to the node that was the head before
// it.  Blocks, breaks, continues and returns record two nodes: where the walk over pending defers
// begins, and where it ends.  The functions `Resolve...` say what each step does to the resolver's
// state; the class below does it in place.

module Resolver {
  import opened Wrappers
  import opened SourceLang
  import opened CLang
  import opened Lowering

  // A pointer to a defer statement, by its position on the heap.
  type Link = Option<nat>

  datatype RBlock = RBlock(locals: seq<Entry>, stmts: seq<RStmt>, begin: Link, end: Link)

  datatype RArms = RNoArm | RElse(body: RBlock) | RElif(cond: CExpr, body: RBlock, rest: RArms)

  datatype RCases = RNoCase | RElseCase(body: RBlock) | RCase(symbol: int, body: RBlock, rest: RCases)

  datatype RStmt =
    | RDefer(node: nat)
    | RIf(arms: RArms)
    | RForRange(slot: Slot, begin: CExpr, end: CExpr, body: RBlock)
    | RForExpr(cond: CExpr, body: RBlock)
    | RBreak(dbegin: Link, dend: Link)
    | RContinue(dbegin: Link, dend: Link)
    | RSwitch(e: CExpr, cases: RCases)
    | RReturn(value: Option<CExpr>, defer: Link)
    | RAssign(slot: Slot, e: CExpr)
    | RExprStmt(e: CExpr)

  datatype DeferNode = DeferNode(prev: Link, body: RBlock)

  // The symbol tables from the function's outermost one to the current one, the heap of defer
  // statements, and the resolver's own fields.
  datatype RState = RState(tables: seq<seq<Entry>>, defers: seq<DeferNode>, head: Link, loopHead: Link,
                           inLoop: bool, counter: nat, ret: ReturnKind)

  datatype Step<T> = Step(res: T, st: RState)

  // ---------- Symbol tables ----------

  function LookupLocal(elements: seq<Entry>, x: string): Option<Slot> {
    var i := LastIndex(EntryNames(elements), x);
    if i < |elements| then Some(elements[i].slot) else None
  }

  /** Looks in the innermost table first, then in its parents. */
  function LookupTables(tables: seq<seq<Entry>>, x: string): Option<Slot> {
    if tables == [] then None
    else
      var n := |tables| - 1;
      var here := LookupLocal(tables[n], x);
      if here.Some? then here else LookupTables(tables[..n], x)
  }

  function Insert(st: RState, e: Entry): RState
    requires st.tables != []
  {
    var n := |st.tables| - 1;
    st.(tables := st.tables[n := st.tables[n] + [e]])
  }

  function Enter(st: RState, elements: seq<Entry>): RState {
    st.(tables := st.tables + [elements])
  }

  function Leave(st: RState): RState
    requires st.tables != []
  {
    st.(tables := st.tables[..|st.tables| - 1])
  }

  function ResolveExpr(tables: seq<seq<Entry>>, e: Expr): Result<CExpr> {
    match e
    case Const(n) => Ok(CConst(n))
    case Name(x) =>
      (match LookupTables(tables, x)
       case None => Fatal("use of undeclared identifier")
       case Some(s) => Ok(CVar(s)))
    case Prim(op, l, r) =>
      var a :- ResolveExpr(tables, l);
      var b :- ResolveExpr(tables, r);
      Ok(CPrim(op, a, b))
    case Call(f, arg) =>
      var a :- ResolveExpr(tables, arg);
      Ok(CCall(f, a))
  }

  // ---------- Statements ----------

  /** Defer statements only point to earlier ones, and the head is one of them. */
  ghost predicate WellLinked(st: RState) {
    (forall i :: 0 <= i < |st.defers| && st.defers[i].prev.Some? ==> st.defers[i].prev.value < i) &&
    (st.head.Some? ==> st.head.value < |st.defers|)
  }

  /** Every step keeps the number of open symbol tables and the loop it is in, and only adds to the heap. */
  ghost predicate Follows(st: RState, st': RState) {
    |st'.tables| == |st.tables| && st'.loopHead == st.loopHead && st'.inLoop == st.inLoop &&
    st.defers <= st'.defers && st.counter <= st'.counter &&
    (WellLinked(st) ==> WellLinked(st'))
  }

  /** The statements of a block; `when` statements are spliced into their surroundings. */
  function ResolveStmts(ss: seq<Stmt>, st: RState): (r: Result<Step<seq<RStmt>>>)
    requires st.tables != []
    ensures r.Ok? ==> Follows(st, r.value.st)
    decreases Size(ss), 1
  {
    if ss == [] then Ok(Step([], st))
    else if ss[0].When? then
      assert SizeStmt(ss[0]) == 1 + SizeWhens(ss[0].whens);
      var w :- ResolveWhen(ss[0].whens, st);
      var rest :- ResolveStmts(ss[1..], w.st.(head := w.res.begin));
      Ok(Step(w.res.stmts + rest.res, rest.st))
    else
      var s :- ResolveStmt(ss[0], st);
      var rest :- ResolveStmts(ss[1..], s.st);
      Ok(Step((if s.res.Some? then [s.res.value] else []) + rest.res, rest.st))
  }

  /** A block whose symbol table is the current one; the head of the defer list is restored. */
  function ResolveBlock(body: seq<Stmt>, st: RState): (r: Result<Step<RBlock>>)
    requires st.tables != []
    ensures r.Ok? ==> Follows(st, r.value.st) && r.value.st.head == st.head
    ensures r.Ok? && WellLinked(st) ==> WellLinked(r.value.st.(head := r.value.res.begin))
    decreases Size(body), 2
  {
    var x :- ResolveStmts(body, st);
    Ok(Step(RBlock(x.st.tables[|x.st.tables| - 1], x.res, x.st.head, st.head), x.st.(head := st.head)))
  }

  /** A block with a symbol table of its own, which starts with `elements`. */
  function ResolveScope(body: seq<Stmt>, elements: seq<Entry>, st: RState): (r: Result<Step<RBlock>>)
    ensures r.Ok? ==> Follows(st, r.value.st) && r.value.st.head == st.head
    decreases Size(body), 3
  {
    var x :- ResolveBlock(body, Enter(st, elements));
    Ok(Step(x.res, Leave(x.st)))
  }

  /** The block of the selected arm, resolved in the current symbol table.  When no arm is selected
      the result is an empty block whose defer links are NULL. */
  function ResolveWhen(w: Whens, st: RState): (r: Result<Step<RBlock>>)
    requires st.tables != []
    ensures r.Ok? ==> Follows(st, r.value.st) && r.value.st.head == st.head
    ensures r.Ok? && WellLinked(st) ==> WellLinked(r.value.st.(head := r.value.res.begin))
    decreases SizeWhens(w), 3
  {
    match w
    case NoWhen => Ok(Step(RBlock(st.tables[|st.tables| - 1], [], None, None), st))
    case ElseWhen(body) => ResolveBlock(body, st)
    case ElWhen(c, body, rest) => if c then ResolveBlock(body, st) else ResolveWhen(rest, st)
  }

  function PushDefer(st: RState, body: RBlock): Step<Option<RStmt>> {
    var id := |st.defers|;
    Step(Some(RDefer(id)), st.(defers := st.defers + [DeferNode(st.head, body)], head := Some(id)))
  }

  function ResolveStmt(s: Stmt, st: RState): (r: Result<Step<Option<RStmt>>>)
    requires st.tables != []
    ensures r.Ok? ==> Follows(st, r.value.st)
    ensures r.Ok? && !s.DeferBlock? && !s.DeferExpr? ==> r.value.st.head == st.head
    decreases SizeStmt(s), 0
  {
    match s
    case Var(name, None) =>
      Ok(Step(None, Insert(st, Entry(name, Local(st.counter))).(counter := st.counter + 1)))
    case Var(name, Some(init)) =>
      var e :- ResolveExpr(st.tables, init);
      var slot := Local(st.counter);
      Ok(Step(Some(RAssign(slot, e)), Insert(st, Entry(name, slot)).(counter := st.counter + 1)))
    case DeferBlock(body) =>
      var b :- ResolveScope(body, [], st);
      Ok(PushDefer(b.st, b.res))
    case DeferExpr(e) =>
      var v :- ResolveExpr(st.tables, e);
      Ok(PushDefer(st, RBlock([], [RExprStmt(v)], st.head, st.head)))
    case If(arms) =>
      var a :- ResolveArms(arms, st);
      Ok(Step(Some(RIf(a.res)), a.st))
    case ForRange(name, begin, end, body) => ResolveForRange(name, begin, end, body, st)
    case ForExpr(cond, body) => ResolveForExpr(cond, body, st)
    case Break =>
      if !st.inLoop then Fatal("break statement outside of loop")
      else Ok(Step(Some(RBreak(st.head, st.loopHead)), st))
    case Continue =>
      if !st.inLoop then Fatal("continue statement outside of loop")
      else Ok(Step(Some(RContinue(st.head, st.loopHead)), st))
    case Switch(e, cases) =>
      var v :- ResolveExpr(st.tables, e);
      var x :- ResolveCases(cases, st);
      Ok(Step(Some(RSwitch(v, x.res)), x.st))
    case Return(None) =>
      if !st.ret.VoidReturn? then Fatal("illegal return statement in function with non-void return type")
      else Ok(Step(Some(RReturn(None, st.head)), st))
    case Return(Some(e)) =>
      var v :- ResolveExpr(st.tables, e);
      Ok(Step(Some(RReturn(Some(v), st.head)), st))
    case Assign(name, e) =>
      var lhs :- ResolveExpr(st.tables, Name(name));
      var v :- ResolveExpr(st.tables, e);
      if lhs.CVar? then Ok(Step(Some(RAssign(lhs.slot, v)), st)) else Fatal("left hand side is not assignable")
    case ExprStmt(e) =>
      var v :- ResolveExpr(st.tables, e);
      Ok(Step(Some(RExprStmt(v)), st))
    case When(_) => Fatal("unreachable")
  }

  /** The body of a loop sees the loop variable, and the head at the loop as its loop defer. */
  function ResolveForRange(name: string, begin: Expr, end: Expr, body: seq<Stmt>, st: RState): (r: Result<Step<Option<RStmt>>>)
    requires st.tables != []
    ensures r.Ok? ==> Follows(st, r.value.st) && r.value.st.head == st.head
    decreases Size(body), 4
  {
    var b :- ResolveExpr(st.tables, begin);
    var e :- ResolveExpr(st.tables, end);
    var slot := Local(st.counter);
    var x :- ResolveScope(body, [Entry(name, slot)], st.(counter := st.counter + 1, inLoop := true, loopHead := st.head));
    Ok(Step(Some(RForRange(slot, b, e, x.res)), x.st.(inLoop := st.inLoop, loopHead := st.loopHead)))
  }

  function ResolveForExpr(cond: Expr, body: seq<Stmt>, st: RState): (r: Result<Step<Option<RStmt>>>)
    requires st.tables != []
    ensures r.Ok? ==> Follows(st, r.value.st) && r.value.st.head == st.head
    decreases Size(body), 4
  {
    var e :- ResolveExpr(st.tables, cond);
    var x :- ResolveScope(body, [], st.(inLoop := true, loopHead := st.head));
    Ok(Step(Some(RForExpr(e, x.res)), x.st.(inLoop := st.inLoop, loopHead := st.loopHead)))
  }

  function ResolveArms(a: Arms, st: RState): (r: Result<Step<RArms>>)
    requires st.tables != []
    ensures r.Ok? ==> Follows(st, r.value.st) && r.value.st.head == st.head
    decreases SizeArms(a), 0
  {
    match a
    case NoArm => Ok(Step(RNoArm, st))
    case Else(body) =>
      var b :- ResolveScope(body, [], st);
      Ok(Step(RElse(b.res), b.st))
    case Elif(cond, body, rest) =>
      var e :- ResolveExpr(st.tables, cond);
      var b :- ResolveScope(body, [], st);
      var r :- ResolveArms(rest, b.st);
      Ok(Step(RElif(e, b.res, r.res), r.st))
  }

  /** The same resolved block serves every enum value that a case lists. */
  function RSpread(symbols: seq<int>, b: RBlock, rest: RCases): RCases {
    if symbols == [] then rest else RCase(symbols[0], b, RSpread(symbols[1..], b, rest))
  }

  function ResolveCases(cs: Cases, st: RState): (r: Result<Step<RCases>>)
    requires st.tables != []
    ensures r.Ok? ==> Follows(st, r.value.st) && r.value.st.head == st.head
    decreases SizeCases(cs), 0
  {
    match cs
    case NoCase => Ok(Step(RNoCase, st))
    case ElseCase(body) =>
      var b :- ResolveScope(body, [], st);
      Ok(Step(RElseCase(b.res), b.st))
    case Case(symbols, body, rest) =>
      var b :- ResolveScope(body, [], st);
      var r :- ResolveCases(rest, b.st);
      Ok(Step(RSpread(symbols, b.res, r.res), r.st))
  }

  function StartOf(f: Function): RState {
    RState([ParamScope(f.params)], [], None, None, false, 0, f.ret)
  }

  /** Resolving a function body, and the check on its last statement. */
  function CompleteFunction(f: Function): Result<Step<RBlock>> {
    if !Distinct(f.params) then Fatal("redeclaration of parameter")
    else
      var b :- ResolveBlock(f.body, StartOf(f));
      var n := |b.res.stmts|;
      if !f.ret.VoidReturn? && (n == 0 || !b.res.stmts[n - 1].RReturn?) then
        Fatal("Non-void-returning function does not end with a return statement")
      else Ok(b)
  }
}
