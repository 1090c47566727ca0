// Which functions are compiled at all: those whose names are bound, whose jumps are in loops and whose returns suit
// them.

module AcceptedFunctions {
  import opened Wrappers
  import opened SourceLang
  import opened CLang
  import opened Lowering
  import opened Resolver
  import opened Codegen
  import opened ResolverProof

  /** The names that an expression reads. */
  function NamesIn(e: Expr): set<string> {
    match e
    case Const(_) => {}
    case Name(x) => {x}
    case Prim(_, l, r) => NamesIn(l) + NamesIn(r)
    case Call(_, arg) => NamesIn(arg)
  }

  /** Every name is declared before it is used, in a block around the use; `break` and `continue` are inside a loop, and
      only a function without a result returns without a value. */
  predicate Scoped(ss: seq<Stmt>, visible: set<string>, inLoop: bool, k: ReturnKind)
    decreases Size(ss), 1
  {
    if ss == [] then true
    else
      match ss[0]
      case Var(name, init) =>
        (init.Some? ==> NamesIn(init.value) <= visible) && Scoped(ss[1..], visible + {name}, inLoop, k)
      case DeferBlock(body) =>
        assert SizeStmt(ss[0]) == 2 + Size(body);
        Scoped(body, visible, inLoop, k) && Scoped(ss[1..], visible, inLoop, k)
      case DeferExpr(e) => NamesIn(e) <= visible && Scoped(ss[1..], visible, inLoop, k)
      case When(w) => SplicedSize(ss); Scoped(SelectedStmts(w) + ss[1..], visible, inLoop, k)
      case s => ScopedStmt(s, visible, inLoop, k) && Scoped(ss[1..], visible, inLoop, k)
  }

  predicate ScopedStmt(s: Stmt, visible: set<string>, inLoop: bool, k: ReturnKind)
    decreases SizeStmt(s), 0
  {
    match s
    case If(arms) => ScopedArms(arms, visible, inLoop, k)
    case ForRange(name, begin, end, body) =>
      NamesIn(begin) + NamesIn(end) <= visible && Scoped(body, visible + {name}, true, k)
    case ForExpr(cond, body) => NamesIn(cond) <= visible && Scoped(body, visible, true, k)
    case Break => inLoop
    case Continue => inLoop
    case Switch(e, cases) => NamesIn(e) <= visible && ScopedCases(cases, visible, inLoop, k)
    case Return(value) => if value.Some? then NamesIn(value.value) <= visible else k.VoidReturn?
    case Assign(name, e) => name in visible && NamesIn(e) <= visible
    case ExprStmt(e) => NamesIn(e) <= visible
    case _ => false
  }

  predicate ScopedArms(a: Arms, visible: set<string>, inLoop: bool, k: ReturnKind)
    decreases SizeArms(a), 0
  {
    match a
    case NoArm => true
    case Else(body) => Scoped(body, visible, inLoop, k)
    case Elif(cond, body, rest) =>
      NamesIn(cond) <= visible && Scoped(body, visible, inLoop, k) && ScopedArms(rest, visible, inLoop, k)
  }

  predicate ScopedCases(c: Cases, visible: set<string>, inLoop: bool, k: ReturnKind)
    decreases SizeCases(c), 0
  {
    match c
    case NoCase => true
    case ElseCase(body) => Scoped(body, visible, inLoop, k)
    case Case(_, body, rest) => Scoped(body, visible, inLoop, k) && ScopedCases(rest, visible, inLoop, k)
  }

  /** The statements that a block yields: the selected arms of its `when` statements in their place, and no declarations
      without a value. */
  function Yields(ss: seq<Stmt>): seq<Stmt>
    decreases Size(ss)
  {
    if ss == [] then []
    else
      match ss[0]
      case Var(_, None) => Yields(ss[1..])
      case When(w) => SplicedSize(ss); Yields(SelectedStmts(w) + ss[1..])
      case s => [s] + Yields(ss[1..])
  }

  predicate LastIsReturn(ss: seq<Stmt>) {
    ss != [] && ss[|ss| - 1].Return?
  }

  function Visible(scope: seq<Entry>): set<string> {
    set e | e in scope :: e.name
  }

  lemma {:induction false} VisibleMore(scope: seq<Entry>, e: Entry)
    ensures Visible(scope + [e]) == Visible(scope) + {e.name}
  {
    assert forall x :: x in scope + [e] <==> x in scope || x == e;
  }

  lemma {:induction false} NameBound(scope: seq<Entry>, x: string)
    ensures LowerName(scope, x).Ok? <==> x in Visible(scope)
  {
    var names := EntryNames(scope);
    if x in names {
      var i :| 0 <= i < |names| && names[i] == x;
      assert scope[i] in scope;
    }
    if x in Visible(scope) {
      var e :| e in scope && e.name == x;
      var i :| 0 <= i < |scope| && scope[i] == e;
      assert names[i] == x;
    }
  }

  lemma {:induction false} ExprBound(scope: seq<Entry>, e: Expr)
    ensures LowerExpr(scope, e).Ok? <==> NamesIn(e) <= Visible(scope)
    decreases e
  {
    hide LowerName, Visible;
    match e
    case Const(_) =>
    case Name(x) => NameBound(scope, x);
    case Prim(_, l, r) =>
      ExprBound(scope, l);
      ExprBound(scope, r);
    case Call(_, arg) => ExprBound(scope, arg);
  }

  ghost predicate ScopedIn(ss: seq<Stmt>, c: Ctx) {
    Scoped(ss, Visible(c.scope), c.loop.Some?, c.ret)
  }

  lemma {:induction false} StmtsAccepted(ss: seq<Stmt>, c: Ctx)
    ensures LowerStmts(ss, c).Ok? <==> ScopedIn(ss, c)
    decreases Size(ss), 1
  {
    hide LowerExpr, Visible, Copies;
    if ss != [] {
      var rest := ss[1..];
      match ss[0]
      case Var(name, init) =>
        if init.Some? {
          ExprBound(c.scope, init.value);
        }
        var e := Entry(name, Local(c.counter));
        VisibleMore(c.scope, e);
        StmtsAccepted(rest, c.(scope := c.scope + [e], counter := c.counter + 1));
      case DeferBlock(body) =>
        assert SizeStmt(ss[0]) == 2 + Size(body);
        DeferAccepted(ss, body, c);
      case DeferExpr(e) =>
        assert SizeStmt(ss[0]) == 4;
        SizeOne(ExprStmt(e));
        OneExpr(e, c);
        DeferAccepted(ss, [ExprStmt(e)], c);
      case When(w) =>
        SplicedSize(ss);
        StmtsAccepted(SelectedStmts(w) + rest, c);
      case s =>
        StmtAccepted(s, c);
        if LowerStmt(s, c).Ok? {
          StmtsAccepted(rest, c.(counter := LowerStmt(s, c).value.counter));
        }
    }
  }

  lemma {:induction false} OneExpr(e: Expr, c: Ctx)
    ensures ScopedIn([ExprStmt(e)], c) <==> NamesIn(e) <= Visible(c.scope)
  {
    var s := ExprStmt(e);
    assert [s][1..] == [] && Scoped([], Visible(c.scope), c.loop.Some?, c.ret);
    assert ScopedStmt(s, Visible(c.scope), c.loop.Some?, c.ret) == (NamesIn(e) <= Visible(c.scope));
  }

  lemma {:induction false} DeferAccepted(ss: seq<Stmt>, body: seq<Stmt>, c: Ctx)
    requires ss != [] && Size(body) + 2 <= SizeStmt(ss[0])
    ensures LowerBlock(body, c).Ok? <==> ScopedIn(body, c)
    ensures LowerBlock(body, c).Ok? ==>
              var b := LowerBlock(body, c).value;
              LowerStmts(ss[1..], c.(pend := c.pend + [b.block], counter := b.counter)).Ok? <==> ScopedIn(ss[1..], c)
    decreases Size(ss), 0
  {
    BlockAccepted(body, c);
    hide LowerStmts, Scoped;
    if LowerBlock(body, c).Ok? {
      var b := LowerBlock(body, c).value;
      StmtsAccepted(ss[1..], c.(pend := c.pend + [b.block], counter := b.counter));
    }
  }

  lemma {:induction false} BlockAccepted(body: seq<Stmt>, c: Ctx)
    ensures LowerBlock(body, c).Ok? <==> ScopedIn(body, c)
    decreases Size(body), 2
  {
    StmtsAccepted(body, c);
    hide LowerStmts, Scoped;
  }

  lemma {:induction false} StmtAccepted(s: Stmt, c: Ctx)
    requires !s.Var? && !s.DeferBlock? && !s.DeferExpr? && !s.When?
    ensures LowerStmt(s, c).Ok? <==> ScopedStmt(s, Visible(c.scope), c.loop.Some?, c.ret)
    decreases SizeStmt(s), 0
  {
    hide LowerExpr, LowerName, Visible, LowerBlock, Scoped, Copies;
    match s
    case If(arms) => ArmsAccepted(arms, c);
    case ForRange(name, begin, end, body) =>
      ExprBound(c.scope, begin);
      ExprBound(c.scope, end);
      VisibleMore(c.scope, Entry(name, Local(c.counter)));
      BlockAccepted(body, RangeCtx(c, name));
    case ForExpr(cond, body) =>
      ExprBound(c.scope, cond);
      BlockAccepted(body, LoopCtx(c));
    case Switch(e, cases) =>
      ExprBound(c.scope, e);
      CasesAccepted(cases, c);
    case Return(value) =>
      if value.Some? {
        ExprBound(c.scope, value.value);
      }
    case Assign(name, e) =>
      NameBound(c.scope, name);
      ExprBound(c.scope, e);
    case ExprStmt(e) => ExprBound(c.scope, e);
    case _ =>
  }

  lemma {:induction false} ArmsAccepted(a: Arms, c: Ctx)
    ensures LowerArms(a, c).Ok? <==> ScopedArms(a, Visible(c.scope), c.loop.Some?, c.ret)
    decreases SizeArms(a), 0
  {
    hide LowerExpr, Visible, LowerBlock, Scoped;
    match a
    case NoArm =>
    case Else(body) => BlockAccepted(body, c);
    case Elif(cond, body, rest) =>
      ExprBound(c.scope, cond);
      BlockAccepted(body, c);
      if LowerBlock(body, c).Ok? {
        ArmsAccepted(rest, c.(counter := LowerBlock(body, c).value.counter));
      }
  }

  lemma {:induction false} CasesAccepted(cs: Cases, c: Ctx)
    ensures LowerCases(cs, c).Ok? <==> ScopedCases(cs, Visible(c.scope), c.loop.Some?, c.ret)
    decreases SizeCases(cs), 0
  {
    hide Visible, LowerBlock, Scoped;
    match cs
    case NoCase =>
    case ElseCase(body) => BlockAccepted(body, c);
    case Case(_, body, rest) =>
      BlockAccepted(body, c);
      if LowerBlock(body, c).Ok? {
        CasesAccepted(rest, c.(counter := LowerBlock(body, c).value.counter));
      }
  }

  lemma {:induction false} EndsExactly(ss: seq<Stmt>, soFar: bool)
    ensures EndsInReturn(ss, soFar) <==> if Yields(ss) == [] then soFar else LastIsReturn(Yields(ss))
    decreases Size(ss)
  {
    if ss != [] {
      match ss[0]
      case Var(_, None) => EndsExactly(ss[1..], soFar);
      case When(w) =>
        SplicedSize(ss);
        EndsExactly(SelectedStmts(w) + ss[1..], soFar);
      case s => EndsExactly(ss[1..], s.Return?);
    }
  }

  ghost predicate IsProper(f: Function) {
    Distinct(f.params) && Scoped(f.body, set x | x in f.params, false, f.ret) &&
    (f.ret.VoidReturn? || LastIsReturn(Yields(f.body)))
  }

  /** A function is lowered if and only if its parameters are distinct, its body is scoped, and its last statement is a
      `return` where it has a result. */
  lemma {:induction false} AcceptedExactly(f: Function)
    ensures LowerFunction(f).Ok? <==> IsProper(f)
  {
    var c := FunctionCtx(f);
    ParamsVisible(f.params);
    BlockAccepted(f.body, c);
    EndsExactly(f.body, false);
    hide LowerBlock, Scoped, EndsInReturn, Yields, Visible;
  }

  lemma {:induction false} ParamsVisible(params: seq<string>)
    ensures Visible(ParamScope(params)) == set x | x in params
  {
    var scope := ParamScope(params);
    forall x | x in params
      ensures x in Visible(scope)
    {
      var i :| 0 <= i < |params| && params[i] == x;
      assert scope[i] in scope;
    }
  }

  /** So is what the resolver accepts, where no defers are lost. */
  lemma {:induction false} CompiledFunctions(f: Function)
    requires NoLost(f.body, 0)
    ensures CompleteFunction(f).Ok? <==> IsProper(f)
  {
    hide IsProper, LowerFunction, CompleteFunction;
    AcceptedExactly(f);
    CompiledIsLowered(f);
  }
}
