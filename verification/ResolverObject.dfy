// The resolver as the object it is: its fields are saved, updated and restored while it walks a
// function body.  Every method does to the fields what the function of module Resolver with the
// corresponding name says.

module ResolverObject {
  import opened Wrappers
  import opened SourceLang
  import opened CLang
  import opened Lowering
  import opened Resolver

  /** Puts resolved statements in front of what is still to come. */
  function After(stmts: seq<RStmt>, r: Result<Step<seq<RStmt>>>): Result<Step<seq<RStmt>>> {
    match r
    case Fatal(why) => Fatal(why)
    case Ok(x) => Ok(Step(stmts + x.res, x.st))
  }

  lemma {:induction false} SizeSuffix(ss: seq<Stmt>, i: nat)
    requires i < |ss|
    ensures Size(ss[i..]) == SizeStmt(ss[i]) + Size(ss[i + 1..])
  {
    assert ss[i..][1..] == ss[i + 1..];
  }

  lemma {:induction false} AfterNothing(body: seq<Stmt>, st: RState)
    requires st.tables != []
    ensures body[0..] == body && ResolveStmts(body, st) == After([], ResolveStmts(body[0..], st))
  {
    var r := ResolveStmts(body, st);
    if r.Ok? {
      assert [] + r.value.res == r.value.res;
    }
  }

  /** The first statement of what is left of a block, and the rest. */
  lemma {:induction false} Unfold(body: seq<Stmt>, i: nat, st: RState)
    requires i < |body| && st.tables != []
    ensures ResolveStmts(body[i..], st) ==
            if body[i].When? then
              var w :- ResolveWhen(body[i].whens, st);
              After(w.res.stmts, ResolveStmts(body[i + 1..], w.st.(head := w.res.begin)))
            else
              var s :- ResolveStmt(body[i], st);
              After(if s.res.Some? then [s.res.value] else [], ResolveStmts(body[i + 1..], s.st))
  {
    assert body[i..][0] == body[i] && body[i..][1..] == body[i + 1..];
  }

  class Object {
    var symbolTables: seq<seq<Entry>>   // the current symbol table last, after its parents
    var defers: seq<DeferNode>
    var currentDefer: Link
    var currentLoopDefer: Link
    var isWithinLoop: bool
    var currentLocalCounter: nat
    const returnKind: ReturnKind

    ghost function State(): RState
      reads this
    {
      RState(symbolTables, defers, currentDefer, currentLoopDefer, isWithinLoop, currentLocalCounter, returnKind)
    }

    constructor (f: Function)
      ensures State() == StartOf(f)
    {
      symbolTables := [ParamScope(f.params)];
      defers, currentDefer, currentLoopDefer := [], None, None;
      isWithinLoop, currentLocalCounter := false, 0;
      returnKind := f.ret;
    }

    /** Searches a table from its latest element back. */
    static method LookupLocalIn(elements: seq<Entry>, x: string) returns (s: Option<Slot>)
      ensures s == LookupLocal(elements, x)
    {
      var i := |elements|;
      while i != 0
        invariant 0 <= i <= |elements|
        invariant x !in EntryNames(elements)[i..]
      {
        i := i - 1;
        if elements[i].name == x {
          LastUnique(EntryNames(elements), x, LastIndex(EntryNames(elements), x), i);
          return Some(elements[i].slot);
        }
        assert EntryNames(elements)[i..] == [elements[i].name] + EntryNames(elements)[i + 1..];
      }
      assert EntryNames(elements)[0..] == EntryNames(elements);
      return None;
    }

    /** Searches the current table, then its parents. */
    method Lookup(x: string) returns (s: Option<Slot>)
      ensures s == LookupTables(symbolTables, x)
    {
      var n := |symbolTables|;
      assert symbolTables[..n] == symbolTables;
      while n != 0
        invariant 0 <= n <= |symbolTables|
        invariant LookupTables(symbolTables[..n], x) == LookupTables(symbolTables, x)
      {
        s := LookupLocalIn(symbolTables[n - 1], x);
        if s.Some? {
          return;
        }
        assert symbolTables[..n][..n - 1] == symbolTables[..n - 1];
        n := n - 1;
      }
      return None;
    }

    method Expression(e: Expr) returns (r: Result<CExpr>)
      ensures r == ResolveExpr(symbolTables, e)
      decreases e
    {
      match e
      case Const(n) => return Ok(CConst(n));
      case Name(x) =>
        var s := Lookup(x);
        if s.None? {
          return Fatal("use of undeclared identifier");
        }
        return Ok(CVar(s.value));
      case Prim(op, lhs, rhs) =>
        var a :- Expression(lhs);
        var b :- Expression(rhs);
        return Ok(CPrim(op, a, b));
      case Call(f, arg) =>
        var a :- Expression(arg);
        return Ok(CCall(f, a));
    }

    method ReserveLocal(name: string) returns (slot: Slot)
      requires symbolTables != []
      modifies this
      ensures slot == Local(old(currentLocalCounter))
      ensures State() == Insert(old(State()), Entry(name, slot)).(counter := old(currentLocalCounter) + 1)
    {
      slot := Local(currentLocalCounter);
      currentLocalCounter := currentLocalCounter + 1;
      var n := |symbolTables| - 1;
      symbolTables := symbolTables[n := symbolTables[n] + [Entry(name, slot)]];
    }

    /** The block's symbol table is the current one. */
    method Block(body: seq<Stmt>) returns (r: Result<RBlock>)
      requires symbolTables != []
      modifies this
      ensures match ResolveBlock(body, old(State()))
              case Ok(x) => r == Ok(x.res) && State() == x.st
              case Fatal(why) => r == Fatal(why)
      decreases Size(body), 2
    {
      var saveCurrentDefer := currentDefer;
      var stmts: seq<RStmt> := [];
      var i := 0;
      AfterNothing(body, State());
      while i < |body|
        invariant 0 <= i <= |body| && symbolTables != []
        invariant Size(body[i..]) <= Size(body)
        invariant ResolveStmts(body, old(State())) == After(stmts, ResolveStmts(body[i..], State()))
      {
        SizeSuffix(body, i);
        Unfold(body, i, State());
        ghost var done := stmts;
        if body[i].When? {
          assert SizeStmt(body[i]) == 1 + SizeWhens(body[i].whens);
          var when :- WhenStmt(body[i].whens);
          stmts := stmts + when.stmts;
          currentDefer := when.begin;
          AfterTwice(done, when.stmts, ResolveStmts(body[i + 1..], State()));
        } else {
          var s :- Statement(body[i]);
          var more := if s.Some? then [s.value] else [];
          stmts := stmts + more;
          AfterTwice(done, more, ResolveStmts(body[i + 1..], State()));
        }
        i := i + 1;
      }
      assert body[i..] == [] && stmts + [] == stmts;
      var block := RBlock(symbolTables[|symbolTables| - 1], stmts, currentDefer, saveCurrentDefer);
      currentDefer := saveCurrentDefer;
      return Ok(block);
    }

    /** A block with a symbol table of its own. */
    method Scope(body: seq<Stmt>, elements: seq<Entry>) returns (r: Result<RBlock>)
      modifies this
      ensures match ResolveScope(body, elements, old(State()))
              case Ok(x) => r == Ok(x.res) && State() == x.st
              case Fatal(why) => r == Fatal(why)
      decreases Size(body), 3
    {
      symbolTables := symbolTables + [elements];
      var b :- Block(body);
      symbolTables := symbolTables[..|symbolTables| - 1];
      return Ok(b);
    }

    /** Looks for the first arm whose condition holds. */
    method WhenStmt(w: Whens) returns (r: Result<RBlock>)
      requires symbolTables != []
      modifies this
      ensures match ResolveWhen(w, old(State()))
              case Ok(x) => r == Ok(x.res) && State() == x.st
              case Fatal(why) => r == Fatal(why)
      decreases SizeWhens(w), 3
    {
      var rest := w;
      while rest.ElWhen? && !rest.cond
        invariant ResolveWhen(rest, State()) == ResolveWhen(w, old(State()))
        invariant SizeWhens(rest) <= SizeWhens(w) && State() == old(State())
        decreases rest
      {
        rest := rest.rest;
      }
      if rest.NoWhen? {
        return Ok(RBlock(symbolTables[|symbolTables| - 1], [], None, None));
      }
      r := Block(rest.body);
    }

    method Statement(s: Stmt) returns (r: Result<Option<RStmt>>)
      requires symbolTables != []
      modifies this
      ensures match ResolveStmt(s, old(State()))
              case Ok(x) => r == Ok(x.res) && State() == x.st
              case Fatal(why) => r == Fatal(why)
      decreases SizeStmt(s), 0
    {
      hide ResolveScope, ResolveArms, ResolveCases, ResolveForRange, ResolveForExpr;
      match s
      case Var(name, init) =>
        if init.None? {
          var _ := ReserveLocal(name);
          return Ok(None);
        }
        var e :- Expression(init.value);
        var slot := ReserveLocal(name);
        return Ok(Some(RAssign(slot, e)));
      case DeferBlock(body) =>
        var b :- Scope(body, []);
        var d := PushDeferNode(b);
        return Ok(Some(d));
      case DeferExpr(e) =>
        var v :- Expression(e);
        var d := PushDeferNode(RBlock([], [RExprStmt(v)], currentDefer, currentDefer));
        return Ok(Some(d));
      case If(arms) =>
        var a :- Conditionals(arms);
        return Ok(Some(RIf(a)));
      case ForRange(name, begin, end, body) =>
        r := RangeLoop(name, begin, end, body);
      case ForExpr(cond, body) =>
        r := ExprLoop(cond, body);
      case Break =>
        if !isWithinLoop {
          return Fatal("break statement outside of loop");
        }
        return Ok(Some(RBreak(currentDefer, currentLoopDefer)));
      case Continue =>
        if !isWithinLoop {
          return Fatal("continue statement outside of loop");
        }
        return Ok(Some(RContinue(currentDefer, currentLoopDefer)));
      case Switch(e, cases) =>
        var v :- Expression(e);
        var c :- SwitchCases(cases);
        return Ok(Some(RSwitch(v, c)));
      case Return(value) =>
        if value.None? {
          if !returnKind.VoidReturn? {
            return Fatal("illegal return statement in function with non-void return type");
          }
          return Ok(Some(RReturn(None, currentDefer)));
        }
        var v :- Expression(value.value);
        return Ok(Some(RReturn(Some(v), currentDefer)));
      case Assign(name, e) =>
        var lhs :- Expression(Name(name));
        var v :- Expression(e);
        return Ok(Some(RAssign(lhs.slot, v)));
      case ExprStmt(e) =>
        var v :- Expression(e);
        return Ok(Some(RExprStmt(v)));
      case When(_) => return Fatal("unreachable");
    }

    method PushDeferNode(body: RBlock) returns (s: RStmt)
      modifies this
      ensures Step(Some(s), State()) == PushDefer(old(State()), body)
    {
      s := RDefer(|defers|);
      defers, currentDefer := defers + [DeferNode(currentDefer, body)], Some(|defers|);
    }

    method RangeLoop(name: string, begin: Expr, end: Expr, body: seq<Stmt>) returns (r: Result<Option<RStmt>>)
      requires symbolTables != []
      modifies this
      ensures match ResolveForRange(name, begin, end, body, old(State()))
              case Ok(x) => r == Ok(x.res) && State() == x.st
              case Fatal(why) => r == Fatal(why)
      decreases Size(body), 4
    {
      hide ResolveExpr, ResolveScope, Size;
      var b :- Expression(begin);
      var e :- Expression(end);
      var slot := Local(currentLocalCounter);
      currentLocalCounter := currentLocalCounter + 1;
      var saveIsWithinLoop, saveLoopDefer := isWithinLoop, currentLoopDefer;
      isWithinLoop, currentLoopDefer := true, currentDefer;
      var x :- Scope(body, [Entry(name, slot)]);
      isWithinLoop, currentLoopDefer := saveIsWithinLoop, saveLoopDefer;
      return Ok(Some(RForRange(slot, b, e, x)));
    }

    method ExprLoop(cond: Expr, body: seq<Stmt>) returns (r: Result<Option<RStmt>>)
      requires symbolTables != []
      modifies this
      ensures match ResolveForExpr(cond, body, old(State()))
              case Ok(x) => r == Ok(x.res) && State() == x.st
              case Fatal(why) => r == Fatal(why)
      decreases Size(body), 4
    {
      var e :- Expression(cond);
      var saveIsWithinLoop, saveLoopDefer := isWithinLoop, currentLoopDefer;
      isWithinLoop, currentLoopDefer := true, currentDefer;
      var x :- Scope(body, []);
      isWithinLoop, currentLoopDefer := saveIsWithinLoop, saveLoopDefer;
      return Ok(Some(RForExpr(e, x)));
    }

    method Conditionals(a: Arms) returns (r: Result<RArms>)
      requires symbolTables != []
      modifies this
      ensures match ResolveArms(a, old(State()))
              case Ok(x) => r == Ok(x.res) && State() == x.st
              case Fatal(why) => r == Fatal(why)
      decreases SizeArms(a), 0
    {
      match a
      case NoArm => return Ok(RNoArm);
      case Else(body) =>
        var b :- Scope(body, []);
        return Ok(RElse(b));
      case Elif(cond, body, rest) =>
        var e :- Expression(cond);
        var b :- Scope(body, []);
        var more :- Conditionals(rest);
        return Ok(RElif(e, b, more));
    }

    method SwitchCases(cs: Cases) returns (r: Result<RCases>)
      requires symbolTables != []
      modifies this
      ensures match ResolveCases(cs, old(State()))
              case Ok(x) => r == Ok(x.res) && State() == x.st
              case Fatal(why) => r == Fatal(why)
      decreases SizeCases(cs), 0
    {
      match cs
      case NoCase => return Ok(RNoCase);
      case ElseCase(body) =>
        var b :- Scope(body, []);
        return Ok(RElseCase(b));
      case Case(symbols, body, rest) =>
        var b :- Scope(body, []);
        var more :- SwitchCases(rest);
        return Ok(RSpread(symbols, b, more));
    }
  }

  lemma {:induction false} AfterTwice(a: seq<RStmt>, b: seq<RStmt>, r: Result<Step<seq<RStmt>>>)
    ensures After(a, After(b, r)) == After(a + b, r)
  {
    if r.Ok? {
      assert a + (b + r.value.res) == (a + b) + r.value.res;
    }
  }
}
