// The statement language that the resolver receives, and its meaning.
//
// A block is a sequence of statements.  `defer d` followed by `rest` means: run `rest`, and when
// `rest` is left - by falling off its end, or by `break`, `continue` or `return` - run `d`.  A
// `return` inside `d` overrides the way `rest` was left.  Scopes are lexical: a declaration is
// visible in the statements after it, up to the end of its block, and may shadow any earlier one.
// The arms of a `when` are chosen at compile time and stand in the enclosing scope.
//
// Values are integers.  The operators and the functions called are parameters of the semantics
// (`Machine`), and every call is recorded in the trace.  `fuel` counts the loop iterations that
// are still allowed; it is part of the state, so that two programs agree for every fuel exactly
// when they agree on all terminating runs and on all prefixes of diverging ones.

module SourceLang {
  import opened Wrappers

  datatype Expr =
    | Const(n: int)
    | Name(id: string)
    | Prim(op: string, lhs: Expr, rhs: Expr)
    | Call(f: string, arg: Expr)

  // An if-elif-else chain.
  datatype Arms = NoArm | Else(body: seq<Stmt>) | Elif(cond: Expr, body: seq<Stmt>, rest: Arms)

  // A when-elwhen-else chain; the conditions have been evaluated at compile time.
  datatype Whens = NoWhen | ElseWhen(body: seq<Stmt>) | ElWhen(cond: bool, body: seq<Stmt>, rest: Whens)

  // The enum values that a case lists: at least one.
  type Symbols = s: seq<int> | s != [] witness [0]

  datatype Cases = NoCase | ElseCase(body: seq<Stmt>) | Case(symbols: Symbols, body: seq<Stmt>, rest: Cases)

  datatype Stmt =
    | Var(name: string, init: Option<Expr>)
    | DeferBlock(body: seq<Stmt>)
    | DeferExpr(e: Expr)
    | If(arms: Arms)
    | When(whens: Whens)
    | ForRange(name: string, begin: Expr, end: Expr, body: seq<Stmt>)
    | ForExpr(cond: Expr, body: seq<Stmt>)
    | Break
    | Continue
    | Switch(e: Expr, cases: Cases)
    | Return(value: Option<Expr>)
    | Assign(name: string, e: Expr)
    | ExprStmt(e: Expr)

  // The kinds of return type that the compiler distinguishes.
  datatype ReturnKind = VoidReturn | ZeroSizedReturn | SizedReturn

  datatype Function = Function(params: seq<string>, ret: ReturnKind, body: seq<Stmt>)

  datatype Event = Event(f: string, arg: int)

  datatype Machine = Machine(prim: (string, int, int) -> int, call: (seq<Event>, string, int) -> int)

  datatype Outcome = Normal | Broke | Continued | Returned(value: Option<int>) | OutOfFuel

  datatype Binding = Binding(name: string, val: int)

  datatype State = State(vars: seq<Binding>, trace: seq<Event>, fuel: nat)

  datatype Exit = Exit(out: Outcome, st: State)

  /** The body of a defer statement as a block. */
  function DeferBody(s: Stmt): seq<Stmt>
    requires s.DeferBlock? || s.DeferExpr?
  {
    if s.DeferBlock? then s.body else [ExprStmt(s.e)]
  }

  /** The arm that a `when` selects: the first one whose condition holds, or the else arm. */
  function Selected(w: Whens): Option<seq<Stmt>> {
    match w
    case NoWhen => None
    case ElseWhen(body) => Some(body)
    case ElWhen(c, body, rest) => if c then Some(body) else Selected(rest)
  }

  function SelectedStmts(w: Whens): seq<Stmt> {
    match Selected(w)
    case None => []
    case Some(body) => body
  }

  datatype WhenArm = WhenArm(chosen: bool, body: seq<Stmt>)

  /** The arms of a `when` in order; an else arm is always chosen. */
  function WhenArms(w: Whens): seq<WhenArm> {
    match w
    case NoWhen => []
    case ElseWhen(body) => [WhenArm(true, body)]
    case ElWhen(c, body, rest) => [WhenArm(c, body)] + WhenArms(rest)
  }

  /** The selected arm is the first one that is chosen, and there is none only if no arm is. */
  lemma {:induction false} SelectedIsFirst(w: Whens) returns (i: nat)
    ensures i <= |WhenArms(w)| && forall j :: 0 <= j < i ==> !WhenArms(w)[j].chosen
    ensures if i < |WhenArms(w)| then WhenArms(w)[i].chosen && Selected(w) == Some(WhenArms(w)[i].body) else Selected(w).None?
    decreases w
  {
    i := 0;
    if w.ElWhen? && !w.cond {
      var k := SelectedIsFirst(w.rest);
      i := k + 1;
    }
  }

  // ---------- Syntactic size ----------

  ghost function Size(ss: seq<Stmt>): nat {
    if ss == [] then 0 else SizeStmt(ss[0]) + Size(ss[1..])
  }

  ghost function SizeStmt(s: Stmt): nat
    ensures SizeStmt(s) > 0
  {
    match s
    case DeferBlock(body) => 2 + Size(body)
    case DeferExpr(_) => 4
    case If(arms) => 1 + SizeArms(arms)
    case When(w) => 1 + SizeWhens(w)
    case ForRange(_, _, _, body) => 2 + Size(body)
    case ForExpr(_, body) => 2 + Size(body)
    case Switch(_, cases) => 1 + SizeCases(cases)
    case _ => 1
  }

  ghost function SizeArms(a: Arms): nat {
    match a
    case NoArm => 0
    case Else(body) => 1 + Size(body)
    case Elif(_, body, rest) => 1 + Size(body) + SizeArms(rest)
  }

  ghost function SizeWhens(w: Whens): nat {
    match w
    case NoWhen => 0
    case ElseWhen(body) => 1 + Size(body)
    case ElWhen(_, body, rest) => 1 + Size(body) + SizeWhens(rest)
  }

  ghost function SizeCases(c: Cases): nat {
    match c
    case NoCase => 0
    case ElseCase(body) => 1 + Size(body)
    case Case(_, body, rest) => 1 + Size(body) + SizeCases(rest)
  }

  lemma {:induction false} SizeAppend(a: seq<Stmt>, b: seq<Stmt>)
    ensures Size(a + b) == Size(a) + Size(b)
  {
    if a == [] {
      assert a + b == b;
    } else {
      assert (a + b)[1..] == a[1..] + b;
      SizeAppend(a[1..], b);
    }
  }

  lemma {:induction false} SizeOne(s: Stmt)
    ensures Size([s]) == SizeStmt(s)
  {
    assert [s][1..] == [];
  }

  lemma {:induction false} SelectedSize(w: Whens)
    ensures Size(SelectedStmts(w)) <= SizeWhens(w)
  {
    match w
    case NoWhen =>
    case ElseWhen(_) =>
    case ElWhen(_, _, rest) => SelectedSize(rest);
  }

  /** Inlining the selected arm of a leading `when` makes a statement list smaller. */
  lemma {:induction false} SplicedSize(ss: seq<Stmt>)
    requires ss != [] && ss[0].When?
    ensures Size(SelectedStmts(ss[0].whens) + ss[1..]) < Size(ss)
  {
    SelectedSize(ss[0].whens);
    SizeAppend(SelectedStmts(ss[0].whens), ss[1..]);
  }

  // ---------- Expressions ----------

  /** The position of the last binding of `x`, which is the innermost visible one; |names| if unbound. */
  function LastIndex(names: seq<string>, x: string): (i: nat)
    ensures i <= |names|
    ensures i < |names| ==> names[i] == x && x !in names[i + 1..]
    ensures i == |names| ==> x !in names
  {
    if names == [] then 0
    else if names[|names| - 1] == x then |names| - 1
    else
      var i := LastIndex(names[..|names| - 1], x);
      if i == |names| - 1 then |names| else i
  }

  lemma {:induction false} InTail(s: seq<string>, x: string, i: nat, j: nat)
    requires i < j < |s| && s[j] == x
    ensures x in s[i + 1..]
  {
    assert s[i + 1..][j - i - 1] == x;
  }

  lemma {:induction false} LastUnique(s: seq<string>, x: string, i: nat, j: nat)
    requires j < |s| && s[j] == x && x !in s[j + 1..]
    requires i == LastIndex(s, x)
    ensures i == j
  {
    if i < j {
      InTail(s, x, i, j);
      assert false;
    } else if j < i < |s| {
      InTail(s, x, j, i);
      assert false;
    }
  }

  function Names(vars: seq<Binding>): (ns: seq<string>)
    ensures |ns| == |vars|
    ensures forall i :: 0 <= i < |vars| ==> ns[i] == vars[i].name
  {
    seq(|vars|, i requires 0 <= i < |vars| => vars[i].name)
  }

  function Lookup(vars: seq<Binding>, x: string): int {
    var i := LastIndex(Names(vars), x);
    if i < |vars| then vars[i].val else 0
  }

  function Update(vars: seq<Binding>, x: string, v: int): seq<Binding> {
    var i := LastIndex(Names(vars), x);
    if i < |vars| then vars[i := Binding(x, v)] else vars
  }

  /** The value of an expression, and the trace with the calls it made. */
  function Eval(m: Machine, e: Expr, vars: seq<Binding>, trace: seq<Event>): (int, seq<Event>) {
    match e
    case Const(n) => (n, trace)
    case Name(x) => (Lookup(vars, x), trace)
    case Prim(op, l, r) =>
      var (a, t1) := Eval(m, l, vars, trace);
      var (b, t2) := Eval(m, r, vars, t1);
      (m.prim(op, a, b), t2)
    case Call(f, arg) =>
      var (a, t) := Eval(m, arg, vars, trace);
      (m.call(t, f, a), t + [Event(f, a)])
  }

  // ---------- Statements ----------

  function Take<T>(s: seq<T>, n: nat): (r: seq<T>)
    ensures n <= |s| ==> r == s[..n]
    ensures |s| <= n ==> r == s
  {
    if n <= |s| then s[..n] else s
  }

  ghost predicate SameShape(a: seq<Binding>, b: seq<Binding>) {
    |a| == |b| && forall i :: 0 <= i < |a| ==> a[i].name == b[i].name
  }

  function Pop(x: Exit, n: nat): Exit {
    x.(st := x.st.(vars := Take(x.st.vars, n)))
  }

  /** Runs the statements of a block; the declarations they make are gone afterwards. */
  function ExecStmts(m: Machine, k: ReturnKind, ss: seq<Stmt>, st: State): (x: Exit)
    ensures x.st.fuel <= st.fuel
    ensures SameShape(st.vars, x.st.vars)
    decreases st.fuel, Size(ss), 1
  {
    if ss == [] then Exit(Normal, st)
    else
      var rest := ss[1..];
      match ss[0]
      case Var(name, init) =>
        var (v, t) := if init.Some? then Eval(m, init.value, st.vars, st.trace) else (0, st.trace);
        Pop(ExecStmts(m, k, rest, State(st.vars + [Binding(name, v)], t, st.fuel)), |st.vars|)
      case DeferBlock(body) =>
        var x := ExecStmts(m, k, rest, st);
        assert SizeStmt(ss[0]) == 2 + Size(body);
        ExecDefer(m, k, body, x)
      case DeferExpr(e) =>
        var x := ExecStmts(m, k, rest, st);
        SizeOne(ExprStmt(e));
        assert SizeStmt(ss[0]) == 4;
        ExecDefer(m, k, [ExprStmt(e)], x)
      case When(w) => SplicedSize(ss); ExecStmts(m, k, SelectedStmts(w) + rest, st)
      case s =>
        var x := ExecStmt(m, k, s, st);
        if x.out.Normal? then ExecStmts(m, k, rest, x.st) else x
  }

  /** What happens when the statements after a defer were left with `x`. */
  function ExecDefer(m: Machine, k: ReturnKind, body: seq<Stmt>, x: Exit): (y: Exit)
    ensures y.st.fuel <= x.st.fuel
    ensures SameShape(x.st.vars, y.st.vars)
    decreases x.st.fuel, Size(body), 2
  {
    if x.out.OutOfFuel? then x
    else
      var y := ExecStmts(m, k, body, x.st);
      if y.out.Normal? then Exit(x.out, y.st) else y
  }

  /** Runs a statement that neither declares nor defers anything. */
  function ExecStmt(m: Machine, k: ReturnKind, s: Stmt, st: State): (x: Exit)
    requires !s.Var? && !s.DeferBlock? && !s.DeferExpr? && !s.When?
    ensures x.st.fuel <= st.fuel
    ensures SameShape(st.vars, x.st.vars)
    decreases st.fuel, SizeStmt(s), 0
  {
    match s
    case If(arms) => ExecArms(m, k, arms, st)
    case ForExpr(cond, body) => ExecLoop(m, k, cond, body, st)
    case ForRange(name, begin, end, body) =>
      var (b, t) := Eval(m, begin, st.vars, st.trace);
      Pop(ExecRange(m, k, end, body, |st.vars|, State(st.vars + [Binding(name, b)], t, st.fuel)), |st.vars|)
    case Break => Exit(Broke, st)
    case Continue => Exit(Continued, st)
    case Switch(e, cases) =>
      var (v, t) := Eval(m, e, st.vars, st.trace);
      ExecCases(m, k, v, cases, st.(trace := t))
    case Return(None) => Exit(Returned(None), st)
    case Return(Some(e)) =>
      var (v, t) := Eval(m, e, st.vars, st.trace);
      Exit(Returned(if k.SizedReturn? then Some(v) else None), st.(trace := t))
    case Assign(name, e) =>
      var (v, t) := Eval(m, e, st.vars, st.trace);
      Exit(Normal, st.(vars := Update(st.vars, name, v), trace := t))
    case ExprStmt(e) => Exit(Normal, st.(trace := Eval(m, e, st.vars, st.trace).1))
    case _ => Exit(Normal, st)
  }

  function ExecArms(m: Machine, k: ReturnKind, a: Arms, st: State): (x: Exit)
    ensures x.st.fuel <= st.fuel
    ensures SameShape(st.vars, x.st.vars)
    decreases st.fuel, SizeArms(a), 0
  {
    match a
    case NoArm => Exit(Normal, st)
    case Else(body) => ExecStmts(m, k, body, st)
    case Elif(cond, body, rest) =>
      var (c, t) := Eval(m, cond, st.vars, st.trace);
      if c != 0 then ExecStmts(m, k, body, st.(trace := t)) else ExecArms(m, k, rest, st.(trace := t))
  }

  function ExecCases(m: Machine, k: ReturnKind, v: int, c: Cases, st: State): (x: Exit)
    ensures x.st.fuel <= st.fuel
    ensures SameShape(st.vars, x.st.vars)
    decreases st.fuel, SizeCases(c), 0
  {
    match c
    case NoCase => Exit(Normal, st)
    case ElseCase(body) => ExecStmts(m, k, body, st)
    case Case(symbols, body, rest) =>
      if v in symbols then ExecStmts(m, k, body, st) else ExecCases(m, k, v, rest, st)
  }

  function ExecLoop(m: Machine, k: ReturnKind, cond: Expr, body: seq<Stmt>, st: State): (x: Exit)
    ensures x.st.fuel <= st.fuel
    ensures SameShape(st.vars, x.st.vars)
    decreases st.fuel, Size(body), 2
  {
    if st.fuel == 0 then Exit(OutOfFuel, st)
    else
      var (c, t) := Eval(m, cond, st.vars, st.trace);
      if c == 0 then Exit(Normal, st.(trace := t))
      else
        var x := ExecStmts(m, k, body, State(st.vars, t, st.fuel - 1));
        match x.out
        case Normal => ExecLoop(m, k, cond, body, x.st)
        case Continued => ExecLoop(m, k, cond, body, x.st)
        case Broke => Exit(Normal, x.st)
        case _ => x
  }

  /** A range loop whose index is the binding at position `n`; the bound is evaluated outside its scope,
      before every iteration. */
  function ExecRange(m: Machine, k: ReturnKind, end: Expr, body: seq<Stmt>, n: nat, st: State): (x: Exit)
    requires n < |st.vars|
    ensures x.st.fuel <= st.fuel
    ensures SameShape(st.vars, x.st.vars)
    decreases st.fuel, Size(body), 2
  {
    if st.fuel == 0 then Exit(OutOfFuel, st)
    else
      var (e, t) := Eval(m, end, st.vars[..n], st.trace);
      if m.prim("<", st.vars[n].val, e) == 0 then Exit(Normal, st.(trace := t))
      else
        var x := ExecStmts(m, k, body, State(st.vars, t, st.fuel - 1));
        match x.out
        case Normal => ExecRange(m, k, end, body, n, Step(m, x.st, n))
        case Continued => ExecRange(m, k, end, body, n, Step(m, x.st, n))
        case Broke => Exit(Normal, x.st)
        case _ => x
  }

  /** The increment of the loop index. */
  function Step(m: Machine, st: State, n: nat): State
    requires n < |st.vars|
  {
    var b := st.vars[n];
    st.(vars := st.vars[n := Binding(b.name, m.prim("++", b.val, 1))])
  }

  datatype Observed = Observed(out: Outcome, trace: seq<Event>, fuel: nat)

  function Arguments(params: seq<string>, args: seq<int>): (vars: seq<Binding>)
    requires |args| == |params|
    ensures |vars| == |args|
    ensures forall i :: 0 <= i < |args| ==> vars[i] == Binding(params[i], args[i])
  {
    seq(|args|, i requires 0 <= i < |args| => Binding(params[i], args[i]))
  }

  /** What a caller can see of a call of `f`. */
  function Run(m: Machine, f: Function, args: seq<int>, fuel: nat): Observed
    requires |args| == |f.params|
  {
    var x := ExecStmts(m, f.ret, f.body, State(Arguments(f.params, args), [], fuel));
    Observed(x.out, x.st.trace, x.st.fuel)
  }

  // ---------- Defers that leave their own body by `break` or `continue` ----------

  /** No `break` or `continue` leaves the block itself. */
  predicate NoJump(ss: seq<Stmt>)
    decreases ss, 1
  {
    forall s :: s in ss ==> NoJumpStmt(s)
  }

  predicate NoJumpStmt(s: Stmt)
    decreases s, 0
  {
    match s
    case Break => false
    case Continue => false
    case DeferBlock(body) => NoJump(body)
    case If(arms) => NoJumpArms(arms)
    case When(w) => NoJumpWhens(w)
    case Switch(_, cases) => NoJumpCases(cases)
    case _ => true
  }

  predicate NoJumpArms(a: Arms) {
    match a
    case NoArm => true
    case Else(body) => NoJump(body)
    case Elif(_, body, rest) => NoJump(body) && NoJumpArms(rest)
  }

  /** Of a `when` only the selected arm counts. */
  predicate NoJumpWhens(w: Whens) {
    match w
    case NoWhen => true
    case ElseWhen(body) => NoJump(body)
    case ElWhen(c, body, rest) => if c then NoJump(body) else NoJumpWhens(rest)
  }

  predicate NoJumpCases(c: Cases) {
    match c
    case NoCase => true
    case ElseCase(body) => NoJump(body)
    case Case(_, body, rest) => NoJump(body) && NoJumpCases(rest)
  }

  // What is pending around a statement: a defer that is left by a jump, outside of the innermost loop around the
  // statement (`outer`) or inside it (`here`); and whether that loop, or the statement itself, is part of a
  // defer body.
  datatype Around = Around(outer: bool, here: bool, loopInDefer: bool, inDefer: bool)

  const NOTHING := Around(false, false, false, false)

  function InLoop(a: Around): Around {
    Around(a.outer || a.here, false, a.inDefer, a.inDefer)
  }

  function InDefer(a: Around): Around {
    a.(inDefer := true)
  }

  /** What is pending after a defer. */
  function AfterDefer(a: Around, body: seq<Stmt>): Around {
    if NoJump(body) then a else a.(here := true)
  }

  /** No defer with a jump is pending outside of the loop around the `return`.  In a loop that is itself part of a
      defer body, no such defer is pending at all where a value is returned. */
  predicate ReturnSafe(k: ReturnKind, a: Around) {
    !a.outer && !(k.SizedReturn? && a.loopInDefer && a.here)
  }

  /** Every `return` is safe where it stands. */
  predicate SafeReturns(ss: seq<Stmt>, k: ReturnKind, a: Around)
    decreases Size(ss), 1
  {
    if ss == [] then true
    else
      match ss[0]
      case DeferBlock(body) =>
        assert SizeStmt(ss[0]) == 2 + Size(body);
        SafeReturns(body, k, InDefer(a)) && SafeReturns(ss[1..], k, AfterDefer(a, body))
      case When(w) => SplicedSize(ss); SafeReturns(SelectedStmts(w) + ss[1..], k, a)
      case s => SafeReturnsStmt(s, k, a) && SafeReturns(ss[1..], k, a)
  }

  predicate SafeReturnsStmt(s: Stmt, k: ReturnKind, a: Around)
    decreases SizeStmt(s), 0
  {
    match s
    case If(arms) => SafeReturnsArms(arms, k, a)
    case ForRange(_, _, _, body) => SafeReturns(body, k, InLoop(a))
    case ForExpr(_, body) => SafeReturns(body, k, InLoop(a))
    case Switch(_, cases) => SafeReturnsCases(cases, k, a)
    case Return(_) => ReturnSafe(k, a)
    case _ => true
  }

  predicate SafeReturnsArms(arms: Arms, k: ReturnKind, a: Around)
    decreases SizeArms(arms), 0
  {
    match arms
    case NoArm => true
    case Else(body) => SafeReturns(body, k, a)
    case Elif(_, body, rest) => SafeReturns(body, k, a) && SafeReturnsArms(rest, k, a)
  }

  predicate SafeReturnsCases(c: Cases, k: ReturnKind, a: Around)
    decreases SizeCases(c), 0
  {
    match c
    case NoCase => true
    case ElseCase(body) => SafeReturns(body, k, a)
    case Case(_, body, rest) => SafeReturns(body, k, a) && SafeReturnsCases(rest, k, a)
  }
}
