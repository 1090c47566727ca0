// The part of the code generator that turns resolved blocks into C blocks.
//
// The bodies of deferred statements are emitted by walking the `prev` pointers.  A walk that
// reaches NULL before its end node dereferences NULL; `None` stands for that.  A defer node only
// points to nodes made before it, so the recursion is bounded by the node it starts from
// (`bound`: only nodes below it may be visited).

module Codegen {
  import opened Wrappers
  import opened SourceLang
  import opened CLang
  import opened Lowering
  import opened Resolver

  /** The variables a block declares: parameters and the variable of the enclosing range loop are
      declared elsewhere. */
  function Declared(locals: seq<Entry>, loopVar: Option<Slot>): (ds: seq<Slot>) {
    if locals == [] then []
    else
      var s := locals[0].slot;
      (if s.Argument? || loopVar == Some(s) then [] else [s]) + Declared(locals[1..], loopVar)
  }

  function GenBlock(h: seq<DeferNode>, k: ReturnKind, b: RBlock, loopVar: Option<Slot>, bound: nat): Option<CBlock>
    decreases bound, 1, b, 1
  {
    var code :- GenStmts(h, k, b.stmts, bound);
    var defers :- GenDefers(h, k, b.begin, b.end, bound);
    Some(CBlock(Declared(b.locals, loopVar), code + defers))
  }

  /** The bodies of the pending defers from `current` to before `end`. */
  function GenDefers(h: seq<DeferNode>, k: ReturnKind, current: Link, end: Link, bound: nat): Option<seq<CStmt>>
    decreases bound, 0
  {
    if current == end then Some([])
    else if current.None? || current.value >= bound || current.value >= |h| then None
    else
      var i := current.value;
      var b :- GenBlock(h, k, h[i].body, None, i);
      var rest :- GenDefers(h, k, h[i].prev, end, i);
      Some([CNested(b)] + rest)
  }

  function GenStmts(h: seq<DeferNode>, k: ReturnKind, ss: seq<RStmt>, bound: nat): Option<seq<CStmt>>
    decreases bound, 1, ss, 2
  {
    if ss == [] then Some([])
    else
      var a :- GenStmt(h, k, ss[0], bound);
      var rest :- GenStmts(h, k, ss[1..], bound);
      Some(a + rest)
  }

  function GenStmt(h: seq<DeferNode>, k: ReturnKind, s: RStmt, bound: nat): Option<seq<CStmt>>
    decreases bound, 1, s, 1
  {
    match s
    case RDefer(_) => Some([])
    case RIf(arms) => var a :- GenArms(h, k, arms, bound); Some([CIf(a)])
    case RForRange(slot, begin, end, body) =>
      var b :- GenBlock(h, k, body, Some(slot), bound);
      Some([CFor(slot, begin, end, b)])
    case RForExpr(cond, body) => var b :- GenBlock(h, k, body, None, bound); Some([CWhile(cond, b)])
    case RBreak(begin, end) => var ds :- GenDefers(h, k, begin, end, bound); Some(ds + [CBreak])
    case RContinue(begin, end) => var ds :- GenDefers(h, k, begin, end, bound); Some(ds + [CContinue])
    case RSwitch(e, cases) => var c :- GenCases(h, k, cases, bound); Some([CSwitch(e, c)])
    case RReturn(value, defer) =>
      var ds :- GenDefers(h, k, defer, None, bound);
      Some(StoreReturn(k, value) + ds + [CReturn(k.SizedReturn?)])
    case RAssign(slot, e) => Some([CAssign(slot, e)])
    case RExprStmt(e) => Some([CExprStmt(e)])
  }

  /** The value is computed, and stored unless it has size zero, before any defer runs. */
  function StoreReturn(k: ReturnKind, value: Option<CExpr>): seq<CStmt> {
    match value
    case None => []
    case Some(e) => if k.SizedReturn? then [CSetReturn(e)] else [CExprStmt(e)]
  }

  function GenArms(h: seq<DeferNode>, k: ReturnKind, a: RArms, bound: nat): Option<CArms>
    decreases bound, 1, a, 1
  {
    match a
    case RNoArm => Some(CNoArm)
    case RElse(body) => var b :- GenBlock(h, k, body, None, bound); Some(CElse(b))
    case RElif(cond, body, rest) =>
      var b :- GenBlock(h, k, body, None, bound);
      var r :- GenArms(h, k, rest, bound);
      Some(CElif(cond, b, r))
  }

  function GenCases(h: seq<DeferNode>, k: ReturnKind, c: RCases, bound: nat): Option<CCases>
    decreases bound, 1, c, 1
  {
    match c
    case RNoCase => Some(CNoCase)
    case RElseCase(body) => var b :- GenBlock(h, k, body, None, bound); Some(CElseCase(b))
    case RCase(symbol, body, rest) =>
      var b :- GenBlock(h, k, body, None, bound);
      var r :- GenCases(h, k, rest, bound);
      Some(CCase(symbol, b, r))
  }

  function GenFunction(h: seq<DeferNode>, f: Function, body: RBlock): Option<CFunction> {
    var b :- GenBlock(h, f.ret, body, None, |h|);
    Some(CFunction(|f.params|, CBlock(b.decls, b.body + FinalReturn(f.ret))))
  }
}
