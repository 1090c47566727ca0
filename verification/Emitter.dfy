// The code generator as it is: it appends statements to its output, and emits deferred bodies in a
// loop that follows the `prev` pointers.  Every method appends what the function of module Codegen
// with the corresponding name gives, and reports a step past NULL exactly when that has no result.

module Emitter {
  import opened Wrappers
  import opened SourceLang
  import opened CLang
  import opened Lowering
  import opened Resolver
  import opened Codegen

  lemma {:induction false} PrependNothing(r: Option<seq<CStmt>>)
    ensures r == if r.Some? then Some([] + r.value) else None
  {
    if r.Some? {
      assert [] + r.value == r.value;
    }
  }

  class Emitter {
    var out: seq<CStmt>
    const heap: seq<DeferNode>
    const returnKind: ReturnKind

    constructor (h: seq<DeferNode>, k: ReturnKind)
      ensures out == [] && heap == h && returnKind == k
    {
      out, heap, returnKind := [], h, k;
    }

    /** Emits a block: declarations, statements, and the defers that are run at its end. */
    method Block(b: RBlock, loopVar: Option<Slot>, bound: nat) returns (r: Option<CBlock>)
      modifies this
      ensures r == GenBlock(heap, returnKind, b, loopVar, bound)
      ensures r.Some? ==> out == old(out)
      decreases bound, 1, b, 1
    {
      var saved := out;
      out := [];
      var ok := Stmts(b.stmts, bound);
      if !ok {
        return None;
      }
      ok := Defers(b.begin, b.end, bound);
      if !ok {
        return None;
      }
      r := Some(CBlock(Declared(b.locals, loopVar), out));
      assert [] + GenStmts(heap, returnKind, b.stmts, bound).value == GenStmts(heap, returnKind, b.stmts, bound).value;
      out := saved;
    }

    /** Walks from `begin` to `end`, emitting the deferred bodies on the way. */
    method Defers(begin: Link, end: Link, bound: nat) returns (ok: bool)
      modifies this
      ensures ok == GenDefers(heap, returnKind, begin, end, bound).Some?
      ensures ok ==> out == old(out) + GenDefers(heap, returnKind, begin, end, bound).value
      decreases bound, 0, 0
    {
      var current: Link := begin;
      var limit: nat := bound;
      var emitted: seq<CStmt> := [];
      PrependNothing(GenDefers(heap, returnKind, begin, end, bound));
      while current != end
        invariant limit <= bound && out == old(out) + emitted
        invariant var rest := GenDefers(heap, returnKind, current, end, limit);
                  GenDefers(heap, returnKind, begin, end, bound) ==
                  if rest.Some? then Some(emitted + rest.value) else None
        decreases limit
      {
        if current.None? || current.value >= limit || current.value >= |heap| {
          return false;
        }
        var node := heap[current.value];
        limit := current.value;
        var b := Block(node.body, None, limit);
        if b.None? {
          return false;
        }
        out := out + [CNested(b.value)];
        ghost var rest := GenDefers(heap, returnKind, node.prev, end, limit);
        assert rest.Some? ==> emitted + ([CNested(b.value)] + rest.value) == (emitted + [CNested(b.value)]) + rest.value;
        emitted := emitted + [CNested(b.value)];
        current := node.prev;
      }
      assert emitted + [] == emitted;
      return true;
    }

    method Stmts(ss: seq<RStmt>, bound: nat) returns (ok: bool)
      modifies this
      ensures ok == GenStmts(heap, returnKind, ss, bound).Some?
      ensures ok ==> out == old(out) + GenStmts(heap, returnKind, ss, bound).value
      decreases bound, 1, ss, 2
    {
      if ss == [] {
        assert out + [] == out;
        return true;
      }
      ok := Stmt(ss[0], bound);
      if !ok {
        return false;
      }
      ok := Stmts(ss[1..], bound);
      if ok {
        var a := GenStmt(heap, returnKind, ss[0], bound).value;
        var rest := GenStmts(heap, returnKind, ss[1..], bound).value;
        assert (old(out) + a) + rest == old(out) + (a + rest);
      }
    }

    method Stmt(s: RStmt, bound: nat) returns (ok: bool)
      modifies this
      ensures ok == GenStmt(heap, returnKind, s, bound).Some?
      ensures ok ==> out == old(out) + GenStmt(heap, returnKind, s, bound).value
      decreases bound, 1, s, 1
    {
      match s
      case RDefer(_) =>
        assert out + [] == out;
        return true;
      case RIf(arms) =>
        var a := Arms(arms, bound);
        if a.None? {
          return false;
        }
        out := out + [CIf(a.value)];
        return true;
      case RForRange(slot, begin, end, body) =>
        var b := Block(body, Some(slot), bound);
        if b.None? {
          return false;
        }
        out := out + [CFor(slot, begin, end, b.value)];
        return true;
      case RForExpr(cond, body) =>
        var b := Block(body, None, bound);
        if b.None? {
          return false;
        }
        out := out + [CWhile(cond, b.value)];
        return true;
      case RBreak(begin, end) => ok := Jump(begin, end, CBreak, bound);
      case RContinue(begin, end) => ok := Jump(begin, end, CContinue, bound);
      case RSwitch(e, cases) =>
        var c := Cases(cases, bound);
        if c.None? {
          return false;
        }
        out := out + [CSwitch(e, c.value)];
        return true;
      case RReturn(value, defer) =>
        ghost var before := out;
        out := out + StoreReturn(returnKind, value);
        ok := Jump(defer, None, CReturn(returnKind.SizedReturn?), bound);
        if ok {
          var ds := GenDefers(heap, returnKind, defer, None, bound).value;
          assert (before + StoreReturn(returnKind, value)) + (ds + [CReturn(returnKind.SizedReturn?)])
              == before + (StoreReturn(returnKind, value) + ds + [CReturn(returnKind.SizedReturn?)]);
        }
      case RAssign(slot, e) =>
        out := out + [CAssign(slot, e)];
        return true;
      case RExprStmt(e) =>
        out := out + [CExprStmt(e)];
        return true;
    }

    /** The pending defers up to `end`, then the jump. */
    method Jump(begin: Link, end: Link, jump: CStmt, bound: nat) returns (ok: bool)
      modifies this
      ensures ok == GenDefers(heap, returnKind, begin, end, bound).Some?
      ensures ok ==> out == old(out) + (GenDefers(heap, returnKind, begin, end, bound).value + [jump])
      decreases bound, 0, 1
    {
      ok := Defers(begin, end, bound);
      if ok {
        out := out + [jump];
      }
    }

    method Arms(a: RArms, bound: nat) returns (r: Option<CArms>)
      modifies this
      ensures r == GenArms(heap, returnKind, a, bound)
      ensures r.Some? ==> out == old(out)
      decreases bound, 1, a, 1
    {
      match a
      case RNoArm => return Some(CNoArm);
      case RElse(body) =>
        var b :- Block(body, None, bound);
        return Some(CElse(b));
      case RElif(cond, body, rest) =>
        var b :- Block(body, None, bound);
        var more :- Arms(rest, bound);
        return Some(CElif(cond, b, more));
    }

    method Cases(c: RCases, bound: nat) returns (r: Option<CCases>)
      modifies this
      ensures r == GenCases(heap, returnKind, c, bound)
      ensures r.Some? ==> out == old(out)
      decreases bound, 1, c, 1
    {
      match c
      case RNoCase => return Some(CNoCase);
      case RElseCase(body) =>
        var b :- Block(body, None, bound);
        return Some(CElseCase(b));
      case RCase(symbol, body, rest) =>
        var b :- Block(body, None, bound);
        var more :- Cases(rest, bound);
        return Some(CCase(symbol, b, more));
    }
  }
}
