// The converse of `ResolverProof.CompiledIsLowered`: a function in which a `when` loses pending
// defers never yields the lowering.  Either a walk steps past NULL, or a block ends with fewer copies
// than it has defers.

module LostDefers {
  import opened Wrappers
  import opened SourceLang
  import opened CLang
  import opened Lowering
  import opened Resolver
  import opened Codegen
  import opened ResolverProof
  import LoweringProof

  // ---------- How long walks are ----------

  /** Defer statements only point to earlier ones. */
  ghost predicate Linked(h: seq<DeferNode>) {
    forall i :: 0 <= i < |h| && h[i].prev.Some? ==> h[i].prev.value < i
  }

  ghost predicate Rises(c: seq<nat>, bound: nat) {
    (forall i :: 0 <= i < |c| ==> c[i] < bound) && forall i, j :: 0 <= i < j < |c| ==> c[i] < c[j]
  }

  /** A chain visits ever later nodes. */
  lemma {:induction false} ChainRises(h: seq<DeferNode>, link: Link, bound: nat)
    ensures Rises(Chain(h, link, bound), bound)
    ensures forall n :: n in Chain(h, link, bound) ==> n < |h|
    decreases bound
  {
    if link.Some? && link.value < bound && link.value < |h| {
      var d := Chain(h, h[link.value].prev, link.value);
      ChainRises(h, h[link.value].prev, link.value);
      assert Rises(d + [link.value], bound);
    }
  }

  /** A walk that ends visits the chain down to its end node, or all of it if the end is NULL. */
  lemma {:induction false} WalkLength(h: seq<DeferNode>, k: ReturnKind, cur: Link, end: Link, bound: nat,
                                      ds: seq<CStmt>)
    requires GenDefers(h, k, cur, end, bound) == Some(ds) && Linked(h) && (cur.Some? ==> cur.value < bound && cur.value < |h|)
    ensures var c := Chain(h, cur, bound);
            if end.None? then |ds| == |c| else |ds| < |c| && c[|c| - 1 - |ds|] == end.value
    decreases bound
  {
    if cur != end {
      var i := cur.value;
      var rest := GenDefers(h, k, h[i].prev, end, i).value;
      WalkLength(h, k, h[i].prev, end, i, rest);
    }
  }

  /** The part of a walk before the node whose predecessor is its end, and that node. */
  lemma {:induction false} WalkSplit(h: seq<DeferNode>, k: ReturnKind, cur: Link, id: nat, bound: nat, ds: seq<CStmt>)
                                     returns (front: seq<CStmt>, b: CBlock)
    requires Linked(h) && id < |h| && GenDefers(h, k, cur, h[id].prev, bound) == Some(ds)
    requires (cur.Some? ==> cur.value < bound && cur.value < |h|) && id in Chain(h, cur, bound)
    ensures ds == front + [CNested(b)] && GenDefers(h, k, cur, Some(id), bound) == Some(front)
    ensures GenBlock(h, k, h[id].body, None, id) == Some(b)
    decreases bound
  {
    var i := cur.value;
    ChainRises(h, h[i].prev, i);
    assert Chain(h, cur, bound) == Chain(h, h[i].prev, i) + [i];
    assert id <= i && cur != h[id].prev;
    b := GenBlock(h, k, h[i].body, None, i).value;
    if i == id {
      front := [];
    } else {
      var rest := GenDefers(h, k, h[i].prev, h[id].prev, i).value;
      var f, e := WalkSplit(h, k, h[i].prev, id, i, rest);
      front := [CNested(b)] + f;
      b := e;
    }
  }

  lemma {:induction false} CopiesLength(pend: seq<CBlock>, k: nat)
    requires k <= |pend|
    ensures |Copies(pend, k)| == |pend| - k
    decreases |pend|
  {
    if k < |pend| {
      CopiesLength(pend[..|pend| - 1], k);
    }
  }

  // ---------- How much code there is ----------

  /** How the resolver's chain relates to the defers pending in a context: one node for each of them, as long as none
      were `lost`; fewer nodes afterwards, and the node at which the innermost loop began is no longer among them. */
  ghost predicate Tracks(st: RState, c: Ctx, lost: bool) {
    st.tables != [] && WellLinked(st) && st.inLoop == c.loop.Some? &&
    var chain := ChainOf(st);
    (c.loop.Some? ==> c.loop.value.pend <= |c.pend| && (st.loopHead.None? <==> c.loop.value.pend == 0) &&
                      (st.loopHead.Some? ==> st.loopHead.value < |st.defers|)) &&
    if lost then |chain| < |c.pend| && (c.loop.Some? && st.loopHead.Some? ==> st.loopHead.value !in chain)
    else |chain| == |c.pend| && (c.loop.Some? && st.loopHead.Some? ==> chain[c.loop.value.pend - 1] == st.loopHead.value)
  }

  /** There is at most as much code as in the lowering, and as much as long as no defers are lost. */
  ghost predicate Fits(lost: bool, code: seq<CStmt>, lowered: seq<CStmt>) {
    |code| <= |lowered| && (!lost ==> |code| == |lowered|)
  }

  lemma {:induction false} JumpFits(h: seq<DeferNode>, st: RState, c: Ctx, lost: bool, ds: seq<CStmt>)
    requires Tracks(st, c, lost) && c.loop.Some? && st.defers <= h && Linked(h)
    requires GenDefers(h, c.ret, st.head, st.loopHead, |h|) == Some(ds)
    ensures Fits(lost, ds, Copies(c.pend, c.loop.value.pend))
  {
    CopiesLength(c.pend, c.loop.value.pend);
    ChainGrow(st.defers, h, st.head, |st.defers|, |h|);
    WalkLength(h, c.ret, st.head, st.loopHead, |h|, ds);
    ChainRises(h, st.head, |h|);
  }

  lemma {:induction false} ReturnFits(h: seq<DeferNode>, st: RState, c: Ctx, lost: bool, ds: seq<CStmt>)
    requires Tracks(st, c, lost) && st.defers <= h && Linked(h)
    requires GenDefers(h, c.ret, st.head, None, |h|) == Some(ds)
    ensures Fits(lost, ds, Copies(c.pend, 0))
  {
    CopiesLength(c.pend, 0);
    ChainGrow(st.defers, h, st.head, |st.defers|, |h|);
    WalkLength(h, c.ret, st.head, None, |h|, ds);
  }

  /** A statement that neither declares nor defers anything yields one piece of code, after the defers that it runs. */
  lemma {:induction false} StmtFits(h: seq<DeferNode>, s: Stmt, st: RState, c: Ctx, lost: bool, x: Step<Option<RStmt>>,
                                    l: LoweredStmt, code: seq<CStmt>)
    requires !s.Var? && !s.DeferBlock? && !s.DeferExpr? && !s.When?
    requires Tracks(st, c, lost) && ResolveStmt(s, st) == Ok(x) && LowerStmt(s, c) == Ok(l)
    requires x.st.defers <= h && Linked(h) && x.res.Some? && GenStmt(h, c.ret, x.res.value, |h|) == Some(code)
    ensures Fits(lost, code, l.code)
  {
    hide Tracks, GenDefers, GenBlock, GenArms, GenCases, Copies, LowerExpr, ResolveExpr, LowerBlock, LowerArms,
      LowerCases,
      ResolveScope, ResolveArms, ResolveCases, Chain, LowerName;
    match s
    case Break => JumpFits(h, st, c, lost, GenDefers(h, c.ret, st.head, st.loopHead, |h|).value);
    case Continue => JumpFits(h, st, c, lost, GenDefers(h, c.ret, st.head, st.loopHead, |h|).value);
    case Return(_) => ReturnFits(h, st, c, lost, GenDefers(h, c.ret, st.head, None, |h|).value);
    case _ =>
  }

  // ---------- Steps of the resolver ----------

  lemma {:induction false} GenFirst(h: seq<DeferNode>, k: ReturnKind, s: Option<RStmt>, rest: seq<RStmt>, bound: nat,
                                    code: seq<CStmt>)
    returns (first: seq<CStmt>, more: seq<CStmt>)
    requires GenStmts(h, k, (if s.Some? then [s.value] else []) + rest, bound) == Some(code)
    ensures GenStmts(h, k, rest, bound) == Some(more) && code == first + more
    ensures if s.Some? then GenStmt(h, k, s.value, bound) == Some(first) else first == []
  {
    hide GenStmt;
    var all := (if s.Some? then [s.value] else []) + rest;
    if s.Some? {
      assert all[1..] == rest;
      first, more := GenStmt(h, k, s.value, bound).value, GenStmts(h, k, rest, bound).value;
    } else {
      assert all == rest;
      first, more := [], code;
    }
  }

  lemma {:induction false} VarTracks(st: RState, c: Ctx, lost: bool, e: Entry)
    requires Tracks(st, c, lost)
    ensures Tracks(Insert(st, e).(counter := st.counter + 1), c.(scope := c.scope + [e], counter := c.counter + 1),
            lost)
  {
    assert ChainOf(Insert(st, e).(counter := st.counter + 1)) == ChainOf(st);
  }

  lemma {:induction false} DeferTracks(s: Stmt, st: RState, c: Ctx, lost: bool, x: Step<Option<RStmt>>, b: LoweredBlock)
    requires (s.DeferBlock? || s.DeferExpr?) && Tracks(st, c, lost) && ResolveStmt(s, st) == Ok(x)
    ensures Tracks(x.st, c.(pend := c.pend + [b.block], counter := b.counter), lost)
    ensures x.res.Some? && Nodes([x.res.value]) == [x.res.value.node]
  {
    LinkedAfter(s, st);
    DeferPushes(s, st, x);
    assert Follows(st, x.st);
    hide ResolveStmt, Chain, ChainOf, Nodes, WellLinked;
    var node := x.res.value.node;
    assert ChainOf(x.st) == ChainOf(st) + [node];
  }

  lemma {:induction false} OtherTracks(s: Stmt, st: RState, c: Ctx, lost: bool, x: Step<Option<RStmt>>, counter: nat)
    requires !s.Var? && !s.DeferBlock? && !s.DeferExpr? && !s.When?
    requires Tracks(st, c, lost) && ResolveStmt(s, st) == Ok(x)
    ensures Tracks(x.st, c.(counter := counter), lost)
    ensures x.res.Some? && Nodes([x.res.value]) == []
  {
    LinkedAfter(s, st);
    ResolvedKind(s, st);
    FirstPushes(s, st, x);
    hide ResolveStmt, Chain, ChainOf, Nodes, WellLinked;
  }

  /** A `when` without a selected arm. */
  lemma {:induction false} WhenTracks(st: RState, c: Ctx, lost: bool)
    requires Tracks(st, c, lost)
    ensures Tracks(st.(head := None), c, lost || |c.pend| > 0)
  {
    assert ChainOf(st.(head := None)) == [];
  }

  // ---------- Blocks ----------

  /** The statements of a block yield at most as much code as in the lowering. */
  lemma {:induction false} StmtsFit(h: seq<DeferNode>, ss: seq<Stmt>, st: RState, c: Ctx, lost: bool,
                                    x: Step<seq<RStmt>>, r: Lowered, code: seq<CStmt>)
    requires Tracks(st, c, lost) && ResolveStmts(ss, st) == Ok(x) && LowerStmts(ss, c) == Ok(r)
    requires x.st.defers <= h && Linked(h) && GenStmts(h, c.ret, x.res, |h|) == Some(code)
    ensures Fits(lost || !NoLostHere(ss, |c.pend|), code, r.code)
    ensures |r.pend| == |c.pend| + |Nodes(x.res)|
    decreases Size(ss), 1
  {
    if ss == [] {
      assert Nodes([]) == [];
    } else {
      match ss[0]
      case When(_) => WhenFits(h, ss, st, c, lost, x, r, code);
      case Var(_, _) => VarFits(h, ss, st, c, lost, x, r, code);
      case DeferBlock(_) => DeferFits(h, ss, st, c, lost, x, r, code);
      case DeferExpr(_) => DeferFits(h, ss, st, c, lost, x, r, code);
      case _ => OtherFits(h, ss, st, c, lost, x, r, code);
    }
  }

  lemma {:induction false} WhenFits(h: seq<DeferNode>, ss: seq<Stmt>, st: RState, c: Ctx, lost: bool,
                                    x: Step<seq<RStmt>>, r: Lowered, code: seq<CStmt>)
    requires ss != [] && ss[0].When?
    requires Tracks(st, c, lost) && ResolveStmts(ss, st) == Ok(x) && LowerStmts(ss, c) == Ok(r)
    requires x.st.defers <= h && Linked(h) && GenStmts(h, c.ret, x.res, |h|) == Some(code)
    ensures Fits(lost || !NoLostHere(ss, |c.pend|), code, r.code) && |r.pend| == |c.pend| + |Nodes(x.res)|
    decreases Size(ss), 0
  {
    var w := ss[0].whens;
    SplicedSize(ss);
    NoLostWhen(ss, |c.pend|);
    assert LowerStmts(ss, c) == LowerStmts(SelectedStmts(w) + ss[1..], c);
    if Selected(w).Some? {
      WhenIsSplice(ss, st);
      hide ResolveStmts, LowerStmts, GenStmts, Tracks, NoLostHere, Nodes;
      StmtsFit(h, SelectedStmts(w) + ss[1..], st, c, lost, x, r, code);
    } else {
      assert SelectedStmts(w) + ss[1..] == ss[1..];
      WhenForgets(ss, st);
      WhenTracks(st, c, lost);
      hide ResolveStmts, LowerStmts, GenStmts, Tracks, NoLostHere, Nodes;
      StmtsFit(h, ss[1..], st.(head := None), c, lost || |c.pend| > 0, x, r, code);
    }
  }

  lemma {:induction false} VarFits(h: seq<DeferNode>, ss: seq<Stmt>, st: RState, c: Ctx, lost: bool,
                                   x: Step<seq<RStmt>>, r: Lowered, code: seq<CStmt>)
    requires ss != [] && ss[0].Var?
    requires Tracks(st, c, lost) && ResolveStmts(ss, st) == Ok(x) && LowerStmts(ss, c) == Ok(r)
    requires x.st.defers <= h && Linked(h) && GenStmts(h, c.ret, x.res, |h|) == Some(code)
    ensures Fits(lost || !NoLostHere(ss, |c.pend|), code, r.code) && |r.pend| == |c.pend| + |Nodes(x.res)|
    decreases Size(ss), 0
  {
    var e := Entry(ss[0].name, Local(st.counter));
    var x1, r1, s, first, more := VarSteps(h, ss, st, c, x, r, code);
    TailSmaller(ss);
    NodesAppend(if s.Some? then [s.value] else [], x1.res);
    assert NoLostHere(ss, |c.pend|) == NoLostHere(ss[1..], |c.pend|);
    hide ResolveStmts, LowerStmts, GenStmts, NoLostHere, Nodes, Chain, WellLinked;
    VarTracks(st, c, lost, e);
    var c1 := c.(scope := c.scope + [Entry(ss[0].name, Local(c.counter))], counter := c.counter + 1);
    assert Tracks(Insert(st, e).(counter := st.counter + 1), c1, lost);
    StmtsFit(h, ss[1..], Insert(st, e).(counter := st.counter + 1), c1, lost, x1, r1, more);
  }

  /** What resolver, lowering and code generator make of a declaration and of the statements after it. */
  lemma {:induction false} VarSteps(h: seq<DeferNode>, ss: seq<Stmt>, st: RState, c: Ctx, x: Step<seq<RStmt>>,
                                    r: Lowered, code: seq<CStmt>)
    returns (x1: Step<seq<RStmt>>, r1: Lowered, s: Option<RStmt>, first: seq<CStmt>, more: seq<CStmt>)
    requires ss != [] && ss[0].Var? && st.tables != []
    requires ResolveStmts(ss, st) == Ok(x) && LowerStmts(ss, c) == Ok(r) && GenStmts(h, c.ret, x.res, |h|) == Some(code)
    ensures ResolveStmts(ss[1..], Insert(st, Entry(ss[0].name, Local(st.counter))).(counter := st.counter + 1)) ==
            Ok(x1) && x1.st == x.st
    ensures LowerStmts(ss[1..],
            c.(scope := c.scope + [Entry(ss[0].name, Local(c.counter))], counter := c.counter + 1)) == Ok(r1)
    ensures x.res == (if s.Some? then [s.value] else []) + x1.res && r1.pend == r.pend
    ensures Nodes(if s.Some? then [s.value] else []) == []
    ensures GenStmts(h, c.ret, x1.res, |h|) == Some(more) && code == first + more
    ensures exists front :: r.code == front + r1.code && |front| == |first|
  {
    var e := Entry(ss[0].name, Local(st.counter));
    var st1 := Insert(st, e).(counter := st.counter + 1);
    var c1 := c.(scope := c.scope + [Entry(ss[0].name, Local(c.counter))], counter := c.counter + 1);
    if ss[0].init.Some? {
      ResolveVarInit(ss, st, st1, e);
      LowerVarInit(ss, c, c1, Entry(ss[0].name, Local(c.counter)));
      var v := ResolveExpr(st.tables, ss[0].init.value).value;
      s := Some(RAssign(e.slot, v));
      assert [s.value][1..] == [];
    } else {
      ResolveVarUninit(ss, st, st1, e);
      LowerVarUninit(ss, c, c1, Entry(ss[0].name, Local(c.counter)));
      s := None;
    }
    x1, r1 := ResolveStmts(ss[1..], st1).value, LowerStmts(ss[1..], c1).value;
    hide ResolveStmts, LowerStmts, ResolveExpr, LowerExpr;
    first, more := GenFirst(h, c.ret, s, x1.res, |h|, code);
    if s.Some? {
      assert r.code == [r.code[0]] + r1.code;
    } else {
      assert r.code == [] + r1.code;
    }
  }

  lemma {:induction false} DeferFits(h: seq<DeferNode>, ss: seq<Stmt>, st: RState, c: Ctx, lost: bool,
                                     x: Step<seq<RStmt>>, r: Lowered, code: seq<CStmt>)
    requires ss != [] && (ss[0].DeferBlock? || ss[0].DeferExpr?)
    requires Tracks(st, c, lost) && ResolveStmts(ss, st) == Ok(x) && LowerStmts(ss, c) == Ok(r)
    requires x.st.defers <= h && Linked(h) && GenStmts(h, c.ret, x.res, |h|) == Some(code)
    ensures Fits(lost || !NoLostHere(ss, |c.pend|), code, r.code) && |r.pend| == |c.pend| + |Nodes(x.res)|
    decreases Size(ss), 0
  {
    hide ResolveStmts, LowerStmts, GenStmts, GenStmt, Tracks, NoLostHere, Nodes, ResolveStmt, LowerBlock, Chain,
      WellLinked, ChainOf;
    LinkedTables(st, c, lost);
    var p, b, x1, r1 := DeferSteps(h, ss, st, c, x, r, code);
    DeferTracks(ss[0], st, c, lost, p, b);
    TailSmaller(ss);
    NodesAppend([p.res.value], x1.res);
    var c1 := c.(pend := c.pend + [b.block], counter := b.counter);
    DeferLoss(ss, |c.pend|);
    StmtsFit(h, ss[1..], p.st, c1, lost, x1, r1, code);
  }

  lemma {:induction false} LinkedTables(st: RState, c: Ctx, lost: bool)
    requires Tracks(st, c, lost)
    ensures st.tables != [] && WellLinked(st)
  {
  }

  lemma {:induction false} DeferLoss(ss: seq<Stmt>, p: nat)
    requires ss != [] && (ss[0].DeferBlock? || ss[0].DeferExpr?)
    ensures NoLostHere(ss, p) == NoLostHere(ss[1..], p + 1)
  {
  }

  /** What resolver, lowering and code generator make of a defer and of the statements after it. */
  lemma {:induction false} DeferSteps(h: seq<DeferNode>, ss: seq<Stmt>, st: RState, c: Ctx, x: Step<seq<RStmt>>,
                                      r: Lowered, code: seq<CStmt>)
    returns (p: Step<Option<RStmt>>, b: LoweredBlock, x1: Step<seq<RStmt>>, r1: Lowered)
    requires ss != [] && (ss[0].DeferBlock? || ss[0].DeferExpr?) && st.tables != []
    requires ResolveStmts(ss, st) == Ok(x) && LowerStmts(ss, c) == Ok(r) && GenStmts(h, c.ret, x.res, |h|) == Some(code)
    ensures ResolveStmt(ss[0], st) == Ok(p) && p.res.Some? && p.st.tables != [] && ResolveStmts(ss[1..], p.st) == Ok(x1)
    ensures x1.st == x.st && x.res == [p.res.value] + x1.res
    ensures LowerBlock(DeferBody(ss[0]), c) == Ok(b) && r1 == r
    ensures LowerStmts(ss[1..], c.(pend := c.pend + [b.block], counter := b.counter)) == Ok(r1)
    ensures GenStmts(h, c.ret, x1.res, |h|) == Some(code)
  {
    ResolveCons(ss, st);
    LowerDefer(ss, c);
    hide ResolveStmts, LowerStmts, GenStmts, ResolveStmt, LowerBlock;
    p, b := ResolveStmt(ss[0], st).value, LowerBlock(DeferBody(ss[0]), c).value;
    x1 := ResolveStmts(ss[1..], p.st).value;
    r1 := LowerStmts(ss[1..], c.(pend := c.pend + [b.block], counter := b.counter)).value;
    assert [] + r1.code == r1.code && [] + r1.decls == r1.decls;
    DeferIsSilent(h, ss[0], st, p, c.ret);
    var first, more := GenFirst(h, c.ret, p.res, x1.res, |h|, code);
    assert first == [] && [] + more == more;
  }

  lemma {:induction false} DeferIsSilent(h: seq<DeferNode>, s: Stmt, st: RState, p: Step<Option<RStmt>>, k: ReturnKind)
    requires (s.DeferBlock? || s.DeferExpr?) && st.tables != [] && ResolveStmt(s, st) == Ok(p)
    ensures p.res.Some? && GenStmt(h, k, p.res.value, |h|) == Some([])
  {
    ResolvedKind(s, st);
  }

  lemma {:induction false} OtherFits(h: seq<DeferNode>, ss: seq<Stmt>, st: RState, c: Ctx, lost: bool,
                                     x: Step<seq<RStmt>>, r: Lowered, code: seq<CStmt>)
    requires ss != [] && !ss[0].Var? && !ss[0].DeferBlock? && !ss[0].DeferExpr? && !ss[0].When?
    requires Tracks(st, c, lost) && ResolveStmts(ss, st) == Ok(x) && LowerStmts(ss, c) == Ok(r)
    requires x.st.defers <= h && Linked(h) && GenStmts(h, c.ret, x.res, |h|) == Some(code)
    ensures Fits(lost || !NoLostHere(ss, |c.pend|), code, r.code) && |r.pend| == |c.pend| + |Nodes(x.res)|
    decreases Size(ss), 0
  {
    ResolveCons(ss, st);
    LowerOther(ss, c);
    TailSmaller(ss);
    assert NoLostHere(ss, |c.pend|) == NoLostHere(ss[1..], |c.pend|);
    assert st.tables != [];
    hide ResolveStmts, LowerStmts, GenStmts, GenStmt, Tracks, NoLostHere, Nodes, ResolveStmt, LowerStmt, Chain,
      WellLinked, ChainOf;
    var p, l := ResolveStmt(ss[0], st).value, LowerStmt(ss[0], c).value;
    var c1 := c.(counter := l.counter);
    OtherTracks(ss[0], st, c, lost, p, l.counter);
    var x1, r1 := ResolveStmts(ss[1..], p.st).value, LowerStmts(ss[1..], c1).value;
    var first, more := GenFirst(h, c.ret, p.res, x1.res, |h|, code);
    StmtFits(h, ss[0], st, c, lost, p, l, first);
    NodesAppend([p.res.value], x1.res);
    StmtsFit(h, ss[1..], p.st, c1, lost, x1, r1, more);
  }

  // ---------- Where the resolver stands for a context ----------

  lemma {:induction false} RepresentsChain(h: seq<DeferNode>, k: ReturnKind, link: Link, pend: seq<CBlock>, bound: nat)
    requires Represents(h, k, link, pend) && (link.Some? ==> link.value < bound)
    ensures |Chain(h, link, bound)| == |pend|
    decreases |pend|
  {
    hide GenBlock;
    if pend != [] {
      RepresentsChain(h, k, h[link.value].prev, pend[..|pend| - 1], link.value);
    }
  }

  lemma {:induction false} BackInChain(h: seq<DeferNode>, k: ReturnKind, link: Link, pend: seq<CBlock>, n: nat,
                                       bound: nat)
    requires Represents(h, k, link, pend) && n <= |pend| && (link.Some? ==> link.value < bound)
    ensures var c := Chain(h, link, bound);
            |c| == |pend| && Back(h, link, n) == if n == |pend| then None else Some(c[|pend| - 1 - n])
    decreases n
  {
    hide GenBlock;
    RepresentsChain(h, k, link, pend, bound);
    if n > 0 {
      BackInChain(h, k, h[link.value].prev, pend[..|pend| - 1], n - 1, link.value);
    }
  }

  lemma {:induction false} StandsForTracks(st: RState, c: Ctx)
    requires StandsFor(st, c) && WellLinked(st)
    ensures Tracks(st, c, false)
  {
    hide Represents, Back, Chain, Flatten;
    RepresentsChain(st.defers, c.ret, st.head, c.pend, |st.defers|);
    if c.loop.Some? {
      var n := |c.pend| - c.loop.value.pend;
      BackInChain(st.defers, c.ret, st.head, c.pend, n, |st.defers|);
      ChainRises(st.defers, st.head, |st.defers|);
    }
  }

  // ---------- Code that equals the lowering ----------

  lemma {:induction false} LastOfChain(h: seq<DeferNode>, link: Link, bound: nat)
    requires link.Some? ==> link.value < bound && link.value < |h|
    ensures var c := Chain(h, link, bound);
            if link.None? then c == [] else c != [] && c[|c| - 1] == link.value
  {
  }

  /** The walk at the end of a block that kept its pending defers emits one block for each of its own. */
  lemma {:induction false} OwnWalk(before: seq<nat>, nodes: seq<nat>, head: Link, walked: nat, bound: nat)
    requires Rises(before + nodes, bound) && walked <= |before + nodes|
    requires if head.None? then before == [] && walked == |nodes|
             else before != [] && before[|before| - 1] == head.value && walked < |before + nodes| &&
                  (before + nodes)[|before + nodes| - 1 - walked] == head.value
    ensures walked == |nodes|
  {
    if head.Some? {
      var all := before + nodes;
      assert all[|before| - 1] == head.value;
    }
  }

  /** A block whose code is that of the lowering has kept its pending defers up to its end. */
  lemma {:induction false} BlockKeeps(h: seq<DeferNode>, body: seq<Stmt>, st: RState, c: Ctx, x: Step<seq<RStmt>>,
                                      r: Lowered,
                                      code: seq<CStmt>, ds: seq<CStmt>)
    requires Tracks(st, c, false) && ResolveStmts(body, st) == Ok(x) && LowerStmts(body, c) == Ok(r)
    requires x.st.defers <= h && Linked(h) && GenStmts(h, c.ret, x.res, |h|) == Some(code)
    requires GenDefers(h, c.ret, x.st.head, st.head, |h|) == Some(ds)
    requires code + ds == r.code + Copies(r.pend, |c.pend|)
    ensures NoLostHere(body, |c.pend|) && code == r.code && ds == Copies(r.pend, |c.pend|)
  {
    StmtsFit(h, body, st, c, false, x, r, code);
    ChainAfter(body, st, x);
    LinkedAfterAll(body, st, x);
    ChainGrow(x.st.defers, h, x.st.head, |x.st.defers|, |h|);
    ChainRises(h, x.st.head, |h|);
    WalkLength(h, c.ret, x.st.head, st.head, |h|, ds);
    LastOfChain(st.defers, st.head, |st.defers|);
    CopiesLength(r.pend, |c.pend|);
    hide ResolveStmts, LowerStmts, GenStmts, GenDefers, NoLostHere, Chain, Nodes, Copies;
    var before, nodes, after := ChainOf(st), Nodes(x.res), ChainOf(x.st);
    assert after == Chain(h, x.st.head, |h|);
    if NoLostHere(body, |before|) {
      OwnWalk(before, nodes, st.head, |ds|, |h|);
    } else {
      assert false;
    }
    assert code == (code + ds)[..|code|] == r.code;
  }

  lemma {:induction false} LinkedAfterAll(ss: seq<Stmt>, st: RState, x: Step<seq<RStmt>>)
    requires st.tables != [] && WellLinked(st) && ResolveStmts(ss, st) == Ok(x)
    ensures WellLinked(x.st)
  {
  }

  /** A block whose code is that of the lowering loses no defers, nor do the blocks in it. */
  lemma {:induction false} BlockExact(h: seq<DeferNode>, body: seq<Stmt>, es: seq<Entry>, st: RState, c: Ctx,
                                      inner: Ctx, v: Option<Slot>,
                                      x: Step<RBlock>, b: LoweredBlock)
    requires (es == [] && v == None) || (|es| == 1 && v == Some(es[0].slot) && v.value.Local? && v.value.n < c.counter)
    requires StandsFor(st, c) && WellLinked(st)
    requires inner.scope == c.scope + es && inner.pend == c.pend && inner.counter == c.counter && inner.ret == c.ret
    requires inner.loop.Some? == c.loop.Some? && (c.loop.Some? ==> inner.loop.value.pend == c.loop.value.pend)
    requires ResolveScope(body, es, st) == Ok(x) && LowerBlock(body, inner) == Ok(b)
    requires x.st.defers <= h && Linked(h) && GenBlock(h, c.ret, x.res, v, |h|) == Some(b.block)
    ensures NoLost(body, |c.pend|)
    decreases Size(body), 4
  {
    var st1 := Enter(st, es);
    EnterStandsFor(st, c, es);
    assert StandsFor(st1, inner);
    StandsForTracks(st1, inner);
    var y, r := ResolveStmts(body, st1).value, LowerStmts(body, inner).value;
    assert x == Closed(st, y);
    var code, ds := GenStmts(h, c.ret, y.res, |h|).value, GenDefers(h, c.ret, y.st.head, st.head, |h|).value;
    assert code + ds == r.code + Copies(r.pend, |c.pend|);
    hide StandsFor, Tracks, GenBlock, GenStmts, GenDefers, ResolveStmts, LowerStmts, Copies, NoLost, NoLostHere;
    BlockKeeps(h, body, st1, inner, y, r, code, ds);
    StmtsExact(h, body, st1, inner, y, r);
  }

  lemma {:induction false} StmtsExact(h: seq<DeferNode>, ss: seq<Stmt>, st: RState, c: Ctx, x: Step<seq<RStmt>>,
                                      r: Lowered)
    requires StandsFor(st, c) && WellLinked(st) && ResolveStmts(ss, st) == Ok(x) && LowerStmts(ss, c) == Ok(r) &&
             NoLostHere(ss, |c.pend|)
    requires x.st.defers <= h && Linked(h) && GenStmts(h, c.ret, x.res, |h|) == Some(r.code)
    requires GenDefers(h, c.ret, x.st.head, st.head, |h|) == Some(Copies(r.pend, |c.pend|))
    ensures NoLost(ss, |c.pend|)
    decreases Size(ss), 3
  {
    if ss != [] {
      match ss[0]
      case When(w) =>
        assert st.head.None? || |c.pend| > 0;
        NoLostWhen(ss, |c.pend|);
        WhenIsSplice(ss, st);
        SplicedSize(ss);
        assert SelectedStmts(w) == [] ==> SelectedStmts(w) + ss[1..] == ss[1..];
        StmtsExact(h, SelectedStmts(w) + ss[1..], st, c, x, r);
      case Var(_, _) => VarExact(h, ss, st, c, x, r);
      case DeferBlock(_) => DeferExact(h, ss, st, c, x, r);
      case DeferExpr(_) => DeferExact(h, ss, st, c, x, r);
      case _ => OtherExact(h, ss, st, c, x, r);
    }
  }

  lemma {:induction false} VarExact(h: seq<DeferNode>, ss: seq<Stmt>, st: RState, c: Ctx, x: Step<seq<RStmt>>,
                                    r: Lowered)
    requires ss != [] && ss[0].Var?
    requires StandsFor(st, c) && WellLinked(st) && ResolveStmts(ss, st) == Ok(x) && LowerStmts(ss, c) == Ok(r) &&
             NoLostHere(ss, |c.pend|)
    requires x.st.defers <= h && Linked(h) && GenStmts(h, c.ret, x.res, |h|) == Some(r.code)
    requires GenDefers(h, c.ret, x.st.head, st.head, |h|) == Some(Copies(r.pend, |c.pend|))
    ensures NoLost(ss, |c.pend|)
    decreases Size(ss), 2
  {
    hide ResolveStmts, LowerStmts, GenStmts, GenDefers, NoLostHere, NoLost, StandsFor, Copies, Represents, WellLinked,
      Linked, Nodes, Size;
    SameScope(st, c);
    VarNoLost(ss, |c.pend|);
    TailSmaller(ss);
    var x1, r1, s, first, more := VarSteps(h, ss, st, c, x, r, r.code);
    var front :| r.code == front + r1.code && |front| == |first|;
    assert more == (first + more)[|first|..] == (front + r1.code)[|front|..] == r1.code;
    var e := Entry(ss[0].name, Local(st.counter));
    InsertStandsFor(st, c, e);
    InsertLinked(st, e);
    StmtsExact(h, ss[1..], Insert(st, e).(counter := st.counter + 1), c.(scope := c.scope + [e], counter := c.counter + 1), x1, r1);
  }

  lemma {:induction false} InsertLinked(st: RState, e: Entry)
    requires st.tables != [] && WellLinked(st)
    ensures WellLinked(Insert(st, e).(counter := st.counter + 1))
  {
  }

  lemma {:induction false} VarNoLost(ss: seq<Stmt>, p: nat)
    requires ss != [] && ss[0].Var?
    ensures NoLostHere(ss, p) == NoLostHere(ss[1..], p) && NoLost(ss, p) == NoLost(ss[1..], p)
  {
    assert NoLostStmt(ss[0], p);
  }

  lemma {:induction false} DeferExact(h: seq<DeferNode>, ss: seq<Stmt>, st: RState, c: Ctx, x: Step<seq<RStmt>>,
                                      r: Lowered)
    requires ss != [] && (ss[0].DeferBlock? || ss[0].DeferExpr?)
    requires StandsFor(st, c) && WellLinked(st) && ResolveStmts(ss, st) == Ok(x) && LowerStmts(ss, c) == Ok(r) &&
             NoLostHere(ss, |c.pend|)
    requires x.st.defers <= h && Linked(h) && GenStmts(h, c.ret, x.res, |h|) == Some(r.code)
    requires GenDefers(h, c.ret, x.st.head, st.head, |h|) == Some(Copies(r.pend, |c.pend|))
    ensures NoLost(ss, |c.pend|)
    decreases Size(ss), 2
  {
    hide ResolveStmts, LowerStmts, GenStmts, GenDefers, GenBlock, NoLostHere, NoLost, StandsFor, Copies, ResolveStmt,
      LowerBlock, Back, WellLinked;
    SameScope(st, c);
    var p, b, x1, r1 := DeferSteps(h, ss, st, c, x, r, r.code);
    var c1 := c.(pend := c.pend + [b.block], counter := b.counter);
    LinkedAfter(ss[0], st);
    DeferLoss(ss, |c.pend|);
    TailSmaller(ss);
    assert c1.pend <= r.pend;
    DeferWalk(h, ss[0], ss[1..], st, c, p, b, x1, r);
    if ss[0].DeferBlock? {
      DeferBodyExact(h, ss[0], st, c, p, b);
    }
    DeferBodyLowers(ss[0], st, c);
    StmtsExact(h, ss[1..], p.st, c1, x1, r1);
    DeferNoLost(ss, |c.pend|);
  }

  lemma {:induction false} DeferNoLost(ss: seq<Stmt>, p: nat)
    requires ss != [] && (ss[0].DeferBlock? || ss[0].DeferExpr?)
    requires (ss[0].DeferBlock? ==> NoLost(ss[0].body, p)) && NoLost(ss[1..], p + 1)
    ensures NoLost(ss, p)
  {
  }

  /** The walk at the end of a block, split at one of the block's own defers. */
  lemma {:induction false} DeferWalk(h: seq<DeferNode>, s: Stmt, rest: seq<Stmt>, st: RState, c: Ctx,
                                     p: Step<Option<RStmt>>, b: LoweredBlock,
                                     x: Step<seq<RStmt>>, r: Lowered)
    requires (s.DeferBlock? || s.DeferExpr?) && StandsFor(st, c) && WellLinked(st)
    requires ResolveStmt(s, st) == Ok(p) && p.st.tables != [] && ResolveStmts(rest, p.st) == Ok(x) &&
             NoLostHere(rest, |c.pend| + 1)
    requires x.st.defers <= h && Linked(h) && c.pend + [b.block] <= r.pend
    requires GenDefers(h, c.ret, x.st.head, st.head, |h|) == Some(Copies(r.pend, |c.pend|))
    ensures p.st.head.Some? && p.st.head.value < |p.st.defers| && p.st.defers <= h
    ensures GenDefers(h, c.ret, x.st.head, p.st.head, |h|) == Some(Copies(r.pend, |c.pend| + 1))
    ensures GenBlock(h, c.ret, h[p.st.head.value].body, None, p.st.head.value) == Some(b.block)
  {
    hide ResolveStmts, ResolveStmt, GenDefers, GenBlock, NoLostHere, Copies, Chain, StandsFor, Nodes, WellLinked,
      Linked;
    SameScope(st, c);
    DeferNodeIs(s, st, p);
    NodeStays(h, s, rest, st, c, p, x);
    LoweringProof.CopiesSplit(r.pend, |c.pend|);
    var id := p.st.head.value;
    assert h[id] == p.st.defers[id];
    var front, e := WalkSplit(h, c.ret, x.st.head, id, |h|, Copies(r.pend, |c.pend|));
    assert r.pend[|c.pend|] == b.block;
    var copies := Copies(r.pend, |c.pend| + 1);
    LastEqual(front, CNested(e), copies, CNested(b.block));
  }

  /** The node that a defer statement makes is still in the chain at the end of its block. */
  lemma {:induction false} NodeStays(h: seq<DeferNode>, s: Stmt, rest: seq<Stmt>, st: RState, c: Ctx,
                                     p: Step<Option<RStmt>>, x: Step<seq<RStmt>>)
    requires (s.DeferBlock? || s.DeferExpr?) && StandsFor(st, c) && WellLinked(st)
    requires ResolveStmt(s, st) == Ok(p) && p.st.tables != [] && ResolveStmts(rest, p.st) == Ok(x) &&
             NoLostHere(rest, |c.pend| + 1)
    requires x.st.defers <= h && Linked(h) && p.st.head.Some? && p.res == Some(RDefer(p.st.head.value))
    ensures p.st.head.value in Chain(h, x.st.head, |h|) && p.st.defers <= x.st.defers
    ensures x.st.head.Some? ==> x.st.head.value < |x.st.defers|
  {
    LinkedAfter(s, st);
    DeferPushes(s, st, p);
    StandsForTracks(st, c);
    ChainAfter(rest, p.st, x);
    LinkedAfterAll(rest, p.st, x);
    ChainGrow(x.st.defers, h, x.st.head, |x.st.defers|, |h|);
    assert Follows(p.st, x.st);
    hide ResolveStmts, ResolveStmt, NoLostHere, Chain, StandsFor, Nodes;
    var id := p.st.head.value;
    var after := ChainOf(x.st);
    assert after == (ChainOf(st) + [id]) + Nodes(x.res);
    assert after[|ChainOf(st)|] == id;
  }

  lemma {:induction false} LastEqual(a: seq<CStmt>, x: CStmt, b: seq<CStmt>, y: CStmt)
    requires a + [x] == b + [y]
    ensures a == b && x == y
  {
    assert (a + [x])[|a|] == x && |a| == |b|;
    assert a == (a + [x])[..|a|] && b == (b + [y])[..|b|];
  }

  /** The node that a defer statement makes. */
  lemma {:induction false} DeferNodeIs(s: Stmt, st: RState, p: Step<Option<RStmt>>)
    requires (s.DeferBlock? || s.DeferExpr?) && st.tables != [] && WellLinked(st) && ResolveStmt(s, st) == Ok(p)
    ensures p.st.head.Some? && p.res.Some? && p.res.value == RDefer(p.st.head.value) &&
            var id := p.st.head.value;
            id < |p.st.defers| && p.st.defers[id].prev == st.head &&
            (s.DeferBlock? ==> ResolveScope(s.body, [], st).Ok? &&
                               var xb := ResolveScope(s.body, [], st).value;
                               p.st.defers[id].body == xb.res && xb.st.defers <= p.st.defers && id == |xb.st.defers|)
  {
  }

  lemma {:induction false} DeferBodyExact(h: seq<DeferNode>, s: Stmt, st: RState, c: Ctx, p: Step<Option<RStmt>>,
                                          b: LoweredBlock)
    requires s.DeferBlock? && StandsFor(st, c) && WellLinked(st) && ResolveStmt(s, st) == Ok(p) &&
             LowerBlock(s.body, c) == Ok(b)
    requires p.st.head.Some? && p.st.head.value < |p.st.defers| && p.st.defers <= h && Linked(h)
    requires GenBlock(h, c.ret, h[p.st.head.value].body, None, p.st.head.value) == Some(b.block)
    ensures NoLost(s.body, |c.pend|)
    decreases SizeStmt(s), 0
  {
    SameScope(st, c);
    DeferNodeIs(s, st, p);
    hide ResolveStmt, ResolveScope, LowerBlock, GenBlock, StandsFor, WellLinked, NoLost;
    var id := p.st.head.value;
    var xb := ResolveScope(s.body, [], st).value;
    assert h[id] == p.st.defers[id];
    GrowBlock(h, h, c.ret, xb.res, None, id, |h|);
    assert c.scope + [] == c.scope;
    BlockExact(h, s.body, [], st, c, c, None, xb, b);
  }

  lemma {:induction false} OtherExact(h: seq<DeferNode>, ss: seq<Stmt>, st: RState, c: Ctx, x: Step<seq<RStmt>>,
                                      r: Lowered)
    requires ss != [] && !ss[0].Var? && !ss[0].DeferBlock? && !ss[0].DeferExpr? && !ss[0].When?
    requires StandsFor(st, c) && WellLinked(st) && ResolveStmts(ss, st) == Ok(x) && LowerStmts(ss, c) == Ok(r) &&
             NoLostHere(ss, |c.pend|)
    requires x.st.defers <= h && Linked(h) && GenStmts(h, c.ret, x.res, |h|) == Some(r.code)
    requires GenDefers(h, c.ret, x.st.head, st.head, |h|) == Some(Copies(r.pend, |c.pend|))
    ensures NoLost(ss, |c.pend|)
    decreases Size(ss), 2
  {
    SameScope(st, c);
    ResolveCons(ss, st);
    LowerOther(ss, c);
    TailSmaller(ss);
    StandsForTracks(st, c);
    LinkedAfter(ss[0], st);
    assert NoLostHere(ss[1..], |c.pend|) && SizeStmt(ss[0]) <= Size(ss) &&
           (NoLostStmt(ss[0], |c.pend|) && NoLost(ss[1..], |c.pend|) ==> NoLost(ss, |c.pend|));
    hide ResolveStmts, LowerStmts, GenStmts, GenStmt, GenDefers, Tracks, NoLostHere, NoLost, NoLostStmt, ResolveStmt,
      LowerStmt, StandsFor,
      WellLinked, Copies, Size, SizeStmt;
    var p, l := ResolveStmt(ss[0], st).value, LowerStmt(ss[0], c).value;
    var c1 := c.(counter := l.counter);
    var x1, r1 := ResolveStmts(ss[1..], p.st).value, LowerStmts(ss[1..], c1).value;
    var first, more := GenFirst(h, c.ret, p.res, x1.res, |h|, r.code);
    OtherTracks(ss[0], st, c, false, p, l.counter);
    StmtFits(h, ss[0], st, c, false, p, l, first);
    assert first == (first + more)[..|first|] == (l.code + r1.code)[..|l.code|] == l.code;
    assert more == (first + more)[|first|..] == (l.code + r1.code)[|l.code|..] == r1.code;
    StmtExact(h, ss[0], st, c, p, l);
    StmtLowers(ss[0], st, c);
    AgreedStmt(st, c, p, l);
    StmtsExact(h, ss[1..], p.st, c1, x1, r1);
  }

  lemma {:induction false} AgreedStmt(st: RState, c: Ctx, p: Step<Option<RStmt>>, l: LoweredStmt)
    requires StmtAgrees(st, c, p, l)
    ensures p.st.head == st.head && StandsFor(p.st, c.(counter := l.counter))
  {
  }

  lemma {:induction false} StmtExact(h: seq<DeferNode>, s: Stmt, st: RState, c: Ctx, p: Step<Option<RStmt>>,
                                     l: LoweredStmt)
    requires !s.Var? && !s.DeferBlock? && !s.DeferExpr? && !s.When?
    requires StandsFor(st, c) && WellLinked(st) && ResolveStmt(s, st) == Ok(p) && LowerStmt(s, c) == Ok(l)
    requires p.st.defers <= h && Linked(h) && p.res.Some? && GenStmt(h, c.ret, p.res.value, |h|) == Some(l.code)
    ensures NoLostStmt(s, |c.pend|)
    decreases SizeStmt(s), 1
  {
    hide Represents, Back, Flatten, LookupTables, LastIndex, GenDefers, GenBlock, GenArms, GenCases, LowerBlock,
      LowerArms, LowerCases,
      ResolveScope, ResolveArms, ResolveCases, ResolveExpr, LowerExpr, NoLost, NoLostArms, NoLostCases, WellLinked, StandsFor;
    SameScope(st, c);
    match s
    case If(arms) => ArmsExact(h, arms, st, c, ResolveArms(arms, st).value, LowerArms(arms, c).value);
    case Switch(_, cases) => CasesExact(h, cases, st, c, ResolveCases(cases, st).value, LowerCases(cases, c).value);
    case ForExpr(_, body) => LoopExact(h, s, st, c, p, l);
    case ForRange(_, _, _, _) => RangeExact(h, s, st, c, p, l);
    case _ =>
  }

  lemma {:induction false} LoopExact(h: seq<DeferNode>, s: Stmt, st: RState, c: Ctx, p: Step<Option<RStmt>>,
                                     l: LoweredStmt)
    requires s.ForExpr? && StandsFor(st, c) && WellLinked(st) && ResolveStmt(s, st) == Ok(p) && LowerStmt(s, c) == Ok(l)
    requires p.st.defers <= h && Linked(h) && p.res.Some? && GenStmt(h, c.ret, p.res.value, |h|) == Some(l.code)
    ensures NoLostStmt(s, |c.pend|)
    decreases SizeStmt(s), 0
  {
    hide GenBlock, LowerBlock, ResolveScope, ResolveExpr, LowerExpr, NoLost, Represents, Flatten;
    var st1 := st.(inLoop := true, loopHead := st.head);
    var c1 := LoopCtx(c);
    var x, b := ResolveScope(s.body, [], st1).value, LowerBlock(s.body, c1).value;
    assert StandsFor(st1, c1);
    hide StandsFor;
    assert c1.scope + [] == c1.scope;
    BlockExact(h, s.body, [], st1, c1, c1, None, x, b);
  }

  lemma {:induction false} RangeExact(h: seq<DeferNode>, s: Stmt, st: RState, c: Ctx, p: Step<Option<RStmt>>,
                                      l: LoweredStmt)
    requires s.ForRange? && StandsFor(st, c) && WellLinked(st) && ResolveStmt(s, st) == Ok(p) &&
             LowerStmt(s, c) == Ok(l)
    requires p.st.defers <= h && Linked(h) && p.res.Some? && GenStmt(h, c.ret, p.res.value, |h|) == Some(l.code)
    ensures NoLostStmt(s, |c.pend|)
    decreases SizeStmt(s), 0
  {
    SameScope(st, c);
    RangeResolved(s, st);
    RangeLowered(s, c);
    InRange(st, c);
    hide GenBlock, LowerBlock, ResolveScope, ResolveExpr, LowerExpr, ResolveStmt, LowerStmt, StandsFor, NoLost;
    var slot := Local(st.counter);
    var st1 := st.(counter := st.counter + 1, inLoop := true, loopHead := st.head);
    var c1 := LoopCtx(c).(counter := c.counter + 1);
    var rc := RangeCtx(c, s.name);
    var x, b := ResolveScope(s.body, [Entry(s.name, slot)], st1).value, LowerBlock(s.body, rc).value;
    assert p.res.value.RForRange? && GenBlock(h, c.ret, x.res, Some(slot), |h|) == Some(b.block);
    BlockExact(h, s.body, [Entry(s.name, slot)], st1, c1, rc, Some(slot), x, b);
  }

  lemma {:induction false} ArmsExact(h: seq<DeferNode>, a: Arms, st: RState, c: Ctx, x: Step<RArms>, l: LoweredArms)
    requires StandsFor(st, c) && WellLinked(st) && st.tables != [] && ResolveArms(a, st) == Ok(x) &&
             LowerArms(a, c) == Ok(l)
    requires x.st.defers <= h && Linked(h) && GenArms(h, c.ret, x.res, |h|) == Some(l.arms)
    ensures NoLostArms(a, |c.pend|)
    decreases SizeArms(a), 0
  {
    hide GenBlock, LowerBlock, ResolveScope, ResolveExpr, LowerExpr, NoLost, StandsFor, WellLinked;
    assert c.scope + [] == c.scope;
    match a
    case NoArm =>
    case Else(body) =>
      BlockExact(h, body, [], st, c, c, None, ResolveScope(body, [], st).value, LowerBlock(body, c).value);
    case Elif(_, body, rest) =>
      var xb, b := ResolveScope(body, [], st).value, LowerBlock(body, c).value;
      BlockExact(h, body, [], st, c, c, None, xb, b);
      BlockLowers(body, [], st, c, None);
      AgreedBlock(st, c, xb, b);
      ScopeLinked(body, st);
      ArmsExact(h, rest, xb.st, c.(counter := b.counter), ResolveArms(rest, xb.st).value, LowerArms(rest, c.(counter := b.counter)).value);
  }

  lemma {:induction false} AgreedBlock(st: RState, c: Ctx, x: Step<RBlock>, b: LoweredBlock)
    requires BlockAgrees(st, c, x, None, b)
    ensures StandsFor(x.st, c.(counter := b.counter)) && x.st.tables == st.tables && x.st.head == st.head
  {
  }

  lemma {:induction false} ScopeLinked(body: seq<Stmt>, st: RState)
    requires WellLinked(st) && ResolveScope(body, [], st).Ok?
    ensures WellLinked(ResolveScope(body, [], st).value.st)
  {
    hide ResolveScope;
  }

  lemma {:induction false} CasesExact(h: seq<DeferNode>, cs: Cases, st: RState, c: Ctx, x: Step<RCases>,
                                      l: LoweredCases)
    requires StandsFor(st, c) && WellLinked(st) && st.tables != [] && ResolveCases(cs, st) == Ok(x) &&
             LowerCases(cs, c) == Ok(l)
    requires x.st.defers <= h && Linked(h) && GenCases(h, c.ret, x.res, |h|) == Some(l.cases)
    ensures NoLostCases(cs, |c.pend|)
    decreases SizeCases(cs), 0
  {
    hide GenBlock, LowerBlock, ResolveScope, NoLost, StandsFor, WellLinked, GenCases;
    assert c.scope + [] == c.scope;
    match cs
    case NoCase =>
    case ElseCase(body) =>
      var xb := ResolveScope(body, [], st).value;
      ElseBlock(h, c.ret, xb.res, l.cases);
      BlockExact(h, body, [], st, c, c, None, xb, LowerBlock(body, c).value);
    case Case(symbols, body, rest) =>
      var xb, b := ResolveScope(body, [], st).value, LowerBlock(body, c).value;
      var c1 := c.(counter := b.counter);
      var x1, l1 := ResolveCases(rest, xb.st).value, LowerCases(rest, c1).value;
      SpreadBack(h, c.ret, symbols, xb.res, x1.res, b.block, l1.cases);
      BlockExact(h, body, [], st, c, c, None, xb, b);
      BlockLowers(body, [], st, c, None);
      AgreedBlock(st, c, xb, b);
      ScopeLinked(body, st);
      CasesExact(h, rest, xb.st, c1, x1, l1);
  }

  lemma {:induction false} ElseBlock(h: seq<DeferNode>, k: ReturnKind, b: RBlock, cases: CCases)
    requires GenCases(h, k, RElseCase(b), |h|) == Some(cases)
    ensures cases.CElseCase? && GenBlock(h, k, b, None, |h|) == Some(cases.body)
  {
    hide GenBlock;
  }

  /** Copies of one block for several enum values can be told apart from what follows them. */
  lemma {:induction false} SpreadBack(h: seq<DeferNode>, k: ReturnKind, symbols: seq<int>, b: RBlock, rest: RCases,
                                      cb: CBlock, crest: CCases)
    requires GenCases(h, k, RSpread(symbols, b, rest), |h|) == Some(Spread(symbols, cb, crest))
    ensures symbols != [] ==> GenBlock(h, k, b, None, |h|) == Some(cb)
    ensures GenCases(h, k, rest, |h|) == Some(crest)
    decreases |symbols|
  {
    hide GenBlock;
    if symbols != [] {
      SpreadBack(h, k, symbols[1..], b, rest, cb, crest);
    }
  }

  // ---------- The theorem ----------

  /** Resolver and code generator yield exactly the lowering if and only if no `when` without a selected arm is
      reached while a defer is pending. */
  lemma {:induction false} CompiledExactly(f: Function)
    requires CompleteFunction(f).Ok?
    ensures var b := CompleteFunction(f).value;
            NoLost(f.body, 0) <==> LowerFunction(f).Ok? && GenFunction(b.st.defers, f, b.res) == Some(LowerFunction(f).value)
  {
    var b := CompleteFunction(f).value;
    if NoLost(f.body, 0) {
      CompiledIsLowered(f);
    } else if LowerFunction(f).Ok? && GenFunction(b.st.defers, f, b.res) == Some(LowerFunction(f).value) {
      BodyExact(f);
    }
  }

  lemma {:induction false} BodyExact(f: Function)
    requires CompleteFunction(f).Ok? && LowerFunction(f).Ok?
    requires var b := CompleteFunction(f).value; GenFunction(b.st.defers, f, b.res) == Some(LowerFunction(f).value)
    ensures NoLost(f.body, 0)
  {
    hide ResolveStmts, LowerStmts, GenStmts, GenDefers, NoLost, NoLostHere, StandsFor, EndsInReturn, Copies;
    var st, c := StartOf(f), FunctionCtx(f);
    StartStandsFor(f);
    StandsForTracks(st, c);
    var x, r := ResolveStmts(f.body, st).value, LowerStmts(f.body, c).value;
    LinkedAfterAll(f.body, st, x);
    var h := x.st.defers;
    var code, ds := GenStmts(h, f.ret, x.res, |h|).value, GenDefers(h, f.ret, x.st.head, None, |h|).value;
    var last := FinalReturn(f.ret);
    var lowered := r.code + Copies(r.pend, 0);
    assert (code + ds) + last == lowered + last;
    assert code + ds == ((code + ds) + last)[..|code + ds|] == (lowered + last)[..|lowered|] == lowered;
    BlockKeeps(h, f.body, st, c, x, r, code, ds);
    StmtsExact(h, f.body, st, c, x, r);
  }
}
