// The linked lists of the resolver, walked by the code generator, give exactly the lowering -
// unless a `when` without a selected arm has thrown the pending defers away.

module ResolverProof {
  import opened Wrappers
  import opened SourceLang
  import opened CLang
  import opened Lowering
  import opened Resolver
  import opened Codegen
  import opened LoweringProof

  // ---------- When defers are lost ----------

  /** Every `when` selects an arm, or is reached with no defer pending; `p` defers are pending at the start. */
  predicate NoLost(ss: seq<Stmt>, p: nat)
    decreases Size(ss), 1
  {
    if ss == [] then true
    else
      match ss[0]
      case DeferBlock(body) =>
        assert SizeStmt(ss[0]) == 2 + Size(body);
        NoLost(body, p) && NoLost(ss[1..], p + 1)
      case DeferExpr(_) => NoLost(ss[1..], p + 1)
      case When(w) =>
        SplicedSize(ss);
        (Selected(w).None? ==> p == 0) && NoLost(SelectedStmts(w) + ss[1..], p)
      case s => NoLostStmt(s, p) && NoLost(ss[1..], p)
  }

  predicate NoLostStmt(s: Stmt, p: nat)
    decreases SizeStmt(s), 0
  {
    match s
    case If(arms) => NoLostArms(arms, p)
    case ForRange(_, _, _, body) => NoLost(body, p)
    case ForExpr(_, body) => NoLost(body, p)
    case Switch(_, cases) => NoLostCases(cases, p)
    case _ => true
  }

  predicate NoLostArms(a: Arms, p: nat)
    decreases SizeArms(a), 0
  {
    match a
    case NoArm => true
    case Else(body) => NoLost(body, p)
    case Elif(_, body, rest) => NoLost(body, p) && NoLostArms(rest, p)
  }

  predicate NoLostCases(c: Cases, p: nat)
    decreases SizeCases(c), 0
  {
    match c
    case NoCase => true
    case ElseCase(body) => NoLost(body, p)
    case Case(_, body, rest) => NoLost(body, p) && NoLostCases(rest, p)
  }

  // ---------- Symbol tables ----------

  function Flatten(tables: seq<seq<Entry>>): seq<Entry> {
    if tables == [] then [] else Flatten(tables[..|tables| - 1]) + tables[|tables| - 1]
  }

  lemma {:induction false} LastIndexAppend(a: seq<string>, b: seq<string>, x: string)
    ensures LastIndex(a + b, x) ==
            if LastIndex(b, x) < |b| then |a| + LastIndex(b, x)
            else if LastIndex(a, x) < |a| then LastIndex(a, x) else |a| + |b|
  {
    var i := LastIndex(a + b, x);
    var j := LastIndex(b, x);
    if j < |b| {
      assert (a + b)[|a| + j] == x;
      assert (a + b)[|a| + j + 1..] == b[j + 1..];
      LastUnique(a + b, x, i, |a| + j);
    } else if LastIndex(a, x) < |a| {
      var k := LastIndex(a, x);
      assert (a + b)[k + 1..] == a[k + 1..] + b;
      LastUnique(a + b, x, i, k);
    }
  }

  /** Lookup through the chain of tables finds the innermost binding, as lookup in one scope does. */
  lemma {:induction false} LookupIsLexical(tables: seq<seq<Entry>>, x: string)
    ensures LookupTables(tables, x).Some? <==> LowerName(Flatten(tables), x).Ok?
    ensures LookupTables(tables, x).Some? ==> LowerName(Flatten(tables), x).value == LookupTables(tables, x).value
    decreases |tables|
  {
    hide LastIndex;
    if tables != [] {
      var n := |tables| - 1;
      LookupIsLexical(tables[..n], x);
      var a, b := Flatten(tables[..n]), tables[n];
      assert EntryNames(a + b) == EntryNames(a) + EntryNames(b);
      LastIndexAppend(EntryNames(a), EntryNames(b), x);
    }
  }

  lemma {:induction false} ExprLowers(tables: seq<seq<Entry>>, e: Expr)
    ensures ResolveExpr(tables, e).Ok? <==> LowerExpr(Flatten(tables), e).Ok?
    ensures ResolveExpr(tables, e).Ok? ==> ResolveExpr(tables, e) == LowerExpr(Flatten(tables), e)
  {
    match e
    case Const(_) =>
    case Name(x) => LookupIsLexical(tables, x);
    case Prim(_, l, r) => ExprLowers(tables, l); ExprLowers(tables, r);
    case Call(_, arg) => ExprLowers(tables, arg);
  }

  // ---------- Emission is stable under growth of the heap ----------

  lemma {:induction false} GrowBlock(h: seq<DeferNode>, g: seq<DeferNode>, k: ReturnKind, b: RBlock, v: Option<Slot>,
                                     lo: nat, hi: nat)
    requires h <= g && lo <= hi && GenBlock(h, k, b, v, lo).Some?
    ensures GenBlock(g, k, b, v, hi) == GenBlock(h, k, b, v, lo)
    decreases lo, 1, b, 1
  {
    GrowStmts(h, g, k, b.stmts, lo, hi);
    GrowDefers(h, g, k, b.begin, b.end, lo, hi);
  }

  lemma {:induction false} GrowDefers(h: seq<DeferNode>, g: seq<DeferNode>, k: ReturnKind, cur: Link, end: Link,
                                      lo: nat, hi: nat)
    requires h <= g && lo <= hi && GenDefers(h, k, cur, end, lo).Some?
    ensures GenDefers(g, k, cur, end, hi) == GenDefers(h, k, cur, end, lo)
    decreases lo, 0
  {
    if cur != end {
      var i := cur.value;
      assert g[i] == h[i];
      GrowBlock(h, g, k, h[i].body, None, i, i);
      GrowDefers(h, g, k, h[i].prev, end, i, i);
    }
  }

  lemma {:induction false} GrowStmts(h: seq<DeferNode>, g: seq<DeferNode>, k: ReturnKind, ss: seq<RStmt>, lo: nat,
                                     hi: nat)
    requires h <= g && lo <= hi && GenStmts(h, k, ss, lo).Some?
    ensures GenStmts(g, k, ss, hi) == GenStmts(h, k, ss, lo)
    decreases lo, 1, ss, 2
  {
    if ss != [] {
      GrowStmt(h, g, k, ss[0], lo, hi);
      GrowStmts(h, g, k, ss[1..], lo, hi);
    }
  }

  lemma {:induction false} GrowStmt(h: seq<DeferNode>, g: seq<DeferNode>, k: ReturnKind, s: RStmt, lo: nat, hi: nat)
    requires h <= g && lo <= hi && GenStmt(h, k, s, lo).Some?
    ensures GenStmt(g, k, s, hi) == GenStmt(h, k, s, lo)
    decreases lo, 1, s, 1
  {
    match s
    case RIf(arms) => GrowArms(h, g, k, arms, lo, hi);
    case RForRange(slot, _, _, body) => GrowBlock(h, g, k, body, Some(slot), lo, hi);
    case RForExpr(_, body) => GrowBlock(h, g, k, body, None, lo, hi);
    case RBreak(begin, end) => GrowDefers(h, g, k, begin, end, lo, hi);
    case RContinue(begin, end) => GrowDefers(h, g, k, begin, end, lo, hi);
    case RSwitch(_, cases) => GrowCases(h, g, k, cases, lo, hi);
    case RReturn(_, defer) => GrowDefers(h, g, k, defer, None, lo, hi);
    case _ =>
  }

  lemma {:induction false} GrowArms(h: seq<DeferNode>, g: seq<DeferNode>, k: ReturnKind, a: RArms, lo: nat, hi: nat)
    requires h <= g && lo <= hi && GenArms(h, k, a, lo).Some?
    ensures GenArms(g, k, a, hi) == GenArms(h, k, a, lo)
    decreases lo, 1, a, 1
  {
    match a
    case RNoArm =>
    case RElse(body) => GrowBlock(h, g, k, body, None, lo, hi);
    case RElif(_, body, rest) =>
      GrowBlock(h, g, k, body, None, lo, hi);
      GrowArms(h, g, k, rest, lo, hi);
  }

  lemma {:induction false} GrowCases(h: seq<DeferNode>, g: seq<DeferNode>, k: ReturnKind, c: RCases, lo: nat, hi: nat)
    requires h <= g && lo <= hi && GenCases(h, k, c, lo).Some?
    ensures GenCases(g, k, c, hi) == GenCases(h, k, c, lo)
    decreases lo, 1, c, 1
  {
    match c
    case RNoCase =>
    case RElseCase(body) => GrowBlock(h, g, k, body, None, lo, hi);
    case RCase(_, body, rest) =>
      GrowBlock(h, g, k, body, None, lo, hi);
      GrowCases(h, g, k, rest, lo, hi);
  }

  // ---------- The chain of pending defers ----------

  /** The nodes from `link` to NULL are the pending defers `pend`, latest first. */
  ghost predicate Represents(h: seq<DeferNode>, k: ReturnKind, link: Link, pend: seq<CBlock>)
    decreases |pend|
  {
    if pend == [] then link == None
    else
      var n := |pend| - 1;
      link.Some? && link.value < |h| && GenBlock(h, k, h[link.value].body, None, link.value) == Some(pend[n]) &&
      (h[link.value].prev.Some? ==> h[link.value].prev.value < link.value) &&
      Represents(h, k, h[link.value].prev, pend[..n])
  }

  /** The node reached after `n` steps along the chain. */
  ghost function Back(h: seq<DeferNode>, link: Link, n: nat): Link
    decreases n
  {
    if n == 0 || link.None? || link.value >= |h| then link else Back(h, h[link.value].prev, n - 1)
  }

  lemma {:induction false} RepresentsGrow(h: seq<DeferNode>, g: seq<DeferNode>, k: ReturnKind, link: Link,
                                          pend: seq<CBlock>)
    requires h <= g && Represents(h, k, link, pend)
    ensures Represents(g, k, link, pend)
    decreases |pend|
  {
    if pend != [] {
      var i := link.value;
      GrowBlock(h, g, k, h[i].body, None, i, i);
      RepresentsGrow(h, g, k, h[i].prev, pend[..|pend| - 1]);
    }
  }

  lemma {:induction false} BackGrow(h: seq<DeferNode>, g: seq<DeferNode>, k: ReturnKind, link: Link, pend: seq<CBlock>,
                                    n: nat)
    requires h <= g && Represents(h, k, link, pend) && n <= |pend|
    ensures Back(g, link, n) == Back(h, link, n)
    decreases n
  {
    if n > 0 {
      BackGrow(h, g, k, h[link.value].prev, pend[..|pend| - 1], n - 1);
    }
  }

  lemma {:induction false} BackAdd(h: seq<DeferNode>, link: Link, a: nat, b: nat)
    ensures Back(h, link, a + b) == Back(h, Back(h, link, a), b)
    decreases a
  {
    if a > 0 && link.Some? && link.value < |h| {
      BackAdd(h, h[link.value].prev, a - 1, b);
    }
  }

  lemma {:induction false} BackBelow(h: seq<DeferNode>, k: ReturnKind, link: Link, pend: seq<CBlock>, n: nat)
    requires Represents(h, k, link, pend) && n <= |pend|
    ensures n > 0 && Back(h, link, n).Some? ==> Back(h, link, n).value < link.value
    ensures Represents(h, k, Back(h, link, n), pend[..|pend| - n])
    decreases n
  {
    if n > 0 {
      var m := |pend| - 1;
      BackBelow(h, k, h[link.value].prev, pend[..m], n - 1);
      assert pend[..m][..m - (n - 1)] == pend[..|pend| - n];
    } else {
      assert pend[..|pend|] == pend;
    }
  }

  /** Walking from the head to any node of the chain visits the pending defers above that node, and
      never steps past NULL. */
  lemma {:induction false} WalkIsCopies(h: seq<DeferNode>, k: ReturnKind, link: Link, pend: seq<CBlock>, n: nat,
                                        bound: nat)
    requires Represents(h, k, link, pend) && n <= |pend| && (link.Some? ==> link.value < bound)
    ensures GenDefers(h, k, link, Back(h, link, |pend| - n), bound) == Some(Copies(pend, n))
    decreases |pend|
  {
    if n < |pend| {
      BackBelow(h, k, link, pend, |pend| - n);
      WalkIsCopies(h, k, h[link.value].prev, pend[..|pend| - 1], n, link.value);
    }
  }

  // ---------- Splicing `when` ----------

  lemma {:induction false} ResolveAppend(a: seq<Stmt>, b: seq<Stmt>, st: RState)
    requires st.tables != []
    ensures ResolveStmts(a + b, st) ==
            (var x :- ResolveStmts(a, st);
             var y :- ResolveStmts(b, x.st);
             Ok(Step(x.res + y.res, y.st)))
    decreases Size(a)
  {
    if a == [] {
      assert a + b == b;
      var y := ResolveStmts(b, st);
      if y.Ok? {
        assert [] + y.value.res == y.value.res;
      }
    } else {
      assert (a + b)[0] == a[0] && (a + b)[1..] == a[1..] + b;
      if a[0].When? {
        var w := ResolveWhen(a[0].whens, st);
        if w.Ok? {
          ResolveAppend(a[1..], b, w.value.st.(head := w.value.res.begin));
          AppendAssoc(w.value.res.stmts, a[1..], b, w.value.st.(head := w.value.res.begin));
        }
      } else {
        var s := ResolveStmt(a[0], st);
        if s.Ok? {
          ResolveAppend(a[1..], b, s.value.st);
          AppendAssoc(if s.value.res.Some? then [s.value.res.value] else [], a[1..], b, s.value.st);
        }
      }
    }
  }

  lemma {:induction false} AppendAssoc(pre: seq<RStmt>, a: seq<Stmt>, b: seq<Stmt>, st: RState)
    requires st.tables != []
    ensures ResolveStmts(a, st).Ok? ==>
              var x := ResolveStmts(a, st).value;
              ResolveStmts(b, x.st).Ok? ==>
                var y := ResolveStmts(b, x.st).value;
                pre + (x.res + y.res) == (pre + x.res) + y.res
  {
  }

  /** A `when` that selects an arm behaves as the statements of that arm written in its place. */
  lemma {:induction false} WhenIsSplice(ss: seq<Stmt>, st: RState)
    requires st.tables != [] && ss != [] && ss[0].When?
    requires Selected(ss[0].whens).Some? || st.head.None?
    ensures ResolveStmts(ss, st) == ResolveStmts(SelectedStmts(ss[0].whens) + ss[1..], st)
  {
    var w := ss[0].whens;
    ResolveAppend(SelectedStmts(w), ss[1..], st);
    WhenIsBlock(w, st);
    if Selected(w).None? {
      var rest := ResolveStmts(ss[1..], st);
      if rest.Ok? {
        assert [] + rest.value.res == rest.value.res;
      }
    }
  }

  lemma {:induction false} WhenIsBlock(w: Whens, st: RState)
    requires st.tables != []
    ensures Selected(w).Some? ==> ResolveWhen(w, st) == ResolveBlock(SelectedStmts(w), st)
    ensures Selected(w).None? ==>
              ResolveWhen(w, st) == Ok(Step(RBlock(st.tables[|st.tables| - 1], [], None, None), st))
  {
    match w
    case ElWhen(c, _, rest) => if !c { WhenIsBlock(rest, st); }
    case _ =>
  }

  // ---------- The resolver agrees with the lowering ----------

  /** The resolver's fields stand for the lowering context `c`. */
  ghost predicate StandsFor(st: RState, c: Ctx) {
    st.tables != [] && Flatten(st.tables) == c.scope && st.counter == c.counter && st.ret == c.ret &&
    Represents(st.defers, c.ret, st.head, c.pend) && st.inLoop == c.loop.Some? &&
    (c.loop.Some? ==>
       c.loop.value.pend <= |c.pend| &&
       st.loopHead == Back(st.defers, st.head, |c.pend| - c.loop.value.pend))
  }

  /** What a step must leave alone: all tables but the current one, and the loop it is in. */
  ghost predicate Keeps(st: RState, st': RState) {
    var n := |st.tables| - 1;
    st.tables != [] && |st'.tables| == n + 1 && st'.tables[..n] == st.tables[..n] && st.tables[n] <= st'.tables[n] &&
    st.defers <= st'.defers && st'.loopHead == st.loopHead && st'.inLoop == st.inLoop && st'.ret == st.ret
  }

  function Slots(es: seq<Entry>): (ss: seq<Slot>)
    ensures |ss| == |es|
    ensures forall i :: 0 <= i < |es| ==> ss[i] == es[i].slot
  {
    seq(|es|, i requires 0 <= i < |es| => es[i].slot)
  }

  ghost function NewEntries(st: RState, st': RState): seq<Entry>
    requires Keeps(st, st')
  {
    var n := |st.tables| - 1;
    st'.tables[n][|st.tables[n]|..]
  }

  ghost predicate StmtsAgree(st: RState, c: Ctx, x: Step<seq<RStmt>>, r: Lowered) {
    Keeps(st, x.st) && Slots(NewEntries(st, x.st)) == r.decls &&
    |c.pend| <= |r.pend| && Back(x.st.defers, x.st.head, |r.pend| - |c.pend|) == st.head &&
    StandsFor(x.st, Ctx(c.scope + NewEntries(st, x.st), r.pend, c.loop, r.counter, c.ret)) &&
    GenStmts(x.st.defers, c.ret, x.res, |x.st.defers|) == Some(r.code)
  }

  ghost predicate BlockAgrees(st: RState, c: Ctx, x: Step<RBlock>, loopVar: Option<Slot>, r: LoweredBlock) {
    x.st.tables == st.tables && x.st.head == st.head && Keeps(st, x.st) && StandsFor(x.st, c.(counter := r.counter)) &&
    GenBlock(x.st.defers, c.ret, x.res, loopVar, |x.st.defers|) == Some(r.block)
  }

  /** The context is still represented when the heap and the counter have grown. */
  lemma {:induction false} StandsForGrow(st: RState, c: Ctx, defers: seq<DeferNode>, counter: nat)
    requires StandsFor(st, c) && st.defers <= defers
    ensures StandsFor(st.(defers := defers, counter := counter), c.(counter := counter))
  {
    RepresentsGrow(st.defers, defers, c.ret, st.head, c.pend);
    if c.loop.Some? {
      BackGrow(st.defers, defers, c.ret, st.head, c.pend, |c.pend| - c.loop.value.pend);
    }
  }

  /** Pushing a defer whose body is emitted as `b`. */
  lemma {:induction false} PushStandsFor(st: RState, c: Ctx, body: RBlock, b: CBlock)
    requires StandsFor(st, c) && GenBlock(st.defers, c.ret, body, None, |st.defers|) == Some(b)
    ensures StandsFor(PushDefer(st, body).st, c.(pend := c.pend + [b]))
  {
    var h := PushDefer(st, body).st.defers;
    var pend := c.pend + [b];
    var id := |st.defers|;
    GrowBlock(st.defers, h, c.ret, body, None, id, id);
    assert pend[..|pend| - 1] == c.pend;
    RepresentsGrow(st.defers, h, c.ret, st.head, c.pend);
    if c.loop.Some? {
      var n := |c.pend| - c.loop.value.pend;
      BackGrow(st.defers, h, c.ret, st.head, c.pend, n);
      assert Back(h, Some(id), n + 1) == Back(h, st.head, n);
    }
  }

  lemma {:induction false} InsertStandsFor(st: RState, c: Ctx, e: Entry)
    requires StandsFor(st, c)
    ensures StandsFor(Insert(st, e).(counter := st.counter + 1), c.(scope := c.scope + [e], counter := c.counter + 1))
    ensures Keeps(st, Insert(st, e).(counter := st.counter + 1))
    ensures NewEntries(st, Insert(st, e).(counter := st.counter + 1)) == [e]
  {
    var n := |st.tables| - 1;
    var t := Insert(st, e).tables;
    assert t[..n] == st.tables[..n] && t[n] == st.tables[n] + [e];
  }

  lemma {:induction false} EnterStandsFor(st: RState, c: Ctx, es: seq<Entry>)
    requires StandsFor(st, c)
    ensures StandsFor(Enter(st, es), c.(scope := c.scope + es))
  {
    var t := Enter(st, es).tables;
    assert t[..|t| - 1] == st.tables;
  }

  /** Entries of ordinary variables are all declared by their block. */
  lemma {:induction false} DeclaredAll(es: seq<Entry>, v: Option<Slot>)
    requires forall i :: 0 <= i < |es| ==> es[i].slot.Local? && v != Some(es[i].slot)
    ensures Declared(es, v) == Slots(es)
  {
    if es != [] {
      DeclaredAll(es[1..], v);
      assert Slots(es) == [es[0].slot] + Slots(es[1..]);
    }
  }

  lemma {:induction false} DeclaredAppend(a: seq<Entry>, b: seq<Entry>, v: Option<Slot>)
    ensures Declared(a + b, v) == Declared(a, v) + Declared(b, v)
  {
    if a == [] {
      assert a + b == b;
    } else {
      assert (a + b)[1..] == a[1..] + b;
      DeclaredAppend(a[1..], b, v);
    }
  }

  lemma {:induction false} StmtsLower(ss: seq<Stmt>, st: RState, c: Ctx)
    requires StandsFor(st, c) && NoLost(ss, |c.pend|)
    ensures ResolveStmts(ss, st).Ok? <==> LowerStmts(ss, c).Ok?
    ensures ResolveStmts(ss, st).Ok? ==> StmtsAgree(st, c, ResolveStmts(ss, st).value, LowerStmts(ss, c).value)
    decreases Size(ss), 3
  {
    if ss == [] {
      assert NewEntries(st, st) == [];
      assert c.scope + [] == c.scope;
    } else {
      match ss[0]
      case When(w) =>
        WhenIsSplice(ss, st);
        SplicedSize(ss);
        StmtsLower(SelectedStmts(w) + ss[1..], st, c);
      case Var(_, _) => VarLowers(ss, st, c);
      case DeferBlock(_) => DeferLowers(ss, st, c);
      case DeferExpr(_) => DeferLowers(ss, st, c);
      case _ => OtherLowers(ss, st, c);
    }
  }

  /** One resolved statement in front of a resolved list. */
  lemma {:induction false} Compose(st: RState, c: Ctx, st1: RState, c1: Ctx, s: Option<RStmt>, code: seq<CStmt>,
                                   x: Step<seq<RStmt>>, r: Lowered,
                y: Step<seq<RStmt>>, l: Lowered)
    requires Keeps(st, st1) && StmtsAgree(st1, c1, x, r)
    requires y == Step((if s.Some? then [s.value] else []) + x.res, x.st)
    requires l == Lowered(code + r.code, Slots(NewEntries(st, st1)) + r.decls, r.pend, r.counter)
    requires c1.scope == c.scope + NewEntries(st, st1) && c1.loop == c.loop && c1.ret == c.ret
    requires StandsFor(st1, c1) && |c.pend| <= |c1.pend| && Back(st1.defers, st1.head, |c1.pend| - |c.pend|) == st.head
    requires if s.Some? then GenStmt(st1.defers, c.ret, s.value, |st1.defers|) == Some(code) else code == []
    ensures StmtsAgree(st, c, y, l)
  {
    hide Represents, GenStmts, GenStmt, Back, Flatten, LowerStmts, ResolveStmts, Slots, Follows;
    ComposeEntries(st, st1, x.st);
    assert c.scope + NewEntries(st, x.st) == c1.scope + NewEntries(st1, x.st);
    ComposeBack(st1.defers, x.st.defers, c.ret, c1.pend, st1.head, x.st.head, |r.pend| - |c1.pend|, |c1.pend| - |c.pend|);
    assert StandsFor(x.st, Ctx(c.scope + NewEntries(st, x.st), r.pend, c.loop, r.counter, c.ret));
    ComposeCode(st1.defers, x.st.defers, c.ret, s, code, x.res, r.code);
  }

  lemma {:induction false} ComposeBack(h: seq<DeferNode>, g: seq<DeferNode>, k: ReturnKind, pend: seq<CBlock>,
                                       mid: Link, last: Link, a: nat, b: nat)
    requires h <= g && Represents(h, k, mid, pend) && b <= |pend| && Back(g, last, a) == mid
    ensures Back(g, last, a + b) == Back(h, mid, b)
  {
    BackAdd(g, last, a, b);
    BackGrow(h, g, k, mid, pend, b);
  }

  lemma {:induction false} ComposeEntries(st: RState, st1: RState, st2: RState)
    requires Keeps(st, st1) && Keeps(st1, st2)
    ensures Keeps(st, st2) && NewEntries(st, st2) == NewEntries(st, st1) + NewEntries(st1, st2)
    ensures Slots(NewEntries(st, st2)) == Slots(NewEntries(st, st1)) + Slots(NewEntries(st1, st2))
  {
  }

  lemma {:induction false} ComposeCode(h: seq<DeferNode>, g: seq<DeferNode>, k: ReturnKind, s: Option<RStmt>,
                                       code: seq<CStmt>,
                    rest: seq<RStmt>, more: seq<CStmt>)
    requires h <= g && GenStmts(g, k, rest, |g|) == Some(more)
    requires if s.Some? then GenStmt(h, k, s.value, |h|) == Some(code) else code == []
    ensures GenStmts(g, k, (if s.Some? then [s.value] else []) + rest, |g|) == Some(code + more)
  {
    var res := (if s.Some? then [s.value] else []) + rest;
    if s.Some? {
      assert res[1..] == rest;
      GrowStmt(h, g, k, s.value, |h|, |g|);
    } else {
      assert res == rest && code + more == more;
    }
  }

  lemma {:induction false} LowerVarInit(ss: seq<Stmt>, c: Ctx, c1: Ctx, e: Entry)
    requires ss != [] && ss[0].Var? && ss[0].init.Some? && e == Entry(ss[0].name, Local(c.counter))
    requires c1 == c.(scope := c.scope + [e], counter := c.counter + 1)
    ensures LowerStmts(ss, c) ==
            (var v :- LowerExpr(c.scope, ss[0].init.value);
             var r :- LowerStmts(ss[1..], c1);
             Ok(Lowered([CAssign(e.slot, v)] + r.code, [e.slot] + r.decls, r.pend, r.counter)))
  {
  }

  lemma {:induction false} ResolveVarInit(ss: seq<Stmt>, st: RState, st1: RState, e: Entry)
    requires ss != [] && ss[0].Var? && ss[0].init.Some? && st.tables != []
    requires e == Entry(ss[0].name, Local(st.counter)) && st1 == Insert(st, e).(counter := st.counter + 1)
    ensures ResolveStmts(ss, st) ==
            (var v :- ResolveExpr(st.tables, ss[0].init.value);
             var x :- ResolveStmts(ss[1..], st1);
             Ok(Step([RAssign(e.slot, v)] + x.res, x.st)))
  {
    var v := ResolveExpr(st.tables, ss[0].init.value);
    if v.Ok? {
      assert ResolveStmt(ss[0], st) == Ok(Step(Some(RAssign(e.slot, v.value)), st1));
    }
  }

  lemma {:induction false} LowerVarUninit(ss: seq<Stmt>, c: Ctx, c1: Ctx, e: Entry)
    requires ss != [] && ss[0].Var? && ss[0].init.None? && e == Entry(ss[0].name, Local(c.counter))
    requires c1 == c.(scope := c.scope + [e], counter := c.counter + 1)
    ensures LowerStmts(ss, c) ==
            (var r :- LowerStmts(ss[1..], c1);
             Ok(Lowered([] + r.code, [e.slot] + r.decls, r.pend, r.counter)))
  {
    var r := LowerStmts(ss[1..], c1);
    if r.Ok? {
      assert [] + r.value.code == r.value.code;
    }
  }

  lemma {:induction false} ResolveVarUninit(ss: seq<Stmt>, st: RState, st1: RState, e: Entry)
    requires ss != [] && ss[0].Var? && ss[0].init.None? && st.tables != []
    requires e == Entry(ss[0].name, Local(st.counter)) && st1 == Insert(st, e).(counter := st.counter + 1)
    ensures ResolveStmts(ss, st) == (var x :- ResolveStmts(ss[1..], st1); Ok(Step([] + x.res, x.st)))
  {
    assert ResolveStmt(ss[0], st) == Ok(Step(None, st1));
  }

  lemma {:induction false} VarLowers(ss: seq<Stmt>, st: RState, c: Ctx)
    requires ss != [] && ss[0].Var?
    requires StandsFor(st, c) && NoLost(ss[1..], |c.pend|)
    ensures ResolveStmts(ss, st).Ok? <==> LowerStmts(ss, c).Ok?
    ensures ResolveStmts(ss, st).Ok? ==> StmtsAgree(st, c, ResolveStmts(ss, st).value, LowerStmts(ss, c).value)
    decreases Size(ss), 2
  {
    hide ResolveStmts, LowerStmts, StmtsAgree, Represents, Flatten, NoLost;
    var e := Entry(ss[0].name, Local(st.counter));
    var st1 := Insert(st, e).(counter := st.counter + 1);
    var c1 := c.(scope := c.scope + [e], counter := c.counter + 1);
    InsertStandsFor(st, c, e);
    StmtsLower(ss[1..], st1, c1);
    assert Slots([e]) == [e.slot];
    assert Back(st1.defers, st1.head, 0) == st.head;
    var x, r := ResolveStmts(ss[1..], st1), LowerStmts(ss[1..], c1);
    if ss[0].init.Some? {
      LowerVarInit(ss, c, c1, e);
      ResolveVarInit(ss, st, st1, e);
      ExprLowers(st.tables, ss[0].init.value);
      var v := LowerExpr(c.scope, ss[0].init.value);
      if v.Ok? && x.Ok? {
        Compose(st, c, st1, c1, Some(RAssign(e.slot, v.value)), [CAssign(e.slot, v.value)], x.value, r.value,
                ResolveStmts(ss, st).value, LowerStmts(ss, c).value);
      }
    } else {
      LowerVarUninit(ss, c, c1, e);
      ResolveVarUninit(ss, st, st1, e);
      if x.Ok? {
        Compose(st, c, st1, c1, None, [], x.value, r.value, ResolveStmts(ss, st).value, LowerStmts(ss, c).value);
      }
    }
  }

  lemma {:induction false} LowerDefer(ss: seq<Stmt>, c: Ctx)
    requires ss != [] && (ss[0].DeferBlock? || ss[0].DeferExpr?)
    ensures LowerStmts(ss, c) ==
            (var b :- LowerBlock(DeferBody(ss[0]), c);
             var r :- LowerStmts(ss[1..], c.(pend := c.pend + [b.block], counter := b.counter));
             Ok(Lowered([] + r.code, [] + r.decls, r.pend, r.counter)))
  {
    var b := LowerBlock(DeferBody(ss[0]), c);
    if b.Ok? {
      var r := LowerStmts(ss[1..], c.(pend := c.pend + [b.value.block], counter := b.value.counter));
      if r.Ok? {
        assert [] + r.value.code == r.value.code && [] + r.value.decls == r.value.decls;
      }
    }
  }

  lemma {:induction false} LowerOther(ss: seq<Stmt>, c: Ctx)
    requires ss != [] && !ss[0].Var? && !ss[0].DeferBlock? && !ss[0].DeferExpr? && !ss[0].When?
    ensures LowerStmts(ss, c) ==
            (var l :- LowerStmt(ss[0], c);
             var r :- LowerStmts(ss[1..], c.(counter := l.counter));
             Ok(Lowered(l.code + r.code, [] + r.decls, r.pend, r.counter)))
  {
    var l := LowerStmt(ss[0], c);
    if l.Ok? {
      var r := LowerStmts(ss[1..], c.(counter := l.value.counter));
      if r.Ok? {
        assert [] + r.value.decls == r.value.decls;
      }
    }
  }

  lemma {:induction false} ResolveCons(ss: seq<Stmt>, st: RState)
    requires ss != [] && !ss[0].When? && st.tables != []
    ensures ResolveStmts(ss, st) ==
            (var s :- ResolveStmt(ss[0], st);
             var x :- ResolveStmts(ss[1..], s.st);
             Ok(Step((if s.res.Some? then [s.res.value] else []) + x.res, x.st)))
  {
  }

  /** No code is emitted where the defer statement stands. */
  lemma {:induction false} GenDeferNothing(h: seq<DeferNode>, k: ReturnKind, s: RStmt, bound: nat)
    requires s.RDefer?
    ensures GenStmt(h, k, s, bound) == Some([])
  {
  }

  lemma {:induction false} NothingNew(st: RState, st': RState)
    requires Keeps(st, st') && st'.tables == st.tables
    ensures NewEntries(st, st') == [] && Slots(NewEntries(st, st')) == []
  {
  }

  lemma {:induction false} DeferLowers(ss: seq<Stmt>, st: RState, c: Ctx)
    requires ss != [] && (ss[0].DeferBlock? || ss[0].DeferExpr?)
    requires StandsFor(st, c) && NoLost(ss, |c.pend|)
    ensures ResolveStmts(ss, st).Ok? <==> LowerStmts(ss, c).Ok?
    ensures ResolveStmts(ss, st).Ok? ==> StmtsAgree(st, c, ResolveStmts(ss, st).value, LowerStmts(ss, c).value)
    decreases Size(ss), 2
  {
    hide ResolveStmts, LowerStmts, ResolveStmt, LowerBlock, StmtsAgree, Represents, Flatten, GenStmt;
    DeferBodyLowers(ss[0], st, c);
    LowerDefer(ss, c);
    ResolveCons(ss, st);
    var b := LowerBlock(DeferBody(ss[0]), c);
    if b.Ok? {
      var p := ResolveStmt(ss[0], st).value;
      var c1 := c.(pend := c.pend + [b.value.block], counter := b.value.counter);
      StmtsLower(ss[1..], p.st, c1);
      var x, r := ResolveStmts(ss[1..], p.st), LowerStmts(ss[1..], c1);
      if x.Ok? {
        NothingNew(st, p.st);
        assert c.scope + [] == c.scope;
        GenDeferNothing(p.st.defers, c.ret, p.res.value, |p.st.defers|);
        Compose(st, c, p.st, c1, p.res, [], x.value, r.value, ResolveStmts(ss, st).value, LowerStmts(ss, c).value);
      }
    }
  }

  lemma {:induction false} OtherLowers(ss: seq<Stmt>, st: RState, c: Ctx)
    requires ss != [] && !ss[0].Var? && !ss[0].DeferBlock? && !ss[0].DeferExpr? && !ss[0].When?
    requires StandsFor(st, c) && NoLost(ss, |c.pend|)
    ensures ResolveStmts(ss, st).Ok? <==> LowerStmts(ss, c).Ok?
    ensures ResolveStmts(ss, st).Ok? ==> StmtsAgree(st, c, ResolveStmts(ss, st).value, LowerStmts(ss, c).value)
    decreases Size(ss), 2
  {
    hide ResolveStmts, LowerStmts, ResolveStmt, LowerStmt, StmtsAgree, Represents, Flatten, GenStmt;
    StmtLowers(ss[0], st, c);
    LowerOther(ss, c);
    ResolveCons(ss, st);
    var p, l := ResolveStmt(ss[0], st), LowerStmt(ss[0], c);
    if l.Ok? {
      var st1, c1 := p.value.st, c.(counter := l.value.counter);
      StmtsLower(ss[1..], st1, c1);
      var x, r := ResolveStmts(ss[1..], st1), LowerStmts(ss[1..], c1);
      if x.Ok? {
        NothingNew(st, st1);
        assert c.scope + [] == c.scope;
        Compose(st, c, st1, c1, p.value.res, l.value.code, x.value, r.value, ResolveStmts(ss, st).value, LowerStmts(ss, c).value);
      }
    }
  }

  ghost predicate StmtAgrees(st: RState, c: Ctx, x: Step<Option<RStmt>>, l: LoweredStmt) {
    x.st.tables == st.tables && x.st.head == st.head && Keeps(st, x.st) && StandsFor(x.st, c.(counter := l.counter)) &&
    x.res.Some? && GenStmt(x.st.defers, c.ret, x.res.value, |x.st.defers|) == Some(l.code)
  }

  lemma {:induction false} StmtLowers(s: Stmt, st: RState, c: Ctx)
    requires !s.Var? && !s.DeferBlock? && !s.DeferExpr? && !s.When?
    requires StandsFor(st, c) && NoLostStmt(s, |c.pend|)
    ensures ResolveStmt(s, st).Ok? <==> LowerStmt(s, c).Ok?
    ensures ResolveStmt(s, st).Ok? ==> StmtAgrees(st, c, ResolveStmt(s, st).value, LowerStmt(s, c).value)
    decreases SizeStmt(s), 1
  {
    hide Represents, Back, Flatten, LookupTables, LastIndex, GenDefers, GenBlock;
    match s
    case If(arms) => ArmsLower(arms, st, c);
    case ForRange(_, _, _, _) => RangeLowers(s, st, c);
    case ForExpr(_, _) => LoopLowers(s, st, c);
    case Break => JumpLowers(s, st, c);
    case Continue => JumpLowers(s, st, c);
    case Switch(e, cases) =>
      ExprLowers(st.tables, e);
      CasesLower(cases, st, c);
    case Return(_) => JumpLowers(s, st, c);
    case Assign(name, e) =>
      ExprLowers(st.tables, Name(name));
      ExprLowers(st.tables, e);
    case ExprStmt(e) => ExprLowers(st.tables, e);
  }

  lemma {:induction false} JumpLowers(s: Stmt, st: RState, c: Ctx)
    requires s.Break? || s.Continue? || s.Return?
    requires StandsFor(st, c)
    ensures ResolveStmt(s, st).Ok? <==> LowerStmt(s, c).Ok?
    ensures ResolveStmt(s, st).Ok? ==> StmtAgrees(st, c, ResolveStmt(s, st).value, LowerStmt(s, c).value)
  {
    hide Flatten, LookupTables, LastIndex, GenBlock, GenDefers;
    var n := |st.defers|;
    if s.Return? {
      WalkIsCopies(st.defers, c.ret, st.head, c.pend, 0, n);
      BackBelow(st.defers, c.ret, st.head, c.pend, |c.pend|);
      if s.value.Some? {
        ExprLowers(st.tables, s.value.value);
      } else {
        assert [] + Copies(c.pend, 0) == Copies(c.pend, 0);
      }
    } else if c.loop.Some? {
      WalkIsCopies(st.defers, c.ret, st.head, c.pend, c.loop.value.pend, n);
    }
  }

  lemma {:induction false} LoopLowers(s: Stmt, st: RState, c: Ctx)
    requires s.ForExpr? && StandsFor(st, c) && NoLostStmt(s, |c.pend|)
    ensures ResolveStmt(s, st).Ok? <==> LowerStmt(s, c).Ok?
    ensures ResolveStmt(s, st).Ok? ==> StmtAgrees(st, c, ResolveStmt(s, st).value, LowerStmt(s, c).value)
    decreases SizeStmt(s), 0
  {
    ExprLowers(st.tables, s.cond);
    var st1 := st.(inLoop := true, loopHead := st.head);
    var c1 := LoopCtx(c);
    BlockLowers(s.body, [], st1, c1, None);
    var x, b := ResolveScope(s.body, [], st1), LowerBlock(s.body, c1);
    if x.Ok? {
      StandsForGrow(st, c, x.value.st.defers, b.value.counter);
    }
  }

  lemma {:induction false} RangeLowers(s: Stmt, st: RState, c: Ctx)
    requires s.ForRange? && StandsFor(st, c) && NoLostStmt(s, |c.pend|)
    ensures ResolveStmt(s, st).Ok? <==> LowerStmt(s, c).Ok?
    ensures ResolveStmt(s, st).Ok? ==> StmtAgrees(st, c, ResolveStmt(s, st).value, LowerStmt(s, c).value)
    decreases SizeStmt(s), 0
  {
    hide StandsFor, BlockAgrees, ResolveStmt, ResolveScope, LowerStmt, LowerBlock, LowerExpr, ResolveExpr, NoLost,
      StmtAgrees, Size, SizeStmt;
    SameScope(st, c);
    ExprLowers(st.tables, s.begin);
    ExprLowers(st.tables, s.end);
    RangeResolved(s, st);
    RangeLowered(s, c);
    RangeSafe(s, |c.pend|);
    InRange(st, c);
    var slot := Local(st.counter);
    var st1 := st.(counter := st.counter + 1, inLoop := true, loopHead := st.head);
    var c1 := LoopCtx(c).(counter := c.counter + 1);
    var rc := RangeCtx(c, s.name);
    BlockLowersIn(s.body, [Entry(s.name, slot)], st1, c1, rc, Some(slot));
    var x, b := ResolveScope(s.body, [Entry(s.name, slot)], st1), LowerBlock(s.body, rc);
    if x.Ok? && ResolveExpr(st.tables, s.begin).Ok? && ResolveExpr(st.tables, s.end).Ok? {
      RangeAgrees(st, c, slot, ResolveExpr(st.tables, s.begin).value, ResolveExpr(st.tables, s.end).value, st1, c1, x.value, b.value);
    }
  }

  lemma {:induction false} SameScope(st: RState, c: Ctx)
    requires StandsFor(st, c)
    ensures st.tables != [] && Flatten(st.tables) == c.scope && st.counter == c.counter
  {
  }

  lemma {:induction false} RangeSafe(s: Stmt, p: nat)
    requires s.ForRange? && NoLostStmt(s, p)
    ensures NoLost(s.body, p) && Size(s.body) < SizeStmt(s)
  {
  }

  lemma {:induction false} RangeResolved(s: Stmt, st: RState)
    requires s.ForRange? && st.tables != []
    ensures var slot := Local(st.counter);
            var b, e := ResolveExpr(st.tables, s.begin), ResolveExpr(st.tables, s.end);
            var x := ResolveScope(s.body, [Entry(s.name, slot)], st.(counter := st.counter + 1, inLoop := true, loopHead := st.head));
            if b.Ok? && e.Ok? && x.Ok? then
              ResolveStmt(s, st) == Ok(Step(Some(RForRange(slot, b.value, e.value, x.value.res)),
                                            x.value.st.(inLoop := st.inLoop, loopHead := st.loopHead)))
            else ResolveStmt(s, st).Fatal?
  {
    hide ResolveExpr, ResolveScope;
  }

  lemma {:induction false} RangeLowered(s: Stmt, c: Ctx)
    requires s.ForRange?
    ensures var b, e := LowerExpr(c.scope, s.begin), LowerExpr(c.scope, s.end);
            var x := LowerBlock(s.body, RangeCtx(c, s.name));
            if b.Ok? && e.Ok? && x.Ok? then
              LowerStmt(s, c) == Ok(LoweredStmt([CFor(Local(c.counter), b.value, e.value, x.value.block)], x.value.counter))
            else LowerStmt(s, c).Fatal?
  {
    hide LowerExpr, LowerBlock;
  }

  lemma {:induction false} InRange(st: RState, c: Ctx)
    requires StandsFor(st, c)
    ensures StandsFor(st.(counter := st.counter + 1, inLoop := true, loopHead := st.head),
            LoopCtx(c).(counter := c.counter + 1))
  {
  }

  /** The fields of the resolver are back where they were after a loop. */
  lemma {:induction false} RangeAgrees(st: RState, c: Ctx, slot: Slot, begin: CExpr, end: CExpr, st1: RState, c1: Ctx,
                                       x: Step<RBlock>, b: LoweredBlock)
    requires StandsFor(st, c) && st1 == st.(counter := st.counter + 1, inLoop := true, loopHead := st.head)
    requires c1.ret == c.ret && BlockAgrees(st1, c1, x, Some(slot), b)
    ensures StmtAgrees(st, c, Step(Some(RForRange(slot, begin, end, x.res)),
            x.st.(inLoop := st.inLoop, loopHead := st.loopHead)),
                       LoweredStmt([CFor(slot, begin, end, b.block)], b.counter))
  {
    StandsForGrow(st, c, x.st.defers, b.counter);
    var st2 := x.st.(inLoop := st.inLoop, loopHead := st.loopHead);
    assert st2 == st.(defers := x.st.defers, counter := b.counter);
    hide Represents, Back, Flatten, GenBlock;
  }

  lemma {:induction false} BlockLowers(body: seq<Stmt>, es: seq<Entry>, st: RState, c: Ctx, v: Option<Slot>)
    requires es == [] && v == None
    requires StandsFor(st, c) && NoLost(body, |c.pend|)
    ensures ResolveScope(body, es, st).Ok? <==> LowerBlock(body, c).Ok?
    ensures ResolveScope(body, es, st).Ok? ==>
              BlockAgrees(st, c, ResolveScope(body, es, st).value, v, LowerBlock(body, c).value)
    decreases Size(body), 5
  {
    assert c.scope + [] == c.scope;
    BlockLowersIn(body, es, st, c, c, v);
  }

  /** A block with its own symbol table, which starts with the variable of a range loop or empty. */
  lemma {:induction false} BlockLowersIn(body: seq<Stmt>, es: seq<Entry>, st: RState, c: Ctx, inner: Ctx,
                                         v: Option<Slot>)
    requires (es == [] && v == None) || (|es| == 1 && v == Some(es[0].slot) && v.value.Local? && v.value.n < c.counter)
    requires StandsFor(st, c) && NoLost(body, |c.pend|)
    requires inner.scope == c.scope + es && inner.pend == c.pend && inner.counter == c.counter && inner.ret == c.ret
    requires inner.loop.Some? == c.loop.Some? && (c.loop.Some? ==> inner.loop.value.pend == c.loop.value.pend)
    ensures ResolveScope(body, es, st).Ok? <==> LowerBlock(body, inner).Ok?
    ensures ResolveScope(body, es, st).Ok? ==>
              BlockAgrees(st, c, ResolveScope(body, es, st).value, v, LowerBlock(body, inner).value)
    decreases Size(body), 4
  {
    var st1 := Enter(st, es);
    EnterStandsFor(st, c, es);
    StmtsLower(body, st1, inner);
    var x, r := ResolveStmts(body, st1), LowerStmts(body, inner);
    hide StandsFor, StmtsAgree, BlockAgrees, LowerStmts, ResolveStmts, NoLost;
    if x.Ok? {
      CloseBlock(es, st, c, inner, v, x.value, r.value);
      assert ResolveScope(body, es, st) == Ok(Closed(st, x.value));
    }
  }

  function Closed(st: RState, x: Step<seq<RStmt>>): Step<RBlock>
    requires x.st.tables != []
  {
    Step(RBlock(x.st.tables[|x.st.tables| - 1], x.res, x.st.head, st.head), Leave(x.st.(head := st.head)))
  }

  lemma {:induction false} CloseBlock(es: seq<Entry>, st: RState, c: Ctx, inner: Ctx, v: Option<Slot>,
                                      x: Step<seq<RStmt>>, r: Lowered)
    requires (es == [] && v == None) || (|es| == 1 && v == Some(es[0].slot) && v.value.Local? && v.value.n < c.counter)
    requires StandsFor(st, c) && inner.pend == c.pend && inner.ret == c.ret
    requires StmtsAgree(Enter(st, es), inner, x, r) && DeclsIn(r.decls, c.counter, r.counter)
    ensures BlockAgrees(st, c, Closed(st, x), v,
            LoweredBlock(CBlock(r.decls, r.code + Copies(r.pend, |c.pend|)), r.counter))
  {
    hide Represents, GenStmts, GenDefers, Back, Copies, DeclsIn, StmtsAgree, StandsFor, Flatten, Declared, Slots,
      NewEntries;
    var st1, h := Enter(st, es), x.st.defers;
    AgreedFacts(st1, inner, x, r);
    SameScope(st, c);
    CloseTables(es, st, x);
    StandsForGrow(st, c, h, r.counter);
    BlockDeclares(es, NewEntries(st1, x.st), v, r.decls, c.counter, r.counter);
    WalkIsCopies(h, c.ret, x.st.head, r.pend, |c.pend|, |h|);
    ClosedCode(h, c.ret, Closed(st, x).res, v, r.decls, r.code, Copies(r.pend, |c.pend|));
  }

  lemma {:induction false} AgreedFacts(st: RState, c: Ctx, x: Step<seq<RStmt>>, r: Lowered)
    requires StmtsAgree(st, c, x, r)
    ensures Keeps(st, x.st) && |c.pend| <= |r.pend| && Represents(x.st.defers, c.ret, x.st.head, r.pend)
    ensures Back(x.st.defers, x.st.head, |r.pend| - |c.pend|) == st.head && Slots(NewEntries(st, x.st)) == r.decls
    ensures x.st.head.Some? ==> x.st.head.value < |x.st.defers|
    ensures x.st.counter == r.counter && GenStmts(x.st.defers, c.ret, x.res, |x.st.defers|) == Some(r.code)
  {
    hide GenStmts, Back, Flatten, NewEntries, Slots;
  }

  lemma {:induction false} ClosedCode(h: seq<DeferNode>, k: ReturnKind, b: RBlock, v: Option<Slot>, decls: seq<Slot>,
                                      code: seq<CStmt>, copies: seq<CStmt>)
    requires GenStmts(h, k, b.stmts, |h|) == Some(code) && GenDefers(h, k, b.begin, b.end, |h|) == Some(copies)
    requires Declared(b.locals, v) == decls
    ensures GenBlock(h, k, b, v, |h|) == Some(CBlock(decls, code + copies))
  {
    hide GenStmts, GenDefers, Declared;
  }

  /** The tables of a block that is closed: those before it, and its own. */
  lemma {:induction false} CloseTables(es: seq<Entry>, st: RState, x: Step<seq<RStmt>>)
    requires st.tables != [] && Keeps(Enter(st, es), x.st)
    ensures x.st.tables[|x.st.tables| - 1] == es + NewEntries(Enter(st, es), x.st)
    ensures Closed(st, x).st == st.(defers := x.st.defers, counter := x.st.counter) && Keeps(st, Closed(st, x).st)
  {
    var st1, n := Enter(st, es), |st.tables|;
    assert st1.tables[n] == es && st1.tables[..n] == st.tables;
    assert x.st.tables[..n] == st.tables;
    var t := x.st.tables[n];
    assert es <= t && t == es + t[|es|..];
  }

  lemma {:induction false} BlockDeclares(es: seq<Entry>, more: seq<Entry>, v: Option<Slot>, decls: seq<Slot>, lo: nat,
                                         hi: nat)
    requires (es == [] && v == None) || (|es| == 1 && v == Some(es[0].slot) && v.value.Local? && v.value.n < lo)
    requires Slots(more) == decls && DeclsIn(decls, lo, hi)
    ensures Declared(es + more, v) == decls
  {
    DeclaredAppend(es, more, v);
    forall i | 0 <= i < |more| ensures more[i].slot.Local? && v != Some(more[i].slot) {
      assert decls[i] in decls;
    }
    DeclaredAll(more, v);
    if es != [] {
      assert es[1..] == [];
    }
  }

  lemma {:induction false} ArmsLower(a: Arms, st: RState, c: Ctx)
    requires StandsFor(st, c) && NoLostArms(a, |c.pend|)
    ensures ResolveArms(a, st).Ok? <==> LowerArms(a, c).Ok?
    ensures ResolveArms(a, st).Ok? ==>
              var x, l := ResolveArms(a, st).value, LowerArms(a, c).value;
              x.st.tables == st.tables && x.st.head == st.head && Keeps(st, x.st) && StandsFor(x.st, c.(counter := l.counter)) &&
              GenArms(x.st.defers, c.ret, x.res, |x.st.defers|) == Some(l.arms)
    decreases SizeArms(a), 0
  {
    hide Flatten, LookupTables, LastIndex, GenBlock, Represents, Back, LowerBlock, ResolveScope;
    match a
    case NoArm => assert c.(counter := c.counter) == c;
    case Else(body) => BlockLowers(body, [], st, c, None);
    case Elif(cond, body, rest) =>
      ExprLowers(st.tables, cond);
      BlockLowers(body, [], st, c, None);
      var x, b := ResolveScope(body, [], st), LowerBlock(body, c);
      if x.Ok? {
        var c1 := c.(counter := b.value.counter);
        ArmsLower(rest, x.value.st, c1);
        var y := ResolveArms(rest, x.value.st);
        if y.Ok? {
          GrowBlock(x.value.st.defers, y.value.st.defers, c.ret, x.value.res, None, |x.value.st.defers|, |y.value.st.defers|);
        }
      }
  }

  lemma {:induction false} SpreadGen(h: seq<DeferNode>, k: ReturnKind, symbols: seq<int>, b: RBlock, rest: RCases,
                                     bound: nat)
    requires GenBlock(h, k, b, None, bound).Some? && GenCases(h, k, rest, bound).Some?
    ensures GenCases(h, k, RSpread(symbols, b, rest), bound) ==
            Some(Spread(symbols, GenBlock(h, k, b, None, bound).value, GenCases(h, k, rest, bound).value))
  {
    if symbols != [] {
      SpreadGen(h, k, symbols[1..], b, rest, bound);
    }
  }

  lemma {:induction false} CasesLower(cs: Cases, st: RState, c: Ctx)
    requires StandsFor(st, c) && NoLostCases(cs, |c.pend|)
    ensures ResolveCases(cs, st).Ok? <==> LowerCases(cs, c).Ok?
    ensures ResolveCases(cs, st).Ok? ==>
              var x, l := ResolveCases(cs, st).value, LowerCases(cs, c).value;
              x.st.tables == st.tables && x.st.head == st.head && Keeps(st, x.st) && StandsFor(x.st, c.(counter := l.counter)) &&
              GenCases(x.st.defers, c.ret, x.res, |x.st.defers|) == Some(l.cases)
    decreases SizeCases(cs), 0
  {
    hide Flatten, LookupTables, LastIndex, GenBlock, Represents, Back, LowerBlock, ResolveScope;
    match cs
    case NoCase => assert c.(counter := c.counter) == c;
    case ElseCase(body) => BlockLowers(body, [], st, c, None);
    case Case(symbols, body, rest) =>
      BlockLowers(body, [], st, c, None);
      var x, b := ResolveScope(body, [], st), LowerBlock(body, c);
      if x.Ok? {
        var c1 := c.(counter := b.value.counter);
        CasesLower(rest, x.value.st, c1);
        var y := ResolveCases(rest, x.value.st);
        if y.Ok? {
          var h := y.value.st.defers;
          GrowBlock(x.value.st.defers, h, c.ret, x.value.res, None, |x.value.st.defers|, |h|);
          SpreadGen(h, c.ret, symbols, x.value.res, y.value.res, |h|);
        }
      }
  }

  lemma {:induction false} DeferBodyLowers(s: Stmt, st: RState, c: Ctx)
    requires s.DeferBlock? || s.DeferExpr?
    requires StandsFor(st, c) && (s.DeferBlock? ==> NoLost(s.body, |c.pend|))
    ensures ResolveStmt(s, st).Ok? <==> LowerBlock(DeferBody(s), c).Ok?
    ensures ResolveStmt(s, st).Ok? ==>
              var p := ResolveStmt(s, st).value;
              var b := LowerBlock(DeferBody(s), c).value;
              p.res.Some? && p.res.value.RDefer? && Keeps(st, p.st) && p.st.tables == st.tables &&
              Back(p.st.defers, p.st.head, 1) == st.head &&
              StandsFor(p.st, c.(pend := c.pend + [b.block], counter := b.counter))
    decreases SizeStmt(s), 0
  {
    if s.DeferBlock? {
      BlockLowers(s.body, [], st, c, None);
      var x := ResolveScope(s.body, [], st);
      if x.Ok? {
        var b := LowerBlock(s.body, c).value;
        PushAfter(st, c, x.value, b);
        assert ResolveStmt(s, st) == Ok(PushDefer(x.value.st, x.value.res));
      }
    } else {
      DeferExprLowers(s.e, st, c);
    }
  }

  lemma {:induction false} PushAfter(st: RState, c: Ctx, x: Step<RBlock>, b: LoweredBlock)
    requires StandsFor(st, c) && BlockAgrees(st, c, x, None, b)
    ensures var p := PushDefer(x.st, x.res);
            Keeps(st, p.st) && p.st.tables == st.tables && Back(p.st.defers, p.st.head, 1) == st.head &&
            StandsFor(p.st, c.(pend := c.pend + [b.block], counter := b.counter))
  {
    PushStandsFor(x.st, c.(counter := b.counter), x.res, b.block);
  }

  lemma {:induction false} DeferExprLowers(e: Expr, st: RState, c: Ctx)
    requires StandsFor(st, c)
    ensures ResolveStmt(DeferExpr(e), st).Ok? <==> LowerBlock([ExprStmt(e)], c).Ok?
    ensures ResolveStmt(DeferExpr(e), st).Ok? ==>
              var p := ResolveStmt(DeferExpr(e), st).value;
              var b := LowerBlock([ExprStmt(e)], c).value;
              p.res.Some? && p.res.value.RDefer? && Keeps(st, p.st) && p.st.tables == st.tables &&
              Back(p.st.defers, p.st.head, 1) == st.head &&
              StandsFor(p.st, c.(pend := c.pend + [b.block], counter := b.counter))
  {
    ExprLowers(st.tables, e);
    ExprBlock(e, c);
    if LowerExpr(c.scope, e).Ok? {
      var v := LowerExpr(c.scope, e).value;
      GenExprBlock(st.defers, c.ret, v, st.head);
      PushStandsFor(st, c, RBlock([], [RExprStmt(v)], st.head, st.head), CBlock([], [CExprStmt(v)]));
    }
  }

  lemma {:induction false} GenExprBlock(h: seq<DeferNode>, k: ReturnKind, v: CExpr, link: Link)
    ensures GenBlock(h, k, RBlock([], [RExprStmt(v)], link, link), None, |h|) == Some(CBlock([], [CExprStmt(v)]))
  {
    assert [RExprStmt(v)][1..] == [];
    assert GenStmts(h, k, [RExprStmt(v)], |h|) == Some([CExprStmt(v)] + []);
    assert [CExprStmt(v)] + [] == [CExprStmt(v)];
  }

  /** The implicit block around a deferred expression. */
  lemma {:induction false} ExprBlock(e: Expr, c: Ctx)
    ensures LowerBlock([ExprStmt(e)], c).Ok? <==> LowerExpr(c.scope, e).Ok?
    ensures LowerExpr(c.scope, e).Ok? ==>
              LowerBlock([ExprStmt(e)], c) == Ok(LoweredBlock(CBlock([], [CExprStmt(LowerExpr(c.scope, e).value)]), c.counter))
  {
    var ss := [ExprStmt(e)];
    assert ss[1..] == [];
    hide LowerExpr;
    ExprStmts(e, c);
    if LowerExpr(c.scope, e).Ok? {
      var code := [CExprStmt(LowerExpr(c.scope, e).value)];
      assert Copies(c.pend, |c.pend|) == [];
      assert code + [] == code;
    }
  }

  lemma {:induction false} ExprStmts(e: Expr, c: Ctx)
    ensures var r := LowerExpr(c.scope, e);
            LowerStmts([ExprStmt(e)], c) == if r.Ok? then Ok(Lowered([CExprStmt(r.value)], [], c.pend, c.counter)) else Fatal(r.why)
  {
    hide LowerExpr;
    var ss, r := [ExprStmt(e)], LowerExpr(c.scope, e);
    assert ss[1..] == [];
    assert c.(counter := c.counter) == c;
    assert LowerStmt(ExprStmt(e), c) == if r.Ok? then Ok(LoweredStmt([CExprStmt(r.value)], c.counter)) else Fatal(r.why);
    if r.Ok? {
      assert LowerStmts([], c) == Ok(Lowered([], [], c.pend, c.counter));
      assert [CExprStmt(r.value)] + [] == [CExprStmt(r.value)];
    }
  }

  // ---------- The theorem ----------

  /** If no `when` loses defers, the linked lists made by the resolver and walked by the code
      generator yield exactly the lowering, every walk ends at its end node, and the two reject the
      same functions. */
  lemma {:induction false} CompiledIsLowered(f: Function)
    requires NoLost(f.body, 0)
    ensures CompleteFunction(f).Ok? <==> LowerFunction(f).Ok?
    ensures CompleteFunction(f).Ok? ==>
              var b := CompleteFunction(f).value;
              GenFunction(b.st.defers, f, b.res) == Some(LowerFunction(f).value)
  {
    hide LowerStmts, ResolveStmts, StmtsAgree, EndsInReturn;
    var st, c := StartOf(f), FunctionCtx(f);
    StartStandsFor(f);
    StmtsLower(f.body, st, c);
    var x, r := ResolveStmts(f.body, st), LowerStmts(f.body, c);
    if x.Ok? {
      LastResolved(f.body, st, false);
      BodyCloses(f, x.value, r.value);
    }
  }

  lemma {:induction false} StartStandsFor(f: Function)
    ensures StandsFor(StartOf(f), FunctionCtx(f))
  {
    var st := StartOf(f);
    assert st.tables[..0] == [] && [] + ParamScope(f.params) == ParamScope(f.params);
    assert Flatten(st.tables) == ParamScope(f.params);
  }

  /** The outermost block: parameters are in its table but are not declared again. */
  lemma {:induction false} BodyCloses(f: Function, x: Step<seq<RStmt>>, r: Lowered)
    requires StmtsAgree(StartOf(f), FunctionCtx(f), x, r) && DeclsIn(r.decls, 0, r.counter)
    ensures x.st.tables != [] &&
            GenBlock(x.st.defers, f.ret, RBlock(x.st.tables[|x.st.tables| - 1], x.res, x.st.head, None), None, |x.st.defers|) ==
            Some(CBlock(r.decls, r.code + Copies(r.pend, 0)))
  {
    var st := StartOf(f);
    var h := x.st.defers;
    WalkIsCopies(h, f.ret, x.st.head, r.pend, 0, |h|);
    var more := NewEntries(st, x.st);
    assert x.st.tables[0] == ParamScope(f.params) + more;
    DeclaredAppend(ParamScope(f.params), more, None);
    ParamsUndeclared(ParamScope(f.params));
    BlockDeclares([], more, None, r.decls, 0, r.counter);
    assert [] + more == more;
    assert Declared(ParamScope(f.params) + more, None) == r.decls;
  }

  lemma {:induction false} ParamsUndeclared(es: seq<Entry>)
    requires forall e :: e in es ==> e.slot.Argument?
    ensures Declared(es, None) == []
  {
    if es != [] {
      ParamsUndeclared(es[1..]);
    }
  }

  /** The check on the last resolved statement is a check on the source. */
  lemma {:induction false} LastResolved(ss: seq<Stmt>, st: RState, soFar: bool)
    requires st.tables != [] && ResolveStmts(ss, st).Ok?
    ensures var rs := ResolveStmts(ss, st).value.res;
            EndsInReturn(ss, soFar) == if rs == [] then soFar else rs[|rs| - 1].RReturn?
    decreases Size(ss)
  {
    if ss != [] {
      if ss[0].When? {
        WhenBlockLast(ss, st, soFar);
      } else {
        ResolveCons(ss, st);
        ResolvedKind(ss[0], st);
        hide ResolveStmts, ResolveStmt;
        var s := ResolveStmt(ss[0], st).value;
        LastResolved(ss[1..], s.st, if s.res.Some? then s.res.value.RReturn? else soFar);
      }
    }
  }

  /** Only a declaration without initialiser resolves to nothing, and only a return to a return. */
  lemma {:induction false} ResolvedKind(s: Stmt, st: RState)
    requires st.tables != [] && ResolveStmt(s, st).Ok?
    ensures var x := ResolveStmt(s, st).value;
            (x.res.None? <==> s.Var? && s.init.None?) &&
            (x.res.Some? ==> (x.res.value.RReturn? <==> s.Return?)) &&
            (x.res.Some? ==> (x.res.value.RDefer? <==> s.DeferBlock? || s.DeferExpr?))
  {
  }

  lemma {:induction false} WhenBlockLast(ss: seq<Stmt>, st: RState, soFar: bool)
    requires st.tables != [] && ss != [] && ss[0].When? && ResolveStmts(ss, st).Ok?
    ensures var rs := ResolveStmts(ss, st).value.res;
            EndsInReturn(ss, soFar) == if rs == [] then soFar else rs[|rs| - 1].RReturn?
    decreases Size(ss), 0
  {
    var w := ss[0].whens;
    SplicedSize(ss);
    if Selected(w).Some? {
      WhenIsSplice(ss, st);
      LastResolved(SelectedStmts(w) + ss[1..], st, soFar);
    } else {
      WhenIsBlock(w, st);
      assert SelectedStmts(w) + ss[1..] == ss[1..];
      LastResolved(ss[1..], st.(head := None), soFar);
    }
  }

  /** Resolving and generating code for a function body keeps its meaning. */
  lemma {:induction false} CompilerPreservesMeaning(m: Machine, f: Function, args: seq<int>, fuel: nat)
    requires CompleteFunction(f).Ok? && NoLost(f.body, 0) && SafeReturns(f.body, f.ret, NOTHING) && |args| == |f.params|
    ensures var b := CompleteFunction(f).value;
            var code := GenFunction(b.st.defers, f, b.res);
            code.Some? && code.value.params == |args| && CRun(m, code.value, args, fuel) == Run(m, f, args, fuel)
  {
    CompiledIsLowered(f);
    LoweringPreservesMeaning(m, f, args, fuel);
  }

  // ---------- Exactly when defers are lost ----------

  /** The nodes from `link` to NULL, oldest first. */
  function Chain(h: seq<DeferNode>, link: Link, bound: nat): seq<nat>
    decreases bound
  {
    if link.None? || link.value >= bound || link.value >= |h| then []
    else Chain(h, h[link.value].prev, link.value) + [link.value]
  }

  function ChainOf(st: RState): seq<nat> {
    Chain(st.defers, st.head, |st.defers|)
  }

  /** The defer statements among resolved statements, in order. */
  function Nodes(rs: seq<RStmt>): seq<nat> {
    if rs == [] then [] else (if rs[0].RDefer? then [rs[0].node] else []) + Nodes(rs[1..])
  }

  /** As `NoLost`, but only for the `when` statements of the block itself. */
  predicate NoLostHere(ss: seq<Stmt>, p: nat)
    decreases Size(ss)
  {
    if ss == [] then true
    else
      match ss[0]
      case DeferBlock(_) => NoLostHere(ss[1..], p + 1)
      case DeferExpr(_) => NoLostHere(ss[1..], p + 1)
      case When(w) =>
        SplicedSize(ss);
        (Selected(w).None? ==> p == 0) && NoLostHere(SelectedStmts(w) + ss[1..], p)
      case _ => NoLostHere(ss[1..], p)
  }

  lemma {:induction false} ChainGrow(h: seq<DeferNode>, g: seq<DeferNode>, link: Link, lo: nat, hi: nat)
    requires h <= g && lo <= hi && (link.Some? ==> link.value < lo && link.value < |h|)
    requires forall i :: 0 <= i < |h| && h[i].prev.Some? ==> h[i].prev.value < i
    ensures Chain(g, link, hi) == Chain(h, link, lo)
    decreases lo
  {
    if link.Some? {
      assert g[link.value] == h[link.value];
      ChainGrow(h, g, h[link.value].prev, link.value, link.value);
    }
  }

  lemma {:induction false} PushChain(st: RState, body: RBlock)
    requires WellLinked(st)
    ensures ChainOf(PushDefer(st, body).st) == ChainOf(st) + [|st.defers|]
  {
    var h := PushDefer(st, body).st.defers;
    ChainGrow(st.defers, h, st.head, |st.defers|, |st.defers|);
  }

  lemma {:induction false} NodesAppend(a: seq<RStmt>, b: seq<RStmt>)
    ensures Nodes(a + b) == Nodes(a) + Nodes(b)
  {
    if a == [] {
      assert a + b == b;
    } else {
      assert (a + b)[0] == a[0] && (a + b)[1..] == a[1..] + b;
      NodesAppend(a[1..], b);
      var first := if a[0].RDefer? then [a[0].node] else [];
      assert first + (Nodes(a[1..]) + Nodes(b)) == (first + Nodes(a[1..])) + Nodes(b);
    }
  }

  /** After the statements of a block the chain holds the defers pending before and the block's own;
      once a `when` has lost them, only some of the block's own, and fewer than were pending. */
  ghost predicate ChainPost(ss: seq<Stmt>, before: seq<nat>, oldest: nat, nodes: seq<nat>, after: seq<nat>) {
    (forall i :: 0 <= i < |nodes| ==> oldest <= nodes[i]) &&
    if NoLostHere(ss, |before|) then after == before + nodes
    else |after| <= |nodes| && |after| < |before| + |nodes| && after == nodes[|nodes| - |after|..]
  }

  lemma {:induction false} ChainAfter(ss: seq<Stmt>, st: RState, x: Step<seq<RStmt>>)
    requires st.tables != [] && WellLinked(st) && ResolveStmts(ss, st) == Ok(x)
    ensures ChainPost(ss, ChainOf(st), |st.defers|, Nodes(x.res), ChainOf(x.st))
    decreases Size(ss)
  {
    if ss != [] {
      hide ResolveStmts, ResolveStmt, ChainOf, Nodes, NoLostHere, ChainPost, Size, WellLinked;
      if ss[0].When? {
        ChainAfterWhen(ss, st, x);
      } else {
        ResolveCons(ss, st);
        TailSmaller(ss);
        LinkedAfter(ss[0], st);
        var s := ResolveStmt(ss[0], st).value;
        FirstPushes(ss[0], st, s);
        var first := if s.res.Some? then [s.res.value] else [];
        var rest := ResolveStmts(ss[1..], s.st).value;
        ChainAfter(ss[1..], s.st, rest);
        NodesAppend(first, rest.res);
        PostCons(ss, ChainOf(st), |st.defers|, Nodes(first), |s.st.defers|, Nodes(rest.res), ChainOf(x.st));
      }
    } else {
      assert Nodes([]) == [] && ChainOf(st) + [] == ChainOf(st);
    }
  }

  lemma {:induction false} TailSmaller(ss: seq<Stmt>)
    requires ss != []
    ensures Size(ss[1..]) < Size(ss)
  {
  }

  lemma {:induction false} LinkedAfter(s: Stmt, st: RState)
    requires !s.When? && st.tables != [] && WellLinked(st) && ResolveStmt(s, st).Ok?
    ensures var x := ResolveStmt(s, st).value; x.st.tables != [] && WellLinked(x.st) && |st.defers| <= |x.st.defers|
  {
    hide ResolveStmt;
  }

  lemma {:induction false} PostCons(ss: seq<Stmt>, before: seq<nat>, oldest: nat, first: seq<nat>, later: nat,
                                    nodes: seq<nat>, after: seq<nat>)
    requires ss != [] && !ss[0].When? && |first| == (if ss[0].DeferBlock? || ss[0].DeferExpr? then 1 else 0)
    requires oldest <= later && (forall i :: 0 <= i < |first| ==> oldest <= first[i])
    requires ChainPost(ss[1..], before + first, later, nodes, after)
    ensures ChainPost(ss, before, oldest, first + nodes, after)
  {
    assert NoLostHere(ss, |before|) == NoLostHere(ss[1..], |before| + |first|);
    var all := first + nodes;
    assert before + all == (before + first) + nodes;
    if |after| <= |nodes| {
      assert all[|all| - |after|..] == nodes[|nodes| - |after|..];
    }
  }

  /** What the first statement of a block does to the chain. */
  lemma {:induction false} FirstPushes(s: Stmt, st: RState, x: Step<Option<RStmt>>)
    requires !s.When? && st.tables != [] && WellLinked(st) && ResolveStmt(s, st) == Ok(x)
    ensures var nodes := Nodes(if x.res.Some? then [x.res.value] else []);
            ChainOf(x.st) == ChainOf(st) + nodes &&
            |nodes| == (if s.DeferBlock? || s.DeferExpr? then 1 else 0) &&
            forall i :: 0 <= i < |nodes| ==> |st.defers| <= nodes[i]
  {
    ResolvedKind(s, st);
    if s.DeferBlock? || s.DeferExpr? {
      DeferPushes(s, st, x);
    } else {
      ChainGrow(st.defers, x.st.defers, st.head, |st.defers|, |x.st.defers|);
      if x.res.Some? {
        assert [x.res.value][1..] == [];
      }
    }
  }

  lemma {:induction false} DeferPushes(s: Stmt, st: RState, x: Step<Option<RStmt>>)
    requires (s.DeferBlock? || s.DeferExpr?) && st.tables != [] && WellLinked(st) && ResolveStmt(s, st) == Ok(x)
    ensures x.res.Some? && x.res.value.RDefer? && |st.defers| <= x.res.value.node
    ensures ChainOf(x.st) == ChainOf(st) + [x.res.value.node]
    ensures Nodes([x.res.value]) == [x.res.value.node]
  {
    if s.DeferBlock? {
      var b := ResolveScope(s.body, [], st).value;
      ChainGrow(st.defers, b.st.defers, st.head, |st.defers|, |b.st.defers|);
      PushChain(b.st, b.res);
    } else {
      var v := ResolveExpr(st.tables, s.e).value;
      PushChain(st, RBlock([], [RExprStmt(v)], st.head, st.head));
    }
    assert [x.res.value][1..] == [];
  }

  lemma {:induction false} ChainAfterWhen(ss: seq<Stmt>, st: RState, x: Step<seq<RStmt>>)
    requires st.tables != [] && WellLinked(st) && ResolveStmts(ss, st) == Ok(x) && ss != [] && ss[0].When?
    ensures ChainPost(ss, ChainOf(st), |st.defers|, Nodes(x.res), ChainOf(x.st))
    decreases Size(ss), 0
  {
    var w := ss[0].whens;
    SplicedSize(ss);
    NoLostWhen(ss, |ChainOf(st)|);
    if Selected(w).Some? {
      WhenIsSplice(ss, st);
      hide ResolveStmts, NoLostHere, ChainOf, Nodes;
      ChainAfter(SelectedStmts(w) + ss[1..], st, x);
    } else {
      var st1 := st.(head := None);
      WhenForgets(ss, st);
      NoLostWhen(ss, 0);
      assert ChainOf(st1) == [];
      hide ResolveStmts, NoLostHere, ChainOf, Nodes;
      ChainAfter(ss[1..], st1, x);
      if |ChainOf(st)| > 0 && NoLostHere(ss[1..], 0) {
        assert [] + Nodes(x.res) == Nodes(x.res);
      }
    }
  }

  lemma {:induction false} NoLostWhen(ss: seq<Stmt>, p: nat)
    requires ss != [] && ss[0].When?
    ensures var w := ss[0].whens;
            NoLostHere(ss, p) ==
              if Selected(w).Some? then NoLostHere(SelectedStmts(w) + ss[1..], p) else p == 0 && NoLostHere(ss[1..], p)
  {
    SplicedSize(ss);
    if Selected(ss[0].whens).None? {
      assert [] + ss[1..] == ss[1..];
    }
  }

  /** A `when` without a selected arm leaves no defer pending. */
  lemma {:induction false} WhenForgets(ss: seq<Stmt>, st: RState)
    requires st.tables != [] && ss != [] && ss[0].When? && Selected(ss[0].whens).None?
    ensures ResolveStmts(ss, st) == ResolveStmts(ss[1..], st.(head := None))
  {
    WhenIsBlock(ss[0].whens, st);
    hide ResolveStmt;
    var rest := ResolveStmts(ss[1..], st.(head := None));
    if rest.Ok? {
      assert [] + rest.value.res == rest.value.res;
    }
  }

  /** At the end of a block the walk from its first to its last link emits exactly the block's own
      defers, latest first, if and only if no `when` of the block lost pending ones. */
  lemma {:induction false} BlockDefersExact(body: seq<Stmt>, st: RState, b: Step<RBlock>)
    requires st.tables != [] && WellLinked(st) && ResolveBlock(body, st) == Ok(b)
    ensures Chain(b.st.defers, b.res.begin, |b.st.defers|) == ChainOf(b.st) + Nodes(b.res.stmts)
            <==> NoLostHere(body, |ChainOf(st)|)
  {
    var x := ResolveStmts(body, st).value;
    ChainAfter(body, st, x);
    ChainGrow(st.defers, x.st.defers, st.head, |st.defers|, |x.st.defers|);
  }

  /** When a block inside another deferring block loses its defers, the walk at its end steps past NULL. */
  lemma {:induction false} LostWalkHitsNull(k: ReturnKind, body: seq<Stmt>, st: RState, b: Step<RBlock>)
    requires st.tables != [] && WellLinked(st) && ResolveBlock(body, st) == Ok(b)
    requires st.head.Some? && !NoLostHere(body, |ChainOf(st)|)
    ensures GenDefers(b.st.defers, k, b.res.begin, b.res.end, |b.st.defers|).None?
  {
    var x := ResolveStmts(body, st).value;
    ChainAfter(body, st, x);
    var c := ChainOf(x.st);
    assert forall i :: 0 <= i < |c| ==> |st.defers| <= c[i];
    WalkMisses(x.st.defers, k, x.st.head, st.head, |x.st.defers|);
  }

  lemma {:induction false} WalkMisses(h: seq<DeferNode>, k: ReturnKind, cur: Link, end: Link, bound: nat)
    requires end.Some? && end.value !in Chain(h, cur, bound) && (cur.Some? ==> cur.value < bound && cur.value < |h|)
    requires forall i :: 0 <= i < |h| && h[i].prev.Some? ==> h[i].prev.value < i
    ensures GenDefers(h, k, cur, end, bound).None?
    decreases bound
  {
    if cur.Some? {
      var c := Chain(h, h[cur.value].prev, cur.value);
      assert cur.value in c + [cur.value];
      WalkMisses(h, k, h[cur.value].prev, end, cur.value);
    }
  }
}
