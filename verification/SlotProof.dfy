// The local variables of an emitted function.
//
// Every declaration of a source function gets a C identifier of its own, also across scopes that
// are never open at the same time; the copies of a defer body declare the identifiers of that body
// again.  No copy stands where such an identifier is already visible: every identifier that the
// emitted code uses is visible where it is used, and no block or `for` declares one that is already
// visible around it.  This is what makes it sound to describe the frame by one map (`CLang.Frame`).

module SlotProof {
  import opened Wrappers
  import opened SourceLang
  import opened CLang
  import opened Lowering

  // ---------- The declarations of a function, and the slots they get ----------

  /** The names that statements declare, in source order; the body of a defer counts once, and of a
      `when` only the selected arm. */
  function Declarations(ss: seq<Stmt>): seq<string>
    decreases Size(ss), 1
  {
    if ss == [] then []
    else
      match ss[0]
      case Var(name, _) => [name] + Declarations(ss[1..])
      case DeferBlock(body) =>
        assert SizeStmt(ss[0]) == 2 + Size(body);
        Declarations(body) + Declarations(ss[1..])
      case When(w) => SplicedSize(ss); Declarations(SelectedStmts(w) + ss[1..])
      case s => StmtDeclarations(s) + Declarations(ss[1..])
  }

  function StmtDeclarations(s: Stmt): seq<string>
    decreases SizeStmt(s), 0
  {
    match s
    case If(arms) => ArmsDeclarations(arms)
    case ForRange(name, _, _, body) => [name] + Declarations(body)
    case ForExpr(_, body) => Declarations(body)
    case Switch(_, cases) => CasesDeclarations(cases)
    case _ => []
  }

  function ArmsDeclarations(a: Arms): seq<string>
    decreases SizeArms(a), 0
  {
    match a
    case NoArm => []
    case Else(body) => Declarations(body)
    case Elif(_, body, rest) => Declarations(body) + ArmsDeclarations(rest)
  }

  function CasesDeclarations(c: Cases): seq<string>
    decreases SizeCases(c), 0
  {
    match c
    case NoCase => []
    case ElseCase(body) => Declarations(body)
    case Case(_, body, rest) => Declarations(body) + CasesDeclarations(rest)
  }

  // ---------- Identifiers in emitted code ----------

  /** All identifiers that code declares, at any depth. */
  ghost function Declared(cs: seq<CStmt>): set<Slot>
    decreases cs, 0
  {
    if cs == [] then {} else DeclaredStmt(cs[0]) + Declared(cs[1..])
  }

  ghost function DeclaredBlock(b: CBlock): set<Slot>
    decreases b, 1
  {
    (set d | d in b.decls) + Declared(b.body)
  }

  ghost function DeclaredStmt(c: CStmt): set<Slot>
    decreases c, 0
  {
    match c
    case CNested(b) => DeclaredBlock(b)
    case CIf(arms) => DeclaredArms(arms)
    case CFor(slot, _, _, body) => {slot} + DeclaredBlock(body)
    case CWhile(_, body) => DeclaredBlock(body)
    case CSwitch(_, cases) => DeclaredCases(cases)
    case _ => {}
  }

  ghost function DeclaredArms(a: CArms): set<Slot>
    decreases a, 0
  {
    match a
    case CNoArm => {}
    case CElse(body) => DeclaredBlock(body)
    case CElif(_, body, rest) => DeclaredBlock(body) + DeclaredArms(rest)
  }

  ghost function DeclaredCases(c: CCases): set<Slot>
    decreases c, 0
  {
    match c
    case CNoCase => {}
    case CElseCase(body) => DeclaredBlock(body)
    case CCase(_, body, rest) => DeclaredBlock(body) + DeclaredCases(rest)
  }

  ghost predicate ScopedExpr(e: CExpr, visible: set<Slot>) {
    match e
    case CConst(_) => true
    case CVar(s) => s in visible
    case CPrim(_, l, r) => ScopedExpr(l, visible) && ScopedExpr(r, visible)
    case CCall(_, arg) => ScopedExpr(arg, visible)
  }

  /** The code only uses visible identifiers, and declares none that is already visible. */
  ghost predicate Scoped(cs: seq<CStmt>, visible: set<Slot>)
    decreases cs, 0
  {
    cs != [] ==> ScopedStmt(cs[0], visible) && Scoped(cs[1..], visible)
  }

  ghost predicate ScopedBlock(b: CBlock, visible: set<Slot>)
    decreases b, 1
  {
    Distinct(b.decls) && (forall d :: d in b.decls ==> d !in visible) &&
    Scoped(b.body, visible + set d | d in b.decls)
  }

  ghost predicate ScopedStmt(c: CStmt, visible: set<Slot>)
    decreases c, 0
  {
    match c
    case CNested(b) => ScopedBlock(b, visible)
    case CIf(arms) => ScopedArms(arms, visible)
    case CFor(slot, begin, end, body) =>
      ScopedExpr(begin, visible) && ScopedExpr(end, visible) && slot !in visible && ScopedBlock(body, visible + {slot})
    case CWhile(cond, body) => ScopedExpr(cond, visible) && ScopedBlock(body, visible)
    case CSwitch(e, cases) => ScopedExpr(e, visible) && ScopedCases(cases, visible)
    case CSetReturn(e) => ScopedExpr(e, visible)
    case CAssign(slot, e) => slot in visible && ScopedExpr(e, visible)
    case CExprStmt(e) => ScopedExpr(e, visible)
    case _ => true
  }

  ghost predicate ScopedArms(a: CArms, visible: set<Slot>)
    decreases a, 0
  {
    match a
    case CNoArm => true
    case CElse(body) => ScopedBlock(body, visible)
    case CElif(cond, body, rest) => ScopedExpr(cond, visible) && ScopedBlock(body, visible) && ScopedArms(rest, visible)
  }

  ghost predicate ScopedCases(c: CCases, visible: set<Slot>)
    decreases c, 0
  {
    match c
    case CNoCase => true
    case CElseCase(body) => ScopedBlock(body, visible)
    case CCase(_, body, rest) => ScopedBlock(body, visible) && ScopedCases(rest, visible)
  }

  // ---------- More visible identifiers ----------

  lemma {:induction false} ExprWider(e: CExpr, v: set<Slot>, w: set<Slot>)
    requires ScopedExpr(e, v) && v <= w
    ensures ScopedExpr(e, w)
  {
    match e
    case CPrim(_, l, r) =>
      ExprWider(l, v, w);
      ExprWider(r, v, w);
    case CCall(_, arg) => ExprWider(arg, v, w);
    case _ =>
  }

  /** Code stays in order where more identifiers are visible, if it declares none of them. */
  lemma {:induction false} Wider(cs: seq<CStmt>, v: set<Slot>, w: set<Slot>)
    requires Scoped(cs, v) && v <= w && Declared(cs) !! (w - v)
    ensures Scoped(cs, w)
    decreases cs, 0
  {
    if cs != [] {
      StmtWider(cs[0], v, w);
      Wider(cs[1..], v, w);
    }
  }

  lemma {:induction false} BlockWider(b: CBlock, v: set<Slot>, w: set<Slot>)
    requires ScopedBlock(b, v) && v <= w && DeclaredBlock(b) !! (w - v)
    ensures ScopedBlock(b, w)
    decreases b, 1
  {
    var ds := set d | d in b.decls;
    Wider(b.body, v + ds, w + ds);
  }

  lemma {:induction false} StmtWider(c: CStmt, v: set<Slot>, w: set<Slot>)
    requires ScopedStmt(c, v) && v <= w && DeclaredStmt(c) !! (w - v)
    ensures ScopedStmt(c, w)
    decreases c, 0
  {
    match c
    case CNested(b) => BlockWider(b, v, w);
    case CIf(arms) => ArmsWider(arms, v, w);
    case CFor(slot, begin, end, body) =>
      ExprWider(begin, v, w);
      ExprWider(end, v, w);
      BlockWider(body, v + {slot}, w + {slot});
    case CWhile(cond, body) =>
      ExprWider(cond, v, w);
      BlockWider(body, v, w);
    case CSwitch(e, cases) =>
      ExprWider(e, v, w);
      CasesWider(cases, v, w);
    case CSetReturn(e) => ExprWider(e, v, w);
    case CAssign(_, e) => ExprWider(e, v, w);
    case CExprStmt(e) => ExprWider(e, v, w);
    case _ =>
  }

  lemma {:induction false} ArmsWider(a: CArms, v: set<Slot>, w: set<Slot>)
    requires ScopedArms(a, v) && v <= w && DeclaredArms(a) !! (w - v)
    ensures ScopedArms(a, w)
    decreases a, 0
  {
    match a
    case CNoArm =>
    case CElse(body) => BlockWider(body, v, w);
    case CElif(cond, body, rest) =>
      ExprWider(cond, v, w);
      BlockWider(body, v, w);
      ArmsWider(rest, v, w);
  }

  lemma {:induction false} CasesWider(c: CCases, v: set<Slot>, w: set<Slot>)
    requires ScopedCases(c, v) && v <= w && DeclaredCases(c) !! (w - v)
    ensures ScopedCases(c, w)
    decreases c, 0
  {
    match c
    case CNoCase =>
    case CElseCase(body) => BlockWider(body, v, w);
    case CCase(_, body, rest) =>
      BlockWider(body, v, w);
      CasesWider(rest, v, w);
  }

  lemma {:induction false} ScopedAppend(a: seq<CStmt>, b: seq<CStmt>, visible: set<Slot>)
    requires Scoped(a, visible) && Scoped(b, visible)
    ensures Scoped(a + b, visible)
  {
    if a == [] {
      assert a + b == b;
    } else {
      assert (a + b)[1..] == a[1..] + b;
      ScopedAppend(a[1..], b, visible);
    }
  }

  lemma {:induction false} DeclaredAppend(a: seq<CStmt>, b: seq<CStmt>)
    ensures Declared(a + b) == Declared(a) + Declared(b)
  {
    if a == [] {
      assert a + b == b;
    } else {
      assert (a + b)[1..] == a[1..] + b;
      DeclaredAppend(a[1..], b);
    }
  }

  lemma {:induction false} One(c: CStmt)
    ensures Declared([c]) == DeclaredStmt(c)
    ensures forall v :: Scoped([c], v) <==> ScopedStmt(c, v)
  {
    assert [c][1..] == [];
  }

  // ---------- What the lowering does ----------

  /** Slots numbered from `lo` to before `hi`. */
  ghost function Range(lo: nat, hi: nat): set<Slot> {
    set n: nat | lo <= n < hi :: Local(n)
  }

  /** Copies of the pending defers may stand where `visible` is visible. */
  ghost predicate PendOk(pend: seq<CBlock>, counter: nat, visible: set<Slot>) {
    forall b :: b in pend ==> ScopedBlock(b, visible) && DeclaredBlock(b) <= Range(0, counter)
  }

  /** What may be visible in a context: all that its names stand for, and nothing that is numbered later. */
  ghost predicate Visible(c: Ctx, visible: set<Slot>) {
    (forall e :: e in c.scope ==> e.slot in visible) && PendOk(c.pend, c.counter, visible)
  }

  lemma {:induction false} PendWider(pend: seq<CBlock>, n: nat, v: set<Slot>, m: nat, w: set<Slot>)
    requires PendOk(pend, n, v) && n <= m && v <= w && (w - v) !! Range(0, n)
    ensures PendOk(pend, m, w)
  {
    hide DeclaredBlock, ScopedBlock;
    forall b | b in pend
      ensures ScopedBlock(b, w) && DeclaredBlock(b) <= Range(0, m)
    {
      BlockWider(b, v, w);
    }
  }

  lemma {:induction false} CopiesScoped(pend: seq<CBlock>, k: nat, counter: nat, visible: set<Slot>)
    requires PendOk(pend, counter, visible)
    ensures Scoped(Copies(pend, k), visible) && Declared(Copies(pend, k)) <= Range(0, counter)
    decreases |pend|
  {
    hide DeclaredBlock, ScopedBlock, Range;
    if |pend| > k {
      var n := |pend| - 1;
      assert forall b :: b in pend[..n] ==> b in pend;
      CopiesScoped(pend[..n], k, counter, visible);
      assert Copies(pend, k)[1..] == Copies(pend[..n], k);
      assert pend[n] in pend;
    }
  }

  lemma {:induction false} CopiesDeclare(pend: seq<CBlock>, k: nat, i: nat)
    requires k <= i < |pend|
    ensures DeclaredBlock(pend[i]) <= Declared(Copies(pend, k))
    decreases |pend|
  {
    hide DeclaredBlock;
    var n := |pend| - 1;
    assert Copies(pend, k)[1..] == Copies(pend[..n], k);
    if i < n {
      CopiesDeclare(pend[..n], k, i);
      assert pend[..n][i] == pend[i];
    }
  }

  lemma {:induction false} ExprScoped(scope: seq<Entry>, e: Expr, visible: set<Slot>)
    requires LowerExpr(scope, e).Ok? && forall x :: x in scope ==> x.slot in visible
    ensures ScopedExpr(LowerExpr(scope, e).value, visible)
  {
    match e
    case Const(_) =>
    case Name(x) => NameVisible(scope, x, visible);
    case Prim(_, l, r) =>
      ExprScoped(scope, l, visible);
      ExprScoped(scope, r, visible);
    case Call(_, arg) => ExprScoped(scope, arg, visible);
  }

  lemma {:induction false} NameVisible(scope: seq<Entry>, x: string, visible: set<Slot>)
    requires LowerName(scope, x).Ok? && forall e :: e in scope ==> e.slot in visible
    ensures LowerName(scope, x).value in visible
  {
    var i := LastIndex(EntryNames(scope), x);
    assert scope[i] in scope;
  }

  /** What is said of lowered code that starts with slot `lo` and ends before slot `hi`. */
  ghost predicate InOrder(code: seq<CStmt>, lo: nat, hi: nat, visible: set<Slot>) {
    Scoped(code, visible) && Range(lo, hi) <= Declared(code) <= Range(0, hi)
  }

  /** The slots from the context's counter on that are visible are those that the statements themselves declare. */
  lemma {:induction false} StmtsInOrder(ss: seq<Stmt>, c: Ctx, r: Lowered, visible: set<Slot>)
    requires Ok(r) == LowerStmts(ss, c) && Visible(c, visible)
    requires visible * Range(c.counter, r.counter) == set d | d in r.decls
    ensures Scoped(r.code, visible) && Declared(r.code) <= Range(0, r.counter)
    ensures PendOk(r.pend, r.counter, visible) && Distinct(r.decls)
    ensures Range(c.counter, r.counter) <= Declared(r.code) + (set d | d in r.decls) + Declared(Copies(r.pend,
            |c.pend|))
    decreases Size(ss), 2
  {
    if ss == [] {
    } else {
      match ss[0]
      case Var(_, _) => VarInOrder(ss, c, r, visible);
      case DeferBlock(_) => DeferInOrder(ss, c, r, visible);
      case DeferExpr(_) => DeferInOrder(ss, c, r, visible);
      case When(w) =>
        SplicedSize(ss);
        StmtsInOrder(SelectedStmts(w) + ss[1..], c, r, visible);
      case _ => SeqInOrder(ss, c, r, visible);
    }
  }

  lemma {:induction false} VarInOrder(ss: seq<Stmt>, c: Ctx, r: Lowered, visible: set<Slot>)
    requires ss != [] && ss[0].Var? && Ok(r) == LowerStmts(ss, c) && Visible(c, visible)
    requires visible * Range(c.counter, r.counter) == set d | d in r.decls
    ensures Scoped(r.code, visible) && Declared(r.code) <= Range(0, r.counter)
    ensures PendOk(r.pend, r.counter, visible) && Distinct(r.decls)
    ensures Range(c.counter, r.counter) <= Declared(r.code) + (set d | d in r.decls) + Declared(Copies(r.pend,
            |c.pend|))
    decreases Size(ss), 1
  {
    hide LowerStmts, LowerExpr, Scoped, Declared, ScopedExpr, PendOk, Copies;
    var Var(name, init) := ss[0];
    var slot := Local(c.counter);
    var inner := c.(scope := c.scope + [Entry(name, slot)], counter := c.counter + 1);
    VarSteps(ss, c);
    var r1 := LowerStmts(ss[1..], inner).value;
    assert slot in r.decls;
    assert r.decls == [slot] + r1.decls;
    FreshAfter(visible, slot, r1.decls, c.counter, r.counter);
    PendWider(c.pend, c.counter, visible, inner.counter, visible);
    assert Visible(inner, visible);
    StmtsInOrder(ss[1..], inner, r1, visible);
    if init.Some? {
      var store := CAssign(slot, LowerExpr(c.scope, init.value).value);
      ExprScoped(c.scope, init.value, visible);
      One(store);
      ScopedAppend([store], r1.code, visible);
      DeclaredAppend([store], r1.code);
    }
    RangeSplit(c.counter, inner.counter, r.counter);
    assert Range(c.counter, inner.counter) <= {slot};
  }

  lemma {:induction false} RangeSplit(lo: nat, mid: nat, hi: nat)
    requires lo <= mid <= hi
    ensures Range(lo, hi) == Range(lo, mid) + Range(mid, hi)
    ensures Range(0, mid) <= Range(0, hi) && Range(lo, hi) <= Range(0, hi)
    ensures Range(0, lo) !! Range(lo, hi)
  {
  }

  lemma {:induction false} FreshBefore(visible: set<Slot>, decls: seq<Slot>, lo: nat, mid: nat, hi: nat)
    requires lo <= mid <= hi && DeclsIn(decls, mid, hi) && visible * Range(lo, hi) == set d | d in decls
    ensures visible !! Range(lo, mid) && visible * Range(mid, hi) == set d | d in decls
  {
    RangeSplit(lo, mid, hi);
    RangesApart(lo, mid, hi);
    var ds := set d | d in decls;
    var early, late := visible * Range(lo, mid), visible * Range(mid, hi);
    assert forall d :: d in decls ==> d in Range(mid, hi);
    hide *;
    assert early + late == ds && ds <= Range(mid, hi);
    assert early <= Range(lo, mid) && early <= Range(mid, hi);
    assert early == {};
  }

  lemma {:induction false} RangesApart(lo: nat, mid: nat, hi: nat)
    ensures Range(lo, mid) !! Range(mid, hi)
  {
  }

  lemma {:induction false} FreshAfter(visible: set<Slot>, slot: Slot, decls: seq<Slot>, lo: nat, hi: nat)
    requires slot == Local(lo) && lo < hi && DeclsIn(decls, lo + 1, hi)
    requires visible * Range(lo, hi) == set d | d in [slot] + decls
    ensures slot in visible && visible * Range(lo + 1, hi) == set d | d in decls
    ensures Distinct(decls) ==> Distinct([slot] + decls)
  {
    assert slot in [slot] + decls;
    assert slot in visible * Range(lo, hi);
    forall s | s in visible * Range(lo + 1, hi)
      ensures s in decls
    {
      assert s in visible * Range(lo, hi);
    }
    forall s | s in decls
      ensures s in visible * Range(lo + 1, hi)
    {
      assert s in [slot] + decls;
      assert s in visible * Range(lo, hi);
    }
  }

  lemma {:induction false} VarSteps(ss: seq<Stmt>, c: Ctx)
    requires ss != [] && ss[0].Var? && LowerStmts(ss, c).Ok?
    ensures var Var(name, init) := ss[0];
            var slot := Local(c.counter);
            var r1 := LowerStmts(ss[1..], c.(scope := c.scope + [Entry(name, slot)], counter := c.counter + 1));
            r1.Ok? && (init.Some? ==> LowerExpr(c.scope, init.value).Ok?) && c.counter < r1.value.counter &&
            LowerStmts(ss, c).value ==
              r1.value.(code := if init.None? then r1.value.code else [CAssign(slot, LowerExpr(c.scope, init.value).value)] + r1.value.code,
                        decls := [slot] + r1.value.decls)
    ensures DeclsIn(LowerStmts(ss, c).value.decls, c.counter, LowerStmts(ss, c).value.counter)
    ensures var Var(name, _) := ss[0];
            var r1 := LowerStmts(ss[1..], c.(scope := c.scope + [Entry(name, Local(c.counter))], counter := c.counter + 1));
            DeclsIn(r1.value.decls, c.counter + 1, r1.value.counter)
  {
    hide LowerExpr;
  }

  lemma {:induction false} DeferInOrder(ss: seq<Stmt>, c: Ctx, r: Lowered, visible: set<Slot>)
    requires ss != [] && (ss[0].DeferBlock? || ss[0].DeferExpr?) && Ok(r) == LowerStmts(ss, c) && Visible(c, visible)
    requires visible * Range(c.counter, r.counter) == set d | d in r.decls
    ensures Scoped(r.code, visible) && Declared(r.code) <= Range(0, r.counter)
    ensures PendOk(r.pend, r.counter, visible) && Distinct(r.decls)
    ensures Range(c.counter, r.counter) <= Declared(r.code) + (set d | d in r.decls) + Declared(Copies(r.pend,
            |c.pend|))
    decreases Size(ss), 1
  {
    hide LowerStmts, LowerBlock, Scoped, ScopedBlock, Declared, DeclaredBlock, PendOk, Copies, Size;
    var body := DeferBody(ss[0]);
    DeferredSteps(ss, c);
    var b := LowerBlock(body, c).value;
    var c1 := c.(pend := c.pend + [b.block], counter := b.counter);
    RangeSplit(c.counter, b.counter, r.counter);
    RangeSplit(0, b.counter, r.counter);
    FreshBefore(visible, r.decls, c.counter, b.counter, r.counter);
    BlockInOrder(body, c, b, visible);
    PendPushed(c.pend, c.counter, visible, b.block, b.counter);
    StmtsInOrder(ss[1..], c1, r, visible);
    CopiesDeclare(r.pend, |c.pend|, |c.pend|);
    LaterCopies(r.pend, |c.pend|);
    assert r.pend[|c.pend|] == b.block;
  }

  lemma {:induction false} LaterCopies(pend: seq<CBlock>, k: nat)
    ensures Declared(Copies(pend, k + 1)) <= Declared(Copies(pend, k))
    decreases |pend|
  {
    hide DeclaredBlock;
    if |pend| > k {
      var n := |pend| - 1;
      LaterCopies(pend[..n], k);
      assert Copies(pend, k)[1..] == Copies(pend[..n], k);
      if |pend| > k + 1 {
        assert Copies(pend, k + 1)[1..] == Copies(pend[..n], k + 1);
      }
    }
  }

  lemma {:induction false} PendPushed(pend: seq<CBlock>, n: nat, visible: set<Slot>, b: CBlock, m: nat)
    requires PendOk(pend, n, visible) && n <= m && ScopedBlock(b, visible) && DeclaredBlock(b) <= Range(0, m)
    ensures PendOk(pend + [b], m, visible)
  {
    hide DeclaredBlock, ScopedBlock;
    PendWider(pend, n, visible, m, visible);
  }

  lemma {:induction false} DeferredSteps(ss: seq<Stmt>, c: Ctx)
    requires ss != [] && (ss[0].DeferBlock? || ss[0].DeferExpr?) && LowerStmts(ss, c).Ok?
    ensures var body := DeferBody(ss[0]);
            Size(body) + 1 < Size(ss) && Size(ss[1..]) < Size(ss) && LowerBlock(body, c).Ok? &&
            var b := LowerBlock(body, c).value;
            var c1 := c.(pend := c.pend + [b.block], counter := b.counter);
            LowerStmts(ss[1..], c1) == LowerStmts(ss, c) && c.counter <= b.counter <= LowerStmts(ss, c).value.counter &&
            c1.pend <= LowerStmts(ss, c).value.pend && DeclsIn(LowerStmts(ss, c).value.decls, b.counter, LowerStmts(ss, c).value.counter)
  {
    hide LowerBlock;
    var body := DeferBody(ss[0]);
    if ss[0].DeferExpr? {
      SizeOne(ExprStmt(ss[0].e));
      assert SizeStmt(ss[0]) == 4;
    } else {
      assert SizeStmt(ss[0]) == 2 + Size(body);
    }
  }

  lemma {:induction false} SeqInOrder(ss: seq<Stmt>, c: Ctx, r: Lowered, visible: set<Slot>)
    requires ss != [] && !ss[0].Var? && !ss[0].DeferBlock? && !ss[0].DeferExpr? && !ss[0].When?
    requires Ok(r) == LowerStmts(ss, c) && Visible(c, visible)
    requires visible * Range(c.counter, r.counter) == set d | d in r.decls
    ensures Scoped(r.code, visible) && Declared(r.code) <= Range(0, r.counter)
    ensures PendOk(r.pend, r.counter, visible) && Distinct(r.decls)
    ensures Range(c.counter, r.counter) <= Declared(r.code) + (set d | d in r.decls) + Declared(Copies(r.pend,
            |c.pend|))
    decreases Size(ss), 1
  {
    hide LowerStmts, LowerStmt, Scoped, Declared, PendOk, Copies, SizeStmt;
    SeqLowered(ss, c);
    var l := LowerStmt(ss[0], c).value;
    var c1 := c.(counter := l.counter);
    var r1 := LowerStmts(ss[1..], c1).value;
    RangeSplit(c.counter, l.counter, r.counter);
    RangeSplit(0, l.counter, r.counter);
    FreshBefore(visible, r.decls, c.counter, l.counter, r.counter);
    StmtInOrder(ss[0], c, l, visible);
    PendWider(c.pend, c.counter, visible, l.counter, visible);
    StmtsInOrder(ss[1..], c1, r1, visible);
    ScopedAppend(l.code, r1.code, visible);
    DeclaredAppend(l.code, r1.code);
  }

  lemma {:induction false} SeqLowered(ss: seq<Stmt>, c: Ctx)
    requires ss != [] && !ss[0].Var? && !ss[0].DeferBlock? && !ss[0].DeferExpr? && !ss[0].When? && LowerStmts(ss, c).Ok?
    ensures var l := LowerStmt(ss[0], c);
            l.Ok? && c.counter <= l.value.counter && SizeStmt(ss[0]) <= Size(ss) && Size(ss[1..]) < Size(ss) &&
            var r1 := LowerStmts(ss[1..], c.(counter := l.value.counter));
            r1.Ok? && l.value.counter <= r1.value.counter && DeclsIn(r1.value.decls, l.value.counter, r1.value.counter) &&
            LowerStmts(ss, c).value == r1.value.(code := l.value.code + r1.value.code)
  {
    hide LowerStmt;
  }

  lemma {:induction false} BlockInOrder(body: seq<Stmt>, c: Ctx, b: LoweredBlock, visible: set<Slot>)
    requires Ok(b) == LowerBlock(body, c) && Visible(c, visible) && visible !! Range(c.counter, b.counter)
    ensures ScopedBlock(b.block, visible) &&
            Range(c.counter, b.counter) <= DeclaredBlock(b.block) <= Range(0, b.counter)
    decreases Size(body), 3
  {
    hide Scoped, Declared, PendOk, Copies, LowerStmts;
    var r := LowerStmts(body, c).value;
    var inner := visible + set d | d in r.decls;
    RangeSplit(0, c.counter, r.counter);
    assert forall d :: d in r.decls ==> d in Range(c.counter, r.counter);
    PendWider(c.pend, c.counter, visible, c.counter, inner);
    StmtsInOrder(body, c, r, inner);
    CopiesScoped(r.pend, |c.pend|, r.counter, inner);
    ScopedAppend(r.code, Copies(r.pend, |c.pend|), inner);
    DeclaredAppend(r.code, Copies(r.pend, |c.pend|));
  }

  lemma {:induction false} StmtInOrder(s: Stmt, c: Ctx, l: LoweredStmt, visible: set<Slot>)
    requires !s.Var? && !s.DeferBlock? && !s.DeferExpr? && !s.When?
    requires Ok(l) == LowerStmt(s, c) && Visible(c, visible) && visible !! Range(c.counter, l.counter)
    ensures InOrder(l.code, c.counter, l.counter, visible)
    decreases SizeStmt(s), 0
  {
    hide PendOk, ScopedExpr, LowerExpr, LowerBlock, LowerArms, LowerCases, ScopedArms, ScopedCases, ScopedBlock,
      DeclaredArms, DeclaredCases, DeclaredBlock, Copies, LowerName;
    if l.code != [] {
      One(l.code[0]);
    }
    match s
    case If(arms) => ArmsInOrder(arms, c, LowerArms(arms, c).value, visible);
    case ForRange(name, begin, end, body) => RangeInOrder(name, begin, end, body, c, l, visible);
    case ForExpr(cond, body) =>
      ExprScoped(c.scope, cond, visible);
      BlockInOrder(body, LoopCtx(c), LowerBlock(body, LoopCtx(c)).value, visible);
    case Switch(e, cases) =>
      ExprScoped(c.scope, e, visible);
      CasesInOrder(cases, c, LowerCases(cases, c).value, visible);
    case Break => JumpInOrder(c, c.loop.value.pend, CBreak, visible);
    case Continue => JumpInOrder(c, c.loop.value.pend, CContinue, visible);
    case Return(value) => ReturnInOrder(value, c, l, visible);
    case Assign(name, e) =>
      ExprScoped(c.scope, e, visible);
      NameVisible(c.scope, name, visible);
    case ExprStmt(e) => ExprScoped(c.scope, e, visible);
    case _ =>
  }

  lemma {:induction false} JumpInOrder(c: Ctx, k: nat, jump: CStmt, visible: set<Slot>)
    requires Visible(c, visible) && (jump.CBreak? || jump.CContinue? || jump.CReturn?)
    ensures InOrder(Copies(c.pend, k) + [jump], c.counter, c.counter, visible)
  {
    hide PendOk, Copies;
    CopiesScoped(c.pend, k, c.counter, visible);
    One(jump);
    ScopedAppend(Copies(c.pend, k), [jump], visible);
    DeclaredAppend(Copies(c.pend, k), [jump]);
  }

  lemma {:induction false} ReturnInOrder(value: Option<Expr>, c: Ctx, l: LoweredStmt, visible: set<Slot>)
    requires Ok(l) == LowerStmt(Return(value), c) && Visible(c, visible)
    ensures InOrder(l.code, c.counter, l.counter, visible)
  {
    hide PendOk, ScopedExpr, LowerExpr, Copies, Declared, Scoped;
    match value
    case None => JumpInOrder(c, 0, CReturn(false), visible);
    case Some(e) =>
      var v := LowerExpr(c.scope, e).value;
      var sized := c.ret.SizedReturn?;
      var store := if sized then CSetReturn(v) else CExprStmt(v);
      var rest := Copies(c.pend, 0) + [CReturn(sized)];
      JumpInOrder(c, 0, CReturn(sized), visible);
      ExprScoped(c.scope, e, visible);
      One(store);
      ScopedAppend([store], rest, visible);
      DeclaredAppend([store], rest);
      assert l.code == [store] + rest;
  }

  lemma {:induction false} RangeInOrder(name: string, begin: Expr, end: Expr, body: seq<Stmt>, c: Ctx, l: LoweredStmt,
                                        visible: set<Slot>)
    requires Ok(l) == LowerStmt(ForRange(name, begin, end, body), c) && Visible(c, visible) &&
             visible !! Range(c.counter, l.counter)
    ensures InOrder(l.code, c.counter, l.counter, visible)
    decreases Size(body), 4
  {
    hide PendOk, ScopedExpr, LowerExpr, LowerBlock, ScopedBlock, DeclaredBlock;
    var rc := RangeCtx(c, name);
    var slot := Local(c.counter);
    var b := LowerBlock(body, rc).value;
    ExprScoped(c.scope, begin, visible);
    ExprScoped(c.scope, end, visible);
    RangeSplit(c.counter, rc.counter, b.counter);
    assert slot in Range(c.counter, b.counter) && slot !in visible;
    PendWider(c.pend, c.counter, visible, rc.counter, visible + {slot});
    assert slot !in Range(rc.counter, b.counter);
    BlockInOrder(body, rc, b, visible + {slot});
    One(l.code[0]);
  }

  lemma {:induction false} ArmsInOrder(a: Arms, c: Ctx, l: LoweredArms, visible: set<Slot>)
    requires Ok(l) == LowerArms(a, c) && Visible(c, visible) && visible !! Range(c.counter, l.counter)
    ensures ScopedArms(l.arms, visible) && Range(c.counter, l.counter) <= DeclaredArms(l.arms) <= Range(0, l.counter)
    decreases SizeArms(a), 0
  {
    hide PendOk, ScopedExpr, LowerExpr, LowerBlock, ScopedBlock, DeclaredBlock;
    match a
    case NoArm =>
    case Else(body) => BlockInOrder(body, c, LowerBlock(body, c).value, visible);
    case Elif(cond, body, rest) =>
      var b := LowerBlock(body, c).value;
      var c1 := c.(counter := b.counter);
      RangeSplit(c.counter, b.counter, l.counter);
      RangeSplit(0, b.counter, l.counter);
      ExprScoped(c.scope, cond, visible);
      BlockInOrder(body, c, b, visible);
      PendWider(c.pend, c.counter, visible, b.counter, visible);
      ArmsInOrder(rest, c1, LowerArms(rest, c1).value, visible);
  }

  lemma {:induction false} SpreadInOrder(symbols: seq<int>, b: CBlock, rest: CCases, visible: set<Slot>)
    requires ScopedBlock(b, visible) && ScopedCases(rest, visible)
    ensures ScopedCases(Spread(symbols, b, rest), visible)
    ensures DeclaredCases(Spread(symbols, b, rest)) == (if symbols == [] then {} else DeclaredBlock(b)) + DeclaredCases(rest)
  {
    if symbols != [] {
      SpreadInOrder(symbols[1..], b, rest, visible);
    }
  }

  lemma {:induction false} CasesInOrder(cs: Cases, c: Ctx, l: LoweredCases, visible: set<Slot>)
    requires Ok(l) == LowerCases(cs, c) && Visible(c, visible) && visible !! Range(c.counter, l.counter)
    ensures ScopedCases(l.cases, visible) &&
            Range(c.counter, l.counter) <= DeclaredCases(l.cases) <= Range(0, l.counter)
    decreases SizeCases(cs), 0
  {
    hide PendOk, LowerBlock, ScopedBlock, DeclaredBlock;
    match cs
    case NoCase =>
    case ElseCase(body) => BlockInOrder(body, c, LowerBlock(body, c).value, visible);
    case Case(symbols, body, rest) =>
      var b := LowerBlock(body, c).value;
      var c1 := c.(counter := b.counter);
      var l1 := LowerCases(rest, c1).value;
      RangeSplit(c.counter, b.counter, l.counter);
      RangeSplit(0, b.counter, l.counter);
      BlockInOrder(body, c, b, visible);
      PendWider(c.pend, c.counter, visible, b.counter, visible);
      CasesInOrder(rest, c1, l1, visible);
      SpreadInOrder(symbols, b.block, l1.cases, visible);
  }

  // ---------- The slots of the declarations ----------

  /** The declarations in source order, each with the slot that it is given. */
  function Assigned(ss: seq<Stmt>, c: Ctx): seq<Entry>
    requires LowerStmts(ss, c).Ok?
    decreases Size(ss), 1
  {
    if ss == [] then []
    else
      match ss[0]
      case Var(name, _) =>
        var inner := c.(scope := c.scope + [Entry(name, Local(c.counter))], counter := c.counter + 1);
        [inner.scope[|c.scope|]] + Assigned(ss[1..], inner)
      case DeferBlock(body) =>
        assert SizeStmt(ss[0]) == 2 + Size(body);
        var b := LowerBlock(body, c).value;
        Assigned(body, c) + Assigned(ss[1..], c.(pend := c.pend + [b.block], counter := b.counter))
      case DeferExpr(e) =>
        var b := LowerBlock([ExprStmt(e)], c).value;
        Assigned(ss[1..], c.(pend := c.pend + [b.block], counter := b.counter))
      case When(w) => SplicedSize(ss); Assigned(SelectedStmts(w) + ss[1..], c)
      case s => AssignedStmt(s, c) + Assigned(ss[1..], c.(counter := LowerStmt(s, c).value.counter))
  }

  function AssignedStmt(s: Stmt, c: Ctx): seq<Entry>
    requires !s.Var? && !s.DeferBlock? && !s.DeferExpr? && !s.When? && LowerStmt(s, c).Ok?
    decreases SizeStmt(s), 0
  {
    match s
    case If(arms) => AssignedArms(arms, c)
    case ForRange(name, _, _, body) =>
      var rc := RangeCtx(c, name);
      assert LowerBlock(body, rc).Ok?;
      [rc.scope[|c.scope|]] + Assigned(body, rc)
    case ForExpr(_, body) => assert LowerBlock(body, LoopCtx(c)).Ok?; Assigned(body, LoopCtx(c))
    case Switch(_, cases) => AssignedCases(cases, c)
    case _ => []
  }

  function AssignedArms(a: Arms, c: Ctx): seq<Entry>
    requires LowerArms(a, c).Ok?
    decreases SizeArms(a), 0
  {
    match a
    case NoArm => []
    case Else(body) => assert LowerBlock(body, c).Ok?; Assigned(body, c)
    case Elif(_, body, rest) =>
      assert LowerBlock(body, c).Ok?;
      Assigned(body, c) + AssignedArms(rest, c.(counter := LowerBlock(body, c).value.counter))
  }

  function AssignedCases(cs: Cases, c: Ctx): seq<Entry>
    requires LowerCases(cs, c).Ok?
    decreases SizeCases(cs), 0
  {
    match cs
    case NoCase => []
    case ElseCase(body) => assert LowerBlock(body, c).Ok?; Assigned(body, c)
    case Case(_, body, rest) =>
      assert LowerBlock(body, c).Ok?;
      Assigned(body, c) + AssignedCases(rest, c.(counter := LowerBlock(body, c).value.counter))
  }

  function Numbered(names: seq<string>, n: nat): seq<Entry> {
    seq(|names|, i requires 0 <= i < |names| => Entry(names[i], Local(n + i)))
  }

  lemma {:induction false} Joined(a: seq<Entry>, ns: seq<string>, b: seq<Entry>, ms: seq<string>, n: nat)
    requires a == Numbered(ns, n) && b == Numbered(ms, n + |ns|)
    ensures a + b == Numbered(ns + ms, n)
  {
  }

  /** The declarations are numbered consecutively in source order. */
  lemma {:induction false} StmtsNumbered(ss: seq<Stmt>, c: Ctx)
    requires LowerStmts(ss, c).Ok?
    ensures Assigned(ss, c) == Numbered(Declarations(ss), c.counter)
    ensures LowerStmts(ss, c).value.counter == c.counter + |Declarations(ss)|
    decreases Size(ss), 2
  {
    if ss != [] {
      match ss[0]
      case Var(_, _) => VarNumbered(ss, c);
      case DeferBlock(_) => DeferNumbered(ss, c);
      case DeferExpr(_) => DeferNumbered(ss, c);
      case When(w) =>
        SplicedSize(ss);
        StmtsNumbered(SelectedStmts(w) + ss[1..], c);
      case _ => SeqNumbered(ss, c);
    }
  }

  lemma {:induction false} VarNumbered(ss: seq<Stmt>, c: Ctx)
    requires ss != [] && ss[0].Var? && LowerStmts(ss, c).Ok?
    ensures Assigned(ss, c) == Numbered(Declarations(ss), c.counter)
    ensures LowerStmts(ss, c).value.counter == c.counter + |Declarations(ss)|
    decreases Size(ss), 1
  {
    VarSteps(ss, c);
    var e := Entry(ss[0].name, Local(c.counter));
    var inner := c.(scope := c.scope + [e], counter := c.counter + 1);
    assert Declarations(ss) == [e.name] + Declarations(ss[1..]) && Assigned(ss, c) == [e] + Assigned(ss[1..], inner);
    assert [e] == Numbered([e.name], c.counter);
    hide *;
    StmtsNumbered(ss[1..], inner);
    Joined([e], [e.name], Assigned(ss[1..], inner), Declarations(ss[1..]), c.counter);
  }

  lemma {:induction false} DeferNumbered(ss: seq<Stmt>, c: Ctx)
    requires ss != [] && (ss[0].DeferBlock? || ss[0].DeferExpr?) && LowerStmts(ss, c).Ok?
    ensures Assigned(ss, c) == Numbered(Declarations(ss), c.counter)
    ensures LowerStmts(ss, c).value.counter == c.counter + |Declarations(ss)|
    decreases Size(ss), 1
  {
    var body := DeferBody(ss[0]);
    DeferredSteps(ss, c);
    DeferAssigned(ss, c);
    var b := LowerBlock(body, c).value;
    assert LowerStmts(body, c).Ok? && b.counter == LowerStmts(body, c).value.counter;
    var c1 := c.(pend := c.pend + [b.block], counter := b.counter);
    hide *;
    StmtsNumbered(body, c);
    StmtsNumbered(ss[1..], c1);
    Joined(Assigned(body, c), Declarations(body), Assigned(ss[1..], c1), Declarations(ss[1..]), c.counter);
  }

  lemma {:induction false} DeferAssigned(ss: seq<Stmt>, c: Ctx)
    requires ss != [] && (ss[0].DeferBlock? || ss[0].DeferExpr?) && LowerStmts(ss, c).Ok?
    ensures var body := DeferBody(ss[0]);
            LowerStmts(body, c).Ok? && Declarations(ss) == Declarations(body) + Declarations(ss[1..]) &&
            var b := LowerBlock(body, c).value;
            var c1 := c.(pend := c.pend + [b.block], counter := b.counter);
            LowerStmts(ss[1..], c1).Ok? && Assigned(ss, c) == Assigned(body, c) + Assigned(ss[1..], c1)
  {
    DeferredSteps(ss, c);
    if ss[0].DeferExpr? {
      var body := [ExprStmt(ss[0].e)];
      assert body[1..] == [] && StmtDeclarations(body[0]) == [] && AssignedStmt(body[0], c) == [];
      SeqLowered(body, c);
      SeqAssigned(body, c);
      assert Assigned([], c.(counter := LowerStmt(body[0], c).value.counter)) == [];
      assert Declarations(body) == [] && Assigned(body, c) == [];
      assert Declarations(ss) == Declarations(ss[1..]);
    }
  }

  lemma {:induction false} SeqNumbered(ss: seq<Stmt>, c: Ctx)
    requires ss != [] && !ss[0].Var? && !ss[0].DeferBlock? && !ss[0].DeferExpr? && !ss[0].When? && LowerStmts(ss, c).Ok?
    ensures Assigned(ss, c) == Numbered(Declarations(ss), c.counter)
    ensures LowerStmts(ss, c).value.counter == c.counter + |Declarations(ss)|
    decreases Size(ss), 1
  {
    SeqLowered(ss, c);
    SeqAssigned(ss, c);
    hide *;
    StmtNumbered(ss[0], c);
    var c1 := c.(counter := LowerStmt(ss[0], c).value.counter);
    StmtsNumbered(ss[1..], c1);
    Joined(AssignedStmt(ss[0], c), StmtDeclarations(ss[0]), Assigned(ss[1..], c1), Declarations(ss[1..]), c.counter);
  }

  lemma {:induction false} SeqAssigned(ss: seq<Stmt>, c: Ctx)
    requires ss != [] && !ss[0].Var? && !ss[0].DeferBlock? && !ss[0].DeferExpr? && !ss[0].When?
    requires LowerStmts(ss, c).Ok? && LowerStmt(ss[0], c).Ok?
    requires LowerStmts(ss[1..], c.(counter := LowerStmt(ss[0], c).value.counter)).Ok?
    ensures Declarations(ss) == StmtDeclarations(ss[0]) + Declarations(ss[1..])
    ensures Assigned(ss, c) == AssignedStmt(ss[0], c) + Assigned(ss[1..],
            c.(counter := LowerStmt(ss[0], c).value.counter))
  {
    hide LowerStmts, LowerStmt, StmtDeclarations, AssignedStmt;
  }

  lemma {:induction false} StmtNumbered(s: Stmt, c: Ctx)
    requires !s.Var? && !s.DeferBlock? && !s.DeferExpr? && !s.When? && LowerStmt(s, c).Ok?
    ensures AssignedStmt(s, c) == Numbered(StmtDeclarations(s), c.counter)
    ensures LowerStmt(s, c).value.counter == c.counter + |StmtDeclarations(s)|
    decreases SizeStmt(s), 0
  {
    hide LowerExpr, LowerName, Copies, Assigned, Declarations;
    match s
    case If(arms) => ArmsNumbered(arms, c);
    case ForRange(name, _, _, body) =>
      var rc := RangeCtx(c, name);
      assert LowerBlock(body, rc).Ok?;
      StmtsNumbered(body, rc);
      assert [rc.scope[|c.scope|]] == Numbered([name], c.counter);
      Joined([rc.scope[|c.scope|]], [name], Assigned(body, rc), Declarations(body), c.counter);
    case ForExpr(_, body) => StmtsNumbered(body, LoopCtx(c));
    case Switch(_, cases) => CasesNumbered(cases, c);
    case _ =>
  }

  lemma {:induction false} ArmsNumbered(a: Arms, c: Ctx)
    requires LowerArms(a, c).Ok?
    ensures AssignedArms(a, c) == Numbered(ArmsDeclarations(a), c.counter)
    ensures LowerArms(a, c).value.counter == c.counter + |ArmsDeclarations(a)|
    decreases SizeArms(a), 0
  {
    match a
    case NoArm =>
    case Else(body) => StmtsNumbered(body, c);
    case Elif(_, body, rest) =>
      StmtsNumbered(body, c);
      var c1 := c.(counter := LowerBlock(body, c).value.counter);
      ArmsNumbered(rest, c1);
      Joined(Assigned(body, c), Declarations(body), AssignedArms(rest, c1), ArmsDeclarations(rest), c.counter);
  }

  lemma {:induction false} CasesNumbered(cs: Cases, c: Ctx)
    requires LowerCases(cs, c).Ok?
    ensures AssignedCases(cs, c) == Numbered(CasesDeclarations(cs), c.counter)
    ensures LowerCases(cs, c).value.counter == c.counter + |CasesDeclarations(cs)|
    decreases SizeCases(cs), 0
  {
    match cs
    case NoCase =>
    case ElseCase(body) => StmtsNumbered(body, c);
    case Case(_, body, rest) =>
      StmtsNumbered(body, c);
      var c1 := c.(counter := LowerBlock(body, c).value.counter);
      CasesNumbered(rest, c1);
      Joined(Assigned(body, c), Declarations(body), AssignedCases(rest, c1), CasesDeclarations(rest), c.counter);
  }

  // ---------- The theorems ----------

  /** No two declarations of a function share a slot, and its emitted code declares exactly these slots. */
  lemma {:induction false} SlotsAreDistinct(f: Function)
    requires LowerFunction(f).Ok?
    ensures LowerStmts(f.body, FunctionCtx(f)).Ok?
    ensures var slots := Assigned(f.body, FunctionCtx(f));
            |slots| == |Declarations(f.body)| &&
            (forall i :: 0 <= i < |slots| ==> slots[i].name == Declarations(f.body)[i]) &&
            (forall i, j :: 0 <= i < j < |slots| ==> slots[i].slot != slots[j].slot) &&
            DeclaredBlock(LowerFunction(f).value.body) == set e | e in slots :: e.slot
  {
    var c := FunctionCtx(f);
    var b := LowerBlock(f.body, c).value;
    StmtsNumbered(f.body, c);
    var slots := Assigned(f.body, c);
    BlockInOrder(f.body, c, b, ArgumentSlots(f));
    assert DeclaredBlock(b.block) == Range(0, |slots|);
    DeclaredAppend(b.block.body, FinalReturn(f.ret));
    assert Declared(FinalReturn(f.ret)) == {} by { One(CReturn(true)); }
    forall s | s in Range(0, |slots|)
      ensures exists e :: e in slots && e.slot == s
    {
      assert slots[s.n] in slots && slots[s.n].slot == s;
    }
    assert DeclaredBlock(LowerFunction(f).value.body) == DeclaredBlock(b.block);
  }

  function ArgumentSlots(f: Function): set<Slot> {
    set i: nat | i < |f.params| :: Argument(i)
  }

  /** Every identifier that the emitted function uses is visible there, and no block or `for` declares one
      that is visible around it. */
  lemma {:induction false} EmittedIsScoped(f: Function)
    requires LowerFunction(f).Ok?
    ensures ScopedBlock(LowerFunction(f).value.body, ArgumentSlots(f))
  {
    var c := FunctionCtx(f);
    var b := LowerBlock(f.body, c).value;
    assert forall i: nat :: i < |f.params| ==> Argument(i) in ArgumentSlots(f);
    BlockInOrder(f.body, c, b, ArgumentSlots(f));
    var inner := ArgumentSlots(f) + set d | d in b.block.decls;
    assert Scoped(FinalReturn(f.ret), inner) by { One(CReturn(true)); }
    ScopedAppend(b.block.body, FinalReturn(f.ret), inner);
  }
}
