// What the parser returns is well formed, and is written with exactly the tokens that it consumed.

module ParserSound {
  import opened Syntax
  import opened Pratt
  import opened WellFormed

  // ---------- Each form of expression, from the tokens that it is written with ----------

  ghost function Opening(ty: Type): seq<Token> {
    [LParen, Colon] + ShowType(ty) + [RParen]
  }

  lemma {:induction false} SymbolForm(p: nat, s: Symbol, rest: seq<Token>, toks: seq<Token>)
    requires toks == ShowSymbol(s) + rest && WFSymbol(s) && SymbolDetached(s, rest)
    ensures IsOperand(p, toks, SymbolExpr(s), rest)
  {
  }

  lemma {:induction false} LiteralForm(p: nat, t: Token, rest: seq<Token>, toks: seq<Token>)
    requires toks == [t] + rest && (t.Literal? || t.Bytes?)
    ensures IsOperand(p, toks, LiteralExpr(t), rest)
  {
  }

  lemma {:induction false} GroupedForm(p: nat, x: Expr, rest: seq<Token>, toks: seq<Token>)
    requires toks == [LParen] + Show(x) + [RParen] + rest && WF(x, LOWEST)
    ensures IsOperand(p, toks, Grouped(x), rest)
  {
  }

  lemma {:induction false} ListForm(p: nat, ty: Type, items: Items, rest: seq<Token>, toks: seq<Token>)
    requires toks == Opening(ty) + [LBracket] + ShowItems(items) + [RBracket] + rest && WFType(ty) &&
             WFItems(items, true)
    ensures IsOperand(p, toks, List(ty, items), rest)
  {
    hide ShowItems, ShowType, WFItems, WFType;
    assert Show(List(ty, items)) == Opening(ty) + [LBracket] + ShowItems(items) + [RBracket];
  }

  lemma {:induction false} InitForm(p: nat, ty: Type, inits: seq<Initializer>, trailing: bool, rest: seq<Token>,
                                    toks: seq<Token>)
    requires toks == Opening(ty) + [LBrace] + ShowInits(inits, trailing) + [RBrace] + rest
    requires WFType(ty) && WFInits(inits) && (trailing ==> inits != [])
    ensures IsOperand(p, toks, Init(ty, inits, trailing), rest)
  {
    hide ShowInits, ShowType, WFInits, WFType;
    assert Show(Init(ty, inits, trailing)) == Opening(ty) + [LBrace] + ShowInits(inits, trailing) + [RBrace];
  }

  lemma {:induction false} SliceForm(p: nat, ty: Type, x: Expr, y: Expr, rest: seq<Token>, toks: seq<Token>)
    requires toks == Opening(ty) + [LBrace] + Show(x) + [Comma] + Show(y) + [RBrace] + rest
    requires WFType(ty) && WF(x, LOWEST) && WF(y, LOWEST)
    ensures IsOperand(p, toks, SliceOf(ty, x, y), rest)
  {
    hide ShowType, WFType;
    assert Show(SliceOf(ty, x, y)) == Opening(ty) + [LBrace] + Show(x) + [Comma] + Show(y) + [RBrace];
  }

  lemma {:induction false} CastForm(p: nat, ty: Type, x: Expr, rest: seq<Token>, toks: seq<Token>)
    requires toks == Opening(ty) + Show(x) + rest && WFType(ty) && IsParse(PREFIX, Show(x) + rest, x, rest)
    ensures IsOperand(p, toks, Cast(ty, x), rest)
  {
    hide ShowType, WFType;
  }

  lemma {:induction false} UnaryForm(p: nat, op: Token, x: Expr, rest: seq<Token>, toks: seq<Token>)
    requires IsUnary(op) && !IsParenthesized(op)
    requires toks == [op] + Show(x) + rest && IsParse(PREFIX, Show(x) + rest, x, rest)
    ensures IsOperand(p, toks, Unary(op, x), rest)
  {
  }

  lemma {:induction false} ParenthesizedForm(p: nat, op: Token, x: Expr, rest: seq<Token>, toks: seq<Token>)
    requires IsUnary(op) && IsParenthesized(op) && toks == [op, LParen] + Show(x) + [RParen] + rest && WF(x, PREFIX)
    ensures IsOperand(p, toks, Unary(op, x), rest)
  {
  }

  lemma {:induction false} DefinedForm(p: nat, s: Symbol, rest: seq<Token>, toks: seq<Token>)
    requires toks == [Defined, LParen] + ShowSymbol(s) + [RParen] + rest && WFSymbol(s)
    ensures IsOperand(p, toks, DefinedExpr(s), rest)
  {
  }

  lemma {:induction false} SizeForm(p: nat, size: bool, ty: Type, rest: seq<Token>, toks: seq<Token>)
    requires toks == [if size then Sizeof else Alignof, LParen] + ShowType(ty) + [RParen] + rest && WFType(ty)
    ensures IsOperand(p, toks, if size then SizeofExpr(ty) else AlignofExpr(ty), rest)
  {
  }

  lemma {:induction false} BinaryForm(p: nat, op: Token, l: Expr, r: Expr, rest: seq<Token>, toks: seq<Token>)
    requires IsBinary(op) && Continues(l, p, Precedence(op))
    requires toks == Show(l) + [op] + Show(r) + rest && IsParse(Precedence(op), Show(r) + rest, r, rest)
    ensures IsOperand(p, toks, Binary(op, l, r), rest)
  {
  }

  lemma {:induction false} CallForm(p: nat, l: Expr, items: Items, rest: seq<Token>, toks: seq<Token>)
    requires toks == Show(l) + [LParen] + ShowItems(items) + [RParen] + rest
    requires Continues(l, p, POSTFIX) && WFItems(items, false)
    ensures IsOperand(p, toks, Call(l, items), rest)
  {
    hide ShowItems, WFItems;
  }

  lemma {:induction false} IndexForm(p: nat, l: Expr, i: Expr, rest: seq<Token>, toks: seq<Token>)
    requires toks == Show(l) + [LBracket] + Show(i) + [RBracket] + rest && Continues(l, p, POSTFIX) && WF(i, LOWEST)
    ensures IsOperand(p, toks, Index(l, i), rest)
  {
  }

  lemma {:induction false} SlicingForm(p: nat, l: Expr, x: Expr, y: Expr, rest: seq<Token>, toks: seq<Token>)
    requires toks == Show(l) + [LBracket] + Show(x) + [Colon] + Show(y) + [RBracket] + rest
    requires Continues(l, p, POSTFIX) && WF(x, LOWEST) && WF(y, LOWEST)
    ensures IsOperand(p, toks, Slicing(l, x, y), rest)
  {
  }

  lemma {:induction false} DereferenceForm(p: nat, l: Expr, rest: seq<Token>, toks: seq<Token>)
    requires toks == Show(l) + [DotStar] + rest && Continues(l, p, POSTFIX)
    ensures IsOperand(p, toks, Dereference(l), rest)
  {
  }

  lemma {:induction false} MemberForm(p: nat, l: Expr, m: Element, rest: seq<Token>, toks: seq<Token>)
    requires toks == Show(l) + [Dot] + ShowElement(m) + rest && Continues(l, p, POSTFIX)
    requires WFElement(m) && ElementDetached(m, rest)
    ensures IsOperand(p, toks, Member(l, m), rest)
  {
    hide ShowElement, WFElement;
  }

  // ---------- What each parse function promises ----------

  ghost predicate Parses(p: nat, toks: seq<Token>, r: Parsed<Expr>) {
    r.Ok? ==> IsParse(p, toks, r.v, r.rest)
  }

  ghost predicate ParsesOperand(p: nat, toks: seq<Token>, r: Parsed<Expr>) {
    r.Ok? ==> IsOperand(p, toks, r.v, r.rest)
  }

  ghost predicate ParsesItems(list: bool, first: bool, toks: seq<Token>, r: Parsed<Items>) {
    r.Ok? ==>
      toks == ShowRest(r.v, first) + r.rest && WFElements(r.v.elements) && WFTail(r.v.tail, list) &&
      (r.v.tail.TrailingComma? ==> !first || r.v.elements != [])
  }

  ghost predicate ParsesInits(toks: seq<Token>, r: Parsed<(seq<Initializer>, bool)>) {
    r.Ok? ==> toks == ShowInits(r.v.0, r.v.1) + r.rest && WFInits(r.v.0) && (r.v.1 ==> r.v.0 != [])
  }

  ghost predicate ParsesMoreInits(toks: seq<Token>, r: Parsed<(seq<Initializer>, bool)>) {
    r.Ok? ==> toks == ShowMoreInits(r.v.0, r.v.1) + r.rest && WFInits(r.v.0)
  }

  ghost predicate ParsesInit(toks: seq<Token>, r: Parsed<Initializer>) {
    r.Ok? ==> toks == ShowInit(r.v) + r.rest && WFInit(r.v)
  }

  ghost predicate ParsesSymbol(toks: seq<Token>, r: Parsed<Symbol>) {
    r.Ok? ==> IsSymbol(toks, r.v, r.rest) && (r.v.start.TypeofStart? ==> At(toks, 0) == Typeof)
  }

  ghost predicate ParsesPath(toks: seq<Token>, r: Parsed<seq<Element>>) {
    r.Ok? ==> toks == ShowPath(r.v, false) + r.rest && WFPath(r.v) && PathStops(r.v, r.rest)
  }

  ghost predicate ParsesElement(toks: seq<Token>, r: Parsed<Element>) {
    r.Ok? ==> toks == ShowElement(r.v) + r.rest && WFElement(r.v) && ElementDetached(r.v, r.rest)
  }

  ghost predicate ParsesTypes(toks: seq<Token>, r: Parsed<seq<Type>>) {
    r.Ok? ==> toks == ShowTypes(r.v, true) + r.rest && WFTypes(r.v)
  }

  ghost predicate ParsesType(toks: seq<Token>, r: Parsed<Type>) {
    r.Ok? ==> IsType(toks, r.v, r.rest)
  }

  ghost predicate ParsesTypeof(toks: seq<Token>, r: Parsed<Expr>) {
    r.Ok? ==> toks == [Typeof, LParen] + Show(r.v) + [RParen] + r.rest && WF(r.v, LOWEST)
  }

  // ---------- Expressions ----------

  lemma {:induction false} ExprSound(p: nat, toks: seq<Token>)
    ensures Parses(p, toks, ParseExpr(p, toks))
    decreases |toks|, 9
  {
    hide ParseNud, ParseLoop, IsOperand, IsParse;
    var nud := ParseNud(toks);
    if nud.Ok? {
      NudSound(p, toks);
      LoopSound(p, nud.v, nud.rest, toks);
    }
  }

  lemma {:induction false} OperandStops(p: nat, toks: seq<Token>, e: Expr, rest: seq<Token>)
    requires IsOperand(p, toks, e, rest) && Precedence(At(rest, 0)) <= p
    ensures IsParse(p, toks, e, rest)
  {
    hide Show, WF, Detached, Edge;
  }

  /** `whole` is the input from the beginning of the operand on. */
  lemma {:induction false} LoopSound(p: nat, lhs: Expr, toks: seq<Token>, whole: seq<Token>)
    requires IsOperand(p, whole, lhs, toks)
    ensures Parses(p, whole, ParseLoop(p, lhs, toks))
    decreases |toks|, 1
  {
    hide ParseLed, IsOperand, IsParse, Precedence;
    if Precedence(At(toks, 0)) > p {
      var led := ParseLed(lhs, toks);
      if led.Ok? {
        LedSound(p, lhs, toks, whole);
        LoopSound(p, led.v, led.rest, whole);
      }
    } else {
      OperandStops(p, whole, lhs, toks);
    }
  }

  lemma {:induction false} NudSound(p: nat, toks: seq<Token>)
    ensures ParsesOperand(p, toks, ParseNud(toks))
    decreases |toks|, 8
  {
    hide ParseSymbol, ParseParen, ParseUnary, ParseType, IsOperand, Show, WF;
    var r := ParseNud(toks);
    if r.Ok? {
      var t := toks[0];
      assert toks == [t] + toks[1..];
      if t.Identifier? || t.Typeof? || t.ColonColon? {
        SymbolSound(toks);
        SymbolForm(p, ParseSymbol(toks).v, r.rest, toks);
      } else if t.Literal? || t.Bytes? {
        LiteralForm(p, t, r.rest, toks);
      } else if t.LParen? {
        ParenSound(p, toks);
      } else if IsUnary(t) {
        UnarySound(p, toks);
      } else {
        WordSound(p, toks);
      }
    }
  }

  /** `defined`, `sizeof` and the other words with a parenthesized operand. */
  lemma {:induction false} WordSound(p: nat, toks: seq<Token>)
    requires toks != [] && ParseNud(toks).Ok? && !IsUnary(toks[0]) && !toks[0].LParen?
    requires !toks[0].Identifier? && !toks[0].Typeof? && !toks[0].ColonColon? && !toks[0].Literal? && !toks[0].Bytes?
    ensures ParsesOperand(p, toks, ParseNud(toks))
    decreases |toks|, 7
  {
    hide ParseSymbol, ParseType, WF, WFType, WFSymbol, ShowType, ShowSymbol, SymbolDetached, TypeDetached;
    var t, r := toks[0], ParseNud(toks);
    var open := Expect(toks[1..], LParen);
    assert toks == [t, LParen] + open.rest;
    if t.Defined? {
      SymbolSound(open.rest);
      var s := ParseSymbol(open.rest);
      assert s.rest == [RParen] + r.rest;
      assert toks == [t, LParen] + ShowSymbol(s.v) + [RParen] + r.rest;
      hide IsOperand, Show, ParseNud;
      DefinedForm(p, s.v, r.rest, toks);
    } else if t.Sizeof? || t.Alignof? {
      TypeSound(open.rest);
      var ty := ParseType(open.rest);
      assert ty.rest == [RParen] + r.rest;
      assert toks == [t, LParen] + ShowType(ty.v) + [RParen] + r.rest;
      hide IsOperand, Show, ParseNud;
      SizeForm(p, t.Sizeof?, ty.v, r.rest, toks);
    } else {
      BareWord(p, toks);
    }
  }

  lemma {:induction false} BareWord(p: nat, toks: seq<Token>)
    requires toks != [] && ParseNud(toks).Ok? && (toks[0].Fileof? || toks[0].Lineof? || toks[0].Embed?)
    ensures ParsesOperand(p, toks, ParseNud(toks))
  {
    hide IsOperand;
    var t, r := toks[0], ParseNud(toks);
    if t.Embed? {
      assert r.v == EmbedExpr(toks[2].text) && toks == [Embed, LParen, Bytes(toks[2].text), RParen] + r.rest;
      EmbedForm(p, toks[2].text, r.rest, toks);
    } else {
      assert toks == [t, LParen, RParen] + r.rest;
      LocationForm(p, t.Fileof?, r.rest, toks);
    }
  }

  lemma {:induction false} EmbedForm(p: nat, path: string, rest: seq<Token>, toks: seq<Token>)
    requires toks == [Embed, LParen, Bytes(path), RParen] + rest
    ensures IsOperand(p, toks, EmbedExpr(path), rest)
  {
  }

  lemma {:induction false} LocationForm(p: nat, file: bool, rest: seq<Token>, toks: seq<Token>)
    requires toks == [if file then Fileof else Lineof, LParen, RParen] + rest
    ensures IsOperand(p, toks, if file then FileofExpr else LineofExpr, rest)
  {
  }

  lemma {:induction false} UnarySound(p: nat, toks: seq<Token>)
    requires toks != [] && IsUnary(toks[0])
    ensures ParsesOperand(p, toks, ParseUnary(toks))
    decreases |toks|, 0
  {
    hide ParseExpr, Show, WF, Detached, IsOperand, IsUnary, Precedence;
    var op, r := toks[0], ParseUnary(toks);
    if r.Ok? {
      if IsParenthesized(op) {
        var open := Expect(toks[1..], LParen);
        ExprSound(PREFIX, open.rest);
        var e := ParseExpr(PREFIX, open.rest);
        assert toks == [op, LParen] + open.rest && e.rest == [RParen] + r.rest;
        assert toks == [op, LParen] + Show(e.v) + [RParen] + r.rest;
        ParenthesizedForm(p, op, e.v, r.rest, toks);
      } else {
        ExprSound(PREFIX, toks[1..]);
        var e := ParseExpr(PREFIX, toks[1..]);
        assert toks == [op] + toks[1..];
        assert toks == [op] + Show(e.v) + r.rest;
        UnaryForm(p, op, e.v, r.rest, toks);
      }
    }
  }

  lemma {:induction false} ParenSound(p: nat, toks: seq<Token>)
    requires toks != [] && toks[0] == LParen
    ensures ParsesOperand(p, toks, ParseParen(toks))
    decreases |toks|, 0
  {
    hide ParseExpr, ParseType, ParseTyped, Show, ShowType, WF, WFType, Detached, TypeDetached, IsOperand, Precedence;
    var r := ParseParen(toks);
    if r.Ok? {
      if At(toks, 1) != Colon {
        ExprSound(LOWEST, toks[1..]);
        var e := ParseExpr(LOWEST, toks[1..]);
        assert toks == [LParen] + toks[1..] && e.rest == [RParen] + r.rest;
        assert toks == [LParen] + Show(e.v) + [RParen] + r.rest;
        GroupedForm(p, e.v, r.rest, toks);
      } else {
        TypeSound(toks[2..]);
        var ty := ParseType(toks[2..]);
        var close := Expect(ty.rest, RParen);
        assert toks == [LParen, Colon] + toks[2..] && ty.rest == [RParen] + close.rest;
        assert toks == Opening(ty.v) + close.rest;
        TypedSound(p, ty.v, close.rest, toks);
      }
    }
  }

  lemma {:induction false} TypedSound(p: nat, ty: Type, toks: seq<Token>, whole: seq<Token>)
    requires WFType(ty) && whole == Opening(ty) + toks
    ensures ParsesOperand(p, whole, ParseTyped(ty, toks))
    decreases |toks|, 10
  {
    hide ParseExpr, ParseItems, ParseInits, ParseTyped, Show, WF, WFType, Detached, IsOperand, Precedence, Opening;
    var r := ParseTyped(ty, toks);
    if r.Ok? {
      if At(toks, 0) == LBracket {
        ListSound(p, ty, toks, whole);
      } else if At(toks, 0) == LBrace {
        BraceSound(p, ty, toks, whole);
      } else {
        ExprSound(PREFIX, toks);
        var e := ParseExpr(PREFIX, toks);
        TypedCast(ty, toks);
        assert whole == Opening(ty) + Show(e.v) + r.rest;
        CastForm(p, ty, e.v, r.rest, whole);
      }
    }
  }

  lemma {:induction false} TypedCast(ty: Type, toks: seq<Token>)
    requires At(toks, 0) != LBracket && At(toks, 0) != LBrace && ParseTyped(ty, toks).Ok?
    ensures var e := ParseExpr(PREFIX, toks); e.Ok? && ParseTyped(ty, toks) == Ok(Cast(ty, e.v), e.rest)
  {
    hide ParseExpr;
  }

  lemma {:induction false} ListSound(p: nat, ty: Type, toks: seq<Token>, whole: seq<Token>)
    requires WFType(ty) && whole == Opening(ty) + toks && At(toks, 0) == LBracket && ParseTyped(ty, toks).Ok?
    ensures ParsesOperand(p, whole, ParseTyped(ty, toks))
    decreases |toks|, 9
  {
    hide ParseExpr, ParseItems, Show, ShowElements, ShowTail, WF, WFType, IsOperand, Opening;
    var r := ParseTyped(ty, toks);
    ItemsSound(RBracket, true, true, toks[1..]);
    var items := ParseItems(RBracket, true, true, toks[1..]);
    assert toks == [LBracket] + toks[1..] && items.rest == [RBracket] + r.rest;
    assert whole == Opening(ty) + [LBracket] + ShowItems(items.v) + [RBracket] + r.rest;
    ListForm(p, ty, items.v, r.rest, whole);
  }

  lemma {:induction false} BraceSound(p: nat, ty: Type, toks: seq<Token>, whole: seq<Token>)
    requires WFType(ty) && whole == Opening(ty) + toks && At(toks, 0) == LBrace && ParseTyped(ty, toks).Ok?
    ensures ParsesOperand(p, whole, ParseTyped(ty, toks))
    decreases |toks|, 9
  {
    hide ParseTyped, ParsesOperand, WFType;
    if At(toks, 1) == RBrace || At(toks, 1) == Dot {
      InitializersSound(p, ty, toks, whole);
    } else {
      SliceSound(p, ty, toks, whole);
    }
  }

  lemma {:induction false} InitializersSound(p: nat, ty: Type, toks: seq<Token>, whole: seq<Token>)
    requires WFType(ty) && whole == Opening(ty) + toks && At(toks, 0) == LBrace && ParseTyped(ty, toks).Ok?
    requires At(toks, 1) == RBrace || At(toks, 1) == Dot
    ensures ParsesOperand(p, whole, ParseTyped(ty, toks))
    decreases |toks|, 8
  {
    hide ParseTyped, ParseInits, ShowInits, WF, WFType, WFInits, IsOperand, Opening;
    InitsParse(ty, toks);
    var r, inits := ParseTyped(ty, toks), ParseInits(toks[1..]);
    InitsSound(toks[1..]);
    assert toks == [LBrace] + toks[1..];
    assert whole == Opening(ty) + [LBrace] + ShowInits(inits.v.0, inits.v.1) + [RBrace] + r.rest;
    InitForm(p, ty, inits.v.0, inits.v.1, r.rest, whole);
  }

  lemma {:induction false} InitsParse(ty: Type, toks: seq<Token>)
    requires At(toks, 0) == LBrace && (At(toks, 1) == RBrace || At(toks, 1) == Dot) && ParseTyped(ty, toks).Ok?
    ensures var r, inits := ParseTyped(ty, toks), ParseInits(toks[1..]);
            inits.Ok? && inits.rest == [RBrace] + r.rest && r.v == Init(ty, inits.v.0, inits.v.1)
  {
    hide ParseInits;
  }

  lemma {:induction false} SliceSound(p: nat, ty: Type, toks: seq<Token>, whole: seq<Token>)
    requires WFType(ty) && whole == Opening(ty) + toks && At(toks, 0) == LBrace && ParseTyped(ty, toks).Ok?
    requires At(toks, 1) != RBrace && At(toks, 1) != Dot
    ensures ParsesOperand(p, whole, ParseTyped(ty, toks))
    decreases |toks|, 8
  {
    hide ParseExpr, ParseTyped, Show, WF, WFType, Detached, IsOperand, Opening, Precedence;
    var r := ParseTyped(ty, toks);
    SliceParse(ty, toks);
    ExprSound(LOWEST, toks[1..]);
    var x := ParseExpr(LOWEST, toks[1..]);
    ExprSound(LOWEST, x.rest[1..]);
    var y := ParseExpr(LOWEST, x.rest[1..]);
    assert toks == [LBrace] + toks[1..] && x.rest == [Comma] + x.rest[1..];
    assert whole == Opening(ty) + [LBrace] + Show(x.v) + [Comma] + Show(y.v) + [RBrace] + r.rest;
    SliceForm(p, ty, x.v, y.v, r.rest, whole);
  }

  lemma {:induction false} SliceParse(ty: Type, toks: seq<Token>)
    requires At(toks, 0) == LBrace && At(toks, 1) != RBrace && At(toks, 1) != Dot && ParseTyped(ty, toks).Ok?
    ensures toks != [] && toks[0] == LBrace
    ensures var x := ParseExpr(LOWEST, toks[1..]);
            x.Ok? && x.rest != [] && x.rest[0] == Comma &&
            var y := ParseExpr(LOWEST, x.rest[1..]);
            var r := ParseTyped(ty, toks);
            y.Ok? && y.rest == [RBrace] + r.rest && r.v == SliceOf(ty, x.v, y.v)
  {
    hide ParseExpr;
  }

  // ---------- Lists ----------

  /** The tokens of what is left of a list, from its first or a later element on. */
  ghost function ShowRest(items: Items, first: bool): seq<Token> {
    ShowElements(items.elements, first) + ShowTail(items.tail, first && items.elements == [])
  }

  lemma {:induction false} OneMore(e: Expr, more: Items, first: bool)
    ensures var items := Items([e] + more.elements, more.tail);
            ShowRest(items, first) == (if first then [] else [Comma]) + Show(e) + ShowRest(more, false) &&
            WFElements(items.elements) == (WF(e, LOWEST) && WFElements(more.elements))
  {
    hide Show, ShowTail, WF;
    assert ([e] + more.elements)[1..] == more.elements;
  }

  lemma {:induction false} EndOfItems(tail: Tail, first: bool)
    ensures ShowRest(Items([], tail), first) == ShowTail(tail, first) && WFElements([])
  {
  }

  lemma {:induction false} ItemsSound(close: Token, list: bool, first: bool, toks: seq<Token>)
    ensures ParsesItems(list, first, toks, ParseItems(close, list, first, toks))
    decreases |toks|, 10
  {
    hide ParseExpr, Show, ShowRest, WF, WFElements, Detached, Precedence;
    var r := ParseItems(close, list, first, toks);
    if r.Ok? {
      if At(toks, 0) == close {
        EndOfItems(NoTail, first);
      } else {
        var start := if first then toks else toks[1..];
        assert toks == (if first then [] else [Comma]) + start;
        if !first && At(start, 0) == close {
          EndOfItems(TrailingComma, first);
        } else {
          ElementsSound(close, list, first, toks, start);
        }
      }
    }
  }

  lemma {:induction false} ElementParse(close: Token, list: bool, first: bool, toks: seq<Token>, start: seq<Token>)
    requires toks == (if first then [] else [Comma]) + start && At(toks, 0) != close && (first || At(start, 0) != close)
    requires ParseItems(close, list, first, toks).Ok?
    ensures ParseExpr(LOWEST, start).Ok?
    ensures var e := ParseExpr(LOWEST, start);
            if list && At(e.rest, 0) == Ellipsis then
              ParseItems(close, list, first, toks) == Ok(Items([], EllipsisTail(e.v)), e.rest[1..])
            else
              var more := ParseItems(close, list, false, e.rest);
              more.Ok? && ParseItems(close, list, first, toks) == Ok(Items([e.v] + more.v.elements, more.v.tail), more.rest)
  {
    hide ParseExpr;
    assert (if first then toks else toks[1..]) == start;
  }

  /** A list with a further element. */
  lemma {:induction false} ElementsSound(close: Token, list: bool, first: bool, toks: seq<Token>, start: seq<Token>)
    requires toks == (if first then [] else [Comma]) + start && At(toks, 0) != close && (first || At(start, 0) != close)
    requires ParseItems(close, list, first, toks).Ok?
    ensures ParsesItems(list, first, toks, ParseItems(close, list, first, toks))
    decreases |toks|, 10, 0
  {
    hide ParseExpr, ParseItems, Show, ShowRest, WF, WFElements, Detached, Precedence;
    var comma := if first then [] else [Comma];
    ElementParse(close, list, first, toks, start);
    var r, e := ParseItems(close, list, first, toks), ParseExpr(LOWEST, start);
    ExprSound(LOWEST, start);
    if list && At(e.rest, 0) == Ellipsis {
      EndOfItems(EllipsisTail(e.v), first);
      assert e.rest == [Ellipsis] + r.rest;
      assert toks == comma + Show(e.v) + [Ellipsis] + r.rest;
    } else {
      ItemsSound(close, list, false, e.rest);
      AddElement(list, first, e.v, toks, e.rest, ParseItems(close, list, false, e.rest));
    }
  }

  lemma {:induction false} AddElement(list: bool, first: bool, e: Expr, toks: seq<Token>, mid: seq<Token>,
                                      more: Parsed<Items>)
    requires more.Ok? && ParsesItems(list, false, mid, more) && WF(e, LOWEST)
    requires toks == (if first then [] else [Comma]) + Show(e) + mid
    ensures ParsesItems(list, first, toks, Ok(Items([e] + more.v.elements, more.v.tail), more.rest))
  {
    hide Show, ShowRest, WF, WFElements;
    OneMore(e, more.v, first);
    assert toks == (if first then [] else [Comma]) + Show(e) + ShowRest(more.v, false) + more.rest;
  }

  lemma {:induction false} OneMoreInit(i: Initializer, more: seq<Initializer>, trailing: bool)
    ensures ShowInits([i] + more, trailing) == ShowInit(i) + ShowMoreInits(more, trailing)
    ensures ShowMoreInits([i] + more, trailing) == [Comma] + ShowInit(i) + ShowMoreInits(more, trailing)
    ensures WFInits([i] + more) == (WFInit(i) && WFInits(more))
  {
    hide ShowInit, WFInit;
    assert ([i] + more)[1..] == more;
  }

  lemma {:induction false} EndOfInits(trailing: bool)
    ensures ShowMoreInits([], trailing) == (if trailing then [Comma] else []) && ShowInits([], false) == [] && WFInits([])
  {
  }

  lemma {:induction false} InitsSound(toks: seq<Token>)
    ensures ParsesInits(toks, ParseInits(toks))
    decreases |toks|, 12
  {
    hide ParseInit, ParseMoreInits, ShowInit, ShowMoreInits, WFInit;
    var r := ParseInits(toks);
    if r.Ok? && At(toks, 0) == Dot {
      InitSound(toks);
      var i := ParseInit(toks);
      MoreInitsSound(i.rest);
      var more := ParseMoreInits(i.rest);
      OneMoreInit(i.v, more.v.0, more.v.1);
      hide ShowInits, WFInits;
      assert toks == ShowInit(i.v) + ShowMoreInits(more.v.0, more.v.1) + r.rest;
    }
  }

  lemma {:induction false} MoreInitsParse(toks: seq<Token>)
    requires ParseMoreInits(toks).Ok?
    ensures At(toks, 0) != Comma ==> ParseMoreInits(toks) == Ok(([], false), toks)
    ensures At(toks, 0) == Comma && At(toks, 1) == RBrace ==> ParseMoreInits(toks) == Ok(([], true), toks[1..])
    ensures At(toks, 0) == Comma && At(toks, 1) != RBrace ==>
              var i := ParseInit(toks[1..]);
              i.Ok? && ParseMoreInits(i.rest).Ok? &&
              var more := ParseMoreInits(i.rest);
              ParseMoreInits(toks) == Ok(([i.v] + more.v.0, more.v.1), more.rest)
  {
    hide ParseInit;
  }

  lemma {:induction false} MoreInitsSound(toks: seq<Token>)
    ensures ParsesMoreInits(toks, ParseMoreInits(toks))
    decreases |toks|, 12
  {
    hide ParseInit, ParseMoreInits, ShowInit, WFInit, ShowMoreInits, ShowInits, WFInits;
    if ParseMoreInits(toks).Ok? {
      var r := ParseMoreInits(toks);
      MoreInitsParse(toks);
      EndOfInits(true);
      EndOfInits(false);
      if At(toks, 0) == Comma {
        assert toks == [Comma] + toks[1..];
        if At(toks, 1) != RBrace {
          InitSound(toks[1..]);
          var i := ParseInit(toks[1..]);
          MoreInitsSound(i.rest);
          var more := ParseMoreInits(i.rest);
          OneMoreInit(i.v, more.v.0, more.v.1);
          assert toks == [Comma] + ShowInit(i.v) + ShowMoreInits(more.v.0, more.v.1) + r.rest;
        }
      }
    }
  }

  lemma {:induction false} InitStep(name: string, v: Value)
    ensures ShowInit(Initializer(name, v)) == [Dot, Identifier(name), Assign] + (if v.Value? then Show(v.e) else [Uninit])
    ensures WFInit(Initializer(name, v)) == (v.Value? ==> WF(v.e, LOWEST))
  {
  }

  lemma {:induction false} InitSound(toks: seq<Token>)
    ensures ParsesInit(toks, ParseInit(toks))
    decreases |toks|, 11
  {
    hide ParseExpr, ParseInit, Show, WF, ShowInit, WFInit, Detached, Precedence;
    var r := ParseInit(toks);
    if r.Ok? {
      InitStep(r.v.name, r.v.value);
      InitParse(toks);
      var start := toks[3..];
      if At(start, 0) == Uninit {
        assert start == [Uninit] + r.rest;
      } else {
        ExprSound(LOWEST, start);
        assert start == Show(r.v.value.e) + r.rest;
      }
    }
  }

  lemma {:induction false} InitParse(toks: seq<Token>)
    requires ParseInit(toks).Ok?
    ensures |toks| >= 3
    ensures var r, start := ParseInit(toks), toks[3..];
            toks == [Dot, Identifier(r.v.name), Assign] + start &&
            if At(start, 0) == Uninit then r.v.value == NoValue && start == [Uninit] + r.rest
            else r.v.value.Value? && ParseExpr(LOWEST, start) == Ok(r.v.value.e, r.rest)
  {
    hide ParseExpr;
    assert toks[1..][1..] == toks[2..] && toks[2..][1..] == toks[3..];
  }

  // ---------- Operators ----------

  lemma {:induction false} LedSound(p: nat, lhs: Expr, toks: seq<Token>, whole: seq<Token>)
    requires IsOperand(p, whole, lhs, toks) && p < Precedence(At(toks, 0))
    ensures ParsesOperand(p, whole, ParseLed(lhs, toks))
    decreases |toks|, 0
  {
    hide ParseExpr, ParseItems, ParseElement, Show, WF, Detached, Edge, Precedence;
    var r := ParseLed(lhs, toks);
    if r.Ok? {
      var t := toks[0];
      assert Continues(lhs, p, Precedence(t)) && whole == Show(lhs) + toks;
      assert toks == [t] + toks[1..];
      hide IsOperand, Continues;
      if IsBinary(t) {
        ExprSound(Precedence(t), toks[1..]);
        var rhs := ParseExpr(Precedence(t), toks[1..]);
        BinaryLed(lhs, toks);
        assert whole == Show(lhs) + [t] + Show(rhs.v) + r.rest;
        BinaryForm(p, t, lhs, rhs.v, r.rest, whole);
      } else {
        PostfixPrecedence(t);
        PostfixSound(p, lhs, toks, whole);
      }
    }
  }

  lemma {:induction false} BinaryLed(lhs: Expr, toks: seq<Token>)
    requires toks != [] && IsBinary(toks[0]) && ParseLed(lhs, toks).Ok?
    ensures var rhs := ParseExpr(Precedence(toks[0]), toks[1..]);
            rhs.Ok? && ParseLed(lhs, toks) == Ok(Binary(toks[0], lhs, rhs.v), rhs.rest)
  {
    hide ParseExpr;
  }

  lemma {:induction false} PostfixPrecedence(t: Token)
    requires Precedence(t) > 0 && !IsBinary(t)
    ensures Precedence(t) == POSTFIX
  {
  }

  lemma {:induction false} PostfixSound(p: nat, lhs: Expr, toks: seq<Token>, whole: seq<Token>)
    requires whole == Show(lhs) + toks && toks != [] && Continues(lhs, p, POSTFIX)
    requires !IsBinary(toks[0]) && ParseLed(lhs, toks).Ok?
    ensures ParsesOperand(p, whole, ParseLed(lhs, toks))
    decreases |toks|, 0, 0
  {
    hide ParseExpr, ParseItems, ParseElement, Show, WF, Detached, Edge, IsOperand, Continues;
    hide ShowElements, ShowTail, ShowElement, WFElement, ElementDetached;
    var t, r := toks[0], ParseLed(lhs, toks);
    assert toks == [t] + toks[1..];
    if t.LParen? {
      ItemsSound(RParen, false, true, toks[1..]);
      var items := ParseItems(RParen, false, true, toks[1..]);
      assert items.rest == [RParen] + r.rest;
      assert whole == Show(lhs) + [LParen] + ShowItems(items.v) + [RParen] + r.rest;
      CallForm(p, lhs, items.v, r.rest, whole);
    } else if t.LBracket? {
      BracketSound(p, lhs, toks, whole);
    } else if t.DotStar? {
      assert whole == Show(lhs) + [DotStar] + r.rest;
      DereferenceForm(p, lhs, r.rest, whole);
    } else {
      ElementSound(toks[1..]);
      var m := ParseElement(toks[1..]);
      assert whole == Show(lhs) + [Dot] + ShowElement(m.v) + r.rest;
      MemberForm(p, lhs, m.v, r.rest, whole);
    }
  }

  lemma {:induction false} BracketSound(p: nat, lhs: Expr, toks: seq<Token>, whole: seq<Token>)
    requires whole == Show(lhs) + toks && toks != [] && toks[0] == LBracket && Continues(lhs, p, POSTFIX)
    requires ParseLed(lhs, toks).Ok?
    ensures ParsesOperand(p, whole, ParseLed(lhs, toks))
    decreases |toks|, 0, 0, 0
  {
    hide ParseExpr, Show, WF, Detached, Edge, IsOperand, Continues, Precedence;
    var r := ParseLed(lhs, toks);
    assert toks == [LBracket] + toks[1..];
    ExprSound(LOWEST, toks[1..]);
    var index := ParseExpr(LOWEST, toks[1..]);
    if At(index.rest, 0) == Colon {
      ExprSound(LOWEST, index.rest[1..]);
      var end := ParseExpr(LOWEST, index.rest[1..]);
      assert index.rest == [Colon] + index.rest[1..] && end.rest == [RBracket] + r.rest;
      assert whole == Show(lhs) + [LBracket] + Show(index.v) + [Colon] + Show(end.v) + [RBracket] + r.rest;
      SlicingForm(p, lhs, index.v, end.v, r.rest, whole);
    } else {
      assert index.rest == [RBracket] + r.rest;
      assert whole == Show(lhs) + [LBracket] + Show(index.v) + [RBracket] + r.rest;
      IndexForm(p, lhs, index.v, r.rest, whole);
    }
  }

  // ---------- Symbols ----------

  ghost predicate IsSymbol(toks: seq<Token>, s: Symbol, rest: seq<Token>) {
    toks == ShowSymbol(s) + rest && WFSymbol(s) && SymbolDetached(s, rest)
  }

  lemma {:induction false} SymbolSound(toks: seq<Token>)
    ensures ParsesSymbol(toks, ParseSymbol(toks))
    decreases |toks|, 6
  {
    hide ParsePath, ParseElement, ParseTypeof, ShowPath, ShowElement, Show, WFPath, WFElement, WF, IsSymbol;
    var r := ParseSymbol(toks);
    if r.Ok? {
      if At(toks, 0) == ColonColon {
        PathSound(toks);
        SymbolPath(Root, r.v.elements, toks, r.rest);
      } else if At(toks, 0) == Typeof {
        TypeofSound(toks);
        var e := ParseTypeof(toks);
        PathSound(e.rest);
        assert toks == ShowStart(TypeofStart(e.v)) + ShowPath(r.v.elements, false) + r.rest;
        SymbolPath(TypeofStart(e.v), r.v.elements, toks, r.rest);
      } else {
        ElementSound(toks);
        var first := ParseElement(toks);
        PathSound(first.rest);
        var path := ParsePath(first.rest);
        assert toks == ShowElement(first.v) + ShowPath(path.v, false) + r.rest;
        PlainPath(first.v, path.v, toks, first.rest, r.rest);
      }
    }
  }

  ghost predicate PathStops(es: seq<Element>, rest: seq<Token>) {
    At(rest, 0) != ColonColon && (es != [] ==> ElementsClosed(es) || NoArguments(rest))
  }

  lemma {:induction false} SymbolPath(start: Start, es: seq<Element>, toks: seq<Token>, rest: seq<Token>)
    requires !start.Plain? && es != [] && WFPath(es) && WFStart(start) && PathStops(es, rest)
    requires toks == ShowStart(start) + ShowPath(es, false) + rest
    ensures IsSymbol(toks, Symbol(start, es), rest)
  {
    assert ShowSymbol(Symbol(start, es)) == ShowStart(start) + ShowPath(es, false);
  }

  lemma {:induction false} PlainPath(e: Element, more: seq<Element>, toks: seq<Token>, mid: seq<Token>,
                                     rest: seq<Token>)
    requires WFElement(e) && WFPath(more) && ElementDetached(e, mid) && PathStops(more, rest)
    requires mid == ShowPath(more, false) + rest && toks == ShowElement(e) + ShowPath(more, false) + rest
    ensures IsSymbol(toks, Symbol(Plain, [e] + more), rest)
  {
    hide ShowElement, WFElement, ShowPath, WFPath, ElementsClosed, NoArguments, IsSymbol;
    PathStep(e, more, true);
    PathStopsStep(e, more, mid, rest);
    PlainSymbol([e] + more, toks, rest);
  }

  lemma {:induction false} PlainSymbol(es: seq<Element>, toks: seq<Token>, rest: seq<Token>)
    requires es != [] && WFPath(es) && PathStops(es, rest) && toks == ShowPath(es, true) + rest
    ensures IsSymbol(toks, Symbol(Plain, es), rest)
  {
    assert ShowStart(Plain) == [];
    assert ShowSymbol(Symbol(Plain, es)) == ShowPath(es, true);
  }

  lemma {:induction false} LastElement(e: Element, more: seq<Element>)
    ensures var es := [e] + more; es[|es| - 1] == if more == [] then e else more[|more| - 1]
  {
  }

  lemma {:induction false} PathStep(e: Element, more: seq<Element>, first: bool)
    ensures ShowPath([e] + more, first) == (if first then [] else [ColonColon]) + ShowElement(e) + ShowPath(more, false)
    ensures WFPath([e] + more) == (WFElement(e) && WFPath(more))
  {
    hide ShowElement, WFElement;
    assert ([e] + more)[1..] == more;
  }

  lemma {:induction false} PathEnd()
    ensures ShowPath([], false) == [] && WFPath([])
  {
  }

  /** The last element of a path is that of its tail, or its only one. */
  lemma {:induction false} PathStopsStep(e: Element, more: seq<Element>, mid: seq<Token>, rest: seq<Token>)
    requires ElementDetached(e, mid) && PathStops(more, rest) && mid == ShowPath(more, false) + rest
    ensures PathStops([e] + more, rest)
  {
    LastElement(e, more);
    PathEnd();
    hide ShowPath;
    if more == [] {
      assert mid == rest;
    }
  }

  lemma {:induction false} PathParse(toks: seq<Token>)
    requires ParsePath(toks).Ok?
    ensures At(toks, 0) != ColonColon ==> ParsePath(toks) == Ok([], toks)
    ensures At(toks, 0) == ColonColon ==>
              var e := ParseElement(toks[1..]);
              e.Ok? && ParsePath(e.rest).Ok? && ParsePath(toks) == Ok([e.v] + ParsePath(e.rest).v, ParsePath(e.rest).rest)
  {
    hide ParseElement;
  }

  lemma {:induction false} PathSound(toks: seq<Token>)
    ensures ParsesPath(toks, ParsePath(toks))
    decreases |toks|, 5
  {
    hide ParseElement, ParsePath, ShowElement, WFElement, ShowPath, WFPath, PathStops;
    if ParsePath(toks).Ok? {
      var r := ParsePath(toks);
      PathParse(toks);
      PathEnd();
      if At(toks, 0) == ColonColon {
        ElementSound(toks[1..]);
        var e := ParseElement(toks[1..]);
        PathSound(e.rest);
        var more := ParsePath(e.rest);
        PathStep(e.v, more.v, false);
        PathStopsStep(e.v, more.v, e.rest, r.rest);
        assert toks == [ColonColon] + toks[1..];
        assert toks == [ColonColon] + ShowElement(e.v) + ShowPath(more.v, false) + r.rest;
      } else {
        EmptyPathStops(toks);
      }
    }
  }

  lemma {:induction false} EmptyPathStops(rest: seq<Token>)
    requires At(rest, 0) != ColonColon
    ensures PathStops([], rest)
  {
  }

  lemma {:induction false} ElementStep(name: string, args: seq<Type>)
    ensures ShowElement(Element(name, args)) ==
              if args == [] then [Identifier(name)]
              else [Identifier(name), LBracket, LBracket] + ShowTypes(args, true) + [RBracket, RBracket]
    ensures WFElement(Element(name, args)) == WFTypes(args) && WFTypes([])
  {
    hide ShowTypes;
  }

  lemma {:induction false} ElementSound(toks: seq<Token>)
    ensures ParsesElement(toks, ParseElement(toks))
    decreases |toks|, 4
  {
    hide ParseTypes, ShowTypes, ShowElement, WFElement, WFTypes;
    var r := ParseElement(toks);
    if r.Ok? {
      var name := ParseIdentifier(toks);
      ElementStep(r.v.name, r.v.arguments);
      assert toks == [Identifier(name.v)] + name.rest;
      if At(name.rest, 0) == LBracket && At(name.rest, 1) == LBracket {
        TypesSound(name.rest[2..]);
        var args := ParseTypes(name.rest[2..]);
        assert name.rest == [LBracket, LBracket] + name.rest[2..];
        assert args.rest == [RBracket, RBracket] + r.rest;
        assert toks == [Identifier(name.v), LBracket, LBracket] + ShowTypes(args.v, true) + [RBracket, RBracket] + r.rest;
      }
    }
  }

  // ---------- Types ----------

  lemma {:induction false} TypesStep(t: Type, more: seq<Type>, first: bool)
    ensures ShowTypes([t] + more, first) == (if first then [] else [Comma]) + ShowType(t) + ShowTypes(more, false)
    ensures WFTypes([t] + more) == (WFType(t) && WFTypes(more))
    ensures more != [] ==> ShowTypes(more, false) == [Comma] + ShowTypes(more, true)
    ensures ShowTypes([], true) == [] && ShowTypes([], false) == [] && WFTypes([])
  {
    hide ShowType, WFType;
    assert ([t] + more)[1..] == more;
  }

  lemma {:induction false} TypesSound(toks: seq<Token>)
    ensures ParsesTypes(toks, ParseTypes(toks))
    decreases |toks|, 8
  {
    hide ParseType, ShowType, WFType, TypeDetached, ShowTypes, WFTypes;
    var r := ParseTypes(toks);
    if r.Ok? {
      TypeSound(toks);
      var t := ParseType(toks);
      if At(t.rest, 0) == Comma {
        TypesSound(t.rest[1..]);
        var more := ParseTypes(t.rest[1..]);
        TypesStep(t.v, more.v, true);
        assert t.rest == [Comma] + t.rest[1..];
        assert toks == ShowType(t.v) + ShowTypes(more.v, false) + r.rest;
      } else {
        TypesStep(t.v, [], true);
        assert [t.v] + [] == [t.v] && [] + ShowType(t.v) + [] == ShowType(t.v);
      }
    }
  }

  lemma {:induction false} PointerForm(b: Type, rest: seq<Token>, toks: seq<Token>, mid: seq<Token>)
    requires toks == [Star] + mid && IsType(mid, b, rest)
    ensures IsType(toks, PointerType(b), rest)
  {
    assert toks == [Star] + ShowType(b) + rest;
  }

  lemma {:induction false} SliceTypeForm(b: Type, rest: seq<Token>, toks: seq<Token>, mid: seq<Token>)
    requires toks == [LBracket, RBracket] + mid && IsType(mid, b, rest)
    ensures IsType(toks, SliceType(b), rest)
  {
    assert toks == [LBracket, RBracket] + ShowType(b) + rest;
  }

  lemma {:induction false} ArrayForm(count: Expr, b: Type, rest: seq<Token>, toks: seq<Token>, mid: seq<Token>)
    requires toks == [LBracket] + Show(count) + [RBracket] + mid && IsType(mid, b, rest) && WF(count, LOWEST)
    ensures IsType(toks, ArrayType(count, b), rest)
  {
    assert toks == [LBracket] + Show(count) + [RBracket] + ShowType(b) + rest;
  }

  lemma {:induction false} FunctionForm(ps: seq<Type>, ret: Type, rest: seq<Token>, toks: seq<Token>, mid: seq<Token>)
    requires toks == [Func, LParen] + ShowTypes(ps, true) + [RParen] + mid && IsType(mid, ret, rest) && WFTypes(ps)
    ensures IsType(toks, FunctionType(ps, ret), rest)
  {
    assert toks == [Func, LParen] + ShowTypes(ps, true) + [RParen] + ShowType(ret) + rest;
  }

  lemma {:induction false} SymbolTypeForm(s: Symbol, rest: seq<Token>, toks: seq<Token>)
    requires IsSymbol(toks, s, rest) && !s.start.TypeofStart?
    ensures IsType(toks, SymbolType(s), rest)
  {
  }

  lemma {:induction false} TypeofForm(e: Expr, rest: seq<Token>, toks: seq<Token>)
    requires toks == [Typeof, LParen] + Show(e) + [RParen] + rest && WF(e, LOWEST)
    ensures IsType(toks, TypeofType(e), rest)
  {
  }

  lemma {:induction false} TypeSound(toks: seq<Token>)
    ensures ParsesType(toks, ParseType(toks))
    decreases |toks|, 7
  {
    hide ParseExpr, ParseSymbol, ParseTypeof, ParseTypes, IsType, IsSymbol, WF, Show, Detached, Precedence;
    var r := ParseType(toks);
    if r.Ok? {
      var t := toks[0];
      assert toks == [t] + toks[1..];
      if t.Identifier? || t.ColonColon? {
        SymbolSound(toks);
        SymbolTypeForm(ParseSymbol(toks).v, r.rest, toks);
      } else if t.Func? {
        FunctionTypeSound(toks);
      } else if t.Star? {
        TypeSound(toks[1..]);
        PointerForm(r.v.base, r.rest, toks, toks[1..]);
      } else if t.LBracket? {
        if At(toks, 1) == RBracket {
          TypeSound(toks[2..]);
          assert toks == [LBracket, RBracket] + toks[2..];
          SliceTypeForm(r.v.base, r.rest, toks, toks[2..]);
        } else {
          ExprSound(LOWEST, toks[1..]);
          var count := ParseExpr(LOWEST, toks[1..]);
          var mid := count.rest[1..];
          TypeSound(mid);
          assert count.rest == [RBracket] + mid;
          assert toks == [LBracket] + Show(count.v) + [RBracket] + mid;
          ArrayForm(count.v, r.v.base, r.rest, toks, mid);
        }
      } else {
        TypeofSound(toks);
        TypeofForm(r.v.e, r.rest, toks);
      }
    }
  }

  lemma {:induction false} FunctionTypeSound(toks: seq<Token>)
    requires toks != [] && toks[0] == Func && ParseType(toks).Ok?
    ensures ParsesType(toks, ParseType(toks))
    decreases |toks|, 6
  {
    hide ParseTypes, IsType, ShowTypes, WFTypes;
    var r, open := ParseType(toks), Expect(toks[1..], LParen);
    assert toks == [Func, LParen] + open.rest;
    TypesStep(SliceType(r.v), [], true);
    var params := if At(open.rest, 0) == RParen then Ok([], open.rest) else ParseTypes(open.rest);
    if At(open.rest, 0) != RParen {
      TypesSound(open.rest);
    }
    var mid := params.rest[1..];
    TypeSound(mid);
    assert params.rest == [RParen] + mid;
    assert toks == [Func, LParen] + ShowTypes(params.v, true) + [RParen] + mid;
    FunctionForm(params.v, r.v.ret, r.rest, toks, mid);
  }

  lemma {:induction false} TypeofSound(toks: seq<Token>)
    ensures ParsesTypeof(toks, ParseTypeof(toks))
    decreases |toks|, 0
  {
    hide ParseExpr, Show, WF, Detached, Precedence;
    var r := ParseTypeof(toks);
    if r.Ok? {
      var start := toks[2..];
      assert toks == [Typeof, LParen] + start;
      ExprSound(LOWEST, start);
      assert ParseExpr(LOWEST, start).rest == [RParen] + r.rest;
      assert toks == [Typeof, LParen] + Show(r.v) + [RParen] + r.rest;
    }
  }
}
