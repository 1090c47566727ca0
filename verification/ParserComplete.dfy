// Every well-formed tree is what its tokens parse to.

module ParserComplete {
  import opened Syntax
  import opened Pratt
  import opened WellFormed
  import opened ParserSound

  // ---------- First tokens ----------

  lemma {:induction false} FirstToken(e: Expr, p: nat)
    requires WF(e, p)
    ensures Show(e) != [] && Begins(Show(e)[0])
    decreases e
  {
    match e
    case SymbolExpr(s) => FirstOfSymbol(s);
    case Binary(_, l, _) => FirstToken(l, p);
    case Call(l, _) => FirstToken(l, p);
    case Index(l, _) => FirstToken(l, p);
    case Slicing(l, _, _) => FirstToken(l, p);
    case Dereference(l) => FirstToken(l, p);
    case Member(l, _) => FirstToken(l, p);
    case _ =>
  }

  lemma {:induction false} FirstOfSymbol(s: Symbol)
    requires WFSymbol(s)
    ensures ShowSymbol(s) != []
    ensures var t := ShowSymbol(s)[0];
            if s.start.Plain? then t.Identifier? else if s.start.Root? then t == ColonColon else t == Typeof
  {
    hide ShowTypes, WFPath, WFStart, Show;
    if s.start.Plain? {
      var e := s.elements[0];
      assert ShowElement(e)[0] == Identifier(e.name);
      assert ShowPath(s.elements, true) == ShowElement(e) + ShowPath(s.elements[1..], false);
      assert ShowSymbol(s) == ShowPath(s.elements, true);
    }
  }

  predicate BeginsType(t: Token) {
    t.Identifier? || t.ColonColon? || t.Func? || t.Star? || t.LBracket? || t.Typeof?
  }

  lemma {:induction false} FirstOfType(t: Type)
    requires WFType(t)
    ensures ShowType(t) != [] && BeginsType(ShowType(t)[0])
  {
    if t.SymbolType? {
      FirstOfSymbol(t.symbol);
    }
  }

  /** Tokens that continue neither a symbol nor a member. */
  predicate Apart(rest: seq<Token>) {
    At(rest, 0) != ColonColon && NoArguments(rest)
  }

  lemma {:induction false} ApartDetached(e: Expr, rest: seq<Token>)
    requires Apart(rest)
    ensures Detached(e, rest)
    decreases e
  {
    match e
    case Cast(_, x) => ApartDetached(x, rest);
    case Unary(_, x) => ApartDetached(x, rest);
    case Binary(_, _, r) => ApartDetached(r, rest);
    case _ =>
  }

  lemma {:induction false} ApartType(t: Type, rest: seq<Token>)
    requires Apart(rest)
    ensures TypeDetached(t, rest)
    decreases t
  {
    match t
    case FunctionType(_, r) => ApartType(r, rest);
    case PointerType(b) => ApartType(b, rest);
    case ArrayType(_, b) => ApartType(b, rest);
    case SliceType(b) => ApartType(b, rest);
    case _ =>
  }

  lemma {:induction false} Front(t: Token, toks: seq<Token>)
    ensures At([t] + toks, 0) == t && ([t] + toks)[1..] == toks && At([t] + toks, 1) == At(toks, 0)
    ensures Expect([t] + toks, t) == Ok((), toks)
  {
  }

  lemma {:induction false} AtFront(front: seq<Token>, toks: seq<Token>)
    requires front != []
    ensures At(front + toks, 0) == front[0]
  {
  }

  // ---------- One step of each parse function ----------

  lemma {:induction false} LoopStops(p: nat, e: Expr, rest: seq<Token>)
    requires Precedence(At(rest, 0)) <= p
    ensures ParseLoop(p, e, rest) == Ok(e, rest)
  {
  }

  lemma {:induction false} LoopStep(p: nat, lhs: Expr, toks: seq<Token>, e: Expr, rest: seq<Token>)
    requires p < Precedence(At(toks, 0)) && ParseLed(lhs, toks) == Ok(e, rest)
    ensures ParseLoop(p, lhs, toks) == ParseLoop(p, e, rest)
  {
    hide ParseLed;
  }

  lemma {:induction false} ExprStep(p: nat, toks: seq<Token>, e: Expr, rest: seq<Token>)
    requires ParseNud(toks) == Ok(e, rest)
    ensures ParseExpr(p, toks) == ParseLoop(p, e, rest)
  {
    hide ParseNud, ParseLoop;
  }

  lemma {:induction false} SymbolNud(toks: seq<Token>, s: Symbol, rest: seq<Token>)
    requires toks != [] && (toks[0].Identifier? || toks[0].Typeof? || toks[0].ColonColon?) &&
             ParseSymbol(toks) == Ok(s, rest)
    ensures ParseNud(toks) == Ok(SymbolExpr(s), rest)
  {
    hide ParseSymbol;
  }

  lemma {:induction false} GroupedNud(x: Expr, rest: seq<Token>, mid: seq<Token>)
    requires At(mid, 0) != Colon && ParseExpr(LOWEST, mid) == Ok(x, [RParen] + rest)
    ensures ParseNud([LParen] + mid) == Ok(Grouped(x), rest)
  {
    hide ParseExpr;
    Front(LParen, mid);
    Front(RParen, rest);
  }

  lemma {:induction false} TypedNud(ty: Type, e: Expr, rest: seq<Token>, toks: seq<Token>, mid: seq<Token>,
                                    last: seq<Token>)
    requires toks == [LParen, Colon] + mid && ParseType(mid) == Ok(ty, [RParen] + last) &&
             ParseTyped(ty, last) == Ok(e, rest)
    ensures ParseNud(toks) == Ok(e, rest)
  {
    hide ParseType, ParseTyped;
    assert toks[2..] == mid;
    Front(RParen, last);
  }

  lemma {:induction false} UnaryNud(op: Token, x: Expr, rest: seq<Token>, mid: seq<Token>)
    requires IsUnary(op) && !IsParenthesized(op) && ParseExpr(PREFIX, mid) == Ok(x, rest)
    ensures ParseNud([op] + mid) == Ok(Unary(op, x), rest)
  {
    hide ParseExpr;
    Front(op, mid);
  }

  lemma {:induction false} ParenthesizedNud(op: Token, x: Expr, rest: seq<Token>, mid: seq<Token>)
    requires IsParenthesized(op) && ParseExpr(PREFIX, mid) == Ok(x, [RParen] + rest)
    ensures ParseNud([op] + ([LParen] + mid)) == Ok(Unary(op, x), rest)
  {
    hide ParseExpr;
    Front(op, [LParen] + mid);
    Front(LParen, mid);
    Front(RParen, rest);
  }

  lemma {:induction false} DefinedNud(s: Symbol, rest: seq<Token>, mid: seq<Token>)
    requires ParseSymbol(mid) == Ok(s, [RParen] + rest)
    ensures ParseNud([Defined] + ([LParen] + mid)) == Ok(DefinedExpr(s), rest)
  {
    hide ParseSymbol;
    Front(Defined, [LParen] + mid);
    Front(LParen, mid);
    Front(RParen, rest);
  }

  lemma {:induction false} SizeNud(size: bool, ty: Type, rest: seq<Token>, mid: seq<Token>)
    requires ParseType(mid) == Ok(ty, [RParen] + rest)
    ensures ParseNud([if size then Sizeof else Alignof] + ([LParen] + mid)) ==
              Ok(if size then SizeofExpr(ty) else AlignofExpr(ty), rest)
  {
    hide ParseType, ParseNud, Expect;
    var t := if size then Sizeof else Alignof;
    Front(t, [LParen] + mid);
    Front(LParen, mid);
    Front(RParen, rest);
    SizeNudStep(size, ty, [t] + ([LParen] + mid), mid, [RParen] + rest, rest);
  }

  lemma {:induction false} SizeNudStep(size: bool, ty: Type, toks: seq<Token>, mid: seq<Token>, close: seq<Token>,
                                       rest: seq<Token>)
    requires toks != [] && toks[0] == (if size then Sizeof else Alignof) && Expect(toks[1..], LParen) == Ok((), mid)
    requires ParseType(mid) == Ok(ty, close) && Expect(close, RParen) == Ok((), rest)
    ensures ParseNud(toks) == Ok(if size then SizeofExpr(ty) else AlignofExpr(ty), rest)
  {
    hide ParseType, ParseSymbol, ParseParen, ParseUnary, Expect;
  }

  lemma {:induction false} LocationNud(file: bool, rest: seq<Token>)
    ensures var e := if file then FileofExpr else LineofExpr; ParseNud(Show(e) + rest) == Ok(e, rest)
  {
    var e := if file then FileofExpr else LineofExpr;
    var t := if file then Fileof else Lineof;
    assert Show(e) + rest == [t] + ([LParen] + ([RParen] + rest));
    hide ParseNud, Expect, Show;
    Front(t, [LParen] + ([RParen] + rest));
    Front(LParen, [RParen] + rest);
    Front(RParen, rest);
    LocationNudStep(file, [t] + ([LParen] + ([RParen] + rest)), [RParen] + rest, rest);
  }

  lemma {:induction false} LocationNudStep(file: bool, toks: seq<Token>, close: seq<Token>, rest: seq<Token>)
    requires toks != [] && toks[0] == (if file then Fileof else Lineof) && Expect(toks[1..], LParen) == Ok((), close)
    requires Expect(close, RParen) == Ok((), rest)
    ensures ParseNud(toks) == Ok(if file then FileofExpr else LineofExpr, rest)
  {
    hide ParseType, ParseSymbol, ParseParen, ParseUnary, Expect;
  }

  lemma {:induction false} EmbedNud(path: string, rest: seq<Token>)
    ensures ParseNud(Show(EmbedExpr(path)) + rest) == Ok(EmbedExpr(path), rest)
  {
    hide ParseNud, Expect;
    var close := [Bytes(path)] + ([RParen] + rest);
    assert Show(EmbedExpr(path)) == [Embed, LParen, Bytes(path), RParen];
    hide Show;
    assert [Embed, LParen, Bytes(path), RParen] + rest == [Embed] + ([LParen] + close);
    Front(Embed, [LParen] + close);
    Front(LParen, close);
    Front(Bytes(path), [RParen] + rest);
    Front(RParen, rest);
    EmbedNudStep(path, [Embed] + ([LParen] + close), close, rest);
  }

  lemma {:induction false} EmbedNudStep(path: string, toks: seq<Token>, close: seq<Token>, rest: seq<Token>)
    requires toks != [] && toks[0] == Embed && Expect(toks[1..], LParen) == Ok((), close)
    requires close != [] && close[0] == Bytes(path) && Expect(close[1..], RParen) == Ok((), rest)
    ensures ParseNud(toks) == Ok(EmbedExpr(path), rest)
  {
    hide ParseType, ParseSymbol, ParseParen, ParseUnary, Expect;
  }

  lemma {:induction false} BareNud(e: Expr, rest: seq<Token>)
    requires e.FileofExpr? || e.LineofExpr? || e.EmbedExpr? || (e.LiteralExpr? && (e.token.Literal? || e.token.Bytes?))
    ensures ParseNud(Show(e) + rest) == Ok(e, rest)
  {
    if e.LiteralExpr? {
      hide ParseType, ParseSymbol, ParseParen, ParseUnary;
      Front(e.token, rest);
    } else {
      hide ParseNud, Show;
      if e.EmbedExpr? {
        EmbedNud(e.path, rest);
      } else {
        LocationNud(e.FileofExpr?, rest);
      }
    }
  }

  lemma {:induction false} ListTyped(ty: Type, items: Items, rest: seq<Token>, mid: seq<Token>)
    requires ParseItems(RBracket, true, true, mid) == Ok(items, [RBracket] + rest)
    ensures ParseTyped(ty, [LBracket] + mid) == Ok(List(ty, items), rest)
  {
    hide ParseItems;
    Front(LBracket, mid);
    Front(RBracket, rest);
  }

  lemma {:induction false} InitTyped(ty: Type, inits: seq<Initializer>, trailing: bool, rest: seq<Token>,
                                     mid: seq<Token>)
    requires At(mid, 0) == RBrace || At(mid, 0) == Dot
    requires ParseInits(mid) == Ok((inits, trailing), [RBrace] + rest)
    ensures ParseTyped(ty, [LBrace] + mid) == Ok(Init(ty, inits, trailing), rest)
  {
    hide ParseInits;
    Front(LBrace, mid);
    Front(RBrace, rest);
  }

  lemma {:induction false} SliceTyped(ty: Type, x: Expr, y: Expr, rest: seq<Token>, mid: seq<Token>, last: seq<Token>)
    requires At(mid, 0) != RBrace && At(mid, 0) != Dot
    requires ParseExpr(LOWEST, mid) == Ok(x, [Comma] + last) && ParseExpr(LOWEST, last) == Ok(y, [RBrace] + rest)
    ensures ParseTyped(ty, [LBrace] + mid) == Ok(SliceOf(ty, x, y), rest)
  {
    hide ParseExpr;
    Front(LBrace, mid);
    Front(Comma, last);
    Front(RBrace, rest);
  }

  lemma {:induction false} CastTyped(ty: Type, x: Expr, rest: seq<Token>, toks: seq<Token>)
    requires At(toks, 0) != LBracket && At(toks, 0) != LBrace && ParseExpr(PREFIX, toks) == Ok(x, rest)
    ensures ParseTyped(ty, toks) == Ok(Cast(ty, x), rest)
  {
    hide ParseExpr;
  }

  lemma {:induction false} BinaryStepLed(op: Token, l: Expr, r: Expr, rest: seq<Token>, mid: seq<Token>)
    requires IsBinary(op) && ParseExpr(Precedence(op), mid) == Ok(r, rest)
    ensures ParseLed(l, [op] + mid) == Ok(Binary(op, l, r), rest)
  {
    hide ParseExpr;
    Front(op, mid);
  }

  lemma {:induction false} CallLed(l: Expr, items: Items, rest: seq<Token>, mid: seq<Token>)
    requires ParseItems(RParen, false, true, mid) == Ok(items, [RParen] + rest)
    ensures ParseLed(l, [LParen] + mid) == Ok(Call(l, items), rest)
  {
    hide ParseItems;
    Front(LParen, mid);
    Front(RParen, rest);
  }

  lemma {:induction false} IndexLed(l: Expr, i: Expr, rest: seq<Token>, mid: seq<Token>)
    requires ParseExpr(LOWEST, mid) == Ok(i, [RBracket] + rest)
    ensures ParseLed(l, [LBracket] + mid) == Ok(Index(l, i), rest)
  {
    hide ParseExpr;
    Front(LBracket, mid);
    Front(RBracket, rest);
  }

  lemma {:induction false} SlicingLed(l: Expr, x: Expr, y: Expr, rest: seq<Token>, mid: seq<Token>, last: seq<Token>)
    requires ParseExpr(LOWEST, mid) == Ok(x, [Colon] + last) && ParseExpr(LOWEST, last) == Ok(y, [RBracket] + rest)
    ensures ParseLed(l, [LBracket] + mid) == Ok(Slicing(l, x, y), rest)
  {
    hide ParseExpr;
    Front(LBracket, mid);
    Front(Colon, last);
    Front(RBracket, rest);
  }

  lemma {:induction false} MemberLed(l: Expr, m: Element, rest: seq<Token>, mid: seq<Token>)
    requires ParseElement(mid) == Ok(m, rest)
    ensures ParseLed(l, [Dot] + mid) == Ok(Member(l, m), rest)
    ensures ParseLed(l, [DotStar] + rest) == Ok(Dereference(l), rest)
  {
    hide ParseElement;
    Front(Dot, mid);
    Front(DotStar, rest);
  }

  // ---------- Whole expressions ----------

  lemma {:induction false} EdgeAtLeast(e: Expr, p: nat)
    requires WF(e, p) && p <= PREFIX
    ensures p <= Edge(e)
  {
  }

  /** A tree at `p` parses to itself before any tokens that do not continue it. */
  lemma {:induction false} ExprParsed(p: nat, e: Expr, rest: seq<Token>)
    requires WF(e, p) && p <= PREFIX && Precedence(At(rest, 0)) <= p && Detached(e, rest)
    ensures ParseExpr(p, Show(e) + rest) == Ok(e, rest)
    decreases e, 5
  {
    hide ParseExpr, ParseLoop, Show, WF, Detached, Precedence, Edge;
    EdgeAtLeast(e, p);
    OperandParsed(p, e, rest);
    LoopStops(p, e, rest);
  }

  /** The same before a token that closes the expression. */
  lemma {:induction false} ClosedParsed(p: nat, e: Expr, close: Token, rest: seq<Token>)
    requires WF(e, p) && p <= PREFIX && Precedence(close) == 0 && close != ColonColon
    ensures ParseExpr(p, Show(e) + ([close] + rest)) == Ok(e, [close] + rest)
    decreases e, 6
  {
    hide ParseExpr, Show, WF, Detached;
    ApartDetached(e, [close] + rest);
    ExprParsed(p, e, [close] + rest);
  }

  /** The parse of an operand arrives at the loop with the operand. */
  lemma {:induction false} OperandParsed(p: nat, e: Expr, rest: seq<Token>)
    requires WF(e, p) && Precedence(At(rest, 0)) <= Edge(e) && Detached(e, rest)
    ensures ParseExpr(p, Show(e) + rest) == ParseLoop(p, e, rest)
    decreases e, 4
  {
    hide ParseExpr, ParseNud, ParseLoop, Show, Detached, Precedence, Edge, WF;
    if e.Binary? {
      BinaryParsed(p, e, rest);
    } else if e.Call? || e.Index? || e.Slicing? || e.Dereference? || e.Member? {
      PostfixParsed(p, e, rest);
    } else {
      NudParsed(p, e, rest);
      ExprStep(p, Show(e) + rest, e, rest);
    }
  }

  lemma {:induction false} BinaryParsed(p: nat, e: Expr, rest: seq<Token>)
    requires e.Binary? && WF(e, p) && Precedence(At(rest, 0)) <= Edge(e) && Detached(e, rest)
    ensures ParseExpr(p, Show(e) + rest) == ParseLoop(p, e, rest)
    decreases e, 3
  {
    var op, l, r := e.op, e.lhs, e.rhs;
    assert Show(e) + rest == Show(l) + ([op] + (Show(r) + rest));
    assert Continues(l, p, Precedence(op)) && IsBinary(op) && op != ColonColon && op != LBracket;
    hide ParseExpr, ParseLoop, Show, WF, Detached, Precedence, Edge;
    Front(op, Show(r) + rest);
    ApartDetached(l, [op] + (Show(r) + rest));
    OperandParsed(p, l, [op] + (Show(r) + rest));
    ExprParsed(Precedence(op), r, rest);
    BinaryStepLed(op, l, r, rest, Show(r) + rest);
    LoopStep(p, l, [op] + (Show(r) + rest), e, rest);
  }

  /** An operator of the highest precedence after an operand. */
  lemma {:induction false} AfterOperand(p: nat, l: Expr, op: Token, mid: seq<Token>, e: Expr, rest: seq<Token>)
    requires Continues(l, p, POSTFIX) && Precedence(op) == POSTFIX && (op == LBracket ==> At(mid, 0) != LBracket)
    requires ParseLed(l, [op] + mid) == Ok(e, rest)
    ensures ParseExpr(p, Show(l) + ([op] + mid)) == ParseLoop(p, e, rest)
    decreases l, 5
  {
    assert op != ColonColon;
    hide ParseExpr, ParseLoop, ParseLed, Show, WF, Detached, Precedence, Edge;
    Front(op, mid);
    ApartDetached(l, [op] + mid);
    OperandParsed(p, l, [op] + mid);
    LoopStep(p, l, [op] + mid, e, rest);
  }

  lemma {:induction false} PostfixParsed(p: nat, e: Expr, rest: seq<Token>)
    requires e.Call? || e.Index? || e.Slicing? || e.Dereference? || e.Member?
    requires WF(e, p) && Detached(e, rest)
    ensures ParseExpr(p, Show(e) + rest) == ParseLoop(p, e, rest)
    decreases e, 3
  {
    var l := e.lhs;
    assert Continues(l, p, POSTFIX);
    hide ParseExpr, ParseLoop, ParseLed, ParseItems, ParseElement, Edge, Continues;
    hide ShowElements, ShowTail, ShowElement, WFElements, WFTail, WFElement;
    match e
    case Call(_, items) =>
      CallParsed(p, l, items, rest);
    case Index(_, i) =>
      IndexParsed(p, l, i, rest);
    case Slicing(_, x, y) =>
      SlicingParsed(p, l, x, y, rest);
    case Dereference(_) =>
      DereferenceParsed(p, l, rest);
    case Member(_, m) =>
      MemberParsed(p, l, m, rest);
  }

  lemma {:induction false} CallParsed(p: nat, l: Expr, items: Items, rest: seq<Token>)
    requires Continues(l, p, POSTFIX) && WFItems(items, false)
    ensures ParseExpr(p, Show(Call(l, items)) + rest) == ParseLoop(p, Call(l, items), rest)
    decreases Call(l, items), 0
  {
    var mid := ShowItems(items) + ([RParen] + rest);
    assert Show(Call(l, items)) + rest == Show(l) + ([LParen] + mid);
    hide ParseExpr, ParseLoop, ParseLed, ParseItems, Show, Continues, Precedence;
    ItemsParsed(RParen, false, items, [RParen] + rest);
    CallLed(l, items, rest, mid);
    Postfixes();
    AfterOperand(p, l, LParen, mid, Call(l, items), rest);
  }

  lemma {:induction false} Postfixes()
    ensures Precedence(LParen) == POSTFIX && Precedence(LBracket) == POSTFIX && Precedence(Dot) == POSTFIX &&
            Precedence(DotStar) == POSTFIX
    ensures Precedence(RParen) == 0 && Precedence(RBracket) == 0 && Precedence(Colon) == 0 && Precedence(Comma) == 0
    ensures Precedence(RBrace) == 0 && Precedence(Ellipsis) == 0
  {
  }

  lemma {:induction false} IndexParsed(p: nat, l: Expr, i: Expr, rest: seq<Token>)
    requires Continues(l, p, POSTFIX) && WF(i, LOWEST)
    ensures ParseExpr(p, Show(Index(l, i)) + rest) == ParseLoop(p, Index(l, i), rest)
    decreases Index(l, i), 0
  {
    hide ParseExpr, ParseLoop, ParseLed, WF, Continues, Precedence;
    var mid := Show(i) + ([RBracket] + rest);
    assert Show(Index(l, i)) == Show(l) + [LBracket] + Show(i) + [RBracket];
    hide Show;
    assert Show(Index(l, i)) + rest == Show(l) + ([LBracket] + mid);
    FirstToken(i, LOWEST);
    AtFront(Show(i), [RBracket] + rest);
    Postfixes();
    ClosedParsed(LOWEST, i, RBracket, rest);
    IndexLed(l, i, rest, mid);
    AfterOperand(p, l, LBracket, mid, Index(l, i), rest);
  }

  lemma {:induction false} ShowSlicing(l: Expr, x: Expr, y: Expr)
    ensures Show(Slicing(l, x, y)) == Show(l) + [LBracket] + Show(x) + [Colon] + Show(y) + [RBracket]
    ensures forall ty :: AfterType(SliceOf(ty, x, y)) == [LBrace] + Show(x) + [Comma] + Show(y) + [RBrace]
  {
  }

  lemma {:induction false} SlicingParsed(p: nat, l: Expr, x: Expr, y: Expr, rest: seq<Token>)
    requires Continues(l, p, POSTFIX) && WF(x, LOWEST) && WF(y, LOWEST)
    ensures ParseExpr(p, Show(Slicing(l, x, y)) + rest) == ParseLoop(p, Slicing(l, x, y), rest)
    decreases Slicing(l, x, y), 0
  {
    hide ParseExpr, ParseLoop, ParseLed, WF, Continues, Precedence;
    var last := Show(y) + ([RBracket] + rest);
    var mid := Show(x) + ([Colon] + last);
    ShowSlicing(l, x, y);
    hide Show;
    assert Show(Slicing(l, x, y)) + rest == Show(l) + ([LBracket] + mid);
    FirstToken(x, LOWEST);
    AtFront(Show(x), [Colon] + last);
    Postfixes();
    ClosedParsed(LOWEST, x, Colon, last);
    ClosedParsed(LOWEST, y, RBracket, rest);
    SlicingLed(l, x, y, rest, mid, last);
    AfterOperand(p, l, LBracket, mid, Slicing(l, x, y), rest);
  }

  lemma {:induction false} DereferenceParsed(p: nat, l: Expr, rest: seq<Token>)
    requires Continues(l, p, POSTFIX)
    ensures ParseExpr(p, Show(Dereference(l)) + rest) == ParseLoop(p, Dereference(l), rest)
    decreases Dereference(l), 0
  {
    assert Show(Dereference(l)) + rest == Show(l) + ([DotStar] + rest);
    DereferenceLed(l, rest);
    hide ParseExpr, ParseLoop, ParseLed, Show, Continues, Precedence;
    Postfixes();
    AfterOperand(p, l, DotStar, rest, Dereference(l), rest);
  }

  lemma {:induction false} DereferenceLed(l: Expr, rest: seq<Token>)
    ensures ParseLed(l, [DotStar] + rest) == Ok(Dereference(l), rest)
  {
    Front(DotStar, rest);
  }

  lemma {:induction false} MemberParsed(p: nat, l: Expr, m: Element, rest: seq<Token>)
    requires Continues(l, p, POSTFIX) && WFElement(m) && ElementDetached(m, rest)
    ensures ParseExpr(p, Show(Member(l, m)) + rest) == ParseLoop(p, Member(l, m), rest)
    decreases Member(l, m), 0
  {
    var mid := ShowElement(m) + rest;
    assert Show(Member(l, m)) + rest == Show(l) + ([Dot] + mid);
    hide ParseExpr, ParseLoop, ParseLed, ParseElement, Show, Continues, Precedence;
    ElementParsed(m, rest);
    MemberLed(l, m, rest, mid);
    Postfixes();
    AfterOperand(p, l, Dot, mid, Member(l, m), rest);
  }

  predicate IsNud(e: Expr) {
    !e.Binary? && !e.Call? && !e.Index? && !e.Slicing? && !e.Dereference? && !e.Member?
  }

  lemma {:induction false} NudParsed(p: nat, e: Expr, rest: seq<Token>)
    requires IsNud(e) && WF(e, p) && Precedence(At(rest, 0)) <= Edge(e) && Detached(e, rest)
    ensures ParseNud(Show(e) + rest) == Ok(e, rest)
    decreases e, 3
  {
    hide ParseNud, Precedence;
    match e
    case SymbolExpr(s) => SymbolParsed(s, rest); FirstOfSymbol(s); SymbolNud(ShowSymbol(s) + rest, s, rest);
    case Grouped(x) => GroupedParsed(x, rest);
    case List(ty, items) => TypedParsed(e, ty, rest);
    case Init(ty, _, _) => TypedParsed(e, ty, rest);
    case SliceOf(ty, _, _) => TypedParsed(e, ty, rest);
    case Cast(ty, _) => TypedParsed(e, ty, rest);
    case Unary(op, x) => UnaryParsed(op, x, rest);
    case DefinedExpr(s) => DefinedParsed(s, rest);
    case SizeofExpr(ty) => SizeParsed(true, ty, rest);
    case AlignofExpr(ty) => SizeParsed(false, ty, rest);
    case _ => BareNud(e, rest);
  }

  lemma {:induction false} GroupedParsed(x: Expr, rest: seq<Token>)
    requires WF(x, LOWEST)
    ensures ParseNud(Show(Grouped(x)) + rest) == Ok(Grouped(x), rest)
    decreases Grouped(x), 0
  {
    var mid := Show(x) + ([RParen] + rest);
    assert Show(Grouped(x)) + rest == [LParen] + mid;
    FirstToken(x, LOWEST);
    hide ParseExpr, ParseNud, Show, WF, Precedence;
    AtFront(Show(x), [RParen] + rest);
    Postfixes();
    ClosedParsed(LOWEST, x, RParen, rest);
    GroupedNud(x, rest, mid);
  }

  lemma {:induction false} UnaryParsed(op: Token, x: Expr, rest: seq<Token>)
    requires IsUnary(op) && WF(x, PREFIX)
    requires IsParenthesized(op) || (Precedence(At(rest, 0)) <= PREFIX && Detached(x, rest))
    ensures ParseNud(Show(Unary(op, x)) + rest) == Ok(Unary(op, x), rest)
    decreases Unary(op, x), 0
  {
    if IsParenthesized(op) {
      var mid := Show(x) + ([RParen] + rest);
      assert Show(Unary(op, x)) + rest == [op] + ([LParen] + mid);
      hide ParseExpr, ParseNud, Show, WF, Precedence;
      Postfixes();
      ClosedParsed(PREFIX, x, RParen, rest);
      ParenthesizedNud(op, x, rest, mid);
    } else {
      assert Show(Unary(op, x)) + rest == [op] + (Show(x) + rest);
      hide ParseExpr, ParseNud, Show, WF, Detached, Precedence;
      ExprParsed(PREFIX, x, rest);
      UnaryNud(op, x, rest, Show(x) + rest);
    }
  }

  lemma {:induction false} DefinedParsed(s: Symbol, rest: seq<Token>)
    requires WFSymbol(s)
    ensures ParseNud(Show(DefinedExpr(s)) + rest) == Ok(DefinedExpr(s), rest)
    decreases DefinedExpr(s), 0
  {
    var mid := ShowSymbol(s) + ([RParen] + rest);
    assert Show(DefinedExpr(s)) + rest == [Defined] + ([LParen] + mid);
    hide ParseNud, ParseSymbol, ShowSymbol, WFSymbol;
    Front(RParen, rest);
    SymbolParsed(s, [RParen] + rest);
    DefinedNud(s, rest, mid);
  }

  lemma {:induction false} SizeParsed(size: bool, ty: Type, rest: seq<Token>)
    requires WFType(ty)
    ensures var e := if size then SizeofExpr(ty) else AlignofExpr(ty); ParseNud(Show(e) + rest) == Ok(e, rest)
    decreases if size then SizeofExpr(ty) else AlignofExpr(ty), 0
  {
    var mid := ShowType(ty) + ([RParen] + rest);
    var e := if size then SizeofExpr(ty) else AlignofExpr(ty);
    assert Show(e) + rest == [if size then Sizeof else Alignof] + ([LParen] + mid);
    hide ParseNud, ParseType, ShowType, WFType;
    TypeBefore(ty, RParen, rest);
    SizeNud(size, ty, rest, mid);
  }

  lemma {:induction false} TypeBefore(ty: Type, close: Token, rest: seq<Token>)
    requires WFType(ty) && close != ColonColon && close != LBracket
    ensures ParseType(ShowType(ty) + ([close] + rest)) == Ok(ty, [close] + rest)
    decreases ty, 2
  {
    hide ParseType, ShowType, WFType, TypeDetached;
    Front(close, rest);
    ApartType(ty, [close] + rest);
    TypeParsed(ty, [close] + rest);
  }

  /** What follows the type of a list, an initializer list, a slice or a cast. */
  ghost function AfterType(e: Expr): seq<Token>
    requires e.List? || e.Init? || e.SliceOf? || e.Cast?
  {
    match e
    case List(_, items) => [LBracket] + ShowItems(items) + [RBracket]
    case Init(_, inits, trailing) => [LBrace] + ShowInits(inits, trailing) + [RBrace]
    case SliceOf(_, x, y) => [LBrace] + Show(x) + [Comma] + Show(y) + [RBrace]
    case Cast(_, x) => Show(x)
  }

  lemma {:induction false} ShowTyped(e: Expr)
    requires e.List? || e.Init? || e.SliceOf? || e.Cast?
    ensures Show(e) == [LParen, Colon] + ShowType(e.ty) + [RParen] + AfterType(e)
    ensures WF(e, LOWEST) ==> WFType(e.ty)
  {
    hide ShowType, ShowItems, ShowInits, WFType, WFItems, WFInits;
  }

  lemma {:induction false} Regroup(a: seq<Token>, b: seq<Token>, c: seq<Token>, d: seq<Token>, rest: seq<Token>)
    ensures a + b + c + d + rest == a + (b + (c + (d + rest)))
  {
  }

  lemma {:induction false} TypedParsed(e: Expr, ty: Type, rest: seq<Token>)
    requires (e.List? || e.Init? || e.SliceOf? || e.Cast?) && e.ty == ty
    requires WF(e, LOWEST) && (e.Cast? ==> Precedence(At(rest, 0)) <= PREFIX && Detached(e.e, rest))
    ensures ParseNud(Show(e) + rest) == Ok(e, rest)
    decreases e, 2
  {
    var last := AfterType(e) + rest;
    var mid := ShowType(ty) + ([RParen] + last);
    hide ParseNud, ParseType, ParseTyped, Show, ShowType, WF, WFType, Detached, AfterType, Precedence;
    ShowTyped(e);
    Regroup([LParen, Colon], ShowType(ty), [RParen], AfterType(e), rest);
    AfterTypeParsed(e, rest);
    TypeBefore(ty, RParen, last);
    TypedNud(ty, e, rest, Show(e) + rest, mid, last);
  }

  lemma {:induction false} AfterTypeParsed(e: Expr, rest: seq<Token>)
    requires e.List? || e.Init? || e.SliceOf? || e.Cast?
    requires WF(e, LOWEST) && (e.Cast? ==> Precedence(At(rest, 0)) <= PREFIX && Detached(e.e, rest))
    ensures ParseTyped(e.ty, AfterType(e) + rest) == Ok(e, rest)
    decreases e, 1
  {
    hide ParseTyped, ParseExpr, ParseItems, ParseInits, Precedence, Detached;
    hide ShowElements, ShowTail, ShowInits, WFElements, WFTail, WFInits;
    match e
    case List(ty, items) =>
      var mid := ShowItems(items) + ([RBracket] + rest);
      assert AfterType(e) + rest == [LBracket] + mid;
      ItemsParsed(RBracket, true, items, [RBracket] + rest);
      ListTyped(ty, items, rest, mid);
    case Init(ty, inits, trailing) =>
      var mid := ShowInits(inits, trailing) + ([RBrace] + rest);
      assert AfterType(e) + rest == [LBrace] + mid;
      InitsParsed(inits, trailing, rest);
      InitTyped(ty, inits, trailing, rest, mid);
    case SliceOf(ty, x, y) =>
      SliceParsed(ty, x, y, rest);
    case Cast(ty, x) =>
      FirstToken(x, PREFIX);
      AtFront(Show(x), rest);
      ExprParsed(PREFIX, x, rest);
      CastTyped(ty, x, rest, Show(x) + rest);
  }

  lemma {:induction false} SliceParsed(ty: Type, x: Expr, y: Expr, rest: seq<Token>)
    requires WF(x, LOWEST) && WF(y, LOWEST)
    ensures ParseTyped(ty, AfterType(SliceOf(ty, x, y)) + rest) == Ok(SliceOf(ty, x, y), rest)
    decreases SliceOf(ty, x, y), 0
  {
    hide ParseTyped, ParseExpr, Show, WF, Precedence, AfterType;
    var last := Show(y) + ([RBrace] + rest);
    var mid := Show(x) + ([Comma] + last);
    ShowSlicing(x, x, y);
    assert AfterType(SliceOf(ty, x, y)) + rest == [LBrace] + mid;
    FirstToken(x, LOWEST);
    AtFront(Show(x), [Comma] + last);
    Postfixes();
    ClosedParsed(LOWEST, x, Comma, last);
    ClosedParsed(LOWEST, y, RBrace, rest);
    SliceTyped(ty, x, y, rest, mid, last);
  }

  // ---------- Lists ----------

  lemma {:induction false} ItemsParsed(close: Token, list: bool, items: Items, rest: seq<Token>)
    requires (close == RParen || close == RBracket) && WFItems(items, list) && At(rest, 0) == close
    ensures ParseItems(close, list, true, ShowItems(items) + rest) == Ok(items, rest)
    decreases items
  {
    hide ParseItems, ShowElements, WFElements, WFTail;
    var first := items.elements == [];
    TailParsed(close, list, first, items.tail, rest);
    ItemsOf(close, list, true, items.elements, items.tail, rest);
  }

  lemma {:induction false} TailParsed(close: Token, list: bool, first: bool, tail: Tail, rest: seq<Token>)
    requires (close == RParen || close == RBracket) && At(rest, 0) == close
    requires WFTail(tail, list) && (tail.TrailingComma? ==> !first)
    ensures ParseItems(close, list, first, ShowTail(tail, first) + rest) == Ok(Items([], tail), rest)
    decreases tail
  {
    var toks := ShowTail(tail, first) + rest;
    match tail
    case NoTail =>
      assert toks == rest;
    case TrailingComma =>
      Front(Comma, rest);
    case EllipsisTail(e) =>
      EllipsisParsed(close, list, first, e, rest);
  }

  lemma {:induction false} ShowEllipsis(e: Expr, first: bool, rest: seq<Token>)
    ensures ShowTail(EllipsisTail(e), first) + rest == (if first then [] else [Comma]) + (Show(e) + ([Ellipsis] + rest))
  {
    hide Show;
  }

  lemma {:induction false} EllipsisParsed(close: Token, list: bool, first: bool, e: Expr, rest: seq<Token>)
    requires (close == RParen || close == RBracket) && list && WF(e, LOWEST)
    ensures ParseItems(close, list, first, ShowTail(EllipsisTail(e), first) + rest) ==
            Ok(Items([], EllipsisTail(e)), rest)
    decreases e, 7
  {
    var start := Show(e) + ([Ellipsis] + rest);
    hide ParseExpr, ParseItems, Show, WF, Precedence;
    FirstToken(e, LOWEST);
    ShowEllipsis(e, first, rest);
    hide ShowTail;
    AtFront(Show(e), [Ellipsis] + rest);
    Postfixes();
    ClosedParsed(LOWEST, e, Ellipsis, rest);
    EllipsisItems(close, first, e, (if first then [] else [Comma]) + start, start, rest);
  }

  lemma {:induction false} EllipsisItems(close: Token, first: bool, e: Expr, toks: seq<Token>, start: seq<Token>,
                                         rest: seq<Token>)
    requires toks == (if first then [] else [Comma]) + start && close != Comma && At(start, 0) != close
    requires ParseExpr(LOWEST, start) == Ok(e, [Ellipsis] + rest)
    ensures ParseItems(close, true, first, toks) == Ok(Items([], EllipsisTail(e)), rest)
  {
    hide ParseExpr;
    Front(Comma, start);
    Front(Ellipsis, rest);
    assert first ==> toks == start;
  }

  lemma {:induction false} ElementItems(close: Token, list: bool, first: bool, e: Expr, toks: seq<Token>,
                                        start: seq<Token>, mid: seq<Token>,
                     more: Items, rest: seq<Token>)
    requires toks == (if first then [] else [Comma]) + start && close != Comma && At(start, 0) != close
    requires ParseExpr(LOWEST, start) == Ok(e, mid) && At(mid, 0) != Ellipsis &&
             ParseItems(close, list, false, mid) == Ok(more, rest)
    ensures ParseItems(close, list, first, toks) == Ok(Items([e] + more.elements, more.tail), rest)
  {
    hide ParseExpr;
    Front(Comma, start);
    assert first ==> toks == start;
  }

  /** What may follow an element of a list: a comma, or the end of it. */
  lemma {:induction false} AfterElement(close: Token, es: seq<Expr>, tail: Tail, rest: seq<Token>)
    requires (close == RParen || close == RBracket) && At(rest, 0) == close
    ensures var mid := ShowRest(Items(es, tail), false) + rest; At(mid, 0) == Comma || At(mid, 0) == close
  {
    var shown := ShowRest(Items(es, tail), false);
    if es == [] && tail.NoTail? {
      assert shown + rest == rest;
    }
  }

  lemma {:induction false} ItemsOf(close: Token, list: bool, first: bool, es: seq<Expr>, tail: Tail, rest: seq<Token>)
    requires (close == RParen || close == RBracket) && At(rest, 0) == close && WFElements(es)
    requires var last := first &&
             es == []; ParseItems(close, list, last, ShowTail(tail, last) + rest) == Ok(Items([], tail), rest)
    ensures ParseItems(close, list, first, ShowRest(Items(es, tail), first) + rest) == Ok(Items(es, tail), rest)
    decreases es
  {
    hide Show, ShowTail, ShowRest, WF, WFElements, ParseItems, Begins;
    EndOfItems(tail, first);
    if es == [] {
    } else {
      var e, more := es[0], es[1..];
      var mid := ShowRest(Items(more, tail), false) + rest;
      assert es == [e] + more;
      OneMore(e, Items(more, tail), first);
      ItemsOf(close, list, false, more, tail, rest);
      AfterElement(close, more, tail, rest);
      FirstToken(e, LOWEST);
      ListElementParsed(close, list, first, e, mid, Items(more, tail), rest);
      assert ShowRest(Items(es, tail), first) == (if first then [] else [Comma]) + Show(e) + ShowRest(Items(more, tail), false);
      assert ShowRest(Items(es, tail), first) + rest == (if first then [] else [Comma]) + Show(e) + mid;
    }
  }

  lemma {:induction false} ListElementParsed(close: Token, list: bool, first: bool, e: Expr, mid: seq<Token>,
                                             more: Items, rest: seq<Token>)
    requires (close == RParen || close == RBracket) && WF(e, LOWEST) && Begins(At(Show(e), 0))
    requires (At(mid, 0) == Comma || At(mid, 0) == close) && ParseItems(close, list, false, mid) == Ok(more, rest)
    ensures ParseItems(close, list, first, (if first then [] else [Comma]) + Show(e) + mid) ==
              Ok(Items([e] + more.elements, more.tail), rest)
    decreases e, 7
  {
    hide ParseExpr, ParseItems, Show, WF, Precedence, Detached;
    Postfixes();
    ApartDetached(e, mid);
    ExprParsed(LOWEST, e, mid);
    assert Show(e) != [];
    AtFront(Show(e), mid);
    assert (if first then [] else [Comma]) + Show(e) + mid == (if first then [] else [Comma]) + (Show(e) + mid);
    ElementItems(close, list, first, e, (if first then [] else [Comma]) + (Show(e) + mid), Show(e) + mid, mid, more, rest);
  }

  // ---------- Initializers ----------

  lemma {:induction false} NoInits(rest: seq<Token>)
    ensures ParseInits(ShowInits([], false) + ([RBrace] + rest)) == Ok(([], false), [RBrace] + rest)
    ensures At(ShowInits([], false) + ([RBrace] + rest), 0) == RBrace
  {
    Front(RBrace, rest);
    assert ShowInits([], false) + ([RBrace] + rest) == [RBrace] + rest;
  }

  lemma {:induction false} NoMoreInits(trailing: bool, rest: seq<Token>)
    ensures ParseMoreInits(ShowMoreInits([], trailing) + ([RBrace] + rest)) == Ok(([], trailing), [RBrace] + rest)
    ensures At(ShowMoreInits([], trailing) + ([RBrace] + rest), 0) == if trailing then Comma else RBrace
  {
    hide ParseInit;
    Front(RBrace, rest);
    Front(Comma, [RBrace] + rest);
    assert ShowMoreInits([], trailing) + ([RBrace] + rest) == if trailing then [Comma] + ([RBrace] + rest) else [RBrace] + rest;
  }

  lemma {:induction false} InitBegins(i: Initializer, mid: seq<Token>)
    ensures At(ShowInit(i) + mid, 0) == Dot
  {
    hide ShowValue;
  }

  lemma {:induction false} InitsParsed(inits: seq<Initializer>, trailing: bool, rest: seq<Token>)
    requires WFInits(inits) && (trailing ==> inits != [])
    ensures ParseInits(ShowInits(inits, trailing) + ([RBrace] + rest)) == Ok((inits, trailing), [RBrace] + rest)
    ensures At(ShowInits(inits, trailing) + ([RBrace] + rest), 0) == if inits == [] then RBrace else Dot
    decreases inits, 2
  {
    hide ParseInits, ParseMoreInits, ParseInit, ShowInits, ShowMoreInits, ShowInit, WFInits, WFInit;
    if inits == [] {
      NoInits(rest);
    } else {
      var i, more := inits[0], inits[1..];
      var mid := ShowMoreInits(more, trailing) + ([RBrace] + rest);
      assert inits == [i] + more;
      OneMoreInit(i, more, trailing);
      MoreInitsParsed(more, trailing, rest);
      OneInitParsed(i, mid);
      assert ShowInits(inits, trailing) + ([RBrace] + rest) == ShowInit(i) + mid;
      InitBegins(i, mid);
      InitsStep(ShowInit(i) + mid, i, mid, more, trailing, [RBrace] + rest);
    }
  }

  lemma {:induction false} InitsStep(toks: seq<Token>, i: Initializer, mid: seq<Token>, more: seq<Initializer>,
                                     trailing: bool, rest: seq<Token>)
    requires At(toks, 0) == Dot && ParseInit(toks) == Ok(i, mid) && ParseMoreInits(mid) == Ok((more, trailing), rest)
    ensures ParseInits(toks) == Ok(([i] + more, trailing), rest)
  {
    hide ParseInit, ParseMoreInits;
  }

  lemma {:induction false} MoreInitsStep(start: seq<Token>, i: Initializer, mid: seq<Token>, more: seq<Initializer>,
                                         trailing: bool, rest: seq<Token>)
    requires At(start, 0) == Dot && ParseInit(start) == Ok(i, mid) && ParseMoreInits(mid) == Ok((more, trailing), rest)
    ensures ParseMoreInits([Comma] + start) == Ok(([i] + more, trailing), rest)
  {
    hide ParseInit;
    Front(Comma, start);
  }

  lemma {:induction false} MoreInitsParsed(inits: seq<Initializer>, trailing: bool, rest: seq<Token>)
    requires WFInits(inits)
    ensures ParseMoreInits(ShowMoreInits(inits, trailing) + ([RBrace] + rest)) == Ok((inits, trailing), [RBrace] + rest)
    ensures var t := At(ShowMoreInits(inits, trailing) + ([RBrace] + rest), 0); t == RBrace || t == Comma
    decreases inits, 1
  {
    hide ParseInits, ParseMoreInits, ParseInit, ShowInits, ShowMoreInits, ShowInit, WFInits, WFInit;
    if inits == [] {
      NoMoreInits(trailing, rest);
    } else {
      var i, more := inits[0], inits[1..];
      var mid := ShowMoreInits(more, trailing) + ([RBrace] + rest);
      assert inits == [i] + more;
      OneMoreInit(i, more, trailing);
      MoreInitsParsed(more, trailing, rest);
      OneInitParsed(i, mid);
      assert ShowMoreInits(inits, trailing) + ([RBrace] + rest) == [Comma] + (ShowInit(i) + mid);
      InitBegins(i, mid);
      Front(Comma, ShowInit(i) + mid);
      MoreInitsStep(ShowInit(i) + mid, i, mid, more, trailing, [RBrace] + rest);
    }
  }

  lemma {:induction false} OneInitParsed(i: Initializer, mid: seq<Token>)
    requires WFInit(i) && (At(mid, 0) == RBrace || At(mid, 0) == Comma)
    ensures ParseInit(ShowInit(i) + mid) == Ok(i, mid)
    decreases i
  {
    var v := i.value;
    var shown := if v.Value? then Show(v.e) else [Uninit];
    InitStep(i.name, v);
    assert i == Initializer(i.name, v);
    assert ShowInit(i) + mid == [Dot] + ([Identifier(i.name)] + ([Assign] + (shown + mid)));
    if v.Value? {
      InitValueParsed(v.e, mid);
    }
    hide ParseExpr, Show, WF, ShowInit, WFInit;
    InitTokens(i.name, v, mid, shown + mid);
  }

  lemma {:induction false} InitTokens(name: string, v: Value, mid: seq<Token>, start: seq<Token>)
    requires v.NoValue? ==> start == [Uninit] + mid
    requires v.Value? ==> At(start, 0) != Uninit && ParseExpr(LOWEST, start) == Ok(v.e, mid)
    ensures ParseInit([Dot] + ([Identifier(name)] + ([Assign] + start))) == Ok(Initializer(name, v), mid)
  {
    hide ParseExpr;
    Front(Dot, [Identifier(name)] + ([Assign] + start));
    Front(Identifier(name), [Assign] + start);
    Front(Assign, start);
    Front(Uninit, mid);
  }

  lemma {:induction false} InitValueParsed(e: Expr, mid: seq<Token>)
    requires WF(e, LOWEST) && (At(mid, 0) == RBrace || At(mid, 0) == Comma)
    ensures ParseExpr(LOWEST, Show(e) + mid) == Ok(e, mid) && At(Show(e) + mid, 0) != Uninit
    decreases e, 7
  {
    FirstToken(e, LOWEST);
    hide ParseExpr, Show, WF, Precedence, Detached;
    AtFront(Show(e), mid);
    Postfixes();
    ApartDetached(e, mid);
    ExprParsed(LOWEST, e, mid);
  }

  // ---------- Symbols ----------

  lemma {:induction false} SymbolParsed(s: Symbol, rest: seq<Token>)
    requires WFSymbol(s) && SymbolDetached(s, rest)
    ensures ParseSymbol(ShowSymbol(s) + rest) == Ok(s, rest)
    decreases s
  {
    match s.start
    case Plain =>
      var e, more := s.elements[0], s.elements[1..];
      assert s.elements == [e] + more;
      PathStep(e, more, true);
      var mid := ShowPath(more, false) + rest;
      assert ShowSymbol(s) + rest == ShowElement(e) + mid;
      PlainDetached(e, more, rest);
      PathParsed(more, rest);
      ElementParsed(e, mid);
      PlainSymbolStep(e, more, ShowElement(e) + mid, mid, rest);
    case Root =>
      assert ShowSymbol(s) + rest == ShowPath(s.elements, false) + rest;
      PathParsed(s.elements, rest);
      RootSymbolStep(s.elements, ShowSymbol(s) + rest, rest);
    case TypeofStart(e) =>
      var mid := ShowPath(s.elements, false) + rest;
      assert ShowSymbol(s) + rest == [Typeof, LParen] + Show(e) + [RParen] + mid;
      PathParsed(s.elements, rest);
      TypeofParsed(e, mid);
      TypeofSymbolStep(e, s.elements, ShowSymbol(s) + rest, mid, rest);
  }

  lemma {:induction false} PlainSymbolStep(e: Element, more: seq<Element>, toks: seq<Token>, mid: seq<Token>,
                                           rest: seq<Token>)
    requires toks == ShowElement(e) + mid && ParseElement(toks) == Ok(e, mid) && ParsePath(mid) == Ok(more, rest)
    ensures ParseSymbol(toks) == Ok(Symbol(Plain, [e] + more), rest)
  {
    assert At(toks, 0) == Identifier(e.name);
    hide ParseElement, ParsePath;
  }

  lemma {:induction false} RootSymbolStep(es: seq<Element>, toks: seq<Token>, rest: seq<Token>)
    requires es != [] && toks == ShowPath(es, false) + rest && ParsePath(toks) == Ok(es, rest)
    ensures ParseSymbol(toks) == Ok(Symbol(Root, es), rest)
  {
    assert At(toks, 0) == ColonColon;
    hide ParsePath;
  }

  lemma {:induction false} TypeofSymbolStep(e: Expr, es: seq<Element>, toks: seq<Token>, mid: seq<Token>,
                                            rest: seq<Token>)
    requires es != [] && At(toks, 0) == Typeof && ParseTypeof(toks) == Ok(e, mid) && ParsePath(mid) == Ok(es, rest)
    ensures ParseSymbol(toks) == Ok(Symbol(TypeofStart(e), es), rest)
  {
    hide ParsePath, ParseTypeof;
  }

  /** What follows an element of a path. */
  lemma {:induction false} PlainDetached(e: Element, more: seq<Element>, rest: seq<Token>)
    requires PathStops([e] + more, rest)
    ensures ElementDetached(e, ShowPath(more, false) + rest) && PathStops(more, rest)
  {
    LastElement(e, more);
    var mid := ShowPath(more, false) + rest;
    if more == [] {
      assert mid == rest;
    } else {
      assert At(mid, 0) == ColonColon;
    }
  }

  lemma {:induction false} PathParsed(es: seq<Element>, rest: seq<Token>)
    requires WFPath(es) && PathStops(es, rest)
    ensures ParsePath(ShowPath(es, false) + rest) == Ok(es, rest)
    decreases es
  {
    if es == [] {
      assert ShowPath(es, false) + rest == rest;
    } else {
      var e, more := es[0], es[1..];
      assert es == [e] + more;
      PathStep(e, more, false);
      var mid := ShowPath(more, false) + rest;
      assert ShowPath(es, false) + rest == [ColonColon] + (ShowElement(e) + mid);
      PlainDetached(e, more, rest);
      PathParsed(more, rest);
      ElementParsed(e, mid);
      PathParseStep(e, more, ShowElement(e) + mid, mid, rest);
    }
  }

  lemma {:induction false} PathParseStep(e: Element, more: seq<Element>, start: seq<Token>, mid: seq<Token>,
                                         rest: seq<Token>)
    requires ParseElement(start) == Ok(e, mid) && ParsePath(mid) == Ok(more, rest)
    ensures ParsePath([ColonColon] + start) == Ok([e] + more, rest)
  {
    hide ParseElement;
    Front(ColonColon, start);
  }

  lemma {:induction false} ElementParsed(e: Element, rest: seq<Token>)
    requires WFElement(e) && ElementDetached(e, rest)
    ensures ParseElement(ShowElement(e) + rest) == Ok(e, rest)
    decreases e
  {
    hide ParseElement, ParseTypes, ShowElement, ShowTypes, WFElement, WFTypes;
    var toks := ShowElement(e) + rest;
    ElementStep(e.name, e.arguments);
    assert e == Element(e.name, e.arguments);
    if e.arguments == [] {
      PlainElement(e.name, rest);
    } else {
      var last := [RBracket] + ([RBracket] + rest);
      var mid := ShowTypes(e.arguments, true) + last;
      assert toks == [Identifier(e.name)] + ([LBracket] + ([LBracket] + mid));
      Front(RBracket, [RBracket] + rest);
      TypesParsed(e.arguments, last);
      TemplateElement(e.name, e.arguments, rest, mid);
    }
  }

  lemma {:induction false} PlainElement(name: string, rest: seq<Token>)
    requires NoArguments(rest)
    ensures ParseElement([Identifier(name)] + rest) == Ok(Element(name, []), rest)
  {
    hide ParseTypes;
    Front(Identifier(name), rest);
  }

  lemma {:induction false} TemplateElement(name: string, args: seq<Type>, rest: seq<Token>, mid: seq<Token>)
    requires ParseTypes(mid) == Ok(args, [RBracket] + ([RBracket] + rest))
    ensures ParseElement([Identifier(name)] + ([LBracket] + ([LBracket] + mid))) == Ok(Element(name, args), rest)
  {
    hide ParseTypes;
    Front(Identifier(name), [LBracket] + ([LBracket] + mid));
    Front(LBracket, [LBracket] + mid);
    assert ([LBracket] + ([LBracket] + mid))[2..] == mid;
    Front(LBracket, mid);
    Front(RBracket, [RBracket] + rest);
    Front(RBracket, rest);
  }

  // ---------- Types ----------

  lemma {:induction false} TypesParsed(ts: seq<Type>, rest: seq<Token>)
    requires ts != [] && WFTypes(ts) && (At(rest, 0) == RBracket || At(rest, 0) == RParen)
    ensures ParseTypes(ShowTypes(ts, true) + rest) == Ok(ts, rest)
    decreases ts
  {
    hide ParseTypes, ParseType, ShowTypes, ShowType, WFTypes, WFType, TypeDetached;
    var t, more := ts[0], ts[1..];
    assert ts == [t] + more;
    TypesStep(t, more, true);
    if more == [] {
      assert ShowTypes(ts, true) + rest == ShowType(t) + rest;
      Closes(rest);
      ApartType(t, rest);
      TypeParsed(t, rest);
      LastType(t, ShowType(t) + rest, rest);
      assert ts == [t];
    } else {
      var mid := ShowTypes(more, true) + rest;
      assert ShowTypes(ts, true) + rest == ShowType(t) + ([Comma] + mid);
      TypesParsed(more, rest);
      TypeBefore(t, Comma, mid);
      MoreTypes(t, more, ShowType(t) + ([Comma] + mid), mid, rest);
    }
  }

  lemma {:induction false} Closes(rest: seq<Token>)
    requires var t := At(rest, 0); t == RBracket || t == RParen || t == RBrace || t == Comma
    ensures Apart(rest)
  {
  }

  lemma {:induction false} LastType(t: Type, toks: seq<Token>, rest: seq<Token>)
    requires ParseType(toks) == Ok(t, rest) && At(rest, 0) != Comma
    ensures ParseTypes(toks) == Ok([t], rest)
  {
    hide ParseType;
  }

  lemma {:induction false} MoreTypes(t: Type, more: seq<Type>, toks: seq<Token>, mid: seq<Token>, rest: seq<Token>)
    requires ParseType(toks) == Ok(t, [Comma] + mid) && ParseTypes(mid) == Ok(more, rest)
    ensures ParseTypes(toks) == Ok([t] + more, rest)
  {
    hide ParseType;
    Front(Comma, mid);
  }

  lemma {:induction false} TypeParsed(t: Type, rest: seq<Token>)
    requires WFType(t) && TypeDetached(t, rest)
    ensures ParseType(ShowType(t) + rest) == Ok(t, rest)
    decreases t, 1
  {
    hide ParseType;
    match t
    case SymbolType(s) =>
      FirstOfSymbol(s);
      AtFront(ShowSymbol(s), rest);
      SymbolParsed(s, rest);
      SymbolTypeStep(s, ShowSymbol(s) + rest, rest);
    case FunctionType(ps, r) =>
      FunctionParsed(ps, r, rest);
    case PointerType(b) =>
      TypeParsed(b, rest);
      assert ShowType(t) + rest == [Star] + (ShowType(b) + rest);
      PointerStep(b, ShowType(b) + rest, rest);
    case ArrayType(count, b) =>
      ArrayParsed(count, b, rest);
    case SliceType(b) =>
      TypeParsed(b, rest);
      assert ShowType(t) + rest == [LBracket] + ([RBracket] + (ShowType(b) + rest));
      SliceTypeStep(b, ShowType(b) + rest, rest);
    case TypeofType(e) =>
      TypeofParsed(e, rest);
      assert ShowType(t) + rest == [Typeof, LParen] + Show(e) + [RParen] + rest;
      TypeofTypeStep(e, ShowType(t) + rest, rest);
  }

  lemma {:induction false} SymbolTypeStep(s: Symbol, toks: seq<Token>, rest: seq<Token>)
    requires toks != [] && (toks[0].Identifier? || toks[0] == ColonColon) && ParseSymbol(toks) == Ok(s, rest)
    ensures ParseType(toks) == Ok(SymbolType(s), rest)
  {
    hide ParseSymbol;
  }

  lemma {:induction false} PointerStep(b: Type, mid: seq<Token>, rest: seq<Token>)
    requires ParseType(mid) == Ok(b, rest)
    ensures ParseType([Star] + mid) == Ok(PointerType(b), rest)
  {
    Front(Star, mid);
  }

  lemma {:induction false} SliceTypeStep(b: Type, mid: seq<Token>, rest: seq<Token>)
    requires ParseType(mid) == Ok(b, rest)
    ensures ParseType([LBracket] + ([RBracket] + mid)) == Ok(SliceType(b), rest)
  {
    var toks := [LBracket] + ([RBracket] + mid);
    Front(LBracket, [RBracket] + mid);
    Front(RBracket, mid);
    assert toks[2..] == mid;
  }

  lemma {:induction false} ArrayStep(count: Expr, b: Type, start: seq<Token>, mid: seq<Token>, rest: seq<Token>)
    requires At(start, 0) != RBracket && ParseExpr(LOWEST, start) == Ok(count, [RBracket] + mid) &&
             ParseType(mid) == Ok(b, rest)
    ensures ParseType([LBracket] + start) == Ok(ArrayType(count, b), rest)
  {
    hide ParseExpr;
    Front(LBracket, start);
    Front(RBracket, mid);
  }

  lemma {:induction false} FunctionStep(ps: seq<Type>, r: Type, start: seq<Token>, mid: seq<Token>, rest: seq<Token>)
    requires if ps == [] then start == [RParen] + mid
             else At(start, 0) != RParen && ParseTypes(start) == Ok(ps, [RParen] + mid)
    requires ParseType(mid) == Ok(r, rest)
    ensures ParseType([Func] + ([LParen] + start)) == Ok(FunctionType(ps, r), rest)
  {
    hide ParseTypes;
    Front(Func, [LParen] + start);
    Front(LParen, start);
    Front(RParen, mid);
  }

  lemma {:induction false} TypeofTypeStep(e: Expr, toks: seq<Token>, rest: seq<Token>)
    requires At(toks, 0) == Typeof && ParseTypeof(toks) == Ok(e, rest)
    ensures ParseType(toks) == Ok(TypeofType(e), rest)
  {
    hide ParseTypeof;
  }

  lemma {:induction false} ArrayParsed(count: Expr, b: Type, rest: seq<Token>)
    requires WF(count, LOWEST) && WFType(b) && TypeDetached(b, rest)
    ensures ParseType(ShowType(ArrayType(count, b)) + rest) == Ok(ArrayType(count, b), rest)
    decreases ArrayType(count, b), 0
  {
    var mid := ShowType(b) + rest;
    var start := Show(count) + ([RBracket] + mid);
    assert ShowType(ArrayType(count, b)) + rest == [LBracket] + start;
    FirstToken(count, LOWEST);
    hide ParseExpr, ParseType, Show, ShowType, WF, WFType, TypeDetached, Precedence;
    AtFront(Show(count), [RBracket] + mid);
    Postfixes();
    ClosedParsed(LOWEST, count, RBracket, mid);
    TypeParsed(b, rest);
    ArrayStep(count, b, start, mid, rest);
  }

  lemma {:induction false} TypesBegin(ts: seq<Type>)
    requires WFTypes(ts)
    ensures if ts == [] then ShowTypes(ts, true) == [] else ShowTypes(ts, true) != [] && BeginsType(ShowTypes(ts, true)[0])
  {
    if ts != [] {
      FirstOfType(ts[0]);
      hide ShowType, WFType, BeginsType;
      assert ShowTypes(ts, true)[0] == ShowType(ts[0])[0];
    }
  }

  lemma {:induction false} ShowFunction(ps: seq<Type>, r: Type, mid: seq<Token>, rest: seq<Token>)
    requires mid == ShowType(r) + rest
    ensures ShowType(FunctionType(ps, r)) + rest == [Func] + ([LParen] + (ShowTypes(ps, true) + ([RParen] + mid)))
  {
    hide ShowTypes;
    assert ShowType(FunctionType(ps, r)) == [Func, LParen] + ShowTypes(ps, true) + [RParen] + ShowType(r);
  }

  lemma {:induction false} FunctionParsed(ps: seq<Type>, r: Type, rest: seq<Token>)
    requires WFTypes(ps) && WFType(r) && TypeDetached(r, rest)
    ensures ParseType(ShowType(FunctionType(ps, r)) + rest) == Ok(FunctionType(ps, r), rest)
    decreases FunctionType(ps, r), 0
  {
    var mid := ShowType(r) + rest;
    var start := ShowTypes(ps, true) + ([RParen] + mid);
    ShowFunction(ps, r, mid, rest);
    hide ParseTypes, ParseType, ShowTypes, ShowType, WFTypes, WFType, TypeDetached;
    Front(RParen, mid);
    TypesBegin(ps);
    if ps == [] {
      assert start == [RParen] + mid;
    } else {
      AtFront(ShowTypes(ps, true), [RParen] + mid);
      TypesParsed(ps, [RParen] + mid);
    }
    TypeParsed(r, rest);
    FunctionStep(ps, r, start, mid, rest);
  }

  lemma {:induction false} TypeofParsed(e: Expr, rest: seq<Token>)
    requires WF(e, LOWEST)
    ensures ParseTypeof([Typeof, LParen] + Show(e) + [RParen] + rest) == Ok(e, rest)
    decreases e, 7
  {
    var start := Show(e) + ([RParen] + rest);
    hide ParseTypeof, ParseExpr, Show, WF, Precedence, Expect;
    assert [Typeof, LParen] + Show(e) + [RParen] + rest == [Typeof] + ([LParen] + start);
    Postfixes();
    ClosedParsed(LOWEST, e, RParen, rest);
    Front(Typeof, [LParen] + start);
    Front(LParen, start);
    Front(RParen, rest);
    TypeofStep(e, [Typeof] + ([LParen] + start), [LParen] + start, start, [RParen] + rest, rest);
  }

  lemma {:induction false} TypeofStep(e: Expr, toks: seq<Token>, open: seq<Token>, start: seq<Token>,
                                      close: seq<Token>, rest: seq<Token>)
    requires Expect(toks, Typeof) == Ok((), open) && Expect(open, LParen) == Ok((), start)
    requires ParseExpr(LOWEST, start) == Ok(e, close) && Expect(close, RParen) == Ok((), rest)
    ensures ParseTypeof(toks) == Ok(e, rest)
  {
    hide ParseExpr, Expect;
  }

  // ---------- The parser and the printer undo each other ----------

  /** The parser returns a tree and leaves some tokens exactly when the tokens before those are the tree's own,
      its operators nest by precedence, and what is left does not continue it. */
  lemma {:induction false} ParseExactly(p: nat, toks: seq<Token>, e: Expr, rest: seq<Token>)
    requires p <= PREFIX
    ensures ParseExpr(p, toks) == Ok(e, rest) <==> IsParse(p, toks, e, rest)
  {
    ExprSound(p, toks);
    if IsParse(p, toks, e, rest) {
      ExprParsed(p, e, rest);
    }
  }

  /** So no tokens are those of two trees. */
  lemma {:induction false} ParseIsUnique(p: nat, toks: seq<Token>, e: Expr, rest: seq<Token>, e': Expr,
                                         rest': seq<Token>)
    requires p <= PREFIX && IsParse(p, toks, e, rest) && IsParse(p, toks, e', rest')
    ensures e == e' && rest == rest'
  {
    ParseExactly(p, toks, e, rest);
    ParseExactly(p, toks, e', rest');
  }

  /** Binary operators are left associative: `a op b op' c`, with operators of one precedence between operands
      that hold none, is `(a op b) op' c`. */
  lemma {:induction false} LeftAssociative(p: nat, a: Expr, op: Token, b: Expr, op': Token, c: Expr, rest: seq<Token>)
    requires IsBinary(op) && IsBinary(op') && p < Precedence(op) == Precedence(op')
    requires WF(a, p) && Precedence(op) <= Edge(a) && WF(b, Precedence(op)) && WF(c, Precedence(op'))
    requires Precedence(At(rest, 0)) <= p && Detached(c, rest)
    ensures ParseExpr(p, Show(a) + [op] + Show(b) + [op'] + Show(c) + rest) ==
            Ok(Binary(op', Binary(op, a, b), c), rest)
  {
    var e := Binary(op', Binary(op, a, b), c);
    NestsLeft(p, a, op, b, op', c, rest);
    hide ParseExpr, Show, WF, Detached, Precedence, Edge;
    ExprParsed(p, e, rest);
  }

  lemma {:induction false} NestsLeft(p: nat, a: Expr, op: Token, b: Expr, op': Token, c: Expr, rest: seq<Token>)
    requires IsBinary(op) && IsBinary(op') && p < Precedence(op) == Precedence(op')
    requires WF(a, p) && Precedence(op) <= Edge(a) && WF(b, Precedence(op)) && WF(c, Precedence(op')) &&
             Detached(c, rest)
    ensures var e := Binary(op', Binary(op, a, b), c);
            p <= PREFIX && WF(e, p) && Detached(e, rest) && Show(e) == Show(a) + [op] + Show(b) + [op'] + Show(c)
  {
    NestedWF(p, a, op, b);
    NestedWF(p, Binary(op, a, b), op', c);
    assert Edge(Binary(op, a, b)) == Precedence(op);
    hide Precedence, WF, Edge;
    assert Show(Binary(op, a, b)) == Show(a) + [op] + Show(b);
  }

  lemma {:induction false} NestedWF(p: nat, l: Expr, op: Token, r: Expr)
    requires IsBinary(op) && p < Precedence(op) <= Edge(l) && WF(l, p) && WF(r, Precedence(op))
    ensures WF(Binary(op, l, r), p)
  {
    hide Precedence, Edge;
  }
}
