// The expression parser: a prefix parse function, and then operators as long as they bind tighter
// than the precedence that the caller asks for.

module Pratt {
  import opened Syntax

  datatype Got<+T> = Got(v: T, rest: seq<Token>)

  datatype Parsed<+T> = Ok(v: T, rest: seq<Token>) | Err {
    predicate IsFailure() {
      Err?
    }

    function PropagateFailure<U>(): Parsed<U>
      requires Err?
    {
      Err
    }

    function Extract(): Got<T>
      requires Ok?
    {
      Got(v, rest)
    }
  }

  /** The current token, the one after it, and so on; past the end of the input comes the end token. */
  function At(toks: seq<Token>, k: nat): Token {
    if k < |toks| then toks[k] else Eof
  }

  function Expect(toks: seq<Token>, t: Token): (r: Parsed<()>)
    ensures r.Ok? ==> |r.rest| < |toks|
  {
    if toks != [] && toks[0] == t then Ok((), toks[1..]) else Err
  }

  function ParseIdentifier(toks: seq<Token>): (r: Parsed<string>)
    ensures r.Ok? ==> |r.rest| < |toks|
  {
    if toks != [] && toks[0].Identifier? then Ok(toks[0].name, toks[1..]) else Err
  }

  function ParseExpr(p: nat, toks: seq<Token>): (r: Parsed<Expr>)
    ensures r.Ok? ==> |r.rest| < |toks|
    decreases |toks|, 9
  {
    var nud :- ParseNud(toks);
    ParseLoop(p, nud.v, nud.rest)
  }

  function ParseLoop(p: nat, lhs: Expr, toks: seq<Token>): (r: Parsed<Expr>)
    ensures r.Ok? ==> |r.rest| <= |toks|
    decreases |toks|, 1
  {
    if Precedence(At(toks, 0)) <= p then Ok(lhs, toks)
    else
      var led :- ParseLed(lhs, toks);
      ParseLoop(p, led.v, led.rest)
  }

  function ParseNud(toks: seq<Token>): (r: Parsed<Expr>)
    ensures r.Ok? ==> |r.rest| < |toks|
    decreases |toks|, 8
  {
    if toks == [] then Err
    else
      var t := toks[0];
      if t.Identifier? || t.Typeof? || t.ColonColon? then
        var s :- ParseSymbol(toks);
        Ok(SymbolExpr(s.v), s.rest)
      else if t.Literal? || t.Bytes? then Ok(LiteralExpr(t), toks[1..])
      else if t.LParen? then ParseParen(toks)
      else if t.Defined? then
        var open :- Expect(toks[1..], LParen);
        var s :- ParseSymbol(open.rest);
        var close :- Expect(s.rest, RParen);
        Ok(DefinedExpr(s.v), close.rest)
      else if t.Sizeof? || t.Alignof? then
        var open :- Expect(toks[1..], LParen);
        var ty :- ParseType(open.rest);
        var close :- Expect(ty.rest, RParen);
        Ok(if t.Sizeof? then SizeofExpr(ty.v) else AlignofExpr(ty.v), close.rest)
      else if t.Fileof? || t.Lineof? then
        var open :- Expect(toks[1..], LParen);
        var close :- Expect(open.rest, RParen);
        Ok(if t.Fileof? then FileofExpr else LineofExpr, close.rest)
      else if t.Embed? then
        var open :- Expect(toks[1..], LParen);
        if open.rest == [] || !open.rest[0].Bytes? then Err
        else
          var close :- Expect(open.rest[1..], RParen);
          Ok(EmbedExpr(open.rest[0].text), close.rest)
      else if IsUnary(t) then ParseUnary(toks)
      else Err
  }

  function ParseUnary(toks: seq<Token>): (r: Parsed<Expr>)
    requires toks != []
    ensures r.Ok? ==> |r.rest| < |toks|
    decreases |toks|, 0
  {
    if IsParenthesized(toks[0]) then
      var open :- Expect(toks[1..], LParen);
      var e :- ParseExpr(PREFIX, open.rest);
      var close :- Expect(e.rest, RParen);
      Ok(Unary(toks[0], e.v), close.rest)
    else
      var e :- ParseExpr(PREFIX, toks[1..]);
      Ok(Unary(toks[0], e.v), e.rest)
  }

  /** A grouped expression, or what follows a type: a list, an initializer list, a slice or a cast. */
  function ParseParen(toks: seq<Token>): (r: Parsed<Expr>)
    requires toks != []
    ensures r.Ok? ==> |r.rest| < |toks|
    decreases |toks|, 0
  {
    if At(toks, 1) != Colon then
      var e :- ParseExpr(LOWEST, toks[1..]);
      var close :- Expect(e.rest, RParen);
      Ok(Grouped(e.v), close.rest)
    else
      var ty :- ParseType(toks[2..]);
      var close :- Expect(ty.rest, RParen);
      ParseTyped(ty.v, close.rest)
  }

  function ParseTyped(ty: Type, toks: seq<Token>): (r: Parsed<Expr>)
    ensures r.Ok? ==> |r.rest| < |toks|
    decreases |toks|, 10
  {
    if At(toks, 0) == LBracket then
      var items :- ParseItems(RBracket, true, true, toks[1..]);
      var close :- Expect(items.rest, RBracket);
      Ok(List(ty, items.v), close.rest)
    else if At(toks, 0) == LBrace then
      if At(toks, 1) == RBrace || At(toks, 1) == Dot then
        var inits :- ParseInits(toks[1..]);
        var close :- Expect(inits.rest, RBrace);
        Ok(Init(ty, inits.v.0, inits.v.1), close.rest)
      else
        var pointer :- ParseExpr(LOWEST, toks[1..]);
        var comma :- Expect(pointer.rest, Comma);
        var count :- ParseExpr(LOWEST, comma.rest);
        var close :- Expect(count.rest, RBrace);
        Ok(SliceOf(ty, pointer.v, count.v), close.rest)
    else
      var e :- ParseExpr(PREFIX, toks);
      Ok(Cast(ty, e.v), e.rest)
  }

  /** The elements of a call or of a list, up to the closing token. */
  function ParseItems(close: Token, list: bool, first: bool, toks: seq<Token>): (r: Parsed<Items>)
    ensures r.Ok? ==> |r.rest| <= |toks|
    decreases |toks|, 10
  {
    if At(toks, 0) == close then Ok(Items([], NoTail), toks)
    else
      var comma :- if first then Ok((), toks) else Expect(toks, Comma);
      if !first && At(comma.rest, 0) == close then Ok(Items([], TrailingComma), comma.rest)
      else
        var e :- ParseExpr(LOWEST, comma.rest);
        if list && At(e.rest, 0) == Ellipsis then Ok(Items([], EllipsisTail(e.v)), e.rest[1..])
        else
          var more :- ParseItems(close, list, false, e.rest);
          Ok(Items([e.v] + more.v.elements, more.v.tail), more.rest)
  }

  function ParseInits(toks: seq<Token>): (r: Parsed<(seq<Initializer>, bool)>)
    ensures r.Ok? ==> |r.rest| <= |toks|
    decreases |toks|, 12
  {
    if At(toks, 0) != Dot then Ok(([], false), toks)
    else
      var i :- ParseInit(toks);
      var more :- ParseMoreInits(i.rest);
      Ok(([i.v] + more.v.0, more.v.1), more.rest)
  }

  function ParseMoreInits(toks: seq<Token>): (r: Parsed<(seq<Initializer>, bool)>)
    ensures r.Ok? ==> |r.rest| <= |toks|
    decreases |toks|, 12
  {
    if At(toks, 0) != Comma then Ok(([], false), toks)
    else if At(toks, 1) == RBrace then Ok(([], true), toks[1..])
    else
      var i :- ParseInit(toks[1..]);
      var more :- ParseMoreInits(i.rest);
      Ok(([i.v] + more.v.0, more.v.1), more.rest)
  }

  function ParseInit(toks: seq<Token>): (r: Parsed<Initializer>)
    ensures r.Ok? ==> |r.rest| < |toks|
    decreases |toks|, 11
  {
    var dot :- Expect(toks, Dot);
    var name :- ParseIdentifier(dot.rest);
    var assign :- Expect(name.rest, Assign);
    if At(assign.rest, 0) == Uninit then Ok(Initializer(name.v, NoValue), assign.rest[1..])
    else
      var e :- ParseExpr(LOWEST, assign.rest);
      Ok(Initializer(name.v, Value(e.v)), e.rest)
  }

  /** One operator after an expression. */
  function ParseLed(lhs: Expr, toks: seq<Token>): (r: Parsed<Expr>)
    ensures r.Ok? ==> |r.rest| < |toks|
    decreases |toks|, 0
  {
    if toks == [] then Err
    else
      var t := toks[0];
      if t.LParen? then
        var items :- ParseItems(RParen, false, true, toks[1..]);
        var close :- Expect(items.rest, RParen);
        Ok(Call(lhs, items.v), close.rest)
      else if t.LBracket? then
        var index :- ParseExpr(LOWEST, toks[1..]);
        if At(index.rest, 0) == Colon then
          var end :- ParseExpr(LOWEST, index.rest[1..]);
          var close :- Expect(end.rest, RBracket);
          Ok(Slicing(lhs, index.v, end.v), close.rest)
        else
          var close :- Expect(index.rest, RBracket);
          Ok(Index(lhs, index.v), close.rest)
      else if t.DotStar? then Ok(Dereference(lhs), toks[1..])
      else if t.Dot? then
        var m :- ParseElement(toks[1..]);
        Ok(Member(lhs, m.v), m.rest)
      else if IsBinary(t) then
        var rhs :- ParseExpr(Precedence(t), toks[1..]);
        Ok(Binary(t, lhs, rhs.v), rhs.rest)
      else Err
  }

  function ParseSymbol(toks: seq<Token>): (r: Parsed<Symbol>)
    ensures r.Ok? ==> |r.rest| < |toks|
    decreases |toks|, 6
  {
    if At(toks, 0) == ColonColon then
      var path :- ParsePath(toks);
      if path.v == [] then Err else Ok(Symbol(Root, path.v), path.rest)
    else if At(toks, 0) == Typeof then
      var e :- ParseTypeof(toks);
      var path :- ParsePath(e.rest);
      if path.v == [] then Err else Ok(Symbol(TypeofStart(e.v), path.v), path.rest)
    else
      var first :- ParseElement(toks);
      var path :- ParsePath(first.rest);
      Ok(Symbol(Plain, [first.v] + path.v), path.rest)
  }

  function ParsePath(toks: seq<Token>): (r: Parsed<seq<Element>>)
    ensures r.Ok? ==> |r.rest| <= |toks| && (r.v != [] ==> |r.rest| < |toks|)
    decreases |toks|, 5
  {
    if At(toks, 0) != ColonColon then Ok([], toks)
    else
      var e :- ParseElement(toks[1..]);
      var more :- ParsePath(e.rest);
      Ok([e.v] + more.v, more.rest)
  }

  /** Two opening brackets after a name begin template arguments. */
  function ParseElement(toks: seq<Token>): (r: Parsed<Element>)
    ensures r.Ok? ==> |r.rest| < |toks|
    decreases |toks|, 4
  {
    var name :- ParseIdentifier(toks);
    if At(name.rest, 0) == LBracket && At(name.rest, 1) == LBracket then
      var args :- ParseTypes(name.rest[2..]);
      var close1 :- Expect(args.rest, RBracket);
      var close2 :- Expect(close1.rest, RBracket);
      Ok(Element(name.v, args.v), close2.rest)
    else Ok(Element(name.v, []), name.rest)
  }

  function ParseTypes(toks: seq<Token>): (r: Parsed<seq<Type>>)
    ensures r.Ok? ==> |r.rest| < |toks| && r.v != []
    decreases |toks|, 8
  {
    var t :- ParseType(toks);
    if At(t.rest, 0) == Comma then
      var more :- ParseTypes(t.rest[1..]);
      Ok([t.v] + more.v, more.rest)
    else Ok([t.v], t.rest)
  }

  function ParseType(toks: seq<Token>): (r: Parsed<Type>)
    ensures r.Ok? ==> |r.rest| < |toks|
    decreases |toks|, 7
  {
    if toks == [] then Err
    else
      var t := toks[0];
      if t.Identifier? || t.ColonColon? then
        var s :- ParseSymbol(toks);
        Ok(SymbolType(s.v), s.rest)
      else if t.Func? then
        var open :- Expect(toks[1..], LParen);
        var params :- if At(open.rest, 0) == RParen then Ok([], open.rest) else ParseTypes(open.rest);
        var close :- Expect(params.rest, RParen);
        var ret :- ParseType(close.rest);
        Ok(FunctionType(params.v, ret.v), ret.rest)
      else if t.Star? then
        var base :- ParseType(toks[1..]);
        Ok(PointerType(base.v), base.rest)
      else if t.LBracket? then
        if At(toks, 1) == RBracket then
          var base :- ParseType(toks[2..]);
          Ok(SliceType(base.v), base.rest)
        else
          var count :- ParseExpr(LOWEST, toks[1..]);
          var close :- Expect(count.rest, RBracket);
          var base :- ParseType(close.rest);
          Ok(ArrayType(count.v, base.v), base.rest)
      else if t.Typeof? then
        var e :- ParseTypeof(toks);
        Ok(TypeofType(e.v), e.rest)
      else Err
  }

  function ParseTypeof(toks: seq<Token>): (r: Parsed<Expr>)
    ensures r.Ok? ==> |r.rest| < |toks|
    decreases |toks|, 0
  {
    var word :- Expect(toks, Typeof);
    var open :- Expect(word.rest, LParen);
    var e :- ParseExpr(LOWEST, open.rest);
    var close :- Expect(e.rest, RParen);
    Ok(e.v, close.rest)
  }
}
