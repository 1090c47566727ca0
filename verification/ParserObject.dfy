// The parser as the object it is: two tokens of lookahead that every method advances in place, and
// loops where the grammar repeats.

module ParserObject {
  import opened Wrappers
  import opened Syntax
  import opened Pratt

  /** A method's result is the parse function's, and so are the tokens that it leaves. */
  ghost predicate Same<T(!new)>(r: Result<T>, parsed: Parsed<T>, rest: seq<Token>) {
    r.Ok? == parsed.Ok? && (r.Ok? ==> r.value == parsed.v && rest == parsed.rest)
  }

  // ---------- What is left for a loop to do ----------

  function WithItems(es: seq<Expr>, r: Parsed<Items>): Parsed<Items> {
    if r.Ok? then Parsed.Ok(Items(es + r.v.elements, r.v.tail), r.rest) else Err
  }

  function WithInits(is_: seq<Initializer>, r: Parsed<(seq<Initializer>, bool)>): Parsed<(seq<Initializer>, bool)> {
    if r.Ok? then Parsed.Ok((is_ + r.v.0, r.v.1), r.rest) else Err
  }

  function WithAll<T>(xs: seq<T>, r: Parsed<seq<T>>): Parsed<seq<T>> {
    if r.Ok? then Parsed.Ok(xs + r.v, r.rest) else Err
  }

  lemma {:induction false} WithNone(items: Parsed<Items>)
    ensures WithItems([], items) == items
  {
    assert items.Ok? ==> [] + items.v.elements == items.v.elements;
  }

  lemma {:induction false} WithItemsStep(es: seq<Expr>, e: Expr, more: Parsed<Items>)
    requires more.Ok?
    ensures WithItems(es, Parsed.Ok(Items([e] + more.v.elements, more.v.tail), more.rest)) == WithItems(es + [e], more)
  {
    assert es + ([e] + more.v.elements) == es + [e] + more.v.elements;
  }

  /** The separator before an element that is not the first one. */
  lemma {:induction false} ItemsComma(close: Token, list: bool, es: seq<Expr>, toks: seq<Token>)
    requires At(toks, 0) != close
    ensures var comma := Expect(toks, Comma);
            var r := WithItems(es, ParseItems(close, list, false, toks));
            if comma.Err? then r.Err? else At(comma.rest, 0) == close ==> r == Parsed.Ok(Items(es, TrailingComma), comma.rest)
  {
    hide ParseExpr, Expect;
    assert es + [] == es;
  }

  lemma {:induction false} ItemsEnd(close: Token, list: bool, es: seq<Expr>, toks: seq<Token>)
    requires At(toks, 0) == close
    ensures WithItems(es, ParseItems(close, list, es == [], toks)) == Parsed.Ok(Items(es, NoTail), toks)
  {
    assert es + [] == es;
  }

  /** `start` is where the next element begins. */
  ghost predicate AtElement(close: Token, es: seq<Expr>, toks: seq<Token>, start: seq<Token>) {
    At(toks, 0) != close &&
    if es == [] then start == toks else Expect(toks, Comma) == Parsed.Ok((), start) && At(start, 0) != close
  }

  lemma {:induction false} OneItem(close: Token, list: bool, first: bool, toks: seq<Token>, start: seq<Token>)
    requires At(toks, 0) != close
    requires if first then start == toks else Expect(toks, Comma) == Parsed.Ok((), start) && At(start, 0) != close
    ensures ParseItems(close, list, first, toks) ==
              var e :- ParseExpr(LOWEST, start);
              if list && At(e.rest, 0) == Ellipsis then Parsed.Ok(Items([], EllipsisTail(e.v)), e.rest[1..])
              else
                var more :- ParseItems(close, list, false, e.rest);
                Parsed.Ok(Items([e.v] + more.v.elements, more.v.tail), more.rest)
  {
    hide ParseExpr, Expect;
  }

  lemma {:induction false} ItemsStep(close: Token, list: bool, es: seq<Expr>, toks: seq<Token>, start: seq<Token>)
    requires AtElement(close, es, toks, start)
    ensures var e := ParseExpr(LOWEST, start);
            var r := WithItems(es, ParseItems(close, list, es == [], toks));
            if e.Err? then r.Err?
            else if list && At(e.rest, 0) == Ellipsis then r == Parsed.Ok(Items(es, EllipsisTail(e.v)), e.rest[1..])
            else r == WithItems(es + [e.v], ParseItems(close, list, false, e.rest))
  {
    hide ParseExpr, ParseItems, Expect;
    OneItem(close, list, es == [], toks, start);
    var e := ParseExpr(LOWEST, start);
    assert es + [] == es;
    if e.Ok? && !(list && At(e.rest, 0) == Ellipsis) {
      var more := ParseItems(close, list, false, e.rest);
      if more.Ok? {
        WithItemsStep(es, e.v, more);
      }
    }
  }

  lemma {:induction false} MoreInitsStep(inits: seq<Initializer>, toks: seq<Token>)
    requires toks != [] && toks[0] == Comma && At(toks, 1) != RBrace
    ensures var i := ParseInit(toks[1..]);
            var r := WithInits(inits, ParseMoreInits(toks));
            if i.Err? then r.Err? else r == WithInits(inits + [i.v], ParseMoreInits(i.rest))
  {
    hide ParseInit;
    var i := ParseInit(toks[1..]);
    if i.Ok? {
      var more := ParseMoreInits(i.rest);
      if more.Ok? {
        assert inits + ([i.v] + more.v.0) == inits + [i.v] + more.v.0;
      }
    }
  }

  lemma {:induction false} MoreInitsEnd(inits: seq<Initializer>, toks: seq<Token>)
    requires At(toks, 0) != Comma || At(toks, 1) == RBrace
    ensures WithInits(inits, ParseMoreInits(toks)) ==
              if At(toks, 0) != Comma then Parsed.Ok((inits, false), toks) else Parsed.Ok((inits, true), toks[1..])
  {
    assert inits + [] == inits;
  }

  lemma {:induction false} FirstInit(toks: seq<Token>)
    requires At(toks, 0) == Dot
    ensures var i := ParseInit(toks);
            if i.Err? then ParseInits(toks).Err? else ParseInits(toks) == WithInits([i.v], ParseMoreInits(i.rest))
  {
    hide ParseInit;
  }

  lemma {:induction false} PathEnd(es: seq<Element>, toks: seq<Token>)
    requires At(toks, 0) != ColonColon
    ensures WithAll(es, ParsePath(toks)) == Parsed.Ok(es, toks)
  {
    assert es + [] == es;
  }

  lemma {:induction false} PathBegin(toks: seq<Token>)
    ensures WithAll([], ParsePath(toks)) == ParsePath(toks)
  {
    hide ParsePath;
    var r := ParsePath(toks);
    assert r.Ok? ==> [] + r.v == r.v;
  }

  lemma {:induction false} PathStep(es: seq<Element>, toks: seq<Token>)
    requires toks != [] && toks[0] == ColonColon
    ensures var e := ParseElement(toks[1..]);
            var r := WithAll(es, ParsePath(toks));
            if e.Err? then r.Err? else r == WithAll(es + [e.v], ParsePath(e.rest))
  {
    hide ParseElement;
    var e := ParseElement(toks[1..]);
    if e.Ok? {
      var more := ParsePath(e.rest);
      if more.Ok? {
        assert es + ([e.v] + more.v) == es + [e.v] + more.v;
      }
    }
  }

  /** The types after the first one of a list, each after a comma. */
  function ParseMoreTypes(toks: seq<Token>): (r: Parsed<seq<Type>>)
    ensures r.Ok? ==> |r.rest| <= |toks|
  {
    if At(toks, 0) != Comma then Parsed.Ok([], toks) else ParseTypes(toks[1..])
  }

  lemma {:induction false} TypesStep(toks: seq<Token>)
    ensures var t := ParseType(toks);
            if t.Err? then ParseTypes(toks).Err? else ParseTypes(toks) == WithAll([t.v], ParseMoreTypes(t.rest))
  {
    hide ParseType;
    var t := ParseType(toks);
    if t.Ok? {
      assert [t.v] + [] == [t.v];
    }
  }

  lemma {:induction false} MoreTypesStep(ts: seq<Type>, toks: seq<Token>)
    requires toks != [] && toks[0] == Comma
    ensures var t := ParseType(toks[1..]);
            var r := WithAll(ts, ParseMoreTypes(toks));
            if t.Err? then r.Err? else r == WithAll(ts + [t.v], ParseMoreTypes(t.rest))
  {
    TypesStep(toks[1..]);
    hide ParseType, ParseTypes;
    var t := ParseType(toks[1..]);
    if t.Ok? {
      var more := ParseMoreTypes(t.rest);
      if more.Ok? {
        assert ts + ([t.v] + more.v) == ts + [t.v] + more.v;
      }
    }
  }

  lemma {:induction false} MoreTypesEnd(ts: seq<Type>, toks: seq<Token>)
    requires At(toks, 0) != Comma
    ensures WithAll(ts, ParseMoreTypes(toks)) == Parsed.Ok(ts, toks)
  {
    assert ts + [] == ts;
  }

  class Parser {
    var current: Token
    var peek: Token
    var upcoming: seq<Token>   // what the lexer has yet to return
    ghost var rest: seq<Token>

    ghost predicate Valid()
      reads this
    {
      current == At(rest, 0) && peek == At(rest, 1) && upcoming == if |rest| <= 2 then [] else rest[2..]
    }

    constructor (toks: seq<Token>)
      ensures Valid() && rest == toks
    {
      rest := toks;
      current, peek := At(toks, 0), At(toks, 1);
      upcoming := if |toks| <= 2 then [] else toks[2..];
    }

    method Advance() returns (t: Token)
      requires Valid()
      modifies this
      ensures Valid() && t == old(current) && rest == if old(rest) == [] then [] else old(rest)[1..]
    {
      t := current;
      current := peek;
      peek := At(upcoming, 0);
      upcoming := if upcoming == [] then [] else upcoming[1..];
      rest := if rest == [] then [] else rest[1..];
    }

    method ExpectCurrent(t: Token) returns (r: Result<()>)
      requires Valid() && t != Eof
      modifies this
      ensures Valid() && Same(r, Expect(old(rest), t), rest)
    {
      if current != t {
        return Fatal("expected another token");
      }
      var _ := Advance();
      r := Result.Ok(());
    }

    method ReadIdentifier() returns (r: Result<string>)
      requires Valid()
      modifies this
      ensures Valid() && Same(r, ParseIdentifier(old(rest)), rest)
    {
      if !current.Identifier? {
        return Fatal("expected an identifier");
      }
      var t := Advance();
      r := Result.Ok(t.name);
    }

    method ReadExprPrecedence(p: nat) returns (r: Result<Expr>)
      requires Valid()
      modifies this
      ensures Valid() && Same(r, ParseExpr(p, old(rest)), rest)
      decreases |rest|, 9
    {
      hide ParseNud, ParseLed, Precedence;
      var expr :- ReadNud();
      assert ParseExpr(p, old(rest)) == ParseLoop(p, expr, rest);
      while p < Precedence(current)
        invariant Valid() && |rest| < old(|rest|)
        invariant ParseExpr(p, old(rest)) == ParseLoop(p, expr, rest)
        decreases |rest|
      {
        expr :- ReadLed(expr);
      }
      r := Result.Ok(expr);
    }

    method ReadNud() returns (r: Result<Expr>)
      requires Valid()
      modifies this
      ensures Valid() && Same(r, ParseNud(old(rest)), rest)
      decreases |rest|, 8
    {
      hide ParseSymbol, ParseParen, ParseUnary, ParseType;
      if current.Identifier? || current.Typeof? || current.ColonColon? {
        var s :- ReadSymbol();
        r := Result.Ok(SymbolExpr(s));
      } else if current.Literal? || current.Bytes? {
        var t := Advance();
        r := Result.Ok(LiteralExpr(t));
      } else if current.LParen? {
        r := ReadParen();
      } else if current.Defined? || current.Sizeof? || current.Alignof? || current.Fileof? || current.Lineof? || current.Embed? {
        r := ReadWord();
      } else if IsUnary(current) {
        r := ReadUnary();
      } else {
        r := Fatal("unrecognized prefix token in expression");
      }
    }

    method ReadWord() returns (r: Result<Expr>)
      requires Valid()
      requires current.Defined? || current.Sizeof? || current.Alignof? || current.Fileof? || current.Lineof? || current.Embed?
      modifies this
      ensures Valid() && Same(r, ParseNud(old(rest)), rest)
      decreases |rest|, 7
    {
      hide ParseSymbol, ParseParen, ParseUnary, ParseType;
      var word := Advance();
      var _ :- ExpectCurrent(LParen);
      var e: Expr;
      if word.Defined? {
        var s :- ReadSymbol();
        e := DefinedExpr(s);
      } else if word.Sizeof? || word.Alignof? {
        var t :- ReadType();
        e := if word.Sizeof? then SizeofExpr(t) else AlignofExpr(t);
      } else if word.Embed? {
        if !current.Bytes? {
          return Fatal("expected a path");
        }
        var path := Advance();
        e := EmbedExpr(path.text);
      } else {
        e := if word.Fileof? then FileofExpr else LineofExpr;
      }
      var _ :- ExpectCurrent(RParen);
      r := Result.Ok(e);
    }

    method ReadUnary() returns (r: Result<Expr>)
      requires Valid() && IsUnary(current)
      modifies this
      ensures Valid() && Same(r, ParseUnary(old(rest)), rest)
      decreases |rest|, 0
    {
      hide ParseExpr;
      var op := Advance();
      var paren := IsParenthesized(op);
      if paren {
        var _ :- ExpectCurrent(LParen);
      }
      var rhs :- ReadExprPrecedence(PREFIX);
      if paren {
        var _ :- ExpectCurrent(RParen);
      }
      r := Result.Ok(Unary(op, rhs));
    }

    method ReadParen() returns (r: Result<Expr>)
      requires Valid() && current.LParen?
      modifies this
      ensures Valid() && Same(r, ParseParen(old(rest)), rest)
      decreases |rest|, 0
    {
      hide ParseExpr, ParseType, ParseTyped;
      hide Expect;
      var _ := Advance();
      if current != Colon {
        var e :- ReadExprPrecedence(LOWEST);
        var _ :- ExpectCurrent(RParen);
        return Result.Ok(Grouped(e));
      }
      assert rest == old(rest)[1..] && rest[1..] == old(rest)[2..];
      var _ := Advance();
      var ty :- ReadType();
      var _ :- ExpectCurrent(RParen);
      r := ReadTyped(ty);
    }

    /** What follows the type in parentheses. */
    method ReadTyped(ty: Type) returns (r: Result<Expr>)
      requires Valid()
      modifies this
      ensures Valid() && Same(r, ParseTyped(ty, old(rest)), rest)
      decreases |rest|, 12
    {
      hide ParseExpr, ParseItems, ParseInits, Expect;
      if current == LBracket {
        var _ := Advance();
        var items :- ReadElements();
        var _ :- ExpectCurrent(RBracket);
        r := Result.Ok(List(ty, items));
      } else if current == LBrace {
        r := ReadBraces(ty);
      } else {
        var e :- ReadExprPrecedence(PREFIX);
        r := Result.Ok(Cast(ty, e));
      }
    }

    /** An initializer list or a slice. */
    method ReadBraces(ty: Type) returns (r: Result<Expr>)
      requires Valid() && current == LBrace
      modifies this
      ensures Valid() && Same(r, ParseTyped(ty, old(rest)), rest)
      decreases |rest|, 11
    {
      hide ParseExpr, ParseItems, ParseInits, Expect;
      if peek == RBrace || peek == Dot {
        var _ := Advance();
        var inits :- ReadInitializers();
        var _ :- ExpectCurrent(RBrace);
        return Result.Ok(Init(ty, inits.0, inits.1));
      }
      var _ := Advance();
      var pointer :- ReadExprPrecedence(LOWEST);
      var _ :- ExpectCurrent(Comma);
      var count :- ReadExprPrecedence(LOWEST);
      var _ :- ExpectCurrent(RBrace);
      r := Result.Ok(SliceOf(ty, pointer, count));
    }

    /** The elements of a list. */
    method ReadElements() returns (r: Result<Items>)
      requires Valid()
      modifies this
      ensures Valid() && Same(r, ParseItems(RBracket, true, true, old(rest)), rest)
      decreases |rest|, 10
    {
      hide ParseExpr, ParseItems, WithItems, Expect;
      var elements := [];
      WithNone(ParseItems(RBracket, true, true, rest));
      while current != RBracket
        invariant Valid() && |rest| <= old(|rest|)
        invariant ParseItems(RBracket, true, true, old(rest)) == WithItems(elements, ParseItems(RBracket, true, elements == [], rest))
        decreases |rest|
      {
        ghost var toks := rest;
        if elements != [] {
          ItemsComma(RBracket, true, elements, toks);
          var _ :- ExpectCurrent(Comma);
          if current == RBracket {
            return Result.Ok(Items(elements, TrailingComma));
          }
        }
        ItemsStep(RBracket, true, elements, toks, rest);
        var e :- ReadExprPrecedence(LOWEST);
        if current == Ellipsis {
          var _ := Advance();
          return Result.Ok(Items(elements, EllipsisTail(e)));
        }
        elements := elements + [e];
      }
      ItemsEnd(RBracket, true, elements, rest);
      r := Result.Ok(Items(elements, NoTail));
    }

    /** The arguments of a call. */
    method ReadArguments() returns (r: Result<Items>)
      requires Valid()
      modifies this
      ensures Valid() && Same(r, ParseItems(RParen, false, true, old(rest)), rest)
      decreases |rest|, 10
    {
      hide ParseExpr, ParseItems, WithItems, Expect;
      var args := [];
      WithNone(ParseItems(RParen, false, true, rest));
      while current != RParen
        invariant Valid() && |rest| <= old(|rest|)
        invariant ParseItems(RParen, false, true, old(rest)) == WithItems(args, ParseItems(RParen, false, args == [], rest))
        decreases |rest|
      {
        ghost var toks := rest;
        if args != [] {
          ItemsComma(RParen, false, args, toks);
          var _ :- ExpectCurrent(Comma);
          if current == RParen {
            return Result.Ok(Items(args, TrailingComma));
          }
        }
        ItemsStep(RParen, false, args, toks, rest);
        var e :- ReadExprPrecedence(LOWEST);
        args := args + [e];
      }
      ItemsEnd(RParen, false, args, rest);
      r := Result.Ok(Items(args, NoTail));
    }

    method ReadInitializers() returns (r: Result<(seq<Initializer>, bool)>)
      requires Valid()
      modifies this
      ensures Valid() && Same(r, ParseInits(old(rest)), rest)
      decreases |rest|, 10
    {
      if current != Dot {
        return Result.Ok(([], false));
      }
      hide ParseInits, ParseMoreInits, ParseInit, WithInits, Expect;
      FirstInit(rest);
      var i :- ReadInitializer();
      var inits := [i];
      while current == Comma
        invariant Valid() && |rest| < old(|rest|)
        invariant ParseInits(old(rest)) == WithInits(inits, ParseMoreInits(rest))
        decreases |rest|
      {
        if peek == RBrace {
          MoreInitsEnd(inits, rest);
        } else {
          MoreInitsStep(inits, rest);
        }
        var _ := Advance();
        if current == RBrace {
          return Result.Ok((inits, true));
        }
        i :- ReadInitializer();
        inits := inits + [i];
      }
      MoreInitsEnd(inits, rest);
      r := Result.Ok((inits, false));
    }

    method ReadInitializer() returns (r: Result<Initializer>)
      requires Valid()
      modifies this
      ensures Valid() && Same(r, ParseInit(old(rest)), rest)
      decreases |rest|, 9
    {
      hide ParseExpr, Expect, ParseIdentifier;
      var _ :- ExpectCurrent(Dot);
      var name :- ReadIdentifier();
      var _ :- ExpectCurrent(Assign);
      if current == Uninit {
        var _ := Advance();
        return Result.Ok(Initializer(name, NoValue));
      }
      var e :- ReadExprPrecedence(LOWEST);
      r := Result.Ok(Initializer(name, Value(e)));
    }

    method ReadLed(lhs: Expr) returns (r: Result<Expr>)
      requires Valid()
      modifies this
      ensures Valid() && Same(r, ParseLed(lhs, old(rest)), rest)
      decreases |rest|, 1
    {
      hide ParseExpr, ParseItems, ParseElement, Precedence, Expect;
      if current.LParen? {
        var _ := Advance();
        var args :- ReadArguments();
        var _ :- ExpectCurrent(RParen);
        r := Result.Ok(Call(lhs, args));
      } else if current.LBracket? {
        r := ReadBrackets(lhs);
      } else if current.DotStar? {
        var _ := Advance();
        r := Result.Ok(Dereference(lhs));
      } else if current.Dot? {
        var _ := Advance();
        var m :- ReadElement();
        r := Result.Ok(Member(lhs, m));
      } else if IsBinary(current) {
        r := ReadBinary(lhs);
      } else {
        r := Fatal("no operator");
      }
    }

    method ReadBinary(lhs: Expr) returns (r: Result<Expr>)
      requires Valid() && IsBinary(current)
      modifies this
      ensures Valid() && Same(r, ParseLed(lhs, old(rest)), rest)
      decreases |rest|, 0
    {
      hide ParseExpr, ParseItems, ParseElement, Expect;
      var op := Advance();
      var rhs :- ReadExprPrecedence(Precedence(op));
      r := Result.Ok(Binary(op, lhs, rhs));
    }

    method ReadBrackets(lhs: Expr) returns (r: Result<Expr>)
      requires Valid() && current.LBracket?
      modifies this
      ensures Valid() && Same(r, ParseLed(lhs, old(rest)), rest)
      decreases |rest|, 0
    {
      hide ParseExpr, ParseItems, ParseElement, Precedence, Expect;
      var _ := Advance();
      var idx :- ReadExprPrecedence(LOWEST);
      if current == Colon {
        var _ := Advance();
        var end :- ReadExprPrecedence(LOWEST);
        var _ :- ExpectCurrent(RBracket);
        return Result.Ok(Slicing(lhs, idx, end));
      }
      var _ :- ExpectCurrent(RBracket);
      r := Result.Ok(Index(lhs, idx));
    }

    method ReadSymbol() returns (r: Result<Symbol>)
      requires Valid()
      modifies this
      ensures Valid() && Same(r, ParseSymbol(old(rest)), rest)
      decreases |rest|, 6
    {
      hide ParseElement, ParseTypeof;
      if current == ColonColon {
        hide ParsePath;
        RootPath(rest);
        var path :- ReadPath();
        return Result.Ok(Symbol(Root, path));
      }
      if current == Typeof {
        hide ParsePath;
        var e :- ReadTypeof();
        RootPath(rest);
        if current != ColonColon {
          return Fatal("expected `::`");
        }
        var path :- ReadPath();
        return Result.Ok(Symbol(TypeofStart(e), path));
      }
      hide ParsePath;
      var first :- ReadElement();
      var path :- ReadPath();
      r := Result.Ok(Symbol(Plain, [first] + path));
    }

    /** The elements that follow a `::` each. */
    method ReadPath() returns (r: Result<seq<Element>>)
      requires Valid()
      modifies this
      ensures Valid() && Same(r, ParsePath(old(rest)), rest)
      decreases |rest|, 5
    {
      hide ParsePath, ParseElement, WithAll;
      var elements := [];
      PathBegin(rest);
      while current == ColonColon
        invariant Valid() && |rest| <= old(|rest|)
        invariant ParsePath(old(rest)) == WithAll(elements, ParsePath(rest))
        decreases |rest|
      {
        PathStep(elements, rest);
        var _ := Advance();
        var e :- ReadElement();
        elements := elements + [e];
      }
      PathEnd(elements, rest);
      r := Result.Ok(elements);
    }

    method ReadElement() returns (r: Result<Element>)
      requires Valid()
      modifies this
      ensures Valid() && Same(r, ParseElement(old(rest)), rest)
      decreases |rest|, 4
    {
      hide ParseTypes;
      var name :- ReadIdentifier();
      if current == LBracket && peek == LBracket {
        ghost var toks := rest;
        var _ := Advance();
        var _ := Advance();
        assert rest == toks[2..];
        var args :- ReadTypes();
        var _ :- ExpectCurrent(RBracket);
        var _ :- ExpectCurrent(RBracket);
        return Result.Ok(Element(name, args));
      }
      r := Result.Ok(Element(name, []));
    }

    method ReadTypes() returns (r: Result<seq<Type>>)
      requires Valid()
      modifies this
      ensures Valid() && Same(r, ParseTypes(old(rest)), rest)
      decreases |rest|, 8
    {
      hide ParseType, ParseTypes, ParseMoreTypes, WithAll;
      TypesStep(rest);
      var t :- ReadType();
      var types := [t];
      while current == Comma
        invariant Valid() && |rest| < old(|rest|)
        invariant ParseTypes(old(rest)) == WithAll(types, ParseMoreTypes(rest))
        decreases |rest|
      {
        MoreTypesStep(types, rest);
        var _ := Advance();
        t :- ReadType();
        types := types + [t];
      }
      MoreTypesEnd(types, rest);
      r := Result.Ok(types);
    }

    method ReadType() returns (r: Result<Type>)
      requires Valid()
      modifies this
      ensures Valid() && Same(r, ParseType(old(rest)), rest)
      decreases |rest|, 7
    {
      hide ParseSymbol, ParseTypeof, ParseExpr, ParseTypes, Expect;
      if current.Identifier? || current.ColonColon? {
        var s :- ReadSymbol();
        r := Result.Ok(SymbolType(s));
      } else if current.Func? {
        var _ := Advance();
        var _ :- ExpectCurrent(LParen);
        var params := [];
        if current != RParen {
          params :- ReadTypes();
        }
        var _ :- ExpectCurrent(RParen);
        var ret :- ReadType();
        r := Result.Ok(FunctionType(params, ret));
      } else if current.Star? {
        var _ := Advance();
        var base :- ReadType();
        r := Result.Ok(PointerType(base));
      } else if current.LBracket? {
        r := ReadArrayOrSlice();
      } else if current.Typeof? {
        var e :- ReadTypeof();
        r := Result.Ok(TypeofType(e));
      } else {
        r := Fatal("expected type specifier");
      }
    }

    method ReadArrayOrSlice() returns (r: Result<Type>)
      requires Valid() && current.LBracket?
      modifies this
      ensures Valid() && Same(r, ParseType(old(rest)), rest)
      decreases |rest|, 1
    {
      hide ParseSymbol, ParseTypeof, ParseExpr, ParseTypes, Expect;
      var _ := Advance();
      if current == RBracket {
        var _ := Advance();
        assert rest == old(rest)[2..];
        var base :- ReadType();
        return Result.Ok(SliceType(base));
      }
      var count :- ReadExprPrecedence(LOWEST);
      var _ :- ExpectCurrent(RBracket);
      var base :- ReadType();
      r := Result.Ok(ArrayType(count, base));
    }

    method ReadTypeof() returns (r: Result<Expr>)
      requires Valid()
      modifies this
      ensures Valid() && Same(r, ParseTypeof(old(rest)), rest)
      decreases |rest|, 0
    {
      hide ParseExpr, Expect;
      var _ :- ExpectCurrent(Typeof);
      var _ :- ExpectCurrent(LParen);
      var e :- ReadExprPrecedence(LOWEST);
      var _ :- ExpectCurrent(RParen);
      r := Result.Ok(e);
    }
  }

  lemma {:induction false} RootPath(toks: seq<Token>)
    ensures At(toks, 0) == ColonColon <==> (ParsePath(toks).Ok? ==> ParsePath(toks).v != [])
  {
    hide ParseElement;
  }
}
