// Which operators bind tighter: the parser in terms of classes of tokens, with no numbers.

module ParserClasses {
  import opened Syntax
  import opened Pratt
  import opened WellFormed
  import opened ParserComplete

  // ---------- The classes, from the loosest to the tightest ----------

  datatype Class = Alternative | Conjunction | Comparison | Sum | Product | NoOperator

  function ClassOf(t: Token): Class {
    match t
    case Or => Alternative
    case And => Conjunction
    case Eq => Comparison
    case Ne => Comparison
    case Le => Comparison
    case Lt => Comparison
    case Ge => Comparison
    case Gt => Comparison
    case PlusPercent => Sum
    case DashPercent => Sum
    case Plus => Sum
    case Dash => Sum
    case Pipe => Sum
    case Caret => Sum
    case StarPercent => Product
    case Star => Product
    case Fslash => Product
    case Percent => Product
    case Shl => Product
    case Shr => Product
    case Ampersand => Product
    case _ => NoOperator
  }

  predicate IsOperator(t: Token) {
    !ClassOf(t).NoOperator?
  }

  /** The classes of operators, from the loosest to the tightest. */
  predicate Before(c: Class, d: Class) {
    match c
    case Alternative => !d.Alternative? && !d.NoOperator?
    case Conjunction => d.Comparison? || d.Sum? || d.Product?
    case Comparison => d.Sum? || d.Product?
    case Sum => d.Product?
    case _ => false
  }

  predicate Looser(a: Token, b: Token) {
    Before(ClassOf(a), ClassOf(b))
  }

  predicate SameClass(a: Token, b: Token) {
    IsOperator(a) && ClassOf(a) == ClassOf(b)
  }

  predicate IsPrefix(t: Token) {
    t.Not? || t.Plus? || t.Dash? || t.DashPercent? || t.Tilde? || t.Star? || t.Ampersand?
  }

  predicate StartsPostfix(t: Token) {
    t.LParen? || t.LBracket? || t.DotStar? || t.Dot?
  }

  // ---------- Trees that the parser returns ----------

  /** An expression that the prefix operators and casts do not take whole. */
  predicate IsOpen(e: Expr) {
    e.Binary? || e.Cast? || (e.Unary? && !e.op.Startof? && !e.op.Countof?)
  }

  /** At a higher precedence the operator of the tree must bind tighter. */
  lemma {:induction false} TighterWF(e: Expr, p: nat)
    requires p <= PREFIX
    ensures WF(e, p) <==> WF(e, LOWEST) && (e.Binary? ==> p < Precedence(e.op))
    decreases e, 0
  {
    match e
    case Binary(op, l, r) => TighterLeft(l, p, Precedence(op));
    case Call(l, _) => TighterLeft(l, p, POSTFIX);
    case Index(l, _) => TighterLeft(l, p, POSTFIX);
    case Slicing(l, _, _) => TighterLeft(l, p, POSTFIX);
    case Dereference(l) => TighterLeft(l, p, POSTFIX);
    case Member(l, _) => TighterLeft(l, p, POSTFIX);
    case _ =>
  }

  lemma {:induction false} TighterLeft(l: Expr, p: nat, op: nat)
    requires p <= PREFIX
    ensures Continues(l, p, op) <==> p < op && Continues(l, LOWEST, op)
    decreases l, 1
  {
    TighterWF(l, p);
  }

  function Rank(c: Class): nat {
    match c
    case Alternative => 1
    case Conjunction => 2
    case Comparison => 3
    case Sum => 4
    case Product => 5
    case NoOperator => 0
  }

  lemma {:induction false} RanksOrder(c: Class, d: Class)
    ensures Before(c, d) ==> !c.NoOperator? && !d.NoOperator? && !Before(d, c) && c != d
    ensures !c.NoOperator? && !d.NoOperator? ==> (Rank(c) < Rank(d) <==> Before(c, d)) && (Rank(c) == Rank(d) <==> c == d)
    ensures 0 < Rank(c) < PREFIX <==> !c.NoOperator?
  {
  }

  lemma {:induction false} Ranked(t: Token)
    ensures IsOperator(t) ==> Precedence(t) == Rank(ClassOf(t))
    ensures !IsOperator(t) ==> Precedence(t) == if StartsPostfix(t) then POSTFIX else LOWEST
  {
  }

  lemma {:induction false} ClassIs(a: Token)
    ensures IsBinary(a) <==> IsOperator(a)
    ensures Precedence(a) == LOWEST <==> !IsOperator(a) && !StartsPostfix(a)
  {
    hide Precedence, ClassOf, StartsPostfix, Rank;
    Ranked(a);
    RanksOrder(ClassOf(a), ClassOf(a));
  }

  lemma {:induction false} Classes(a: Token, b: Token)
    requires IsOperator(a) && IsOperator(b)
    ensures Precedence(a) < Precedence(b) <==> Looser(a, b)
    ensures Precedence(a) == Precedence(b) <==> SameClass(a, b)
  {
    hide Precedence, ClassOf, Rank, Before, StartsPostfix;
    Ranked(a);
    Ranked(b);
    RanksOrder(ClassOf(a), ClassOf(b));
  }

  lemma {:induction false} LooserOperators(a: Token, b: Token)
    requires Looser(a, b)
    ensures IsOperator(a) && IsOperator(b) && !Looser(b, a)
  {
    hide ClassOf, Before, Rank;
    RanksOrder(ClassOf(a), ClassOf(b));
  }

  lemma {:induction false} SameOperators(a: Token, b: Token)
    requires SameClass(a, b)
    ensures IsOperator(a) && IsOperator(b) && !Looser(a, b)
  {
    hide ClassOf, Before, Rank;
    RanksOrder(ClassOf(a), ClassOf(b));
  }

  lemma {:induction false} NotParenthesized(t: Token)
    requires IsPrefix(t)
    ensures !IsParenthesized(t)
  {
  }

  lemma {:induction false} UnaryTokens(a: Token)
    ensures IsUnary(a) <==> IsPrefix(a) || a.Startof? || a.Countof?
  {
  }

  /** A binary expression: its left operand has no looser operator, its right operand only tighter ones. */
  lemma {:induction false} BinaryNests(op: Token, l: Expr, r: Expr)
    ensures WF(Binary(op, l, r), LOWEST) <==>
              IsOperator(op) && WF(l, LOWEST) && WF(r, LOWEST) && !(l.Binary? && Looser(l.op, op)) &&
              (r.Binary? ==> Looser(op, r.op))
  {
    hide Precedence, IsOperator, Looser, ClassOf, WFType, WFItems, WFElement, WFSymbol;
    ClassIs(op);
    if IsOperator(op) {
      TighterWF(r, Precedence(op));
      if WF(l, LOWEST) && l.Binary? {
        OperatorOf(l);
        Classes(l.op, op);
      }
      if WF(r, LOWEST) && r.Binary? {
        OperatorOf(r);
        Classes(op, r.op);
      }
    }
  }

  lemma {:induction false} OperatorOf(e: Expr)
    requires e.Binary? && WF(e, LOWEST)
    ensures IsOperator(e.op)
  {
    ClassIs(e.op);
    hide Precedence, IsOperator, Looser, ClassOf;
  }

  /** A prefix operator takes no binary expression. */
  lemma {:induction false} PrefixNests(op: Token, x: Expr)
    ensures WF(Unary(op, x), LOWEST) <==>
              (IsPrefix(op) || op.Startof? || op.Countof?) && WF(x, LOWEST) && !x.Binary?
  {
    UnaryTokens(op);
    TighterWF(x, PREFIX);
    if WF(x, LOWEST) && x.Binary? {
      OperatorOf(x);
    }
    hide IsPrefix, IsUnary;
  }

  lemma {:induction false} CastNests(ty: Type, x: Expr)
    ensures WF(Cast(ty, x), LOWEST) <==> WFType(ty) && WF(x, LOWEST) && !x.Binary?
  {
    TighterWF(x, PREFIX);
    if WF(x, LOWEST) && x.Binary? {
      OperatorOf(x);
    }
    hide WFType;
  }

  /** What a postfix operator follows is no binary expression, no cast and no prefix operator. */
  lemma {:induction false} PostfixNests(l: Expr)
    ensures Continues(l, LOWEST, POSTFIX) <==> WF(l, LOWEST) && !IsOpen(l)
    ensures WF(Dereference(l), LOWEST) <==> WF(l, LOWEST) && !IsOpen(l)
    ensures forall items :: WF(Call(l, items), LOWEST) <==> WF(l, LOWEST) && !IsOpen(l) && WFItems(items, false)
    ensures forall i :: WF(Index(l, i), LOWEST) <==> WF(l, LOWEST) && !IsOpen(l) && WF(i, LOWEST)
    ensures forall b, x :: WF(Slicing(l, b, x), LOWEST) <==> WF(l, LOWEST) && !IsOpen(l) && WF(b, LOWEST) && WF(x, LOWEST)
    ensures forall m :: WF(Member(l, m), LOWEST) <==> WF(l, LOWEST) && !IsOpen(l) && WFElement(m)
  {
    if WF(l, LOWEST) && l.Binary? {
      OperatorOf(l);
    }
    hide WFItems, WFElement;
  }

  // ---------- Three operands ----------

  predicate IsLeaf(t: Token) {
    t.Identifier? || t.Literal? || t.Bytes?
  }

  /** A name or a literal as an expression. */
  function Leaf(t: Token): Expr
    requires IsLeaf(t)
  {
    if t.Identifier? then SymbolExpr(Symbol(Plain, [Element(t.name, [])])) else LiteralExpr(t)
  }

  /** Tokens that no expression goes on with. */
  predicate Ends(rest: seq<Token>) {
    rest == [] || rest[0].RParen? || rest[0].RBracket? || rest[0].RBrace? || rest[0].Comma? || rest[0].Colon?
  }

  lemma {:induction false} LeafWF(t: Token, rest: seq<Token>)
    requires IsLeaf(t)
    ensures WF(Leaf(t), LOWEST) && Show(Leaf(t)) == [t] && !IsOpen(Leaf(t)) && !Leaf(t).Binary?
    ensures At(rest, 0) != ColonColon && At(rest, 0) != LBracket ==> Detached(Leaf(t), rest)
  {
    if t.Identifier? {
      var e := Element(t.name, []);
      assert [e][1..] == [] && ShowPath([], false) == [];
      assert ShowElement(e) == [t] && ShowPath([e], true) == [t];
      assert ShowSymbol(Symbol(Plain, [e])) == [t];
      assert WFElement(e) && WFPath([e]);
    }
  }

  /** A tree that nests parses to itself. */
  lemma {:induction false} Parses(e: Expr, toks: seq<Token>, rest: seq<Token>)
    requires WF(e, LOWEST) && Show(e) == toks && Ends(rest) && Detached(e, rest)
    ensures ParseExpr(LOWEST, toks + rest) == Ok(e, rest)
  {
    ClassIs(At(rest, 0));
    hide ParseExpr, Show, WF, Detached;
    ExprParsed(LOWEST, e, rest);
  }

  /** Two operators whose operands nest to the right, or to the left. */
  lemma {:induction false} RightTree(x: Token, a: Token, y: Token, b: Token, z: Token, rest: seq<Token>)
    requires IsLeaf(x) && IsLeaf(y) && IsLeaf(z) && Ends(rest) && IsOperator(a) && IsOperator(b) && Looser(a, b)
    ensures ParseExpr(LOWEST, [x, a, y, b, z] + rest) == Ok(Binary(a, Leaf(x), Binary(b, Leaf(y), Leaf(z))), rest)
  {
    LeafWF(x, rest);
    LeafWF(y, rest);
    LeafWF(z, rest);
    hide Leaf, WF, Looser, IsOperator, ParseExpr;
    var r := Binary(b, Leaf(y), Leaf(z));
    var e := Binary(a, Leaf(x), r);
    BinaryNests(b, Leaf(y), Leaf(z));
    BinaryNests(a, Leaf(x), r);
    assert Show(r) == [y, b, z];
    assert Show(e) == [x, a, y, b, z];
    assert Detached(r, rest);
    assert Detached(e, rest);
    hide Show, Detached;
    Parses(e, [x, a, y, b, z], rest);
  }

  lemma {:induction false} LeftTree(x: Token, a: Token, y: Token, b: Token, z: Token, rest: seq<Token>)
    requires IsLeaf(x) && IsLeaf(y) && IsLeaf(z) && Ends(rest) && IsOperator(a) && IsOperator(b) && !Looser(a, b)
    ensures ParseExpr(LOWEST, [x, a, y, b, z] + rest) == Ok(Binary(b, Binary(a, Leaf(x), Leaf(y)), Leaf(z)), rest)
  {
    LeafWF(x, rest);
    LeafWF(y, rest);
    LeafWF(z, rest);
    hide Leaf, WF, Looser, IsOperator, ParseExpr;
    var l := Binary(a, Leaf(x), Leaf(y));
    var e := Binary(b, l, Leaf(z));
    BinaryNests(a, Leaf(x), Leaf(y));
    BinaryNests(b, l, Leaf(z));
    assert Show(l) == [x, a, y];
    assert Show(e) == [x, a, y, b, z];
    assert Detached(e, rest);
    hide Show, Detached;
    Parses(e, [x, a, y, b, z], rest);
  }

  /** The tighter of two operators takes its operands first, on whichever side it stands. */
  lemma {:induction false} TighterFirst(x: Token, a: Token, y: Token, b: Token, z: Token, rest: seq<Token>)
    requires IsLeaf(x) && IsLeaf(y) && IsLeaf(z) && Ends(rest) && Looser(a, b)
    ensures ParseExpr(LOWEST, [x, a, y, b, z] + rest) == Ok(Binary(a, Leaf(x), Binary(b, Leaf(y), Leaf(z))), rest)
    ensures ParseExpr(LOWEST, [x, b, y, a, z] + rest) == Ok(Binary(a, Binary(b, Leaf(x), Leaf(y)), Leaf(z)), rest)
  {
    hide ParseExpr, Leaf, Looser, IsOperator;
    LooserOperators(a, b);
    RightTree(x, a, y, b, z, rest);
    LeftTree(x, b, y, a, z, rest);
  }

  /** Two operators of one class take their operands from the left. */
  lemma {:induction false} LeftFirst(x: Token, a: Token, y: Token, b: Token, z: Token, rest: seq<Token>)
    requires IsLeaf(x) && IsLeaf(y) && IsLeaf(z) && Ends(rest) && SameClass(a, b)
    ensures ParseExpr(LOWEST, [x, a, y, b, z] + rest) == Ok(Binary(b, Binary(a, Leaf(x), Leaf(y)), Leaf(z)), rest)
  {
    hide ParseExpr, Leaf, Looser, IsOperator, SameClass;
    SameOperators(a, b);
    LeftTree(x, a, y, b, z, rest);
  }

  /** A prefix operator binds tighter than every binary one. */
  lemma {:induction false} PrefixBeforeBinary(u: Token, x: Token, op: Token, y: Token, rest: seq<Token>)
    requires IsPrefix(u) && IsLeaf(x) && IsOperator(op) && IsLeaf(y) && Ends(rest)
    ensures ParseExpr(LOWEST, [u, x, op, y] + rest) == Ok(Binary(op, Unary(u, Leaf(x)), Leaf(y)), rest)
  {
    LeafWF(x, rest);
    LeafWF(y, rest);
    hide Leaf, WF, ParseExpr, IsOperator, IsPrefix;
    NotParenthesized(u);
    PrefixNests(u, Leaf(x));
    BinaryNests(op, Unary(u, Leaf(x)), Leaf(y));
    assert Show(Unary(u, Leaf(x))) == [u, x];
    assert Show(Binary(op, Unary(u, Leaf(x)), Leaf(y))) == [u, x, op, y];
    assert Detached(Binary(op, Unary(u, Leaf(x)), Leaf(y)), rest);
    hide Show, Detached;
    Parses(Binary(op, Unary(u, Leaf(x)), Leaf(y)), [u, x, op, y], rest);
  }

  /** A postfix operator binds tighter than a prefix one, and so tighter than a binary one. */
  lemma {:induction false} DotBeforePrefix(u: Token, x: Token, m: string, rest: seq<Token>)
    requires IsPrefix(u) && IsLeaf(x) && Ends(rest)
    ensures ParseExpr(LOWEST, [u, x, DotStar] + rest) == Ok(Unary(u, Dereference(Leaf(x))), rest)
    ensures ParseExpr(LOWEST, [u, x, Dot, Identifier(m)] + rest) == Ok(Unary(u, Member(Leaf(x), Element(m, []))), rest)
  {
    LeafWF(x, rest);
    hide ParseExpr, WF, IsPrefix, Leaf;
    assert WFElement(Element(m, []));
    PostfixNests(Leaf(x));
    assert Show(Dereference(Leaf(x))) == [x, DotStar];
    assert Show(Member(Leaf(x), Element(m, []))) == [x, Dot, Identifier(m)];
    assert Detached(Dereference(Leaf(x)), rest) && Detached(Member(Leaf(x), Element(m, [])), rest);
    hide Detached, Show;
    UnaryParses(u, Dereference(Leaf(x)), [x, DotStar], rest);
    UnaryParses(u, Member(Leaf(x), Element(m, [])), [x, Dot, Identifier(m)], rest);
    assert [u] + [x, DotStar] == [u, x, DotStar];
    assert [u] + [x, Dot, Identifier(m)] == [u, x, Dot, Identifier(m)];
  }

  lemma {:induction false} BracketsBeforePrefix(u: Token, x: Token, y: Token, rest: seq<Token>)
    requires IsPrefix(u) && IsLeaf(x) && IsLeaf(y) && Ends(rest)
    ensures ParseExpr(LOWEST, [u, x, LParen, RParen] + rest) == Ok(Unary(u, Call(Leaf(x), Items([], NoTail))), rest)
    ensures ParseExpr(LOWEST, [u, x, LBracket, y, RBracket] + rest) == Ok(Unary(u, Index(Leaf(x), Leaf(y))), rest)
  {
    LeafWF(x, rest);
    LeafWF(y, rest);
    hide ParseExpr, WF, IsPrefix, Leaf, Detached, Show;
    assert WFItems(Items([], NoTail), false);
    PostfixNests(Leaf(x));
    ShowBrackets(x, y);
    assert Detached(Call(Leaf(x), Items([], NoTail)), rest) && Detached(Index(Leaf(x), Leaf(y)), rest) by {
      DetachedBrackets(x, y, rest);
    }
    UnaryParses(u, Call(Leaf(x), Items([], NoTail)), [x, LParen, RParen], rest);
    UnaryParses(u, Index(Leaf(x), Leaf(y)), [x, LBracket, y, RBracket], rest);
    assert [u] + [x, LParen, RParen] == [u, x, LParen, RParen];
    assert [u] + [x, LBracket, y, RBracket] == [u, x, LBracket, y, RBracket];
  }

  lemma {:induction false} DetachedBrackets(x: Token, y: Token, rest: seq<Token>)
    requires IsLeaf(x) && IsLeaf(y)
    ensures Detached(Call(Leaf(x), Items([], NoTail)), rest) && Detached(Index(Leaf(x), Leaf(y)), rest)
  {
    hide Leaf;
  }

  lemma {:induction false} ShowBrackets(x: Token, y: Token)
    requires IsLeaf(x) && IsLeaf(y)
    ensures Show(Call(Leaf(x), Items([], NoTail))) == [x, LParen, RParen]
    ensures Show(Index(Leaf(x), Leaf(y))) == [x, LBracket, y, RBracket]
  {
    LeafWF(x, []);
    LeafWF(y, []);
    hide Leaf, WF, Detached;
    assert ShowItems(Items([], NoTail)) == [];
  }

  lemma {:induction false} UnaryParses(u: Token, e: Expr, toks: seq<Token>, rest: seq<Token>)
    requires IsPrefix(u) && WF(e, LOWEST) && !e.Binary? && Show(e) == toks && Ends(rest) && Detached(e, rest)
    ensures ParseExpr(LOWEST, [u] + toks + rest) == Ok(Unary(u, e), rest)
  {
    hide ParseExpr, WF, IsPrefix;
    NotParenthesized(u);
    PrefixNests(u, e);
    assert Show(Unary(u, e)) == [u] + toks;
    assert Detached(Unary(u, e), rest);
    hide Show, Detached;
    Parses(Unary(u, e), [u] + toks, rest);
  }

  /** `startof` and `countof` take their operand in parentheses, and bind like a name. */
  lemma {:induction false} InParentheses(u: Token, x: Token, rest: seq<Token>)
    requires (u.Startof? || u.Countof?) && IsLeaf(x) && Ends(rest)
    ensures ParseExpr(LOWEST, [u, LParen, x, RParen] + rest) == Ok(Unary(u, Leaf(x)), rest)
    ensures ParseExpr(LOWEST, [u, LParen, x, RParen, DotStar] + rest) == Ok(Dereference(Unary(u, Leaf(x))), rest)
  {
    LeafWF(x, rest);
    PrefixNests(u, Leaf(x));
    PostfixNests(Unary(u, Leaf(x)));
    assert Show(Unary(u, Leaf(x))) == [u, LParen, x, RParen];
    assert Show(Dereference(Unary(u, Leaf(x)))) == [u, LParen, x, RParen, DotStar];
    assert Detached(Unary(u, Leaf(x)), rest) && Detached(Dereference(Unary(u, Leaf(x))), rest);
    hide ParseExpr, WF, Show, Detached;
    Parses(Unary(u, Leaf(x)), [u, LParen, x, RParen], rest);
    Parses(Dereference(Unary(u, Leaf(x))), [u, LParen, x, RParen, DotStar], rest);
  }

  /** A cast binds like a prefix operator. */
  lemma {:induction false} CastBeforeBinary(name: string, x: Token, op: Token, y: Token, rest: seq<Token>)
    requires IsLeaf(x) && IsOperator(op) && IsLeaf(y) && Ends(rest)
    ensures var ty := SymbolType(Symbol(Plain, [Element(name, [])]));
            ParseExpr(LOWEST, [LParen, Colon, Identifier(name), RParen, x, op, y] + rest) ==
              Ok(Binary(op, Cast(ty, Leaf(x)), Leaf(y)), rest) &&
            ParseExpr(LOWEST, [LParen, Colon, Identifier(name), RParen, x, DotStar] + rest) ==
              Ok(Cast(ty, Dereference(Leaf(x))), rest)
  {
    var n := Identifier(name);
    var ty := SymbolType(Symbol(Plain, [Element(name, [])]));
    LeafWF(n, rest);
    LeafWF(x, rest);
    LeafWF(y, rest);
    assert ShowType(ty) == [n] && WFType(ty) by {
      assert Leaf(n) == SymbolExpr(ty.symbol);
    }
    hide Leaf, WF, WFType, ParseExpr, IsOperator;
    PostfixNests(Leaf(x));
    CastNests(ty, Leaf(x));
    CastNests(ty, Dereference(Leaf(x)));
    BinaryNests(op, Cast(ty, Leaf(x)), Leaf(y));
    var e, d := Binary(op, Cast(ty, Leaf(x)), Leaf(y)), Cast(ty, Dereference(Leaf(x)));
    assert Show(Cast(ty, Leaf(x))) == [LParen, Colon, n, RParen, x];
    assert Show(e) == [LParen, Colon, n, RParen, x, op, y];
    assert Show(Dereference(Leaf(x))) == [x, DotStar];
    assert Show(d) == [LParen, Colon, n, RParen, x, DotStar];
    assert Detached(e, rest) && Detached(d, rest);
    hide Show, ShowType, Detached;
    Parses(e, [LParen, Colon, n, RParen, x, op, y], rest);
    Parses(d, [LParen, Colon, n, RParen, x, DotStar], rest);
  }

  /** Every other token ends the expression. */
  lemma {:induction false} OthersEnd(x: Token, t: Token, rest: seq<Token>)
    requires IsLeaf(x) && !IsOperator(t) && !StartsPostfix(t) && !t.ColonColon?
    ensures ParseExpr(LOWEST, [x, t] + rest) == Ok(Leaf(x), [t] + rest)
  {
    LeafWF(x, [t] + rest);
    ClassIs(t);
    hide ParseExpr, WF, Show, Detached, Precedence;
    ExprParsed(LOWEST, Leaf(x), [t] + rest);
    assert [x] + ([t] + rest) == [x, t] + rest;
  }
}
