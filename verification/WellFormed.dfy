// The trees that the parser can produce at a precedence, and what may follow them.

module WellFormed {
  import opened Syntax
  import opened Pratt

  /** The highest precedence of a token that may follow the expression without becoming part of it. */
  function Edge(e: Expr): nat {
    match e
    case Binary(op, _, _) => Precedence(op)
    case Cast(_, _) => PREFIX
    case Unary(op, _) => if IsParenthesized(op) then POSTFIX else PREFIX
    case _ => POSTFIX
  }

  predicate ElementsClosed(es: seq<Element>) {
    es != [] && es[|es| - 1].arguments != []
  }

  /** The tokens do not continue a symbol: no further element, and no template arguments of its last one. */
  predicate SymbolDetached(s: Symbol, rest: seq<Token>) {
    At(rest, 0) != ColonColon && (ElementsClosed(s.elements) || NoArguments(rest))
  }

  predicate NoArguments(rest: seq<Token>) {
    !(At(rest, 0) == LBracket && At(rest, 1) == LBracket)
  }

  predicate ElementDetached(e: Element, rest: seq<Token>) {
    e.arguments != [] || NoArguments(rest)
  }

  predicate Detached(e: Expr, rest: seq<Token>) {
    match e
    case SymbolExpr(s) => SymbolDetached(s, rest)
    case Member(_, m) => ElementDetached(m, rest)
    case Cast(_, x) => Detached(x, rest)
    case Unary(op, x) => IsParenthesized(op) || Detached(x, rest)
    case Binary(_, _, r) => Detached(r, rest)
    case _ => true
  }

  predicate TypeDetached(t: Type, rest: seq<Token>) {
    match t
    case SymbolType(s) => SymbolDetached(s, rest)
    case FunctionType(_, r) => TypeDetached(r, rest)
    case PointerType(b) => TypeDetached(b, rest)
    case ArrayType(_, b) => TypeDetached(b, rest)
    case SliceType(b) => TypeDetached(b, rest)
    case TypeofType(_) => true
  }

  /** Operators nest by precedence, to the left where it is the same. */
  predicate WF(e: Expr, p: nat)
    decreases e, 0
  {
    match e
    case SymbolExpr(s) => WFSymbol(s)
    case LiteralExpr(t) => t.Literal? || t.Bytes?
    case Grouped(x) => WF(x, LOWEST)
    case List(ty, items) => WFType(ty) && WFItems(items, true)
    case Init(ty, inits, trailing) => WFType(ty) && WFInits(inits) && (trailing ==> inits != [])
    case SliceOf(ty, pointer, count) => WFType(ty) && WF(pointer, LOWEST) && WF(count, LOWEST)
    case Cast(ty, x) => WFType(ty) && WF(x, PREFIX)
    case Unary(op, x) => IsUnary(op) && WF(x, PREFIX)
    case Binary(op, l, r) => IsBinary(op) && Continues(l, p, Precedence(op)) && WF(r, Precedence(op))
    case Call(l, items) => Continues(l, p, POSTFIX) && WFItems(items, false)
    case Index(l, i) => Continues(l, p, POSTFIX) && WF(i, LOWEST)
    case Slicing(l, b, x) => Continues(l, p, POSTFIX) && WF(b, LOWEST) && WF(x, LOWEST)
    case Dereference(l) => Continues(l, p, POSTFIX)
    case Member(l, m) => Continues(l, p, POSTFIX) && WFElement(m)
    case DefinedExpr(s) => WFSymbol(s)
    case SizeofExpr(ty) => WFType(ty)
    case AlignofExpr(ty) => WFType(ty)
    case FileofExpr => true
    case LineofExpr => true
    case EmbedExpr(_) => true
  }

  /** An operand that an operator of precedence `op` takes from the left, in an expression at `p`. */
  predicate Continues(l: Expr, p: nat, op: nat)
    decreases l, 1
  {
    p < op && op <= Edge(l) && WF(l, p)
  }

  predicate WFItems(items: Items, list: bool)
    decreases items
  {
    WFElements(items.elements) && WFTail(items.tail, list) && (items.tail.TrailingComma? ==> items.elements != [])
  }

  predicate WFElements(es: seq<Expr>)
    decreases es
  {
    es == [] || (WF(es[0], LOWEST) && WFElements(es[1..]))
  }

  predicate WFTail(tail: Tail, list: bool)
    decreases tail
  {
    tail.EllipsisTail? ==> list && WF(tail.e, LOWEST)
  }

  predicate WFInits(inits: seq<Initializer>)
    decreases inits
  {
    inits == [] || (WFInit(inits[0]) && WFInits(inits[1..]))
  }

  predicate WFInit(i: Initializer)
    decreases i
  {
    WFValue(i.value)
  }

  predicate WFValue(v: Value)
    decreases v
  {
    v.Value? ==> WF(v.e, LOWEST)
  }

  predicate WFType(t: Type)
    decreases t
  {
    match t
    case SymbolType(s) => !s.start.TypeofStart? && WFSymbol(s)
    case FunctionType(ps, r) => WFTypes(ps) && WFType(r)
    case PointerType(b) => WFType(b)
    case ArrayType(count, b) => WF(count, LOWEST) && WFType(b)
    case SliceType(b) => WFType(b)
    case TypeofType(e) => WF(e, LOWEST)
  }

  predicate WFTypes(ts: seq<Type>)
    decreases ts
  {
    ts == [] || (WFType(ts[0]) && WFTypes(ts[1..]))
  }

  predicate WFSymbol(s: Symbol)
    decreases s
  {
    s.elements != [] && WFPath(s.elements) && WFStart(s.start)
  }

  predicate WFStart(s: Start)
    decreases s
  {
    s.TypeofStart? ==> WF(s.e, LOWEST)
  }

  predicate WFPath(es: seq<Element>)
    decreases es
  {
    es == [] || (WFElement(es[0]) && WFPath(es[1..]))
  }

  predicate WFElement(e: Element)
    decreases e
  {
    WFTypes(e.arguments)
  }

  /** The parse of `toks` that a tree, its precedence and what is left stand for. */
  ghost predicate IsParse(p: nat, toks: seq<Token>, e: Expr, rest: seq<Token>) {
    toks == Show(e) + rest && WF(e, p) && Precedence(At(rest, 0)) <= p && Detached(e, rest)
  }

  /** The same, before the operators that may follow are looked at. */
  ghost predicate IsOperand(p: nat, toks: seq<Token>, e: Expr, rest: seq<Token>) {
    toks == Show(e) + rest && WF(e, p) && Precedence(At(rest, 0)) <= Edge(e) && Detached(e, rest)
  }

  ghost predicate IsType(toks: seq<Token>, t: Type, rest: seq<Token>) {
    toks == ShowType(t) + rest && WFType(t) && TypeDetached(t, rest)
  }
}
