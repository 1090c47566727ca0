// Tokens, expressions and types, and the tokens that an expression is written with.

module Syntax {

  datatype Token =
    | Identifier(name: string)
    | Literal(text: string)                 // true, false, integers, floats and characters
    | Bytes(text: string)
    | Not | Or | And
    | Eq | Ne | Le | Lt | Ge | Gt
    | PlusPercent | DashPercent | Plus | Dash | Pipe | Caret
    | StarPercent | Star | Fslash | Percent | Shl | Shr | Ampersand
    | Tilde
    | LParen | RParen | LBrace | RBrace | LBracket | RBracket
    | Comma | Ellipsis | DotStar | Dot | ColonColon | Colon | Assign
    | Defined | Sizeof | Alignof | Startof | Countof | Typeof | Fileof | Lineof | Uninit | Embed | Func
    | Other(kind: nat)                      // tokens that no expression contains
    | Eof

  datatype Element = Element(name: string, arguments: seq<Type>)

  datatype Start = Plain | Root | TypeofStart(e: Expr)

  datatype Symbol = Symbol(start: Start, elements: seq<Element>)

  datatype Type =
    | SymbolType(symbol: Symbol)
    | FunctionType(params: seq<Type>, ret: Type)
    | PointerType(base: Type)
    | ArrayType(count: Expr, base: Type)
    | SliceType(base: Type)
    | TypeofType(e: Expr)

  // How a bracketed list of expressions ends.  The syntax tree of the compiler does not record the
  // trailing comma.
  datatype Tail = NoTail | TrailingComma | EllipsisTail(e: Expr)

  datatype Items = Items(elements: seq<Expr>, tail: Tail)

  datatype Value = NoValue | Value(e: Expr)

  datatype Initializer = Initializer(name: string, value: Value)

  datatype Expr =
    | SymbolExpr(symbol: Symbol)
    | LiteralExpr(token: Token)
    | Grouped(e: Expr)
    | List(ty: Type, items: Items)
    | Init(ty: Type, initializers: seq<Initializer>, trailing: bool)
    | SliceOf(ty: Type, pointer: Expr, count: Expr)
    | Cast(ty: Type, e: Expr)
    | Unary(op: Token, e: Expr)
    | Binary(op: Token, lhs: Expr, rhs: Expr)
    | Call(lhs: Expr, items: Items)
    | Index(lhs: Expr, index: Expr)
    | Slicing(lhs: Expr, begin: Expr, end: Expr)
    | Dereference(lhs: Expr)
    | Member(lhs: Expr, member: Element)
    | DefinedExpr(symbol: Symbol)
    | SizeofExpr(ty: Type)
    | AlignofExpr(ty: Type)
    | FileofExpr
    | LineofExpr
    | EmbedExpr(path: string)

  // ---------- Precedence ----------

  const LOWEST: nat := 0
  const PREFIX: nat := 6
  const POSTFIX: nat := 7

  /** The precedence of a token after an expression; LOWEST when it cannot continue one. */
  function Precedence(t: Token): nat {
    match t
    case Or => 1
    case And => 2
    case Eq => 3
    case Ne => 3
    case Le => 3
    case Lt => 3
    case Ge => 3
    case Gt => 3
    case PlusPercent => 4
    case DashPercent => 4
    case Plus => 4
    case Dash => 4
    case Pipe => 4
    case Caret => 4
    case StarPercent => 5
    case Star => 5
    case Fslash => 5
    case Percent => 5
    case Shl => 5
    case Shr => 5
    case Ampersand => 5
    case LParen => POSTFIX
    case LBracket => POSTFIX
    case DotStar => POSTFIX
    case Dot => POSTFIX
    case _ => LOWEST
  }

  predicate IsBinary(t: Token) {
    0 < Precedence(t) < PREFIX
  }

  predicate IsUnary(t: Token) {
    t.Not? || t.Startof? || t.Countof? || t.Plus? || t.Dash? || t.DashPercent? || t.Tilde? || t.Star? || t.Ampersand?
  }

  predicate IsParenthesized(op: Token) {
    op.Startof? || op.Countof?
  }

  /** The tokens that can begin an expression. */
  predicate Begins(t: Token) {
    t.Identifier? || t.Typeof? || t.ColonColon? || t.Literal? || t.Bytes? || t.LParen? || t.Defined? || t.Sizeof? ||
    t.Alignof? || t.Fileof? || t.Lineof? || t.Embed? || IsUnary(t)
  }

  // ---------- The tokens of a tree ----------

  function Show(e: Expr): seq<Token>
    decreases e
  {
    match e
    case SymbolExpr(s) => ShowSymbol(s)
    case LiteralExpr(t) => [t]
    case Grouped(x) => [LParen] + Show(x) + [RParen]
    case List(ty, items) => [LParen, Colon] + ShowType(ty) + [RParen, LBracket] + ShowItems(items) + [RBracket]
    case Init(ty, inits, trailing) =>
      [LParen, Colon] + ShowType(ty) + [RParen, LBrace] + ShowInits(inits, trailing) + [RBrace]
    case SliceOf(ty, pointer, count) =>
      [LParen, Colon] + ShowType(ty) + [RParen, LBrace] + Show(pointer) + [Comma] + Show(count) + [RBrace]
    case Cast(ty, x) => [LParen, Colon] + ShowType(ty) + [RParen] + Show(x)
    case Unary(op, x) => if IsParenthesized(op) then [op, LParen] + Show(x) + [RParen] else [op] + Show(x)
    case Binary(op, l, r) => Show(l) + [op] + Show(r)
    case Call(l, items) => Show(l) + [LParen] + ShowItems(items) + [RParen]
    case Index(l, i) => Show(l) + [LBracket] + Show(i) + [RBracket]
    case Slicing(l, b, x) => Show(l) + [LBracket] + Show(b) + [Colon] + Show(x) + [RBracket]
    case Dereference(l) => Show(l) + [DotStar]
    case Member(l, m) => Show(l) + [Dot] + ShowElement(m)
    case DefinedExpr(s) => [Defined, LParen] + ShowSymbol(s) + [RParen]
    case SizeofExpr(ty) => [Sizeof, LParen] + ShowType(ty) + [RParen]
    case AlignofExpr(ty) => [Alignof, LParen] + ShowType(ty) + [RParen]
    case FileofExpr => [Fileof, LParen, RParen]
    case LineofExpr => [Lineof, LParen, RParen]
    case EmbedExpr(path) => [Embed, LParen, Bytes(path), RParen]
  }

  function ShowItems(items: Items): seq<Token>
    decreases items
  {
    ShowElements(items.elements, true) + ShowTail(items.tail, items.elements == [])
  }

  /** Every element but the first one follows a comma. */
  function ShowElements(es: seq<Expr>, first: bool): seq<Token>
    decreases es
  {
    if es == [] then []
    else (if first then [] else [Comma]) + Show(es[0]) + ShowElements(es[1..], false)
  }

  function ShowTail(tail: Tail, first: bool): seq<Token>
    decreases tail
  {
    match tail
    case NoTail => []
    case TrailingComma => [Comma]
    case EllipsisTail(e) => (if first then [] else [Comma]) + Show(e) + [Ellipsis]
  }

  function ShowInits(inits: seq<Initializer>, trailing: bool): seq<Token>
    decreases inits, 1
  {
    if inits == [] then [] else ShowInit(inits[0]) + ShowMoreInits(inits[1..], trailing)
  }

  function ShowMoreInits(inits: seq<Initializer>, trailing: bool): seq<Token>
    decreases inits
  {
    if inits == [] then (if trailing then [Comma] else [])
    else [Comma] + ShowInit(inits[0]) + ShowMoreInits(inits[1..], trailing)
  }

  function ShowInit(i: Initializer): seq<Token>
    decreases i
  {
    [Dot, Identifier(i.name), Assign] + ShowValue(i.value)
  }

  function ShowValue(v: Value): seq<Token>
    decreases v
  {
    match v
    case NoValue => [Uninit]
    case Value(e) => Show(e)
  }

  function ShowType(t: Type): seq<Token>
    decreases t
  {
    match t
    case SymbolType(s) => ShowSymbol(s)
    case FunctionType(ps, r) => [Func, LParen] + ShowTypes(ps, true) + [RParen] + ShowType(r)
    case PointerType(b) => [Star] + ShowType(b)
    case ArrayType(count, b) => [LBracket] + Show(count) + [RBracket] + ShowType(b)
    case SliceType(b) => [LBracket, RBracket] + ShowType(b)
    case TypeofType(e) => [Typeof, LParen] + Show(e) + [RParen]
  }

  function ShowTypes(ts: seq<Type>, first: bool): seq<Token>
    decreases ts
  {
    if ts == [] then []
    else (if first then [] else [Comma]) + ShowType(ts[0]) + ShowTypes(ts[1..], false)
  }

  function ShowSymbol(s: Symbol): seq<Token>
    decreases s
  {
    ShowStart(s.start) + ShowPath(s.elements, s.start.Plain?)
  }

  function ShowStart(s: Start): seq<Token>
    decreases s
  {
    match s
    case Plain => []
    case Root => []
    case TypeofStart(e) => [Typeof, LParen] + Show(e) + [RParen]
  }

  /** Elements follow `::`, the first one of a plain symbol excepted. */
  function ShowPath(es: seq<Element>, first: bool): seq<Token>
    decreases es
  {
    if es == [] then []
    else (if first then [] else [ColonColon]) + ShowElement(es[0]) + ShowPath(es[1..], false)
  }

  function ShowElement(e: Element): seq<Token>
    decreases e
  {
    if e.arguments == [] then [Identifier(e.name)]
    else [Identifier(e.name), LBracket, LBracket] + ShowTypes(e.arguments, true) + [RBracket, RBracket]
  }
}
