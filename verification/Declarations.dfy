// The concrete syntax that the ordering phase walks, and the names that the walk arrives at.

module Declarations {
  import opened Wrappers

  datatype Start = Plain | Root | TypeofStart(ty: Type)

  datatype Element = Element(name: string, arguments: seq<Type>)

  datatype Symbol = Symbol(start: Start, elements: seq<Element>)

  datatype Type =
    | SymbolType(symbol: Symbol)
    | FunctionType(params: seq<Type>, ret: Type)
    | PointerType(base: Type)
    | ArrayType(count: Expr, base: Type)
    | SliceType(base: Type)
    | MembersType(members: seq<Type>)         // struct { ... } and union { ... }
    | EnumType(values: seq<Value>)
    | TypeofType(e: Expr)

  // A value that may be left out: `uninit`, or an enumerator without expression.
  datatype Value = NoValue | Value(e: Expr)

  datatype Expr =
    | SymbolExpr(symbol: Symbol)
    | Literal                                  // also fileof, lineof and embed
    | ListExpr(ty: Type, elements: seq<Expr>)  // the ellipsis, if any, is the last element
    | SliceExpr(ty: Type, start: Expr, count: Expr)
    | InitExpr(ty: Type, members: seq<Value>)
    | CastExpr(ty: Type, e: Expr)
    | Defined(symbol: Symbol)
    | SizeofExpr(ty: Type)                     // sizeof and alignof
    | Compound(parts: seq<Expr>)               // grouped, call, index, slice, member, dereference, unary, binary

  datatype Member =
    | VariableMember(ty: Type)
    | ConstantMember(annotation: Option<Type>, init: Option<Expr>)
    | FunctionMember(isTemplate: bool, params: seq<Type>, ret: Type)
    | AliasMember(ty: Type)

  datatype Kind =
    | Variable(annotation: Option<Type>, init: Option<Expr>)
    | Constant(annotation: Option<Type>, init: Option<Expr>)
    | Function(isTemplate: bool, params: seq<Type>, ret: Type)
    | Struct(isTemplate: bool, members: seq<Member>)
    | Union(isTemplate: bool, members: seq<Member>)
    | Enum(annotation: Option<Type>, values: seq<Value>, functions: seq<Member>)
    | Extend
    | Alias(ty: Type)
    | ExternVariable(ty: Type)
    | ExternFunction(params: seq<Type>, ret: Type)
    | ExternType

  datatype Decl = Decl(name: string, kind: Kind)

  // The declarations of the module and the namespace it declares.
  datatype Env = Env(decls: seq<Decl>, namespace: seq<string>)

  /** The declaration that a name refers to: the first one that is not an extend declaration. */
  function LookupFrom(decls: seq<Decl>, name: string, i: nat): Option<nat>
    requires i <= |decls|
    ensures LookupFrom(decls, name, i).Some? ==>
              var j := LookupFrom(decls, name, i).value;
              i <= j < |decls| && decls[j].name == name && !decls[j].kind.Extend?
    ensures LookupFrom(decls, name, i).None? ==> forall j :: i <= j < |decls| && decls[j].name == name ==> decls[j].kind.Extend?
    decreases |decls| - i
  {
    if i == |decls| then None
    else if decls[i].name == name && !decls[i].kind.Extend? then Some(i)
    else LookupFrom(decls, name, i + 1)
  }

  function Lookup(decls: seq<Decl>, name: string): (r: Option<nat>) {
    LookupFrom(decls, name, 0)
  }

  function ValuesNames(env: Env, es: seq<Value>): seq<string>
    decreases es
  {
    if es == [] then [] else ValueNames(env, es[0]) + ValuesNames(env, es[1..])
  }

  function ValueNames(env: Env, v: Value): seq<string>
    decreases v
  {
    if v.Value? then ExprNames(env, v.e) else []
  }

  function ExprsNames(env: Env, es: seq<Expr>): seq<string>
    decreases es
  {
    if es == [] then [] else ExprNames(env, es[0]) + ExprsNames(env, es[1..])
  }

  function TypesNames(env: Env, ts: seq<Type>): seq<string>
    decreases ts
  {
    if ts == [] then [] else TypeNames(env, ts[0]) + TypesNames(env, ts[1..])
  }

  /** The type of a list or slice literal is not walked. */
  function ExprNames(env: Env, e: Expr): seq<string>
    decreases e
  {
    match e
    case SymbolExpr(s) => SymbolNames(env, s)
    case Literal => []
    case ListExpr(_, elements) => ExprsNames(env, elements)
    case SliceExpr(_, start, count) => ExprNames(env, start) + ExprNames(env, count)
    case InitExpr(ty, members) => TypeNames(env, ty) + ValuesNames(env, members)
    case CastExpr(ty, x) => TypeNames(env, ty) + ExprNames(env, x)
    case Defined(s) => SymbolNames(env, s)
    case SizeofExpr(ty) => TypeNames(env, ty)
    case Compound(parts) => ExprsNames(env, parts)
  }

  function TypeNames(env: Env, t: Type): seq<string>
    decreases t
  {
    match t
    case SymbolType(s) => SymbolNames(env, s)
    case FunctionType(params, ret) => TypesNames(env, params) + TypeNames(env, ret)
    case PointerType(base) => TypeNames(env, base)
    case ArrayType(count, base) => ExprNames(env, count) + TypeNames(env, base)
    case SliceType(base) => TypeNames(env, base)
    case MembersType(members) => TypesNames(env, members)
    case EnumType(values) => ValuesNames(env, values)
    case TypeofType(e) => ExprNames(env, e)
  }

  function ElementsNames(env: Env, es: seq<Element>): seq<string>
    decreases es
  {
    if es == [] then [] else TypesNames(env, es[0].arguments) + ElementsNames(env, es[1..])
  }

  /** The template arguments, and then the element that may name a declaration of this module: the
      first one, or the one after the module's namespace when the symbol is spelled from the root or
      its first element is not declared here. */
  function SymbolNames(env: Env, s: Symbol): seq<string>
    decreases s
  {
    match s.start
    case TypeofStart(ty) => TypeNames(env, ty)
    case _ =>
      if s.elements == [] then []
      else ElementsNames(env, s.elements) + Target(env, s)
  }

  function Target(env: Env, s: Symbol): seq<string>
    requires s.elements != []
  {
    var qualified := s.start.Root? || Lookup(env.decls, s.elements[0].name).None?;
    var n := |env.namespace|;
    if !qualified then [s.elements[0].name]
    else if |s.elements| <= n then []
    else if forall i :: 0 <= i < n ==> s.elements[i].name == env.namespace[i] then [s.elements[n].name]
    else []
  }

  function MaybeType(env: Env, t: Option<Type>): seq<string> {
    if t.Some? then TypeNames(env, t.value) else []
  }

  function MaybeExpr(env: Env, e: Option<Expr>): seq<string> {
    if e.Some? then ExprNames(env, e.value) else []
  }

  function MembersNames(env: Env, ms: seq<Member>): seq<string> {
    if ms == [] then [] else MemberNames(env, ms[0]) + MembersNames(env, ms[1..])
  }

  function MemberNames(env: Env, m: Member): seq<string> {
    match m
    case VariableMember(ty) => TypeNames(env, ty)
    case ConstantMember(ty, e) => MaybeType(env, ty) + MaybeExpr(env, e)
    case FunctionMember(isTemplate, params, ret) =>
      if isTemplate then [] else TypesNames(env, params) + TypeNames(env, ret)
    case AliasMember(ty) => TypeNames(env, ty)
  }

  // What the walk over one declaration does, in order.  `MarkOrdered` is the early change of the
  // declaration's own state.
  datatype Action = Visit(name: string) | MarkOrdered

  function Visits(names: seq<string>): (acts: seq<Action>)
    ensures |acts| == |names|
    ensures forall i :: 0 <= i < |names| ==> acts[i] == Visit(names[i])
  {
    seq(|names|, i requires 0 <= i < |names| => Visit(names[i]))
  }

  /** Structs and unions are marked before their members are walked, enums after their values. */
  function Walk(env: Env, k: Kind): seq<Action> {
    match k
    case Variable(ty, e) => Visits(MaybeType(env, ty) + MaybeExpr(env, e))
    case Constant(ty, e) => Visits(MaybeType(env, ty) + MaybeExpr(env, e))
    case Function(isTemplate, params, ret) =>
      if isTemplate then [] else Visits(TypesNames(env, params) + TypeNames(env, ret))
    case Struct(isTemplate, members) => if isTemplate then [] else [MarkOrdered] + Visits(MembersNames(env, members))
    case Union(isTemplate, members) => if isTemplate then [] else [MarkOrdered] + Visits(MembersNames(env, members))
    case Enum(ty, values, functions) =>
      Visits(MaybeType(env, ty) + ValuesNames(env, values)) + [MarkOrdered] + Visits(MembersNames(env, functions))
    case Extend => []
    case Alias(ty) => Visits(TypeNames(env, ty))
    case ExternVariable(ty) => Visits(TypeNames(env, ty))
    case ExternFunction(params, ret) => Visits(TypesNames(env, params) + TypeNames(env, ret))
    case ExternType => []
  }

  predicate MayBeMarkedEarly(d: Decl) {
    d.kind.Struct? || d.kind.Union? || d.kind.Enum?
  }

  /** Declaration `u` refers to declaration `v`: the walk over `u` arrives at a name that means `v`. */
  ghost predicate Refers(env: Env, u: nat, v: nat) {
    u < |env.decls| && exists k :: 0 <= k < |Walk(env, env.decls[u].kind)| && ActsOn(env, u, k, v)
  }

  ghost predicate ActsOn(env: Env, u: nat, k: nat, v: nat)
    requires u < |env.decls| && k < |Walk(env, env.decls[u].kind)|
  {
    var a := Walk(env, env.decls[u].kind)[k];
    a.Visit? && Lookup(env.decls, a.name) == Some(v)
  }
}
