// What a declaration refers to, on its syntax tree: symbols that occur in it, and what each of them means.

module Occurrences {
  import opened Wrappers
  import opened Declarations
  import opened Order
  import opened OrderProof
  import opened OrderCycles

  // ---------- Parts of the syntax tree ----------

  datatype Node =
    | KindNode(kind: Kind)
    | MemberNode(member: Member)
    | TypeNode(ty: Type)
    | ExprNode(e: Expr)
    | ValueNode(value: Value)
    | SymbolNode(symbol: Symbol)

  predicate IsType(c: Node, ts: seq<Type>) {
    c.TypeNode? && c.ty in ts
  }

  predicate IsExpr(c: Node, es: seq<Expr>) {
    c.ExprNode? && c.e in es
  }

  predicate IsValue(c: Node, vs: seq<Value>) {
    c.ValueNode? && c.value in vs
  }

  predicate IsMember(c: Node, ms: seq<Member>) {
    c.MemberNode? && c.member in ms
  }

  predicate Maybe(c: Node, t: Option<Type>, e: Option<Expr>) {
    (t.Some? && c == TypeNode(t.value)) || (e.Some? && c == ExprNode(e.value))
  }

  predicate Signature(c: Node, params: seq<Type>, ret: Type) {
    IsType(c, params) || c == TypeNode(ret)
  }

  /** `c` stands directly in `n`. */
  predicate PartOf(n: Node, c: Node) {
    match n
    case KindNode(k) =>
      (match k
       case Variable(t, e) => Maybe(c, t, e)
       case Constant(t, e) => Maybe(c, t, e)
       case Function(_, params, ret) => Signature(c, params, ret)
       case Struct(_, members) => IsMember(c, members)
       case Union(_, members) => IsMember(c, members)
       case Enum(t, values, functions) => Maybe(c, t, None) || IsValue(c, values) || IsMember(c, functions)
       case Alias(t) => c == TypeNode(t)
       case ExternVariable(t) => c == TypeNode(t)
       case ExternFunction(params, ret) => Signature(c, params, ret)
       case Extend => false
       case ExternType => false)
    case MemberNode(m) =>
      (match m
       case VariableMember(t) => c == TypeNode(t)
       case ConstantMember(t, e) => Maybe(c, t, e)
       case FunctionMember(_, params, ret) => Signature(c, params, ret)
       case AliasMember(t) => c == TypeNode(t))
    case TypeNode(t) =>
      (match t
       case SymbolType(s) => c == SymbolNode(s)
       case FunctionType(params, ret) => Signature(c, params, ret)
       case PointerType(base) => c == TypeNode(base)
       case ArrayType(count, base) => c == ExprNode(count) || c == TypeNode(base)
       case SliceType(base) => c == TypeNode(base)
       case MembersType(members) => IsType(c, members)
       case EnumType(values) => IsValue(c, values)
       case TypeofType(e) => c == ExprNode(e))
    case ExprNode(e) =>
      (match e
       case SymbolExpr(s) => c == SymbolNode(s)
       case Literal => false
       case ListExpr(t, elements) => c == TypeNode(t) || IsExpr(c, elements)
       case SliceExpr(t, start, count) => c == TypeNode(t) || c == ExprNode(start) || c == ExprNode(count)
       case InitExpr(t, members) => c == TypeNode(t) || IsValue(c, members)
       case CastExpr(t, x) => c == TypeNode(t) || c == ExprNode(x)
       case Defined(s) => c == SymbolNode(s)
       case SizeofExpr(t) => c == TypeNode(t)
       case Compound(parts) => IsExpr(c, parts))
    case ValueNode(v) => v.Value? && c == ExprNode(v.e)
    case SymbolNode(s) =>
      (s.start.TypeofStart? && c == TypeNode(s.start.ty)) || exists el :: el in s.elements && IsType(c, el.arguments)
  }

  /** What the ordering passes over: template declarations, the type of a list or slice literal, and the template
      arguments of a symbol that starts with `typeof`. */
  predicate LeftOut(n: Node, c: Node) {
    match n
    case KindNode(k) =>
      (match k
       case Function(isTemplate, _, _) => isTemplate
       case Struct(isTemplate, _) => isTemplate
       case Union(isTemplate, _) => isTemplate
       case _ => false)
    case MemberNode(m) => m.FunctionMember? && m.isTemplate
    case ExprNode(e) => (e.ListExpr? || e.SliceExpr?) && c.TypeNode?
    case SymbolNode(s) => s.start.TypeofStart? && c != TypeNode(s.start.ty)
    case _ => false
  }

  predicate Inside(n: Node, c: Node) {
    PartOf(n, c) && !LeftOut(n, c)
  }

  /** From a node down to a symbol. */
  predicate IsDescent(path: seq<Node>) {
    path != [] && path[|path| - 1].SymbolNode? && forall j :: 0 <= j < |path| - 1 ==> Inside(path[j], path[j + 1])
  }

  predicate Leads(path: seq<Node>, n: Node, s: Symbol) {
    IsDescent(path) && path[0] == n && path[|path| - 1] == SymbolNode(s)
  }

  /** The symbol `s` occurs in `n`. */
  ghost predicate Occurs(n: Node, s: Symbol) {
    exists path :: Leads(path, n, s)
  }

  /** It occurs there outside of the members of a struct, a union or an enum. */
  ghost predicate OccursBeforeMembers(n: Node, s: Symbol) {
    exists path: seq<Node> :: Leads(path, n, s) && |path| > 1 && !path[1].MemberNode?
  }

  // ---------- What a symbol means ----------

  /** The declaration of a name: the first one that is not an extend declaration. */
  ghost predicate Declares(env: Env, v: nat, name: string) {
    v < |env.decls| && env.decls[v].name == name && !env.decls[v].kind.Extend? &&
    forall w :: 0 <= w < v && env.decls[w].name == name ==> env.decls[w].kind.Extend?
  }

  function Spelled(s: Symbol): (names: seq<string>)
    ensures |names| == |s.elements| && forall k :: 0 <= k < |names| ==> names[k] == s.elements[k].name
  {
    seq(|s.elements|, k requires 0 <= k < |s.elements| => s.elements[k].name)
  }

  /** A symbol means the declaration of its first name.  Spelled from the root, or when its first name is not declared in
      this module, it means the declaration of the name that follows the module's namespace. */
  ghost predicate Means(env: Env, s: Symbol, v: nat) {
    v < |env.decls| && Declares(env, v, env.decls[v].name) &&
    ((s.start.Plain? && [env.decls[v].name] <= Spelled(s)) ||
     (!s.start.TypeofStart? && env.namespace + [env.decls[v].name] <= Spelled(s) &&
      (s.start.Root? || forall w :: !Declares(env, w, s.elements[0].name))))
  }

  // ---------- Names that the walk arrives at ----------

  ghost predicate Targets(env: Env, s: Symbol, name: string) {
    !s.start.TypeofStart? && s.elements != [] && name in Target(env, s)
  }

  ghost predicate Arrives(env: Env, n: Node, name: string) {
    match n
    case KindNode(k) => Visit(name) in Walk(env, k)
    case MemberNode(m) => name in MemberNames(env, m)
    case TypeNode(t) => name in TypeNames(env, t)
    case ExprNode(e) => name in ExprNames(env, e)
    case ValueNode(v) => name in ValueNames(env, v)
    case SymbolNode(s) => name in SymbolNames(env, s)
  }

  lemma {:induction false} InTypes(env: Env, ts: seq<Type>, t: Type, name: string)
    requires t in ts && name in TypeNames(env, t)
    ensures name in TypesNames(env, ts)
    decreases |ts|
  {
    hide TypeNames;
    if ts[0] != t {
      InTypes(env, ts[1..], t, name);
    }
  }

  lemma {:induction false} InExprs(env: Env, es: seq<Expr>, e: Expr, name: string)
    requires e in es && name in ExprNames(env, e)
    ensures name in ExprsNames(env, es)
    decreases |es|
  {
    hide ExprNames;
    if es[0] != e {
      InExprs(env, es[1..], e, name);
    }
  }

  lemma {:induction false} InValues(env: Env, vs: seq<Value>, v: Value, name: string)
    requires v in vs && name in ValueNames(env, v)
    ensures name in ValuesNames(env, vs)
    decreases |vs|
  {
    hide ValueNames;
    if vs[0] != v {
      InValues(env, vs[1..], v, name);
    }
  }

  lemma {:induction false} InMembers(env: Env, ms: seq<Member>, m: Member, name: string)
    requires m in ms && name in MemberNames(env, m)
    ensures name in MembersNames(env, ms)
    decreases |ms|
  {
    hide MemberNames;
    if ms[0] != m {
      InMembers(env, ms[1..], m, name);
    }
  }

  lemma {:induction false} InElements(env: Env, es: seq<Element>, e: Element, t: Type, name: string)
    requires e in es && t in e.arguments && name in TypeNames(env, t)
    ensures name in ElementsNames(env, es)
    decreases |es|
  {
    hide TypeNames;
    if es[0] == e {
      InTypes(env, e.arguments, t, name);
    } else {
      InElements(env, es[1..], e, t, name);
    }
  }

  lemma {:induction false} PickType(env: Env, ts: seq<Type>, name: string) returns (t: Type)
    requires name in TypesNames(env, ts)
    ensures t in ts && name in TypeNames(env, t)
    decreases |ts|
  {
    hide TypeNames;
    t := ts[0];
    if name !in TypeNames(env, t) {
      t := PickType(env, ts[1..], name);
    }
  }

  lemma {:induction false} PickExpr(env: Env, es: seq<Expr>, name: string) returns (e: Expr)
    requires name in ExprsNames(env, es)
    ensures e in es && name in ExprNames(env, e)
    decreases |es|
  {
    hide ExprNames;
    e := es[0];
    if name !in ExprNames(env, e) {
      e := PickExpr(env, es[1..], name);
    }
  }

  lemma {:induction false} PickValue(env: Env, vs: seq<Value>, name: string) returns (v: Value)
    requires name in ValuesNames(env, vs)
    ensures v in vs && name in ValueNames(env, v)
    decreases |vs|
  {
    hide ValueNames;
    v := vs[0];
    if name !in ValueNames(env, v) {
      v := PickValue(env, vs[1..], name);
    }
  }

  lemma {:induction false} PickMember(env: Env, ms: seq<Member>, name: string) returns (m: Member)
    requires name in MembersNames(env, ms)
    ensures m in ms && name in MemberNames(env, m)
    decreases |ms|
  {
    hide MemberNames;
    m := ms[0];
    if name !in MemberNames(env, m) {
      m := PickMember(env, ms[1..], name);
    }
  }

  lemma {:induction false} PickArgument(env: Env, es: seq<Element>, name: string) returns (e: Element, t: Type)
    requires name in ElementsNames(env, es)
    ensures e in es && t in e.arguments && name in TypeNames(env, t)
    decreases |es|
  {
    hide TypeNames;
    e := es[0];
    if name in TypesNames(env, e.arguments) {
      t := PickType(env, e.arguments, name);
    } else {
      e, t := PickArgument(env, es[1..], name);
    }
  }

  // ---------- Up the tree ----------

  lemma {:induction false} TypeUp(env: Env, t: Type, c: Node, name: string)
    requires Inside(TypeNode(t), c) && Arrives(env, c, name)
    ensures name in TypeNames(env, t)
  {
    match t
    case FunctionType(params, _) =>
      if IsType(c, params) { InTypes(env, params, c.ty, name); }
    case MembersType(members) => InTypes(env, members, c.ty, name);
    case EnumType(values) => InValues(env, values, c.value, name);
    case _ =>
  }

  lemma {:induction false} ExprUp(env: Env, e: Expr, c: Node, name: string)
    requires Inside(ExprNode(e), c) && Arrives(env, c, name)
    ensures name in ExprNames(env, e)
  {
    match e
    case ListExpr(_, elements) => InExprs(env, elements, c.e, name);
    case InitExpr(_, members) =>
      if IsValue(c, members) { InValues(env, members, c.value, name); }
    case Compound(parts) => InExprs(env, parts, c.e, name);
    case _ =>
  }

  lemma {:induction false} SymbolUp(env: Env, s: Symbol, c: Node, name: string)
    requires Inside(SymbolNode(s), c) && Arrives(env, c, name)
    ensures name in SymbolNames(env, s)
  {
    if !s.start.TypeofStart? {
      var el :| el in s.elements && IsType(c, el.arguments);
      InElements(env, s.elements, el, c.ty, name);
    }
  }

  lemma {:induction false} MemberUp(env: Env, m: Member, c: Node, name: string)
    requires Inside(MemberNode(m), c) && Arrives(env, c, name)
    ensures name in MemberNames(env, m)
  {
    hide TypeNames, ExprNames;
    if m.FunctionMember? && IsType(c, m.params) {
      InTypes(env, m.params, c.ty, name);
    }
  }

  lemma {:induction false} InVisits(names: seq<string>, name: string)
    ensures Visit(name) in Visits(names) <==> name in names
    ensures MarkOrdered !in Visits(names)
  {
    if name in names {
      var k :| 0 <= k < |names| && names[k] == name;
      assert Visits(names)[k] == Visit(name);
    }
  }

  /** The names that a declaration visits before its mark, and after it. */
  function EarlyNames(env: Env, k: Kind): seq<string> {
    match k
    case Variable(ty, e) => MaybeType(env, ty) + MaybeExpr(env, e)
    case Constant(ty, e) => MaybeType(env, ty) + MaybeExpr(env, e)
    case Function(isTemplate, params, ret) => if isTemplate then [] else TypesNames(env, params) + TypeNames(env, ret)
    case Enum(ty, values, _) => MaybeType(env, ty) + ValuesNames(env, values)
    case Alias(ty) => TypeNames(env, ty)
    case ExternVariable(ty) => TypeNames(env, ty)
    case ExternFunction(params, ret) => TypesNames(env, params) + TypeNames(env, ret)
    case _ => []
  }

  function LateNames(env: Env, k: Kind): seq<string> {
    match k
    case Struct(isTemplate, members) => if isTemplate then [] else MembersNames(env, members)
    case Union(isTemplate, members) => if isTemplate then [] else MembersNames(env, members)
    case Enum(_, _, functions) => MembersNames(env, functions)
    case _ => []
  }

  lemma {:induction false} WalkSplits(env: Env, k: Kind)
    ensures Walk(env, k) == Visits(EarlyNames(env, k)) ||
            Walk(env, k) == Visits(EarlyNames(env, k)) + [MarkOrdered] + Visits(LateNames(env, k))
    ensures Walk(env, k) == Visits(EarlyNames(env, k)) ==> LateNames(env, k) == [] || k.Struct? || k.Union? || k.Enum?
    ensures LateNames(env, k) != [] ==>
              Walk(env, k) == Visits(EarlyNames(env, k)) + [MarkOrdered] + Visits(LateNames(env, k))
  {
    hide TypeNames, ExprNames, MemberNames, MembersNames, TypesNames, ValuesNames, MaybeType, MaybeExpr;
    assert Visits([]) == [];
    assert Visits([]) + [MarkOrdered] == [MarkOrdered];
  }

  lemma {:induction false} WalkNames(env: Env, k: Kind, name: string)
    ensures Visit(name) in Walk(env, k) <==> name in EarlyNames(env, k) || name in LateNames(env, k)
  {
    WalkSplits(env, k);
    InVisits(EarlyNames(env, k), name);
    InVisits(LateNames(env, k), name);
    hide Walk, EarlyNames, LateNames, Visits;
  }

  lemma {:induction false} KindUp(env: Env, k: Kind, c: Node, name: string)
    requires Inside(KindNode(k), c) && Arrives(env, c, name)
    ensures if c.MemberNode? then name in LateNames(env, k) else name in EarlyNames(env, k)
  {
    hide TypeNames, ExprNames, MemberNames, ValueNames, Walk;
    match k
    case Function(_, params, _) =>
      if IsType(c, params) { InTypes(env, params, c.ty, name); }
    case ExternFunction(params, _) =>
      if IsType(c, params) { InTypes(env, params, c.ty, name); }
    case Struct(_, members) => InMembers(env, members, c.member, name);
    case Union(_, members) => InMembers(env, members, c.member, name);
    case Enum(_, values, functions) =>
      if IsValue(c, values) { InValues(env, values, c.value, name); }
      if IsMember(c, functions) { InMembers(env, functions, c.member, name); }
    case _ =>
  }

  lemma {:induction false} StepUp(env: Env, n: Node, c: Node, name: string)
    requires Inside(n, c) && Arrives(env, c, name)
    ensures Arrives(env, n, name)
  {
    match n
    case KindNode(k) =>
      KindUp(env, k, c, name);
      WalkNames(env, k, name);
    case MemberNode(m) => MemberUp(env, m, c, name);
    case TypeNode(t) => TypeUp(env, t, c, name);
    case ExprNode(e) => ExprUp(env, e, c, name);
    case ValueNode(_) =>
    case SymbolNode(s) => SymbolUp(env, s, c, name);
  }

  lemma {:induction false} PathUp(env: Env, path: seq<Node>, n: Node, s: Symbol, name: string)
    requires Leads(path, n, s) && Targets(env, s, name)
    ensures Arrives(env, n, name)
    decreases |path|
  {
    if |path| > 1 {
      hide Arrives, Targets, Inside;
      TailLeads(path, n, s);
      PathUp(env, path[1..], path[1], s, name);
      StepUp(env, n, path[1], name);
    } else {
      hide Target, ElementsNames;
    }
  }

  lemma {:induction false} TailLeads(path: seq<Node>, n: Node, s: Symbol)
    requires Leads(path, n, s) && |path| > 1
    ensures Leads(path[1..], path[1], s) && Inside(n, path[1])
  {
    hide Inside;
    forall j | 0 <= j < |path[1..]| - 1
      ensures Inside(path[1..][j], path[1..][j + 1])
    {
      assert Inside(path[j + 1], path[j + 2]);
    }
  }

  // ---------- Down the tree ----------

  lemma {:induction false} LeadsFrom(n: Node, c: Node, path: seq<Node>, s: Symbol)
    requires Inside(n, c) && Leads(path, c, s)
    ensures Leads([n] + path, n, s)
  {
    hide Inside;
    var more := [n] + path;
    forall j | 0 <= j < |more| - 1
      ensures Inside(more[j], more[j + 1])
    {
      if j > 0 {
        assert Inside(path[j - 1], path[j]);
      }
    }
  }

  lemma {:induction false} DownType(env: Env, t: Type, name: string) returns (path: seq<Node>, s: Symbol)
    requires name in TypeNames(env, t)
    ensures Leads(path, TypeNode(t), s) && Targets(env, s, name)
    decreases t
  {
    var c: Node;
    match t {
      case SymbolType(symbol) =>
        path, s := DownSymbol(env, symbol, name);
        c := SymbolNode(symbol);
      case FunctionType(params, ret) =>
        var x := ret;
        if name in TypesNames(env, params) {
          x := PickType(env, params, name);
        }
        path, s := DownType(env, x, name);
        c := TypeNode(x);
      case PointerType(base) =>
        path, s := DownType(env, base, name);
        c := TypeNode(base);
      case ArrayType(count, base) =>
        if name in ExprNames(env, count) {
          path, s := DownExpr(env, count, name);
          c := ExprNode(count);
        } else {
          path, s := DownType(env, base, name);
          c := TypeNode(base);
        }
      case SliceType(base) =>
        path, s := DownType(env, base, name);
        c := TypeNode(base);
      case MembersType(members) =>
        var x := PickType(env, members, name);
        path, s := DownType(env, x, name);
        c := TypeNode(x);
      case EnumType(values) =>
        var v := PickValue(env, values, name);
        path, s := DownValue(env, v, name);
        c := ValueNode(v);
      case TypeofType(e) =>
        path, s := DownExpr(env, e, name);
        c := ExprNode(e);
    }
    hide Leads, Targets;
    LeadsFrom(TypeNode(t), c, path, s);
    path := [TypeNode(t)] + path;
  }

  lemma {:induction false} DownExpr(env: Env, e: Expr, name: string) returns (path: seq<Node>, s: Symbol)
    requires name in ExprNames(env, e)
    ensures Leads(path, ExprNode(e), s) && Targets(env, s, name)
    decreases e
  {
    var c: Node;
    match e {
      case SymbolExpr(symbol) =>
        path, s := DownSymbol(env, symbol, name);
        c := SymbolNode(symbol);
      case ListExpr(_, elements) =>
        var x := PickExpr(env, elements, name);
        path, s := DownExpr(env, x, name);
        c := ExprNode(x);
      case SliceExpr(_, start, count) =>
        var x := if name in ExprNames(env, start) then start else count;
        path, s := DownExpr(env, x, name);
        c := ExprNode(x);
      case InitExpr(ty, members) =>
        if name in TypeNames(env, ty) {
          path, s := DownType(env, ty, name);
          c := TypeNode(ty);
        } else {
          var v := PickValue(env, members, name);
          path, s := DownValue(env, v, name);
          c := ValueNode(v);
        }
      case CastExpr(ty, x) =>
        if name in TypeNames(env, ty) {
          path, s := DownType(env, ty, name);
          c := TypeNode(ty);
        } else {
          path, s := DownExpr(env, x, name);
          c := ExprNode(x);
        }
      case Defined(symbol) =>
        path, s := DownSymbol(env, symbol, name);
        c := SymbolNode(symbol);
      case SizeofExpr(ty) =>
        path, s := DownType(env, ty, name);
        c := TypeNode(ty);
      case Compound(parts) =>
        var x := PickExpr(env, parts, name);
        path, s := DownExpr(env, x, name);
        c := ExprNode(x);
    }
    hide Leads, Targets;
    LeadsFrom(ExprNode(e), c, path, s);
    path := [ExprNode(e)] + path;
  }

  lemma {:induction false} DownValue(env: Env, v: Value, name: string) returns (path: seq<Node>, s: Symbol)
    requires name in ValueNames(env, v)
    ensures Leads(path, ValueNode(v), s) && Targets(env, s, name)
    decreases v
  {
    path, s := DownExpr(env, v.e, name);
    hide Leads, Targets;
    LeadsFrom(ValueNode(v), ExprNode(v.e), path, s);
    path := [ValueNode(v)] + path;
  }

  lemma {:induction false} DownSymbol(env: Env, symbol: Symbol, name: string) returns (path: seq<Node>, s: Symbol)
    requires name in SymbolNames(env, symbol)
    ensures Leads(path, SymbolNode(symbol), s) && Targets(env, s, name)
    decreases symbol
  {
    if symbol.start.TypeofStart? {
      path, s := DownType(env, symbol.start.ty, name);
      LeadsFrom(SymbolNode(symbol), TypeNode(symbol.start.ty), path, s);
      path := [SymbolNode(symbol)] + path;
    } else if name in Target(env, symbol) {
      path, s := [SymbolNode(symbol)], symbol;
    } else {
      var el, t := PickArgument(env, symbol.elements, name);
      path, s := DownType(env, t, name);
      LeadsFrom(SymbolNode(symbol), TypeNode(t), path, s);
      path := [SymbolNode(symbol)] + path;
    }
  }

  lemma {:induction false} DownMember(env: Env, m: Member, name: string) returns (path: seq<Node>, s: Symbol)
    requires name in MemberNames(env, m)
    ensures Leads(path, MemberNode(m), s) && Targets(env, s, name)
  {
    var c: Node;
    match m {
      case VariableMember(ty) =>
        path, s := DownType(env, ty, name);
        c := TypeNode(ty);
      case ConstantMember(ty, e) =>
        path, s, c := DownMaybe(env, ty, e, name);
      case FunctionMember(_, params, ret) =>
        path, s, c := DownSignature(env, params, ret, name);
      case AliasMember(ty) =>
        path, s := DownType(env, ty, name);
        c := TypeNode(ty);
    }
    hide Leads, Targets;
    LeadsFrom(MemberNode(m), c, path, s);
    path := [MemberNode(m)] + path;
  }

  lemma {:induction false} DownMaybe(env: Env, t: Option<Type>, e: Option<Expr>, name: string)
    returns (path: seq<Node>, s: Symbol, c: Node)
    requires name in MaybeType(env, t) + MaybeExpr(env, e)
    ensures Leads(path, c, s) && Targets(env, s, name) && Maybe(c, t, e)
  {
    if name in MaybeType(env, t) {
      path, s := DownType(env, t.value, name);
      c := TypeNode(t.value);
    } else {
      path, s := DownExpr(env, e.value, name);
      c := ExprNode(e.value);
    }
  }

  lemma {:induction false} DownSignature(env: Env, params: seq<Type>, ret: Type, name: string)
    returns (path: seq<Node>, s: Symbol, c: Node)
    requires name in TypesNames(env, params) + TypeNames(env, ret)
    ensures Leads(path, c, s) && Targets(env, s, name) && Signature(c, params, ret)
  {
    var x := ret;
    if name in TypesNames(env, params) {
      x := PickType(env, params, name);
    }
    path, s := DownType(env, x, name);
    c := TypeNode(x);
  }

  lemma {:induction false} DownEarly(env: Env, k: Kind, name: string) returns (path: seq<Node>, s: Symbol)
    requires name in EarlyNames(env, k)
    ensures Leads(path, KindNode(k), s) && Targets(env, s, name) && |path| > 1 && !path[1].MemberNode?
  {
    var c: Node;
    match k {
      case Variable(ty, e) => path, s, c := DownMaybe(env, ty, e, name);
      case Constant(ty, e) => path, s, c := DownMaybe(env, ty, e, name);
      case Function(_, params, ret) => path, s, c := DownSignature(env, params, ret, name);
      case Enum(ty, values, _) =>
        if name in MaybeType(env, ty) {
          path, s, c := DownMaybe(env, ty, None, name);
        } else {
          var v := PickValue(env, values, name);
          path, s := DownValue(env, v, name);
          c := ValueNode(v);
        }
      case Alias(ty) =>
        path, s := DownType(env, ty, name);
        c := TypeNode(ty);
      case ExternVariable(ty) =>
        path, s := DownType(env, ty, name);
        c := TypeNode(ty);
      case ExternFunction(params, ret) => path, s, c := DownSignature(env, params, ret, name);
    }
    hide Targets;
    LeadsFrom(KindNode(k), c, path, s);
    path := [KindNode(k)] + path;
  }

  lemma {:induction false} DownLate(env: Env, k: Kind, name: string) returns (path: seq<Node>, s: Symbol)
    requires name in LateNames(env, k)
    ensures Leads(path, KindNode(k), s) && Targets(env, s, name)
  {
    var members := match k
      case Struct(_, ms) => ms
      case Union(_, ms) => ms
      case Enum(_, _, ms) => ms;
    var m := PickMember(env, members, name);
    path, s := DownMember(env, m, name);
    hide Targets, Leads;
    LeadsFrom(KindNode(k), MemberNode(m), path, s);
    path := [KindNode(k)] + path;
  }

  // ---------- What a symbol means ----------

  lemma {:induction false} DeclaresExactly(env: Env, v: nat, name: string)
    ensures Declares(env, v, name) <==> Lookup(env.decls, name) == Some(v)
  {
    FirstDeclared(env.decls, name, 0);
  }

  lemma {:induction false} FirstDeclared(decls: seq<Decl>, name: string, i: nat)
    requires i <= |decls|
    ensures LookupFrom(decls, name, i).Some? ==>
              forall w :: i <= w < LookupFrom(decls, name, i).value && decls[w].name == name ==> decls[w].kind.Extend?
    decreases |decls| - i
  {
    if i < |decls| && !(decls[i].name == name && !decls[i].kind.Extend?) {
      FirstDeclared(decls, name, i + 1);
    }
  }

  lemma {:induction false} MeansExactly(env: Env, s: Symbol, v: nat)
    ensures Means(env, s, v) <==>
              v < |env.decls| && Lookup(env.decls, env.decls[v].name) == Some(v) && Targets(env, s, env.decls[v].name)
  {
    if v < |env.decls| {
      var name := env.decls[v].name;
      DeclaresExactly(env, v, name);
      if s.elements != [] {
        forall w
          ensures Declares(env, w, s.elements[0].name) <==> Lookup(env.decls, s.elements[0].name) == Some(w)
        {
          if w >= 0 {
            DeclaresExactly(env, w, s.elements[0].name);
          }
        }
      }
    }
  }

  // ---------- References are occurrences ----------

  ghost predicate RefersTo(env: Env, u: nat, s: Symbol, v: nat) {
    u < |env.decls| && Occurs(KindNode(env.decls[u].kind), s) && Means(env, s, v)
  }

  ghost predicate RefersEarly(env: Env, u: nat, s: Symbol, v: nat) {
    u < |env.decls| && OccursBeforeMembers(KindNode(env.decls[u].kind), s) && Means(env, s, v)
  }

  /** The walk over a declaration arrives at another one if and only if a symbol that means it occurs in the first. */
  lemma {:induction false} RefersExactly(env: Env, u: nat, v: nat)
    ensures Refers(env, u, v) <==> exists s :: RefersTo(env, u, s, v)
  {
    if Refers(env, u, v) {
      var s := Referring(env, u, v);
    }
    if s :| RefersTo(env, u, s, v) {
      var n := KindNode(env.decls[u].kind);
      var path :| Leads(path, n, s);
      var name := env.decls[v].name;
      MeansExactly(env, s, v);
      PathUp(env, path, n, s, name);
      var k :| 0 <= k < |Walk(env, env.decls[u].kind)| && Walk(env, env.decls[u].kind)[k] == Visit(name);
      assert ActsOn(env, u, k, v);
    }
  }

  lemma {:induction false} Referring(env: Env, u: nat, v: nat) returns (s: Symbol)
    requires Refers(env, u, v)
    ensures RefersTo(env, u, s, v)
  {
    var k :| 0 <= k < |Walk(env, env.decls[u].kind)| && ActsOn(env, u, k, v);
    var name := Walk(env, env.decls[u].kind)[k].name;
    var kind := env.decls[u].kind;
    WalkNames(env, kind, name);
    assert name == env.decls[v].name;
    var path: seq<Node>;
    if name in EarlyNames(env, kind) {
      path, s := DownEarly(env, kind, name);
    } else {
      path, s := DownLate(env, kind, name);
    }
    MeansExactly(env, s, v);
    hide Leads, Means, Targets, Walk;
  }

  /** It does so before a mark if and only if the symbol occurs outside of the members of a struct, a union or an enum. */
  lemma {:induction false} HardExactly(env: Env, u: nat, v: nat)
    ensures Hard(env, u, v) <==> exists s :: RefersEarly(env, u, s, v)
  {
    if Hard(env, u, v) {
      var s := ReferringEarly(env, u, v);
    }
    if s :| RefersEarly(env, u, s, v) {
      EarlyIsHard(env, u, s, v);
    }
  }

  lemma {:induction false} ReferringEarly(env: Env, u: nat, v: nat) returns (s: Symbol)
    requires Hard(env, u, v)
    ensures RefersEarly(env, u, s, v)
  {
    var kind := env.decls[u].kind;
    var k :| 0 <= k < |Walk(env, kind)| && HardAt(env, u, k, v);
    var name := Walk(env, kind)[k].name;
    assert name == env.decls[v].name;
    BeforeMark(env, kind, k);
    var path: seq<Node>;
    path, s := DownEarly(env, kind, name);
    MeansExactly(env, s, v);
    hide Leads, Means, Targets, Walk;
  }

  lemma {:induction false} BeforeMark(env: Env, k: Kind, j: nat)
    requires j < |Walk(env, k)| && Walk(env, k)[j].Visit? && MarkOrdered !in Walk(env, k)[..j]
    ensures Walk(env, k)[j].name in EarlyNames(env, k)
  {
    WalkSplits(env, k);
    var acts, early := Walk(env, k), Visits(EarlyNames(env, k));
    hide Walk, EarlyNames, LateNames;
    forall i | 0 <= i < j
      ensures acts[i] != MarkOrdered
    {
      assert acts[..j][i] == acts[i];
    }
    var n := |early|;
    assert n == |acts| || acts[n] == MarkOrdered;
  }

  lemma {:induction false} EarlyIsHard(env: Env, u: nat, s: Symbol, v: nat)
    requires RefersEarly(env, u, s, v)
    ensures Hard(env, u, v)
  {
    var kind := env.decls[u].kind;
    var n, name := KindNode(kind), env.decls[v].name;
    var path: seq<Node> :| Leads(path, n, s) && |path| > 1 && !path[1].MemberNode?;
    MeansExactly(env, s, v);
    TailLeads(path, n, s);
    PathUp(env, path[1..], path[1], s, name);
    KindUp(env, kind, path[1], name);
    WalkSplits(env, kind);
    var names := EarlyNames(env, kind);
    hide Walk, EarlyNames, LateNames, Leads, Means, Targets;
    var k :| 0 <= k < |names| && names[k] == name;
    assert Walk(env, kind)[k] == Visit(name);
    assert Walk(env, kind)[..k] == Visits(names)[..k];
    assert HardAt(env, u, k, v);
  }

  /** After a successful ordering every symbol that occurs in a declaration means one that comes before it, or a struct, a
      union or an enum that was marked early and leads back to it. */
  lemma {:induction false} OccurrencesComeFirst(env: Env)
    requires UniqueNames(env) && ExtendsTrail(env) && OrderDecls(env).Done?
    ensures forall u, s, v :: RefersTo(env, u, s, v) ==> Respected(env, OrderDecls(env).st.order, u, v)
  {
    OrderingIsTopological(env);
    var order := OrderDecls(env).st.order;
    forall u, s, v | RefersTo(env, u, s, v)
      ensures Respected(env, order, u, v)
    {
      RefersExactly(env, u, v);
      assert IsTopological(env, order);
    }
  }
}
