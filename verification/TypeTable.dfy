// The table of types: every pointer, array, slice, function and unnamed struct type is looked up by
// its printed name before it is made, and each type that is made joins the list of types to emit.

module TypeTable {
  import opened Wrappers
  import opened TypeName
  import Layout
  import LayoutProof

  const TWO64: nat := 0x1_0000_0000_0000_0000
  const SIZEOF_MAX: nat := 0x7FFF_FFFF_FFFF_FFFF
  const UNSIZED: nat := 0xFFFF_FFFF_FFFF_FFFF

  // ---------- The guard on array sizes ----------

  /** The size of an array, or None when the guard of the compiler stops it.  Sizes are 64-bit unsigned numbers. */
  function GuardedSize(count: nat, size: nat): Option<nat>
  {
    var product := (count * size) % TWO64;
    var overflow := count != 0 && product / count != size;
    if overflow || product > SIZEOF_MAX then None else Some(product)
  }

  /** The guard lets exactly the products through that neither wrap nor exceed the greatest object size. */
  lemma {:induction false} GuardIsExact(count: nat, size: nat)
    requires count < TWO64 && size < TWO64
    ensures GuardedSize(count, size) == if count * size <= SIZEOF_MAX then Some(count * size) else None
    ensures SIZEOF_MAX == 0x7FFF_FFFF_FFFF_FFFF
  {
    var product := count * size;
    if count != 0 {
      QuotientOf(count, size, product % TWO64);
    }
  }

  lemma {:induction false} QuotientOf(count: nat, size: nat, wrapped: nat)
    requires count != 0 && wrapped <= count * size
    ensures wrapped / count == size <==> wrapped == count * size
  {
    var q := wrapped / count;
    assert wrapped == count * q + wrapped % count;
    Distribute(count, size, q);
    if wrapped == count * size {
      NoQuotient(count, size - q, wrapped % count);
    }
  }

  lemma {:induction false} Distribute(count: nat, size: nat, q: nat)
    ensures count * (size - q) == count * size - count * q
  {
  }

  lemma {:induction false} NoQuotient(count: nat, d: int, r: nat)
    requires r < count && count * d == r
    ensures d == 0
  {
    assert d >= 1 ==> count * d >= count;
    assert d <= -1 ==> count * d <= -(count as int);
  }

  // ---------- Type objects ----------

  datatype Data =
    | Primitive
    | Aggregate                                                  // a struct or union
    | External
    | FunctionTo(parameters: seq<TypeObject>, result: TypeObject)
    | PointerTo(base: TypeObject)
    | ArrayOf(count: nat, base: TypeObject)
    | SliceOf(base: TypeObject)

  class TypeObject {
    const name: string
    const data: Data
    ghost const shape: Shape
    var size: nat
    var complete: bool             // false for a struct or union whose members are still being added
    var members: seq<TypeObject>

    constructor (data: Data, size: nat, complete: bool, members: seq<TypeObject>, name: string, ghost shape: Shape)
      ensures this.data == data && this.size == size && this.complete == complete && this.members == members
      ensures this.name == name && this.shape == shape
    {
      this.data, this.size, this.complete, this.members, this.name, this.shape := data, size, complete, members, name, shape;
    }
  }

  predicate ByName(t: Shape) {
    !t.Atom? && !t.Instance?
  }

  /** The contents of a type object are those of its shape, and are known themselves. */
  ghost predicate Consistent(t: TypeObject, known: set<TypeObject>) {
    WellNamed(t.shape) && t.name == Name(t.shape) &&
    match t.data
    case FunctionTo(parameters, result) =>
      t.shape.Function? && result in known && result.shape == t.shape.result && |parameters| == |t.shape.parameters| &&
      forall k :: 0 <= k < |parameters| ==> parameters[k] in known && parameters[k].shape == t.shape.parameters[k]
    case PointerTo(base) => t.shape == Pointer(base.shape) && base in known
    case ArrayOf(count, base) => t.shape == Array(count, base.shape) && base in known
    case SliceOf(base) => t.shape == Slice(base.shape) && base in known
    case Aggregate => t.shape.Atom? || t.shape.Instance? || t.shape.Struct? || t.shape.Union?
    case Primitive => t.shape.Atom?
    case External => t.shape.Atom?
  }

  /** The types that the C definition of a type needs to be complete. */
  ghost function Parts(t: TypeObject): set<Shape>
    reads t`members
  {
    match t.data
    case ArrayOf(_, base) => {base.shape}
    case SliceOf(base) => {Pointer(base.shape)}
    case Aggregate => set m | m in t.members :: m.shape
    case _ => {}
  }

  ghost predicate Defines(ts: seq<TypeObject>, part: Shape) {
    exists t :: t in ts && t.shape == part
  }

  ghost predicate AfterParts(ts: seq<TypeObject>, i: nat)
    requires i < |ts|
    reads ts
  {
    forall part :: part in Parts(ts[i]) ==> Defines(ts[..i], part)
  }

  // ---------- What the table keeps ----------

  /** No two known types have one name, and the table has every one that is looked up by name.  Declarations
      and aliases enter their types under identifiers. */
  ghost predicate Interned(symbols: seq<(string, TypeObject)>, known: set<TypeObject>) {
    (forall t :: t in known ==> Consistent(t, known)) &&
    (forall t, u :: t in known && u in known && t.name == u.name ==> t == u) &&
    (forall e :: e in symbols ==> e.1 in known && (e.1.name == e.0 || IsWord(e.0))) &&
    (forall t :: t in known && ByName(t.shape) ==> (t.name, t) in symbols)
  }

  ghost predicate MembersListed(t: TypeObject, types: seq<TypeObject>)
    reads t
  {
    (t.members != [] ==> t.data.Aggregate?) && forall m :: m in t.members ==> m in types
  }

  /** The list has every complete type once, and the members of an aggregate are on it. */
  ghost predicate Listed(types: seq<TypeObject>, known: set<TypeObject>)
    reads known
  {
    (forall t :: t in types ==> t in known) &&
    (forall t :: t in known ==> (t in types <==> t.complete)) &&
    (forall t :: t in known && !t.complete ==> t.data.Aggregate? || (t.data.External? && t.size == UNSIZED)) &&
    (forall t :: t in known ==> MembersListed(t, types)) &&
    (forall i, j :: 0 <= i < j < |types| ==> types[i] != types[j])
  }

  /** A type on the list follows its parts exactly when it was not made too early. */
  ghost predicate Ordered(types: seq<TypeObject>, early: set<TypeObject>)
    reads types
  {
    (forall t :: t in early ==> t.data.ArrayOf? && t in types) &&
    forall i :: 0 <= i < |types| ==> (AfterParts(types, i) <==> types[i] !in early)
  }

  /** A type that is made by name has its size.  That of an array is the one that its elements have now, unless the
      array was made too early. */
  ghost predicate MeasuredType(t: TypeObject, known: set<TypeObject>, early: set<TypeObject>, word: nat)
    reads known, t
  {
    match t.data
    case PointerTo(_) => t.size == word
    case FunctionTo(_, _) => t.size == word
    case SliceOf(_) => t.size == word + word
    case ArrayOf(count, base) => base in known && (t !in early ==> base.complete && t.size == count * base.size)
    case _ => true
  }

  ghost predicate Measured(known: set<TypeObject>, early: set<TypeObject>, word: nat)
    reads known
  {
    forall t :: t in known ==> MeasuredType(t, known, early, word)
  }

  lemma {:induction false} NewMeasured(t: TypeObject, known: set<TypeObject>, early: set<TypeObject>, word: nat)
    requires t.data.ArrayOf? ==> t.data.base in known && t.size == t.data.count * t.data.base.size
    requires t.data.ArrayOf? || MeasuredType(t, known, early, word)
    ensures MeasuredType(t, known + {t}, if t.data.ArrayOf? && !t.data.base.complete then early + {t} else early, word)
  {
  }

  lemma {:induction false} MeasureMore(known: set<TypeObject>, early: set<TypeObject>, word: nat, t: TypeObject,
                                       early': set<TypeObject>)
    requires Measured(known, early, word) && early <= early' && early' <= early + {t}
    requires MeasuredType(t, known + {t}, early', word)
    ensures Measured(known + {t}, early', word)
  {
    forall u | u in known
      ensures MeasuredType(u, known + {t}, early', word)
    {
      assert MeasuredType(u, known, early, word);
    }
  }

  /** Two types are the same object exactly when they have the same structure. */
  lemma {:induction false} SameObject(symbols: seq<(string, TypeObject)>, known: set<TypeObject>, t: TypeObject,
                                      u: TypeObject)
    requires Interned(symbols, known) && t in known && u in known
    ensures t == u <==> t.shape == u.shape
  {
    assert Consistent(t, known) && Consistent(u, known);
    if t.shape == u.shape {
      assert t.name == u.name;
    }
  }

  /** A name that is looked up and not found belongs to no known type. */
  lemma {:induction false} NotKnown(symbols: seq<(string, TypeObject)>, known: set<TypeObject>, shape: Shape)
    requires Interned(symbols, known) && WellNamed(shape) && ByName(shape)
    requires forall e :: e in symbols ==> e.0 != Name(shape)
    ensures forall t :: t in known ==> t.name != Name(shape)
  {
    forall t | t in known
      ensures t.name != Name(shape)
    {
      assert Consistent(t, known);
      if t.name == Name(shape) {
        SameName(t.shape, shape);
      }
    }
  }

  lemma {:induction false} NotAWord(shape: Shape)
    requires WellNamed(shape) && ByName(shape)
    ensures !IsWord(Name(shape))
  {
    SplitName(shape);
    NextChar(shape);
    hide Name, Rest, First, WellNamed;
    if shape.Instance? || shape.Atom? {
    } else {
      var c := Rest(shape)[0];
      assert Name(shape)[|First(shape)|] == c && c in Name(shape) && !WordChar(c);
    }
  }

  /** And one that is found belongs to the type of that structure. */
  lemma {:induction false} Found(symbols: seq<(string, TypeObject)>, known: set<TypeObject>, shape: Shape,
                                 t: TypeObject)
    requires Interned(symbols, known) && WellNamed(shape) && ByName(shape) && (Name(shape), t) in symbols
    ensures t in known && t.shape == shape
  {
    NotAWord(shape);
    var e := (Name(shape), t);
    assert e in symbols && e.1 in known && e.1.name == e.0;
    assert Consistent(t, known);
    SameName(t.shape, shape);
  }

  // ---------- One more type ----------

  lemma {:induction false} ConsistentIn(t: TypeObject, known: set<TypeObject>, more: set<TypeObject>)
    requires Consistent(t, known) && known <= more
    ensures Consistent(t, more)
  {
  }

  lemma {:induction false} InternMore(symbols: seq<(string, TypeObject)>, known: set<TypeObject>, t: TypeObject)
    requires Interned(symbols, known) && Consistent(t, known + {t}) && forall u :: u in known ==> u.name != t.name
    ensures Interned(symbols + [(t.name, t)], known + {t})
    ensures !ByName(t.shape) ==> Interned(symbols, known + {t})
  {
    forall u | u in known
      ensures Consistent(u, known + {t})
    {
      ConsistentIn(u, known, known + {t});
    }
    hide Consistent, ByName;
  }

  lemma {:induction false} ListMore(types: seq<TypeObject>, known: set<TypeObject>, t: TypeObject)
    requires Listed(types, known) && t !in known && MembersListed(t, types)
    ensures t.complete ==> Listed(types + [t], known + {t})
    ensures !t.complete && (t.data.Aggregate? || (t.data.External? && t.size == UNSIZED)) ==> Listed(types, known + {t})
  {
    assert t !in types;
    var more := types + [t];
    assert forall u :: u in more <==> u in types || u == t;
    assert MembersListed(t, more);
    assert forall u :: u in known ==> MembersListed(u, types) && MembersListed(u, more);
    assert forall i :: 0 <= i < |types| ==> types[i] in types && more[i] == types[i];
  }

  lemma {:induction false} OrderMore(types: seq<TypeObject>, early: set<TypeObject>, t: TypeObject, late: bool)
    requires Ordered(types, early) && t !in types && (late ==> t.data.ArrayOf?)
    requires late <==> !forall part :: part in Parts(t) ==> Defines(types, part)
    ensures Ordered(types + [t], if late then early + {t} else early)
  {
    var more := types + [t];
    forall i | 0 <= i < |more|
      ensures AfterParts(more, i) <==> more[i] !in (if late then early + {t} else early)
    {
      if i < |types| {
        assert more[..i] == types[..i] && more[i] == types[i] && more[i] != t;
      } else {
        assert more[..i] == types && t !in early;
      }
    }
  }

  /** Of the types looked up by name only an array can come before its part. */
  lemma {:induction false} NewParts(symbols: seq<(string, TypeObject)>, known: set<TypeObject>, types: seq<TypeObject>,
                                    t: TypeObject)
    requires Interned(symbols, known) && Listed(types, known) && Consistent(t, known) && MembersListed(t, types)
    requires t.data.SliceOf? ==> Defines(types, Pointer(t.data.base.shape))
    ensures (t.data.ArrayOf? && !t.data.base.complete) <==> !forall part :: part in Parts(t) ==> Defines(types, part)
  {
    if t.data.ArrayOf? {
      var base := t.data.base;
      assert base.shape in Parts(t);
      forall u | u in types && u.shape == base.shape
        ensures u == base
      {
        SameObject(symbols, known, u, base);
      }
    }
  }

  class Context {
    const word: nat
    var symbols: seq<(string, TypeObject)>
    var types: seq<TypeObject>
    ghost var known: set<TypeObject>
    // Arrays that were made before their base type was on the list.
    ghost var early: set<TypeObject>

    ghost predicate Valid()
      reads this, known, types
    {
      Interned(symbols, known) && Listed(types, known) && Ordered(types, early) && Measured(known, early, word)
    }

    constructor (word: nat)
      ensures Valid() && known == {} && symbols == [] && types == [] && early == {} && this.word == word
    {
      this.word, symbols, types, known, early := word, [], [], {}, {};
    }

    /** The search runs from the last element to the first. */
    method Lookup(name: string) returns (found: Option<TypeObject>)
      ensures found.None? ==> forall e :: e in symbols ==> e.0 != name
      ensures found.Some? ==> (name, found.value) in symbols
    {
      var i := |symbols|;
      while i > 0
        invariant 0 <= i <= |symbols|
        invariant forall k :: i <= k < |symbols| ==> symbols[k].0 != name
      {
        i := i - 1;
        if symbols[i].0 == name {
          assert symbols[i] == (name, symbols[i].1);
          return Some(symbols[i].1);
        }
      }
      return None;
    }

    /** `r` is the type looked for: the known one, or one that was made, entered and listed. */
    twostate predicate Added(new r: TypeObject)
      reads this
    {
      known == old(known) + {r} &&
      if r in old(known) then types == old(types) && symbols == old(symbols) && early == old(early)
      else types == old(types) + [r] && symbols == old(symbols) + [(r.name, r)]
    }

    /** Puts a new type into the table and on the list. */
    method Enter(t: TypeObject)
      requires Valid() && t !in known && Consistent(t, known) && t.complete && MembersListed(t, types)
      requires forall u :: u in known ==> u.name != t.name
      requires t.data.SliceOf? ==> Defines(types, Pointer(t.data.base.shape))
      requires t.data.ArrayOf? ==> t.size == t.data.count * t.data.base.size
      requires t.data.ArrayOf? || MeasuredType(t, known, early, word)
      modifies this
      ensures Valid() && Added(t)
      ensures early == if t.data.ArrayOf? && !t.data.base.complete then old(early) + {t} else old(early)
    {
      ghost var tooEarly := if t.data.ArrayOf? && !t.data.base.complete then early + {t} else early;
      NewMeasured(t, known, early, word);
      hide Interned, Listed, Ordered, Consistent, Parts, Defines, ByName, Measured, MeasuredType;
      MeasureMore(known, early, word, t, tooEarly);
      NotListed(types, known, t);
      ConsistentIn(t, known, known + {t});
      InternMore(symbols, known, t);
      ListMore(types, known, t);
      NewParts(symbols, known, types, t);
      OrderMore(types, early, t, t.data.ArrayOf? && !t.data.base.complete);
      symbols := symbols + [(t.name, t)];
      types := types + [t];
      known := known + {t};
      if t.data.ArrayOf? && !t.data.base.complete {
        early := early + {t};
      }
    }

    method UniquePointer(base: TypeObject) returns (r: TypeObject)
      requires Valid() && base in known
      modifies this
      ensures Valid() && Added(r) && r.shape == Pointer(base.shape) && early == old(early) && r.complete
      ensures r.size == word
    {
      hide Interned, Listed, Ordered, Parts, Measured;
      KnownNamed(symbols, known, base);
      var name := "*" + base.name;
      var existing := Lookup(name);
      if existing.Some? {
        Found(symbols, known, Pointer(base.shape), existing.value);
        CompleteByName(symbols, types, known, existing.value);
        SizeByName(symbols, known, early, word, existing.value);
        return existing.value;
      }
      NotKnown(symbols, known, Pointer(base.shape));
      r := new TypeObject(PointerTo(base), word, true, [], name, Pointer(base.shape));
      Enter(r);
    }

    /** The pointer type that a slice starts with comes before the slice. */
    method UniqueSlice(base: TypeObject) returns (r: TypeObject)
      requires Valid() && base in known
      modifies this
      ensures Valid() && r.shape == Slice(base.shape) && early == old(early) && r.complete
      ensures exists p :: p in known && p.shape == Pointer(base.shape) && known == old(known) + {p, r}
      ensures r.size == Layout.SizeOf(Layout.Slice(word))
    {
      hide Interned, Listed, Ordered, Parts, Measured;
      var p := UniquePointer(base);
      KnownNamed(symbols, known, base);
      var name := "[]" + base.name;
      var existing := Lookup(name);
      if existing.Some? {
        Found(symbols, known, Slice(base.shape), existing.value);
        CompleteByName(symbols, types, known, existing.value);
        SizeByName(symbols, known, early, word, existing.value);
        return existing.value;
      }
      NotKnown(symbols, known, Slice(base.shape));
      OnTheList(types, known, p);
      r := new TypeObject(SliceOf(base), 2 * word, true, [], name, Slice(base.shape));
      Enter(r);
    }

    method UniqueArray(count: nat, base: TypeObject) returns (r: Result<TypeObject>)
      requires Valid() && base in known && count < TWO64 && base.size < TWO64
      modifies this
      ensures Valid() && (r.Ok? <==> count * base.size <= SIZEOF_MAX)
      ensures r.Fatal? ==> known == old(known) && types == old(types) && symbols == old(symbols)
      ensures r.Ok? ==> Added(r.value) && r.value.shape == Array(count, base.shape) && r.value.complete
      ensures r.Ok? && (r.value !in old(known) || r.value !in old(early)) ==> r.value.size == count * base.size
      ensures r.Ok? && r.value !in old(known) ==> early == if base.complete then old(early) else old(early) + {r.value}
    {
      hide Interned, Listed, Ordered, Parts, Measured;
      GuardIsExact(count, base.size);
      var size := GuardedSize(count, base.size);
      if size.None? {
        return Fatal("array size exceeds the maximum allowable object size");
      }
      KnownNamed(symbols, known, base);
      var name := "[" + Decimal(count) + "]" + base.name;
      var existing := Lookup(name);
      if existing.Some? {
        Found(symbols, known, Array(count, base.shape), existing.value);
        CompleteByName(symbols, types, known, existing.value);
        SizeByName(symbols, known, early, word, existing.value);
        SameBase(symbols, known, existing.value, base);
        return Result.Ok(existing.value);
      }
      NotKnown(symbols, known, Array(count, base.shape));
      var t := new TypeObject(ArrayOf(count, base), size.value, true, [], name, Array(count, base.shape));
      Enter(t);
      r := Result.Ok(t);
    }

    method FunctionName(parameters: seq<TypeObject>, result: TypeObject) returns (name: string)
      requires Interned(symbols, known) && result in known && forall p :: p in parameters ==> p in known
      ensures name == Name(Function(Shapes(parameters), result.shape))
      ensures WellNamed(Function(Shapes(parameters), result.shape))
    {
      ghost var shapes := Shapes(parameters);
      SignatureNamed(symbols, known, parameters, result);
      hide Interned, Name, Names, MoreNames, WellNamed;
      name := "func" + "(";
      NamesUpTo(shapes, 0);
      if |parameters| != 0 {
        name := name + parameters[0].name;
        NamesUpTo(shapes, 1);
        for i := 1 to |parameters|
          invariant name == "func" + "(" + Names(shapes[..i])
        {
          NamesUpTo(shapes, i + 1);
          name := name + ", " + parameters[i].name;
        }
      }
      assert shapes[..|parameters|] == shapes;
      name := name + ") " + result.name;
    }

    method UniqueFunction(parameters: seq<TypeObject>, result: TypeObject) returns (r: TypeObject)
      requires Valid() && result in known && forall p :: p in parameters ==> p in known
      modifies this
      ensures Valid() && Added(r) && r.shape == Function(Shapes(parameters), result.shape) && early == old(early) &&
              r.complete && r.size == word
    {
      hide Interned, Listed, Ordered, Parts, Name, WellNamed, Measured;
      ghost var shape := Function(Shapes(parameters), result.shape);
      var name := FunctionName(parameters, result);
      var existing := Lookup(name);
      if existing.Some? {
        Found(symbols, known, shape, existing.value);
        CompleteByName(symbols, types, known, existing.value);
        SizeByName(symbols, known, early, word, existing.value);
        return existing.value;
      }
      NotKnown(symbols, known, shape);
      r := new TypeObject(FunctionTo(parameters, result), word, true, [], name, shape);
      assert forall p :: p in parameters ==> p in known;
      Enter(r);
    }

    /** A declared type: complete at once, or a struct or union that gets its members later, or an external type. */
    method Declare(name: string, ghost shape: Shape, data: Data, size: nat) returns (t: TypeObject)
      requires Valid() && WellNamed(shape) && !ByName(shape) && name == Name(shape)
      requires forall u :: u in known ==> u.name != name
      requires data.Primitive? || data.Aggregate? || (data.External? && size == UNSIZED)
      requires shape.Instance? ==> data.Aggregate?
      modifies this
      ensures Valid() && fresh(t) && t.name == name && t.shape == shape && t.data == data && t.size == size &&
              t.members == []
      ensures t.complete == data.Primitive? && known == old(known) + {t} && early == old(early) &&
              symbols == old(symbols)
      ensures types == if data.Primitive? then old(types) + [t] else old(types)
    {
      t := new TypeObject(data, size, data.Primitive?, [], name, shape);
      assert Consistent(t, known);
      hide Interned, Listed, Ordered, Consistent, Measured;
      MeasureMore(known, early, word, t, early);
      NotListed(types, known, t);
      ConsistentIn(t, known, known + {t});
      InternMore(symbols, known, t);
      ListMore(types, known, t);
      if data.Primitive? {
        OrderMore(types, early, t, false);
        types := types + [t];
      }
      known := known + {t};
    }

    /** Enters a type under an identifier. */
    method Bind(name: string, t: TypeObject) returns (r: Result<()>)
      requires Valid() && t in known && IsWord(name)
      modifies this`symbols
      ensures Valid() && (r.Fatal? <==> exists e :: e in old(symbols) && e.0 == name)
      ensures symbols == if r.Ok? then old(symbols) + [(name, t)] else old(symbols)
    {
      var existing := Lookup(name);
      if existing.Some? {
        assert (name, existing.value) in symbols;
        return Fatal("redeclaration");
      }
      symbols := symbols + [(name, t)];
      r := Result.Ok(());
    }

    /** The name of a struct or union type that is declared without one. */
    method AggregateName(isUnion: bool, names: seq<string>, ms: seq<TypeObject>) returns (name: string)
      requires Interned(symbols, known) && |names| == |ms| && forall m :: m in ms ==> m in known
      ensures name == Name(Unnamed(isUnion, names, ms))
    {
      hide Interned, MembersText, MembersUpTo, Name, Unnamed;
      var text := MemberNames(names, ms);
      WholeMembers(MembersOf(names, ms));
      UnnamedName(isUnion, names, ms);
      name := (if isUnion then "union" else "struct") + " { " + (text + " }");
    }

    method MemberNames(names: seq<string>, ms: seq<TypeObject>) returns (text: string)
      requires Interned(symbols, known) && |names| == |ms| && forall m :: m in ms ==> m in known
      ensures text == MembersUpTo(MembersOf(names, ms))
    {
      ghost var members := MembersOf(names, ms);
      MembersNamed(symbols, known, names, ms);
      assert members[..0] == [] && MembersUpTo([]) == "";
      hide Interned, MembersUpTo, MemberText;
      text := "";
      for i := 0 to |ms|
        invariant text == MembersUpTo(members[..i])
      {
        UpToStep(members, i);
        if i != 0 {
          text := text + " ";
        }
        text := text + ("var " + names[i] + ": " + ms[i].name + ";");
      }
      assert members[..|ms|] == members;
    }

    method Suitable(ms: seq<TypeObject>) returns (ok: bool)
      ensures ok <==> forall m :: m in ms ==> !Unsuitable(m)
    {
      var i := 0;
      while i < |ms|
        invariant 0 <= i <= |ms|
        invariant forall k :: 0 <= k < i ==> !Unsuitable(ms[k])
      {
        if Unsuitable(ms[i]) {
          assert ms[i] in ms;
          return false;
        }
        i := i + 1;
      }
      return true;
    }

    /** A struct or union type without a name, whose members are known and whose size is `size`. */
    method UniqueAggregate(isUnion: bool, names: seq<string>, ms: seq<TypeObject>, size: nat)
                           returns (r: Result<TypeObject>)
      requires Valid() && |names| == |ms| && (forall m :: m in ms ==> m in known)
      requires forall n :: n in names ==> IsWord(n) && ':' !in n
      modifies this
      ensures Valid() && early == old(early)
      ensures r.Ok? ==> r.value.shape == Unnamed(isUnion, names, ms) && Added(r.value)
      ensures r.Ok? && r.value !in old(known) ==> r.value.size == size && r.value.members == ms && r.value.complete
      ensures r.Fatal? ==> known == old(known) && types == old(types) && symbols == old(symbols)
      ensures r.Fatal? <==> (forall u :: u in old(known) ==> u.shape != Unnamed(isUnion, names, ms)) &&
                            exists m :: m in ms && Unsuitable(m)
    {
      ghost var shape := Unnamed(isUnion, names, ms);
      MembersNamed(symbols, known, names, ms);
      hide Interned, Listed, Ordered, Parts, Name, WellNamed, Consistent, MembersOf, Unsuitable, MembersListed;
      var name := AggregateName(isUnion, names, ms);
      var existing := Lookup(name);
      if existing.Some? {
        Found(symbols, known, shape, existing.value);
        return Result.Ok(existing.value);
      }
      NotKnown(symbols, known, shape);
      ShapeNotKnown(symbols, known, shape);
      r := MakeAggregate(name, shape, ms, size);
    }

    method MakeAggregate(name: string, ghost shape: Shape, ms: seq<TypeObject>, size: nat)
                         returns (r: Result<TypeObject>)
      requires Valid() && (forall m :: m in ms ==> m in known)
      requires (shape.Struct? || shape.Union?) && WellNamed(shape) && name == Name(shape)
      requires forall u :: u in known ==> u.name != name
      modifies this
      ensures Valid() && early == old(early) && (r.Fatal? <==> exists m :: m in ms && Unsuitable(m))
      ensures r.Ok? ==> Added(r.value) && fresh(r.value) && r.value.shape == shape
      ensures r.Ok? ==> r.value.size == size && r.value.members == ms && r.value.complete
      ensures r.Fatal? ==> known == old(known) && types == old(types) && symbols == old(symbols)
    {
      hide Interned, Listed, Ordered, Parts, Name, WellNamed, Consistent, Unsuitable, MembersListed;
      var ok := Suitable(ms);
      if !ok {
        return Fatal("member variable of incomplete or unsized type");
      }
      var t := new TypeObject(Aggregate, size, true, ms, name, shape);
      SuitableListed(types, known, t);
      AggregateConsistent(t, known);
      Enter(t);
      r := Result.Ok(t);
    }

    /** One member variable of a struct or union that is being completed, whose size becomes `size`. */
    method AddMember(t: TypeObject, m: TypeObject, size: nat) returns (r: Result<()>)
      requires Valid() && t in known && m in known && t.data.Aggregate? && !t.complete
      modifies t
      ensures Valid() && t.complete == old(t.complete)
      ensures r.Fatal? <==> old(Unsuitable(m))
      ensures r.Ok? ==> t.members == old(t.members) + [m] && t.size == size
      ensures r.Fatal? ==> unchanged(t)
    {
      if m.data.Aggregate? && !m.complete {
        return Fatal("member variable of incomplete type");
      }
      if m.size == UNSIZED {
        return Fatal("member variable of unsized type");
      }
      ghost var was := early;
      assert m in types && t !in types;
      t.members := t.members + [m];
      t.size := size;
      assert MembersListed(t, types);
      r := Result.Ok(());
    }

    /** The struct or union has its last member: it joins the list. */
    method Complete(t: TypeObject)
      requires Valid() && t in known && t.data.Aggregate? && !t.complete
      modifies this`types, t`complete
      ensures Valid() && t.complete && types == old(types) + [t]
    {
      hide Interned, Listed, Ordered, Parts, Defines;
      PartsListed(types, known, t);
      ghost var was := types;
      Incomplete(types, known, t);
      t.complete := true;
      types := types + [t];
      ListCompleted(was, known, t);
      OrderMore(was, early, t, false);
    }
  }

  /** A struct or union whose members are not all known yet, or a type without a size, cannot be a member. */
  predicate Unsuitable(m: TypeObject)
    reads m
  {
    (m.data.Aggregate? && !m.complete) || m.size == UNSIZED
  }

  lemma {:induction false} SuitableListed(types: seq<TypeObject>, known: set<TypeObject>, t: TypeObject)
    requires Listed(types, known) && t.data.Aggregate?
    requires forall m :: m in t.members ==> m in known && !Unsuitable(m)
    ensures MembersListed(t, types)
  {
  }

  lemma {:induction false} AggregateConsistent(t: TypeObject, known: set<TypeObject>)
    requires t.data.Aggregate? && (t.shape.Struct? || t.shape.Union?) && WellNamed(t.shape) && t.name == Name(t.shape)
    ensures Consistent(t, known)
  {
  }

  lemma {:induction false} ShapeNotKnown(symbols: seq<(string, TypeObject)>, known: set<TypeObject>, shape: Shape)
    requires Interned(symbols, known) && forall t :: t in known ==> t.name != Name(shape)
    ensures forall t :: t in known ==> t.shape != shape
  {
    forall t | t in known
      ensures t.shape != shape
    {
      assert Consistent(t, known);
    }
  }

  ghost function MembersOf(names: seq<string>, ms: seq<TypeObject>): (r: seq<Member>)
    requires |names| == |ms|
    ensures |r| == |ms| && forall k :: 0 <= k < |ms| ==> r[k] == Member(names[k], ms[k].shape)
  {
    seq(|ms|, k requires 0 <= k < |ms| => Member(names[k], ms[k].shape))
  }

  ghost function Unnamed(isUnion: bool, names: seq<string>, ms: seq<TypeObject>): Shape
    requires |names| == |ms|
  {
    if isUnion then Union(MembersOf(names, ms)) else Struct(MembersOf(names, ms))
  }

  lemma {:induction false} UnnamedName(isUnion: bool, names: seq<string>, ms: seq<TypeObject>)
    requires |names| == |ms|
    ensures Name(Unnamed(isUnion, names, ms)) ==
              (if isUnion then "union" else "struct") + " { " + MembersText(MembersOf(names, ms))
  {
    hide MembersText;
  }

  lemma {:induction false} MembersNamed(symbols: seq<(string, TypeObject)>, known: set<TypeObject>, names: seq<string>,
                                        ms: seq<TypeObject>)
    requires Interned(symbols, known) && |names| == |ms| && forall m :: m in ms ==> m in known
    ensures var members := MembersOf(names, ms);
            forall k :: 0 <= k < |ms| ==> MemberText(members[k]) == "var " + names[k] + ": " + ms[k].name + ";"
    ensures (forall n :: n in names ==> IsWord(n) && ':' !in n) ==>
              WellNamed(Unnamed(false, names, ms)) && WellNamed(Unnamed(true, names, ms))
  {
    var members := MembersOf(names, ms);
    forall k | 0 <= k < |ms|
      ensures WellNamed(ms[k].shape) && MemberText(members[k]) == "var " + names[k] + ": " + ms[k].name + ";"
    {
      assert ms[k] in ms;
      KnownNamed(symbols, known, ms[k]);
      assert members[k] == Member(names[k], ms[k].shape);
    }
    if forall n :: n in names ==> IsWord(n) && ':' !in n {
      forall m | m in members
        ensures MemberNamed(m)
      {
        var k :| 0 <= k < |members| && members[k] == m;
        assert names[k] in names;
      }
    }
  }

  /** The members of a struct, a space between them. */
  ghost function MembersUpTo(ms: seq<Member>): string {
    if ms == [] then ""
    else if |ms| == 1 then MemberText(ms[0])
    else MembersUpTo(ms[..|ms| - 1]) + " " + MemberText(ms[|ms| - 1])
  }

  lemma {:induction false} UpToStep(ms: seq<Member>, i: nat)
    requires i < |ms|
    ensures MembersUpTo(ms[..i + 1]) == MembersUpTo(ms[..i]) + (if i == 0 then "" else " ") + MemberText(ms[i])
  {
    hide MemberText;
    assert ms[..i + 1][..i] == ms[..i];
  }

  lemma {:induction false} WholeMembers(ms: seq<Member>)
    ensures MembersText(ms) == MembersUpTo(ms) + " }"
  {
    if ms != [] {
      MoreOf(ms, |ms|);
      assert ms[..|ms|] == ms && ms[|ms|..] == [];
    }
  }

  lemma {:induction false} MoreOf(ms: seq<Member>, i: nat)
    requires 1 <= i <= |ms|
    ensures MembersText(ms) == MembersUpTo(ms[..i]) + MoreMembers(ms[i..])
    decreases i
  {
    if i == 1 {
      assert ms[..1] == [ms[0]];
    } else {
      MoreOf(ms, i - 1);
      UpToStep(ms, i - 1);
      assert ms[i - 1..][1..] == ms[i..];
      hide MembersText, MembersUpTo, MemberText;
      assert MoreMembers(ms[i - 1..]) == " " + MemberText(ms[i - 1]) + MoreMembers(ms[i..]);
      assert MembersUpTo(ms[..i - 1]) + (" " + MemberText(ms[i - 1]) + MoreMembers(ms[i..])) ==
             (MembersUpTo(ms[..i - 1]) + " " + MemberText(ms[i - 1])) + MoreMembers(ms[i..]);
    }
  }

  ghost function Shapes(ts: seq<TypeObject>): (r: seq<Shape>)
    ensures |r| == |ts| && forall k :: 0 <= k < |ts| ==> r[k] == ts[k].shape
  {
    seq(|ts|, k requires 0 <= k < |ts| => ts[k].shape)
  }

  lemma {:induction false} MoreNamesEnd(ts: seq<Shape>, t: Shape)
    ensures MoreNames(ts + [t]) == MoreNames(ts) + ", " + Name(t)
    decreases |ts|
  {
    hide Name;
    if ts == [] {
      assert ts + [t] == [t] && MoreNames([t][1..]) == "";
    } else {
      assert (ts + [t])[0] == ts[0] && (ts + [t])[1..] == ts[1..] + [t];
      MoreNamesEnd(ts[1..], t);
    }
  }

  lemma {:induction false} NamesUpTo(ts: seq<Shape>, i: nat)
    requires i <= |ts|
    ensures Names(ts[..i]) == if i == 0 then "" else if i == 1 then Name(ts[0]) else Names(ts[..i - 1]) + ", " + Name(ts[i - 1])
  {
    hide Name;
    if i == 1 {
      assert ts[..1][1..] == [];
    } else if i > 1 {
      assert ts[..i][1..] == ts[1..i - 1] + [ts[i - 1]] && ts[..i - 1][1..] == ts[1..i - 1];
      MoreNamesEnd(ts[1..i - 1], ts[i - 1]);
      assert Name(ts[0]) + (MoreNames(ts[1..i - 1]) + ", " + Name(ts[i - 1])) ==
             Name(ts[0]) + MoreNames(ts[1..i - 1]) + ", " + Name(ts[i - 1]);
    }
  }

  /** The name of a function type in terms of the names of its parameters and its result. */
  lemma {:induction false} SignatureNamed(symbols: seq<(string, TypeObject)>, known: set<TypeObject>,
                                          parameters: seq<TypeObject>, result: TypeObject)
    requires Interned(symbols, known) && result in known && forall p :: p in parameters ==> p in known
    ensures forall k :: 0 <= k < |parameters| ==> parameters[k].name == Name(Shapes(parameters)[k])
    ensures var f := Function(Shapes(parameters), result.shape);
            WellNamed(f) && Name(f) == "func" + "(" + Names(Shapes(parameters)) + ") " + result.name
  {
    KnownNamed(symbols, known, result);
    var shapes := Shapes(parameters);
    forall k | 0 <= k < |parameters|
      ensures WellNamed(shapes[k]) && parameters[k].name == Name(shapes[k])
    {
      assert parameters[k] in parameters;
      KnownNamed(symbols, known, parameters[k]);
    }
    hide Interned, Names;
  }

  lemma {:induction false} PartsListed(types: seq<TypeObject>, known: set<TypeObject>, t: TypeObject)
    requires Listed(types, known) && t in known && t.data.Aggregate?
    ensures forall part :: part in Parts(t) ==> Defines(types, part)
  {
    assert MembersListed(t, types);
  }

  lemma {:induction false} Incomplete(types: seq<TypeObject>, known: set<TypeObject>, t: TypeObject)
    requires Listed(types, known) && t in known && !t.complete
    ensures t !in types && ListedBut(types, known, t)
  {
  }

  /** The list with one type complete that it does not have yet. */
  ghost predicate ListedBut(types: seq<TypeObject>, known: set<TypeObject>, t: TypeObject)
    reads known - {t}, t`members
  {
    t in known && t !in types &&
    (forall u :: u in types ==> u in known) &&
    (forall u :: u in known && u != t ==> (u in types <==> u.complete)) &&
    (forall u :: u in known && u != t && !u.complete ==> u.data.Aggregate? || (u.data.External? && u.size == UNSIZED)) &&
    (forall u :: u in known && u != t ==> MembersListed(u, types)) &&
    (t.members != [] ==> t.data.Aggregate?) && (forall m :: m in t.members ==> m in types) &&
    (forall i, j :: 0 <= i < j < |types| ==> types[i] != types[j])
  }

  lemma {:induction false} ListCompleted(types: seq<TypeObject>, known: set<TypeObject>, t: TypeObject)
    requires ListedBut(types, known, t) && t.complete
    ensures Listed(types + [t], known)
  {
    var more := types + [t];
    assert forall u :: u in more <==> u in types || u == t;
    assert forall u :: u in known && u != t ==> MembersListed(u, types) && MembersListed(u, more);
    assert MembersListed(t, more);
    assert forall i :: 0 <= i < |types| ==> types[i] in types && more[i] == types[i];
  }

  lemma {:induction false} OnTheList(types: seq<TypeObject>, known: set<TypeObject>, t: TypeObject)
    requires Listed(types, known) && t in known && t.complete
    ensures Defines(types, t.shape)
  {
    assert t in types;
  }

  lemma {:induction false} NotListed(types: seq<TypeObject>, known: set<TypeObject>, t: TypeObject)
    requires Listed(types, known) && t !in known
    ensures t !in types
  {
  }

  lemma {:induction false} KnownNamed(symbols: seq<(string, TypeObject)>, known: set<TypeObject>, t: TypeObject)
    requires Interned(symbols, known) && t in known
    ensures WellNamed(t.shape) && t.name == Name(t.shape)
  {
    assert Consistent(t, known);
  }

  lemma {:induction false} CompleteByName(symbols: seq<(string, TypeObject)>, types: seq<TypeObject>,
                                          known: set<TypeObject>, t: TypeObject)
    requires Interned(symbols, known) && Listed(types, known) && t in known && ByName(t.shape)
    requires !t.shape.Struct? && !t.shape.Union?
    ensures t.complete
  {
    assert Consistent(t, known);
  }

  /** A type of one of the shapes that are made by name is measured by its shape. */
  lemma {:induction false} SizeByName(symbols: seq<(string, TypeObject)>, known: set<TypeObject>,
                                      early: set<TypeObject>,
                                      word: nat, t: TypeObject)
    requires Interned(symbols, known) && Measured(known, early, word) && t in known
    ensures t.shape.Pointer? || t.shape.Function? ==> t.size == word
    ensures t.shape.Slice? ==> t.size == word + word
    ensures t.shape.Array? ==> t.data.ArrayOf? && t.data.base in known && t.shape == Array(t.data.count, t.data.base.shape)
    ensures t.shape.Array? && t !in early ==> t.size == t.data.count * t.data.base.size
  {
    assert Consistent(t, known) && MeasuredType(t, known, early, word);
  }

  lemma {:induction false} SameBase(symbols: seq<(string, TypeObject)>, known: set<TypeObject>, t: TypeObject,
                                    base: TypeObject)
    requires Interned(symbols, known) && t in known && base in known
    requires t.data.ArrayOf? && t.data.base in known && t.data.base.shape == base.shape
    ensures t.data.base == base
  {
    SameObject(symbols, known, t.data.base, base);
  }

  /** A slice is as large as its start pointer, whose type comes before it, and its count; as large as the layout of
      types says, and as the C struct that is emitted for it. */
  lemma {:induction false} SliceSize(symbols: seq<(string, TypeObject)>, types: seq<TypeObject>, known: set<TypeObject>,
                                     early: set<TypeObject>, word: nat, t: TypeObject)
    requires Interned(symbols, known) && Listed(types, known) && Ordered(types, early) && Measured(known, early, word)
    requires t in known && t.shape.Slice?
    ensures exists p :: p in types && p.shape == Pointer(t.shape.base) && t.size == p.size + word
    ensures t.size == Layout.SizeOf(Layout.Slice(word))
    ensures word == 4 || word == 8 ==> t.size == Layout.CSize(Layout.Emit(Layout.Slice(word)))
  {
    CompleteByName(symbols, types, known, t);
    assert Consistent(t, known);
    SizeByName(symbols, known, early, word, t);
    var i :| 0 <= i < |types| && types[i] == t;
    assert AfterParts(types, i) && Pointer(t.shape.base) in Parts(t);
    var p :| p in types[..i] && p.shape == Pointer(t.shape.base);
    SizeByName(symbols, known, early, word, p);
    assert p in types && t.size == p.size + word;
    if word == 4 || word == 8 {
      LayoutProof.EmittedLayout(Layout.Slice(word));
    }
  }

  // ---------- Emission ----------

  predicate Emitted(t: TypeObject)
    reads t
  {
    t.size != 0 && t.size != UNSIZED
  }

  /** The C definitions come in the order of the list, those of types without a size left out.  Each one follows the
      definitions of its parts exactly when no array with a size was made too early. */
  lemma {:induction false} EmissionOrder(symbols: seq<(string, TypeObject)>, types: seq<TypeObject>,
                                         known: set<TypeObject>, early: set<TypeObject>)
    requires Interned(symbols, known) && Listed(types, known) && Ordered(types, early)
    ensures (forall i :: 0 <= i < |types| && Emitted(types[i]) ==> AfterParts(types, i)) <==> forall t :: t in early ==> !Emitted(t)
  {
    forall i | 0 <= i < |types| && Emitted(types[i])
      ensures AfterParts(types, i) <==> types[i] !in early
    {
    }
    forall t | t in early
      ensures exists i :: 0 <= i < |types| && types[i] == t
    {
      assert t in types;
    }
    hide Listed, Interned, AfterParts;
  }

  /** An array of a struct inside that struct is made from the size so far: it comes first on the list, and its size
      is not that of its elements. */
  method ArrayInItsStruct() returns (c: Context, s: TypeObject, a: TypeObject)
    ensures c.Valid() && a in c.early && Emitted(a) && a.shape == Array(3, s.shape) && s.complete && s in c.types
    ensures |c.types| == 4 && c.types[1] == a && c.types[3] == s && a.size == 24 && s.size == 16
  {
    hide Interned, Listed, Ordered, Name, WellNamed, Consistent, Measured, Defines, Parts;
    var u: TypeObject;
    c, s, u := StructSoFar();
    var made := c.UniqueArray(3, s);
    a := made.value;
    assert a.shape == Array(3, Atom("node")) && a != u && a != s;
    assert c.types == [u, a] && c.early == {a} && a.size == 24;
    var p := c.UniquePointer(a);
    assert p.shape.Pointer? && p !in {u, s, a};
    assert c.types == [u, a, p] && p.size == 8;
    var second := c.AddMember(s, p, 16);
    c.Complete(s);
  }

  /** A struct with one member so far. */
  method StructSoFar() returns (c: Context, s: TypeObject, u: TypeObject)
    ensures c.Valid() && fresh(c) && fresh(s) && fresh(u) && c.word == 8 && c.known == {u, s} && c.types == [u] &&
            c.early == {}
    ensures u.shape == Atom("u64") && s.shape == Atom("node") && s.data.Aggregate? && s.size == 8 && !s.complete
  {
    hide Interned, Listed, Ordered, Name, WellNamed, Consistent, Measured, Defines, Parts;
    c := new Context(8);
    AtomNames();
    u := c.Declare("u64", Atom("u64"), Primitive, 8);
    s := c.Declare("node", Atom("node"), Aggregate, 0);
    var first := c.AddMember(s, u, 8);
  }

  lemma {:induction false} AtomNames()
    ensures WellNamed(Atom("u64")) && WellNamed(Atom("node")) && Name(Atom("u64")) == "u64" &&
            Name(Atom("node")) == "node"
    ensures "u64" != "node"
  {
    assert |"u64"| == 3 && |"node"| == 4;
  }
}
