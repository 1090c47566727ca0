// Addresses folded at compile time: parts of an object, their offsets, and the C places they are.

module LayoutPaths {
  import opened Wrappers
  import opened Layout
  import opened LayoutProof

  // One access: an element of an array, or a member variable of a struct or union by its position.
  datatype Step = Index(i: nat) | Field(k: nat)

  datatype Place = Place(ty: Type, offset: nat)

  function MembersOf(t: Type): seq<Member> {
    match t
    case Struct(ms) => ms
    case Union(ms) => ms
    case _ => []
  }

  function OffsetIn(t: Type, k: nat): nat
    requires k < |MembersOf(t)|
  {
    if t.Struct? then StructShape(t.members).offsets[k] else 0
  }

  /** One access to a place; the index is checked, a member variable is one of the type's. */
  function EvalStep(p: Place, s: Step): Result<Place> {
    match s
    case Index(i) =>
      if !p.ty.Array? then Fatal("indexing of a value that is not an array")
      else if i >= p.ty.count then Fatal("index out-of-bounds")
      else Ok(Place(p.ty.base, p.offset + SizeOf(p.ty.base) * i))
    case Field(k) =>
      if k < |MembersOf(p.ty)| then Ok(Place(MembersOf(p.ty)[k].ty, p.offset + OffsetIn(p.ty, k)))
      else Fatal("no such member variable")
  }

  /** The address of a part of a static object. */
  function EvalLvalue(root: Type, path: seq<Step>): Result<Place>
    decreases |path|
  {
    if path == [] then Ok(Place(root, 0))
    else
      var lhs :- EvalLvalue(root, path[..|path| - 1]);
      EvalStep(lhs, path[|path| - 1])
  }

  // ---------- Bounds and alignment ----------

  lemma {:induction false} UnionCovers(ms: seq<Member>, k: nat)
    requires k < |ms| && SizeOf(ms[k].ty) > 0
    ensures SizeOf(ms[k].ty) <= UnionSize(ms) && AlignOf(ms[k].ty) <= UnionAlign(ms)
    decreases |ms|
  {
    var init := ms[..|ms| - 1];
    if k < |ms| - 1 {
      assert init[k] == ms[k];
      UnionCovers(init, k);
    }
  }

  lemma {:induction false} ElementInside(count: nat, size: nat, i: nat)
    requires i < count
    ensures size * i + size <= count * size
  {
    assert count * size == size * i + size + (count - i - 1) * size;
  }

  /** One access stays inside, is aligned, and leads to a type that is no more strictly aligned. */
  lemma {:induction false} StepInside(t: Type, s: Step)
    requires Sized(t) && EvalStep(Place(t, 0), s).Ok? && SizeOf(EvalStep(Place(t, 0), s).value.ty) > 0
    ensures var p := EvalStep(Place(t, 0), s).value;
            Sized(p.ty) && p.offset + SizeOf(p.ty) <= SizeOf(t) && IsAlign(AlignOf(p.ty)) && IsAlign(AlignOf(t)) &&
            p.offset % AlignOf(p.ty) == 0 && AlignOf(p.ty) <= AlignOf(t)
  {
    var p := EvalStep(Place(t, 0), s).value;
    SizesFit(t);
    SizesFit(p.ty);
    match s
    case Index(i) =>
      ElementInside(t.count, SizeOf(t.base), i);
      MultipleDivides(i, SizeOf(t.base), AlignOf(t.base));
      assert SizeOf(t.base) * i == i * SizeOf(t.base);
    case Field(k) =>
      var ms := MembersOf(t);
      assert ms[k] in ms;
      if t.Struct? {
        OffsetIsLeast(ms, k);
        WithinStruct(ms, k);
      } else {
        UnionCovers(ms, k);
      }
  }

  lemma {:induction false} WholeHasSize(t: Type, s: Step)
    requires Sized(t) && EvalStep(Place(t, 0), s).Ok? && SizeOf(EvalStep(Place(t, 0), s).value.ty) > 0
    ensures SizeOf(t) > 0
  {
    StepInside(t, s);
  }

  lemma {:induction false} ShiftStep(p: Place, s: Step)
    ensures EvalStep(p, s).Ok? <==> EvalStep(Place(p.ty, 0), s).Ok?
    ensures EvalStep(p, s).Ok? ==>
              EvalStep(p, s).value == Place(EvalStep(Place(p.ty, 0), s).value.ty, p.offset + EvalStep(Place(p.ty, 0), s).value.offset)
  {
  }

  ghost predicate Aligned(address: nat, align: nat) {
    align > 0 && address % align == 0
  }

  lemma {:induction false} CoarserDivides(n: nat, big: nat, small: nat)
    requires IsAlign(big) && IsAlign(small) && small <= big && n % big == 0
    ensures n % small == 0
  {
    if big == 8 {
      var q := n / 8;
      assert n == 8 * q && n == 4 * (2 * q) && n == 2 * (4 * q);
      assert n % 8 == 0 && n % 4 == 0 && n % 2 == 0;
    } else if big == 4 {
      var q := n / 4;
      assert n == 4 * q && n == 2 * (2 * q);
      assert n % 4 == 0 && n % 2 == 0;
    } else if big == 2 {
      assert n % 2 == 0;
    }
  }

  lemma {:induction false} SumDivides(m: nat, n: nat, a: nat)
    requires IsAlign(a) && m % a == 0 && n % a == 0
    ensures (m + n) % a == 0
  {
    if a == 2 {
      TwosAdd(m, n);
    } else if a == 4 {
      FoursAdd(m, n);
    } else if a == 8 {
      EightsAdd(m, n);
    }
  }

  lemma {:induction false} TwosAdd(m: nat, n: nat)
    requires m % 2 == 0 && n % 2 == 0
    ensures (m + n) % 2 == 0
  {
  }

  lemma {:induction false} FoursAdd(m: nat, n: nat)
    requires m % 4 == 0 && n % 4 == 0
    ensures (m + n) % 4 == 0
  {
  }

  lemma {:induction false} EightsAdd(m: nat, n: nat)
    requires m % 8 == 0 && n % 8 == 0
    ensures (m + n) % 8 == 0
  {
  }

  lemma {:induction false} SumAligned(base: nat, offset: nat, outer: nat, inner: nat)
    requires IsAlign(outer) && IsAlign(inner) && inner <= outer
    requires Aligned(base, outer) && offset % inner == 0
    ensures Aligned(base + offset, inner)
  {
    CoarserDivides(base, outer, inner);
    SumDivides(base, offset, inner);
  }

  /** A part that has a size lies inside the object, and is aligned wherever the object is. */
  lemma {:induction false} PartInsideAndAligned(root: Type, path: seq<Step>, address: nat)
    requires Sized(root) && EvalLvalue(root, path).Ok? && SizeOf(EvalLvalue(root, path).value.ty) > 0
    requires AlignOf(root) > 0 ==> Aligned(address, AlignOf(root))
    ensures var p := EvalLvalue(root, path).value;
            Sized(p.ty) && p.offset + SizeOf(p.ty) <= SizeOf(root) &&
            Aligned(address + p.offset, AlignOf(p.ty))
    decreases |path|
  {
    if path == [] {
      SizesFit(root);
    } else {
      var s, init := path[|path| - 1], path[..|path| - 1];
      LastStep(root, path);
      hide SizeOf, AlignOf, Sized, Aligned, EvalLvalue, EvalStep;
      var lhs, place := EvalLvalue(root, init).value, EvalLvalue(root, path).value;
      PartsAreSized(root, init);
      StepHasSize(lhs, s, place);
      PartInsideAndAligned(root, init, address);
      StepInsideAndAligned(lhs, s, place, address);
    }
  }

  lemma {:induction false} StepInsideAndAligned(lhs: Place, s: Step, place: Place, address: nat)
    requires Sized(lhs.ty) && EvalStep(lhs, s) == Ok(place) && SizeOf(place.ty) > 0
    requires Aligned(address + lhs.offset, AlignOf(lhs.ty))
    ensures Sized(place.ty) && place.offset + SizeOf(place.ty) <= lhs.offset + SizeOf(lhs.ty)
    ensures Aligned(address + place.offset, AlignOf(place.ty))
  {
    ShiftStep(lhs, s);
    StepInside(lhs.ty, s);
    hide SizeOf, AlignOf, Sized, Aligned, EvalStep;
    var p := EvalStep(Place(lhs.ty, 0), s).value;
    SumAligned(address + lhs.offset, p.offset, AlignOf(lhs.ty), AlignOf(p.ty));
    assert address + lhs.offset + p.offset == address + place.offset;
  }

  lemma {:induction false} PartsAreSized(root: Type, path: seq<Step>)
    requires Sized(root) && EvalLvalue(root, path).Ok?
    ensures Sized(EvalLvalue(root, path).value.ty)
    decreases |path|
  {
    if path != [] {
      var s := path[|path| - 1];
      var lhs := EvalLvalue(root, path[..|path| - 1]).value;
      PartsAreSized(root, path[..|path| - 1]);
      if s.Field? {
        assert MembersOf(lhs.ty)[s.k] in MembersOf(lhs.ty);
      }
    }
  }

  /** Parts of size zero have no such bound: a trailing member may start past the end of the struct. */
  lemma {:induction false} EmptyPartOutside()
    ensures var t := Struct([Member("a", Scalar(1)), Member("b", Array(0, Scalar(8)))]);
            Sized(t) && SizeOf(t) == 1 && EvalLvalue(t, [Field(1)]) == Ok(Place(Array(0, Scalar(8)), 8))
  {
    var a, b := Member("a", Scalar(1)), Member("b", Array(0, Scalar(8)));
    var t := Struct([a, b]);
    assert Sized(t) by {
      assert a.name != b.name && Sized(a.ty) && Sized(b.ty);
    }
    assert SizeOf(b.ty) == 0 && AlignOf(b.ty) == 8 && SizeOf(a.ty) == 1 && AlignOf(a.ty) == 1;
    ShapeOfTwo(a, b);
    assert SizeOf(t) == StructShape([a, b]).size;
    assert [Field(1)][..0] == [];
    assert EvalLvalue(t, []) == Ok(Place(t, 0));
    hide StructShape, SizeOf, AlignOf;
    assert AddMember(Shape(0, 0, 0, []), 1, 1) == Shape(1, 1, 1, [0]);
    assert AddMember(Shape(1, 1, 1, [0]), 0, 8) == Shape(1, 1, 8, [0, 8]);
  }

  lemma {:induction false} ShapeOfTwo(a: Member, b: Member)
    ensures StructShape([a, b]) ==
              AddMember(AddMember(Shape(0, 0, 0, []), SizeOf(a.ty), AlignOf(a.ty)), SizeOf(b.ty), AlignOf(b.ty))
  {
    hide AddMember;
    assert [a, b][..1] == [a] && [a][..0] == [];
    assert StructShape([a]) == AddMember(StructShape([]), SizeOf(a.ty), AlignOf(a.ty));
  }

  // ---------- Parts that do not overlap ----------

  /** The path of a part of a part. */
  lemma {:induction false} PathAppend(root: Type, p: seq<Step>, q: seq<Step>)
    requires EvalLvalue(root, p + q).Ok?
    ensures EvalLvalue(root, p).Ok?
    ensures var mid := EvalLvalue(root, p).value;
            var last := EvalLvalue(mid.ty, q);
            last.Ok? && EvalLvalue(root, p + q).value == Place(last.value.ty, mid.offset + last.value.offset)
    decreases |q|
  {
    if q == [] {
      assert p + q == p;
    } else {
      assert (p + q)[..|p + q| - 1] == p + q[..|q| - 1];
      PathAppend(root, p, q[..|q| - 1]);
      ShiftStep(EvalLvalue(root, p + q[..|q| - 1]).value, q[|q| - 1]);
      ShiftStep(EvalLvalue(EvalLvalue(root, p).value.ty, q[..|q| - 1]).value, q[|q| - 1]);
    }
  }

  lemma {:induction false} MembersApart(ms: seq<Member>, j: nat, k: nat)
    requires j < k < |ms| && SizeOf(ms[j].ty) > 0 && forall m :: m in ms ==> Sized(m.ty)
    ensures StructShape(ms).offsets[j] + SizeOf(ms[j].ty) <= StructShape(ms).offsets[k]
  {
    ShapePrefix(ms, k);
    var before := ms[..k];
    assert before[j] == ms[j];
    WithinStruct(before, j);
    ShapePrefix(ms, j);
    ShapePrefix(before, j);
    assert before[..j] == ms[..j];
  }

  ghost predicate Apart(a: Place, b: Place) {
    a.offset + SizeOf(a.ty) <= b.offset || b.offset + SizeOf(b.ty) <= a.offset
  }

  /** Two different elements of an array, or two different members of a struct, do not overlap. */
  lemma {:induction false} StepsApart(t: Type, a: Step, b: Step)
    requires Sized(t) && !t.Union? && a != b
    requires EvalStep(Place(t, 0), a).Ok? && EvalStep(Place(t, 0), b).Ok?
    requires SizeOf(EvalStep(Place(t, 0), a).value.ty) > 0 && SizeOf(EvalStep(Place(t, 0), b).value.ty) > 0
    ensures Apart(EvalStep(Place(t, 0), a).value, EvalStep(Place(t, 0), b).value)
  {
    StepPlace(t, a);
    StepPlace(t, b);
    hide EvalStep, Sized;
    if t.Array? {
      if a.i < b.i {
        ElementInside(b.i, SizeOf(t.base), a.i);
      } else {
        ElementInside(a.i, SizeOf(t.base), b.i);
      }
    } else if a.k < b.k {
      MembersApart(t.members, a.k, b.k);
    } else {
      MembersApart(t.members, b.k, a.k);
    }
  }

  lemma {:induction false} StepPlace(t: Type, s: Step)
    requires Sized(t) && !t.Union? && EvalStep(Place(t, 0), s).Ok?
    ensures if t.Array? then s.Index? && s.i < t.count && EvalStep(Place(t, 0), s).value == Place(t.base, SizeOf(t.base) * s.i)
            else t.Struct? && s.Field? && s.k < |t.members| && (forall m :: m in t.members ==> Sized(m.ty)) &&
                 EvalStep(Place(t, 0), s).value == Place(t.members[s.k].ty, StructShape(t.members).offsets[s.k])
  {
    hide SizeOf, StructShape;
  }

  /** Two paths that part at an element of an array or at a member of a struct lead to parts that do not
      overlap. */
  lemma {:induction false} DivergingPartsApart(root: Type, p: seq<Step>, a: Step, q: seq<Step>, b: Step, r: seq<Step>)
    requires Sized(root) && a != b
    requires EvalLvalue(root, p).Ok? && !EvalLvalue(root, p).value.ty.Union?
    requires EvalLvalue(root, p + [a] + q).Ok? && SizeOf(EvalLvalue(root, p + [a] + q).value.ty) > 0
    requires EvalLvalue(root, p + [b] + r).Ok? && SizeOf(EvalLvalue(root, p + [b] + r).value.ty) > 0
    ensures Apart(EvalLvalue(root, p + [a] + q).value, EvalLvalue(root, p + [b] + r).value)
  {
    var t := EvalLvalue(root, p).value.ty;
    PartsAreSized(root, p);
    BelowStep(root, p, a, q);
    BelowStep(root, p, b, r);
    StepsApart(t, a, b);
  }

  /** A part of a part lies inside it. */
  lemma {:induction false} BelowStep(root: Type, p: seq<Step>, a: Step, q: seq<Step>)
    requires Sized(root) && EvalLvalue(root, p).Ok?
    requires EvalLvalue(root, p + [a] + q).Ok? && SizeOf(EvalLvalue(root, p + [a] + q).value.ty) > 0
    ensures var lhs, part := EvalLvalue(root, p).value, EvalLvalue(root, p + [a] + q).value;
            var s := EvalStep(Place(lhs.ty, 0), a);
            s.Ok? && SizeOf(s.value.ty) > 0 && lhs.offset + s.value.offset <= part.offset &&
            part.offset + SizeOf(part.ty) <= lhs.offset + s.value.offset + SizeOf(s.value.ty)
  {
    PathAppend(root, p + [a], q);
    PathAppend(root, p, [a]);
    var lhs, mid := EvalLvalue(root, p).value, EvalLvalue(root, p + [a]).value;
    assert [a][..0] == [];
    assert EvalLvalue(lhs.ty, [a]) == EvalStep(Place(lhs.ty, 0), a);
    PartsAreSized(root, p + [a]);
    PartInsideAndAligned(mid.ty, q, 0);
  }

  // ---------- The same parts in C ----------

  // The text of an access is a member designator, or an element by its number.
  datatype Designator = Dot(name: CName) | Element(i: nat)

  function CStep(p: CPlace, d: Designator): Option<CPlace> {
    match d
    case Dot(name) =>
      (match p.ty
       case CStruct(fs) =>
         var f :- CMember(fs, name);
         Some(CPlace(f.ty, p.offset + f.offset))
       case CUnion(fs) =>
         var f :- CMember(fs, name);
         Some(CPlace(f.ty, p.offset))
       case _ => None)
    case Element(i) =>
      if p.ty.CArray? && i < p.ty.count then Some(CPlace(p.ty.element, p.offset + i * CSize(p.ty.element))) else None
  }

  function CDesignate(c: CType, ds: seq<Designator>): Option<CPlace>
    decreases |ds|
  {
    if ds == [] then Some(CPlace(c, 0))
    else
      var lhs :- CDesignate(c, ds[..|ds| - 1]);
      CStep(lhs, ds[|ds| - 1])
  }

  /** How an access is spelled in C: an array is the member `elements` of a struct. */
  function Spelled(t: Type, s: Step): seq<Designator> {
    match s
    case Index(i) => [Dot(Elements), Element(i)]
    case Field(k) => if k < |MembersOf(t)| then [Dot(Named(MembersOf(t)[k].name))] else []
  }

  function Spell(root: Type, path: seq<Step>): seq<Designator>
    decreases |path|
  {
    if path == [] then []
    else
      match EvalLvalue(root, path[..|path| - 1])
      case Ok(lhs) => Spell(root, path[..|path| - 1]) + Spelled(lhs.ty, path[|path| - 1])
      case Fatal(_) => []
  }

  lemma {:induction false} AlternativesAgree(ms: seq<Member>, k: nat)
    requires k < |ms| && DistinctNames(ms) && (forall m :: m in ms ==> Sized(m.ty)) && SizeOf(ms[k].ty) > 0
    ensures CMember(EmitAlternatives(ms), Named(ms[k].name)).Some?
    ensures CMember(EmitAlternatives(ms), Named(ms[k].name)).value.ty == Emit(ms[k].ty)
    decreases |ms|
  {
    var init, last := ms[..|ms| - 1], ms[|ms| - 1];
    if SizeOf(last.ty) > 0 {
      CAppend(EmitAlternatives(init), CField(Named(last.name), Emit(last.ty)));
    }
    if k < |ms| - 1 {
      assert init[k] == ms[k] && ms[k].name != last.name;
      AlternativesAgree(init, k);
    }
  }

  lemma {:induction false} PrependedMember(f: CField, fs: seq<CField>, name: CName)
    requires f.name != name && CMember(fs, name).Some?
    ensures CMember([f] + fs, name).Some? && CMember([f] + fs, name).value.ty == CMember(fs, name).value.ty
    decreases |fs|
  {
    var init, last := fs[..|fs| - 1], fs[|fs| - 1];
    assert [f] + fs == ([f] + init) + [last];
    CAppend([f] + init, last);
    if last.name != name {
      PrependedMember(f, init, name);
    }
  }

  /** One access in C leads to the C type of the part, at the folded offset. */
  lemma {:induction false} StepAgrees(t: Type, s: Step)
    requires Sized(t) && EvalStep(Place(t, 0), s).Ok? && SizeOf(EvalStep(Place(t, 0), s).value.ty) > 0
    ensures var p := EvalStep(Place(t, 0), s).value;
            Sized(p.ty) && CDesignate(Emit(t), Spelled(t, s)) == Some(CPlace(Emit(p.ty), p.offset))
  {
    match s
    case Index(i) => ElementAgrees(t.count, t.base, i);
    case Field(k) =>
      assert MembersOf(t)[k] in MembersOf(t);
      if t.Struct? {
        StructMemberAgrees(t.members, k);
      } else {
        UnionMemberAgrees(t.members, k);
      }
  }

  lemma {:induction false} CDesignateOne(c: CType, d: Designator)
    ensures CDesignate(c, [d]) == CStep(CPlace(c, 0), d)
  {
    assert [d][..0] == [];
  }

  lemma {:induction false} ElementAgrees(count: nat, base: Type, i: nat)
    requires Sized(base) && i < count && SizeOf(base) > 0
    ensures CDesignate(Emit(Array(count, base)), [Dot(Elements), Element(i)]) ==
              Some(CPlace(Emit(base), SizeOf(base) * i))
  {
    var f := CField(Elements, CArray(count, Emit(base)));
    CAppend([], f);
    assert [] + [f] == [f];
    assert RoundUp(0, CAlign(f.ty)) == 0;
    var c := Emit(Array(count, base));
    CDesignateOne(c, Dot(Elements));
    assert [Dot(Elements), Element(i)][..1] == [Dot(Elements)];
    EmittedLayout(base);
    assert i * SizeOf(base) == SizeOf(base) * i;
  }

  lemma {:induction false} StructMemberAgrees(ms: seq<Member>, k: nat)
    requires Sized(Struct(ms)) && k < |ms| && SizeOf(ms[k].ty) > 0 && Sized(ms[k].ty)
    ensures CDesignate(Emit(Struct(ms)), [Dot(Named(ms[k].name))]) ==
              Some(CPlace(Emit(ms[k].ty), StructShape(ms).offsets[k]))
  {
    EmittedFieldsAgree(ms);
    SizesFit(Struct(ms));
    WithinStruct(ms, k);
    RoundUpIsMultiple(EmittedEnd(ms), StructShape(ms).align);
    PaddingMovesEnd(EmitMembers(ms), EmittedEnd(ms), SizeOf(Struct(ms)));
    CDesignateOne(Emit(Struct(ms)), Dot(Named(ms[k].name)));
    var fs := EmitMembers(ms) + PaddingBytes(EmittedEnd(ms), SizeOf(Struct(ms)));
    assert Emit(Struct(ms)) == CStruct(fs);
    hide CEnd, CMaxAlign, CMember, EmitMembers, EmittedEnd, SizeOf, AlignOf, StructShape, Sized, Emit, CDesignate,
      RoundUp;
    assert CMember(fs, Named(ms[k].name)) == CMember(EmitMembers(ms), Named(ms[k].name));
  }

  lemma {:induction false} UnionMemberAgrees(ms: seq<Member>, k: nat)
    requires Sized(Union(ms)) && k < |ms| && SizeOf(ms[k].ty) > 0 && Sized(ms[k].ty)
    ensures CDesignate(Emit(Union(ms)), [Dot(Named(ms[k].name))]) == Some(CPlace(Emit(ms[k].ty), 0))
  {
    AlternativesAgree(ms, k);
    PrependedMember(CField(Buffer, CArray(SizeOf(Union(ms)), CScalar(1))), EmitAlternatives(ms), Named(ms[k].name));
    CDesignateOne(Emit(Union(ms)), Dot(Named(ms[k].name)));
  }

  lemma {:induction false} CDesignateAppend(c: CType, a: seq<Designator>, b: seq<Designator>)
    requires CDesignate(c, a).Some?
    ensures var mid := CDesignate(c, a).value;
            CDesignate(c, a + b) ==
              match CDesignate(mid.ty, b) {
                case Some(p) => Some(CPlace(p.ty, mid.offset + p.offset))
                case None => None
              }
    decreases |b|
  {
    if b == [] {
      assert a + b == a;
    } else {
      assert (a + b)[..|a + b| - 1] == a + b[..|b| - 1];
      CDesignateAppend(c, a, b[..|b| - 1]);
    }
  }

  /** The member names and element numbers spelled in C designate the part of the folded offset: reading a
      part by name and addressing it by number agree. */
  lemma {:induction false} DesignatedAtOffset(root: Type, path: seq<Step>)
    requires Sized(root) && EvalLvalue(root, path).Ok? && SizeOf(EvalLvalue(root, path).value.ty) > 0
    ensures var p := EvalLvalue(root, path).value;
            Sized(p.ty) && CDesignate(Emit(root), Spell(root, path)) == Some(CPlace(Emit(p.ty), p.offset))
    decreases |path|
  {
    if path == [] {
      assert EvalLvalue(root, path).value == Place(root, 0) && Spell(root, path) == [];
      hide EvalLvalue, Emit, Spell, Sized, SizeOf;
      assert CDesignate(Emit(root), []) == Some(CPlace(Emit(root), 0));
    } else {
      var s, init := path[|path| - 1], path[..|path| - 1];
      LastStep(root, path);
      hide SizeOf, Emit, Sized, EvalStep, EvalLvalue, Spell, CDesignate, Spelled;
      var lhs, place := EvalLvalue(root, init).value, EvalLvalue(root, path).value;
      PartsAreSized(root, init);
      StepHasSize(lhs, s, place);
      DesignatedAtOffset(root, init);
      DesignatedStep(Emit(root), Spell(root, init), lhs, s, place);
    }
  }

  lemma {:induction false} StepHasSize(lhs: Place, s: Step, place: Place)
    requires Sized(lhs.ty) && EvalStep(lhs, s) == Ok(place) && SizeOf(place.ty) > 0
    ensures SizeOf(lhs.ty) > 0
  {
    hide SizeOf, Sized, EvalStep;
    ShiftStep(lhs, s);
    WholeHasSize(lhs.ty, s);
  }

  lemma {:induction false} DesignatedStep(c: CType, ds: seq<Designator>, lhs: Place, s: Step, place: Place)
    requires Sized(lhs.ty) && EvalStep(lhs, s) == Ok(place) && SizeOf(place.ty) > 0
    requires CDesignate(c, ds) == Some(CPlace(Emit(lhs.ty), lhs.offset))
    ensures Sized(place.ty) && CDesignate(c, ds + Spelled(lhs.ty, s)) == Some(CPlace(Emit(place.ty), place.offset))
  {
    hide SizeOf, Emit, Sized, EvalStep, CDesignate, Spelled;
    ShiftStep(lhs, s);
    StepAgrees(lhs.ty, s);
    NextDesignator(c, ds, CPlace(Emit(lhs.ty), lhs.offset), Spelled(lhs.ty, s), EvalStep(Place(lhs.ty, 0), s).value);
  }

  lemma {:induction false} LastStep(root: Type, path: seq<Step>)
    requires path != [] && EvalLvalue(root, path).Ok?
    ensures var s, init := path[|path| - 1], path[..|path| - 1];
            EvalLvalue(root, init).Ok? && EvalLvalue(root, path) == EvalStep(EvalLvalue(root, init).value, s) &&
            Spell(root, path) == Spell(root, init) + Spelled(EvalLvalue(root, init).value.ty, s)
  {
    hide EvalStep, Spelled;
  }

  lemma {:induction false} NextDesignator(c: CType, ds: seq<Designator>, lhs: CPlace, last: seq<Designator>, p: Place)
    requires CDesignate(c, ds) == Some(lhs) && Sized(p.ty)
    requires CDesignate(lhs.ty, last) == Some(CPlace(Emit(p.ty), p.offset))
    ensures CDesignate(c, ds + last) == Some(CPlace(Emit(p.ty), lhs.offset + p.offset))
  {
    CDesignateAppend(c, ds, last);
  }
}
