// Which accesses the folding of addresses accepts: those that C makes, and enough of them to reach every byte of data.

module LayoutAccess {
  import opened Wrappers
  import opened Layout
  import opened LayoutProof
  import opened LayoutPaths

  // ---------- From the object down ----------

  /** `path` names a part of type `part`: each index is below the count of its array, each field is a member. */
  ghost predicate Names(t: Type, path: seq<Step>, part: Type)
    decreases |path|
  {
    if path == [] then part == t
    else
      match path[0]
      case Index(i) => t.Array? && i < t.count && Names(t.base, path[1..], part)
      case Field(k) => (t.Struct? || t.Union?) && k < |t.members| && Names(t.members[k].ty, path[1..], part)
  }

  lemma {:induction false} PathJoin(root: Type, p: seq<Step>, q: seq<Step>)
    requires EvalLvalue(root, p).Ok? && EvalLvalue(EvalLvalue(root, p).value.ty, q).Ok?
    ensures EvalLvalue(root, p + q).Ok?
    decreases |q|
  {
    if q == [] {
      assert p + q == p;
    } else {
      assert (p + q)[..|p + q| - 1] == p + q[..|q| - 1];
      PathJoin(root, p, q[..|q| - 1]);
      PathAppend(root, p, q[..|q| - 1]);
      var mid := EvalLvalue(root, p).value;
      ShiftStep(EvalLvalue(root, p + q[..|q| - 1]).value, q[|q| - 1]);
      ShiftStep(EvalLvalue(mid.ty, q[..|q| - 1]).value, q[|q| - 1]);
    }
  }

  lemma {:induction false} OneStep(root: Type, s: Step)
    ensures EvalLvalue(root, [s]) == EvalStep(Place(root, 0), s)
  {
    assert [s][..0] == [];
  }

  /** A path is its first access and the rest of it. */
  lemma {:induction false} FirstStep(root: Type, path: seq<Step>)
    requires path != []
    ensures var s := EvalStep(Place(root, 0), path[0]);
            (EvalLvalue(root, path).Ok? <==> s.Ok? && EvalLvalue(s.value.ty, path[1..]).Ok?) &&
            (EvalLvalue(root, path).Ok? ==>
               var last := EvalLvalue(s.value.ty, path[1..]).value;
               EvalLvalue(root, path).value == Place(last.ty, s.value.offset + last.offset))
  {
    OneStep(root, path[0]);
    assert path == [path[0]] + path[1..];
    hide EvalLvalue, EvalStep;
    if EvalLvalue(root, path).Ok? {
      PathAppend(root, [path[0]], path[1..]);
    }
    var s := EvalLvalue(root, [path[0]]);
    if s.Ok? && EvalLvalue(s.value.ty, path[1..]).Ok? {
      PathJoin(root, [path[0]], path[1..]);
    }
  }

  /** The folding accepts exactly the paths that name a part, and finds its type. */
  lemma {:induction false} AcceptedExactly(root: Type, path: seq<Step>, part: Type)
    ensures EvalLvalue(root, path).Ok? && EvalLvalue(root, path).value.ty == part <==> Names(root, path, part)
    decreases |path|
  {
    if path != [] {
      FirstStep(root, path);
      var s := EvalStep(Place(root, 0), path[0]);
      if s.Ok? {
        AcceptedExactly(s.value.ty, path[1..], part);
      }
      hide EvalLvalue;
    }
  }

  // ---------- The accesses of C ----------

  /** How C spells a path, whatever the subscripts are. */
  function SpellDown(t: Type, path: seq<Step>): Option<seq<Designator>>
    decreases |path|
  {
    if path == [] then Some([])
    else
      match path[0]
      case Index(i) =>
        if t.Array? then
          var ds :- SpellDown(t.base, path[1..]);
          Some([Dot(Elements), Element(i)] + ds)
        else None
      case Field(k) =>
        if k < |MembersOf(t)| then
          var ds :- SpellDown(MembersOf(t)[k].ty, path[1..]);
          Some([Dot(Named(MembersOf(t)[k].name))] + ds)
        else None
  }

  lemma {:induction false} CDesignateNone(c: CType, a: seq<Designator>, b: seq<Designator>)
    requires CDesignate(c, a).None?
    ensures CDesignate(c, a + b).None?
    decreases |b|
  {
    if b == [] {
      assert a + b == a;
    } else {
      assert (a + b)[..|a + b| - 1] == a + b[..|b| - 1];
      CDesignateNone(c, a, b[..|b| - 1]);
    }
  }

  /** An access in C is its beginning, and the rest of it where that leads. */
  lemma {:induction false} CDesignateSplit(c: CType, a: seq<Designator>, b: seq<Designator>)
    ensures CDesignate(c, a + b).Some? <==> CDesignate(c, a).Some? && CDesignate(CDesignate(c, a).value.ty, b).Some?
  {
    hide CDesignate;
    if CDesignate(c, a).Some? {
      CDesignateAppend(c, a, b);
    } else {
      CDesignateNone(c, a, b);
    }
  }

  /** The array in C has as many elements. */
  lemma {:induction false} ElementSpelled(count: nat, base: Type, i: nat)
    requires Sized(base) && SizeOf(base) > 0
    ensures var e := CDesignate(Emit(Array(count, base)), [Dot(Elements), Element(i)]);
            (e.Some? <==> i < count) && (e.Some? ==> e.value.ty == Emit(base))
  {
    var f := CField(Elements, CArray(count, Emit(base)));
    CAppend([], f);
    assert [] + [f] == [f];
    var c := Emit(Array(count, base));
    assert c == CStruct([f]);
    CDesignateOne(c, Dot(Elements));
    assert [Dot(Elements), Element(i)][..1] == [Dot(Elements)];
  }

  lemma {:induction false} NotAmongMembers(ms: seq<Member>, k: nat)
    requires k < |ms| && DistinctNames(ms) && (forall m :: m in ms ==> Sized(m.ty)) && SizeOf(ms[k].ty) == 0
    ensures CMember(EmitMembers(ms), Named(ms[k].name)).None? && CMember(EmitAlternatives(ms), Named(ms[k].name)).None?
  {
    NoFieldOf(ms, ms[k].name, k);
  }

  lemma {:induction false} NoFieldOf(ms: seq<Member>, name: string, k: nat)
    requires forall m :: m in ms ==> Sized(m.ty)
    requires forall j :: 0 <= j < |ms| && ms[j].name == name ==> SizeOf(ms[j].ty) == 0
    ensures CMember(EmitMembers(ms), Named(name)).None? && CMember(EmitAlternatives(ms), Named(name)).None?
    decreases |ms|
  {
    if ms != [] {
      var init, last := ms[..|ms| - 1], ms[|ms| - 1];
      NoFieldOf(init, name, k);
      if SizeOf(last.ty) > 0 {
        var offset := StructShape(ms).offsets[|ms| - 1];
        PaddingKeeps(EmitMembers(init), EmittedEnd(init), offset, name);
        CAppend(EmitMembers(init) + PaddingBytes(EmittedEnd(init), offset), CField(Named(last.name), Emit(last.ty)));
        CAppend(EmitAlternatives(init), CField(Named(last.name), Emit(last.ty)));
      }
    }
  }

  lemma {:induction false} AppendKeeps(fs: seq<CField>, f: CField, name: CName)
    requires f.name != name && CMember(fs, name).None?
    ensures CMember(fs + [f], name).None?
  {
    assert (fs + [f])[..|fs|] == fs;
    hide CEnd, CAlign;
  }

  lemma {:induction false} PaddingKeeps(fs: seq<CField>, lo: nat, hi: nat, name: string)
    requires CMember(fs, Named(name)).None?
    ensures CMember(fs + PaddingBytes(lo, hi), Named(name)).None?
    decreases if lo < hi then hi - lo else 0
  {
    hide CMember;
    if lo < hi {
      var p := CField(PaddingByte(lo), CScalar(1));
      AppendKeeps(fs, p, Named(name));
      PaddingKeeps(fs + [p], lo + 1, hi, name);
      assert fs + PaddingBytes(lo, hi) == fs + [p] + PaddingBytes(lo + 1, hi);
    } else {
      assert fs + PaddingBytes(lo, hi) == fs;
    }
  }

  lemma {:induction false} PrependKeeps(f: CField, fs: seq<CField>, name: CName)
    requires f.name != name && CMember(fs, name).None?
    ensures CMember([f] + fs, name).None?
    decreases |fs|
  {
    if fs == [] {
      assert [f] + fs == [] + [f];
      CAppend([], f);
    } else {
      var init, last := fs[..|fs| - 1], fs[|fs| - 1];
      assert [f] + fs == ([f] + init) + [last];
      CAppend([f] + init, last);
      PrependKeeps(f, init, name);
    }
  }

  /** A member without a size is no field in C. */
  lemma {:induction false} EmptyMemberSpelled(t: Type, k: nat)
    requires Sized(t) && k < |MembersOf(t)| && SizeOf(MembersOf(t)[k].ty) == 0
    ensures CDesignate(Emit(t), [Dot(Named(MembersOf(t)[k].name))]).None?
  {
    var ms, name := MembersOf(t), MembersOf(t)[k].name;
    NotAmongMembers(ms, k);
    CDesignateOne(Emit(t), Dot(Named(name)));
    if t.Struct? {
      PaddingKeeps(EmitMembers(ms), EmittedEnd(ms), SizeOf(t), name);
    } else {
      PrependKeeps(CField(Buffer, CArray(SizeOf(t), CScalar(1))), EmitAlternatives(ms), Named(name));
    }
  }

  /** The folding accepts a path to a part that has a size if and only if C accepts its spelling: every member is a field,
      and every subscript is below the length of the C array. */
  lemma {:induction false} AcceptedAsInC(root: Type, path: seq<Step>)
    requires Sized(root) && SizeOf(root) > 0
    ensures EvalLvalue(root, path).Ok? && SizeOf(EvalLvalue(root, path).value.ty) > 0 <==>
              SpellDown(root, path).Some? && CDesignate(Emit(root), SpellDown(root, path).value).Some?
    decreases |path|
  {
    if path == [] {
      hide SizeOf, Emit, Sized;
    } else {
      FirstStep(root, path);
      match path[0]
      case Index(i) =>
        if root.Array? {
          ArrayHasSizedBase(root.count, root.base);
          AcceptedAsInC(root.base, path[1..]);
          ElementSpelled(root.count, root.base, i);
          SpelledFirst(root, path, [Dot(Elements), Element(i)], root.base);
        }
      case Field(k) =>
        if k < |MembersOf(root)| {
          FieldAsInC(root, path, k);
        }
    }
  }

  lemma {:induction false} SpelledFirst(root: Type, path: seq<Step>, first: seq<Designator>, next: Type)
    requires Sized(root) && path != []
    requires SpellDown(root, path) ==
             if SpellDown(next, path[1..]).Some? then Some(first + SpellDown(next, path[1..]).value) else None
    ensures SpellDown(root, path).Some? ==>
              (CDesignate(Emit(root), SpellDown(root, path).value).Some? <==>
                 CDesignate(Emit(root), first).Some? &&
                 CDesignate(CDesignate(Emit(root), first).value.ty, SpellDown(next, path[1..]).value).Some?)
  {
    hide CDesignate, Emit, SpellDown, Sized;
    if SpellDown(root, path).Some? {
      CDesignateSplit(Emit(root), first, SpellDown(next, path[1..]).value);
    }
  }

  lemma {:induction false} FieldAsInC(root: Type, path: seq<Step>, k: nat)
    requires Sized(root) && SizeOf(root) > 0 && path != [] && path[0] == Field(k) && k < |MembersOf(root)|
    ensures EvalLvalue(root, path).Ok? && SizeOf(EvalLvalue(root, path).value.ty) > 0 <==>
              SpellDown(root, path).Some? && CDesignate(Emit(root), SpellDown(root, path).value).Some?
    decreases |path|, -1
  {
    var m := MembersOf(root)[k];
    assert m in MembersOf(root);
    FirstStep(root, path);
    SpelledFirst(root, path, [Dot(Named(m.name))], m.ty);
    if SizeOf(m.ty) > 0 {
      AcceptedAsInC(m.ty, path[1..]);
      if root.Struct? {
        StructMemberAgrees(root.members, k);
      } else {
        UnionMemberAgrees(root.members, k);
      }
    } else {
      EmptyMemberSpelled(root, k);
      if EvalLvalue(m.ty, path[1..]).Ok? {
        EmptyParts(m.ty, path[1..]);
      }
    }
  }

  lemma {:induction false} EmptyParts(t: Type, path: seq<Step>)
    requires Sized(t) && SizeOf(t) == 0 && EvalLvalue(t, path).Ok?
    ensures SizeOf(EvalLvalue(t, path).value.ty) == 0
  {
    if SizeOf(EvalLvalue(t, path).value.ty) > 0 {
      PartInsideAndAligned(t, path, 0);
    }
  }

  // ---------- Bytes ----------

  ghost predicate Covers(p: Place, b: nat) {
    p.offset <= b < p.offset + SizeOf(p.ty)
  }

  lemma {:induction false} Later(size: nat, i: nat, j: nat)
    requires i < j
    ensures size * i + size <= size * j
  {
    var k := j - i - 1;
    assert j == i + 1 + k;
    assert size * j == size * i + size + size * k;
  }

  lemma {:induction false} DivideByte(b: nat, size: nat, i: nat)
    requires size > 0
    ensures size * i <= b < size * i + size <==> i == b / size
    ensures size * (b / size) + b % size == b
  {
    var q := b / size;
    assert b == size * q + b % size;
    if i < q {
      Later(size, i, q);
    } else if q < i {
      Later(size, q, i);
    }
  }

  lemma {:induction false} BelowCount(b: nat, size: nat, count: nat) returns (i: nat)
    requires size > 0 && b < count * size
    ensures i == b / size && i < count
  {
    i := b / size;
    DivideByte(b, size, i);
    if count < i {
      Later(size, count, i);
    }
  }

  /** Every byte of an array lies in one element that the folding accepts, and in no other. */
  lemma {:induction false} ElementOfByte(count: nat, base: Type, b: nat) returns (i: nat)
    requires b < SizeOf(Array(count, base))
    ensures var t := Array(count, base);
            EvalLvalue(t, [Index(i)]).Ok? && Covers(EvalLvalue(t, [Index(i)]).value, b) &&
            forall j :: EvalLvalue(t, [Index(j)]).Ok? && Covers(EvalLvalue(t, [Index(j)]).value, b) ==> j == i
  {
    hide EvalLvalue, SizeOf, Covers;
    i := ByteElement(count, base, b);
    ElementCovers(count, base, i, b);
    forall j | EvalLvalue(Array(count, base), [Index(j)]).Ok? && Covers(EvalLvalue(Array(count, base), [Index(j)]).value, b)
      ensures j == i
    {
      ElementCovers(count, base, j, b);
    }
  }

  lemma {:induction false} ByteElement(count: nat, base: Type, b: nat) returns (i: nat)
    requires b < SizeOf(Array(count, base))
    ensures SizeOf(base) > 0 && i < count && i == b / SizeOf(base)
  {
    ArrayHasSizedBase(count, base);
    assert SizeOf(Array(count, base)) == count * SizeOf(base);
    hide SizeOf;
    i := BelowCount(b, SizeOf(base), count);
  }

  lemma {:induction false} ElementCovers(count: nat, base: Type, i: nat, b: nat)
    requires SizeOf(base) > 0
    ensures var r := EvalLvalue(Array(count, base), [Index(i)]);
            (r.Ok? <==> i < count) && (r.Ok? ==> (Covers(r.value, b) <==> i == b / SizeOf(base)))
  {
    OneStep(Array(count, base), Index(i));
    hide EvalLvalue, SizeOf;
    DivideByte(b, SizeOf(base), i);
  }

  /** A type whose values have no parts that are accessed by name or number. */
  predicate IsAtom(t: Type) {
    t.Scalar? || t.Slice?
  }

  /** Byte `b` of an object holds data, and not padding. */
  ghost predicate HoldsData(t: Type, b: nat)
    decreases t
  {
    match t
    case Scalar(n) => b < n
    case Slice(word) => b < word + word
    case Array(count, base) => SizeOf(base) > 0 && b / SizeOf(base) < count && HoldsData(base, b % SizeOf(base))
    case Struct(ms) =>
      exists k :: 0 <= k < |ms| && StructShape(ms).offsets[k] <= b && HoldsData(ms[k].ty, b - StructShape(ms).offsets[k])
    case Union(ms) => exists k :: 0 <= k < |ms| && HoldsData(ms[k].ty, b)
    case _ => false
  }

  ghost predicate Reaches(t: Type, path: seq<Step>, b: nat) {
    EvalLvalue(t, path).Ok? && IsAtom(EvalLvalue(t, path).value.ty) && Covers(EvalLvalue(t, path).value, b)
  }

  lemma {:induction false} ReachesDown(t: Type, s: Step, path: seq<Step>, b: nat)
    requires EvalStep(Place(t, 0), s).Ok?
    ensures var p := EvalStep(Place(t, 0), s).value;
            Reaches(t, [s] + path, b) <==> p.offset <= b && Reaches(p.ty, path, b - p.offset)
  {
    FirstStep(t, [s] + path);
    assert ([s] + path)[1..] == path;
    hide EvalLvalue, EvalStep, SizeOf;
  }

  /** A byte holds data if and only if some path that the folding accepts leads to a part around it that has no parts
      itself. */
  lemma {:induction false} DataReached(t: Type, b: nat)
    requires Sized(t)
    ensures HoldsData(t, b) <==> exists path :: Reaches(t, path, b)
  {
    if HoldsData(t, b) {
      var path := PathToByte(t, b);
    }
    if path :| Reaches(t, path, b) {
      ByteOnPath(t, path, b);
    }
  }

  lemma {:induction false} PathToByte(t: Type, b: nat) returns (path: seq<Step>)
    requires HoldsData(t, b)
    ensures Reaches(t, path, b)
    decreases t
  {
    match t
    case Array(_, base) =>
      var i := b / SizeOf(base);
      DivideByte(b, SizeOf(base), i);
      var rest := PathToByte(base, b % SizeOf(base));
      path := [Index(i)] + rest;
      ReachesDown(t, Index(i), rest, b);
    case Struct(ms) =>
      var k :| 0 <= k < |ms| && StructShape(ms).offsets[k] <= b && HoldsData(ms[k].ty, b - StructShape(ms).offsets[k]);
      var rest := PathToByte(ms[k].ty, b - StructShape(ms).offsets[k]);
      path := [Field(k)] + rest;
      ReachesDown(t, Field(k), rest, b);
    case Union(ms) =>
      var k :| 0 <= k < |ms| && HoldsData(ms[k].ty, b);
      var rest := PathToByte(ms[k].ty, b);
      path := [Field(k)] + rest;
      ReachesDown(t, Field(k), rest, b);
    case _ =>
      path := [];
  }

  lemma {:induction false} ByteOnPath(t: Type, path: seq<Step>, b: nat)
    requires Sized(t) && Reaches(t, path, b)
    ensures HoldsData(t, b) && b < SizeOf(t)
    decreases |path|
  {
    if path == [] {
      ByteOfAtom(t, b);
    } else {
      var p := PartOnPath(t, path, b);
      hide SizeOf, EvalLvalue, EvalStep, Sized, Reaches, HoldsData;
      ByteOnPath(p.ty, path[1..], b - p.offset);
      DataInPart(t, path[0], b);
    }
  }

  lemma {:induction false} PartOnPath(t: Type, path: seq<Step>, b: nat) returns (p: Place)
    requires Sized(t) && path != [] && Reaches(t, path, b)
    ensures EvalStep(Place(t, 0), path[0]) == Ok(p) && Sized(p.ty) && p.offset <= b &&
            Reaches(p.ty, path[1..], b - p.offset)
  {
    FirstStep(t, path);
    assert [path[0]] + path[1..] == path;
    p := EvalStep(Place(t, 0), path[0]).value;
    ReachesDown(t, path[0], path[1..], b);
    hide SizeOf, EvalLvalue, EvalStep;
    PartSized(t, path[0]);
  }

  lemma {:induction false} StepEnds(t: Type, s: Step)
    requires Sized(t) && EvalStep(Place(t, 0), s).Ok? && SizeOf(EvalStep(Place(t, 0), s).value.ty) > 0
    ensures var p := EvalStep(Place(t, 0), s).value; p.offset + SizeOf(p.ty) <= SizeOf(t)
  {
    StepInside(t, s);
  }

  lemma {:induction false} ByteOfAtom(t: Type, b: nat)
    requires Reaches(t, [], b)
    ensures HoldsData(t, b) && b < SizeOf(t)
  {
  }

  lemma {:induction false} DataInPart(t: Type, s: Step, b: nat)
    requires Sized(t) && EvalStep(Place(t, 0), s).Ok?
    requires var p := EvalStep(Place(t, 0), s).value;
             p.offset <= b < p.offset + SizeOf(p.ty) && HoldsData(p.ty, b - p.offset)
    ensures HoldsData(t, b) && b < SizeOf(t)
  {
    StepEnds(t, s);
    hide SizeOf;
    if s.Index? {
      DivideByte(b, SizeOf(t.base), s.i);
    } else {
      assert MembersOf(t)[s.k].ty == EvalStep(Place(t, 0), s).value.ty;
    }
  }

  lemma {:induction false} PartSized(t: Type, s: Step)
    requires Sized(t) && EvalStep(Place(t, 0), s).Ok?
    ensures Sized(EvalStep(Place(t, 0), s).value.ty)
  {
    if s.Field? {
      assert MembersOf(t)[s.k] in MembersOf(t);
    }
  }
}
