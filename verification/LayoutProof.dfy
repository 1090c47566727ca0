// The computed layout is the one that C gives to the emitted types.

module LayoutProof {
  import opened Wrappers
  import opened Layout

  ghost predicate IsAlign(a: nat) {
    a == 1 || a == 2 || a == 4 || a == 8
  }

  /** What every size and alignment satisfies. */
  ghost predicate Fits(size: nat, align: nat) {
    (align == 0 || IsAlign(align)) && (size > 0 ==> align > 0) && (align > 0 ==> size % align == 0)
  }

  lemma {:induction false} RoundUpIsMultiple(n: nat, a: nat)
    requires IsAlign(a)
    ensures n <= RoundUp(n, a) < n + a && RoundUp(n, a) % a == 0
  {
    var q, r := n / a, n % a;
    assert n == a * q + r && r < a;
    if r != 0 {
      assert RoundUp(n, a) == a * q + a;
      NextMultiple(q, a);
    }
  }

  lemma {:induction false} NextMultiple(q: nat, a: nat)
    requires IsAlign(a)
    ensures (a * q + a) % a == 0
  {
    if a == 1 {
    } else if a == 2 {
      assert a * q + a == 2 * (q + 1);
    } else if a == 4 {
      assert a * q + a == 4 * (q + 1);
    } else {
      assert a * q + a == 8 * (q + 1);
    }
  }

  lemma {:induction false} RoundUpTwice(n: nat, a: nat)
    requires IsAlign(a)
    ensures RoundUp(RoundUp(n, a), a) == RoundUp(n, a)
  {
    RoundUpIsMultiple(n, a);
  }

  lemma {:induction false} RoundUpLeast(n: nat, a: nat, m: nat)
    requires IsAlign(a) && m % a == 0 && n <= m
    ensures RoundUp(n, a) <= m
  {
    if a == 1 {
    } else if a == 2 {
    } else if a == 4 {
    } else {
    }
  }

  lemma {:induction false} MultipleDivides(count: nat, size: nat, a: nat)
    requires IsAlign(a) && size % a == 0
    ensures (count * size) % a == 0
  {
    var q := size / a;
    if a == 1 {
    } else if a == 2 {
      assert count * size == 2 * (count * q);
    } else if a == 4 {
      assert count * size == 4 * (count * q);
    } else {
      assert count * size == 8 * (count * q);
    }
  }

  // ---------- Sizes and alignments ----------

  lemma {:induction false} SizesFit(t: Type)
    requires Sized(t)
    ensures Fits(SizeOf(t), AlignOf(t))
    decreases t
  {
    match t
    case Array(count, base) =>
      SizesFit(base);
      if AlignOf(base) > 0 {
        MultipleDivides(count, SizeOf(base), AlignOf(base));
      }
    case Struct(ms) =>
      ShapeFits(ms);
    case Union(ms) =>
      UnionFits(ms);
      if UnionAlign(ms) > 0 {
        RoundUpIsMultiple(UnionSize(ms), UnionAlign(ms));
      }
    case _ =>
  }

  /** The state between two members: the end of the last one, and the size rounded up. */
  ghost predicate ShapeOk(s: Shape) {
    (s.align == 0 || IsAlign(s.align)) && (s.align == 0 ==> s.size == 0) && (s.align > 0 ==> s.size > 0 && s.size % s.align == 0)
  }

  lemma {:induction false} ShapeFits(ms: seq<Member>)
    requires forall m :: m in ms ==> Sized(m.ty)
    ensures ShapeOk(StructShape(ms))
    decreases ms
  {
    if ms != [] {
      var init, last := ms[..|ms| - 1], ms[|ms| - 1];
      ShapeFits(init);
      SizesFit(last.ty);
      var s := StructShape(init);
      if SizeOf(last.ty) > 0 {
        RoundUpIsMultiple(RoundUp(s.next, AlignOf(last.ty)) + SizeOf(last.ty), Max(AlignOf(last.ty), s.align));
      }
    }
  }

  lemma {:induction false} UnionFits(ms: seq<Member>)
    requires forall m :: m in ms ==> Sized(m.ty)
    ensures UnionAlign(ms) == 0 || IsAlign(UnionAlign(ms))
    ensures UnionSize(ms) > 0 ==> UnionAlign(ms) > 0
    ensures UnionSize(ms) == 0 ==> UnionAlign(ms) == 0
    decreases ms
  {
    if ms != [] {
      var init, last := ms[..|ms| - 1], ms[|ms| - 1];
      UnionFits(init);
      SizesFit(last.ty);
    }
  }

  // ---------- Offsets ----------

  lemma {:induction false} ShapePrefix(ms: seq<Member>, k: nat)
    requires k < |ms|
    ensures StructShape(ms).offsets[k] == RoundUp(StructShape(ms[..k]).next, AlignOf(ms[k].ty))
    decreases |ms|
  {
    var init := ms[..|ms| - 1];
    if k < |ms| - 1 {
      ShapePrefix(init, k);
      assert init[..k] == ms[..k];
    }
  }

  /** Every member starts at the least suitable offset after the previous one ends. */
  lemma {:induction false} OffsetIsLeast(ms: seq<Member>, k: nat)
    requires k < |ms| && forall m :: m in ms ==> Sized(m.ty)
    ensures var end := if k == 0 then 0 else StructShape(ms).offsets[k - 1] + SizeOf(ms[k - 1].ty);
            var offset, align := StructShape(ms).offsets[k], AlignOf(ms[k].ty);
            end <= offset && (align > 0 ==> offset % align == 0) &&
            forall o: nat :: end <= o && (align > 0 ==> o % align == 0) ==> offset <= o
  {
    ShapePrefix(ms, k);
    var next := StructShape(ms[..k]).next;
    if k > 0 {
      ShapePrefix(ms, k - 1);
      assert ms[..k][..k - 1] == ms[..k - 1];
    }
    var align := AlignOf(ms[k].ty);
    if align > 0 {
      SizesFit(ms[k].ty);
      RoundUpIsMultiple(next, align);
    }
    forall o: nat | next <= o && (align > 0 ==> o % align == 0) ensures RoundUp(next, align) <= o {
      if align > 0 {
        RoundUpLeast(next, align, o);
      }
    }
  }

  /** The members that have a size end before the struct does. */
  lemma {:induction false} WithinStruct(ms: seq<Member>, k: nat)
    requires k < |ms| && SizeOf(ms[k].ty) > 0
    ensures StructShape(ms).offsets[k] + SizeOf(ms[k].ty) <= StructShape(ms).size
    ensures StructShape(ms).offsets[k] + SizeOf(ms[k].ty) <= StructShape(ms).next
    ensures AlignOf(ms[k].ty) <= StructShape(ms).align
    decreases |ms|
  {
    var init := ms[..|ms| - 1];
    if k < |ms| - 1 {
      WithinStruct(init, k);
      assert ms[k] == init[k];
      ShapeGrows(init, SizeOf(ms[|ms| - 1].ty), AlignOf(ms[|ms| - 1].ty));
    }
  }

  lemma {:induction false} ShapeGrows(init: seq<Member>, size: nat, align: nat)
    ensures var s, s' := StructShape(init), AddMember(StructShape(init), size, align);
            s.next <= s'.next && s.align <= s'.align && s'.offsets[..|init|] == s.offsets
  {
  }

  // ---------- The emitted C types ----------

  lemma {:induction false} CAppend(fs: seq<CField>, f: CField)
    ensures CEnd(fs + [f]) == RoundUp(CEnd(fs), CAlign(f.ty)) + CSize(f.ty)
    ensures CMaxAlign(fs + [f]) == Max(CAlign(f.ty), CMaxAlign(fs))
    ensures CMaxSize(fs + [f]) == Max(CSize(f.ty), CMaxSize(fs))
    ensures forall name :: CMember(fs + [f], name) ==
              (if f.name == name then Some(CPlace(f.ty, RoundUp(CEnd(fs), CAlign(f.ty)))) else CMember(fs, name))
  {
    assert (fs + [f])[..|fs|] == fs;
  }

  lemma {:induction false} PaddingByteMovesEnd(fs: seq<CField>, at: nat)
    requires CEnd(fs) == at
    ensures var fs' := fs + [CField(PaddingByte(at), CScalar(1))];
            CEnd(fs') == at + 1 && CMaxAlign(fs') == Max(1, CMaxAlign(fs)) &&
            forall n :: CMember(fs', Named(n)) == CMember(fs, Named(n))
  {
    CAppend(fs, CField(PaddingByte(at), CScalar(1)));
  }

  /** Padding bytes move the end of a struct on, byte by byte, and nothing else. */
  lemma {:induction false} PaddingMovesEnd(fs: seq<CField>, lo: nat, hi: nat)
    requires CEnd(fs) == lo <= hi
    ensures CEnd(fs + PaddingBytes(lo, hi)) == hi
    ensures CMaxAlign(fs + PaddingBytes(lo, hi)) == (if lo < hi then Max(1, CMaxAlign(fs)) else CMaxAlign(fs))
    ensures forall n :: CMember(fs + PaddingBytes(lo, hi), Named(n)) == CMember(fs, Named(n))
    decreases hi - lo
  {
    hide CEnd, CMaxAlign, CMember;
    if lo < hi {
      var p := CField(PaddingByte(lo), CScalar(1));
      PaddingByteMovesEnd(fs, lo);
      PaddingMovesEnd(fs + [p], lo + 1, hi);
      assert fs + PaddingBytes(lo, hi) == fs + [p] + PaddingBytes(lo + 1, hi);
    } else {
      assert fs + PaddingBytes(lo, hi) == fs;
    }
  }

  /** The C type of `t` has the size and the alignment of `t`. */
  ghost predicate SameLayout(t: Type)
    requires Sized(t)
  {
    CSize(Emit(t)) == SizeOf(t) && CAlign(Emit(t)) == AlignOf(t)
  }

  /** The emitted fields of a struct: where they end, how they are aligned, and where each one is. */
  ghost predicate FieldsAgree(ms: seq<Member>)
    requires forall m :: m in ms ==> Sized(m.ty)
  {
    var fs, s := EmitMembers(ms), StructShape(ms);
    CEnd(fs) == EmittedEnd(ms) <= s.next && CMaxAlign(fs) == s.align && s.size == RoundUp(EmittedEnd(ms), s.align) &&
    (s.align == 0 ==> EmittedEnd(ms) == 0)
  }

  /** Every member that has a size is a field of its own name, at its recorded offset. */
  ghost predicate OffsetsAgree(ms: seq<Member>, fs: seq<CField>)
    requires forall m :: m in ms ==> Sized(m.ty)
  {
    forall k :: 0 <= k < |ms| && SizeOf(ms[k].ty) > 0 ==>
      CMember(fs, Named(ms[k].name)) == Some(CPlace(Emit(ms[k].ty), StructShape(ms).offsets[k]))
  }

  lemma {:induction false} EmittedFieldsAgree(ms: seq<Member>)
    requires DistinctNames(ms) && forall m :: m in ms ==> Sized(m.ty)
    ensures FieldsAgree(ms) && OffsetsAgree(ms, EmitMembers(ms))
    decreases ms, 0
  {
    if ms != [] {
      var init, last := ms[..|ms| - 1], ms[|ms| - 1];
      EmittedFieldsAgree(init);
      SizesFit(last.ty);
      if SizeOf(last.ty) > 0 {
        EmittedLayout(last.ty);
        NextField(init, last, ms);
        NextOffset(init, last, ms);
      }
      OffsetsOfPrefix(ms);
    }
  }

  lemma {:induction false} OffsetsOfPrefix(ms: seq<Member>)
    requires ms != []
    ensures forall k :: 0 <= k < |ms| - 1 ==> StructShape(ms).offsets[k] == StructShape(ms[..|ms| - 1]).offsets[k]
  {
  }

  /** The end of the emitted fields with their padding moves to the member's offset, and past it. */
  lemma {:induction false} NextField(init: seq<Member>, last: Member, ms: seq<Member>)
    requires ms == init + [last] && forall m :: m in ms ==> Sized(m.ty)
    requires FieldsAgree(init) && SizeOf(last.ty) > 0 && SameLayout(last.ty) && IsAlign(AlignOf(last.ty))
    ensures FieldsAgree(ms)
    ensures var pad := EmitMembers(init) + PaddingBytes(EmittedEnd(init), StructShape(ms).offsets[|init|]);
            EmitMembers(ms) == pad + [CField(Named(last.name), Emit(last.ty))] &&
            CMember(EmitMembers(ms), Named(last.name)) == Some(CPlace(Emit(last.ty), StructShape(ms).offsets[|init|])) &&
            forall n :: n != last.name ==> CMember(EmitMembers(ms), Named(n)) == CMember(EmitMembers(init), Named(n))
  {
    ShapeStep(init, last, ms);
    AddSized(StructShape(ms), StructShape(init), SizeOf(last.ty), AlignOf(last.ty));
    EmitStep(init, last, ms);
    var offset := StructShape(ms).offsets[|init|];
    var fs := EmitMembers(init);
    var pad := fs + PaddingBytes(EmittedEnd(init), offset);
    RoundUpTwice(StructShape(init).next, AlignOf(last.ty));
    hide RoundUp, AddMember, StructShape, EmitMembers, EmittedEnd, SizeOf, AlignOf, CEnd, CMaxAlign, CMember, Sized;
    PaddingMovesEnd(fs, EmittedEnd(init), offset);
    CAppend(pad, CField(Named(last.name), Emit(last.ty)));
    var s := StructShape(ms);
    assert s.next == EmittedEnd(ms);
    assert s.size == RoundUp(s.next, s.align);
  }

  lemma {:induction false} EmitStep(init: seq<Member>, last: Member, ms: seq<Member>)
    requires ms == init + [last] && (forall m :: m in ms ==> Sized(m.ty)) && SizeOf(last.ty) > 0
    ensures EmittedEnd(ms) == Max(EmittedEnd(init), StructShape(ms).offsets[|init|]) + SizeOf(last.ty)
    ensures EmitMembers(ms) == EmitMembers(init) + PaddingBytes(EmittedEnd(init), StructShape(ms).offsets[|init|]) +
                               [CField(Named(last.name), Emit(last.ty))]
  {
    hide RoundUp, AddMember, StructShape, Sized;
    assert ms[..|ms| - 1] == init;
  }

  lemma {:induction false} ShapeStep(init: seq<Member>, last: Member, ms: seq<Member>)
    requires ms == init + [last]
    ensures StructShape(ms) == AddMember(StructShape(init), SizeOf(last.ty), AlignOf(last.ty))
  {
    hide RoundUp, AddMember;
    assert ms[..|ms| - 1] == init;
  }

  lemma {:induction false} AddSized(s: Shape, s0: Shape, size: nat, align: nat)
    requires size > 0 && s == AddMember(s0, size, align)
    ensures s.offsets == s0.offsets + [RoundUp(s0.next, align)]
    ensures s.align == Max(align, s0.align) && s.next == RoundUp(s0.next, align) + size &&
            s.size == RoundUp(s.next, s.align)
  {
    hide RoundUp;
  }

  lemma {:induction false} NextOffset(init: seq<Member>, last: Member, ms: seq<Member>)
    requires ms == init + [last] && DistinctNames(ms) && (forall m :: m in ms ==> Sized(m.ty))
    requires OffsetsAgree(init, EmitMembers(init)) && SizeOf(last.ty) > 0
    requires CMember(EmitMembers(ms), Named(last.name)) == Some(CPlace(Emit(last.ty), StructShape(ms).offsets[|init|]))
    requires forall n :: n != last.name ==> CMember(EmitMembers(ms), Named(n)) == CMember(EmitMembers(init), Named(n))
    ensures OffsetsAgree(ms, EmitMembers(ms))
  {
    OffsetsOfPrefix(ms);
    assert ms[..|ms| - 1] == init;
    hide EmitMembers, Emit, CMember, SizeOf, StructShape;
    forall k | 0 <= k < |ms| && SizeOf(ms[k].ty) > 0
      ensures CMember(EmitMembers(ms), Named(ms[k].name)) == Some(CPlace(Emit(ms[k].ty), StructShape(ms).offsets[k]))
    {
      if k < |init| {
        assert ms[k] == init[k] && ms[k].name != last.name;
      }
    }
  }

  lemma {:induction false} EmittedAlternatives(ms: seq<Member>)
    requires forall m :: m in ms ==> Sized(m.ty)
    ensures CMaxSize(EmitAlternatives(ms)) == UnionSize(ms) && CMaxAlign(EmitAlternatives(ms)) == UnionAlign(ms)
    decreases ms, 0
  {
    if ms != [] {
      var init, last := ms[..|ms| - 1], ms[|ms| - 1];
      EmittedAlternatives(init);
      if SizeOf(last.ty) > 0 {
        EmittedLayout(last.ty);
        CAppend(EmitAlternatives(init), CField(Named(last.name), Emit(last.ty)));
      }
    }
  }

  lemma {:induction false} CPrepend(f: CField, fs: seq<CField>)
    ensures CMaxSize([f] + fs) == Max(CSize(f.ty), CMaxSize(fs))
    ensures CMaxAlign([f] + fs) == Max(CAlign(f.ty), CMaxAlign(fs))
    decreases |fs|
  {
    if fs == [] {
      assert [f] + fs == [] + [f];
      CAppend([], f);
    } else {
      var init, last := fs[..|fs| - 1], fs[|fs| - 1];
      CPrepend(f, init);
      assert [f] + fs == ([f] + init) + [last] && fs == init + [last];
      CAppend([f] + init, last);
      CAppend(init, last);
    }
  }

  /** Both assertions that are emitted beside a C type hold of it: its size and its alignment are those of
      the type. */
  lemma {:induction false} EmittedLayout(t: Type)
    requires Sized(t) && SizeOf(t) > 0
    ensures SameLayout(t)
    decreases t
  {
    match t
    case Scalar(n) =>
    case Array(count, base) =>
      ArrayHasSizedBase(count, base);
      EmittedLayout(base);
      ArrayLayout(count, base);
    case Slice(word) =>
      SliceLayout(word);
    case Struct(ms) =>
      EmittedFieldsAgree(ms);
      SizesFit(t);
      RoundUpIsMultiple(EmittedEnd(ms), AlignOf(t));
      RoundUpMultiple(SizeOf(t), AlignOf(t));
      PaddingMovesEnd(EmitMembers(ms), EmittedEnd(ms), SizeOf(t));
    case Union(ms) =>
      EmittedAlternatives(ms);
      SizesFit(t);
      UnionLayout(ms);
  }

  lemma {:induction false} RoundUpMultiple(n: nat, a: nat)
    requires a > 0 && n % a == 0
    ensures RoundUp(n, a) == n
  {
  }

  lemma {:induction false} ArrayLayout(count: nat, base: Type)
    requires Sized(base) && SizeOf(Array(count, base)) > 0 && SizeOf(base) > 0 && SameLayout(base)
    ensures SameLayout(Array(count, base))
  {
    var f := CField(Elements, CArray(count, Emit(base)));
    SizesFit(Array(count, base));
    RoundUpMultiple(count * SizeOf(base), AlignOf(base));
    CAppend([], f);
    assert [] + [f] == [f];
  }

  lemma {:induction false} SliceLayout(word: nat)
    requires Sized(Slice(word))
    ensures SameLayout(Slice(word))
  {
    var a, b := CField(Start, CScalar(word)), CField(Count, CScalar(word));
    CAppend([], a);
    CAppend([a], b);
    assert [] + [a] == [a] && [a] + [b] == [a, b];
    hide CEnd, CMaxAlign;
    if word == 4 {
    } else {
    }
  }

  lemma {:induction false} BufferSize(size: nat)
    ensures CSize(CArray(size, CScalar(1))) == size && CAlign(CArray(size, CScalar(1))) == 1
  {
    assert CSize(CScalar(1)) == 1 && CAlign(CScalar(1)) == 1;
    assert size * 1 == size;
  }

  lemma {:induction false} UnionLayout(ms: seq<Member>)
    requires Sized(Union(ms)) && SizeOf(Union(ms)) > 0 && Fits(SizeOf(Union(ms)), AlignOf(Union(ms)))
    requires CMaxSize(EmitAlternatives(ms)) == UnionSize(ms) && CMaxAlign(EmitAlternatives(ms)) == UnionAlign(ms)
    ensures SameLayout(Union(ms))
  {
    var size := SizeOf(Union(ms));
    var buffer := CField(Buffer, CArray(size, CScalar(1)));
    BufferSize(size);
    CPrepend(buffer, EmitAlternatives(ms));
    RoundUpMultiple(size, UnionAlign(ms));
    hide EmitAlternatives, CMaxSize, CMaxAlign, UnionSize, UnionAlign;
  }

  lemma {:induction false} ArrayHasSizedBase(count: nat, base: Type)
    requires SizeOf(Array(count, base)) > 0
    ensures count > 0 && SizeOf(base) > 0
  {
  }
}
