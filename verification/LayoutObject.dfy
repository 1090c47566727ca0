// Structs and unions as they are completed in place, and the emission of their C definitions.

module LayoutObject {
  import opened Wrappers
  import opened Layout
  import opened LayoutProof

  // A member as written: a variable, or a constant, function or alias, which takes no room.
  datatype Written = Variable(name: string, ty: Type) | Other(name: string)

  function Variables(ws: seq<Written>): seq<Member> {
    if ws == [] then []
    else
      var init, last := Variables(ws[..|ws| - 1]), ws[|ws| - 1];
      if last.Variable? then init + [Member(last.name, last.ty)] else init
  }

  predicate Placeable(w: Written) {
    w.Variable? ==> !w.ty.Incomplete? && !w.ty.Unsized?
  }

  datatype MemberVariable = MemberVariable(name: string, ty: Type, offset: nat)

  /** The member variables of a struct carry the offsets of its layout. */
  ghost predicate Recorded(vs: seq<MemberVariable>, ms: seq<Member>, offsets: seq<nat>) {
    |vs| == |ms| == |offsets| &&
    forall k :: 0 <= k < |vs| ==> vs[k] == MemberVariable(ms[k].name, ms[k].ty, offsets[k])
  }

  ghost function Zeros(n: nat): seq<nat> {
    seq(n, _ => 0)
  }

  method Align(n: nat, align: nat) returns (r: nat)
    requires IsAlign(align)
    ensures r == RoundUp(n, align)
  {
    RoundUpIsMultiple(n, align);
    r := n;
    while r % align != 0
      invariant n <= r <= RoundUp(n, align)
      decreases RoundUp(n, align) - r
    {
      r := r + 1;
    }
    RoundUpLeast(n, align, r);
  }

  lemma {:induction false} VariablesStep(ws: seq<Written>, i: nat)
    requires i < |ws|
    ensures Variables(ws[..i + 1]) ==
              if ws[i].Variable? then Variables(ws[..i]) + [Member(ws[i].name, ws[i].ty)] else Variables(ws[..i])
  {
    assert ws[..i + 1][..i] == ws[..i];
  }

  lemma {:induction false} RecordedMore(vs: seq<MemberVariable>, ms: seq<Member>, offsets: seq<nat>, name: string,
                                        t: Type, offset: nat)
    requires Recorded(vs, ms, offsets)
    ensures Recorded(vs + [MemberVariable(name, t, offset)], ms + [Member(name, t)], offsets + [offset])
  {
  }

  /** No member variable is written from position `i` on. */
  ghost predicate NoneFrom(ws: seq<Written>, i: nat) {
    forall j :: i <= j < |ws| ==> !ws[j].Variable?
  }

  lemma {:induction false} NoneStep(ws: seq<Written>, i: nat)
    requires i < |ws|
    ensures NoneFrom(ws, i) <==> !ws[i].Variable? && NoneFrom(ws, i + 1)
  {
  }

  lemma {:induction false} NoneAtEnd(ws: seq<Written>)
    ensures NoneFrom(ws, |ws|)
  {
  }

  lemma {:induction false} StillOk(s: Shape, size: nat, align: nat)
    requires ShapeOk(s) && Fits(size, align)
    ensures ShapeOk(AddMember(s, size, align))
    ensures size > 0 ==> IsAlign(Max(align, s.align))
  {
    if size > 0 {
      RoundUpIsMultiple(RoundUp(s.next, align) + size, Max(align, s.align));
    }
  }

  /** The steps in which a member is added. */
  lemma {:induction false} Steps(s: Shape, size: nat, align: nat)
    requires ShapeOk(s) && Fits(size, align)
    ensures var s' := AddMember(s, size, align);
            var offset := if align != 0 then RoundUp(s.next, align) else s.next;
            var align' := if align >= s.align then align else s.align;
            ShapeOk(s') && s'.offsets == s.offsets + [offset] && (align != 0 ==> IsAlign(align)) &&
            (size == 0 ==> s'.next == offset && s'.size == s.size && s'.align == s.align) &&
            (size != 0 ==> IsAlign(align') && s'.next == offset + size && s'.size == RoundUp(offset + size, align') &&
                           s'.align == align')
  {
    StillOk(s, size, align);
  }

  class Aggregate {
    var size: nat
    var align: nat
    var isComplete: bool
    var memberVariables: seq<MemberVariable>
    // How often the type was put on the list of types to be emitted.
    var listed: nat

    constructor ()
      ensures size == 0 && align == 0 && !isComplete && memberVariables == [] && listed == 0
    {
      size, align, isComplete, memberVariables, listed := 0, 0, false, [], 0;
    }

    /** Marks the type complete when no member variable is still to come. */
    method Settle(ws: seq<Written>, from: nat) returns (complete: bool)
      requires from <= |ws|
      modifies this`isComplete
      ensures isComplete == complete == NoneFrom(ws, from)
    {
      isComplete := true;
      var j := from;
      while j < |ws|
        invariant from <= j <= |ws| && isComplete
        invariant forall x :: from <= x < j ==> !ws[x].Variable?
      {
        if ws[j].Variable? {
          isComplete := false;
          return false;
        }
        j := j + 1;
      }
      return true;
    }

    /** The members added so far have the layout of a struct of them. */
    ghost predicate InStruct(ms: seq<Member>, next: nat)
      reads this`size, this`align, this`memberVariables
    {
      var s := StructShape(ms);
      ShapeOk(s) && size == s.size && align == s.align && next == s.next && Recorded(memberVariables, ms, s.offsets)
    }

    ghost predicate InUnion(ms: seq<Member>)
      reads this
    {
      (align == 0 || IsAlign(align)) && align == UnionAlign(ms) && Recorded(memberVariables, ms, Zeros(|ms|)) &&
      size == (if isComplete then RoundUp(UnionSize(ms), UnionAlign(ms)) else UnionSize(ms))
    }

    /** Adds a member variable at the next offset that suits it. */
    method AddToStruct(name: string, t: Type, next: nat, ghost ms: seq<Member>) returns (next': nat)
      requires Sized(t) && InStruct(ms, next)
      modifies this`size, this`align, this`memberVariables
      ensures InStruct(ms + [Member(name, t)], next')
    {
      ghost var s, s' := StructShape(ms), AddMember(StructShape(ms), SizeOf(t), AlignOf(t));
      hide StructShape, SizeOf, AlignOf, Sized, RoundUp, ShapeOk, Fits, IsAlign, Recorded, AddMember;
      SizesFit(t);
      Steps(s, SizeOf(t), AlignOf(t));
      ShapeStep(ms, Member(name, t), ms + [Member(name, t)]);
      next' := next;
      if AlignOf(t) != 0 {
        next' := Align(next', AlignOf(t));
      }
      memberVariables := memberVariables + [MemberVariable(name, t, next')];
      if SizeOf(t) != 0 {
        if AlignOf(t) >= align {
          align := AlignOf(t);
        }
        size := Align(next' + SizeOf(t), align);
        next' := next' + SizeOf(t);
      }
      assert size == s'.size && align == s'.align && next' == s'.next;
      RecordedMore(old(memberVariables), ms, s.offsets, name, t, memberVariables[|memberVariables| - 1].offset);
    }

    method AddToUnion(name: string, t: Type, ghost ms: seq<Member>)
      requires Sized(t) && InUnion(ms) && !isComplete
      modifies this`size, this`align, this`memberVariables
      ensures InUnion(ms + [Member(name, t)])
    {
      UnionStep(ms, Member(name, t), ms + [Member(name, t)]);
      hide UnionSize, UnionAlign, SizeOf, AlignOf, Sized;
      SizesFit(t);
      memberVariables := memberVariables + [MemberVariable(name, t, 0)];
      if SizeOf(t) != 0 {
        if SizeOf(t) >= size {
          size := SizeOf(t);
        }
        if AlignOf(t) >= align {
          align := AlignOf(t);
        }
      }
    }

    method CompleteStruct(ws: seq<Written>) returns (r: Result<()>)
      requires size == 0 && align == 0 && memberVariables == [] && listed == 0
      requires forall w :: w in ws && w.Variable? && Placeable(w) ==> Sized(w.ty)
      modifies this
      ensures r.Ok? <==> forall w :: w in ws ==> Placeable(w)
      ensures r.Ok? ==> isComplete && listed == 1
      ensures r.Ok? ==> var s := StructShape(Variables(ws));
                size == s.size && align == s.align && Recorded(memberVariables, Variables(ws), s.offsets)
    {
      var complete := Settle(ws, 0);
      if complete {
        listed := listed + 1;
      }
      var next := 0;
      var i := 0;
      assert Variables(ws[..0]) == [];
      assert InStruct([], 0);
      hide Sized, Variables, StructShape, Recorded, ShapeOk, NoneFrom, InStruct, SizeOf, AlignOf, RoundUp, AddMember,
        IsAlign;
      while i < |ws|
        invariant 0 <= i <= |ws|
        invariant forall j :: 0 <= j < i ==> Placeable(ws[j])
        invariant InStruct(Variables(ws[..i]), next)
        invariant isComplete == NoneFrom(ws, i)
        invariant listed == if isComplete then 1 else 0
      {
        VariablesStep(ws, i);
        NoneStep(ws, i);
        if ws[i].Variable? {
          var t := ws[i].ty;
          assert ws[i] in ws;
          if t.Incomplete? {
            return Fatal("member variable of incomplete type");
          }
          if t.Unsized? {
            return Fatal("member variable of unsized type");
          }
          next := AddToStruct(ws[i].name, t, next, Variables(ws[..i]));
          var last := Settle(ws, i + 1);
          if last {
            listed := listed + 1;
          }
        }
        i := i + 1;
      }
      assert ws[..i] == ws && NoneFrom(ws, i) by { NoneAtEnd(ws); }
      return Ok(());
    }

    /** After the last member variable the size is padded to the alignment. */
    method SettleUnion(ws: seq<Written>, from: nat, ghost ms: seq<Member>)
      requires from <= |ws| && InUnion(ms) && !isComplete && listed == 0
      modifies this`isComplete, this`size, this`listed
      ensures InUnion(ms) && isComplete == NoneFrom(ws, from)
      ensures listed == if isComplete then 1 else 0
    {
      hide UnionSize, UnionAlign;
      var last := Settle(ws, from);
      if last {
        if align != 0 {
          size := Align(size, align);
        }
        listed := listed + 1;
      }
    }

    method CompleteUnion(ws: seq<Written>) returns (r: Result<()>)
      requires size == 0 && align == 0 && memberVariables == [] && listed == 0
      requires forall w :: w in ws && w.Variable? && Placeable(w) ==> Sized(w.ty)
      modifies this
      ensures r.Ok? <==> forall w :: w in ws ==> Placeable(w)
      ensures r.Ok? ==> isComplete && listed == 1
      ensures r.Ok? ==> var ms := Variables(ws);
                size == SizeOf(Union(ms)) && align == AlignOf(Union(ms)) && Recorded(memberVariables, ms, Zeros(|ms|))
    {
      var complete := Settle(ws, 0);
      if complete {
        listed := listed + 1;
      }
      var i := 0;
      assert Variables(ws[..0]) == [];
      assert InUnion([]);
      hide Sized, Variables, UnionSize, UnionAlign, NoneFrom, Recorded;
      while i < |ws|
        invariant 0 <= i <= |ws|
        invariant forall j :: 0 <= j < i ==> Placeable(ws[j])
        invariant InUnion(Variables(ws[..i]))
        invariant isComplete == NoneFrom(ws, i)
        invariant listed == if isComplete then 1 else 0
      {
        VariablesStep(ws, i);
        NoneStep(ws, i);
        if ws[i].Variable? {
          var t := ws[i].ty;
          assert ws[i] in ws;
          if t.Incomplete? {
            return Fatal("member variable of incomplete type");
          }
          if t.Unsized? {
            return Fatal("member variable of unsized type");
          }
          AddToUnion(ws[i].name, t, Variables(ws[..i]));
          SettleUnion(ws, i + 1, Variables(ws[..i + 1]));
        }
        i := i + 1;
      }
      assert ws[..i] == ws && NoneFrom(ws, i) by { NoneAtEnd(ws); }
      return Ok(());
    }
  }

  lemma {:induction false} UnionStep(init: seq<Member>, last: Member, ms: seq<Member>)
    requires ms == init + [last]
    ensures UnionSize(ms) == Max(SizeOf(last.ty), UnionSize(init))
    ensures UnionAlign(ms) == if SizeOf(last.ty) == 0 then UnionAlign(init) else Max(AlignOf(last.ty), UnionAlign(init))
  {
    assert ms[..|ms| - 1] == init;
  }

  // ---------- Emission ----------

  /** The field list of a struct definition: padding bytes up to every member that has a size, and up to the
      size of the struct. */
  method StructFields(vs: seq<MemberVariable>, size: nat, ghost ms: seq<Member>) returns (fs: seq<CField>)
    requires Sized(Struct(ms)) && Recorded(vs, ms, StructShape(ms).offsets) && size == SizeOf(Struct(ms))
    ensures CStruct(fs) == Emit(Struct(ms))
  {
    fs := [];
    var offset := 0;
    var i := 0;
    assert ms[..0] == [];
    assert forall k :: 0 <= k < |ms| ==> ms[k] in ms;
    hide StructShape, EmitMembers, EmittedEnd, SizeOf, DistinctNames;
    while i < |vs|
      invariant 0 <= i <= |vs|
      invariant fs == EmitMembers(ms[..i]) && offset == EmittedEnd(ms[..i])
    {
      NextEmitted(ms, i);
      if SizeOf(vs[i].ty) != 0 {
        fs, offset := Pad(fs, offset, vs[i].offset);
        fs := fs + [CField(Named(vs[i].name), Emit(vs[i].ty))];
        offset := offset + SizeOf(vs[i].ty);
      }
      i := i + 1;
    }
    assert ms[..i] == ms;
    fs, offset := Pad(fs, offset, size);
  }

  lemma {:induction false} NextEmitted(ms: seq<Member>, i: nat)
    requires i < |ms| && forall m :: m in ms ==> Sized(m.ty)
    ensures var offset := StructShape(ms).offsets[i];
            if SizeOf(ms[i].ty) == 0 then
              EmitMembers(ms[..i + 1]) == EmitMembers(ms[..i]) && EmittedEnd(ms[..i + 1]) == EmittedEnd(ms[..i])
            else
              EmitMembers(ms[..i + 1]) == EmitMembers(ms[..i]) + PaddingBytes(EmittedEnd(ms[..i]), offset) +
                                          [CField(Named(ms[i].name), Emit(ms[i].ty))] &&
              EmittedEnd(ms[..i + 1]) == Max(EmittedEnd(ms[..i]), offset) + SizeOf(ms[i].ty)
  {
    OffsetOfPrefix(ms, i);
    assert ms[..i + 1] == ms[..i] + [ms[i]];
    if SizeOf(ms[i].ty) == 0 {
      assert ms[..i + 1][..i] == ms[..i];
    } else {
      EmitStep(ms[..i], ms[i], ms[..i + 1]);
    }
  }

  method Pad(fs: seq<CField>, offset: nat, end: nat) returns (fs': seq<CField>, offset': nat)
    ensures fs' == fs + PaddingBytes(offset, end) && offset' == Max(offset, end)
  {
    fs', offset' := fs, offset;
    while offset' < end
      invariant offset <= offset' <= Max(offset, end)
      invariant fs' + PaddingBytes(offset', end) == fs + PaddingBytes(offset, end)
    {
      assert fs' + PaddingBytes(offset', end) ==
             (fs' + [CField(PaddingByte(offset'), CScalar(1))]) + PaddingBytes(offset' + 1, end);
      fs' := fs' + [CField(PaddingByte(offset'), CScalar(1))];
      offset' := offset' + 1;
    }
    assert PaddingBytes(offset', end) == [];
  }

  lemma {:induction false} OffsetOfPrefix(ms: seq<Member>, i: nat)
    requires i < |ms|
    ensures StructShape(ms[..i + 1]).offsets[i] == StructShape(ms).offsets[i]
  {
    ShapePrefix(ms, i);
    ShapePrefix(ms[..i + 1], i);
    assert ms[..i + 1][..i] == ms[..i];
  }

  method UnionFields(vs: seq<MemberVariable>, size: nat, ghost ms: seq<Member>) returns (fs: seq<CField>)
    requires Sized(Union(ms)) && Recorded(vs, ms, Zeros(|ms|)) && size == SizeOf(Union(ms))
    ensures CUnion(fs) == Emit(Union(ms))
  {
    ghost var buffer := CField(Buffer, CArray(size, CScalar(1)));
    fs := [CField(Buffer, CArray(size, CScalar(1)))];
    var i := 0;
    assert ms[..0] == [];
    while i < |vs|
      invariant 0 <= i <= |vs|
      invariant fs == [buffer] + EmitAlternatives(ms[..i])
    {
      assert ms[..i + 1][..i] == ms[..i];
      if SizeOf(vs[i].ty) != 0 {
        fs := fs + [CField(Named(vs[i].name), Emit(vs[i].ty))];
      }
      i := i + 1;
    }
    assert ms[..i] == ms;
  }
}
