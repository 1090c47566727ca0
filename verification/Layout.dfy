// Sizes, alignments and offsets of types, and the C types that are emitted for them.

module Layout {
  import opened Wrappers

  // `Scalar` stands for every type whose size is its alignment: booleans, bytes, integers, floats,
  // enums, pointers and functions.  `Unsized` is a type of no size, `Incomplete` a struct or union
  // whose members are still being added.
  datatype Type =
    | Void
    | Scalar(bytes: nat)
    | Array(count: nat, base: Type)
    | Slice(word: nat)
    | Struct(members: seq<Member>)
    | Union(members: seq<Member>)
    | Unsized
    | Incomplete

  datatype Member = Member(name: string, ty: Type)

  function Max(a: nat, b: nat): nat {
    if a >= b then a else b
  }

  /** The least multiple of `a` from `n` on; `n` itself when there is no alignment. */
  function RoundUp(n: nat, a: nat): (r: nat)
    ensures n <= r
  {
    if a == 0 then n
    else if n % a == 0 then n
    else n + (a - n % a)
  }

  // A struct while its members are added.
  datatype Shape = Shape(size: nat, align: nat, next: nat, offsets: seq<nat>)

  function AddMember(s: Shape, size: nat, align: nat): Shape {
    var offset := RoundUp(s.next, align);
    if size == 0 then
      s.(next := offset, offsets := s.offsets + [offset])
    else
      var align' := Max(align, s.align);
      Shape(RoundUp(offset + size, align'), align', offset + size, s.offsets + [offset])
  }

  function StructShape(ms: seq<Member>): (s: Shape)
    ensures |s.offsets| == |ms|
    decreases ms
  {
    if ms == [] then Shape(0, 0, 0, [])
    else
      var init, last := ms[..|ms| - 1], ms[|ms| - 1];
      AddMember(StructShape(init), SizeOf(last.ty), AlignOf(last.ty))
  }

  function UnionSize(ms: seq<Member>): nat
    decreases ms
  {
    if ms == [] then 0 else Max(SizeOf(ms[|ms| - 1].ty), UnionSize(ms[..|ms| - 1]))
  }

  /** Members of size zero do not count. */
  function UnionAlign(ms: seq<Member>): nat
    decreases ms
  {
    if ms == [] then 0
    else
      var init, last := ms[..|ms| - 1], ms[|ms| - 1];
      if SizeOf(last.ty) == 0 then UnionAlign(init) else Max(AlignOf(last.ty), UnionAlign(init))
  }

  function SizeOf(t: Type): nat
    decreases t
  {
    match t
    case Void => 0
    case Scalar(n) => n
    case Array(count, base) => count * SizeOf(base)
    case Slice(word) => 2 * word
    case Struct(ms) => StructShape(ms).size
    case Union(ms) => RoundUp(UnionSize(ms), UnionAlign(ms))
    case Unsized => 0
    case Incomplete => 0
  }

  function AlignOf(t: Type): nat
    decreases t
  {
    match t
    case Void => 0
    case Scalar(n) => n
    case Array(_, base) => AlignOf(base)
    case Slice(word) => word
    case Struct(ms) => StructShape(ms).align
    case Union(ms) => UnionAlign(ms)
    case Unsized => 0
    case Incomplete => 0
  }

  /** A type that may be the type of an object. */
  predicate Sized(t: Type) {
    match t
    case Void => true
    case Scalar(n) => n == 1 || n == 2 || n == 4 || n == 8
    case Array(_, base) => Sized(base)
    case Slice(word) => word == 4 || word == 8
    case Struct(ms) => DistinctNames(ms) && forall m :: m in ms ==> Sized(m.ty)
    case Union(ms) => DistinctNames(ms) && forall m :: m in ms ==> Sized(m.ty)
    case Unsized => false
    case Incomplete => false
  }

  predicate DistinctNames(ms: seq<Member>) {
    forall i, j :: 0 <= i < j < |ms| ==> ms[i].name != ms[j].name
  }

  // ---------- The emitted C types ----------

  datatype CName = Named(member: string) | PaddingByte(offset: nat) | Buffer | Elements | Start | Count

  datatype CType =
    | CScalar(bytes: nat)
    | CArray(count: nat, element: CType)
    | CStruct(fields: seq<CField>)
    | CUnion(fields: seq<CField>)

  datatype CField = CField(name: CName, ty: CType)

  function PaddingBytes(lo: nat, hi: nat): (fs: seq<CField>)
    ensures |fs| == (if lo < hi then hi - lo else 0)
    decreases if lo < hi then hi - lo else 0
  {
    if lo < hi then [CField(PaddingByte(lo), CScalar(1))] + PaddingBytes(lo + 1, hi) else []
  }

  /** Where the emitted members end. */
  function EmittedEnd(ms: seq<Member>): nat
    decreases ms
  {
    if ms == [] then 0
    else
      var init, last := ms[..|ms| - 1], ms[|ms| - 1];
      var size := SizeOf(last.ty);
      if size == 0 then EmittedEnd(init) else Max(EmittedEnd(init), StructShape(ms).offsets[|ms| - 1]) + size
  }

  /** The fields of a struct up to the last of the given members that has a size. */
  function EmitMembers(ms: seq<Member>): seq<CField>
    requires forall m :: m in ms ==> Sized(m.ty)
    decreases ms
  {
    if ms == [] then []
    else
      var init, last := ms[..|ms| - 1], ms[|ms| - 1];
      if SizeOf(last.ty) == 0 then EmitMembers(init)
      else
        EmitMembers(init) + PaddingBytes(EmittedEnd(init), StructShape(ms).offsets[|ms| - 1]) +
        [CField(Named(last.name), Emit(last.ty))]
  }

  function EmitAlternatives(ms: seq<Member>): seq<CField>
    requires forall m :: m in ms ==> Sized(m.ty)
    decreases ms
  {
    if ms == [] then []
    else
      var init, last := ms[..|ms| - 1], ms[|ms| - 1];
      if SizeOf(last.ty) == 0 then EmitAlternatives(init)
      else EmitAlternatives(init) + [CField(Named(last.name), Emit(last.ty))]
  }

  /** The C type of a type with a size; types without are never spelled. */
  function Emit(t: Type): CType
    requires Sized(t)
    decreases t
  {
    match t
    case Void => CStruct([])
    case Scalar(n) => CScalar(n)
    case Array(count, base) => CStruct([CField(Elements, CArray(count, Emit(base)))])
    case Slice(word) => CStruct([CField(Start, CScalar(word)), CField(Count, CScalar(word))])
    case Struct(ms) => CStruct(EmitMembers(ms) + PaddingBytes(EmittedEnd(ms), SizeOf(t)))
    case Union(ms) => CUnion([CField(Buffer, CArray(SizeOf(t), CScalar(1)))] + EmitAlternatives(ms))
  }

  // ---------- How C lays them out (ISO/IEC 9899:1999 section 6.7.2.1, System V ABI section 3.1.2) ----------

  function CSize(c: CType): nat
    decreases c
  {
    match c
    case CScalar(n) => n
    case CArray(count, e) => count * CSize(e)
    case CStruct(fs) => RoundUp(CEnd(fs), CMaxAlign(fs))
    case CUnion(fs) => RoundUp(CMaxSize(fs), CMaxAlign(fs))
  }

  function CAlign(c: CType): nat
    decreases c
  {
    match c
    case CScalar(n) => n
    case CArray(_, e) => CAlign(e)
    case CStruct(fs) => CMaxAlign(fs)
    case CUnion(fs) => CMaxAlign(fs)
  }

  /** Every field goes to the next offset that suits its alignment. */
  function CEnd(fs: seq<CField>): nat
    decreases fs
  {
    if fs == [] then 0
    else RoundUp(CEnd(fs[..|fs| - 1]), FieldAlign(fs[|fs| - 1])) + FieldSize(fs[|fs| - 1])
  }

  function CMaxSize(fs: seq<CField>): nat
    decreases fs
  {
    if fs == [] then 0 else Max(FieldSize(fs[|fs| - 1]), CMaxSize(fs[..|fs| - 1]))
  }

  function CMaxAlign(fs: seq<CField>): nat
    decreases fs
  {
    if fs == [] then 0 else Max(FieldAlign(fs[|fs| - 1]), CMaxAlign(fs[..|fs| - 1]))
  }

  function FieldSize(f: CField): nat
    decreases f
  {
    CSize(f.ty)
  }

  function FieldAlign(f: CField): nat
    decreases f
  {
    CAlign(f.ty)
  }

  datatype CPlace = CPlace(ty: CType, offset: nat)

  /** A named field of a C struct. */
  function CMember(fs: seq<CField>, name: CName): Option<CPlace>
    decreases |fs|
  {
    if fs == [] then None
    else
      var init, last := fs[..|fs| - 1], fs[|fs| - 1];
      if last.name == name then Some(CPlace(last.ty, RoundUp(CEnd(init), CAlign(last.ty)))) else CMember(init, name)
  }
}
