/** Well-formed heaps, and the copy that unserializing should produce, defined
    from the source memory alone. */
module MarshalHeap {
  import opened Bytes
  import opened Marshal

  // ---------- The machine and the descriptors ----------

  const WORDS: nat := 0x1_0000_0000_0000_0000

  ghost predicate ValidArch(A: Arch)
  {
    && (forall n: nat {:trigger A.enc(n)} :: |A.enc(n)| == PTR && (n < WORDS ==> A.dec(A.enc(n)) == n))
    && (forall s: seq<byte> {:trigger A.dec(s)} :: |s| == PTR ==> A.enc(A.dec(s)) == s)
  }

  /** Bytes of the enclosing structure that a field stands for. */
  function Extent(T: Table, f: Field): nat
  {
    if f.kind == Substruct then Size(InfoOf(T, f.mi)) else PTR
  }

  predicate Apart(at: nat, n: nat, at': nat, n': nat)
  {
    at + n <= at' || at' + n' <= at
  }

  function FieldsOf(T: Table, m: nat): seq<Field>
  {
    var info := InfoOf(T, m);
    if info.Struct? then info.fields else []
  }

  /** What offsetof() guarantees of a field of a structure of `size` bytes, plus
      two rules on the use of the MARSHAL_* macros: no substructure at offset 0,
      and the length of a fixed string not at offset 0. */
  predicate Fits(T: Table, size: nat, f: Field)
  {
    && f.offset + Extent(T, f) <= size
    && (f.kind != Ignore ==> f.mi < |T|)
    && (f.kind == Substruct ==> f.offset > 0 && InfoOf(T, f.mi).Struct? && 0 < Extent(T, f) < size)
    && (f.kind == Pointer && InfoOf(T, f.mi).FixedString? ==>
          f.offset2 > 0 && f.offset2 + INT <= size && Apart(f.offset2, INT, f.offset, PTR))
  }

  /** Field f, and the length it refers to, do not overlap field g. */
  predicate Clear(T: Table, f: Field, g: Field)
  {
    && Apart(f.offset, Extent(T, f), g.offset, Extent(T, g))
    && (f.offset2 > 0 ==> Apart(f.offset2, INT, g.offset, Extent(T, g)))
  }

  predicate GoodTable(T: Table)
  {
    && (forall m, i :: 0 <= m < |T| && 0 <= i < |FieldsOf(T, m)| ==> Fits(T, Size(InfoOf(T, m)), FieldsOf(T, m)[i]))
    && (forall m, i, j :: 0 <= m < |T| && 0 <= i < |FieldsOf(T, m)| && 0 <= j < |FieldsOf(T, m)| && i != j ==>
          Clear(T, FieldsOf(T, m)[i], FieldsOf(T, m)[j]))
  }

  // ---------- Typed heaps ----------

  /** What a pointer may point to: an object of descriptor `mi` and `len` bytes. */
  datatype Obj = Obj(mi: nat, len: nat)

  /** A source heap, and the list of addresses the serializer met in it. */
  datatype Env = Env(A: Arch, T: Table, mem: Mem, objs: map<nat, Obj>, refs: seq<nat>)

  function Target(E: Env, slot: nat): nat
  {
    E.A.dec(Load(E.mem, slot, PTR))
  }

  /** The structure m at address a: pointers are null or aim at objects of the
      declared descriptor and length, and never inside a substructure. */
  ghost predicate WellTyped(E: Env, m: nat, a: nat)
    decreases Size(InfoOf(E.T, m))
  {
    forall i :: 0 <= i < |FieldsOf(E.T, m)| ==>
      var f := FieldsOf(E.T, m)[i];
      && (f.kind == Pointer ==> PointerOk(E, f, a))
      && (f.kind == Substruct && Extent(E.T, f) < Size(InfoOf(E.T, m)) ==>
            a + f.offset !in E.objs && WellTyped(E, f.mi, a + f.offset))
  }

  ghost predicate PointerOk(E: Env, f: Field, a: nat)
  {
    var t := Target(E, a + f.offset);
    t == 0 || (&& t in E.objs && E.objs[t].mi == f.mi
               && (InfoOf(E.T, f.mi).FixedString? ==> E.objs[t].len == E.A.int32(Load(E.mem, a + f.offset2, INT))))
  }

  ghost predicate ObjectOk(E: Env, a: nat)
    requires a in E.objs
  {
    var Obj(m, len) := E.objs[a];
    match InfoOf(E.T, m)
    case NullString => len > 0 && StrLen(E.mem, a) == Some(len - 1)
    case FixedString => Mapped(E.mem, a, len)
    case Struct(size, _) => a < |E.mem| && len == size && Mapped(E.mem, a, size) && WellTyped(E, m, a)
  }

  ghost predicate TypedHeap(E: Env)
  {
    && ValidArch(E.A)
    && GoodTable(E.T)
    && forall a :: a in E.objs ==> ObjectOk(E, a) && E.objs[a].mi < |E.T|
  }

  /** Every object is well typed, and no address is small enough to be taken
      for one of the dummies 1..|refs|. */
  ghost predicate GoodHeap(E: Env)
  {
    && TypedHeap(E)
    && |E.refs| + 1 < WORDS
    && forall a :: a in E.objs ==> a > |E.refs|
  }

  // ---------- The expected copy ----------

  /** How many of the first n addresses met are objects (not substructures). */
  function Rank(E: Env, n: nat): (r: nat)
    ensures r <= n
  {
    if n == 0 then 0 else Rank(E, n - 1) + if n <= |E.refs| && E.refs[n - 1] in E.objs then 1 else 0
  }

  /** Address of the copy of object t. */
  function CopyOf(E: Env, t: nat): nat
  {
    E.A.alloc(Rank(E, IndexOf(E.refs, t)))
  }

  /** The slot of the copy that corresponds to the slot at `slot`. */
  function NewSlot(E: Env, slot: nat): seq<byte>
  {
    var t := Target(E, slot);
    E.A.enc(if t == 0 then 0 else CopyOf(E, t))
  }

  /** D with fields k.. of the structure m at offset o replaced by what the copy
      of the structure at `a` holds there. */
  function Patch(E: Env, m: nat, k: nat, a: nat, D: seq<byte>, o: nat): (r: seq<byte>)
    ensures |r| == |D|
    decreases Size(InfoOf(E.T, m)), |FieldsOf(E.T, m)| - k, 1
  {
    if k >= |FieldsOf(E.T, m)| then D
    else Patch(E, m, k + 1, a, PatchField(E, m, k, a, D, o), o)
  }

  /** Pointers follow the copies, ignored slots are null, the rest stays. */
  function PatchField(E: Env, m: nat, k: nat, a: nat, D: seq<byte>, o: nat): (r: seq<byte>)
    requires k < |FieldsOf(E.T, m)|
    ensures |r| == |D|
    decreases Size(InfoOf(E.T, m)), |FieldsOf(E.T, m)| - k, 0
  {
    var f := FieldsOf(E.T, m)[k];
    match f.kind
    case Ignore => Write(D, o + f.offset, Zeros(PTR))
    case Pointer => Write(D, o + f.offset, NewSlot(E, a + f.offset))
    case Substruct =>
      if Extent(E.T, f) < Size(InfoOf(E.T, m)) then Patch(E, f.mi, 0, a + f.offset, D, o + f.offset) else D
  }

  /** The memory of the copy of object `a`. */
  function Image(E: Env, a: nat): seq<byte>
    requires a in E.objs
  {
    var Obj(m, len) := E.objs[a];
    match InfoOf(E.T, m)
    case NullString => Load(E.mem, a, len)
    case FixedString => Load(E.mem, a, len) + [0]
    case Struct(size, _) => Patch(E, m, 0, a, Load(E.mem, a, size), 0)
  }

  /** The copies of the objects among the first n addresses met, in that order. */
  function Copies(E: Env, n: nat): (r: seq<Block>)
    ensures |r| == Rank(E, n)
  {
    if n == 0 then []
    else if n <= |E.refs| && E.refs[n - 1] in E.objs
    then Copies(E, n - 1) + [Block(n, Image(E, E.refs[n - 1]))]
    else Copies(E, n - 1)
  }
}
