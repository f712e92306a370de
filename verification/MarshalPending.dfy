/** Fields the unserializer has not reached yet still hold what the serializer
    wrote for them. */
module MarshalPending {
  import opened Bytes
  import opened Marshal
  import opened MarshalHeap
  import opened MarshalLookup
  import opened MarshalPatch
  import opened MarshalObject

  ghost predicate PendingField(E: Env, f: Field, a: nat, skip: bool, D: seq<byte>, o: nat)
  {
    && (f.kind == Pointer ==> Slice(D, o + f.offset, PTR) == WireSlot(E, skip, a + f.offset))
    && (f.kind == Pointer && InfoOf(E.T, f.mi).FixedString? ==>
          Slice(D, o + f.offset2, INT) == Load(E.mem, a + f.offset2, INT))
    && (f.kind == Substruct ==> Slice(D, o + f.offset, Extent(E.T, f)) == Load(E.mem, a + f.offset, Extent(E.T, f)))
  }

  /** Fields k.. of the structure of descriptor m, copied from `a` to offset o. */
  ghost predicate Pending(E: Env, m: nat, k: nat, a: nat, skip: bool, D: seq<byte>, o: nat)
  {
    forall i :: k <= i < |FieldsOf(E.T, m)| ==> PendingField(E, FieldsOf(E.T, m)[i], a, skip, D, o)
  }

  /** Settling field k leaves the later ones pending. */
  lemma {:induction false} PendingKept(E: Env, m: nat, k: nat, a: nat, skip: bool, D: seq<byte>, D': seq<byte>, o: nat)
    requires GoodTable(E.T) && m < |E.T| && k < |FieldsOf(E.T, m)|
    requires Pending(E, m, k, a, skip, D, o)
    requires var f := FieldsOf(E.T, m)[k]; SameOutside(D, D', o + f.offset, Extent(E.T, f))
    ensures Pending(E, m, k + 1, a, skip, D', o)
  {
    var g := FieldsOf(E.T, m)[k];
    forall i | k + 1 <= i < |FieldsOf(E.T, m)| ensures PendingField(E, FieldsOf(E.T, m)[i], a, skip, D', o) {
      var f := FieldsOf(E.T, m)[i];
      assert Fits(E.T, Size(InfoOf(E.T, m)), f);
      assert Clear(E.T, f, g);
      SameOutsideSlice(D, D', o + g.offset, Extent(E.T, g), o + f.offset, Extent(E.T, f));
      if f.offset2 > 0 {
        SameOutsideSlice(D, D', o + g.offset, Extent(E.T, g), o + f.offset2, INT);
      }
    }
  }

  /** A substructure was copied as is. */
  lemma {:induction false} PendingInside(E: Env, m: nat, a: nat, D: seq<byte>, o: nat)
    requires GoodTable(E.T) && m < |E.T| && o + Size(InfoOf(E.T, m)) <= |D|
    requires Slice(D, o, Size(InfoOf(E.T, m))) == Load(E.mem, a, Size(InfoOf(E.T, m)))
    ensures Pending(E, m, 0, a, true, D, o)
  {
    var size := Size(InfoOf(E.T, m));
    forall i | 0 <= i < |FieldsOf(E.T, m)| ensures PendingField(E, FieldsOf(E.T, m)[i], a, true, D, o) {
      var f := FieldsOf(E.T, m)[i];
      assert Fits(E.T, size, f);
      SubSlice(E.mem, a, D, o, size, f.offset, Extent(E.T, f));
      if f.kind == Pointer && InfoOf(E.T, f.mi).FixedString? {
        SubSlice(E.mem, a, D, o, size, f.offset2, INT);
      }
    }
  }

  lemma {:induction false} SubSlice(mem: Mem, a: nat, D: seq<byte>, o: nat, size: nat, at: nat, n: nat)
    requires o + size <= |D| && at + n <= size && Slice(D, o, size) == Load(mem, a, size)
    ensures Slice(D, o + at, n) == Load(mem, a + at, n)
  {
    LoadSlice(mem, a, size, at, n);
    var S := D[o..o + size];
    assert forall x :: 0 <= x < size ==> S[x] == D[o + x];
    assert S[at..at + n] == D[o + at..o + at + n];
  }

  /** Bytes of the region [at, at+n) are those of the source, if no live pointer
      of the object overlaps it. */
  lemma {:induction false} KeptRegion(E: Env, m: nat, a: nat, s: Turn, at: nat, n: nat)
    requires ValidArch(E.A) && GoodTable(E.T) && m < |E.T| && Rest(E, m, 0, a, s).FieldsOk?
    requires s.obj == Load(E.mem, a, Size(InfoOf(E.T, m))) && at + n <= |s.obj|
    requires forall i :: 0 <= i < |FieldsOf(E.T, m)| && LivePointer(E, m, i, a) ==>
      Apart(at, n, FieldsOf(E.T, m)[i].offset, PTR)
    ensures Slice(Rest(E, m, 0, a, s).obj, at, n) == Load(E.mem, a + at, n)
  {
    var obj := Rest(E, m, 0, a, s).obj;
    forall x | at <= x < at + n ensures |obj| == |s.obj| && obj[x] == s.obj[x] {
      SerKeeps(E, m, 0, a, s, x);
    }
    LoadSlice(E.mem, a, |s.obj|, at, n);
    if n > 0 {
      SerKeeps(E, m, 0, a, s, at);
      assert obj[at..at + n] == s.obj[at..at + n];
    }
  }

  /** A serialized object starts with all its fields pending. */
  lemma {:induction false} PendingAtStart(E: Env, m: nat, a: nat, s: Turn, i: nat)
    requires ValidArch(E.A) && GoodTable(E.T) && m < |E.T| && i < |FieldsOf(E.T, m)|
    requires s.obj == Load(E.mem, a, Size(InfoOf(E.T, m)))
    requires Rest(E, m, 0, a, s).FieldsOk? && Rest(E, m, 0, a, s).refs <= E.refs
    ensures PendingField(E, FieldsOf(E.T, m)[i], a, false, Rest(E, m, 0, a, s).obj, 0)
  {
    var f := FieldsOf(E.T, m)[i];
    assert Fits(E.T, Size(InfoOf(E.T, m)), f);
    assert forall j :: 0 <= j < |FieldsOf(E.T, m)| && j != i ==> Clear(E.T, f, FieldsOf(E.T, m)[j]);
    if LivePointer(E, m, i, a) {
      LiveSlot(E, m, a, s, i);
    } else if f.kind != Ignore {
      KeptRegion(E, m, a, s, f.offset, Extent(E.T, f));
    }
    if f.kind == Pointer && InfoOf(E.T, f.mi).FixedString? {
      KeptRegion(E, m, a, s, f.offset2, INT);
    }
  }

  lemma {:induction false} LiveSlot(E: Env, m: nat, a: nat, s: Turn, i: nat)
    requires ValidArch(E.A) && GoodTable(E.T) && m < |E.T| && i < |FieldsOf(E.T, m)|
    requires |s.obj| == Size(InfoOf(E.T, m))
    requires Rest(E, m, 0, a, s).FieldsOk? && Rest(E, m, 0, a, s).refs <= E.refs && LivePointer(E, m, i, a)
    ensures var f := FieldsOf(E.T, m)[i];
      Slice(Rest(E, m, 0, a, s).obj, f.offset, PTR) == WireSlot(E, false, a + f.offset)
  {
    hide Rest, SerFields, Ser, Load, IndexOf;
    var f := FieldsOf(E.T, m)[i];
    var obj := Rest(E, m, 0, a, s).obj;
    var w := WireSlot(E, false, a + f.offset);
    assert Fits(E.T, Size(InfoOf(E.T, m)), f);
    SerRenumbers(E, m, 0, a, s, i, f.offset);
    forall x | f.offset <= x < f.offset + PTR ensures obj[x] == w[x - f.offset] {
      SerRenumbers(E, m, 0, a, s, i, x);
    }
    assert obj[f.offset..f.offset + PTR] == w;
  }

  /** Patching the serialized object gives the copy of the source object. */
  lemma {:induction false} PatchSerialized(E: Env, m: nat, a: nat, s: Turn)
    requires ValidArch(E.A) && GoodTable(E.T) && m < |E.T|
    requires s.obj == Load(E.mem, a, Size(InfoOf(E.T, m)))
    requires Rest(E, m, 0, a, s).FieldsOk? && |Rest(E, m, 0, a, s).obj| == |s.obj|
    ensures Patch(E, m, 0, a, Rest(E, m, 0, a, s).obj, 0) == Patch(E, m, 0, a, s.obj, 0)
  {
    var obj := Rest(E, m, 0, a, s).obj;
    forall x | 0 <= x < |obj| && obj[x] != s.obj[x] ensures InPointer(E.T, m, x) {
      if forall i :: 0 <= i < |FieldsOf(E.T, m)| && LivePointer(E, m, i, a) ==> !InField(E.T, m, i, 0, x) {
        SerKeeps(E, m, 0, a, s, x);
      }
    }
    PatchIgnoresPointers(E, m, a, obj, s.obj);
  }
}
