/** The bytes of one object: what the serializer writes for it, and how patching
    field after field turns that into the copy. */
module MarshalPatch {
  import opened Bytes
  import opened Marshal
  import opened MarshalHeap
  import opened MarshalLookup

  /** D' differs from D only in the n bytes at `at`. */
  ghost predicate SameOutside(D: seq<byte>, D': seq<byte>, at: nat, n: nat)
  {
    |D'| == |D| && forall x :: 0 <= x < |D| && !(at <= x < at + n) ==> D'[x] == D[x]
  }

  lemma {:induction false} WriteOutside(D: seq<byte>, at: nat, d: seq<byte>)
    ensures SameOutside(D, Write(D, at, d), at, |d|)
  {
    if at + |d| <= |D| {
      forall x | 0 <= x < |D| && !(at <= x < at + |d|) ensures Write(D, at, d)[x] == D[x] {
        WriteAt(D, at, d, x);
      }
    }
  }

  lemma {:induction false} SameOutsideSlice(D: seq<byte>, D': seq<byte>, at: nat, n: nat, at': nat, n': nat)
    requires SameOutside(D, D', at, n) && Apart(at', n', at, n)
    ensures Slice(D', at', n') == Slice(D, at', n')
  {
    if at' + n' <= |D| {
      assert D'[at'..at' + n'] == D[at'..at' + n'];
    }
  }

  lemma {:induction false} WriteSame(D: seq<byte>, at: nat, d: seq<byte>)
    requires Slice(D, at, |d|) == d && at + |d| <= |D|
    ensures Write(D, at, d) == D
  {
    assert D == D[..at] + D[at..at + |d|] + D[at + |d|..];
  }

  lemma {:induction false} LoadSlice(mem: Mem, a: nat, n: nat, at: nat, k: nat)
    requires at + k <= n
    ensures Slice(Load(mem, a, n), at, k) == Load(mem, a + at, k)
  {
    assert Load(mem, a, n)[at..at + k] == Load(mem, a + at, k);
  }

  /** Byte x is in the extent of field i of the structure at offset o. */
  ghost predicate InField(T: Table, m: nat, i: nat, o: nat, x: nat)
    requires i < |FieldsOf(T, m)|
  {
    var f := FieldsOf(T, m)[i];
    o + f.offset <= x < o + f.offset + Extent(T, f)
  }

  /** Patching fields k.. only touches the extents of those fields. */
  lemma {:induction false} PatchByte(E: Env, m: nat, k: nat, a: nat, D: seq<byte>, o: nat, x: nat)
    requires ValidArch(E.A) && GoodTable(E.T) && m < |E.T| && x < |D|
    requires forall i :: k <= i < |FieldsOf(E.T, m)| ==> !InField(E.T, m, i, o, x)
    ensures Patch(E, m, k, a, D, o)[x] == D[x]
    decreases Size(InfoOf(E.T, m)), |FieldsOf(E.T, m)| - k, 1
  {
    if k < |FieldsOf(E.T, m)| {
      FieldOutside(E, m, k, a, D, o);
      assert !InField(E.T, m, k, o, x);
      PatchByte(E, m, k + 1, a, PatchField(E, m, k, a, D, o), o, x);
    }
  }

  lemma {:induction false} FieldOutside(E: Env, m: nat, k: nat, a: nat, D: seq<byte>, o: nat)
    requires ValidArch(E.A) && GoodTable(E.T) && m < |E.T| && k < |FieldsOf(E.T, m)|
    ensures var f := FieldsOf(E.T, m)[k];
      SameOutside(D, PatchField(E, m, k, a, D, o), o + f.offset, Extent(E.T, f))
    decreases Size(InfoOf(E.T, m)), |FieldsOf(E.T, m)| - k, 0
  {
    hide Patch, Write, SameOutside, Clear, CopyOf;
    var f := FieldsOf(E.T, m)[k];
    assert Fits(E.T, Size(InfoOf(E.T, m)), f);
    match f.kind
    case Ignore => WriteOutside(D, o + f.offset, Zeros(PTR));
    case Pointer => WriteOutside(D, o + f.offset, NewSlot(E, a + f.offset));
    case Substruct => PatchOutside(E, f.mi, a + f.offset, D, o + f.offset);
  }

  lemma {:induction false} PatchOutside(E: Env, m: nat, a: nat, D: seq<byte>, o: nat)
    requires ValidArch(E.A) && GoodTable(E.T) && m < |E.T|
    ensures SameOutside(D, Patch(E, m, 0, a, D, o), o, Size(InfoOf(E.T, m)))
    decreases Size(InfoOf(E.T, m)), |FieldsOf(E.T, m)|, 2
  {
    forall x | 0 <= x < |D| && !(o <= x < o + Size(InfoOf(E.T, m)))
      ensures Patch(E, m, 0, a, D, o)[x] == D[x]
    {
      forall i | 0 <= i < |FieldsOf(E.T, m)| ensures !InField(E.T, m, i, o, x) {
        assert Fits(E.T, Size(InfoOf(E.T, m)), FieldsOf(E.T, m)[i]);
      }
      PatchByte(E, m, 0, a, D, o, x);
    }
  }

  /** Patching is local: a byte of the result depends on that byte only. */
  lemma {:induction false} PatchLocal(E: Env, m: nat, k: nat, a: nat, D: seq<byte>, D': seq<byte>, o: nat, x: nat)
    requires x < |D| == |D'| && D[x] == D'[x]
    ensures Patch(E, m, k, a, D, o)[x] == Patch(E, m, k, a, D', o)[x]
    decreases Size(InfoOf(E.T, m)), |FieldsOf(E.T, m)| - k, 1
  {
    if k < |FieldsOf(E.T, m)| {
      FieldLocal(E, m, k, a, D, D', o, x);
      PatchLocal(E, m, k + 1, a, PatchField(E, m, k, a, D, o), PatchField(E, m, k, a, D', o), o, x);
    }
  }

  lemma {:induction false} FieldLocal(E: Env, m: nat, k: nat, a: nat, D: seq<byte>, D': seq<byte>, o: nat, x: nat)
    requires x < |D| == |D'| && D[x] == D'[x] && k < |FieldsOf(E.T, m)|
    ensures PatchField(E, m, k, a, D, o)[x] == PatchField(E, m, k, a, D', o)[x]
    decreases Size(InfoOf(E.T, m)), |FieldsOf(E.T, m)| - k, 0
  {
    var f := FieldsOf(E.T, m)[k];
    if f.kind == Substruct && Extent(E.T, f) < Size(InfoOf(E.T, m)) {
      PatchLocal(E, f.mi, 0, a + f.offset, D, D', o + f.offset, x);
    }
  }

  /** Other fields of the structure stay clear of the bytes of field i. */
  lemma {:induction false} OtherFields(T: Table, m: nat, i: nat, k: nat, o: nat, x: nat)
    requires GoodTable(T) && m < |T| && i < |FieldsOf(T, m)| && i < k
    requires InField(T, m, i, o, x)
    ensures forall j :: k <= j < |FieldsOf(T, m)| ==> !InField(T, m, j, o, x)
  {
    forall j | k <= j < |FieldsOf(T, m)| ensures !InField(T, m, j, o, x) {
      assert Clear(T, FieldsOf(T, m)[i], FieldsOf(T, m)[j]);
    }
  }

  /** Field i of the copy is what patching that field alone yields. */
  lemma {:induction false} PatchReaches(E: Env, m: nat, k: nat, a: nat, D: seq<byte>, o: nat, i: nat, x: nat)
    requires ValidArch(E.A) && GoodTable(E.T) && m < |E.T|
    requires k <= i < |FieldsOf(E.T, m)| && InField(E.T, m, i, o, x) && x < |D|
    ensures Patch(E, m, k, a, D, o)[x] == PatchField(E, m, i, a, D, o)[x]
    decreases |FieldsOf(E.T, m)| - k
  {
    hide PatchField, Write, NewSlot;
    if k == i {
      OtherFields(E.T, m, i, k + 1, o, x);
      PatchByte(E, m, k + 1, a, PatchField(E, m, k, a, D, o), o, x);
    } else {
      var D' := PatchField(E, m, k, a, D, o);
      PatchReaches(E, m, k + 1, a, D', o, i, x);
      FieldOutside(E, m, k, a, D, o);
      assert Clear(E.T, FieldsOf(E.T, m)[i], FieldsOf(E.T, m)[k]);
      FieldLocal(E, m, i, a, D', D, o, x);
    }
  }

  /** What sits in the pointer slots of D does not matter to the copy. */
  lemma {:induction false} PatchIgnoresPointers(E: Env, m: nat, a: nat, D: seq<byte>, D': seq<byte>)
    requires ValidArch(E.A) && GoodTable(E.T) && m < |E.T| && |D| == |D'| == Size(InfoOf(E.T, m))
    requires forall x :: 0 <= x < |D| && D[x] != D'[x] ==> InPointer(E.T, m, x)
    ensures Patch(E, m, 0, a, D, 0) == Patch(E, m, 0, a, D', 0)
  {
    forall x | 0 <= x < |D| ensures Patch(E, m, 0, a, D, 0)[x] == Patch(E, m, 0, a, D', 0)[x] {
      if D[x] == D'[x] {
        PatchLocal(E, m, 0, a, D, D', 0, x);
      } else {
        var i :| 0 <= i < |FieldsOf(E.T, m)| && FieldsOf(E.T, m)[i].kind == Pointer && InField(E.T, m, i, 0, x);
        PatchReaches(E, m, 0, a, D, 0, i, x);
        PatchReaches(E, m, 0, a, D', 0, i, x);
        assert Fits(E.T, Size(InfoOf(E.T, m)), FieldsOf(E.T, m)[i]);
      }
    }
  }

  ghost predicate InPointer(T: Table, m: nat, x: nat)
  {
    exists i :: 0 <= i < |FieldsOf(T, m)| && FieldsOf(T, m)[i].kind == Pointer && InField(T, m, i, 0, x)
  }
}
