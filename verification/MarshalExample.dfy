/** A 64-bit little-endian machine, and two small heaps on it: one that survives
    the round trip and one that does not. */
module MarshalExample {
  import opened Bytes
  import opened Marshal
  import opened MarshalHeap
  import opened MarshalLookup
  import opened MarshalObject
  import opened MarshalReach
  import opened MarshalSpace
  import opened MarshalLate
  import opened MarshalShare
  import opened MarshalOrder
  import opened MarshalTheorems

  const TWO31: nat := 0x8000_0000
  const TWO32: nat := 0x1_0000_0000

  function LittleEndian64(): Arch
  {
    Arch(n => LE(n, PTR), s => UnLE(s),
         s => if UnLE(s) < TWO31 then UnLE(s) else UnLE(s) - TWO32,
         i => 4096 + 64 * i)
  }

  lemma {:induction false} LittleEndianValid(n: nat)
    requires 4096 + 64 * n < WORDS
    ensures ValidArch(LittleEndian64()) && ValidAlloc(LittleEndian64(), n)
  {
    Pow256Values();
    forall x: nat | x < WORDS ensures UnLE(LE(x, PTR)) == x {
      LERoundTrip(x, PTR);
    }
    forall s: seq<byte> | |s| == PTR ensures LE(UnLE(s), PTR) == s {
      UnLEBound(s);
    }
  }

  /** A structure holding a pointer and a list head (a pointer and a spare word),
      and what they point to. */
  function Descriptors(): Table
  {
    [Struct(24, [Field(0, 0, Pointer, 1), Field(8, 0, Substruct, 2)]),
     Struct(8, []),
     Struct(16, [Field(0, 0, Pointer, 1)])]
  }

  /** The structure is at 8, its list head at 16, the target at 32. */
  function Words(first: nat): seq<byte>
  {
    Zeros(8) + LE(first, 8) + LE(32, 8) + Zeros(8) + Zeros(8)
  }

  function Memory(first: nat): (mem: Mem)
    ensures |mem| == 40
  {
    seq(40, i requires 0 <= i < 40 => Some(Words(first)[i]))
  }

  /** `first` is the pointer outside the list head: null, or the same target. */
  function Heap(first: nat): Env
  {
    Env(LittleEndian64(), Descriptors(), Memory(first), map[8 := Obj(0, 24), 32 := Obj(1, 8)],
        if first == 0 then [8, 16, 32] else [8, 32, 16])
  }

  lemma {:induction false} WordAt(first: nat)
    ensures Load(Memory(first), 8, 8) == LE(first, 8)
    ensures Load(Memory(first), 16, 8) == LE(32, 8)
    ensures Mapped(Memory(first), 8, 24) && Mapped(Memory(first), 16, 16) && Mapped(Memory(first), 32, 8)
  {
    hide LE;
    var w := Words(first);
    assert forall i :: 0 <= i < 8 ==> w[8 + i] == LE(first, 8)[i];
    assert forall i :: 0 <= i < 8 ==> w[16 + i] == LE(32, 8)[i];
  }

  lemma {:induction false} Slots(first: nat)
    requires first == 0 || first == 32
    ensures Target(Heap(first), 8) == first && Target(Heap(first), 16) == 32
  {
    hide LE, UnLE, Memory, Words, Load;
    LittleEndianValid(0);
    WordAt(first);
    assert LittleEndian64().enc(first) == LE(first, 8) && LittleEndian64().enc(32) == LE(32, 8);
  }

  lemma {:induction false} Rows()
    ensures var T := Descriptors();
      && |T| == 3 && InfoOf(T, 0) == Struct(24, [Field(0, 0, Pointer, 1), Field(8, 0, Substruct, 2)])
      && InfoOf(T, 1) == Struct(8, []) && InfoOf(T, 2) == Struct(16, [Field(0, 0, Pointer, 1)])
  {
  }

  lemma {:induction false} DescriptorsGood()
    ensures GoodTable(Descriptors())
  {
    hide Descriptors, InfoOf;
    Rows();
    var T := Descriptors();
    forall m, i | 0 <= m < |T| && 0 <= i < |FieldsOf(T, m)| ensures Fits(T, Size(InfoOf(T, m)), FieldsOf(T, m)[i]) {
      assert m == 0 || m == 2;
    }
    forall m, i, j | 0 <= m < |T| && 0 <= i < |FieldsOf(T, m)| && 0 <= j < |FieldsOf(T, m)| && i != j
      ensures Clear(T, FieldsOf(T, m)[i], FieldsOf(T, m)[j])
    {
      assert m == 0;
    }
  }

  lemma {:induction false} HeapTyped(first: nat)
    requires first == 0 || first == 32
    ensures TypedHeap(Heap(first))
  {
    hide LE, UnLE, Memory, Words, Load, GoodTable, Target, LittleEndian64;
    var E := Heap(first);
    LittleEndianValid(3);
    DescriptorsGood();
    Slots(first);
    WordAt(first);
    assert FieldsOf(E.T, 2) == [Field(0, 0, Pointer, 1)];
    assert FieldsOf(E.T, 0) == [Field(0, 0, Pointer, 1), Field(8, 0, Substruct, 2)];
    assert FieldsOf(E.T, 1) == [];
    assert |E.mem| == 40;
    assert WellTyped(E, 2, 16);
    assert WellTyped(E, 0, 8);
    assert WellTyped(E, 1, 32);
    assert ObjectOk(E, 8);
    assert ObjectOk(E, 32);
  }

  lemma {:induction false} SerializeElement(E: Env, refs: seq<nat>, osize: int)
    requires E.T == Descriptors() && |E.mem| == 40 && Mapped(E.mem, 32, 8)
    ensures var r := Ser(E.A, E.T, E.mem, 1, 32, false, refs, osize);
      r.Ok? && r.refs == (if 32 in refs then refs else refs + [32]) && r.late == {}
  {
    hide Load, Mapped;
    assert InfoOf(E.T, 1) == Struct(8, []);
  }

  /** The last field of a structure. */
  lemma {:induction false} LastField(E: Env, fields: seq<Field>, k: nat, a: nat, skip: bool, s: Turn, source: nat,
      r: SerResult)
    requires k + 1 == |fields| && SerPlan(E.A, E.mem, fields[k], a, s.osize) == Visit(source, s.osize)
    requires r == Ser(E.A, E.T, E.mem, fields[k].mi, source, fields[k].kind == Substruct, s.refs, s.osize) && r.Ok?
    ensures var q := SerFields(E.A, E.T, E.mem, fields, k, a, skip, s.obj, s.len, s.refs, s.osize);
      q.FieldsOk? && q.refs == r.refs && q.late == r.late + TooLate(fields[k], skip, source, s.refs)
  {
    hide Ser, SerPlan, Renumber, Piece;
  }

  lemma {:induction false} SerializeHead(E: Env, refs: seq<nat>)
    requires E.T == Descriptors() && |E.mem| == 40 && Mapped(E.mem, 16, 16) && Mapped(E.mem, 32, 8)
    requires 16 !in refs && Target(E, 16) == 32
    ensures var r := Ser(E.A, E.T, E.mem, 2, 16, true, refs, 0);
      && r.Ok? && r.refs == (if 32 in refs then refs + [16] else refs + [16, 32])
      && r.late == if 32 in refs then {Pointer} else {}
  {
    hide Load, Mapped, Record, SerFields;
    SerializeElement(E, refs + [16], 0);
    var fields := [Field(0, 0, Pointer, 1)];
    assert InfoOf(E.T, 2) == Struct(16, fields);
    LastField(E, fields, 0, 16, true, Turn([], HEADER, refs + [16], 0), 32,
      Ser(E.A, E.T, E.mem, 1, 32, false, refs + [16], 0));
    assert refs + [16] + [32] == refs + [16, 32];
  }

  /** The list head of the structure at 8, its last field. */
  lemma {:induction false} SerializeLast(E: Env, s: Turn)
    requires E.T == Descriptors() && |E.mem| == 40 && Mapped(E.mem, 16, 16) && Mapped(E.mem, 32, 8)
    requires 16 !in s.refs && Target(E, 16) == 32 && s.osize == 0
    ensures var q := SerFields(E.A, E.T, E.mem, [Field(0, 0, Pointer, 1), Field(8, 0, Substruct, 2)], 1, 8, false,
      s.obj, s.len, s.refs, 0);
      && q.FieldsOk? && q.refs == (if 32 in s.refs then s.refs + [16] else s.refs + [16, 32])
      && q.late == if 32 in s.refs then {Pointer} else {}
  {
    hide Load, Mapped, SerFields, Ser;
    SerializeHead(E, s.refs);
    LastField(E, [Field(0, 0, Pointer, 1), Field(8, 0, Substruct, 2)], 1, 8, false, s, 16,
      Ser(E.A, E.T, E.mem, 2, 16, true, s.refs, 0));
  }

  lemma {:induction false} NullFirst(E: Env, obj: seq<byte>, len: nat)
    requires E.T == Descriptors() && |E.mem| == 40 && Mapped(E.mem, 16, 16) && Mapped(E.mem, 32, 8)
    requires Target(E, 8) == 0 && Target(E, 16) == 32
    ensures var r := SerFields(E.A, E.T, E.mem, [Field(0, 0, Pointer, 1), Field(8, 0, Substruct, 2)], 0, 8, false, obj,
      len, [8], 0);
      r.FieldsOk? && r.refs == [8, 16, 32] && r.late == {}
  {
    hide Ser, Load, Mapped, Renumber, Piece, Descriptors;
    SerializeLast(E, Turn(obj, len, [8], 0));
    assert [8] + [16, 32] == [8, 16, 32];
  }

  lemma {:induction false} SharedFirst(E: Env, obj: seq<byte>, len: nat)
    requires E.T == Descriptors() && |E.mem| == 40 && Mapped(E.mem, 16, 16) && Mapped(E.mem, 32, 8)
    requires Target(E, 8) == 32 && Target(E, 16) == 32
    ensures var r := SerFields(E.A, E.T, E.mem, [Field(0, 0, Pointer, 1), Field(8, 0, Substruct, 2)], 0, 8, false, obj,
      len, [8], 0);
      r.FieldsOk? && r.refs == [8, 32, 16] && r.late == {Pointer}
  {
    hide Ser, Load, Mapped, Renumber, Piece, Descriptors;
    var fields := [Field(0, 0, Pointer, 1), Field(8, 0, Substruct, 2)];
    SerializeElement(E, [8], 0);
    var r := Ser(E.A, E.T, E.mem, 1, 32, false, [8], 0);
    assert r.refs == [8, 32];
    SerializeLast(E, Turn(Renumber(E.A, fields[0], false, obj, r.refs, 32), len + |Piece(len, r.out)|, r.refs, 0));
    assert [8, 32] + [16] == [8, 32, 16];
  }

  lemma {:induction false} HeapSerialized(first: nat)
    requires first == 0 || first == 32
    ensures var r := Serialize(Heap(first), 8);
      r.Ok? && r.refs == Heap(first).refs && r.late == if first == 0 then {} else {Pointer}
  {
    hide LE, UnLE, Memory, Words, Load, Target, LittleEndian64, Mapped, SerFields, Record;
    var E := Heap(first);
    Slots(first);
    WordAt(first);
    var obj := Load(E.mem, 8, 24);
    if first == 0 {
      NullFirst(E, obj, HEADER + |obj|);
    } else {
      SharedFirst(E, obj, HEADER + |obj|);
    }
    assert InfoOf(E.T, 0) == Struct(24, [Field(0, 0, Pointer, 1), Field(8, 0, Substruct, 2)]);
    assert [] + [8] == [8];
  }

  lemma {:induction false} HeapSource(first: nat)
    requires first == 0 || first == 32
    ensures Source(Heap(first), 8)
  {
    hide LE, UnLE, Memory, Words, LittleEndian64, TypedHeap, ObjectOk, Ser;
    HeapTyped(first);
    HeapSerialized(first);
    LittleEndianValid(3);
  }

  lemma {:induction false} HeapRoot(first: nat)
    ensures 8 in Heap(first).objs && Heap(first).objs[8].mi == 0
  {
  }

  /** With the outer pointer null the list head survives; with the outer pointer
      aiming at the element too, which is then met first, it does not. */
  lemma {:induction false} SharedElementLost(x: seq<byte>)
    ensures var E := Heap(0);
      && Source(E, 8) && !SharedInside(E, 8)
      && Unserialize(E.A, E.T, 0, Serialize(E, 8).out + x) == Done(|Serialize(E, 8).out|, AllCopies(E))
    ensures var E := Heap(32);
      && Source(E, 8) && SharedInside(E, 8)
      && Unserialize(E.A, E.T, 0, Serialize(E, 8).out + x) != Done(|Serialize(E, 8).out|, AllCopies(E))
  {
    hide *;
    HeapOutcome(0, x);
    HeapOutcome(32, x);
  }

  lemma {:induction false} HeapOutcome(first: nat, x: seq<byte>)
    requires first == 0 || first == 32
    ensures 8 in Heap(first).objs && Source(Heap(first), 8) && (SharedInside(Heap(first), 8) <==> first == 32)
    ensures var E := Heap(first);
      Unserialize(E.A, E.T, 0, Serialize(E, 8).out + x) == Done(|Serialize(E, 8).out|, AllCopies(E)) <==> first == 0
  {
    hide *;
    HeapSource(first);
    HeapSerialized(first);
    HeapRoot(first);
    RoundTripUnlessLate(Heap(first), 8, x);
    RoundTripIff(Heap(first), 8, x);
  }

  /** The places of the first heap. */
  function Places(): set<Place>
  {
    {Place(8, 0, false), Place(16, 2, true), Place(32, 1, false)}
  }

  lemma {:induction false} HeapFields(first: nat)
    ensures var T := Heap(first).T;
      FieldsOf(T, 0) == [Field(0, 0, Pointer, 1), Field(8, 0, Substruct, 2)] && FieldsOf(T, 1) == [] &&
        FieldsOf(T, 2) == [Field(0, 0, Pointer, 1)]
  {
  }

  /** Its only live pointer is in the list head. */
  lemma {:induction false} OnlyPointer(s: Site, t: nat)
    requires s.place in Places() && Aims(Heap(0), s, t)
    ensures s == Site(Place(16, 2, true), 0) && t == 32
  {
    hide LE, UnLE, Memory, Words, Load, Target, LittleEndian64, Descriptors;
    Slots(0);
    HeapFields(0);
  }

  lemma {:induction false} PlacesSpan()
    ensures Spans(Heap(0), Places())
  {
    hide LE, UnLE, Memory, Words, Load, Target, LittleEndian64, Descriptors;
    Slots(0);
    HeapFields(0);
  }

  /** It shares nothing with its list head. */
  lemma {:induction false} HeapUnshared()
    ensures Unshared(Heap(0), 8, Places())
  {
    hide Spans, Aims, Heap;
    PlacesSpan();
    forall s: Site, t: nat | s.place in Places() && Aims(Heap(0), s, t) ensures s == Site(Place(16, 2, true), 0) &&
      t == 32 {
      OnlyPointer(s, t);
    }
    HeapRoot(0);
  }

  /** A substructure at offset 0 has the address of the structure that holds it,
      so it is taken for one already serialized, and what is sent is refused. */
  lemma {:induction false} SubstructureFirstRefused(A: Arch, T: Table, mem: Mem, a: nat, inner: nat)
    requires ValidArch(A) && |T| > 0 && T[0].Struct? && T[0].fields == [Field(0, 0, Substruct, inner)]
    requires a < |mem| && Mapped(mem, a, T[0].bytes)
    ensures var r := Ser(A, T, mem, 0, a, false, [], 0);
      r.Ok? && Unserialize(A, T, 0, r.out) == Fail
  {
    hide Mapped, Load;
    var obj := Load(mem, a, T[0].bytes);
    FirstSkipped(A, T, mem, a, inner, obj);
    var r := Ser(A, T, mem, 0, a, false, [], 0);
    assert [] + [a] == [a];
    assert InfoOf(T, 0) == T[0];
    assert r.out == Record(A, 1, obj, []);
    var G := Alloc(A, r.out, 0, [], Slice(r.out, HEADER, T[0].bytes));
    FirstMissing(A, T, inner, r.out, G);
  }

  lemma {:induction false} FirstSkipped(A: Arch, T: Table, mem: Mem, a: nat, inner: nat, obj: seq<byte>)
    ensures var q := SerFields(A, T, mem, [Field(0, 0, Substruct, inner)], 0, a, false, obj, HEADER + |obj|, [a], 0);
      q == FieldsOk(obj, [], [a], {Substruct})
  {
    hide Load;
    assert Ser(A, T, mem, inner, a, true, [a], 0) == Ok([], [a], {});
    assert SerFields(A, T, mem, [Field(0, 0, Substruct, inner)], 1, a, false, obj, HEADER + |obj|, [a], 0) ==
      FieldsOk(obj, [], [a], {});
  }

  lemma {:induction false} FirstMissing(A: Arch, T: Table, inner: nat, buf: seq<byte>, G: seq<Block>)
    requires HEADER <= |buf|
    ensures UnFields(A, T, [Field(0, 0, Substruct, inner)], 0, buf, 0, |buf|, G, 0, 0, 0) == Fail
  {
  }
}
