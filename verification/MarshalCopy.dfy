/** What the copy is worth: an isomorphic graph with the same plain bytes. */
module MarshalCopy {
  import opened Bytes
  import opened Marshal
  import opened MarshalHeap
  import opened MarshalLookup
  import opened MarshalPatch
  import opened MarshalObject
  import opened MarshalReach
  import opened MarshalLate

  // ---------- Inside one object ----------

  /** Offset x of structure m, substructures included, is a slot of that kind. */
  ghost predicate SlotAt(T: Table, m: nat, x: nat, kind: Kind)
    decreases Size(InfoOf(T, m))
  {
    exists i :: 0 <= i < |FieldsOf(T, m)| && FieldSlot(T, m, i, x, kind)
  }

  ghost predicate FieldSlot(T: Table, m: nat, i: nat, x: nat, kind: Kind)
    requires i < |FieldsOf(T, m)|
    decreases Size(InfoOf(T, m)), 0
  {
    var f := FieldsOf(T, m)[i];
    if f.kind == Substruct
    then Extent(T, f) < Size(InfoOf(T, m)) && f.offset <= x && SlotAt(T, f.mi, x - f.offset, kind)
    else f.kind == kind && f.offset == x
  }

  /** Byte x of structure m belongs to no pointer and no ignored slot. */
  ghost predicate PlainByte(T: Table, m: nat, x: nat)
    decreases Size(InfoOf(T, m))
  {
    forall i :: 0 <= i < |FieldsOf(T, m)| && InField(T, m, i, 0, x) ==>
      var f := FieldsOf(T, m)[i];
      f.kind == Substruct && Extent(T, f) < Size(InfoOf(T, m)) && PlainByte(T, f.mi, x - f.offset)
  }

  /** What the copy holds in a slot of the given kind. */
  function SlotValue(E: Env, kind: Kind, slot: nat): seq<byte>
  {
    if kind == Ignore then Zeros(PTR) else NewSlot(E, slot)
  }

  /** Pointer slots of the copy follow the copies; ignored slots are null. */
  lemma {:induction false} SlotPatched(E: Env, m: nat, a: nat, D: seq<byte>, o: nat, x: nat, kind: Kind, y: nat)
    requires ValidArch(E.A) && GoodTable(E.T) && m < |E.T| && o + Size(InfoOf(E.T, m)) <= |D|
    requires SlotAt(E.T, m, x, kind) && kind != Substruct && y < PTR
    ensures x + PTR <= Size(InfoOf(E.T, m)) && Patch(E, m, 0, a, D, o)[o + x + y] == SlotValue(E, kind, a + x)[y]
    decreases Size(InfoOf(E.T, m)), 1
  {
    hide Patch, PatchField, FieldSlot;
    var i :| 0 <= i < |FieldsOf(E.T, m)| && FieldSlot(E.T, m, i, x, kind);
    FieldPatched(E, m, i, a, D, o, x, kind, y);
    PatchReaches(E, m, 0, a, D, o, i, o + x + y);
  }

  lemma {:induction false} FieldPatched(E: Env, m: nat, i: nat, a: nat, D: seq<byte>, o: nat, x: nat, kind: Kind,
      y: nat)
    requires ValidArch(E.A) && GoodTable(E.T) && m < |E.T| && o + Size(InfoOf(E.T, m)) <= |D|
    requires i < |FieldsOf(E.T, m)| && FieldSlot(E.T, m, i, x, kind) && kind != Substruct && y < PTR
    ensures x + PTR <= Size(InfoOf(E.T, m)) && InField(E.T, m, i, o, o + x + y)
    ensures PatchField(E, m, i, a, D, o)[o + x + y] == SlotValue(E, kind, a + x)[y]
    decreases Size(InfoOf(E.T, m)), 0
  {
    hide Patch, Write, CopyOf, Load, SlotAt;
    var f := FieldsOf(E.T, m)[i];
    assert Fits(E.T, Size(InfoOf(E.T, m)), f);
    if f.kind == Substruct {
      SlotPatched(E, f.mi, a + f.offset, D, o + f.offset, x - f.offset, kind, y);
      assert o + f.offset + (x - f.offset) + y == o + x + y && a + f.offset + (x - f.offset) == a + x;
    } else {
      WriteAt(D, o + f.offset, SlotValue(E, kind, a + x), o + x + y);
    }
  }

  /** Every other byte of the copy is that of the source. */
  lemma {:induction false} PlainKept(E: Env, m: nat, a: nat, D: seq<byte>, o: nat, x: nat)
    requires ValidArch(E.A) && GoodTable(E.T) && m < |E.T| && o + Size(InfoOf(E.T, m)) <= |D|
    requires x < Size(InfoOf(E.T, m)) && PlainByte(E.T, m, x)
    ensures Patch(E, m, 0, a, D, o)[o + x] == D[o + x]
    decreases Size(InfoOf(E.T, m))
  {
    if i :| 0 <= i < |FieldsOf(E.T, m)| && InField(E.T, m, i, 0, x) {
      var f := FieldsOf(E.T, m)[i];
      PatchReaches(E, m, 0, a, D, o, i, o + x);
      PlainKept(E, f.mi, a + f.offset, D, o + f.offset, x - f.offset);
    } else {
      var z := o + x;
      forall i | 0 <= i < |FieldsOf(E.T, m)| ensures !InField(E.T, m, i, o, z) {
        assert !InField(E.T, m, i, 0, x);
      }
      PatchByte(E, m, 0, a, D, o, z);
    }
  }

  /** A closed set holds the target of every pointer slot. */
  lemma {:induction false} AimsSlot(E: Env, m: nat, a: nat, S: set<nat>, x: nat)
    requires AimsInto(E, m, 0, a, S) && SlotAt(E.T, m, x, Pointer) && Target(E, a + x) != 0
    ensures Target(E, a + x) in S
    decreases Size(InfoOf(E.T, m))
  {
    var i :| 0 <= i < |FieldsOf(E.T, m)| && FieldSlot(E.T, m, i, x, Pointer);
    AimsAt(E, m, 0, a, S, i);
    var f := FieldsOf(E.T, m)[i];
    if f.kind == Substruct {
      AimsSlot(E, f.mi, a + f.offset, S, x - f.offset);
    }
  }

  lemma {:induction false} AimsAt(E: Env, m: nat, k: nat, a: nat, S: set<nat>, i: nat)
    requires AimsInto(E, m, k, a, S) && k <= i < |FieldsOf(E.T, m)|
    ensures FieldAims(E, m, i, a, S)
    decreases i - k
  {
    if k < i {
      AimsAt(E, m, k + 1, a, S, i);
    }
  }

  // ---------- The whole graph ----------

  /** Index of the block that is the copy of object t. */
  function IndexOfCopy(E: Env, t: nat): nat
  {
    Rank(E, IndexOf(E.refs, t))
  }

  /** Index of the block at address v. */
  function BlockAt(A: Arch, n: nat, v: nat): (r: Option<nat>)
    ensures r.Some? ==> r.value < n && A.alloc(r.value) == v
  {
    if n == 0 then None
    else if A.alloc(n - 1) == v then Some(n - 1)
    else BlockAt(A, n - 1, v)
  }

  lemma {:induction false} BlockFound(A: Arch, bound: nat, n: nat, j: nat)
    requires ValidAlloc(A, bound) && j < n <= bound
    ensures BlockAt(A, n, A.alloc(j)) == Some(j)
  {
    if j < n - 1 {
      BlockFound(A, bound, n - 1, j);
    }
  }

  /** Follow pointers through the source: the object reached, or None at a null. */
  function Walk(E: Env, t: nat, path: seq<nat>, i: nat := 0): Option<nat>
    decreases |path| - i
  {
    if i >= |path| then Some(t)
    else if Target(E, t + path[i]) == 0 then None
    else Walk(E, Target(E, t + path[i]), path, i + 1)
  }

  /** Follow the same offsets through blocks G, from block j. */
  function WalkCopy(A: Arch, G: seq<Block>, j: nat, path: seq<nat>, i: nat := 0): Option<nat>
    decreases |path| - i
  {
    if i >= |path| then Some(j)
    else
      var v := A.dec(Peek(G, j, path[i], PTR));
      if v == 0 then None
      else match BlockAt(A, |G|, v)
        case None => None
        case Some(j') => WalkCopy(A, G, j', path, i + 1)
  }

  /** Each offset of the path is a pointer slot of the object it is taken from. */
  ghost predicate Walkable(E: Env, t: nat, path: seq<nat>, i: nat := 0)
    decreases |path| - i
  {
    i < |path| ==>
      && t in E.objs && SlotAt(E.T, E.objs[t].mi, path[i], Pointer)
      && (Target(E, t + path[i]) != 0 ==> Walkable(E, Target(E, t + path[i]), path, i + 1))
  }

  ghost predicate Complete(E: Env)
  {
    && GoodHeap(E) && ValidAlloc(E.A, |E.refs|) && Distinct(E.refs) && Explored(E, [], E.refs)
  }

  /** The block of an object that was met. */
  lemma {:induction false} CopyBlock(E: Env, t: nat)
    requires Complete(E) && t in E.refs && t in E.objs
    ensures IndexOfCopy(E, t) < |AllCopies(E)|
    ensures AllCopies(E)[IndexOfCopy(E, t)].data == Image(E, t)
  {
    assert E.refs[..|E.refs|] == E.refs;
    IndexOfPrefix(E.refs, |E.refs|, t);
    CopyAt(E, |E.refs|, IndexOf(E.refs, t));
  }

  /** A pointer slot of a copy holds the address of the copy of the target. */
  lemma {:induction false} CopySlot(E: Env, t: nat, x: nat)
    requires Complete(E) && t in E.refs && t in E.objs && SlotAt(E.T, E.objs[t].mi, x, Pointer)
    ensures Peek(AllCopies(E), IndexOfCopy(E, t), x, PTR) == NewSlot(E, t + x)
    ensures Target(E, t + x) != 0 ==> Target(E, t + x) in E.refs && Target(E, t + x) in E.objs
  {
    hide Patch, CopyOf, IndexOf, Write, Rank, Load;
    CopyBlock(E, t);
    var m := E.objs[t].mi;
    assert ObjectOk(E, t);
    assert InfoOf(E.T, m).Struct?;
    var D := Load(E.mem, t, Size(InfoOf(E.T, m)));
    SlotPatched(E, m, t, D, 0, x, Pointer, 0);
    forall z | x <= z < x + PTR ensures Image(E, t)[z] == NewSlot(E, t + x)[z - x] {
      SlotPatched(E, m, t, D, 0, x, Pointer, z - x);
    }
    assert Image(E, t)[x..x + PTR] == NewSlot(E, t + x);
    if Target(E, t + x) != 0 {
      AimsSlot(E, m, t, Elements(E.refs), x);
      TypedSlot(E, m, t, x);
    }
  }

  lemma {:induction false} TypedSlot(E: Env, m: nat, a: nat, x: nat)
    requires WellTyped(E, m, a) && SlotAt(E.T, m, x, Pointer) && Target(E, a + x) != 0
    ensures Target(E, a + x) in E.objs
    decreases Size(InfoOf(E.T, m))
  {
    var i :| 0 <= i < |FieldsOf(E.T, m)| && FieldSlot(E.T, m, i, x, Pointer);
    var f := FieldsOf(E.T, m)[i];
    if f.kind == Substruct {
      TypedSlot(E, f.mi, a + f.offset, x - f.offset);
    } else {
      assert PointerOk(E, f, a);
    }
  }

  /** Following any path of pointers in the copy arrives at the copy of what the
      same path reaches in the source, and at null exactly where it does: the
      two graphs have the same sharing, cycles and list orders. */
  lemma {:induction false} WalksAgree(E: Env, t: nat, path: seq<nat>, i: nat)
    requires Complete(E) && t in E.refs && t in E.objs && Walkable(E, t, path, i)
    ensures match Walk(E, t, path, i)
      case None => WalkCopy(E.A, AllCopies(E), IndexOfCopy(E, t), path, i) == None
      case Some(u) =>
        && u in E.refs && u in E.objs
        && WalkCopy(E.A, AllCopies(E), IndexOfCopy(E, t), path, i) == Some(IndexOfCopy(E, u))
    decreases |path| - i
  {
    hide Rank, IndexOf, Peek, BlockAt, Explored, Distinct, SlotAt, GoodTable;
    if i < |path| {
      var u := Target(E, t + path[i]);
      CopySlot(E, t, path[i]);
      if u != 0 {
        assert IndexOfCopy(E, u) < |AllCopies(E)| by { CopyBlock(E, u); }
        BlockFound(E.A, |E.refs|, |AllCopies(E)|, IndexOfCopy(E, u));
        WalksAgree(E, u, path, i + 1);
      }
    }
  }

  /** Different objects have different copies. */
  lemma {:induction false} CopiesDiffer(E: Env, t: nat, u: nat)
    requires t in E.refs && t in E.objs && u in E.refs && u in E.objs && t != u
    ensures IndexOfCopy(E, t) != IndexOfCopy(E, u)
  {
    assert E.refs[..|E.refs|] == E.refs;
    IndexOfPrefix(E.refs, |E.refs|, t);
    IndexOfPrefix(E.refs, |E.refs|, u);
    var i, j := IndexOf(E.refs, t), IndexOf(E.refs, u);
    if i < j { RankGrows(E, i, j); } else { RankGrows(E, j, i); }
  }
}
