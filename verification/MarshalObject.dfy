/** What the serializer leaves in the bytes of one object. */
module MarshalObject {
  import opened Bytes
  import opened Marshal
  import opened MarshalHeap
  import opened MarshalLookup
  import opened MarshalPatch

  /** State of the serializer's loop over fields. */
  datatype Turn = Turn(obj: seq<byte>, len: nat, refs: seq<nat>, osize: int)

  /** One successful turn of the serializer's loop. */
  lemma {:induction false} SerTurn(A: Arch, T: Table, mem: Mem, fields: seq<Field>, k: nat, a: nat, skip: bool, s: Turn)
    returns (t: Turn, out: seq<byte>)
    requires k < |fields|
    requires SerFields(A, T, mem, fields, k, a, skip, s.obj, s.len, s.refs, s.osize).FieldsOk?
    ensures var f := fields[k];
      match SerPlan(A, mem, f, a, s.osize)
      case Pass => t == s && out == []
      case Visit(source, osize') =>
        var r := Ser(A, T, mem, f.mi, source, f.kind == Substruct, s.refs, osize');
        && r.Ok? && r.out == out && t.refs == r.refs && t.osize == osize'
        && t.obj == Renumber(A, f, skip, s.obj, r.refs, source) && t.len == s.len + |Piece(s.len, out)|
        && SerFields(A, T, mem, fields, k, a, skip, s.obj, s.len, s.refs, s.osize).late
           == r.late + SerFields(A, T, mem, fields, k + 1, a, skip, t.obj, t.len, t.refs, t.osize).late +
             TooLate(f, skip, source, s.refs)
    ensures s.refs <= t.refs
    ensures var r, r' := SerFields(A, T, mem, fields, k, a, skip, s.obj, s.len, s.refs, s.osize),
                         SerFields(A, T, mem, fields, k + 1, a, skip, t.obj, t.len, t.refs, t.osize);
      && r'.FieldsOk? && r.obj == r'.obj && r.refs == r'.refs && r.tail == Piece(s.len, out) + r'.tail
      && (SerPlan(A, mem, fields[k], a, s.osize).Pass? ==> r.late == r'.late)
  {
    var f := fields[k];
    match SerPlan(A, mem, f, a, s.osize)
    case Pass =>
      t, out := s, [];
    case Visit(source, osize') =>
      var r := Ser(A, T, mem, f.mi, source, f.kind == Substruct, s.refs, osize');
      out := r.out;
      t := Turn(Renumber(A, f, skip, s.obj, r.refs, source), s.len + |Piece(s.len, out)|, r.refs, osize');
  }

  lemma {:induction false} SerFacts(A: Arch, T: Table, mem: Mem, m: nat, a: nat, skip: bool, refs: seq<nat>, osize: int)
    requires ValidArch(A) && Ser(A, T, mem, m, a, skip, refs, osize).Ok?
    ensures var r := Ser(A, T, mem, m, a, skip, refs, osize);
      if a in refs then r.out == [] && r.refs == refs && r.late == {}
      else |r.out| >= HEADER && refs + [a] <= r.refs && a in r.refs
  {
    var r := Ser(A, T, mem, m, a, skip, refs, osize);
    if a !in refs {
      assert |r.out| >= HEADER;
      assert refs + [a] <= r.refs;
      assert r.refs[|refs|] == (refs + [a])[|refs|];
    }
  }

  /** A prefix of the final list stays a prefix; its end gives the next dummy. */
  lemma {:induction false} Prefix(E: Env, refs: seq<nat>)
    requires refs <= E.refs
    ensures refs == E.refs[..|refs|]
  {
  }

  ghost predicate LivePointer(E: Env, m: nat, i: nat, a: nat)
    requires i < |FieldsOf(E.T, m)|
  {
    FieldsOf(E.T, m)[i].kind == Pointer && Target(E, a + FieldsOf(E.T, m)[i].offset) != 0
  }

  /** The serializer's loop from field k on, outside substructures. */
  function Rest(E: Env, m: nat, k: nat, a: nat, s: Turn): FieldsResult
  {
    SerFields(E.A, E.T, E.mem, FieldsOf(E.T, m), k, a, false, s.obj, s.len, s.refs, s.osize)
  }

  lemma {:induction false} TurnKeeps(E: Env, m: nat, k: nat, a: nat, s: Turn) returns (t: Turn)
    requires ValidArch(E.A) && k < |FieldsOf(E.T, m)| && Rest(E, m, k, a, s).FieldsOk?
    ensures |t.obj| == |s.obj|
    ensures forall x :: 0 <= x < |s.obj| && (LivePointer(E, m, k, a) ==> !InField(E.T, m, k, 0, x)) ==>
      t.obj[x] == s.obj[x]
    ensures var r, r' := Rest(E, m, k, a, s), Rest(E, m, k + 1, a, t);
      r'.FieldsOk? && r'.obj == r.obj && r'.refs == r.refs
  {
    hide Ser, SerFields, Load;
    var out;
    t, out := SerTurn(E.A, E.T, E.mem, FieldsOf(E.T, m), k, a, false, s);
    var f := FieldsOf(E.T, m)[k];
    if LivePointer(E, m, k, a) {
      WriteOutside(s.obj, f.offset, E.A.enc(IndexOf(t.refs, Target(E, a + f.offset)) + 1));
    }
  }

  /** Bytes outside live pointers are copied unchanged. */
  lemma {:induction false} SerKeeps(E: Env, m: nat, k: nat, a: nat, s: Turn, x: nat)
    requires ValidArch(E.A) && x < |s.obj| && Rest(E, m, k, a, s).FieldsOk?
    requires forall i :: k <= i < |FieldsOf(E.T, m)| && LivePointer(E, m, i, a) ==> !InField(E.T, m, i, 0, x)
    ensures |Rest(E, m, k, a, s).obj| == |s.obj| && Rest(E, m, k, a, s).obj[x] == s.obj[x]
    decreases |FieldsOf(E.T, m)| - k
  {
    if k < |FieldsOf(E.T, m)| {
      var t := TurnKeeps(E, m, k, a, s);
      SerKeeps(E, m, k + 1, a, t, x);
    }
  }

  /** The pointer slots of a serialized object: the dummy of the target, except
      that pointers inside substructures are left as they are. */
  function WireSlot(E: Env, skip: bool, slot: nat): seq<byte>
  {
    var t := Target(E, slot);
    if skip || t == 0 then Load(E.mem, slot, PTR) else E.A.enc(IndexOf(E.refs, t) + 1)
  }

  lemma {:induction false} TurnRenumbers(E: Env, m: nat, k: nat, a: nat, s: Turn) returns (t: Turn)
    requires ValidArch(E.A) && k < |FieldsOf(E.T, m)| && LivePointer(E, m, k, a)
    requires Rest(E, m, k, a, s).FieldsOk? && Rest(E, m, k, a, s).refs <= E.refs
    ensures var f := FieldsOf(E.T, m)[k];
      t.obj == Write(s.obj, f.offset, WireSlot(E, false, a + f.offset))
    ensures Rest(E, m, k + 1, a, t).FieldsOk? && Rest(E, m, k + 1, a, t).obj == Rest(E, m, k, a, s).obj
  {
    hide Ser, SerFields, Write, Load, IndexOf;
    var out;
    t, out := SerTurn(E.A, E.T, E.mem, FieldsOf(E.T, m), k, a, false, s);
    var f := FieldsOf(E.T, m)[k];
    assert t.refs <= Rest(E, m, k, a, s).refs;
    RenumberedOnce(E, f, Target(E, a + f.offset), s.refs, t);
  }

  /** A live pointer becomes the dummy of its target. */
  lemma {:induction false} SerRenumbers(E: Env, m: nat, k: nat, a: nat, s: Turn, i: nat, x: nat)
    requires ValidArch(E.A) && GoodTable(E.T) && m < |E.T| && |s.obj| == Size(InfoOf(E.T, m))
    requires Rest(E, m, k, a, s).FieldsOk? && Rest(E, m, k, a, s).refs <= E.refs
    requires k <= i < |FieldsOf(E.T, m)| && LivePointer(E, m, i, a) && InField(E.T, m, i, 0, x)
    ensures var obj, at := Rest(E, m, k, a, s).obj, FieldsOf(E.T, m)[i].offset;
      x < |obj| == |s.obj| && obj[x] == WireSlot(E, false, a + at)[x - at]
    decreases |FieldsOf(E.T, m)| - k
  {
    hide Ser, SerFields, SerPlan, Rest, Write, Load, IndexOf;
    if k < i {
      var t := TurnKeeps(E, m, k, a, s);
      SerRenumbers(E, m, k + 1, a, t, i, x);
    } else {
      var t := TurnRenumbers(E, m, k, a, s);
      var f := FieldsOf(E.T, m)[i];
      assert Fits(E.T, Size(InfoOf(E.T, m)), f);
      WriteAt(s.obj, f.offset, WireSlot(E, false, a + f.offset), x);
      OtherFields(E.T, m, i, k + 1, 0, x);
      SerKeeps(E, m, k + 1, a, t, x);
    }
  }

  lemma {:induction false} RenumberedOnce(E: Env, f: Field, p: nat, refs: seq<nat>, t: Turn)
    requires ValidArch(E.A) && t.refs <= E.refs && f.kind == Pointer
    requires exists osize :: Ser(E.A, E.T, E.mem, f.mi, p, false, refs, osize).Ok?
                          && Ser(E.A, E.T, E.mem, f.mi, p, false, refs, osize).refs == t.refs
    ensures IndexOf(t.refs, p) == IndexOf(E.refs, p)
  {
    var osize :| Ser(E.A, E.T, E.mem, f.mi, p, false, refs, osize).Ok?
              && Ser(E.A, E.T, E.mem, f.mi, p, false, refs, osize).refs == t.refs;
    SerFacts(E.A, E.T, E.mem, f.mi, p, false, refs, osize);
    Prefix(E, t.refs);
    IndexOfPrefix(E.refs, |t.refs|, p);
  }

  /** Renumbering pointers does not change the size of the object. */
  lemma {:induction false} SerLength(E: Env, m: nat, k: nat, a: nat, skip: bool, s: Turn)
    requires ValidArch(E.A)
    requires SerFields(E.A, E.T, E.mem, FieldsOf(E.T, m), k, a, skip, s.obj, s.len, s.refs, s.osize).FieldsOk?
    ensures |SerFields(E.A, E.T, E.mem, FieldsOf(E.T, m), k, a, skip, s.obj, s.len, s.refs, s.osize).obj| == |s.obj|
    decreases |FieldsOf(E.T, m)| - k
  {
    if k < |FieldsOf(E.T, m)| {
      var t, out := SerTurn(E.A, E.T, E.mem, FieldsOf(E.T, m), k, a, skip, s);
      SerLength(E, m, k + 1, a, skip, t);
    }
  }

  /** What the serializer does for a new structure. */
  lemma {:induction false} SerStruct(A: Arch, T: Table, mem: Mem, m: nat, a: nat, skip: bool, refs: seq<nat>,
      osize: int)
    returns (s: Turn)
    requires InfoOf(T, m).Struct? && a !in refs && Ser(A, T, mem, m, a, skip, refs, osize).Ok?
    ensures s == Turn(if skip then [] else Load(mem, a, Size(InfoOf(T, m))), HEADER + |s.obj|, refs + [a], osize)
    ensures a < |mem|
    ensures var r := SerFields(A, T, mem, FieldsOf(T, m), 0, a, skip, s.obj, s.len, s.refs, s.osize);
      r.FieldsOk? && Ser(A, T, mem, m, a, skip, refs, osize) == Ok(Record(A, |refs| + 1, r.obj, r.tail), r.refs, r.late)
  {
    s := Turn(if skip then [] else Load(mem, a, Size(InfoOf(T, m))), HEADER + if skip then 0
      else Size(InfoOf(T, m)), refs + [a], osize);
  }
}
