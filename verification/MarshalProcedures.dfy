/** The two procedures of src/marshal.c, with their growing lists and buffers,
    proved to compute Marshal.Ser and Marshal.Un. */
module MarshalProcedures {
  import opened Bytes
  import opened Marshal
  import opened MarshalHeap

  /** `struct ref`: an address already met and its dummy. */
  datatype Ref = Ref(pointer: nat, dummy: nat)

  class RefList {
    var refs: seq<Ref>

    constructor ()
      ensures refs == []
    {
      refs := [];
    }
  }

  /** `struct gc` list: the blocks allocated so far. */
  class GcList {
    var blocks: seq<Block>

    constructor ()
      ensures blocks == []
    {
      blocks := [];
    }
  }

  function Pointers(refs: seq<Ref>): (r: seq<nat>)
    ensures |r| == |refs|
    ensures forall i :: 0 <= i < |refs| ==> r[i] == refs[i].pointer
  {
    seq(|refs|, i requires 0 <= i < |refs| => refs[i].pointer)
  }

  /** Dummies are 1, 2, 3, ... in list order. */
  ghost predicate Numbered(refs: seq<Ref>)
  {
    forall i :: 0 <= i < |refs| ==> refs[i].dummy == i + 1
  }

  /** What offsetof() guarantees: pointer slots are inside their structure. */
  predicate SafeTable(T: Table)
  {
    forall m, i :: 0 <= m < |T| && 0 <= i < |FieldsOf(T, m)| ==>
      var f := FieldsOf(T, m)[i];
      (f.kind != Ignore ==> f.mi < |T|) && (f.kind == Pointer ==> f.offset + PTR <= Size(InfoOf(T, m)))
  }

  ghost predicate WideWords(A: Arch)
  {
    forall n: nat :: |A.enc(n)| == PTR
  }

  lemma {:induction false} IndexFrom(refs: seq<nat>, a: nat, i: nat, j: nat)
    requires i <= j <= |refs| && forall x :: i <= x < j ==> refs[x] != a
    requires j < |refs| ==> refs[j] == a
    ensures IndexOf(refs, a, i) == j
    decreases j - i
  {
    if i < j {
      IndexFrom(refs, a, i + 1, j);
    }
  }

  /** The scan of the reference list: is `a` there, and what is the next dummy? */
  method Scan(list: RefList, a: nat) returns (seen: bool, dummy: nat)
    requires Numbered(list.refs)
    ensures seen == (a in Pointers(list.refs))
    ensures !seen ==> dummy == |list.refs| + 1
  {
    dummy := 1;
    var i := 0;
    while i < |list.refs|
      invariant i <= |list.refs| && dummy == i + 1
      invariant a !in Pointers(list.refs)[..i]
    {
      if a == list.refs[i].pointer {
        assert Pointers(list.refs)[i] == a;
        return true, dummy;
      }
      assert Pointers(list.refs)[..i + 1] == Pointers(list.refs)[..i] + [list.refs[i].pointer];
      if list.refs[i].dummy >= dummy {
        dummy := list.refs[i].dummy + 1;
      }
      i := i + 1;
    }
    assert Pointers(list.refs)[..i] == Pointers(list.refs);
    seen := false;
  }

  /** The second scan: the dummy of an address that is in the list. */
  method DummyOf(list: RefList, a: nat) returns (dummy: nat)
    requires Numbered(list.refs) && a in Pointers(list.refs)
    ensures dummy == IndexOf(Pointers(list.refs), a) + 1
  {
    var i := 0;
    while list.refs[i].pointer != a
      invariant i < |list.refs| && forall x :: 0 <= x < i ==> Pointers(list.refs)[x] != a
      invariant exists x :: i <= x < |list.refs| && Pointers(list.refs)[x] == a
      decreases |list.refs| - i
    {
      i := i + 1;
    }
    IndexFrom(Pointers(list.refs), a, 0, i);
    dummy := list.refs[i].dummy;
  }

  /** Where the serializer's loop stands: finishing from here gives the result of
      the whole loop, `tail` being what has been appended already. */
  ghost predicate SameEnd(whole: FieldsResult, rest: FieldsResult, tail: seq<byte>)
  {
    match rest
    case FieldsFault => whole.FieldsFault?
    case FieldsOk(obj, tail', refs, _) =>
      whole.FieldsOk? && whole.obj == obj && whole.tail == tail + tail' && whole.refs == refs
  }

  lemma {:induction false} PassOn(A: Arch, T: Table, mem: Mem, m: nat, k: nat, a: nat, skip: bool, obj: seq<byte>,
      len: nat, refs: seq<nat>, osize: int, whole: FieldsResult, tail: seq<byte>)
    requires k < |FieldsOf(T, m)| && SerPlan(A, mem, FieldsOf(T, m)[k], a, osize).Pass?
    requires SameEnd(whole, SerFields(A, T, mem, FieldsOf(T, m), k, a, skip, obj, len, refs, osize), tail)
    ensures SameEnd(whole, SerFields(A, T, mem, FieldsOf(T, m), k + 1, a, skip, obj, len, refs, osize), tail)
  {
  }

  lemma {:induction false} VisitOn(A: Arch, T: Table, mem: Mem, m: nat, k: nat, a: nat, skip: bool, obj: seq<byte>,
      len: nat, refs: seq<nat>, osize: int, whole: FieldsResult, tail: seq<byte>)
    requires k < |FieldsOf(T, m)| && SerPlan(A, mem, FieldsOf(T, m)[k], a, osize).Visit?
    requires SameEnd(whole, SerFields(A, T, mem, FieldsOf(T, m), k, a, skip, obj, len, refs, osize), tail)
    ensures var f := FieldsOf(T, m)[k];
      var step := SerPlan(A, mem, f, a, osize);
      match Ser(A, T, mem, f.mi, step.source, f.kind == Substruct, refs, step.osize)
      case Fault => whole.FieldsFault?
      case Ok(out, refs', _) =>
        var obj' := Renumber(A, f, skip, obj, refs', step.source);
        var len' := len + |Piece(len, out)|;
        var rest := SerFields(A, T, mem, FieldsOf(T, m), k + 1, a, skip, obj', len', refs', step.osize);
        SameEnd(whole, rest, tail + Piece(len, out))
  {
    hide Ser, SerPlan, Renumber, Piece;
    var f := FieldsOf(T, m)[k];
    var step := SerPlan(A, mem, f, a, osize);
    match Ser(A, T, mem, f.mi, step.source, f.kind == Substruct, refs, step.osize)
    case Fault =>
    case Ok(out, refs', _) =>
      var obj' := Renumber(A, f, skip, obj, refs', step.source);
      var len' := len + |Piece(len, out)|;
      var rest := SerFields(A, T, mem, FieldsOf(T, m), k + 1, a, skip, obj', len', refs', step.osize);
      if rest.FieldsOk? {
        assert tail + (Piece(len, out) + rest.tail) == tail + Piece(len, out) + rest.tail;
      }
  }

  /** A record under construction: its length is filled in at the end. */
  function Draft(A: Arch, dummy: nat, obj: seq<byte>, tail: seq<byte>): seq<byte>
  {
    A.enc(dummy) + Zeros(PTR) + obj + tail
  }

  lemma {:induction false} DraftRenumbers(A: Arch, dummy: nat, obj: seq<byte>, tail: seq<byte>, at: nat, d: seq<byte>)
    requires WideWords(A) && at + |d| <= |obj|
    ensures Write(Draft(A, dummy, obj, tail), HEADER + at, d) == Draft(A, dummy, Write(obj, at, d), tail)
  {
  }

  lemma {:induction false} DraftDone(A: Arch, dummy: nat, obj: seq<byte>, tail: seq<byte>)
    requires WideWords(A)
    ensures Write(Draft(A, dummy, obj, tail), PTR, A.enc(HEADER + |obj| + |tail|)) == Record(A, dummy, obj, tail)
  {
    var d, n := A.enc(dummy), A.enc(HEADER + |obj| + |tail|);
    assert Draft(A, dummy, obj, tail) == d + Zeros(PTR) + (obj + tail);
    assert Record(A, dummy, obj, tail) == d + n + (obj + tail);
  }

  /** A record is not empty, and what is serialized is in the list afterwards. */
  lemma {:induction false} SerOutcome(A: Arch, T: Table, mem: Mem, m: nat, a: nat, skip: bool, refs: seq<nat>,
      osize: int)
    requires WideWords(A) && Ser(A, T, mem, m, a, skip, refs, osize).Ok?
    ensures a in Ser(A, T, mem, m, a, skip, refs, osize).refs
  {
    var r := Ser(A, T, mem, m, a, skip, refs, osize);
    if a !in refs {
      assert refs + [a] <= r.refs;
      assert r.refs[|refs|] == (refs + [a])[|refs|];
    }
  }

  /** How many bytes the object at `a` has; None if they cannot all be read. */
  function ObjectSize(T: Table, mem: Mem, m: nat, a: nat, osize: int): Option<nat>
  {
    match InfoOf(T, m)
    case NullString => (match StrLen(mem, a) case None => None case Some(n) => Some(n + 1))
    case FixedString => if osize < 0 || !Mapped(mem, a, osize) then None else Some(osize)
    case Struct(size, _) => if a >= |mem| || !Mapped(mem, a, size) then None else Some(size)
  }

  lemma {:induction false} SerByParts(A: Arch, T: Table, mem: Mem, m: nat, a: nat, skip: bool, refs: seq<nat>,
      osize: int)
    requires a !in refs
    ensures FieldsOf(T, m) != [] && ObjectSize(T, mem, m, a, osize).Some? ==>
      a < |mem| && ObjectSize(T, mem, m, a, osize).value == Size(InfoOf(T, m))
    ensures FieldsOf(T, m) == [] ==> forall obj, len, refs' ::
      SerFields(A, T, mem, FieldsOf(T, m), 0, a, skip, obj, len, refs', osize) == FieldsOk(obj, [], refs', {})
    ensures match ObjectSize(T, mem, m, a, osize)
      case None => Ser(A, T, mem, m, a, skip, refs, osize) == Fault
      case Some(size) =>
        var obj := if skip then [] else Load(mem, a, size);
        match SerFields(A, T, mem, FieldsOf(T, m), 0, a, skip, obj, HEADER + |obj|, refs + [a], osize)
        case FieldsFault => Ser(A, T, mem, m, a, skip, refs, osize) == Fault
        case FieldsOk(o, t, refs', late) =>
          Ser(A, T, mem, m, a, skip, refs, osize) == Ok(Record(A, |refs| + 1, o, t), refs', late)
  {
  }

  /** marshal_serialize_(): `fault` when unreadable memory would be read, and no
      output when the address is already in the list. */
  method Serialize(A: Arch, T: Table, mem: Mem, m: nat, a: nat, skip: bool, list: RefList, osize: int)
    returns (fault: bool, out: seq<byte>)
    requires WideWords(A) && SafeTable(T) && m < |T| && Numbered(list.refs)
    modifies list
    ensures Numbered(list.refs) && old(Pointers(list.refs)) <= Pointers(list.refs)
    ensures match Ser(A, T, mem, m, a, skip, old(Pointers(list.refs)), osize)
      case Fault => fault
      case Ok(o, refs, _) => !fault && out == o && Pointers(list.refs) == refs
    decreases Left(|mem|, Pointers(list.refs)), 0
  {
    hide Ser, SerFields, SafeTable, ObjectSize, Left;
    ghost var P := Pointers(list.refs);
    out := [];
    var seen, dummy := Scan(list, a);
    if seen {
      SerSeen(A, T, mem, m, a, skip, P, osize);
      return false, [];
    }
    SerByParts(A, T, mem, m, a, skip, P, osize);
    var size := ObjectSize(T, mem, m, a, osize);
    if size.None? {
      return true, [];
    }
    list.refs := list.refs + [Ref(a, dummy)];
    assert Pointers(list.refs) == P + [a];
    var obj := if skip then [] else Load(mem, a, size.value);
    var draft := Draft(A, dummy, obj, []);
    ghost var obj', tail' := obj, [];
    fault := false;
    if FieldsOf(T, m) != [] {
      LeftDrops(|mem|, P, a);
      fault, draft, obj', tail' := SerializeFields(A, T, mem, m, a, skip, list, osize, dummy, obj, draft);
    }
    if !fault {
      DraftDone(A, dummy, obj', tail');
      out := Write(draft, PTR, A.enc(|draft|));
    }
  }

  lemma {:induction false} SerSeen(A: Arch, T: Table, mem: Mem, m: nat, a: nat, skip: bool, refs: seq<nat>, osize: int)
    requires a in refs
    ensures Ser(A, T, mem, m, a, skip, refs, osize) == Ok([], refs, {})
  {
  }

  /** The loop over the inner structures. */
  method SerializeFields(A: Arch, T: Table, mem: Mem, m: nat, a: nat, skip: bool, list: RefList, osize: int, dummy: nat,
      ghost obj: seq<byte>, draft: seq<byte>)
    returns (fault: bool, serialized: seq<byte>, ghost obj': seq<byte>, ghost tail': seq<byte>)
    requires WideWords(A) && SafeTable(T) && m < |T| && Numbered(list.refs)
    requires FieldsOf(T, m) != [] && !skip ==> |obj| == Size(InfoOf(T, m))
    requires draft == Draft(A, dummy, obj, [])
    modifies list
    ensures Numbered(list.refs) && old(Pointers(list.refs)) <= Pointers(list.refs)
    ensures match SerFields(A, T, mem, FieldsOf(T, m), 0, a, skip, obj, HEADER + |obj|, old(Pointers(list.refs)), osize)
      case FieldsFault => fault
      case FieldsOk(o, t, refs, _) =>
        && !fault && obj' == o && tail' == t
        && Pointers(list.refs) == refs && serialized == Draft(A, dummy, o, t)
    decreases Left(|mem|, Pointers(list.refs)), 2
  {
    hide Ser, SerFields, SerPlan, Renumber, Piece, Left;
    ghost var whole := SerFields(A, T, mem, FieldsOf(T, m), 0, a, skip, obj, HEADER + |obj|, Pointers(list.refs),
      osize);
    ghost var P := Pointers(list.refs);
    serialized, obj', tail' := draft, obj, [];
    StartLoop(whole);
    var os := osize;
    var k := 0;
    while k < |FieldsOf(T, m)|
      invariant k <= |FieldsOf(T, m)| && |obj'| == |obj| && serialized == Draft(A, dummy, obj', tail')
      invariant Numbered(list.refs) && P <= Pointers(list.refs)
      invariant SameEnd(whole, SerFields(A, T, mem, FieldsOf(T, m), k, a, skip, obj', HEADER + |obj'| + |tail'|,
        Pointers(list.refs), os), tail')
    {
      var f := FieldsOf(T, m)[k];
      match SerPlan(A, mem, f, a, os) {
        case Pass =>
          PassOn(A, T, mem, m, k, a, skip, obj', HEADER + |obj'| + |tail'|, Pointers(list.refs), os, whole, tail');
        case Visit(source, os') =>
          VisitOn(A, T, mem, m, k, a, skip, obj', HEADER + |obj'| + |tail'|, Pointers(list.refs), os, whole, tail');
          PlanFits(A, T, mem, m, k, a, os);
          LeftShrinks(|mem|, P, Pointers(list.refs));
          fault, serialized, obj', tail' := AppendField(A, T, mem, f, source, skip, list, os', dummy, obj', tail',
            serialized);
          if fault {
            return;
          }
          os := os';
      }
      k := k + 1;
    }
    EndLoop(A, T, mem, m, k, a, skip, obj', HEADER + |obj'| + |tail'|, Pointers(list.refs), os);
    fault := false;
  }

  lemma {:induction false} StartLoop(whole: FieldsResult)
    ensures SameEnd(whole, whole, [])
  {
    if whole.FieldsOk? {
      assert [] + whole.tail == whole.tail;
    }
  }

  lemma {:induction false} EndLoop(A: Arch, T: Table, mem: Mem, m: nat, k: nat, a: nat, skip: bool, obj: seq<byte>,
      len: nat, refs: seq<nat>, osize: int)
    requires k >= |FieldsOf(T, m)|
    ensures SerFields(A, T, mem, FieldsOf(T, m), k, a, skip, obj, len, refs, osize) == FieldsOk(obj, [], refs, {})
  {
  }

  lemma {:induction false} PlanFits(A: Arch, T: Table, mem: Mem, m: nat, k: nat, a: nat, osize: int)
    requires SafeTable(T) && m < |T| && k < |FieldsOf(T, m)| && SerPlan(A, mem, FieldsOf(T, m)[k], a, osize).Visit?
    ensures var f := FieldsOf(T, m)[k];
      f.mi < |T| && (f.kind == Pointer ==> f.offset + PTR <= Size(InfoOf(T, m)))
  {
  }

  /** One turn of that loop: serialize `source`, renumber the pointer to it, and
      append its record, aligned. */
  method AppendField(A: Arch, T: Table, mem: Mem, f: Field, source: nat, skip: bool, list: RefList, osize: int,
      dummy: nat, ghost obj: seq<byte>, ghost tail: seq<byte>, draft: seq<byte>)
    returns (fault: bool, serialized: seq<byte>, ghost obj': seq<byte>, ghost tail': seq<byte>)
    requires WideWords(A) && SafeTable(T) && f.mi < |T| && Numbered(list.refs)
    requires f.kind == Pointer && !skip ==> f.offset + PTR <= |obj|
    requires draft == Draft(A, dummy, obj, tail)
    modifies list
    ensures Numbered(list.refs) && old(Pointers(list.refs)) <= Pointers(list.refs)
    ensures match Ser(A, T, mem, f.mi, source, f.kind == Substruct, old(Pointers(list.refs)), osize)
      case Fault => fault
      case Ok(out, refs, _) =>
        && !fault && Pointers(list.refs) == refs && |obj'| == |obj| && obj' == Renumber(A, f, skip, obj, refs, source)
        && tail' == tail + Piece(HEADER + |obj| + |tail|, out) && serialized == Draft(A, dummy, obj', tail')
    decreases Left(|mem|, Pointers(list.refs)), 1
  {
    hide Ser, SafeTable, Left;
    serialized, obj', tail' := draft, obj, tail;
    ghost var P := Pointers(list.refs);
    var target;
    fault, target := Serialize(A, T, mem, f.mi, source, f.kind == Substruct, list, osize);
    if fault {
      return;
    }
    if f.kind == Pointer && !skip {
      SerOutcome(A, T, mem, f.mi, source, f.kind == Substruct, P, osize);
      var d := DummyOf(list, source);
      DraftRenumbers(A, dummy, obj, tail, f.offset, A.enc(d));
      serialized := Write(serialized, HEADER + f.offset, A.enc(d));
      obj' := Write(obj, f.offset, A.enc(d));
    }
    if target != [] {
      var padlen := PadLen(|serialized|);
      serialized := serialized + Zeros(padlen) + target;
      tail' := tail + (Zeros(padlen) + target);
    }
  }

  // ---------- Unserialization ----------

  lemma {:induction false} FindFrom(G: seq<Block>, orig: nat, i: nat, j: nat)
    requires i <= j <= |G| && forall x :: i <= x < j ==> G[x].orig != orig
    requires j < |G| ==> G[j].orig == orig
    ensures Find(G, orig, i) == if j < |G| then Some(j) else None
    decreases j - i
  {
    if i < j {
      FindFrom(G, orig, i + 1, j);
    }
  }

  /** The search of the allocation list for a reference already seen. */
  method Already(list: GcList, orig: nat) returns (r: Option<nat>)
    ensures r == Find(list.blocks, orig)
  {
    var i := 0;
    while i < |list.blocks| && list.blocks[i].orig != orig
      invariant i <= |list.blocks| && forall x :: 0 <= x < i ==> list.blocks[x].orig != orig
    {
      i := i + 1;
    }
    FindFrom(list.blocks, orig, 0, i);
    r := if i < |list.blocks| then Some(i) else None;
  }

  /** marshal_unserialize_() with an allocation list: the bytes consumed, or 0. */
  method Unserialize(A: Arch, T: Table, m: nat, buf: seq<byte>, p: nat, list: GcList, b: nat, o: nat, skip: bool,
      osize: int)
    returns (len: nat)
    requires p <= |buf|
    modifies list
    ensures len <= |buf| - p
    ensures match Un(A, T, m, buf, p, old(list.blocks), b, o, skip, osize)
      case Fail => len == 0
      case Done(n, G) => len == n && list.blocks == G
    decreases |buf| - p, 1, 0
  {
    hide UnFields;
    var info := InfoOf(T, m);
    var total := HEADER + if skip then 0 else Size(info);
    if |buf| - p < HEADER || |buf| - p < total {
      return 0;
    }
    var size: int, extra := Size(info), [];
    match info {
      case NullString => size := StrNLen(buf, p + HEADER) + 1;
      case FixedString => size, extra := osize, [0];
      case Struct(_, _) =>
    }
    if !info.Struct? {
      if size < 0 || size > |buf| - p - HEADER {
        return 0;
      }
      total := total + size;
    }
    var b', o' := b, o;
    if !skip {
      b', o' := |list.blocks|, 0;
      list.blocks := list.blocks + [Block(A.dec(Slice(buf, p, PTR)), Slice(buf, p + HEADER, size) + extra)];
    }
    if info.Struct? {
      assert Slice(buf, p + HEADER, size) + [] == Slice(buf, p + HEADER, size);
      len := UnserializeFields(A, T, info.fields, buf, p, total, list, b', o', osize);
    } else {
      assert info.NullString? ==> Slice(buf, p + HEADER, size) + [] == Slice(buf, p + HEADER, size);
      len := total;
    }
  }

  /** The start of that loop's body: ignored and null slots, references already seen. */
  method Settle(A: Arch, f: Field, list: GcList, b: nat, o: nat, ghost osize: int) returns (done: bool)
    modifies list
    ensures match UnPlan(A, f, old(list.blocks), b, o, osize)
      case Settled(G) => done && list.blocks == G
      case Parse(_) => !done && list.blocks == old(list.blocks)
  {
    done := f.kind == Ignore;
    if f.kind == Ignore {
      list.blocks := Poke(list.blocks, b, o + f.offset, Zeros(PTR));
    } else if f.kind == Pointer {
      var seen := A.dec(Peek(list.blocks, b, o + f.offset, PTR));
      var found := Already(list, seen);
      done := seen == 0 || found.Some?;
      if seen != 0 && found.Some? {
        list.blocks := Poke(list.blocks, b, o + f.offset, A.enc(A.alloc(found.value)));
      }
    }
  }

  /** The rest of that body: parse a record and link it. */
  function Parsed(A: Arch, T: Table, f: Field, buf: seq<byte>, p: nat, total: nat, G: seq<Block>, b: nat, o: nat,
      osize: int): (r: UnResult)
    requires HEADER <= total && p + total <= |buf|
    ensures r.Done? ==> total < r.len && p + r.len <= |buf|
  {
    var at := total + PadLen(total);
    if |buf| < p + at then Fail
    else match Un(A, T, f.mi, buf, p + at, G, b, o + f.offset, f.kind == Substruct, osize)
      case Fail => Fail
      case Done(n, G') => Done(at + n, Link(A, f, |G|, G', b, o))
  }

  lemma {:induction false} FieldParsed(A: Arch, T: Table, fields: seq<Field>, k: nat, buf: seq<byte>, p: nat,
      total: nat, G: seq<Block>, b: nat, o: nat, osize: int)
    requires HEADER <= total && p + total <= |buf| && k < |fields| && UnPlan(A, fields[k], G, b, o, osize).Parse?
    ensures var os := UnPlan(A, fields[k], G, b, o, osize).osize;
      UnFields(A, T, fields, k, buf, p, total, G, b, o, osize) ==
      match Parsed(A, T, fields[k], buf, p, total, G, b, o, os)
      case Fail => Fail
      case Done(t, G') => UnFields(A, T, fields, k + 1, buf, p, t, G', b, o, os)
  {
    hide Un, UnPlan, Link, PadLen;
  }

  lemma {:induction false} FieldSettled(A: Arch, T: Table, fields: seq<Field>, k: nat, buf: seq<byte>, p: nat,
      total: nat, G: seq<Block>, b: nat, o: nat, osize: int)
    requires HEADER <= total && p + total <= |buf| && k < |fields| && UnPlan(A, fields[k], G, b, o, osize).Settled?
    ensures UnFields(A, T, fields, k, buf, p, total, G, b, o, osize) ==
      UnFields(A, T, fields, k + 1, buf, p, total, UnPlan(A, fields[k], G, b, o, osize).blocks, b, o, osize)
  {
    hide Un, UnPlan, Link, PadLen;
  }

  method ParseField(A: Arch, T: Table, f: Field, buf: seq<byte>, p: nat, total: nat, list: GcList, b: nat, o: nat,
      osize: int)
    returns (len: nat)
    requires HEADER <= total && p + total <= |buf|
    modifies list
    ensures match Parsed(A, T, f, buf, p, total, old(list.blocks), b, o, osize)
      case Fail => len == 0
      case Done(t, G) => len == t && list.blocks == G
    decreases |buf| - p, 0, 0
  {
    hide Un, PadLen, Poke;
    var at := total + PadLen(total);
    if |buf| - p < at {
      return 0;
    }
    var n := |list.blocks|;
    var sublen := Unserialize(A, T, f.mi, buf, p + at, list, b, o + f.offset, f.kind == Substruct, osize);
    if sublen == 0 {
      return 0;
    }
    if f.kind == Pointer {
      list.blocks := Poke(list.blocks, b, o + f.offset, A.enc(A.alloc(n)));
    }
    len := at + sublen;
  }

  /** The loop over the inner structures. */
  method UnserializeFields(A: Arch, T: Table, fields: seq<Field>, buf: seq<byte>, p: nat, start: nat, list: GcList,
      b: nat, o: nat, osize: int)
    returns (len: nat)
    requires HEADER <= start && p + start <= |buf|
    modifies list
    ensures len <= |buf| - p
    ensures match UnFields(A, T, fields, 0, buf, p, start, old(list.blocks), b, o, osize)
      case Fail => len == 0
      case Done(n, G) => len == n && list.blocks == G
    decreases |buf| - p, 0, 1
  {
    hide UnFields, Parsed, Find, Poke, Peek;
    ghost var whole := UnFields(A, T, fields, 0, buf, p, start, list.blocks, b, o, osize);
    var total, os := start, osize;
    var k := 0;
    while k < |fields|
      invariant k <= |fields| && start <= total && p + total <= |buf|
      invariant UnFields(A, T, fields, k, buf, p, total, list.blocks, b, o, os) == whole
    {
      var f := fields[k];
      ghost var G := list.blocks;
      var done := Settle(A, f, list, b, o, os);
      if done {
        FieldSettled(A, T, fields, k, buf, p, total, G, b, o, os);
      } else {
        FieldParsed(A, T, fields, k, buf, p, total, G, b, o, os);
        os := if f.offset2 != 0 then A.int32(Peek(list.blocks, b, o + f.offset2, INT)) else os;
        var t := ParseField(A, T, f, buf, p, total, list, b, o, os);
        if t == 0 {
          return 0;
        }
        total := t;
      }
      k := k + 1;
    }
    FieldsDone(A, T, fields, buf, p, total, list.blocks, b, o, os);
    len := total;
  }

  lemma {:induction false} FieldsDone(A: Arch, T: Table, fields: seq<Field>, buf: seq<byte>, p: nat, total: nat,
      G: seq<Block>, b: nat, o: nat, osize: int)
    requires HEADER <= total && p + total <= |buf|
    ensures UnFields(A, T, fields, |fields|, buf, p, total, G, b, o, osize) == Done(total, G)
  {
  }

  /** The outermost call: a list of its own, whose blocks are freed on failure. */
  method UnserializeRoot(A: Arch, T: Table, m: nat, buf: seq<byte>) returns (len: nat, blocks: seq<Block>)
    ensures len <= |buf|
    ensures match Un(A, T, m, buf, 0, [], 0, 0, false, 0)
      case Fail => len == 0 && blocks == []
      case Done(n, G) => len == n && blocks == G
  {
    var list := new GcList();
    len := Unserialize(A, T, m, buf, 0, list, 0, 0, false, 0);
    blocks := if len > 0 then list.blocks else [];
  }

  method SerializeRoot(A: Arch, T: Table, mem: Mem, m: nat, a: nat) returns (fault: bool, out: seq<byte>)
    requires WideWords(A) && SafeTable(T) && m < |T|
    ensures match Ser(A, T, mem, m, a, false, [], 0)
      case Fault => fault
      case Ok(o, _, _) => !fault && out == o
  {
    var list := new RefList();
    assert Pointers(list.refs) == [];
    fault, out := Serialize(A, T, mem, m, a, false, list, 0);
  }
}
