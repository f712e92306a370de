/** The graph marshaller of src/marshal.c: descriptors, source memory, and the
    two recursive procedures written as specification functions.  The imperative
    procedures are in MarshalProcedures; the theorems are in the other Marshal
    modules.

    The specification functions are total: an access the descriptors never make
    (out of a block, past the table) reads zeros and writes nothing.  MarshalHeap.GoodTable
    is what offsetof() guarantees, and every theorem assumes it. */
module Marshal {
  import opened Bytes

  // ---------- Descriptors (src/marshal.h) ----------

  datatype Kind = Pointer | Substruct | Ignore

  /** One `struct marshal_subinfo`; `mi` is an index in the descriptor table. */
  datatype Field = Field(offset: nat, offset2: nat, kind: Kind, mi: nat)

  /** One `struct marshal_info`.  The source tells strings apart by their name. */
  datatype Info = Struct(bytes: nat, fields: seq<Field>) | NullString | FixedString

  type Table = seq<Info>

  function InfoOf(T: Table, m: nat): Info
  {
    if m < |T| then T[m] else NullString
  }

  function Size(info: Info): nat
  {
    if info.Struct? then info.bytes else 0
  }

  const PTR: nat := 8
  const INT: nat := 4
  const HEADER: nat := 16

  // ---------- The machine ----------

  /** How the machine stores pointers (`enc`, `dec`) and ints (`int32`), and the
      address calloc() returns for the i-th object the unserializer builds. */
  datatype Arch = Arch(enc: nat -> seq<byte>, dec: seq<byte> -> nat, int32: seq<byte> -> int, alloc: nat -> nat)

  // ---------- Source memory ----------

  /** Memory by address; None is an address that may not be read. */
  type Mem = seq<Option<byte>>

  predicate Mapped(mem: Mem, a: nat, n: nat)
  {
    a + n <= |mem| && forall i :: a <= i < a + n ==> mem[i].Some?
  }

  function At(mem: Mem, a: nat): byte
  {
    if a < |mem| && mem[a].Some? then mem[a].value else 0
  }

  function Load(mem: Mem, a: nat, n: nat): (s: seq<byte>)
    ensures |s| == n
  {
    seq<byte>(n, i requires 0 <= i < n => At(mem, a + i))
  }

  /** strlen(): None when it runs off readable memory. */
  function StrLen(mem: Mem, a: nat): Option<nat>
    decreases |mem| - a
  {
    if a >= |mem| || mem[a].None? then None
    else if mem[a].value == 0 then Some(0)
    else match StrLen(mem, a + 1)
      case None => None
      case Some(n) => Some(n + 1)
  }

  /** strnlen() from position i to the end of the buffer. */
  function StrNLen(s: seq<byte>, i: nat): nat
    decreases |s| - i
  {
    if i >= |s| || s[i] == 0 then 0 else 1 + StrNLen(s, i + 1)
  }

  function PadLen(n: nat): (p: nat)
    ensures p < 8 && (n + p) % 8 == 0
  {
    (8 - n % 8) % 8
  }

  // ---------- Serialization ----------

  /** Position of the first occurrence of `a` at or after i. */
  function IndexOf(refs: seq<nat>, a: nat, i: nat := 0): nat
    decreases |refs| - i
  {
    if i >= |refs| || refs[i] == a then i else IndexOf(refs, a, i + 1)
  }

  /** How many addresses below n have not been met yet: bounds the recursion. */
  function Left(n: nat, refs: seq<nat>): nat
  {
    if n == 0 then 0 else Left(n - 1, refs) + if n - 1 in refs then 0 else 1
  }

  lemma {:induction false} LeftShrinks(n: nat, refs: seq<nat>, refs': seq<nat>)
    requires refs <= refs'
    ensures Left(n, refs') <= Left(n, refs)
  {
    if n > 0 {
      LeftShrinks(n - 1, refs, refs');
      assert n - 1 in refs ==> n - 1 in refs';
    }
  }

  lemma {:induction false} LeftDrops(n: nat, refs: seq<nat>, a: nat)
    requires a < n && a !in refs
    ensures Left(n, refs + [a]) < Left(n, refs)
  {
    if a == n - 1 {
      LeftShrinks(n - 1, refs, refs + [a]);
    } else {
      LeftDrops(n - 1, refs, a);
    }
  }

  /** Outcome of the serializer.  Fault: it would read unreadable memory.
      `out == []` is the source's return value 0 (already serialized).
      `refs` is the list of addresses met; the dummy of `refs[i]` is i + 1.
      `late` is history only: it has Substruct when some substructure, and Pointer
      when the target of some pointer held inside a substructure, had already been
      met when its turn came. */
  datatype SerResult = Fault | Ok(out: seq<byte>, refs: seq<nat>, late: set<Kind>)

  /** Outcome of the loop over the fields of one record. */
  datatype FieldsResult = FieldsFault | FieldsOk(obj: seq<byte>, tail: seq<byte>, refs: seq<nat>, late: set<Kind>)

  /** A record: header (dummy and total length), object, then inner records. */
  function Record(A: Arch, dummy: nat, obj: seq<byte>, tail: seq<byte>): (r: seq<byte>)
  {
    A.enc(dummy) + A.enc(HEADER + |obj| + |tail|) + obj + tail
  }

  function Leaf(A: Arch, refs: seq<nat>, a: nat, obj: seq<byte>): SerResult
  {
    Ok(Record(A, |refs| + 1, obj, []), refs + [a], {})
  }

  function Ser(A: Arch, T: Table, mem: Mem, m: nat, a: nat, skip: bool, refs: seq<nat>, osize: int): (r: SerResult)
    ensures r.Ok? ==> refs <= r.refs
    decreases Left(|mem|, refs), 0, 0
  {
    if a in refs then Ok([], refs, {})
    else match InfoOf(T, m)
      case NullString =>
        var n := StrLen(mem, a);
        if n.None? then Fault
        else Leaf(A, refs, a, if skip then [] else Load(mem, a, n.value + 1))
      case FixedString =>
        if osize < 0 || !Mapped(mem, a, osize) then Fault
        else Leaf(A, refs, a, if skip then [] else Load(mem, a, osize))
      case Struct(size, fields) =>
        if a >= |mem| || !Mapped(mem, a, size) then Fault
        else
          LeftDrops(|mem|, refs, a);
          var obj := if skip then [] else Load(mem, a, size);
          match SerFields(A, T, mem, fields, 0, a, skip, obj, HEADER + |obj|, refs + [a], osize)
            case FieldsFault => Fault
            case FieldsOk(obj', tail, refs', late) =>
              assert refs <= refs + [a] <= refs';
              Ok(Record(A, |refs| + 1, obj', tail), refs', late)
  }

  /** What the loop does with one field: nothing, or serialize `source`. */
  datatype SerStep = Pass | Visit(source: nat, osize: int)

  function SerPlan(A: Arch, mem: Mem, f: Field, a: nat, osize: int): SerStep
  {
    var p := A.dec(Load(mem, a + f.offset, PTR));
    if f.kind == Ignore || (f.kind == Pointer && p == 0) then Pass
    else Visit(if f.kind == Pointer then p else a + f.offset,
               if f.offset2 != 0 then A.int32(Load(mem, a + f.offset2, INT)) else osize)
  }

  /** Fields k.. of the record at `a`, of which `len` bytes are already
      laid out: the patched object, and what is appended after those bytes. */
  function SerFields(A: Arch, T: Table, mem: Mem, fields: seq<Field>, k: nat, a: nat, skip: bool, obj: seq<byte>,
      len: nat, refs: seq<nat>, osize: int): (r: FieldsResult)
    ensures r.FieldsOk? ==> refs <= r.refs
    decreases Left(|mem|, refs), 1, |fields| - k
  {
    if k >= |fields| then FieldsOk(obj, [], refs, {})
    else
      var f := fields[k];
      match SerPlan(A, mem, f, a, osize)
        case Pass => SerFields(A, T, mem, fields, k + 1, a, skip, obj, len, refs, osize)
        case Visit(source, osize') =>
          match Ser(A, T, mem, f.mi, source, f.kind == Substruct, refs, osize')
            case Fault => FieldsFault
            case Ok(out, refs', late) =>
              LeftShrinks(|mem|, refs, refs');
              var obj' := Renumber(A, f, skip, obj, refs', source);
              var piece := Piece(len, out);
              match SerFields(A, T, mem, fields, k + 1, a, skip, obj', len + |piece|, refs', osize')
                case FieldsFault => FieldsFault
                case FieldsOk(obj'', tail, refs'', late') =>
                  FieldsOk(obj'', piece + tail, refs'',
                           late + late' + TooLate(f, skip, source, refs))
  }

  /** A substructure, or the target of a pointer inside one, that is already met. */
  function TooLate(f: Field, skip: bool, source: nat, refs: seq<nat>): set<Kind>
  {
    if source in refs && (f.kind == Substruct || skip) then {f.kind} else {}
  }

  /** A serialized record is appended aligned; one already serialized is not. */
  function Piece(len: nat, out: seq<byte>): seq<byte>
  {
    if out == [] then [] else Zeros(PadLen(len)) + out
  }

  /** A pointer becomes the dummy of its target, except inside a substructure. */
  function Renumber(A: Arch, f: Field, skip: bool, obj: seq<byte>, refs: seq<nat>, target: nat): seq<byte>
  {
    if f.kind == Pointer && !skip then Write(obj, f.offset, A.enc(IndexOf(refs, target) + 1)) else obj
  }

  // ---------- Unserialization ----------

  /** One entry of the allocation list: the dummy read from the header, and the
      memory allocated for the object.  Block i is at address alloc(i). */
  datatype Block = Block(orig: nat, data: seq<byte>)

  datatype UnResult = Fail | Done(len: nat, blocks: seq<Block>)

  /** Position of the first block at or after i that carries the given dummy. */
  function Find(G: seq<Block>, orig: nat, i: nat := 0): Option<nat>
    decreases |G| - i
  {
    if i >= |G| then None
    else if G[i].orig == orig then Some(i)
    else Find(G, orig, i + 1)
  }

  function Poke(G: seq<Block>, b: nat, at: nat, d: seq<byte>): seq<Block>
  {
    if b < |G| then G[b := G[b].(data := Write(G[b].data, at, d))] else G
  }

  function Peek(G: seq<Block>, b: nat, at: nat, n: nat): seq<byte>
  {
    if b < |G| then Slice(G[b].data, at, n) else Zeros(n)
  }

  /** Unserialize one record at position p of `buf`.  When `skip` the object is
      already at offset o of block b; otherwise it becomes block |G|. */
  function Un(A: Arch, T: Table, m: nat, buf: seq<byte>, p: nat, G: seq<Block>, b: nat, o: nat, skip: bool,
      osize: int): (r: UnResult)
    ensures r.Done? ==> HEADER <= r.len && p + r.len <= |buf|
    decreases |buf| - p, 1, 0
  {
    var info := InfoOf(T, m);
    var total := HEADER + if skip then 0 else Size(info);
    if |buf| < p + total then Fail
    else
      match info
        case NullString =>
          var n := StrNLen(buf, p + HEADER) + 1;
          if p + HEADER + n > |buf| then Fail
          else Done(total + n, if skip then G else Alloc(A, buf, p, G, Slice(buf, p + HEADER, n)))
        case FixedString =>
          if osize < 0 || p + HEADER + osize > |buf| then Fail
          else Done(total + osize, if skip then G else Alloc(A, buf, p, G, Slice(buf, p + HEADER, osize) + [0]))
        case Struct(size, fields) =>
          if skip then UnFields(A, T, fields, 0, buf, p, total, G, b, o, osize)
          else UnFields(A, T, fields, 0, buf, p, total, Alloc(A, buf, p, G, Slice(buf, p + HEADER, size)), |G|, 0,
            osize)
  }

  /** marshal_alloc(): the dummy comes from the record's header. */
  function Alloc(A: Arch, buf: seq<byte>, p: nat, G: seq<Block>, data: seq<byte>): seq<Block>
  {
    G + [Block(A.dec(Slice(buf, p, PTR)), data)]
  }

  /** What the loop does with one field: update the blocks, or parse a record. */
  datatype UnStep = Settled(blocks: seq<Block>) | Parse(osize: int)

  function UnPlan(A: Arch, f: Field, G: seq<Block>, b: nat, o: nat, osize: int): UnStep
  {
    var seen := A.dec(Peek(G, b, o + f.offset, PTR));
    if f.kind == Ignore then Settled(Poke(G, b, o + f.offset, Zeros(PTR)))
    else if f.kind == Pointer && seen == 0 then Settled(G)
    else if f.kind == Pointer && Find(G, seen).Some? then
      Settled(Poke(G, b, o + f.offset, A.enc(A.alloc(Find(G, seen).value))))
    else Parse(if f.offset2 != 0 then A.int32(Peek(G, b, o + f.offset2, INT)) else osize)
  }

  /** Fields k.. of the record at position p, `total` bytes of which are consumed. */
  function UnFields(A: Arch, T: Table, fields: seq<Field>, k: nat, buf: seq<byte>, p: nat, total: nat, G: seq<Block>,
      b: nat, o: nat, osize: int): (r: UnResult)
    requires HEADER <= total && p + total <= |buf|
    ensures r.Done? ==> total <= r.len && p + r.len <= |buf|
    decreases |buf| - p, 0, |fields| - k
  {
    if k >= |fields| then Done(total, G)
    else
      var f := fields[k];
      match UnPlan(A, f, G, b, o, osize)
        case Settled(G') => UnFields(A, T, fields, k + 1, buf, p, total, G', b, o, osize)
        case Parse(osize') =>
          var at := total + PadLen(total);
          if |buf| < p + at then Fail
          else match Un(A, T, f.mi, buf, p + at, G, b, o + f.offset, f.kind == Substruct, osize')
            case Fail => Fail
            case Done(n, G') =>
              UnFields(A, T, fields, k + 1, buf, p, at + n, Link(A, f, |G|, G', b, o), b, o, osize')
  }

  /** The record parsed for a pointer field is block n: store its address. */
  function Link(A: Arch, f: Field, n: nat, G: seq<Block>, b: nat, o: nat): seq<Block>
  {
    if f.kind == Pointer then Poke(G, b, o + f.offset, A.enc(A.alloc(n))) else G
  }
}
