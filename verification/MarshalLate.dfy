/** The other half: when the target of a pointer held inside a substructure has
    already been serialized, the unserializer reads a record that is not there,
    and the result is never the copy. */
module MarshalLate {
  import opened Bytes
  import opened Marshal
  import opened MarshalHeap
  import opened MarshalLookup
  import opened MarshalPatch
  import opened MarshalObject
  import opened MarshalPending
  import opened MarshalGrow
  import opened MarshalRoundTrip

  // ---------- What parsing leaves alone, on any bytes ----------

  /** Byte x of block j is the same in G and G'. */
  ghost predicate Kept(G: seq<Block>, G': seq<Block>, j: nat, x: nat)
  {
    j < |G| <= |G'| && x < |G[j].data| == |G'[j].data| && G'[j].data[x] == G[j].data[x]
  }

  /** Byte x lies in none of the fields k.. of the structure at offset o. */
  ghost predicate Beyond(T: Table, m: nat, k: nat, o: nat, x: nat)
  {
    forall i :: k <= i < |FieldsOf(T, m)| ==> !InField(T, m, i, o, x)
  }

  lemma {:induction false} PokeKeeps(G: seq<Block>, b: nat, at: nat, d: seq<byte>, j: nat, x: nat)
    requires j < |G| && x < |G[j].data| && (j == b ==> !(at <= x < at + |d|))
    ensures Kept(G, Poke(G, b, at, d), j, x)
  {
    if b == j {
      WriteOutside(G[b].data, at, d);
    }
  }

  lemma {:induction false} PlanKeeps(A: Arch, T: Table, m: nat, k: nat, G: seq<Block>, b: nat, o: nat, osize: int,
      j: nat, x: nat)
    requires ValidArch(A) && k < |FieldsOf(T, m)| && j < |G| && x < |G[j].data|
    requires j == b ==> !InField(T, m, k, o, x)
    requires UnPlan(A, FieldsOf(T, m)[k], G, b, o, osize).Settled?
    ensures Kept(G, UnPlan(A, FieldsOf(T, m)[k], G, b, o, osize).blocks, j, x)
  {
    var f := FieldsOf(T, m)[k];
    PokeKeeps(G, b, o + f.offset, Zeros(PTR), j, x);
    var seen := A.dec(Peek(G, b, o + f.offset, PTR));
    if Find(G, seen).Some? {
      PokeKeeps(G, b, o + f.offset, A.enc(A.alloc(Find(G, seen).value)), j, x);
    }
  }

  lemma {:induction false} LinkKeeps(A: Arch, T: Table, m: nat, k: nat, n: nat, G: seq<Block>, b: nat, o: nat, j: nat,
      x: nat)
    requires ValidArch(A) && k < |FieldsOf(T, m)| && j < |G| && x < |G[j].data|
    requires j == b ==> !InField(T, m, k, o, x)
    ensures Kept(G, Link(A, FieldsOf(T, m)[k], n, G, b, o), j, x)
  {
    if FieldsOf(T, m)[k].kind == Pointer {
      PokeKeeps(G, b, o + FieldsOf(T, m)[k].offset, A.enc(A.alloc(n)), j, x);
    }
  }

  /** Parsing a record changes no earlier block, except inside the substructure
      it is about. */
  lemma {:induction false} UnKeeps(A: Arch, T: Table, m: nat, buf: seq<byte>, p: nat, G: seq<Block>, b: nat, o: nat,
      skip: bool, osize: int, j: nat, x: nat)
    requires ValidArch(A) && GoodTable(T) && m < |T| && j < |G| && x < |G[j].data|
    requires skip && j == b ==> !(o <= x < o + Size(InfoOf(T, m)))
    requires Un(A, T, m, buf, p, G, b, o, skip, osize).Done?
    ensures Kept(G, Un(A, T, m, buf, p, G, b, o, skip, osize).blocks, j, x)
    decreases |buf| - p, 1, 0
  {
    if InfoOf(T, m).Struct? {
      var total := HEADER + if skip then 0 else Size(InfoOf(T, m));
      if skip {
        forall i | 0 <= i < |FieldsOf(T, m)| && j == b ensures !InField(T, m, i, o, x) {
          assert Fits(T, Size(InfoOf(T, m)), FieldsOf(T, m)[i]);
        }
        UnFieldsKeep(A, T, m, 0, buf, p, total, G, b, o, osize, j, x);
      } else {
        UnFieldsKeep(A, T, m, 0, buf, p, total, Alloc(A, buf, p, G, Slice(buf, p + HEADER, Size(InfoOf(T, m)))), |G|, 0,
          osize, j, x);
      }
    }
  }

  /** One successful turn of the unserializer's loop. */
  lemma {:induction false} UnTurn(A: Arch, T: Table, fields: seq<Field>, k: nat, buf: seq<byte>, p: nat, total: nat,
      G: seq<Block>, b: nat, o: nat, osize: int)
    returns (total': nat, G': seq<Block>, os: int)
    requires HEADER <= total && p + total <= |buf| && k < |fields|
    requires UnFields(A, T, fields, k, buf, p, total, G, b, o, osize).Done?
    ensures HEADER <= total' && p + total' <= |buf|
    ensures UnFields(A, T, fields, k, buf, p, total, G, b, o, osize) ==
      UnFields(A, T, fields, k + 1, buf, p, total', G', b, o, os)
    ensures match UnPlan(A, fields[k], G, b, o, osize)
      case Settled(G1) => G' == G1
      case Parse(os1) =>
        var at := p + (total + PadLen(total));
        var r := Un(A, T, fields[k].mi, buf, at, G, b, o + fields[k].offset, fields[k].kind == Substruct, os1);
        fields[k].kind != Ignore && at <= |buf| && r.Done? && G' == Link(A, fields[k], |G|, r.blocks, b, o)
  {
    hide Un, Link, Poke, Peek, Find;
    match UnPlan(A, fields[k], G, b, o, osize)
    case Settled(G1) => total', G', os := total, G1, osize;
    case Parse(os1) =>
      var at := p + (total + PadLen(total));
      var r := Un(A, T, fields[k].mi, buf, at, G, b, o + fields[k].offset, fields[k].kind == Substruct, os1);
      total', G', os := total + PadLen(total) + r.len, Link(A, fields[k], |G|, r.blocks, b, o), os1;
  }

  lemma {:induction false} TurnKeeps(A: Arch, T: Table, m: nat, k: nat, buf: seq<byte>, p: nat, total: nat,
      G: seq<Block>, b: nat, o: nat, osize: int, j: nat, x: nat)
    returns (total': nat, G': seq<Block>, os: int)
    requires ValidArch(A) && GoodTable(T) && m < |T| && j < |G| && x < |G[j].data| && k < |FieldsOf(T, m)|
    requires j == b ==> !InField(T, m, k, o, x)
    requires HEADER <= total && p + total <= |buf|
    requires UnFields(A, T, FieldsOf(T, m), k, buf, p, total, G, b, o, osize).Done?
    ensures HEADER <= total' && p + total' <= |buf| && Kept(G, G', j, x)
    ensures UnFields(A, T, FieldsOf(T, m), k, buf, p, total, G, b, o, osize) ==
      UnFields(A, T, FieldsOf(T, m), k + 1, buf, p, total', G', b, o, os)
    decreases |buf| - p, 0, 0
  {
    total', G', os := UnTurn(A, T, FieldsOf(T, m), k, buf, p, total, G, b, o, osize);
    hide UnFields, Un, UnPlan, Link;
    var f := FieldsOf(T, m)[k];
    match UnPlan(A, f, G, b, o, osize)
    case Settled(_) => PlanKeeps(A, T, m, k, G, b, o, osize, j, x);
    case Parse(os1) =>
      var at := p + (total + PadLen(total));
      assert Fits(T, Size(InfoOf(T, m)), f);
      UnKeeps(A, T, f.mi, buf, at, G, b, o + f.offset, f.kind == Substruct, os1, j, x);
      var r := Un(A, T, f.mi, buf, at, G, b, o + f.offset, f.kind == Substruct, os1);
      LinkKeeps(A, T, m, k, |G|, r.blocks, b, o, j, x);
  }

  lemma {:induction false} UnFieldsKeep(A: Arch, T: Table, m: nat, k: nat, buf: seq<byte>, p: nat, total: nat,
      G: seq<Block>, b: nat, o: nat, osize: int, j: nat, x: nat)
    requires ValidArch(A) && GoodTable(T) && m < |T| && j < |G| && x < |G[j].data|
    requires j == b ==> Beyond(T, m, k, o, x)
    requires HEADER <= total && p + total <= |buf|
    requires UnFields(A, T, FieldsOf(T, m), k, buf, p, total, G, b, o, osize).Done?
    ensures Kept(G, UnFields(A, T, FieldsOf(T, m), k, buf, p, total, G, b, o, osize).blocks, j, x)
    decreases |buf| - p, 0, |FieldsOf(T, m)| - k
  {
    if k < |FieldsOf(T, m)| {
      hide UnFields;
      assert j == b ==> !InField(T, m, k, o, x);
      var total', G', os := TurnKeeps(A, T, m, k, buf, p, total, G, b, o, osize, j, x);
      UnFieldsKeep(A, T, m, k + 1, buf, p, total', G', b, o, os, j, x);
    }
  }

  // ---------- A pointer that comes too late ----------

  /** The first n + 1 calls of calloc() return distinct addresses, none of them null. */
  ghost predicate ValidAlloc(A: Arch, n: nat)
  {
    && (forall i: nat :: i <= n ==> 0 < A.alloc(i) < WORDS)
    && (forall i: nat, j: nat :: i <= n && j <= n && i != j ==> A.alloc(i) != A.alloc(j))
  }

  function AllCopies(E: Env): seq<Block>
  {
    Copies(E, |E.refs|)
  }

  /** Byte x of block j is not that of the copy. */
  ghost predicate Astray(E: Env, G: seq<Block>, j: nat, x: nat)
  {
    && j < |G| && x < |G[j].data|
    && j < |AllCopies(E)| && x < |AllCopies(E)[j].data|
    && G[j].data[x] != AllCopies(E)[j].data[x]
  }

  /** Block b of the copy holds, at offset o, the patched copy of structure m at a. */
  ghost predicate Agrees(E: Env, b: nat, m: nat, a: nat, D: seq<byte>, o: nat)
  {
    && b < |AllCopies(E)| && |AllCopies(E)[b].data| == |D| && o + Size(InfoOf(E.T, m)) <= |D|
    && forall x :: o <= x < o + Size(InfoOf(E.T, m)) ==> AllCopies(E)[b].data[x] == Patch(E, m, 0, a, D, o)[x]
  }

  lemma {:induction false} AstrayStays(E: Env, G: seq<Block>, G': seq<Block>, j: nat, x: nat)
    requires Astray(E, G, j, x) && Kept(G, G', j, x)
    ensures Astray(E, G', j, x)
  {
  }

  lemma {:induction false} WordsDiffer(A: Arch, v: nat, w: nat) returns (y: nat)
    requires ValidArch(A) && v < WORDS && w < WORDS && v != w
    ensures y < PTR && A.enc(v)[y] != A.enc(w)[y]
  {
    assert A.dec(A.enc(v)) == v && A.dec(A.enc(w)) == w;
    assert (forall i :: 0 <= i < PTR ==> A.enc(v)[i] == A.enc(w)[i]) ==> A.enc(v) == A.enc(w);
    y :| y < PTR && A.enc(v)[y] != A.enc(w)[y];
  }

  /** What the copy has in pointer slot k. */
  lemma {:induction false} AgreesSlot(E: Env, b: nat, m: nat, k: nat, a: nat, D: seq<byte>, o: nat, y: nat)
    requires ValidArch(E.A) && GoodTable(E.T) && m < |E.T| && Agrees(E, b, m, a, D, o)
    requires k < |FieldsOf(E.T, m)| && LivePointer(E, m, k, a) && y < PTR
    ensures var x := o + FieldsOf(E.T, m)[k].offset + y;
      && InField(E.T, m, k, o, x) && x < |D|
      && AllCopies(E)[b].data[x] == E.A.enc(CopyOf(E, Target(E, a + FieldsOf(E.T, m)[k].offset)))[y]
  {
    var f := FieldsOf(E.T, m)[k];
    var x := o + f.offset + y;
    assert Fits(E.T, Size(InfoOf(E.T, m)), f);
    PatchReaches(E, m, 0, a, D, o, k, x);
    WriteAt(D, o + f.offset, NewSlot(E, a + f.offset), x);
  }

  /** Inside a substructure the raw address is looked up, and never found. */
  lemma {:induction false} LatePlan(E: Env, m: nat, k: nat, a: nat, n: nat, G: seq<Block>, b: nat, o: nat, osU: int)
    requires InStep(E, m, k, a, true, n, G, b, o) && k < |FieldsOf(E.T, m)| && LivePointer(E, m, k, a)
    ensures UnPlan(E.A, FieldsOf(E.T, m)[k], G, b, o, osU).Parse?
  {
    var f := FieldsOf(E.T, m)[k];
    var t := Target(E, a + f.offset);
    assert PendingField(E, f, a, true, G[b].data, o);
    assert PointerOk(E, f, a);
    FindUnmet(E, n, G, t);
  }

  /** The copy of a target already met is an earlier block. */
  lemma {:induction false} EarlierBlock(E: Env, n: nat, t: nat)
    requires n <= |E.refs| && t in E.refs[..n] && t in E.objs
    ensures CopyOf(E, t) == E.A.alloc(Rank(E, IndexOf(E.refs, t))) && Rank(E, IndexOf(E.refs, t)) < Rank(E, n)
  {
    IndexOfPrefix(E.refs, n, t);
    RankGrows(E, IndexOf(E.refs, t), n);
  }

  /** The slot the unserializer links is then not the slot of the copy. */
  lemma {:induction false} LateLink(E: Env, m: nat, k: nat, a: nat, n: nat, G: seq<Block>, b: nat, o: nat, D: seq<byte>,
      G1: seq<Block>)
    returns (x: nat)
    requires InStep(E, m, k, a, true, n, G, b, o) && k < |FieldsOf(E.T, m)| && LivePointer(E, m, k, a)
    requires Target(E, a + FieldsOf(E.T, m)[k].offset) in E.refs[..n] && ValidAlloc(E.A, |E.refs|)
    requires Agrees(E, b, m, a, D, o) && b < |G1| && |G1[b].data| == |G[b].data|
    ensures InField(E.T, m, k, o, x) && Astray(E, Link(E.A, FieldsOf(E.T, m)[k], |G|, G1, b, o), b, x)
  {
    var f := FieldsOf(E.T, m)[k];
    var t := Target(E, a + f.offset);
    assert PointerOk(E, f, a);
    assert Fits(E.T, Size(InfoOf(E.T, m)), f);
    hide Patch, WellTyped, Pending, TypedHeap, Copies, Rank, Link, Agrees;
    EarlierBlock(E, n, t);
    var v := E.A.alloc(|G|);
    var y := WordsDiffer(E.A, v, CopyOf(E, t));
    AgreesSlot(E, b, m, k, a, D, o, y);
    x := o + f.offset + y;
    LinkSlot(E.A, f, |G|, G1, b, o, y);
  }

  lemma {:induction false} LinkSlot(A: Arch, f: Field, n: nat, G: seq<Block>, b: nat, o: nat, y: nat)
    requires ValidArch(A) && f.kind == Pointer && b < |G| && o + f.offset + PTR <= |G[b].data| && y < PTR
    ensures var G' := Link(A, f, n, G, b, o);
      |G'| == |G| && |G'[b].data| == |G[b].data| && G'[b].data[o + f.offset + y] == A.enc(A.alloc(n))[y]
  {
    WriteAt(G[b].data, o + f.offset, A.enc(A.alloc(n)), o + f.offset + y);
  }

  lemma {:induction false} LateEvent(E: Env, m: nat, k: nat, a: nat, n: nat, total: nat, buf: seq<byte>, p: nat,
      G: seq<Block>, b: nat, o: nat, osU: int, D: seq<byte>)
    returns (x: nat)
    requires InStep(E, m, k, a, true, n, G, b, o) && k < |FieldsOf(E.T, m)| && LivePointer(E, m, k, a)
    requires Target(E, a + FieldsOf(E.T, m)[k].offset) in E.refs[..n] && ValidAlloc(E.A, |E.refs|)
    requires Agrees(E, b, m, a, D, o) && HEADER <= total && p + total <= |buf|
    requires UnFields(E.A, E.T, FieldsOf(E.T, m), k, buf, p, total, G, b, o, osU).Done?
    ensures InField(E.T, m, k, o, x)
    ensures Astray(E, UnFields(E.A, E.T, FieldsOf(E.T, m), k, buf, p, total, G, b, o, osU).blocks, b, x)
  {
    hide UnFields, Un, UnPlan, Link, WellTyped, Pending, Tracks, Agrees, Astray;
    var f := FieldsOf(E.T, m)[k];
    LatePlan(E, m, k, a, n, G, b, o, osU);
    var total', G', os := UnTurn(E.A, E.T, FieldsOf(E.T, m), k, buf, p, total, G, b, o, osU);
    assert Fits(E.T, Size(InfoOf(E.T, m)), f);
    var at := p + (total + PadLen(total));
    var os1 := UnPlan(E.A, f, G, b, o, osU).osize;
    UnKeeps(E.A, E.T, f.mi, buf, at, G, b, o + f.offset, false, os1, b, o + f.offset);
    var G1 := Un(E.A, E.T, f.mi, buf, at, G, b, o + f.offset, false, os1).blocks;
    x := LateLink(E, m, k, a, n, G, b, o, D, G1);
    AfterLate(E, m, k, buf, p, total', G', b, o, os, b, x);
  }

  /** Once astray, astray until the end of the record. */
  lemma {:induction false} AfterLate(E: Env, m: nat, k: nat, buf: seq<byte>, p: nat, total: nat, G: seq<Block>, b: nat,
      o: nat, os: int, j: nat, x: nat)
    requires ValidArch(E.A) && GoodTable(E.T) && m < |E.T| && k < |FieldsOf(E.T, m)| && Astray(E, G, j, x)
    requires j == b ==> InField(E.T, m, k, o, x)
    requires HEADER <= total && p + total <= |buf|
    requires UnFields(E.A, E.T, FieldsOf(E.T, m), k + 1, buf, p, total, G, b, o, os).Done?
    ensures Astray(E, UnFields(E.A, E.T, FieldsOf(E.T, m), k + 1, buf, p, total, G, b, o, os).blocks, j, x)
  {
    hide UnFields;
    if j == b {
      OtherFields(E.T, m, k, k + 1, o, x);
    }
    UnFieldsKeep(E.A, E.T, m, k + 1, buf, p, total, G, b, o, os, j, x);
    AstrayStays(E, G, UnFields(E.A, E.T, FieldsOf(E.T, m), k + 1, buf, p, total, G, b, o, os).blocks, j, x);
  }

  // ---------- Following the serializer up to that pointer ----------

  /** The copy of a substructure is part of the copy of the structure. */
  lemma {:induction false} AgreesInside(E: Env, b: nat, m: nat, k: nat, a: nat, D: seq<byte>, o: nat)
    requires ValidArch(E.A) && GoodTable(E.T) && m < |E.T| && Agrees(E, b, m, a, D, o)
    requires k < |FieldsOf(E.T, m)| && FieldsOf(E.T, m)[k].kind == Substruct
    ensures var f := FieldsOf(E.T, m)[k]; Agrees(E, b, f.mi, a + f.offset, D, o + f.offset)
  {
    var f := FieldsOf(E.T, m)[k];
    assert Fits(E.T, Size(InfoOf(E.T, m)), f);
    forall x | o + f.offset <= x < o + f.offset + Extent(E.T, f)
      ensures AllCopies(E)[b].data[x] == Patch(E, f.mi, 0, a + f.offset, D, o + f.offset)[x]
    {
      PatchReaches(E, m, 0, a, D, o, k, x);
    }
  }

  /** Where a record read too late shows: in a new block or in the structure. */
  ghost predicate Where(E: Env, m: nat, k: nat, G: seq<Block>, b: nat, o: nat, j: nat, x: nat)
  {
    j >= |G| || (j == b && !Beyond(E.T, m, k, o, x))
  }

  lemma {:induction false} LateFields(E: Env, m: nat, k: nat, a: nat, skip: bool, s: Turn, tail: seq<byte>,
      refs': seq<nat>, late: set<Kind>, buf: seq<byte>, p: nat, G: seq<Block>, b: nat, o: nat, osU: int, D: seq<byte>)
    returns (j: nat, x: nat)
    requires InStep(E, m, k, a, skip, |s.refs|, G, b, o) && Loop(E, m, k, a, skip, s, tail, refs', late, buf, p)
    requires late != {} && Substruct !in late && ValidAlloc(E.A, |E.refs|) && Agrees(E, b, m, a, D, o)
    requires UnFields(E.A, E.T, FieldsOf(E.T, m), k, buf, p, s.len, G, b, o, osU).Done?
    ensures Astray(E, UnFields(E.A, E.T, FieldsOf(E.T, m), k, buf, p, s.len, G, b, o, osU).blocks, j, x)
    ensures Where(E, m, k, G, b, o, j, x)
    decreases Left(|E.mem|, s.refs), 1, |FieldsOf(E.T, m)| - k, 4
  {
    LoopEnd(E, m, k, a, skip, s, tail, refs', late, buf, p);
    assert ValidArch(E.A);
    hide SerFields, UnFields, Ser, Astray, Agrees, InStep, ValidArch;
    var t, out, tail', late' := LoopNext(E, m, k, a, skip, s, tail, refs', late, buf, p);
    var f := FieldsOf(E.T, m)[k];
    match SerPlan(E.A, E.mem, f, a, s.osize)
    case Pass =>
      j, x := LateLater(E, m, k, a, skip, s, t, out, tail', refs', late', buf, p, G, b, o, osU, D);
    case Visit(source, osize') =>
      j, x := LateTurn(E, m, k, a, skip, s, t, out, tail', refs', late', source, osize', buf, p, G, b, o, osU, D);
  }

  /** The turn at field k, when the serializer visits it. */
  lemma {:induction false} LateTurn(E: Env, m: nat, k: nat, a: nat, skip: bool, s: Turn, t: Turn, out: seq<byte>,
      tail': seq<byte>, refs': seq<nat>, late': set<Kind>, source: nat, osize': int, buf: seq<byte>, p: nat,
      G: seq<Block>, b: nat, o: nat, osU: int, D: seq<byte>)
    returns (j: nat, x: nat)
    requires InStep(E, m, k, a, skip, |s.refs|, G, b, o) &&
      Loop(E, m, k + 1, a, skip, t, tail', refs', late', buf, p) && k < |FieldsOf(E.T, m)|
    requires ValidAlloc(E.A, |E.refs|) && Agrees(E, b, m, a, D, o) &&
      SerPlan(E.A, E.mem, FieldsOf(E.T, m)[k], a, s.osize) == Visit(source, osize')
    requires s.refs <= t.refs <= E.refs && HEADER <= s.len && p + t.len <= |buf| && t.len == s.len + |Piece(s.len, out)|
    requires out != [] ==> Holds(buf, p + (s.len + PadLen(s.len)), out)
    requires var f := FieldsOf(E.T, m)[k];
      var r := Ser(E.A, E.T, E.mem, f.mi, source, f.kind == Substruct, s.refs, osize');
      && r.Ok? && r.out == out && r.refs == t.refs && Substruct !in r.late + late' + TooLate(f, skip, source, s.refs)
      && r.late + late' + TooLate(f, skip, source, s.refs) != {}
    requires UnFields(E.A, E.T, FieldsOf(E.T, m), k, buf, p, s.len, G, b, o, osU).Done?
    ensures Astray(E, UnFields(E.A, E.T, FieldsOf(E.T, m), k, buf, p, s.len, G, b, o, osU).blocks, j, x)
    ensures Where(E, m, k, G, b, o, j, x)
    decreases Left(|E.mem|, s.refs), 1, |FieldsOf(E.T, m)| - k, 3
  {
    var f := FieldsOf(E.T, m)[k];
    hide SerFields, UnFields, Ser, Astray, Agrees, InStep, Loop, Holds, SerPlan, Where, ValidAlloc;
    VisitOf(E, m, k, a, s.osize);
    var r := Ser(E.A, E.T, E.mem, f.mi, source, f.kind == Substruct, s.refs, osize');
    if source in s.refs && (f.kind == Substruct || skip) {
      j, x := LateHere(E, m, k, a, s, buf, p, G, b, o, osU, D);
    } else if r.late != {} {
      j, x := LateVisit(E, m, k, a, skip, s, t, out, r.late, buf, p, G, b, o, osU, D);
    } else {
      j, x := LateLater(E, m, k, a, skip, s, t, out, tail', refs', late', buf, p, G, b, o, osU, D);
    }
  }

  /** The late pointer is field k itself. */
  lemma {:induction false} LateHere(E: Env, m: nat, k: nat, a: nat, s: Turn, buf: seq<byte>, p: nat, G: seq<Block>,
      b: nat, o: nat, osU: int, D: seq<byte>)
    returns (j: nat, x: nat)
    requires InStep(E, m, k, a, true, |s.refs|, G, b, o) && k < |FieldsOf(E.T, m)| && ValidAlloc(E.A, |E.refs|) &&
      Agrees(E, b, m, a, D, o)
    requires s.refs <= E.refs && HEADER <= s.len && p + s.len <= |buf|
    requires LivePointer(E, m, k, a) && Target(E, a + FieldsOf(E.T, m)[k].offset) in s.refs
    requires UnFields(E.A, E.T, FieldsOf(E.T, m), k, buf, p, s.len, G, b, o, osU).Done?
    ensures Astray(E, UnFields(E.A, E.T, FieldsOf(E.T, m), k, buf, p, s.len, G, b, o, osU).blocks, j, x)
    ensures Where(E, m, k, G, b, o, j, x)
  {
    hide UnFields, Astray, Agrees, InStep;
    assert E.refs[..|s.refs|] == s.refs;
    x := LateEvent(E, m, k, a, |s.refs|, s.len, buf, p, G, b, o, osU, D);
    j := b;
  }

  /** The late pointer is further on: both sides take a turn in step. */
  lemma {:induction false} LateLater(E: Env, m: nat, k: nat, a: nat, skip: bool, s: Turn, t: Turn, out: seq<byte>,
      tail': seq<byte>, refs': seq<nat>, late': set<Kind>, buf: seq<byte>, p: nat, G: seq<Block>, b: nat, o: nat,
      osU: int, D: seq<byte>)
    returns (j: nat, x: nat)
    requires InStep(E, m, k, a, skip, |s.refs|, G, b, o) &&
      Loop(E, m, k + 1, a, skip, t, tail', refs', late', buf, p) && k < |FieldsOf(E.T, m)|
    requires late' != {} && Substruct !in late' && ValidAlloc(E.A, |E.refs|) && Agrees(E, b, m, a, D, o)
    requires s.refs <= t.refs <= E.refs && HEADER <= s.len && p + t.len <= |buf| && t.len == s.len + |Piece(s.len, out)|
    requires out != [] ==> Holds(buf, p + (s.len + PadLen(s.len)), out)
    requires var f := FieldsOf(E.T, m)[k];
      match SerPlan(E.A, E.mem, f, a, s.osize)
      case Pass => out == [] && t == s
      case Visit(source, osize') =>
        && Ser(E.A, E.T, E.mem, f.mi, source, f.kind == Substruct, s.refs, osize') == Ok(out, t.refs, {})
        && (f.kind == Substruct || skip ==> source !in s.refs)
    requires UnFields(E.A, E.T, FieldsOf(E.T, m), k, buf, p, s.len, G, b, o, osU).Done?
    ensures Astray(E, UnFields(E.A, E.T, FieldsOf(E.T, m), k, buf, p, s.len, G, b, o, osU).blocks, j, x)
    ensures Where(E, m, k, G, b, o, j, x)
    decreases Left(|E.mem|, s.refs), 1, |FieldsOf(E.T, m)| - k, 2
  {
    hide SerFields, UnFields, Ser, Astray, Agrees, Loop, SerPlan, Advances, InStep;
    var os := SimTurn(E, m, k, a, skip, s, t, out, buf, p, G, b, o, osU);
    j, x := LateRest(E, m, k, a, skip, s, t, tail', refs', late', buf, p, G, b, o, osU, os, D);
  }

  lemma {:induction false} LoopEnd(E: Env, m: nat, k: nat, a: nat, skip: bool, s: Turn, tail: seq<byte>,
      refs': seq<nat>, late: set<Kind>, buf: seq<byte>, p: nat)
    requires Loop(E, m, k, a, skip, s, tail, refs', late, buf, p)
    ensures k >= |FieldsOf(E.T, m)| ==> late == {}
  {
  }

  lemma {:induction false} LateRest(E: Env, m: nat, k: nat, a: nat, skip: bool, s: Turn, t: Turn, tail: seq<byte>,
      refs': seq<nat>, late: set<Kind>, buf: seq<byte>, p: nat, G: seq<Block>, b: nat, o: nat, osU: int, os: int,
      D: seq<byte>)
    returns (j: nat, x: nat)
    requires InStep(E, m, k, a, skip, |s.refs|, G, b, o) && k < |FieldsOf(E.T, m)|
    requires Loop(E, m, k + 1, a, skip, t, tail, refs', late, buf, p) && s.refs <= t.refs <= E.refs
    requires late != {} && Substruct !in late && ValidAlloc(E.A, |E.refs|) && Agrees(E, b, m, a, D, o)
    requires HEADER <= s.len && p + s.len <= |buf| && Advances(E, m, k, a, s, t, buf, p, G, b, o, osU, os)
    requires UnFields(E.A, E.T, FieldsOf(E.T, m), k, buf, p, s.len, G, b, o, osU).Done?
    ensures Astray(E, UnFields(E.A, E.T, FieldsOf(E.T, m), k, buf, p, s.len, G, b, o, osU).blocks, j, x)
    ensures Where(E, m, k, G, b, o, j, x)
    decreases Left(|E.mem|, s.refs), 1, |FieldsOf(E.T, m)| - k, 1
  {
    hide SerFields, UnFields, Patch, PatchField, Astray, Agrees, Loop;
    var G' := After(E, G, b, PatchField(E, m, k, a, G[b].data, o), |t.refs|);
    InStepNext(E, m, k, a, skip, |s.refs|, |t.refs|, G, b, o);
    RankGrows(E, |s.refs|, |t.refs|);
    LeftShrinks(|E.mem|, s.refs, t.refs);
    j, x := LateFields(E, m, k + 1, a, skip, t, tail, refs', late, buf, p, G', b, o, os, D);
  }

  /** The late pointer is inside the record of field k. */
  lemma {:induction false} LateVisit(E: Env, m: nat, k: nat, a: nat, skip: bool, s: Turn, t: Turn, out: seq<byte>,
      late: set<Kind>, buf: seq<byte>, p: nat, G: seq<Block>, b: nat, o: nat, osU: int, D: seq<byte>)
    returns (j: nat, x: nat)
    requires InStep(E, m, k, a, skip, |s.refs|, G, b, o) && k < |FieldsOf(E.T, m)|
    requires HEADER <= s.len && p + s.len <= |buf| && s.refs <= t.refs <= E.refs
    requires out != [] ==> Holds(buf, p + (s.len + PadLen(s.len)), out)
    requires var f := FieldsOf(E.T, m)[k];
      var step := SerPlan(E.A, E.mem, f, a, s.osize);
      step.Visit? && Ser(E.A, E.T, E.mem, f.mi, step.source, f.kind == Substruct, s.refs, step.osize) ==
        Ok(out, t.refs, late)
    requires late != {} && Substruct !in late && ValidAlloc(E.A, |E.refs|) && Agrees(E, b, m, a, D, o)
    requires UnFields(E.A, E.T, FieldsOf(E.T, m), k, buf, p, s.len, G, b, o, osU).Done?
    ensures Astray(E, UnFields(E.A, E.T, FieldsOf(E.T, m), k, buf, p, s.len, G, b, o, osU).blocks, j, x)
    ensures Where(E, m, k, G, b, o, j, x)
    decreases Left(|E.mem|, s.refs), 0, 1
  {
    hide *;
    var f := FieldsOf(E.T, m)[k];
    InStepFacts(E, m, k, a, skip, |s.refs|, G, b, o);
    VisitParsed(E, m, k, a, skip, s, t, out, late, buf, p, G, b, o, osU);
    var os := UnPlan(E.A, f, G, b, o, osU).osize;
    var at := p + (s.len + PadLen(s.len));
    InnerDone(E, m, k, buf, p, s.len, G, b, o, osU);
    var done := Un(E.A, E.T, f.mi, buf, at, G, b, o + f.offset, f.kind == Substruct, os);
    j, x := LateInner(E, m, k, a, skip, s, t, out, late, buf, at, G, b, o, os, D, done);
    LateOuter(E, m, k, buf, p, s.len, G, b, o, osU, j, x);
  }

  /** If the loop succeeds, so does the record it parses for field k. */
  lemma {:induction false} InnerDone(E: Env, m: nat, k: nat, buf: seq<byte>, p: nat, total: nat, G: seq<Block>, b: nat,
      o: nat, osU: int)
    requires k < |FieldsOf(E.T, m)| && HEADER <= total && p + total <= |buf|
    requires UnPlan(E.A, FieldsOf(E.T, m)[k], G, b, o, osU).Parse?
    requires UnFields(E.A, E.T, FieldsOf(E.T, m), k, buf, p, total, G, b, o, osU).Done?
    ensures var f := FieldsOf(E.T, m)[k];
      Un(E.A, E.T, f.mi, buf, p + (total + PadLen(total)), G, b, o + f.offset, f.kind ==
        Substruct, UnPlan(E.A, f, G, b, o, osU).osize).Done?
  {
    hide *;
    var total', G', os' := UnTurn(E.A, E.T, FieldsOf(E.T, m), k, buf, p, total, G, b, o, osU);
  }

  /** If that record leads astray, so does the whole loop. */
  lemma {:induction false} LateOuter(E: Env, m: nat, k: nat, buf: seq<byte>, p: nat, total: nat, G: seq<Block>, b: nat,
      o: nat, osU: int, j: nat, x: nat)
    requires ValidArch(E.A) && GoodTable(E.T) && m < |E.T| && k < |FieldsOf(E.T, m)| && b < |G| && HEADER <= total &&
      p + total <= |buf|
    requires UnPlan(E.A, FieldsOf(E.T, m)[k], G, b, o, osU).Parse?
    requires UnFields(E.A, E.T, FieldsOf(E.T, m), k, buf, p, total, G, b, o, osU).Done?
    requires var f := FieldsOf(E.T, m)[k];
      var r := Un(E.A, E.T, f.mi, buf, p + (total + PadLen(total)), G, b, o + f.offset, f.kind ==
        Substruct, UnPlan(E.A, f, G, b, o, osU).osize);
      && r.Done? && Astray(E, r.blocks, j, x)
      && (j >= |G| || (j == b && f.kind == Substruct && InField(E.T, m, k, o, x)))
    ensures Astray(E, UnFields(E.A, E.T, FieldsOf(E.T, m), k, buf, p, total, G, b, o, osU).blocks, j, x)
    ensures Where(E, m, k, G, b, o, j, x)
  {
    hide *;
    var total', G', os' := UnTurn(E.A, E.T, FieldsOf(E.T, m), k, buf, p, total, G, b, o, osU);
    var f := FieldsOf(E.T, m)[k];
    var r := Un(E.A, E.T, f.mi, buf, p + (total + PadLen(total)), G, b, o + f.offset, f.kind ==
      Substruct, UnPlan(E.A, f, G, b, o, osU).osize);
    LateEnds(E, m, k, |G|, r.blocks, G, buf, p, total', G', b, o, os', j, x);
  }

  lemma {:induction false} InStepFacts(E: Env, m: nat, k: nat, a: nat, skip: bool, n: nat, G: seq<Block>, b: nat,
      o: nat)
    requires InStep(E, m, k, a, skip, n, G, b, o)
    ensures ValidArch(E.A) && GoodTable(E.T) && m < |E.T| && b < |G|
  {
  }

  /** The record of field k is parsed, and is ready for it. */
  lemma {:induction false} VisitParsed(E: Env, m: nat, k: nat, a: nat, skip: bool, s: Turn, t: Turn, out: seq<byte>,
      late: set<Kind>, buf: seq<byte>, p: nat, G: seq<Block>, b: nat, o: nat, osU: int)
    requires InStep(E, m, k, a, skip, |s.refs|, G, b, o) && k < |FieldsOf(E.T, m)| && s.refs <= t.refs <= E.refs &&
      late != {}
    requires out != [] ==> Holds(buf, p + (s.len + PadLen(s.len)), out)
    requires var f := FieldsOf(E.T, m)[k];
      var step := SerPlan(E.A, E.mem, f, a, s.osize);
      step.Visit? && Ser(E.A, E.T, E.mem, f.mi, step.source, f.kind == Substruct, s.refs, step.osize) ==
        Ok(out, t.refs, late)
    ensures UnPlan(E.A, FieldsOf(E.T, m)[k], G, b, o, osU).Parse?
    ensures var f := FieldsOf(E.T, m)[k];
      var step := SerPlan(E.A, E.mem, f, a, s.osize);
      Ready(E, f.mi, step.source, f.kind ==
        Substruct, s.refs, step.osize, out, t.refs, late, buf, p + (s.len + PadLen(s.len)),
            G, b, o + f.offset, UnPlan(E.A, f, G, b, o, osU).osize)
  {
    hide Ser, SerPlan, UnPlan, InStep, Holds;
    var os := VisitParses(E, m, k, a, skip, s, t, out, late, G, b, o, osU);
    VisitReady(E, m, k, a, skip, s, t, out, late, buf, p + (s.len + PadLen(s.len)), G, b, o, os);
  }

  lemma {:induction false} LateInner(E: Env, m: nat, k: nat, a: nat, skip: bool, s: Turn, t: Turn, out: seq<byte>,
      late: set<Kind>, buf: seq<byte>, at: nat, G: seq<Block>, b: nat, o: nat, os: int, D: seq<byte>, done: UnResult)
    returns (j: nat, x: nat)
    requires k < |FieldsOf(E.T, m)| && SerPlan(E.A, E.mem, FieldsOf(E.T, m)[k], a, s.osize).Visit?
    requires late != {} && Substruct !in late && ValidAlloc(E.A, |E.refs|) && Agrees(E, b, m, a, D, o)
    requires ValidArch(E.A) && GoodTable(E.T) && m < |E.T|
    requires var f := FieldsOf(E.T, m)[k];
      var step := SerPlan(E.A, E.mem, f, a, s.osize);
      && Ready(E, f.mi, step.source, f.kind ==
         Substruct, s.refs, step.osize, out, t.refs, late, buf, at, G, b, o + f.offset, os)
      && Un(E.A, E.T, f.mi, buf, at, G, b, o + f.offset, f.kind == Substruct, os) == done && done.Done?
    ensures var f := FieldsOf(E.T, m)[k];
      && Astray(E, done.blocks, j, x)
      && (j >= |G| || (j == b && f.kind == Substruct && InField(E.T, m, k, o, x)))
    decreases Left(|E.mem|, s.refs), 0, 0, 1
  {
    hide Ser, SerPlan, Un, Agrees, Astray, Ready, ValidAlloc;
    var f := FieldsOf(E.T, m)[k];
    var step := SerPlan(E.A, E.mem, f, a, s.osize);
    VisitOf(E, m, k, a, s.osize);
    if f.kind == Substruct {
      AgreesInside(E, b, m, k, a, D, o);
    }
    j, x := LateRecord(E, f.mi, step.source, f.kind ==
      Substruct, s.refs, step.osize, out, t.refs, late, buf, at, G, b, o + f.offset, os, D);
  }

  lemma {:induction false} VisitOf(E: Env, m: nat, k: nat, a: nat, osize: int)
    requires k < |FieldsOf(E.T, m)| && SerPlan(E.A, E.mem, FieldsOf(E.T, m)[k], a, osize).Visit?
    ensures var f := FieldsOf(E.T, m)[k];
      var source := SerPlan(E.A, E.mem, f, a, osize).source;
      if f.kind == Pointer then LivePointer(E, m, k, a) && source == Target(E, a + f.offset)
      else f.kind == Substruct && source == a + f.offset
  {
  }

  /** A record not met yet is parsed. */
  lemma {:induction false} VisitParses(E: Env, m: nat, k: nat, a: nat, skip: bool, s: Turn, t: Turn, out: seq<byte>,
      late: set<Kind>, G: seq<Block>, b: nat, o: nat, osU: int)
    returns (os: int)
    requires InStep(E, m, k, a, skip, |s.refs|, G, b, o) && k < |FieldsOf(E.T, m)| && s.refs <= t.refs <= E.refs &&
      late != {}
    requires var f := FieldsOf(E.T, m)[k];
      var step := SerPlan(E.A, E.mem, f, a, s.osize);
      step.Visit? && Ser(E.A, E.T, E.mem, f.mi, step.source, f.kind == Substruct, s.refs, step.osize) ==
        Ok(out, t.refs, late)
    ensures UnPlan(E.A, FieldsOf(E.T, m)[k], G, b, o, osU) == Parse(os)
    ensures var f := FieldsOf(E.T, m)[k];
      var step := SerPlan(E.A, E.mem, f, a, s.osize);
      && step.source !in s.refs && out != []
      && (f.kind == Pointer && InfoOf(E.T, f.mi).FixedString? ==> os == step.osize)
  {
    var f := FieldsOf(E.T, m)[k];
    var n := |s.refs|;
    hide Ser, SerPlan, UnPlan;
    var step := SerPlan(E.A, E.mem, f, a, s.osize);
    SerFacts(E.A, E.T, E.mem, f.mi, step.source, f.kind == Substruct, s.refs, step.osize);
    assert E.refs[..n] == s.refs && E.refs[n] == t.refs[n] == (s.refs + [step.source])[n];
    os := NewParses(E, m, k, a, skip, n, G, b, o, s.osize, osU);
  }

  lemma {:induction false} LateEnds(E: Env, m: nat, k: nat, n: nat, G1: seq<Block>, G0: seq<Block>, buf: seq<byte>,
      p: nat, total: nat, G: seq<Block>, b: nat, o: nat, os: int, j: nat, x: nat)
    requires ValidArch(E.A) && GoodTable(E.T) && m < |E.T| && k < |FieldsOf(E.T, m)| && Astray(E, G1, j, x)
    requires G == Link(E.A, FieldsOf(E.T, m)[k], n, G1, b, o)
    requires b < |G0| && (j >= |G0| || (j == b && FieldsOf(E.T, m)[k].kind == Substruct && InField(E.T, m, k, o, x)))
    requires HEADER <= total && p + total <= |buf|
    requires UnFields(E.A, E.T, FieldsOf(E.T, m), k + 1, buf, p, total, G, b, o, os).Done?
    ensures Astray(E, UnFields(E.A, E.T, FieldsOf(E.T, m), k + 1, buf, p, total, G, b, o, os).blocks, j, x)
    ensures Where(E, m, k, G0, b, o, j, x)
  {
    hide UnFields, Astray;
    LateLinked(E, m, k, n, G1, b, o, j, x);
    AfterLate(E, m, k, buf, p, total, G, b, o, os, j, x);
  }

  lemma {:induction false} LateLinked(E: Env, m: nat, k: nat, n: nat, G: seq<Block>, b: nat, o: nat, j: nat, x: nat)
    requires ValidArch(E.A) && k < |FieldsOf(E.T, m)| && Astray(E, G, j, x)
    requires j == b ==> FieldsOf(E.T, m)[k].kind == Substruct
    ensures Astray(E, Link(E.A, FieldsOf(E.T, m)[k], n, G, b, o), j, x)
  {
    if j != b {
      LinkKeeps(E.A, E.T, m, k, n, G, b, o, j, x);
      AstrayStays(E, G, Link(E.A, FieldsOf(E.T, m)[k], n, G, b, o), j, x);
    }
  }

  lemma {:induction false} LateRecord(E: Env, m: nat, a: nat, skip: bool, refs: seq<nat>, osS: int, out: seq<byte>,
      refs': seq<nat>, late: set<Kind>, buf: seq<byte>, p: nat, G: seq<Block>, b: nat, o: nat, osU: int, D: seq<byte>)
    returns (j: nat, x: nat)
    requires Ready(E, m, a, skip, refs, osS, out, refs', late, buf, p, G, b, o, osU)
    requires late != {} && Substruct !in late && ValidAlloc(E.A, |E.refs|) && (skip ==> Agrees(E, b, m, a, D, o))
    requires Un(E.A, E.T, m, buf, p, G, b, o, skip, osU).Done?
    ensures Astray(E, Un(E.A, E.T, m, buf, p, G, b, o, skip, osU).blocks, j, x)
    ensures j >= |G| || (skip && j == b && o <= x < o + Size(InfoOf(E.T, m)))
    decreases Left(|E.mem|, refs), 0, 0, 0
  {
    assert InfoOf(E.T, m).Struct?;
    hide Un, Ser, Astray, Agrees, ValidAlloc, Ready;
    if skip {
      j, x := LateInside(E, m, a, refs, osS, out, refs', late, buf, p, G, b, o, osU, D);
    } else {
      j, x := LateObject(E, m, a, refs, osS, out, refs', late, buf, p, G, b, o, osU);
    }
  }

  lemma {:induction false} LateInside(E: Env, m: nat, a: nat, refs: seq<nat>, osS: int, out: seq<byte>, refs': seq<nat>,
      late: set<Kind>, buf: seq<byte>, p: nat, G: seq<Block>, b: nat, o: nat, osU: int, D: seq<byte>)
    returns (j: nat, x: nat)
    requires Ready(E, m, a, true, refs, osS, out, refs', late, buf, p, G, b, o, osU)
    requires late != {} && Substruct !in late && ValidAlloc(E.A, |E.refs|) && Agrees(E, b, m, a, D, o)
    requires Un(E.A, E.T, m, buf, p, G, b, o, true, osU).Done?
    ensures Astray(E, Un(E.A, E.T, m, buf, p, G, b, o, true, osU).blocks, j, x)
    ensures j >= |G| || (j == b && o <= x < o + Size(InfoOf(E.T, m)))
    decreases Left(|E.mem|, refs), 0, 0, 0, 0
  {
    hide Ser, SerFields, UnFields, Astray, Agrees, ValidAlloc;
    var s, obj, tail := StructLoop(E, m, a, true, refs, osS, out, refs', late, buf, p);
    LeftDrops(|E.mem|, refs, a);
    PendingInside(E, m, a, G[b].data, o);
    assert E.refs[|refs|] == refs'[|refs|] == (refs + [a])[|refs|];
    assert Tracks(E, |refs| + 1, G);
    j, x := LateFields(E, m, 0, a, true, s, tail, refs', late, buf, p, G, b, o, osU, D);
    WithinSize(E.T, m, o, x);
  }

  lemma {:induction false} LateObject(E: Env, m: nat, a: nat, refs: seq<nat>, osS: int, out: seq<byte>, refs': seq<nat>,
      late: set<Kind>, buf: seq<byte>, p: nat, G: seq<Block>, b: nat, o: nat, osU: int)
    returns (j: nat, x: nat)
    requires Ready(E, m, a, false, refs, osS, out, refs', late, buf, p, G, b, o, osU) && InfoOf(E.T, m).Struct?
    requires late != {} && Substruct !in late && ValidAlloc(E.A, |E.refs|)
    requires Un(E.A, E.T, m, buf, p, G, b, o, false, osU).Done?
    ensures Astray(E, Un(E.A, E.T, m, buf, p, G, b, o, false, osU).blocks, j, x) && j >= |G|
    decreases Left(|E.mem|, refs), 0, 0, 0, 0
  {
    hide Ser, SerFields, UnFields, Astray, Agrees, ValidAlloc, InStep, Loop, Patch;
    var s, obj, tail := StructLoop(E, m, a, false, refs, osS, out, refs', late, buf, p);
    LeftDrops(|E.mem|, refs, a);
    HoldsRecord(E.A, buf, p, |refs| + 1, obj, tail);
    NewInStep(E, m, a, refs, osS, s, obj, tail, refs', late, G);
    var G' := G + [Block(|refs| + 1, obj)];
    assert Alloc(E.A, buf, p, G, Slice(buf, p + HEADER, |obj|)) == G';
    AgreesObject(E, m, a, refs, refs');
    j, x := LateFields(E, m, 0, a, false, s, tail, refs', late, buf, p, G', |G|, 0, osU, s.obj);
  }

  lemma {:induction false} WithinSize(T: Table, m: nat, o: nat, x: nat)
    requires GoodTable(T) && m < |T|
    ensures !Beyond(T, m, 0, o, x) ==> o <= x < o + Size(InfoOf(T, m))
  {
    if !Beyond(T, m, 0, o, x) {
      var i :| 0 <= i < |FieldsOf(T, m)| && InField(T, m, i, o, x);
      assert Fits(T, Size(InfoOf(T, m)), FieldsOf(T, m)[i]);
    }
  }

  lemma {:induction false} AgreesObject(E: Env, m: nat, a: nat, refs: seq<nat>, refs': seq<nat>)
    requires GoodHeap(E) && a in E.objs && E.objs[a].mi == m && InfoOf(E.T, m).Struct? && refs + [a] <= refs' <= E.refs
    ensures Agrees(E, Rank(E, |refs|), m, a, Load(E.mem, a, Size(InfoOf(E.T, m))), 0)
  {
    assert E.refs[|refs|] == refs'[|refs|] == (refs + [a])[|refs|];
    CopyAt(E, |E.refs|, |refs|);
  }
}
