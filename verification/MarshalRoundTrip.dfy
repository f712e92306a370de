/** The unserializer follows the serializer record by record. */
module MarshalRoundTrip {
  import opened Bytes
  import opened Marshal
  import opened MarshalHeap
  import opened MarshalLookup
  import opened MarshalPatch
  import opened MarshalObject
  import opened MarshalPending
  import opened MarshalGrow

  /** Block b of G holds, at offset o, the structure m copied from a, with fields
      k.. still pending; the blocks match the first n addresses met. */
  ghost predicate InStep(E: Env, m: nat, k: nat, a: nat, skip: bool, n: nat, G: seq<Block>, b: nat, o: nat)
  {
    && GoodHeap(E) && m < |E.T| && InfoOf(E.T, m).Struct? && WellTyped(E, m, a)
    && n <= |E.refs| && Tracks(E, n, G)
    && b < |G| && o + Size(InfoOf(E.T, m)) <= |G[b].data|
    && Pending(E, m, k, a, skip, G[b].data, o)
  }

  /** What settling field k must do to the blocks. */
  ghost predicate Settles(E: Env, m: nat, k: nat, a: nat, G: seq<Block>, b: nat, o: nat, osU: int)
    requires k < |FieldsOf(E.T, m)| && b < |G|
  {
    UnPlan(E.A, FieldsOf(E.T, m)[k], G, b, o, osU) == Settled(SetData(G, b, PatchField(E, m, k, a, G[b].data, o)))
  }

  /** A null pointer stays null. */
  lemma {:induction false} NullSettles(E: Env, m: nat, k: nat, a: nat, skip: bool, n: nat, G: seq<Block>, b: nat,
      o: nat, osU: int)
    requires InStep(E, m, k, a, skip, n, G, b, o) && k < |FieldsOf(E.T, m)|
    requires FieldsOf(E.T, m)[k].kind == Pointer && !LivePointer(E, m, k, a)
    ensures Settles(E, m, k, a, G, b, o, osU)
  {
    hide Patch, Write, Tracks, CopyOf, WellTyped, ObjectOk, Find;
    var f := FieldsOf(E.T, m)[k];
    var slot := Load(E.mem, a + f.offset, PTR);
    assert Fits(E.T, Size(InfoOf(E.T, m)), f);
    assert PendingField(E, f, a, skip, G[b].data, o);
    assert E.A.dec(slot) == 0 && E.A.enc(0) == slot;
    WriteSame(G[b].data, o + f.offset, slot);
    assert SetData(G, b, G[b].data) == G;
  }

  /** Fields the serializer passes over are settled in place. */
  lemma {:induction false} PassSettles(E: Env, m: nat, k: nat, a: nat, skip: bool, n: nat, G: seq<Block>, b: nat,
      o: nat, osS: int, osU: int)
    requires InStep(E, m, k, a, skip, n, G, b, o) && k < |FieldsOf(E.T, m)|
    requires SerPlan(E.A, E.mem, FieldsOf(E.T, m)[k], a, osS).Pass?
    ensures Settles(E, m, k, a, G, b, o, osU)
  {
    if FieldsOf(E.T, m)[k].kind == Pointer {
      NullSettles(E, m, k, a, skip, n, G, b, o, osU);
    }
  }

  /** A pending pointer holds the dummy of its target. */
  lemma {:induction false} MetSlot(E: Env, m: nat, k: nat, a: nat, n: nat, G: seq<Block>, b: nat, o: nat)
    returns (i: nat)
    requires InStep(E, m, k, a, false, n, G, b, o) && k < |FieldsOf(E.T, m)| && LivePointer(E, m, k, a)
    requires Target(E, a + FieldsOf(E.T, m)[k].offset) in E.refs[..n]
    ensures i < n <= |E.refs| && E.refs[i] in E.objs
    ensures i == IndexOf(E.refs, Target(E, a + FieldsOf(E.T, m)[k].offset))
    ensures E.A.dec(Peek(G, b, o + FieldsOf(E.T, m)[k].offset, PTR)) == i + 1
  {
    hide Tracks, IndexOf, ObjectOk, Load;
    var f := FieldsOf(E.T, m)[k];
    var t := Target(E, a + f.offset);
    assert PendingField(E, f, a, false, G[b].data, o);
    assert PointerOk(E, f, a);
    IndexOfPrefix(E.refs, n, t);
    i := IndexOf(E.refs, t);
  }

  /** A pointer whose target is already serialized finds the target's block. */
  lemma {:induction false} MetSettles(E: Env, m: nat, k: nat, a: nat, n: nat, G: seq<Block>, b: nat, o: nat, osU: int)
    requires InStep(E, m, k, a, false, n, G, b, o) && k < |FieldsOf(E.T, m)| && LivePointer(E, m, k, a)
    requires Target(E, a + FieldsOf(E.T, m)[k].offset) in E.refs[..n]
    ensures Settles(E, m, k, a, G, b, o, osU)
  {
    hide Patch, Write, IndexOf, GoodHeap, Find, Load, WellTyped, Pending, Tracks, Peek;
    var i := MetSlot(E, m, k, a, n, G, b, o);
    FindMet(E, n, G, i);
  }

  /** A substructure, or a pointer whose target is new, is parsed. */
  lemma {:induction false} NewParses(E: Env, m: nat, k: nat, a: nat, skip: bool, n: nat, G: seq<Block>, b: nat, o: nat,
      osS: int, osU: int)
    returns (os: int)
    requires InStep(E, m, k, a, skip, n, G, b, o) && k < |FieldsOf(E.T, m)|
    requires var f := FieldsOf(E.T, m)[k];
      var step := SerPlan(E.A, E.mem, f, a, osS);
      && step.Visit? && step.source !in E.refs[..n]
      && (f.kind == Pointer ==> n < |E.refs| && E.refs[n] == step.source)
    ensures UnPlan(E.A, FieldsOf(E.T, m)[k], G, b, o, osU) == Parse(os)
    ensures var f := FieldsOf(E.T, m)[k];
      f.kind == Pointer && InfoOf(E.T, f.mi).FixedString? ==> os == SerPlan(E.A, E.mem, f, a, osS).osize
  {
    hide Patch, PatchField, Write, IndexOf, ObjectOk, Find;
    var f := FieldsOf(E.T, m)[k];
    assert PendingField(E, f, a, skip, G[b].data, o);
    assert Fits(E.T, Size(InfoOf(E.T, m)), f);
    if f.kind == Pointer {
      var t := Target(E, a + f.offset);
      assert PointerOk(E, f, a);
      IndexOfNew(E.refs, n, t);
      FindUnmet(E, n, G, if skip then t else n + 1);
    }
    os := UnPlan(E.A, f, G, b, o, osU).osize;
  }

  lemma {:induction false} UnSettled(A: Arch, T: Table, fields: seq<Field>, k: nat, buf: seq<byte>, p: nat, total: nat,
      G: seq<Block>, b: nat, o: nat, osize: int, G': seq<Block>)
    requires HEADER <= total && p + total <= |buf| && k < |fields|
    requires UnPlan(A, fields[k], G, b, o, osize) == Settled(G')
    ensures UnFields(A, T, fields, k, buf, p, total, G, b, o, osize) ==
      UnFields(A, T, fields, k + 1, buf, p, total, G', b, o, osize)
  {
  }

  lemma {:induction false} UnParsed(A: Arch, T: Table, fields: seq<Field>, k: nat, buf: seq<byte>, p: nat, total: nat,
      G: seq<Block>, b: nat, o: nat, osize: int, os: int, n: nat, G': seq<Block>)
    requires HEADER <= total && p + (total + PadLen(total)) <= |buf| && k < |fields|
    requires UnPlan(A, fields[k], G, b, o, osize) == Parse(os)
    requires Un(A, T, fields[k].mi, buf, p + (total + PadLen(total)), G, b, o + fields[k].offset, fields[k].kind ==
      Substruct, os) == Done(n, G')
    ensures UnFields(A, T, fields, k, buf, p, total, G, b, o, osize)
         == UnFields(A, T, fields, k + 1, buf, p, total + PadLen(total) + n, Link(A, fields[k], |G|, G', b, o), b, o,
           os)
  {
  }

  /** The block just parsed for a new target is the one its copy should have. */
  lemma {:induction false} LinkNew(E: Env, m: nat, k: nat, a: nat, n: nat, n': nat, G: seq<Block>, b: nat, o: nat)
    requires k < |FieldsOf(E.T, m)| && LivePointer(E, m, k, a)
    requires n < n' <= |E.refs| && E.refs[n] == Target(E, a + FieldsOf(E.T, m)[k].offset) && E.refs[n] !in E.refs[..n]
    requires Tracks(E, n, G) && b < |G|
    ensures Link(E.A, FieldsOf(E.T, m)[k], |G|, Grow(E, G, n'), b, o)
         == After(E, G, b, PatchField(E, m, k, a, G[b].data, o), n')
  {
    IndexOfNew(E.refs, n, E.refs[n]);
    GrowTracks(E, G, n, n');
    assert Grow(E, G, n')[b] == G[b];
  }

  // ---------- Strings ----------

  lemma {:induction false} StrLenLoad(mem: Mem, a: nat, n: nat, buf: seq<byte>, p: nat)
    requires StrLen(mem, a) == Some(n) && Holds(buf, p, Load(mem, a, n + 1))
    ensures StrNLen(buf, p) == n
    decreases n
  {
    var L := Load(mem, a, n + 1);
    assert buf[p] == buf[p..p + |L|][0] == L[0] == At(mem, a);
    if n > 0 {
      assert L == [L[0]] + Load(mem, a + 1, n);
      HoldsBoth(buf, p, [L[0]], Load(mem, a + 1, n));
      StrLenLoad(mem, a + 1, n - 1, buf, p + 1);
    }
  }

  lemma {:induction false} GrowByOne(E: Env, refs: seq<nat>, a: nat, G: seq<Block>)
    requires refs + [a] <= E.refs && Tracks(E, |refs|, G) && a in E.objs
    ensures Grow(E, G, |refs| + 1) == G + [Block(|refs| + 1, Image(E, a))]
  {
    assert E.refs[|refs|] == (refs + [a])[|refs|];
    AfterNew(E, G, |refs|, |refs| + 1, Image(E, a));
  }

  /** What an object's record looks like when it is a string. */
  lemma {:induction false} StringRecord(E: Env, m: nat, a: nat, refs: seq<nat>, osS: int)
    requires GoodHeap(E) && m < |E.T| && !InfoOf(E.T, m).Struct? && a !in refs
    requires a in E.objs && E.objs[a].mi == m && (InfoOf(E.T, m).FixedString? ==> osS == E.objs[a].len)
    ensures Ser(E.A, E.T, E.mem, m, a, false, refs, osS)
         == Ok(Record(E.A, |refs| + 1, Load(E.mem, a, E.objs[a].len), []), refs + [a], {})
  {
    assert ObjectOk(E, a);
  }

  lemma {:induction false} SimString(E: Env, m: nat, a: nat, refs: seq<nat>, osS: int, buf: seq<byte>, p: nat,
      G: seq<Block>, b: nat, o: nat, osU: int)
    requires GoodHeap(E) && m < |E.T| && !InfoOf(E.T, m).Struct? && a !in refs
    requires a in E.objs && E.objs[a].mi == m && (InfoOf(E.T, m).FixedString? ==> osS == osU == E.objs[a].len)
    requires refs + [a] <= E.refs && Tracks(E, |refs|, G)
    requires Holds(buf, p, Record(E.A, |refs| + 1, Load(E.mem, a, E.objs[a].len), []))
    ensures Un(E.A, E.T, m, buf, p, G, b, o, false, osU)
         == Done(HEADER + E.objs[a].len, G + [Block(|refs| + 1, Image(E, a))])
  {
    hide Tracks, Patch, StrNLen, Record, WellTyped, UnFields, Rank;
    assert ObjectOk(E, a);
    var obj := Load(E.mem, a, E.objs[a].len);
    HoldsRecord(E.A, buf, p, |refs| + 1, obj, []);
    assert |refs| + 1 == |refs + [a]|;
    assert E.A.dec(Slice(buf, p, PTR)) == |refs| + 1;
    if InfoOf(E.T, m).NullString? {
      assert Holds(buf, p + HEADER, obj);
      StrLenLoad(E.mem, a, E.objs[a].len - 1, buf, p + HEADER);
    }
  }

  // ---------- Structures ----------

  /** The serializer's loop goes from field k in state s to the end, appending
      `tail` and meeting `refs'`; the tail is in the buffer of the record at p. */
  ghost predicate Loop(E: Env, m: nat, k: nat, a: nat, skip: bool, s: Turn, tail: seq<byte>, refs': seq<nat>,
      late: set<Kind>, buf: seq<byte>, p: nat)
  {
    var r := SerFields(E.A, E.T, E.mem, FieldsOf(E.T, m), k, a, skip, s.obj, s.len, s.refs, s.osize);
    && r.FieldsOk? && r.late == late && r.tail == tail && r.refs == refs'
    && s.refs <= E.refs && refs' <= E.refs
    && HEADER <= s.len && Holds(buf, p + s.len, tail)
  }

  /** A record about to be parsed: its bytes are at p, and its content is either
      already in place (a substructure) or to be allocated (an object). */
  ghost predicate Ready(E: Env, m: nat, a: nat, skip: bool, refs: seq<nat>, osS: int, out: seq<byte>, refs': seq<nat>,
      late: set<Kind>, buf: seq<byte>, p: nat, G: seq<Block>, b: nat, o: nat, osU: int)
  {
    && GoodHeap(E) && m < |E.T| && refs <= E.refs && a !in refs && Tracks(E, |refs|, G)
    && Ser(E.A, E.T, E.mem, m, a, skip, refs, osS) == Ok(out, refs', late)
    && refs' <= E.refs && Holds(buf, p, out)
    && if skip then
         && InfoOf(E.T, m).Struct? && WellTyped(E, m, a) && a !in E.objs
         && b < |G| && o + Size(InfoOf(E.T, m)) <= |G[b].data|
         && Slice(G[b].data, o, Size(InfoOf(E.T, m))) == Load(E.mem, a, Size(InfoOf(E.T, m)))
       else
         && a in E.objs && E.objs[a].mi == m
         && (InfoOf(E.T, m).FixedString? ==> osS == osU == E.objs[a].len)
  }

  /** The blocks once that record has been parsed. */
  function ParsedBlocks(E: Env, m: nat, a: nat, skip: bool, G: seq<Block>, b: nat, o: nat, n: nat): seq<Block>
    requires skip ==> b < |G|
  {
    if skip then After(E, G, b, Patch(E, m, 0, a, G[b].data, o), n) else Grow(E, G, n)
  }

  /** When the serializer visits a new record, that record is ready to parse. */
  lemma {:induction false} VisitReady(E: Env, m: nat, k: nat, a: nat, skip: bool, s: Turn, t: Turn, out: seq<byte>,
      late: set<Kind>, buf: seq<byte>, p: nat, G: seq<Block>, b: nat, o: nat, os: int)
    requires InStep(E, m, k, a, skip, |s.refs|, G, b, o) && k < |FieldsOf(E.T, m)|
    requires s.refs <= E.refs && t.refs <= E.refs
    requires var f := FieldsOf(E.T, m)[k];
      var step := SerPlan(E.A, E.mem, f, a, s.osize);
      && step.Visit? && step.source !in s.refs
      && Ser(E.A, E.T, E.mem, f.mi, step.source, f.kind == Substruct, s.refs, step.osize) == Ok(out, t.refs, late)
      && Holds(buf, p, out)
      && (f.kind == Pointer && InfoOf(E.T, f.mi).FixedString? ==> os == step.osize)
    ensures var f := FieldsOf(E.T, m)[k];
      var step := SerPlan(E.A, E.mem, f, a, s.osize);
      Ready(E, f.mi, step.source, f.kind ==
        Substruct, s.refs, step.osize, out, t.refs, late, buf, p, G, b, o + f.offset, os)
  {
    hide Ser, Tracks, Holds, ObjectOk;
    var f := FieldsOf(E.T, m)[k];
    assert Fits(E.T, Size(InfoOf(E.T, m)), f);
    assert PendingField(E, f, a, skip, G[b].data, o);
    if f.kind == Pointer {
      assert PointerOk(E, f, a);
    }
  }

  /** The unserializer's loop at field k has the effect of patching that field. */
  ghost predicate Advances(E: Env, m: nat, k: nat, a: nat, s: Turn, t: Turn, buf: seq<byte>, p: nat, G: seq<Block>,
      b: nat, o: nat, osU: int, os: int)
    requires HEADER <= s.len && p + s.len <= |buf| && HEADER <= t.len && p + t.len <= |buf|
    requires k < |FieldsOf(E.T, m)| && b < |G|
  {
    UnFields(E.A, E.T, FieldsOf(E.T, m), k, buf, p, s.len, G, b, o, osU)
    == UnFields(E.A, E.T, FieldsOf(E.T, m), k + 1, buf, p, t.len,
                After(E, G, b, PatchField(E, m, k, a, G[b].data, o), |t.refs|), b, o, os)
  }

  lemma {:induction false} SettledAdvances(E: Env, m: nat, k: nat, a: nat, skip: bool, s: Turn, buf: seq<byte>, p: nat,
      G: seq<Block>, b: nat, o: nat, osU: int)
    requires InStep(E, m, k, a, skip, |s.refs|, G, b, o) && k < |FieldsOf(E.T, m)|
    requires HEADER <= s.len && p + s.len <= |buf| && Settles(E, m, k, a, G, b, o, osU)
    ensures Advances(E, m, k, a, s, s, buf, p, G, b, o, osU, osU)
  {
    GrowHere(E, G, |s.refs|);
    UnSettled(E.A, E.T, FieldsOf(E.T, m), k, buf, p, s.len, G, b, o, osU,
      SetData(G, b, PatchField(E, m, k, a, G[b].data, o)));
  }

  lemma {:induction false} LinkParsed(E: Env, m: nat, k: nat, a: nat, skip: bool, s: Turn, t: Turn, source: nat,
      G: seq<Block>, b: nat, o: nat)
    requires InStep(E, m, k, a, skip, |s.refs|, G, b, o) && k < |FieldsOf(E.T, m)|
    requires s.refs <= E.refs && t.refs <= E.refs
    requires var f := FieldsOf(E.T, m)[k];
      if f.kind == Substruct then source == a + f.offset
      else
        && LivePointer(E, m, k, a) && source == Target(E, a + f.offset)
        && source !in s.refs && s.refs + [source] <= t.refs
    ensures var f := FieldsOf(E.T, m)[k];
      Link(E.A, f, |G|, ParsedBlocks(E, f.mi, source, f.kind == Substruct, G, b, o + f.offset, |t.refs|), b, o)
      == After(E, G, b, PatchField(E, m, k, a, G[b].data, o), |t.refs|)
  {
    var f := FieldsOf(E.T, m)[k];
    assert Fits(E.T, Size(InfoOf(E.T, m)), f);
    if f.kind == Pointer {
      var n := |s.refs|;
      assert t.refs[n] == (s.refs + [source])[n];
      assert E.refs[..n] == s.refs;
      LinkNew(E, m, k, a, n, |t.refs|, G, b, o);
    }
  }

  lemma {:induction false} ParsedAdvances(E: Env, m: nat, k: nat, a: nat, s: Turn, t: Turn, out: seq<byte>,
      buf: seq<byte>, p: nat, G: seq<Block>, b: nat, o: nat, osU: int, os: int, G': seq<Block>)
    requires k < |FieldsOf(E.T, m)| && b < |G|
    requires HEADER <= s.len && out != [] && t.len == s.len + |Piece(s.len, out)| && p + t.len <= |buf|
    requires UnPlan(E.A, FieldsOf(E.T, m)[k], G, b, o, osU) == Parse(os)
    requires var f := FieldsOf(E.T, m)[k];
      && Un(E.A, E.T, f.mi, buf, p + (s.len + PadLen(s.len)), G, b, o + f.offset, f.kind == Substruct, os) ==
         Done(|out|, G')
      && Link(E.A, f, |G|, G', b, o) == After(E, G, b, PatchField(E, m, k, a, G[b].data, o), |t.refs|)
    ensures Advances(E, m, k, a, s, t, buf, p, G, b, o, osU, os)
  {
    hide Un, UnFields, UnPlan, Patch, PatchField, After, Link;
    UnParsed(E.A, E.T, FieldsOf(E.T, m), k, buf, p, s.len, G, b, o, osU, os, |out|, G');
    assert t.len == s.len + PadLen(s.len) + |out|;
  }

  /** The serializer's turn leaves the rest of the loop in the same situation. */
  lemma {:induction false} LoopNext(E: Env, m: nat, k: nat, a: nat, skip: bool, s: Turn, tail: seq<byte>,
      refs': seq<nat>, late: set<Kind>, buf: seq<byte>, p: nat)
    returns (t: Turn, out: seq<byte>, tail': seq<byte>, late': set<Kind>)
    requires ValidArch(E.A) && Loop(E, m, k, a, skip, s, tail, refs', late, buf, p) && k < |FieldsOf(E.T, m)|
    ensures Loop(E, m, k + 1, a, skip, t, tail', refs', late', buf, p) && s.refs <= t.refs <= E.refs &&
      |t.refs| <= |refs'|
    ensures t.len == s.len + |Piece(s.len, out)| && p + t.len <= |buf| && s.len + |tail| == t.len + |tail'|
    ensures out != [] ==> Holds(buf, p + (s.len + PadLen(s.len)), out)
    ensures var f := FieldsOf(E.T, m)[k];
      match SerPlan(E.A, E.mem, f, a, s.osize)
      case Pass => out == [] && t == s && late' == late
      case Visit(source, osize') =>
        var r := Ser(E.A, E.T, E.mem, f.mi, source, f.kind == Substruct, s.refs, osize');
        && r.Ok? && r.out == out && r.refs == t.refs
        && late == r.late + late' + TooLate(f, skip, source, s.refs)
  {
    hide Ser, SerFields, SerPlan, Renumber, TooLate, PadLen, Zeros;
    t, out := SerTurn(E.A, E.T, E.mem, FieldsOf(E.T, m), k, a, skip, s);
    var r := SerFields(E.A, E.T, E.mem, FieldsOf(E.T, m), k + 1, a, skip, t.obj, t.len, t.refs, t.osize);
    tail', late' := r.tail, r.late;
    HoldsPiece(buf, p, s.len, out, tail');
    PrefixTrans(t.refs, refs', E.refs);
  }

  lemma {:induction false} PrefixTrans(x: seq<nat>, y: seq<nat>, z: seq<nat>)
    requires x <= y <= z
    ensures x <= z
  {
  }

  lemma {:induction false} SimTurn(E: Env, m: nat, k: nat, a: nat, skip: bool, s: Turn, t: Turn, out: seq<byte>,
      buf: seq<byte>, p: nat, G: seq<Block>, b: nat, o: nat, osU: int)
    returns (os: int)
    requires InStep(E, m, k, a, skip, |s.refs|, G, b, o) && k < |FieldsOf(E.T, m)|
    requires HEADER <= s.len && t.len == s.len + |Piece(s.len, out)| && p + t.len <= |buf|
    requires s.refs <= t.refs <= E.refs
    requires out != [] ==> Holds(buf, p + (s.len + PadLen(s.len)), out)
    requires var f := FieldsOf(E.T, m)[k];
      match SerPlan(E.A, E.mem, f, a, s.osize)
      case Pass => out == [] && t == s
      case Visit(source, osize') =>
        && Ser(E.A, E.T, E.mem, f.mi, source, f.kind == Substruct, s.refs, osize') == Ok(out, t.refs, {})
        && (f.kind == Substruct || skip ==> source !in s.refs)
    ensures Advances(E, m, k, a, s, t, buf, p, G, b, o, osU, os)
    decreases Left(|E.mem|, s.refs), 1, |FieldsOf(E.T, m)| - k, 0
  {
    hide Ser, Un, UnFields, Patch, PatchField, After, UnPlan, Link, Tracks, Holds, Pending, WellTyped, Settles;
    var f := FieldsOf(E.T, m)[k];
    assert E.refs[..|s.refs|] == s.refs;
    match SerPlan(E.A, E.mem, f, a, s.osize)
    case Pass =>
      PassSettles(E, m, k, a, skip, |s.refs|, G, b, o, s.osize, osU);
      SettledAdvances(E, m, k, a, skip, s, buf, p, G, b, o, osU);
      os := osU;
    case Visit(source, osize') =>
      SerFacts(E.A, E.T, E.mem, f.mi, source, f.kind == Substruct, s.refs, osize');
      if source in s.refs {
        MetSettles(E, m, k, a, |s.refs|, G, b, o, osU);
        SettledAdvances(E, m, k, a, skip, s, buf, p, G, b, o, osU);
        os := osU;
      } else {
        os := SimVisit(E, m, k, a, skip, s, t, out, buf, p, G, b, o, osU);
      }
  }

  lemma {:induction false} SimVisit(E: Env, m: nat, k: nat, a: nat, skip: bool, s: Turn, t: Turn, out: seq<byte>,
      buf: seq<byte>, p: nat, G: seq<Block>, b: nat, o: nat, osU: int)
    returns (os: int)
    requires InStep(E, m, k, a, skip, |s.refs|, G, b, o) && k < |FieldsOf(E.T, m)|
    requires HEADER <= s.len && t.len == s.len + |Piece(s.len, out)| && p + t.len <= |buf|
    requires s.refs <= t.refs <= E.refs && out != [] && Holds(buf, p + (s.len + PadLen(s.len)), out)
    requires var f := FieldsOf(E.T, m)[k];
      var step := SerPlan(E.A, E.mem, f, a, s.osize);
      && step.Visit? && step.source !in s.refs && s.refs + [step.source] <= t.refs
      && Ser(E.A, E.T, E.mem, f.mi, step.source, f.kind == Substruct, s.refs, step.osize) == Ok(out, t.refs, {})
    ensures Advances(E, m, k, a, s, t, buf, p, G, b, o, osU, os)
    decreases Left(|E.mem|, s.refs), 0, 1
  {
    hide Ser, Un, UnFields, Patch, PatchField, After, UnPlan, Link, Tracks, Holds, Pending, WellTyped, Ready, Advances,
      ParsedBlocks;
    var f := FieldsOf(E.T, m)[k];
    var step := SerPlan(E.A, E.mem, f, a, s.osize);
    var n := |s.refs|;
    assert if f.kind == Pointer then step.source == Target(E, a + f.offset) && LivePointer(E, m, k, a)
           else f.kind == Substruct && step.source == a + f.offset;
    LinkParsed(E, m, k, a, skip, s, t, step.source, G, b, o);
    assert E.refs[..n] == s.refs && E.refs[n] == t.refs[n] == (s.refs + [step.source])[n];
    os := NewParses(E, m, k, a, skip, n, G, b, o, s.osize, osU);
    var at := p + (s.len + PadLen(s.len));
    VisitReady(E, m, k, a, skip, s, t, out, {}, buf, at, G, b, o, os);
    SimRecord(E, f.mi, step.source, f.kind ==
      Substruct, s.refs, step.osize, out, t.refs, buf, at, G, b, o + f.offset, os);
    ParsedAdvances(E, m, k, a, s, t, out, buf, p, G, b, o, osU, os,
                   ParsedBlocks(E, f.mi, step.source, f.kind == Substruct, G, b, o + f.offset, |t.refs|));
  }

  /** Patching field k keeps the unserializer in step with the serializer. */
  lemma {:induction false} InStepNext(E: Env, m: nat, k: nat, a: nat, skip: bool, n: nat, n': nat, G: seq<Block>,
      b: nat, o: nat)
    requires InStep(E, m, k, a, skip, n, G, b, o) && k < |FieldsOf(E.T, m)| && n <= n' <= |E.refs|
    ensures InStep(E, m, k + 1, a, skip, n', After(E, G, b, PatchField(E, m, k, a, G[b].data, o), n'), b, o)
    ensures After(E, G, b, PatchField(E, m, k, a, G[b].data, o), n')[b].data == PatchField(E, m, k, a, G[b].data, o)
  {
    var D' := PatchField(E, m, k, a, G[b].data, o);
    AfterTracks(E, G, b, D', n, n');
    FieldOutside(E, m, k, a, G[b].data, o);
    PendingKept(E, m, k, a, skip, G[b].data, D', o);
  }

  lemma {:induction false} StepThenRest(E: Env, m: nat, k: nat, a: nat, s: Turn, t: Turn, buf: seq<byte>, p: nat,
      G: seq<Block>, b: nat, o: nat, osU: int, os: int, total: nat, n: nat)
    requires HEADER <= s.len && p + s.len <= |buf| && HEADER <= t.len && p + t.len <= |buf|
    requires k < |FieldsOf(E.T, m)| && b < |G| && Tracks(E, |s.refs|, G)
    requires |s.refs| <= |t.refs| <= n <= |E.refs|
    requires Advances(E, m, k, a, s, t, buf, p, G, b, o, osU, os)
    requires var D' := PatchField(E, m, k, a, G[b].data, o);
      var G' := After(E, G, b, D', |t.refs|);
      UnFields(E.A, E.T, FieldsOf(E.T, m), k + 1, buf, p, t.len, G', b, o, os)
      == Done(total, After(E, G', b, Patch(E, m, k + 1, a, D', o), n))
    ensures UnFields(E.A, E.T, FieldsOf(E.T, m), k, buf, p, s.len, G, b, o, osU)
         == Done(total, After(E, G, b, Patch(E, m, k, a, G[b].data, o), n))
  {
    var D' := PatchField(E, m, k, a, G[b].data, o);
    AfterAfter(E, G, b, D', Patch(E, m, k + 1, a, D', o), |s.refs|, |t.refs|, n);
  }

  lemma {:induction false} SimFieldsEnd(E: Env, m: nat, k: nat, a: nat, skip: bool, s: Turn, tail: seq<byte>,
      refs': seq<nat>, buf: seq<byte>, p: nat, G: seq<Block>, b: nat, o: nat, osU: int)
    requires k >= |FieldsOf(E.T, m)| && Tracks(E, |s.refs|, G) && b < |G|
    requires Loop(E, m, k, a, skip, s, tail, refs', {}, buf, p)
    ensures UnFields(E.A, E.T, FieldsOf(E.T, m), k, buf, p, s.len, G, b, o, osU)
         == Done(s.len + |tail|, After(E, G, b, Patch(E, m, k, a, G[b].data, o), |refs'|))
  {
    GrowHere(E, G, |s.refs|);
    assert SetData(G, b, G[b].data) == G;
  }

  /** One turn on both sides: the next field finds them in step again. */
  lemma {:induction false} SimStep(E: Env, m: nat, k: nat, a: nat, skip: bool, s: Turn, tail: seq<byte>,
      refs': seq<nat>, buf: seq<byte>, p: nat, G: seq<Block>, b: nat, o: nat, osU: int)
    returns (t: Turn, tail': seq<byte>, os: int)
    requires InStep(E, m, k, a, skip, |s.refs|, G, b, o) && Loop(E, m, k, a, skip, s, tail, refs', {}, buf, p) &&
      k < |FieldsOf(E.T, m)|
    ensures Loop(E, m, k + 1, a, skip, t, tail', refs', {}, buf, p) && |s.refs| <= |t.refs| <= |refs'|
    ensures Left(|E.mem|, t.refs) <= Left(|E.mem|, s.refs) && s.len + |tail| == t.len + |tail'|
    ensures Advances(E, m, k, a, s, t, buf, p, G, b, o, osU, os)
    decreases Left(|E.mem|, s.refs), 1, |FieldsOf(E.T, m)| - k, 1
  {
    var out, late';
    t, out, tail', late' := LoopNext(E, m, k, a, skip, s, tail, refs', {}, buf, p);
    os := SimTurn(E, m, k, a, skip, s, t, out, buf, p, G, b, o, osU);
    LeftShrinks(|E.mem|, s.refs, t.refs);
  }

  lemma {:induction false} SimFields(E: Env, m: nat, k: nat, a: nat, skip: bool, s: Turn, tail: seq<byte>,
      refs': seq<nat>, buf: seq<byte>, p: nat, G: seq<Block>, b: nat, o: nat, osU: int)
    requires InStep(E, m, k, a, skip, |s.refs|, G, b, o) && Loop(E, m, k, a, skip, s, tail, refs', {}, buf, p)
    ensures UnFields(E.A, E.T, FieldsOf(E.T, m), k, buf, p, s.len, G, b, o, osU)
         == Done(s.len + |tail|, After(E, G, b, Patch(E, m, k, a, G[b].data, o), |refs'|))
    decreases Left(|E.mem|, s.refs), 1, |FieldsOf(E.T, m)| - k, 2
  {
    hide SerFields, UnFields, Patch, PatchField, After;
    if k >= |FieldsOf(E.T, m)| {
      SimFieldsEnd(E, m, k, a, skip, s, tail, refs', buf, p, G, b, o, osU);
    } else {
      var t, tail', os := SimStep(E, m, k, a, skip, s, tail, refs', buf, p, G, b, o, osU);
      var G' := After(E, G, b, PatchField(E, m, k, a, G[b].data, o), |t.refs|);
      InStepNext(E, m, k, a, skip, |s.refs|, |t.refs|, G, b, o);
      SimFields(E, m, k + 1, a, skip, t, tail', refs', buf, p, G', b, o, os);
      StepThenRest(E, m, k, a, s, t, buf, p, G, b, o, osU, os, t.len + |tail'|, |refs'|);
    }
  }

  /** What the serializer does for a new structure, its output being in a buffer. */
  lemma {:induction false} StructLoop(E: Env, m: nat, a: nat, skip: bool, refs: seq<nat>, osS: int, out: seq<byte>,
      refs': seq<nat>, late: set<Kind>, buf: seq<byte>, p: nat)
    returns (s: Turn, obj: seq<byte>, tail: seq<byte>)
    requires ValidArch(E.A) && InfoOf(E.T, m).Struct? && a !in refs && refs' <= E.refs
    requires Ser(E.A, E.T, E.mem, m, a, skip, refs, osS) == Ok(out, refs', late) && Holds(buf, p, out)
    ensures s == Turn(if skip then [] else Load(E.mem, a, Size(InfoOf(E.T, m))), HEADER + |s.obj|, refs + [a], osS)
    ensures |obj| == |s.obj| && out == Record(E.A, |refs| + 1, obj, tail)
    ensures a < |E.mem| && refs + [a] <= refs'
    ensures SerFields(E.A, E.T, E.mem, FieldsOf(E.T, m), 0, a, skip, s.obj, s.len, s.refs, s.osize) ==
      FieldsOk(obj, tail, refs', late)
    ensures Loop(E, m, 0, a, skip, s, tail, refs', late, buf, p) && |out| == s.len + |tail|
  {
    hide Ser, SerFields, Record, Holds, Load;
    s := SerStruct(E.A, E.T, E.mem, m, a, skip, refs, osS);
    var r := SerFields(E.A, E.T, E.mem, FieldsOf(E.T, m), 0, a, skip, s.obj, s.len, s.refs, s.osize);
    obj, tail := r.obj, r.tail;
    SerLength(E, m, 0, a, skip, s);
    HoldsRecord(E.A, buf, p, |refs| + 1, obj, tail);
    PrefixTrans(s.refs, refs', E.refs);
  }

  lemma {:induction false} SimInside(E: Env, m: nat, a: nat, refs: seq<nat>, osS: int, out: seq<byte>, refs': seq<nat>,
      buf: seq<byte>, p: nat, G: seq<Block>, b: nat, o: nat, osU: int)
    requires Ready(E, m, a, true, refs, osS, out, refs', {}, buf, p, G, b, o, osU)
    ensures Un(E.A, E.T, m, buf, p, G, b, o, true, osU) == Done(|out|, ParsedBlocks(E, m, a, true, G, b, o, |refs'|))
    decreases Left(|E.mem|, refs), 0, 0, 0
  {
    hide Ser, SerFields, UnFields, Patch, WellTyped, Holds;
    var s, obj, tail := StructLoop(E, m, a, true, refs, osS, out, refs', {}, buf, p);
    PendingInside(E, m, a, G[b].data, o);
    assert E.refs[|refs|] == refs'[|refs|] == (refs + [a])[|refs|];
    assert Tracks(E, |refs| + 1, G);
    LeftDrops(|E.mem|, refs, a);
    SimFields(E, m, 0, a, true, s, tail, refs', buf, p, G, b, o, osU);
  }

  /** A new object's block, as first allocated, is in step with its fields. */
  lemma {:induction false} NewInStep(E: Env, m: nat, a: nat, refs: seq<nat>, osS: int, s: Turn, obj: seq<byte>,
      tail: seq<byte>, refs': seq<nat>, late: set<Kind>, G: seq<Block>)
    requires GoodHeap(E) && m < |E.T| && InfoOf(E.T, m).Struct? && a in E.objs && E.objs[a].mi == m
    requires refs + [a] <= refs' <= E.refs && Tracks(E, |refs|, G)
    requires s == Turn(Load(E.mem, a, Size(InfoOf(E.T, m))), HEADER + |s.obj|, refs + [a], osS) && |obj| == |s.obj|
    requires SerFields(E.A, E.T, E.mem, FieldsOf(E.T, m), 0, a, false, s.obj, s.len, s.refs, s.osize) ==
      FieldsOk(obj, tail, refs', late)
    ensures InStep(E, m, 0, a, false, |refs| + 1, G + [Block(|refs| + 1, obj)], |G|, 0)
    ensures After(E, G + [Block(|refs| + 1, obj)], |G|, Patch(E, m, 0, a, obj, 0), |refs'|) == Grow(E, G, |refs'|)
  {
    hide SerFields, Patch;
    assert ObjectOk(E, a);
    assert Rest(E, m, 0, a, s) == FieldsOk(obj, tail, refs', late);
    assert E.refs[|refs|] == refs'[|refs|] == (refs + [a])[|refs|];
    forall i | 0 <= i < |FieldsOf(E.T, m)| ensures PendingField(E, FieldsOf(E.T, m)[i], a, false, obj, 0) {
      PendingAtStart(E, m, a, s, i);
    }
    PatchSerialized(E, m, a, s);
    AfterNew(E, G, |refs|, |refs'|, obj);
  }

  lemma {:induction false} SimObject(E: Env, m: nat, a: nat, refs: seq<nat>, osS: int, out: seq<byte>, refs': seq<nat>,
      buf: seq<byte>, p: nat, G: seq<Block>, b: nat, o: nat, osU: int)
    requires Ready(E, m, a, false, refs, osS, out, refs', {}, buf, p, G, b, o, osU) && InfoOf(E.T, m).Struct?
    ensures Un(E.A, E.T, m, buf, p, G, b, o, false, osU) == Done(|out|, ParsedBlocks(E, m, a, false, G, b, o, |refs'|))
    decreases Left(|E.mem|, refs), 0, 0, 0
  {
    hide SerFields, Patch, Ser;
    var s, obj, tail := StructLoop(E, m, a, false, refs, osS, out, refs', {}, buf, p);
    HoldsRecord(E.A, buf, p, |refs| + 1, obj, tail);
    NewInStep(E, m, a, refs, osS, s, obj, tail, refs', {}, G);
    LeftDrops(|E.mem|, refs, a);
    var G' := G + [Block(|refs| + 1, obj)];
    SimFields(E, m, 0, a, false, s, tail, refs', buf, p, G', |G|, 0, osU);
    assert Alloc(E.A, buf, p, G, Slice(buf, p + HEADER, |obj|)) == G';
  }

  /** Parsing a record of the serializer gives the expected blocks. */
  lemma {:induction false} SimRecord(E: Env, m: nat, a: nat, skip: bool, refs: seq<nat>, osS: int, out: seq<byte>,
      refs': seq<nat>, buf: seq<byte>, p: nat, G: seq<Block>, b: nat, o: nat, osU: int)
    requires Ready(E, m, a, skip, refs, osS, out, refs', {}, buf, p, G, b, o, osU)
    ensures Un(E.A, E.T, m, buf, p, G, b, o, skip, osU) == Done(|out|, ParsedBlocks(E, m, a, skip, G, b, o, |refs'|))
    decreases Left(|E.mem|, refs), 0, 0, 1
  {
    hide Ser, Un, Patch, After, WellTyped, GoodTable;
    if skip {
      SimInside(E, m, a, refs, osS, out, refs', buf, p, G, b, o, osU);
    } else if InfoOf(E.T, m).Struct? {
      SimObject(E, m, a, refs, osS, out, refs', buf, p, G, b, o, osU);
    } else {
      StringRecord(E, m, a, refs, osS);
      HoldsRecord(E.A, buf, p, |refs| + 1, Load(E.mem, a, E.objs[a].len), []);
      SimString(E, m, a, refs, osS, buf, p, G, b, o, osU);
      GrowByOne(E, refs, a, G);
    }
  }
}
