/** Which records the serializer emits: no fault, no record twice, and exactly
    the objects reachable from the root, whatever the sharing and the cycles. */
module MarshalReach {
  import opened Bytes
  import opened Marshal
  import opened MarshalHeap
  import opened MarshalLookup
  import opened MarshalObject

  ghost predicate Distinct(s: seq<nat>)
  {
    forall i, j :: 0 <= i < j < |s| ==> s[i] != s[j]
  }

  /** All live pointers in fields k.. of the structure m at a, substructures
      included, aim into S. */
  ghost predicate AimsInto(E: Env, m: nat, k: nat, a: nat, S: set<nat>)
    decreases Size(InfoOf(E.T, m)), |FieldsOf(E.T, m)| - k, 1
  {
    k < |FieldsOf(E.T, m)| ==> FieldAims(E, m, k, a, S) && AimsInto(E, m, k + 1, a, S)
  }

  ghost predicate FieldAims(E: Env, m: nat, k: nat, a: nat, S: set<nat>)
    requires k < |FieldsOf(E.T, m)|
    decreases Size(InfoOf(E.T, m)), |FieldsOf(E.T, m)| - k, 0
  {
    var f := FieldsOf(E.T, m)[k];
    && (LivePointer(E, m, k, a) ==> Target(E, a + f.offset) in S)
    && (f.kind == Substruct && Extent(E.T, f) < Size(InfoOf(E.T, m)) ==> AimsInto(E, f.mi, 0, a + f.offset, S))
  }

  /** S is closed under following pointers. */
  ghost predicate Closed(E: Env, S: set<nat>)
  {
    forall t :: t in S && t in E.objs ==> AimsInto(E, E.objs[t].mi, 0, t, S)
  }

  function Elements(s: seq<nat>): set<nat>
  {
    set x | x in s
  }

  lemma {:induction false} AimsMono(E: Env, m: nat, k: nat, a: nat, S: set<nat>, S': set<nat>)
    requires S <= S' && AimsInto(E, m, k, a, S)
    ensures AimsInto(E, m, k, a, S')
    decreases Size(InfoOf(E.T, m)), |FieldsOf(E.T, m)| - k, 1
  {
    if k < |FieldsOf(E.T, m)| {
      FieldAimsMono(E, m, k, a, S, S');
      AimsMono(E, m, k + 1, a, S, S');
    }
  }

  lemma {:induction false} FieldAimsMono(E: Env, m: nat, k: nat, a: nat, S: set<nat>, S': set<nat>)
    requires S <= S' && k < |FieldsOf(E.T, m)| && FieldAims(E, m, k, a, S)
    ensures FieldAims(E, m, k, a, S')
    decreases Size(InfoOf(E.T, m)), |FieldsOf(E.T, m)| - k, 0
  {
    var f := FieldsOf(E.T, m)[k];
    if f.kind == Substruct && Extent(E.T, f) < Size(InfoOf(E.T, m)) {
      AimsMono(E, f.mi, 0, a + f.offset, S, S');
    }
  }

  /** A record the serializer may be asked for: an object, or a substructure. */
  ghost predicate Askable(E: Env, m: nat, a: nat, skip: bool, osize: int)
  {
    && TypedHeap(E) && m < |E.T|
    && if skip then InfoOf(E.T, m).Struct? && a < |E.mem| && Mapped(E.mem, a, Size(InfoOf(E.T, m))) &&
       WellTyped(E, m, a) && a !in E.objs
       else a in E.objs && E.objs[a].mi == m && (InfoOf(E.T, m).FixedString? ==> osize == E.objs[a].len)
  }

  /** What field k asks for is again askable. */
  lemma {:induction false} FieldAskable(E: Env, m: nat, k: nat, a: nat, osize: int)
    requires TypedHeap(E) && m < |E.T| && InfoOf(E.T, m).Struct? && k < |FieldsOf(E.T, m)| && WellTyped(E, m, a)
    requires Mapped(E.mem, a, Size(InfoOf(E.T, m))) && a < |E.mem|
    requires SerPlan(E.A, E.mem, FieldsOf(E.T, m)[k], a, osize).Visit?
    ensures var f := FieldsOf(E.T, m)[k];
      var step := SerPlan(E.A, E.mem, f, a, osize);
      Askable(E, f.mi, step.source, f.kind == Substruct, step.osize)
  {
    var f := FieldsOf(E.T, m)[k];
    assert Fits(E.T, Size(InfoOf(E.T, m)), f);
    if f.kind == Pointer {
      assert PointerOk(E, f, a);
    }
  }

  /** On a well-typed heap the serializer never reads unreadable memory. */
  lemma {:induction false} SerSucceeds(E: Env, m: nat, a: nat, skip: bool, refs: seq<nat>, osize: int)
    requires Askable(E, m, a, skip, osize)
    ensures Ser(E.A, E.T, E.mem, m, a, skip, refs, osize).Ok?
    decreases Left(|E.mem|, refs), 0, 0
  {
    if a !in refs {
      if !skip { assert ObjectOk(E, a); }
      if InfoOf(E.T, m).Struct? {
        LeftDrops(|E.mem|, refs, a);
        var obj := if skip then [] else Load(E.mem, a, Size(InfoOf(E.T, m)));
        FieldsSucceed(E, m, 0, a, skip, Turn(obj, HEADER + |obj|, refs + [a], osize));
      }
    }
  }

  lemma {:induction false} FieldsSucceed(E: Env, m: nat, k: nat, a: nat, skip: bool, s: Turn)
    requires TypedHeap(E) && m < |E.T| && InfoOf(E.T, m).Struct? && WellTyped(E, m, a)
    requires Mapped(E.mem, a, Size(InfoOf(E.T, m))) && a < |E.mem|
    ensures SerFields(E.A, E.T, E.mem, FieldsOf(E.T, m), k, a, skip, s.obj, s.len, s.refs, s.osize).FieldsOk?
    decreases Left(|E.mem|, s.refs), 1, |FieldsOf(E.T, m)| - k
  {
    hide Ser, WellTyped, Mapped, TypedHeap, Piece, Renumber, SerPlan;
    if k < |FieldsOf(E.T, m)| {
      var f := FieldsOf(E.T, m)[k];
      match SerPlan(E.A, E.mem, f, a, s.osize)
      case Pass => FieldsSucceed(E, m, k + 1, a, skip, s);
      case Visit(source, osize') =>
        FieldAskable(E, m, k, a, s.osize);
        SerSucceeds(E, f.mi, source, f.kind == Substruct, s.refs, osize');
        var r := Ser(E.A, E.T, E.mem, f.mi, source, f.kind == Substruct, s.refs, osize');
        LeftShrinks(|E.mem|, s.refs, r.refs);
        FieldsSucceed(E, m, k + 1, a, skip,
                      Turn(Renumber(E.A, f, skip, s.obj, r.refs, source), s.len + |Piece(s.len, r.out)|, r.refs,
                        osize'));
    }
  }

  /** No address is met twice: dummies 1..n, one record each. */
  lemma {:induction false} SerDistinct(E: Env, m: nat, a: nat, skip: bool, refs: seq<nat>, osize: int)
    requires ValidArch(E.A) && Distinct(refs) && Ser(E.A, E.T, E.mem, m, a, skip, refs, osize).Ok?
    ensures Distinct(Ser(E.A, E.T, E.mem, m, a, skip, refs, osize).refs)
    decreases Left(|E.mem|, refs), 0, 0
  {
    if a !in refs {
      assert Distinct(refs + [a]);
      if InfoOf(E.T, m).Struct? {
        LeftDrops(|E.mem|, refs, a);
        var obj := if skip then [] else Load(E.mem, a, Size(InfoOf(E.T, m)));
        FieldsDistinct(E, m, 0, a, skip, Turn(obj, HEADER + |obj|, refs + [a], osize));
      }
    }
  }

  lemma {:induction false} FieldsDistinct(E: Env, m: nat, k: nat, a: nat, skip: bool, s: Turn)
    requires ValidArch(E.A) && Distinct(s.refs)
    requires SerFields(E.A, E.T, E.mem, FieldsOf(E.T, m), k, a, skip, s.obj, s.len, s.refs, s.osize).FieldsOk?
    ensures Distinct(SerFields(E.A, E.T, E.mem, FieldsOf(E.T, m), k, a, skip, s.obj, s.len, s.refs, s.osize).refs)
    decreases Left(|E.mem|, s.refs), 1, |FieldsOf(E.T, m)| - k
  {
    hide Ser, Piece, Renumber, SerPlan;
    if k < |FieldsOf(E.T, m)| {
      var f := FieldsOf(E.T, m)[k];
      var t, out := SerTurn(E.A, E.T, E.mem, FieldsOf(E.T, m), k, a, skip, s);
      var step := SerPlan(E.A, E.mem, f, a, s.osize);
      LeftShrinks(|E.mem|, s.refs, t.refs);
      if step.Visit? {
        SerDistinct(E, f.mi, step.source, f.kind == Substruct, s.refs, step.osize);
      }
      FieldsDistinct(E, m, k + 1, a, skip, t);
    }
  }

  /** Nothing outside a closed set that holds the root is ever met. */
  lemma {:induction false} SerStays(E: Env, m: nat, a: nat, skip: bool, refs: seq<nat>, osize: int, S: set<nat>)
    requires Askable(E, m, a, skip, osize) && Closed(E, S) && Ser(E.A, E.T, E.mem, m, a, skip, refs, osize).Ok?
    requires if skip then AimsInto(E, m, 0, a, S) else a in S
    requires forall t :: t in refs && t in E.objs ==> t in S
    ensures forall t :: t in Ser(E.A, E.T, E.mem, m, a, skip, refs, osize).refs && t in E.objs ==> t in S
    decreases Left(|E.mem|, refs), 0, 0
  {
    if a !in refs && InfoOf(E.T, m).Struct? {
      var s := SerStruct(E.A, E.T, E.mem, m, a, skip, refs, osize);
      hide Ser, SerFields, AimsInto;
      if !skip { assert ObjectOk(E, a); }
      LeftDrops(|E.mem|, refs, a);
      FieldsStay(E, m, 0, a, skip, s, S);
    }
  }

  lemma {:induction false} FieldsStay(E: Env, m: nat, k: nat, a: nat, skip: bool, s: Turn, S: set<nat>)
    requires TypedHeap(E) && m < |E.T| && InfoOf(E.T, m).Struct? && WellTyped(E, m, a) && Closed(E, S)
    requires Mapped(E.mem, a, Size(InfoOf(E.T, m))) && a < |E.mem| && AimsInto(E, m, k, a, S)
    requires SerFields(E.A, E.T, E.mem, FieldsOf(E.T, m), k, a, skip, s.obj, s.len, s.refs, s.osize).FieldsOk?
    requires forall t :: t in s.refs && t in E.objs ==> t in S
    ensures var r := SerFields(E.A, E.T, E.mem, FieldsOf(E.T, m), k, a, skip, s.obj, s.len, s.refs, s.osize);
      forall t :: t in r.refs && t in E.objs ==> t in S
    decreases Left(|E.mem|, s.refs), 1, |FieldsOf(E.T, m)| - k
  {
    hide Ser, Piece, Renumber;
    if k < |FieldsOf(E.T, m)| {
      var f := FieldsOf(E.T, m)[k];
      var t, out := SerTurn(E.A, E.T, E.mem, FieldsOf(E.T, m), k, a, skip, s);
      var step := SerPlan(E.A, E.mem, f, a, s.osize);
      LeftShrinks(|E.mem|, s.refs, t.refs);
      if step.Visit? {
        FieldAskable(E, m, k, a, s.osize);
        assert Fits(E.T, Size(InfoOf(E.T, m)), f);
        SerStays(E, f.mi, step.source, f.kind == Substruct, s.refs, step.osize, S);
      }
      FieldsStay(E, m, k + 1, a, skip, t, S);
    }
  }

  // ---------- Closure ----------

  /** Every object met since `refs` has all its targets among those met. */
  ghost predicate Explored(E: Env, refs: seq<nat>, refs': seq<nat>)
  {
    forall t :: t in refs' && t !in refs && t in E.objs ==> AimsInto(E, E.objs[t].mi, 0, t, Elements(refs'))
  }

  lemma {:induction false} ExploredTrans(E: Env, x: seq<nat>, y: seq<nat>, z: seq<nat>)
    requires x <= y <= z && Explored(E, x, y) && Explored(E, y, z)
    ensures Explored(E, x, z) && Elements(y) <= Elements(z)
  {
    assert Elements(y) <= Elements(z);
    forall t | t in z && t !in x && t in E.objs ensures AimsInto(E, E.objs[t].mi, 0, t, Elements(z)) {
      if t in y {
        AimsMono(E, E.objs[t].mi, 0, t, Elements(y), Elements(z));
      }
    }
  }

  lemma {:induction false} SerCloses(E: Env, m: nat, a: nat, skip: bool, refs: seq<nat>, osize: int)
    requires Askable(E, m, a, skip, osize) && Ser(E.A, E.T, E.mem, m, a, skip, refs, osize).Ok?
    requires Substruct !in Ser(E.A, E.T, E.mem, m, a, skip, refs, osize).late
    ensures Explored(E, refs, Ser(E.A, E.T, E.mem, m, a, skip, refs, osize).refs)
    ensures skip && a !in refs ==> AimsInto(E, m, 0, a, Elements(Ser(E.A, E.T, E.mem, m, a, skip, refs, osize).refs))
    decreases Left(|E.mem|, refs), 0, 0
  {
    if a !in refs && InfoOf(E.T, m).Struct? {
      var s := SerStruct(E.A, E.T, E.mem, m, a, skip, refs, osize);
      hide Ser, SerFields, AimsInto;
      if !skip { assert ObjectOk(E, a); }
      LeftDrops(|E.mem|, refs, a);
      FieldsClose(E, m, 0, a, skip, s);
    }
  }

  lemma {:induction false} FieldCloses(E: Env, m: nat, k: nat, a: nat, skip: bool, s: Turn) returns (t: Turn)
    requires TypedHeap(E) && m < |E.T| && InfoOf(E.T, m).Struct? && WellTyped(E, m, a)
    requires Mapped(E.mem, a, Size(InfoOf(E.T, m))) && a < |E.mem| && k < |FieldsOf(E.T, m)|
    requires LoopOf(E, m, k, a, skip, s).FieldsOk? && Substruct !in LoopOf(E, m, k, a, skip, s).late
    ensures s.refs <= t.refs && Explored(E, s.refs, t.refs) && FieldAims(E, m, k, a, Elements(t.refs))
    ensures Left(|E.mem|, t.refs) <= Left(|E.mem|, s.refs)
    ensures LoopOf(E, m, k + 1, a, skip, t).FieldsOk? && Substruct !in LoopOf(E, m, k + 1, a, skip, t).late
    ensures LoopOf(E, m, k + 1, a, skip, t).refs == LoopOf(E, m, k, a, skip, s).refs
    decreases Left(|E.mem|, s.refs), 0, 1
  {
    hide Ser, SerFields, Piece, Renumber;
    var out;
    t, out := SerTurn(E.A, E.T, E.mem, FieldsOf(E.T, m), k, a, skip, s);
    LeftShrinks(|E.mem|, s.refs, t.refs);
    var f := FieldsOf(E.T, m)[k];
    var step := SerPlan(E.A, E.mem, f, a, s.osize);
    if step.Visit? {
      FieldAskable(E, m, k, a, s.osize);
      assert Fits(E.T, Size(InfoOf(E.T, m)), f);
      SerFacts(E.A, E.T, E.mem, f.mi, step.source, f.kind == Substruct, s.refs, step.osize);
      SerCloses(E, f.mi, step.source, f.kind == Substruct, s.refs, step.osize);
    }
  }

  /** The serializer's loop from field k on. */
  function LoopOf(E: Env, m: nat, k: nat, a: nat, skip: bool, s: Turn): FieldsResult
  {
    SerFields(E.A, E.T, E.mem, FieldsOf(E.T, m), k, a, skip, s.obj, s.len, s.refs, s.osize)
  }

  lemma {:induction false} FieldsClose(E: Env, m: nat, k: nat, a: nat, skip: bool, s: Turn)
    requires TypedHeap(E) && m < |E.T| && InfoOf(E.T, m).Struct? && WellTyped(E, m, a)
    requires Mapped(E.mem, a, Size(InfoOf(E.T, m))) && a < |E.mem|
    requires LoopOf(E, m, k, a, skip, s).FieldsOk? && Substruct !in LoopOf(E, m, k, a, skip, s).late
    ensures Explored(E, s.refs, LoopOf(E, m, k, a, skip, s).refs)
    ensures AimsInto(E, m, k, a, Elements(LoopOf(E, m, k, a, skip, s).refs))
    decreases Left(|E.mem|, s.refs), 1, |FieldsOf(E.T, m)| - k
  {
    if k < |FieldsOf(E.T, m)| {
      hide SerFields, Explored, FieldAims;
      var t := FieldCloses(E, m, k, a, skip, s);
      FieldsClose(E, m, k + 1, a, skip, t);
      var refs := LoopOf(E, m, k + 1, a, skip, t).refs;
      ExploredTrans(E, s.refs, t.refs, refs);
      FieldAimsMono(E, m, k, a, Elements(t.refs), Elements(refs));
    }
  }
}
