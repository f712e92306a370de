/** When objects do not overlap in memory, no substructure is ever taken for a
    record already serialized. */
module MarshalSpace {
  import opened Bytes
  import opened Marshal
  import opened MarshalHeap
  import opened MarshalObject
  import opened MarshalReach

  /** Addresses an object stands for: even an empty one has its own. */
  function Room(E: Env, t: nat): nat
    requires t in E.objs
  {
    if E.objs[t].len == 0 then 1 else E.objs[t].len
  }

  ghost predicate Lives(E: Env, x: nat, t: nat)
  {
    t in E.objs && t <= x < t + Room(E, t)
  }

  ghost predicate Spaced(E: Env)
  {
    forall t, u :: t in E.objs && u in E.objs && t != u ==> Apart(t, Room(E, t), u, Room(E, u))
  }

  ghost predicate Met(refs: seq<nat>, x: nat)
  {
    x in refs
  }

  /** Every address met lies in an object that has been met. */
  ghost predicate Housed(E: Env, refs: seq<nat>)
  {
    forall x: nat :: Met(refs, x) ==> exists t :: t in refs && Lives(E, x, t)
  }

  /** What has been met since `refs` is in the n bytes at lo or in new objects. */
  ghost predicate NewIn(E: Env, refs: seq<nat>, refs': seq<nat>, lo: nat, n: nat)
  {
    forall x: nat :: Met(refs', x) && x !in refs ==>
      lo <= x < lo + n || exists u :: u in refs' && u !in refs && Lives(E, x, u)
  }

  ghost predicate NoneIn(refs: seq<nat>, lo: nat, n: nat)
  {
    forall x :: x in refs ==> !(lo <= x < lo + n)
  }

  lemma {:induction false} NewInTrans(E: Env, x: seq<nat>, y: seq<nat>, z: seq<nat>, lo: nat, n: nat, lo': nat, n': nat)
    requires x <= y <= z && NewIn(E, x, y, lo, n) && NewIn(E, y, z, lo', n') && lo' <= lo && lo + n <= lo' + n'
    ensures NewIn(E, x, z, lo', n')
  {
    forall v: nat | Met(z, v) && v !in x
      ensures lo' <= v < lo' + n' || exists u :: u in z && u !in x && Lives(E, v, u)
    {
      if v in y {
        assert Met(y, v);
        if !(lo <= v < lo + n) {
          var u :| u in y && u !in x && Lives(E, v, u);
          assert u in z;
        }
      } else if !(lo' <= v < lo' + n') {
        var u :| u in z && u !in y && Lives(E, v, u);
        assert u !in x;
      }
    }
  }

  /** The substructures among fields k.. of the structure at a are untouched. */
  ghost predicate Untouched(E: Env, m: nat, k: nat, a: nat, refs: seq<nat>)
  {
    forall i :: k <= i < |FieldsOf(E.T, m)| && FieldsOf(E.T, m)[i].kind == Substruct ==>
      NoneIn(refs, a + FieldsOf(E.T, m)[i].offset, Extent(E.T, FieldsOf(E.T, m)[i]))
  }

  /** Structure m at a is inside object H, which has been met. */
  ghost predicate Inside(E: Env, m: nat, a: nat, H: nat, refs: seq<nat>)
  {
    H in refs && H in E.objs && H <= a && a + Size(InfoOf(E.T, m)) <= H + Room(E, H)
  }

  lemma {:induction false} UntouchedNext(E: Env, m: nat, k: nat, a: nat, H: nat, refs: seq<nat>, refs': seq<nat>,
      lo: nat, n: nat)
    requires GoodTable(E.T) && m < |E.T| && k < |FieldsOf(E.T, m)| && Spaced(E)
    requires Untouched(E, m, k, a, refs) && Inside(E, m, a, H, refs) && refs <= refs'
    requires NewIn(E, refs, refs', lo, n) &&
      (n == 0 || (lo == a + FieldsOf(E.T, m)[k].offset && n == Extent(E.T, FieldsOf(E.T, m)[k])))
    ensures Untouched(E, m, k + 1, a, refs')
  {
    forall i | k + 1 <= i < |FieldsOf(E.T, m)| && FieldsOf(E.T, m)[i].kind == Substruct
      ensures NoneIn(refs', a + FieldsOf(E.T, m)[i].offset, Extent(E.T, FieldsOf(E.T, m)[i]))
    {
      var f := FieldsOf(E.T, m)[i];
      assert Fits(E.T, Size(InfoOf(E.T, m)), f);
      assert Clear(E.T, f, FieldsOf(E.T, m)[k]);
      assert NoneIn(refs, a + f.offset, Extent(E.T, f));
      forall x | x in refs' ensures !(a + f.offset <= x < a + f.offset + Extent(E.T, f)) {
        if x !in refs && !(lo <= x < lo + n) {
          assert Met(refs', x);
          var u :| u in refs' && u !in refs && Lives(E, x, u);
          assert Apart(u, Room(E, u), H, Room(E, H));
        }
      }
    }
  }

  /** A record the serializer may be asked for, in a tidy memory. */
  ghost predicate Tidy(E: Env, m: nat, a: nat, skip: bool, refs: seq<nat>, osize: int, H: nat)
  {
    && Askable(E, m, a, skip, osize) && Spaced(E) && Housed(E, refs)
    && (skip ==> 0 < Size(InfoOf(E.T, m)) && Inside(E, m, a, H, refs) && NoneIn(refs, a, Size(InfoOf(E.T, m))))
  }

  /** An object not met yet has none of its addresses met. */
  lemma {:induction false} RoomFree(E: Env, a: nat, refs: seq<nat>)
    requires Spaced(E) && Housed(E, refs) && a in E.objs && a !in refs
    ensures NoneIn(refs, a, Room(E, a))
  {
    forall x | x in refs ensures !(a <= x < a + Room(E, a)) {
      assert Met(refs, x);
      var t :| t in refs && Lives(E, x, t);
      assert Apart(t, Room(E, t), a, Room(E, a));
    }
  }

  lemma {:induction false} StartUntouched(E: Env, m: nat, a: nat, refs: seq<nat>)
    requires GoodTable(E.T) && m < |E.T| && NoneIn(refs, a, Size(InfoOf(E.T, m)))
    ensures Untouched(E, m, 0, a, refs + [a])
  {
    forall i | 0 <= i < |FieldsOf(E.T, m)| && FieldsOf(E.T, m)[i].kind == Substruct
      ensures NoneIn(refs + [a], a + FieldsOf(E.T, m)[i].offset, Extent(E.T, FieldsOf(E.T, m)[i]))
    {
      assert Fits(E.T, Size(InfoOf(E.T, m)), FieldsOf(E.T, m)[i]);
    }
  }

  /** No substructure is ever met before its turn. */
  lemma {:induction false} SerTidy(E: Env, m: nat, a: nat, skip: bool, refs: seq<nat>, osize: int, H: nat)
    requires Tidy(E, m, a, skip, refs, osize, H) && Ser(E.A, E.T, E.mem, m, a, skip, refs, osize).Ok?
    ensures var r := Ser(E.A, E.T, E.mem, m, a, skip, refs, osize);
      && Substruct !in r.late && Housed(E, r.refs)
      && NewIn(E, refs, r.refs, a, if skip then Size(InfoOf(E.T, m)) else 0)
    decreases Left(|E.mem|, refs), 0, 0
  {
    if a !in refs {
      if InfoOf(E.T, m).Struct? {
        StructTidy(E, m, a, skip, refs, osize, H);
      } else {
        assert Lives(E, a, a);
        NewHoused(E, a, refs, a);
      }
    }
  }

  /** Meeting `a`, which lives in an object already met or in itself. */
  lemma {:induction false} NewHoused(E: Env, a: nat, refs: seq<nat>, H: nat)
    requires Housed(E, refs) && Lives(E, a, H) && (H in refs || H == a)
    ensures Housed(E, refs + [a])
  {
    var refs' := refs + [a];
    forall x: nat | Met(refs', x) ensures exists t :: t in refs' && Lives(E, x, t) {
      if x in refs {
        assert Met(refs, x);
        var t :| t in refs && Lives(E, x, t);
        assert t in refs';
      } else {
        assert H in refs';
      }
    }
  }

  lemma {:induction false} StructTidy(E: Env, m: nat, a: nat, skip: bool, refs: seq<nat>, osize: int, H: nat)
    requires Tidy(E, m, a, skip, refs, osize, H) && Ser(E.A, E.T, E.mem, m, a, skip, refs, osize).Ok?
    requires a !in refs && InfoOf(E.T, m).Struct?
    ensures var r := Ser(E.A, E.T, E.mem, m, a, skip, refs, osize);
      && Substruct !in r.late && Housed(E, r.refs)
      && NewIn(E, refs, r.refs, a, if skip then Size(InfoOf(E.T, m)) else 0)
    decreases Left(|E.mem|, refs), 0, 0, 0
  {
    var s := SerStruct(E.A, E.T, E.mem, m, a, skip, refs, osize);
    hide Ser, SerFields;
    var H' := if skip then H else a;
    if !skip {
      assert ObjectOk(E, a);
      RoomFree(E, a, refs);
    }
    NewHoused(E, a, refs, H');
    StartUntouched(E, m, a, refs);
    LeftDrops(|E.mem|, refs, a);
    FieldsTidy(E, m, 0, a, skip, s, H');
    var r := LoopOf(E, m, 0, a, skip, s);
    NewFrom(E, m, a, skip, refs, r.refs, H');
  }

  /** From `refs + [a]` to `refs`: a itself is new too. */
  lemma {:induction false} NewFrom(E: Env, m: nat, a: nat, skip: bool, refs: seq<nat>, refs': seq<nat>, H: nat)
    requires a !in refs && refs + [a] <= refs' && NewIn(E, refs + [a], refs', a, Size(InfoOf(E.T, m)))
    requires if skip then 0 < Size(InfoOf(E.T, m)) else a in E.objs && Size(InfoOf(E.T, m)) <= Room(E, a)
    ensures NewIn(E, refs, refs', a, if skip then Size(InfoOf(E.T, m)) else 0)
  {
    assert refs'[|refs|] == (refs + [a])[|refs|];
    forall x: nat | Met(refs', x) && x !in refs
      ensures (skip && a <= x < a + Size(InfoOf(E.T, m))) || exists u :: u in refs' && u !in refs && Lives(E, x, u)
    {
      if x == a || a <= x < a + Size(InfoOf(E.T, m)) {
        if !skip { assert Lives(E, x, a); }
      } else {
        var u :| u in refs' && u !in refs + [a] && Lives(E, x, u);
      }
    }
  }

  lemma {:induction false} FieldsDone(E: Env, m: nat, k: nat, a: nat, skip: bool, s: Turn)
    requires k >= |FieldsOf(E.T, m)|
    ensures var r := LoopOf(E, m, k, a, skip, s);
      r.FieldsOk? && r.late == {} && r.refs == s.refs && NewIn(E, s.refs, r.refs, a, Size(InfoOf(E.T, m)))
  {
  }

  lemma {:induction false} FieldsTidy(E: Env, m: nat, k: nat, a: nat, skip: bool, s: Turn, H: nat)
    requires TypedHeap(E) && m < |E.T| && InfoOf(E.T, m).Struct? && WellTyped(E, m, a)
    requires Mapped(E.mem, a, Size(InfoOf(E.T, m))) && a < |E.mem|
    requires LoopOf(E, m, k, a, skip, s).FieldsOk?
    requires Spaced(E) && Housed(E, s.refs) && Inside(E, m, a, H, s.refs) && Untouched(E, m, k, a, s.refs)
    ensures var r := LoopOf(E, m, k, a, skip, s);
      Substruct !in r.late && Housed(E, r.refs) && NewIn(E, s.refs, r.refs, a, Size(InfoOf(E.T, m)))
    decreases Left(|E.mem|, s.refs), 1, |FieldsOf(E.T, m)| - k, 0
  {
    hide SerFields, LoopOf, WellTyped, Housed, NewIn, Untouched, Inside, Spaced, Mapped;
    if k >= |FieldsOf(E.T, m)| {
      FieldsDone(E, m, k, a, skip, s);
    } else {
      var t, n := FieldTidy(E, m, k, a, skip, s, H);
      var f := FieldsOf(E.T, m)[k];
      assert Fits(E.T, Size(InfoOf(E.T, m)), f);
      UntouchedNext(E, m, k, a, H, s.refs, t.refs, a + f.offset, n);
      FieldsTidy(E, m, k + 1, a, skip, t, H);
      NewInTrans(E, s.refs, t.refs, LoopOf(E, m, k + 1, a, skip, t).refs, a + f.offset, n, a, Size(InfoOf(E.T, m)));
    }
  }

  lemma {:induction false} FieldTidy(E: Env, m: nat, k: nat, a: nat, skip: bool, s: Turn, H: nat)
    returns (t: Turn, n: nat)
    requires TypedHeap(E) && m < |E.T| && InfoOf(E.T, m).Struct? && WellTyped(E, m, a)
    requires Mapped(E.mem, a, Size(InfoOf(E.T, m))) && a < |E.mem| && k < |FieldsOf(E.T, m)|
    requires LoopOf(E, m, k, a, skip, s).FieldsOk?
    requires Spaced(E) && Housed(E, s.refs) && Inside(E, m, a, H, s.refs) && Untouched(E, m, k, a, s.refs)
    ensures LoopOf(E, m, k + 1, a, skip, t).FieldsOk?
    ensures s.refs <= t.refs <= LoopOf(E, m, k + 1, a, skip, t).refs && Housed(E, t.refs) && Inside(E, m, a, H, t.refs)
    ensures var f := FieldsOf(E.T, m)[k];
      NewIn(E, s.refs, t.refs, a + f.offset, n) && (n == 0 || n == Extent(E.T, f))
    ensures Left(|E.mem|, t.refs) <= Left(|E.mem|, s.refs)
    ensures var r, r' := LoopOf(E, m, k, a, skip, s), LoopOf(E, m, k + 1, a, skip, t);
      r.refs == r'.refs && (Substruct !in r'.late ==> Substruct !in r.late)
    decreases Left(|E.mem|, s.refs), 0, 1
  {
    hide Ser, SerFields, Piece, Renumber;
    var out;
    t, out := SerTurn(E.A, E.T, E.mem, FieldsOf(E.T, m), k, a, skip, s);
    LeftShrinks(|E.mem|, s.refs, t.refs);
    var f := FieldsOf(E.T, m)[k];
    var step := SerPlan(E.A, E.mem, f, a, s.osize);
    n := 0;
    if step.Visit? {
      FieldAskable(E, m, k, a, s.osize);
      assert Fits(E.T, Size(InfoOf(E.T, m)), f);
      n := if f.kind == Substruct then Extent(E.T, f) else 0;
      assert Tidy(E, f.mi, step.source, f.kind == Substruct, s.refs, step.osize, H);
      SerTidy(E, f.mi, step.source, f.kind == Substruct, s.refs, step.osize, H);
    }
  }
}
