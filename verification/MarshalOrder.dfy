/** The order in which the pointers of a graph are followed, told from the source heap
    alone, and what it says about the serializer. */
module MarshalOrder {
  import opened Bytes
  import opened Marshal
  import opened MarshalHeap
  import opened MarshalObject
  import opened MarshalReach
  import opened MarshalShare

  /** What the pointer at a site aims at. */
  function TargetOf(E: Env, s: Site): nat
  {
    if s.k < |FieldsOf(E.T, s.place.mi)| then Target(E, s.place.at + FieldsOf(E.T, s.place.mi)[s.k].offset) else 0
  }

  /** t is the root, or a pointer already followed aims at it. */
  ghost predicate Known(E: Env, root: nat, trail: seq<Site>, t: nat)
  {
    t == root || exists j :: 0 <= j < |trail| && TargetOf(E, trail[j]) == t
  }

  ghost function Unmet(E: Env, root: nat, trail: seq<Site>): set<nat>
  {
    set t | t in E.objs && !Known(E, root, trail, t)
  }

  lemma {:induction false} KnownStays(E: Env, root: nat, trail: seq<Site>, next: seq<Site>, t: nat)
    requires trail <= next && Known(E, root, trail, t)
    ensures Known(E, root, next, t)
  {
    if t != root {
      var j :| 0 <= j < |trail| && TargetOf(E, trail[j]) == t;
      assert next[j] == trail[j];
    }
  }

  lemma {:induction false} UnmetShrinks(E: Env, root: nat, trail: seq<Site>, next: seq<Site>)
    requires trail <= next
    ensures Unmet(E, root, next) <= Unmet(E, root, trail)
  {
    forall t | t in Unmet(E, root, next) ensures t in Unmet(E, root, trail) {
      if Known(E, root, trail, t) {
        KnownStays(E, root, trail, next, t);
      }
    }
  }

  lemma {:induction false} UnmetDrops(E: Env, root: nat, trail: seq<Site>, s: Site)
    requires TargetOf(E, s) in E.objs && !Known(E, root, trail, TargetOf(E, s))
    ensures Unmet(E, root, trail + [s]) < Unmet(E, root, trail)
  {
    UnmetShrinks(E, root, trail, trail + [s]);
    var next := trail + [s];
    assert TargetOf(E, next[|trail|]) == TargetOf(E, s);
    assert TargetOf(E, s) in Unmet(E, root, trail) && TargetOf(E, s) !in Unmet(E, root, next);
  }

  /** Depth first: the pointers followed from fields k.. of the structure p on, after
      those of `trail`.  The fields are taken in order; what a pointer aims at is
      explored at once if it was not known; a substructure is part of its structure. */
  ghost function Trail(E: Env, root: nat, p: Place, k: nat, trail: seq<Site>): (r: seq<Site>)
    ensures trail <= r
    decreases Unmet(E, root, trail), Size(InfoOf(E.T, p.mi)), |FieldsOf(E.T, p.mi)| - k, 1
  {
    if k >= |FieldsOf(E.T, p.mi)| then trail
    else
      var next := TrailField(E, root, p, k, trail);
      UnmetShrinks(E, root, trail, next);
      Trail(E, root, p, k + 1, next)
  }

  ghost function TrailField(E: Env, root: nat, p: Place, k: nat, trail: seq<Site>): (r: seq<Site>)
    requires k < |FieldsOf(E.T, p.mi)|
    ensures trail <= r
    decreases Unmet(E, root, trail), Size(InfoOf(E.T, p.mi)), |FieldsOf(E.T, p.mi)| - k, 0
  {
    var f := FieldsOf(E.T, p.mi)[k];
    if f.kind == Substruct then
      if Extent(E.T, f) < Size(InfoOf(E.T, p.mi)) then Trail(E, root, Place(p.at + f.offset, f.mi, true), 0, trail)
        else trail
    else if LivePointer(E, p.mi, k, p.at) then
      var t := Target(E, p.at + f.offset);
      var next := trail + [Site(p, k)];
      if t !in E.objs || Known(E, root, trail, t) then next
      else
        UnmetDrops(E, root, trail, Site(p, k));
        assert trail <= next;
        Trail(E, root, Place(t, f.mi, false), 0, next)
    else trail
  }

  /** The i-th pointer of the trail is inside a substructure and aims at the root or
      where an earlier one does. */
  ghost predicate Revisits(E: Env, root: nat, trail: seq<Site>, i: nat)
    requires i < |trail|
  {
    trail[i].place.inner && Known(E, root, trail[..i], TargetOf(E, trail[i]))
  }

  ghost predicate RevisitsFrom(E: Env, root: nat, trail: seq<Site>, n: nat)
  {
    exists i :: n <= i < |trail| && Revisits(E, root, trail, i)
  }

  lemma {:induction false} RevisitsSplit(E: Env, root: nat, x: seq<Site>, y: seq<Site>, n: nat)
    requires x <= y && n <= |x|
    ensures RevisitsFrom(E, root, y, n) <==> RevisitsFrom(E, root, x, n) || RevisitsFrom(E, root, y, |x|)
  {
    forall i | 0 <= i < |x| ensures Revisits(E, root, x, i) <==> Revisits(E, root, y, i) {
      assert x[..i] == y[..i] && x[i] == y[i];
    }
    if RevisitsFrom(E, root, y, n) {
      var i :| n <= i < |y| && Revisits(E, root, y, i);
      if i < |x| {
        assert Revisits(E, root, x, i);
      }
    }
    if RevisitsFrom(E, root, x, n) {
      var i :| n <= i < |x| && Revisits(E, root, x, i);
      assert Revisits(E, root, y, i);
    }
  }

  /** The objects the serializer has met are those the trail knows. */
  ghost predicate Tallies(E: Env, root: nat, refs: seq<nat>, trail: seq<Site>)
  {
    forall t :: t in E.objs ==> (t in refs <==> Known(E, root, trail, t))
  }

  // ---------- The serializer follows the trail ----------

  lemma {:induction false} SerTrails(E: Env, root: nat, m: nat, a: nat, skip: bool, refs: seq<nat>, osize: int,
      trail: seq<Site>)
    requires Askable(E, m, a, skip, osize) && a !in refs && Tallies(E, root, refs + [a], trail)
    requires Ser(E.A, E.T, E.mem, m, a, skip, refs, osize).Ok? &&
      Substruct !in Ser(E.A, E.T, E.mem, m, a, skip, refs, osize).late
    ensures var r, next := Ser(E.A, E.T, E.mem, m, a, skip, refs, osize), Trail(E, root, Place(a, m, skip), 0, trail);
      Tallies(E, root, r.refs, next) && (Pointer in r.late <==> RevisitsFrom(E, root, next, |trail|))
    decreases Left(|E.mem|, refs), 0, 0
  {
    if InfoOf(E.T, m).Struct? {
      var s := SerStruct(E.A, E.T, E.mem, m, a, skip, refs, osize);
      hide Ser, SerFields, Trail, Tallies, RevisitsFrom;
      if !skip { assert ObjectOk(E, a); }
      LeftDrops(|E.mem|, refs, a);
      FieldsTrail(E, root, m, 0, a, skip, s, trail);
    }
  }

  lemma {:induction false} FieldsTrail(E: Env, root: nat, m: nat, k: nat, a: nat, skip: bool, s: Turn, trail: seq<Site>)
    requires TypedHeap(E) && m < |E.T| && InfoOf(E.T, m).Struct? && WellTyped(E, m, a)
    requires Mapped(E.mem, a, Size(InfoOf(E.T, m))) && a < |E.mem|
    requires LoopOf(E, m, k, a, skip, s).FieldsOk? && Substruct !in LoopOf(E, m, k, a, skip, s).late
    requires Tallies(E, root, s.refs, trail)
    ensures var r, next := LoopOf(E, m, k, a, skip, s), Trail(E, root, Place(a, m, skip), k, trail);
      Tallies(E, root, r.refs, next) && (Pointer in r.late <==> RevisitsFrom(E, root, next, |trail|))
    decreases Left(|E.mem|, s.refs), 1, |FieldsOf(E.T, m)| - k
  {
    hide Ser, SerPlan, TrailField, Tallies, Revisits, WellTyped, Mapped, TypedHeap;
    if k < |FieldsOf(E.T, m)| {
      var p := Place(a, m, skip);
      var next := TrailField(E, root, p, k, trail);
      var t := FieldTrails(E, root, m, k, a, skip, s, trail);
      FieldsTrail(E, root, m, k + 1, a, skip, t, next);
      RevisitsSplit(E, root, next, Trail(E, root, p, k + 1, next), |trail|);
    }
  }

  lemma {:induction false} FieldTrails(E: Env, root: nat, m: nat, k: nat, a: nat, skip: bool, s: Turn, trail: seq<Site>)
    returns (t: Turn)
    requires TypedHeap(E) && m < |E.T| && InfoOf(E.T, m).Struct? && WellTyped(E, m, a)
    requires Mapped(E.mem, a, Size(InfoOf(E.T, m))) && a < |E.mem| && k < |FieldsOf(E.T, m)|
    requires LoopOf(E, m, k, a, skip, s).FieldsOk? && Substruct !in LoopOf(E, m, k, a, skip, s).late
    requires Tallies(E, root, s.refs, trail)
    ensures Left(|E.mem|, t.refs) <= Left(|E.mem|, s.refs)
    ensures var r, r' := LoopOf(E, m, k, a, skip, s), LoopOf(E, m, k + 1, a, skip, t);
      var next := TrailField(E, root, Place(a, m, skip), k, trail);
      && r'.FieldsOk? && Substruct !in r'.late && r'.refs == r.refs && Tallies(E, root, t.refs, next)
      && (Pointer in r.late <==> RevisitsFrom(E, root, next, |trail|) || Pointer in r'.late)
    decreases Left(|E.mem|, s.refs), 0, 2
  {
    hide Ser, SerFields, Piece, Renumber, Trail, Revisits, WellTyped, Tallies;
    var out;
    t, out := SerTurn(E.A, E.T, E.mem, FieldsOf(E.T, m), k, a, skip, s);
    LeftShrinks(|E.mem|, s.refs, t.refs);
    var f := FieldsOf(E.T, m)[k];
    var step := SerPlan(E.A, E.mem, f, a, s.osize);
    if step.Visit? {
      FieldAskable(E, m, k, a, s.osize);
      assert Fits(E.T, Size(InfoOf(E.T, m)), f);
      if f.kind == Substruct {
        InnerTrails(E, root, f.mi, step.source, s.refs, step.osize, trail);
      } else {
        PointerTrails(E, root, m, k, a, skip, s.refs, step.osize, trail);
      }
    }
  }

  lemma {:induction false} InnerTrails(E: Env, root: nat, m: nat, a: nat, refs: seq<nat>, osize: int, trail: seq<Site>)
    requires Askable(E, m, a, true, osize) && a !in refs && Tallies(E, root, refs, trail)
    requires Ser(E.A, E.T, E.mem, m, a, true, refs, osize).Ok? &&
      Substruct !in Ser(E.A, E.T, E.mem, m, a, true, refs, osize).late
    ensures var r, next := Ser(E.A, E.T, E.mem, m, a, true, refs, osize), Trail(E, root, Place(a, m, true), 0, trail);
      Tallies(E, root, r.refs, next) && (Pointer in r.late <==> RevisitsFrom(E, root, next, |trail|))
    decreases Left(|E.mem|, refs), 0, 1
  {
    hide Ser, Trail, Revisits, Known;
    SerTrails(E, root, m, a, true, refs, osize, trail);
  }

  /** Following a pointer: it revisits exactly when its target was already met. */
  lemma {:induction false} PointerTrails(E: Env, root: nat, m: nat, k: nat, a: nat, skip: bool, refs: seq<nat>,
      osize: int, trail: seq<Site>)
    requires k < |FieldsOf(E.T, m)| && LivePointer(E, m, k, a) && Tallies(E, root, refs, trail)
    requires var f := FieldsOf(E.T, m)[k];
      var t := Target(E, a + f.offset);
      && Askable(E, f.mi, t, false, osize) && Ser(E.A, E.T, E.mem, f.mi, t, false, refs, osize).Ok?
      && Substruct !in Ser(E.A, E.T, E.mem, f.mi, t, false, refs, osize).late
    ensures var f := FieldsOf(E.T, m)[k];
      var t := Target(E, a + f.offset);
      var r, next := Ser(E.A, E.T, E.mem, f.mi, t, false, refs, osize),
        TrailField(E, root, Place(a, m, skip), k, trail);
      && Tallies(E, root, r.refs, next)
      && (RevisitsFrom(E, root, next, |trail|) <==> Pointer in r.late || Pointer in TooLate(f, skip, t, refs))
    decreases Left(|E.mem|, refs), 0, 1
  {
    hide Ser, Trail, Known;
    var f := FieldsOf(E.T, m)[k];
    var t := Target(E, a + f.offset);
    var site := Site(Place(a, m, skip), k);
    var step := trail + [site];
    OneMore(E, root, refs, trail, site);
    SerFacts(E.A, E.T, E.mem, f.mi, t, false, refs, osize);
    if t !in refs {
      SerTrails(E, root, f.mi, t, false, refs, osize, step);
      RevisitsSplit(E, root, step, Trail(E, root, Place(t, f.mi, false), 0, step), |trail|);
    }
  }

  lemma {:induction false} OneMore(E: Env, root: nat, refs: seq<nat>, trail: seq<Site>, s: Site)
    requires Tallies(E, root, refs, trail) && TargetOf(E, s) in E.objs
    ensures var step, t := trail + [s], TargetOf(E, s);
      && Tallies(E, root, if t in refs then refs else refs + [t], step)
      && (RevisitsFrom(E, root, step, |trail|) <==> s.place.inner && t in refs)
      && (Known(E, root, trail, t) <==> t in refs)
  {
    var step, t := trail + [s], TargetOf(E, s);
    assert step[|trail|] == s && step[..|trail|] == trail;
    assert forall j :: 0 <= j < |trail| ==> step[j] == trail[j];
    forall u | u in E.objs ensures Known(E, root, step, u) <==> Known(E, root, trail, u) || u == t {
      if Known(E, root, trail, u) {
        KnownStays(E, root, trail, step, u);
      } else if Known(E, root, step, u) {
        var j :| 0 <= j < |step| && TargetOf(E, step[j]) == u;
      }
    }
    assert Revisits(E, root, step, |trail|) <==> s.place.inner && t in refs;
  }

  // ---------- From the root ----------

  /** All the pointers reachable from the root, in the order they are followed. */
  ghost function Order(E: Env, root: nat): seq<Site>
    requires root in E.objs
  {
    Trail(E, root, Place(root, E.objs[root].mi, false), 0, [])
  }

  /** Some pointer inside a substructure aims at the root, or where a pointer
      followed before it does. */
  ghost predicate SharedInside(E: Env, root: nat)
    requires root in E.objs
  {
    var o := Order(E, root);
    exists i :: 0 <= i < |o| && o[i].place.inner
      && (TargetOf(E, o[i]) == root || exists j :: 0 <= j < i && TargetOf(E, o[j]) == TargetOf(E, o[i]))
  }

  lemma {:induction false} SharedRevisits(E: Env, root: nat)
    requires root in E.objs
    ensures SharedInside(E, root) <==> RevisitsFrom(E, root, Order(E, root), 0)
  {
    hide Order;
    var o := Order(E, root);
    forall i | 0 <= i < |o|
      ensures Known(E, root, o[..i], TargetOf(E, o[i])) <==>
        TargetOf(E, o[i]) == root || exists j :: 0 <= j < i && TargetOf(E, o[j]) == TargetOf(E, o[i])
    {
      forall j | 0 <= j < i ensures o[..i][j] == o[j] {
      }
    }
    if RevisitsFrom(E, root, o, 0) {
      var i :| 0 <= i < |o| && Revisits(E, root, o, i);
    }
    if SharedInside(E, root) {
      var i :| 0 <= i < |o| && o[i].place.inner
        && (TargetOf(E, o[i]) == root || exists j :: 0 <= j < i && TargetOf(E, o[j]) == TargetOf(E, o[i]));
      assert Revisits(E, root, o, i);
    }
  }

  /** Serializing from the root follows the order: a pointer comes late exactly when
      the heap is shared inside, and the objects met are those the order leads to. */
  lemma {:induction false} SerializerFollowsOrder(E: Env, root: nat)
    requires TypedHeap(E) && root in E.objs && !InfoOf(E.T, E.objs[root].mi).FixedString?
    requires var r := Ser(E.A, E.T, E.mem, E.objs[root].mi, root, false, [], 0);
      r.Ok? && Substruct !in r.late
    ensures var r := Ser(E.A, E.T, E.mem, E.objs[root].mi, root, false, [], 0);
      && (Pointer in r.late <==> SharedInside(E, root))
      && forall t :: t in E.objs ==> (t in r.refs <==> Known(E, root, Order(E, root), t))
  {
    hide Ser, Trail, SharedInside, RevisitsFrom;
    var m := E.objs[root].mi;
    assert forall t :: Known(E, root, [], t) <==> t == root;
    assert Tallies(E, root, [] + [root], []);
    SerTrails(E, root, m, root, false, [], 0, []);
    SharedRevisits(E, root);
  }

  // ---------- What the order holds ----------

  ghost predicate AllLive(E: Env, trail: seq<Site>)
  {
    forall i :: 0 <= i < |trail| ==> Aims(E, trail[i], TargetOf(E, trail[i]))
  }

  lemma {:induction false} TrailLive(E: Env, root: nat, p: Place, k: nat, trail: seq<Site>)
    requires AllLive(E, trail)
    ensures AllLive(E, Trail(E, root, p, k, trail))
    decreases Unmet(E, root, trail), Size(InfoOf(E.T, p.mi)), |FieldsOf(E.T, p.mi)| - k, 1
  {
    hide AllLive;
    if k < |FieldsOf(E.T, p.mi)| {
      var next := TrailField(E, root, p, k, trail);
      UnmetShrinks(E, root, trail, next);
      FieldLive(E, root, p, k, trail);
      TrailLive(E, root, p, k + 1, next);
    }
  }

  lemma {:induction false} FieldLive(E: Env, root: nat, p: Place, k: nat, trail: seq<Site>)
    requires AllLive(E, trail) && k < |FieldsOf(E.T, p.mi)|
    ensures AllLive(E, TrailField(E, root, p, k, trail))
    decreases Unmet(E, root, trail), Size(InfoOf(E.T, p.mi)), |FieldsOf(E.T, p.mi)| - k, 0
  {
    hide Trail, Unmet;
    var f := FieldsOf(E.T, p.mi)[k];
    if f.kind == Substruct && Extent(E.T, f) < Size(InfoOf(E.T, p.mi)) {
      TrailLive(E, root, Place(p.at + f.offset, f.mi, true), 0, trail);
    } else if LivePointer(E, p.mi, k, p.at) {
      var t := Target(E, p.at + f.offset);
      if t in E.objs && !Known(E, root, trail, t) {
        UnmetDrops(E, root, trail, Site(p, k));
        TrailLive(E, root, Place(t, f.mi, false), 0, trail + [Site(p, k)]);
      }
    }
  }
  /** Every site of the order is a live pointer. */
  lemma {:induction false} OrderLive(E: Env, root: nat)
    requires root in E.objs
    ensures forall i :: 0 <= i < |Order(E, root)| ==> Aims(E, Order(E, root)[i], TargetOf(E, Order(E, root)[i]))
  {
    TrailLive(E, root, Place(root, E.objs[root].mi, false), 0, []);
  }
}
