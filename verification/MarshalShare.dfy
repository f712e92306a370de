/** A condition on the source heap alone under which the round trip works: what a
    pointer inside a substructure aims at is aimed at by nothing else. */
module MarshalShare {
  import opened Bytes
  import opened Marshal
  import opened MarshalHeap
  import opened MarshalObject
  import opened MarshalReach

  /** A structure in memory: an object, or a substructure (`inner`). */
  datatype Place = Place(at: nat, mi: nat, inner: bool)

  datatype Site = Site(place: Place, k: nat)

  /** Field s.k of the place s is a live pointer, to t. */
  ghost predicate Aims(E: Env, s: Site, t: nat)
  {
    && s.k < |FieldsOf(E.T, s.place.mi)|
    && LivePointer(E, s.place.mi, s.k, s.place.at)
    && Target(E, s.place.at + FieldsOf(E.T, s.place.mi)[s.k].offset) == t
  }

  /** S holds the substructures and the targets of what it holds. */
  ghost predicate Spans(E: Env, S: set<Place>)
  {
    forall p, k :: p in S && 0 <= k < |FieldsOf(E.T, p.mi)| ==>
      var f := FieldsOf(E.T, p.mi)[k];
      && (f.kind == Substruct ==> Place(p.at + f.offset, f.mi, true) in S)
      && (LivePointer(E, p.mi, k, p.at) ==> Place(Target(E, p.at + f.offset), f.mi, false) in S)
  }

  ghost predicate Unshared(E: Env, root: nat, S: set<Place>)
  {
    && Spans(E, S)
    && (root in E.objs ==> Place(root, E.objs[root].mi, false) in S)
    && (forall s: Site, t: nat :: s.place in S && s.place.inner && Aims(E, s, t) ==> t != root)
    && (forall s: Site, s': Site, t: nat ::
          s.place in S && s'.place in S && s.place.inner && Aims(E, s, t) && Aims(E, s', t) ==> s == s')
  }

  /** V is the pointers followed so far: each object met, other than the root, was
      met through one of them. */
  ghost predicate Traced(E: Env, root: nat, S: set<Place>, refs: seq<nat>, V: set<Site>)
  {
    && (forall s :: s in V ==> s.place in S && s.place.at in refs)
    && (forall t :: t in refs && t in E.objs ==> Reached(E, root, V, t))
  }

  ghost predicate Reached(E: Env, root: nat, V: set<Site>, t: nat)
  {
    t == root || exists s :: s in V && Aims(E, s, t)
  }

  /** Pointers followed between V and V' are in structures met since. */
  ghost predicate Since(refs: seq<nat>, V: set<Site>, V': set<Site>)
  {
    V <= V' && forall s :: s in V' && s !in V ==> s.place.at !in refs
  }

  lemma {:induction false} TracedMore(E: Env, root: nat, S: set<Place>, refs: seq<nat>, V: set<Site>, a: nat)
    requires Traced(E, root, S, refs, V) && (a in E.objs ==> Reached(E, root, V, a))
    ensures Traced(E, root, S, refs + [a], V)
  {
  }

  lemma {:induction false} SerUnshared(E: Env, root: nat, S: set<Place>, m: nat, a: nat, skip: bool, refs: seq<nat>,
      osize: int, V: set<Site>)
    returns (V': set<Site>)
    requires Askable(E, m, a, skip, osize) && Unshared(E, root, S) && Ser(E.A, E.T, E.mem, m, a, skip, refs, osize).Ok?
    requires Place(a, m, skip) in S && Traced(E, root, S, refs, V) && (!skip ==> Reached(E, root, V, a))
    ensures var r := Ser(E.A, E.T, E.mem, m, a, skip, refs, osize);
      Pointer !in r.late && Traced(E, root, S, r.refs, V') && Since(refs, V, V')
    decreases Left(|E.mem|, refs), 0, 0
  {
    V' := V;
    if a !in refs {
      TracedMore(E, root, S, refs, V, a);
      if InfoOf(E.T, m).Struct? {
        V' := StructUnshared(E, root, S, m, a, skip, refs, osize, V);
      }
    }
  }

  lemma {:induction false} StructUnshared(E: Env, root: nat, S: set<Place>, m: nat, a: nat, skip: bool, refs: seq<nat>,
      osize: int, V: set<Site>)
    returns (V': set<Site>)
    requires Askable(E, m, a, skip, osize) && Unshared(E, root, S) && Ser(E.A, E.T, E.mem, m, a, skip, refs, osize).Ok?
    requires Place(a, m, skip) in S && Traced(E, root, S, refs, V) && Traced(E, root, S, refs + [a], V)
    requires a !in refs && InfoOf(E.T, m).Struct?
    ensures var r := Ser(E.A, E.T, E.mem, m, a, skip, refs, osize);
      Pointer !in r.late && Traced(E, root, S, r.refs, V') && Since(refs, V, V')
    decreases Left(|E.mem|, refs), 0, 0, 0
  {
    var s := SerStruct(E.A, E.T, E.mem, m, a, skip, refs, osize);
    hide Ser, SerFields, Unshared, Reached;
    if !skip { assert ObjectOk(E, a); }
    LeftDrops(|E.mem|, refs, a);
    V' := FieldsUnshared(E, root, S, m, 0, a, skip, s, V);
  }

  /** Within the structure at a, only fields before k have been followed. */
  ghost predicate Upto(V: set<Site>, a: nat, k: nat)
  {
    forall s :: s in V && s.place.at == a ==> s.k < k
  }

  lemma {:induction false} FieldsUnshared(E: Env, root: nat, S: set<Place>, m: nat, k: nat, a: nat, skip: bool, s: Turn,
      V: set<Site>)
    returns (V': set<Site>)
    requires TypedHeap(E) && m < |E.T| && InfoOf(E.T, m).Struct? && WellTyped(E, m, a)
    requires Mapped(E.mem, a, Size(InfoOf(E.T, m))) && a < |E.mem|
    requires LoopOf(E, m, k, a, skip, s).FieldsOk? && Unshared(E, root, S) && Place(a, m, skip) in S
    requires Traced(E, root, S, s.refs, V) && Upto(V, a, k) && a in s.refs
    ensures var r := LoopOf(E, m, k, a, skip, s);
      Pointer !in r.late && Traced(E, root, S, r.refs, V')
    ensures V <= V' && forall x :: x in V' && x !in V ==> x.place.at == a || x.place.at !in s.refs
    decreases Left(|E.mem|, s.refs), 1, |FieldsOf(E.T, m)| - k
  {
    V' := V;
    if k < |FieldsOf(E.T, m)| {
      hide Ser, SerFields, Unshared, Reached, Traced, WellTyped;
      var t, V1 := FieldUnshared(E, root, S, m, k, a, skip, s, V);
      V' := FieldsUnshared(E, root, S, m, k + 1, a, skip, t, V1);
    }
  }

  lemma {:induction false} FieldUnshared(E: Env, root: nat, S: set<Place>, m: nat, k: nat, a: nat, skip: bool, s: Turn,
      V: set<Site>)
    returns (t: Turn, V': set<Site>)
    requires TypedHeap(E) && m < |E.T| && InfoOf(E.T, m).Struct? && WellTyped(E, m, a)
    requires Mapped(E.mem, a, Size(InfoOf(E.T, m))) && a < |E.mem| && k < |FieldsOf(E.T, m)|
    requires LoopOf(E, m, k, a, skip, s).FieldsOk? && Unshared(E, root, S) && Place(a, m, skip) in S
    requires Traced(E, root, S, s.refs, V) && Upto(V, a, k) && a in s.refs
    ensures LoopOf(E, m, k + 1, a, skip, t).FieldsOk? &&
      LoopOf(E, m, k + 1, a, skip, t).refs == LoopOf(E, m, k, a, skip, s).refs
    ensures Pointer !in LoopOf(E, m, k + 1, a, skip, t).late ==> Pointer !in LoopOf(E, m, k, a, skip, s).late
    ensures s.refs <= t.refs && Left(|E.mem|, t.refs) <= Left(|E.mem|, s.refs)
    ensures Traced(E, root, S, t.refs, V') && Upto(V', a, k + 1) && V <= V'
    ensures forall x :: x in V' && x !in V ==> x.place.at == a || x.place.at !in s.refs
    decreases Left(|E.mem|, s.refs), 0, 1
  {
    hide Ser, SerFields, Piece, Renumber, Unshared, Traced, Reached, WellTyped;
    var out;
    t, out := SerTurn(E.A, E.T, E.mem, FieldsOf(E.T, m), k, a, skip, s);
    LeftShrinks(|E.mem|, s.refs, t.refs);
    var f := FieldsOf(E.T, m)[k];
    var step := SerPlan(E.A, E.mem, f, a, s.osize);
    V' := V;
    if step.Visit? {
      FieldAskable(E, m, k, a, s.osize);
      var V1 := Follow(E, root, S, m, k, a, skip, s, V);
      V' := SerUnshared(E, root, S, f.mi, step.source, f.kind == Substruct, s.refs, step.osize, V1);
    }
  }

  /** Before a field is visited: its pointer, if it is one, counts as followed. */
  lemma {:induction false} Follow(E: Env, root: nat, S: set<Place>, m: nat, k: nat, a: nat, skip: bool, s: Turn,
      V: set<Site>)
    returns (V': set<Site>)
    requires TypedHeap(E) && m < |E.T| && k < |FieldsOf(E.T, m)| &&
      SerPlan(E.A, E.mem, FieldsOf(E.T, m)[k], a, s.osize).Visit?
    requires Unshared(E, root, S) && Place(a, m, skip) in S && Traced(E, root, S, s.refs, V) && Upto(V, a, k) &&
      a in s.refs
    requires FieldsOf(E.T, m)[k].kind == Pointer ==> Target(E, a + FieldsOf(E.T, m)[k].offset) in E.objs
    ensures var f := FieldsOf(E.T, m)[k];
      var step := SerPlan(E.A, E.mem, f, a, s.osize);
      && Place(step.source, f.mi, f.kind == Substruct) in S &&
         (f.kind != Substruct ==> Reached(E, root, V', step.source))
      && Pointer !in TooLate(f, skip, step.source, s.refs)
    ensures Traced(E, root, S, s.refs, V') && V <= V' && forall x :: x in V' && x !in V ==>
      x == Site(Place(a, m, skip), k)
  {
    var f := FieldsOf(E.T, m)[k];
    var site := Site(Place(a, m, skip), k);
    var p := site.place;
    assert p in S && FieldsOf(E.T, p.mi)[k] == f;
    V' := V;
    if f.kind == Pointer {
      var t := Target(E, a + f.offset);
      assert Aims(E, site, t);
      assert t in s.refs ==> Reached(E, root, V, t);
      V' := V + {site};
      forall u | u in s.refs && u in E.objs ensures Reached(E, root, V', u) {
        assert Reached(E, root, V, u);
      }
    }
  }
}
