/** The marshaller's contract: serialize, send the bytes, unserialize. */
module MarshalTheorems {
  import opened Bytes
  import opened Marshal
  import opened MarshalHeap
  import opened MarshalLookup
  import opened MarshalGrow
  import opened MarshalObject
  import opened MarshalRoundTrip
  import opened MarshalReach
  import opened MarshalSpace
  import opened MarshalLate
  import opened MarshalCopy
  import opened MarshalShare
  import opened MarshalOrder
  import MarshalWire

  /** marshal_serialize() and marshal_unserialize(). */
  function Serialize(E: Env, root: nat): SerResult
    requires root in E.objs
  {
    Ser(E.A, E.T, E.mem, E.objs[root].mi, root, false, [], 0)
  }

  function Unserialize(A: Arch, T: Table, m: nat, buf: seq<byte>): UnResult
  {
    Un(A, T, m, buf, 0, [], 0, 0, false, 0)
  }

  /** A structure to serialize, in a well-typed heap whose objects do not overlap;
      E.refs is what the serializer meets. */
  ghost predicate Source(E: Env, root: nat)
  {
    && GoodHeap(E) && Spaced(E) && ValidAlloc(E.A, |E.refs|)
    && root in E.objs && !InfoOf(E.T, E.objs[root].mi).FixedString?
    && Serialize(E, root).Ok? && Serialize(E, root).refs == E.refs
  }

  lemma {:induction false} SourceFacts(E: Env, root: nat)
    requires Source(E, root)
    ensures Substruct !in Serialize(E, root).late && Distinct(E.refs) && Explored(E, [], E.refs) && root in E.refs
    ensures Tidy(E, E.objs[root].mi, root, false, [], 0, 0)
  {
    var m := E.objs[root].mi;
    SerTidy(E, m, root, false, [], 0, 0);
    SerDistinct(E, m, root, false, [], 0);
    SerCloses(E, m, root, false, [], 0);
    SerFacts(E.A, E.T, E.mem, m, root, false, [], 0);
  }

  /** On a well-typed heap, cyclic or not, the serializer terminates and succeeds. */
  lemma {:induction false} SerializeSucceeds(E: Env, root: nat)
    requires TypedHeap(E) && root in E.objs && !InfoOf(E.T, E.objs[root].mi).FixedString?
    ensures Serialize(E, root).Ok?
  {
    SerSucceeds(E, E.objs[root].mi, root, false, [], 0);
  }

  /** The round trip yields the copy, whatever bytes follow, unless a pointer held
      inside a substructure found its target already serialized. */
  lemma {:induction false} RoundTripUnlessLate(E: Env, root: nat, x: seq<byte>)
    requires Source(E, root)
    ensures var r := Serialize(E, root);
      Unserialize(E.A, E.T, E.objs[root].mi, r.out + x) == Done(|r.out|, AllCopies(E)) <==> Pointer !in r.late
  {
    SourceFacts(E, root);
    var r := Serialize(E, root);
    LateKinds(E, E.objs[root].mi, root, false, [], 0);
    SourceReady(E, root, x);
    if Pointer !in r.late {
      NoKind(r.late);
      RoundTrips(E, root, x);
    } else {
      DoesNotRoundTrip(E, root, x);
    }
  }

  /** A condition on the heap: pointers being followed depth first, none of those held
      inside substructures aims at the root or where an earlier one does. */
  lemma {:induction false} RoundTripIff(E: Env, root: nat, x: seq<byte>)
    requires Source(E, root)
    ensures var r := Serialize(E, root);
      Unserialize(E.A, E.T, E.objs[root].mi, r.out + x) == Done(|r.out|, AllCopies(E)) <==> !SharedInside(E, root)
  {
    hide Ser, Un, SharedInside, Spaced, WellTyped, GoodTable;
    SourceFacts(E, root);
    SerializerFollowsOrder(E, root);
    RoundTripUnlessLate(E, root, x);
  }

  /** In particular when nothing else aims at what the pointers inside
      substructures aim at, list heads owning their elements for instance. */
  lemma {:induction false} RoundTripUnshared(E: Env, root: nat, S: set<Place>, x: seq<byte>)
    requires Source(E, root) && Unshared(E, root, S)
    ensures Unserialize(E.A, E.T, E.objs[root].mi, Serialize(E, root).out + x) ==
      Done(|Serialize(E, root).out|, AllCopies(E))
  {
    hide Unshared, GoodHeap, Spaced, Ser;
    assert Traced(E, root, S, [], {});
    SourceAskable(E, root);
    UnsharedRoot(E, root, S);
    var V := SerUnshared(E, root, S, E.objs[root].mi, root, false, [], 0, {});
    RoundTripUnlessLate(E, root, x);
  }

  lemma {:induction false} SourceAskable(E: Env, root: nat)
    requires Source(E, root)
    ensures Askable(E, E.objs[root].mi, root, false, 0)
  {
    hide WellTyped, GoodTable, ValidArch;
  }

  lemma {:induction false} UnsharedRoot(E: Env, root: nat, S: set<Place>)
    requires Source(E, root) && Unshared(E, root, S)
    ensures Place(root, E.objs[root].mi, false) in S
  {
  }

  lemma {:induction false} NoKind(late: set<Kind>)
    requires Pointer !in late && Substruct !in late && Ignore !in late
    ensures late == {}
  {
    forall k: Kind ensures k !in late {
      match k
      case Pointer =>
      case Substruct =>
      case Ignore =>
    }
  }

  lemma {:induction false} SourceReady(E: Env, root: nat, x: seq<byte>)
    requires Source(E, root)
    ensures var r := Serialize(E, root);
      Ready(E, E.objs[root].mi, root, false, [], 0, r.out, E.refs, r.late, r.out + x, 0, [], 0, 0, 0)
  {
    var r := Serialize(E, root);
    assert (r.out + x)[0..|r.out|] == r.out;
  }

  lemma {:induction false} RoundTrips(E: Env, root: nat, x: seq<byte>)
    requires Source(E, root) && Serialize(E, root).late == {}
    requires var r := Serialize(E, root);
      Ready(E, E.objs[root].mi, root, false, [], 0, r.out, E.refs, r.late, r.out + x, 0, [], 0, 0, 0)
    ensures var r := Serialize(E, root);
      Unserialize(E.A, E.T, E.objs[root].mi, r.out + x) == Done(|r.out|, AllCopies(E))
  {
    var r := Serialize(E, root);
    SimRecord(E, E.objs[root].mi, root, false, [], 0, r.out, E.refs, r.out + x, 0, [], 0, 0, 0);
    assert Grow(E, [], |E.refs|) == AllCopies(E);
  }

  lemma {:induction false} DoesNotRoundTrip(E: Env, root: nat, x: seq<byte>)
    requires Source(E, root) && Pointer in Serialize(E, root).late && Substruct !in Serialize(E, root).late
    requires var r := Serialize(E, root);
      Ready(E, E.objs[root].mi, root, false, [], 0, r.out, E.refs, r.late, r.out + x, 0, [], 0, 0, 0)
    ensures var r := Serialize(E, root);
      Unserialize(E.A, E.T, E.objs[root].mi, r.out + x) != Done(|r.out|, AllCopies(E))
  {
    var r := Serialize(E, root);
    if Unserialize(E.A, E.T, E.objs[root].mi, r.out + x).Done? {
      var j, y := LateRecord(E, E.objs[root].mi, root, false, [], 0, r.out, E.refs, r.late, r.out + x, 0, [], 0, 0, 0,
        []);
    }
  }

  /** Only substructures and pointers can come late. */
  lemma {:induction false} LateKinds(E: Env, m: nat, a: nat, skip: bool, refs: seq<nat>, osize: int)
    requires Ser(E.A, E.T, E.mem, m, a, skip, refs, osize).Ok?
    ensures Ignore !in Ser(E.A, E.T, E.mem, m, a, skip, refs, osize).late
    decreases Left(|E.mem|, refs), 0, 0
  {
    if a !in refs && InfoOf(E.T, m).Struct? {
      var s := SerStruct(E.A, E.T, E.mem, m, a, skip, refs, osize);
      LeftDrops(|E.mem|, refs, a);
      LateFieldKinds(E, m, 0, a, skip, s);
    }
  }

  lemma {:induction false} LateFieldKinds(E: Env, m: nat, k: nat, a: nat, skip: bool, s: Turn)
    requires LoopOf(E, m, k, a, skip, s).FieldsOk?
    ensures Ignore !in LoopOf(E, m, k, a, skip, s).late
    decreases Left(|E.mem|, s.refs), 1, |FieldsOf(E.T, m)| - k
  {
    if k < |FieldsOf(E.T, m)| {
      hide Ser, SerFields, Piece, Renumber;
      var f := FieldsOf(E.T, m)[k];
      var t, out := SerTurn(E.A, E.T, E.mem, FieldsOf(E.T, m), k, a, skip, s);
      LeftShrinks(|E.mem|, s.refs, t.refs);
      LateFieldKinds(E, m, k + 1, a, skip, t);
      var step := SerPlan(E.A, E.mem, f, a, s.osize);
      if step.Visit? {
        LateKinds(E, f.mi, step.source, f.kind == Substruct, s.refs, step.osize);
      }
    }
  }

  /** Exactly the objects reachable from the root are emitted, each once: the
      addresses met are distinct, the objects among them form a closed set with the
      root in it, and every such set includes them. */
  lemma {:induction false} EmitsReachable(E: Env, root: nat, S: set<nat>)
    requires Source(E, root)
    ensures Distinct(E.refs) && root in E.refs && Closed(E, Elements(E.refs))
    ensures root in S && Closed(E, S) ==> forall t :: t in E.refs && t in E.objs ==> t in S
  {
    hide GoodHeap, Spaced, Ser, AimsInto;
    SourceFacts(E, root);
    SourceAskable(E, root);
    if root in S && Closed(E, S) {
      SerStays(E, E.objs[root].mi, root, false, [], 0, S);
    }
  }

  /** Copies carry dummies from 1..n, n being the number of addresses met, in the
      order the objects are met, so no two share one. */
  lemma {:induction false} DummiesInOrder(E: Env, root: nat)
    requires Source(E, root)
    ensures forall j :: 0 <= j < |AllCopies(E)| ==>
      1 <= AllCopies(E)[j].orig <= |E.refs| && E.refs[AllCopies(E)[j].orig - 1] in E.objs
    ensures forall i, j :: 0 <= i < j < |AllCopies(E)| ==> AllCopies(E)[i].orig < AllCopies(E)[j].orig
  {
    hide Source, Copies;
    forall j | 0 <= j < |AllCopies(E)|
      ensures 1 <= AllCopies(E)[j].orig <= |E.refs| && E.refs[AllCopies(E)[j].orig - 1] in E.objs
    {
      OrigAt(E, |E.refs|, j);
    }
    forall i, j | 0 <= i < j < |AllCopies(E)| ensures AllCopies(E)[i].orig < AllCopies(E)[j].orig {
      OrigsIncrease(E, i, j);
    }
  }

  lemma {:induction false} OrigsIncrease(E: Env, i: nat, j: nat)
    requires i < j < |AllCopies(E)|
    ensures AllCopies(E)[i].orig < AllCopies(E)[j].orig
  {
    hide Copies, Rank;
    OrigAt(E, |E.refs|, i);
    OrigAt(E, |E.refs|, j);
    var x, y := AllCopies(E)[i].orig, AllCopies(E)[j].orig;
    if y <= x {
      RankGrows(E, y - 1, x - 1);
    }
  }

  /** The copy is isomorphic to what is reachable from the root: paths of pointers
      lead to corresponding objects, distinct objects have distinct copies. */
  lemma {:induction false} CopyIsomorphic(E: Env, root: nat, path: seq<nat>)
    requires Source(E, root) && Walkable(E, root, path)
    ensures IndexOfCopy(E, root) == 0
    ensures match Walk(E, root, path)
      case None => WalkCopy(E.A, AllCopies(E), 0, path) == None
      case Some(u) => u in E.refs && u in E.objs && WalkCopy(E.A, AllCopies(E), 0, path) == Some(IndexOfCopy(E, u))
    ensures forall t, u :: t in E.refs && t in E.objs && u in E.refs && u in E.objs && t != u ==>
      IndexOfCopy(E, t) != IndexOfCopy(E, u)
  {
    SourceFacts(E, root);
    RootFirst(E, root);
    WalksAgree(E, root, path, 0);
    forall t, u | t in E.refs && t in E.objs && u in E.refs && u in E.objs && t != u
      ensures IndexOfCopy(E, t) != IndexOfCopy(E, u)
    {
      CopiesDiffer(E, t, u);
    }
  }

  lemma {:induction false} RootFirst(E: Env, root: nat)
    requires Source(E, root)
    ensures IndexOfCopy(E, root) == 0
  {
    SerFacts(E.A, E.T, E.mem, E.objs[root].mi, root, false, [], 0);
    assert E.refs[0] == ([] + [root])[0];
  }

  lemma {:induction false} SourceComplete(E: Env, root: nat)
    requires Source(E, root)
    ensures Complete(E)
  {
    hide GoodHeap, Spaced, Ser, Explored;
    SourceFacts(E, root);
  }

  /** Bytes of an object outside pointers and ignored slots are copied; ignored
      slots are null; a fixed string gains a terminating null byte. */
  lemma {:induction false} CopyContents(E: Env, root: nat, t: nat)
    requires Source(E, root) && t in E.refs && t in E.objs
    ensures IndexOfCopy(E, t) < |AllCopies(E)|
    ensures var data, m := AllCopies(E)[IndexOfCopy(E, t)].data, E.objs[t].mi;
      match InfoOf(E.T, m)
      case NullString => data == Load(E.mem, t, E.objs[t].len)
      case FixedString => data == Load(E.mem, t, E.objs[t].len) + [0]
      case Struct(size, _) =>
        && |data| == size
        && (forall x: nat :: x < size && PlainByte(E.T, m, x) ==> data[x] == At(E.mem, t + x))
        && (forall x: nat :: SlotAt(E.T, m, x, Ignore) ==> Slice(data, x, PTR) == Zeros(PTR))
  {
    hide Source, Patch, GoodTable, SlotAt, PlainByte, Explored, Distinct;
    SourceComplete(E, root);
    CopyBlock(E, t);
    var m := E.objs[t].mi;
    if InfoOf(E.T, m).Struct? {
      var size := Size(InfoOf(E.T, m));
      forall x: nat | x < size && PlainByte(E.T, m, x) ensures Image(E, t)[x] == At(E.mem, t + x) {
        PlainKept(E, m, t, Load(E.mem, t, size), 0, x);
      }
      forall x: nat | SlotAt(E.T, m, x, Ignore) ensures Slice(Image(E, t), x, PTR) == Zeros(PTR) {
        IgnoredNull(E, m, t, Load(E.mem, t, size), x);
      }
    }
  }

  lemma {:induction false} IgnoredNull(E: Env, m: nat, a: nat, D: seq<byte>, x: nat)
    requires ValidArch(E.A) && GoodTable(E.T) && m < |E.T| && |D| == Size(InfoOf(E.T, m)) && SlotAt(E.T, m, x, Ignore)
    ensures Slice(Patch(E, m, 0, a, D, 0), x, PTR) == Zeros(PTR)
  {
    hide Patch, SlotAt;
    var data := Patch(E, m, 0, a, D, 0);
    SlotPatched(E, m, a, D, 0, x, Ignore, 0);
    forall z | x <= z < x + PTR ensures data[z] == Zeros(PTR)[z - x] {
      SlotPatched(E, m, a, D, 0, x, Ignore, z - x);
    }
    assert data[x..x + PTR] == Zeros(PTR);
  }

  /** Every strict prefix of what the serializer wrote is refused, when the whole of it
      is read back. */
  lemma {:induction false} TruncationRefused(E: Env, root: nat, cut: nat)
    requires Source(E, root) && !SharedInside(E, root) && cut < |Serialize(E, root).out|
    ensures Unserialize(E.A, E.T, E.objs[root].mi, Serialize(E, root).out[..cut]) == Fail
  {
    hide SharedInside;
    var out := Serialize(E, root).out;
    RoundTripIff(E, root, []);
    assert out + [] == out;
    MarshalWire.PrefixRejected(E.A, E.T, E.objs[root].mi, out, cut, 0);
  }
}
