/** Whole runs of the operations of include/sys/queue.h over any number of tail queues:
    elements are inserted, removed, moved from one queue to another, queues are
    emptied and concatenated. */
module TailQueueRuns {
  import opened TailQueue

  /** The queues in use: each head with its elements. */
  type Queues = map<Cell, seq<Cell>>

  /** No cell is in two places. */
  ghost predicate Separate(qs: Queues)
  {
    && (forall h :: h in qs ==> Distinct(h, qs[h]))
    && (forall g, h :: g in qs && h in qs && g != h ==> Apart(g, qs[g], h, qs[h]))
  }

  ghost predicate Apart(g: Cell, s: seq<Cell>, h: Cell, t: seq<Cell>)
  {
    g != h && g !in t && h !in s && forall i, j :: 0 <= i < |s| && 0 <= j < |t| ==> s[i] != t[j]
  }

  ghost function Footprint(qs: Queues): (f: set<Cell>)
    ensures forall h :: h in qs ==> h in f && forall i :: 0 <= i < |qs[h]| ==> qs[h][i] in f
  {
    assert forall h, i :: h in qs && 0 <= i < |qs[h]| ==> qs[h][i] in qs[h];
    qs.Keys + set h, c | h in qs && c in qs[h] :: c
  }

  /** Every head leads to its elements, in order. */
  ghost predicate Linked(qs: Queues)
    reads Footprint(qs)
  {
    Separate(qs) && forall h :: h in qs ==> Queue(h, qs[h])
  }

  datatype Op =
    | AtHead(head: Cell, elm: Cell)
    | AtTail(head: Cell, elm: Cell)
    | Following(head: Cell, listelm: Cell, elm: Cell)
    | Preceding(head: Cell, listelm: Cell, elm: Cell)
    | Without(head: Cell, elm: Cell)
    | Joining(head: Cell, elm: Cell)
    | Emptying(head: Cell)

  /** Position of x in s. */
  function Position<T(==)>(s: seq<T>, x: T): (i: nat)
    requires x in s
    ensures i < |s| && s[i] == x
  {
    if s[0] == x then 0 else 1 + Position(s[1..], x)
  }

  /** c is neither a head nor in a queue. */
  ghost predicate Free(qs: Queues, c: Cell)
  {
    c !in qs && forall h :: h in qs ==> c !in qs[h]
  }

  /** An operation on the elements of one queue. */
  predicate Single(op: Op)
  {
    !op.Joining? && !op.Emptying?
  }

  /** The element next to which one is inserted, or which is removed, is there. */
  predicate Finds(s: seq<Cell>, op: Op)
  {
    match op
    case Following(_, l, _) => l in s
    case Preceding(_, l, _) => l in s
    case Without(_, e) => e in s
    case _ => Single(op)
  }

  /** What the macros ask of their callers.  A head may be initialized at any time, and
      forgets its elements. */
  ghost predicate Legal(qs: Queues, op: Op)
  {
    if op.Joining? then op.head in qs && op.elm in qs && op.head != op.elm
    else if op.Emptying? then op.head in qs || Free(qs, op.head)
    else op.head in qs && Finds(qs[op.head], op) && (op.Without? || Free(qs, op.elm))
  }

  /** What an operation on one queue means for its sequence. */
  function Changed(s: seq<Cell>, op: Op): seq<Cell>
    requires Finds(s, op)
  {
    match op
    case AtHead(_, e) => [e] + s
    case AtTail(_, e) => s + [e]
    case Following(_, l, e) => var i := Position(s, l); s[..i] + [l, e] + s[i + 1..]
    case Preceding(_, l, e) => var i := Position(s, l); s[..i] + [e, l] + s[i + 1..]
    case Without(_, e) => var i := Position(s, e); s[..i] + s[i + 1..]
  }

  /** What an operation means for all the sequences. */
  ghost function Apply(qs: Queues, op: Op): Queues
    requires Legal(qs, op)
  {
    if op.Joining? then qs[op.head := qs[op.head] + qs[op.elm]][op.elm := []]
    else if op.Emptying? then qs[op.head := []]
    else qs[op.head := Changed(qs[op.head], op)]
  }

  ghost predicate AllLegal(qs: Queues, ops: seq<Op>, k: nat)
    decreases |ops| - k
  {
    k < |ops| ==> Legal(qs, ops[k]) && AllLegal(Apply(qs, ops[k]), ops, k + 1)
  }

  ghost function Meaning(qs: Queues, ops: seq<Op>, k: nat): Queues
    requires AllLegal(qs, ops, k)
    decreases |ops| - k
  {
    if k >= |ops| then qs else Meaning(Apply(qs, ops[k]), ops, k + 1)
  }

  // ---------- Queues stay apart ----------

  /** The queue of h changes to s, within its own cells and free ones. */
  lemma {:induction false} Replaced(qs: Queues, h: Cell, s: seq<Cell>)
    requires Separate(qs) && Distinct(h, s) && (h in qs || Free(qs, h))
    requires forall i :: 0 <= i < |s| ==> (h in qs && s[i] in qs[h]) || Free(qs, s[i])
    ensures Separate(qs[h := s])
  {
    var qs' := qs[h := s];
    forall g | g in qs && g != h ensures Apart(g, qs[g], h, s) && Apart(h, s, g, qs[g]) {
      forall i, j | 0 <= i < |qs[g]| && 0 <= j < |s| ensures qs[g][i] != s[j] {
        if h in qs && s[j] in qs[h] {
          assert Apart(g, qs[g], h, qs[h]);
        } else {
          assert qs[g][i] in qs[g];
        }
      }
      if h in qs {
        assert Apart(g, qs[g], h, qs[h]);
      }
    }
    forall g, g' | g in qs' && g' in qs' && g != g' ensures Apart(g, qs'[g], g', qs'[g']) {
      assert g != h && g' != h ==> Apart(g, qs[g], g', qs[g']);
    }
  }

  /** The elements of o go to the end of h. */
  lemma {:induction false} Merged(qs: Queues, h: Cell, o: Cell)
    requires Separate(qs) && h in qs && o in qs && h != o
    ensures Separate(qs[h := qs[h] + qs[o]][o := []])
  {
    assert Apart(h, qs[h], o, qs[o]);
    assert forall x :: x in qs[h] ==> x !in qs[o];
    JoinDistinct(h, qs[h], o, qs[o]);
    var qs' := qs[h := qs[h] + qs[o]][o := []];
    forall g, g' | g in qs' && g' in qs' && g != g' ensures Apart(g, qs'[g], g', qs'[g']) {
      assert Apart(g, qs[g], g', qs[g']);
      MergedApart(qs, h, o, g, g');
    }
  }

  lemma {:induction false} MergedApart(qs: Queues, h: Cell, o: Cell, g: Cell, g': Cell)
    requires Separate(qs) && h in qs && o in qs && h != o && g in qs && g' in qs && g != g'
    ensures var qs' := qs[h := qs[h] + qs[o]][o := []];
      Apart(g, qs'[g], g', qs'[g'])
  {
    assert Apart(g, qs[g], g', qs[g']) && Apart(h, qs[h], o, qs[o]);
    if g == h && g' != o {
      assert Apart(o, qs[o], g', qs[g']);
    }
    if g' == h && g != o {
      assert Apart(g, qs[g], o, qs[o]);
    }
  }

  lemma {:induction false} ChangedCells(s: seq<Cell>, op: Op)
    requires Finds(s, op)
    ensures forall i :: 0 <= i < |Changed(s, op)| ==>
      Changed(s, op)[i] in s || (!op.Without? && Changed(s, op)[i] == op.elm)
  {
  }

  lemma {:induction false} ApplySeparate(qs: Queues, op: Op)
    requires Separate(qs) && Legal(qs, op) && (Single(op) ==> Distinct(op.head, Changed(qs[op.head], op)))
    ensures Separate(Apply(qs, op))
  {
    hide Separate, Changed, Distinct;
    if op.Joining? {
      Merged(qs, op.head, op.elm);
    } else if op.Emptying? {
      NoneDistinct(op.head);
      Replaced(qs, op.head, []);
    } else {
      ChangedCells(qs[op.head], op);
      Replaced(qs, op.head, Changed(qs[op.head], op));
    }
  }

  lemma {:induction false} NoneDistinct(h: Cell)
    ensures Distinct(h, [])
  {
  }

  // ---------- Runs ----------

  /** The cells an operation is given. */
  function Given(op: Op): set<Cell>
  {
    {op.head} + if op.Emptying? then {} else {op.elm}
  }

  method Change(op: Op, ghost s: seq<Cell>)
    requires Finds(s, op) && Queue(op.head, s) && (op.Without? || (op.elm != op.head && op.elm !in s))
    modifies op.head, op.elm, s
    ensures Queue(op.head, Changed(s, op))
  {
    hide Queue;
    match op {
      case AtHead(h, e) =>
        InsertHead(h, e, s);
        assert Insert(s, 0, e) == [e] + s;
      case AtTail(h, e) =>
        InsertTail(h, e, s);
        assert Insert(s, |s|, e) == s + [e];
      case Following(h, l, e) =>
        ghost var i := Position(s, l);
        InsertAfter(h, l, e, s, i);
        assert Insert(s, i + 1, e) == s[..i] + [l, e] + s[i + 1..];
      case Preceding(h, l, e) =>
        ghost var i := Position(s, l);
        InsertBefore(h, l, e, s, i);
        assert Insert(s, i, e) == s[..i] + [e, l] + s[i + 1..];
      case Without(h, e) =>
        ghost var i := Position(s, e);
        Remove(h, e, s, i);
    }
  }

  /** The queues other than those of g and h. */
  ghost predicate LinkedBut(qs: Queues, g: Cell, h: Cell)
    reads Footprint(qs)
  {
    forall x :: x in qs && x != g && x != h ==> Queue(x, qs[x])
  }

  /** The cells of the queue of x are not among those of the operation. */
  lemma {:induction false} FarFrom(qs: Queues, op: Op, x: Cell)
    requires Separate(qs) && Legal(qs, op) && Single(op) && x in qs && x != op.head
    ensures x != op.elm && x !in qs[op.head]
    ensures forall i :: 0 <= i < |qs[x]| ==> qs[x][i] != op.head && qs[x][i] != op.elm && qs[x][i] !in qs[op.head]
  {
    hide Distinct;
    assert Apart(x, qs[x], op.head, qs[op.head]);
    forall i | 0 <= i < |qs[x]| ensures qs[x][i] != op.head && qs[x][i] != op.elm && qs[x][i] !in qs[op.head] {
      assert qs[x][i] in qs[x];
    }
  }

  method StepOne(op: Op, ghost qs: Queues)
    requires Linked(qs) && Legal(qs, op) && Single(op)
    modifies op.head, op.elm, qs[op.head]
    ensures Queue(op.head, Changed(qs[op.head], op)) && LinkedBut(qs, op.head, op.head)
  {
    hide Queue, Changed, Finds, Separate;
    Change(op, qs[op.head]);
    forall x | x in qs && x != op.head ensures Queue(x, qs[x]) {
      FarFrom(qs, op, x);
      assert old(Queue(x, qs[x]));
    }
  }

  method StepJoin(head: Cell, other: Cell, ghost qs: Queues)
    requires Linked(qs) && head in qs && other in qs && head != other
    modifies head, other, qs[head], qs[other]
    ensures Queue(head, qs[head] + qs[other]) && Queue(other, []) && LinkedBut(qs, head, other)
  {
    hide Queue, Distinct;
    assert Apart(head, qs[head], other, qs[other]);
    assert forall x :: x in qs[head] ==> x !in qs[other];
    Concat(head, other, qs[head], qs[other]);
    forall x | x in qs && x != head && x != other ensures Queue(x, qs[x]) {
      assert Apart(x, qs[x], head, qs[head]) && Apart(x, qs[x], other, qs[other]);
      assert old(Queue(x, qs[x]));
    }
  }

  method StepInit(head: Cell, ghost qs: Queues)
    requires Linked(qs) && (head in qs || Free(qs, head))
    modifies head
    ensures Queue(head, []) && LinkedBut(qs, head, head)
  {
    hide Queue, Distinct;
    Init(head);
    forall x | x in qs && x != head ensures Queue(x, qs[x]) {
      if head in qs {
        assert Apart(x, qs[x], head, qs[head]);
      }
      assert old(Queue(x, qs[x]));
    }
  }

  lemma {:induction false} QueueDistinct(head: Cell, s: seq<Cell>)
    requires Queue(head, s)
    ensures Distinct(head, s)
  {
  }

  method Step(op: Op, ghost qs: Queues)
    requires Linked(qs) && Legal(qs, op)
    modifies Footprint(qs), Given(op)
    ensures Linked(Apply(qs, op))
  {
    hide Queue, Changed, Finds, Separate, Distinct;
    match op {
      case Joining(h, o) => StepJoin(h, o, qs);
      case Emptying(h) => StepInit(h, qs);
      case _ =>
        StepOne(op, qs);
        QueueDistinct(op.head, Changed(qs[op.head], op));
    }
    ApplySeparate(qs, op);
  }

  /** The cells the operations are given. */
  function AllGiven(ops: seq<Op>): set<Cell>
  {
    set op, c | op in ops && c in Given(op) :: c
  }

  lemma {:induction false} ApplyFootprint(qs: Queues, op: Op)
    requires Legal(qs, op)
    ensures Footprint(Apply(qs, op)) <= Footprint(qs) + Given(op)
  {
    if Single(op) {
      ChangedCells(qs[op.head], op);
    }
  }

  /** Any run of operations on the linked cells is the same run on the sequences. */
  method Run(ops: seq<Op>, ghost qs: Queues)
    requires Linked(qs) && AllLegal(qs, ops, 0)
    modifies Footprint(qs), AllGiven(ops)
    ensures Linked(Meaning(qs, ops, 0))
  {
    hide Linked, Apply, Footprint, Legal;
    ghost var now := qs;
    var k := 0;
    while k < |ops|
      invariant k <= |ops| && Linked(now) && AllLegal(now, ops, k)
      invariant Footprint(now) <= Footprint(qs) + AllGiven(ops)
      invariant Meaning(now, ops, k) == Meaning(qs, ops, 0)
    {
      assert ops[k] in ops && Given(ops[k]) <= AllGiven(ops);
      Step(ops[k], now);
      ApplyFootprint(now, ops[k]);
      now := Apply(now, ops[k]);
      k := k + 1;
    }
  }
  /** Moving an element from one queue to the end of another is a legal run, and only
      these two queues change. */
  lemma {:induction false} Moved(qs: Queues, g: Cell, h: Cell, e: Cell)
    requires Separate(qs) && g in qs && h in qs && g != h && e in qs[g]
    ensures var ops, i := [Without(g, e), AtTail(h, e)], Position(qs[g], e);
      AllLegal(qs, ops, 0) && Meaning(qs, ops, 0) == qs[g := qs[g][..i] + qs[g][i + 1..]][h := qs[h] + [e]]
  {
    var ops, i := [Without(g, e), AtTail(h, e)], Position(qs[g], e);
    var qs1 := Apply(qs, ops[0]);
    assert Distinct(g, qs[g]) && e !in qs1[g];
    forall x | x in qs && x != g ensures x != e && e !in qs[x] {
      assert Apart(g, qs[g], x, qs[x]);
    }
    assert Free(qs1, e);
    var qs2 := Apply(qs1, ops[1]);
    assert AllLegal(qs2, ops, 2) && Meaning(qs2, ops, 2) == qs2;
    assert AllLegal(qs1, ops, 1) && Meaning(qs1, ops, 1) == qs2;
  }
}
