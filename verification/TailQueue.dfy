/** The tail queue of include/sys/queue.h (TAILQ_*).

    A head is a pair (first, last) and an entry a pair (next, prev) of the same
    layout.  `last` and `prev` are addresses of slots: of the `first` slot of the head
    or of the `next` slot of an element.  TAILQ_LAST and TAILQ_PREV rely on the
    common layout, reading the second word of whatever holds the slot.  So heads and
    entries are both a Cell here, and the address of a slot is the cell it is in. */
module TailQueue {

  class Cell {
    var next: Cell?
    var prev: Cell?
  }

  // A queue of n elements has n + 1 joints.  Joint i is between the cell whose `next`
  // slot leads to position i and the cell whose `prev` slot leads back from it.

  ghost function Before(head: Cell, s: seq<Cell>, i: nat): Cell
    requires i <= |s|
  {
    if i == 0 then head else s[i - 1]
  }

  ghost function After(head: Cell, s: seq<Cell>, i: nat): Cell
    requires i <= |s|
  {
    if i < |s| then s[i] else head
  }

  ghost predicate Joint(head: Cell, s: seq<Cell>, i: nat)
    requires i <= |s|
    reads head, s
  {
    && Before(head, s, i).next == (if i < |s| then s[i] else null)
    && After(head, s, i).prev == Before(head, s, i)
  }

  ghost predicate Distinct(head: Cell, s: seq<Cell>)
  {
    head !in s && forall i, j :: 0 <= i < j < |s| ==> s[i] != s[j]
  }

  /** `head` is the head of a queue whose elements are s, in that order. */
  ghost predicate Queue(head: Cell, s: seq<Cell>)
    reads head, s
  {
    Distinct(head, s) && forall i :: 0 <= i <= |s| ==> Joint(head, s, i)
  }

  /** s with e inserted before position i. */
  function Insert<T>(s: seq<T>, i: nat, e: T): seq<T>
    requires i <= |s|
  {
    s[..i] + [e] + s[i..]
  }

  function Delete<T>(s: seq<T>, i: nat): seq<T>
    requires i < |s|
  {
    s[..i] + s[i + 1..]
  }

  // ---------- What relinking a joint does to the whole queue ----------

  lemma {:induction false} InsertDistinct(head: Cell, s: seq<Cell>, i: nat, elm: Cell)
    requires Distinct(head, s) && i <= |s| && elm != head && elm !in s
    ensures Distinct(head, Insert(s, i, elm))
  {
  }

  lemma {:induction false} DeleteDistinct(head: Cell, s: seq<Cell>, i: nat)
    requires Distinct(head, s) && i < |s|
    ensures Distinct(head, Delete(s, i)) && s[i] !in Delete(s, i)
  {
  }

  lemma {:induction false} JoinDistinct(head: Cell, s: seq<Cell>, other: Cell, t: seq<Cell>)
    requires Distinct(head, s) && Distinct(other, t) && head !in t && forall x :: x in s ==> x !in t
    ensures Distinct(head, s + t)
  {
    var u := s + t;
    forall i, j | 0 <= i < j < |u| ensures u[i] != u[j] {
      if i < |s| <= j {
        assert u[i] in s && u[j] in t;
      }
    }
  }

  /** Joints do not share slots. */
  lemma {:induction false} JointsApart(head: Cell, s: seq<Cell>)
    requires Distinct(head, s)
    ensures forall i, j :: 0 <= i <= |s| && 0 <= j <= |s| && i != j ==> Before(head, s, i) != Before(head, s, j)
    ensures forall i, j :: 0 <= i <= |s| && 0 <= j <= |s| && i != j ==> After(head, s, i) != After(head, s, j)
  {
  }

  /** One joint is replaced by two. */
  lemma {:induction false} Inserted(head: Cell, s: seq<Cell>, i: nat, elm: Cell)
    requires Distinct(head, s) && i <= |s| && elm != head && elm !in s
    requires forall j :: 0 <= j <= |s| && j != i ==> Joint(head, s, j)
    requires Before(head, s, i).next == elm && elm.prev == Before(head, s, i)
    requires elm.next == (if i < |s| then s[i] else null) && After(head, s, i).prev == elm
    ensures Queue(head, Insert(s, i, elm))
  {
    hide Distinct;
    var t := Insert(s, i, elm);
    InsertDistinct(head, s, i, elm);
    forall j | 0 <= j <= |t| ensures Joint(head, t, j) {
      if j < i {
        assert Joint(head, s, j);
        assert Before(head, t, j) == Before(head, s, j) && After(head, t, j) == After(head, s, j);
      } else if j > i + 1 {
        assert Joint(head, s, j - 1);
        assert Before(head, t, j) == Before(head, s, j - 1) && After(head, t, j) == After(head, s, j - 1);
      }
    }
  }

  /** Two joints are merged. */
  lemma {:induction false} Deleted(head: Cell, s: seq<Cell>, i: nat)
    requires Distinct(head, s) && i < |s|
    requires forall j :: 0 <= j <= |s| && j != i && j != i + 1 ==> Joint(head, s, j)
    requires Before(head, s, i).next == (if i + 1 < |s| then s[i + 1] else null)
    requires After(head, s, i + 1).prev == Before(head, s, i)
    ensures Queue(head, Delete(s, i))
  {
    hide Distinct;
    var t := Delete(s, i);
    DeleteDistinct(head, s, i);
    forall j | 0 <= j <= |t| ensures Joint(head, t, j) {
      if j < i {
        assert Joint(head, s, j);
        assert Before(head, t, j) == Before(head, s, j) && After(head, t, j) == After(head, s, j);
      } else if j > i {
        assert Joint(head, s, j + 1);
        assert Before(head, t, j) == Before(head, s, j + 1) && After(head, t, j) == After(head, s, j + 1);
      } else {
        assert Before(head, t, i) == Before(head, s, i) && After(head, t, i) == After(head, s, i + 1);
      }
    }
  }

  /** The end of one queue meets the start of another. */
  lemma {:induction false} Joined(head: Cell, s: seq<Cell>, other: Cell, t: seq<Cell>)
    requires Distinct(head, s) && Distinct(other, t) && t != [] && head !in t && forall x :: x in s ==> x !in t
    requires forall j :: 0 <= j < |s| ==> Joint(head, s, j)
    requires forall j :: 0 < j < |t| ==> Joint(other, t, j)
    requires Before(head, s, |s|).next == t[0] && t[0].prev == Before(head, s, |s|)
    requires t[|t| - 1].next == null && head.prev == t[|t| - 1]
    ensures Queue(head, s + t)
  {
    hide Distinct;
    var u := s + t;
    JoinDistinct(head, s, other, t);
    forall j | 0 <= j <= |u| ensures Joint(head, u, j) {
      if j < |s| {
        assert Joint(head, s, j);
        assert Before(head, u, j) == Before(head, s, j) && After(head, u, j) == After(head, s, j);
      } else if |s| < j < |u| {
        assert Joint(other, t, j - |s|);
        assert Before(head, u, j) == Before(other, t, j - |s|) && After(head, u, j) == After(other, t, j - |s|);
      } else if j == |s| {
        assert Before(head, u, j) == Before(head, s, j) && After(head, u, j) == t[0];
      }
    }
  }

  // ---------- Operations ----------

  method Init(head: Cell)
    modifies head
    ensures Queue(head, [])
  {
    head.next := null;
    head.prev := head;
  }

  method InsertHead(head: Cell, elm: Cell, ghost s: seq<Cell>)
    requires Queue(head, s) && elm != head && elm !in s
    modifies head, elm, s
    ensures Queue(head, Insert(s, 0, elm))
  {
    JointsApart(head, s);
    assert Joint(head, s, 0);
    elm.next := head.next;
    if elm.next != null {
      head.next.prev := elm;
    } else {
      head.prev := elm;
    }
    head.next := elm;
    elm.prev := head;
    forall j | 0 <= j <= |s| && j != 0 ensures Joint(head, s, j) {
      assert old(Joint(head, s, j));
    }
    Inserted(head, s, 0, elm);
  }

  method InsertTail(head: Cell, elm: Cell, ghost s: seq<Cell>)
    requires Queue(head, s) && elm != head && elm !in s
    modifies head, elm, s
    ensures Queue(head, Insert(s, |s|, elm))
  {
    JointsApart(head, s);
    assert Joint(head, s, |s|);
    elm.next := null;
    elm.prev := head.prev;
    head.prev.next := elm;
    head.prev := elm;
    forall j | 0 <= j <= |s| && j != |s| ensures Joint(head, s, j) {
      assert old(Joint(head, s, j));
    }
    Inserted(head, s, |s|, elm);
  }

  method InsertAfter(head: Cell, listelm: Cell, elm: Cell, ghost s: seq<Cell>, ghost i: nat)
    requires Queue(head, s) && elm != head && elm !in s && i < |s| && s[i] == listelm
    modifies head, elm, s
    ensures Queue(head, Insert(s, i + 1, elm))
  {
    JointsApart(head, s);
    assert Joint(head, s, i + 1);
    elm.next := listelm.next;
    if elm.next != null {
      elm.next.prev := elm;
    } else {
      head.prev := elm;
    }
    listelm.next := elm;
    elm.prev := listelm;
    forall j | 0 <= j <= |s| && j != i + 1 ensures Joint(head, s, j) {
      assert old(Joint(head, s, j));
    }
    Inserted(head, s, i + 1, elm);
  }

  method InsertBefore(ghost head: Cell, listelm: Cell, elm: Cell, ghost s: seq<Cell>, ghost i: nat)
    requires Queue(head, s) && elm != head && elm !in s && i < |s| && s[i] == listelm
    modifies head, elm, s
    ensures Queue(head, Insert(s, i, elm))
  {
    JointsApart(head, s);
    assert Joint(head, s, i);
    elm.prev := listelm.prev;
    elm.next := listelm;
    listelm.prev.next := elm;
    listelm.prev := elm;
    forall j | 0 <= j <= |s| && j != i ensures Joint(head, s, j) {
      assert old(Joint(head, s, j));
    }
    Inserted(head, s, i, elm);
  }

  method Remove(head: Cell, elm: Cell, ghost s: seq<Cell>, ghost i: nat)
    requires Queue(head, s) && i < |s| && s[i] == elm
    modifies head, s
    ensures Queue(head, Delete(s, i))
  {
    JointsApart(head, s);
    assert Joint(head, s, i) && Joint(head, s, i + 1);
    if elm.next != null {
      elm.next.prev := elm.prev;
    } else {
      head.prev := elm.prev;
    }
    elm.prev.next := elm.next;
    forall j | 0 <= j <= |s| && j != i && j != i + 1 ensures Joint(head, s, j) {
      assert old(Joint(head, s, j));
    }
    Deleted(head, s, i);
  }

  method Concat(head1: Cell, head2: Cell, ghost s: seq<Cell>, ghost t: seq<Cell>)
    requires Queue(head1, s) && Queue(head2, t)
    requires head1 != head2 && head1 !in t && head2 !in s && forall x :: x in s ==> x !in t
    modifies head1, head2, s, t
    ensures Queue(head1, s + t) && Queue(head2, [])
  {
    JointsApart(head1, s);
    JointsApart(head2, t);
    assert Joint(head1, s, |s|) && Joint(head2, t, 0) && Joint(head2, t, |t|);
    assert s != [] ==> s[|s| - 1] in s;
    assert t != [] ==> t[0] in t && t[|t| - 1] in t;
    if head2.next != null {
      head1.prev.next := head2.next;
      head2.next.prev := head1.prev;
      head1.prev := head2.prev;
      Init(head2);
      forall j | 0 <= j < |s| ensures Joint(head1, s, j) {
        assert old(Joint(head1, s, j));
      }
      forall j | 0 < j < |t| ensures Joint(head2, t, j) {
        assert old(Joint(head2, t, j));
      }
      Joined(head1, s, head2, t);
    } else {
      assert s + t == s;
    }
  }

  // ---------- Access ----------

  method Last(head: Cell, ghost s: seq<Cell>) returns (r: Cell?)
    requires Queue(head, s)
    ensures r == if s == [] then null else s[|s| - 1]
  {
    assert Joint(head, s, |s|) && (s != [] ==> Joint(head, s, |s| - 1));
    r := head.prev.prev.next;
  }

  method Prev(elm: Cell, ghost head: Cell, ghost s: seq<Cell>, ghost i: nat) returns (r: Cell?)
    requires Queue(head, s) && i < |s| && s[i] == elm
    ensures r == if i == 0 then null else s[i - 1]
  {
    assert Joint(head, s, i) && Joint(head, s, |s|) && (i > 0 ==> Joint(head, s, i - 1));
    r := elm.prev.prev.next;
  }

  // ---------- Traversals ----------

  function Reversed<T>(s: seq<T>): (r: seq<T>)
    ensures |r| == |s|
  {
    seq(|s|, i requires 0 <= i < |s| => s[|s| - 1 - i])
  }

  /** TAILQ_FOREACH. */
  method Forward(head: Cell, ghost s: seq<Cell>) returns (visited: seq<Cell>)
    requires Queue(head, s)
    ensures visited == s
  {
    visited := [];
    var x := First(head, s);
    while x != null
      invariant |visited| <= |s| && visited == s[..|visited|]
      invariant x == if |visited| < |s| then s[|visited|] else null
      decreases |s| - |visited|
    {
      visited := visited + [x];
      assert Joint(head, s, |visited|);
      x := x.next;
    }
  }

  /** TAILQ_FOREACH_REVERSE. */
  method Backward(head: Cell, ghost s: seq<Cell>) returns (visited: seq<Cell>)
    requires Queue(head, s)
    ensures visited == Reversed(s)
  {
    visited := [];
    var x := Last(head, s);
    while x != null
      invariant |visited| <= |s| && visited == Reversed(s)[..|visited|]
      invariant x == if |visited| == |s| then null else s[|s| - 1 - |visited|]
      decreases |s| - |visited|
    {
      ghost var i := |s| - 1 - |visited|;
      visited := visited + [x];
      x := Prev(x, head, s, i);
    }
  }

  /** Elements of s from position i on that are not doomed. */
  function Kept<T(==)>(s: seq<T>, i: nat, doomed: set<T>): seq<T>
    decreases |s| - i
  {
    if i >= |s| then []
    else (if s[i] in doomed then [] else [s[i]]) + Kept(s, i + 1, doomed)
  }

  /** The cleanup loop: the successor is read before the current element is removed
      and its memory is reused, and every original element is visited once. */
  method Cleanup(head: Cell, doomed: set<Cell>, ghost s: seq<Cell>) returns (visited: seq<Cell>)
    requires Queue(head, s)
    modifies head, s
    ensures visited == s && Queue(head, Kept(s, 0, doomed))
  {
    hide Queue, Kept;
    visited := [];
    ghost var done: seq<Cell> := [];
    ghost var rest := s;
    assert done + rest == s;
    var x := First(head, s);
    while x != null
      invariant visited + rest == s && Queue(head, done + rest)
      invariant x == if rest != [] then rest[0] else null
      invariant (forall c :: c in done ==> c in s) && (forall c :: c in rest ==> c in s)
      invariant done + Kept(s, |visited|, doomed) == Kept(s, 0, doomed)
      decreases |rest|
    {
      var y: Cell := x;
      assert s[|visited|] == y && y in s && rest == [y] + rest[1..];
      assert done + rest == done + [y] + rest[1..];
      KeptNext(s, |visited|, doomed, done);
      x := Next(y, head, done, rest[1..]);
      if y in doomed {
        Discard(head, y, done, rest[1..], s);
      } else {
        done := done + [y];
      }
      visited := visited + [y];
      rest := rest[1..];
    }
    KeptEnd(s, doomed);
    assert done + rest == done && visited == s;
    assert done == Kept(s, 0, doomed);
  }

  lemma {:induction false} KeptNext<T>(s: seq<T>, i: nat, doomed: set<T>, done: seq<T>)
    requires i < |s|
    ensures s[i] in doomed ==> Kept(s, i, doomed) == Kept(s, i + 1, doomed)
    ensures s[i] !in doomed ==> done + Kept(s, i, doomed) == done + [s[i]] + Kept(s, i + 1, doomed)
  {
  }

  lemma {:induction false} KeptEnd<T>(s: seq<T>, doomed: set<T>)
    ensures Kept(s, |s|, doomed) == []
  {
  }

  /** TAILQ_FIRST. */
  method First(head: Cell, ghost s: seq<Cell>) returns (r: Cell?)
    requires Queue(head, s)
    ensures r == if s == [] then null else s[0]
  {
    assert Joint(head, s, 0);
    r := head.next;
  }

  /** TAILQ_NEXT. */
  method Next(elm: Cell, ghost head: Cell, ghost s: seq<Cell>, ghost t: seq<Cell>) returns (r: Cell?)
    requires Queue(head, s + [elm] + t)
    ensures r == if t == [] then null else t[0]
  {
    assert Joint(head, s + [elm] + t, |s| + 1);
    r := elm.next;
  }

  /** Remove an element and free it. */
  method Discard(head: Cell, elm: Cell, ghost s: seq<Cell>, ghost t: seq<Cell>, ghost region: seq<Cell>)
    requires Queue(head, s + [elm] + t) && forall c :: c in s + [elm] + t ==> c in region
    modifies head, region
    ensures Queue(head, s + t)
  {
    ghost var all := s + [elm] + t;
    assert elm in all && forall i :: 0 <= i < |all| ==> all[i] in region;
    Remove(head, elm, all, |s|);
    assert Delete(all, |s|) == s + t;
    DeleteDistinct(head, all, |s|);
    Reuse(elm, head, s + t);
  }

  /** free(): the memory of x may hold anything afterwards. */
  method Reuse(x: Cell, ghost head: Cell, ghost s: seq<Cell>)
    requires Queue(head, s) && x != head && x !in s
    modifies x
    ensures Queue(head, s)
  {
    x.next, x.prev := *, *;
    assert forall j :: 0 <= j <= |s| ==> old(Joint(head, s, j)) ==> Joint(head, s, j);
  }
}
