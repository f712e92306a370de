/** Expiry of neighbours: the timer of src/daemon/event.c and the cleanup of
    src/lldpd-structs.c (built without OVSDB). */
module Expiry {

  /** A chassis is shared by the ports that were learnt from it. */
  class Chassis {
    const ttl: int
    var refcount: int

    constructor (t: int)
      ensures ttl == t && refcount == 0
    {
      ttl, refcount := t, 0;
    }
  }

  /** A neighbour's port, and when it was last heard of. */
  datatype Port = Port(id: nat, lastUpdate: int, chassis: Chassis)

  class Hardware {
    var rports: seq<Port>
    var ageout: nat
    var deleted: nat

    constructor ()
      ensures rports == [] && ageout == 0 && deleted == 0
    {
      rports, ageout, deleted := [], 0, 0;
    }
  }

  function Deadline(p: Port): int
  {
    p.lastUpdate + p.chassis.ttl
  }

  predicate Expired(p: Port, now: int)
  {
    now >= Deadline(p)
  }

  // ---------- The timer ----------

  function Min(a: int, b: int): int
  {
    if a < b then a else b
  }

  /** The least remaining life among the first n ports, or the bound if it is less. */
  function LeastLife(ports: seq<Port>, n: nat, now: int, bound: int): int
    requires n <= |ports|
  {
    if n == 0 then bound else Min(LeastLife(ports, n - 1, now, bound), Deadline(ports[n - 1]) - now)
  }

  /** The same over the first n interfaces. */
  function LeastOfAll(lists: seq<seq<Port>>, n: nat, now: int, bound: int): int
    requires n <= |lists|
  {
    if n == 0 then bound else LeastLife(lists[n - 1], |lists[n - 1]|, now, LeastOfAll(lists, n - 1, now, bound))
  }

  function Positive(x: int): int
  {
    if x < 0 then 0 else x
  }

  /** LeastLife is a lower bound that is reached. */
  lemma {:induction false} LeastLifeIs(ports: seq<Port>, n: nat, now: int, bound: int)
    requires n <= |ports|
    ensures var m := LeastLife(ports, n, now, bound);
      && m <= bound && (forall i :: 0 <= i < n ==> m <= Deadline(ports[i]) - now)
      && (m == bound || exists i :: 0 <= i < n && m == Deadline(ports[i]) - now)
  {
    if n > 0 {
      LeastLifeIs(ports, n - 1, now, bound);
    }
  }

  lemma {:induction false} LeastOfAllIs(lists: seq<seq<Port>>, n: nat, now: int, bound: int)
    requires n <= |lists|
    ensures var m := LeastOfAll(lists, n, now, bound);
      && m <= bound && (forall i, j :: 0 <= i < n && 0 <= j < |lists[i]| ==> m <= Deadline(lists[i][j]) - now)
      && (m == bound || exists i, j :: 0 <= i < n && 0 <= j < |lists[i]| && m == Deadline(lists[i][j]) - now)
  {
    if n > 0 {
      LeastOfAllIs(lists, n - 1, now, bound);
      LeastLifeIs(lists[n - 1], |lists[n - 1]|, now, LeastOfAll(lists, n - 1, now, bound));
    }
  }

  /** The inner loop, which an expired port leaves early. */
  method ScanPorts(ports: seq<Port>, now: int, start: int) returns (delay: int)
    requires start >= 0
    ensures delay == Positive(LeastLife(ports, |ports|, now, start))
  {
    delay := start;
    var i := 0;
    while i < |ports|
      invariant i <= |ports| && delay >= 0 && delay == LeastLife(ports, i, now, start)
    {
      if now >= ports[i].lastUpdate + ports[i].chassis.ttl {
        delay := 0;
        LeastLifeDrops(ports, i, now, start);
        break;
      }
      var next := ports[i].chassis.ttl - (now - ports[i].lastUpdate);
      if next < delay {
        delay := next;
      }
      i := i + 1;
    }
  }

  lemma {:induction false} LeastLifeDrops(ports: seq<Port>, i: nat, now: int, start: int)
    requires i < |ports| && Expired(ports[i], now)
    ensures LeastLife(ports, |ports|, now, start) <= 0
  {
    LeastLifeIs(ports, |ports|, now, start);
  }

  /** Clamping at one interface does not change the result for the next ones. */
  lemma {:induction false} LeastLifeClamped(ports: seq<Port>, n: nat, now: int, bound: int)
    requires n <= |ports|
    ensures Positive(LeastLife(ports, n, now, Positive(bound))) == Positive(LeastLife(ports, n, now, bound))
  {
    if n > 0 {
      LeastLifeClamped(ports, n - 1, now, bound);
    }
  }

  /** levent_schedule_cleanup(): the delay before the next cleanup. */
  method ScheduleCleanup(lists: seq<seq<Port>>, now: int, localTtl: nat) returns (delay: int)
    ensures delay == Positive(LeastOfAll(lists, |lists|, now, localTtl))
  {
    delay := localTtl;
    var i := 0;
    while i < |lists|
      invariant i <= |lists| && delay == Positive(LeastOfAll(lists, i, now, localTtl))
    {
      LeastLifeClamped(lists[i], |lists[i]|, now, LeastOfAll(lists, i, now, localTtl));
      delay := ScanPorts(lists[i], now, delay);
      i := i + 1;
    }
  }

  function Delay(lists: seq<seq<Port>>, now: int, localTtl: nat): int
  {
    Positive(LeastOfAll(lists, |lists|, now, localTtl))
  }

  /** The delay is the minimum of the local TTL and of every neighbour's remaining
      life, 0 if one has expired; so no neighbour expires before the timer fires. */
  lemma {:induction false} TimerInTime(lists: seq<seq<Port>>, now: int, localTtl: nat)
    ensures var d := Delay(lists, now, localTtl);
      && 0 <= d <= localTtl
      && (forall i, j, t :: 0 <= i < |lists| && 0 <= j < |lists[i]| && now <= t < now + d ==> !Expired(lists[i][j], t))
      && (d == 0 <==>
          localTtl == 0 || exists i, j :: 0 <= i < |lists| && 0 <= j < |lists[i]| && Expired(lists[i][j], now))
      && (0 < d < localTtl ==>
          exists i, j :: 0 <= i < |lists| && 0 <= j < |lists[i]| && Deadline(lists[i][j]) == now + d)
  {
    LeastOfAllIs(lists, |lists|, now, localTtl);
  }

  // ---------- The cleanup ----------

  /** `all` removes every port; otherwise a port is removed when it has expired, if
      there is a callback to tell. */
  predicate Doomed(p: Port, now: int, expire: bool, all: bool)
  {
    all || (expire && Expired(p, now))
  }

  /** The ports from the i-th on that stay. */
  function Kept(ports: seq<Port>, i: nat, now: int, expire: bool, all: bool): seq<Port>
    decreases |ports| - i
  {
    if i >= |ports| then []
    else (if Doomed(ports[i], now, expire, all) then [] else [ports[i]]) + Kept(ports, i + 1, now, expire, all)
  }

  /** The ports from the i-th on that are removed. */
  function Gone(ports: seq<Port>, i: nat, now: int, expire: bool, all: bool): seq<Port>
    decreases |ports| - i
  {
    if i >= |ports| then []
    else (if Doomed(ports[i], now, expire, all) then [ports[i]] else []) + Gone(ports, i + 1, now, expire, all)
  }

  /** How many of the ports refer to chassis c. */
  ghost function Refs(ports: seq<Port>, c: Chassis): nat
  {
    if ports == [] then 0 else Refs(ports[..|ports| - 1], c) + if ports[|ports| - 1].chassis == c then 1 else 0
  }

  lemma {:induction false} RefsAppend(a: seq<Port>, b: seq<Port>, c: Chassis)
    ensures Refs(a + b, c) == Refs(a, c) + Refs(b, c)
    decreases |b|
  {
    if b == [] {
      assert a + b == a;
    } else {
      RefsAppend(a, b[..|b| - 1], c);
      assert (a + b)[..|a + b| - 1] == a + b[..|b| - 1];
    }
  }

  lemma {:induction false} RefsOne(p: Port, c: Chassis)
    ensures Refs([p], c) == if p.chassis == c then 1 else 0
  {
    assert [p][..0] == [];
  }

  lemma {:induction false} RefsNone(c: Chassis)
    ensures Refs([], c) == 0
  {
  }

  /** Every reference is either kept or given back. */
  lemma {:induction false} RefsSplit(ports: seq<Port>, i: nat, now: int, expire: bool, all: bool, c: Chassis)
    requires i <= |ports|
    ensures Refs(Kept(ports, i, now, expire, all), c) + Refs(Gone(ports, i, now, expire, all), c) == Refs(ports[i..], c)
    decreases |ports| - i
  {
    hide Refs, Doomed;
    if i == |ports| {
      RefsNone(c);
    } else {
      RefsSplit(ports, i + 1, now, expire, all, c);
      var p, kept, gone := ports[i], Kept(ports, i + 1, now, expire, all), Gone(ports, i + 1, now, expire, all);
      RefsAppend([p], ports[i + 1..], c);
      assert ports[i..] == [p] + ports[i + 1..];
      RefsAppend([p], gone, c);
      RefsAppend([p], kept, c);
      assert [] + kept == kept && [] + gone == gone;
    }
  }

  /** lldpd_port_cleanup(): the reference to the chassis is given back. */
  method PortCleanup(p: Port)
    modifies p.chassis
    ensures p.chassis.refcount == old(p.chassis.refcount) - 1
  {
    p.chassis.refcount := p.chassis.refcount - 1;
  }

  ghost predicate Covers(region: set<Chassis>, ports: seq<Port>)
  {
    forall i :: 0 <= i < |ports| ==> ports[i].chassis in region
  }

  /** The reference counts of a region at some moment. */
  ghost function Counts(region: set<Chassis>): map<Chassis, int>
    reads region
  {
    map c | c in region :: c.refcount
  }

  /** Since then, one reference was given back for each port of `gone`. */
  ghost predicate GivenBack(region: set<Chassis>, counts: map<Chassis, int>, gone: seq<Port>)
    reads region
  {
    forall c :: c in region ==> c in counts && c.refcount == counts[c] - Refs(gone, c)
  }

  /** lldpd_remote_cleanup(): the doomed ports are removed, in order; `calls` are the
      ports given to the callback.  Each chassis loses one reference per port removed. */
  method RemoteCleanup(h: Hardware, now: int, expire: bool, all: bool, ghost region: set<Chassis>)
    returns (calls: seq<Port>)
    requires Covers(region, h.rports)
    modifies h, region
    ensures h.rports == Kept(old(h.rports), 0, now, expire, all)
    ensures calls == if expire then Gone(old(h.rports), 0, now, expire, all) else []
    ensures var n := if all then 0 else |Gone(old(h.rports), 0, now, expire, all)|;
      h.ageout == old(h.ageout) + n && h.deleted == old(h.deleted) + n
    ensures forall c :: c in region ==>
      c.refcount == old(c.refcount) - Refs(Gone(old(h.rports), 0, now, expire, all), c)
  {
    hide Refs, Kept, Gone, GivenBack;
    ghost var ports, counts := h.rports, Counts(region);
    ghost var kept, gone: seq<Port> := [], [];
    calls := [];
    var i := 0;
    ghost var n := 0;
    NoneGivenBack(region);
    assert kept + Kept(ports, 0, now, expire, all) == Kept(ports, 0, now, expire, all);
    assert gone + Gone(ports, 0, now, expire, all) == Gone(ports, 0, now, expire, all);
    while i < |h.rports|
      invariant n <= |ports|
      invariant if all then i == n && h.rports == ports else i == |kept| && h.rports == kept + ports[n..]
      invariant kept + Kept(ports, n, now, expire, all) == Kept(ports, 0, now, expire, all)
      invariant gone + Gone(ports, n, now, expire, all) == Gone(ports, 0, now, expire, all)
      invariant calls == if expire then gone else []
      invariant h.ageout == old(h.ageout) + (if all then 0 else |gone|) && h.deleted == old(h.deleted) + if all then 0
        else |gone|
      invariant GivenBack(region, counts, gone)
      decreases |ports| - n
    {
      var port := h.rports[i];
      if !all {
        Advance(kept, ports, n);
      }
      assert port == ports[n];
      Step(ports, n, now, expire, all, kept, gone);
      assert port.chassis in region;
      var del := CleanupOne(h, i, now, expire, all, region, counts, gone);
      if del {
        if expire {
          calls := calls + [port];
        }
        gone := gone + [port];
      } else {
        kept := kept + [port];
      }
      if all || !del {
        i := i + 1;
      }
      n := n + 1;
    }
    StepEnd(ports, now, expire, all);
    assert kept + [] == kept && gone + [] == gone;
    if all {
      AllGone(ports, 0, now, expire);
      h.rports := [];
    }
    AllGivenBack(region, counts, gone);
  }

  /** The list while it is being cleaned: what stays, then what is still to be seen. */
  lemma {:induction false} Advance(kept: seq<Port>, ports: seq<Port>, n: nat)
    requires n < |ports|
    ensures var list, i := kept + ports[n..], |kept|;
      && list[i] == ports[n] && list[..i] + list[i + 1..] == kept + ports[n + 1..]
      && list == kept + [ports[n]] + ports[n + 1..]
  {
  }

  lemma {:induction false} NoneGivenBack(region: set<Chassis>)
    ensures GivenBack(region, Counts(region), [])
  {
  }

  lemma {:induction false} AllGivenBack(region: set<Chassis>, counts: map<Chassis, int>, gone: seq<Port>)
    requires GivenBack(region, counts, gone)
    ensures forall c :: c in region ==> c in counts && c.refcount == counts[c] - Refs(gone, c)
  {
  }

  /** The body of that loop. */
  method CleanupOne(h: Hardware, i: nat, now: int, expire: bool, all: bool, ghost region: set<Chassis>,
      ghost counts: map<Chassis, int>, ghost gone: seq<Port>)
    returns (del: bool)
    requires i < |h.rports| && h.rports[i].chassis in region && GivenBack(region, counts, gone)
    modifies h, h.rports[i].chassis
    ensures var port := old(h.rports[i]);
      && del == Doomed(port, now, expire, all)
      && h.rports == (if del && !all then old(h.rports[..i]) + old(h.rports[i + 1..]) else old(h.rports))
      && h.ageout == old(h.ageout) + (if del && !all then 1 else 0) &&
         h.deleted == old(h.deleted) + (if del && !all then 1 else 0)
      && GivenBack(region, counts, if del then gone + [port] else gone)
  {
    hide Refs;
    var port := h.rports[i];
    del := all;
    if !all && expire && now >= port.lastUpdate + port.chassis.ttl {
      h.ageout := h.ageout + 1;
      h.deleted := h.deleted + 1;
      del := true;
    }
    if del {
      if !all {
        h.rports := h.rports[..i] + h.rports[i + 1..];
      }
      MoreRefs(gone, port);
      PortCleanup(port);
    }
  }

  lemma {:induction false} MoreRefs(gone: seq<Port>, p: Port)
    ensures forall c :: Refs(gone + [p], c) == Refs(gone, c) + if p.chassis == c then 1 else 0
  {
    forall c: Chassis ensures Refs(gone + [p], c) == Refs(gone, c) + if p.chassis == c then 1 else 0 {
      RefsAppend(gone, [p], c);
      RefsOne(p, c);
    }
  }

  lemma {:induction false} Step(ports: seq<Port>, n: nat, now: int, expire: bool, all: bool, kept: seq<Port>,
      gone: seq<Port>)
    requires n < |ports|
    ensures var p, k, g := ports[n], Kept(ports, n + 1, now, expire, all), Gone(ports, n + 1, now, expire, all);
      if Doomed(p, now, expire, all)
      then
        && kept + Kept(ports, n, now, expire, all) == kept + k
        && gone + Gone(ports, n, now, expire, all) == gone + [p] + g
      else
        && kept + Kept(ports, n, now, expire, all) == kept + [p] + k
        && gone + Gone(ports, n, now, expire, all) == gone + g
  {
  }

  lemma {:induction false} StepEnd(ports: seq<Port>, now: int, expire: bool, all: bool)
    ensures Kept(ports, |ports|, now, expire, all) == [] && Gone(ports, |ports|, now, expire, all) == []
  {
  }

  lemma {:induction false} AllGone(ports: seq<Port>, i: nat, now: int, expire: bool)
    requires i <= |ports|
    ensures Kept(ports, i, now, expire, true) == [] && Gone(ports, i, now, expire, true) == ports[i..]
    decreases |ports| - i
  {
    if i < |ports| {
      AllGone(ports, i + 1, now, expire);
      assert ports[i..] == [ports[i]] + ports[i + 1..];
    }
  }

  // ---------- Neighbours over time ----------

  /** A cleanup keeps, in order, exactly the ports that have not expired. */
  lemma {:induction false} KeptAre(ports: seq<Port>, i: nat, now: int)
    requires i <= |ports|
    ensures forall p :: p in Kept(ports, i, now, true, false) <==> p in ports[i..] && !Expired(p, now)
    ensures forall p :: p in Gone(ports, i, now, true, false) <==> p in ports[i..] && Expired(p, now)
    decreases |ports| - i
  {
    if i < |ports| {
      KeptAre(ports, i + 1, now);
      assert ports[i..] == [ports[i]] + ports[i + 1..];
    }
  }

  /** After a cleanup the timer is not immediate, unless the local TTL is null. */
  lemma {:induction false} CleanThenWait(lists: seq<seq<Port>>, kept: seq<seq<Port>>, now: int, localTtl: nat)
    requires |kept| == |lists| && localTtl > 0
    requires forall i :: 0 <= i < |lists| ==> kept[i] == Kept(lists[i], 0, now, true, false)
    ensures Delay(kept, now, localTtl) > 0
  {
    TimerInTime(kept, now, localTtl);
    forall i, j | 0 <= i < |kept| && 0 <= j < |kept[i]| ensures !Expired(kept[i][j], now) {
      KeptAre(lists[i], 0, now);
      assert kept[i][j] in kept[i];
    }
  }

  /** If nothing has expired when the timer is set, then what the cleanup removes when
      it fires are the ports whose deadline is that very moment: none is overdue. */
  lemma {:induction false} RemovedOnTime(lists: seq<seq<Port>>, now: int, localTtl: nat, i: nat, p: Port)
    requires i < |lists| && p in lists[i]
    requires forall x, y :: 0 <= x < |lists| && 0 <= y < |lists[x]| ==> !Expired(lists[x][y], now)
    ensures var t := now + Delay(lists, now, localTtl);
      p in Gone(lists[i], 0, t, true, false) <==> Deadline(p) == t
  {
    var d := Delay(lists, now, localTtl);
    var t := now + d;
    KeptAre(lists[i], 0, t);
    assert lists[i][0..] == lists[i];
    var j :| 0 <= j < |lists[i]| && lists[i][j] == p;
    TimerInTime(lists, now, localTtl);
    assert !Expired(lists[i][j], now);
    if d > 0 {
      assert now <= t - 1 < now + d;
      assert !Expired(lists[i][j], t - 1);
    }
  }

  /** A cleanup keeps every reference count equal to the ports that refer to the
      chassis, whatever else refers to it. */
  lemma {:induction false} CountsStay(ports: seq<Port>, now: int, expire: bool, all: bool, c: Chassis, before: int,
      after: int, others: int)
    requires before == Refs(ports, c) + others && after == before - Refs(Gone(ports, 0, now, expire, all), c)
    ensures after == Refs(Kept(ports, 0, now, expire, all), c) + others
  {
    RefsSplit(ports, 0, now, expire, all, c);
    assert ports[0..] == ports;
  }

  /** How many ports of the first n lists refer to chassis c. */
  ghost function AllRefs(lists: seq<seq<Port>>, n: nat, c: Chassis): nat
    requires n <= |lists|
  {
    if n == 0 then 0 else AllRefs(lists, n - 1, c) + Refs(lists[n - 1], c)
  }

  ghost function Lists(hs: seq<Hardware>): (r: seq<seq<Port>>)
    reads hs
    ensures |r| == |hs| && forall i :: 0 <= i < |hs| ==> r[i] == hs[i].rports
  {
    seq(|hs|, i requires 0 <= i < |hs| reads hs => hs[i].rports)
  }

  /** Every reference count is the number of ports that refer to the chassis. */
  ghost predicate Balanced(region: set<Chassis>, lists: seq<seq<Port>>)
    reads region
  {
    forall c :: c in region ==> c.refcount == AllRefs(lists, |lists|, c)
  }

  /** Changing the ports of one interface changes its share of the references. */
  lemma {:induction false} OneChanged(lists: seq<seq<Port>>, n: nat, i: nat, ports: seq<Port>, c: Chassis)
    requires i < |lists| && n <= |lists|
    ensures AllRefs(lists[i := ports], n, c) == AllRefs(lists, n, c) + if i < n then Refs(ports, c) - Refs(lists[i], c)
      else 0
  {
    hide Refs;
    if n > 0 {
      OneChanged(lists, n - 1, i, ports, c);
    }
  }

  lemma {:induction false} StaysBalanced(region: set<Chassis>, counts: map<Chassis, int>, lists: seq<seq<Port>>, i: nat,
      now: int)
    requires i < |lists| && GivenBack(region, counts, Gone(lists[i], 0, now, true, false))
    requires forall c :: c in region ==> c in counts && counts[c] == AllRefs(lists, |lists|, c)
    ensures Balanced(region, lists[i := Kept(lists[i], 0, now, true, false)])
  {
    hide Refs, Kept, Gone;
    forall c | c in region ensures c.refcount == AllRefs(lists[i := Kept(lists[i], 0, now, true, false)], |lists|, c) {
      CountsStay(lists[i], now, true, false, c, counts[c], c.refcount, counts[c] - Refs(lists[i], c));
      OneChanged(lists, |lists|, i, Kept(lists[i], 0, now, true, false), c);
    }
  }

  /** The cleanup of one interface among others. */
  method CleanupNth(hs: seq<Hardware>, i: nat, now: int, ghost region: set<Chassis>)
    requires i < |hs| && forall x, y :: 0 <= x < y < |hs| ==> hs[x] != hs[y]
    requires Covers(region, hs[i].rports) && Balanced(region, Lists(hs))
    modifies hs[i], region
    ensures Lists(hs) == old(Lists(hs))[i := Kept(old(hs[i].rports), 0, now, true, false)] &&
      Balanced(region, Lists(hs))
    ensures hs[i].ageout == old(hs[i].ageout) + |Gone(old(hs[i].rports), 0, now, true, false)|
  {
    hide Kept, Gone, AllRefs, Refs, Covers;
    ghost var lists, counts := Lists(hs), Counts(region);
    var calls := RemoteCleanup(hs[i], now, true, false, region);
    StaysBalanced(region, counts, lists, i, now);
    assert Lists(hs) == lists[i := Kept(lists[i], 0, now, true, false)];
  }

  /** The cleanup of every interface in turn: lists, counters and references stay in
      step. */
  method CleanupAll(hs: seq<Hardware>, now: int, ghost region: set<Chassis>)
    requires forall i, j :: 0 <= i < j < |hs| ==> hs[i] != hs[j]
    requires forall i :: 0 <= i < |hs| ==> Covers(region, hs[i].rports)
    requires Balanced(region, Lists(hs))
    modifies hs, region
    ensures forall i :: 0 <= i < |hs| ==> Lists(hs)[i] == Kept(old(Lists(hs))[i], 0, now, true, false)
    ensures forall i :: 0 <= i < |hs| ==>
      hs[i].ageout == old(hs[i].ageout) + |Gone(old(Lists(hs))[i], 0, now, true, false)|
    ensures Balanced(region, Lists(hs))
  {
    hide Kept, Gone, Balanced, Covers;
    ghost var lists := Lists(hs);
    var i := 0;
    while i < |hs|
      invariant i <= |hs| && Balanced(region, Lists(hs))
      invariant forall x :: 0 <= x < i ==> Lists(hs)[x] == Kept(lists[x], 0, now, true, false)
      invariant forall x :: 0 <= x < i ==> hs[x].ageout == old(hs[x].ageout) + |Gone(lists[x], 0, now, true, false)|
      invariant forall x :: i <= x < |hs| ==> Lists(hs)[x] == lists[x] && hs[x].ageout == old(hs[x].ageout)
    {
      assert hs[i].rports == lists[i];
      CleanupNth(hs, i, now, region);
      i := i + 1;
    }
  }
}
