/** When neighbours go, told from the times of their ports (src/daemon/event.c and
    src/lldpd-structs.c). */
module ExpiryRules {
  import opened Expiry

  /** The port is to be removed: everything is, or its life of `ttl` seconds since it was
      last heard of is over and there is someone to tell. */
  predicate Goes(p: Port, now: int, expire: bool, all: bool)
  {
    all || (expire && now - p.lastUpdate >= p.chassis.ttl)
  }

  /** The positions of an increasing list, and the elements there. */
  ghost predicate Picks(ports: seq<Port>, at: seq<nat>, r: seq<Port>)
  {
    && |at| == |r|
    && (forall k :: 0 <= k < |at| ==> at[k] < |ports| && r[k] == ports[at[k]])
    && (forall j, k :: 0 <= j < k < |at| ==> at[j] < at[k])
  }

  /** The ports kept are those that do not go, each once and in order; the ports removed
      are the others, in order too. */
  lemma {:induction false} KeptAndGone(ports: seq<Port>, i: nat, now: int, expire: bool, all: bool)
    returns (stay: seq<nat>, go: seq<nat>)
    requires i <= |ports|
    ensures Picks(ports, stay, Kept(ports, i, now, expire, all)) && Picks(ports, go, Gone(ports, i, now, expire, all))
    ensures forall k :: k in stay <==> i <= k < |ports| && !Goes(ports[k], now, expire, all)
    ensures forall k :: k in go <==> i <= k < |ports| && Goes(ports[k], now, expire, all)
    decreases |ports| - i
  {
    if i == |ports| {
      stay, go := [], [];
    } else {
      stay, go := KeptAndGone(ports, i + 1, now, expire, all);
      var kept, gone := Kept(ports, i + 1, now, expire, all), Gone(ports, i + 1, now, expire, all);
      StepOf(ports, i, now, expire, all);
      hide Kept, Gone;
      if Goes(ports[i], now, expire, all) {
        PickFirst(ports, i, go, gone);
        go := [i] + go;
      } else {
        PickFirst(ports, i, stay, kept);
        stay := [i] + stay;
      }
    }
  }

  lemma {:induction false} StepOf(ports: seq<Port>, i: nat, now: int, expire: bool, all: bool)
    requires i < |ports|
    ensures var p, k, g := ports[i], Kept(ports, i + 1, now, expire, all), Gone(ports, i + 1, now, expire, all);
      if Goes(p, now, expire, all)
      then Kept(ports, i, now, expire, all) == k && Gone(ports, i, now, expire, all) == [p] + g
      else Kept(ports, i, now, expire, all) == [p] + k && Gone(ports, i, now, expire, all) == g
  {
  }

  lemma {:induction false} PickFirst(ports: seq<Port>, i: nat, at: seq<nat>, r: seq<Port>)
    requires i < |ports| && Picks(ports, at, r) && forall k :: k in at ==> i < k
    ensures Picks(ports, [i] + at, [ports[i]] + r)
  {
    var at', r' := [i] + at, [ports[i]] + r;
    forall j, k | 0 <= j < k < |at'| ensures at'[j] < at'[k] {
      assert at'[k] == at[k - 1] && at[k - 1] in at;
    }
  }

  function SecondsLeft(p: Port, now: int): (left: int)
    ensures left >= 0 && (left > 0 ==> left + now == p.lastUpdate + p.chassis.ttl)
  {
    var end := p.lastUpdate + p.chassis.ttl;
    if end <= now then 0 else end - now
  }

  /** The timer is set to the least number of seconds any neighbour has left, never less
      than none, and never more than the local TTL. */
  lemma {:induction false} TimerIsLeast(lists: seq<seq<Port>>, now: int, localTtl: nat)
    ensures var d := Delay(lists, now, localTtl);
      && 0 <= d <= localTtl
      && (forall i, j :: 0 <= i < |lists| && 0 <= j < |lists[i]| ==>
            d <= SecondsLeft(lists[i][j], now))
      && (d == localTtl || exists i, j :: 0 <= i < |lists| && 0 <= j < |lists[i]| && d == SecondsLeft(lists[i][j], now))
  {
    LeastOfAllIs(lists, |lists|, now, localTtl);
  }

  /** A neighbour announced for 120 seconds, heard of at 1000, with one announced for 60,
      heard of at 1010. */
  lemma {:induction false} TwoNeighbours(c: Chassis, s: Chassis)
    requires c.ttl == 120 && s.ttl == 60
    ensures var a, b := Port(1, 1000, c), Port(2, 1010, s);
      && Delay([[a, b]], 1030, 3600) == 40 && Delay([[a], [b]], 1080, 3600) == 0 && Delay([[a]], 1030, 20) == 20
      && Kept([a, b], 0, 1069, true, false) == [a, b] && Kept([a, b], 0, 1070, true, false) == [a]
      && Gone([a, b], 0, 1070, true, false) == [b] && Gone([a, b], 0, 1120, true, false) == [a, b]
      && Kept([a, b], 0, 1120, false, false) == [a, b] && Gone([a, b], 0, 0, false, true) == [a, b]
  {
    var a, b := Port(1, 1000, c), Port(2, 1010, s);
    TwoDelays(a, b);
    forall now: int, expire: bool, all: bool
      ensures Kept([a, b], 0, now, expire, all) == (if Goes(a, now, expire, all) then [] else [a])
        + (if Goes(b, now, expire, all) then [] else [b])
      ensures Gone([a, b], 0, now, expire, all) == (if Goes(a, now, expire, all) then [a] else [])
        + (if Goes(b, now, expire, all) then [b] else [])
    {
      TwoPorts(a, b, now, expire, all);
    }
    hide Kept, Gone, Delay;
  }

  lemma {:induction false} TwoPorts(a: Port, b: Port, now: int, expire: bool, all: bool)
    ensures Kept([a, b], 0, now, expire, all) == (if Goes(a, now, expire, all) then [] else [a])
      + (if Goes(b, now, expire, all) then [] else [b])
    ensures Gone([a, b], 0, now, expire, all) == (if Goes(a, now, expire, all) then [a] else [])
      + (if Goes(b, now, expire, all) then [b] else [])
  {
    var ports := [a, b];
    StepOf(ports, 0, now, expire, all);
    StepOf(ports, 1, now, expire, all);
    assert Kept(ports, 2, now, expire, all) == [] && Gone(ports, 2, now, expire, all) == [];
  }

  lemma {:induction false} TwoDelays(a: Port, b: Port)
    requires a.lastUpdate == 1000 && a.chassis.ttl == 120 && b.lastUpdate == 1010 && b.chassis.ttl == 60
    ensures Delay([[a, b]], 1030, 3600) == 40 && Delay([[a], [b]], 1080, 3600) == 0 && Delay([[a]], 1030, 20) == 20
  {
    assert LeastLife([a, b], 1, 1030, 3600) == 90 && LeastLife([a], 1, 1030, 3600) == 90;
    assert LeastLife([a, b], 2, 1030, 3600) == 40;
    assert LeastOfAll([[a, b]], 1, 1030, 3600) == 40;
    assert LeastLife([a], 1, 1080, 3600) == 40 && LeastLife([b], 1, 1080, 40) == -10;
    var lists := [[a], [b]];
    assert lists[0] == [a] && lists[1] == [b];
    assert LeastOfAll(lists, 0, 1080, 3600) == 3600;
    assert LeastOfAll(lists, 1, 1080, 3600) == 40;
    assert LeastOfAll(lists, 2, 1080, 3600) == -10;
    var one := [[a]];
    assert one[0] == [a] && LeastLife([a], 1, 1030, 20) == 20;
    assert LeastOfAll(one, 1, 1030, 20) == 20;
  }
}
