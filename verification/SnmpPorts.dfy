/** The table of remote ports (src/daemon/agent.c), told from the interfaces and their
    neighbours alone. */
module SnmpPorts {
  import opened Bytes
  import opened Oid
  import opened Snmp
  import opened SnmpNext

  /** Port j of interface i is in the table: it is not hidden, and has LLDP-MED
      capabilities if only those are asked for. */
  predicate Listed(hs: seq<Hardware>, withMed: bool, i: nat, j: nat)
  {
    i < |hs| && j < |hs[i].ports| && !hs[i].ports[j].hidden && (withMed ==> hs[i].ports[j].med)
  }

  /** Its index: time of the last change, interface, chassis. */
  function Index(hs: seq<Hardware>, i: nat, j: nat): Oid
    requires i < |hs| && j < |hs[i].ports|
  {
    [hs[i].ports[j].lastChange, hs[i].ifIndex, hs[i].ports[j].chassis]
  }

  /** Interfaces in order, and the ports of each in order. */
  predicate Sooner(a: (nat, nat), b: (nat, nat))
  {
    a.0 < b.0 || (a.0 == b.0 && a.1 < b.1)
  }

  ghost predicate InOrder(at: seq<(nat, nat)>)
  {
    forall k, l :: 0 <= k < l < |at| ==> Sooner(at[k], at[l])
  }

  /** Row k is that of the port at[k]. */
  ghost predicate RowsAt(hs: seq<Hardware>, withMed: bool, rows: seq<Row<Port>>, at: seq<(nat, nat)>)
  {
    |rows| == |at| && forall k :: 0 <= k < |at| ==>
      && Listed(hs, withMed, at[k].0, at[k].1)
      && rows[k].index == Index(hs, at[k].0, at[k].1) && rows[k].entity == hs[at[k].0].ports[at[k].1]
  }

  lemma {:induction false} PortPlaces(hs: seq<Hardware>, withMed: bool, i: nat, n: nat) returns (at: seq<(nat, nat)>)
    requires i < |hs| && n <= |hs[i].ports|
    ensures RowsAt(hs, withMed, PortRows(hs[i], n, withMed), at) && InOrder(at)
    ensures forall k :: 0 <= k < |at| ==> at[k].0 == i && at[k].1 < n
    ensures forall j: nat :: j < n && Listed(hs, withMed, i, j) ==> (i, j) in at
  {
    at := [];
    if n > 0 {
      var before := PortPlaces(hs, withMed, i, n - 1);
      at := before;
      if Listed(hs, withMed, i, n - 1) {
        at := before + [(i, n - 1)];
      }
    }
  }

  lemma {:induction false} AllPlaces(hs: seq<Hardware>, withMed: bool, n: nat) returns (at: seq<(nat, nat)>)
    requires n <= |hs|
    ensures RowsAt(hs, withMed, HardwareRows(hs, n, withMed), at) && InOrder(at)
    ensures forall k :: 0 <= k < |at| ==> at[k].0 < n
    ensures forall i: nat, j: nat :: i < n && Listed(hs, withMed, i, j) ==> (i, j) in at
  {
    at := [];
    if n > 0 {
      hide RowsAt, InOrder, PortRows;
      var before := AllPlaces(hs, withMed, n - 1);
      var last := PortPlaces(hs, withMed, n - 1, |hs[n - 1].ports|);
      at := before + last;
      RowsJoined(hs, withMed, HardwareRows(hs, n - 1, withMed), before,
                 PortRows(hs[n - 1], |hs[n - 1].ports|, withMed), last);
      OrderJoined(before, last, n - 1);
    }
  }

  lemma {:induction false} RowsJoined(hs: seq<Hardware>, withMed: bool, rows: seq<Row<Port>>, at: seq<(nat, nat)>,
      rows': seq<Row<Port>>, at': seq<(nat, nat)>)
    requires RowsAt(hs, withMed, rows, at) && RowsAt(hs, withMed, rows', at')
    ensures RowsAt(hs, withMed, rows + rows', at + at')
  {
  }

  lemma {:induction false} OrderJoined(at: seq<(nat, nat)>, at': seq<(nat, nat)>, i: nat)
    requires InOrder(at) && InOrder(at')
    requires (forall k :: 0 <= k < |at| ==> at[k].0 < i) && (forall k :: 0 <= k < |at'| ==> at'[k].0 == i)
    ensures InOrder(at + at')
  {
  }

  /** The rows of the table are exactly the listed ports, one row each, in the order
      of the lists. */
  lemma {:induction false} TableIsPorts(vp: Oid, hs: seq<Hardware>, withMed: bool) returns (at: seq<(nat, nat)>)
    ensures var t := RemotePorts(vp, hs, withMed);
      && t.prefix == vp && |t.rows| == |at|
      && (forall k :: 0 <= k < |at| ==>
            && Listed(hs, withMed, at[k].0, at[k].1)
            && t.rows[k] == Row(Index(hs, at[k].0, at[k].1), hs[at[k].0].ports[at[k].1]))
    ensures forall i: nat, j: nat :: Listed(hs, withMed, i, j) <==> (i, j) in at
    ensures InOrder(at)
  {
    at := AllPlaces(hs, withMed, |hs|);
    forall i: nat, j: nat ensures Listed(hs, withMed, i, j) <==> (i, j) in at {
      if (i, j) in at {
        var k :| 0 <= k < |at| && at[k] == (i, j);
      }
    }
  }

  lemma {:induction false} TableIndexed(vp: Oid, hs: seq<Hardware>, withMed: bool)
    ensures Indexed(RemotePorts(vp, hs, withMed))
  {
    var at := TableIsPorts(vp, hs, withMed);
  }

  /** Port (i, j) is the one a GetNext on the request has to return: the least name
      above it, and the first port of that name in the lists. */
  ghost predicate NextPortIs(vp: Oid, hs: seq<Hardware>, withMed: bool, request: Oid, i: nat, j: nat)
  {
    && Listed(hs, withMed, i, j) && Less(request, vp + Index(hs, i, j))
    && forall a: nat, b: nat :: Listed(hs, withMed, a, b) && Less(request, vp + Index(hs, a, b)) ==>
         || Less(vp + Index(hs, i, j), vp + Index(hs, a, b))
         || (Index(hs, i, j) == Index(hs, a, b) && !Sooner((a, b), (i, j)))
  }

  /** GetNext over the neighbours: the least triple above the request, or nothing when
      there is none. */
  lemma {:induction false} RemotePortNext(vp: Oid, hs: seq<Hardware>, withMed: bool, request: Oid)
    returns (found: Option<(nat, nat)>)
    ensures match found
      case None =>
        && Lookup(RemotePorts(vp, hs, withMed), request, false).entity == None
        && forall a: nat, b: nat :: Listed(hs, withMed, a, b) ==> !Less(request, vp + Index(hs, a, b))
      case Some(p) =>
        && NextPortIs(vp, hs, withMed, request, p.0, p.1)
        && Lookup(RemotePorts(vp, hs, withMed), request, false)
             == Answer(Some(hs[p.0].ports[p.1]), vp + Index(hs, p.0, p.1))
  {
    hide Lookup, Less, RemotePorts;
    var t := RemotePorts(vp, hs, withMed);
    TableIndexed(vp, hs, withMed);
    var at := TableIsPorts(vp, hs, withMed);
    var k := LookupNext(t, request);
    found := if k.Some? then Some(at[k.value]) else None;
    forall a: nat, b: nat | Listed(hs, withMed, a, b) && Less(request, vp + Index(hs, a, b))
      ensures k.Some? && (Less(vp + Index(hs, at[k.value].0, at[k.value].1), vp + Index(hs, a, b))
        || (Index(hs, at[k.value].0, at[k.value].1) == Index(hs, a, b) && !Sooner((a, b), at[k.value])))
    {
      var l :| 0 <= l < |at| && at[l] == (a, b);
      assert Full(t, l) == vp + Index(hs, a, b);
      FullCompare(t, k.value, l);
    }
  }

  /** Get over the neighbours: the first port of that very name, or nothing when there
      is none; the name stays. */
  lemma {:induction false} RemotePortExact(vp: Oid, hs: seq<Hardware>, withMed: bool, request: Oid)
    returns (found: Option<(nat, nat)>)
    ensures match found
      case None =>
        && Lookup(RemotePorts(vp, hs, withMed), request, true).entity == None
        && forall a: nat, b: nat :: Listed(hs, withMed, a, b) ==> vp + Index(hs, a, b) != request
      case Some(p) =>
        && Listed(hs, withMed, p.0, p.1) && vp + Index(hs, p.0, p.1) == request
        && (forall a: nat, b: nat :: Listed(hs, withMed, a, b) && Sooner((a, b), p) ==> vp + Index(hs, a, b) != request)
        && Lookup(RemotePorts(vp, hs, withMed), request, true) == Answer(Some(hs[p.0].ports[p.1]), request)
  {
    hide Lookup, RemotePorts;
    var t := RemotePorts(vp, hs, withMed);
    TableIndexed(vp, hs, withMed);
    var at := TableIsPorts(vp, hs, withMed);
    var k := LookupExact(t, request);
    found := if k.Some? then Some(at[k.value]) else None;
    forall a: nat, b: nat | Listed(hs, withMed, a, b) && vp + Index(hs, a, b) == request
      ensures k.Some? && !Sooner((a, b), at[k.value])
    {
      var l :| 0 <= l < |at| && at[l] == (a, b);
      assert Full(t, l) == request;
    }
  }

  /** Port (i, j) is the first of its name, has a value, and its name is x. */
  ghost predicate Shows(vp: Oid, hs: seq<Hardware>, withMed: bool, hasValue: Port -> bool, x: Oid, i: nat, j: nat)
  {
    && Listed(hs, withMed, i, j) && hasValue(hs[i].ports[j]) && vp + Index(hs, i, j) == x
    && forall a: nat, b: nat :: Listed(hs, withMed, a, b) && Sooner((a, b), (i, j)) ==>
         Index(hs, a, b) != Index(hs, i, j)
  }

  /** Walking the table lists, in increasing order and once each, exactly the names
      above the start that some port with a value is the first to have. */
  lemma {:induction false} RemotePortWalk(vp: Oid, hs: seq<Hardware>, withMed: bool, hasValue: Port -> bool, name: Oid)
    requires forall i, j :: 0 <= i < |hs| && 0 <= j < |hs[i].ports| ==> hs[i].ports[j].chassis < 0xFFFF_FFFF
    ensures SmallIndexes(RemotePorts(vp, hs, withMed))
    ensures var w := Walk(RemotePorts(vp, hs, withMed), hasValue, name);
      && Increasing(w)
      && forall x :: x in w <==> Less(name, x) && exists i: nat, j: nat :: Shows(vp, hs, withMed, hasValue, x, i, j)
  {
    hide Less, RemotePorts, Walk;
    var t := RemotePorts(vp, hs, withMed);
    var at := TableIsPorts(vp, hs, withMed);
    WalkEnumerates(t, hasValue, name);
    forall k | 0 <= k < |at|
      ensures Full(t, k) == vp + Index(hs, at[k].0, at[k].1)
      ensures Available(t, hasValue, k) <==> Shows(vp, hs, withMed, hasValue, Full(t, k), at[k].0, at[k].1)
    {
      ShownIsAvailable(vp, hs, withMed, hasValue, at, k);
    }
    var w := Walk(t, hasValue, name);
    forall x | x in w ensures exists i: nat, j: nat :: Shows(vp, hs, withMed, hasValue, x, i, j) {
      var k: nat :| Available(t, hasValue, k) && Full(t, k) == x;
      assert Shows(vp, hs, withMed, hasValue, x, at[k].0, at[k].1);
    }
    forall x, i: nat, j: nat | Less(name, x) && Shows(vp, hs, withMed, hasValue, x, i, j) ensures x in w {
      var k :| 0 <= k < |at| && at[k] == (i, j);
      assert Full(t, k) == x;
    }
  }

  lemma {:induction false} ShownIsAvailable(vp: Oid, hs: seq<Hardware>, withMed: bool, hasValue: Port -> bool,
      at: seq<(nat, nat)>, k: nat)
    requires var t := RemotePorts(vp, hs, withMed);
      && t.prefix == vp && |t.rows| == |at| && k < |at|
      && forall l :: 0 <= l < |at| ==>
           && Listed(hs, withMed, at[l].0, at[l].1)
           && t.rows[l] == Row(Index(hs, at[l].0, at[l].1), hs[at[l].0].ports[at[l].1])
    requires (forall i: nat, j: nat :: Listed(hs, withMed, i, j) <==> (i, j) in at) && InOrder(at)
    ensures var t := RemotePorts(vp, hs, withMed);
      && Full(t, k) == vp + Index(hs, at[k].0, at[k].1)
      && (Available(t, hasValue, k) <==> Shows(vp, hs, withMed, hasValue, Full(t, k), at[k].0, at[k].1))
  {
    hide RemotePorts;
    var t := RemotePorts(vp, hs, withMed);
    assert forall l :: k < l < |at| ==> Sooner(at[k], at[l]);
    forall a: nat, b: nat | Listed(hs, withMed, a, b) && Sooner((a, b), at[k])
      ensures exists l :: 0 <= l < k && at[l] == (a, b)
    {
      var l :| 0 <= l < |at| && at[l] == (a, b);
    }
  }

  /** Interface 3 has a neighbour that changed at 100 and whose chassis is 7, another
      with LLDP-MED that changed at 50, and a hidden one. */
  lemma {:induction false} RemotePortExample(vp: Oid)
    ensures var hs := [Hardware(3, [Port(false, false, 100, 7), Port(false, true, 50, 9), Port(true, true, 10, 8)])];
      && Lookup(RemotePorts(vp, hs, false), vp, false).name == vp + [50, 3, 9]
      && Lookup(RemotePorts(vp, hs, false), vp + [50, 3, 9], false).name == vp + [100, 3, 7]
      && Lookup(RemotePorts(vp, hs, true), vp + [50, 3, 9], false).entity == None
  {
    hide Lookup, RemotePorts, Less;
    var hs := [Hardware(3, [Port(false, false, 100, 7), Port(false, true, 50, 9), Port(true, true, 10, 8)])];
    var first, second := vp + [50, 3, 9], vp + [100, 3, 7];
    assert forall i: nat, j: nat, m :: Listed(hs, m, i, j) <==> i == 0 && (j == 1 || (j == 0 && !m));
    assert Index(hs, 0, 0) == [100, 3, 7] && Index(hs, 0, 1) == [50, 3, 9];
    Branch(vp, first, |vp|);
    Branch(vp, second, |vp|);
    Branch(first, second, |vp|);
    Ordered(first, second);
    Ordered(first, first);
    Ordered(second, second);
    var a := RemotePortNext(vp, hs, false, vp);
    var b := RemotePortNext(vp, hs, false, first);
    var c := RemotePortNext(vp, hs, true, first);
    assert Listed(hs, false, 0, 1) && Listed(hs, false, 0, 0);
  }

  lemma {:induction false} Branch(a: Oid, b: Oid, k: nat)
    requires BranchesAt(a, b, k)
    ensures Less(a, b)
  {
    LessIsLexicographic(a, b);
  }
}
