/** Search of the SNMP tables (src/daemon/agent.c): the lexicographic successor over
    unsorted nested lists, retried over rows whose value is not available. */
module Snmp {
  import opened Bytes
  import opened Oid

  const MAX_SUBID: nat := 0xFFFF_FFFF

  datatype Row<+V> = Row(index: Oid, entity: V)

  /** What a search returns: the entity (None for NULL) and the name as left. */
  datatype Answer<+V> = Answer(entity: Option<V>, name: Oid)

  /** A table: the prefix of its names, and its visible rows in list order. */
  datatype Table<V> = Table(prefix: Oid, rows: seq<Row<V>>)

  function Full<V>(t: Table<V>, k: nat): Oid
    requires k < |t.rows|
  {
    t.prefix + t.rows[k].index
  }

  /** Every table has at least one index column. */
  predicate Indexed<V>(t: Table<V>)
  {
    forall k :: 0 <= k < |t.rows| ==> t.rows[k].index != []
  }

  // ---------- One search ----------

  /** The row kept after the first k rows: the least index above the target, the
      first of them in list order. */
  function BestRow<V>(rows: seq<Row<V>>, k: nat, target: Oid): (r: Option<nat>)
    requires k <= |rows|
    ensures r.Some? ==> r.value < k
  {
    if k == 0 then None
    else
      var b := BestRow(rows, k - 1, target);
      if Less(target, rows[k - 1].index) && (b.None? || Less(rows[k - 1].index, rows[b.value].index)) then Some(k - 1)
        else b
  }

  /** The first row from k on whose index is the target. */
  function EqualRow<V>(rows: seq<Row<V>>, k: nat, target: Oid): (r: Option<nat>)
    ensures r.Some? ==> k <= r.value < |rows|
    decreases |rows| - k
  {
    if k >= |rows| then None
    else if rows[k].index == target then Some(k)
    else EqualRow(rows, k + 1, target)
  }

  /** The requested name, raised to the prefix. */
  function Raised(prefix: Oid, name: Oid): Oid
  {
    if Less(name, prefix) then prefix else name
  }

  /** header_*indexed_table(). */
  function Lookup<V>(t: Table<V>, name: Oid, exact: bool): Answer<V>
  {
    var n := Raised(t.prefix, name);
    if !(t.prefix <= n) then Answer(None, n)
    else
      var target := n[|t.prefix|..];
      if exact then
        match EqualRow(t.rows, 0, target)
        case None => Answer(None, n)
        case Some(k) => Answer(Some(t.rows[k].entity), n)
      else
        match BestRow(t.rows, |t.rows|, target)
        case None => Answer(None, n)
        case Some(k) => Answer(Some(t.rows[k].entity), Full(t, k))
  }

  // ---------- header_index_init(), header_index_add(), header_index_best() ----------

  /** The static `header_idx`. */
  class HeaderIndex<V> {
    var prefix: Oid
    var name: Oid
    var exact: bool
    var best: Oid
    var entity: Option<V>

    constructor ()
    {
      prefix, name, exact, best, entity := [], [], false, [], None;
    }

    /** Where the search stands after the first k rows. */
    ghost predicate Scanned(t: Table<V>, request: Oid, e: bool, k: nat)
      reads this
      requires k <= |t.rows|
    {
      && prefix == t.prefix && exact == e && name == Raised(prefix, request) && prefix <= name
      && match BestRow(t.rows, k, name[|prefix|..])
         case None => best == [] && entity == None
         case Some(b) => best == t.rows[b].index && best != [] && entity == Some(t.rows[b].entity)
    }

    method Init(vp: Oid, request: Oid, e: bool, ghost t: Table<V>) returns (ok: bool)
      requires t.prefix == vp
      modifies this
      ensures name == Raised(vp, request) && ok == (vp <= name)
      ensures ok ==> Scanned(t, request, e, 0)
    {
      name := request;
      if Compare(name, vp) < 0 {
        name := vp;
      }
      if |name| < |vp| || name[..|vp|] != vp {
        return false;
      }
      prefix, exact, best, entity := vp, e, [], None;
      ok := true;
    }

    method Add(index: Oid, x: V, ghost t: Table<V>, ghost request: Oid, ghost k: nat) returns (found: bool)
      requires k < |t.rows| && t.rows[k] == Row(index, x) && Scanned(t, request, exact, k)
      modifies this
      ensures Scanned(t, request, old(exact), k + 1) && found == (exact && index == name[|prefix|..])
    {
      var target := name[|prefix|..];
      CompareEqual(index, target, 0);
      CompareFlips(index, target, 0);
      var result := Compare(index, target);
      if result < 0 {
        return false;
      }
      if result == 0 {
        return exact;
      }
      if best == [] || Compare(index, best) < 0 {
        best := index;
        entity := Some(x);
      }
      found := false;
    }

    method Best(ghost t: Table<V>, ghost request: Oid) returns (r: Option<V>)
      requires Scanned(t, request, exact, |t.rows|)
      requires exact ==> EqualRow(t.rows, 0, name[|prefix|..]) == None
      modifies this
      ensures Answer(r, name) == Lookup(t, request, old(exact))
    {
      if entity.None? || exact {
        return None;
      }
      name := prefix + best;
      r := entity;
    }
  }

  // ---------- The table of remote ports ----------

  datatype Port = Port(hidden: bool, med: bool, lastChange: nat, chassis: nat)

  datatype Hardware = Hardware(ifIndex: nat, ports: seq<Port>)

  predicate Shown(p: Port, withMed: bool)
  {
    !p.hidden && (withMed ==> p.med)
  }

  function RowOf(h: Hardware, p: Port): Row<Port>
  {
    Row([p.lastChange, h.ifIndex, p.chassis], p)
  }

  /** The rows of the first n ports of h. */
  function PortRows(h: Hardware, n: nat, withMed: bool): seq<Row<Port>>
    requires n <= |h.ports|
  {
    if n == 0 then []
    else PortRows(h, n - 1, withMed) + if Shown(h.ports[n - 1], withMed) then [RowOf(h, h.ports[n - 1])] else []
  }

  /** The rows of the first n interfaces. */
  function HardwareRows(hs: seq<Hardware>, n: nat, withMed: bool): seq<Row<Port>>
    requires n <= |hs|
  {
    if n == 0 then [] else HardwareRows(hs, n - 1, withMed) + PortRows(hs[n - 1], |hs[n - 1].ports|, withMed)
  }

  function RemotePorts(vp: Oid, hs: seq<Hardware>, withMed: bool): (t: Table<Port>)
  {
    Table(vp, HardwareRows(hs, |hs|, withMed))
  }

  lemma {:induction false} PortPrefix(h: Hardware, i: nat, n: nat, withMed: bool)
    requires i <= n <= |h.ports|
    ensures PortRows(h, i, withMed) <= PortRows(h, n, withMed)
    decreases n
  {
    if i < n {
      PortPrefix(h, i, n - 1, withMed);
    }
  }

  lemma {:induction false} HardwarePrefix(hs: seq<Hardware>, i: nat, n: nat, withMed: bool)
    requires i <= n <= |hs|
    ensures HardwareRows(hs, i, withMed) <= HardwareRows(hs, n, withMed)
    decreases n
  {
    if i < n {
      HardwarePrefix(hs, i, n - 1, withMed);
    }
  }

  /** The row added for port j of interface i is the next row of the table. */
  lemma {:induction false} RowPlace(vp: Oid, hs: seq<Hardware>, i: nat, j: nat, withMed: bool)
    requires i < |hs| && j < |hs[i].ports| && Shown(hs[i].ports[j], withMed)
    ensures var k := |HardwareRows(hs, i, withMed)| + |PortRows(hs[i], j, withMed)|;
      var rows := RemotePorts(vp, hs, withMed).rows;
      k < |rows| && rows[k] == RowOf(hs[i], hs[i].ports[j])
  {
    var some := HardwareRows(hs, i, withMed) + PortRows(hs[i], j + 1, withMed);
    PortPrefix(hs[i], j + 1, |hs[i].ports|, withMed);
    HardwarePrefix(hs, i + 1, |hs|, withMed);
    assert some <= HardwareRows(hs, i + 1, withMed) <= HardwareRows(hs, |hs|, withMed);
    assert some[|some| - 1] == RowOf(hs[i], hs[i].ports[j]);
  }

  lemma {:induction false} NoEqualYet<V>(rows: seq<Row<V>>, k: nat, n: nat, target: Oid)
    requires k <= n <= |rows| && forall i :: k <= i < n ==> rows[i].index != target
    ensures EqualRow(rows, k, target) == EqualRow(rows, n, target)
    decreases n - k
  {
    if k < n {
      NoEqualYet(rows, k + 1, n, target);
    }
  }

  /** No row among the first k is the one asked for. */
  ghost predicate NotFound(t: Table<Port>, request: Oid, exact: bool, k: nat)
  {
    var n := Raised(t.prefix, request);
    k <= |t.rows| && (exact && t.prefix <= n ==> forall x :: 0 <= x < k ==> t.rows[x].index != n[|t.prefix|..])
  }

  /** The inner loop, over the ports of interface i. */
  method ScanInterface(idx: HeaderIndex<Port>, vp: Oid, request: Oid, exact: bool, hs: seq<Hardware>, i: nat,
      withMed: bool)
    returns (found: Option<Port>)
    requires i < |hs|
    requires var t, k := RemotePorts(vp, hs, withMed), |HardwareRows(hs, i, withMed)|;
      NotFound(t, request, exact, k) && idx.Scanned(t, request, exact, k)
    modifies idx
    ensures var t, k := RemotePorts(vp, hs, withMed), |HardwareRows(hs, i + 1, withMed)|;
      if found.Some? then Answer(found, idx.name) == Lookup(t, request, exact)
      else NotFound(t, request, exact, k) && idx.Scanned(t, request, exact, k)
  {
    hide Raised, BestRow, HardwareRows, PortRows;
    ghost var t := RemotePorts(vp, hs, withMed);
    ghost var k := |HardwareRows(hs, i, withMed)|;
    StartInterface(hs, i, withMed);
    var j := 0;
    while j < |hs[i].ports|
      invariant j <= |hs[i].ports| && k == |HardwareRows(hs, i, withMed)| + |PortRows(hs[i], j, withMed)|
      invariant NotFound(t, request, exact, k) && idx.Scanned(t, request, exact, k)
    {
      var port := hs[i].ports[j];
      NextPort(hs[i], j, withMed);
      if Shown(port, withMed) {
        RowPlace(vp, hs, i, j, withMed);
        var hit := idx.Add([port.lastChange, hs[i].ifIndex, port.chassis], port, t, request, k);
        if hit {
          NoEqualYet(t.rows, 0, k, idx.name[|vp|..]);
          return Some(port);
        }
        k := k + 1;
      }
      j := j + 1;
    }
    found := None;
  }

  lemma {:induction false} StartInterface(hs: seq<Hardware>, i: nat, withMed: bool)
    requires i < |hs|
    ensures |HardwareRows(hs, i + 1, withMed)| ==
      |HardwareRows(hs, i, withMed)| + |PortRows(hs[i], |hs[i].ports|, withMed)|
    ensures |PortRows(hs[i], 0, withMed)| == 0
  {
  }

  lemma {:induction false} NextPort(h: Hardware, j: nat, withMed: bool)
    requires j < |h.ports|
    ensures |PortRows(h, j + 1, withMed)| == |PortRows(h, j, withMed)| + if Shown(h.ports[j], withMed) then 1 else 0
  {
  }

  /** header_tprindexed_table(). */
  method RemotePort(idx: HeaderIndex<Port>, vp: Oid, request: Oid, exact: bool, hs: seq<Hardware>, withMed: bool)
    returns (r: Option<Port>)
    modifies idx
    ensures Answer(r, idx.name) == Lookup(RemotePorts(vp, hs, withMed), request, exact)
  {
    hide Raised, BestRow;
    ghost var t := RemotePorts(vp, hs, withMed);
    var ok := idx.Init(vp, request, exact, t);
    if !ok {
      return None;
    }
    var i := 0;
    while i < |hs|
      invariant i <= |hs| && NotFound(t, request, exact, |HardwareRows(hs, i, withMed)|)
      invariant idx.Scanned(t, request, exact, |HardwareRows(hs, i, withMed)|)
    {
      r := ScanInterface(idx, vp, request, exact, hs, i, withMed);
      if r.Some? {
        return;
      }
      i := i + 1;
    }
    if exact {
      NoEqualYet(t.rows, 0, |t.rows|, idx.name[|vp|..]);
    }
    r := idx.Best(t, request);
  }
}
