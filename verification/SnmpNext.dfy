/** Get and GetNext (section 4.2 of RFC 3416) over the tables of src/daemon/agent.c. */
module SnmpNext {
  import opened Bytes
  import opened Oid
  import opened Snmp

  // ---------- One search ----------

  lemma {:induction false} BestIsLeast<V>(rows: seq<Row<V>>, n: nat, target: Oid)
    requires n <= |rows|
    ensures match BestRow(rows, n, target)
      case None => forall j :: 0 <= j < n ==> !Less(target, rows[j].index)
      case Some(k) => Less(target, rows[k].index) && forall j :: 0 <= j < n && Less(target, rows[j].index) ==>
        Beats(rows, k, j)
  {
    if n > 0 {
      BestIsLeast(rows, n - 1, target);
      var b := BestRow(rows, n - 1, target);
      if b.Some? {
        Ordered(rows[n - 1].index, rows[b.value].index);
        forall j | 0 <= j < n && Less(target, rows[j].index)
          ensures Beats(rows, BestRow(rows, n, target).value, j)
        {
          if j < n - 1 && Less(rows[n - 1].index, rows[b.value].index) {
            Transitive(rows[n - 1].index, rows[b.value].index, rows[j].index);
          }
        }
      }
    }
  }

  /** Row k comes before row j: smaller index, or the same and earlier in the list. */
  predicate Beats<V>(rows: seq<Row<V>>, k: nat, j: nat)
    requires k < |rows| && j < |rows|
  {
    Less(rows[k].index, rows[j].index) || (rows[k].index == rows[j].index && k <= j)
  }

  /** Row k is the row a GetNext on `name` has to find. */
  ghost predicate Successor<V>(t: Table<V>, name: Oid, k: nat)
  {
    && k < |t.rows| && Less(name, Full(t, k))
    && forall j :: 0 <= j < |t.rows| && Less(name, Full(t, j)) ==> Beats(t.rows, k, j)
  }

  /** Being above the request is being above the target of the search. */
  lemma {:induction false} AboveTarget<V>(t: Table<V>, name: Oid, k: nat)
    requires Indexed(t) && k < |t.rows|
    ensures var n := Raised(t.prefix, name);
      Less(name, Full(t, k)) <==> t.prefix <= n && Less(n[|t.prefix|..], t.rows[k].index)
  {
    var p, x := t.prefix, t.rows[k].index;
    if Less(name, p) {
      BelowPrefix(name, p, x, 0);
      assert p[|p|..] == [];
    } else if p <= name {
      assert name == p + name[|p|..];
      PrefixedCompare(p, name[|p|..], x, 0);
    } else {
      AbovePrefix(name, p, x, 0);
      CompareFlips(name, p + x, 0);
    }
  }

  /** Whatever the order of the lists, a search finds the least name above the
      requested one, and nothing exactly when there is none. */
  lemma {:induction false} LookupNext<V>(t: Table<V>, name: Oid) returns (k: Option<nat>)
    requires Indexed(t)
    ensures match k
      case None => Lookup(t, name, false).entity == None && forall j :: 0 <= j < |t.rows| ==> !Less(name, Full(t, j))
      case Some(i) => Successor(t, name, i) && Lookup(t, name, false) == Answer(Some(t.rows[i].entity), Full(t, i))
  {
    var n := Raised(t.prefix, name);
    forall j | 0 <= j < |t.rows|
      ensures Less(name, Full(t, j)) <==> t.prefix <= n && Less(n[|t.prefix|..], t.rows[j].index)
    {
      AboveTarget(t, name, j);
    }
    k := None;
    if t.prefix <= n {
      k := BestRow(t.rows, |t.rows|, n[|t.prefix|..]);
      BestIsLeast(t.rows, |t.rows|, n[|t.prefix|..]);
    }
  }

  /** An exact search returns the first row of that very name, and keeps the name;
      nothing exactly when there is no such row. */
  lemma {:induction false} LookupExact<V>(t: Table<V>, name: Oid) returns (k: Option<nat>)
    requires Indexed(t)
    ensures match k
      case None => Lookup(t, name, true).entity == None && forall j :: 0 <= j < |t.rows| ==> Full(t, j) != name
      case Some(i) =>
        && i < |t.rows| && Full(t, i) == name && (forall j :: 0 <= j < i ==> Full(t, j) != name)
        && Lookup(t, name, true) == Answer(Some(t.rows[i].entity), name)
  {
    var p, n := t.prefix, Raised(t.prefix, name);
    k := None;
    forall j | 0 <= j < |t.rows| ensures Full(t, j) == name <==> p <= n && t.rows[j].index == n[|p|..] {
      if Less(name, p) {
        BelowPrefix(name, p, t.rows[j].index, 0);
        Ordered(name, name);
        assert p[|p|..] == [];
      } else if p <= name {
        assert name == p + name[|p|..];
        assert Full(t, j)[|p|..] == t.rows[j].index;
      }
    }
    if p <= n {
      k := EqualRow(t.rows, 0, n[|p|..]);
      EqualIsFirst(t.rows, 0, n[|p|..]);
      Ordered(p, name);
    }
  }

  lemma {:induction false} EqualIsFirst<V>(rows: seq<Row<V>>, k: nat, target: Oid)
    ensures match EqualRow(rows, k, target)
      case None => forall j :: k <= j < |rows| ==> rows[j].index != target
      case Some(i) => rows[i].index == target && forall j :: k <= j < i ==> rows[j].index != target
    decreases |rows| - k
  {
    if k < |rows| {
      EqualIsFirst(rows, k + 1, target);
    }
  }

  // ---------- Rows without a value ----------

  /** Rows above `name` among the first n: what is left to try. */
  ghost function Above<V>(t: Table<V>, name: Oid, n: nat): nat
    requires n <= |t.rows|
  {
    if n == 0 then 0 else Above(t, name, n - 1) + if Less(name, Full(t, n - 1)) then 1 else 0
  }

  lemma {:induction false} AboveShrinks<V>(t: Table<V>, name: Oid, name': Oid, n: nat)
    requires n <= |t.rows| && Less(name, name')
    ensures Above(t, name', n) <= Above(t, name, n)
    ensures (exists k :: 0 <= k < n && Full(t, k) == name') ==> Above(t, name', n) < Above(t, name, n)
  {
    if n > 0 {
      AboveShrinks(t, name, name', n - 1);
      if Less(name', Full(t, n - 1)) {
        Transitive(name, name', Full(t, n - 1));
      }
      Ordered(name', name');
    }
  }

  lemma {:induction false} LookupAdvances<V>(t: Table<V>, name: Oid)
    requires Indexed(t) && Lookup(t, name, false).entity.Some?
    ensures var name' := Lookup(t, name, false).name;
      name' != [] && Less(name, name') && Above(t, name', |t.rows|) < Above(t, name, |t.rows|)
  {
    hide Lookup;
    var k := LookupNext(t, name);
    AboveShrinks(t, name, Full(t, k.value), |t.rows|);
  }

  /** agent_h_remote_port() and its kind: when the row found has no value, TRYNEXT
      calls the same function again on the name just found. */
  function Handle<V>(t: Table<V>, name: Oid, exact: bool, hasValue: V -> bool): Answer<V>
    requires Indexed(t)
    decreases Above(t, name, |t.rows|)
  {
    var a := Lookup(t, name, exact);
    if a.entity.None? || hasValue(a.entity.value) then a
    else if exact then Answer(None, a.name)
    else
      LookupAdvances(t, name);
      if a.name[|a.name| - 1] < MAX_SUBID then Handle(t, a.name, exact, hasValue) else Answer(None, a.name)
  }

  lemma {:induction false} RowsIndexed(vp: Oid, hs: seq<Hardware>, withMed: bool, n: nat)
    requires n <= |hs|
    ensures forall k :: 0 <= k < |HardwareRows(hs, n, withMed)| ==> HardwareRows(hs, n, withMed)[k].index != []
  {
    if n > 0 {
      RowsIndexed(vp, hs, withMed, n - 1);
      PortRowsIndexed(hs[n - 1], |hs[n - 1].ports|, withMed);
    }
  }

  lemma {:induction false} PortRowsIndexed(h: Hardware, n: nat, withMed: bool)
    requires n <= |h.ports|
    ensures forall k :: 0 <= k < |PortRows(h, n, withMed)| ==> PortRows(h, n, withMed)[k].index != []
  {
    if n > 0 {
      PortRowsIndexed(h, n - 1, withMed);
    }
  }

  method RemotePortValue(idx: HeaderIndex<Port>, vp: Oid, request: Oid, exact: bool, hs: seq<Hardware>, withMed: bool,
      hasValue: Port -> bool)
    returns (r: Option<Port>)
    modifies idx
    ensures Indexed(RemotePorts(vp, hs, withMed))
    ensures Answer(r, idx.name) == Handle(RemotePorts(vp, hs, withMed), request, exact, hasValue)
    decreases Above(RemotePorts(vp, hs, withMed), request, |RemotePorts(vp, hs, withMed).rows|)
  {
    hide Lookup, HardwareRows, Above;
    RowsIndexed(vp, hs, withMed, |hs|);
    r := RemotePort(idx, vp, request, exact, hs, withMed);
    if r.None? {
      return;
    }
    if hasValue(r.value) {
      return;
    }
    if !exact {
      LookupAdvances(RemotePorts(vp, hs, withMed), request);
      if idx.name[|idx.name| - 1] < MAX_SUBID {
        r := RemotePortValue(idx, vp, idx.name, exact, hs, withMed, hasValue);
        return;
      }
    }
    r := None;
  }

  // ---------- GetNext ----------

  /** Row k is the first of its name. */
  predicate First<V>(t: Table<V>, k: nat)
  {
    k < |t.rows| && forall j :: 0 <= j < k ==> t.rows[j].index != t.rows[k].index
  }

  /** The name of row k has a value to return. */
  predicate Available<V>(t: Table<V>, hasValue: V -> bool, k: nat)
  {
    First(t, k) && hasValue(t.rows[k].entity)
  }

  /** Row v is the available row a GetNext on `name` has to return. */
  ghost predicate NextAvailable<V>(t: Table<V>, hasValue: V -> bool, name: Oid, v: nat)
  {
    && Available(t, hasValue, v) && Less(name, Full(t, v))
    && forall j :: Available(t, hasValue, j) && Less(name, Full(t, j)) ==> Beats(t.rows, v, j)
  }

  /** No row between `name` and row v ends with the largest sub-identifier. */
  ghost predicate Clear<V>(t: Table<V>, name: Oid, v: nat)
    requires v < |t.rows|
  {
    forall k :: 0 <= k < |t.rows| && Less(name, Full(t, k)) && Less(Full(t, k), Full(t, v)) ==>
      Full(t, k)[|Full(t, k)| - 1] < MAX_SUBID
  }

  lemma {:induction false} FullCompare<V>(t: Table<V>, j: nat, k: nat)
    requires j < |t.rows| && k < |t.rows|
    ensures Less(Full(t, j), Full(t, k)) <==> Less(t.rows[j].index, t.rows[k].index)
    ensures Full(t, j) == Full(t, k) <==> t.rows[j].index == t.rows[k].index
  {
    PrefixedCompare(t.prefix, t.rows[j].index, t.rows[k].index, 0);
    assert Full(t, j)[|t.prefix|..] == t.rows[j].index;
    assert Full(t, k)[|t.prefix|..] == t.rows[k].index;
  }

  /** The row a search finds is the first of its name. */
  lemma {:induction false} SuccessorFirst<V>(t: Table<V>, name: Oid, k: nat)
    requires Successor(t, name, k)
    ensures First(t, k)
  {
    forall j | 0 <= j < k ensures t.rows[j].index != t.rows[k].index {
      FullCompare(t, j, k);
      if t.rows[j].index == t.rows[k].index {
        assert Beats(t.rows, k, j);
        Ordered(t.rows[k].index, t.rows[k].index);
      }
    }
  }

  /** The search finds row v itself, or an unavailable row strictly before it. */
  lemma {:induction false} FindsOrSkips<V>(t: Table<V>, hasValue: V -> bool, name: Oid, v: nat, k: nat)
    requires NextAvailable(t, hasValue, name, v) && Successor(t, name, k)
    ensures k == v || (!hasValue(t.rows[k].entity) && Less(Full(t, k), Full(t, v)))
  {
    SuccessorFirst(t, name, k);
    FullCompare(t, k, v);
    Ordered(t.rows[k].index, t.rows[v].index);
    assert Beats(t.rows, k, v);
    if hasValue(t.rows[k].entity) {
      assert Available(t, hasValue, k);
      assert Beats(t.rows, v, k);
    }
  }

  lemma {:induction false} NextAfterSkip<V>(t: Table<V>, hasValue: V -> bool, name: Oid, v: nat, k: nat)
    requires Indexed(t) && NextAvailable(t, hasValue, name, v) && Successor(t, name, k)
    requires Less(Full(t, k), Full(t, v)) && Full(t, k)[|Full(t, k)| - 1] < MAX_SUBID
    ensures NextAvailable(t, hasValue, Full(t, k), v) && (Clear(t, Full(t, k), v) <==> Clear(t, name, v))
  {
    var name' := Full(t, k);
    forall j | 0 <= j < |t.rows| && Less(name', Full(t, j)) ensures Less(name, Full(t, j)) {
      Transitive(name, name', Full(t, j));
    }
    if Clear(t, name', v) {
      forall j | 0 <= j < |t.rows| && Less(name, Full(t, j)) && Less(Full(t, j), Full(t, v))
        ensures Full(t, j)[|Full(t, j)| - 1] < MAX_SUBID
      {
        assert Beats(t.rows, k, j);
        FullCompare(t, k, j);
      }
    }
  }

  /** GetNext returns the least available name above the requested one if and only
      if no row skipped on the way ends with the largest sub-identifier; otherwise it
      returns nothing. */
  lemma {:induction false} GetNextIff<V>(t: Table<V>, hasValue: V -> bool, name: Oid, v: nat)
    requires Indexed(t) && NextAvailable(t, hasValue, name, v)
    ensures Handle(t, name, false, hasValue) == Answer(Some(t.rows[v].entity), Full(t, v)) <==> Clear(t, name, v)
    ensures !Clear(t, name, v) ==> Handle(t, name, false, hasValue).entity == None
    decreases Above(t, name, |t.rows|)
  {
    hide Lookup, NextAvailable, Clear, Full, Successor;
    var k := LookupNext(t, name);
    NextExists(t, hasValue, name, v);
    FindsOrSkips(t, hasValue, name, v, k.value);
    if k.value == v {
      ClearToFirst(t, name, v);
    } else {
      LookupAdvances(t, name);
      SkippedLast(t, name, v, k.value);
      if Full(t, k.value)[|Full(t, k.value)| - 1] < MAX_SUBID {
        NextAfterSkip(t, hasValue, name, v, k.value);
        GetNextIff(t, hasValue, Full(t, k.value), v);
      }
    }
  }

  /** A row without a value that ends with the largest sub-identifier hides the
      rows after it. */
  lemma {:induction false} LargestHidesNext()
    ensures var t := Table([1], [Row([1, 0xFFFF_FFFF], false), Row([2, 7], true)]);
      && NextAvailable(t, x => x, [1], 1) && !Clear(t, [1], 1)
      && Handle(t, [1], false, x => x).entity == None
  {
    var t := Table([1], [Row([1, 0xFFFF_FFFF], false), Row([2, 7], true)]);
    assert Full(t, 0) == [1, 1, 0xFFFF_FFFF] && Full(t, 1) == [1, 2, 7];
    assert Less([1], Full(t, 0)) && Less([1], Full(t, 1)) && Less(Full(t, 0), Full(t, 1));
    assert NextAvailable(t, x => x, [1], 1);
    GetNextIff(t, x => x, [1], 1);
  }

  lemma {:induction false} NextExists<V>(t: Table<V>, hasValue: V -> bool, name: Oid, v: nat)
    requires NextAvailable(t, hasValue, name, v)
    ensures v < |t.rows| && Less(name, Full(t, v)) && hasValue(t.rows[v].entity)
  {
  }

  lemma {:induction false} ClearToFirst<V>(t: Table<V>, name: Oid, v: nat)
    requires Successor(t, name, v)
    ensures Clear(t, name, v)
  {
    forall j | 0 <= j < |t.rows| && Less(name, Full(t, j)) ensures !Less(Full(t, j), Full(t, v)) {
      assert Beats(t.rows, v, j);
      FullCompare(t, j, v);
      Ordered(t.rows[j].index, t.rows[v].index);
    }
  }

  lemma {:induction false} SkippedLast<V>(t: Table<V>, name: Oid, v: nat, k: nat)
    requires v < |t.rows| && Successor(t, name, k) && Less(Full(t, k), Full(t, v)) && Full(t, k) != []
    ensures Full(t, k)[|Full(t, k)| - 1] >= MAX_SUBID ==> !Clear(t, name, v)
  {
  }

  /** Without an available name above the requested one, nothing is returned. */
  lemma {:induction false} GetNextNone<V>(t: Table<V>, hasValue: V -> bool, name: Oid)
    requires Indexed(t) && forall j :: Available(t, hasValue, j) ==> !Less(name, Full(t, j))
    ensures Handle(t, name, false, hasValue).entity == None
    decreases Above(t, name, |t.rows|)
  {
    hide Lookup, Full;
    var k := LookupNext(t, name);
    if k.Some? {
      SuccessorFirst(t, name, k.value);
      assert !Available(t, hasValue, k.value);
      LookupAdvances(t, name);
      forall j | Available(t, hasValue, j) ensures !Less(Full(t, k.value), Full(t, j)) {
        if Less(Full(t, k.value), Full(t, j)) {
          Transitive(name, Full(t, k.value), Full(t, j));
        }
      }
      if Full(t, k.value)[|Full(t, k.value)| - 1] < MAX_SUBID {
        GetNextNone(t, hasValue, Full(t, k.value));
      }
    }
  }

  // ---------- Walking a table ----------

  predicate SmallIndexes<V>(t: Table<V>)
  {
    forall k :: 0 <= k < |t.rows| ==> t.rows[k].index != [] && t.rows[k].index[|t.rows[k].index| - 1] < MAX_SUBID
  }

  /** Some available row, if any, is the next one. */
  lemma {:induction false} LeastAvailable<V>(t: Table<V>, hasValue: V -> bool, name: Oid, n: nat)
    returns (v: Option<nat>)
    requires n <= |t.rows|
    ensures match v
      case None => forall j :: 0 <= j < n && Available(t, hasValue, j) ==> !Less(name, Full(t, j))
      case Some(i) =>
        && i < n && Available(t, hasValue, i) && Less(name, Full(t, i))
        && forall j :: 0 <= j < n && Available(t, hasValue, j) && Less(name, Full(t, j)) ==> Beats(t.rows, i, j)
  {
    hide Full, Available;
    v := None;
    if n > 0 {
      v := LeastAvailable(t, hasValue, name, n - 1);
      if Available(t, hasValue, n - 1) && Less(name, Full(t, n - 1)) {
        if v.None? || Less(t.rows[n - 1].index, t.rows[v.value].index) {
          forall j | 0 <= j < n - 1 && Available(t, hasValue, j) &&
            Less(name, Full(t, j)) ensures Beats(t.rows, n - 1, j) {
            Transitive(t.rows[n - 1].index, t.rows[v.value].index, t.rows[j].index);
          }
          v := Some(n - 1);
        } else {
          Ordered(t.rows[n - 1].index, t.rows[v.value].index);
        }
      }
    }
  }

  /** GetNext returns the least available name above the requested one. */
  lemma {:induction false} GetNext<V>(t: Table<V>, hasValue: V -> bool, name: Oid) returns (v: Option<nat>)
    requires SmallIndexes(t)
    ensures match v
      case None => Handle(t, name, false, hasValue).entity == None && forall j :: Available(t, hasValue, j) ==>
        !Less(name, Full(t, j))
      case Some(i) =>
        NextAvailable(t, hasValue, name, i) &&
          Handle(t, name, false, hasValue) == Answer(Some(t.rows[i].entity), Full(t, i))
  {
    v := LeastAvailable(t, hasValue, name, |t.rows|);
    hide Handle;
    if v.None? {
      GetNextNone(t, hasValue, name);
    } else {
      GetNextIff(t, hasValue, name, v.value);
    }
  }

  /** The names returned by GetNext on `name`, then on the name returned, and so on. */
  function Walk<V>(t: Table<V>, hasValue: V -> bool, name: Oid): seq<Oid>
    requires SmallIndexes(t)
    decreases Above(t, name, |t.rows|)
  {
    var a := Handle(t, name, false, hasValue);
    if a.entity.None? then []
    else
      HandleAdvances(t, hasValue, name);
      [a.name] + Walk(t, hasValue, a.name)
  }

  lemma {:induction false} HandleAdvances<V>(t: Table<V>, hasValue: V -> bool, name: Oid)
    requires SmallIndexes(t) && Handle(t, name, false, hasValue).entity.Some?
    ensures Above(t, Handle(t, name, false, hasValue).name, |t.rows|) < Above(t, name, |t.rows|)
  {
    hide Handle, Full;
    var v := GetNext(t, hasValue, name);
    AboveShrinks(t, name, Full(t, v.value), |t.rows|);
  }

  ghost predicate Increasing(s: seq<Oid>)
  {
    forall i, j :: 0 <= i < j < |s| ==> Less(s[i], s[j])
  }

  /** A walk enumerates every available name above its start exactly once, in
      increasing order, and then stops. */
  lemma {:induction false} WalkEnumerates<V>(t: Table<V>, hasValue: V -> bool, name: Oid)
    requires SmallIndexes(t)
    ensures var w := Walk(t, hasValue, name);
      && Increasing(w) && (forall x :: x in w ==> Less(name, x))
      && (forall x :: x in w ==> exists j :: Available(t, hasValue, j) && Full(t, j) == x)
      && (forall j :: Available(t, hasValue, j) && Less(name, Full(t, j)) ==> Full(t, j) in w)
    decreases Above(t, name, |t.rows|)
  {
    hide Handle, Full, Above, Available;
    var v := GetNext(t, hasValue, name);
    if v.Some? {
      NextExists(t, hasValue, name, v.value);
      var next := Full(t, v.value);
      HandleAdvances(t, hasValue, name);
      WalkEnumerates(t, hasValue, next);
      var w := Walk(t, hasValue, next);
      WalkStep(t, hasValue, name, v.value, w);
    }
  }

  lemma {:induction false} WalkStep<V>(t: Table<V>, hasValue: V -> bool, name: Oid, v: nat, w: seq<Oid>)
    requires NextAvailable(t, hasValue, name, v)
    requires Increasing(w) && (forall x :: x in w ==> Less(Full(t, v), x))
    requires forall x :: x in w ==> exists j :: Available(t, hasValue, j) && Full(t, j) == x
    requires forall j :: Available(t, hasValue, j) && Less(Full(t, v), Full(t, j)) ==> Full(t, j) in w
    ensures var w' := [Full(t, v)] + w;
      && Increasing(w') && (forall x :: x in w' ==> Less(name, x))
      && (forall x :: x in w' ==> exists j :: Available(t, hasValue, j) && Full(t, j) == x)
      && (forall j :: Available(t, hasValue, j) && Less(name, Full(t, j)) ==> Full(t, j) in w')
  {
    hide Less;
    var w' := [Full(t, v)] + w;
    forall x | x in w' ensures Less(name, x) {
      if x != Full(t, v) {
        Transitive(name, Full(t, v), x);
      }
    }
    forall j | Available(t, hasValue, j) && Less(name, Full(t, j)) ensures Full(t, j) in w' {
      assert Beats(t.rows, v, j);
      FullCompare(t, v, j);
    }
  }
}
