/** What lldpd_decode() of src/daemon/lldpd.c does with a neighbour described by a
    frame: at most one entry for each chassis and port, and one chassis for all the
    ports of a system. */
module EdpStore {
  import opened Bytes
  import opened Edp
  import opened EdpNeighbors
  import opened EdpDecode

  /** Entry k is for the port the frame describes. */
  predicate SamePort(n: Neighbors, k: nat, o: Outcome)
    requires o.NewPort? && k < |n.ports|
  {
    Matches(n, k, o.id) && n.ports[k].slot == o.info.slot && n.ports[k].port == o.info.port
  }

  /** The entry for the port, from the i-th on, or the number of entries. */
  function FindPort(n: Neighbors, i: nat, o: Outcome): (k: nat)
    requires o.NewPort? && i <= |n.ports|
    ensures i <= k <= |n.ports| && (k < |n.ports| ==> SamePort(n, k, o))
    ensures forall j :: i <= j < k ==> !SamePort(n, j, o)
    decreases |n.ports| - i
  {
    if i == |n.ports| || SamePort(n, i, o) then i else FindPort(n, i + 1, o)
  }

  predicate SameSystem(c: Chassis, id: seq<byte>)
  {
    c.edp && c.mac && c.id == id
  }

  /** The chassis of the system, from the i-th on, or the number of chassis. */
  function FindChassis(cs: seq<Chassis>, i: nat, id: seq<byte>): (c: nat)
    requires i <= |cs|
    ensures i <= c <= |cs| && (c < |cs| ==> SameSystem(cs[c], id))
    ensures forall j :: i <= j < c ==> !SameSystem(cs[j], id)
    decreases |cs| - i
  {
    if i == |cs| || SameSystem(cs[i], id) then i else FindChassis(cs, i + 1, id)
  }

  /** The chassis the neighbour gets: that of the entry it replaces, or one learnt on
      any interface, or a new one. */
  function Home(n: Neighbors, o: Outcome): (c: nat)
    requires o.NewPort?
    ensures c <= |n.chassis| && (c < |n.chassis| ==> n.chassis[c].mac && n.chassis[c].id == o.id)
  {
    var k := FindPort(n, 0, o);
    if k < |n.ports| then n.ports[k].chassis else FindChassis(n.chassis, 0, o.id)
  }

  function Without(s: seq<Known>, k: nat): seq<Known>
  {
    if k < |s| then s[..k] + s[k + 1..] else s
  }

  function Put(cs: seq<Chassis>, c: nat, x: Chassis): seq<Chassis>
    requires c <= |cs|
  {
    if c < |cs| then cs[c := x] else cs + [x]
  }

  /** The entry replaces the one for the same port, and goes to the end. */
  function Store(n: Neighbors, o: Outcome): Neighbors
    requires o.NewPort?
  {
    Neighbors(Without(n.ports, FindPort(n, 0, o)) + [Known(true, Home(n, o), o.info.slot, o.info.port, o.vlans)],
              Put(n.chassis, Home(n, o), Chassis(true, true, o.id, o.mgmt)))
  }

  /** How many of the first k entries were learnt with EDP. */
  function Count(s: seq<Known>, k: nat): nat
    requires k <= |s|
  {
    if k == 0 then 0 else Count(s, k - 1) + if s[k - 1].edp then 1 else 0
  }

  /** A port that has no entry is dropped when the protocol has as many as allowed; 0
      is no limit. */
  predicate Admitted(n: Neighbors, o: Outcome, limit: nat)
    requires o.NewPort?
  {
    FindPort(n, 0, o) < |n.ports| || limit == 0 || Count(n.ports, |n.ports|) < limit
  }

  // ---------- The procedure ----------

  method Remember(h: Hardware, o: Outcome, limit: nat)
    requires o.NewPort?
    modifies h
    ensures h.State() == if Admitted(old(h.State()), o, limit) then Store(old(h.State()), o) else old(h.State())
  {
    hide Matches;
    var k, count := 0, 0;
    while k < |h.ports| && !SamePort(h.State(), k, o)
      invariant k <= |h.ports| && FindPort(h.State(), k, o) == FindPort(h.State(), 0, o)
      invariant count == Count(h.ports, k)
    {
      if h.ports[k].edp {
        count := count + 1;
      }
      k := k + 1;
    }
    if k == |h.ports| && limit > 0 && count > limit - 1 {
      return;
    }
    var c := 0;
    if k < |h.ports| {
      c := h.ports[k].chassis;
      h.ports := h.ports[..k] + h.ports[k + 1..];
    } else {
      while c < |h.chassis| && !SameSystem(h.chassis[c], o.id)
        invariant c <= |h.chassis| && FindChassis(h.chassis, c, o.id) == FindChassis(h.chassis, 0, o.id)
      {
        c := c + 1;
      }
    }
    var chassis := Chassis(true, true, o.id, o.mgmt);
    if c < |h.chassis| {
      h.chassis := h.chassis[c := chassis];
    } else {
      h.chassis := h.chassis + [chassis];
    }
    h.ports := h.ports + [Known(true, c, o.info.slot, o.info.port, o.vlans)];
  }

  /** What is known after one frame, and after the frames from the i-th on. */
  function Learn(n: Neighbors, frame: seq<byte>, limit: nat): Neighbors
  {
    var o := Decode(frame);
    if !o.NewPort? then After(n, frame) else if Admitted(n, o, limit) then Store(n, o) else n
  }

  function LearnAll(n: Neighbors, frames: seq<seq<byte>>, i: nat, limit: nat): Neighbors
    decreases |frames| - i
  {
    if i >= |frames| then n else LearnAll(Learn(n, frames[i], limit), frames, i + 1, limit)
  }

  method Handle(h: Hardware, frame: seq<byte>, limit: nat)
    modifies h
    ensures h.State() == Learn(old(h.State()), frame, limit)
  {
    hide Decode, Store, Attach, Admitted;
    var o := Receive(h, frame);
    if o.NewPort? {
      Remember(h, o, limit);
    }
  }

  // ---------- What every frame keeps ----------

  /** An entry learnt with EDP has a chassis learnt with EDP. */
  ghost predicate Housed(n: Neighbors, k: nat)
    requires k < |n.ports|
  {
    && n.ports[k].chassis < |n.chassis|
    && (n.ports[k].edp ==> n.chassis[n.ports[k].chassis].edp && n.chassis[n.ports[k].chassis].mac)
  }

  /** Two entries are not for the same port of the same chassis. */
  predicate Apart(p: Known, q: Known)
  {
    p.edp && q.edp ==> p.chassis != q.chassis || p.slot != q.slot || p.port != q.port
  }

  /** Every entry is housed; no port has two entries, and no system two chassis. */
  ghost predicate Consistent(n: Neighbors)
  {
    && (forall k :: 0 <= k < |n.ports| ==> Housed(n, k))
    && (forall j, k :: 0 <= j < k < |n.ports| ==> Apart(n.ports[j], n.ports[k]))
    && (forall c, d :: 0 <= c < d < |n.chassis| ==>
       !SameSystem(n.chassis[c], n.chassis[d].id) || !SameSystem(n.chassis[d], n.chassis[d].id))
  }

  /** The chassis a neighbour gets was of the same system, if it was there. */
  lemma {:induction false} HomeSystem(n: Neighbors, o: Outcome)
    requires o.NewPort? && Consistent(n)
    ensures Home(n, o) < |n.chassis| ==> SameSystem(n.chassis[Home(n, o)], o.id)
    ensures Home(n, o) == |n.chassis| ==> forall c :: 0 <= c < |n.chassis| ==> !SameSystem(n.chassis[c], o.id)
  {
    var k := FindPort(n, 0, o);
    if k < |n.ports| {
      assert Housed(n, k);
    }
  }

  /** Where entry j of the result, if it is not the last, comes from. */
  function Origin(n: Neighbors, o: Outcome, j: nat): nat
    requires o.NewPort?
  {
    if j < FindPort(n, 0, o) then j else j + 1
  }

  lemma {:induction false} StoredPorts(n: Neighbors, o: Outcome)
    requires o.NewPort?
    ensures var r := Store(n, o);
      && |r.ports| == (if FindPort(n, 0, o) < |n.ports| then |n.ports| else |n.ports| + 1)
      && r.ports[|r.ports| - 1] == Known(true, Home(n, o), o.info.slot, o.info.port, o.vlans)
      && forall j :: 0 <= j < |r.ports| - 1 ==>
        Origin(n, o, j) < |n.ports| && Origin(n, o, j) != FindPort(n, 0, o) && r.ports[j] == n.ports[Origin(n, o, j)]
  {
    hide SamePort, FindChassis;
  }

  /** No other entry is for the port stored. */
  lemma {:induction false} StoredApart(n: Neighbors, o: Outcome, k: nat)
    requires o.NewPort? && Consistent(n) && k < |n.ports| && k != FindPort(n, 0, o)
    ensures Apart(n.ports[k], Known(true, Home(n, o), o.info.slot, o.info.port, o.vlans))
  {
    hide FindChassis;
    HomeSystem(n, o);
    assert Housed(n, k);
    var f := FindPort(n, 0, o);
    if f < |n.ports| {
      assert if k < f then Apart(n.ports[k], n.ports[f]) else Apart(n.ports[f], n.ports[k]);
    } else {
      assert !SamePort(n, k, o);
    }
  }

  lemma {:induction false} StoreConsistent(n: Neighbors, o: Outcome)
    requires o.NewPort? && Consistent(n)
    ensures Consistent(Store(n, o))
  {
    hide FindPort, FindChassis, Home;
    var r := Store(n, o);
    var last := |r.ports| - 1;
    StoredPorts(n, o);
    HomeSystem(n, o);
    forall k | 0 <= k < |r.ports| ensures Housed(r, k) {
      if k < last {
        assert Housed(n, Origin(n, o, k));
      }
    }
    forall j, k | 0 <= j < k < |r.ports| ensures Apart(r.ports[j], r.ports[k]) {
      if k < last {
        assert Apart(n.ports[Origin(n, o, j)], n.ports[Origin(n, o, k)]);
      } else {
        StoredApart(n, o, Origin(n, o, j));
      }
    }
  }

  /** VLANs and addresses do not matter. */
  lemma {:induction false} AttachConsistent(n: Neighbors, id: seq<byte>, vlans: seq<Vlan>, mgmt: seq<seq<byte>>)
    requires Consistent(n)
    ensures Consistent(Attach(n, 0, id, vlans, mgmt))
  {
    hide Attach, Matches, LastOnes;
    AttachIs(n, 0, id, vlans, mgmt);
    var r, f := Attach(n, 0, id, vlans, mgmt), First(n, 0, id);
    if f < |n.ports| {
      MatchesChassis(n, f, id);
    }
    forall k | 0 <= k < |r.ports| ensures Housed(r, k) {
      assert Housed(n, k);
    }
    forall j, k | 0 <= j < k < |r.ports| ensures Apart(r.ports[j], r.ports[k]) {
      assert Apart(n.ports[j], n.ports[k]);
    }
  }

  lemma {:induction false} LearnConsistent(n: Neighbors, frame: seq<byte>, limit: nat)
    requires Consistent(n)
    ensures Consistent(Learn(n, frame, limit))
  {
    hide Decode, Store, Attach, Consistent, Admitted;
    var o := Decode(frame);
    if o.NewPort? {
      StoreConsistent(n, o);
    } else if o.MoreVlans? {
      AttachConsistent(n, o.id, o.vlans, o.mgmt);
    }
  }

  /** Over every run of frames, whatever they hold. */
  lemma {:induction false} RunConsistent(n: Neighbors, frames: seq<seq<byte>>, i: nat, limit: nat)
    requires Consistent(n)
    ensures Consistent(LearnAll(n, frames, i, limit))
    decreases |frames| - i
  {
    hide Consistent, Learn;
    if i < |frames| {
      LearnConsistent(n, frames[i], limit);
      RunConsistent(Learn(n, frames[i], limit), frames, i + 1, limit);
    }
  }

  /** Starting within the limit, no run exceeds it. */
  lemma {:induction false} RunWithin(n: Neighbors, frames: seq<seq<byte>>, i: nat, limit: nat)
    requires limit > 0 && Count(n.ports, |n.ports|) <= limit
    ensures var r := LearnAll(n, frames, i, limit);
      Count(r.ports, |r.ports|) <= limit
    decreases |frames| - i
  {
    hide Learn, Count;
    if i < |frames| {
      LearnWithin(n, frames[i], limit);
      RunWithin(Learn(n, frames[i], limit), frames, i + 1, limit);
    }
  }

  lemma {:induction false} LearnWithin(n: Neighbors, frame: seq<byte>, limit: nat)
    requires limit > 0 && Count(n.ports, |n.ports|) <= limit
    ensures var r := Learn(n, frame, limit);
      Count(r.ports, |r.ports|) <= limit
  {
    hide Decode, Store, Attach, Count, Matches, LastOnes;
    var o := Decode(frame);
    if o.NewPort? {
      StoreCount(n, o);
    } else if o.MoreVlans? {
      AttachIs(n, 0, o.id, o.vlans, o.mgmt);
      SameCount(n.ports, Attach(n, 0, o.id, o.vlans, o.mgmt).ports, |n.ports|);
    }
  }

  lemma {:induction false} SameCount(s: seq<Known>, t: seq<Known>, k: nat)
    requires k <= |s| && k <= |t| && forall i :: 0 <= i < k ==> s[i].edp == t[i].edp
    ensures Count(s, k) == Count(t, k)
  {
    if k > 0 {
      SameCount(s, t, k - 1);
    }
  }

  /** Storing adds an entry exactly when there was none for the port. */
  lemma {:induction false} StoreCount(n: Neighbors, o: Outcome)
    requires o.NewPort?
    ensures var r, added := Store(n, o), FindPort(n, 0, o) == |n.ports|;
      Count(r.ports, |r.ports|) == Count(n.ports, |n.ports|) + if added then 1 else 0
  {
    hide FindChassis, Home;
    var k := FindPort(n, 0, o);
    var s := Without(n.ports, k);
    var r := Store(n, o);
    SameCount(r.ports, s, |s|);
    if k < |n.ports| {
      WithoutCount(n.ports, k, |s|);
    }
  }

  lemma {:induction false} WithoutCount(s: seq<Known>, k: nat, j: nat)
    requires k < |s| && k <= j < |s| && s[k].edp
    ensures Count(Without(s, k), j) + 1 == Count(s, j + 1)
    decreases j
  {
    if j == k {
      SameCount(Without(s, k), s, k);
    } else {
      WithoutCount(s, k, j - 1);
      assert Without(s, k)[j - 1] == s[j];
    }
  }

  // ---------- Who matches afterwards ----------

  lemma {:induction false} StoredMatches(n: Neighbors, o: Outcome, j: nat, id: seq<byte>)
    requires o.NewPort? && Consistent(n) && j < |Store(n, o).ports|
    ensures j == |Store(n, o).ports| - 1 ==> (Matches(Store(n, o), j, id) <==> id == o.id)
    ensures j < |Store(n, o).ports| - 1 ==>
      Origin(n, o, j) < |n.ports| && (Matches(Store(n, o), j, id) <==> Matches(n, Origin(n, o, j), id))
  {
    hide FindPort, FindChassis, Home;
    StoredPorts(n, o);
    HomeSystem(n, o);
    if j < |Store(n, o).ports| - 1 {
      assert Housed(n, Origin(n, o, j));
    }
  }
}
