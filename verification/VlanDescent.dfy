/** From VLAN interfaces down to physical ones, through bonds and bridges
    (src/daemon/interfaces.c, built without OVSDB). */
module VlanDescent {
  import opened Bytes

  /** An interface; `lower` and `upper` are positions in the list of interfaces, and
      `hardware` is the known port of that name and index, if any. */
  datatype Device = Device(name: seq<byte>, active: bool, vlan: bool, physical: bool, vlanId: nat, lower: Option<nat>,
      upper: Option<nat>, hardware: Option<nat>)

  datatype Vlan = Vlan(name: seq<byte>, vid: nat)

  const IFNAMSIZ: nat := 16

  /** The VLANs of each known port. */
  class Ports {
    var vlans: seq<seq<Vlan>>

    constructor (v: seq<seq<Vlan>>)
      ensures vlans == v
    {
      vlans := v;
    }
  }

  // ---------- Links ----------

  /** Links stay in the list. */
  ghost predicate Linked(devs: seq<Device>, ports: nat)
  {
    forall i :: 0 <= i < |devs| ==>
      && (devs[i].lower.Some? ==> devs[i].lower.value < |devs|)
      && (devs[i].hardware.Some? ==> devs[i].hardware.value < ports)
  }

  /** One step down: the lower interface, or else, unless the interface is physical,
      an interface that has this one as its upper. */
  predicate Below(devs: seq<Device>, a: nat, b: nat)
  {
    && a < |devs| && b < |devs|
    && if devs[a].lower.Some? then b == devs[a].lower.value else !devs[a].physical && devs[b].upper == Some(a)
  }

  /** There is no cycle: every step down decreases the rank. */
  ghost predicate Ranked(devs: seq<Device>, rank: seq<nat>)
  {
    |rank| == |devs| && forall a: nat, b: nat :: Below(devs, a, b) ==> rank[b] < rank[a]
  }

  ghost predicate Path(devs: seq<Device>, s: seq<nat>)
  {
    |s| > 0 && s[0] < |devs| && forall i :: 0 < i < |s| ==> Below(devs, s[i - 1], s[i])
  }

  /** A path of steps down from d ends at a physical interface whose port is h. */
  ghost predicate Reaches(devs: seq<Device>, d: nat, h: nat)
  {
    exists s :: Path(devs, s) && s[0] == d && Bottom(devs, s[|s| - 1], h)
  }

  predicate Bottom(devs: seq<Device>, d: nat, h: nat)
  {
    d < |devs| && devs[d].lower.None? && devs[d].physical && devs[d].hardware == Some(h)
  }

  /** Reaching a port from d is being at its physical interface, or reaching it from
      some interface one step down. */
  lemma {:induction false} ReachesStep(devs: seq<Device>, d: nat, h: nat)
    requires d < |devs|
    ensures Reaches(devs, d, h) <==> Bottom(devs, d, h) || exists b :: Below(devs, d, b) && Reaches(devs, b, h)
  {
    if Reaches(devs, d, h) {
      var s :| Path(devs, s) && s[0] == d && Bottom(devs, s[|s| - 1], h);
      if |s| > 1 {
        assert Below(devs, s[0], s[1]);
        var t := s[1..];
        assert Path(devs, t) && t[0] == s[1] && Bottom(devs, t[|t| - 1], h);
        assert Reaches(devs, s[1], h);
      }
    }
    if Bottom(devs, d, h) {
      assert Path(devs, [d]) && [d][0] == d && Bottom(devs, [d][0], h);
    }
    forall b | Below(devs, d, b) && Reaches(devs, b, h) ensures Reaches(devs, d, h) {
      var s :| Path(devs, s) && s[0] == b && Bottom(devs, s[|s| - 1], h);
      var t := [d] + s;
      forall i | 0 < i < |t| ensures Below(devs, t[i - 1], t[i]) {
        if i > 1 {
          assert Below(devs, s[i - 2], s[i - 1]);
        }
      }
      assert Path(devs, t) && t[0] == d && t[|t| - 1] == s[|s| - 1];
    }
  }

  // ---------- The VLANs of a port ----------

  /** strncmp() over IFNAMSIZ characters. */
  predicate SameName(a: seq<byte>, b: seq<byte>)
  {
    (if |a| > IFNAMSIZ then a[..IFNAMSIZ] else a) == (if |b| > IFNAMSIZ then b[..IFNAMSIZ] else b)
  }

  predicate Has(list: seq<Vlan>, name: seq<byte>)
  {
    exists i :: 0 <= i < |list| && SameName(name, list[i].name)
  }

  function Added(list: seq<Vlan>, v: Vlan): seq<Vlan>
  {
    if Has(list, v.name) then list else list + [v]
  }

  /** Adding the same VLAN again changes nothing. */
  lemma {:induction false} AddedTwice(list: seq<Vlan>, v: Vlan)
    ensures Added(Added(list, v), v) == Added(list, v)
  {
    if !Has(list, v.name) {
      assert (list + [v])[|list|] == v;
      assert Has(list + [v], v.name);
    }
  }

  function VlanOf(d: Device): Vlan
  {
    Vlan(d.name, d.vlanId)
  }

  /** iface_append_vlan(). */
  method AppendVlan(p: Ports, v: Vlan, hardware: Option<nat>)
    requires hardware.Some? ==> hardware.value < |p.vlans|
    modifies p
    ensures |p.vlans| == old(|p.vlans|)
    ensures forall h :: 0 <= h < |p.vlans| ==>
      p.vlans[h] == if hardware == Some(h) then Added(old(p.vlans[h]), v) else old(p.vlans[h])
  {
    if hardware.None? {
      return;
    }
    var list := p.vlans[hardware.value];
    var i := 0;
    while i < |list|
      invariant i <= |list| && forall j :: 0 <= j < i ==> !SameName(v.name, list[j].name)
    {
      if SameName(v.name, list[i].name) {
        return;
      }
      i := i + 1;
    }
    p.vlans := p.vlans[hardware.value := list + [v]];
  }

  /** The VLANs of port h once v has gone down from d. */
  ghost function Descended(devs: seq<Device>, d: nat, v: Vlan, h: nat, list: seq<Vlan>): seq<Vlan>
  {
    if Reaches(devs, d, h) then Added(list, v) else list
  }

  /** iface_append_vlan_to_lower(): v is added once to exactly the ports that can be
      reached, and to no other. */
  method AppendToLower(p: Ports, devs: seq<Device>, v: Vlan, d: nat, ghost rank: seq<nat>)
    requires Linked(devs, |p.vlans|) && Ranked(devs, rank) && d < |devs|
    modifies p
    ensures |p.vlans| == old(|p.vlans|)
    ensures forall h :: 0 <= h < |p.vlans| ==> p.vlans[h] == Descended(devs, d, v, h, old(p.vlans[h]))
    decreases rank[d], 1
  {
    hide Reaches, Added;
    if devs[d].lower.Some? {
      var b := devs[d].lower.value;
      assert Below(devs, d, b);
      forall h: nat ensures Reaches(devs, d, h) <==> Reaches(devs, b, h) {
        ReachesStep(devs, d, h);
      }
      AppendToLower(p, devs, v, b, rank);
      return;
    }
    if devs[d].physical {
      forall h: nat ensures Reaches(devs, d, h) <==> devs[d].hardware == Some(h) {
        ReachesStep(devs, d, h);
      }
      AppendVlan(p, v, devs[d].hardware);
      return;
    }
    forall h: nat ensures Reaches(devs, d, h) <==> Members(devs, d, h, |devs|) {
      ReachesStep(devs, d, h);
    }
    AppendToMembers(p, devs, v, d, rank);
  }

  /** Port h can be reached from a member of d among the first n interfaces. */
  ghost predicate Members(devs: seq<Device>, d: nat, h: nat, n: nat)
  {
    exists b :: 0 <= b < n && Below(devs, d, b) && Reaches(devs, b, h)
  }

  /** The last case: every interface that has d as its upper. */
  method AppendToMembers(p: Ports, devs: seq<Device>, v: Vlan, d: nat, ghost rank: seq<nat>)
    requires Linked(devs, |p.vlans|) && Ranked(devs, rank) && d < |devs| && devs[d].lower.None? && !devs[d].physical
    modifies p
    ensures |p.vlans| == old(|p.vlans|)
    ensures forall h :: 0 <= h < |p.vlans| ==>
      p.vlans[h] == if Members(devs, d, h, |devs|) then Added(old(p.vlans[h]), v) else old(p.vlans[h])
    decreases rank[d], 0
  {
    hide Reaches, Added;
    var b := 0;
    while b < |devs|
      invariant b <= |devs| && |p.vlans| == old(|p.vlans|)
      invariant forall h :: 0 <= h < |p.vlans| ==>
        p.vlans[h] == if Members(devs, d, h, b) then Added(old(p.vlans[h]), v) else old(p.vlans[h])
    {
      assert Below(devs, d, b) <==> devs[b].upper == Some(d);
      forall h: nat ensures Members(devs, d, h, b + 1) <==>
        Members(devs, d, h, b) || (Below(devs, d, b) && Reaches(devs, b, h)) {
        MembersNext(devs, d, h, b);
      }
      if devs[b].upper == Some(d) {
        AppendToLower(p, devs, v, b, rank);
        forall h | 0 <= h < |p.vlans| ensures Added(Added(old(p.vlans[h]), v), v) == Added(old(p.vlans[h]), v) {
          AddedTwice(old(p.vlans[h]), v);
        }
      }
      b := b + 1;
    }
  }

  lemma {:induction false} MembersNext(devs: seq<Device>, d: nat, h: nat, n: nat)
    ensures Members(devs, d, h, n + 1) <==> Members(devs, d, h, n) || (Below(devs, d, n) && Reaches(devs, n, h))
  {
    hide Reaches;
  }

  // ---------- All VLANs ----------

  predicate IsSource(d: Device)
  {
    d.active && d.vlan
  }

  /** The VLANs of port h after the first n interfaces have been considered. */
  ghost function Collected(devs: seq<Device>, n: nat, h: nat, list: seq<Vlan>): seq<Vlan>
    requires n <= |devs|
  {
    if n == 0 then list
    else
      var before := Collected(devs, n - 1, h, list);
      if IsSource(devs[n - 1]) then Descended(devs, n - 1, VlanOf(devs[n - 1]), h, before) else before
  }

  /** interfaces_helper_vlan(). */
  method HelperVlan(p: Ports, devs: seq<Device>, ghost rank: seq<nat>)
    requires Linked(devs, |p.vlans|) && Ranked(devs, rank)
    modifies p
    ensures |p.vlans| == old(|p.vlans|)
    ensures forall h :: 0 <= h < |p.vlans| ==> p.vlans[h] == Collected(devs, |devs|, h, old(p.vlans[h]))
  {
    hide Descended;
    var i := 0;
    while i < |devs|
      invariant i <= |devs| && |p.vlans| == old(|p.vlans|)
      invariant forall h :: 0 <= h < |p.vlans| ==> p.vlans[h] == Collected(devs, i, h, old(p.vlans[h]))
    {
      if devs[i].active && devs[i].vlan {
        AppendToLower(p, devs, VlanOf(devs[i]), i, rank);
      }
      i := i + 1;
    }
  }

  /** The VLAN of some active interface among the first n that reaches port h. */
  ghost predicate Comes(devs: seq<Device>, n: nat, h: nat, v: Vlan)
  {
    exists d :: 0 <= d < n && d < |devs| && IsSource(devs[d]) && Reaches(devs, d, h) && VlanOf(devs[d]) == v
  }

  ghost predicate NamesDistinct(list: seq<Vlan>)
  {
    forall i, j :: 0 <= i < j < |list| ==> !SameName(list[i].name, list[j].name)
  }

  /** A port keeps the VLANs it had, gains only VLANs that reach it, ends with every
      name that reaches it, and has no name twice. */
  lemma {:induction false} CollectedIs(devs: seq<Device>, n: nat, h: nat, list: seq<Vlan>)
    requires n <= |devs|
    ensures var r := Collected(devs, n, h, list);
      && list <= r && (NamesDistinct(list) ==> NamesDistinct(r))
      && (forall i :: |list| <= i < |r| ==> Comes(devs, n, h, r[i]))
      && (forall v :: Comes(devs, n, h, v) ==> Has(r, v.name))
  {
    hide Collected, Reaches, Added, Has, NamesDistinct, VlanOf, IsSource;
    if n == 0 {
      CollectedNone(devs, h, list);
    } else {
      CollectedIs(devs, n - 1, h, list);
      var b, r := Collected(devs, n - 1, h, list), Collected(devs, n, h, list);
      CollectedNext(devs, n, h, list);
      AddedIs(b, VlanOf(devs[n - 1]));
      forall i | |list| <= i < |r| ensures Comes(devs, n, h, r[i]) {
        if i < |b| {
          assert r[i] == b[i] && Comes(devs, n - 1, h, b[i]);
        }
      }
      forall w | Comes(devs, n, h, w) ensures Has(r, w.name) {
        var d :| 0 <= d < n && IsSource(devs[d]) && Reaches(devs, d, h) && VlanOf(devs[d]) == w;
        if d < n - 1 {
          assert Comes(devs, n - 1, h, w);
          HasMore(b, r, w.name);
        }
      }
    }
  }

  lemma {:induction false} CollectedNone(devs: seq<Device>, h: nat, list: seq<Vlan>)
    ensures Collected(devs, 0, h, list) == list
  {
  }

  lemma {:induction false} CollectedNext(devs: seq<Device>, n: nat, h: nat, list: seq<Vlan>)
    requires 0 < n <= |devs|
    ensures var b, v := Collected(devs, n - 1, h, list), VlanOf(devs[n - 1]);
      Collected(devs, n, h, list) == if IsSource(devs[n - 1]) && Reaches(devs, n - 1, h) then Added(b, v) else b
  {
    hide Reaches, Added;
  }

  lemma {:induction false} AddedIs(list: seq<Vlan>, v: Vlan)
    ensures var r := Added(list, v);
      && list <= r <= list + [v] && Has(r, v.name) && (NamesDistinct(list) ==> NamesDistinct(r))
  {
    if !Has(list, v.name) {
      var r := list + [v];
      assert r[|list|] == v;
      forall i, j | 0 <= i < j < |r| && NamesDistinct(list) ensures !SameName(r[i].name, r[j].name) {
        if j == |list| {
          assert SameName(list[i].name, v.name) == SameName(v.name, list[i].name);
        }
      }
    }
  }

  lemma {:induction false} HasMore(list: seq<Vlan>, more: seq<Vlan>, name: seq<byte>)
    requires list <= more && Has(list, name)
    ensures Has(more, name)
  {
    var i :| 0 <= i < |list| && SameName(name, list[i].name);
    assert more[i] == list[i];
  }
}
