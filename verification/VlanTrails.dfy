/** Which VLANs a physical port ends with, told from the fields of the interfaces
    (src/daemon/interfaces.c). */
module VlanTrails {
  import opened Bytes
  import opened VlanDescent

  /** Interface b is one step below interface a. */
  predicate Down(devs: seq<Device>, a: nat, b: nat)
  {
    a < |devs| && b < |devs| &&
      match devs[a].lower
      case Some(x) => b == x
      case None => !devs[a].physical && devs[b].upper == Some(a)
  }

  /** A way down from an active VLAN interface to the physical interface of port h. */
  ghost predicate Trail(devs: seq<Device>, s: seq<nat>, h: nat)
  {
    && s != [] && s[0] < |devs| && devs[s[0]].active && devs[s[0]].vlan
    && (forall i :: 0 < i < |s| ==> Down(devs, s[i - 1], s[i]))
    && s[|s| - 1] < |devs|
    && var last := devs[s[|s| - 1]];
    last.lower == None && last.physical && last.hardware == Some(h)
  }

  /** Interface d feeds port h. */
  ghost predicate Feeds(devs: seq<Device>, d: nat, h: nat)
  {
    exists s :: Trail(devs, s, h) && s[0] == d
  }

  /** Names count up to 16 characters. */
  predicate Alike(a: seq<byte>, b: seq<byte>)
  {
    a == b || (|a| >= 16 && |b| >= 16 && a[..16] == b[..16])
  }

  predicate Listed(list: seq<Vlan>, name: seq<byte>)
  {
    exists i :: 0 <= i < |list| && Alike(name, list[i].name)
  }

  /** The name of interface d is taken, by a VLAN listed before or by an interface that
      comes first. */
  ghost predicate Taken(devs: seq<Device>, d: nat, h: nat, list: seq<Vlan>)
    requires d < |devs|
  {
    || Listed(list, devs[d].name)
    || exists c: nat :: c < d && Feeds(devs, c, h) && Alike(devs[d].name, devs[c].name)
  }

  lemma {:induction false} AlikeIs(a: seq<byte>, b: seq<byte>)
    ensures SameName(a, b) <==> Alike(a, b)
  {
    if |a| > 16 && |b| == 16 {
      assert b[..16] == b;
    }
    if |b| > 16 && |a| == 16 {
      assert a[..16] == a;
    }
    if |a| == 16 && |b| == 16 {
      assert a[..16] == a && b[..16] == b;
    }
  }

  lemma {:induction false} ListedIs(list: seq<Vlan>, name: seq<byte>)
    ensures Has(list, name) <==> Listed(list, name)
  {
    forall i | 0 <= i < |list| ensures SameName(name, list[i].name) <==> Alike(name, list[i].name) {
      AlikeIs(name, list[i].name);
    }
  }

  lemma {:induction false} DownIs(devs: seq<Device>, a: nat, b: nat)
    ensures Below(devs, a, b) <==> Down(devs, a, b)
  {
  }

  lemma {:induction false} FeedsIs(devs: seq<Device>, d: nat, h: nat)
    ensures Feeds(devs, d, h) <==> d < |devs| && IsSource(devs[d]) && Reaches(devs, d, h)
  {
    forall a: nat, b: nat ensures Below(devs, a, b) <==> Down(devs, a, b) {
      DownIs(devs, a, b);
    }
    hide Below, Down;
    if Feeds(devs, d, h) {
      var s :| Trail(devs, s, h) && s[0] == d;
      assert Path(devs, s) && s[0] == d && Bottom(devs, s[|s| - 1], h);
    }
    if d < |devs| && IsSource(devs[d]) && Reaches(devs, d, h) {
      var s :| Path(devs, s) && s[0] == d && Bottom(devs, s[|s| - 1], h);
      assert Trail(devs, s, h) && s[0] == d;
    }
  }

  /** The VLANs of the interfaces at these positions. */
  function VlansAt(devs: seq<Device>, at: seq<nat>): (r: seq<Vlan>)
    requires forall k :: 0 <= k < |at| ==> at[k] < |devs|
    ensures |r| == |at|
  {
    seq(|at|, k requires 0 <= k < |at| => Vlan(devs[at[k]].name, devs[at[k]].vlanId))
  }

  ghost predicate Increasing(at: seq<nat>, n: nat)
  {
    (forall k :: 0 <= k < |at| ==> at[k] < n) && forall j, k :: 0 <= j < k < |at| ==> at[j] < at[k]
  }

  /** Port h keeps its VLANs; after them come, in the order of the interfaces, those of the
      interfaces that feed it and whose name is not taken. */
  lemma {:induction false} CollectedExactly(devs: seq<Device>, n: nat, h: nat, list: seq<Vlan>) returns (at: seq<nat>)
    requires n <= |devs|
    ensures Increasing(at, n) && (forall k :: 0 <= k < |at| ==> at[k] < |devs|)
    ensures Collected(devs, n, h, list) == list + VlansAt(devs, at)
    ensures forall d: nat :: d in at <==> d < n && Feeds(devs, d, h) && !Taken(devs, d, h, list)
  {
    hide Collected, Feeds, Taken, Reaches, Added, Has, VlansAt, Increasing;
    if n == 0 {
      CollectedNone(devs, h, list);
      at := [];
      NonePicked(devs, list);
    } else {
      at := CollectedExactly(devs, n - 1, h, list);
      CollectedNext(devs, n, h, list);
      FeedsIs(devs, n - 1, h);
      OnePicked(devs, n - 1, list, at);
      if Feeds(devs, n - 1, h) {
        TakenIs(devs, n - 1, h, list, at);
        AddedMeans(Collected(devs, n - 1, h, list), VlanOf(devs[n - 1]));
        if !Taken(devs, n - 1, h, list) {
          at := at + [n - 1];
        }
      }
    }
  }

  lemma {:induction false} NonePicked(devs: seq<Device>, list: seq<Vlan>)
    ensures Increasing([], 0) && list == list + VlansAt(devs, [])
  {
  }

  lemma {:induction false} OnePicked(devs: seq<Device>, n: nat, list: seq<Vlan>, at: seq<nat>)
    requires n < |devs| && Increasing(at, n)
    ensures Increasing(at, n + 1) && Increasing(at + [n], n + 1)
    ensures list + VlansAt(devs, at + [n]) == list + VlansAt(devs, at) + [VlanOf(devs[n])]
  {
    assert VlansAt(devs, at + [n]) == VlansAt(devs, at) + [VlanOf(devs[n])];
  }

  lemma {:induction false} AddedMeans(list: seq<Vlan>, v: Vlan)
    ensures Added(list, v) == if Has(list, v.name) then list else list + [v]
  {
  }

  /** A name is found among the VLANs collected exactly when it is taken. */
  lemma {:induction false} TakenIs(devs: seq<Device>, n: nat, h: nat, list: seq<Vlan>, at: seq<nat>)
    requires n < |devs| && Increasing(at, n) && Collected(devs, n, h, list) == list + VlansAt(devs, at)
    requires forall d: nat :: d in at ==> Feeds(devs, d, h)
    ensures Has(Collected(devs, n, h, list), devs[n].name) <==> Taken(devs, n, h, list)
  {
    hide Collected, Feeds, Reaches, Alike;
    var b, name := Collected(devs, n, h, list), devs[n].name;
    ListedIs(b, name);
    hide Has;
    if Listed(b, name) {
      var i :| 0 <= i < |b| && Alike(name, b[i].name);
      if i < |list| {
        assert b[i] == list[i];
      } else {
        var c := at[i - |list|];
        assert b[i].name == devs[c].name && c in at && Feeds(devs, c, h);
      }
    }
    if Listed(list, name) {
      var i :| 0 <= i < |list| && Alike(name, list[i].name);
      assert b[i] == list[i];
    }
    forall c: nat | c < n && Feeds(devs, c, h) && Alike(name, devs[c].name) ensures Listed(b, name) {
      EarlierListed(devs, n, c, h, list);
    }
  }

  lemma {:induction false} EarlierListed(devs: seq<Device>, n: nat, c: nat, h: nat, list: seq<Vlan>)
    requires c < n < |devs| && Feeds(devs, c, h) && Alike(devs[n].name, devs[c].name)
    ensures Listed(Collected(devs, n, h, list), devs[n].name)
  {
    hide Collected, Feeds, Reaches, Alike;
    var b := Collected(devs, n, h, list);
    CollectedIs(devs, n, h, list);
    FeedsIs(devs, c, h);
    var v := VlanOf(devs[c]);
    assert Comes(devs, n, h, v);
    ListedIs(b, v.name);
    var i :| 0 <= i < |b| && Alike(v.name, b[i].name);
    AlikeTrans(devs[n].name, devs[c].name, b[i].name);
  }

  lemma {:induction false} AlikeTrans(a: seq<byte>, b: seq<byte>, c: seq<byte>)
    requires Alike(a, b) && Alike(b, c)
    ensures Alike(a, c)
  {
  }

  // ---------- A VLAN over a bond ----------

  /** Two physical interfaces in a bond, a third one alone, and a VLAN over the bond. */
  const BONDED: seq<Device> :=
    [Device([101, 48], true, false, true, 0, None, Some(2), Some(0)),
     Device([101, 49], true, false, true, 0, None, Some(2), Some(1)),
     Device([98], true, false, false, 0, None, None, None),
     Device([118], true, true, false, 10, Some(2), None, None),
     Device([101, 50], true, false, true, 0, None, None, Some(2))]

  lemma {:induction false} VlanOverBond()
    ensures Collected(BONDED, 5, 0, []) == Collected(BONDED, 5, 1, []) == [Vlan([118], 10)]
    ensures Collected(BONDED, 5, 2, []) == []
  {
    OnlyVlan(0);
    OnlyVlan(1);
    OnlyVlan(2);
    OneVlan(0);
    OneVlan(1);
    OneVlan(2);
  }

  lemma {:induction false} OnlyVlan(h: nat)
    requires h < 3
    ensures forall d: nat :: Feeds(BONDED, d, h) <==> d == 3 && h < 2
  {
    forall d: nat ensures Feeds(BONDED, d, h) <==> d == 3 && h < 2 {
      if h < 2 {
        var s: seq<nat> := [3, 2, h];
        assert Down(BONDED, 3, 2) && Down(BONDED, 2, h);
        assert Trail(BONDED, s, h) && s[0] == 3;
      }
      forall s | Trail(BONDED, s, h) ensures s[0] == 3 && h < 2 {
        NotAlone(s, h);
      }
    }
  }

  /** Nothing leads down to the third interface. */
  lemma {:induction false} NotAlone(s: seq<nat>, h: nat)
    requires Trail(BONDED, s, h)
    ensures s[0] == 3 && h < 2
  {
    var n := |s| - 1;
    assert n > 0;
    assert Down(BONDED, s[n - 1], s[n]);
  }

  lemma {:induction false} OneVlan(h: nat)
    requires h < 3 && forall d: nat :: Feeds(BONDED, d, h) <==> d == 3 && h < 2
    ensures Collected(BONDED, 5, h, []) == if h < 2 then [Vlan([118], 10)] else []
  {
    hide Collected, Feeds;
    var at := CollectedExactly(BONDED, 5, h, []);
    assert !Taken(BONDED, 3, h, []);
    assert |at| >= 2 ==> at[0] < at[1];
    forall k | 0 <= k < |at| ensures at[k] == 3 && h < 2 {
      assert at[k] in at;
    }
    OneOf(at, 3);
    assert h < 2 ==> 3 in at;
  }

  lemma {:induction false} OneOf(at: seq<nat>, x: nat)
    requires |at| >= 2 ==> at[0] < at[1]
    requires forall k :: 0 <= k < |at| ==> at[k] == x
    ensures at == [] || at == [x]
  {
    assert |at| == 1 ==> at == [at[0]];
  }
}
