/** One round of edp_send() on a port, received by a neighbour. */
module EdpSession {
  import opened Bytes
  import opened Tlv
  import opened Edp
  import opened EdpTheorems
  import opened EdpNeighbors
  import opened EdpStore
  import opened EdpSend
  import EdpLayout

  /** The other entries for the sender's chassis, if any, are for this port too. */
  ghost predicate OnlyThisPort(n: Neighbors, x: Sender)
  {
    forall k :: 0 <= k < |n.ports| && Matches(n, k, x.id) ==> n.ports[k].slot == x.slot && n.ports[k].port == x.port
  }

  /** Once the display frame is stored, the new entry is the first to match exactly
      when no other port of the chassis is known. */
  lemma {:induction false} NewIsFirst(n: Neighbors, x: Sender, o: Outcome)
    requires Consistent(n) && o.NewPort? && o.id == x.id && o.info.slot == x.slot && o.info.port == x.port
    ensures var r := Store(n, o);
      First(r, 0, x.id) < |r.ports| && (First(r, 0, x.id) == |r.ports| - 1 <==> OnlyThisPort(n, x))
  {
    hide Store, Consistent, Matches, FindPort;
    var r := Store(n, o);
    var last, f := |r.ports| - 1, FindPort(n, 0, o);
    StoredPorts(n, o);
    StoredMatches(n, o, last, x.id);
    if OnlyThisPort(n, x) {
      forall j | 0 <= j < last ensures !Matches(r, j, x.id) {
        StoredMatches(n, o, j, x.id);
        NotTwice(n, o, Origin(n, o, j));
      }
    } else {
      var k :| 0 <= k < |n.ports| && Matches(n, k, x.id) && !(n.ports[k].slot == x.slot && n.ports[k].port == x.port);
      assert k != f;
      var j := if k < f then k else k - 1;
      assert Origin(n, o, j) == k && j < last;
      StoredMatches(n, o, j, x.id);
    }
  }

  /** An entry for the port itself is the one that is replaced. */
  lemma {:induction false} NotTwice(n: Neighbors, o: Outcome, k: nat)
    requires Consistent(n) && o.NewPort? && k < |n.ports| && k != FindPort(n, 0, o)
    ensures !SamePort(n, k, o)
  {
    var f := FindPort(n, 0, o);
    if f < |n.ports| {
      assert Housed(n, k) && Housed(n, f);
      assert if k < f then Apart(n.ports[k], n.ports[f]) else Apart(n.ports[f], n.ports[k]);
    }
  }

  /** There is an entry for the sender's port. */
  ghost predicate Knows(n: Neighbors, x: Sender)
  {
    exists k :: 0 <= k < |n.ports| && Matches(n, k, x.id) && n.ports[k].slot == x.slot && n.ports[k].port == x.port
  }

  lemma {:induction false} KnownAdmitted(n: Neighbors, x: Sender, o: Outcome, limit: nat)
    requires o.NewPort? && o.id == x.id && o.info.slot == x.slot && o.info.port == x.port
    requires limit == 0 || Count(n.ports, |n.ports|) < limit || Knows(n, x)
    ensures Admitted(n, o, limit)
  {
    hide Matches, Count;
    if Knows(n, x) {
      var k :| 0 <= k < |n.ports| && Matches(n, k, x.id) && n.ports[k].slot == x.slot && n.ports[k].port == x.port;
      assert SamePort(n, k, o);
    }
  }

  /** When both frames of a port fit and it is known or there is room for it, the
      receiver has an entry for the port at the end of its list, without addresses; the
      entry ends with the sender's VLANs, in order, if and only if no other port of the
      same chassis is known on that interface. */
  lemma {:induction false} BothFramesReceived(x: Sender, num: nat, mtu: nat, n: Neighbors, limit: nat, pad: seq<byte>)
    requires ValidSender(x) && x.vlans != [] && mtu < 0x1_0000 && |FramesOf(x, num, mtu)| == 2 && Consistent(n)
    requires limit == 0 || Count(n.ports, |n.ports|) < limit || Knows(n, x)
    ensures var frames := FramesOf(x, num, mtu);
      var r := Learn(Learn(n, frames[0] + pad, limit), frames[1] + pad, limit);
      && Consistent(r) && |r.ports| > 0
      && var p := r.ports[|r.ports| - 1];
         && p.edp && p.slot == x.slot && p.port == x.port
         && p.chassis < |r.chassis| && r.chassis[p.chassis] == Chassis(true, true, x.id, [])
         && (p.vlans == x.vlans <==> OnlyThisPort(n, x))
  {
    hide FrameOf, Decode, Attach, Store, Consistent, Matches, OnlyThisPort, ValidSender, Knows, Admitted, Count;
    var frames := FramesOf(x, num, mtu);
    DisplayRoundTrip(x, num, pad);
    VlanRoundTrip(x, num + 1, pad);
    var o := Decode(frames[0] + pad);
    var n1 := Store(n, o);
    StoredPorts(n, o);
    StoredChassis(n, o);
    NewIsFirst(n, x, o);
    KnownAdmitted(n, x, o, limit);
    LearnConsistent(n, frames[0] + pad, limit);
    LearnConsistent(n1, frames[1] + pad, limit);
    AttachIs(n1, 0, x.id, x.vlans, []);
    StoreConsistent(n, o);
    StoredMatches(n, o, |n1.ports| - 1, x.id);
    GivenNothing(n1, First(n1, 0, x.id), x.id, x.vlans);
  }

  lemma {:induction false} StoredChassis(n: Neighbors, o: Outcome)
    requires o.NewPort?
    ensures var r := Store(n, o);
      var p := r.ports[|r.ports| - 1];
      p.chassis < |r.chassis| && r.chassis[p.chassis] == Chassis(true, true, o.id, o.mgmt)
  {
    hide FindPort, FindChassis;
    StoredPorts(n, o);
  }

  lemma {:induction false} GivenNothing(n: Neighbors, f: nat, id: seq<byte>, vlans: seq<Vlan>)
    requires f < |n.ports| && Matches(n, f, id)
    ensures n.ports[f].chassis < |n.chassis| && Give(n, f, vlans, []).chassis == n.chassis
  {
    GiveNothing(n, f);
  }

  /** The frames of one round: what is in them, their numbers, and when there are any. */
  lemma {:induction false} FramesSent(x: Sender, num: nat, mtu: nat, i: nat)
    requires |x.mac| == 6 && |x.id| == 6 && mtu < 0x1_0000
    ensures var frames := FramesOf(x, num, mtu);
      var display, vlans := 38 + |EdpLayout.Fields(x, 0)|, 38 + |EdpLayout.Fields(x, 1)|;
      && |frames| == (if display > mtu then 0 else if x.vlans == [] || vlans > mtu then 1 else 2)
      && (i < |frames| ==>
          && 38 <= |frames[i]| <= mtu && frames[i][28..30] == [(num + i) / 256 % 256, (num + i) % 256]
          && frames[i][38..] == EdpLayout.Fields(x, i))
  {
    hide FrameOf, EdpLayout.Fields;
    SentSize(x, 0, num);
    SentSize(x, 1, num + 1);
    if i < |FramesOf(x, num, mtu)| {
      EdpLayout.FrameLayout(x, i, num + i);
    }
  }

  lemma {:induction false} SentSize(x: Sender, state: nat, num: nat)
    requires |x.mac| == 6 && |x.id| == 6
    ensures |FrameOf(x, state, num)| == 38 + |EdpLayout.Fields(x, state)|
  {
    hide FrameOf, EdpLayout.Fields, Wire, TlvsOf;
    FrameSize(x, state, num);
    EdpLayout.FieldsAre(x, state);
  }

  // ---------- Another port of the same chassis ----------

  const OTHER: Known := Known(true, 0, 0, 2, [])
  const ONE: Neighbors := Neighbors([OTHER], [Chassis(true, true, ID, [])])

  lemma {:induction false} DisplaySize()
    ensures |FrameOf(SENDER, 0, 0)| < 0x1_0000
  {
    hide FrameOf, BE16, InfoValue;
    FrameSize(SENDER, 0, 0);
    InfoTlv(0, 1, NOTHING);
    var ts := TlvsOf(SENDER, 0);
    assert ts == [Make(DISPLAY, [97] + [0]), Make(INFO, InfoValue(0, 1)), Make(NULL, [])];
    assert |Wire(ts, 2)| == 4;
    assert |Wire(ts, 1)| == 40;
    assert |Wire(ts)| == 46;
  }

  /** Port 2 of a chassis is known; port 1 announces itself; port 2 gets its VLANs. */
  lemma {:induction false} OtherPortGetsVlans()
    ensures Learn(Learn(ONE, FrameOf(SENDER, 0, 0), 0), FrameOf(SENDER, 1, 0), 0).ports
      == [OTHER.(vlans := SENDER.vlans), Known(true, 0, 0, 1, [])]
  {
    hide FrameOf, Decode, Attach;
    SenderSize();
    DisplaySize();
    assert FrameOf(SENDER, 0, 0) + [] == FrameOf(SENDER, 0, 0) && FrameOf(SENDER, 1, 0) + [] == FrameOf(SENDER, 1, 0);
    DisplayRoundTrip(SENDER, 0, []);
    VlanRoundTrip(SENDER, 0, []);
    var n := Learn(ONE, FrameOf(SENDER, 0, 0), 0);
    assert n == Neighbors([OTHER, Known(true, 0, 0, 1, [])], [Chassis(true, true, ID, [])]);
    assert Matches(n, 0, ID) && Matches(n, 1, ID) && First(n, 0, ID) == 0;
    AttachIs(n, 0, ID, SENDER.vlans, []);
  }
}
