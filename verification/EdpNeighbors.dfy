/** What an EDP frame does to the neighbours already known. */
module EdpNeighbors {
  import opened Bytes
  import opened Tlv
  import opened Checksum
  import opened Edp
  import opened EdpTheorems

  /** What is known after a frame has been received. */
  function After(n: Neighbors, frame: seq<byte>): Neighbors
  {
    match Decode(frame)
    case MoreVlans(id, vlans, mgmt) => Attach(n, 0, id, vlans, mgmt)
    case _ => n
  }

  /** The first neighbour from the i-th on that matches, or their number. */
  function First(n: Neighbors, i: nat, id: seq<byte>): (f: nat)
    requires i <= |n.ports|
    ensures i <= f <= |n.ports|
    ensures f < |n.ports| ==> Matches(n, f, id)
    ensures forall j :: i <= j < f ==> !Matches(n, j, id)
    decreases |n.ports| - i
  {
    if i == |n.ports| || Matches(n, i, id) then i else First(n, i + 1, id)
  }

  // ---------- The walk ----------

  /** Nothing that neighbours are recognised by changes. */
  lemma {:induction false} GiveMatches(n: Neighbors, k: nat, vlans: seq<Vlan>, mgmt: seq<seq<byte>>, id: seq<byte>)
    requires k < |n.ports| && n.ports[k].chassis < |n.chassis|
    ensures forall j :: 0 <= j < |n.ports| ==> (Matches(Give(n, k, vlans, mgmt), j, id) <==> Matches(n, j, id))
  {
  }

  lemma {:induction false} NoAddresses()
    ensures LastOnes([]) == []
  {
  }

  lemma {:induction false} GiveNothing(n: Neighbors, k: nat)
    requires k < |n.ports| && n.ports[k].chassis < |n.chassis|
    ensures Give(n, k, [], []) == n.(ports := n.ports[k := n.ports[k].(vlans := [])])
  {
    NoAddresses();
    var c := n.ports[k].chassis;
    assert n.chassis[c].mgmt + [] == n.chassis[c].mgmt;
    assert n.chassis[c := n.chassis[c]] == n.chassis;
  }

  /** After the first match, the others lose their VLANs. */
  lemma {:induction false} AttachRest(n: Neighbors, i: nat, id: seq<byte>)
    requires i <= |n.ports|
    ensures var r := Attach(n, i, id, [], []);
      && r.chassis == n.chassis && |r.ports| == |n.ports|
      && forall k :: 0 <= k < |n.ports| ==>
        r.ports[k] == if k >= i && Matches(n, k, id) then n.ports[k].(vlans := []) else n.ports[k]
    decreases |n.ports| - i
  {
    hide Matches, Give;
    if i < |n.ports| {
      if Matches(n, i, id) {
        MatchesChassis(n, i, id);
        GiveNothing(n, i);
        GiveMatches(n, i, [], [], id);
        AttachRest(Give(n, i, [], []), i + 1, id);
      } else {
        AttachRest(n, i + 1, id);
      }
    }
  }

  lemma {:induction false} MatchesChassis(n: Neighbors, k: nat, id: seq<byte>)
    requires k < |n.ports| && Matches(n, k, id)
    ensures n.ports[k].chassis < |n.chassis|
  {
  }

  /** The first neighbour that matches gets the lists, and its chassis the addresses;
      every other that matches loses its VLANs; the rest does not change. */
  lemma {:induction false} AttachIs(n: Neighbors, i: nat, id: seq<byte>, vlans: seq<Vlan>, mgmt: seq<seq<byte>>)
    requires i <= |n.ports|
    ensures var r, f := Attach(n, i, id, vlans, mgmt), First(n, i, id);
      && |r.ports| == |n.ports|
      && r.chassis == (if f < |n.ports| then Give(n, f, vlans, mgmt).chassis else n.chassis)
      && forall k :: 0 <= k < |n.ports| ==>
        r.ports[k] == if k < i || !Matches(n, k, id) then n.ports[k]
                      else n.ports[k].(vlans := if k == f then vlans else [])
    decreases |n.ports| - i
  {
    hide Matches, LastOnes;
    if i < |n.ports| {
      if Matches(n, i, id) {
        MatchesChassis(n, i, id);
        GiveMatches(n, i, vlans, mgmt, id);
        AttachRest(Give(n, i, vlans, mgmt), i + 1, id);
      } else {
        AttachIs(n, i + 1, id, vlans, mgmt);
      }
    }
  }

  // ---------- VLANs ----------

  /** Receiving the VLAN frame gives every neighbour with the sender's chassis ID the
      sender's VLANs, in order and instead of what it had, if and only if there is at
      most one such neighbour; nothing else changes. */
  lemma {:induction false} VlansAttachedIff(n: Neighbors, x: Sender, num: nat, extra: seq<byte>)
    requires ValidSender(x) && x.vlans != [] && |FrameOf(x, 1, num)| < 0x1_0000
    ensures var r := After(n, FrameOf(x, 1, num) + extra);
      && |r.ports| == |n.ports| && r.chassis == n.chassis
      && (forall k :: 0 <= k < |n.ports| && !Matches(n, k, x.id) ==> r.ports[k] == n.ports[k])
      && ((forall k :: 0 <= k < |n.ports| && Matches(n, k, x.id) ==> r.ports[k] == n.ports[k].(vlans := x.vlans))
          <==> (forall j, k :: 0 <= j < k < |n.ports| ==> !Matches(n, j, x.id) || !Matches(n, k, x.id)))
  {
    hide FrameOf, Decode, Attach, Matches, LastOnes;
    VlanRoundTrip(x, num, extra);
    AttachIs(n, 0, x.id, x.vlans, []);
    var f := First(n, 0, x.id);
    if f < |n.ports| {
      MatchesChassis(n, f, x.id);
      GiveNothing(n, f);
    }
  }

  // ---------- Addresses ----------

  /** Each address of the frame is kept once. */
  lemma {:induction false} LastOnesKept(s: seq<seq<byte>>, i: nat)
    requires i <= |s|
    ensures forall a :: a in LastOnes(s, i) <==> a in s[i..]
    ensures forall j, k :: 0 <= j < k < |LastOnes(s, i)| ==> LastOnes(s, i)[j] != LastOnes(s, i)[k]
    decreases |s| - i
  {
    if i < |s| {
      LastOnesKept(s, i + 1);
      assert s[i..] == [s[i]] + s[i + 1..];
    }
  }

  ghost predicate Distinct(s: seq<seq<byte>>)
  {
    forall j, k :: 0 <= j < k < |s| ==> s[j] != s[k]
  }

  lemma {:induction false} Merged(stored: seq<seq<byte>>, received: seq<seq<byte>>)
    requires Distinct(stored)
    ensures Distinct(stored + LastOnes(received)) <==> forall a :: a in received ==> a !in stored
    ensures forall a :: a in stored + LastOnes(received) <==> a in stored || a in received
  {
    LastOnesKept(received, 0);
    assert received[0..] == received;
    var merged := stored + LastOnes(received);
    if forall a :: a in received ==> a !in stored {
      forall j, k | 0 <= j < k < |merged| ensures merged[j] != merged[k] {
        if j < |stored| <= k {
          assert merged[j] in stored && merged[k] in LastOnes(received);
        }
      }
    } else {
      var a :| a in received && a in stored;
      var j :| 0 <= j < |stored| && stored[j] == a;
      var k :| 0 <= k < |LastOnes(received)| && LastOnes(received)[k] == a;
      assert merged[j] == merged[|stored| + k];
    }
  }

  /** A VLAN frame that some known neighbour matches: the chassis of the first one
      holds afterwards what it had and what the frame brings, and no other chassis
      changes.  It stays without duplicates if and only if the frame brings no address
      it had: the search that should see to that looks at the frame. */
  lemma {:induction false} AddressesMergedIff(n: Neighbors, frame: seq<byte>)
    requires Decode(frame).MoreVlans? && First(n, 0, Decode(frame).id) < |n.ports|
    requires Distinct(n.chassis[n.ports[First(n, 0, Decode(frame).id)].chassis].mgmt)
    ensures var r, c := After(n, frame), n.ports[First(n, 0, Decode(frame).id)].chassis;
      var stored, received := n.chassis[c].mgmt, Decode(frame).mgmt;
      && |r.chassis| == |n.chassis|
      && (Distinct(r.chassis[c].mgmt) <==> forall a :: a in received ==> a !in stored)
      && (forall a :: a in r.chassis[c].mgmt <==> a in stored || a in received)
      && forall d :: 0 <= d < |n.chassis| && d != c ==> r.chassis[d] == n.chassis[d]
  {
    hide Decode, Attach, LastOnes, Distinct, Matches;
    var o := Decode(frame);
    var f := First(n, 0, o.id);
    MatchesChassis(n, f, o.id);
    AttachIs(n, 0, o.id, o.vlans, o.mgmt);
    Merged(n.chassis[n.ports[f].chassis].mgmt, o.mgmt);
  }
  // ---------- Two cases ----------

  const ID: seq<byte> := [2, 0, 0, 0, 0, 2]
  const SENDER: Sender := Sender([2, 0, 0, 0, 0, 1], ID, [97], 0, 1, [Vlan(1, [118])])

  /** Two neighbours share the sender's chassis, which has one address. */
  const TWICE: Neighbors := 
    Neighbors([Known(true, 0, 0, 1, []), Known(true, 0, 0, 2, [])], [Chassis(true, true, ID, [[192, 0, 2, 1]])])

  lemma {:induction false} TwiceMatches()
    ensures Matches(TWICE, 0, ID) && Matches(TWICE, 1, ID) && First(TWICE, 0, ID) == 0
  {
  }

  lemma {:induction false} SenderSize()
    ensures ValidSender(SENDER) && |FrameOf(SENDER, 1, 0)| < 0x1_0000
  {
    hide FrameOf, BE16;
    FrameSize(SENDER, 1, 0);
    var ts := TlvsOf(SENDER, 1);
    assert VlanTlvs(SENDER.vlans) == [Make(VLAN, VlanValue(SENDER.vlans[0]))];
    assert ts == [Make(VLAN, VlanValue(SENDER.vlans[0])), Make(NULL, [])];
    assert |VlanValue(SENDER.vlans[0])| == 14;
    assert |Wire(ts, 1)| == 4 && |Wire(ts)| == 22;
  }

  /** With two matching neighbours, the second is left without VLANs. */
  lemma {:induction false} SecondMatchEmptied()
    ensures var r := After(TWICE, FrameOf(SENDER, 1, 0));
      |r.ports| == 2 && r.ports[0].vlans == SENDER.vlans && r.ports[1].vlans == []
  {
    hide FrameOf, Decode, Attach, Matches;
    SenderSize();
    VlanRoundTrip(SENDER, 0, []);
    assert FrameOf(SENDER, 1, 0) + [] == FrameOf(SENDER, 1, 0);
    TwiceMatches();
    AttachIs(TWICE, 0, ID, SENDER.vlans, []);
  }

  /** A VLAN frame with an address: header, packet without checksum. */
  const ADDRESS_TLVS: seq<Tlv> := [Make(VLAN, [0, 0, 0, 1, 0, 0, 0, 0, 192, 0, 2, 1, 118, 0]), Make(NULL, [])]
  const ADDRESS_FRONT: seq<byte> := EDP_ADDR + [2, 0, 0, 0, 0, 1, 0, 46, 0xaa, 0xaa, 0x03] + LLC_EXTREME + [0x00, 0xbb]
  const ADDRESS_DRAFT: seq<byte> := [1, 0, 0, 38] + [0, 0] + ([0, 0, 0, 0] + ID + Wire(ADDRESS_TLVS))

  function AddressFrame(): seq<byte>
  {
    ADDRESS_FRONT + Write(ADDRESS_DRAFT, 4, LE(ChecksumOf(ADDRESS_DRAFT, false), 2))
  }

  lemma {:induction false} AddressPacket(sum: seq<byte>)
    requires |sum| == 2
    ensures |Wire(ADDRESS_TLVS)| == 22 && |ADDRESS_DRAFT| == 38
    ensures Write(ADDRESS_DRAFT, 4, sum) == [1, 0, 0, 38] + sum + ([0, 0, 0, 0] + ID + Wire(ADDRESS_TLVS))
  {
    assert |Wire(ADDRESS_TLVS, 1)| == 4 && |Wire(ADDRESS_TLVS)| == 22;
    hide Wire;
    WriteWithin([1, 0, 0, 38], [0, 0], sum, [0, 0, 0, 0] + ID + Wire(ADDRESS_TLVS));
  }

  lemma {:induction false} AddressApplied()
    ensures ApplyAll(ADDRESS_TLVS, 0, NOTHING) ==
      Some(NOTHING.(vlans := [Vlan(1, [118])], mgmt := [[192, 0, 2, 1]], gotVlans := true, gotEnd := true))
  {
    var s := ADDRESS_TLVS[0].value;
    assert s[8..12] == [192, 0, 2, 1] && s[12..] == [118] + [0];
    assert s[8..12][0] != Zeros(4)[0];
    CStringEnds([118], 0);
    var st := NOTHING.(vlans := [Vlan(1, [118])], mgmt := [[192, 0, 2, 1]], gotVlans := true);
    assert CString(s[12..]) == [118] && UnBE16(s, 2) == 1;
    assert [] + [s[8..12]] == st.mgmt && [] + [Vlan(1, [118])] == st.vlans;
    assert Apply(VLAN, s, NOTHING) == Some(st);
    NullTlv(st);
    assert ApplyAll(ADDRESS_TLVS, 2, st.(gotEnd := true)) == Some(st.(gotEnd := true));
    assert ApplyAll(ADDRESS_TLVS, 1, st) == Some(st.(gotEnd := true));
  }

  lemma {:induction false} AddressDecoded()
    ensures Decode(AddressFrame()) == MoreVlans(ID, [Vlan(1, [118])], [[192, 0, 2, 1]])
  {
    hide ChecksumOf, LE, Wire, ApplyAll, ParseTlvs, Write;
    var sum := LE(ChecksumOf(ADDRESS_DRAFT, false), 2);
    var packet := Write(ADDRESS_DRAFT, 4, sum);
    AddressPacket(sum);
    ChecksumVerifies(ADDRESS_DRAFT, 2, false);
    var frame := AddressFrame();
    assert frame + [] == frame;
    Slices(ADDRESS_FRONT, packet, []);
    assert packet[16..] == Wire(ADDRESS_TLVS) && packet[10..16] == ID && packet[2..4] == [0, 38] &&
      packet[8..10] == [0, 0];
    assert frame[20] == 0x00 && frame[21] == 0xbb && frame[24] == frame[24..26][0] && frame[25] == frame[24..26][1];
    assert frame[30] == frame[30..32][0] && frame[31] == frame[30..32][1];
    assert UnBE16(frame, 20) == LLC_PID_EDP && UnBE16(frame, 24) == 38 && UnBE16(frame, 30) == 0 && frame[22] == 1;
    assert frame[22..60] == packet && ChecksumOf(packet, false) == 0;
    assert frame[..6] == EDP_ADDR && frame[32..38] == ID;
    AddressApplied();
    ParseWire(frame, START, ADDRESS_TLVS, 0, [], NOTHING);
  }

  /** The address is stored a second time. */
  lemma {:induction false} AddressStoredTwice()
    ensures var r := After(TWICE, AddressFrame());
      r.chassis == [Chassis(true, true, ID, [[192, 0, 2, 1], [192, 0, 2, 1]])]
  {
    hide Decode, Attach, Matches, AddressFrame;
    AddressDecoded();
    TwiceMatches();
    AttachIs(TWICE, 0, ID, [Vlan(1, [118])], [[192, 0, 2, 1]]);
    var a: seq<byte> := [192, 0, 2, 1];
    assert LastOnes([a], 1) == [] && LastOnes([a]) == [a];
    assert [a] + [a] == [a, a];
    assert Give(TWICE, 0, [Vlan(1, [118])], [a]).chassis == [Chassis(true, true, ID, [a, a])];
  }
}
