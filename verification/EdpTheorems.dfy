/** The two frames of a port reach the neighbour's entry intact. */
module EdpTheorems {
  import opened Bytes
  import opened Tlv
  import opened Checksum
  import opened Edp

  // ---------- TLV by TLV ----------

  /** EDP TLVs: the marker, then a type that fits in one byte. */
  predicate Marked(t: Tlv)
  {
    MARKER * 256 <= t.kind < MARKER * 256 + 256 && |t.value| + 4 < 0x1_0000
  }

  function ApplyAll(ts: seq<Tlv>, i: nat, st: Parsed): Option<Parsed>
    decreases |ts| - i
  {
    if i >= |ts| || st.gotEnd then Some(st)
    else match Apply(ts[i].kind % 256, ts[i].value, st)
      case None => None
      case Some(st') => ApplyAll(ts, i + 1, st')
  }

  lemma {:induction false} MarkerReads(frame: seq<byte>, p: nat, t: Tlv)
    requires Marked(t) && p + 2 <= |frame| && UnBE16(frame, p) == t.kind
    ensures frame[p] == MARKER && frame[p + 1] == t.kind % 256
  {
  }

  /** If the TLVs end with the null TLV, what follows them does not matter. */
  lemma {:induction false} ParseWire(frame: seq<byte>, p: nat, ts: seq<Tlv>, i: nat, extra: seq<byte>, st: Parsed)
    requires p <= |frame| && i <= |ts| && frame[p..] == Wire(ts, i) + extra && forall x :: 0 <= x < |ts| ==>
      Marked(ts[x])
    requires var r := ApplyAll(ts, i, st); r.Some? ==> r.value.gotEnd
    ensures ParseTlvs(frame, p, st) == ApplyAll(ts, i, st)
    decreases |ts| - i
  {
    hide Apply, UnBE16, Encode;
    if i < |ts| && !st.gotEnd {
      var rest := Wire(ts, i + 1) + extra;
      assert frame[p..] == Encode(ts[i]) + rest;
      HeaderReads(frame, p, ts[i], rest);
      MarkerReads(frame, p, ts[i]);
      match Apply(ts[i].kind % 256, ts[i].value, st)
      case None =>
      case Some(st') => ParseWire(frame, p + 4 + |ts[i].value|, ts, i + 1, extra, st');
    }
  }

  lemma {:induction false} CStringEnds(s: seq<byte>, i: nat)
    requires i <= |s| && 0 !in s
    ensures CString(s + [0], i) == s[i..]
    decreases |s| - i
  {
    if i < |s| {
      CStringEnds(s, i + 1);
      assert s[i..] == [s[i]] + s[i + 1..];
    }
  }

  lemma {:induction false} DisplayTlv(name: seq<byte>, st: Parsed)
    requires 0 !in name
    ensures Apply(DISPLAY, name + [0], st) == Some(st.(name := Some(name)))
  {
    CStringEnds(name, 0);
  }

  lemma {:induction false} InfoTlv(slot: nat, port: nat, st: Parsed)
    requires slot < 0x1_0000 && port < 0x1_0000
    ensures |InfoValue(slot, port)| == 32
    ensures Apply(INFO, InfoValue(slot, port), st) == Some(st.(info := Some(Info(slot, port, FAKE_VERSION))))
  {
    hide BE16, UnBE16;
    var s := InfoValue(slot, port);
    assert s[0..2] == BE16(slot);
    assert s[2..4] == BE16(port);
    assert s[12..16] == FAKE_VERSION;
    BE16Reads(slot, s, 0);
    BE16Reads(port, s, 2);
  }

  lemma {:induction false} VlanTlv(v: Vlan, st: Parsed)
    requires v.vid < 0x1_0000 && 0 !in v.name
    ensures Apply(VLAN, VlanValue(v), st) == Some(st.(vlans := st.vlans + [v], gotVlans := true))
  {
    hide BE16, UnBE16, CString;
    var s := VlanValue(v);
    assert s[2..4] == BE16(v.vid);
    BE16Reads(v.vid, s, 2);
    assert s[8..12] == Zeros(4);
    assert s[12..] == v.name + [0];
    CStringEnds(v.name, 0);
    assert st.mgmt + [] == st.mgmt;
  }

  // ---------- The frames ----------

  ghost predicate ValidSender(x: Sender)
  {
    && |x.mac| == 6 && |x.id| == 6 && 0 !in x.name && x.slot < 0x1_0000 && x.port < 0x1_0000
    && forall i :: 0 <= i < |x.vlans| ==> x.vlans[i].vid < 0x1_0000 && 0 !in x.vlans[i].name
  }

  /** The i-th TLV of a VLAN frame. */
  lemma {:induction false} VlanTlvAt(vlans: seq<Vlan>, i: nat, k: nat)
    requires i <= k < |vlans|
    ensures VlanTlvs(vlans, i)[k - i] == Make(VLAN, VlanValue(vlans[k]))
    decreases |vlans| - i
  {
    if i < k {
      VlanTlvAt(vlans, i + 1, k);
    }
  }

  lemma {:induction false} ApplyVlans(x: Sender, i: nat, st: Parsed)
    requires ValidSender(x) && i <= |x.vlans| && !st.gotEnd
    ensures ApplyAll(TlvsOf(x, 1), i, st) ==
      Some(st.(vlans := st.vlans + x.vlans[i..], gotVlans := st.gotVlans || i < |x.vlans|, gotEnd := true))
    decreases |x.vlans| - i
  {
    hide Apply, VlanValue, VlanTlvs;
    var ts := TlvsOf(x, 1);
    assert |ts| == |x.vlans| + 1;
    if i < |x.vlans| {
      VlanTlvAt(x.vlans, 0, i);
      assert ts[i] == Make(VLAN, VlanValue(x.vlans[i]));
      VlanTlv(x.vlans[i], st);
      ApplyVlans(x, i + 1, st.(vlans := st.vlans + [x.vlans[i]], gotVlans := true));
      assert st.vlans + x.vlans[i..] == st.vlans + [x.vlans[i]] + x.vlans[i + 1..];
    } else {
      assert ts[i] == Make(NULL, []);
      NullTlv(st);
      assert st.vlans + x.vlans[i..] == st.vlans;
      assert ApplyAll(ts, i + 1, st.(gotEnd := true)) == Some(st.(gotEnd := true));
    }
  }

  lemma {:induction false} NullTlv(st: Parsed)
    ensures Apply(NULL, [], st) == Some(st.(gotEnd := true))
  {
  }

  lemma {:induction false} ApplyDisplay(x: Sender)
    requires ValidSender(x)
    ensures ApplyAll(TlvsOf(x, 0), 0, NOTHING) ==
      Some(NOTHING.(name := Some(x.name), info := Some(Info(x.slot, x.port, FAKE_VERSION)), gotEnd := true))
  {
    hide Apply, InfoValue;
    var ts := TlvsOf(x, 0);
    assert ts == [Make(DISPLAY, x.name + [0]), Make(INFO, InfoValue(x.slot, x.port)), Make(NULL, [])];
    DisplayTlv(x.name, NOTHING);
    var s1 := NOTHING.(name := Some(x.name));
    InfoTlv(x.slot, x.port, s1);
    var s2 := s1.(info := Some(Info(x.slot, x.port, FAKE_VERSION)));
    NullTlv(s2);
    assert ApplyAll(ts, 3, s2.(gotEnd := true)) == Some(s2.(gotEnd := true));
    assert ApplyAll(ts, 2, s2) == Some(s2.(gotEnd := true));
    assert ApplyAll(ts, 1, s1) == Some(s2.(gotEnd := true));
  }

  lemma {:induction false} AllMarked(x: Sender, state: nat)
    requires |Wire(TlvsOf(x, state))| < 0x1_0000
    ensures forall k :: 0 <= k < |TlvsOf(x, state)| ==> Marked(TlvsOf(x, state)[k])
  {
    hide Wire, InfoValue, VlanValue, VlanTlvs;
    var ts := TlvsOf(x, state);
    forall k | 0 <= k < |ts| ensures Marked(ts[k]) {
      WireLonger(ts, 0, k);
      if state != 0 && k < |x.vlans| {
        VlanTlvAt(x.vlans, 0, k);
      }
    }
  }

  lemma {:induction false} FrameSize(x: Sender, state: nat, num: nat)
    requires |x.mac| == 6 && |x.id| == 6
    ensures |FrameOf(x, state, num)| == START + |Wire(TlvsOf(x, state))|
  {
    hide BE16, LE, Wire, TlvsOf, ChecksumOf;
  }

  /** The packet with its checksum filled in. */
  lemma {:induction false} PacketFilled(x: Sender, state: nat, num: nat, len: nat, sum: seq<byte>)
    requires |sum| == 2
    ensures Write(Packet(x, state, num, len, [0, 0]), 4, sum) == Packet(x, state, num, len, sum)
  {
    hide BE16, Wire, TlvsOf;
    var a, b := [1, 0] + BE16(len), BE16(num) + BE16(0) + x.id + Wire(TlvsOf(x, state));
    assert Packet(x, state, num, len, [0, 0]) == a + [0, 0] + b;
    assert Packet(x, state, num, len, sum) == a + sum + b;
  }

  /** The checksum of what is sent verifies. */
  lemma {:induction false} PacketVerifies(x: Sender, state: nat, num: nat, len: nat)
    requires |Packet(x, state, num, len, [0, 0])| < 0x1_0000
    ensures ChecksumOf(Packet(x, state, num, len, LE(ChecksumOf(Packet(x, state, num, len, [0, 0]), false), 2)),
      false) == 0
  {
    hide BE16, Wire, TlvsOf, ChecksumOf, LE;
    var draft := Packet(x, state, num, len, [0, 0]);
    PacketFilled(x, state, num, len, LE(ChecksumOf(draft, false), 2));
    ChecksumVerifies(draft, 2, false);
  }

  lemma {:induction false} PacketParts(x: Sender, state: nat, num: nat, len: nat, sum: seq<byte>)
    requires |x.id| == 6 && |sum| == 2
    ensures var s := Packet(x, state, num, len, sum);
      && |s| == 16 + |Wire(TlvsOf(x, state))| && s[0] == 1 && s[2..4] == BE16(len) && s[8..10] == BE16(0)
      && s[10..16] == x.id && s[16..] == Wire(TlvsOf(x, state))
  {
    hide BE16, Wire, TlvsOf;
  }

  lemma {:induction false} FrontParts(x: Sender, len: nat)
    requires |x.mac| == 6
    ensures var s := Front(x, len);
      |s| == 22 && s[..6] == EDP_ADDR && s[20..22] == BE16(LLC_PID_EDP)
  {
    hide BE16;
  }

  /** What the header of a sent frame reads as, whatever follows the frame. */
  lemma {:induction false} HeaderBytes(x: Sender, state: nat, num: nat, extra: seq<byte>)
    requires ValidSender(x) && |FrameOf(x, state, num)| < 0x1_0000
    ensures var frame := FrameOf(x, state, num) + extra;
      var len := 16 + |Wire(TlvsOf(x, state))|;
      && |frame| >= START && frame[..6] == EDP_ADDR && UnBE16(frame, 20) == LLC_PID_EDP && frame[22] == 1 &&
         UnBE16(frame, 30) == 0
      && UnBE16(frame, 24) == len <= |frame| - START_EDP && ChecksumOf(frame[START_EDP..START_EDP + len], false) == 0
      && frame[32..38] == x.id && frame[START..] == Wire(TlvsOf(x, state)) + extra
  {
    hide BE16, UnBE16, Wire, TlvsOf, ChecksumOf, LE, Front, Packet;
    var len := 10 + |x.id| + |Wire(TlvsOf(x, state))|;
    var draft := Packet(x, state, num, len, [0, 0]);
    var sum := LE(ChecksumOf(draft, false), 2);
    var s := Packet(x, state, num, len, sum);
    var front := Front(x, 8 + len);
    var frame := FrameOf(x, state, num) + extra;
    assert frame == front + s + extra;
    PacketParts(x, state, num, len, [0, 0]);
    PacketParts(x, state, num, len, sum);
    FrontParts(x, 8 + len);
    PacketVerifies(x, state, num, len);
    Slices(front, s, extra);
    BE16Reads(LLC_PID_EDP, frame, 20);
    BE16Reads(0, frame, 30);
    BE16Reads(len, frame, 24);
  }

  lemma {:induction false} Slices(front: seq<byte>, s: seq<byte>, extra: seq<byte>)
    requires |front| == 22 && |s| >= 16
    ensures var frame := front + s + extra;
      && frame[..6] == front[..6] && frame[20..22] == front[20..22] && frame[22] == s[0] && frame[24..26] == s[2..4]
      && frame[30..32] == s[8..10] && frame[32..38] == s[10..16] && frame[38..] == s[16..] + extra
      && frame[22..22 + |s|] == s
  {
  }

  /** The display frame is decoded to the neighbour announced, whatever bytes follow
      it on the wire. */
  lemma {:induction false} DisplayRoundTrip(x: Sender, num: nat, extra: seq<byte>)
    requires ValidSender(x) && |FrameOf(x, 0, num)| < 0x1_0000
    ensures Decode(FrameOf(x, 0, num) + extra) == NewPort(x.id, x.name, Info(x.slot, x.port, FAKE_VERSION), [], [])
  {
    hide FrameOf, TlvsOf, Wire, UnBE16, ChecksumOf, ParseTlvs, ApplyAll;
    var frame := FrameOf(x, 0, num) + extra;
    FrameSize(x, 0, num);
    HeaderBytes(x, 0, num, extra);
    AllMarked(x, 0);
    ApplyDisplay(x);
    ParseWire(frame, START, TlvsOf(x, 0), 0, extra, NOTHING);
  }

  /** The VLAN frame is decoded to the VLANs announced, in order. */
  lemma {:induction false} VlanRoundTrip(x: Sender, num: nat, extra: seq<byte>)
    requires ValidSender(x) && x.vlans != [] && |FrameOf(x, 1, num)| < 0x1_0000
    ensures Decode(FrameOf(x, 1, num) + extra) == MoreVlans(x.id, x.vlans, [])
  {
    hide FrameOf, TlvsOf, Wire, UnBE16, ChecksumOf, ParseTlvs, ApplyAll;
    var frame := FrameOf(x, 1, num) + extra;
    FrameSize(x, 1, num);
    HeaderBytes(x, 1, num, extra);
    AllMarked(x, 1);
    ApplyVlans(x, 0, NOTHING);
    assert [] + x.vlans[0..] == x.vlans;
    ParseWire(frame, START, TlvsOf(x, 1), 0, extra, NOTHING);
  }
}
