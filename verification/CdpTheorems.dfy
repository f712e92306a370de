/** A frame sent is a frame understood, and exactly when. */
module CdpTheorems {
  import opened Bytes
  import opened Tlv
  import opened Checksum
  import opened Cdp

  // ---------- TLV by TLV ----------

  /** The effect of the TLVs from the i-th on. */
  function ApplyAll(ts: seq<Tlv>, i: nat, fdp: bool, zero: bool, st: Parsed): Option<Parsed>
    decreases |ts| - i
  {
    if i >= |ts| then Some(st)
    else match Apply(ts[i], fdp, zero, st)
      case None => None
      case Some(st') => ApplyAll(ts, i + 1, fdp, zero, st')
  }

  /** The loop over a frame applies each TLV it holds once, in order, and then goes on
      with what follows them. */
  lemma {:induction false} ParseWire(frame: seq<byte>, p: nat, ts: seq<Tlv>, i: nat, extra: seq<byte>, fdp: bool,
      zero: bool, st: Parsed)
    requires p <= |frame| && i <= |ts| && frame[p..] == Wire(ts, i) + extra && forall x :: 0 <= x < |ts| ==> Fits(ts[x])
    ensures |extra| <= |frame|
    ensures ParseTlvs(frame, p, fdp, zero, st) ==
      match ApplyAll(ts, i, fdp, zero, st)
      case None => None
      case Some(st') => ParseTlvs(frame, |frame| - |extra|, fdp, zero, st')
    decreases |ts| - i
  {
    hide Apply, UnBE16, Encode, Fits;
    if i == |ts| {
      assert Wire(ts, i) + extra == extra;
      assert |frame[p..]| == |frame| - p;
    } else {
      var rest := Wire(ts, i + 1) + extra;
      assert frame[p..] == Encode(ts[i]) + rest;
      HeaderReads(frame, p, ts[i], rest);
      match Apply(ts[i], fdp, zero, st)
      case None =>
      case Some(st') => ParseWire(frame, p + 4 + |ts[i].value|, ts, i + 1, extra, fdp, zero, st');
    }
  }

  lemma {:induction false} ApplyAppend(ts: seq<Tlv>, us: seq<Tlv>, i: nat, fdp: bool, zero: bool, st: Parsed)
    requires i <= |ts|
    ensures ApplyAll(ts + us, i, fdp, zero, st) ==
      match ApplyAll(ts, i, fdp, zero, st)
      case None => None
      case Some(st') => ApplyAll(us, 0, fdp, zero, st')
    decreases |ts| - i
  {
    hide Apply;
    if i < |ts| {
      match Apply(ts[i], fdp, zero, st)
      case None =>
      case Some(st') => ApplyAppend(ts, us, i + 1, fdp, zero, st');
    } else {
      ApplyShift(ts, us, 0, fdp, zero, st);
    }
  }

  lemma {:induction false} ApplyShift(ts: seq<Tlv>, us: seq<Tlv>, i: nat, fdp: bool, zero: bool, st: Parsed)
    requires i <= |us|
    ensures ApplyAll(ts + us, |ts| + i, fdp, zero, st) == ApplyAll(us, i, fdp, zero, st)
    decreases |us| - i
  {
    hide Apply;
    if i < |us| {
      match Apply(us[i], fdp, zero, st)
      case None =>
      case Some(st') => ApplyShift(ts, us, i + 1, fdp, zero, st');
    }
  }

  lemma {:induction false} ApplyOne(t: Tlv, fdp: bool, zero: bool, st: Parsed)
    ensures ApplyAll([t], 0, fdp, zero, st) == Apply(t, fdp, zero, st)
  {
    hide Apply;
    match Apply(t, fdp, zero, st)
    case None =>
    case Some(st') => assert ApplyAll([t], 1, fdp, zero, st') == Some(st');
  }

  // ---------- Each TLV ----------

  ghost predicate FourBytes(addrs: seq<seq<byte>>)
  {
    forall i :: 0 <= i < |addrs| ==> |addrs[i]| == 4
  }

  /** The address list gives back the addresses, in order. */
  lemma {:induction false} AddressesRead(c: seq<byte>, q: nat, addrs: seq<seq<byte>>, i: nat, acc: seq<seq<byte>>)
    requires FourBytes(addrs) && i <= |addrs| && q <= |c| && c[q..] == AddressEntries(addrs, i)
    ensures ParseAddresses(c, q, |addrs| - i, acc) == Some(acc + addrs[i..])
    decreases |addrs| - i
  {
    if i == |addrs| {
      assert acc + addrs[i..] == acc;
    } else {
      AddressStep(c, q, addrs, i);
      AddressesRead(c, q + 9, addrs, i + 1, acc + [addrs[i]]);
      assert acc + addrs[i..] == acc + [addrs[i]] + addrs[i + 1..];
    }
  }

  lemma {:induction false} AddressStep(c: seq<byte>, q: nat, addrs: seq<seq<byte>>, i: nat)
    requires FourBytes(addrs) && i < |addrs| && q <= |c| && c[q..] == AddressEntries(addrs, i)
    ensures q + 9 <= |c| && c[q] == 1 && c[q + 1] == 1 && c[q + 2] == PROTO_IP && UnBE16(c, q + 3) == 4
    ensures c[q + 5..q + 9] == addrs[i] && c[q + 9..] == AddressEntries(addrs, i + 1)
  {
    var s := c[q..];
    var entry := AddressEntry(addrs[i]);
    assert |addrs[i]| == 4 && |entry| == 9;
    assert s == entry + AddressEntries(addrs, i + 1);
    assert entry[..5] == [1, 1, PROTO_IP, 0, 4];
    assert c[q] == s[0] && c[q + 1] == s[1] && c[q + 2] == s[2] && c[q + 3] == s[3] && c[q + 4] == s[4];
    assert c[q + 5..q + 9] == s[5..9] == entry[5..9] == addrs[i];
    assert c[q + 9..] == s[9..] == AddressEntries(addrs, i + 1);
  }

  lemma {:induction false} AddressTlv(addrs: seq<seq<byte>>, fdp: bool, zero: bool, st: Parsed)
    requires FourBytes(addrs) && |addrs| < 0x8000_0000 && st.mgmt == []
    ensures Apply(Tlv(ADDRESSES, AddressValue(addrs)), fdp, zero, st) == Some(st.(mgmt := addrs))
  {
    hide BE32, UnBE32, AddressEntries, ParseAddresses;
    var c := AddressValue(addrs);
    assert c[0..4] == BE32(|addrs|);
    BE32Reads(|addrs|, c, 0);
    assert c[4..] == AddressEntries(addrs);
    AddressesRead(c, 4, addrs, 0, []);
    assert [] + addrs[0..] == addrs;
  }

  /** What the receiver understands of the capabilities sent. */
  function MappedCaps(caps: set<Cap>, v: Version): set<Cap>
  {
    if v == Fdp then
      (if Router in caps then {Router} else if Bridge in caps then {Bridge} else if Repeater in caps then {Repeater}
        else {Station})
    else if caps * {Router, Bridge} == {} then {Station} else caps * {Router, Bridge}
  }

  lemma {:induction false} CapsTlv(caps: set<Cap>, v: Version, zero: bool, st: Parsed)
    requires st.caps == {}
    ensures Apply(Tlv(CAPABILITIES, CapsValue(caps, v)), v == Fdp, zero, st) == Some(st.(caps := MappedCaps(caps, v)))
  {
    if v == Fdp {
      FdpWords(caps);
    } else {
      CdpBits(caps, v);
    }
  }

  lemma {:induction false} CdpBits(caps: set<Cap>, v: Version)
    requires v != Fdp
    ensures CdpCaps(UnBE32(CapsValue(caps, v), 0), {}) == MappedCaps(caps, v)
  {
    hide BE32, UnBE32;
    var bits := (if Router in caps then 0x01 else 0) + (if Bridge in caps then 0x08 else 0) + 0x10;
    var s := CapsValue(caps, v);
    assert s[0..4] == BE32(bits);
    BE32Reads(bits, s, 0);
    assert bits % 2 == 1 <==> Router in caps;
    assert bits / 2 % 8 != 0 <==> Bridge in caps;
    assert {} + (if Router in caps then {Router} else {}) + (if Bridge in caps then {Bridge} else {}) ==
      caps * {Router, Bridge};
  }

  lemma {:induction false} WordsDiffer(a: seq<byte>, s: seq<byte>)
    requires |a| > 0 && |s| > 0 && a[0] != s[0] && s[0] != 0
    ensures !SameWord(a, s, |s|)
  {
  }

  lemma {:induction false} WordsAgree(a: seq<byte>, s: seq<byte>, i: nat)
    requires s == a && i <= |a|
    ensures SameWord(a, s, |s|, i)
    decreases |a| - i
  {
    if i < |a| {
      WordsAgree(a, s, i + 1);
    }
  }

  lemma {:induction false} FdpWords(caps: set<Cap>)
    ensures FdpCaps(CapsValue(caps, Fdp)) == MappedCaps(caps, Fdp)
  {
    hide SameWord;
    WordsAgree(WORD_ROUTER, WORD_ROUTER, 0);
    WordsAgree(WORD_SWITCH, WORD_SWITCH, 0);
    WordsAgree(WORD_BRIDGE, WORD_BRIDGE, 0);
    WordsDiffer(WORD_ROUTER, WORD_SWITCH);
    WordsDiffer(WORD_ROUTER, WORD_BRIDGE);
    WordsDiffer(WORD_SWITCH, WORD_BRIDGE);
    WordsDiffer(WORD_ROUTER, WORD_HOST);
    WordsDiffer(WORD_SWITCH, WORD_HOST);
    WordsDiffer(WORD_BRIDGE, WORD_HOST);
  }

  // ---------- The whole frame ----------

  /** What the fields of the structures guarantee. */
  ghost predicate ValidSender(x: Sender)
  {
    && |x.mac| == 6 && x.ttl < 0x1_0000 && x.pvid < 0x1_0000
    && forall i :: 0 <= i < |x.mgmt| && x.mgmt[i].IPv4? ==> |x.mgmt[i].addr| == 4
  }

  lemma {:induction false} IPv4sFour(mgmt: seq<Address>, i: nat)
    requires forall j :: 0 <= j < |mgmt| && mgmt[j].IPv4? ==> |mgmt[j].addr| == 4
    ensures FourBytes(IPv4s(mgmt, i))
    decreases |mgmt| - i
  {
    if i < |mgmt| {
      IPv4sFour(mgmt, i + 1);
    }
  }

  /** What a receiver makes of x, if it accepts it. */
  function Understood(x: Sender, v: Version): Neighbor
  {
    var vlan := v == V2 && x.pvid != 0;
    Neighbor(x.ttl % 256, Text(x.name), x.platform + RUNNING_ON + Text(x.descr), Text(x.portDescr), IPv4s(x.mgmt),
             MappedCaps(x.caps, v), if vlan then x.pvid else 0, if vlan then [x.pvid] else [])
  }

  /** The exact condition: a TTL that is not 0 in one byte, a port description, and
      a name unless malloc(0) returns a pointer. */
  predicate Acceptable(x: Sender, zero: bool)
  {
    x.ttl % 256 != 0 && Text(x.portDescr) != [] && (Text(x.name) != [] || zero)
  }

  lemma {:induction false} ApplyFirst(x: Sender, v: Version, zero: bool)
    requires ValidSender(x) && |IPv4s(x.mgmt)| < 0x8000_0000
    ensures var ts := [Tlv(CHASSIS, Text(x.name))] +
      (if IPv4s(x.mgmt) != [] then [Tlv(ADDRESSES, AddressValue(IPv4s(x.mgmt)))] else []);
      ApplyAll(ts, 0, v == Fdp, zero, NOTHING) ==
      if Text(x.name) != [] || zero then Some(NOTHING.(name := Some(Text(x.name)), mgmt := IPv4s(x.mgmt))) else None
  {
    hide ApplyAll, AddressValue, IPv4s, ParseAddresses;
    var t := Tlv(CHASSIS, Text(x.name));
    ApplyOne(t, v == Fdp, zero, NOTHING);
    var addrs := IPv4s(x.mgmt);
    if addrs == [] {
      assert [t] + [] == [t];
    } else {
      var a := Tlv(ADDRESSES, AddressValue(addrs));
      ApplyAppend([t], [a], 0, v == Fdp, zero, NOTHING);
      if Apply(t, v == Fdp, zero, NOTHING).Some? {
        var st := Apply(t, v == Fdp, zero, NOTHING).value;
        ApplyOne(a, v == Fdp, zero, st);
        IPv4sFour(x.mgmt, 0);
        AddressTlv(addrs, v == Fdp, zero, st);
      }
    }
  }

  lemma {:induction false} ApplyTwo(t: Tlv, u: Tlv, fdp: bool, zero: bool, st: Parsed)
    ensures ApplyAll([t, u], 0, fdp, zero, st) ==
      match Apply(t, fdp, zero, st)
      case None => None
      case Some(st') => Apply(u, fdp, zero, st')
  {
    hide Apply, ApplyAll;
    assert [t] + [u] == [t, u];
    ApplyAppend([t], [u], 0, fdp, zero, st);
    ApplyOne(t, fdp, zero, st);
    if Apply(t, fdp, zero, st).Some? {
      ApplyOne(u, fdp, zero, Apply(t, fdp, zero, st).value);
    }
  }

  /** Port and capabilities. */
  lemma {:induction false} ApplySecond(x: Sender, v: Version, zero: bool, st: Parsed)
    requires st.caps == {}
    ensures ApplyAll([Tlv(PORT, Text(x.portDescr)), Tlv(CAPABILITIES, CapsValue(x.caps, v))], 0, v == Fdp, zero, st) ==
      if Text(x.portDescr) != [] then Some(st.(portDescr := Some(Text(x.portDescr)), caps := MappedCaps(x.caps, v)))
        else None
  {
    hide CapsValue, MappedCaps, CdpCaps, FdpCaps;
    ApplyTwo(Tlv(PORT, Text(x.portDescr)), Tlv(CAPABILITIES, CapsValue(x.caps, v)), v == Fdp, zero, st);
    CapsTlv(x.caps, v, zero, st.(portDescr := Some(Text(x.portDescr))));
  }

  /** Native VLAN. */
  lemma {:induction false} ApplyThird(x: Sender, v: Version, zero: bool, st: Parsed)
    requires x.pvid < 0x1_0000
    ensures var vlan := v == V2 && x.pvid != 0;
      ApplyAll(if vlan then [Tlv(NATIVEVLAN, BE16(x.pvid))] else [], 0, v == Fdp, zero, st) ==
      Some(if vlan then st.(pvid := x.pvid, vlans := st.vlans + [x.pvid]) else st)
  {
    hide BE16, UnBE16;
    if v == V2 && x.pvid != 0 {
      var s := BE16(x.pvid);
      assert s[0..2] == s;
      BE16Reads(x.pvid, s, 0);
      ApplyOne(Tlv(NATIVEVLAN, s), v == Fdp, zero, st);
    }
  }

  /** Software, platform, power. */
  lemma {:induction false} ApplyFourth(x: Sender, v: Version, zero: bool, st: Parsed)
    ensures var power := SendsPower(x, v);
      ApplyAll([Tlv(SOFTWARE, Text(x.descr)), Tlv(PLATFORM, x.platform)] +
        (if power then [Tlv(POWER, BE16(x.power.value * 100))] else []),
               0, v == Fdp, zero, st) ==
      Some(st.(software := Some(Text(x.descr)), platform := Some(x.platform), unknown := st.unknown + if power then 1
        else 0))
  {
    hide ApplyAll, BE16;
    var ts := [Tlv(SOFTWARE, Text(x.descr)), Tlv(PLATFORM, x.platform)];
    ApplyTwo(ts[0], ts[1], v == Fdp, zero, st);
    if SendsPower(x, v) {
      var p := Tlv(POWER, BE16(x.power.value * 100));
      ApplyAppend(ts, [p], 0, v == Fdp, zero, st);
      ApplyOne(p, v == Fdp, zero, st.(software := Some(Text(x.descr)), platform := Some(x.platform)));
    } else {
      assert ts + [] == ts;
    }
  }

  /** The state after all the TLVs of x. */
  lemma {:induction false} ApplySent(x: Sender, v: Version, zero: bool)
    requires ValidSender(x) && |IPv4s(x.mgmt)| < 0x8000_0000
    ensures match ApplyAll(TlvsOf(x, v), 0, v == Fdp, zero, NOTHING)
      case None => Text(x.portDescr) == [] || (Text(x.name) == [] && !zero)
      case Some(st) =>
        && Text(x.portDescr) != [] && (Text(x.name) != [] || zero)
        && Conclude(x.ttl % 256, st) == if x.ttl % 256 != 0 then Some(Understood(x, v)) else None
  {
    hide ApplyAll, Apply, IPv4s, CapsValue, BE16, AddressValue, MappedCaps;
    var fdp := v == Fdp;
    var t1 := [Tlv(CHASSIS, Text(x.name))] +
      (if IPv4s(x.mgmt) != [] then [Tlv(ADDRESSES, AddressValue(IPv4s(x.mgmt)))] else []);
    var t2 := [Tlv(PORT, Text(x.portDescr)), Tlv(CAPABILITIES, CapsValue(x.caps, v))];
    var t3 := if v == V2 && x.pvid != 0 then [Tlv(NATIVEVLAN, BE16(x.pvid))] else [];
    var t4 := [Tlv(SOFTWARE, Text(x.descr)), Tlv(PLATFORM, x.platform)] +
      (if SendsPower(x, v) then [Tlv(POWER, BE16(x.power.value * 100))] else []);
    assert TlvsOf(x, v) == t1 + (t2 + (t3 + t4));
    ApplyFirst(x, v, zero);
    ApplyAppend(t1, t2 + (t3 + t4), 0, fdp, zero, NOTHING);
    if Text(x.name) != [] || zero {
      var s1 := NOTHING.(name := Some(Text(x.name)), mgmt := IPv4s(x.mgmt));
      ApplyAppend(t2, t3 + t4, 0, fdp, zero, s1);
      ApplySecond(x, v, zero, s1);
      if Text(x.portDescr) != [] {
        var s2 := s1.(portDescr := Some(Text(x.portDescr)), caps := MappedCaps(x.caps, v));
        ApplyAppend(t3, t4, 0, fdp, zero, s2);
        ApplyThird(x, v, zero, s2);
        var s3 := if v == V2 && x.pvid != 0 then s2.(pvid := x.pvid, vlans := s2.vlans + [x.pvid]) else s2;
        ApplyFourth(x, v, zero, s3);
        assert s2.vlans + [x.pvid] == [x.pvid];
        SomeCaps(x.caps, v);
      }
    }
  }

  lemma {:induction false} SomeCaps(caps: set<Cap>, v: Version)
    ensures MappedCaps(caps, v) != {}
  {
    if v == Fdp {
      assert Router in {Router} && Bridge in {Bridge} && Repeater in {Repeater} && Station in {Station};
    } else if caps * {Router, Bridge} == {} {
      assert Station in {Station};
    }
  }

  lemma {:induction false} KindsFit(x: Sender, v: Version, k: nat)
    requires k < |TlvsOf(x, v)|
    ensures TlvsOf(x, v)[k].kind < 0x1_0000
  {
    hide IPv4s, CapsValue, AddressValue;
  }

  lemma {:induction false} EntriesLength(addrs: seq<seq<byte>>, i: nat)
    requires i <= |addrs|
    ensures |addrs| - i <= |AddressEntries(addrs, i)|
    decreases |addrs| - i
  {
    if i < |addrs| {
      EntriesLength(addrs, i + 1);
    }
  }

  lemma {:induction false} FewAddresses(x: Sender, v: Version)
    requires |Wire(TlvsOf(x, v))| < 0x1_0000
    ensures |IPv4s(x.mgmt)| < 0x8000_0000
  {
    hide IPv4s, CapsValue, AddressEntries;
    var addrs := IPv4s(x.mgmt);
    if addrs != [] {
      assert TlvsOf(x, v)[1] == Tlv(ADDRESSES, AddressValue(addrs));
      WireLonger(TlvsOf(x, v), 0, 1);
      EntriesLength(addrs, 0);
    }
  }

  lemma {:induction false} HeaderBytes(x: Sender, v: Version, extra: seq<byte>)
    requires |x.mac| == 6 && |FrameOf(x, v)| < 0x1_0000
    ensures var frame := FrameOf(x, v) + extra;
      && |frame| >= START && UnBE16(frame, 12) == |FrameOf(x, v)| - 14 && UnBE16(frame, 20) == LLC_PID_CDP
      && frame[22] == (if v == V2 then 2 else 1) && frame[23] == x.ttl % 256
      && (frame[..6] != CDP_ADDR <==> v == Fdp)
      && frame[START..] == Wire(TlvsOf(x, v)) + extra
  {
    hide BE16, UnBE16, TlvsOf, ChecksumOf, LE, Wire;
    var draft := Body(x, v, [0, 0]);
    var sum := LE(ChecksumOf(draft, v != Fdp), 2);
    var body := Body(x, v, sum);
    var eth, llc := Ethernet(x, v, 8 + |draft|), Llc(v);
    var frame := FrameOf(x, v) + extra;
    assert frame == eth + llc + body + extra;
    assert |eth| == 14 && |llc| == 8 && |body| == |draft| >= 4;
    assert frame[12..14] == eth[12..14] == BE16(8 + |draft|);
    assert frame[20..22] == llc[6..8] == BE16(LLC_PID_CDP);
    assert frame[22] == body[0] && frame[23] == body[1];
    assert frame[..6] == eth[..6] == if v == Fdp then FDP_ADDR else CDP_ADDR;
    assert FDP_ADDR[1] != CDP_ADDR[1];
    assert frame[START..] == body[4..] + extra == Wire(TlvsOf(x, v)) + extra;
    BE16Reads(8 + |draft|, frame, 12);
    BE16Reads(LLC_PID_CDP, frame, 20);
  }

  lemma {:induction false} AllFit(x: Sender, v: Version)
    requires |Wire(TlvsOf(x, v))| + START < 0x1_0000
    ensures forall k :: 0 <= k < |TlvsOf(x, v)| ==> Fits(TlvsOf(x, v)[k])
  {
    hide TlvsOf;
    forall k | 0 <= k < |TlvsOf(x, v)| ensures Fits(TlvsOf(x, v)[k]) {
      WireLonger(TlvsOf(x, v), 0, k);
      KindsFit(x, v, k);
    }
  }

  lemma {:induction false} WireSize(x: Sender, v: Version)
    requires |x.mac| == 6
    ensures |FrameOf(x, v)| == START + |Wire(TlvsOf(x, v))|
  {
    hide BE16, TlvsOf, ChecksumOf, LE, Wire;
  }

  /** Every frame sent is decoded to what the sender announced if and only if it is
      acceptable; otherwise it is rejected. */
  lemma {:induction false} CdpRoundTrip(x: Sender, v: Version, zero: bool)
    requires ValidSender(x) && |FrameOf(x, v)| < 0x1_0000
    ensures Decode(FrameOf(x, v), zero) == if Acceptable(x, zero) then Some(Understood(x, v)) else None
  {
    hide FrameOf, ParseTlvs, ApplyAll, TlvsOf, Wire, UnBE16, Conclude, Understood;
    var frame := FrameOf(x, v);
    assert frame + [] == frame;
    WireSize(x, v);
    HeaderBytes(x, v, []);
    AllFit(x, v);
    FewAddresses(x, v);
    ParseWire(frame, START, TlvsOf(x, v), 0, [], v == Fdp, zero, NOTHING);
    ApplySent(x, v, zero);
    ParseEnd(frame, v == Fdp, zero);
  }

  /** A frame is guessed to be of the version it was sent with, and only of that one;
      FDP frames are guessed as neither. */
  lemma {:induction false} SentIsGuessed(x: Sender, v: Version, version: nat)
    requires ValidSender(x) && |FrameOf(x, v)| < 0x1_0000
    ensures Guess(FrameOf(x, v), version) <==> v != Fdp && version == if v == V2 then 2 else 1
  {
    hide FrameOf, TlvsOf, Wire;
    assert FrameOf(x, v) + [] == FrameOf(x, v);
    HeaderBytes(x, v, []);
  }

  lemma {:induction false} ParseEnd(frame: seq<byte>, fdp: bool, zero: bool)
    ensures forall st :: ParseTlvs(frame, |frame|, fdp, zero, st) == Some(st)
  {
  }

  /** The checksum of what is sent verifies. */
  lemma {:induction false} SentChecksumVerifies(x: Sender, v: Version)
    requires |FrameOf(x, v)| < 0x1_0000
    ensures var body := Body(x, v, LE(ChecksumOf(Body(x, v, [0, 0]), v != Fdp), 2));
      body <= FrameOf(x, v)[|FrameOf(x, v)| - |body|..] && ChecksumOf(body, v != Fdp) == 0
  {
    hide ChecksumOf, LE, Wire, TlvsOf, BE16;
    var draft := Body(x, v, [0, 0]);
    var sum := LE(ChecksumOf(draft, v != Fdp), 2);
    assert Write(draft, 2, sum) == Body(x, v, sum);
    ChecksumVerifies(draft, 1, v != Fdp);
  }

  /** The 802.3 length is not used to find the end: a frame padded with zeros on its
      way, as Ethernet does with short frames, is rejected. */
  lemma {:induction false} PaddedFrameRejected(x: Sender, v: Version, zero: bool, pad: nat)
    requires ValidSender(x) && |FrameOf(x, v)| < 0x1_0000 && pad > 0
    ensures Decode(FrameOf(x, v) + Zeros(pad), zero) == None
  {
    hide FrameOf, ParseTlvs, ApplyAll, TlvsOf, Wire, UnBE16, Conclude;
    var frame := FrameOf(x, v) + Zeros(pad);
    WireSize(x, v);
    HeaderBytes(x, v, Zeros(pad));
    AllFit(x, v);
    ParseWire(frame, START, TlvsOf(x, v), 0, Zeros(pad), v == Fdp, zero, NOTHING);
    ParseZeros(frame, |frame| - pad, v == Fdp, zero);
  }

  lemma {:induction false} ParseZeros(frame: seq<byte>, p: nat, fdp: bool, zero: bool)
    requires p < |frame| && forall i :: p <= i < |frame| ==> frame[i] == 0
    ensures forall st :: ParseTlvs(frame, p, fdp, zero, st) == None
  {
  }
}
