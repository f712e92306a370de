/** The bytes of the frames edp_send() of src/daemon/edp.c emits, position by position,
    and frames with leftovers behind their names. */
module EdpLayout {
  import opened Bytes
  import opened Tlv
  import opened Checksum
  import opened Edp
  import opened EdpTheorems
  import opened EdpFrames

  /** Slot and port, then a version 7.6.4.99 and a bit mask that are always the same. */
  function InfoField(slot: nat, port: nat): seq<byte>
  {
    Field(0x9902, [slot / 256 % 256, slot % 256, port / 256 % 256, port % 256] + [0, 0, 0, 0, 0, 0, 0, 0]
                  + [7, 6, 4, 99] + [0xff, 0xff, 0xff, 0xff] + [0, 0, 0, 0, 0, 0, 0, 0, 0, 0, 0, 0])
  }

  function VlanField(v: Vlan): seq<byte>
  {
    Field(0x9905, [0, 0, v.vid / 256 % 256, v.vid % 256, 0, 0, 0, 0, 0, 0, 0, 0] + v.name + [0])
  }

  /** The VLANs from the i-th on. */
  function VlanFields(vlans: seq<Vlan>, i: nat := 0): seq<byte>
    decreases |vlans| - i
  {
    if i >= |vlans| then [] else VlanField(vlans[i]) + VlanFields(vlans, i + 1)
  }

  /** The display frame, or the VLAN frame; both end with the null TLV. */
  function Fields(x: Sender, state: nat): seq<byte>
  {
    (if state == 0 then Field(0x9901, x.name + [0]) + InfoField(x.slot, x.port) else VlanFields(x.vlans))
    + [0x99, 0x00, 0x00, 0x04]
  }

  lemma {:induction false} InfoLaid(slot: nat, port: nat)
    ensures Wire([Make(INFO, InfoValue(slot, port))]) == InfoField(slot, port)
  {
    hide Wire, Field;
    OneField(0x9902, InfoValue(slot, port));
    assert Zeros(8) == [0, 0, 0, 0, 0, 0, 0, 0] && Zeros(12) == [0, 0, 0, 0, 0, 0, 0, 0, 0, 0, 0, 0];
    assert BE16(slot) + BE16(port) == [slot / 256 % 256, slot % 256, port / 256 % 256, port % 256];
  }

  lemma {:induction false} VlansLaid(vlans: seq<Vlan>, i: nat)
    requires i <= |vlans|
    ensures Wire(VlanTlvs(vlans, i)) == VlanFields(vlans, i)
    decreases |vlans| - i
  {
    hide Field, Wire;
    if i == |vlans| {
      NoWire();
    } else {
      VlansLaid(vlans, i + 1);
      var t := Make(VLAN, VlanValue(vlans[i]));
      WireAppend([t], VlanTlvs(vlans, i + 1), 0);
      OneField(0x9905, VlanValue(vlans[i]));
      assert Zeros(8) == [0, 0, 0, 0, 0, 0, 0, 0];
      assert VlanValue(vlans[i]) ==
        [0, 0, vlans[i].vid / 256 % 256, vlans[i].vid % 256, 0, 0, 0, 0, 0, 0, 0, 0] + vlans[i].name + [0];
    }
  }

  lemma {:induction false} FieldsAre(x: Sender, state: nat)
    ensures Wire(TlvsOf(x, state)) == Fields(x, state)
  {
    hide Wire, Field, InfoField, InfoValue, VlanTlvs, VlanFields;
    var display, info, end := Make(DISPLAY, x.name + [0]), Make(INFO, InfoValue(x.slot, x.port)), Make(NULL, []);
    OneField(0x9900, []);
    NullField();
    if state == 0 {
      assert TlvsOf(x, state) == [display] + [info] + [end];
      WireAppend([display] + [info], [end], 0);
      WireAppend([display], [info], 0);
      OneField(0x9901, x.name + [0]);
      InfoLaid(x.slot, x.port);
    } else {
      WireAppend(VlanTlvs(x.vlans), [end], 0);
      VlansLaid(x.vlans, 0);
    }
  }

  lemma {:induction false} NullField()
    ensures Field(0x9900, []) == [0x99, 0x00, 0x00, 0x04]
  {
  }

  /** Every frame sent, byte by byte. */
  lemma {:induction false} FrameLayout(x: Sender, state: nat, num: nat)
    requires |x.mac| == 6 && |x.id| == 6 && |FrameOf(x, state, num)| < 0x1_0000
    ensures var f := FrameOf(x, state, num);
      && |f| == 38 + |Fields(x, state)|
      && f[0..6] == [0x00, 0xe0, 0x2b, 0x00, 0x00, 0x00] && f[6..12] == x.mac
      && f[12..14] == [(|f| - 14) / 256, (|f| - 14) % 256]
      && f[14..17] == [0xaa, 0xaa, 0x03] && f[17..20] == [0x00, 0xe0, 0x2b] && f[20..22] == [0x00, 0xbb]
      && f[22..24] == [0x01, 0x00] && f[24..26] == [(|f| - 22) / 256, (|f| - 22) % 256]
      && OnesSum(f[22..], WordCount(f[22..]), false) == 0xFFFF
      && f[28..30] == [num / 256 % 256, num % 256] && f[30..32] == [0x00, 0x00]
      && f[32..38] == x.id && f[38..] == Fields(x, state)
  {
    hide TlvsOf, ChecksumOf, LE, Wire, Fields, OnesSum, Front, Packet;
    FieldsAre(x, state);
    FrameSize(x, state, num);
    var len := 16 + |Wire(TlvsOf(x, state))|;
    var sum := LE(ChecksumOf(Packet(x, state, num, len, [0, 0]), false), 2);
    var front, packet := Front(x, 8 + len), Packet(x, state, num, len, sum);
    var f := FrameOf(x, state, num);
    assert f == front + packet;
    FrontBytes(x, 8 + len);
    PacketBytes(x, state, num, len, sum);
    PacketBytes(x, state, num, len, [0, 0]);
    PacketVerifies(x, state, num, len);
    Pieces(front, packet);
    ZeroChecksum(packet, false);
  }

  lemma {:induction false} FrontBytes(x: Sender, len: nat)
    requires |x.mac| == 6 && len < 0x1_0000
    ensures var s := Front(x, len);
      && |s| == 22 && s[0..6] == [0x00, 0xe0, 0x2b, 0x00, 0x00, 0x00] && s[6..12] == x.mac
      && s[12..14] == [len / 256, len % 256] && s[14..17] == [0xaa, 0xaa, 0x03] && s[17..20] == [0x00, 0xe0, 0x2b]
      && s[20..22] == [0x00, 0xbb]
  {
  }

  lemma {:induction false} PacketBytes(x: Sender, state: nat, num: nat, len: nat, sum: seq<byte>)
    requires |x.id| == 6 && |sum| == 2 && len < 0x1_0000
    ensures var s := Packet(x, state, num, len, sum);
      && |s| == 16 + |Wire(TlvsOf(x, state))| && s[0..2] == [0x01, 0x00] && s[2..4] == [len / 256, len % 256]
      && s[6..8] == [num / 256 % 256, num % 256] && s[8..10] == [0x00, 0x00] && s[10..16] == x.id
      && s[16..] == Wire(TlvsOf(x, state))
  {
    hide Wire, TlvsOf;
  }

  lemma {:induction false} Pieces(front: seq<byte>, s: seq<byte>)
    requires |front| == 22 && |s| >= 16
    ensures var f := front + s;
      && f[0..6] == front[0..6] && f[6..12] == front[6..12] && f[12..14] == front[12..14] && f[14..17] == front[14..17]
      && f[17..20] == front[17..20] && f[20..22] == front[20..22] && f[22..] == s && f[22..24] == s[0..2]
      && f[24..26] == s[2..4] && f[28..30] == s[6..8] && f[30..32] == s[8..10] && f[32..38] == s[10..16]
      && f[38..] == s[16..]
  {
  }

  // ---------- Leftovers behind names ----------

  lemma {:induction false} LongEnough(frame: seq<byte>)
    requires HeaderOk(frame)
    ensures |frame| >= 38
  {
  }

  lemma {:induction false} TwoValues(t: Tlv, u: Tlv, kind: nat)
    ensures Values([t, u], kind) ==
      (if t.kind == kind then [t.value] else []) + if u.kind == kind then [u.value] else []
  {
    assert [t, u][..1] == [t] && [t][..0] == [];
    assert Values([t], kind) == [] + if t.kind == kind then [t.value] else [];
  }

  /** A display frame whose name is followed by a null byte and by leftovers: the name is
      what comes before. */
  lemma {:induction false} DisplayWithJunk(frame: seq<byte>, info: seq<byte>, name: seq<byte>, junk: seq<byte>,
      more: seq<byte>)
    requires HeaderOk(frame) && 0 !in name && |info| >= 32 && |info| < 60000 && |name| + |junk| < 60000
    requires frame[38..] == Field(0x9902, info) + Field(0x9901, name + [0] + junk) + [0x99, 0x00, 0x00, 0x04] + more
    ensures Decode(frame) == NewPort(frame[32..38], name, InfoIn(info), [], [])
  {
    hide Decode, HeaderOk, Wire, Field, NameIn;
    LongEnough(frame);
    var a, b := Tlv(0x9902, info), Tlv(0x9901, name + [0] + junk);
    var ts, rest := [a, b], [0x99, 0x00, 0x00, 0x04] + more;
    assert ts == [a] + [b];
    WireAppend([a], [b], 0);
    OneField(0x9902, info);
    OneField(0x9901, b.value);
    assert frame[38..] == Wire(ts) + rest;
    NameBeforeJunk(name, junk);
    TwoValues(a, b, DISPLAY_TLV);
    TwoValues(a, b, INFO_TLV);
    TwoValues(a, b, VLAN_TLV);
    FrameMeaning(frame, ts, rest);
  }

  /** A VLAN as any sender may announce it: flags, address, and leftovers behind the name. */
  datatype Announced = Announced(flags: seq<byte>, vid: nat, gap: seq<byte>, addr: seq<byte>, name: seq<byte>,
      junk: seq<byte>)

  predicate Announcable(a: Announced)
  {
    |a.flags| == 2 && a.vid < 0x1_0000 && |a.gap| == 4 && |a.addr| == 4 && 0 !in a.name && |a.name| + |a.junk| < 60000
  }

  function AnnouncedTlv(a: Announced): Tlv
  {
    Tlv(0x9905, a.flags + [a.vid / 256 % 256, a.vid % 256] + a.gap + a.addr + (a.name + [0] + a.junk))
  }

  function AnnouncedTlvs(announced: seq<Announced>): seq<Tlv>
  {
    seq(|announced|, i requires 0 <= i < |announced| => AnnouncedTlv(announced[i]))
  }

  function AnnouncedVlans(announced: seq<Announced>): seq<Vlan>
  {
    seq(|announced|, i requires 0 <= i < |announced| => Vlan(announced[i].vid, announced[i].name))
  }

  /** The addresses of the first n, where there is one. */
  function AnnouncedAddresses(announced: seq<Announced>, n: nat): seq<seq<byte>>
    requires n <= |announced|
  {
    if n == 0 then []
    else
      AnnouncedAddresses(announced, n - 1)
      + if announced[n - 1].addr != [0, 0, 0, 0] then [announced[n - 1].addr] else []
  }

  lemma {:induction false} AnnouncedValue(a: Announced)
    requires Announcable(a)
    ensures var v := AnnouncedTlv(a).value;
      |v| >= 12 && VlanIn(v) == Vlan(a.vid, a.name) && v[8..12] == a.addr && Ordinary(AnnouncedTlv(a))
  {
    hide NameIn;
    var v := AnnouncedTlv(a).value;
    assert v[2] == a.vid / 256 % 256 && v[3] == a.vid % 256;
    assert v[12..] == a.name + [0] + a.junk;
    NameBeforeJunk(a.name, a.junk);
  }

  lemma {:induction false} AnnouncedValues(announced: seq<Announced>, n: nat)
    requires n <= |announced| && forall k :: 0 <= k < |announced| ==> Announcable(announced[k])
    ensures var vs := Values(AnnouncedTlvs(announced)[..n], VLAN_TLV);
      && |vs| == n && VlansIn(vs) == AnnouncedVlans(announced)[..n]
      && AddressesIn(vs) == AnnouncedAddresses(announced, n)
    ensures Values(AnnouncedTlvs(announced)[..n], DISPLAY_TLV) == []
  {
    hide VlanIn, AnnouncedTlv, Values, VlansIn, AddressesIn;
    var ts, vlans := AnnouncedTlvs(announced), AnnouncedVlans(announced);
    if n == 0 {
      ValuesNone(ts, VLAN_TLV);
      ValuesNone(ts, DISPLAY_TLV);
      NoVlans();
    } else {
      AnnouncedValues(announced, n - 1);
      AnnouncedKind(announced[n - 1]);
      AnnouncedValue(announced[n - 1]);
      ValuesNext(ts, n - 1, VLAN_TLV);
      ValuesNext(ts, n - 1, DISPLAY_TLV);
      VlansNext(Values(ts[..n - 1], VLAN_TLV), ts[n - 1].value);
      assert vlans[..n] == vlans[..n - 1] + [vlans[n - 1]];
    }
  }

  lemma {:induction false} NoVlans()
    ensures VlansIn([]) == [] && AddressesIn([]) == []
  {
  }

  lemma {:induction false} AnnouncedKind(a: Announced)
    ensures AnnouncedTlv(a).kind == 0x9905
  {
  }

  /** A VLAN frame: every VLAN and every address that is not 0.0.0.0 is understood, in
      order, whatever is left behind the names. */
  lemma {:induction false} VlansWithJunk(frame: seq<byte>, announced: seq<Announced>, more: seq<byte>)
    requires HeaderOk(frame) && announced != [] && forall k :: 0 <= k < |announced| ==> Announcable(announced[k])
    requires frame[38..] == Wire(AnnouncedTlvs(announced)) + ([0x99, 0x00, 0x00, 0x04] + more)
    ensures Decode(frame) ==
      MoreVlans(frame[32..38], AnnouncedVlans(announced), AnnouncedAddresses(announced, |announced|))
  {
    hide Decode, HeaderOk, Wire, AnnouncedTlv, Values, VlansIn, AddressesIn;
    LongEnough(frame);
    var ts, n := AnnouncedTlvs(announced), |announced|;
    forall k | 0 <= k < |ts| ensures Ordinary(ts[k]) && !Refused(ts[k]) {
      AnnouncedKind(announced[k]);
      AnnouncedValue(announced[k]);
    }
    AnnouncedValues(announced, n);
    assert ts[..n] == ts && AnnouncedVlans(announced)[..n] == AnnouncedVlans(announced);
    FrameMeaning(frame, ts, [0x99, 0x00, 0x00, 0x04] + more);
  }
}
