/** The bytes of the frames cdp_send() of src/daemon/cdp.c emits, position by position. */
module CdpLayout {
  import opened Bytes
  import opened Tlv
  import opened Checksum
  import opened Cdp
  import opened CdpTheorems

  /** How many of the first n management addresses are IPv4. */
  function Count(mgmt: seq<Address>, n: nat): nat
    requires n <= |mgmt|
  {
    if n == 0 then 0 else Count(mgmt, n - 1) + if mgmt[n - 1].IPv4? then 1 else 0
  }

  /** Each of them: protocol type 1, one byte of protocol, 0xcc, four bytes of address. */
  function Entries(mgmt: seq<Address>, n: nat): seq<byte>
    requires n <= |mgmt|
  {
    if n == 0 then []
    else
      Entries(mgmt, n - 1) + if mgmt[n - 1].IPv4? then [0x01, 0x01, 0xcc, 0x00, 0x04] + mgmt[n - 1].addr else []
  }

  function AddressField(mgmt: seq<Address>): seq<byte>
  {
    var n := Count(mgmt, |mgmt|);
    if n == 0 then []
    else Field(2, [n / 0x100_0000 % 256, n / 0x1_0000 % 256, n / 0x100 % 256, n % 256] + Entries(mgmt, |mgmt|))
  }

  /** Bit 0x10 is always there, 0x01 for a router, 0x08 for a bridge; or one of the words
      Router, Switch, Bridge and Host. */
  function CapabilityField(caps: set<Cap>, v: Version): seq<byte>
  {
    if v != Fdp
    then Field(4, [0, 0, 0, 0x10 + (if Router in caps then 0x01 else 0) + (if Bridge in caps then 0x08 else 0)])
    else if Router in caps then Field(4, [0x52, 0x6f, 0x75, 0x74, 0x65, 0x72])
    else if Bridge in caps then Field(4, [0x53, 0x77, 0x69, 0x74, 0x63, 0x68])
    else if Repeater in caps then Field(4, [0x42, 0x72, 0x69, 0x64, 0x67, 0x65])
    else Field(4, [0x48, 0x6f, 0x73, 0x74])
  }

  function VlanField(pvid: nat, v: Version): seq<byte>
  {
    if v == V2 && pvid != 0 then Field(10, [pvid / 256 % 256, pvid % 256]) else []
  }

  /** Power, in milliwatts, when it is known, positive and not too large for 16 bits. */
  function PowerField(power: Option<nat>, v: Version): seq<byte>
  {
    if v == V2 && power.Some? && 0 < power.value <= 655
    then Field(16, [power.value * 100 / 256 % 256, power.value * 100 % 256])
    else []
  }

  function Fields(x: Sender, v: Version): seq<byte>
  {
    Field(1, Text(x.name)) + AddressField(x.mgmt) + Field(3, Text(x.portDescr)) + CapabilityField(x.caps, v)
    + VlanField(x.pvid, v) + Field(5, Text(x.descr)) + Field(6, x.platform) + PowerField(x.power, v)
  }

  // ---------- The TLVs ----------

  /** The list of IPv4 addresses against the places they have in the list of all. */
  lemma {:induction false} CountIs(mgmt: seq<Address>, i: nat)
    requires i <= |mgmt|
    ensures Count(mgmt, i) + |IPv4s(mgmt, i)| == |IPv4s(mgmt)|
    ensures Entries(mgmt, i) + AddressEntries(IPv4s(mgmt, i)) == AddressEntries(IPv4s(mgmt))
  {
    if i > 0 {
      CountIs(mgmt, i - 1);
      var a, rest := mgmt[i - 1], IPv4s(mgmt, i);
      if a.IPv4? {
        EntriesFirst(a.addr, rest);
        assert IPv4s(mgmt, i - 1) == [a.addr] + rest;
      } else {
        assert IPv4s(mgmt, i - 1) == [] + rest == rest;
      }
    } else {
      assert Entries(mgmt, 0) == [];
    }
  }

  lemma {:induction false} EntriesFirst(a: seq<byte>, addrs: seq<seq<byte>>)
    ensures AddressEntries([a] + addrs) == [0x01, 0x01, 0xcc, 0x00, 0x04] + a + AddressEntries(addrs)
  {
    EntriesShift(a, addrs, 0);
    assert AddressEntry(a) == [0x01, 0x01, 0xcc, 0x00, 0x04] + a;
  }

  lemma {:induction false} EntriesShift(a: seq<byte>, addrs: seq<seq<byte>>, i: nat)
    ensures AddressEntries([a] + addrs, i + 1) == AddressEntries(addrs, i)
    decreases |addrs| - i
  {
    if i < |addrs| {
      EntriesShift(a, addrs, i + 1);
    }
  }

  lemma {:induction false} AddressesLaid(mgmt: seq<Address>)
    ensures Wire(if IPv4s(mgmt) != [] then [Tlv(ADDRESSES, AddressValue(IPv4s(mgmt)))] else []) == AddressField(mgmt)
  {
    hide IPv4s, AddressEntries, Entries, Count, Field, Wire;
    CountIs(mgmt, |mgmt|);
    NoneLeft(mgmt);
    NoWire();
    var n := Count(mgmt, |mgmt|);
    assert Entries(mgmt, |mgmt|) + [] == Entries(mgmt, |mgmt|);
    if n > 0 {
      CountBytes(n);
      OneField(ADDRESSES, AddressValue(IPv4s(mgmt)));
    }
  }

  lemma {:induction false} NoneLeft(mgmt: seq<Address>)
    ensures IPv4s(mgmt, |mgmt|) == [] && AddressEntries([]) == []
  {
  }

  lemma {:induction false} CountBytes(n: nat)
    ensures BE32(n) == [n / 0x100_0000 % 256, n / 0x1_0000 % 256, n / 0x100 % 256, n % 256]
  {
    var h, l := n / 0x1_0000, n % 0x1_0000;
    assert n == h * 0x1_0000 + l;
    assert h / 256 == n / 0x100_0000;
    assert n / 0x100 == h * 0x100 + l / 0x100 && n == (h * 0x100 + l / 0x100) * 0x100 + l % 0x100;
  }

  lemma {:induction false} CapabilitiesLaid(caps: set<Cap>, v: Version)
    ensures Wire([Tlv(CAPABILITIES, CapsValue(caps, v))]) == CapabilityField(caps, v)
  {
    hide Wire, Field;
    OneField(CAPABILITIES, CapsValue(caps, v));
    var bits := (if Router in caps then 0x01 else 0) + (if Bridge in caps then 0x08 else 0) + 0x10;
    assert BE32(bits) == [0, 0, 0, bits];
  }

  lemma {:induction false} VlanLaid(pvid: nat, v: Version)
    ensures Wire(if v == V2 && pvid != 0 then [Tlv(NATIVEVLAN, BE16(pvid))] else []) == VlanField(pvid, v)
  {
    hide Wire, Field;
    NoWire();
    OneField(NATIVEVLAN, BE16(pvid));
  }

  lemma {:induction false} PowerLaid(x: Sender, v: Version)
    ensures Wire(if SendsPower(x, v) then [Tlv(POWER, BE16(x.power.value * 100))] else []) == PowerField(x.power, v)
  {
    hide Wire, Field;
    NoWire();
    if SendsPower(x, v) {
      OneField(POWER, BE16(x.power.value * 100));
    }
  }

  lemma {:induction false} FieldsAre(x: Sender, v: Version)
    ensures Wire(TlvsOf(x, v)) == Fields(x, v)
  {
    hide Wire, Field, AddressField, CapabilityField, VlanField, PowerField, IPv4s, AddressValue, CapsValue, BE16;
    var a := if IPv4s(x.mgmt) != [] then [Tlv(ADDRESSES, AddressValue(IPv4s(x.mgmt)))] else [];
    var d := if v == V2 && x.pvid != 0 then [Tlv(NATIVEVLAN, BE16(x.pvid))] else [];
    var g := if SendsPower(x, v) then [Tlv(POWER, BE16(x.power.value * 100))] else [];
    var name, port := Tlv(CHASSIS, Text(x.name)), Tlv(PORT, Text(x.portDescr));
    var caps, soft, plat := Tlv(CAPABILITIES, CapsValue(x.caps, v)), Tlv(SOFTWARE, Text(x.descr)),
      Tlv(PLATFORM, x.platform);
    assert TlvsOf(x, v) == [name] + a + [port] + [caps] + d + [soft] + [plat] + g;
    WireAppend([name] + a + [port] + [caps] + d + [soft] + [plat], g, 0);
    WireAppend([name] + a + [port] + [caps] + d + [soft], [plat], 0);
    WireAppend([name] + a + [port] + [caps] + d, [soft], 0);
    WireAppend([name] + a + [port] + [caps], d, 0);
    WireAppend([name] + a + [port], [caps], 0);
    WireAppend([name] + a, [port], 0);
    WireAppend([name], a, 0);
    OneField(CHASSIS, name.value);
    AddressesLaid(x.mgmt);
    OneField(PORT, port.value);
    CapabilitiesLaid(x.caps, v);
    VlanLaid(x.pvid, v);
    OneField(SOFTWARE, soft.value);
    OneField(PLATFORM, plat.value);
    PowerLaid(x, v);
  }

  // ---------- The frame ----------

  /** Every frame sent, byte by byte: destination and organisation by version, source,
      length of what follows it, version, TTL, a checksum that makes the one's-complement
      sum from byte 22 on all ones, and the fields. */
  lemma {:induction false} FrameLayout(x: Sender, v: Version)
    requires |x.mac| == 6 && |FrameOf(x, v)| < 0x1_0000
    ensures var f := FrameOf(x, v);
      && |f| == 26 + |Fields(x, v)|
      && f[0..6] == (if v == Fdp then [0x01, 0xe0, 0x52, 0xcc, 0xcc, 0xcc] else [0x01, 0x00, 0x0c, 0xcc, 0xcc, 0xcc])
      && f[6..12] == x.mac && f[12..14] == [(|f| - 14) / 256, (|f| - 14) % 256]
      && f[14..17] == [0xaa, 0xaa, 0x03]
      && f[17..20] == (if v == Fdp then [0x00, 0xe0, 0x52] else [0x00, 0x00, 0x0c])
      && f[20..22] == [0x20, 0x00]
      && f[22] == (if v == V2 then 2 else 1) && f[23] == x.ttl % 256
      && OnesSum(f[22..], WordCount(f[22..]), v != Fdp) == 0xFFFF
      && f[26..] == Fields(x, v)
  {
    hide TlvsOf, ChecksumOf, LE, Wire, Fields, OnesSum;
    var draft := Body(x, v, [0, 0]);
    var sum := LE(ChecksumOf(draft, v != Fdp), 2);
    var body := Body(x, v, sum);
    var eth, llc := Ethernet(x, v, 8 + |draft|), Llc(v);
    var f := FrameOf(x, v);
    FieldsAre(x, v);
    assert f == eth + llc + body && |eth| == 14 && |llc| == 8 && |body| == |draft|;
    assert f[0..6] == eth[0..6] && f[6..12] == eth[6..12] && f[12..14] == eth[12..14];
    assert f[14..17] == llc[0..3] && f[17..20] == llc[3..6] && f[20..22] == llc[6..8];
    assert f[22..] == body && f[22] == body[0] && f[23] == body[1] && f[26..] == body[4..];
    SentChecksumVerifies(x, v);
    ZeroChecksum(body, v != Fdp);
  }
}
