/** cdp_send() of src/daemon/cdp.c: one pass over the packet, with the lengths and the
    checksum filled in afterwards. */
module CdpSend {
  import opened Bytes
  import opened Frame
  import opened Tlv
  import opened Checksum
  import opened Cdp
  import opened CdpTheorems

  // ---------- One TLV ----------

  method PokeTlv(c: Cursor, t: Tlv) returns (ok: bool)
    requires c.Valid()
    modifies c
    ensures c.Valid() && |c.bytes| == old(|c.bytes|) && ok == (4 + |t.value| <= old(c.length))
    ensures ok ==> c.Written() == old(c.Written()) + Encode(t)
  {
    hide BE16, Encode, Write;
    ghost var w := c.Written();
    var tlv;
    ok, tlv := c.StartTlv(t.kind);
    if !ok {
      return;
    }
    ok := c.PokeBytes(t.value);
    if !ok {
      return;
    }
    PatchLength(w, t);
    WritePrefix(c.bytes, tlv, BE16(|t.value| + 4), c.pos);
    c.EndTlv(tlv);
  }

  /** The address TLV: the addresses are counted first, then written one by one. */
  method PokeAddresses(c: Cursor, mgmt: seq<Address>) returns (ok: bool)
    requires c.Valid() && FourBytes(IPv4s(mgmt))
    modifies c
    ensures c.Valid() && |c.bytes| == old(|c.bytes|)
    ensures var addrs := IPv4s(mgmt);
      if addrs == [] then ok && c.Written() == old(c.Written())
      else
        && ok == (4 + |AddressValue(addrs)| <= old(c.length))
        && (ok ==> c.Written() == old(c.Written()) + Encode(Tlv(ADDRESSES, AddressValue(addrs))))
  {
    hide BE16, BE32, Encode, Write, AddressEntry, IPv4s;
    var n := CountIPv4(mgmt);
    if n == 0 {
      return true;
    }
    ghost var w := c.Written();
    ghost var t := Tlv(ADDRESSES, AddressValue(IPv4s(mgmt)));
    var tlv;
    ok, tlv := c.StartTlv(ADDRESSES);
    if !ok {
      return;
    }
    ok := c.PokeUint32(n);
    if !ok {
      return;
    }
    ok := PokeEntries(c, mgmt);
    if !ok {
      return;
    }
    assert c.Written() == w + BE16(t.kind) + BE16(0) + t.value;
    PatchLength(w, t);
    WritePrefix(c.bytes, tlv, BE16(|t.value| + 4), c.pos);
    c.EndTlv(tlv);
  }

  method CountIPv4(mgmt: seq<Address>) returns (n: nat)
    ensures n == |IPv4s(mgmt)|
  {
    n := 0;
    var i := 0;
    while i < |mgmt|
      invariant i <= |mgmt| && n + |IPv4s(mgmt, i)| == |IPv4s(mgmt)|
    {
      if mgmt[i].IPv4? {
        n := n + 1;
      }
      i := i + 1;
    }
  }

  lemma {:induction false} EntriesAppend(addrs: seq<seq<byte>>, more: seq<seq<byte>>, i: nat)
    requires i <= |addrs|
    ensures AddressEntries(addrs + more, i) == AddressEntries(addrs, i) + AddressEntries(more)
    decreases |addrs| - i
  {
    hide AddressEntry;
    if i < |addrs| {
      EntriesAppend(addrs, more, i + 1);
    } else {
      EntriesShift(addrs, more, 0);
    }
  }

  lemma {:induction false} EntriesShift(addrs: seq<seq<byte>>, more: seq<seq<byte>>, i: nat)
    requires i <= |more|
    ensures AddressEntries(addrs + more, |addrs| + i) == AddressEntries(more, i)
    decreases |more| - i
  {
    hide AddressEntry;
    if i < |more| {
      EntriesShift(addrs, more, i + 1);
    }
  }

  lemma {:induction false} EntriesNext(mgmt: seq<Address>, i: nat)
    requires i < |mgmt|
    ensures AddressEntries(IPv4s(mgmt, i)) ==
      (if mgmt[i].IPv4? then AddressEntry(mgmt[i].addr) else []) + AddressEntries(IPv4s(mgmt, i + 1))
  {
    hide AddressEntry;
    var rest := IPv4s(mgmt, i + 1);
    if mgmt[i].IPv4? {
      var one := [mgmt[i].addr];
      EntriesAppend(one, rest, 0);
      assert AddressEntries(one, 1) == [];
      assert AddressEntries(one) == AddressEntry(mgmt[i].addr) + [];
    } else {
      assert IPv4s(mgmt, i) == rest;
    }
  }

  method PokeEntries(c: Cursor, mgmt: seq<Address>) returns (ok: bool)
    requires c.Valid() && FourBytes(IPv4s(mgmt))
    modifies c
    ensures c.Valid() && |c.bytes| == old(|c.bytes|) && ok == (|AddressEntries(IPv4s(mgmt))| <= old(c.length))
    ensures ok ==> c.Written() == old(c.Written()) + AddressEntries(IPv4s(mgmt))
  {
    hide BE16, Write, AddressEntries, IPv4s, AddressEntry;
    ghost var w, all := c.Written(), AddressEntries(IPv4s(mgmt));
    NoEntries(mgmt);
    var i := 0;
    while i < |mgmt|
      invariant i <= |mgmt| && c.Valid() && |c.bytes| == old(|c.bytes|)
      invariant c.Written() + AddressEntries(IPv4s(mgmt, i)) == w + all
    {
      EntriesNext(mgmt, i);
      if mgmt[i].IPv4? {
        ghost var before := c.Written();
        ok := PokeEntry(c, mgmt[i].addr);
        if !ok {
          assert |before| + |AddressEntry(mgmt[i].addr)| <= |w + all|;
          return;
        }
        assert before + (AddressEntry(mgmt[i].addr) + AddressEntries(IPv4s(mgmt, i + 1)))
            == c.Written() + AddressEntries(IPv4s(mgmt, i + 1));
      } else {
        assert [] + AddressEntries(IPv4s(mgmt, i + 1)) == AddressEntries(IPv4s(mgmt, i + 1));
      }
      i := i + 1;
    }
    assert c.Written() + [] == c.Written();
    ok := true;
  }

  lemma {:induction false} NoEntries(mgmt: seq<Address>)
    ensures AddressEntries(IPv4s(mgmt, |mgmt|)) == []
  {
  }

  method PokeEntry(c: Cursor, addr: seq<byte>) returns (ok: bool)
    requires c.Valid()
    modifies c
    ensures c.Valid() && |c.bytes| == old(|c.bytes|) && ok == (|AddressEntry(addr)| <= old(c.length))
    ensures ok ==> c.Written() == old(c.Written()) + AddressEntry(addr)
  {
    hide BE16, Write;
    ok := c.PokeUint8(1);
    if ok {
      ok := c.PokeUint8(1);
    }
    if ok {
      ok := c.PokeUint8(PROTO_IP);
    }
    if ok {
      ok := c.PokeUint16(4);
    }
    if ok {
      ok := c.PokeBytes(addr);
    }
  }

  // ---------- The headers ----------

  method PokeHeaders(c: Cursor, x: Sender, v: Version) returns (ok: bool)
    requires c.Valid() && c.pos == 0 && |x.mac| == 6
    modifies c
    ensures c.Valid() && |c.bytes| == old(|c.bytes|) && ok == (START <= old(c.length))
    ensures ok ==> c.Written() == Headers(x, v)
  {
    hide BE16, Write;
    ok := c.PokeBytes(if v == Fdp then FDP_ADDR else CDP_ADDR);
    if ok {
      ok := c.PokeBytes(x.mac);
    }
    if ok {
      ok := c.PokeUint16(0);
    }
    if ok {
      assert c.Written() == Ethernet(x, v, 0);
      ok := PokeLlc(c, v);
    }
    if ok {
      ok := PokeHeader(c, x, v);
    }
  }

  method PokeLlc(c: Cursor, v: Version) returns (ok: bool)
    requires c.Valid()
    modifies c
    ensures c.Valid() && |c.bytes| == old(|c.bytes|) && ok == (8 <= old(c.length))
    ensures ok ==> c.Written() == old(c.Written()) + Llc(v)
  {
    hide BE16, Write;
    ok := c.PokeUint8(0xaa);
    if ok {
      ok := c.PokeUint8(0xaa);
    }
    if ok {
      ok := c.PokeUint8(0x03);
    }
    if ok {
      ok := c.PokeBytes(if v == Fdp then LLC_FOUNDRY else LLC_CISCO);
    }
    if ok {
      ok := c.PokeUint16(LLC_PID_CDP);
    }
  }

  method PokeHeader(c: Cursor, x: Sender, v: Version) returns (ok: bool)
    requires c.Valid()
    modifies c
    ensures c.Valid() && |c.bytes| == old(|c.bytes|) && ok == (4 <= old(c.length))
    ensures ok ==> c.Written() == old(c.Written()) + [if v == V2 then 2 else 1, x.ttl % 256] + BE16(0)
  {
    hide BE16, Write;
    ok := c.PokeUint8(if v == V2 then 2 else 1);
    if ok {
      ok := c.PokeUint8(x.ttl);
    }
    if ok {
      ok := c.PokeUint16(0);
    }
  }

  /** The headers, before the length and the checksum are known. */
  function Headers(x: Sender, v: Version): seq<byte>
  {
    Ethernet(x, v, 0) + Llc(v) + [if v == V2 then 2 else 1, x.ttl % 256] + BE16(0)
  }

  // ---------- All the TLVs ----------

  /** The i-th TLV of a list is added after the ones before it. */
  method PokeNext(c: Cursor, t: Tlv, ghost base: seq<byte>, ghost ts: seq<Tlv>, ghost all: seq<Tlv>) returns (ok: bool)
    requires c.Valid() && c.Written() == base + Wire(ts) && ts + [t] <= all
    modifies c
    ensures c.Valid() && |c.bytes| == old(|c.bytes|)
    ensures if ok then c.Written() == base + Wire(ts + [t]) else |base + Wire(all)| > |c.bytes|
  {
    hide Encode, Wire;
    WireOne(ts, t);
    ok := PokeTlv(c, t);
    WirePrefix(ts + [t], all);
    if ok {
      assert base + Wire(ts) + Encode(t) == base + (Wire(ts) + Encode(t));
    }
  }

  /** Chassis ID, addresses, port ID and capabilities. */
  method PokeFirst(c: Cursor, x: Sender, v: Version, ghost base: seq<byte>) returns (ok: bool)
    requires c.Valid() && c.Written() == base && FourBytes(IPv4s(x.mgmt))
    modifies c
    ensures c.Valid() && |c.bytes| == old(|c.bytes|)
    ensures if ok then c.Written() == base + Wire(FirstTlvs(x, v)) else |base + Wire(TlvsOf(x, v))| > |c.bytes|
  {
    hide Wire, Encode, CapsValue, AddressValue, IPv4s, BE16;
    ghost var all := TlvsOf(x, v);
    NoWire();
    assert base + [] == base;
    var name := Tlv(CHASSIS, Text(x.name));
    assert [] + [name] <= all;
    ok := PokeNext(c, name, base, [], all);
    if !ok {
      return;
    }
    ghost var ts := [] + [name];
    ok := PokeAddresses(c, x.mgmt);
    ghost var addrs := IPv4s(x.mgmt);
    if addrs != [] {
      ghost var a := Tlv(ADDRESSES, AddressValue(addrs));
      assert ts + [a] <= all;
      WireOne(ts, a);
      WirePrefix(ts + [a], all);
      if ok {
        assert base + Wire(ts) + Encode(a) == base + (Wire(ts) + Encode(a));
      }
      ts := ts + [a];
    }
    if !ok {
      return;
    }
    var port := Tlv(PORT, Text(x.portDescr));
    assert ts + [port] <= all;
    ok := PokeNext(c, port, base, ts, all);
    if !ok {
      return;
    }
    ts := ts + [port];
    var caps := Tlv(CAPABILITIES, CapsValue(x.caps, v));
    assert ts + [caps] <= all;
    ok := PokeNext(c, caps, base, ts, all);
    assert ts + [caps] == FirstTlvs(x, v);
  }

  function FirstTlvs(x: Sender, v: Version): seq<Tlv>
  {
    [Tlv(CHASSIS, Text(x.name))]
    + (if IPv4s(x.mgmt) != [] then [Tlv(ADDRESSES, AddressValue(IPv4s(x.mgmt)))] else [])
    + [Tlv(PORT, Text(x.portDescr)), Tlv(CAPABILITIES, CapsValue(x.caps, v))]
  }

  /** Native VLAN, software, platform and power. */
  method PokeLast(c: Cursor, x: Sender, v: Version, ghost base: seq<byte>) returns (ok: bool)
    requires c.Valid() && c.Written() == base + Wire(FirstTlvs(x, v))
    modifies c
    ensures c.Valid() && |c.bytes| == old(|c.bytes|)
    ensures if ok then c.Written() == base + Wire(TlvsOf(x, v)) else |base + Wire(TlvsOf(x, v))| > |c.bytes|
  {
    hide Wire, Encode, CapsValue, AddressValue, IPv4s, BE16;
    ghost var all := TlvsOf(x, v);
    ghost var ts := FirstTlvs(x, v);
    if v == V2 && x.pvid != 0 {
      var vlan := Tlv(NATIVEVLAN, BE16(x.pvid));
      assert ts + [vlan] <= all;
      ok := PokeNext(c, vlan, base, ts, all);
      if !ok {
        return;
      }
      ts := ts + [vlan];
    }
    var software := Tlv(SOFTWARE, Text(x.descr));
    assert ts + [software] <= all;
    ok := PokeNext(c, software, base, ts, all);
    if !ok {
      return;
    }
    ts := ts + [software];
    var platform := Tlv(PLATFORM, x.platform);
    assert ts + [platform] <= all;
    ok := PokeNext(c, platform, base, ts, all);
    if !ok {
      return;
    }
    ts := ts + [platform];
    if SendsPower(x, v) {
      var power := Tlv(POWER, BE16(x.power.value * 100));
      assert ts + [power] <= all;
      ok := PokeNext(c, power, base, ts, all);
      ts := ts + [power];
    }
    assert ts == all;
  }

  // ---------- The whole frame ----------

  function Destination(x: Sender, v: Version): seq<byte>
  {
    (if v == Fdp then FDP_ADDR else CDP_ADDR) + x.mac
  }

  function Middle(x: Sender, v: Version): seq<byte>
  {
    Llc(v) + [if v == V2 then 2 else 1, x.ttl % 256]
  }

  lemma {:induction false} DraftParts(x: Sender, v: Version)
    requires |x.mac| == 6
    ensures Headers(x, v) + Wire(TlvsOf(x, v)) ==
      Destination(x, v) + BE16(0) + Middle(x, v) + BE16(0) + Wire(TlvsOf(x, v))
    ensures |Destination(x, v)| == 12 && |Middle(x, v)| == 10
  {
    hide BE16, Wire, TlvsOf;
  }

  lemma {:induction false} FrameParts(x: Sender, v: Version, n: seq<byte>, sum: seq<byte>)
    requires |x.mac| == 6 && |n| == 2 && |sum| == 2
    ensures var w := Destination(x, v) + n + Middle(x, v) + sum + Wire(TlvsOf(x, v));
      && w == (if v == Fdp then FDP_ADDR else CDP_ADDR) + x.mac + n + Llc(v) + Body(x, v, sum)
      && |w| >= 26 && w[22..] == Body(x, v, sum)
  {
    hide BE16, Wire, TlvsOf;
    var w := Destination(x, v) + n + Middle(x, v) + sum + Wire(TlvsOf(x, v));
    var front := (if v == Fdp then FDP_ADDR else CDP_ADDR) + x.mac + n + Llc(v);
    assert |front| == 22;
    assert w == front + Body(x, v, sum);
  }

  /** What is left of the draft once the length and the checksum are in. */
  lemma {:induction false} PatchFrame(x: Sender, v: Version)
    requires |x.mac| == 6
    ensures var draft := Body(x, v, [0, 0]);
      var w := Headers(x, v) + Wire(TlvsOf(x, v));
      var w' := Write(w, 12, BE16(8 + |draft|));
      && |w| == 22 + |draft| >= 26 && w'[22..] == draft
      && Write(w', 24, LE(ChecksumOf(draft, v != Fdp), 2)) == FrameOf(x, v)
  {
    hide ChecksumOf, LE, Wire, TlvsOf, BE16, Headers, Llc, Body, Write, Destination, Middle;
    var draft := Body(x, v, [0, 0]);
    var n, sum := BE16(8 + |draft|), LE(ChecksumOf(draft, v != Fdp), 2);
    DraftParts(x, v);
    Zero16();
    FillGaps(Destination(x, v), n, Middle(x, v), sum, Wire(TlvsOf(x, v)));
    FrameParts(x, v, n, sum);
    FrameParts(x, v, n, [0, 0]);
  }

  /** The end of cdp_send(): the packet is complete but for its two gaps. */
  method Fill(c: Cursor, x: Sender, v: Version) returns (frame: seq<byte>)
    requires |x.mac| == 6 && c.Valid() && c.Written() == Headers(x, v) + Wire(TlvsOf(x, v))
    modifies c
    ensures frame == FrameOf(x, v)
  {
    hide Headers, Wire, TlvsOf, FrameOf, ChecksumOf, LE, BE16, Swap, Body, Write;
    PatchFrame(x, v);
    ghost var draft := Body(x, v, [0, 0]);
    var end := c.pos;
    c.Restore(12);
    WritePrefix(c.bytes, 12, BE16(end - 14), end);
    var ok := c.PokeUint16(end - 14);
    assert c.bytes[22..end] == c.bytes[..end][22..];
    var checksum := FrameChecksum(c.bytes[22..end], v != Fdp);
    assert checksum == ChecksumOf(draft, v != Fdp) by { ChecksumResult(draft, v != Fdp); }
    ChecksumBound(draft, v != Fdp);
    c.Restore(24);
    SwapTwice(checksum);
    WritePrefix(c.bytes, 24, BE16(Swap(checksum)), end);
    ok := c.PokeUint16(Swap(checksum));
    frame := c.bytes[..end];
  }

  /** cdp_send(): the frame, or None if it does not fit in the MTU. */
  method Send(x: Sender, v: Version, mtu: nat) returns (frame: Option<seq<byte>>)
    requires ValidSender(x)
    ensures frame == if |FrameOf(x, v)| <= mtu then Some(FrameOf(x, v)) else None
  {
    hide Headers, Wire, TlvsOf, FirstTlvs, FrameOf, LE, BE16;
    WireSize(x, v);
    HeadersLength(x, v);
    IPv4sFour(x.mgmt, 0);
    var c := new Cursor(Zeros(mtu));
    var ok := PokeHeaders(c, x, v);
    if !ok {
      return None;
    }
    ok := PokeFirst(c, x, v, Headers(x, v));
    if !ok {
      return None;
    }
    ok := PokeLast(c, x, v, Headers(x, v));
    if !ok {
      return None;
    }
    assert c.pos == |Headers(x, v) + Wire(TlvsOf(x, v))|;
    var packet := Fill(c, x, v);
    frame := Some(packet);
  }

  lemma {:induction false} HeadersLength(x: Sender, v: Version)
    requires |x.mac| == 6
    ensures |Headers(x, v)| == START
  {
  }
}
