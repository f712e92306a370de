/** edp_send() of src/daemon/edp.c: one frame per state, lengths and checksum filled
    in afterwards, a sequence number that counts frames. */
module EdpSend {
  import opened Bytes
  import opened Frame
  import opened Tlv
  import opened Checksum
  import opened Edp
  import opened EdpTheorems

  /** The static sequence number. */
  class Emitter {
    var number: nat
  }

  datatype Status = Sent | TooBig | NotMac

  method PokeTlv(c: Cursor, kind: nat, value: seq<byte>) returns (ok: bool)
    requires c.Valid() && kind < 256
    modifies c
    ensures c.Valid() && |c.bytes| == old(|c.bytes|) && ok == (4 + |value| <= old(c.length))
    ensures ok ==> c.Written() == old(c.Written()) + Encode(Make(kind, value))
  {
    hide BE16, Encode, Write;
    ghost var w := c.Written();
    var tlv;
    ok, tlv := c.StartMarkedTlv(MARKER, kind);
    if !ok {
      return;
    }
    ok := c.PokeBytes(value);
    if !ok {
      return;
    }
    PatchLength(w, Make(kind, value));
    WritePrefix(c.bytes, tlv, BE16(|value| + 4), c.pos);
    c.EndTlv(tlv);
  }

  /** The next TLV of a list, after the ones before it. */
  method PokeNext(c: Cursor, kind: nat, value: seq<byte>, ghost base: seq<byte>, ghost ts: seq<Tlv>,
      ghost all: seq<Tlv>)
    returns (ok: bool)
    requires c.Valid() && kind < 256 && c.Written() == base + Wire(ts) && ts + [Make(kind, value)] <= all
    modifies c
    ensures c.Valid() && |c.bytes| == old(|c.bytes|)
    ensures if ok then c.Written() == base + Wire(ts + [Make(kind, value)]) else |base + Wire(all)| > |c.bytes|
  {
    hide Encode, Wire;
    var t := Make(kind, value);
    WireOne(ts, t);
    ok := PokeTlv(c, kind, value);
    WirePrefix(ts + [t], all);
    if ok {
      assert base + Wire(ts) + Encode(t) == base + (Wire(ts) + Encode(t));
    }
  }

  // ---------- Headers ----------

  /** The headers before lengths and checksum are known. */
  function Headers(x: Sender, num: nat): seq<byte>
  {
    EDP_ADDR + x.mac + BE16(0) + Middle() + BE16(0) + BE16(0) + BE16(num) + BE16(0) + x.id
  }

  /** From the 802.3 length to the EDP length. */
  function Middle(): seq<byte>
  {
    [0xaa, 0xaa, 0x03] + LLC_EXTREME + BE16(LLC_PID_EDP) + [1, 0]
  }

  method PokeFront(c: Cursor, x: Sender) returns (ok: bool)
    requires c.Valid() && c.pos == 0 && |x.mac| == 6
    modifies c
    ensures c.Valid() && |c.bytes| == old(|c.bytes|) && ok == (START_EDP <= old(c.length))
    ensures ok ==> c.Written() == EDP_ADDR + x.mac + BE16(0) + ([0xaa, 0xaa, 0x03] + LLC_EXTREME + BE16(LLC_PID_EDP))
  {
    hide BE16, Write;
    ok := c.PokeBytes(EDP_ADDR);
    if ok {
      ok := c.PokeBytes(x.mac);
    }
    if ok {
      ok := c.PokeUint16(0);
    }
    if ok {
      ok := PokeLlc(c);
    }
  }

  method PokeLlc(c: Cursor) returns (ok: bool)
    requires c.Valid()
    modifies c
    ensures c.Valid() && |c.bytes| == old(|c.bytes|) && ok == (8 <= old(c.length))
    ensures ok ==> c.Written() == old(c.Written()) + ([0xaa, 0xaa, 0x03] + LLC_EXTREME + BE16(LLC_PID_EDP))
  {
    hide BE16, Write;
    ok := c.PokeUint8(0xaa);
    if ok {
      ok := c.PokeUint8(0xaa);
    }
    if ok {
      ok := c.PokeUint8(0x03);
    }
    if ok {
      ok := c.PokeBytes(LLC_EXTREME);
    }
    if ok {
      ok := c.PokeUint16(LLC_PID_EDP);
    }
  }

  method PokeHeader(c: Cursor, x: Sender, num: nat) returns (ok: bool)
    requires c.Valid() && |x.id| == 6
    modifies c
    ensures c.Valid() && |c.bytes| == old(|c.bytes|) && ok == (16 <= old(c.length))
    ensures ok ==> c.Written() == old(c.Written()) + ([1, 0] + BE32(0) + BE16(num) + BE16(0) + x.id)
  {
    hide BE16, BE32, Write;
    ok := c.PokeUint8(1);
    if ok {
      ok := c.PokeUint8(0);
    }
    if ok {
      ok := c.PokeUint32(0);
    }
    if ok {
      ok := c.PokeUint16(num);
    }
    if ok {
      ok := c.PokeUint16(0);
    }
    if ok {
      ok := c.PokeBytes(x.id);
    }
  }

  lemma {:induction false} HeadersAre(x: Sender, num: nat)
    requires |x.mac| == 6 && |x.id| == 6
    ensures EDP_ADDR + x.mac + BE16(0) + ([0xaa, 0xaa, 0x03] + LLC_EXTREME + BE16(LLC_PID_EDP)) +
      ([1, 0] + BE32(0) + BE16(num) + BE16(0) + x.id)
            == Headers(x, num)
    ensures |Headers(x, num)| == START
  {
    assert BE32(0) == BE16(0) + BE16(0);
    hide BE16, BE32;
  }

  // ---------- TLVs ----------

  /** State 0: display and info. */
  method PokeDisplay(c: Cursor, x: Sender, ghost base: seq<byte>) returns (ok: bool)
    requires c.Valid() && c.Written() == base
    modifies c
    ensures c.Valid() && |c.bytes| == old(|c.bytes|)
    ensures if ok then c.Written() == base + Wire(TlvsOf(x, 0)) else |base + Wire(TlvsOf(x, 0))| > |c.bytes|
  {
    hide Wire, Encode, InfoValue;
    ghost var all := TlvsOf(x, 0);
    NoWire();
    assert base + [] == base;
    assert all == [Make(DISPLAY, x.name + [0]), Make(INFO, InfoValue(x.slot, x.port)), Make(NULL, [])];
    ok := PokeNext(c, DISPLAY, x.name + [0], base, [], all);
    if !ok {
      return;
    }
    ok := PokeNext(c, INFO, InfoValue(x.slot, x.port), base, [] + [all[0]], all);
    if !ok {
      return;
    }
    ok := PokeNext(c, NULL, [], base, [] + [all[0]] + [all[1]], all);
    assert [] + [all[0]] + [all[1]] + [all[2]] == all;
  }

  /** State 1: one TLV per VLAN; `n` tells how many there were. */
  method PokeVlans(c: Cursor, x: Sender, ghost base: seq<byte>) returns (ok: bool, n: nat)
    requires c.Valid() && c.Written() == base
    modifies c
    ensures c.Valid() && |c.bytes| == old(|c.bytes|) && (ok ==> n == |x.vlans|) && (x.vlans == [] ==> ok)
    ensures if ok then c.Written() == base + Wire(VlanTlvs(x.vlans)) else |base + Wire(TlvsOf(x, 1))| > |c.bytes|
  {
    hide Wire, Encode, VlanValue, VlanTlvs;
    ghost var all := TlvsOf(x, 1);
    ghost var vs := VlanTlvs(x.vlans);
    NoWire();
    assert base + [] == base && vs[..0] == [];
    ok := true;
    n := 0;
    while n < |x.vlans|
      invariant c.Valid() && |c.bytes| == old(|c.bytes|) && n <= |x.vlans| && ok
      invariant c.Written() == base + Wire(vs[..n])
    {
      VlanTlvAt(x.vlans, 0, n);
      assert vs[..n] + [Make(VLAN, VlanValue(x.vlans[n]))] == vs[..n + 1] <= all;
      ok := PokeNext(c, VLAN, VlanValue(x.vlans[n]), base, vs[..n], all);
      if !ok {
        return;
      }
      n := n + 1;
    }
    assert vs[..n] == vs;
  }

  // ---------- One frame ----------

  lemma {:induction false} FrameFromDraft(x: Sender, state: nat, num: nat)
    requires |x.mac| == 6 && |x.id| == 6
    ensures var tlvs := Wire(TlvsOf(x, state));
      var len := 16 + |tlvs|;
      var draft := Packet(x, state, num, len, [0, 0]);
      var w := Headers(x, num) + tlvs;
      var w1 := Write(w, 12, BE16(8 + len));
      var w2 := Write(w1, 24, BE16(len));
      && |w| == START_EDP + len && w2[START_EDP..] == draft
      && Write(w2, 26, LE(ChecksumOf(draft, false), 2)) == FrameOf(x, state, num)
  {
    hide BE16, LE, ChecksumOf, Wire, TlvsOf, Write, Packet, Headers, Middle, Front;
    var tlvs := Wire(TlvsOf(x, state));
    var len := 16 + |tlvs|;
    Zero16();
    var a := EDP_ADDR + x.mac;
    var tail := BE16(0) + BE16(num) + BE16(0) + x.id + tlvs;
    DraftParts(x, num, tlvs);
    FillGaps(a, BE16(8 + len), Middle(), BE16(len), tail);
    FrontAndPacket(x, state, num, len, [0, 0]);
    var sum := LE(ChecksumOf(Packet(x, state, num, len, [0, 0]), false), 2);
    FrontAndPacket(x, state, num, len, sum);
    FillSum(a + BE16(8 + len) + Middle() + BE16(len), sum, BE16(num) + BE16(0) + x.id + tlvs);
  }

  lemma {:induction false} DraftParts(x: Sender, num: nat, tlvs: seq<byte>)
    requires |x.mac| == 6 && |x.id| == 6
    ensures Headers(x, num) + tlvs == EDP_ADDR + x.mac + BE16(0) + Middle() + BE16(0) +
      (BE16(0) + BE16(num) + BE16(0) + x.id + tlvs)
    ensures |EDP_ADDR + x.mac| == 12 && |Middle()| == 10 && |Headers(x, num)| == START
  {
    hide BE16;
  }

  lemma {:induction false} FillSum(a: seq<byte>, sum: seq<byte>, t: seq<byte>)
    requires |sum| == 2 && |a| == 26
    ensures a + (BE16(0) + t) == a + BE16(0) + t
    ensures Write(a + BE16(0) + t, 26, sum) == a + sum + t
  {
    hide BE16;
  }

  lemma {:induction false} FrontAndPacket(x: Sender, state: nat, num: nat, len: nat, sum: seq<byte>)
    requires |x.mac| == 6 && |x.id| == 6 && |sum| == 2
    ensures var w := EDP_ADDR + x.mac + BE16(8 + len) + Middle() + BE16(len) + sum +
      (BE16(num) + BE16(0) + x.id + Wire(TlvsOf(x, state)));
      && w == Front(x, 8 + len) + Packet(x, state, num, len, sum)
      && |w| >= START_EDP && w[START_EDP..] == Packet(x, state, num, len, sum)
    ensures EDP_ADDR + x.mac + BE16(8 + len) + Middle() + BE16(len) +
      (sum + BE16(num) + BE16(0) + x.id + Wire(TlvsOf(x, state)))
            == EDP_ADDR + x.mac + BE16(8 + len) + Middle() + BE16(len) + sum +
              (BE16(num) + BE16(0) + x.id + Wire(TlvsOf(x, state)))
  {
    hide BE16, Wire, TlvsOf;
    var w := EDP_ADDR + x.mac + BE16(8 + len) + Middle() + BE16(len) + sum +
      (BE16(num) + BE16(0) + x.id + Wire(TlvsOf(x, state)));
    assert |Front(x, 8 + len)| == START_EDP;
    assert w == Front(x, 8 + len) + Packet(x, state, num, len, sum);
  }

  method Fill(c: Cursor, x: Sender, ghost state: nat, ghost num: nat) returns (frame: seq<byte>)
    requires |x.mac| == 6 && |x.id| == 6 && c.Valid() && c.Written() == Headers(x, num) + Wire(TlvsOf(x, state))
    modifies c
    ensures frame == FrameOf(x, state, num)
  {
    hide Headers, Wire, TlvsOf, FrameOf, ChecksumOf, LE, BE16, Swap, Packet, Write;
    FrameFromDraft(x, state, num);
    ghost var draft := Packet(x, state, num, 16 + |Wire(TlvsOf(x, state))|, [0, 0]);
    var end := c.pos;
    c.Restore(12);
    WritePrefix(c.bytes, 12, BE16(end - 14), end);
    var ok := c.PokeUint16(end - 14);
    c.Restore(24);
    WritePrefix(c.bytes, 24, BE16(end - START_EDP), end);
    ok := c.PokeUint16(end - START_EDP);
    assert c.bytes[START_EDP..end] == c.bytes[..end][START_EDP..];
    var checksum := FrameChecksum(c.bytes[START_EDP..end], false);
    ChecksumResult(draft, false);
    ChecksumBound(draft, false);
    SwapTwice(checksum);
    WritePrefix(c.bytes, 26, BE16(Swap(checksum)), end);
    ok := c.PokeUint16(Swap(checksum));
    frame := c.bytes[..end];
  }

  /** What the loop does in one state: the frame, or none when there is nothing to
      send, and the status when it stops there. */
  method SendState(e: Emitter, x: Sender, state: nat, mtu: nat) returns (frame: Option<seq<byte>>, status: Status)
    requires |x.mac| == 6 && state < 2
    modifies e
    ensures |x.id| == 6 ==>
      var num := old(e.number);
      var nothing := state == 1 && x.vlans == [];
      && e.number == num + (if START <= mtu then 1 else 0)
      && frame == (if !nothing && |FrameOf(x, state, num)| <= mtu then Some(FrameOf(x, state, num)) else None)
      && status == if START <= mtu && (nothing || |FrameOf(x, state, num)| <= mtu) then Sent else TooBig
    ensures |x.id| != 6 ==> frame == None && e.number == old(e.number)
    ensures |x.id| != 6 ==> status == if START_EDP <= mtu then NotMac else TooBig
  {
    hide Headers, Wire, TlvsOf, FrameOf, VlanTlvs, BE16, BE32;
    ghost var num := e.number;
    var c := new Cursor(Zeros(mtu));
    frame := None;
    var ok := PokeFront(c, x);
    if !ok {
      status := TooBig;
      if |x.id| == 6 {
        FrameSize(x, state, num);
      }
      return;
    }
    if |x.id| != 6 {
      status := NotMac;
      return;
    }
    FrameSize(x, state, num);
    HeadersAre(x, num);
    ok := PokeHeader(c, x, e.number);
    if !ok {
      status := TooBig;
      return;
    }
    e.number := e.number + 1;
    ghost var base := Headers(x, num);
    if state == 0 {
      ok := PokeDisplay(c, x, base);
    } else {
      var n;
      ok, n := PokeVlans(c, x, base);
      if ok && n == 0 {
        status := Sent;
        return;
      }
      if ok {
        VlanFrameTlvs(x);
        ok := PokeNext(c, NULL, [], base, VlanTlvs(x.vlans), TlvsOf(x, 1));
      }
    }
    if !ok {
      status := TooBig;
      return;
    }
    assert c.pos == |base + Wire(TlvsOf(x, state))|;
    var packet := Fill(c, x, state, num);
    frame := Some(packet);
    status := Sent;
  }

  lemma {:induction false} VlanFrameTlvs(x: Sender)
    ensures TlvsOf(x, 1) == VlanTlvs(x.vlans) + [Make(NULL, [])]
  {
  }

  /** The frames a port sends: the display frame, then the VLAN frame if there are
      VLANs, as far as they fit. */
  function FramesOf(x: Sender, num: nat, mtu: nat): seq<seq<byte>>
  {
    if |FrameOf(x, 0, num)| > mtu then []
    else [FrameOf(x, 0, num)] + if x.vlans != [] && |FrameOf(x, 1, num + 1)| <= mtu then [FrameOf(x, 1, num + 1)]
      else []
  }

  /** edp_send(). */
  method Send(e: Emitter, x: Sender, mtu: nat) returns (frames: seq<seq<byte>>, status: Status)
    requires |x.mac| == 6
    modifies e
    ensures |x.id| == 6 ==> frames == FramesOf(x, old(e.number), mtu)
    ensures |x.id| == 6 ==>
      var num := old(e.number);
      (status == Sent <==> |FrameOf(x, 0, num)| <= mtu && (x.vlans == [] || |FrameOf(x, 1, num + 1)| <= mtu))
    ensures |x.id| == 6 && status != Sent ==> status == TooBig
    ensures |x.id| == 6 ==>
      e.number == old(e.number) + if mtu < START then 0 else if |FrameOf(x, 0, old(e.number))| > mtu then 1 else 2
    ensures |x.id| != 6 ==> frames == [] && e.number == old(e.number)
    ensures |x.id| != 6 ==> status == if START_EDP <= mtu then NotMac else TooBig
  {
    hide FrameOf;
    ghost var num := e.number;
    frames := [];
    status := Sent;
    var state := 0;
    while state != 2
      invariant state <= 2 && e.number == num + state && status == Sent
      invariant state > 0 ==> |x.id| == 6 && START <= |FrameOf(x, 0, num)| <= mtu
      invariant state == 0 ==> frames == []
      invariant state == 1 ==> frames == [FrameOf(x, 0, num)]
      invariant state == 2 ==> frames == FramesOf(x, num, mtu) && (x.vlans == [] || |FrameOf(x, 1, num + 1)| <= mtu)
      decreases 2 - state
    {
      var frame;
      if |x.id| == 6 {
        FrameSize(x, 0, num);
      }
      if state == 1 && x.vlans == [] {
        NoVlanFits(x, num, mtu);
      }
      frame, status := SendState(e, x, state, mtu);
      if status != Sent {
        return;
      }
      if frame.Some? {
        frames := frames + [frame.value];
      }
      state := state + 1;
    }
  }

  lemma {:induction false} NoVlanFits(x: Sender, num: nat, mtu: nat)
    requires |x.mac| == 6 && |x.id| == 6 && x.vlans == [] && |FrameOf(x, 0, num)| <= mtu
    ensures |FrameOf(x, 1, num + 1)| <= mtu
  {
    hide FrameOf;
    FrameSize(x, 0, num);
    FrameSize(x, 1, num + 1);
    OnlyNull(x);
  }

  lemma {:induction false} OnlyNull(x: Sender)
    requires x.vlans == []
    ensures |Wire(TlvsOf(x, 1))| <= |Wire(TlvsOf(x, 0))|
  {
    var ts := TlvsOf(x, 1);
    assert ts == [Make(NULL, [])];
    assert Wire(ts, 1) == [];
    WireLonger(TlvsOf(x, 0), 0, 0);
  }
}
