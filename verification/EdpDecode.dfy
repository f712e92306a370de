/** edp_decode() of src/daemon/edp.c: the cursor over the frame, and the lists that
    move to the neighbours already known. */
module EdpDecode {
  import opened Bytes
  import opened Frame
  import opened Tlv
  import opened Checksum
  import opened Edp
  import opened EdpTheorems
  import opened EdpNeighbors

  /** The neighbours known on an interface, and the chassis they share. */
  class Hardware {
    var ports: seq<Known>
    var chassis: seq<Chassis>

    function State(): Neighbors
      reads this
    {
      Neighbors(ports, chassis)
    }
  }

  /** An incoming frame: its VLANs and its addresses, until they are moved. */
  class Incoming {
    var vlans: seq<Vlan>
    var mgmt: seq<seq<byte>>

    constructor (v: seq<Vlan>, m: seq<seq<byte>>)
      ensures vlans == v && mgmt == m
    {
      vlans, mgmt := v, m;
    }
  }

  // ---------- Parsing ----------

  method DecodeInfo(c: Cursor, tlv: nat, len: nat) returns (info: Info)
    requires c.Valid() && c.pos == tlv && len >= 32 && tlv + len <= |c.bytes|
    modifies c
    ensures c.Valid() && c.bytes == old(c.bytes) && tlv <= c.pos <= tlv + len
    ensures var s := c.bytes[tlv..tlv + len];
      info == Info(UnBE16(s, 0), UnBE16(s, 2), s[12..16])
  {
    hide UnBE16;
    SameUint16(c.bytes, tlv, len, 0);
    SameUint16(c.bytes, tlv, len, 2);
    var slot := c.PeekUint16();
    var port := c.PeekUint16();
    c.Discard(2);
    c.Discard(6);
    var version := c.PeekBytes(4);
    assert version == c.bytes[tlv..tlv + len][12..16];
    info := Info(slot, port, version);
  }

  method DecodeVlan(c: Cursor, tlv: nat, len: nat) returns (vlan: Vlan, address: seq<byte>)
    requires c.Valid() && c.pos == tlv && len >= 12 && tlv + len <= |c.bytes|
    modifies c
    ensures c.Valid() && c.bytes == old(c.bytes) && tlv <= c.pos <= tlv + len
    ensures var s := c.bytes[tlv..tlv + len];
      vlan == Vlan(UnBE16(s, 2), CString(s[12..])) && address == s[8..12]
  {
    hide UnBE16, CString;
    ghost var s := c.bytes[tlv..tlv + len];
    SameUint16(c.bytes, tlv, len, 2);
    c.Discard(2);
    var vid := c.PeekUint16();
    c.Discard(4);
    address := c.PeekBytes(4);
    assert address == s[8..12];
    var name := c.PeekBytes(len - 12);
    assert name == s[12..];
    vlan := Vlan(vid, CString(name));
  }

  method DecodeTlv(c: Cursor, kind: nat, tlv: nat, len: nat, st: Parsed) returns (r: Option<Parsed>)
    requires c.Valid() && c.pos == tlv && tlv + len <= |c.bytes|
    modifies c
    ensures c.Valid() && c.bytes == old(c.bytes) && tlv <= c.pos <= tlv + len
    ensures r == Apply(kind, c.bytes[tlv..tlv + len], st)
  {
    hide UnBE16, CString;
    if kind == INFO {
      if len < 32 {
        return None;
      }
      var info := DecodeInfo(c, tlv, len);
      r := Some(st.(info := Some(info)));
    } else if kind == DISPLAY {
      var name := c.PeekBytes(len);
      r := Some(st.(name := Some(CString(name))));
    } else if kind == NULL {
      r := if len != 0 then None else Some(st.(gotEnd := true));
    } else if kind == VLAN {
      if len < 12 {
        return None;
      }
      var vlan, address := DecodeVlan(c, tlv, len);
      var mgmt := st.mgmt;
      if address != Zeros(4) {
        mgmt := mgmt + [address];
      } else {
        assert mgmt == mgmt + [];
      }
      r := Some(st.(vlans := st.vlans + [vlan], mgmt := mgmt, gotVlans := true));
    } else {
      r := Some(st.(unknown := st.unknown + 1));
    }
  }

  /** The loop: `pos + length` stays at the end of the frame, each turn consumes
      exactly the TLV it declares, and the loop ends. */
  method DecodeTlvs(c: Cursor) returns (r: Option<Parsed>)
    requires c.Valid()
    modifies c
    ensures c.Valid() && c.bytes == old(c.bytes)
    ensures r == ParseTlvs(c.bytes, old(c.pos), NOTHING)
  {
    hide Apply, UnBE16;
    var st := NOTHING;
    while c.length != 0 && !st.gotEnd
      invariant c.Valid() && c.bytes == old(c.bytes)
      invariant ParseTlvs(c.bytes, c.pos, st) == ParseTlvs(c.bytes, old(c.pos), NOTHING)
      decreases c.length
    {
      ghost var p := c.pos;
      if c.length < 4 {
        return None;
      }
      var marker := c.PeekUint8();
      if marker != MARKER {
        return None;
      }
      var kind := c.PeekUint8();
      var len: int := c.PeekUint16();
      len := len - 4;
      var tlv := c.pos;
      if len < 0 || len > c.length {
        st := st.(gotEnd := true);
        break;
      }
      var st' := DecodeTlv(c, kind, tlv, len, st);
      if st'.None? {
        return None;
      }
      st := st'.value;
      c.Discard(tlv + len - c.pos);
      assert c.pos == p + 4 + len;
    }
    r := Some(st);
  }

  method Parse(frame: seq<byte>) returns (r: Outcome)
    ensures r == Decode(frame)
  {
    hide ParseTlvs, ChecksumOf;
    var c := new Cursor(frame);
    if c.length < START {
      return Malformed;
    }
    var dest := c.PeekBytes(6);
    if dest != EDP_ADDR {
      return Malformed;
    }
    c.Discard(6);
    c.Discard(2);
    c.Discard(6);
    var proto := c.PeekUint16();
    if proto != LLC_PID_EDP {
      return Malformed;
    }
    r := ParsePacket(c);
  }

  method ParsePacket(c: Cursor) returns (r: Outcome)
    requires c.Valid() && c.pos == START_EDP && |c.bytes| >= START
    requires c.bytes[..6] == EDP_ADDR && UnBE16(c.bytes, 20) == LLC_PID_EDP
    modifies c
    ensures r == Decode(old(c.bytes))
  {
    hide ParseTlvs, ChecksumOf, UnBE16;
    var frame := c.bytes;
    var version := c.PeekUint8();
    if version != 1 {
      return Malformed;
    }
    c.Discard(1);
    var len := c.PeekUint16();
    c.Discard(2);
    c.Discard(2);
    var idType := c.PeekUint16();
    if idType != 0 {
      return Malformed;
    }
    if len > c.length + 10 {
      return Malformed;
    }
    var id := c.PeekBytes(6);
    ChecksumResult(frame[START_EDP..START_EDP + len], false);
    var sum := FrameChecksum(frame[START_EDP..START_EDP + len], false);
    if sum != 0 {
      return Malformed;
    }
    var st := DecodeTlvs(c);
    if st.None? {
      return Malformed;
    }
    r := Conclude(id, st.value);
  }

  // ---------- The neighbours already known ----------

  /** All VLANs of the frame move, one by one, to neighbour i. */
  method MoveVlans(h: Hardware, i: nat, frame: Incoming)
    requires i < |h.ports|
    modifies h, frame
    ensures h.ports == old(h.ports)[i := old(h.ports[i]).(vlans := old(frame.vlans))] && h.chassis == old(h.chassis)
    ensures frame.vlans == [] && frame.mgmt == old(frame.mgmt)
  {
    ghost var all := frame.vlans;
    h.ports := h.ports[i := h.ports[i].(vlans := [])];
    while frame.vlans != []
      invariant |h.ports| == old(|h.ports|) && h.ports[i].vlans + frame.vlans == all
      invariant h.ports == old(h.ports)[i := old(h.ports[i]).(vlans := h.ports[i].vlans)]
      invariant h.chassis == old(h.chassis) && frame.mgmt == old(frame.mgmt)
      decreases |frame.vlans|
    {
      var v := frame.vlans[0];
      frame.vlans := frame.vlans[1..];
      h.ports := h.ports[i := h.ports[i].(vlans := h.ports[i].vlans + [v])];
    }
    assert h.ports[i].vlans + [] == h.ports[i].vlans;
  }

  /** The addresses move to chassis c, unless the same one comes later in the frame. */
  method MoveAddresses(h: Hardware, c: nat, frame: Incoming)
    requires c < |h.chassis|
    modifies h, frame
    ensures h.chassis == old(h.chassis)[c :=
      old(h.chassis[c]).(mgmt := old(h.chassis[c].mgmt) + LastOnes(old(frame.mgmt)))]
    ensures h.ports == old(h.ports) && frame.mgmt == [] && frame.vlans == old(frame.vlans)
  {
    ghost var all, i := frame.mgmt, 0;
    ghost var mgmt := h.chassis[c].mgmt;
    while frame.mgmt != []
      invariant i <= |all| && frame.mgmt == all[i..] && frame.vlans == old(frame.vlans)
      invariant |h.chassis| == old(|h.chassis|) && h.ports == old(h.ports)
      invariant h.chassis == old(h.chassis)[c := old(h.chassis[c]).(mgmt := h.chassis[c].mgmt)]
      invariant h.chassis[c].mgmt + LastOnes(all, i) == mgmt + LastOnes(all)
      decreases |frame.mgmt|
    {
      var m := frame.mgmt[0];
      frame.mgmt := frame.mgmt[1..];
      var found := Search(frame.mgmt, m);
      if !found {
        ghost var before := h.chassis[c].mgmt;
        assert before + ([m] + LastOnes(all, i + 1)) == before + [m] + LastOnes(all, i + 1);
        h.chassis := h.chassis[c := h.chassis[c].(mgmt := h.chassis[c].mgmt + [m])];
      }
      i := i + 1;
    }
    assert h.chassis[c].mgmt + LastOnes(all, i) == h.chassis[c].mgmt;
  }

  method Search(s: seq<seq<byte>>, m: seq<byte>) returns (found: bool)
    ensures found == (m in s)
  {
    var i := 0;
    while i < |s| && s[i] != m
      invariant i <= |s| && m !in s[..i]
    {
      i := i + 1;
    }
    assert i == |s| ==> s[..i] == s;
    found := i < |s|;
  }

  /** The walk over the neighbours of the interface. */
  method AttachTo(h: Hardware, frame: Incoming, id: seq<byte>)
    modifies h, frame
    ensures h.State() == Attach(old(h.State()), 0, id, old(frame.vlans), old(frame.mgmt))
  {
    hide LastOnes, Matches;
    ghost var result := Attach(h.State(), 0, id, frame.vlans, frame.mgmt);
    var i := 0;
    while i < |h.ports|
      invariant Attach(h.State(), i, id, frame.vlans, frame.mgmt) == result
      decreases |h.ports| - i
    {
      if Matches(h.State(), i, id) {
        MatchesChassis(h.State(), i, id);
        ghost var n := h.State();
        ghost var given := Give(n, i, frame.vlans, frame.mgmt);
        MoveVlans(h, i, frame);
        MoveAddresses(h, h.ports[i].chassis, frame);
        assert h.State() == given;
      }
      i := i + 1;
    }
  }

  /** edp_decode(): the outcome, and what is known afterwards. */
  method Receive(h: Hardware, frame: seq<byte>) returns (r: Outcome)
    modifies h
    ensures r == Decode(frame) && h.State() == After(old(h.State()), frame)
  {
    hide Decode, Attach;
    r := Parse(frame);
    if r.MoreVlans? {
      var incoming := new Incoming(r.vlans, r.mgmt);
      AttachTo(h, incoming, r.id);
    }
  }
}
