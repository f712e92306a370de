/** cdp_decode() of src/daemon/cdp.c: a cursor over the frame that no TLV, however
    malformed, takes out of it. */
module CdpDecode {
  import opened Bytes
  import opened Frame
  import opened Tlv
  import opened Cdp

  /** The address list in the TLV whose value is at `tlv`. */
  method DecodeAddresses(c: Cursor, tlv: nat, len: nat, mgmt: seq<seq<byte>>) returns (r: Option<seq<seq<byte>>>)
    requires c.Valid() && c.pos == tlv && len >= 4 && tlv + len <= |c.bytes|
    modifies c
    ensures c.Valid() && c.bytes == old(c.bytes) && tlv <= c.pos <= tlv + len
    ensures var s := c.bytes[tlv..tlv + len];
      r == ParseAddresses(s, 4, Iterations(UnBE32(s, 0)), mgmt)
  {
    ghost var s := c.bytes[tlv..tlv + len];
    var n := c.PeekUint32();
    assert n == UnBE32(s, 0);
    var left := len - 4;
    var nb := Iterations(n);
    var acc := mgmt;
    while nb > 0
      invariant c.Valid() && c.bytes == old(c.bytes) && tlv + 4 <= c.pos && c.pos + left == tlv + len && left >= 0
      invariant ParseAddresses(s, c.pos - tlv, nb, acc) == ParseAddresses(s, 4, Iterations(UnBE32(s, 0)), mgmt)
      decreases nb
    {
      var e := DecodeAddress(c, tlv, len, left);
      if e.None? {
        return None;
      }
      if e.value.ip.Some? {
        acc := acc + [e.value.ip.value];
      }
      left := tlv + len - c.pos;
      nb := nb - 1;
    }
    r := Some(acc);
  }

  /** One address: its extent is found first, then the cursor goes back to look for
      an IPv4 address, then on to the next one. */
  method DecodeAddress(c: Cursor, tlv: nat, ghost len: nat, room: nat) returns (e: Option<Entry>)
    requires c.Valid() && tlv <= c.pos && c.pos + room == tlv + len && tlv + len <= |c.bytes|
    modifies c
    ensures c.Valid() && c.bytes == old(c.bytes) && old(c.pos) <= c.pos <= tlv + len
    ensures e.Some? ==> c.pos == tlv + e.value.next
    ensures e == OneAddress(c.bytes[tlv..tlv + len], old(c.pos) - tlv)
  {
    hide UnBE16;
    ghost var s := c.bytes[tlv..tlv + len];
    ghost var q := c.pos - tlv;
    var start := c.pos;
    var left := room;
    if left < 2 {
      return None;
    }
    c.Discard(1);
    left := left - 1;
    var plen := c.PeekUint8();
    assert plen == s[q + 1];
    left := left - 1;
    if left < plen + 2 {
      return None;
    }
    c.Discard(plen);
    left := left - plen;
    SameUint16(c.bytes, tlv, len, q + 2 + plen);
    var alen := c.PeekUint16();
    left := left - 2;
    if left < alen {
      return None;
    }
    c.Discard(alen);
    var next := c.pos;
    c.Restore(start);
    var ip := LookForIPv4(c, tlv, len, plen, alen);
    c.Restore(next);
    e := Some(Entry(next - tlv, ip));
  }

  method LookForIPv4(c: Cursor, ghost tlv: nat, ghost len: nat, ghost plen: nat, ghost alen: nat)
    returns (ip: Option<seq<byte>>)
    requires c.Valid() && tlv <= c.pos && c.pos + 4 + plen + alen <= tlv + len <= |c.bytes|
    requires c.bytes[c.pos + 1] == plen && UnBE16(c.bytes, c.pos + 2 + plen) == alen
    modifies c
    ensures c.Valid() && c.bytes == old(c.bytes)
    ensures var s, q := c.bytes[tlv..tlv + len], old(c.pos) - tlv;
      ip == if s[q] == 1 && plen == 1 && s[q + 2] == PROTO_IP && alen == 4 then Some(s[q + 5..q + 9]) else None
  {
    hide UnBE16;
    ghost var s, q := c.bytes[tlv..tlv + len], c.pos - tlv;
    var b := c.PeekUint8();
    if b == 1 {
      b := c.PeekUint8();
      if b == 1 {
        b := c.PeekUint8();
        if b == PROTO_IP {
          var n := c.PeekUint16();
          if n == 4 {
            var addr := c.PeekBytes(4);
            assert c.pos == tlv + q + 9;
            assert addr == c.bytes[tlv + q + 5..tlv + q + 9] == s[q + 5..q + 9];
            return Some(addr);
          }
        }
      }
    }
    ip := None;
  }

  /** The body of the loop: one TLV, whose value is at `tlv`. */
  method DecodeTlv(c: Cursor, kind: nat, tlv: nat, len: nat, fdp: bool, zero: bool, st: Parsed)
    returns (r: Option<Parsed>)
    requires c.Valid() && c.pos == tlv && tlv + len <= |c.bytes|
    modifies c
    ensures c.Valid() && c.bytes == old(c.bytes) && tlv <= c.pos <= tlv + len
    ensures r == Apply(Tlv(kind, c.bytes[tlv..tlv + len]), fdp, zero, st)
  {
    hide ParseAddresses, FdpCaps, CdpCaps, UnBE32;
    ghost var s := c.bytes[tlv..tlv + len];
    if kind == CHASSIS {
      var name := c.PeekBytes(len);
      r := if len == 0 && !zero then None else Some(st.(name := Some(name)));
    } else if kind == ADDRESSES {
      if len < 4 {
        return None;
      }
      var mgmt := DecodeAddresses(c, tlv, len, st.mgmt);
      r := if mgmt.None? then None else Some(st.(mgmt := mgmt.value));
    } else if kind == PORT {
      if len == 0 {
        return None;
      }
      var descr := c.PeekBytes(len);
      r := Some(st.(portDescr := Some(descr)));
    } else if kind == CAPABILITIES {
      if fdp {
        return Some(st.(caps := FdpCaps(c.bytes[tlv..tlv + len])));
      }
      if len < 4 {
        return None;
      }
      SameUint32(c.bytes, tlv, len);
      var bits := c.PeekUint32();
      r := Some(st.(caps := CdpCaps(bits, st.caps)));
    } else if kind == SOFTWARE {
      r := Some(st.(software := Some(c.bytes[tlv..tlv + len])));
    } else if kind == PLATFORM {
      r := Some(st.(platform := Some(c.bytes[tlv..tlv + len])));
    } else if kind == NATIVEVLAN {
      if len < 2 {
        return None;
      }
      var vid := c.PeekUint16();
      assert vid == UnBE16(s, 0);
      r := Some(st.(pvid := vid, vlans := st.vlans + [vid]));
    } else {
      r := Some(st.(unknown := st.unknown + 1));
    }
  }

  lemma {:induction false} SameUint32(s: seq<byte>, at: nat, n: nat)
    requires n >= 4 && at + n <= |s|
    ensures UnBE32(s, at) == UnBE32(s[at..at + n], 0)
  {
  }

  /** The loop: `pos + length` stays at the end of the frame, each turn consumes
      exactly the TLV it declares, and the loop ends. */
  method DecodeTlvs(c: Cursor, fdp: bool, zero: bool) returns (r: Option<Parsed>)
    requires c.Valid()
    modifies c
    ensures c.Valid() && c.bytes == old(c.bytes)
    ensures r == ParseTlvs(c.bytes, old(c.pos), fdp, zero, NOTHING)
  {
    hide Apply, UnBE16;
    var st := NOTHING;
    while c.length != 0
      invariant c.Valid() && c.bytes == old(c.bytes)
      invariant ParseTlvs(c.bytes, c.pos, fdp, zero, st) == ParseTlvs(c.bytes, old(c.pos), fdp, zero, NOTHING)
      decreases c.length
    {
      ghost var p := c.pos;
      if c.length < 4 {
        return None;
      }
      var kind := c.PeekUint16();
      var len: int := c.PeekUint16();
      len := len - 4;
      var tlv := c.pos;
      if len < 0 || c.length < len {
        return None;
      }
      var st' := DecodeTlv(c, kind, tlv, len, fdp, zero, st);
      if st'.None? {
        return None;
      }
      st := st'.value;
      c.Discard(tlv + len - c.pos);
      assert c.pos == p + 4 + len;
    }
    r := Some(st);
  }

  /** cdp_decode(). */
  method Receive(frame: seq<byte>, zero: bool) returns (r: Option<Neighbor>)
    ensures r == Decode(frame, zero)
  {
    hide ParseTlvs;
    var c := new Cursor(frame);
    if c.length < START {
      return None;
    }
    var dest := c.PeekBytes(6);
    var fdp := dest != CDP_ADDR;
    c.Discard(6);
    var size := c.PeekUint16();
    if size > c.length {
      return None;
    }
    c.Discard(6);
    var proto := c.PeekUint16();
    if proto != LLC_PID_CDP {
      return None;
    }
    var version := c.PeekUint8();
    if version != 1 && version != 2 {
      return None;
    }
    var ttl := c.PeekUint8();
    c.Discard(2);
    var st := DecodeTlvs(c, fdp, zero);
    if st.None? {
      return None;
    }
    r := Conclude(ttl, st.value);
  }
}
