/** Address lists of CDP frames (src/daemon/cdp.c), as any sender may write them, and a
    frame of another implementation. */
module CdpAddresses {
  import opened Bytes
  import opened Tlv
  import opened Cdp
  import opened CdpTheorems
  import opened CdpFrames

  // ---------- Address lists ----------

  /** One entry: protocol type, protocol, address. */
  datatype Location = Location(kind: byte, protocol: seq<byte>, addr: seq<byte>)

  predicate Storable(l: Location)
  {
    |l.protocol| < 256 && |l.addr| < 0x1_0000
  }

  function Lay(l: Location): seq<byte>
    requires Storable(l)
  {
    [l.kind, |l.protocol|] + l.protocol + [|l.addr| / 256, |l.addr| % 256] + l.addr
  }

  /** The entries from the i-th on. */
  function LayAll(ls: seq<Location>, i: nat := 0): seq<byte>
    requires forall k :: 0 <= k < |ls| ==> Storable(ls[k])
    decreases |ls| - i
  {
    if i >= |ls| then [] else Lay(ls[i]) + LayAll(ls, i + 1)
  }

  /** An entry is kept when it is for the protocol 0xcc of type 1 and has four bytes. */
  function Kept(ls: seq<Location>, i: nat := 0): seq<seq<byte>>
    decreases |ls| - i
  {
    if i >= |ls| then []
    else
      (if ls[i].kind == 1 && ls[i].protocol == [0xcc] && |ls[i].addr| == 4 then [ls[i].addr] else []) + Kept(ls, i + 1)
  }

  lemma {:induction false} LocationReads(c: seq<byte>, q: nat, l: Location, rest: seq<byte>)
    requires Storable(l) && q <= |c| && c[q..] == Lay(l) + rest
    ensures var next := q + |Lay(l)|;
      && next <= |c| && c[next..] == rest
      && OneAddress(c, q) ==
         Some(Entry(next, if l.kind == 1 && l.protocol == [0xcc] && |l.addr| == 4 then Some(l.addr) else None))
  {
    var s, n := c[q..], |l.protocol|;
    LayParts(l, rest);
    hide Lay;
    assert c[q] == s[0] && c[q + 1] == s[1] && c[q + 2 + n] == s[2 + n] && c[q + 3 + n] == s[3 + n];
    assert n == 1 ==> c[q + 2] == s[2] == s[2..3][0];
    assert UnBE16(c, q + 2 + n) == |l.addr|;
    assert c[q + 4 + n..q + 4 + n + |l.addr|] == s[4 + n..4 + n + |l.addr|];
    assert c[q + |Lay(l)|..] == s[|Lay(l)|..];
  }

  lemma {:induction false} LayParts(l: Location, rest: seq<byte>)
    requires Storable(l)
    ensures var s, n, a := Lay(l) + rest, |l.protocol|, |l.addr|;
      && |Lay(l)| == 4 + n + a && s[0] == l.kind && s[1] == n && s[2..2 + n] == l.protocol
      && s[2 + n] == a / 256 && s[3 + n] == a % 256 && s[4 + n..4 + n + a] == l.addr && s[4 + n + a..] == rest
  {
  }

  /** A list of entries gives the IPv4 ones, in order; the others are skipped, and so is
      what follows the entries. */
  lemma {:induction false} LocationsRead(c: seq<byte>, q: nat, ls: seq<Location>, i: nat, rest: seq<byte>,
      acc: seq<seq<byte>>)
    requires (forall k :: 0 <= k < |ls| ==> Storable(ls[k])) && i <= |ls| && q <= |c| && c[q..] == LayAll(ls, i) + rest
    ensures ParseAddresses(c, q, |ls| - i, acc) == Some(acc + Kept(ls, i))
    decreases |ls| - i
  {
    hide OneAddress, Lay;
    if i == |ls| {
      assert acc + [] == acc;
    } else {
      var more := LayAll(ls, i + 1) + rest;
      assert c[q..] == Lay(ls[i]) + more;
      LocationReads(c, q, ls[i], more);
      var e := OneAddress(c, q).value;
      var acc' := if e.ip.Some? then acc + [e.ip.value] else acc;
      LocationsRead(c, e.next, ls, i + 1, rest, acc');
      assert acc' + Kept(ls, i + 1) == acc + Kept(ls, i);
    }
  }

  /** The value of an address TLV: a count, that many entries, and anything. */
  lemma {:induction false} AddressListRead(v: seq<byte>, ls: seq<Location>, rest: seq<byte>)
    requires (forall k :: 0 <= k < |ls| ==> Storable(ls[k])) && |ls| < 0x8000_0000
    requires |v| >= 4 && UnBE32(v, 0) == |ls| && v[4..] == LayAll(ls) + rest
    ensures (forall fdp, zero :: !Refused(Tlv(2, v), fdp, zero)) && Addresses(v) == Kept(ls)
  {
    hide UnBE32, ParseAddresses, LayAll;
    LocationsRead(v, 4, ls, 0, rest, []);
    assert [] + Kept(ls) == Kept(ls);
  }

  /** And every value that is not refused is one, unless the count is negative as an
      int, in which case there are no addresses. */
  lemma {:induction false} AddressListWritten(v: seq<byte>) returns (ls: seq<Location>)
    requires |v| >= 4 && !Refused(Tlv(2, v), false, false)
    ensures forall k :: 0 <= k < |ls| ==> Storable(ls[k])
    ensures UnBE32(v, 0) < 0x8000_0000 ==> |ls| == UnBE32(v, 0) && LayAll(ls) <= v[4..]
    ensures UnBE32(v, 0) >= 0x8000_0000 ==> ls == []
    ensures Addresses(v) == Kept(ls)
  {
    hide UnBE32, ParseAddresses, LayAll;
    var n := Iterations(UnBE32(v, 0));
    ls := LocationsWritten(v, 4, n, []);
    LocationsRead(v, 4, ls, 0, v[4 + |LayAll(ls)|..], []);
    assert [] + Kept(ls) == Kept(ls);
  }

  lemma {:induction false} LocationsWritten(c: seq<byte>, q: nat, nb: nat, acc: seq<seq<byte>>)
    returns (ls: seq<Location>)
    requires q <= |c| && ParseAddresses(c, q, nb, acc).Some?
    ensures |ls| == nb && forall k :: 0 <= k < |ls| ==> Storable(ls[k])
    ensures q + |LayAll(ls)| <= |c| && c[q..] == LayAll(ls) + c[q + |LayAll(ls)|..]
    decreases nb
  {
    hide ParseAddresses, OneAddress, Lay, LayAll;
    if nb == 0 {
      ls := [];
      LayNone();
    } else {
      var e := LocationsStep(c, q, nb, acc);
      var l := LocationWritten(c, q);
      var more := LocationsWritten(c, e.next, nb - 1, if e.ip.Some? then acc + [e.ip.value] else acc);
      ls := [l] + more;
      LayFirst(l, more);
      Joined(c, q, Lay(l), LayAll(more));
    }
  }

  lemma {:induction false} LayNone()
    ensures LayAll([]) == []
  {
  }

  lemma {:induction false} LocationsStep(c: seq<byte>, q: nat, nb: nat, acc: seq<seq<byte>>) returns (e: Entry)
    requires q <= |c| && nb > 0 && ParseAddresses(c, q, nb, acc).Some?
    ensures OneAddress(c, q) == Some(e) && e.next <= |c|
    ensures ParseAddresses(c, e.next, nb - 1, if e.ip.Some? then acc + [e.ip.value] else acc).Some?
  {
    hide OneAddress;
    e := OneAddress(c, q).value;
  }

  lemma {:induction false} LayFirst(l: Location, ls: seq<Location>)
    requires Storable(l) && forall k :: 0 <= k < |ls| ==> Storable(ls[k])
    ensures LayAll([l] + ls) == Lay(l) + LayAll(ls)
  {
    LayShift(l, ls, 0);
  }

  lemma {:induction false} Joined(c: seq<byte>, q: nat, a: seq<byte>, b: seq<byte>)
    requires q + |a| + |b| <= |c| && c[q..q + |a|] == a && c[q + |a|..] == b + c[q + |a| + |b|..]
    ensures c[q..] == a + b + c[q + |a| + |b|..]
  {
    assert c[q..] == c[q..q + |a|] + c[q + |a|..];
  }

  lemma {:induction false} LayShift(l: Location, ls: seq<Location>, i: nat)
    requires Storable(l) && forall k :: 0 <= k < |ls| ==> Storable(ls[k])
    ensures LayAll([l] + ls, i + 1) == LayAll(ls, i)
    decreases |ls| - i
  {
    if i < |ls| {
      LayShift(l, ls, i + 1);
    }
  }

  lemma {:induction false} LocationWritten(c: seq<byte>, q: nat) returns (l: Location)
    requires q <= |c| && OneAddress(c, q).Some?
    ensures Storable(l) && q + |Lay(l)| == OneAddress(c, q).value.next && c[q..q + |Lay(l)|] == Lay(l)
  {
    var n: int := c[q + 1];
    var a := UnBE16(c, q + 2 + n);
    l := Location(c[q], c[q + 2..q + 2 + n], c[q + 4 + n..q + 4 + n + a]);
    assert c[q + 2 + n] == a / 256 && c[q + 3 + n] == a % 256;
    hide OneAddress, UnBE16;
    Parts(c, q, n, a);
  }

  lemma {:induction false} Parts(c: seq<byte>, q: nat, n: nat, a: nat)
    requires q + 4 + n + a <= |c|
    ensures c[q..q + 4 + n + a] ==
      [c[q], c[q + 1]] + c[q + 2..q + 2 + n] + [c[q + 2 + n], c[q + 3 + n]] + c[q + 4 + n..q + 4 + n + a]
  {
  }

  // ---------- A frame from another implementation ----------

  /** The TLVs a Cisco router sends, in its order, the last of a type not known here. */
  function RouterTlvs(software: seq<byte>): seq<Tlv>
  {
    [Tlv(1, [0x72, 0x74, 0x62, 0x67, 0x36, 0x74, 0x65, 0x73, 0x74, 0x30, 0x31]), Tlv(5, software),
     Tlv(6, [0x63, 0x69, 0x73, 0x63, 0x6f]),
     Tlv(2, [0, 0, 0, 2, 1, 1, 0xcc, 0, 4, 172, 66, 55, 3, 2, 1, 0x81, 0, 1, 9]),
     Tlv(3, [0x46, 0x30]), Tlv(4, [0, 0, 0, 0x06]), Tlv(11, [0])]
  }

  lemma {:induction false} RouterValues(software: seq<byte>)
    ensures var ts := RouterTlvs(software);
      && Values(ts, 1) == [ts[0].value] && Values(ts, 2) == [ts[3].value] && Values(ts, 3) == [ts[4].value]
      && Values(ts, 4) == [ts[5].value] && Values(ts, 5) == [software] && Values(ts, 6) == [ts[2].value]
      && Values(ts, 10) == []
  {
    hide Values;
    var ts := RouterTlvs(software);
    SevenValues(ts, 1);
    SevenValues(ts, 2);
    SevenValues(ts, 3);
    SevenValues(ts, 4);
    SevenValues(ts, 5);
    SevenValues(ts, 6);
    SevenValues(ts, 10);
  }

  lemma {:induction false} SevenValues(ts: seq<Tlv>, kind: nat)
    requires |ts| == 7
    ensures Values(ts, kind) == Only(ts[0], kind) + Only(ts[1], kind) + Only(ts[2], kind) + Only(ts[3], kind)
                                + Only(ts[4], kind) + Only(ts[5], kind) + Only(ts[6], kind)
  {
    hide Only, Values;
    ValuesNone(ts, kind);
    ValuesStep(ts, 0, kind);
    ValuesStep(ts, 1, kind);
    ValuesStep(ts, 2, kind);
    ValuesStep(ts, 3, kind);
    ValuesStep(ts, 4, kind);
    ValuesStep(ts, 5, kind);
    ValuesStep(ts, 6, kind);
    assert ts[..7] == ts && [] + Only(ts[0], kind) == Only(ts[0], kind);
  }

  function Only(t: Tlv, kind: nat): seq<seq<byte>>
  {
    if t.kind == kind then [t.value] else []
  }

  lemma {:induction false} ValuesStep(ts: seq<Tlv>, n: nat, kind: nat)
    requires n < |ts|
    ensures Values(ts[..n + 1], kind) == Values(ts[..n], kind) + Only(ts[n], kind)
  {
    ValuesNext(ts, n, kind);
  }

  /** It is understood, whatever its software string: the second address, which is not
      IPv4, and the unknown TLV are skipped, and the bits 0x02 and 0x04 make a bridge. */
  lemma {:induction false} RouterUnderstood(head: seq<byte>, software: seq<byte>, zero: bool)
    requires |head| == 26 && HeaderOk(head + Wire(RouterTlvs(software))) && |software| < 60000
    requires head[..6] == [0x01, 0x00, 0x0c, 0xcc, 0xcc, 0xcc] && head[23] == 180
    ensures var running := [32, 114, 117, 110, 110, 105, 110, 103, 32, 111, 110, 10];
      Decode(head + Wire(RouterTlvs(software)), zero) ==
      Some(Neighbor(180, [0x72, 0x74, 0x62, 0x67, 0x36, 0x74, 0x65, 0x73, 0x74, 0x30, 0x31],
                    [0x63, 0x69, 0x73, 0x63, 0x6f] + running + software, [0x46, 0x30], [[172, 66, 55, 3]], {Bridge}, 0,
                    []))
  {
    hide Decode, Wire, Values, HeaderOk, Sound, Described;
    var ts := RouterTlvs(software);
    var frame := head + Wire(ts);
    assert frame[26..] == Wire(ts) && frame[..6] == head[..6] && frame[23] == head[23];
    RouterDescribed(software, zero);
    FrameMeaning(frame, ts, zero);
  }

  lemma {:induction false} RouterDescribed(software: seq<byte>, zero: bool)
    ensures var running := [32, 114, 117, 110, 110, 105, 110, 103, 32, 111, 110, 10];
      var ts := RouterTlvs(software);
      && Sound(ts, false, zero)
      && Described(ts, false, 180) ==
         Neighbor(180, [0x72, 0x74, 0x62, 0x67, 0x36, 0x74, 0x65, 0x73, 0x74, 0x30, 0x31],
                  [0x63, 0x69, 0x73, 0x63, 0x6f] + running + software, [0x46, 0x30], [[172, 66, 55, 3]], {Bridge}, 0,
                  [])
  {
    hide Values, ParseAddresses, CapsOf, Addresses, AllAddresses;
    var ts := RouterTlvs(software);
    RouterValues(software);
    RouterAddresses();
    BridgeBits([ts[5].value], ts[5].value);
    OneOfEach([ts[3].value], ts[3].value);
  }

  lemma {:induction false} BridgeBits(vs: seq<seq<byte>>, v: seq<byte>)
    requires vs == [v] && v == [0, 0, 0, 0x06]
    ensures CapsOf(vs, false) == {Bridge}
  {
    assert SaysBridge(vs[0]) && !SaysRouter(vs[0]);
    assert forall i :: 0 <= i < |vs| ==> vs[i] == v;
  }

  lemma {:induction false} OneOfEach(vs: seq<seq<byte>>, v: seq<byte>)
    requires vs == [v]
    ensures AllAddresses(vs) == Addresses(v)
  {
    assert vs == [] + [v];
    AddressesNext([], v);
    assert [] + Addresses(v) == Addresses(v);
  }

  lemma {:induction false} RouterAddresses()
    ensures var v := [0, 0, 0, 2, 1, 1, 0xcc, 0, 4, 172, 66, 55, 3, 2, 1, 0x81, 0, 1, 9];
      Addresses(v) == [[172, 66, 55, 3]] && forall fdp, zero :: !Refused(Tlv(2, v), fdp, zero)
  {
    var v: seq<byte> := [0, 0, 0, 2, 1, 1, 0xcc, 0, 4, 172, 66, 55, 3, 2, 1, 0x81, 0, 1, 9];
    var ls := [Location(1, [0xcc], [172, 66, 55, 3]), Location(2, [0x81], [9])];
    var a, b: seq<byte> := [1, 1, 0xcc, 0, 4, 172, 66, 55, 3], [2, 1, 0x81, 0, 1, 9];
    assert Lay(ls[0]) == a && Lay(ls[1]) == b;
    assert LayAll(ls, 2) == [] && LayAll(ls, 1) == b && LayAll(ls) == a + b;
    assert v == [0, 0, 0, 2] + (a + b);
    assert v[4..] == LayAll(ls) + [];
    AddressListRead(v, ls, []);
    hide LayAll, Lay, Addresses, Refused;
    assert Kept(ls, 2) == [] && Kept(ls, 1) == [] && Kept(ls) == [[172, 66, 55, 3]];
  }
}
