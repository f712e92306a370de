/** What cdp_decode() of src/daemon/cdp.c makes of any frame, whoever sent it, told from
    the list of its TLVs. */
module CdpFrames {
  import opened Bytes
  import opened Tlv
  import opened Cdp
  import opened CdpTheorems

  // ---------- The meaning of a list of TLVs ----------

  /** The capability bits are in the fourth byte: 0x01 is a router, 0x02, 0x04 and 0x08
      are kinds of bridges. */
  predicate SaysRouter(v: seq<byte>)
  {
    |v| >= 4 && v[3] % 2 == 1
  }

  predicate SaysBridge(v: seq<byte>)
  {
    |v| >= 4 && (v[3] / 2 % 2 == 1 || v[3] / 4 % 2 == 1 || v[3] / 8 % 2 == 1)
  }

  /** A value reads as a word when it is cut short of it or when it goes on with a null
      byte after it: an empty value is any word. */
  predicate Reads(word: seq<byte>, v: seq<byte>)
  {
    v <= word || word + [0] <= v
  }

  function WordMeans(v: seq<byte>): set<Cap>
  {
    if Reads([82, 111, 117, 116, 101, 114], v) then {Router}
    else if Reads([83, 119, 105, 116, 99, 104], v) then {Bridge}
    else if Reads([66, 114, 105, 100, 103, 101], v) then {Repeater}
    else {Station}
  }

  /** Bits add up over the TLVs; a first TLV without any makes a station, which stays.
      With FDP the last word counts. */
  ghost function CapsOf(vs: seq<seq<byte>>, fdp: bool): set<Cap>
  {
    if vs == [] then {}
    else if fdp then WordMeans(vs[|vs| - 1])
    else
      (if exists i :: 0 <= i < |vs| && SaysRouter(vs[i]) then {Router} else {})
      + (if exists i :: 0 <= i < |vs| && SaysBridge(vs[i]) then {Bridge} else {})
      + (if !SaysRouter(vs[0]) && !SaysBridge(vs[0]) then {Station} else {})
  }

  /** The first two bytes of each value. */
  function Numbers(vs: seq<seq<byte>>): seq<nat>
  {
    if vs == [] then []
    else
      var v := vs[|vs| - 1];
      Numbers(vs[..|vs| - 1]) + [if |v| >= 2 then v[0] as int * 256 + v[1] else 0]
  }

  /** The IPv4 addresses of each list. */
  function AllAddresses(vs: seq<seq<byte>>): seq<seq<byte>>
  {
    if vs == [] then [] else AllAddresses(vs[..|vs| - 1]) + Addresses(vs[|vs| - 1])
  }

  function Addresses(v: seq<byte>): seq<seq<byte>>
  {
    if |v| < 4 then []
    else match ParseAddresses(v, 4, Iterations(UnBE32(v, 0)), [])
      case None => []
      case Some(addrs) => addrs
  }

  /** A TLV that makes the whole frame be refused. */
  predicate Refused(t: Tlv, fdp: bool, zero: bool)
  {
    || (t.kind == 1 && t.value == [] && !zero)
    || (t.kind == 2 && (|t.value| < 4 || ParseAddresses(t.value, 4, Iterations(UnBE32(t.value, 0)), []) == None))
    || (t.kind == 3 && t.value == [])
    || (t.kind == 4 && !fdp && |t.value| < 4)
    || (t.kind == 10 && |t.value| < 2)
  }

  /** No TLV is refused, and name, port, capabilities and a description are there. */
  ghost predicate Sound(ts: seq<Tlv>, fdp: bool, zero: bool)
  {
    && (forall k :: 0 <= k < |ts| ==> !Refused(ts[k], fdp, zero))
    && Values(ts, 1) != [] && Values(ts, 3) != [] && Values(ts, 4) != []
    && (Values(ts, 5) != [] || Values(ts, 6) != [])
  }

  /** Platform, the words " running on" and a newline, and software; or the one there is. */
  function DescriptionOf(software: seq<seq<byte>>, platform: seq<seq<byte>>): seq<byte>
  {
    if software == [] then (if platform == [] then [] else platform[|platform| - 1])
    else if platform == [] then software[|software| - 1]
    else
      platform[|platform| - 1] + [32, 114, 117, 110, 110, 105, 110, 103, 32, 111, 110, 10] + software[|software| - 1]
  }

  ghost function Described(ts: seq<Tlv>, fdp: bool, ttl: nat): Neighbor
  {
    var name, port, vids := Last(Values(ts, 1)), Last(Values(ts, 3)), Numbers(Values(ts, 10));
    Neighbor(ttl, Text(name), DescriptionOf(Values(ts, 5), Values(ts, 6)), Text(port), AllAddresses(Values(ts, 2)),
             CapsOf(Values(ts, 4), fdp), if vids == [] then 0 else vids[|vids| - 1], vids)
  }

  // ---------- One TLV more ----------

  lemma {:induction false} NumbersNext(vs: seq<seq<byte>>, v: seq<byte>)
    ensures Numbers(vs + [v]) == Numbers(vs) + [if |v| >= 2 then v[0] as int * 256 + v[1] else 0]
  {
    assert (vs + [v])[..|vs|] == vs;
  }

  lemma {:induction false} AddressesNext(vs: seq<seq<byte>>, v: seq<byte>)
    ensures AllAddresses(vs + [v]) == AllAddresses(vs) + Addresses(v)
  {
    assert (vs + [v])[..|vs|] == vs;
  }

  /** Addresses are appended to those already there. */
  lemma {:induction false} ParseAcc(c: seq<byte>, q: nat, nb: nat, acc: seq<seq<byte>>)
    requires q <= |c|
    ensures ParseAddresses(c, q, nb, acc) ==
      match ParseAddresses(c, q, nb, [])
      case None => None
      case Some(addrs) => Some(acc + addrs)
    decreases nb
  {
    hide OneAddress;
    if nb == 0 {
      assert acc + [] == acc;
    } else {
      match OneAddress(c, q)
      case None =>
      case Some(e) =>
        var more := if e.ip.Some? then [e.ip.value] else [];
        ParseAcc(c, e.next, nb - 1, acc + more);
        ParseAcc(c, e.next, nb - 1, more);
        assert acc + [] == acc && [] + more == more;
        match ParseAddresses(c, e.next, nb - 1, [])
        case None =>
        case Some(addrs) => assert acc + more + addrs == acc + (more + addrs);
    }
  }

  lemma {:induction false} CapsNext(vs: seq<seq<byte>>, v: seq<byte>)
    requires |v| >= 4
    ensures CdpCaps(UnBE32(v, 0), CapsOf(vs, false)) == CapsOf(vs + [v], false)
  {
    var bits := UnBE32(v, 0);
    BitsOf(v);
    var us := vs + [v];
    assert us[|vs|] == v && forall i :: 0 <= i < |vs| ==> us[i] == vs[i];
    assert (exists i :: 0 <= i < |us| && SaysRouter(us[i])) <==>
      (exists i :: 0 <= i < |vs| && SaysRouter(vs[i])) || SaysRouter(v);
    assert (exists i :: 0 <= i < |us| && SaysBridge(us[i])) <==>
      (exists i :: 0 <= i < |vs| && SaysBridge(vs[i])) || SaysBridge(v);
    CapsThere(vs);
    if vs == [] {
      assert us[0] == v;
    } else {
      assert us[0] == vs[0];
    }
  }

  lemma {:induction false} CapsThere(vs: seq<seq<byte>>)
    ensures vs != [] ==> CapsOf(vs, false) != {} && CapsOf(vs, true) != {}
  {
    if vs != [] {
      if SaysRouter(vs[0]) {
        assert Router in CapsOf(vs, false);
      } else if SaysBridge(vs[0]) {
        assert Bridge in CapsOf(vs, false);
      } else {
        assert Station in CapsOf(vs, false);
      }
      var w := WordMeans(vs[|vs| - 1]);
      assert Router in w || Bridge in w || Repeater in w || Station in w;
    }
  }

  /** The bits of the word are those of its last byte. */
  lemma {:induction false} BitsOf(v: seq<byte>)
    requires |v| >= 4
    ensures UnBE32(v, 0) % 2 == 1 <==> SaysRouter(v)
    ensures UnBE32(v, 0) / 2 % 8 != 0 <==> SaysBridge(v)
  {
    var b: int := v[3];
    var high := UnBE16(v, 0) * 0x100 + v[2];
    assert UnBE32(v, 0) == high * 256 + b;
    LowByte(high, b);
    ThreeBits(b);
  }

  lemma {:induction false} ThreeBits(b: int)
    requires 0 <= b < 256
    ensures b / 2 % 8 != 0 <==> b / 2 % 2 == 1 || b / 4 % 2 == 1 || b / 8 % 2 == 1
  {
    var b1 := b / 2;
    var b2 := b1 / 2;
    var b3 := b2 / 2;
    var b4 := b3 / 2;
    Quotients(b2, b1 % 2 * 2 + b % 2, b3, b2 % 2 * 4 + b1 % 2 * 2 + b % 2);
    assert b == 4 * b2 + (b1 % 2 * 2 + b % 2) && b == 8 * b3 + (b2 % 2 * 4 + b1 % 2 * 2 + b % 2);
    assert b1 == 8 * b4 + (b3 % 2 * 4 + b2 % 2 * 2 + b1 % 2);
    Eighths(b4, b3 % 2 * 4 + b2 % 2 * 2 + b1 % 2);
  }

  lemma {:induction false} Quotients(q: nat, r: nat, q': nat, r': nat)
    requires r < 4 && r' < 8
    ensures (4 * q + r) / 4 == q && (8 * q' + r') / 8 == q'
  {
  }

  lemma {:induction false} Eighths(q: nat, r: nat)
    requires r < 8
    ensures (8 * q + r) % 8 == r
  {
  }

  lemma {:induction false} Halves(q: nat, r: nat)
    requires r < 2
    ensures (2 * q + r) / 2 == q && (2 * q + r) % 2 == r
  {
  }

  lemma {:induction false} LowByte(high: nat, b: int)
    requires 0 <= b < 256
    ensures (high * 256 + b) % 2 == b % 2 && (high * 256 + b) / 2 % 8 == b / 2 % 8
  {
    var y := b / 2;
    assert high * 256 + b == 2 * (high * 128 + y) + b % 2;
    Halves(high * 128 + y, b % 2);
    assert high * 128 + y == 8 * (high * 16 + y / 8) + y % 8;
    Eighths(high * 16 + y / 8, y % 8);
  }

  // ---------- Words ----------

  lemma {:induction false} SameWordIs(word: seq<byte>, s: seq<byte>, i: nat)
    requires 0 !in word && i <= |word| && i <= |s| && s[..i] == word[..i]
    ensures SameWord(word, s, |s|, i) <==> Reads(word, s)
    decreases |s| - i
  {
    if i == |s| {
      assert s == word[..i];
    } else if i == |word| {
      assert word == s[..i];
      if s[i] == 0 {
        assert s[..i + 1] == word + [0];
      }
      assert (word + [0])[i] == 0;
    } else {
      assert word[i] in word;
      if s[i] == word[i] {
        assert s[..i + 1] == s[..i] + [s[i]] && word[..i + 1] == word[..i] + [word[i]];
        SameWordIs(word, s, i + 1);
      } else {
        assert (word + [0])[i] == word[i];
      }
    }
  }

  lemma {:induction false} WordsRead(v: seq<byte>)
    ensures FdpCaps(v) == WordMeans(v)
  {
    hide SameWord;
    SameWordIs(WORD_ROUTER, v, 0);
    SameWordIs(WORD_SWITCH, v, 0);
    SameWordIs(WORD_BRIDGE, v, 0);
  }

  // ---------- The loop ----------

  /** What is known after the first n TLVs. */
  ghost predicate Known(ts: seq<Tlv>, n: nat, fdp: bool, st: Parsed)
    requires n <= |ts|
  {
    var s, vids := ts[..n], Numbers(Values(ts[..n], 10));
    && st.name == Last(Values(s, 1)) && st.portDescr == Last(Values(s, 3))
    && st.software == Last(Values(s, 5)) && st.platform == Last(Values(s, 6))
    && st.mgmt == AllAddresses(Values(s, 2)) && st.caps == CapsOf(Values(s, 4), fdp)
    && st.vlans == vids && st.pvid == if vids == [] then 0 else vids[|vids| - 1]
  }

  lemma {:induction false} KnownNext(ts: seq<Tlv>, n: nat, fdp: bool, zero: bool, st: Parsed)
    requires n < |ts| && Known(ts, n, fdp, st)
    ensures Apply(ts[n], fdp, zero, st).None? <==> Refused(ts[n], fdp, zero)
    ensures Apply(ts[n], fdp, zero, st).Some? ==> Known(ts, n + 1, fdp, Apply(ts[n], fdp, zero, st).value)
  {
    hide Values, CapsOf, Numbers, AllAddresses, ParseAddresses, UnBE32, CdpCaps, FdpCaps, Iterations, WordMeans;
    var t := ts[n];
    var s := ts[..n];
    ValuesNext(ts, n, 1);
    ValuesNext(ts, n, 2);
    ValuesNext(ts, n, 3);
    ValuesNext(ts, n, 4);
    ValuesNext(ts, n, 5);
    ValuesNext(ts, n, 6);
    ValuesNext(ts, n, 10);
    if t.kind == 2 && |t.value| >= 4 {
      ParseAcc(t.value, 4, Iterations(UnBE32(t.value, 0)), st.mgmt);
      AddressesNext(Values(s, 2), t.value);
    } else if t.kind == 4 {
      WordsRead(t.value);
      FdpNext(Values(s, 4), t.value);
      if |t.value| >= 4 {
        CapsNext(Values(s, 4), t.value);
      }
    } else if t.kind == 10 {
      NumbersNext(Values(s, 10), t.value);
    }
  }

  lemma {:induction false} FdpNext(vs: seq<seq<byte>>, v: seq<byte>)
    ensures CapsOf(vs + [v], true) == WordMeans(v)
  {
    assert (vs + [v])[|vs|] == v;
  }

  lemma {:induction false} KnownToEnd(ts: seq<Tlv>, n: nat, fdp: bool, zero: bool, st: Parsed)
    requires n <= |ts| && Known(ts, n, fdp, st)
    ensures match ApplyAll(ts, n, fdp, zero, st)
      case None => exists k :: n <= k < |ts| && Refused(ts[k], fdp, zero)
      case Some(st') => Known(ts, |ts|, fdp, st') && forall k :: n <= k < |ts| ==> !Refused(ts[k], fdp, zero)
    decreases |ts| - n
  {
    hide Known, Refused, Apply;
    if n < |ts| {
      KnownNext(ts, n, fdp, zero, st);
      match Apply(ts[n], fdp, zero, st)
      case None =>
      case Some(st') => KnownToEnd(ts, n + 1, fdp, zero, st');
    }
  }

  lemma {:induction false} KnownAtStart(ts: seq<Tlv>, fdp: bool)
    ensures Known(ts, 0, fdp, NOTHING)
  {
  }

  lemma {:induction false} Concluded(ts: seq<Tlv>, fdp: bool, zero: bool, st: Parsed, ttl: nat)
    requires Known(ts, |ts|, fdp, st) && forall k :: 0 <= k < |ts| ==> !Refused(ts[k], fdp, zero)
    ensures Conclude(ttl, st) == if Sound(ts, fdp, zero) && ttl != 0 then Some(Described(ts, fdp, ttl)) else None
  {
    hide Values, CapsOf, Numbers, AllAddresses, Refused;
    assert ts[..|ts|] == ts;
    CapsThere(Values(ts, 4));
    NoCaps(fdp);
  }

  lemma {:induction false} NoCaps(fdp: bool)
    ensures CapsOf([], fdp) == {}
  {
  }

  // ---------- Any frame ----------

  /** The 802.3 length is not beyond the frame, the protocol is 0x2000, the version 1
      or 2. */
  predicate HeaderOk(frame: seq<byte>)
  {
    && |frame| >= 26 && frame[12] as int * 256 + frame[13] <= |frame| - 14
    && frame[20] == 0x20 && frame[21] == 0x00 && (frame[22] == 1 || frame[22] == 2)
  }

  /** Any frame made of TLVs is understood as its list of TLVs says, and refused exactly
      when the header, one of the TLVs, a missing one or a null TTL make it so. */
  lemma {:induction false} FrameMeaning(frame: seq<byte>, ts: seq<Tlv>, zero: bool)
    requires |frame| >= 26 && frame[26..] == Wire(ts) && forall k :: 0 <= k < |ts| ==> Fits(ts[k])
    ensures var fdp := frame[..6] != [0x01, 0x00, 0x0c, 0xcc, 0xcc, 0xcc];
      Decode(frame, zero) ==
      if HeaderOk(frame) && Sound(ts, fdp, zero) && frame[23] != 0 then Some(Described(ts, fdp, frame[23])) else None
  {
    hide ParseTlvs, ApplyAll, Wire, Described, Refused, Known, Fits, Conclude, Sound;
    var fdp := frame[..6] != CDP_ADDR;
    assert Wire(ts) + [] == Wire(ts);
    ParseWire(frame, START, ts, 0, [], fdp, zero, NOTHING);
    ParseEnd(frame, fdp, zero);
    KnownAtStart(ts, fdp);
    KnownToEnd(ts, 0, fdp, zero, NOTHING);
    match ApplyAll(ts, 0, fdp, zero, NOTHING)
    case None => NotSound(ts, fdp, zero);
    case Some(st) => Concluded(ts, fdp, zero, st, frame[23]);
  }

  lemma {:induction false} NotSound(ts: seq<Tlv>, fdp: bool, zero: bool)
    requires exists k :: 0 <= k < |ts| && Refused(ts[k], fdp, zero)
    ensures !Sound(ts, fdp, zero)
  {
    hide Refused, Values;
  }

  /** And a frame that is not made of TLVs is refused. */
  lemma {:induction false} AcceptedIsTlvs(frame: seq<byte>, zero: bool) returns (ts: seq<Tlv>)
    requires Decode(frame, zero).Some?
    ensures |frame| >= 26 && frame[26..] == Wire(ts) && forall k :: 0 <= k < |ts| ==> Fits(ts[k])
  {
    hide ParseTlvs, Conclude;
    ts := ParsedIsTlvs(frame, START, frame[..6] != CDP_ADDR, zero, NOTHING);
  }

  lemma {:induction false} ParsedIsTlvs(frame: seq<byte>, p: nat, fdp: bool, zero: bool, st: Parsed)
    returns (ts: seq<Tlv>)
    requires p <= |frame| && ParseTlvs(frame, p, fdp, zero, st).Some?
    ensures frame[p..] == Wire(ts) && forall k :: 0 <= k < |ts| ==> Fits(ts[k])
    decreases |frame| - p
  {
    hide ParseTlvs, Encode, Fits, Wire;
    if p == |frame| {
      ts := [];
      NoWire();
    } else {
      var t, st' := ParsedStep(frame, p, fdp, zero, st);
      var next := p + 4 + |t.value|;
      var rest := ParsedIsTlvs(frame, next, fdp, zero, st');
      ts := [t] + rest;
      WireFirst(t, rest);
      assert frame[p..] == frame[p..next] + frame[next..];
    }
  }

  lemma {:induction false} ParsedStep(frame: seq<byte>, p: nat, fdp: bool, zero: bool, st: Parsed)
    returns (t: Tlv, st': Parsed)
    requires p < |frame| && ParseTlvs(frame, p, fdp, zero, st).Some?
    ensures p + 4 + |t.value| <= |frame| && Fits(t) && frame[p..p + 4 + |t.value|] == Encode(t)
    ensures ParseTlvs(frame, p + 4 + |t.value|, fdp, zero, st').Some?
  {
    hide Apply, Encode, Fits;
    var len := UnBE16(frame, p + 2) - 4;
    t := Tlv(UnBE16(frame, p), frame[p + 4..p + 4 + len]);
    st' := Apply(t, fdp, zero, st).value;
    Written(frame, p, t);
  }

  // ---------- Unknown TLVs ----------

  lemma {:induction false} StrangerValues(a: seq<Tlv>, u: Tlv, b: seq<Tlv>, kind: nat)
    requires u.kind != kind
    ensures Values(a + [u] + b, kind) == Values(a + b, kind)
  {
    ValuesAppend(a + [u], b, kind);
    ValuesAppend(a, [u], kind);
    ValuesAppend(a, b, kind);
    assert [u][..0] == [];
    assert Values([u], kind) == Values([], kind) + [];
  }

  /** A TLV of any type but 1 to 6 and 10, anywhere in the list, changes nothing in what
      is understood, and makes nothing be refused. */
  lemma {:induction false} StrangerIgnored(head: seq<byte>, a: seq<Tlv>, u: Tlv, b: seq<Tlv>, zero: bool)
    requires |head| == 26 && head[12] as int * 256 + head[13] <= 12 + |Wire(a + b)|
    requires u.kind !in {1, 2, 3, 4, 5, 6, 10} && Fits(u)
    requires (forall k :: 0 <= k < |a| ==> Fits(a[k])) && (forall k :: 0 <= k < |b| ==> Fits(b[k]))
    ensures Decode(head + Wire(a + [u] + b), zero) == Decode(head + Wire(a + b), zero)
  {
    hide Decode, Wire, Fits, Values, Refused, CapsOf;
    var ts, us := a + b, a + [u] + b;
    var f, g := head + Wire(ts), head + Wire(us);
    WireLonger'(a, u, b);
    assert f[26..] == Wire(ts) && g[26..] == Wire(us);
    assert forall i :: 0 <= i < 26 ==> f[i] == g[i] == head[i];
    assert f[..6] == g[..6] == head[..6];
    assert HeaderOk(f) <==> HeaderOk(g);
    FrameMeaning(f, ts, zero);
    FrameMeaning(g, us, zero);
    var fdp := head[..6] != [0x01, 0x00, 0x0c, 0xcc, 0xcc, 0xcc];
    StrangerValues(a, u, b, 1);
    StrangerValues(a, u, b, 2);
    StrangerValues(a, u, b, 3);
    StrangerValues(a, u, b, 4);
    StrangerValues(a, u, b, 5);
    StrangerValues(a, u, b, 6);
    StrangerValues(a, u, b, 10);
    StrangerSound(a, u, b, fdp, zero);
  }

  lemma {:induction false} WireLonger'(a: seq<Tlv>, u: Tlv, b: seq<Tlv>)
    ensures |Wire(a + b)| <= |Wire(a + [u] + b)|
  {
    WireAppend(a, b, 0);
    WireAppend(a + [u], b, 0);
    WireAppend(a, [u], 0);
  }

  lemma {:induction false} StrangerSound(a: seq<Tlv>, u: Tlv, b: seq<Tlv>, fdp: bool, zero: bool)
    requires u.kind !in {1, 2, 3, 4, 5, 6, 10}
    ensures (forall k :: 0 <= k < |a + [u] + b| ==> !Refused((a + [u] + b)[k], fdp, zero)) <==>
      (forall k :: 0 <= k < |a + b| ==> !Refused((a + b)[k], fdp, zero))
  {
    var ts, us := a + b, a + [u] + b;
    assert !Refused(u, fdp, zero);
    hide Refused;
    assert forall k :: 0 <= k < |ts| ==> ts[k] == us[if k < |a| then k else k + 1];
    assert forall k :: 0 <= k < |us| && k != |a| ==> us[k] == ts[if k < |a| then k else k - 1];
  }
}
