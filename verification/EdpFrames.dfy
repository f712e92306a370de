/** What edp_decode() of src/daemon/edp.c makes of any frame, whoever sent it, told from
    the list of its TLVs and from what ends it. */
module EdpFrames {
  import opened Bytes
  import opened Tlv
  import opened Checksum
  import opened Edp
  import opened EdpTheorems

  // ---------- Names ----------

  /** Position of the first null byte from i on, or the length. */
  function FirstNull(s: seq<byte>, i: nat := 0): (n: nat)
    requires i <= |s|
    ensures i <= n <= |s| && (n < |s| ==> s[n] == 0) && forall k :: i <= k < n ==> s[k] != 0
    decreases |s| - i
  {
    if i == |s| || s[i] == 0 then i else FirstNull(s, i + 1)
  }

  /** A name is what comes before the first null byte; whatever follows it is left. */
  function NameIn(s: seq<byte>): seq<byte>
  {
    s[..FirstNull(s)]
  }

  lemma {:induction false} NameReads(s: seq<byte>, i: nat)
    requires i <= |s|
    ensures CString(s, i) == s[i..FirstNull(s, i)]
    decreases |s| - i
  {
    if i < |s| && s[i] != 0 {
      NameReads(s, i + 1);
    }
  }

  /** A name, a null byte and leftovers; or a name that fills its TLV. */
  lemma {:induction false} NameBeforeJunk(a: seq<byte>, junk: seq<byte>)
    requires 0 !in a
    ensures NameIn(a + [0] + junk) == a && NameIn(a) == a
  {
    var s := a + [0] + junk;
    assert s[|a|] == 0 && forall k :: 0 <= k < |a| ==> s[k] == a[k] && a[k] in a;
    assert FirstNull(s) == |a|;
    assert FirstNull(a) == |a|;
  }

  // ---------- The meaning of a list of TLVs ----------

  /** TLV types, behind the marker 0x99. */
  const DISPLAY_TLV: nat := 0x9901
  const INFO_TLV: nat := 0x9902
  const VLAN_TLV: nat := 0x9905

  /** An ordinary TLV: marked, and not the null TLV. */
  predicate Ordinary(t: Tlv)
  {
    0x9900 < t.kind <= 0x99ff && |t.value| + 4 < 0x1_0000
  }

  predicate Refused(t: Tlv)
  {
    (t.kind == INFO_TLV && |t.value| < 32) || (t.kind == VLAN_TLV && |t.value| < 12)
  }

  function InfoIn(v: seq<byte>): Info
    requires |v| >= 32
  {
    Info(v[0] as int * 256 + v[1], v[2] as int * 256 + v[3], v[12..16])
  }

  function VlanIn(v: seq<byte>): Vlan
    requires |v| >= 12
  {
    Vlan(v[2] as int * 256 + v[3], NameIn(v[12..]))
  }

  /** The VLANs, in order. */
  function VlansIn(vs: seq<seq<byte>>): seq<Vlan>
  {
    if vs == [] then []
    else VlansIn(vs[..|vs| - 1]) + if |vs[|vs| - 1]| >= 12 then [VlanIn(vs[|vs| - 1])] else []
  }

  /** Their addresses, in order, where there is one. */
  function AddressesIn(vs: seq<seq<byte>>): seq<seq<byte>>
  {
    if vs == [] then []
    else
      var v := vs[|vs| - 1];
      AddressesIn(vs[..|vs| - 1]) + if |v| >= 12 && v[8..12] != [0, 0, 0, 0] then [v[8..12]] else []
  }

  /** A name and an info TLV make a new neighbour; otherwise VLANs are for a known one. */
  function Described(id: seq<byte>, ts: seq<Tlv>): Outcome
  {
    var names, infos, vlans := Values(ts, DISPLAY_TLV), Values(ts, INFO_TLV), Values(ts, VLAN_TLV);
    if names != [] && infos != [] && |infos[|infos| - 1]| >= 32 then
      NewPort(id, NameIn(names[|names| - 1]), InfoIn(infos[|infos| - 1]), VlansIn(vlans), AddressesIn(vlans))
    else if vlans != [] then MoreVlans(id, VlansIn(vlans), AddressesIn(vlans))
    else Malformed
  }

  /** What may follow the ordinary TLVs: `Ends` if the list is complete there, because of
      a null TLV or of a length that cannot be; `Goes` if one more ordinary TLV starts. */
  function LengthAt(s: seq<byte>): nat
    requires |s| >= 4
  {
    s[2] as int * 256 + s[3]
  }

  predicate Ends(s: seq<byte>)
  {
    && |s| >= 4 && s[0] == 0x99
    && (LengthAt(s) < 4 || LengthAt(s) > |s| || (s[1] == 0 && LengthAt(s) == 4))
  }

  predicate Goes(s: seq<byte>)
  {
    |s| >= 4 && s[0] == 0x99 && s[1] != 0 && 4 <= LengthAt(s) <= |s|
  }

  // ---------- The loop ----------

  /** What is known after the first n TLVs. */
  ghost predicate Known(ts: seq<Tlv>, n: nat, st: Parsed)
    requires n <= |ts|
  {
    var s := ts[..n];
    var names, infos, vlans := Values(s, DISPLAY_TLV), Values(s, INFO_TLV), Values(s, VLAN_TLV);
    && !st.gotEnd && st.name == (if names == [] then None else Some(NameIn(names[|names| - 1])))
    && (infos == [] <==> st.info == None)
    && (infos != [] ==> |infos[|infos| - 1]| >= 32 && st.info == Some(InfoIn(infos[|infos| - 1])))
    && (st.gotVlans <==> vlans != []) && st.vlans == VlansIn(vlans) && st.mgmt == AddressesIn(vlans)
  }

  lemma {:induction false} VlansNext(vs: seq<seq<byte>>, v: seq<byte>)
    requires |v| >= 12
    ensures VlansIn(vs + [v]) == VlansIn(vs) + [VlanIn(v)]
    ensures AddressesIn(vs + [v]) == AddressesIn(vs) + if v[8..12] != [0, 0, 0, 0] then [v[8..12]] else []
  {
    assert (vs + [v])[..|vs|] == vs && (vs + [v])[|vs|] == v;
  }

  lemma {:induction false} KnownNext(ts: seq<Tlv>, n: nat, st: Parsed)
    requires n < |ts| && Ordinary(ts[n]) && Known(ts, n, st)
    ensures var r := Apply(ts[n].kind % 256, ts[n].value, st);
      (r.None? <==> Refused(ts[n])) && (r.Some? ==> Known(ts, n + 1, r.value))
  {
    hide Values, VlansIn, AddressesIn, CString, FirstNull;
    var t, s := ts[n], ts[..n];
    assert t.kind % 256 == t.kind - 0x9900;
    ValuesNext(ts, n, DISPLAY_TLV);
    ValuesNext(ts, n, INFO_TLV);
    ValuesNext(ts, n, VLAN_TLV);
    NameReads(t.value, 0);
    if t.kind == VLAN_TLV && |t.value| >= 12 {
      VlansNext(Values(s, VLAN_TLV), t.value);
      NameReads(t.value[12..], 0);
      assert Zeros(4) == [0, 0, 0, 0];
      assert st.mgmt + [] == st.mgmt;
    }
  }

  /** How the loop ends. */
  function Ending(rest: seq<byte>, st: Parsed): Option<Parsed>
  {
    if rest == [] then Some(st) else if Ends(rest) then Some(st.(gotEnd := true)) else None
  }

  lemma {:induction false} EndReads(frame: seq<byte>, p: nat, st: Parsed)
    requires p <= |frame| && !Goes(frame[p..]) && !st.gotEnd
    ensures ParseTlvs(frame, p, st) == Ending(frame[p..], st)
  {
    var rest := frame[p..];
    if |rest| >= 4 {
      assert rest[0] == frame[p] && rest[1] == frame[p + 1] && rest[2] == frame[p + 2] && rest[3] == frame[p + 3];
      var len := UnBE16(frame, p + 2) - 4;
      if rest[0] == 0x99 && rest[1] == 0 && 0 <= len <= |rest| - 4 {
        NullEnds(frame, p, len, st);
      }
    }
  }

  lemma {:induction false} NullEnds(frame: seq<byte>, p: nat, len: nat, st: Parsed)
    requires p + 4 + len <= |frame| && frame[p] == 0x99 && frame[p + 1] == 0 && UnBE16(frame, p + 2) == len + 4
    requires !st.gotEnd
    ensures ParseTlvs(frame, p, st) == if len == 0 then Some(st.(gotEnd := true)) else None
  {
    var s := frame[p + 4..p + 4 + len];
    assert s == [] <==> len == 0;
  }

  lemma {:induction false} LoopIs(frame: seq<byte>, p: nat, ts: seq<Tlv>, n: nat, rest: seq<byte>, st: Parsed)
    requires p <= |frame| && n <= |ts| && frame[p..] == Wire(ts, n) + rest && Known(ts, n, st) && !Goes(rest)
    requires forall k :: 0 <= k < |ts| ==> Ordinary(ts[k])
    ensures ParseTlvs(frame, p, st).None? <==>
      (exists k :: n <= k < |ts| && Refused(ts[k])) || (rest != [] && !Ends(rest))
    ensures ParseTlvs(frame, p, st).Some? ==>
      var r := ParseTlvs(frame, p, st).value;
      r.gotEnd == Ends(rest) && Known(ts, |ts|, r.(gotEnd := false))
    decreases |ts| - n
  {
    hide Known, Refused, Goes, Ends, Ordinary, Wire, ParseTlvs, Apply;
    KnownOpen(ts, n, st);
    if n == |ts| {
      assert Wire(ts, n) + rest == rest by {
        NoMore(ts);
      }
      EndReads(frame, p, st);
      NothingEnds();
    } else {
      LoopStep(frame, p, ts, n, rest, st);
      KnownNext(ts, n, st);
      var r := Apply(ts[n].kind % 256, ts[n].value, st);
      if r.Some? {
        LoopIs(frame, p + 4 + |ts[n].value|, ts, n + 1, rest, r.value);
      }
    }
  }

  lemma {:induction false} NoMore(ts: seq<Tlv>)
    ensures Wire(ts, |ts|) == []
  {
  }

  /** One turn of the loop. */
  lemma {:induction false} LoopStep(frame: seq<byte>, p: nat, ts: seq<Tlv>, n: nat, rest: seq<byte>, st: Parsed)
    requires p <= |frame| && n < |ts| && frame[p..] == Wire(ts, n) + rest && Ordinary(ts[n]) && !st.gotEnd
    ensures var next := p + 4 + |ts[n].value|;
      && next <= |frame| && frame[next..] == Wire(ts, n + 1) + rest
      && var r := Apply(ts[n].kind % 256, ts[n].value, st);
      ParseTlvs(frame, p, st) == if r.None? then None else ParseTlvs(frame, next, r.value)
  {
    hide Apply, Encode, UnBE16;
    var more := Wire(ts, n + 1) + rest;
    assert frame[p..] == Encode(ts[n]) + more;
    HeaderReads(frame, p, ts[n], more);
    MarkerReads(frame, p, ts[n]);
  }

  lemma {:induction false} NothingEnds()
    ensures !Ends([])
  {
  }

  lemma {:induction false} KnownOpen(ts: seq<Tlv>, n: nat, st: Parsed)
    requires n <= |ts| && Known(ts, n, st)
    ensures !st.gotEnd && st.(gotEnd := false) == st
  {
  }

  // ---------- Any frame ----------

  /** Destination, protocol 0x00bb, version 1, machine ID of type 0, a length that is not
      beyond the frame, and a one's-complement sum of all ones over that length. */
  predicate HeaderOk(frame: seq<byte>)
  {
    && |frame| >= 38 && frame[..6] == [0x00, 0xe0, 0x2b, 0x00, 0x00, 0x00]
    && frame[20] == 0x00 && frame[21] == 0xbb && frame[22] == 1 && frame[30] == 0 && frame[31] == 0
    && var len := frame[24] as int * 256 + frame[25];
       && len <= |frame| - 22
       && OnesSum(frame[22..22 + len], WordCount(frame[22..22 + len]), false) == 0xFFFF
  }

  lemma {:induction false} HeaderIs(frame: seq<byte>)
    requires |frame| >= 38
    ensures HeaderOk(frame) <==>
      && frame[..6] == EDP_ADDR && UnBE16(frame, 20) == LLC_PID_EDP && frame[22] == 1 && UnBE16(frame, 30) == 0
      && UnBE16(frame, 24) <= |frame| - START_EDP
      && ChecksumOf(frame[START_EDP..START_EDP + UnBE16(frame, 24)], false) == 0
  {
    hide OnesSum, ChecksumOf;
    var len := UnBE16(frame, 24);
    if len <= |frame| - 22 {
      ZeroChecksum(frame[22..22 + len], false);
    }
    assert UnBE16(frame, 20) == 0x00bb <==> frame[20] == 0x00 && frame[21] == 0xbb;
    assert UnBE16(frame, 30) == 0 <==> frame[30] == 0 && frame[31] == 0;
  }

  /** Any frame: its ordinary TLVs say what it describes, and it is refused exactly when
      the header, one of them, or the lack of an end make it so. */
  lemma {:induction false} FrameMeaning(frame: seq<byte>, ts: seq<Tlv>, rest: seq<byte>)
    requires |frame| >= 38 && frame[38..] == Wire(ts) + rest && !Goes(rest)
    requires forall k :: 0 <= k < |ts| ==> Ordinary(ts[k])
    ensures Decode(frame) ==
      if HeaderOk(frame) && (forall k :: 0 <= k < |ts| ==> !Refused(ts[k])) && Ends(rest)
      then Described(frame[32..38], ts) else Malformed
  {
    hide ParseTlvs, Wire, Known, Refused, Ends, Goes, HeaderOk, Described, UnBE16, ChecksumOf, Conclude;
    HeaderIs(frame);
    KnownAtStart(ts);
    LoopIs(frame, START, ts, 0, rest, NOTHING);
    match ParseTlvs(frame, START, NOTHING)
    case None =>
    case Some(st) => Concluded(frame[32..38], ts, st);
  }

  lemma {:induction false} KnownAtStart(ts: seq<Tlv>)
    ensures Known(ts, 0, NOTHING)
  {
  }

  lemma {:induction false} Concluded(id: seq<byte>, ts: seq<Tlv>, st: Parsed)
    requires Known(ts, |ts|, st.(gotEnd := false))
    ensures Conclude(id, st) == if st.gotEnd then Described(id, ts) else Malformed
  {
    hide Values, VlansIn, AddressesIn, NameIn;
    assert ts[..|ts|] == ts;
  }

  /** And every frame long enough is made of ordinary TLVs and of an end. */
  lemma {:induction false} FrameParts(frame: seq<byte>, p: nat) returns (ts: seq<Tlv>, rest: seq<byte>)
    requires p <= |frame|
    ensures frame[p..] == Wire(ts) + rest && !Goes(rest) && forall k :: 0 <= k < |ts| ==> Ordinary(ts[k])
    decreases |frame| - p
  {
    hide Wire, Encode;
    ts, rest := [], frame[p..];
    NoWire();
    if Goes(frame[p..]) {
      var next := p + LengthAt(frame[p..]);
      var t := Tlv(UnBE16(frame, p), frame[p + 4..next]);
      var more;
      more, rest := FrameParts(frame, next);
      ts := [t] + more;
      FirstPart(frame, p, next, t);
      WireFirst(t, more);
      assert frame[p..] == frame[p..next] + frame[next..];
      assert Encode(t) + (Wire(more) + rest) == Encode(t) + Wire(more) + rest;
    }
  }

  lemma {:induction false} FirstPart(frame: seq<byte>, p: nat, next: nat, t: Tlv)
    requires p <= |frame| && Goes(frame[p..]) && next == p + LengthAt(frame[p..])
    requires t == Tlv(UnBE16(frame, p), frame[p + 4..next])
    ensures Ordinary(t) && frame[p..next] == Encode(t)
  {
    var s := frame[p..];
    assert s[0] == frame[p] && s[1] == frame[p + 1] && s[2] == frame[p + 2] && s[3] == frame[p + 3];
    Written(frame, p, t);
  }
}
