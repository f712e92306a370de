/** Frames of the Extreme Discovery Protocol (src/daemon/edp.c): a display frame, a
    VLAN frame, and how the VLANs reach a neighbour already known. */
module Edp {
  import opened Bytes
  import opened Tlv
  import opened Checksum

  datatype Vlan = Vlan(vid: nat, name: seq<byte>)

  /** What the local system announces on a port. */
  datatype Sender = Sender(mac: seq<byte>, id: seq<byte>, name: seq<byte>, slot: nat, port: nat, vlans: seq<Vlan>)

  const EDP_ADDR: seq<byte> := [0x00, 0xe0, 0x2b, 0x00, 0x00, 0x00]
  const LLC_EXTREME: seq<byte> := [0x00, 0xe0, 0x2b]
  const LLC_PID_EDP: nat := 0x00bb
  const MARKER: nat := 0x99

  const NULL: nat := 0
  const DISPLAY: nat := 1
  const INFO: nat := 2
  const VLAN: nat := 5

  const FAKE_VERSION: seq<byte> := [7, 6, 4, 99]

  /** Ethernet header and LLC header; then the EDP header. */
  const START_EDP: nat := 22
  const START: nat := 38

  // ---------- Sending ----------

  /** The marker and the type make up the first two bytes of a TLV. */
  function Make(kind: nat, value: seq<byte>): Tlv
  {
    Tlv(MARKER * 256 + kind, value)
  }

  function InfoValue(slot: nat, port: nat): seq<byte>
  {
    BE16(slot) + BE16(port) + Zeros(8) + FAKE_VERSION + [0xff, 0xff, 0xff, 0xff] + Zeros(12)
  }

  function VlanValue(v: Vlan): seq<byte>
  {
    [0, 0] + BE16(v.vid) + Zeros(8) + v.name + [0]
  }

  /** The VLANs from the i-th on. */
  function VlanTlvs(vlans: seq<Vlan>, i: nat := 0): (ts: seq<Tlv>)
    requires i <= |vlans|
    ensures |ts| == |vlans| - i
    decreases |vlans| - i
  {
    if i == |vlans| then [] else [Make(VLAN, VlanValue(vlans[i]))] + VlanTlvs(vlans, i + 1)
  }

  /** The TLVs of the frame sent in the given state: 0 display, 1 VLANs. */
  function TlvsOf(x: Sender, state: nat): seq<Tlv>
  {
    (if state == 0 then [Make(DISPLAY, x.name + [0]), Make(INFO, InfoValue(x.slot, x.port))] else VlanTlvs(x.vlans)) +
      [Make(NULL, [])]
  }

  function Front(x: Sender, len: nat): seq<byte>
  {
    EDP_ADDR + x.mac + BE16(len) + [0xaa, 0xaa, 0x03] + LLC_EXTREME + BE16(LLC_PID_EDP)
  }

  /** The EDP packet, which the checksum covers. */
  function Packet(x: Sender, state: nat, num: nat, len: nat, checksum: seq<byte>): seq<byte>
  {
    [1, 0] + BE16(len) + checksum + BE16(num) + BE16(0) + x.id + Wire(TlvsOf(x, state))
  }

  function FrameOf(x: Sender, state: nat, num: nat): seq<byte>
  {
    var len := 10 + |x.id| + |Wire(TlvsOf(x, state))|;
    var draft := Packet(x, state, num, len, [0, 0]);
    Front(x, 8 + len) + Packet(x, state, num, len, LE(ChecksumOf(draft, false), 2))
  }

  // ---------- Receiving ----------

  /** The C string at the start of a buffer. */
  function CString(s: seq<byte>, i: nat := 0): seq<byte>
    decreases |s| - i
  {
    if i >= |s| || s[i] == 0 then [] else [s[i]] + CString(s, i + 1)
  }

  /** Slot, port and version of an info TLV. */
  datatype Info = Info(slot: nat, port: nat, version: seq<byte>)

  datatype Parsed = Parsed(name: Option<seq<byte>>, info: Option<Info>, vlans: seq<Vlan>, mgmt: seq<seq<byte>>,
      gotVlans: bool, gotEnd: bool, unknown: nat)

  const NOTHING: Parsed := Parsed(None, None, [], [], false, false, 0)

  /** What one TLV changes; None rejects the frame. */
  function Apply(kind: nat, s: seq<byte>, st: Parsed): Option<Parsed>
  {
    if kind == INFO then
      if |s| < 32 then None else Some(st.(info := Some(Info(UnBE16(s, 0), UnBE16(s, 2), s[12..16]))))
    else if kind == DISPLAY then Some(st.(name := Some(CString(s))))
    else if kind == NULL then (if s != [] then None else Some(st.(gotEnd := true)))
    else if kind == VLAN then
      if |s| < 12 then None
      else Some(st.(vlans := st.vlans + [Vlan(UnBE16(s, 2), CString(s[12..]))],
                    mgmt := st.mgmt + (if s[8..12] == Zeros(4) then [] else [s[8..12]]),
                    gotVlans := true))
    else Some(st.(unknown := st.unknown + 1))
  }

  /** The loop over the TLVs, up to the null TLV or the end of the frame; an
      impossible length ends it too. */
  function ParseTlvs(frame: seq<byte>, p: nat, st: Parsed): Option<Parsed>
    requires p <= |frame|
    decreases |frame| - p
  {
    if p == |frame| || st.gotEnd then Some(st)
    else if |frame| - p < 4 || frame[p] != MARKER then None
    else
      var len := UnBE16(frame, p + 2) - 4;
      if len < 0 || |frame| - p - 4 < len then Some(st.(gotEnd := true))
      else match Apply(frame[p + 1], frame[p + 4..p + 4 + len], st)
        case None => None
        case Some(st') => ParseTlvs(frame, p + 4 + len, st')
  }

  /** A frame is malformed, or describes a new neighbour, or brings the VLANs and
      addresses of one already known. */
  datatype Outcome =
    | Malformed
    | NewPort(id: seq<byte>, name: seq<byte>, info: Info, vlans: seq<Vlan>, mgmt: seq<seq<byte>>)
    | MoreVlans(id: seq<byte>, vlans: seq<Vlan>, mgmt: seq<seq<byte>>)

  function Conclude(id: seq<byte>, st: Parsed): Outcome
  {
    if st.name.Some? && st.info.Some? && st.gotEnd then NewPort(id, st.name.value, st.info.value, st.vlans, st.mgmt)
    else if st.gotVlans && st.gotEnd then MoreVlans(id, st.vlans, st.mgmt)
    else Malformed
  }

  /** edp_decode(), up to the list of ports. */
  function Decode(frame: seq<byte>): Outcome
  {
    if |frame| < START || frame[..6] != EDP_ADDR || UnBE16(frame, 20) != LLC_PID_EDP || frame[22] != 1 ||
      UnBE16(frame, 30) != 0 then Malformed
    else
      var len := UnBE16(frame, 24);
      if len > |frame| - START_EDP || ChecksumOf(frame[START_EDP..START_EDP + len], false) != 0 then Malformed
      else match ParseTlvs(frame, START, NOTHING)
        case None => Malformed
        case Some(st) => Conclude(frame[32..38], st)
  }

  // ---------- Attaching VLANs ----------

  /** A chassis: whether it was learnt with EDP, whether its ID is a MAC address, the ID,
      its addresses. */
  datatype Chassis = Chassis(edp: bool, mac: bool, id: seq<byte>, mgmt: seq<seq<byte>>)

  /** A neighbour known on an interface: whether it was learnt with EDP, its place in
      the list of chassis, the slot and port that make up its port ID with EDP, its
      VLANs.  Neighbours may share a chassis. */
  datatype Known = Known(edp: bool, chassis: nat, slot: nat, port: nat, vlans: seq<Vlan>)

  /** What is known: the neighbours of the interface, and all the chassis. */
  datatype Neighbors = Neighbors(ports: seq<Known>, chassis: seq<Chassis>)

  predicate Matches(n: Neighbors, k: nat, id: seq<byte>)
    requires k < |n.ports|
  {
    var p := n.ports[k];
    p.edp && p.chassis < |n.chassis| && n.chassis[p.chassis].mac && n.chassis[p.chassis].id == id
  }

  /** Addresses of the list from i on, each where it occurs last. */
  function LastOnes(s: seq<seq<byte>>, i: nat := 0): seq<seq<byte>>
    decreases |s| - i
  {
    if i >= |s| then []
    else if s[i] in s[i + 1..] then LastOnes(s, i + 1)
    else [s[i]] + LastOnes(s, i + 1)
  }

  /** Neighbour k gets the VLANs, and its chassis the addresses. */
  function Give(n: Neighbors, k: nat, vlans: seq<Vlan>, mgmt: seq<seq<byte>>): (r: Neighbors)
    requires k < |n.ports| && n.ports[k].chassis < |n.chassis|
    ensures |r.ports| == |n.ports|
  {
    var c := n.ports[k].chassis;
    Neighbors(n.ports[k := n.ports[k].(vlans := vlans)],
              n.chassis[c := n.chassis[c].(mgmt := n.chassis[c].mgmt + LastOnes(mgmt))])
  }

  /** The walk over the neighbours from the i-th on, with a VLAN frame: what a
      neighbour is given is no longer there for the next. */
  function Attach(n: Neighbors, i: nat, id: seq<byte>, vlans: seq<Vlan>, mgmt: seq<seq<byte>>): Neighbors
    decreases |n.ports| - i
  {
    if i >= |n.ports| then n
    else if Matches(n, i, id) then Attach(Give(n, i, vlans, mgmt), i + 1, id, [], [])
    else Attach(n, i + 1, id, vlans, mgmt)
  }
}
