/** Frames of the Cisco Discovery Protocol, versions 1 and 2, and of the Foundry
    Discovery Protocol (src/daemon/cdp.c): what is sent and what is understood. */
module Cdp {
  import opened Bytes
  import opened Tlv
  import opened Checksum

  datatype Version = V1 | V2 | Fdp

  datatype Cap = OtherCap | Repeater | Bridge | Wlan | Router | Telephone | Docsis | Station

  datatype Address = IPv4(addr: seq<byte>) | OtherFamily

  /** What the local system announces; None is a null string.  `power` is the value
      of LLDP-MED power when that extension is enabled and the source is not local. */
  datatype Sender = Sender(mac: seq<byte>, ttl: nat, name: Option<seq<byte>>, mgmt: seq<Address>,
      portDescr: Option<seq<byte>>, caps: set<Cap>, pvid: nat, descr: Option<seq<byte>>, platform: seq<byte>,
      power: Option<nat>)

  const CDP_ADDR: seq<byte> := [0x01, 0x00, 0x0c, 0xcc, 0xcc, 0xcc]
  const FDP_ADDR: seq<byte> := [0x01, 0xe0, 0x52, 0xcc, 0xcc, 0xcc]
  const LLC_CISCO: seq<byte> := [0x00, 0x00, 0x0c]
  const LLC_FOUNDRY: seq<byte> := [0x00, 0xe0, 0x52]
  const LLC_PID_CDP: nat := 0x2000
  const PROTO_IP: byte := 0xcc

  const CHASSIS: nat := 1
  const ADDRESSES: nat := 2
  const PORT: nat := 3
  const CAPABILITIES: nat := 4
  const SOFTWARE: nat := 5
  const PLATFORM: nat := 6
  const NATIVEVLAN: nat := 10
  const POWER: nat := 16

  /** Ethernet header, LLC header, CDP header. */
  const START: nat := 26

  function Text(s: Option<seq<byte>>): seq<byte>
  {
    if s.Some? then s.value else []
  }

  // ---------- Sending ----------

  /** The IPv4 addresses among the management addresses from i on, in order. */
  function IPv4s(mgmt: seq<Address>, i: nat := 0): seq<seq<byte>>
    decreases |mgmt| - i
  {
    if i >= |mgmt| then []
    else (if mgmt[i].IPv4? then [mgmt[i].addr] else []) + IPv4s(mgmt, i + 1)
  }

  function AddressEntry(a: seq<byte>): seq<byte>
  {
    [1, 1, PROTO_IP] + BE16(4) + a
  }

  function AddressEntries(addrs: seq<seq<byte>>, i: nat := 0): seq<byte>
    decreases |addrs| - i
  {
    if i >= |addrs| then [] else AddressEntry(addrs[i]) + AddressEntries(addrs, i + 1)
  }

  function AddressValue(addrs: seq<seq<byte>>): seq<byte>
  {
    BE32(|addrs|) + AddressEntries(addrs)
  }

  /** Capabilities are a bit mask, or a word with FDP. */
  function CapsValue(caps: set<Cap>, v: Version): seq<byte>
  {
    if v != Fdp then BE32((if Router in caps then 0x01 else 0) + (if Bridge in caps then 0x08 else 0) + 0x10)
    else if Router in caps then WORD_ROUTER
    else if Bridge in caps then WORD_SWITCH
    else if Repeater in caps then WORD_BRIDGE
    else WORD_HOST
  }

  const WORD_ROUTER: seq<byte> := [82, 111, 117, 116, 101, 114]
  const WORD_SWITCH: seq<byte> := [83, 119, 105, 116, 99, 104]
  const WORD_BRIDGE: seq<byte> := [66, 114, 105, 100, 103, 101]
  const WORD_HOST: seq<byte> := [72, 111, 115, 116]

  predicate SendsPower(x: Sender, v: Version)
  {
    v == V2 && x.power.Some? && 0 < x.power.value <= 655
  }

  /** The TLVs of a frame, in the order they are sent. */
  function TlvsOf(x: Sender, v: Version): seq<Tlv>
  {
    [Tlv(CHASSIS, Text(x.name))]
    + (if IPv4s(x.mgmt) != [] then [Tlv(ADDRESSES, AddressValue(IPv4s(x.mgmt)))] else [])
    + [Tlv(PORT, Text(x.portDescr)), Tlv(CAPABILITIES, CapsValue(x.caps, v))]
    + (if v == V2 && x.pvid != 0 then [Tlv(NATIVEVLAN, BE16(x.pvid))] else [])
    + [Tlv(SOFTWARE, Text(x.descr)), Tlv(PLATFORM, x.platform)]
    + (if SendsPower(x, v) then [Tlv(POWER, BE16(x.power.value * 100))] else [])
  }

  function Ethernet(x: Sender, v: Version, len: nat): seq<byte>
  {
    (if v == Fdp then FDP_ADDR else CDP_ADDR) + x.mac + BE16(len)
  }

  function Llc(v: Version): seq<byte>
  {
    [0xaa, 0xaa, 0x03] + (if v == Fdp then LLC_FOUNDRY else LLC_CISCO) + BE16(LLC_PID_CDP)
  }

  /** Everything the checksum covers. */
  function Body(x: Sender, v: Version, checksum: seq<byte>): seq<byte>
  {
    [if v == V2 then 2 else 1, x.ttl % 256] + checksum + Wire(TlvsOf(x, v))
  }

  /** The frame: 802.3 length and checksum included. */
  function FrameOf(x: Sender, v: Version): seq<byte>
  {
    var draft := Body(x, v, [0, 0]);
    Ethernet(x, v, 8 + |draft|) + Llc(v) + Body(x, v, LE(ChecksumOf(draft, v != Fdp), 2))
  }

  // ---------- Receiving ----------

  datatype Parsed = Parsed(name: Option<seq<byte>>, portDescr: Option<seq<byte>>, mgmt: seq<seq<byte>>, caps: set<Cap>,
      software: Option<seq<byte>>, platform: Option<seq<byte>>, pvid: nat, vlans: seq<nat>, unknown: nat)

  const NOTHING: Parsed := Parsed(None, None, [], {}, None, None, 0, [], 0)

  /** The neighbour a frame describes. */
  datatype Neighbor = Neighbor(ttl: nat, name: seq<byte>, descr: seq<byte>, portDescr: seq<byte>, mgmt: seq<seq<byte>>,
      caps: set<Cap>, pvid: nat, vlans: seq<nat>)

  /** One entry of an address list: where it ends, and the address if it is IPv4. */
  datatype Entry = Entry(next: nat, ip: Option<seq<byte>>)

  /** The entry at position q; None if it does not fit. */
  function OneAddress(c: seq<byte>, q: nat): (r: Option<Entry>)
    requires q <= |c|
    ensures r.Some? ==> q < r.value.next <= |c|
  {
    if |c| - q < 2 then None
    else
      var plen: nat := c[q + 1];
      if |c| - q - 2 < plen + 2 then None
      else
        var alen := UnBE16(c, q + 2 + plen);
        if |c| - q - 4 - plen < alen then None
        else
          var ip := c[q] == 1 && plen == 1 && c[q + 2] == PROTO_IP && alen == 4;
          Some(Entry(q + 4 + plen + alen, if ip then Some(c[q + 5..q + 9]) else None))
  }

  /** The address list: `nb` more entries from position q; IPv4 ones are kept. */
  function ParseAddresses(c: seq<byte>, q: nat, nb: nat, acc: seq<seq<byte>>): Option<seq<seq<byte>>>
    requires q <= |c|
    decreases nb
  {
    if nb == 0 then Some(acc)
    else match OneAddress(c, q)
      case None => None
      case Some(e) => ParseAddresses(c, e.next, nb - 1, if e.ip.Some? then acc + [e.ip.value] else acc)
  }

  /** strncmp(word, s, n) == 0, s being followed by `n` readable bytes at least. */
  predicate SameWord(word: seq<byte>, s: seq<byte>, n: nat, i: nat := 0)
    requires n <= |s| && i <= |word|
    decreases n - i
  {
    i >= n || (i == |word| && s[i] == 0) ||
      (i < |word| && s[i] == word[i] && (s[i] == 0 || SameWord(word, s, n, i + 1)))
  }

  function FdpCaps(s: seq<byte>): set<Cap>
  {
    if SameWord(WORD_ROUTER, s, |s|) then {Router}
    else if SameWord(WORD_SWITCH, s, |s|) then {Bridge}
    else if SameWord(WORD_BRIDGE, s, |s|) then {Repeater}
    else {Station}
  }

  /** Bits of the CDP capabilities, added to those already known. */
  function CdpCaps(bits: nat, known: set<Cap>): set<Cap>
  {
    var caps := known + (if bits % 2 == 1 then {Router} else {}) + (if bits / 2 % 8 != 0 then {Bridge} else {});
    if caps == {} then {Station} else caps
  }

  /** A signed 32-bit count: no iteration when it is negative. */
  function Iterations(n: nat): nat
  {
    if n < 0x8000_0000 then n else 0
  }

  /** What one TLV changes; None rejects the frame.  `zero` tells whether malloc(0)
      returns a pointer. */
  function Apply(t: Tlv, fdp: bool, zero: bool, st: Parsed): Option<Parsed>
  {
    var s := t.value;
    if t.kind == CHASSIS then
      if s == [] && !zero then None else Some(st.(name := Some(s)))
    else if t.kind == ADDRESSES then
      if |s| < 4 then None
      else match ParseAddresses(s, 4, Iterations(UnBE32(s, 0)), st.mgmt)
        case None => None
        case Some(mgmt) => Some(st.(mgmt := mgmt))
    else if t.kind == PORT then
      if s == [] then None else Some(st.(portDescr := Some(s)))
    else if t.kind == CAPABILITIES then
      if fdp then Some(st.(caps := FdpCaps(s)))
      else if |s| < 4 then None
      else Some(st.(caps := CdpCaps(UnBE32(s, 0), st.caps)))
    else if t.kind == SOFTWARE then Some(st.(software := Some(s)))
    else if t.kind == PLATFORM then Some(st.(platform := Some(s)))
    else if t.kind == NATIVEVLAN then
      if |s| < 2 then None else Some(st.(pvid := UnBE16(s, 0), vlans := st.vlans + [UnBE16(s, 0)]))
    else Some(st.(unknown := st.unknown + 1))
  }

  /** The loop over the TLVs from position p to the end of the frame. */
  function ParseTlvs(frame: seq<byte>, p: nat, fdp: bool, zero: bool, st: Parsed): Option<Parsed>
    requires p <= |frame|
    decreases |frame| - p
  {
    if p == |frame| then Some(st)
    else if |frame| - p < 4 then None
    else
      var len := UnBE16(frame, p + 2) - 4;
      if len < 0 || |frame| - p - 4 < len then None
      else match Apply(Tlv(UnBE16(frame, p), frame[p + 4..p + 4 + len]), fdp, zero, st)
        case None => None
        case Some(st') => ParseTlvs(frame, p + 4 + len, fdp, zero, st')
  }

  const RUNNING_ON: seq<byte> := [32, 114, 117, 110, 110, 105, 110, 103, 32, 111, 110, 10]

  function Description(st: Parsed): Option<seq<byte>>
  {
    if st.software.None? then st.platform
    else if st.platform.None? then st.software
    else Some(st.platform.value + RUNNING_ON + st.software.value)
  }

  /** The mandatory pieces. */
  function Conclude(ttl: nat, st: Parsed): Option<Neighbor>
  {
    var descr := Description(st);
    if st.name.None? || descr.None? || st.portDescr.None? || ttl == 0 || st.caps == {} then None
    else Some(Neighbor(ttl, st.name.value, descr.value, st.portDescr.value, st.mgmt, st.caps, st.pvid, st.vlans))
  }

  /** cdp_decode().  Any destination but the CDP one is taken for FDP. */
  function Decode(frame: seq<byte>, zero: bool): Option<Neighbor>
  {
    if |frame| < START || UnBE16(frame, 12) > |frame| - 14 || UnBE16(frame, 20) != LLC_PID_CDP || frame[22] !in {1, 2}
      then None
    else match ParseTlvs(frame, START, frame[..6] != CDP_ADDR, zero, NOTHING)
      case None => None
      case Some(st) => Conclude(frame[23], st)
  }

  /** cdp_guess(): is this a CDP frame of the given version? */
  predicate Guess(frame: seq<byte>, version: nat)
  {
    |frame| >= START && frame[..6] == CDP_ADDR && frame[22] == version
  }
}
