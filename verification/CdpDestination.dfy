/** The destination cdp_decode() accepts.  The second comparison of src/daemon/cdp.c is
    with the CDP address again, where the FDP address is meant: no destination is
    refused, and any but the CDP one is read as FDP. */
module CdpDestination {
  import opened Bytes
  import opened Tlv
  import opened Cdp
  import opened CdpTheorems

  /** The decoder the code's own message describes: a frame that is not for one of the
      two multicast addresses is refused. */
  function DecodeAddressed(frame: seq<byte>, zero: bool): Option<Neighbor>
  {
    if |frame| >= 6 && frame[..6] in {CDP_ADDR, FDP_ADDR} then Decode(frame, zero) else None
  }

  /** The loop over the TLVs does not look back. */
  lemma {:induction false} ParseForward(f: seq<byte>, g: seq<byte>, p: nat, fdp: bool, zero: bool, st: Parsed)
    requires p <= |f| == |g| && forall i :: p <= i < |f| ==> f[i] == g[i]
    ensures ParseTlvs(f, p, fdp, zero, st) == ParseTlvs(g, p, fdp, zero, st)
    decreases |f| - p
  {
    hide Apply;
    if |f| - p >= 4 {
      assert UnBE16(f, p) == UnBE16(g, p) && UnBE16(f, p + 2) == UnBE16(g, p + 2);
      var len := UnBE16(f, p + 2) - 4;
      if 0 <= len <= |f| - p - 4 {
        assert f[p + 4..p + 4 + len] == g[p + 4..p + 4 + len];
        match Apply(Tlv(UnBE16(f, p), f[p + 4..p + 4 + len]), fdp, zero, st)
        case None =>
        case Some(st') => ParseForward(f, g, p + 4 + len, fdp, zero, st');
      }
    }
  }

  /** Any two destinations but the CDP one give the same outcome. */
  lemma {:induction false} DestinationIgnored(frame: seq<byte>, dst: seq<byte>, zero: bool)
    requires |frame| >= 6 && frame[..6] != CDP_ADDR && |dst| == 6 && dst != CDP_ADDR
    ensures Decode(dst + frame[6..], zero) == Decode(frame, zero)
  {
    hide ParseTlvs, Conclude;
    var g := dst + frame[6..];
    assert |g| == |frame| && g[..6] == dst && forall i :: 6 <= i < |frame| ==> g[i] == frame[i];
    if |frame| >= START {
      ParseForward(frame, g, START, true, zero, NOTHING);
    }
  }

  /** An FDP frame put behind any destination but the CDP one still describes its
      sender. */
  lemma {:induction false} ForeignDestination(x: Sender, dst: seq<byte>, zero: bool)
    requires ValidSender(x) && |FrameOf(x, Fdp)| < 0x1_0000 && |dst| == 6 && dst != CDP_ADDR
    ensures Decode(dst + FrameOf(x, Fdp)[6..], zero) == if Acceptable(x, zero) then Some(Understood(x, Fdp)) else None
  {
    hide FrameOf, Decode, Wire, TlvsOf, Understood, Acceptable;
    var frame := FrameOf(x, Fdp);
    assert frame + [] == frame;
    HeaderBytes(x, Fdp, []);
    DestinationIgnored(frame, dst, zero);
    CdpRoundTrip(x, Fdp, zero);
  }

  /** The decoder keeps to the two addresses exactly on frames that are for one of
      them, and on those whose content it would refuse from FDP as well. */
  lemma {:induction false} DestinationCheckedIff(frame: seq<byte>, zero: bool)
    ensures Decode(frame, zero) == DecodeAddressed(frame, zero) <==>
      |frame| < 6 || frame[..6] in {CDP_ADDR, FDP_ADDR} || Decode(FDP_ADDR + frame[6..], zero) == None
  {
    if |frame| >= 6 && frame[..6] !in {CDP_ADDR, FDP_ADDR} {
      hide Decode;
      assert FDP_ADDR[1] != CDP_ADDR[1];
      DestinationIgnored(frame, FDP_ADDR, zero);
    }
  }

  // ---------- A broadcast frame ----------

  const BROADCAST: seq<byte> := [255, 255, 255, 255, 255, 255]

  /** The TLVs of a host "a" on port "b", with software "c" and platform "d". */
  const TLVS: seq<Tlv> := [
    Tlv(CHASSIS, [97]), Tlv(PORT, [98]), Tlv(CAPABILITIES, WORD_HOST), Tlv(SOFTWARE, [99]), Tlv(PLATFORM, [100])
  ]

  const BROADCAST_FRAME: seq<byte> :=
    BROADCAST + [2, 0, 0, 0, 0, 1] + [0, 40] + [0xaa, 0xaa, 3, 0, 0xe0, 0x52] + [0x20, 0] + [1, 120, 0, 0] + Wire(TLVS)

  lemma {:induction false} BroadcastHeader()
    ensures var f := BROADCAST_FRAME;
      && |f| == 54 && f[..6] == BROADCAST && UnBE16(f, 12) == 40 && UnBE16(f, 20) == LLC_PID_CDP
      && f[22] == 1 && f[23] == 120 && f[START..] == Wire(TLVS) + []
  {
    assert |Wire(TLVS)| == 28 by {
      hide Encode;
      assert |Wire(TLVS, 4)| == 5;
      assert |Wire(TLVS, 3)| == 10;
      assert |Wire(TLVS, 2)| == 18;
      assert |Wire(TLVS, 1)| == 23;
    }
    hide Wire;
    var f := BROADCAST_FRAME;
    assert f[12] == 0 && f[13] == 40 && f[20] == 0x20 && f[21] == 0;
    assert f[START..] == Wire(TLVS);
  }

  /** A frame sent to everyone is taken for an FDP announcement. */
  lemma {:induction false} BroadcastAccepted(zero: bool)
    ensures Decode(BROADCAST_FRAME, zero) ==
      Some(Neighbor(120, [97], [100] + RUNNING_ON + [99], [98], [], {Station}, 0, []))
    ensures DecodeAddressed(BROADCAST_FRAME, zero) == None
  {
    hide ParseTlvs, ApplyAll, Wire;
    BroadcastHeader();
    assert BROADCAST[0] != CDP_ADDR[0] && BROADCAST[0] != FDP_ADDR[0];
    ParseWire(BROADCAST_FRAME, START, TLVS, 0, [], true, zero, NOTHING);
    BroadcastApplied(zero);
    ParseEnd(BROADCAST_FRAME, true, zero);
    assert Station in {Station};
  }

  lemma {:induction false} BroadcastApplied(zero: bool)
    ensures ApplyAll(TLVS, 0, true, zero, NOTHING) ==
      Some(Parsed(Some([97]), Some([98]), [], {Station}, Some([99]), Some([100]), 0, [], 0))
  {
    hide Apply;
    var s1 := NOTHING.(name := Some([97]));
    var s2 := s1.(portDescr := Some([98]));
    var s3 := s2.(caps := {Station});
    var s4 := s3.(software := Some([99]));
    Applied(zero, s1, s2, s3, s4);
    var s5 := s4.(platform := Some([100]));
    assert ApplyAll(TLVS, 4, true, zero, s4) == Some(s5);
    assert ApplyAll(TLVS, 3, true, zero, s3) == Some(s5);
    assert ApplyAll(TLVS, 2, true, zero, s2) == Some(s5);
    assert ApplyAll(TLVS, 1, true, zero, s1) == Some(s5);
  }

  lemma {:induction false} Applied(zero: bool, s1: Parsed, s2: Parsed, s3: Parsed, s4: Parsed)
    ensures Apply(Tlv(CHASSIS, [97]), true, zero, NOTHING) == Some(NOTHING.(name := Some([97])))
    ensures Apply(Tlv(PORT, [98]), true, zero, s1) == Some(s1.(portDescr := Some([98])))
    ensures Apply(Tlv(CAPABILITIES, WORD_HOST), true, zero, s2) == Some(s2.(caps := {Station}))
    ensures Apply(Tlv(SOFTWARE, [99]), true, zero, s3) == Some(s3.(software := Some([99])))
    ensures Apply(Tlv(PLATFORM, [100]), true, zero, s4) == Some(s4.(platform := Some([100])))
  {
    hide SameWord;
    WordsDiffer(WORD_ROUTER, WORD_HOST);
    WordsDiffer(WORD_SWITCH, WORD_HOST);
    WordsDiffer(WORD_BRIDGE, WORD_HOST);
  }
}
