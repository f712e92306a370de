/** The packet filter of src/daemon/lldpd.h, run by the classic BPF machine of
    include/linux/filter.h, against the expression it was compiled from. */
module BpfFilter {
  import opened Bytes

  datatype Insn = Insn(code: nat, jt: nat, jf: nat, k: nat)

  /** Load word, half-word or byte at a fixed offset. */
  const LD_W: nat := 0x20
  const LD_H: nat := 0x28
  const LD_B: nat := 0x30

  /** And with a constant, jump if equal to a constant, return a constant. */
  const AND_K: nat := 0x54
  const JEQ_K: nat := 0x15
  const RET_K: nat := 0x06

  const ACCEPT: nat := 0xffff

  /** Bitwise and of two numbers, from the lowest bit up. */
  function And(a: nat, b: nat): nat
  {
    if a == 0 || b == 0 then 0 else (if a % 2 == 1 && b % 2 == 1 then 1 else 0) + 2 * And(a / 2, b / 2)
  }

  const FILTER: seq<Insn> := [
    Insn(0x30, 0, 0, 0x00000000),
    Insn(0x54, 0, 0, 0x00000001),
    Insn(0x15, 0, 14, 0x00000001),
    Insn(0x28, 0, 0, 0x0000000c),
    Insn(0x15, 0, 4, 0x000088cc),
    Insn(0x20, 0, 0, 0x00000002),
    Insn(0x15, 0, 2, 0xc200000e),
    Insn(0x28, 0, 0, 0x00000000),
    Insn(0x15, 12, 13, 0x00000180),
    Insn(0x20, 0, 0, 0x00000002),
    Insn(0x15, 0, 2, 0x52cccccc),
    Insn(0x28, 0, 0, 0x00000000),
    Insn(0x15, 8, 9, 0x000001e0),
    Insn(0x15, 1, 0, 0x0ccccccc),
    Insn(0x15, 0, 2, 0x81000100),
    Insn(0x28, 0, 0, 0x00000000),
    Insn(0x15, 4, 5, 0x00000100),
    Insn(0x20, 0, 0, 0x00000002),
    Insn(0x15, 0, 3, 0x2b000000),
    Insn(0x28, 0, 0, 0x00000000),
    Insn(0x15, 0, 1, 0x000000e0),
    Insn(0x06, 0, 0, 0x0000ffff),
    Insn(0x06, 0, 0, 0x00000000)
  ]

  /** What the program returns from instruction pc on, with `acc` in the accumulator.
      Jumps are relative to the next instruction and only go forward, so every run of
      every program ends.  A load outside the packet, and running off the program,
      reject the packet. */
  function Run(prog: seq<Insn>, packet: seq<byte>, pc: nat, acc: nat): nat
    decreases |prog| - pc
  {
    if pc >= |prog| then 0
    else
      var i := prog[pc];
      if i.code == LD_B then
        if i.k + 1 > |packet| then 0 else Run(prog, packet, pc + 1, packet[i.k])
      else if i.code == LD_H then
        if i.k + 2 > |packet| then 0 else Run(prog, packet, pc + 1, UnBE16(packet, i.k))
      else if i.code == LD_W then
        if i.k + 4 > |packet| then 0 else Run(prog, packet, pc + 1, UnBE32(packet, i.k))
      else if i.code == AND_K then Run(prog, packet, pc + 1, And(acc, i.k))
      else if i.code == JEQ_K then Run(prog, packet, pc + 1 + (if acc == i.k then i.jt else i.jf), acc)
      else if i.code == RET_K then i.k
      else 0
  }

  // ---------- The expression ----------

  const LLDP_DST: seq<byte> := [0x01, 0x80, 0xc2, 0x00, 0x00, 0x0e]
  const FDP_DST: seq<byte> := [0x01, 0xe0, 0x52, 0xcc, 0xcc, 0xcc]
  const CDP_DST: seq<byte> := [0x01, 0x00, 0x0c, 0xcc, 0xcc, 0xcc]
  const SONMP_DST: seq<byte> := [0x01, 0x00, 0x81, 0x00, 0x01, 0x00]
  const EDP_DST: seq<byte> := [0x00, 0xe0, 0x2b, 0x00, 0x00, 0x00]

  predicate EtherDst(packet: seq<byte>, dst: seq<byte>)
  {
    |packet| >= 6 && packet[..6] == dst
  }

  predicate EtherProto(packet: seq<byte>, proto: nat)
  {
    |packet| >= 14 && UnBE16(packet, 12) == proto
  }

  predicate Expression(packet: seq<byte>)
  {
    || (&& |packet| >= 1
        && packet[0] % 2 == 1
        && (|| (EtherProto(packet, 0x88cc) && EtherDst(packet, LLDP_DST))
            || EtherDst(packet, FDP_DST)
            || EtherDst(packet, CDP_DST)
            || EtherDst(packet, SONMP_DST)))
    || EtherDst(packet, EDP_DST)
  }

  // ---------- One instruction at a time ----------

  function Verdict(ok: bool): nat
  {
    if ok then ACCEPT else 0
  }

  lemma {:induction false} Jump(p: seq<byte>, pc: nat, a: nat)
    requires pc < |FILTER| && FILTER[pc].code == JEQ_K
    ensures Run(FILTER, p, pc, a) == Run(FILTER, p, pc + 1 +
      (if a == FILTER[pc].k then FILTER[pc].jt else FILTER[pc].jf), a)
  {
    hide UnBE16, UnBE32, And;
  }

  lemma {:induction false} LoadHalf(p: seq<byte>, pc: nat, a: nat)
    requires pc < |FILTER| && FILTER[pc].code == LD_H
    ensures Run(FILTER, p, pc, a) ==
      if FILTER[pc].k + 2 > |p| then 0 else Run(FILTER, p, pc + 1, UnBE16(p, FILTER[pc].k))
  {
    hide UnBE16, UnBE32, And;
  }

  lemma {:induction false} LoadWord(p: seq<byte>, pc: nat, a: nat)
    requires pc < |FILTER| && FILTER[pc].code == LD_W
    ensures Run(FILTER, p, pc, a) ==
      if FILTER[pc].k + 4 > |p| then 0 else Run(FILTER, p, pc + 1, UnBE32(p, FILTER[pc].k))
  {
    hide UnBE16, UnBE32, And;
  }

  lemma {:induction false} LoadByte(p: seq<byte>, a: nat)
    ensures Run(FILTER, p, 0, a) == if |p| == 0 then 0 else Run(FILTER, p, 1, p[0])
  {
    hide UnBE16, UnBE32, And;
  }

  lemma {:induction false} Mask(p: seq<byte>, a: nat)
    ensures Run(FILTER, p, 1, a) == Run(FILTER, p, 2, And(a, 1))
  {
    hide UnBE16, UnBE32, And;
  }

  lemma {:induction false} Ends(p: seq<byte>, a: nat)
    ensures Run(FILTER, p, 21, a) == ACCEPT && Run(FILTER, p, 22, a) == 0
  {
    hide UnBE16, UnBE32, And;
  }

  // ---------- Running the program backwards ----------

  /** A load of the first half-word followed by a test, at 7, 11, 15 and 19. */
  lemma {:induction false} HalfTest(p: seq<byte>, pc: nat, a: nat)
    requires |p| >= 6 && pc in {7, 11, 15, 19}
    ensures Run(FILTER, p, pc, a) == Verdict(UnBE16(p, 0) == FILTER[pc + 1].k)
  {
    hide Run, UnBE16;
    LoadHalf(p, pc, a);
    Jump(p, pc + 1, UnBE16(p, 0));
    Ends(p, UnBE16(p, 0));
  }

  lemma {:induction false} From17(p: seq<byte>, a: nat)
    requires |p| >= 6
    ensures Run(FILTER, p, 17, a) == Verdict(UnBE32(p, 2) == 0x2b000000 && UnBE16(p, 0) == 0x00e0)
  {
    hide Run, UnBE16, UnBE32;
    var w := UnBE32(p, 2);
    LoadWord(p, 17, a);
    Jump(p, 18, w);
    HalfTest(p, 19, w);
    Ends(p, w);
  }

  lemma {:induction false} From13(p: seq<byte>, w: nat)
    requires |p| >= 6 && w == UnBE32(p, 2)
    ensures Run(FILTER, p, 13, w) ==
      Verdict(if w == 0x0ccccccc || w == 0x81000100 then UnBE16(p, 0) == 0x0100
              else w == 0x2b000000 && UnBE16(p, 0) == 0x00e0)
  {
    hide Run, UnBE16, UnBE32;
    Jump(p, 13, w);
    Jump(p, 14, w);
    HalfTest(p, 15, w);
    From17(p, w);
  }

  lemma {:induction false} From9(p: seq<byte>, a: nat)
    requires |p| >= 6
    ensures var w, h := UnBE32(p, 2), UnBE16(p, 0);
      Run(FILTER, p, 9, a) ==
      Verdict(if w == 0x52cccccc then h == 0x01e0
              else if w == 0x0ccccccc || w == 0x81000100 then h == 0x0100
              else w == 0x2b000000 && h == 0x00e0)
  {
    hide Run, UnBE16, UnBE32;
    var w := UnBE32(p, 2);
    LoadWord(p, 9, a);
    Jump(p, 10, w);
    HalfTest(p, 11, w);
    From13(p, w);
  }

  lemma {:induction false} From5(p: seq<byte>, a: nat)
    requires |p| >= 6
    ensures var w, h := UnBE32(p, 2), UnBE16(p, 0);
      Run(FILTER, p, 5, a) == if w == 0xc200000e then Verdict(h == 0x0180) else Run(FILTER, p, 9, w)
  {
    hide Run, UnBE16, UnBE32;
    var w := UnBE32(p, 2);
    LoadWord(p, 5, a);
    Jump(p, 6, w);
    HalfTest(p, 7, w);
  }

  lemma {:induction false} From3(p: seq<byte>, a: nat)
    requires |p| >= 14
    ensures var w, h := UnBE32(p, 2), UnBE16(p, 0);
      Run(FILTER, p, 3, a) ==
      Verdict(if UnBE16(p, 12) == 0x88cc && w == 0xc200000e then h == 0x0180
              else if w == 0x52cccccc then h == 0x01e0
              else if w == 0x0ccccccc || w == 0x81000100 then h == 0x0100
              else w == 0x2b000000 && h == 0x00e0)
  {
    hide Run, UnBE16, UnBE32;
    var w, t := UnBE32(p, 2), UnBE16(p, 12);
    LoadHalf(p, 3, a);
    Jump(p, 4, t);
    From5(p, t);
    From9(p, t);
    From9(p, w);
  }

  lemma {:induction false} AndOne(a: nat)
    ensures And(a, 1) == a % 2
  {
    if a != 0 {
      assert And(a / 2, 0) == 0;
      assert And(a, 1) == (if a % 2 == 1 then 1 else 0) + 2 * And(a / 2, 1 / 2);
    }
  }

  lemma {:induction false} From0(p: seq<byte>)
    requires |p| >= 1
    ensures Run(FILTER, p, 0, 0) == if p[0] % 2 == 1 then Run(FILTER, p, 3, 1) else Run(FILTER, p, 17, 0)
  {
    hide Run, And;
    AndOne(p[0]);
    LoadByte(p, 0);
    Mask(p, p[0]);
    Jump(p, 2, p[0] % 2);
  }

  /** A packet without a whole Ethernet header fails the first load after the test of
      the group bit, or the one that reads the rest of the destination. */
  lemma {:induction false} FromShort(p: seq<byte>)
    requires |p| < 14
    ensures |p| >= 1 && p[0] % 2 == 1 ==> Run(FILTER, p, 0, 0) == 0
    ensures |p| < 6 ==> Run(FILTER, p, 0, 0) == 0
  {
    hide Run, And;
    LoadByte(p, 0);
    if |p| >= 1 {
      From0(p);
      LoadHalf(p, 3, 1);
      LoadWord(p, 17, 0);
    }
  }

  // ---------- Addresses as numbers ----------

  /** A destination address is a half-word and a word. */
  lemma {:induction false} DstReads(p: seq<byte>, dst: seq<byte>)
    requires |p| >= 6 && |dst| == 6
    ensures EtherDst(p, dst) <==> UnBE16(p, 0) == UnBE16(dst, 0) && UnBE32(p, 2) == UnBE32(dst, 2)
  {
    if p[..6] == dst {
      assert forall i :: 0 <= i < 6 ==> p[i] == p[..6][i] == dst[i];
    }
    if UnBE16(p, 0) == UnBE16(dst, 0) && UnBE32(p, 2) == UnBE32(dst, 2) {
      SameHalf(p, dst, 0);
      SameWord(p, dst, 2);
      assert p[..6] == dst;
    }
  }

  lemma {:induction false} SameHalf(p: seq<byte>, q: seq<byte>, at: nat)
    requires at + 2 <= |p| && at + 2 <= |q| && UnBE16(p, at) == UnBE16(q, at)
    ensures p[at] == q[at] && p[at + 1] == q[at + 1]
  {
  }

  lemma {:induction false} SameWord(p: seq<byte>, q: seq<byte>, at: nat)
    requires at + 4 <= |p| && at + 4 <= |q| && UnBE32(p, at) == UnBE32(q, at)
    ensures p[at] == q[at] && p[at + 1] == q[at + 1] && p[at + 2] == q[at + 2] && p[at + 3] == q[at + 3]
  {
    assert UnBE16(p, at) == UnBE16(q, at) && UnBE16(p, at + 2) == UnBE16(q, at + 2) by {
      hide UnBE16;
    }
    SameHalf(p, q, at);
    SameHalf(p, q, at + 2);
  }

  lemma {:induction false} Constants()
    ensures UnBE16(LLDP_DST, 0) == 0x0180 && UnBE32(LLDP_DST, 2) == 0xc200000e
    ensures UnBE16(FDP_DST, 0) == 0x01e0 && UnBE32(FDP_DST, 2) == 0x52cccccc
    ensures UnBE16(CDP_DST, 0) == 0x0100 && UnBE32(CDP_DST, 2) == 0x0ccccccc
    ensures UnBE16(SONMP_DST, 0) == 0x0100 && UnBE32(SONMP_DST, 2) == 0x81000100
    ensures UnBE16(EDP_DST, 0) == 0x00e0 && UnBE32(EDP_DST, 2) == 0x2b000000
  {
  }

  /** The first half-word tells the lowest bit of the first byte. */
  lemma {:induction false} FirstBit(p: seq<byte>)
    requires |p| >= 6
    ensures UnBE16(p, 0) == 0x00e0 ==> p[0] == 0
    ensures UnBE16(p, 0) in {0x0180, 0x01e0, 0x0100} ==> p[0] == 1
  {
  }

  /** On every packet that has an Ethernet header, the program accepts exactly what
      the expression describes. */
  lemma {:induction false} FilterIsExpression(p: seq<byte>)
    requires |p| >= 14
    ensures Run(FILTER, p, 0, 0) == Verdict(Expression(p))
  {
    hide Run, UnBE16, UnBE32, EtherDst;
    From0(p);
    From3(p, 1);
    From17(p, 0);
    Constants();
    DstReads(p, LLDP_DST);
    DstReads(p, FDP_DST);
    DstReads(p, CDP_DST);
    DstReads(p, SONMP_DST);
    DstReads(p, EDP_DST);
    FirstBit(p);
  }

  /** A shorter packet is accepted exactly when it begins with EDP's destination. */
  lemma {:induction false} ShortPackets(p: seq<byte>)
    requires |p| < 14
    ensures Run(FILTER, p, 0, 0) == Verdict(EtherDst(p, EDP_DST))
  {
    hide Run, UnBE16, UnBE32;
    FromShort(p);
    if |p| >= 6 {
      From0(p);
      From17(p, 0);
      Constants();
      DstReads(p, EDP_DST);
      FirstBit(p);
    }
  }

  /** On packets of every length: the program and the expression part exactly on those
      too short to hold an EtherType that begin with the destination of FDP, CDP or
      SONMP.  The program loads the EtherType before it looks at any of these three. */
  lemma {:induction false} FilterIsExpressionIff(p: seq<byte>)
    ensures Run(FILTER, p, 0, 0) == Verdict(Expression(p)) <==>
      |p| >= 14 || !(EtherDst(p, FDP_DST) || EtherDst(p, CDP_DST) || EtherDst(p, SONMP_DST))
  {
    hide Run, UnBE16;
    if |p| >= 14 {
      FilterIsExpression(p);
    } else {
      ShortPackets(p);
      assert !EtherProto(p, 0x88cc);
      if |p| >= 6 {
        assert p[..6][0] == p[0];
      }
    }
  }

  /** Six bytes are enough to be accepted, and thirteen not enough to be. */
  lemma {:induction false} ShortExamples()
    ensures Run(FILTER, EDP_DST, 0, 0) == ACCEPT
    ensures var p := CDP_DST + [0, 0, 0, 0, 0, 0, 0]; Expression(p) && Run(FILTER, p, 0, 0) == 0
  {
    hide Run, UnBE16;
    ShortPackets(EDP_DST);
    assert EDP_DST[..6] == EDP_DST;
    var p := CDP_DST + [0, 0, 0, 0, 0, 0, 0];
    ShortPackets(p);
    assert p[..6] == CDP_DST;
    assert p[0] == 1 && EDP_DST[0] == 0;
  }
}
