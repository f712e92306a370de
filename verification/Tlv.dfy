/** Type-length-value lists as CDP lays them out: the length counts the header. */
module Tlv {
  import opened Bytes

  datatype Tlv = Tlv(kind: nat, value: seq<byte>)

  /** What fits in the two 16-bit fields. */
  predicate Fits(t: Tlv)
  {
    t.kind < 0x1_0000 && |t.value| + 4 < 0x1_0000
  }

  function Encode(t: Tlv): (s: seq<byte>)
    ensures |s| == 4 + |t.value|
  {
    BE16(t.kind) + BE16(|t.value| + 4) + t.value
  }

  /** The TLVs from the i-th on. */
  function Wire(ts: seq<Tlv>, i: nat := 0): seq<byte>
    decreases |ts| - i
  {
    if i >= |ts| then [] else Encode(ts[i]) + Wire(ts, i + 1)
  }

  lemma {:induction false} NoWire()
    ensures Wire([]) == []
  {
  }

  lemma {:induction false} WireAppend(ts: seq<Tlv>, us: seq<Tlv>, i: nat)
    requires i <= |ts|
    ensures Wire(ts + us, i) == Wire(ts, i) + Wire(us)
    decreases |ts| - i
  {
    if i < |ts| {
      WireAppend(ts, us, i + 1);
    } else {
      WireShift(ts, us, 0);
    }
  }

  lemma {:induction false} WireShift(ts: seq<Tlv>, us: seq<Tlv>, i: nat)
    requires i <= |us|
    ensures Wire(ts + us, |ts| + i) == Wire(us, i)
    decreases |us| - i
  {
    if i < |us| {
      WireShift(ts, us, i + 1);
    }
  }

  lemma {:induction false} WireLonger(ts: seq<Tlv>, i: nat, k: nat)
    requires i <= k < |ts|
    ensures 4 + |ts[k].value| <= |Wire(ts, i)|
    decreases |ts| - i
  {
    if i < k {
      WireLonger(ts, i + 1, k);
    }
  }

  /** The header of the TLV at position p of a frame reads back. */
  lemma {:induction false} HeaderReads(frame: seq<byte>, p: nat, t: Tlv, rest: seq<byte>)
    requires Fits(t) && p <= |frame| && frame[p..] == Encode(t) + rest
    ensures p + 4 + |t.value| <= |frame| && UnBE16(frame, p) == t.kind && UnBE16(frame, p + 2) == |t.value| + 4
    ensures frame[p + 4..p + 4 + |t.value|] == t.value && frame[p + 4 + |t.value|..] == rest
  {
    hide BE16, UnBE16;
    var s := frame[p..];
    assert |s| == |frame| - p == 4 + |t.value| + |rest|;
    assert frame[p..p + 2] == s[0..2] == BE16(t.kind);
    assert frame[p + 2..p + 4] == s[2..4] == BE16(|t.value| + 4);
    assert frame[p + 4..p + 4 + |t.value|] == s[4..4 + |t.value|] == t.value;
    assert frame[p + 4 + |t.value|..] == s[4 + |t.value|..] == rest;
    BE16Reads(t.kind, frame, p);
    BE16Reads(|t.value| + 4, frame, p + 2);
  }

  // ---------- Writing ----------

  lemma {:induction false} WritePrefix(s: seq<byte>, at: nat, d: seq<byte>, p: nat)
    requires at + |d| <= p <= |s|
    ensures Write(s, at, d)[..p] == Write(s[..p], at, d)
  {
  }

  lemma {:induction false} PatchLength(w: seq<byte>, t: Tlv)
    ensures Write(w + BE16(t.kind) + BE16(0) + t.value, |w| + 2, BE16(|t.value| + 4)) == w + Encode(t)
  {
    hide BE16;
  }

  lemma {:induction false} WireOne(ts: seq<Tlv>, t: Tlv)
    ensures Wire(ts + [t]) == Wire(ts) + Encode(t)
  {
    hide Encode;
    WireAppend(ts, [t], 0);
    assert Wire([t], 1) == [];
    assert Wire([t]) == Encode(t) + [];
  }

  lemma {:induction false} WirePrefix(ts: seq<Tlv>, all: seq<Tlv>)
    requires ts <= all
    ensures |Wire(ts)| <= |Wire(all)|
  {
    assert all == ts + all[|ts|..];
    WireAppend(ts, all[|ts|..], 0);
  }

  lemma {:induction false} WriteWithin(a: seq<byte>, gap: seq<byte>, d: seq<byte>, b: seq<byte>)
    requires |gap| == |d|
    ensures Write(a + gap + b, |a|, d) == a + d + b
  {
    var w := a + gap + b;
    assert w[..|a|] == a && w[|a| + |d|..] == b;
  }

  /** Filling two gaps left in a packet. */
  lemma {:induction false} FillGaps(a: seq<byte>, n: seq<byte>, b: seq<byte>, s: seq<byte>, t: seq<byte>)
    requires |n| == 2 && |s| == 2
    ensures var w := a + BE16(0) + b + BE16(0) + t;
      var w' := Write(w, |a|, n);
      && w' == a + n + b + BE16(0) + t
      && Write(w', |a| + 2 + |b|, s) == a + n + b + s + t
  {
    hide BE16, Write;
    WriteWithin(a, BE16(0), n, b + BE16(0) + t);
    assert a + BE16(0) + b + BE16(0) + t == a + BE16(0) + (b + BE16(0) + t);
    assert a + n + b + BE16(0) + t == a + n + (b + BE16(0) + t);
    WriteWithin(a + n + b, BE16(0), s, t);
  }
  lemma {:induction false} WireFirst(t: Tlv, ts: seq<Tlv>)
    ensures Wire([t] + ts) == Encode(t) + Wire(ts)
  {
    WireShift([t], ts, 0);
  }

  lemma {:induction false} Written(frame: seq<byte>, p: nat, t: Tlv)
    requires p + 4 + |t.value| <= |frame| && UnBE16(frame, p) == t.kind && UnBE16(frame, p + 2) == 4 + |t.value|
    requires frame[p + 4..p + 4 + |t.value|] == t.value
    ensures frame[p..p + 4 + |t.value|] == Encode(t) && Fits(t)
  {
    var s := frame[p..p + 4 + |t.value|];
    assert BE16(t.kind) == [frame[p], frame[p + 1]];
    assert BE16(|t.value| + 4) == [frame[p + 2], frame[p + 3]];
    assert s == [frame[p], frame[p + 1]] + [frame[p + 2], frame[p + 3]] + t.value;
  }

  /** A TLV on the wire: type and length, four more than that of the value, both with the
      high byte first. */
  function Field(kind: nat, value: seq<byte>): seq<byte>
  {
    [kind / 256 % 256, kind % 256, (4 + |value|) / 256 % 256, (4 + |value|) % 256] + value
  }

  lemma {:induction false} OneField(kind: nat, value: seq<byte>)
    ensures Wire([Tlv(kind, value)]) == Field(kind, value)
  {
    var ts := [Tlv(kind, value)];
    assert Wire(ts, 1) == [];
    assert Wire(ts) == Encode(ts[0]) + [];
  }

  // ---------- TLVs by type ----------

  /** The values of the TLVs of one type, in order. */
  function Values(ts: seq<Tlv>, kind: nat): seq<seq<byte>>
  {
    if ts == [] then []
    else
      var last := ts[|ts| - 1];
      Values(ts[..|ts| - 1], kind) + if last.kind == kind then [last.value] else []
  }

  /** The last one counts. */
  function Last(vs: seq<seq<byte>>): Option<seq<byte>>
  {
    if vs == [] then None else Some(vs[|vs| - 1])
  }

  lemma {:induction false} ValuesNone(ts: seq<Tlv>, kind: nat)
    ensures Values(ts[..0], kind) == []
  {
  }

  lemma {:induction false} ValuesNext(ts: seq<Tlv>, n: nat, kind: nat)
    requires n < |ts|
    ensures Values(ts[..n + 1], kind) ==
      if ts[n].kind == kind then Values(ts[..n], kind) + [ts[n].value] else Values(ts[..n], kind)
  {
    assert ts[..n + 1][..n] == ts[..n];
    assert Values(ts[..n], kind) + [] == Values(ts[..n], kind);
  }

  lemma {:induction false} ValuesAppend(ts: seq<Tlv>, us: seq<Tlv>, kind: nat)
    ensures Values(ts + us, kind) == Values(ts, kind) + Values(us, kind)
    decreases |us|
  {
    if us == [] {
      assert ts + us == ts;
    } else {
      var front := us[..|us| - 1];
      ValuesAppend(ts, front, kind);
      assert (ts + us)[..|ts + us| - 1] == ts + front;
      assert (ts + us)[|ts + us| - 1] == us[|us| - 1];
    }
  }
}
