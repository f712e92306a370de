/** What the receiver of the control channel (src/ctl.c) does, told from the bytes of its
    buffer and from what is asked for. */
module CtlBytes {
  import opened Bytes
  import opened Ctl

  /** Four or eight bytes, lowest first. */
  function Int32(s: seq<byte>, at: nat): nat
    requires at + 4 <= |s|
  {
    s[at] as int + 0x100 * s[at + 1] as int + 0x1_0000 * s[at + 2] as int + 0x100_0000 * s[at + 3] as int
  }

  function Int64(s: seq<byte>, at: nat): nat
    requires at + 8 <= |s|
  {
    Int32(s, at) + 0x1_0000_0000 * Int32(s, at + 4)
  }

  lemma {:induction false} UnLE4(s: seq<byte>)
    requires |s| == 4
    ensures UnLE(s) == Int32(s, 0)
  {
    var t, u, v := s[1..], s[2..], s[3..];
    assert t[1..] == u && u[1..] == v && v[1..] == [];
    assert UnLE(v) == s[3];
    assert UnLE(u) == s[2] + 256 * UnLE(v);
    assert UnLE(t) == s[1] + 256 * UnLE(u);
  }

  lemma {:induction false} UnLEAppend(s: seq<byte>, t: seq<byte>)
    ensures UnLE(s + t) == UnLE(s) + Pow256(|s|) * UnLE(t)
  {
    if s == [] {
      assert s + t == t;
    } else {
      UnLEAppend(s[1..], t);
      assert (s + t)[1..] == s[1..] + t;
      PowStep(Pow256(|s| - 1), UnLE(t));
    }
  }

  lemma {:induction false} PowStep(p: nat, x: nat)
    ensures 256 * (p * x) == (256 * p) * x
  {
  }

  /** The type and the length are where the structure has them. */
  lemma {:induction false} HeaderFields(buf: seq<byte>)
    requires |buf| >= 16
    ensures KindOf(buf) == Int32(buf, 0) && LenOf(buf) == Int64(buf, 8)
  {
    hide UnLE;
    UnLE4(buf[0..4]);
    var low, high := buf[8..12], buf[12..16];
    UnLE4(low);
    UnLE4(high);
    assert buf[8..16] == low + high;
    UnLEAppend(low, high);
    Pow256Values();
  }

  /** Every call, on any bytes and for any request.

      Less than a header, or than the message it announces: the bytes missing, and the
      buffer stays.  More than 512 KiB announced: failure, and the buffer is dropped.
      Otherwise the call succeeds exactly when the type is the one expected and, if a
      structure is wanted, there is a payload and it parses; the value is then what the
      parser makes of the payload, and there is none if none was wanted.  The message is
      removed, except that a call for a notification (type 7) leaves any other. */
  lemma {:induction false} EveryCall<V>(buf: seq<byte>, ask: Ask<V>)
    ensures |buf| < 16 ==> Recv(buf, ask) == (Missing(16 - |buf|), buf)
    ensures |buf| >= 16 ==>
      var (reply, rest) := Recv(buf, ask);
      var kind, len := Int32(buf, 0), Int64(buf, 8);
      if len > 524288 then reply == Failed && rest == []
      else if |buf| < 16 + len then reply == Missing(16 + len - |buf|) && rest == buf
      else
        var payload := buf[16..16 + len];
        && !reply.Missing?
        && (reply.Received? <==>
              kind == ask.expected && (ask.want.Some? ==> payload != [] && ask.want.value(payload).Some?))
        && (reply.Received? ==> reply.value == if ask.want.Some? then ask.want.value(payload) else None)
        && rest == if kind != ask.expected && ask.expected == 7 then buf else buf[16 + len..]
  {
    hide KindOf, LenOf, Int32, Int64;
    if |buf| >= 16 {
      HeaderFields(buf);
    }
  }

  /** The daemon answers a request it cannot serve with an empty message of type 0: a
      client that wanted something else gets an error, and the message is gone. */
  lemma {:induction false} RefusalFails<V>(ask: Ask<V>)
    requires ask.expected != 0 && ask.expected != 7
    ensures Recv(Zeros(16), ask) == (Failed, [])
  {
    hide Recv;
    EveryCall(Zeros(16), ask);
    assert Zeros(16)[16..] == [];
  }

  /** A client that waits for a notification leaves an answer to something else. */
  lemma {:induction false} AnswerIsLeft<V>(want: Option<Parser<V>>)
    ensures var answer: seq<byte> := [1, 0, 0, 0, 0, 0, 0, 0, 2, 0, 0, 0, 0, 0, 0, 0, 65, 66];
      Recv(answer, Ask(7, want)) == (Failed, answer) && Recv(answer, Ask(2, want)) == (Failed, [])
  {
    hide Recv;
    var answer: seq<byte> := [1, 0, 0, 0, 0, 0, 0, 0, 2, 0, 0, 0, 0, 0, 0, 0, 65, 66];
    assert Int32(answer, 0) == 1 && Int64(answer, 8) == 2;
    EveryCall(answer, Ask(7, want));
    EveryCall(answer, Ask(2, want));
    assert answer[18..] == [];
  }

  /** The bytes of a message: type, padding, length of the payload, payload. */
  lemma {:induction false} MessageBytes(m: Message)
    requires m.kind < 0x1_0000_0000 && |Payload(m)| < 0x1_0000_0000_0000_0000
    ensures var s := Encode(m);
      && |s| == 16 + |Payload(m)| && Int32(s, 0) == m.kind && Int64(s, 8) == |Payload(m)|
      && s[4..8] == [0, 0, 0, 0] && s[16..] == Payload(m)
  {
    hide LE, KindOf, LenOf, Int32, Int64;
    HeaderReads(m.kind, |Payload(m)|, Payload(m));
    HeaderFields(Encode(m));
    assert Encode(m)[4..8] == Zeros(4) == [0, 0, 0, 0];
  }
}
