/** Framing of the control channel (src/ctl.c): length-prefixed messages appended
    to one byte buffer and consumed from another, whatever the chunks they travel in. */
module Ctl {
  import opened Bytes

  const HEADER_SIZE: nat := 16
  const HMSG_MAX_SIZE: nat := 0x8_0000
  const NOTIFICATION: nat := 7

  /** A message: its type, and the serialized structure if there is one. */
  datatype Message = Message(kind: nat, data: Option<seq<byte>>)

  /** What the structure of a message is turned into; None if it is malformed. */
  type Parser<!V> = seq<byte> -> Option<V>

  /** One call of the receiver: the type it expects, and how to unserialize the
      structure it wants, if it wants one. */
  datatype Ask<!V> = Ask(expected: nat, want: Option<Parser<V>>)

  /** The receiver's return value: bytes missing (positive), -1, or 0 with the
      structure if one was wanted. */
  datatype Reply<+V> = Missing(n: nat) | Failed | Received(value: Option<V>)

  // ---------- One message ----------

  function Payload(m: Message): seq<byte>
  {
    if m.data.Some? then m.data.value else []
  }

  /** `struct hmsg_header`: an int, four bytes of padding, a size_t. */
  function Header(kind: nat, len: nat): (s: seq<byte>)
    ensures |s| == HEADER_SIZE
  {
    LE(kind, 4) + Zeros(4) + LE(len, 8)
  }

  function Encode(m: Message): seq<byte>
  {
    Header(m.kind, |Payload(m)|) + Payload(m)
  }

  function KindOf(buf: seq<byte>): nat
  {
    UnLE(Slice(buf, 0, 4))
  }

  function LenOf(buf: seq<byte>): nat
  {
    UnLE(Slice(buf, 8, 8))
  }

  /** What is to be made of a complete message. */
  function Answer<V>(kind: nat, data: seq<byte>, ask: Ask<V>): (r: Reply<V>)
    ensures !r.Missing?
  {
    if kind != ask.expected then Failed
    else match ask.want
      case None => Received(None)
      case Some(parse) =>
        if data == [] then Failed
        else match parse(data)
          case None => Failed
          case Some(v) => Received(Some(v))
  }

  /** Waiting for a notification leaves any other message where it is. */
  predicate Leaves<V>(kind: nat, ask: Ask<V>)
  {
    kind != ask.expected && ask.expected == NOTIFICATION
  }

  /** ctl_msg_recv_unserialized(): the reply, and what is left of the buffer. */
  function Recv<V>(buf: seq<byte>, ask: Ask<V>): (Reply<V>, seq<byte>)
  {
    if |buf| < HEADER_SIZE then (Missing(HEADER_SIZE - |buf|), buf)
    else if LenOf(buf) > HMSG_MAX_SIZE then (Failed, [])
    else if |buf| < HEADER_SIZE + LenOf(buf) then (Missing(HEADER_SIZE + LenOf(buf) - |buf|), buf)
    else
      var end := HEADER_SIZE + LenOf(buf);
      (Answer(KindOf(buf), buf[HEADER_SIZE..end], ask), if Leaves(KindOf(buf), ask) then buf else buf[end..])
  }

  // ---------- The two procedures ----------

  class Buffer {
    var bytes: seq<byte>

    constructor ()
      ensures bytes == []
    {
      bytes := [];
    }

    /** ctl_msg_send_unserialized(); `data` is what the marshaller returns for the
        structure, which is an error when it is empty. */
    method Send(m: Message) returns (ok: bool)
      modifies this
      ensures ok == (m.data != Some([]))
      ensures bytes == old(bytes) + if ok then Encode(m) else []
    {
      hide LE, Header, Write;
      var len := 0;
      if m.data.Some? {
        len := |m.data.value|;
        if len <= 0 {
          return false;
        }
      }
      var at := |bytes|;
      bytes := bytes + Zeros(len + HEADER_SIZE);
      bytes := Write(bytes, at, Header(m.kind, len));
      WriteParts(old(bytes), Header(m.kind, len), Payload(m));
      if m.data.Some? {
        bytes := Write(bytes, at + HEADER_SIZE, m.data.value);
      }
      ok := true;
    }

    /** ctl_msg_recv_unserialized(). */
    method Receive<V>(ask: Ask<V>) returns (reply: Reply<V>)
      modifies this
      ensures (reply, bytes) == Recv(old(bytes), ask)
    {
      if |bytes| < HEADER_SIZE {
        return Missing(HEADER_SIZE - |bytes|);
      }
      var kind, len := KindOf(bytes), LenOf(bytes);
      if len > HMSG_MAX_SIZE {
        bytes := [];
        return Failed;
      }
      if |bytes| < HEADER_SIZE + len {
        return Missing(HEADER_SIZE + len - |bytes|);
      }
      reply := Failed;
      if kind != ask.expected {
        if ask.expected == NOTIFICATION {
          return;
        }
      } else if ask.want.None? {
        reply := Received(None);
      } else if len > 0 {
        var v := ask.want.value(bytes[HEADER_SIZE..HEADER_SIZE + len]);
        if v.Some? {
          reply := Received(Some(v.value));
        }
      }
      bytes := bytes[HEADER_SIZE + len..];
    }
  }

  /** Room for two parts, filled one after the other. */
  lemma {:induction false} WriteParts(s: seq<byte>, a: seq<byte>, b: seq<byte>)
    ensures var s' := Write(s + Zeros(|b| + |a|), |s|, a);
      s' == s + a + Zeros(|b|) && Write(s', |s| + |a|, b) == s + (a + b)
  {
  }

  // ---------- What a call does, on any bytes ----------

  /** A positive return is the number of bytes missing, and keeps the buffer: with
      fewer bytes more, that many fewer are missing; with exactly that many, the
      message, or its header, is complete. */
  lemma {:induction false} MissingExact<V>(buf: seq<byte>, ask: Ask<V>, more: seq<byte>)
    requires Recv(buf, ask).0.Missing?
    ensures var n := Recv(buf, ask).0.n;
      && n > 0 && Recv(buf, ask).1 == buf
      && (|more| < n ==> Recv(buf + more, ask).0 == Missing(n - |more|))
      && (|more| == n && |buf| < HEADER_SIZE ==> |buf + more| == HEADER_SIZE)
      && (|more| == n && |buf| >= HEADER_SIZE ==> !Recv(buf + more, ask).0.Missing?)
  {
    if |buf| >= HEADER_SIZE {
      SameHeader(buf, more);
    }
  }

  /** Bytes after a header do not change how it reads. */
  lemma {:induction false} SameHeader(buf: seq<byte>, more: seq<byte>)
    requires |buf| >= HEADER_SIZE
    ensures KindOf(buf + more) == KindOf(buf) && LenOf(buf + more) == LenOf(buf)
  {
    assert (buf + more)[0..4] == buf[0..4];
    assert (buf + more)[8..16] == buf[8..16];
  }

  /** Unless the length is out of bounds, a call removes one whole message or
      nothing; whatever comes after it has no influence and is kept. */
  lemma {:induction false} RestStaysFramed<V>(buf: seq<byte>, ask: Ask<V>, more: seq<byte>)
    requires !Recv(buf, ask).0.Missing? && LenOf(buf) <= HMSG_MAX_SIZE
    ensures Recv(buf + more, ask).0 == Recv(buf, ask).0
    ensures Recv(buf + more, ask).1 == Recv(buf, ask).1 + more
    ensures Recv(buf, ask).1 == buf || Recv(buf, ask).1 == buf[HEADER_SIZE + LenOf(buf)..]
  {
    SameHeader(buf, more);
    var end := HEADER_SIZE + LenOf(buf);
    assert (buf + more)[HEADER_SIZE..end] == buf[HEADER_SIZE..end];
    assert (buf + more)[end..] == buf[end..] + more;
  }

  // ---------- Messages ----------

  /** Messages that the sender emits and the receiver accepts: the type is an int,
      a structure serializes to at least one byte, and is not too large. */
  predicate Sendable(m: Message)
  {
    m.kind < 0x1_0000_0000 && m.data != Some([]) && |Payload(m)| <= HMSG_MAX_SIZE
  }

  /** The message at the head of a buffer is read back, and leaves the rest. */
  lemma {:induction false} RecvEncoded<V>(m: Message, rest: seq<byte>, ask: Ask<V>)
    requires Sendable(m)
    ensures Recv(Encode(m) + rest, ask) ==
      (Answer(m.kind, Payload(m), ask), if Leaves(m.kind, ask) then Encode(m) + rest else rest)
  {
    hide LE, UnLE, Header, Answer;
    var buf := Encode(m) + rest;
    HeaderReads(m.kind, |Payload(m)|, Payload(m) + rest);
    assert buf == Header(m.kind, |Payload(m)|) + (Payload(m) + rest);
    var end := HEADER_SIZE + |Payload(m)|;
    assert buf[HEADER_SIZE..end] == Payload(m);
    assert buf[end..] == rest;
  }

  /** The sender has no limit, the receiver has one: a larger message, and everything
      that follows it, is lost as soon as its header is there. */
  lemma {:induction false} OversizeLosesAll<V>(m: Message, cut: nat, rest: seq<byte>, ask: Ask<V>)
    requires m.kind < 0x1_0000_0000 && HMSG_MAX_SIZE < |Payload(m)| < 0x1_0000_0000_0000_0000 &&
      HEADER_SIZE <= cut <= |Encode(m)|
    ensures Recv(Encode(m)[..cut] + rest, ask) == (Failed, [])
  {
    hide LE, UnLE, Header, Answer;
    var tail := Payload(m)[..cut - HEADER_SIZE] + rest;
    HeaderReads(m.kind, |Payload(m)|, tail);
    assert Encode(m)[..cut] + rest == Header(m.kind, |Payload(m)|) + tail;
  }

  lemma {:induction false} HeaderReads(kind: nat, len: nat, rest: seq<byte>)
    requires kind < 0x1_0000_0000 && len < 0x1_0000_0000_0000_0000
    ensures KindOf(Header(kind, len) + rest) == kind && LenOf(Header(kind, len) + rest) == len
  {
    hide LE, UnLE;
    Pow256Values();
    LERoundTrip(kind, 4);
    LERoundTrip(len, 8);
    var buf := Header(kind, len) + rest;
    assert buf[0..4] == LE(kind, 4);
    assert buf[8..16] == LE(len, 8);
  }

  /** A message that is not all there yet is waited for. */
  lemma {:induction false} RecvPartial<V>(m: Message, cut: nat, ask: Ask<V>)
    requires Sendable(m) && cut < |Encode(m)|
    ensures Recv(Encode(m)[..cut], ask).0.Missing?
  {
    hide LE, UnLE;
    var buf := Encode(m)[..cut];
    if cut >= HEADER_SIZE {
      HeaderReads(m.kind, |Payload(m)|, Payload(m)[..cut - HEADER_SIZE]);
      assert buf == Header(m.kind, |Payload(m)|) + Payload(m)[..cut - HEADER_SIZE];
    }
  }

  // ---------- Sessions ----------

  /** The messages one after the other, from the i-th on. */
  function Wire(ms: seq<Message>, i: nat := 0): seq<byte>
    decreases |ms| - i
  {
    if i >= |ms| then [] else Encode(ms[i]) + Wire(ms, i + 1)
  }

  function Concat(chunks: seq<seq<byte>>, c: nat := 0): seq<byte>
    decreases |chunks| - c
  {
    if c >= |chunks| then [] else chunks[c] + Concat(chunks, c + 1)
  }

  datatype Outcome<V> = Outcome(replies: seq<Reply<V>>, rest: seq<byte>)

  /** The receiver fed chunk by chunk: when a call lacks bytes, the next chunk is
      appended and the call is made again. */
  function Session<V>(buf: seq<byte>, chunks: seq<seq<byte>>, c: nat, asks: seq<Ask<V>>, j: nat): Outcome<V>
    decreases |chunks| - c, |asks| - j
  {
    if j >= |asks| then Outcome([], buf + Concat(chunks, c))
    else
      var (reply, buf') := Recv(buf, asks[j]);
      if !reply.Missing? then
        var o := Session(buf', chunks, c, asks, j + 1);
        Outcome([reply] + o.replies, o.rest)
      else if c < |chunks| then Session(buf + chunks[c], chunks, c + 1, asks, j)
      else Outcome([], buf)
  }

  /** The same at the level of messages: no bytes, no chunks. */
  function Dialogue<V>(ms: seq<Message>, i: nat, asks: seq<Ask<V>>, j: nat): (seq<Reply<V>>, nat)
    decreases |asks| - j
  {
    if j >= |asks| || i >= |ms| then ([], i)
    else
      var (replies, i') := Dialogue(ms, if Leaves(ms[i].kind, asks[j]) then i else i + 1, asks, j + 1);
      ([Answer(ms[i].kind, Payload(ms[i]), asks[j])] + replies, i')
  }

  /** However the bytes are cut into chunks, each call gets the reply that the
      message it faces deserves, and the buffer ends with the messages left over. */
  lemma {:induction false} ChunksDoNotMatter<V>(ms: seq<Message>, i: nat, buf: seq<byte>, chunks: seq<seq<byte>>,
      c: nat, asks: seq<Ask<V>>, j: nat)
    requires forall x :: 0 <= x < |ms| ==> Sendable(ms[x])
    requires i <= |ms| && j <= |asks| && c <= |chunks| && buf + Concat(chunks, c) == Wire(ms, i)
    ensures var o, d := Session(buf, chunks, c, asks, j), Dialogue(ms, i, asks, j);
      o.replies == d.0 && d.1 <= |ms| && o.rest == Wire(ms, d.1)
    decreases |chunks| - c, |asks| - j
  {
    hide Recv, Encode, Answer, Concat, Wire;
    if j < |asks| {
      if i == |ms| {
        NoMessage(ms, buf, chunks, c);
        NothingComes(chunks, c, asks, j);
      } else if |buf| < |Encode(ms[i])| {
        PartOfMessage(ms, i, buf, chunks, c, asks[j]);
        ChunksDoNotMatter(ms, i, buf + chunks[c], chunks, c + 1, asks, j);
      } else {
        WholeMessage(ms, i, buf, Concat(chunks, c), asks[j]);
        var i' := if Leaves(ms[i].kind, asks[j]) then i else i + 1;
        ChunksDoNotMatter(ms, i', Recv(buf, asks[j]).1, chunks, c, asks, j + 1);
      }
    }
  }

  lemma {:induction false} NoMessage(ms: seq<Message>, buf: seq<byte>, chunks: seq<seq<byte>>, c: nat)
    requires buf + Concat(chunks, c) == Wire(ms, |ms|)
    ensures buf == [] && Concat(chunks, c) == [] && Wire(ms, |ms|) == []
  {
  }

  lemma {:induction false} PartOfMessage<V>(ms: seq<Message>, i: nat, buf: seq<byte>, chunks: seq<seq<byte>>, c: nat,
      ask: Ask<V>)
    requires i < |ms| && Sendable(ms[i]) && c <= |chunks| && buf + Concat(chunks, c) == Wire(ms, i) &&
      |buf| < |Encode(ms[i])|
    ensures Recv(buf, ask).0.Missing? && c < |chunks| && (buf + chunks[c]) + Concat(chunks, c + 1) == Wire(ms, i)
  {
    hide Recv, Encode;
    assert buf == Wire(ms, i)[..|buf|];
    assert buf == Encode(ms[i])[..|buf|];
    RecvPartial(ms[i], |buf|, ask);
    assert Concat(chunks, c) != [];
    assert buf + Concat(chunks, c) == (buf + chunks[c]) + Concat(chunks, c + 1);
  }

  lemma {:induction false} WholeMessage<V>(ms: seq<Message>, i: nat, buf: seq<byte>, later: seq<byte>, ask: Ask<V>)
    requires i < |ms| && Sendable(ms[i]) && buf + later == Wire(ms, i) && |Encode(ms[i])| <= |buf|
    ensures Recv(buf, ask).0 == Answer(ms[i].kind, Payload(ms[i]), ask)
    ensures Recv(buf, ask).1 + later == Wire(ms, if Leaves(ms[i].kind, ask) then i else i + 1)
  {
    hide Recv, Encode;
    var n := |Encode(ms[i])|;
    assert buf[..n] == Wire(ms, i)[..n] == Encode(ms[i]);
    assert buf[n..] + later == Wire(ms, i)[n..] == Wire(ms, i + 1);
    assert buf == Encode(ms[i]) + buf[n..];
    RecvEncoded(ms[i], buf[n..], ask);
  }

  lemma {:induction false} NothingComes<V>(chunks: seq<seq<byte>>, c: nat, asks: seq<Ask<V>>, j: nat)
    requires Concat(chunks, c) == [] && j < |asks| && c <= |chunks|
    ensures Session([], chunks, c, asks, j) == Outcome([], [])
    decreases |chunks| - c
  {
    if c < |chunks| {
      assert chunks[c] == [] && Concat(chunks, c + 1) == [];
      assert [] + chunks[c] == [];
      NothingComes(chunks, c + 1, asks, j);
    }
  }

  lemma {:induction false} WireEnd(ms: seq<Message>)
    ensures Wire(ms, |ms|) == []
  {
  }

  /** One call per message, each expecting what comes: the structures sent are the
      structures received, in order, and nothing is left. */
  lemma {:induction false} SentIsReceived<V>(ms: seq<Message>, chunks: seq<seq<byte>>, asks: seq<Ask<V>>)
    requires forall x :: 0 <= x < |ms| ==> Sendable(ms[x])
    requires Concat(chunks) == Wire(ms) && |asks| == |ms|
    requires forall x :: 0 <= x < |ms| ==> asks[x].expected == ms[x].kind
    ensures var o := Session([], chunks, 0, asks, 0);
      o.rest == [] && |o.replies| == |ms| && forall x :: 0 <= x < |ms| ==>
        o.replies[x] == Answer(ms[x].kind, Payload(ms[x]), asks[x])
  {
    hide Session, Dialogue, Answer, Sendable, Concat, Encode, Wire;
    assert [] + Concat(chunks) == Wire(ms);
    WireEnd(ms);
    ChunksDoNotMatter(ms, 0, [], chunks, 0, asks, 0);
    OneEach(ms, asks, 0);
  }

  lemma {:induction false} OneEach<V>(ms: seq<Message>, asks: seq<Ask<V>>, i: nat)
    requires i <= |asks| == |ms| && forall x :: 0 <= x < |ms| ==> asks[x].expected == ms[x].kind
    ensures var d := Dialogue(ms, i, asks, i);
      d.1 == |ms| && |d.0| == |ms| - i && forall x :: i <= x < |ms| ==>
        d.0[x - i] == Answer(ms[x].kind, Payload(ms[x]), asks[x])
    decreases |ms| - i
  {
    if i < |ms| {
      OneEach(ms, asks, i + 1);
    }
  }
}
