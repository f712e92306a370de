/** The marshaller and the channel together: structures sent over the control
    socket arrive as copies, in order, however the bytes travel. */
module CtlMarshal {
  import opened Bytes
  import opened Marshal
  import opened MarshalHeap
  import opened MarshalLate
  import opened MarshalOrder
  import MarshalTheorems
  import opened Ctl

  /** A structure to send, and the type of the message that carries it. */
  datatype Shipment = Shipment(kind: nat, E: Env, root: nat)

  ghost predicate Shippable(s: Shipment)
  {
    && MarshalTheorems.Source(s.E, s.root) && s.kind < 0x1_0000_0000
    && !SharedInside(s.E, s.root)
    && |MarshalTheorems.Serialize(s.E, s.root).out| <= HMSG_MAX_SIZE
  }

  /** The structure at the start of a payload. */
  function Unmarshal(A: Arch, T: Table, m: nat, data: seq<byte>): Option<seq<Block>>
  {
    match MarshalTheorems.Unserialize(A, T, m, data)
    case Fail => None
    case Done(_, blocks) => Some(blocks)
  }

  function MessageOf(s: Shipment): Message
    requires s.root in s.E.objs && MarshalTheorems.Serialize(s.E, s.root).Ok?
  {
    Message(s.kind, Some(MarshalTheorems.Serialize(s.E, s.root).out))
  }

  function AskFor(s: Shipment): Ask<seq<Block>>
    requires s.root in s.E.objs
  {
    Ask(s.kind, Some(data => Unmarshal(s.E.A, s.E.T, s.E.objs[s.root].mi, data)))
  }

  lemma {:induction false} ShipmentAnswered(s: Shipment)
    requires Shippable(s)
    ensures Sendable(MessageOf(s))
    ensures Answer(s.kind, Payload(MessageOf(s)), AskFor(s)) == Received(Some(AllCopies(s.E)))
  {
    var out := MarshalTheorems.Serialize(s.E, s.root).out;
    assert out + [] == out;
    hide AllCopies, SharedInside, MarshalTheorems.Source, MarshalTheorems.Serialize, MarshalTheorems.Unserialize;
    MarshalTheorems.RoundTripIff(s.E, s.root, []);
    var r := MarshalTheorems.Unserialize(s.E.A, s.E.T, s.E.objs[s.root].mi, out);
    assert r == Done(|out|, AllCopies(s.E));
    DoneNotEmpty(s.E.A, s.E.T, s.E.objs[s.root].mi, out);
  }

  lemma {:induction false} DoneNotEmpty(A: Arch, T: Table, m: nat, data: seq<byte>)
    requires MarshalTheorems.Unserialize(A, T, m, data).Done?
    ensures data != []
  {
  }

  /** End to end: what is received is the copies of what was sent, in order. */
  lemma {:induction false} StructuresArrive(ss: seq<Shipment>, ms: seq<Message>, asks: seq<Ask<seq<Block>>>,
      chunks: seq<seq<byte>>)
    requires |ms| == |ss| == |asks|
    requires forall x :: 0 <= x < |ss| ==> Shippable(ss[x]) && ms[x] == MessageOf(ss[x]) && asks[x] == AskFor(ss[x])
    requires Concat(chunks) == Wire(ms)
    ensures var o := Session([], chunks, 0, asks, 0);
      o.rest == [] && |o.replies| == |ss| && forall x :: 0 <= x < |ss| ==>
        o.replies[x] == Received(Some(AllCopies(ss[x].E)))
  {
    hide Shippable, Sendable, Answer, Session, AllCopies, Concat, Wire;
    forall x | 0 <= x < |ss|
      ensures Sendable(ms[x]) && Answer(ms[x].kind, Payload(ms[x]), asks[x]) == Received(Some(AllCopies(ss[x].E)))
    {
      ShipmentAnswered(ss[x]);
    }
    SentIsReceived(ms, chunks, asks);
  }
}
