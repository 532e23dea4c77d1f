/**
  Messages over the stream (mwSession_send and session_process of src/session.c): what
  one session writes, another reads, however the bytes are cut on the way.
 */
module MessageStream {
  import opened Options
  import opened Bytes
  import opened Buffers
  import opened Messages
  import opened MessageForms
  import SR = SessionRecv

  // what a session writes: a message, or a keep-alive byte
  datatype Traffic = Msg(m: Message) | Alive

  // the bytes of a message
  function Encoding(m: Message): seq<Byte> {
    FieldsBytes(MessageFields(m))
  }

  // Every field fits where it is written, and the length does not look like a keep-alive.
  predicate Sendable(m: Message) {
    FitsMessage(m) && |Encoding(m)| < 0x8000_0000
  }

  predicate AllSendable(ts: seq<Traffic>) {
    forall i :: 0 <= i < |ts| && ts[i].Msg? ==> Sendable(ts[i].m)
  }

  function Frame(t: Traffic): SR.Sent {
    match t
    case Msg(m) => SR.Payload(Encoding(m))
    case Alive => SR.Keepalive
  }

  function Frames(ts: seq<Traffic>): (fs: seq<SR.Sent>)
    ensures |fs| == |ts| && forall i :: 0 <= i < |ts| ==> fs[i] == Frame(ts[i])
  {
    seq(|ts|, i requires 0 <= i < |ts| => Frame(ts[i]))
  }

  // the messages among the traffic
  function MessagesOf(ts: seq<Traffic>): seq<Message> {
    if ts == [] then [] else (if ts[0].Msg? then [ts[0].m] else []) + MessagesOf(ts[1..])
  }

  lemma EncodingNotEmpty(m: Message)
    ensures |Encoding(m)| >= 8
  {
    var rest := (if HasAttribs(m.options) then [FOpaque(m.attribs)] else []) + BodyFields(m.channel, m.body);
    assert MessageFields(m) == [F16(TypeOf(m.body))] + ([F16(m.options)] + ([F32(m.channel)] + rest));
    FieldsFirst(F16(TypeOf(m.body)), [F16(m.options)] + ([F32(m.channel)] + rest));
    FieldsFirst(F16(m.options), [F32(m.channel)] + rest);
    FieldsFirst(F32(m.channel), rest);
  }

  lemma FramesSendable(ts: seq<Traffic>)
    requires AllSendable(ts)
    ensures SR.Sendable(Frames(ts))
  {
    forall i | 0 <= i < |ts| && ts[i].Msg? ensures |Encoding(ts[i].m)| > 0 {
      EncodingNotEmpty(ts[i].m);
    }
  }

  lemma {:induction false} PayloadsAre(ts: seq<Traffic>)
    ensures var ps, ms := SR.Payloads(Frames(ts)), MessagesOf(ts);
      |ps| == |ms| && forall i :: 0 <= i < |ms| ==> ps[i] == Encoding(ms[i])
  {
    if ts != [] {
      assert Frames(ts)[1..] == Frames(ts[1..]);
      PayloadsAre(ts[1..]);
    }
  }

  lemma {:induction false} MessagesSendable(ts: seq<Traffic>)
    requires AllSendable(ts)
    ensures forall i :: 0 <= i < |MessagesOf(ts)| ==> Sendable(MessagesOf(ts)[i])
  {
    if ts != [] {
      MessagesSendable(ts[1..]);
    }
  }

  // mwSession_send: the message as an opaque
  method Send(m: Message) returns (o: seq<Byte>)
    requires |Encoding(m)| < 0x1_0000_0000
    ensures o == SR.Wire(SR.Payload(Encoding(m)))
    ensures |o| >= 4 && BigEndian(o[..4]) == |Encoding(m)| && o[4..] == Encoding(m)
  {
    var b := new PutBuffer();
    Put(b, m);
    assert [] + MessageFields(m) == MessageFields(m);
    var inner := b.Finalize();
    b := new PutBuffer();
    b.Opaque(inner);
    assert [] + [FOpaque(inner)] == [FOpaque(inner)];
    o := b.Finalize();
    OneField(FOpaque(inner));
    OpaqueShort(inner);
    U32BigEndian(|inner|);
    assert o[..4] == PutU32(|inner|);
  }

  // session_process: parse a message
  method Process(p: seq<Byte>, ghost m: Message) returns (r: Option<Message>)
    ensures p == Encoding(m) && FitsMessage(m) ==> Parsed(r, m)
  {
    var b := new GetBuffer(p, MessageFields(m));
    r := Get(b, m);
    NormSame(m);
  }

  // r is what m has become: a message that says the same, in its normal form
  ghost predicate Parsed(r: Option<Message>, m: Message) {
    r == Some(NormMessage(m)) && Same(m, r.value) && Canonical(r.value)
  }

  ghost predicate Carried(p: seq<Byte>, m: Message) {
    p == Encoding(m) && Sendable(m)
  }

  // the messages handed on, one after the other
  method ProcessAll(ps: seq<seq<Byte>>, ghost ms: seq<Message>) returns (rs: seq<Option<Message>>)
    requires |ps| == |ms| && forall i :: 0 <= i < |ms| ==> Carried(ps[i], ms[i])
    ensures |rs| == |ms| && forall i :: 0 <= i < |ms| ==> Parsed(rs[i], ms[i])
  {
    rs := [];
    for i := 0 to |ps|
      invariant |rs| == i && forall k :: 0 <= k < i ==> Parsed(rs[k], ms[k])
    {
      assert Carried(ps[i], ms[i]);
      var r := Process(ps[i], ms[i]);
      rs := rs + [r];
    }
  }

  lemma StreamDecoded(ts: seq<Traffic>)
    requires AllSendable(ts)
    ensures SR.Sendable(Frames(ts)) && SR.Rest(SR.WireAll(Frames(ts))) == []
    ensures var ps, ms := SR.Decode(SR.WireAll(Frames(ts))), MessagesOf(ts);
      |ps| == |ms| && forall i :: 0 <= i < |ms| ==> Carried(ps[i], ms[i])
  {
    FramesSendable(ts);
    SR.SentIsReceived(Frames(ts));
    PayloadsAre(ts);
    MessagesSendable(ts);
  }

  // Whatever one session sends, with keep-alives between the messages, and however the
  // stream is cut into chunks, the other reads the same messages in the same order, each
  // in its normal form, and nothing is left over.
  method Exchange(ts: seq<Traffic>, s: SR.Session, chunks: seq<seq<Byte>>) returns (rs: seq<Option<Message>>)
    requires AllSendable(ts) && s.Valid() && s.buf == null && s.processed == []
    requires SR.Sendable(Frames(ts)) ==> SR.Flatten(chunks) == SR.WireAll(Frames(ts))
    modifies s
    ensures |rs| == |MessagesOf(ts)|
    ensures forall i :: 0 <= i < |rs| ==> Parsed(rs[i], MessagesOf(ts)[i])
    ensures s.Valid() && s.Pending() == []
  {
    StreamDecoded(ts);
    ghost var ps := SR.Decode(SR.WireAll(Frames(ts)));
    SR.ChunkIndependence(s, chunks);
    assert s.processed == [] + ps == ps && s.Pending() == [];
    rs := ProcessAll(s.processed, MessagesOf(ts));
  }
}
