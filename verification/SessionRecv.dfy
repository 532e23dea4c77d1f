/**
  Reassembly of the incoming stream (src/session.c). Chunks arrive cut anywhere; whole
  messages are handed on.
 */
module SessionRecv {
  import opened Bytes
  import opened Sequences

  // ---- the one-shot decoder ----

  // Skip bytes with the high bit set, read a 32-bit length and take that many bytes.
  // Empty messages are not handed on.
  function Decode(s: seq<Byte>): seq<seq<Byte>>
    decreases |s|
  {
    if s == [] then []
    else if s[0] >= 0x80 then Decode(s[1..])
    else if !Whole(s) then []
    else Message(s[4..4 + GetU32(s)]) + Decode(s[4 + GetU32(s)..])
  }

  // the bytes of the message that has not arrived completely
  function Rest(s: seq<Byte>): seq<Byte>
    decreases |s|
  {
    if s == [] then []
    else if s[0] >= 0x80 then Rest(s[1..])
    else if !Whole(s) then s
    else Rest(s[4 + GetU32(s)..])
  }

  predicate Whole(s: seq<Byte>) {
    |s| >= 4 && |s| >= 4 + GetU32(s)
  }

  function Message(p: seq<Byte>): seq<seq<Byte>> {
    if p == [] then [] else [p]
  }

  // a complete message at the front
  lemma DecodeWhole(s: seq<Byte>, t: seq<Byte>)
    requires |s| > 0 && s[0] < 0x80 && Whole(s)
    ensures Whole(s + t) && GetU32(s + t) == GetU32(s)
    ensures Decode(s + t) == Message(s[4..4 + GetU32(s)]) + Decode(s[4 + GetU32(s)..] + t)
    ensures Rest(s + t) == Rest(s[4 + GetU32(s)..] + t)
  {
    var n := 4 + GetU32(s);
    assert GetU32(s + t) == GetU32(s);
    assert (s + t)[n..] == s[n..] + t;
    assert (s + t)[4..n] == s[4..n];
  }

  // A frame is the number spelled by four bytes, the first below 0x80, and that many bytes.
  lemma DecodeFrame(s: seq<Byte>)
    requires |s| >= 4 && s[0] < 0x80
    ensures Framed(s, BigEndian(s[..4]))
  {
    GetU32BigEndian(s);
    DecodeCounted(s, GetU32(s));
  }

  lemma DecodeCounted(s: seq<Byte>, n: nat)
    requires |s| >= 4 && s[0] < 0x80 && n == GetU32(s)
    ensures Framed(s, n)
  {}

  // the stream s begins with a frame of n bytes, whole or not
  ghost predicate Framed(s: seq<Byte>, n: nat)
    requires |s| >= 4
  {
    if |s| < 4 + n then Decode(s) == [] && Rest(s) == s
    else Decode(s) == (if n == 0 then [] else [s[4..4 + n]]) + Decode(s[4 + n..]) && Rest(s) == Rest(s[4 + n..])
  }

  // what a single frame, or a part of one, leaves
  lemma DecodeOne(s: seq<Byte>)
    requires |s| >= 4 && s[0] < 0x80 && |s| <= 4 + BigEndian(s[..4])
    ensures |s| == 4 + BigEndian(s[..4]) > 4 ==> Decode(s) == [s[4..]] && Rest(s) == []
    ensures |s| < 4 + BigEndian(s[..4]) ==> Decode(s) == [] && Rest(s) == s
  {
    GetU32BigEndian(s);
    DecodeSingle(s, GetU32(s));
  }

  lemma DecodeSingle(s: seq<Byte>, n: nat)
    requires |s| >= 4 && s[0] < 0x80 && n == GetU32(s) && |s| <= 4 + n
    ensures |s| == 4 + n > 4 ==> Decode(s) == [s[4..]] && Rest(s) == []
    ensures |s| < 4 + n ==> Decode(s) == [] && Rest(s) == s
  {
    DecodeCounted(s, n);
    if |s| == 4 + n {
      assert s[|s|..] == [] && s[4..|s|] == s[4..];
    }
  }

  // decoding can be interrupted anywhere
  lemma {:induction false} DecodeSplit(s: seq<Byte>, t: seq<Byte>)
    ensures Decode(s + t) == Decode(s) + Decode(Rest(s) + t)
    ensures Rest(s + t) == Rest(Rest(s) + t)
    decreases |s|
  {
    if s == [] {
      assert s + t == t;
    } else if s[0] >= 0x80 {
      assert (s + t)[1..] == s[1..] + t;
      DecodeSplit(s[1..], t);
    } else if Whole(s) {
      var n := 4 + GetU32(s);
      DecodeWhole(s, t);
      DecodeSplit(s[n..], t);
      Regroup(Message(s[4..n]), Decode(s[n..]), Decode(Rest(s[n..]) + t));
    }
  }

  // Input b met the pending bytes p; news was handed on, and q and c are left.
  ghost predicate Step(p: seq<Byte>, b: seq<Byte>, news: seq<seq<Byte>>, q: seq<Byte>, c: seq<Byte>) {
    Decode(p + b) == news + Decode(q + c) && Rest(p + b) == Rest(q + c)
  }

  lemma StepNothing(p: seq<Byte>, b: seq<Byte>, q: seq<Byte>, c: seq<Byte>)
    requires p + b == q + c
    ensures Step(p, b, [], q, c)
  {}

  // a message that is complete by now
  lemma StepMessage(p: seq<Byte>, b: seq<Byte>, s: seq<Byte>, c: seq<Byte>)
    requires |s| > 0 && s[0] < 0x80 && |s| >= 4 && |s| == 4 + GetU32(s) && p + b == s + c
    ensures Step(p, b, Message(s[4..]), [], c)
  {
    DecodeWhole(s, c);
    assert s[|s|..] + c == c == [] + c;
    assert s[4..|s|] == s[4..];
  }

  lemma StepTwice(p: seq<Byte>, b: seq<Byte>, n1: seq<seq<Byte>>, q: seq<Byte>, c: seq<Byte>,
                  n2: seq<seq<Byte>>, r: seq<Byte>, d: seq<Byte>)
    requires Step(p, b, n1, q, c) && Step(q, c, n2, r, d)
    ensures Step(p, b, n1 + n2, r, d)
  {
    Regroup(n1, n2, Decode(r + d));
  }

  // bytes between messages
  lemma StepSkip(b: seq<Byte>)
    requires |b| > 0 && b[0] >= 0x80
    ensures Step([], b, [], [], b[1..])
  {
    assert [] + b == b && [] + b[1..] == b[1..];
  }

  // the loop of session_recv over keep-alive and series bytes
  method SkipKeepalives(b: seq<Byte>) returns (c: seq<Byte>)
    ensures |c| <= |b| && Step([], b, [], [], c) && (|c| > 0 ==> c[0] < 0x80)
  {
    c := b;
    StepNothing([], b, [], b);
    while |c| > 0 && c[0] >= 0x80
      invariant |c| <= |b| && Step([], b, [], [], c)
      decreases |c|
    {
      StepSkip(c);
      StepTwice([], b, [], [], c, [], [], c[1..]);
      c := c[1..];
    }
  }

  lemma CutInput(p: seq<Byte>, b: seq<Byte>, x: nat, full: seq<Byte>)
    requires x <= |b| && full == p + b[..x]
    ensures p + b == full + b[x..]
  {
    assert b == b[..x] + b[x..];
    Regroup(p, b[..x], b[x..]);
  }

  // ---- the session ----

  class Session {
    var buf: array?<Byte>   // one message with its length, while it is incomplete
    var bufLen: nat
    var bufUsed: nat
    var processed: seq<seq<Byte>>  // the messages handed to session_process so far

    // Nothing is buffered, or part of a length, or a length and part of its message.
    ghost predicate Valid()
      reads this, buf
    {
      if buf == null then bufLen == 0 && bufUsed == 0
      else
        && buf.Length == bufLen && 0 < bufUsed < bufLen && buf[0] < 0x80
        && (bufLen == 4 || (4 <= bufUsed && bufLen == 4 + GetU32(buf[..])))
    }

    ghost function Pending(): seq<Byte>
      requires Valid()
      reads this, buf
    {
      if buf == null then [] else buf[..bufUsed]
    }

    constructor ()
      ensures Valid() && Pending() == [] && processed == [] && buf == null
    {
      buf, bufLen, bufUsed, processed := null, 0, 0, [];
    }

    // session_process: empty messages are ignored
    method Process(p: seq<Byte>)
      modifies `processed
      ensures processed == old(processed) + Message(p)
    {
      if |p| == 0 {
        return;
      }
      processed := processed + [p];
    }

    // session_buf_free
    method FreeBuffer()
      modifies `buf, `bufLen, `bufUsed
      ensures Valid() && Pending() == [] && buf == null
    {
      buf, bufLen, bufUsed := null, 0, 0;
    }

    // the first bytes of a message of len bytes, its length included
    method StartBuffer(b: seq<Byte>, len: nat)
      requires 0 < |b| < len && b[0] < 0x80 && (len == 4 || (|b| >= 4 && len == 4 + GetU32(b)))
      modifies `buf, `bufLen, `bufUsed
      ensures Valid() && Pending() == b && fresh(buf)
    {
      buf := new Byte[len](i requires 0 <= i => if i < |b| then b[i] else 0);
      bufLen := len;
      bufUsed := |b|;
    }

    // memcpy to the end of the bytes that are buffered
    method Append(b: seq<Byte>)
      requires buf != null && bufUsed + |b| <= buf.Length
      modifies buf
      ensures buf[..bufUsed + |b|] == old(buf[..bufUsed]) + b
      ensures buf[bufUsed + |b|..] == old(buf[bufUsed + |b|..])
    {
      var t, at := buf, bufUsed;
      forall i | 0 <= i < |b| {
        t[at + i] := b[i];
      }
    }

    // session_recv_cont: returns what is left of b
    method RecvCont(b: seq<Byte>) returns (rest: seq<Byte>)
      requires Valid() && buf != null && |b| > 0
      modifies this, buf
      ensures Valid() && |rest| < |b| && (buf == null || buf == old(buf) || fresh(buf))
      ensures exists news :: processed == old(processed) + news && Step(old(Pending()), b, news, Pending(), rest)
    {
      var x := bufLen - bufUsed;
      if |b| < x {
        Append(b);
        bufUsed := bufUsed + |b|;
        StepNothing(old(Pending()), b, Pending(), []);
        assert processed == old(processed) + [];
        return [];
      }
      Append(b[..x]);
      assert buf[..] == buf[..bufUsed + |b[..x]|];
      CutInput(old(Pending()), b, x, buf[..]);
      rest := FinishBuffer(b[x..], old(Pending()), b);
    }

    // the second half of session_recv_cont: the buffer is full, and b follows
    method FinishBuffer(b: seq<Byte>, ghost p: seq<Byte>, ghost b0: seq<Byte>) returns (rest: seq<Byte>)
      requires buf != null && buf.Length == bufLen >= 4 && buf[0] < 0x80 && (bufLen == 4 || bufLen == 4 + GetU32(buf[..]))
      requires p + b0 == buf[..] + b
      modifies this
      ensures Valid() && |rest| <= |b| && (buf == null || fresh(buf))
      ensures exists news :: processed == old(processed) + news && Step(p, b0, news, Pending(), rest)
    {
      var s := buf[..];
      if bufLen == 4 {
        var x := GetU32(s);
        if |b| < x {
          StartBuffer(s + b, x + 4);
          StepNothing(p, b0, Pending(), []);
          assert processed == old(processed) + [];
          return [];
        }
        FreeBuffer();
        Process(b[..x]);
        rest := b[x..];
        assert (s + b[..x])[4..] == b[..x];
        StepMessage(p, b0, s + b[..x], rest);
      } else {
        Process(s[4..]);
        FreeBuffer();
        rest := b;
        StepMessage(p, b0, s, rest);
      }
    }

    // session_recv_empty
    method RecvEmpty(b: seq<Byte>) returns (rest: seq<Byte>)
      requires Valid() && buf == null && |b| > 0 && b[0] < 0x80
      modifies this
      ensures Valid() && |rest| < |b| && (buf == null || fresh(buf))
      ensures exists news :: processed == old(processed) + news && Step([], b, news, Pending(), rest)
    {
      if |b| < 4 {
        StartBuffer(b, 4);
        StepNothing([], b, Pending(), []);
        assert processed == old(processed) + [];
        return [];
      }
      var x := GetU32(b);
      if x == 0 {
        StepMessage([], b, b[..4], b[4..]);
        assert processed == old(processed) + [];
        return b[4..];
      }
      if |b| < x + 4 {
        StartBuffer(b, x + 4);
        StepNothing([], b, Pending(), []);
        assert processed == old(processed) + [];
        return [];
      }
      Process(b[4..4 + x]);
      rest := b[4 + x..];
      assert b[..4 + x][4..] == b[4..4 + x];
      StepMessage([], b, b[..4 + x], rest);
    }

    // session_recv: every call leaves less than it was given
    method RecvSome(b: seq<Byte>) returns (rest: seq<Byte>)
      requires Valid() && |b| > 0
      modifies this, buf
      ensures Valid() && |rest| < |b| && (buf == null || buf == old(buf) || fresh(buf))
      ensures exists news :: processed == old(processed) + news && Step(old(Pending()), b, news, Pending(), rest)
    {
      var c := b;
      if bufLen == 0 {
        c := SkipKeepalives(b);
      }
      if |c| == 0 {
        assert c == [];
        assert processed == old(processed) + [];
        return [];
      } else if bufLen > 0 {
        rest := RecvCont(c);
      } else {
        rest := RecvEmpty(c);
        ghost var news :| processed == old(processed) + news && Step([], c, news, Pending(), rest);
        StepTwice([], b, [], [], c, news, Pending(), rest);
      }
    }

    // mwSession_recv
    method Recv(chunk: seq<Byte>)
      requires Valid()
      modifies this, buf
      ensures Valid() && (buf == null || buf == old(buf) || fresh(buf))
      ensures processed == old(processed) + Decode(old(Pending()) + chunk)
      ensures Pending() == Rest(old(Pending()) + chunk)
      ensures var s := old(Pending()) + chunk;
        |s| >= 4 && s[0] < 0x80 && |s| == 4 + BigEndian(s[..4]) > 4 ==> processed == old(processed) + [s[4..]] && Pending() == []
      ensures var s := old(Pending()) + chunk;
        |s| >= 4 && s[0] < 0x80 && |s| < 4 + BigEndian(s[..4]) ==> processed == old(processed) && Pending() == s
    {
      RecvFrames(chunk);
      ghost var s := old(Pending()) + chunk;
      if |s| >= 4 && s[0] < 0x80 && |s| <= 4 + BigEndian(s[..4]) {
        DecodeOne(s);
      }
    }

    // its loop
    method RecvFrames(chunk: seq<Byte>)
      requires Valid()
      modifies this, buf
      ensures Valid() && (buf == null || buf == old(buf) || fresh(buf))
      ensures processed == old(processed) + Decode(old(Pending()) + chunk)
      ensures Pending() == Rest(old(Pending()) + chunk)
    {
      var b := chunk;
      ghost var p := Pending();
      ghost var seen: seq<seq<Byte>> := [];
      StepNothing(p, chunk, Pending(), b);
      while |b| > 0
        invariant Valid() && (buf == null || buf == old(buf) || fresh(buf))
        invariant processed == old(processed) + seen && Step(p, chunk, seen, Pending(), b)
        decreases |b|
      {
        ghost var q, c := Pending(), b;
        b := RecvSome(b);
        ghost var news :| processed == old(processed) + seen + news && Step(q, c, news, Pending(), b);
        StepTwice(p, chunk, seen, q, c, news, Pending(), b);
        seen := seen + news;
      }
      PendingIsRest();
    }

    // what is buffered is never a whole message
    lemma PendingIsRest()
      requires Valid()
      ensures Decode(Pending()) == [] && Rest(Pending()) == Pending()
    {
      if buf != null && bufUsed >= 4 {
        assert GetU32(buf[..bufUsed]) == GetU32(buf[..]);
      }
    }
  }

  // ---- any cut of the stream ----

  function Flatten(chunks: seq<seq<Byte>>): seq<Byte> {
    if chunks == [] then [] else chunks[0] + Flatten(chunks[1..])
  }

  lemma {:induction false} FlattenLast(chunks: seq<seq<Byte>>, n: nat)
    requires n < |chunks|
    ensures Flatten(chunks[..n + 1]) == Flatten(chunks[..n]) + chunks[n]
  {
    if n == 0 {
      assert chunks[..1][1..] == [];
      assert chunks[0] + [] == chunks[0] == [] + chunks[0];
    } else {
      FlattenLast(chunks[1..], n - 1);
      assert chunks[..n + 1][1..] == chunks[1..][..n] && chunks[..n][1..] == chunks[1..][..n - 1];
      Regroup(chunks[0], Flatten(chunks[1..][..n - 1]), chunks[n]);
    }
  }

  // However a stream is cut into calls of mwSession_recv, the messages handed on are
  // those that the one-shot decoder finds in the whole of it.
  method ChunkIndependence(s: Session, chunks: seq<seq<Byte>>)
    requires s.Valid() && s.buf == null
    modifies s
    ensures s.Valid() && s.processed == old(s.processed) + Decode(Flatten(chunks))
    ensures s.Pending() == Rest(Flatten(chunks))
  {
    assert chunks[..0] == [];
    for i := 0 to |chunks|
      invariant s.Valid() && (s.buf == null || fresh(s.buf))
      invariant s.processed == old(s.processed) + Decode(Flatten(chunks[..i]))
      invariant s.Pending() == Rest(Flatten(chunks[..i]))
    {
      ghost var t := Flatten(chunks[..i]);
      DecodeSplit(t, chunks[i]);
      FlattenLast(chunks, i);
      Regroup(old(s.processed), Decode(t), Decode(Rest(t) + chunks[i]));
      s.Recv(chunks[i]);
    }
    assert chunks[..|chunks|] == chunks;
  }

  // ---- what mwSession_send and mwSession_sendKeepalive write ----

  datatype Sent = Payload(data: seq<Byte>) | Keepalive

  function Wire(m: Sent): seq<Byte>
    requires m.Payload? ==> |m.data| < 0x1_0000_0000
  {
    match m
    case Payload(data) => PutU32(|data|) + data
    case Keepalive => [0x80]
  }

  // payloads whose length does not look like a keep-alive byte
  predicate Sendable(ms: seq<Sent>) {
    forall i :: 0 <= i < |ms| && ms[i].Payload? ==> 0 < |ms[i].data| < 0x8000_0000
  }

  function WireAll(ms: seq<Sent>): seq<Byte>
    requires Sendable(ms)
  {
    if ms == [] then [] else Wire(ms[0]) + WireAll(ms[1..])
  }

  function Payloads(ms: seq<Sent>): seq<seq<Byte>> {
    if ms == [] then []
    else (match ms[0] case Payload(data) => [data] case Keepalive => []) + Payloads(ms[1..])
  }

  // Every message sent comes back, with keep-alives anywhere between messages.
  lemma {:induction false} SentIsReceived(ms: seq<Sent>)
    requires Sendable(ms)
    ensures Decode(WireAll(ms)) == Payloads(ms) && Rest(WireAll(ms)) == []
  {
    if ms != [] {
      var t := WireAll(ms[1..]);
      SentIsReceived(ms[1..]);
      match ms[0] {
        case Payload(data) => {
          var w := Wire(ms[0]);
          GetPutU32(|data|, data);
          DecodeWhole(w, t);
          assert w[4..4 + |data|] == data && w[4 + |data|..] + t == t;
        }
        case Keepalive => {
          assert ([0x80] + t)[1..] == t;
        }
      }
    }
  }

  // how many bytes the messages took with their lengths
  function FramedSize(ps: seq<seq<Byte>>): nat {
    if ps == [] then 0 else 4 + |ps[0]| + FramedSize(ps[1..])
  }

  lemma {:induction false} DecodedFits(s: seq<Byte>)
    ensures FramedSize(Decode(s)) <= |s|
    decreases |s|
  {
    if s != [] && s[0] >= 0x80 {
      DecodedFits(s[1..]);
    } else if s != [] && Whole(s) {
      var p, t := s[4..4 + GetU32(s)], s[4 + GetU32(s)..];
      DecodedFits(t);
      if p == [] {
        assert Message(p) + Decode(t) == Decode(t);
      } else {
        assert ([p] + Decode(t))[1..] == Decode(t);
      }
    }
  }

  // The bound is exact: the first byte of a longer length is taken for a keep-alive, and
  // the payload does not come back.
  lemma TooLong(data: seq<Byte>)
    requires 0 < |data| < 0x1_0000_0000
    ensures Decode(Wire(Payload(data))) == [data] <==> |data| < 0x8000_0000
  {
    var w := Wire(Payload(data));
    if |data| < 0x8000_0000 {
      var m := [Payload(data)];
      SentIsReceived(m);
      assert m[1..] == [] && WireAll(m) == w + [] == w && Payloads(m) == [data] + [] == [data];
    } else {
      DecodedFits(w[1..]);
      assert FramedSize([data]) == 4 + |data|;
    }
  }
}
