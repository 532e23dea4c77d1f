/**
  Two channels joined by a server that relays in order and fills in the logins of the
  creator and the acceptor (src/channel.c). Every run from two fresh channels keeps the
  invariant below: the ends agree on the cipher, and payloads arrive unchanged and in
  the order of the calls that sent them.
 */
module ChannelPair {
  import opened Options
  import opened Bytes
  import opened Rc2
  import opened Cbc
  import DH = DiffieHellman
  import KeyExpand
  import opened ChannelState

  // ---- one direction ----

  // ms carries the payloads gs: iv is the receiver's chaining value before the first of
  // them and iv2 the sender's after the last
  ghost predicate Carries(key: Key, iv: Block, ms: seq<SendMsg>, gs: seq<Given>, iv2: Block)
    decreases |ms|
  {
    if ms == [] then gs == [] && iv == iv2
    else
      && gs != [] && gs[0].ty == ms[0].ty
      && ms[0].data == (if ms[0].encrypted then Seal(key, iv, gs[0].data) else gs[0].data)
      && Carries(key, if ms[0].encrypted then SealIv(key, iv, gs[0].data) else iv, ms[1..], gs[1..], iv2)
  }

  lemma {:induction false} CarriesMore(key: Key, iv: Block, ms: seq<SendMsg>, gs: seq<Given>, iv2: Block, m: SendMsg, g: Given)
    requires Carries(key, iv, ms, gs, iv2) && m.ty == g.ty
    requires m.data == if m.encrypted then Seal(key, iv2, g.data) else g.data
    ensures Carries(key, iv, ms + [m], gs + [g], if m.encrypted then SealIv(key, iv2, g.data) else iv2)
    decreases |ms|
  {
    if ms == [] {
      assert ([] + [m])[1..] == [] && ([] + [g])[1..] == [];
    } else {
      var next := if ms[0].encrypted then SealIv(key, iv, gs[0].data) else iv;
      CarriesMore(key, next, ms[1..], gs[1..], iv2, m, g);
      assert (ms + [m])[1..] == ms[1..] + [m] && (gs + [g])[1..] == gs[1..] + [g];
    }
  }

  // the receiver gets the first payload and keeps up with the chain
  lemma CarriesFirst(key: Key, iv: Block, ms: seq<SendMsg>, gs: seq<Given>, iv2: Block, ci: Instance)
    requires Carries(key, iv, ms, gs, iv2) && ms != [] && ci.inKey == key && ci.inIv == iv
    ensures gs != [] && Decrypted(Some(ci), ms[0]) == gs[0]
    ensures AfterDecrypting(Some(ci), ms[0]).Some?
    ensures AfterDecrypting(Some(ci), ms[0]).value == ci.(inIv := AfterDecrypting(Some(ci), ms[0]).value.inIv)
    ensures Carries(key, AfterDecrypting(Some(ci), ms[0]).value.inIv, ms[1..], gs[1..], iv2)
  {
    OpenSeal(key, iv, gs[0].data);
  }

  // no cipher yet, or none at all
  ghost predicate Plain(ms: seq<SendMsg>, gs: seq<Given>) {
    |ms| == |gs| && forall i :: 0 <= i < |ms| ==> ms[i] == SendMsg(gs[i].ty, gs[i].data, false)
  }

  lemma {:induction false} PlainCarries(key: Key, iv: Block, ms: seq<SendMsg>, gs: seq<Given>)
    requires Plain(ms, gs)
    ensures Carries(key, iv, ms, gs, iv)
    decreases |ms|
  {
    if ms != [] {
      PlainCarries(key, iv, ms[1..], gs[1..]);
    }
  }

  // the messages between a sender and a receiver, and the payloads they stand for
  ghost predicate Flow(sender: Option<Instance>, iv: Block, ms: seq<SendMsg>, gs: seq<Given>) {
    match sender
    case None => Plain(ms, gs)
    case Some(ci) => Carries(ci.outKey, iv, ms, gs, ci.outIv)
  }

  function ReceiverIv(c: Chan): Block {
    if c.cipher.Some? then c.cipher.value.inIv else InitIv()
  }

  lemma FlowSend(c: Chan, iv: Block, ms: seq<SendMsg>, gs: seq<Given>, ty: U32, data: seq<bv8>, encrypt: bool)
    requires Flow(c.cipher, iv, ms, gs)
    ensures Flow(AfterEncrypting(c, data, encrypt).cipher, iv, ms + [Encrypted(c, ty, data, encrypt)], gs + [Given(ty % 0x1_0000, data)])
  {
    if c.cipher.Some? {
      CarriesMore(c.cipher.value.outKey, iv, ms, gs, c.cipher.value.outIv, Encrypted(c, ty, data, encrypt), Given(ty % 0x1_0000, data));
    }
  }

  // both ends have the same cipher and each decrypts with what the other encrypts with
  ghost predicate Matched(a: Option<Instance>, b: Option<Instance>) {
    match a
    case None => b == None
    case Some(x) => b.Some? && x.id == b.value.id && x.outKey == b.value.inKey && x.inKey == b.value.outKey
  }

  lemma FlowReceive(s: Chan, r: Chan, ms: seq<SendMsg>, gs: seq<Given>)
    requires Flow(s.cipher, ReceiverIv(r), ms, gs) && ms != [] && Matched(s.cipher, r.cipher) && r.status == OPEN
    ensures gs != [] && RecvEffect(r, ms[0]).given == [gs[0]]
    ensures var r2 := RecvEffect(r, ms[0]).chan;
      && r2 == r.(cipher := r2.cipher) && Matched(s.cipher, r2.cipher)
      && (r2.cipher.Some? ==> r2.cipher.value.outIv == r.cipher.value.outIv)
      && Flow(s.cipher, ReceiverIv(r2), ms[1..], gs[1..])
  {
    if s.cipher.Some? {
      CarriesFirst(s.cipher.value.outKey, ReceiverIv(r), ms, gs, s.cipher.value.outIv, r.cipher.value);
    }
  }

  // ---- negotiation ----

  // the keys that the creator a and the acceptor b end up with
  ghost function OutKeyA(pa: Party, pb: Party, id: U16): Key
    requires |pa.login| >= 5
  {
    if id == RC2_128 then Shared(pa, Public(pb)) else LoginKey(pa.login)
  }

  ghost function OutKeyB(pa: Party, pb: Party, id: U16): Key
    requires |pb.login| >= 5
  {
    if id == RC2_128 then Shared(pb, Public(pa)) else LoginKey(pb.login)
  }

  lemma SharedAgrees(pa: Party, pb: Party)
    ensures LongShared(pa, Public(pb)) <==> LongShared(pb, Public(pa))
    ensures LongShared(pa, Public(pb)) ==> Shared(pa, Public(pb)) == Shared(pb, Public(pa))
  {
    DH.SametimeGroup();
    DH.SharedKeyAgrees(DH.SAMETIME, pa.secret, pb.secret);
  }

  // what the acceptor has made of the offer
  ghost predicate OfferTaken(pa: Party, pb: Party, supported: map<U16, Instance>, ids: set<U16>)
    requires |pb.login| >= 5
  {
    forall id :: id in supported ==>
      id in ids && id in pb.ciphers && supported[id] == Offered(pb, NewInstance(pb.login, id), OfferItem(pa, id))
  }

  lemma {:induction false} OfferedAllTaken(pa: Party, pb: Party, order: seq<U16>, n: nat, ids: set<U16>)
    requires |pb.login| >= 5 && n <= |order| && forall i :: 0 <= i < |order| ==> order[i] in ids
    ensures OfferTaken(pa, pb, OfferedAll(pb, map[], Items(pa, order)[..n]), ids)
    ensures forall i :: 0 <= i < n && order[i] in pb.ciphers ==> order[i] in OfferedAll(pb, map[], Items(pa, order)[..n])
  {
    if n > 0 {
      var items := Items(pa, order)[..n];
      OfferedAllTaken(pa, pb, order, n - 1, ids);
      assert items[..n - 1] == Items(pa, order)[..n - 1];
    }
  }

  // ---- the two ends ----

  // a created the channel, and offers the ciphers that it supports at the start. b exists
  // from the moment the creation arrives (made). ab and ba are on their way; the histories
  // are of what was sent and what was given.
  datatype Pair = Pair(
    a: Chan, b: Chan, offered: set<U16>, made: bool, ab: seq<Message>, ba: seq<Message>,
    sentA: seq<Given>, givenB: seq<Given>, sentB: seq<Given>, givenA: seq<Given>)

  datatype Step =
    | CreateA(order: seq<U16>)
    | SendA(ty: U32, data: seq<bv8>, encrypt: bool)
    | SendB(ty: U32, data: seq<bv8>, encrypt: bool)
    | SelectB(id: U16)
    | SelectNoneB
    | AcceptB(order: seq<U16>)
    | DeliverToB
    | DeliverToA

  // both have a service for the channel; if both know RC2/128, the secret that they share
  // is long enough for it
  ghost predicate ValidParties(pa: Party, pb: Party) {
    && ValidParty(pa) && ValidParty(pb) && pa.hasService && pb.hasService
    && (RC2_128 in pa.ciphers && RC2_128 in pb.ciphers ==> LongShared(pa, Public(pb)))
  }

  // a fresh outgoing channel that supports some ciphers of its session, and a fresh
  // incoming one
  ghost predicate Start(pa: Party, s: Pair)
    requires |pa.login| >= 5
  {
    && s.a == Chan(false, INIT, [], s.a.supported, false, 0, 0, None, [], [])
    && (forall id :: id in s.a.supported ==> id in pa.ciphers && s.a.supported[id] == NewInstance(pa.login, id))
    && s.offered == s.a.supported.Keys
    && s.b == Chan(true, WAIT, [], map[], false, 0, 0, None, [], [])
    && !s.made && s.ab == [] && s.ba == [] && s.sentA == [] && s.givenB == [] && s.sentB == [] && s.givenA == []
  }

  ghost predicate Enabled(s: Pair, step: Step) {
    match step
    case CreateA(order) => s.a.status == INIT && Listing(order, s.a.supported)
    case SendA(_, _, _) => true
    case SendB(_, _, _) => s.made
    case SelectB(id) => s.made && s.b.status == WAIT && id in s.b.supported
    case SelectNoneB => s.made && s.b.status == WAIT
    case AcceptB(order) => s.made && s.b.status == WAIT && Listing(order, s.b.supported)
    case DeliverToB => s.ab != []
    case DeliverToA => s.ba != []
  }

  ghost function FromA(s: Pair, e: Effect): Pair {
    s.(a := e.chan, ab := s.ab + e.sent, givenA := s.givenA + e.given)
  }

  ghost function FromB(s: Pair, e: Effect): Pair {
    s.(b := e.chan, ba := s.ba + e.sent, givenB := s.givenB + e.given)
  }

  // the effect of a message on the end that it reaches; the others are not for channels
  ghost function Arrival(p: Party, c: Chan, m: Message, login: seq<bv8>): Effect
    requires |p.login| >= 5 && |login| >= 5
  {
    match m
    case Create(items, mode) => RecvCreateEffect(p, c, items, mode, login, 0)
    case Accept(mode, item) => RecvAcceptEffect(p, c, mode, item, login, 0)
    case Send(msg) => RecvEffect(c, msg)
    case Destroy(_) => Effect(c, [], [])
  }

  ghost function Apply(pa: Party, pb: Party, s: Pair, step: Step): Pair
    requires ValidParties(pa, pb) && Enabled(s, step)
    requires |s.b.user| >= 5 || !s.made
  {
    match step
    case CreateA(order) => FromA(s, CreateEffect(pa, s.a, order, 0))
    case SendA(ty, data, encrypt) => FromA(s, SendEffect(s.a, ty, data, encrypt, 0)).(sentA := s.sentA + [Given(ty % 0x1_0000, data)])
    case SendB(ty, data, encrypt) => FromB(s, SendEffect(s.b, ty, data, encrypt, 0)).(sentB := s.sentB + [Given(ty % 0x1_0000, data)])
    case SelectB(id) => s.(b := Selected(s.b, Some(s.b.supported[id])))
    case SelectNoneB => s.(b := Selected(s.b, None))
    case AcceptB(order) => FromB(s, AcceptEffect(pb, s.b, order, 0))
    case DeliverToB => FromB(s.(ab := s.ab[1..], made := true), Arrival(pb, s.b, s.ab[0], pa.login))
    case DeliverToA => FromA(s.(ba := s.ba[1..]), Arrival(pa, s.a, s.ba[0], pb.login))
  }

  // ---- the invariant ----

  // what both directions keep: the payloads that were sent are those that were given and
  // those on their way, in this order
  ghost predicate Flows(s: Pair, v: seq<SendMsg>, w: seq<SendMsg>) {
    && s.givenB <= s.sentA && s.givenA <= s.sentB
    && Flow(s.a.cipher, ReceiverIv(s.b), v, s.sentA[|s.givenB|..])
    && Flow(s.b.cipher, ReceiverIv(s.a), w, s.sentB[|s.givenA|..])
  }

  ghost predicate FreshSupport(pa: Party, c: Chan)
    requires |pa.login| >= 5
  {
    && !c.incoming && !c.selected && c.cipher == None && c.inq == []
    && forall id :: id in c.supported ==> id in pa.ciphers && c.supported[id] == NewInstance(pa.login, id)
  }

  // the acceptor before it accepts: its cipher, if it has selected one, is one of the offer
  ghost predicate Choosable(pa: Party, pb: Party, s: Pair)
    requires ValidParties(pa, pb)
  {
    && s.b.incoming && s.b.inq == [] && s.b.user == pa.login
    && OfferTaken(pa, pb, s.b.supported, s.a.supported.Keys)
    && (s.b.cipher.Some? ==> s.b.selected && Chosen(pa, pb, s, s.b.cipher.value))
    && (s.b.selected ==> s.b.supported == map[] && s.b.policy == PolicyFor(s.b.cipher))
  }

  ghost predicate Chosen(pa: Party, pb: Party, s: Pair, ci: Instance)
    requires ValidParties(pa, pb)
  {
    && ci.id in s.a.supported && ci.id in pb.ciphers && ci.outKey == OutKeyB(pa, pb, ci.id) && ci.inIv == InitIv()
    && (ci.id == RC2_128 ==> ci.inKey == ci.outKey)
  }

  // before the creation is sent, and while it is on its way
  ghost predicate Before(pa: Party, pb: Party, s: Pair)
    requires ValidParties(pa, pb)
  {
    && !s.made && FreshSupport(pa, s.a) && s.offered == s.a.supported.Keys && s.b == Chan(true, WAIT, [], map[], false, 0, 0, None, [], []) && s.ba == []
    && ((s.a.status == INIT && s.ab == []) || (s.a.status == WAIT && OfferSent(pa, s)))
    && Flows(s, s.a.outq, [])
  }

  ghost predicate OfferSent(pa: Party, s: Pair) {
    exists order, mode :: Listing(order, s.a.supported) && s.ab == [Create(Items(pa, order), mode)]
  }

  // the acceptor has the offer
  ghost predicate OfferHeld(pa: Party, pb: Party, s: Pair)
    requires ValidParties(pa, pb)
  {
    && s.made && FreshSupport(pa, s.a) && s.offered == s.a.supported.Keys
    && s.a.status == WAIT && s.b.status == WAIT && s.ab == [] && s.ba == []
    && Choosable(pa, pb, s) && Flows(s, s.a.outq, s.b.outq)
  }

  // the acceptance is on its way, perhaps with messages behind it
  ghost predicate AcceptanceSent(pa: Party, pb: Party, s: Pair, w: seq<SendMsg>)
    requires ValidParties(pa, pb)
  {
    && s.made && FreshSupport(pa, s.a) && s.offered == s.a.supported.Keys
    && s.a.status == WAIT && s.b.status == OPEN && s.ab == []
    && s.b.inq == [] && s.b.outq == [] && |s.b.user| >= 5 && s.b.policy == PolicyFor(s.b.cipher)
    && s.ba == [AcceptMsg(pb, s.b)] + Sends(w)
    && (s.b.cipher.Some? ==> Chosen(pa, pb, s, s.b.cipher.value) && s.b.cipher.value.inKey == OutKeyA(pa, pb, s.b.cipher.value.id))
    && Flows(s, s.a.outq, w)
  }

  // both ends are open
  ghost predicate BothOpen(pa: Party, pb: Party, s: Pair, v: seq<SendMsg>, w: seq<SendMsg>)
    requires ValidParties(pa, pb)
  {
    && s.made && s.a.status == OPEN && s.b.status == OPEN && s.ab == Sends(v) && s.ba == Sends(w)
    && s.a.inq == [] && s.a.outq == [] && s.b.inq == [] && s.b.outq == [] && |s.b.user| >= 5
    && Agreed(pa, pb, s) && Flows(s, v, w)
  }

  // the outcome of the negotiation
  ghost predicate Agreed(pa: Party, pb: Party, s: Pair)
    requires ValidParties(pa, pb)
  {
    && Matched(s.a.cipher, s.b.cipher) && s.a.policy == s.b.policy == PolicyFor(s.a.cipher)
    && (s.a.cipher.Some? ==> s.a.cipher.value.id in s.offered && s.a.cipher.value.id in pa.ciphers && s.a.cipher.value.id in pb.ciphers)
    && (s.a.cipher.Some? ==> s.a.cipher.value.outKey == OutKeyA(pa, pb, s.a.cipher.value.id))
    && (s.a.cipher.Some? ==> s.a.cipher.value.inKey == OutKeyB(pa, pb, s.a.cipher.value.id))
  }

  ghost predicate Inv(pa: Party, pb: Party, s: Pair)
    requires ValidParties(pa, pb)
  {
    || Before(pa, pb, s)
    || OfferHeld(pa, pb, s)
    || (exists w :: AcceptanceSent(pa, pb, s, w))
    || (exists v, w :: BothOpen(pa, pb, s, v, w))
  }

  lemma StartInv(pa: Party, pb: Party, s: Pair)
    requires ValidParties(pa, pb) && Start(pa, s)
    ensures Inv(pa, pb, s)
  {
    assert Before(pa, pb, s);
  }

  // ---- steps ----

  lemma FlowsSendA(s: Pair, v: seq<SendMsg>, w: seq<SendMsg>, ty: U32, data: seq<bv8>, encrypt: bool, t: Pair)
    requires Flows(s, v, w)
    requires t.a.cipher == AfterEncrypting(s.a, data, encrypt).cipher && t.b == s.b && t.sentA == s.sentA + [Given(ty % 0x1_0000, data)]
    requires t.givenB == s.givenB && t.sentB == s.sentB && t.givenA == s.givenA
    ensures Flows(t, v + [Encrypted(s.a, ty, data, encrypt)], w)
  {
    FlowSend(s.a, ReceiverIv(s.b), v, s.sentA[|s.givenB|..], ty, data, encrypt);
    assert t.sentA[|s.givenB|..] == s.sentA[|s.givenB|..] + [Given(ty % 0x1_0000, data)];
  }

  lemma FlowsSendB(s: Pair, v: seq<SendMsg>, w: seq<SendMsg>, ty: U32, data: seq<bv8>, encrypt: bool, t: Pair)
    requires Flows(s, v, w)
    requires t.b.cipher == AfterEncrypting(s.b, data, encrypt).cipher && t.a == s.a && t.sentB == s.sentB + [Given(ty % 0x1_0000, data)]
    requires t.givenB == s.givenB && t.sentA == s.sentA && t.givenA == s.givenA
    ensures Flows(t, v, w + [Encrypted(s.b, ty, data, encrypt)])
  {
    FlowSend(s.b, ReceiverIv(s.a), w, s.sentB[|s.givenA|..], ty, data, encrypt);
    assert t.sentB[|s.givenA|..] == s.sentB[|s.givenA|..] + [Given(ty % 0x1_0000, data)];
  }

  lemma SendsMore(ms: seq<SendMsg>, m: SendMsg)
    ensures Sends(ms) + [Send(m)] == Sends(ms + [m])
  {}

  lemma SendsRest(ms: seq<SendMsg>)
    requires ms != []
    ensures Sends(ms)[1..] == Sends(ms[1..]) && Sends(ms)[0] == Send(ms[0])
  {}

  lemma BeforeSend(pa: Party, pb: Party, s: Pair, ty: U32, data: seq<bv8>, encrypt: bool)
    requires ValidParties(pa, pb) && Before(pa, pb, s)
    ensures Before(pa, pb, Apply(pa, pb, s, SendA(ty, data, encrypt)))
  {
    var t := Apply(pa, pb, s, SendA(ty, data, encrypt));
    FlowsSendA(s, s.a.outq, [], ty, data, encrypt, t);
    assert t.ab == s.ab && t.a.supported == s.a.supported;
  }

  lemma BeforeCreate(pa: Party, pb: Party, s: Pair, order: seq<U16>)
    requires ValidParties(pa, pb) && Before(pa, pb, s) && Enabled(s, CreateA(order))
    ensures Before(pa, pb, Apply(pa, pb, s, CreateA(order)))
  {
    var t := Apply(pa, pb, s, CreateA(order));
    assert t.ab == [Create(Items(pa, order), t.a.offeredPolicy)];
    assert OfferSent(pa, t);
  }

  // the offer arrives
  lemma BeforeDeliver(pa: Party, pb: Party, s: Pair)
    requires ValidParties(pa, pb) && Before(pa, pb, s) && s.ab != []
    ensures OfferHeld(pa, pb, Apply(pa, pb, s, DeliverToB))
  {
    var c := OfferArrives(pa, pb, s);
  }

  // what the acceptor makes of it
  lemma OfferArrives(pa: Party, pb: Party, s: Pair) returns (c: Chan)
    requires ValidParties(pa, pb) && Before(pa, pb, s) && s.ab != []
    ensures Apply(pa, pb, s, DeliverToB) == s.(b := c, ab := [], made := true)
    ensures c == s.b.(user := pa.login, offeredPolicy := c.offeredPolicy, supported := c.supported)
    ensures OfferTaken(pa, pb, c.supported, s.a.supported.Keys)
    ensures s.ab[0].Create? && c.offeredPolicy == s.ab[0].mode
    ensures forall id :: id in s.a.supported && id in pb.ciphers ==> id in c.supported
  {
    var order, mode :| Listing(order, s.a.supported) && s.ab == [Create(Items(pa, order), mode)];
    var e := OfferEffect(pa, pb, s.b, order, mode, s.a.supported);
    c := e.chan;
    assert s.ab[0] == Create(Items(pa, order), mode) && s.ab[1..] == [];
  }

  // the effect of the offer on a fresh channel
  lemma OfferEffect(pa: Party, pb: Party, b: Chan, order: seq<U16>, mode: U16, supported: map<U16, Instance>) returns (e: Effect)
    requires |pb.login| >= 5 && pb.hasService && b.incoming && !b.selected && b.supported == map[]
    requires Listing(order, supported)
    ensures e == RecvCreateEffect(pb, b, Items(pa, order), mode, pa.login, 0)
    ensures e == Effect(b.(user := pa.login, offeredPolicy := mode, supported := e.chan.supported), [], [])
    ensures OfferTaken(pa, pb, e.chan.supported, supported.Keys)
    ensures forall id :: id in order && id in pb.ciphers ==> id in e.chan.supported
  {
    e := RecvCreateEffect(pb, b, Items(pa, order), mode, pa.login, 0);
    OfferedAllTaken(pa, pb, order, |order|, supported.Keys);
    assert Items(pa, order)[..|order|] == Items(pa, order);
  }

  lemma OfferedSendA(pa: Party, pb: Party, s: Pair, ty: U32, data: seq<bv8>, encrypt: bool)
    requires ValidParties(pa, pb) && OfferHeld(pa, pb, s)
    ensures OfferHeld(pa, pb, Apply(pa, pb, s, SendA(ty, data, encrypt)))
  {
    FlowsSendA(s, s.a.outq, s.b.outq, ty, data, encrypt, Apply(pa, pb, s, SendA(ty, data, encrypt)));
  }

  lemma OfferedSendB(pa: Party, pb: Party, s: Pair, ty: U32, data: seq<bv8>, encrypt: bool)
    requires ValidParties(pa, pb) && OfferHeld(pa, pb, s)
    ensures OfferHeld(pa, pb, Apply(pa, pb, s, SendB(ty, data, encrypt)))
  {
    FlowsSendB(s, s.a.outq, s.b.outq, ty, data, encrypt, Apply(pa, pb, s, SendB(ty, data, encrypt)));
  }

  // no cipher can be selected, too
  lemma SelectNoneKeeps(pa: Party, pb: Party, s: Pair)
    requires ValidParties(pa, pb) && OfferHeld(pa, pb, s)
    ensures OfferHeld(pa, pb, s.(b := Selected(s.b, None)))
  {}

  // a supported cipher can be selected at any time before acceptance
  lemma SelectKeeps(pa: Party, pb: Party, s: Pair, id: U16)
    requires ValidParties(pa, pb) && OfferHeld(pa, pb, s) && id in s.b.supported
    ensures OfferHeld(pa, pb, s.(b := Selected(s.b, Some(s.b.supported[id]))))
    ensures Selected(s.b, Some(s.b.supported[id])).cipher.Some?
  {
    var ci := s.b.supported[id];
    PlainCarries(ci.outKey, InitIv(), s.b.outq, s.sentB[|s.givenA|..]);
  }

  lemma OfferedAccept(pa: Party, pb: Party, s: Pair, order: seq<U16>)
    requires ValidParties(pa, pb) && OfferHeld(pa, pb, s) && Listing(order, s.b.supported)
    ensures exists w :: AcceptanceSent(pa, pb, Apply(pa, pb, s, AcceptB(order)), w)
  {
    var d := Chooses(pa, pb, s, order);
    var t := Apply(pa, pb, s, AcceptB(order));
    assert DecryptedAll(d.cipher, []) == [];
    assert t.ba == [AcceptMsg(pb, d)] + Sends(s.b.outq);
    assert AcceptanceSent(pa, pb, t, s.b.outq);
  }

  // what mwChannel_accept settles on
  lemma Chooses(pa: Party, pb: Party, s: Pair, order: seq<U16>) returns (d: Chan)
    requires ValidParties(pa, pb) && OfferHeld(pa, pb, s) && Listing(order, s.b.supported)
    ensures d == Choosing(s.b, order)
    ensures d == s.b.(cipher := d.cipher, supported := map[], selected := true, policy := PolicyFor(d.cipher))
    ensures d.cipher.Some? ==> Chosen(pa, pb, s, d.cipher.value) && d.cipher.value.inKey == OutKeyA(pa, pb, d.cipher.value.id)
    ensures Flows(s.(b := d), s.a.outq, s.b.outq)
  {
    d := Choosing(s.b, order);
    if s.b.cipher.Some? {
      AcceptingChosen(pa, pb, s);
    } else {
      var choice := AutoChoice(s.b, order);
      ChoiceSupported(pa, pb, s, order);
      if choice.Some? {
        SelectKeeps(pa, pb, s, choice.value.id);
        AcceptingChosen(pa, pb, s.(b := Selected(s.b, choice)));
      }
    }
  }

  lemma ChoiceSupported(pa: Party, pb: Party, s: Pair, order: seq<U16>)
    requires ValidParties(pa, pb) && OfferHeld(pa, pb, s) && Listing(order, s.b.supported)
    ensures var choice := AutoChoice(s.b, order);
      choice.Some? ==> choice.value.id in s.b.supported && choice.value == s.b.supported[choice.value.id]
  {
    var c := s.b;
    if c.offeredPolicy == ENCRYPT_RC2_40 {
      SupportedId(pa, pb, c.supported, s.a.supported.Keys, RC2_40);
    } else if c.offeredPolicy == ENCRYPT_RC2_128 {
      SupportedId(pa, pb, c.supported, s.a.supported.Keys, RC2_128);
    } else if order != [] {
      SupportedId(pa, pb, c.supported, s.a.supported.Keys, order[|order| - 1]);
    }
  }

  lemma SupportedId(pa: Party, pb: Party, supported: map<U16, Instance>, ids: set<U16>, id: U16)
    requires |pb.login| >= 5 && OfferTaken(pa, pb, supported, ids)
    ensures id in supported ==> supported[id].id == id
  {}

  // the keys after mwCipherInstance_accept
  lemma AcceptingChosen(pa: Party, pb: Party, s: Pair)
    requires ValidParties(pa, pb) && OfferHeld(pa, pb, s) && s.b.cipher.Some?
    ensures var ci := Accepting(s.b.cipher.value, s.b.user);
      && Chosen(pa, pb, s, ci) && ci.inKey == OutKeyA(pa, pb, ci.id)
      && Flows(s.(b := s.b.(cipher := Some(ci))), s.a.outq, s.b.outq)
  {
    SharedAgrees(pa, pb);
  }

  lemma AcceptedSendA(pa: Party, pb: Party, s: Pair, w: seq<SendMsg>, ty: U32, data: seq<bv8>, encrypt: bool)
    requires ValidParties(pa, pb) && AcceptanceSent(pa, pb, s, w)
    ensures AcceptanceSent(pa, pb, Apply(pa, pb, s, SendA(ty, data, encrypt)), w)
  {
    FlowsSendA(s, s.a.outq, w, ty, data, encrypt, Apply(pa, pb, s, SendA(ty, data, encrypt)));
  }

  lemma AcceptedSendB(pa: Party, pb: Party, s: Pair, w: seq<SendMsg>, ty: U32, data: seq<bv8>, encrypt: bool)
    requires ValidParties(pa, pb) && AcceptanceSent(pa, pb, s, w)
    ensures AcceptanceSent(pa, pb, Apply(pa, pb, s, SendB(ty, data, encrypt)), w + [Encrypted(s.b, ty, data, encrypt)])
  {
    var t := Apply(pa, pb, s, SendB(ty, data, encrypt));
    FlowsSendB(s, s.a.outq, w, ty, data, encrypt, t);
    SendsMore(w, Encrypted(s.b, ty, data, encrypt));
    assert t.ba == [AcceptMsg(pb, t.b)] + Sends(w + [Encrypted(s.b, ty, data, encrypt)]);
  }

  // the acceptance arrives
  lemma AcceptedDeliver(pa: Party, pb: Party, s: Pair, w: seq<SendMsg>)
    requires ValidParties(pa, pb) && AcceptanceSent(pa, pb, s, w)
    ensures BothOpen(pa, pb, Apply(pa, pb, s, DeliverToA), s.a.outq, w)
  {
    var c := AcceptanceArrives(pa, pb, s, w);
    OpenedFlows(s, s.a.outq, w, Apply(pa, pb, s, DeliverToA));
  }

  // what was queued in plain is still right when the creator has a cipher
  lemma OpenedFlows(s: Pair, v: seq<SendMsg>, w: seq<SendMsg>, t: Pair)
    requires Flows(s, v, w) && s.a.cipher == None && Matched(t.a.cipher, s.b.cipher) && t == s.(a := t.a, ab := t.ab, ba := t.ba)
    requires t.a.cipher.Some? ==> t.a.cipher.value.inIv == t.a.cipher.value.outIv == InitIv()
    requires s.b.cipher.Some? ==> s.b.cipher.value.inIv == InitIv()
    ensures Flows(t, v, w)
  {
    if t.a.cipher.Some? {
      PlainCarries(t.a.cipher.value.outKey, InitIv(), v, s.sentA[|s.givenB|..]);
    }
  }

  // what the creator makes of it
  lemma AcceptanceArrives(pa: Party, pb: Party, s: Pair, w: seq<SendMsg>) returns (c: Chan)
    requires ValidParties(pa, pb) && AcceptanceSent(pa, pb, s, w)
    ensures Apply(pa, pb, s, DeliverToA) == s.(a := c, ab := Sends(s.a.outq), ba := Sends(w))
    ensures c == s.a.(user := pb.login, status := OPEN, outq := [], cipher := c.cipher, supported := map[], selected := true,
                      policy := PolicyFor(s.b.cipher))
    ensures Matched(c.cipher, s.b.cipher)
    ensures c.cipher.Some? ==> c.cipher.value.inIv == InitIv() && c.cipher.value.outIv == InitIv()
  {
    var t := Apply(pa, pb, s, DeliverToA);
    c := t.a;
    assert s.ba[0] == AcceptMsg(pb, s.b) && s.ba[1..] == Sends(w);
    AcceptanceAgrees(pa, pb, s, w);
  }

  // the cipher that the creator takes from the acceptance
  lemma AcceptanceAgrees(pa: Party, pb: Party, s: Pair, w: seq<SendMsg>)
    requires ValidParties(pa, pb) && AcceptanceSent(pa, pb, s, w)
    ensures var item := if s.b.cipher.Some? then Some(OfferItem(pb, s.b.cipher.value.id)) else None;
      var e := RecvAcceptEffect(pa, s.a, s.b.policy, item, pb.login, 0);
      && e.chan == s.a.(user := pb.login, status := OPEN, outq := [], cipher := e.chan.cipher, supported := map[], selected := true,
                        policy := PolicyFor(s.b.cipher))
      && e.sent == Sends(s.a.outq) && e.given == []
      && Matched(e.chan.cipher, s.b.cipher)
      && (e.chan.cipher.Some? ==> e.chan.cipher.value.inIv == InitIv() && e.chan.cipher.value.outIv == InitIv())
  {
    SharedAgrees(pa, pb);
  }

  lemma OpenSendA(pa: Party, pb: Party, s: Pair, v: seq<SendMsg>, w: seq<SendMsg>, ty: U32, data: seq<bv8>, encrypt: bool)
    requires ValidParties(pa, pb) && BothOpen(pa, pb, s, v, w)
    ensures BothOpen(pa, pb, Apply(pa, pb, s, SendA(ty, data, encrypt)), v + [Encrypted(s.a, ty, data, encrypt)], w)
  {
    FlowsSendA(s, v, w, ty, data, encrypt, Apply(pa, pb, s, SendA(ty, data, encrypt)));
    SendsMore(v, Encrypted(s.a, ty, data, encrypt));
  }

  lemma OpenSendB(pa: Party, pb: Party, s: Pair, v: seq<SendMsg>, w: seq<SendMsg>, ty: U32, data: seq<bv8>, encrypt: bool)
    requires ValidParties(pa, pb) && BothOpen(pa, pb, s, v, w)
    ensures BothOpen(pa, pb, Apply(pa, pb, s, SendB(ty, data, encrypt)), v, w + [Encrypted(s.b, ty, data, encrypt)])
  {
    FlowsSendB(s, v, w, ty, data, encrypt, Apply(pa, pb, s, SendB(ty, data, encrypt)));
    SendsMore(w, Encrypted(s.b, ty, data, encrypt));
  }

  lemma MatchedBack(a: Option<Instance>, b: Option<Instance>)
    requires Matched(a, b)
    ensures Matched(b, a)
  {}

  lemma OpenDeliverB(pa: Party, pb: Party, s: Pair, v: seq<SendMsg>, w: seq<SendMsg>)
    requires ValidParties(pa, pb) && BothOpen(pa, pb, s, v, w) && v != []
    ensures BothOpen(pa, pb, Apply(pa, pb, s, DeliverToB), v[1..], w)
  {
    var t := Apply(pa, pb, s, DeliverToB);
    SendsRest(v);
    assert t == FromB(s.(ab := Sends(v[1..])), RecvEffect(s.b, v[0]));
    FlowsReceiveB(s, v, w, t);
  }

  lemma FlowsReceiveB(s: Pair, v: seq<SendMsg>, w: seq<SendMsg>, t: Pair)
    requires Flows(s, v, w) && v != [] && Matched(s.a.cipher, s.b.cipher) && s.b.status == OPEN
    requires t == FromB(s.(ab := t.ab, ba := t.ba, made := t.made), RecvEffect(s.b, v[0]).(sent := []))
    ensures Flows(t, v[1..], w) && Matched(t.a.cipher, t.b.cipher) && t.b == s.b.(cipher := t.b.cipher)
  {
    var gs := s.sentA[|s.givenB|..];
    FlowReceive(s.a, s.b, v, gs);
    assert t.givenB == s.givenB + [gs[0]] && t.sentA[|t.givenB|..] == gs[1..];
  }

  lemma OpenDeliverA(pa: Party, pb: Party, s: Pair, v: seq<SendMsg>, w: seq<SendMsg>)
    requires ValidParties(pa, pb) && BothOpen(pa, pb, s, v, w) && w != []
    ensures BothOpen(pa, pb, Apply(pa, pb, s, DeliverToA), v, w[1..])
  {
    var t := Apply(pa, pb, s, DeliverToA);
    SendsRest(w);
    assert t == FromA(s.(ba := Sends(w[1..])), RecvEffect(s.a, w[0]));
    var gs := s.sentB[|s.givenA|..];
    MatchedBack(s.a.cipher, s.b.cipher);
    FlowReceive(s.b, s.a, w, gs);
    MatchedBack(s.b.cipher, t.a.cipher);
    assert t.givenA == s.givenA + [gs[0]] && t.sentB[|t.givenA|..] == gs[1..];
  }

  // ---- runs ----

  lemma BeforeStep(pa: Party, pb: Party, s: Pair, step: Step)
    requires ValidParties(pa, pb) && Before(pa, pb, s) && Enabled(s, step)
    ensures Inv(pa, pb, Apply(pa, pb, s, step))
  {
    match step {
      case CreateA(order) => BeforeCreate(pa, pb, s, order);
      case SendA(ty, data, encrypt) => BeforeSend(pa, pb, s, ty, data, encrypt);
      case DeliverToB => BeforeDeliver(pa, pb, s);
    }
  }

  lemma OfferedStep(pa: Party, pb: Party, s: Pair, step: Step)
    requires ValidParties(pa, pb) && OfferHeld(pa, pb, s) && Enabled(s, step)
    ensures Inv(pa, pb, Apply(pa, pb, s, step))
  {
    match step {
      case SendA(ty, data, encrypt) => OfferedSendA(pa, pb, s, ty, data, encrypt);
      case SendB(ty, data, encrypt) => OfferedSendB(pa, pb, s, ty, data, encrypt);
      case SelectB(id) => SelectKeeps(pa, pb, s, id);
      case SelectNoneB => SelectNoneKeeps(pa, pb, s);
      case AcceptB(order) => OfferedAccept(pa, pb, s, order);
    }
  }

  lemma AcceptedStep(pa: Party, pb: Party, s: Pair, step: Step, w: seq<SendMsg>)
    requires ValidParties(pa, pb) && AcceptanceSent(pa, pb, s, w) && Enabled(s, step)
    ensures Inv(pa, pb, Apply(pa, pb, s, step))
  {
    match step {
      case SendA(ty, data, encrypt) => AcceptedSendA(pa, pb, s, w, ty, data, encrypt);
      case SendB(ty, data, encrypt) => AcceptedSendB(pa, pb, s, w, ty, data, encrypt);
      case DeliverToA => AcceptedDeliver(pa, pb, s, w);
    }
  }

  lemma OpenStep(pa: Party, pb: Party, s: Pair, step: Step, v: seq<SendMsg>, w: seq<SendMsg>)
    requires ValidParties(pa, pb) && BothOpen(pa, pb, s, v, w) && Enabled(s, step)
    ensures exists v1, w1 :: BothOpen(pa, pb, Apply(pa, pb, s, step), v1, w1)
  {
    match step {
      case SendA(ty, data, encrypt) => OpenSendA(pa, pb, s, v, w, ty, data, encrypt);
      case SendB(ty, data, encrypt) => OpenSendB(pa, pb, s, v, w, ty, data, encrypt);
      case DeliverToB =>
        assert v != [];
        OpenDeliverB(pa, pb, s, v, w);
      case DeliverToA =>
        assert w != [];
        OpenDeliverA(pa, pb, s, v, w);
    }
  }

  // every step of either end, and every delivery, keeps the invariant
  lemma StepInv(pa: Party, pb: Party, s: Pair, step: Step)
    requires ValidParties(pa, pb) && Inv(pa, pb, s) && Enabled(s, step)
    ensures |s.b.user| >= 5 || !s.made
    ensures Inv(pa, pb, Apply(pa, pb, s, step))
  {
    if Before(pa, pb, s) {
      BeforeStep(pa, pb, s, step);
    } else if OfferHeld(pa, pb, s) {
      OfferedStep(pa, pb, s, step);
    } else if w :| AcceptanceSent(pa, pb, s, w) {
      AcceptedStep(pa, pb, s, step, w);
    } else {
      var v, w :| BothOpen(pa, pb, s, v, w);
      OpenStep(pa, pb, s, step, v, w);
    }
  }

  // states[0], states[1], ... is a run of the two ends
  ghost predicate Run(pa: Party, pb: Party, states: seq<Pair>, steps: seq<Step>)
    requires ValidParties(pa, pb)
  {
    && |states| == |steps| + 1 && Start(pa, states[0])
    && forall i :: 0 <= i < |steps| ==>
         Enabled(states[i], steps[i]) && (|states[i].b.user| >= 5 || !states[i].made) &&
         states[i + 1] == Apply(pa, pb, states[i], steps[i])
  }

  lemma {:induction false} RunInv(pa: Party, pb: Party, states: seq<Pair>, steps: seq<Step>, n: nat)
    requires ValidParties(pa, pb) && Run(pa, pb, states, steps) && n <= |steps|
    ensures Inv(pa, pb, states[n])
  {
    if n == 0 {
      StartInv(pa, pb, states[0]);
    } else {
      RunInv(pa, pb, states, steps, n - 1);
      StepInv(pa, pb, states[n - 1], steps[n - 1]);
    }
  }

  // At every moment of every run each service has been given, unchanged and in order, a
  // prefix of what the other end was asked to send; and once both ends are open they
  // hold the same cipher with matching keys, offered by one and known to both, or none.
  lemma Delivery(pa: Party, pb: Party, states: seq<Pair>, steps: seq<Step>, n: nat)
    requires ValidParties(pa, pb) && Run(pa, pb, states, steps) && n <= |steps|
    ensures var s := states[n]; s.givenB <= s.sentA && s.givenA <= s.sentB
    ensures var s := states[n]; s.a.status == OPEN ==> s.b.status == OPEN && Agreed(pa, pb, s)
  {
    RunInv(pa, pb, states, steps, n);
  }

  // ---- encryption ----

  // a cipher that the creator offers and the acceptor knows
  ghost predicate Common(pb: Party, s: Pair) {
    exists id :: id in s.offered && id in pb.ciphers
  }

  // While a common cipher has been offered, the acceptor has taken it up or will.
  ghost predicate WillEncrypt(pb: Party, s: Pair) {
    Common(pb, s) ==>
      if !s.made then s.ab == [] || (s.ab[0].Create? && s.ab[0].mode == ENCRYPT_WHATEVER)
      else s.b.cipher.Some? || (s.b.status == WAIT && CanChoose(s.b))
  }

  ghost predicate CanChoose(c: Chan) {
    !c.selected && c.offeredPolicy == ENCRYPT_WHATEVER && c.supported != map[]
  }

  lemma BeforeEncrypts(pa: Party, pb: Party, s: Pair, step: Step)
    requires ValidParties(pa, pb) && Before(pa, pb, s) && Enabled(s, step) && WillEncrypt(pb, s)
    ensures WillEncrypt(pb, Apply(pa, pb, s, step))
  {
    if step.CreateA? && Common(pb, s) {
      var id :| id in s.offered && id in pb.ciphers;
      assert id in step.order;
    } else if step.DeliverToB? && Common(pb, s) {
      CommonArrives(pa, pb, s);
    }
  }

  // the common cipher reaches the acceptor
  lemma CommonArrives(pa: Party, pb: Party, s: Pair)
    requires ValidParties(pa, pb) && Before(pa, pb, s) && s.ab != [] && s.ab[0].Create? && Common(pb, s)
    ensures Apply(pa, pb, s, DeliverToB).b.offeredPolicy == s.ab[0].mode
    ensures Apply(pa, pb, s, DeliverToB).b.supported != map[]
  {
    var id :| id in s.offered && id in pb.ciphers;
    var c := OfferArrives(pa, pb, s);
    assert id in c.supported;
  }

  lemma HeldEncrypts(pa: Party, pb: Party, s: Pair, step: Step)
    requires ValidParties(pa, pb) && OfferHeld(pa, pb, s) && Enabled(s, step) && WillEncrypt(pb, s) && !step.SelectNoneB?
    ensures WillEncrypt(pb, Apply(pa, pb, s, step))
  {
    match step {
      case SelectB(id) => SelectKeeps(pa, pb, s, id);
      case AcceptB(order) =>
        if CanChoose(s.b) && s.b.cipher == None {
          forall id | id in s.b.supported ensures s.b.supported[id].id == id {
            SupportedId(pa, pb, s.b.supported, s.a.supported.Keys, id);
          }
          AcceptChooses(pb, s.b, order);
        }
      case SendA(ty, data, encrypt) =>
      case SendB(ty, data, encrypt) =>
    }
  }

  lemma OpenEncrypts(pa: Party, pb: Party, s: Pair, step: Step)
    requires ValidParties(pa, pb) && s.made && |s.b.user| >= 5 && s.b.status == OPEN && Enabled(s, step) && WillEncrypt(pb, s)
    requires step.DeliverToB? ==> s.ab[0].Send?
    ensures WillEncrypt(pb, Apply(pa, pb, s, step))
  {}

  lemma StepEncrypts(pa: Party, pb: Party, s: Pair, step: Step)
    requires ValidParties(pa, pb) && Inv(pa, pb, s) && Enabled(s, step) && WillEncrypt(pb, s) && !step.SelectNoneB?
    ensures |s.b.user| >= 5 || !s.made
    ensures WillEncrypt(pb, Apply(pa, pb, s, step))
  {
    if Before(pa, pb, s) {
      BeforeEncrypts(pa, pb, s, step);
    } else if OfferHeld(pa, pb, s) {
      HeldEncrypts(pa, pb, s, step);
    } else {
      OpenEncrypts(pa, pb, s, step);
    }
  }

  lemma {:induction false} RunEncrypts(pa: Party, pb: Party, states: seq<Pair>, steps: seq<Step>, n: nat)
    requires ValidParties(pa, pb) && Run(pa, pb, states, steps) && n <= |steps|
    requires forall i :: 0 <= i < n ==> !steps[i].SelectNoneB?
    ensures WillEncrypt(pb, states[n])
  {
    if n > 0 {
      RunEncrypts(pa, pb, states, steps, n - 1);
      RunInv(pa, pb, states, steps, n - 1);
      StepEncrypts(pa, pb, states[n - 1], steps[n - 1]);
    }
  }

  // Unless the acceptor has asked for no cipher, an open channel encrypts exactly when the
  // creator has offered a cipher that the acceptor knows.
  lemma Encrypts(pa: Party, pb: Party, states: seq<Pair>, steps: seq<Step>, n: nat)
    requires ValidParties(pa, pb) && Run(pa, pb, states, steps) && n <= |steps|
    requires forall i :: 0 <= i < n ==> !steps[i].SelectNoneB?
    requires states[n].a.status == OPEN
    ensures states[n].a.cipher.Some? <==> exists id :: id in states[n].offered && id in pb.ciphers
  {
    RunEncrypts(pa, pb, states, steps, n);
    Delivery(pa, pb, states, steps, n);
    RunInv(pa, pb, states, steps, n);
  }

  // The keys of an open channel: of RC2/40 those of the first five bytes of the two login
  // ids, and of RC2/128 one, from the last sixteen bytes of the shared secret.
  lemma AgreedKeys(pa: Party, pb: Party, states: seq<Pair>, steps: seq<Step>, n: nat)
    requires ValidParties(pa, pb) && Run(pa, pb, states, steps) && n <= |steps|
    requires states[n].a.status == OPEN && states[n].a.cipher.Some?
    ensures var ci := states[n].a.cipher.value; ci.id == 0x0000 || ci.id == 0x0001
    ensures var ci := states[n].a.cipher.value; ci.id == 0x0000 ==>
      ci.outKey == KeyExpand.Expansion(pa.login[..5], 1024) && ci.inKey == KeyExpand.Expansion(pb.login[..5], 1024)
    ensures DH.ValidGroup(DH.SAMETIME)
    ensures var ci := states[n].a.cipher.value; ci.id == 0x0001 ==>
      ci.outKey == ci.inKey && DH.FromSecret(ci.outKey, DH.PowMod(DH.SAMETIME, DH.PowMod(DH.SAMETIME, 3, pb.secret), pa.secret))
  {
    Delivery(pa, pb, states, steps, n);
    RunInv(pa, pb, states, steps, n);
    KeysAre(pa, pb);
  }

  lemma KeysAre(pa: Party, pb: Party)
    requires ValidParty(pa) && ValidParty(pb)
    ensures DH.ValidGroup(DH.SAMETIME)
    ensures OutKeyA(pa, pb, RC2_40) == KeyExpand.Expansion(pa.login[..5], 1024)
    ensures OutKeyB(pa, pb, RC2_40) == KeyExpand.Expansion(pb.login[..5], 1024)
    ensures LongShared(pa, Public(pb)) ==> OutKeyA(pa, pb, RC2_128) == OutKeyB(pa, pb, RC2_128)
    ensures LongShared(pa, Public(pb)) ==>
      DH.FromSecret(OutKeyA(pa, pb, RC2_128), DH.PowMod(DH.SAMETIME, DH.PowMod(DH.SAMETIME, 3, pb.secret), pa.secret))
  {
    SharedAgrees(pa, pb);
    DH.SametimeGroup();
    DH.SharedFromSecret(DH.SAMETIME, pa.secret, pb.secret);
  }

  // And when both ends are open and nothing is on its way, everything has been given.
  lemma Completeness(pa: Party, pb: Party, states: seq<Pair>, steps: seq<Step>, n: nat)
    requires ValidParties(pa, pb) && Run(pa, pb, states, steps) && n <= |steps|
    requires states[n].a.status == OPEN && states[n].ab == [] && states[n].ba == []
    ensures states[n].givenB == states[n].sentA && states[n].givenA == states[n].sentB
  {
    var s := states[n];
    RunInv(pa, pb, states, steps, n);
    var v, w :| BothOpen(pa, pb, s, v, w);
    assert s.sentA[|s.givenB|..] == [] && s.sentB[|s.givenA|..] == [];
  }

  // deliveries lead from s to t
  ghost predicate Delivers(pa: Party, pb: Party, s: Pair, steps: seq<Step>, t: Pair)
    requires ValidParties(pa, pb)
    decreases |steps|
  {
    if steps == [] then t == s
    else
      && (steps[0].DeliverToA? || steps[0].DeliverToB?) && Enabled(s, steps[0]) && (|s.b.user| >= 5 || !s.made)
      && Delivers(pa, pb, Apply(pa, pb, s, steps[0]), steps[1..], t)
  }

  lemma {:induction false} Drained(pa: Party, pb: Party, s: Pair, v: seq<SendMsg>, w: seq<SendMsg>) returns (steps: seq<Step>, t: Pair)
    requires ValidParties(pa, pb) && BothOpen(pa, pb, s, v, w)
    ensures Delivers(pa, pb, s, steps, t) && t.givenB == s.sentA && t.givenA == s.sentB
    decreases |v| + |w|
  {
    if v == [] && w == [] {
      assert s.sentA[|s.givenB|..] == [] && s.sentB[|s.givenA|..] == [];
      return [], s;
    }
    var step;
    if v != [] {
      step := DeliverToB;
      OpenDeliverB(pa, pb, s, v, w);
      steps, t := Drained(pa, pb, Apply(pa, pb, s, step), v[1..], w);
    } else {
      step := DeliverToA;
      OpenDeliverA(pa, pb, s, v, w);
      steps, t := Drained(pa, pb, Apply(pa, pb, s, step), v, w[1..]);
    }
    assert ([step] + steps)[1..] == steps;
    steps := [step] + steps;
  }

  // From every state that a run reaches with the creator open, delivering what is on its
  // way gives each service all that was sent to it.
  lemma NothingLost(pa: Party, pb: Party, states: seq<Pair>, steps: seq<Step>, n: nat)
    requires ValidParties(pa, pb) && Run(pa, pb, states, steps) && n <= |steps| && states[n].a.status == OPEN
    ensures exists more, t ::
              Delivers(pa, pb, states[n], more, t) && t.givenB == states[n].sentA && t.givenA == states[n].sentB
  {
    RunInv(pa, pb, states, steps, n);
    var v, w :| BothOpen(pa, pb, states[n], v, w);
    var more, t := Drained(pa, pb, states[n], v, w);
  }
}
