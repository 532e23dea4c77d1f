/**
  The channel operations of src/channel.c as they change a channel step by step. Each
  is proved to have the effect that module ChannelState gives for it.
 */
module Channels {
  import opened Options
  import opened Bytes
  import opened Rc2
  import opened Cbc
  import opened MpInts
  import opened MpQuotient
  import DH = DiffieHellman
  import opened ChannelState

  // the parts of a session that channels use
  class Session {
    const login: seq<bv8>
    const ciphers: set<U16>
    const hasService: bool
    const privateKey: MpInt
    const publicKey: seq<Byte>
    const ioResult: int          // what the I/O handler returns; zero is success
    var sent: seq<Message>       // the messages written so far

    ghost predicate Valid()
      reads this, privateKey, privateKey.dp
    {
      && Natural(privateKey) && ValidParty(View()) && publicKey == Public(View())
    }

    ghost function View(): Party
      reads privateKey, privateKey.dp
    {
      Party(login, privateKey.Mag(), ciphers, hasService)
    }

    constructor (login: seq<bv8>, ciphers: set<U16>, hasService: bool, privateKey: MpInt, publicKey: seq<Byte>, ioResult: int)
      requires Natural(privateKey) && ValidParty(Party(login, privateKey.Mag(), ciphers, hasService))
      requires publicKey == Public(Party(login, privateKey.Mag(), ciphers, hasService))
      ensures Valid() && sent == [] && View() == Party(login, privateKey.Mag(), ciphers, hasService)
      ensures this.ioResult == ioResult
    {
      this.login, this.ciphers, this.hasService := login, ciphers, hasService;
      this.privateKey, this.publicKey, this.ioResult := privateKey, publicKey, ioResult;
      sent := [];
    }

    // mwSession_send
    method SendMessage(msg: Message) returns (ret: int)
      modifies `sent
      ensures ret == ioResult
      ensures sent == old(sent) + (if ioResult == 0 then [msg] else [])
    {
      if ioResult == 0 {
        sent := sent + [msg];
      }
      ret := ioResult;
    }
  }

  class Channel {
    const session: Session
    const incoming: bool
    var status: Status
    var user: seq<bv8>
    var supported: map<U16, Instance>
    var selected: bool           // supported has been destroyed
    var offeredPolicy: U16
    var policy: U16
    var cipher: Option<Instance>
    var outgoingQueue: seq<SendMsg>
    var incomingQueue: seq<SendMsg>
    var given: seq<Given>        // what the service has been given so far

    ghost function View(): Chan
      reads this
    {
      Chan(incoming, status, user, supported, selected, offeredPolicy, policy, cipher, outgoingQueue, incomingQueue)
    }

    // the state, the messages and the deliveries of an effect
    twostate predicate Did(e: Effect)
      reads this, session
    {
      && View() == e.chan
      && session.sent == old(session.sent) + e.sent
      && given == old(given) + e.given
    }

    // mwChannel_newIncoming and the end of mwChannel_newOutgoing
    constructor (session: Session, incoming: bool)
      ensures this.session == session && given == []
      ensures View() == Chan(incoming, if incoming then WAIT else INIT, [], map[], false, 0, 0, None, [], [])
    {
      this.session, this.incoming := session, incoming;
      status := if incoming then WAIT else INIT;
      user, supported, selected, offeredPolicy, policy, cipher := [], map[], false, 0, 0, None;
      outgoingQueue, incomingQueue, given := [], [], [];
    }

    // put_supported
    method PutSupported(id: U16, ci: Instance)
      modifies `supported
      ensures View() == old(View()).(supported := if selected then old(supported) else old(supported)[id := ci])
    {
      if !selected {
        supported := supported[id := ci];
      }
    }

    // mwChannel_populateSupportedCipherInstances, for one cipher of the session
    method AddSupported(id: U16)
      requires session.Valid() && id in session.ciphers
      modifies `supported
      ensures selected ==> View() == old(View())
      ensures !selected ==> View() == old(View()).(supported := old(supported)[id := NewInstance(session.login, id)])
    {
      PutSupported(id, NewInstance(session.login, id));
    }

    // mwCipherInstance_offer
    method OfferOf(id: U16) returns (item: Item)
      requires session.Valid()
      ensures item == OfferItem(session.View(), id)
    {
      item := Item(id, if id == RC2_128 then session.publicKey else []);
    }

    // the loop of mwChannel_create over the supported ciphers
    method OfferAll(order: seq<U16>) returns (items: seq<Item>)
      requires session.Valid()
      ensures items == Items(session.View(), order)
    {
      items := [];
      for l := 0 to |order|
        invariant items == Items(session.View(), order)[..l]
      {
        var ei := OfferOf(order[l]);
        items := items + [ei];
      }
    }

    // mwChannel_create
    method Create(order: seq<U16>)
      requires session.Valid() && Listing(order, supported)
      modifies this, session`sent
      ensures Did(CreateEffect(session.View(), old(View()), order, session.ioResult))
    {
      if status != INIT || incoming {
        return;
      }
      var items := OfferAll(order);
      offeredPolicy := if |order| > 0 then ENCRYPT_WHATEVER else ENCRYPT_NONE;
      var ret := session.SendMessage(Message.Create(items, offeredPolicy));
      status := if ret != 0 then ERROR else WAIT;
    }

    // mwChannel_selectCipherInstance
    method Select(ci: Option<Instance>)
      modifies `cipher, `supported, `selected, `policy
      ensures View() == Selected(old(View()), ci)
    {
      if selected {
        return;
      }
      cipher := ci;
      if ci.Some? {
        supported := supported - {ci.value.id};
        policy := if ci.value.id == RC2_40 then ENCRYPT_RC2_40
                  else if ci.value.id == RC2_128 then ENCRYPT_RC2_128 else ENCRYPT_WHATEVER;
      } else {
        policy := ENCRYPT_NONE;
      }
      supported, selected := map[], true;
    }

    // channel_recv
    method Deliver(msg: SendMsg)
      modifies `cipher, `given
      ensures given == old(given) + [Decrypted(old(cipher), msg)]
      ensures cipher == AfterDecrypting(old(cipher), msg)
    {
      if msg.encrypted && cipher.Some? {
        var ci := cipher.value;
        var data := Open(ci.inKey, ci.inIv, msg.data);
        cipher := Some(ci.(inIv := UnchainIv(ci.inIv, msg.data)));
        given := given + [Given(msg.ty, data)];
      } else {
        given := given + [Given(msg.ty, msg.data)];
      }
    }

    // flush_channel
    method Flush()
      modifies this, session`sent
      ensures Did(OpenEffect(old(View()), session.ioResult).(chan := OpenEffect(old(View()), session.ioResult).chan.(status := old(status))))
    {
      FlushIncoming();
      FlushOutgoing();
    }

    // its first loop
    method FlushIncoming()
      modifies `cipher, `given, `incomingQueue
      ensures incomingQueue == [] && given == old(given) + DecryptedAll(old(cipher), old(incomingQueue))
      ensures cipher == AfterDecryptingAll(old(cipher), old(incomingQueue))
    {
      var l := 0;
      assert incomingQueue[0..] == incomingQueue;
      while l < |incomingQueue|
        invariant l <= |incomingQueue| && incomingQueue == old(incomingQueue)
        invariant given + DecryptedAll(cipher, incomingQueue[l..]) == old(given) + DecryptedAll(old(cipher), incomingQueue)
        invariant AfterDecryptingAll(cipher, incomingQueue[l..]) == AfterDecryptingAll(old(cipher), incomingQueue)
      {
        assert incomingQueue[l..][1..] == incomingQueue[l + 1..];
        Deliver(incomingQueue[l]);
        l := l + 1;
      }
      assert incomingQueue[l..] == [];
      incomingQueue := [];
    }

    // its second loop
    method FlushOutgoing()
      modifies `outgoingQueue, session`sent
      ensures outgoingQueue == []
      ensures session.sent == old(session.sent) + (if session.ioResult == 0 then Sends(old(outgoingQueue)) else [])
    {
      var l := 0;
      while l < |outgoingQueue|
        invariant l <= |outgoingQueue| && outgoingQueue == old(outgoingQueue)
        invariant session.sent == old(session.sent) + (if session.ioResult == 0 then Sends(outgoingQueue)[..l] else [])
      {
        var ret := session.SendMessage(Message.Send(outgoingQueue[l]));
        l := l + 1;
      }
      outgoingQueue := [];
    }

    // channel_open
    method OpenUp()
      modifies this, session`sent
      ensures Did(OpenEffect(old(View()), session.ioResult))
    {
      status := OPEN;
      Flush();
    }

    // mwChannel_sendEncrypted and channel_send
    method SendEncrypted(ty: U32, data: seq<bv8>, encrypt: bool)
      modifies this, session`sent
      ensures Did(SendEffect(old(View()), ty, data, encrypt, session.ioResult))
    {
      var msg := SendMsg(ty % 0x1_0000, data, false);
      if encrypt && cipher.Some? {
        var ci := cipher.value;
        msg := SendMsg(ty % 0x1_0000, Seal(ci.outKey, ci.outIv, data), true);
        cipher := Some(ci.(outIv := SealIv(ci.outKey, ci.outIv, data)));
      }
      if status == OPEN {
        var ret := session.SendMessage(Message.Send(msg));
      } else {
        outgoingQueue := outgoingQueue + [msg];
      }
    }

    // mwChannel_recv
    method Recv(msg: SendMsg)
      modifies this
      ensures Did(RecvEffect(old(View()), msg))
    {
      if status == OPEN {
        Deliver(msg);
      } else {
        incomingQueue := incomingQueue + [msg];
      }
    }

    // mwChannel_destroy
    method DestroyChannel(reason: U32)
      modifies `status, session`sent
      ensures Did(DestroyEffect(old(View()), reason, session.ioResult))
    {
      status := if reason != 0 then ERROR else DESTROY;
      var ret := session.SendMessage(Message.Destroy(reason));
    }

    // mwCipherInstance_accept
    method AcceptCipher() returns (item: Item)
      requires session.Valid() && cipher.Some? && |user| >= 5
      modifies `cipher
      ensures View() == old(View()).(cipher := Some(Accepting(old(cipher).value, user)))
      ensures item == OfferItem(session.View(), old(cipher).value.id)
    {
      var ci := cipher.value;
      if ci.id != RC2_128 {
        cipher := Some(WithUser(ci, user));
      }
      item := OfferOf(ci.id);
    }

    // get_supported
    function GetSupported(id: U16): (ci: Option<Instance>)
      reads this
      ensures ci == Supported(View(), id)
    {
      if id in supported then Some(supported[id]) else None
    }

    // the switch of mwChannel_accept; order is that of the hash table
    method AutoSelect(order: seq<U16>)
      requires Listing(order, supported)
      modifies `cipher, `supported, `selected, `policy
      ensures View() == Selected(old(View()), AutoChoice(old(View()), order))
    {
      if offeredPolicy == ENCRYPT_NONE {
        Select(None);
      } else if offeredPolicy == ENCRYPT_RC2_40 {
        Select(GetSupported(RC2_40));
      } else if offeredPolicy == ENCRYPT_RC2_128 {
        Select(GetSupported(RC2_128));
      } else if |order| > 0 {
        Select(Some(supported[order[|order| - 1]]));
      } else {
        Select(None);
      }
    }

    // mwChannel_accept
    method Accept(order: seq<U16>)
      requires session.Valid() && Listing(order, supported) && |user| >= 5
      modifies this, session`sent
      ensures Did(AcceptEffect(session.View(), old(View()), order, session.ioResult))
    {
      if !incoming || status != WAIT {
        return;
      }
      var item := ChooseCipher(order);
      Answer(item);
    }

    // mwChannel_accept from the message on
    method Answer(item: Option<Item>)
      requires session.Valid() && Message.Accept(policy, item) == AcceptMsg(session.View(), View())
      modifies this, session`sent
      ensures Did(AnswerEffect(session.View(), old(View()), session.ioResult))
    {
      var ret := session.SendMessage(Message.Accept(policy, item));
      if ret != 0 {
        status := ERROR;
      } else {
        OpenUp();
      }
    }

    // mwChannel_accept up to the message
    method ChooseCipher(order: seq<U16>) returns (item: Option<Item>)
      requires session.Valid() && Listing(order, supported) && |user| >= 5
      modifies `cipher, `supported, `selected, `policy
      ensures View() == Choosing(old(View()), order)
      ensures Message.Accept(policy, item) == AcceptMsg(session.View(), View())
    {
      if cipher.None? {
        AutoSelect(order);
      }
      item := None;
      if cipher.Some? {
        var it := AcceptCipher();
        item := Some(it);
      }
    }

    // mwCipherInstance_offered
    method OfferedInstance(ci: Instance, item: Item) returns (r: Instance)
      requires session.Valid() && ci.id == item.id && Keyable(session.View(), item)
      ensures r == Offered(session.View(), ci, item)
    {
      r := ci;
      if ci.id == RC2_128 {
        var key := SharedWith(item.info);
        r := WithShared(ci, key);
      }
    }

    method SharedWith(info: seq<Byte>) returns (key: Key)
      requires session.Valid() && |info| > 0 && LongShared(session.View(), info)
      ensures key == Shared(session.View(), info)
    {
      DH.SametimeGroup();
      key := DH.MakeSharedKey(DH.SAMETIME, session.privateKey, info);
    }

    // the loop of mwChannel_recvCreate
    method AddOffered(items: seq<Item>)
      requires session.Valid() && forall i :: 0 <= i < |items| && items[i].id in session.ciphers ==> Keyable(session.View(), items[i])
      modifies `supported
      ensures View() == old(View()).(supported := Added(session.View(), old(View()), items))
    {
      var l := 0;
      while l < |items|
        invariant l <= |items|
        invariant View() == old(View()).(supported := Added(session.View(), old(View()), items[..l]))
      {
        assert items[..l + 1][..l] == items[..l];
        var ei := items[l];
        if ei.id in session.ciphers {
          var ci := OfferedInstance(NewInstance(session.login, ei.id), ei);
          PutSupported(ei.id, ci);
        }
        l := l + 1;
      }
      assert items[..l] == items;
    }

    // mwChannel_recvCreate
    method RecvCreate(items: seq<Item>, mode: U16, creator: seq<bv8>)
      requires session.Valid()
      requires incoming ==> forall i :: 0 <= i < |items| && items[i].id in session.ciphers ==> Keyable(session.View(), items[i])
      modifies this, session`sent
      ensures Did(RecvCreateEffect(session.View(), old(View()), items, mode, creator, session.ioResult))
    {
      if !incoming {
        DestroyChannel(ERR_REQUEST_INVALID);
        return;
      }
      offeredPolicy := mode;
      AddOffered(items);
      user := creator;
      if !session.hasService {
        DestroyChannel(ERR_SERVICE_NO_SUPPORT);
      }
    }

    // mwCipherInstance_accepted, on a supported cipher
    method AcceptedInstance(ci: Instance, item: Item) returns (r: Instance)
      requires session.Valid() && |user| >= 5 && ci.id == item.id && Keyable(session.View(), item)
      ensures r == Accepted(session.View(), ci, user, item)
    {
      if ci.id == RC2_128 {
        var key := SharedWith(item.info);
        r := WithShared(ci, key);
      } else {
        r := WithUser(ci, user);
      }
    }

    // the cipher that a message of acceptance names
    method TakeAccepted(mode: U16, item: Option<Item>) returns (found: bool)
      requires session.Valid() && |user| >= 5 && (mode != 0 && item.Some? && item.value.id in supported ==> Keyable(session.View(), item.value))
      requires forall id :: id in supported ==> supported[id].id == id
      modifies `cipher, `supported, `selected, `policy
      ensures found == Acceptable(old(View()), mode, item)
      ensures View() == if found then Taken(session.View(), old(View()), mode, item) else old(View())
    {
      found := true;
      if mode == 0 || item.None? {
        Select(None);
      } else if item.value.id !in supported {
        found := false;
      } else {
        var ci := AcceptedInstance(supported[item.value.id], item.value);
        Select(Some(ci));
      }
    }

    // the end of mwChannel_recvAccept
    method OpenAccepted(mode: U16, item: Option<Item>)
      requires session.Valid() && |user| >= 5
      requires mode != 0 && item.Some? && item.value.id in supported ==> Keyable(session.View(), item.value)
      requires forall id :: id in supported ==> supported[id].id == id
      modifies this, session`sent
      ensures Did(AcceptedEffect(session.View(), old(View()), mode, item, session.ioResult))
    {
      var found := TakeAccepted(mode, item);
      if !found {
        DestroyChannel(ERR_REQUEST_INVALID);
        return;
      }
      OpenUp();
    }

    // mwChannel_recvAccept. The service is told between the two changes of state; here
    // it neither sends nor closes the channel.
    method RecvAccept(mode: U16, item: Option<Item>, acceptor: seq<bv8>)
      requires session.Valid() && |acceptor| >= 5
      requires mode != 0 && item.Some? && item.value.id in supported ==> Keyable(session.View(), item.value)
      requires forall id :: id in supported ==> supported[id].id == id
      modifies this, session`sent
      ensures Did(RecvAcceptEffect(session.View(), old(View()), mode, item, acceptor, session.ioResult))
    {
      if incoming || status != WAIT {
        DestroyChannel(ERR_REQUEST_INVALID);
        return;
      }
      user := acceptor;
      if !session.hasService {
        DestroyChannel(ERR_SERVICE_NO_SUPPORT);
        return;
      }
      policy := mode;
      OpenAccepted(mode, item);
    }
  }
}
