/**
  The state of a channel (src/channel.c) and of the cipher instances that it uses
  (src/cipher.c), and what each operation makes of it.
 */
module ChannelState {
  import opened Options
  import opened Bytes
  import opened Rc2
  import opened Cbc
  import opened DiffieHellman
  import KeyExpand

  // ---- ciphers ----

  const RC2_40: U16 := 0x0000
  const RC2_128: U16 := 0x0001

  // an mwEncryptItem
  datatype Item = Item(id: U16, info: seq<Byte>)

  // a cipher instance: the key for each way and its chaining values
  datatype Instance = Instance(id: U16, outKey: Key, inKey: Key, outIv: Block, inIv: Block)

  // what the routines below read of the session a channel belongs to
  datatype Party = Party(login: seq<bv8>, secret: nat, ciphers: set<U16>, hasService: bool)

  ghost predicate ValidParty(p: Party) {
    |p.login| >= 5 && forall id :: id in p.ciphers ==> id == RC2_40 || id == RC2_128
  }

  // the key of an instance that has been cleared
  function ZeroKey(): Key {
    seq(64, _ => 0)
  }

  // mwIV_init
  function InitIv(): Block {
    [0x01, 0x23, 0x45, 0x67, 0x89, 0xab, 0xcd, 0xef]
  }

  // the key that RC2_40 makes of the first five bytes of a login id
  function LoginKey(login: seq<bv8>): Key
    requires |login| >= 5
  {
    KeyExpand.Expansion(login[..5], 1024)
  }

  // new_instance_RC2_40 and new_instance_RC2_128
  function NewInstance(login: seq<bv8>, id: U16): Instance
    requires |login| >= 5
  {
    Instance(id, if id == RC2_40 then LoginKey(login) else ZeroKey(), ZeroKey(), InitIv(), InitIv())
  }

  function WithShared(ci: Instance, key: Key): Instance {
    ci.(outKey := key, inKey := key)
  }

  function WithUser(ci: Instance, user: seq<bv8>): Instance
    requires |user| >= 5
  {
    ci.(inKey := LoginKey(user))
  }

  ghost function Shared(p: Party, info: seq<Byte>): Key {
    SametimeGroup();
    SharedKeyOf(SAMETIME, p.secret, info)
  }

  // the secret shared with the owner of the public key has the sixteen bytes that the key
  // is expanded from
  ghost predicate LongShared(p: Party, info: seq<Byte>) {
    SametimeGroup();
    LongSecret(SAMETIME, p.secret, info)
  }

  // an item that a cipher can take its key from
  ghost predicate Keyable(p: Party, item: Item) {
    item.id == RC2_128 ==> |item.info| > 0 && LongShared(p, item.info)
  }

  ghost function Public(p: Party): (s: seq<Byte>)
    ensures |s| > 0
  {
    SametimeGroup();
    PublicBytes(SAMETIME, p.secret)
  }

  // mwCipherInstance_offered: RC2_40 has no such function
  ghost function Offered(p: Party, ci: Instance, item: Item): Instance {
    if ci.id == RC2_128 then WithShared(ci, Shared(p, item.info)) else ci
  }

  // mwCipherInstance_offer and the item that mwCipherInstance_accept returns
  ghost function OfferItem(p: Party, id: U16): Item {
    Item(id, if id == RC2_128 then Public(p) else [])
  }

  // mwCipherInstance_accepted
  ghost function Accepted(p: Party, ci: Instance, user: seq<bv8>, item: Item): Instance
    requires |user| >= 5
  {
    if ci.id == RC2_128 then WithShared(ci, Shared(p, item.info)) else WithUser(ci, user)
  }

  // what mwCipherInstance_accept does to the instance
  function Accepting(ci: Instance, user: seq<bv8>): Instance
    requires |user| >= 5
  {
    if ci.id == RC2_128 then ci else WithUser(ci, user)
  }

  // ---- channels ----

  datatype Status = NEW | INIT | WAIT | OPEN | DESTROY | ERROR

  const ENCRYPT_NONE: U16 := 0x0000
  const ENCRYPT_WHATEVER: U16 := 0x0001
  const ENCRYPT_RC2_40: U16 := 0x1000
  const ENCRYPT_RC2_128: U16 := 0x2000

  const ERR_REQUEST_INVALID: U32 := 0x8000_0001
  const ERR_SERVICE_NO_SUPPORT: U32 := 0x8000_000d

  // an mwMsgChannelSend; its type has 16 bits
  datatype SendMsg = SendMsg(ty: U16, data: seq<bv8>, encrypted: bool)

  datatype Message =
    | Create(items: seq<Item>, mode: U16)
    | Accept(mode: U16, item: Option<Item>)
    | Send(msg: SendMsg)
    | Destroy(reason: U32)

  // what a service is given by mwService_recv
  datatype Given = Given(ty: U16, data: seq<bv8>)

  // selected: the table of supported ciphers is gone, and NULL stands in its place
  datatype Chan = Chan(
    incoming: bool, status: Status, user: seq<bv8>, supported: map<U16, Instance>, selected: bool,
    offeredPolicy: U16, policy: U16, cipher: Option<Instance>, outq: seq<SendMsg>, inq: seq<SendMsg>)

  // the new state, what went to the session and what the service got
  datatype Effect = Effect(chan: Chan, sent: seq<Message>, given: seq<Given>)

  // the supported ciphers in the order in which the hash table yields them
  ghost predicate Listing(order: seq<U16>, supported: map<U16, Instance>) {
    && (forall i, j :: 0 <= i < j < |order| ==> order[i] != order[j])
    && (forall i :: 0 <= i < |order| ==> order[i] in supported)
    && (forall id :: id in supported ==> id in order)
  }

  ghost function Items(p: Party, order: seq<U16>): (items: seq<Item>)
    ensures |items| == |order|
    ensures forall i :: 0 <= i < |order| ==> items[i] == OfferItem(p, order[i])
  {
    seq(|order|, i requires 0 <= i < |order| => OfferItem(p, order[i]))
  }

  // mwChannel_create
  ghost function CreateEffect(p: Party, c: Chan, order: seq<U16>, io: int): Effect {
    if c.status != INIT || c.incoming then Effect(c, [], [])
    else
      var mode := if order == [] then ENCRYPT_NONE else ENCRYPT_WHATEVER;
      Effect(c.(offeredPolicy := mode, status := if io != 0 then ERROR else WAIT),
             if io == 0 then [Create(Items(p, order), mode)] else [], [])
  }

  function PolicyOf(id: U16): U16 {
    if id == RC2_40 then ENCRYPT_RC2_40 else if id == RC2_128 then ENCRYPT_RC2_128 else ENCRYPT_WHATEVER
  }

  function PolicyFor(ci: Option<Instance>): U16 {
    if ci.Some? then PolicyOf(ci.value.id) else ENCRYPT_NONE
  }

  // mwChannel_selectCipherInstance, which works once
  function Selected(c: Chan, ci: Option<Instance>): Chan {
    if c.selected then c else c.(cipher := ci, supported := map[], selected := true, policy := PolicyFor(ci))
  }

  function Supported(c: Chan, id: U16): Option<Instance> {
    if id in c.supported then Some(c.supported[id]) else None
  }

  // the cipher that mwChannel_accept picks when none has been selected
  function AutoChoice(c: Chan, order: seq<U16>): Option<Instance> {
    if c.offeredPolicy == ENCRYPT_NONE then None
    else if c.offeredPolicy == ENCRYPT_RC2_40 then Supported(c, RC2_40)
    else if c.offeredPolicy == ENCRYPT_RC2_128 then Supported(c, RC2_128)
    else if order == [] then None
    else Supported(c, order[|order| - 1])
  }

  // mwChannel_sendEncrypted and channel_send
  function Encrypted(c: Chan, ty: U32, data: seq<bv8>, encrypt: bool): SendMsg {
    if encrypt && c.cipher.Some? then
      SendMsg(ty % 0x1_0000, Seal(c.cipher.value.outKey, c.cipher.value.outIv, data), true)
    else SendMsg(ty % 0x1_0000, data, false)
  }

  function AfterEncrypting(c: Chan, data: seq<bv8>, encrypt: bool): Chan {
    if encrypt && c.cipher.Some? then
      var ci := c.cipher.value;
      c.(cipher := Some(ci.(outIv := SealIv(ci.outKey, ci.outIv, data))))
    else c
  }

  function SendEffect(c: Chan, ty: U32, data: seq<bv8>, encrypt: bool, io: int): Effect {
    var msg, d := Encrypted(c, ty, data, encrypt), AfterEncrypting(c, data, encrypt);
    if c.status == OPEN then Effect(d, if io == 0 then [Send(msg)] else [], [])
    else Effect(d.(outq := d.outq + [msg]), [], [])
  }

  // channel_recv: what the service is given, and the instance afterwards
  function Decrypted(ci: Option<Instance>, msg: SendMsg): Given {
    if msg.encrypted && ci.Some? then Given(msg.ty, Open(ci.value.inKey, ci.value.inIv, msg.data))
    else Given(msg.ty, msg.data)
  }

  function AfterDecrypting(ci: Option<Instance>, msg: SendMsg): Option<Instance> {
    if msg.encrypted && ci.Some? then Some(ci.value.(inIv := UnchainIv(ci.value.inIv, msg.data))) else ci
  }

  function DecryptedAll(ci: Option<Instance>, msgs: seq<SendMsg>): (gs: seq<Given>)
    ensures |gs| == |msgs|
    decreases |msgs|
  {
    if msgs == [] then [] else [Decrypted(ci, msgs[0])] + DecryptedAll(AfterDecrypting(ci, msgs[0]), msgs[1..])
  }

  function AfterDecryptingAll(ci: Option<Instance>, msgs: seq<SendMsg>): Option<Instance>
    decreases |msgs|
  {
    if msgs == [] then ci else AfterDecryptingAll(AfterDecrypting(ci, msgs[0]), msgs[1..])
  }

  function Sends(msgs: seq<SendMsg>): (ms: seq<Message>)
    ensures |ms| == |msgs|
    ensures forall i :: 0 <= i < |msgs| ==> ms[i] == Send(msgs[i])
  {
    seq(|msgs|, i requires 0 <= i < |msgs| => Send(msgs[i]))
  }

  // channel_open with flush_channel: the service gets what was waiting for it, then the
  // session gets what was waiting to be sent
  function OpenEffect(c: Chan, io: int): Effect {
    Effect(c.(status := OPEN, cipher := AfterDecryptingAll(c.cipher, c.inq), inq := [], outq := []),
           if io == 0 then Sends(c.outq) else [], DecryptedAll(c.cipher, c.inq))
  }

  // mwChannel_recv
  function RecvEffect(c: Chan, msg: SendMsg): Effect {
    if c.status == OPEN then
      Effect(c.(cipher := AfterDecrypting(c.cipher, msg)), [], [Decrypted(c.cipher, msg)])
    else Effect(c.(inq := c.inq + [msg]), [], [])
  }

  // mwChannel_destroy, which takes the channel out of its set
  function DestroyEffect(c: Chan, reason: U32, io: int): Effect {
    Effect(c.(status := if reason != 0 then ERROR else DESTROY), if io == 0 then [Destroy(reason)] else [], [])
  }

  // the part of mwChannel_accept before the message is sent
  ghost function Choosing(c: Chan, order: seq<U16>): (d: Chan)
    requires |c.user| >= 5
  {
    var d := if c.cipher.Some? then c else Selected(c, AutoChoice(c, order));
    if d.cipher.Some? then d.(cipher := Some(Accepting(d.cipher.value, c.user))) else d
  }

  // What the acceptor answers when it has selected nothing: a cipher that the offered policy
  // allows, and of several the last; none exactly when there is none.
  lemma AcceptChooses(p: Party, c: Chan, order: seq<U16>)
    requires |c.user| >= 5 && c.incoming && c.status == WAIT && !c.selected && c.cipher == None
    requires Listing(order, c.supported) && forall id :: id in c.supported ==> c.supported[id].id == id
    ensures var e := AcceptEffect(p, c, order, 0); |e.sent| > 0 && e.sent[0].Accept? && e.chan.status == OPEN
    ensures var e := AcceptEffect(p, c, order, 0);
      e.chan.cipher.Some? <==>
        if c.offeredPolicy == 0x0000 then false else if c.offeredPolicy == 0x1000 then 0x0000 in c.supported
        else if c.offeredPolicy == 0x2000 then 0x0001 in c.supported else c.supported != map[]
    ensures var e := AcceptEffect(p, c, order, 0); e.chan.cipher.Some? ==>
      var id := e.chan.cipher.value.id;
      && id in c.supported && e.sent[0].item.Some? && e.sent[0].item.value.id == id
      && (if c.offeredPolicy == 0x1000 then id == 0x0000 else if c.offeredPolicy == 0x2000 then id == 0x0001
          else id == order[|order| - 1])
      && e.sent[0].mode == if id == 0x0000 then 0x1000 else if id == 0x0001 then 0x2000 else 0x0001
    ensures var e := AcceptEffect(p, c, order, 0);
      e.chan.cipher.None? ==> e.sent[0].item.None? && e.sent[0].mode == 0x0000
  {
    ChoosingIs(c, order);
    DecryptedKeeps(Choosing(c, order).cipher, c.inq);
    assert order == [] ==> c.supported == map[];
  }

  // decrypting moves on the chaining value only
  lemma {:induction false} DecryptedKeeps(ci: Option<Instance>, msgs: seq<SendMsg>)
    ensures var r := AfterDecryptingAll(ci, msgs);
      r.Some? == ci.Some? && (r.Some? ==> r.value == ci.value.(inIv := r.value.inIv))
    decreases |msgs|
  {
    if msgs != [] {
      DecryptedKeeps(AfterDecrypting(ci, msgs[0]), msgs[1..]);
    }
  }

  lemma ChoosingIs(c: Chan, order: seq<U16>)
    requires |c.user| >= 5 && !c.selected && c.cipher == None
    ensures var choice := AutoChoice(c, order);
      Choosing(c, order) == Selected(c, choice).(cipher := if choice.Some? then Some(Accepting(choice.value, c.user)) else None)
  {}

  // What is sent is marked as encrypted exactly when it is, and stands for the payload.
  lemma SendMarks(c: Chan, ty: U32, data: seq<bv8>, encrypt: bool)
    ensures var e := SendEffect(c, ty, data, encrypt, 0);
      if c.status == OPEN then e.chan.outq == c.outq && |e.sent| == 1 && e.sent[0].Send? && Marked(c, ty, data, encrypt, e.sent[0].msg)
      else e.sent == [] && |e.chan.outq| == |c.outq| + 1 && e.chan.outq[..|c.outq|] == c.outq
           && Marked(c, ty, data, encrypt, e.chan.outq[|c.outq|])
  {
    if encrypt && c.cipher.Some? {
      SealBytes(c.cipher.value.outKey, c.cipher.value.outIv, data);
    }
  }

  ghost predicate Marked(c: Chan, ty: U32, data: seq<bv8>, encrypt: bool, m: SendMsg) {
    && m.ty == ty % 0x1_0000 && (m.encrypted <==> encrypt && c.cipher.Some?)
    && if !m.encrypted then m.data == data
       else
         && |m.data| == |data| + 8 - |data| % 8
         && forall at, j :: 0 <= at <= |data| && at % 8 == 0 && 0 <= j < 8 ==>
              SealedByte(c.cipher.value.outKey, c.cipher.value.outIv, data, m.data, at, j)
  }

  // The first block that a new instance encrypts is mixed with the constant of mwIV_init.
  lemma FirstBlock(ci: Instance, login: seq<bv8>, id: U16, data: seq<bv8>, j: nat)
    requires |login| >= 5 && |data| >= 8 && j < 8 && ci.outIv == NewInstance(login, id).outIv
    ensures |Seal(ci.outKey, ci.outIv, data)| >= 8
    ensures var d := DecryptBytes(ci.outKey, Seal(ci.outKey, ci.outIv, data)[..8])[j];
      d ^ [0x01, 0x23, 0x45, 0x67, 0x89, 0xab, 0xcd, 0xef][j] == data[j]
  {
    SealByte(ci.outKey, ci.outIv, data, 0, j);
    assert Seal(ci.outKey, ci.outIv, data)[0..8] == Seal(ci.outKey, ci.outIv, data)[..8];
  }

  ghost function AcceptMsg(p: Party, d: Chan): Message {
    Accept(d.policy, if d.cipher.Some? then Some(OfferItem(p, d.cipher.value.id)) else None)
  }

  // mwChannel_accept
  ghost function AcceptEffect(p: Party, c: Chan, order: seq<U16>, io: int): Effect
    requires |c.user| >= 5
  {
    if !c.incoming || c.status != WAIT then Effect(c, [], [])
    else
      AnswerEffect(p, Choosing(c, order), io)
  }

  // its end: the message is sent, and the channel opens
  ghost function AnswerEffect(p: Party, d: Chan, io: int): Effect {
    if io != 0 then Effect(d.(status := ERROR), [], [])
    else
      var e := OpenEffect(d, io);
      e.(sent := [AcceptMsg(p, d)] + e.sent)
  }

  // the loop of mwChannel_recvCreate over the ciphers that are offered
  ghost function OfferedAll(p: Party, supported: map<U16, Instance>, items: seq<Item>): map<U16, Instance>
    requires |p.login| >= 5
    decreases |items|
  {
    if items == [] then supported
    else
      var last := items[|items| - 1];
      var before := OfferedAll(p, supported, items[..|items| - 1]);
      if last.id in p.ciphers then before[last.id := Offered(p, NewInstance(p.login, last.id), last)] else before
  }

  // put_supported has no effect once the table is gone
  ghost function Added(p: Party, c: Chan, items: seq<Item>): map<U16, Instance>
    requires |p.login| >= 5
  {
    if c.selected then c.supported else OfferedAll(p, c.supported, items)
  }

  // mwChannel_recvCreate; creator is the login that the server filled in
  ghost function RecvCreateEffect(p: Party, c: Chan, items: seq<Item>, mode: U16, creator: seq<bv8>, io: int): Effect
    requires |p.login| >= 5
  {
    if !c.incoming then DestroyEffect(c, ERR_REQUEST_INVALID, io)
    else
      var d := c.(offeredPolicy := mode, supported := Added(p, c, items), user := creator);
      if p.hasService then Effect(d, [], []) else DestroyEffect(d, ERR_SERVICE_NO_SUPPORT, io)
  }

  // mwChannel_recvAccept; acceptor is the login that the server filled in
  ghost function RecvAcceptEffect(p: Party, c: Chan, mode: U16, item: Option<Item>, acceptor: seq<bv8>, io: int): Effect
    requires |acceptor| >= 5
  {
    if c.incoming || c.status != WAIT then DestroyEffect(c, ERR_REQUEST_INVALID, io)
    else
      var d := c.(user := acceptor);
      if p.hasService then AcceptedEffect(p, d.(policy := mode), mode, item, io)
      else DestroyEffect(d, ERR_SERVICE_NO_SUPPORT, io)
  }

  // its end: the cipher is selected, and the channel opens
  ghost function AcceptedEffect(p: Party, c: Chan, mode: U16, item: Option<Item>, io: int): Effect
    requires |c.user| >= 5
  {
    if Acceptable(c, mode, item) then OpenEffect(Taken(p, c, mode, item), io)
    else DestroyEffect(c, ERR_REQUEST_INVALID, io)
  }

  // no mode or no item means no encryption
  predicate Acceptable(c: Chan, mode: U16, item: Option<Item>) {
    mode == 0 || item.None? || item.value.id in c.supported
  }

  ghost function Taken(p: Party, c: Chan, mode: U16, item: Option<Item>): Chan
    requires |c.user| >= 5 && Acceptable(c, mode, item)
  {
    if mode == 0 || item.None? then Selected(c, None)
    else Selected(c, Some(Accepted(p, c.supported[item.value.id], c.user, item.value)))
  }

  // An offer or an acceptance that cannot be taken closes the channel, with the reason that
  // the request was invalid or that there is no such service.
  lemma Refusals(p: Party, c: Chan, items: seq<Item>, mode: U16, item: Option<Item>, login: seq<bv8>)
    requires |p.login| >= 5 && |login| >= 5
    ensures !c.incoming ==>
      var e := RecvCreateEffect(p, c, items, mode, login, 0);
      e.chan.status == ERROR && e.sent == [Destroy(0x8000_0001)] && e.given == []
    ensures c.incoming && !p.hasService ==>
      var e := RecvCreateEffect(p, c, items, mode, login, 0);
      e.chan.status == ERROR && e.sent == [Destroy(0x8000_000d)] && e.given == []
    ensures c.incoming || c.status != WAIT ==>
      var e := RecvAcceptEffect(p, c, mode, item, login, 0);
      e.chan.status == ERROR && e.sent == [Destroy(0x8000_0001)] && e.given == []
    ensures !c.incoming && c.status == WAIT && !p.hasService ==>
      var e := RecvAcceptEffect(p, c, mode, item, login, 0);
      e.chan.status == ERROR && e.sent == [Destroy(0x8000_000d)] && e.given == []
    ensures !c.incoming && c.status == WAIT && p.hasService && mode != 0 && item.Some? && item.value.id !in c.supported ==>
      var e := RecvAcceptEffect(p, c, mode, item, login, 0);
      e.chan.status == ERROR && e.sent == [Destroy(0x8000_0001)] && e.given == []
  {}
}
