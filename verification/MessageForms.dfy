/**
  What a message looks like on the wire, byte by byte, and what of it survives being
  written and read back (src/message.c and src/common.c).
 */
module MessageForms {
  import opened Options
  import opened Bytes
  import opened Sequences
  import opened Buffers
  import opened Structures
  import opened Messages

  // ---- the same message ----

  function Chars(s: Str): seq<Byte> {
    match s
    case None => []
    case Some(t) => t
  }

  // NULL and the empty string are written alike
  ghost predicate SameText(s: Str, t: Str) {
    Chars(s) == Chars(t)
  }

  ghost predicate SameFlag(a: int, b: int) {
    a != 0 <==> b != 0
  }

  ghost predicate SameLogin(l: LoginInfo, n: LoginInfo) {
    && SameText(l.loginId, n.loginId) && l.kind == n.kind && SameText(l.userId, n.userId)
    && SameText(l.userName, n.userName) && SameText(l.community, n.community) && SameFlag(l.full, n.full)
    && (l.full != 0 ==> SameText(l.desc, n.desc) && l.ipAddr == n.ipAddr && SameText(l.serverId, n.serverId))
  }

  ghost predicate SameUser(u: UserItem, v: UserItem) {
    && SameFlag(u.full, v.full) && SameText(u.id, v.id) && SameText(u.community, v.community)
    && (u.full != 0 ==> SameText(u.name, v.name))
  }

  ghost predicate SamePrivacy(p: PrivacyInfo, q: PrivacyInfo) {
    && SameFlag(p.deny, q.deny) && |p.users| == |q.users|
    && forall i :: 0 <= i < |p.users| ==> SameUser(p.users[i], q.users[i])
  }

  ghost predicate SameOffer(e: Offer, f: Offer) {
    e.mode == f.mode && e.items == f.items && (e.items != [] ==> e.extra == f.extra && SameFlag(e.flag, f.flag))
  }

  ghost predicate SameAcceptance(e: Acceptance, f: Acceptance) {
    e.mode == f.mode && e.item == f.item && (e.item.Some? ==> e.extra == f.extra && SameFlag(e.flag, f.flag))
  }

  // recipients come back in the reverse order
  ghost predicate SameRecipients(ss: seq<Str>, ts: seq<Str>) {
    |ss| == |ts| && forall i :: 0 <= i < |ss| ==> SameText(ss[i], ts[|ss| - 1 - i])
  }

  ghost predicate SameHandshake(m: Body, n: Body)
    requires m.Handshake? && n.Handshake?
  {
    && m.major == n.major && m.minor == n.minor && m.srvrcalc == n.srvrcalc && m.loginType == n.loginType
    && m.loclcalc == n.loclcalc
    && (m.major >= 0x1e && m.minor >= 0x1d ==>
          m.unknownA == n.unknownA && m.unknownB == n.unknownB && SameText(m.localHost, n.localHost))
  }

  ghost predicate SameHandshakeAck(m: Body, n: Body)
    requires m.HandshakeAck? && n.HandshakeAck?
  {
    && m.major == n.major && m.minor == n.minor && m.srvrcalc == n.srvrcalc
    && (m.major >= 0x1e && m.minor > 0x18 ==> m.magic == n.magic && m.data == n.data)
  }

  ghost predicate SameCreate(m: Body, n: Body)
    requires m.ChannelCreate? && n.ChannelCreate?
  {
    && m.reserved == n.reserved && m.chan == n.chan
    && SameText(m.target.user, n.target.user) && SameText(m.target.community, n.target.community)
    && m.service == n.service && m.protoType == n.protoType && m.protoVer == n.protoVer
    && m.options == n.options && m.addtl == n.addtl
    && SameFlag(m.creatorFlag, n.creatorFlag) && (m.creatorFlag != 0 ==> SameLogin(m.creator, n.creator))
    && SameOffer(m.offer, n.offer)
  }

  ghost predicate SameAccept(m: Body, n: Body)
    requires m.ChannelAccept? && n.ChannelAccept?
  {
    && m.service == n.service && m.protoType == n.protoType && m.protoVer == n.protoVer && m.addtl == n.addtl
    && SameFlag(m.acceptorFlag, n.acceptorFlag) && (m.acceptorFlag != 0 ==> SameLogin(m.acceptor, n.acceptor))
    && SameAcceptance(m.acceptance, n.acceptance)
  }

  ghost predicate SameAnnounce(m: Body, n: Body)
    requires m.Announce? && n.Announce?
  {
    && SameFlag(m.senderPresent, n.senderPresent) && (m.senderPresent != 0 ==> SameLogin(m.sender, n.sender))
    && m.unknownA == n.unknownA && SameFlag(m.mayReply, n.mayReply) && SameText(m.text, n.text)
    && SameRecipients(m.recipients, n.recipients)
  }

  ghost predicate SameBody(m: Body, n: Body) {
    match m
    case Handshake(_, _, _, _, _, _, _, _) => n.Handshake? && SameHandshake(m, n)
    case HandshakeAck(_, _, _, _, _) => n.HandshakeAck? && SameHandshakeAck(m, n)
    case Login(loginType, name, authType, authData) =>
      n.Login? && loginType == n.loginType && SameText(name, n.name) && authType == n.authType && authData == n.authData
    case LoginRedirect(host, serverId) => n.LoginRedirect? && SameText(host, n.host) && SameText(serverId, n.serverId)
    case LoginContinue => n.LoginContinue?
    case ChannelCreate(_, _, _, _, _, _, _, _, _, _, _) => n.ChannelCreate? && SameCreate(m, n)
    case ChannelDestroy(reason, data) => n.ChannelDestroy? && reason == n.reason && data == n.data
    case ChannelSend(ty, data) => n.ChannelSend? && ty == n.ty && data == n.data
    case ChannelAccept(_, _, _, _, _, _, _) => n.ChannelAccept? && SameAccept(m, n)
    case SetUserStatus(s) => n.SetUserStatus? && s.status == n.status.status && SameText(s.desc, n.status.desc)
    case SetPrivacyList(p) => n.SetPrivacyList? && SamePrivacy(p, n.privacy)
    case SenseService(service) => n.SenseService? && service == n.service
    case Announce(_, _, _, _, _, _) => n.Announce? && SameAnnounce(m, n)
    case NoPut(kind) => n.NoPut? && kind == n.kind
  }

  // m and n say the same, up to what the protocol does not carry
  ghost predicate Same(m: Message, n: Message) {
    && m.options == n.options && m.channel == n.channel
    && (m.options / 0x8000 % 2 == 1 ==> m.attribs == n.attribs)
    && SameBody(m.body, n.body)
  }

  // ---- canonical messages ----

  // no string is empty without being NULL
  ghost predicate CanonText(s: Str) {
    s != Some([])
  }

  ghost predicate CanonFlag(a: int) {
    a == 0 || a == 1
  }

  ghost predicate CanonLogin(l: LoginInfo) {
    && CanonText(l.loginId) && CanonText(l.userId) && CanonText(l.userName) && CanonText(l.community)
    && CanonFlag(l.full) && CanonText(l.desc) && CanonText(l.serverId)
    && (l.full == 0 ==> l.desc == None && l.ipAddr == 0 && l.serverId == None)
  }

  // a login that is there only with its flag
  ghost predicate CanonFlagged(flag: int, l: LoginInfo) {
    && CanonFlag(flag)
    && if flag == 0 then l == LoginInfo(None, 0, None, None, None, 0, None, 0, None) else CanonLogin(l)
  }

  ghost predicate CanonUser(u: UserItem) {
    CanonFlag(u.full) && CanonText(u.id) && CanonText(u.community) && CanonText(u.name) && (u.full == 0 ==> u.name == None)
  }

  ghost predicate CanonBody(m: Body) {
    match m
    case Handshake(major, minor, _, _, _, unknownA, unknownB, localHost) =>
      CanonText(localHost) && (major < 0x1e || minor < 0x1d ==> unknownA == 0 && unknownB == 0 && localHost == None)
    case HandshakeAck(major, minor, _, magic, data) => major < 0x1e || minor <= 0x18 ==> magic == 0 && data == []
    case Login(_, name, _, _) => CanonText(name)
    case LoginRedirect(host, serverId) => CanonText(host) && CanonText(serverId)
    case ChannelCreate(_, _, target, _, _, _, _, _, flag, creator, e) =>
      && CanonText(target.user) && CanonText(target.community) && CanonFlagged(flag, creator)
      && CanonFlag(e.flag) && (e.items == [] ==> e.extra == 0 && e.flag == 0)
    case ChannelAccept(_, _, _, _, flag, acceptor, e) =>
      && CanonFlagged(flag, acceptor)
      && CanonFlag(e.flag) && (e.item == None ==> e.extra == 0 && e.flag == 0)
    case SetUserStatus(s) => s.time == 0 && CanonText(s.desc)
    case SetPrivacyList(p) => CanonFlag(p.deny) && forall i :: 0 <= i < |p.users| ==> CanonUser(p.users[i])
    case Announce(flag, sender, _, mayReply, text, recipients) =>
      && CanonFlagged(flag, sender) && CanonFlag(mayReply) && CanonText(text)
      && forall i :: 0 <= i < |recipients| ==> CanonText(recipients[i])
    case _ => true
  }

  ghost predicate Canonical(m: Message) {
    (m.options / 0x8000 % 2 == 0 ==> m.attribs == []) && CanonBody(m.body)
  }

  // ---- the normal form is the canonical message that says the same ----

  lemma NormLoginSame(l: LoginInfo)
    ensures SameLogin(l, NormLogin(l)) && CanonLogin(NormLogin(l))
  {}

  lemma NormFlaggedSame(flag: int, l: LoginInfo)
    ensures flag != 0 ==> SameLogin(l, NormFlagged(flag, l))
    ensures CanonFlagged(NormBool(flag), NormFlagged(flag, l))
  {
    NormLoginSame(l);
  }

  lemma NormCreateSame(m: Body)
    requires m.ChannelCreate?
    ensures SameBody(m, NormCreate(m)) && CanonBody(NormCreate(m))
  {
    NormFlaggedSame(m.creatorFlag, m.creator);
  }

  lemma NormAcceptSame(m: Body)
    requires m.ChannelAccept?
    ensures SameBody(m, NormAccept(m)) && CanonBody(NormAccept(m))
  {
    NormFlaggedSame(m.acceptorFlag, m.acceptor);
  }

  lemma NormRecipientsSame(ss: seq<Str>)
    ensures SameRecipients(ss, NormRecipients(ss))
    ensures forall i :: 0 <= i < |ss| ==> CanonText(NormRecipients(ss)[i])
  {
    forall i | 0 <= i < |ss| ensures SameText(ss[i], NormRecipients(ss)[|ss| - 1 - i]) {
      assert NormRecipients(ss)[|ss| - 1 - i] == NormStr(ss[i]);
    }
    forall i | 0 <= i < |ss| ensures CanonText(NormRecipients(ss)[i]) {
      assert NormRecipients(ss)[i] == NormStr(ss[|ss| - 1 - i]);
    }
  }

  lemma NormAnnounceSame(m: Body)
    requires m.Announce?
    ensures SameBody(m, NormAnnounce(m)) && CanonBody(NormAnnounce(m))
  {
    NormRecipientsSame(m.recipients);
    NormFlaggedSame(m.senderPresent, m.sender);
  }

  lemma NormPrivacySame(p: PrivacyInfo)
    ensures SamePrivacy(p, NormPrivacy(p)) && CanonBody(SetPrivacyList(NormPrivacy(p)))
  {}

  lemma NormShakesSame(m: Body)
    requires m.Handshake? || m.HandshakeAck?
    ensures SameBody(m, NormBody(m)) && CanonBody(NormBody(m))
  {}

  lemma NormBodySame(m: Body)
    ensures SameBody(m, NormBody(m)) && CanonBody(NormBody(m))
  {
    match m {
      case Handshake(_, _, _, _, _, _, _, _) => NormShakesSame(m);
      case HandshakeAck(_, _, _, _, _) => NormShakesSame(m);
      case ChannelCreate(_, _, _, _, _, _, _, _, _, _, _) => NormCreateSame(m);
      case ChannelAccept(_, _, _, _, _, _, _) => NormAcceptSame(m);
      case SetPrivacyList(p) => NormPrivacySame(p);
      case Announce(_, _, _, _, _, _) => NormAnnounceSame(m);
      case _ =>
    }
  }

  // What comes back says the same and is canonical, for each type of message.
  lemma NormSame(m: Message)
    ensures Same(m, NormMessage(m)) && Canonical(NormMessage(m))
  {
    NormBodySame(m.body);
  }

  lemma LoginUnique(l: LoginInfo, a: LoginInfo, b: LoginInfo)
    requires SameLogin(l, a) && SameLogin(l, b) && CanonLogin(a) && CanonLogin(b)
    ensures a == b
  {}

  lemma UsersUnique(p: PrivacyInfo, a: PrivacyInfo, b: PrivacyInfo)
    requires SamePrivacy(p, a) && SamePrivacy(p, b) && CanonBody(SetPrivacyList(a)) && CanonBody(SetPrivacyList(b))
    ensures a == b
  {
    forall i | 0 <= i < |p.users| ensures a.users[i] == b.users[i] {
      assert SameUser(p.users[i], a.users[i]) && SameUser(p.users[i], b.users[i]);
    }
    assert a.users == b.users;
  }

  lemma AnnounceUnique(m: Body, a: Body, b: Body)
    requires m.Announce? && a.Announce? && b.Announce?
    requires SameAnnounce(m, a) && SameAnnounce(m, b) && CanonBody(a) && CanonBody(b)
    ensures a == b
  {
    var n := |m.recipients|;
    forall i | 0 <= i < n ensures a.recipients[i] == b.recipients[i] {
      var k := n - 1 - i;
      assert SameText(m.recipients[k], a.recipients[n - 1 - k]) && SameText(m.recipients[k], b.recipients[n - 1 - k]);
    }
    assert a.recipients == b.recipients;
    if m.senderPresent != 0 {
      LoginUnique(m.sender, a.sender, b.sender);
    }
  }

  lemma BodyUnique(m: Body, a: Body, b: Body)
    requires SameBody(m, a) && SameBody(m, b) && CanonBody(a) && CanonBody(b)
    ensures a == b
  {
    match m {
      case ChannelCreate(_, _, _, _, _, _, _, _, flag, creator, _) =>
        if flag != 0 {
          LoginUnique(creator, a.creator, b.creator);
        }
      case ChannelAccept(_, _, _, _, flag, acceptor, _) =>
        if flag != 0 {
          LoginUnique(acceptor, a.acceptor, b.acceptor);
        }
      case SetPrivacyList(p) => UsersUnique(p, a.privacy, b.privacy);
      case Announce(_, _, _, _, _, _) => AnnounceUnique(m, a, b);
      case _ =>
    }
  }

  // There is only one such message.
  lemma CanonicalUnique(m: Message, a: Message, b: Message)
    requires Same(m, a) && Same(m, b) && Canonical(a) && Canonical(b)
    ensures a == b
  {
    BodyUnique(m.body, a.body, b.body);
  }

  // So a message comes back as it was exactly when it is canonical and reads the same with
  // its recipients reversed.
  lemma NormExact(m: Message)
    ensures NormMessage(m) == m <==> Canonical(m) && Same(m, m)
    ensures Same(m, m) <==> (m.body.Announce? ==> SameRecipients(m.body.recipients, m.body.recipients))
  {
    NormSame(m);
    if Canonical(m) && Same(m, m) {
      CanonicalUnique(m, m, NormMessage(m));
    }
  }

  // Reading what was written gives the message back in its normal form, whatever the
  // buffers had to do on the way: the one canonical message that says the same.
  method RoundTrip(m: Message) returns (o: seq<Byte>, r: Option<Message>)
    ensures o == FieldsBytes(MessageFields(m))
    ensures FitsMessage(m) ==> r == Some(NormMessage(m)) && Same(m, r.value) && Canonical(r.value)
  {
    var b := new PutBuffer();
    Put(b, m);
    o := b.Finalize();
    assert [] + MessageFields(m) == MessageFields(m);
    var g := new GetBuffer(o, MessageFields(m));
    r := Get(g, m);
    NormSame(m);
  }

  // ---- the fields on the wire ----

  // a flag is one byte
  lemma FlagBytes(v: int)
    ensures FieldBytes(FBool(v)) == if v == 0 then [0] else [1]
  {}

  // a string is its length in two bytes, and its characters
  lemma TextBytes(s: Str)
    ensures var b := FieldBytes(FStr(s));
      |b| == 2 + |Chars(s)| && BigEndian(b[..2]) == |Chars(s)| % 0x1_0000 && b[2..] == Chars(s)
  {
    var n := |Chars(s)| % 0x1_0000;
    U16BigEndian(n);
    assert FieldBytes(FStr(s))[..2] == PutU16(n);
  }

  // an opaque is its length in four bytes, and its bytes
  lemma DataBytes(o: seq<Byte>)
    ensures var b := FieldBytes(FOpaque(o));
      |b| == 4 + |o| && BigEndian(b[..4]) == |o| % 0x1_0000_0000 && b[4..] == o
  {
    var n := |o| % 0x1_0000_0000;
    U32BigEndian(n);
    assert FieldBytes(FOpaque(o))[..4] == PutU32(n);
  }

  lemma NumberBytes(m: U16, n: U32)
    ensures |FieldBytes(F16(m))| == 2 && BigEndian(FieldBytes(F16(m))) == m
    ensures |FieldBytes(F32(n))| == 4 && BigEndian(FieldBytes(F32(n))) == n
  {
    U16BigEndian(m);
    U32BigEndian(n);
  }

  // and a list of fields is their bytes one after the other
  lemma FieldsInOrder(f: Field, fs: seq<Field>)
    ensures FieldsBytes([]) == []
    ensures FieldsBytes([f] + fs) == FieldBytes(f) + FieldsBytes(fs)
  {
    FieldsFirst(f, fs);
  }

  // ---- the fields of a message ----

  // its type, the options, the channel, and the attributes behind their option
  function Head(kind: U16, m: Message): seq<Field> {
    [F16(kind), F16(m.options), F32(m.channel)] + if m.options / 0x8000 % 2 == 1 then [FOpaque(m.attribs)] else []
  }

  lemma LoginWritten(l: LoginInfo)
    ensures LoginFields(l) ==
            [FStr(l.loginId), F16(l.kind), FStr(l.userId), FStr(l.userName), FStr(l.community), FBool(l.full)] +
            if l.full != 0 then [FStr(l.desc), F32(l.ipAddr), FStr(l.serverId)] else []
  {}

  lemma FlaggedWritten(flag: int, l: LoginInfo)
    ensures FlaggedLogin(flag, l) == [FBool(flag)] + if flag != 0 then LoginFields(l) else []
  {}

  lemma ItemsWritten(item: EncryptItem, items: seq<EncryptItem>)
    ensures ItemsFields([]) == []
    ensures ItemsFields([item] + items) == [F16(item.id), FOpaque(item.info)] + ItemsFields(items)
  {
    assert ([item] + items)[1..] == items;
  }

  // the users of a privacy list are written from the last to the first
  lemma UsersWritten(u: UserItem, us: seq<UserItem>)
    ensures UsersFields([]) == []
    ensures UsersFields(us + [u]) ==
            ([FBool(u.full), FStr(u.id), FStr(u.community)] + if u.full != 0 then [FStr(u.name)] else []) + UsersFields(us)
  {
    assert (us + [u])[..|us|] == us;
  }

  // an encryption block is an opaque of its own, and is missing without items
  lemma OfferWritten(e: Offer)
    ensures FieldsBytes(OfferFields(e)) == FieldsBytes(
              [F16(e.mode)] + if e.items == [] then [] else
                [FOpaque(FieldsBytes([F32(|e.items| % 0x1_0000_0000)] + (ItemsFields(e.items) + [F16(e.extra), FBool(e.flag)])))])
  {
    OpaqueInline([F16(e.mode)], OfferInner(e));
  }

  lemma AcceptanceWritten(e: Acceptance)
    ensures FieldsBytes(AcceptanceFields(e)) == FieldsBytes(
              [F16(e.mode)] + if e.item.None? then [] else
                [FOpaque(FieldsBytes([F16(e.item.value.id), FOpaque(e.item.value.info), F16(e.extra), FBool(e.flag)]))])
  {
    if e.item.Some? {
      OpaqueInline([F16(e.mode)], AcceptanceInner(e.item.value, e));
    }
  }

  lemma HandshakeWritten(m: Message)
    requires m.body.Handshake?
    ensures var b := m.body;
      MessageFields(m) == Head(0x0000, m) +
      ([F16(b.major), F16(b.minor), F32(m.channel), F32(b.srvrcalc), F16(b.loginType), F32(b.loclcalc)] +
       if b.major >= 0x1e && b.minor >= 0x1d then [F16(b.unknownA), F32(b.unknownB), FStr(b.localHost)] else [])
  {}

  lemma HandshakeAckWritten(m: Message)
    requires m.body.HandshakeAck?
    ensures var b := m.body;
      MessageFields(m) == Head(0x8000, m) +
      ([F16(b.major), F16(b.minor), F32(b.srvrcalc)] +
       if b.major >= 0x1e && b.minor > 0x18 then [F32(b.magic), FOpaque(b.data)] else [])
  {}

  lemma LoginsWritten(m: Message)
    ensures m.body.Login? ==> var b := m.body;
      MessageFields(m) == Head(0x0001, m) +
      [F16(b.loginType), FStr(b.name), FOpaque(b.authData), F16(b.authType), F16(0)]
    ensures m.body.LoginRedirect? ==> MessageFields(m) == Head(0x0018, m) + [FStr(m.body.host), FStr(m.body.serverId)]
    ensures m.body.LoginContinue? ==> MessageFields(m) == Head(0x0016, m)
  {}

  lemma CreateWritten(m: Message)
    requires m.body.ChannelCreate?
    ensures var b := m.body;
      MessageFields(m) == Head(0x0002, m) +
      ([F32(b.reserved), F32(b.chan), FStr(b.target.user), FStr(b.target.community),
        F32(b.service), F32(b.protoType), F32(b.protoVer), F32(b.options), FOpaque(b.addtl)] +
       (FlaggedLogin(b.creatorFlag, b.creator) + (OfferFields(b.offer) + [F32(0), F32(0), F16(7)])))
  {
    var b := m.body;
    assert CreateHead(b) == [F32(b.reserved), F32(b.chan), FStr(b.target.user), FStr(b.target.community),
                             F32(b.service), F32(b.protoType), F32(b.protoVer), F32(b.options), FOpaque(b.addtl)];
  }

  lemma AcceptWritten(m: Message)
    requires m.body.ChannelAccept?
    ensures var b := m.body;
      MessageFields(m) == Head(0x0006, m) +
      ([F32(b.service), F32(b.protoType), F32(b.protoVer), FOpaque(b.addtl)] +
       (FlaggedLogin(b.acceptorFlag, b.acceptor) + (AcceptanceFields(b.acceptance) + [F32(0), F32(0), F16(7)])))
  {
    var b := m.body;
    assert AcceptHead(b) == [F32(b.service), F32(b.protoType), F32(b.protoVer), FOpaque(b.addtl)];
  }

  lemma ChannelsWritten(m: Message)
    ensures m.body.ChannelDestroy? ==> MessageFields(m) == Head(0x0003, m) + [F32(m.body.reason), FOpaque(m.body.data)]
    ensures m.body.ChannelSend? ==> MessageFields(m) == Head(0x0004, m) + [F16(m.body.ty), FOpaque(m.body.data)]
  {}

  lemma ServicesWritten(m: Message)
    ensures m.body.SetUserStatus? ==> var s := m.body.status;
      MessageFields(m) == Head(0x0009, m) +
      [F16(s.status), F32(s.time), FStr(s.desc)]
    ensures m.body.SetPrivacyList? ==> var p := m.body.privacy;
      MessageFields(m) == Head(0x000b, m) +
      ([FBool(p.deny), F32(|p.users| % 0x1_0000_0000)] + UsersFields(p.users))
    ensures m.body.SenseService? ==> MessageFields(m) == Head(0x0011, m) + [F32(m.body.service)]
  {}

  lemma AnnounceWritten(m: Message)
    requires m.body.Announce?
    ensures var b := m.body;
      MessageFields(m) == Head(0x0022, m) +
      (FlaggedLogin(b.senderPresent, b.sender) +
       ([F16(b.unknownA), FOpaque(FieldsBytes([FBool(b.mayReply), FStr(b.text)])), F32(|b.recipients| % 0x1_0000_0000)] +
        seq(|b.recipients|, i requires 0 <= i < |b.recipients| => FStr(b.recipients[i]))))
  {
    var b := m.body;
    assert StrsFields(b.recipients) == seq(|b.recipients|, i requires 0 <= i < |b.recipients| => FStr(b.recipients[i]));
  }

  // All the bytes of a channel payload without attributes: the type, the options, the
  // channel, the type of the payload, its length and itself.
  lemma SendOnWire(options: U16, channel: U32, attribs: seq<Byte>, ty: U16, data: seq<Byte>)
    requires options < 0x8000
    ensures var b := FieldsBytes(MessageFields(Message(options, channel, attribs, ChannelSend(ty, data))));
      && |b| == 14 + |data|
      && BigEndian(b[..2]) == 4 && BigEndian(b[2..4]) == options && BigEndian(b[4..8]) == channel
      && BigEndian(b[8..10]) == ty && BigEndian(b[10..14]) == |data| % 0x1_0000_0000 && b[14..] == data
  {
    var m := Message(options, channel, attribs, ChannelSend(ty, data));
    var fs := [F16(4), F16(options), F32(channel), F16(ty), FOpaque(data)];
    ChannelsWritten(m);
    assert MessageFields(m) == fs;
    FiveFields(fs[0], fs[1], fs[2], fs[3], fs[4]);
    U16BigEndian(4);
    U16BigEndian(options);
    U32BigEndian(channel);
    U16BigEndian(ty);
    U32BigEndian(|data| % 0x1_0000_0000);
    SendSlices(PutU16(4), PutU16(options), PutU32(channel), PutU16(ty), PutU32(|data| % 0x1_0000_0000), data);
  }

  lemma FiveFields(a: Field, b: Field, c: Field, d: Field, e: Field)
    ensures FieldsBytes([a, b, c, d, e]) == FieldBytes(a) + (FieldBytes(b) + (FieldBytes(c) + (FieldBytes(d) + FieldBytes(e))))
  {
    FieldsFirst(a, [b, c, d, e]);
    FieldsFirst(b, [c, d, e]);
    FieldsFirst(c, [d, e]);
    FieldsFirst(d, [e]);
    OneField(e);
    assert [a, b, c, d, e] == [a] + [b, c, d, e] && [b, c, d, e] == [b] + [c, d, e];
    assert [c, d, e] == [c] + [d, e] && [d, e] == [d] + [e];
  }

  lemma SendSlices(a: seq<Byte>, b: seq<Byte>, c: seq<Byte>, d: seq<Byte>, e: seq<Byte>, f: seq<Byte>)
    requires |a| == |b| == |d| == 2 && |c| == |e| == 4
    ensures var s := a + (b + (c + (d + (e + f))));
      |s| == 14 + |f| && s[..2] == a && s[2..4] == b && s[4..8] == c && s[8..10] == d && s[10..14] == e && s[14..] == f
  {}
}
