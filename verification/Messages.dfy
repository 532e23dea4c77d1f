/**
  The messages of the community protocol (section 8.4 in src/message.c): writing them,
  and reading them back.
 */
module Messages {
  import opened Options
  import opened Bytes
  import opened Sequences
  import opened Buffers
  import opened Structures

  // ---- encryption blocks ----

  datatype Offer = Offer(mode: U16, items: seq<EncryptItem>, extra: U16, flag: int)

  function ItemsFields(items: seq<EncryptItem>): seq<Field> {
    if items == [] then [] else ItemFields(items[0]) + ItemsFields(items[1..])
  }

  // what is written to a buffer of its own
  function OfferInner(e: Offer): seq<Field> {
    [F32(|e.items| % 0x1_0000_0000)] + (ItemsFields(e.items) + [F16(e.extra), FBool(e.flag)])
  }

  function LengthField(inner: seq<Field>): Field {
    F32(|FieldsBytes(inner)| % 0x1_0000_0000)
  }

  function OfferFields(e: Offer): seq<Field> {
    [F16(e.mode)] + if e.items == [] then [] else [LengthField(OfferInner(e))] + OfferInner(e)
  }

  predicate FitsInner(inner: seq<Field>) {
    |FieldsBytes(inner)| < 0x1_0000_0000
  }

  // extra and flag go with the items
  function NormOffer(e: Offer): Offer {
    if e.items == [] then Offer(e.mode, [], 0, 0) else e.(flag := NormBool(e.flag))
  }

  // the tmp buffer of enc_offer_put
  method PutOfferInner(e: Offer) returns (p: PutBuffer)
    ensures fresh(p) && p.Valid() && p.fields == OfferInner(e)
  {
    p := new PutBuffer();
    p.Guint32(|e.items| % 0x1_0000_0000);
    PutItems(p, e.items);
    PutFlags(p, e.extra, e.flag);
    Regroup([F32(|e.items| % 0x1_0000_0000)], ItemsFields(e.items), [F16(e.extra), FBool(e.flag)]);
  }

  method PutFlags(p: PutBuffer, extra: U16, flag: int)
    requires p.Valid()
    modifies p, p.buf
    ensures p.Valid() && p.fields == old(p.fields) + [F16(extra), FBool(flag)] && (p.buf == old(p.buf) || fresh(p.buf))
  {
    p.Guint16(extra);
    p.Gboolean(flag);
  }

  method PutItems(p: PutBuffer, items: seq<EncryptItem>)
    requires p.Valid()
    modifies p, p.buf
    ensures p.Valid() && p.fields == old(p.fields) + ItemsFields(items) && (p.buf == old(p.buf) || fresh(p.buf))
  {
    var l := 0;
    assert items[0..] == items;
    while l < |items|
      invariant l <= |items| && p.Valid() && (p.buf == old(p.buf) || fresh(p.buf))
      invariant p.fields + ItemsFields(items[l..]) == old(p.fields) + ItemsFields(items)
    {
      assert items[l..][1..] == items[l + 1..];
      Regroup(p.fields, ItemFields(items[l]), ItemsFields(items[l + 1..]));
      PutItem(p, items[l]);
      l := l + 1;
    }
    assert items[l..] == [];
  }

  // a buffer of its own goes into b as an opaque
  method PutBlock(b: PutBuffer, p: PutBuffer)
    requires b.Valid() && p.Valid()
    modifies b, b.buf
    ensures b.Valid() && (b.buf == old(b.buf) || fresh(b.buf))
    ensures b.fields == old(b.fields) + ([LengthField(old(p.fields))] + old(p.fields))
  {
    ghost var before, inner := b.fields, p.fields;
    var o := p.Finalize();
    b.Opaque(o);
    OpaqueInline(before, inner);
    b.Reread(before + ([LengthField(inner)] + inner));
  }

  // enc_offer_put
  method PutOffer(b: PutBuffer, e: Offer)
    requires b.Valid()
    modifies b, b.buf
    ensures b.Valid() && b.fields == old(b.fields) + OfferFields(e) && (b.buf == old(b.buf) || fresh(b.buf))
  {
    b.Guint16(e.mode);
    if |e.items| > 0 {
      var p := PutOfferInner(e);
      PutBlock(b, p);
      Regroup(old(b.fields), [F16(e.mode)], [LengthField(OfferInner(e))] + OfferInner(e));
    }
  }

  // a block with its trailing fields has at least seven bytes
  lemma {:induction false} FieldsLength(fs: seq<Field>, extra: U16, flag: int)
    ensures |FieldsBytes(fs + [F16(extra), FBool(flag)])| >= 3
  {
    FieldsAppend(fs, [F16(extra), FBool(flag)]);
    assert [F16(extra), FBool(flag)][1..] == [FBool(flag)];
    OneField(FBool(flag));
  }

  lemma OfferLength(e: Offer)
    ensures |FieldsBytes(OfferInner(e))| >= 7
  {
    var rest := ItemsFields(e.items) + [F16(e.extra), FBool(e.flag)];
    FieldsFirst(F32(|e.items| % 0x1_0000_0000), rest);
    FieldsLength(ItemsFields(e.items), e.extra, e.flag);
  }

  // enc_offer_get. Without items the length that it reads belongs to what follows.
  method GetOffer(b: GetBuffer, ghost e: Offer) returns (r: Offer)
    requires b.Valid()
    modifies b
    ensures b.Sticky()
    ensures old(b.Ready()) && OfferFields(e) + [F32(0)] <= old(b.coming) && FitsInner(OfferInner(e)) && |e.items| < 0x1_0000_0000 ==>
              r == NormOffer(e) && !b.error
  {
    r := Offer(0, [], 0, 0);
    if b.error {
      return;
    }
    var mode, skip := GetModeSkip(b, e.mode, if e.items == [] then F32(0) else LengthField(OfferInner(e)));
    r := r.(mode := mode);
    OfferLength(e);
    if skip >= 7 {
      var items, extra, flag := GetOfferInner(b, e);
      r := Offer(mode, items, extra, flag);
    }
  }

  // the mode of a block, and its length or what follows instead
  method GetModeSkip(b: GetBuffer, ghost m: U16, ghost f: Field) returns (mode: U16, skip: U32)
    requires b.Valid() && f.F32?
    modifies b
    ensures b.Sticky()
    ensures old(b.Ready()) && [F16(m), f] <= old(b.coming) ==> mode == m && skip == f.n32 && b.Went(2)
  {
    mode := b.Guint16();
    skip := b.Guint32();
  }

  method GetOfferInner(b: GetBuffer, ghost e: Offer) returns (items: seq<EncryptItem>, extra: U16, flag: int)
    requires b.Valid()
    modifies b
    ensures b.Sticky()
    ensures old(b.Ready()) && OfferInner(e) <= old(b.coming) && |e.items| < 0x1_0000_0000 ==>
              items == e.items && extra == e.extra && flag == NormBool(e.flag) && !b.error
  {
    if OfferInner(e) <= b.coming {
      PrefixSplit([F32(|e.items| % 0x1_0000_0000)], ItemsFields(e.items) + [F16(e.extra), FBool(e.flag)], b.coming);
      PrefixSplit(ItemsFields(e.items), [F16(e.extra), FBool(e.flag)], b.coming[1..]);
    }
    var count := b.Guint32();
    items := GetItems(b, count, e.items);
    extra, flag := GetFlags(b, e.extra, e.flag);
  }

  // the loop of enc_offer_get
  method GetItems(b: GetBuffer, count: U32, ghost want: seq<EncryptItem>) returns (items: seq<EncryptItem>)
    requires b.Valid()
    modifies b
    ensures b.Sticky()
    ensures old(b.Ready()) && ItemsFields(want) <= old(b.coming) && count == |want| ==>
              items == want && b.Went(|ItemsFields(want)|)
  {
    items := [];
    var c: int := count;
    ghost var known := b.Ready() && ItemsFields(want) <= b.coming && count == |want|;
    ghost var n := |ItemsFields(want)|;
    assert want[0..] == want;
    while c > 0 && !b.error
      invariant 0 <= c <= count && b.Sticky()
      invariant known ==> b.Ready() && items == want[..count - c]
      invariant known ==> ItemsFields(want[count - c..]) <= b.coming
      invariant known ==> b.coming[|ItemsFields(want[count - c..])|..] == old(b.coming)[n..]
      decreases c
    {
      ghost var i := count - c;
      ghost var next := if known then want[i] else EncryptItem(0, []);
      if known {
        assert want[i..][1..] == want[i + 1..];
        PrefixSplit(ItemFields(next), ItemsFields(want[i + 1..]), b.coming);
      }
      var ei := GetItem(b, next);
      items := items + [ei];
      c := c - 1;
    }
    assert want[|want|..] == [];
  }

  datatype Acceptance = Acceptance(mode: U16, item: Option<EncryptItem>, extra: U16, flag: int)

  function AcceptanceInner(item: EncryptItem, e: Acceptance): seq<Field> {
    [F16(item.id), FOpaque(item.info), F16(e.extra), FBool(e.flag)]
  }

  function AcceptanceFields(e: Acceptance): seq<Field> {
    [F16(e.mode)] +
    if e.item.None? then [] else [LengthField(AcceptanceInner(e.item.value, e))] + AcceptanceInner(e.item.value, e)
  }

  function NormAcceptance(e: Acceptance): Acceptance {
    if e.item.None? then Acceptance(e.mode, None, 0, 0) else e.(flag := NormBool(e.flag))
  }

  // enc_accept_put
  method PutAcceptance(b: PutBuffer, e: Acceptance)
    requires b.Valid()
    modifies b, b.buf
    ensures b.Valid() && b.fields == old(b.fields) + AcceptanceFields(e) && (b.buf == old(b.buf) || fresh(b.buf))
  {
    b.Guint16(e.mode);
    if e.item.Some? {
      var p := PutAcceptanceInner(e.item.value, e);
      PutBlock(b, p);
      ghost var inner := AcceptanceInner(e.item.value, e);
      Regroup(old(b.fields), [F16(e.mode)], [LengthField(inner)] + inner);
    }
  }

  method PutAcceptanceInner(item: EncryptItem, e: Acceptance) returns (p: PutBuffer)
    ensures fresh(p) && p.Valid() && p.fields == AcceptanceInner(item, e)
  {
    p := new PutBuffer();
    PutItem(p, item);
    PutFlags(p, e.extra, e.flag);
  }

  lemma AcceptanceLength(item: EncryptItem, e: Acceptance)
    ensures |FieldsBytes(AcceptanceInner(item, e))| >= 9
  {
    var rest := [F16(e.extra), FBool(e.flag)];
    assert AcceptanceInner(item, e) == [F16(item.id)] + ([FOpaque(item.info)] + rest);
    FieldsFirst(F16(item.id), [FOpaque(item.info)] + rest);
    FieldsFirst(FOpaque(item.info), rest);
    FieldsLength([], e.extra, e.flag);
    assert [] + rest == rest;
  }

  // enc_accept_get
  method GetAcceptance(b: GetBuffer, ghost e: Acceptance) returns (r: Acceptance)
    requires b.Valid()
    modifies b
    ensures b.Sticky()
    ensures old(b.Ready()) && AcceptanceFields(e) + [F32(0)] <= old(b.coming) &&
            (e.item.Some? ==> FitsInner(AcceptanceInner(e.item.value, e))) ==>
              r == NormAcceptance(e) && !b.error
  {
    r := Acceptance(0, None, 0, 0);
    if b.error {
      return;
    }
    var mode, skip := GetModeSkip(b, e.mode,
      if e.item.None? then F32(0) else LengthField(AcceptanceInner(e.item.value, e)));
    r := r.(mode := mode);
    ghost var item := if e.item.Some? then e.item.value else EncryptItem(0, []);
    AcceptanceLength(item, e);
    ghost var known := AcceptanceInner(item, e) <= b.coming;
    if known {
      AcceptanceSplit(item, e, b.coming);
    }
    if skip >= 6 {
      var it := GetItem(b, item);
      r := r.(item := Some(it));
    }
    if skip >= 9 {
      var extra, flag := GetFlags(b, e.extra, e.flag);
      r := r.(extra := extra, flag := flag);
    }
  }

  lemma AcceptanceSplit(item: EncryptItem, e: Acceptance, s: seq<Field>)
    requires AcceptanceInner(item, e) <= s
    ensures ItemFields(item) <= s && [F16(e.extra), FBool(e.flag)] <= s[|ItemFields(item)|..]
  {
    assert AcceptanceInner(item, e) == ItemFields(item) + [F16(e.extra), FBool(e.flag)];
    PrefixSplit(ItemFields(item), [F16(e.extra), FBool(e.flag)], s);
  }

  method GetFlags(b: GetBuffer, ghost x: U16, ghost f: int) returns (extra: U16, flag: int)
    requires b.Valid()
    modifies b
    ensures b.Sticky()
    ensures old(b.Ready()) && [F16(x), FBool(f)] <= old(b.coming) ==> extra == x && flag == NormBool(f) && !b.error
  {
    extra := b.Guint16();
    flag := b.Gboolean();
  }

  // ---- message bodies ----

  datatype Body =
    | Handshake(major: U16, minor: U16, srvrcalc: U32, loginType: U16, loclcalc: U32,
                unknownA: U16, unknownB: U32, localHost: Str)
    | HandshakeAck(major: U16, minor: U16, srvrcalc: U32, magic: U32, data: seq<Byte>)
    | Login(loginType: U16, name: Str, authType: U16, authData: seq<Byte>)
    | LoginRedirect(host: Str, serverId: Str)
    | LoginContinue
    | ChannelCreate(reserved: U32, chan: U32, target: IdBlock, service: U32, protoType: U32, protoVer: U32,
                    options: U32, addtl: seq<Byte>, creatorFlag: int, creator: LoginInfo, offer: Offer)
    | ChannelDestroy(reason: U32, data: seq<Byte>)
    | ChannelSend(ty: U16, data: seq<Byte>)
    | ChannelAccept(service: U32, protoType: U32, protoVer: U32, addtl: seq<Byte>,
                    acceptorFlag: int, acceptor: LoginInfo, acceptance: Acceptance)
    | SetUserStatus(status: UserStatus)
    | SetPrivacyList(privacy: PrivacyInfo)
    | SenseService(service: U32)
    | Announce(senderPresent: int, sender: LoginInfo, unknownA: U16, mayReply: int, text: Str, recipients: seq<Str>)
    | NoPut(kind: U16)   // LOGIN_ACK and ADMIN are only received

  function TypeOf(m: Body): U16 {
    match m
    case Handshake(_, _, _, _, _, _, _, _) => 0x0000
    case HandshakeAck(_, _, _, _, _) => 0x8000
    case Login(_, _, _, _) => 0x0001
    case LoginRedirect(_, _) => 0x0018
    case LoginContinue => 0x0016
    case ChannelCreate(_, _, _, _, _, _, _, _, _, _, _) => 0x0002
    case ChannelDestroy(_, _) => 0x0003
    case ChannelSend(_, _) => 0x0004
    case ChannelAccept(_, _, _, _, _, _, _) => 0x0006
    case SetUserStatus(_) => 0x0009
    case SetPrivacyList(_) => 0x000b
    case SenseService(_) => 0x0011
    case Announce(_, _, _, _, _, _) => 0x0022
    case NoPut(kind) => kind
  }

  // a login that is only written behind its flag
  function FlaggedLogin(flag: int, l: LoginInfo): seq<Field> {
    [FBool(flag)] + if flag != 0 then LoginFields(l) else []
  }

  function NormFlagged(flag: int, l: LoginInfo): LoginInfo {
    if flag != 0 then NormLogin(l) else NoLogin()
  }

  function Trailer(): seq<Field> {
    [F32(0), F32(0), F16(7)]
  }

  function StrsFields(ss: seq<Str>): seq<Field> {
    seq(|ss|, i requires 0 <= i < |ss| => FStr(ss[i]))
  }

  function NoticeFields(mayReply: int, text: Str): seq<Field> {
    [FBool(mayReply), FStr(text)]
  }

  // recipients come back in the reverse order
  function NormRecipients(ss: seq<Str>): seq<Str> {
    seq(|ss|, i requires 0 <= i < |ss| => NormStr(ss[|ss| - 1 - i]))
  }

  // a flag and a login
  method PutFlagged(b: PutBuffer, flag: int, l: LoginInfo)
    requires b.Valid()
    modifies b, b.buf
    ensures b.Valid() && b.fields == old(b.fields) + FlaggedLogin(flag, l) && (b.buf == old(b.buf) || fresh(b.buf))
  {
    b.Gboolean(flag);
    if flag != 0 {
      PutLogin(b, l);
      Regroup(old(b.fields), [FBool(flag)], LoginFields(l));
    }
  }

  method GetFlagged(b: GetBuffer, ghost f: int, ghost l: LoginInfo) returns (flag: int, r: LoginInfo)
    requires b.Valid()
    modifies b
    ensures b.Sticky()
    ensures old(b.Ready()) && FlaggedLogin(f, l) <= old(b.coming) ==>
              flag == NormBool(f) && r == NormFlagged(f, l) && b.Went(|FlaggedLogin(f, l)|)
  {
    if FlaggedLogin(f, l) <= b.coming && f != 0 {
      PrefixSplit([FBool(f)], LoginFields(l), b.coming);
    }
    flag := b.Gboolean();
    r := NoLogin();
    if flag != 0 {
      r := GetLogin(b, l);
    }
  }

  // ---- handshakes and logins ----

  function HandshakeFields(channel: U32, m: Body): seq<Field>
    requires m.Handshake?
  {
    VersionFields(m.major, m.minor, channel) + (AddressFields(m) + UnknownFields(m))
  }

  function VersionFields(major: U16, minor: U16, n: U32): seq<Field> {
    [F16(major), F16(minor), F32(n)]
  }

  function AddressFields(m: Body): seq<Field>
    requires m.Handshake?
  {
    [F32(m.srvrcalc), F16(m.loginType), F32(m.loclcalc)]
  }

  function UnknownFields(m: Body): seq<Field>
    requires m.Handshake?
  {
    if m.major >= 0x001e && m.minor >= 0x001d then [F16(m.unknownA), F32(m.unknownB), FStr(m.localHost)] else []
  }

  function HandshakeAckFields(m: Body): seq<Field>
    requires m.HandshakeAck?
  {
    VersionFields(m.major, m.minor, m.srvrcalc) +
    if m.major >= 0x1e && m.minor > 0x18 then [F32(m.magic), FOpaque(m.data)] else []
  }

  // HANDSHAKE_put
  method PutHandshake(b: PutBuffer, channel: U32, m: Body)
    requires b.Valid() && m.Handshake?
    modifies b, b.buf
    ensures b.Valid() && b.fields == old(b.fields) + HandshakeFields(channel, m) && (b.buf == old(b.buf) || fresh(b.buf))
  {
    ghost var f0, v := b.fields, VersionFields(m.major, m.minor, channel);
    PutVersion(b, m.major, m.minor, channel);
    PutAddresses(b, m);
    PutUnknown(b, m);
    Regroup(f0 + v, AddressFields(m), UnknownFields(m));
    Regroup(f0, v, AddressFields(m) + UnknownFields(m));
  }

  method PutVersion(b: PutBuffer, major: U16, minor: U16, n: U32)
    requires b.Valid()
    modifies b, b.buf
    ensures b.Valid() && b.fields == old(b.fields) + VersionFields(major, minor, n) && (b.buf == old(b.buf) || fresh(b.buf))
  {
    b.Guint16(major);
    b.Guint16(minor);
    b.Guint32(n);
  }

  method PutAddresses(b: PutBuffer, m: Body)
    requires b.Valid() && m.Handshake?
    modifies b, b.buf
    ensures b.Valid() && (b.buf == old(b.buf) || fresh(b.buf))
    ensures b.fields == old(b.fields) + AddressFields(m)
  {
    b.Guint32(m.srvrcalc);
    b.Guint16(m.loginType);
    b.Guint32(m.loclcalc);
  }

  method PutUnknown(b: PutBuffer, m: Body)
    requires b.Valid() && m.Handshake?
    modifies b, b.buf
    ensures b.Valid() && (b.buf == old(b.buf) || fresh(b.buf))
    ensures b.fields == old(b.fields) + UnknownFields(m)
  {
    if m.major >= 0x001e && m.minor >= 0x001d {
      b.Guint16(m.unknownA);
      b.Guint32(m.unknownB);
      b.String(m.localHost);
    }
  }

  function NormHandshake(m: Body): Body
    requires m.Handshake?
  {
    if m.major >= 0x001e && m.minor >= 0x001d then m.(localHost := NormStr(m.localHost))
    else m.(unknownA := 0, unknownB := 0, localHost := None)
  }

  // HANDSHAKE_get; the channel of the head is read again
  method GetHandshake(b: GetBuffer, ghost channel: U32, ghost m: Body) returns (ch: U32, r: Body)
    requires b.Valid() && m.Handshake?
    modifies b
    ensures b.Sticky()
    ensures old(b.Ready()) && HandshakeFields(channel, m) <= old(b.coming) ==> ch == channel && r == NormHandshake(m) && !b.error
  {
    if HandshakeFields(channel, m) <= b.coming {
      PrefixSplit(VersionFields(m.major, m.minor, channel), AddressFields(m) + UnknownFields(m), b.coming);
      PrefixSplit(AddressFields(m), UnknownFields(m), b.coming[3..]);
    }
    var major, minor;
    major, minor, ch := GetVersion(b, m.major, m.minor, channel);
    var srvrcalc, loginType, loclcalc := GetAddresses(b, m);
    r := Handshake(major, minor, srvrcalc, loginType, loclcalc, 0, 0, None);
    if major >= 0x001e && minor >= 0x001d {
      var unknownA := b.Guint16();
      var unknownB := b.Guint32();
      var localHost := b.String();
      r := r.(unknownA := unknownA, unknownB := unknownB, localHost := localHost);
    }
  }

  method GetVersion(b: GetBuffer, ghost i: U16, ghost j: U16, ghost k: U32) returns (major: U16, minor: U16, n: U32)
    requires b.Valid()
    modifies b
    ensures b.Sticky()
    ensures old(b.Ready()) && VersionFields(i, j, k) <= old(b.coming) ==> major == i && minor == j && n == k && b.Went(3)
  {
    major := b.Guint16();
    minor := b.Guint16();
    n := b.Guint32();
  }

  method GetAddresses(b: GetBuffer, ghost m: Body) returns (srvrcalc: U32, loginType: U16, loclcalc: U32)
    requires b.Valid() && m.Handshake?
    modifies b
    ensures b.Sticky()
    ensures old(b.Ready()) && AddressFields(m) <= old(b.coming) ==>
              srvrcalc == m.srvrcalc && loginType == m.loginType && loclcalc == m.loclcalc && b.Went(3)
  {
    srvrcalc := b.Guint32();
    loginType := b.Guint16();
    loclcalc := b.Guint32();
  }

  function NormHandshakeAck(m: Body): Body
    requires m.HandshakeAck?
  {
    if m.major >= 0x1e && m.minor > 0x18 then m else m.(magic := 0, data := [])
  }

  // HANDSHAKE_ACK_put
  method PutHandshakeAck(b: PutBuffer, m: Body)
    requires b.Valid() && m.HandshakeAck?
    modifies b, b.buf
    ensures b.Valid() && b.fields == old(b.fields) + HandshakeAckFields(m) && (b.buf == old(b.buf) || fresh(b.buf))
  {
    PutVersion(b, m.major, m.minor, m.srvrcalc);
    if m.major >= 0x1e && m.minor > 0x18 {
      b.Guint32(m.magic);
      b.Opaque(m.data);
    }
  }

  // HANDSHAKE_ACK_get
  method GetHandshakeAck(b: GetBuffer, ghost m: Body) returns (r: Body)
    requires b.Valid() && m.HandshakeAck?
    modifies b
    ensures b.Sticky()
    ensures old(b.Ready()) && HandshakeAckFields(m) <= old(b.coming) ==> r == NormHandshakeAck(m) && !b.error
  {
    var major := b.Guint16();
    var minor := b.Guint16();
    var srvrcalc := b.Guint32();
    r := HandshakeAck(major, minor, srvrcalc, 0, []);
    if major >= 0x1e && minor > 0x18 {
      var magic := b.Guint32();
      var data := b.Opaque();
      r := r.(magic := magic, data := data);
    }
  }

  function LoginMsgFields(m: Body): seq<Field>
    requires m.Login?
  {
    [F16(m.loginType), FStr(m.name), FOpaque(m.authData), F16(m.authType), F16(0)]
  }

  // LOGIN_put
  method PutLoginMsg(b: PutBuffer, m: Body)
    requires b.Valid() && m.Login?
    modifies b, b.buf
    ensures b.Valid() && b.fields == old(b.fields) + LoginMsgFields(m) && (b.buf == old(b.buf) || fresh(b.buf))
  {
    b.Guint16(m.loginType);
    b.String(m.name);
    PutAuth(b, m.authData, m.authType);
  }

  method PutAuth(b: PutBuffer, data: seq<Byte>, kind: U16)
    requires b.Valid()
    modifies b, b.buf
    ensures b.Valid() && b.fields == old(b.fields) + [FOpaque(data), F16(kind), F16(0)] && (b.buf == old(b.buf) || fresh(b.buf))
  {
    b.Opaque(data);
    b.Guint16(kind);
    b.Guint16(0x0000);
  }

  // LOGIN_get
  method GetLoginMsg(b: GetBuffer, ghost m: Body) returns (r: Body)
    requires b.Valid() && m.Login?
    modifies b
    ensures b.Sticky()
    ensures old(b.Ready()) && LoginMsgFields(m) <= old(b.coming) ==> r == m.(name := NormStr(m.name)) && !b.error
  {
    if LoginMsgFields(m) <= b.coming {
      PrefixSplit([F16(m.loginType), FStr(m.name)], [FOpaque(m.authData), F16(m.authType), F16(0)], b.coming);
    }
    var loginType, name := GetLoginName(b, m.loginType, m.name);
    var authData, authType := GetAuth(b, m.authData, m.authType);
    r := Login(loginType, name, authType, authData);
  }

  method GetLoginName(b: GetBuffer, ghost i: U16, ghost s: Str) returns (loginType: U16, name: Str)
    requires b.Valid()
    modifies b
    ensures b.Sticky()
    ensures old(b.Ready()) && [F16(i), FStr(s)] <= old(b.coming) ==> loginType == i && name == NormStr(s) && b.Went(2)
  {
    loginType := b.Guint16();
    name := b.String();
  }

  method GetAuth(b: GetBuffer, ghost data: seq<Byte>, ghost kind: U16) returns (authData: seq<Byte>, authType: U16)
    requires b.Valid()
    modifies b
    ensures b.Sticky()
    ensures old(b.Ready()) && [FOpaque(data), F16(kind)] <= old(b.coming) ==> authData == data && authType == kind && b.Went(2)
  {
    authData := b.Opaque();
    authType := b.Guint16();
  }

  // ---- channels ----

  function ProtoFields(service: U32, protoType: U32, protoVer: U32): seq<Field> {
    [F32(service), F32(protoType), F32(protoVer)]
  }

  function CreateHead(m: Body): seq<Field>
    requires m.ChannelCreate?
  {
    [F32(m.reserved), F32(m.chan)] +
    (IdFields(m.target) + (ProtoFields(m.service, m.protoType, m.protoVer) + OptionFields(m.options, m.addtl)))
  }

  function OptionFields(options: U32, addtl: seq<Byte>): seq<Field> {
    [F32(options), FOpaque(addtl)]
  }

  function CreateFields(m: Body): seq<Field>
    requires m.ChannelCreate?
  {
    CreateHead(m) + (FlaggedLogin(m.creatorFlag, m.creator) + (OfferFields(m.offer) + Trailer()))
  }

  method PutProto(b: PutBuffer, service: U32, protoType: U32, protoVer: U32)
    requires b.Valid()
    modifies b, b.buf
    ensures b.Valid() && b.fields == old(b.fields) + ProtoFields(service, protoType, protoVer) && (b.buf == old(b.buf) || fresh(b.buf))
  {
    b.Guint32(service);
    b.Guint32(protoType);
    b.Guint32(protoVer);
  }

  method PutTrailer(b: PutBuffer)
    requires b.Valid()
    modifies b, b.buf
    ensures b.Valid() && b.fields == old(b.fields) + Trailer() && (b.buf == old(b.buf) || fresh(b.buf))
  {
    b.Guint32(0x00);
    b.Guint32(0x00);
    b.Guint16(0x07);
  }

  method PutCreateHead(b: PutBuffer, m: Body)
    requires b.Valid() && m.ChannelCreate?
    modifies b, b.buf
    ensures b.Valid() && b.fields == old(b.fields) + CreateHead(m) && (b.buf == old(b.buf) || fresh(b.buf))
  {
    ghost var f0, p := b.fields, ProtoFields(m.service, m.protoType, m.protoVer);
    PutWords(b, m.reserved, m.chan);
    PutId(b, m.target);
    PutProto(b, m.service, m.protoType, m.protoVer);
    PutOptions(b, m.options, m.addtl);
    RegroupFour(f0, [F32(m.reserved), F32(m.chan)], IdFields(m.target), p, OptionFields(m.options, m.addtl));
  }

  method PutWords(b: PutBuffer, i: U32, j: U32)
    requires b.Valid()
    modifies b, b.buf
    ensures b.Valid() && b.fields == old(b.fields) + [F32(i), F32(j)] && (b.buf == old(b.buf) || fresh(b.buf))
  {
    b.Guint32(i);
    b.Guint32(j);
  }

  method PutOptions(b: PutBuffer, options: U32, addtl: seq<Byte>)
    requires b.Valid()
    modifies b, b.buf
    ensures b.Valid() && b.fields == old(b.fields) + OptionFields(options, addtl) && (b.buf == old(b.buf) || fresh(b.buf))
  {
    b.Guint32(options);
    b.Opaque(addtl);
  }

  // CHANNEL_CREATE_put
  method PutCreate(b: PutBuffer, m: Body)
    requires b.Valid() && m.ChannelCreate?
    modifies b, b.buf
    ensures b.Valid() && b.fields == old(b.fields) + CreateFields(m) && (b.buf == old(b.buf) || fresh(b.buf))
  {
    ghost var f0 := b.fields;
    ghost var h, l, o := CreateHead(m), FlaggedLogin(m.creatorFlag, m.creator), OfferFields(m.offer);
    PutCreateHead(b, m);
    PutFlagged(b, m.creatorFlag, m.creator);
    PutOffer(b, m.offer);
    PutTrailer(b);
    RegroupFour(f0, h, l, o, Trailer());
  }

  lemma RegroupFour(a: seq<Field>, b: seq<Field>, c: seq<Field>, d: seq<Field>, e: seq<Field>)
    ensures (((a + b) + c) + d) + e == a + (b + (c + (d + e)))
  {
    Regroup((a + b) + c, d, e);
    Regroup(a + b, c, d + e);
    Regroup(a, b, c + (d + e));
  }

  // CHANNEL_CREATE_get
  method GetCreate(b: GetBuffer, ghost m: Body) returns (r: Body)
    requires b.Valid() && m.ChannelCreate?
    modifies b
    ensures b.Sticky()
    ensures old(b.Ready()) && CreateFields(m) <= old(b.coming) && FitsInner(OfferInner(m.offer)) && |m.offer.items| < 0x1_0000_0000 ==>
              r == NormCreate(m) && !b.error
  {
    ghost var h, l, o := CreateHead(m), FlaggedLogin(m.creatorFlag, m.creator), OfferFields(m.offer);
    if CreateFields(m) <= b.coming {
      PrefixSplit(h, l + (o + Trailer()), b.coming);
      PrefixSplit(l, o + Trailer(), b.coming[|h|..]);
      OfferPrefix(o, b.coming[|h|..][|l|..]);
    }
    r := GetCreateHead(b, m);
    var flag, creator := GetFlagged(b, m.creatorFlag, m.creator);
    var offer := GetOffer(b, m.offer);
    r := r.(creatorFlag := flag, creator := creator, offer := offer);
  }

  // only the first field of the trailer is read behind an empty block
  lemma OfferPrefix(o: seq<Field>, s: seq<Field>)
    requires o + Trailer() <= s
    ensures o + [F32(0)] <= s
  {
    assert o + [F32(0)] == (o + Trailer())[..|o| + 1];
  }

  function NormCreate(m: Body): Body
    requires m.ChannelCreate?
  {
    m.(target := NormId(m.target), creatorFlag := NormBool(m.creatorFlag),
       creator := NormFlagged(m.creatorFlag, m.creator), offer := NormOffer(m.offer))
  }

  method GetCreateHead(b: GetBuffer, ghost m: Body) returns (r: Body)
    requires b.Valid() && m.ChannelCreate?
    modifies b
    ensures b.Sticky() && r.ChannelCreate?
    ensures old(b.Ready()) && CreateHead(m) <= old(b.coming) ==>
              b.Went(|CreateHead(m)|) &&
              r == m.(target := NormId(m.target), creatorFlag := 0, creator := NoLogin(), offer := Offer(0, [], 0, 0))
  {
    ghost var p, o := ProtoFields(m.service, m.protoType, m.protoVer), OptionFields(m.options, m.addtl);
    if CreateHead(m) <= b.coming {
      PrefixSplit([F32(m.reserved), F32(m.chan)], IdFields(m.target) + (p + o), b.coming);
      PrefixSplit(IdFields(m.target), p + o, b.coming[2..]);
      PrefixSplit(p, o, b.coming[2..][2..]);
    }
    var reserved, chan := GetWords(b, m.reserved, m.chan);
    var target := GetId(b, m.target);
    var service, protoType, protoVer := GetProto(b, m.service, m.protoType, m.protoVer);
    var options, addtl := GetOptions(b, m.options, m.addtl);
    r := ChannelCreate(reserved, chan, target, service, protoType, protoVer, options, addtl, 0, NoLogin(), Offer(0, [], 0, 0));
  }

  method GetWords(b: GetBuffer, ghost i: U32, ghost j: U32) returns (m: U32, n: U32)
    requires b.Valid()
    modifies b
    ensures b.Sticky()
    ensures old(b.Ready()) && [F32(i), F32(j)] <= old(b.coming) ==> m == i && n == j && b.Went(2)
  {
    m := b.Guint32();
    n := b.Guint32();
  }

  method GetProto(b: GetBuffer, ghost i: U32, ghost j: U32, ghost k: U32) returns (service: U32, protoType: U32, protoVer: U32)
    requires b.Valid()
    modifies b
    ensures b.Sticky()
    ensures old(b.Ready()) && ProtoFields(i, j, k) <= old(b.coming) ==>
              service == i && protoType == j && protoVer == k && b.Went(3)
  {
    service := b.Guint32();
    protoType := b.Guint32();
    protoVer := b.Guint32();
  }

  method GetOptions(b: GetBuffer, ghost i: U32, ghost o: seq<Byte>) returns (options: U32, addtl: seq<Byte>)
    requires b.Valid()
    modifies b
    ensures b.Sticky()
    ensures old(b.Ready()) && OptionFields(i, o) <= old(b.coming) ==> options == i && addtl == o && b.Went(2)
  {
    options := b.Guint32();
    addtl := b.Opaque();
  }

  function AcceptHead(m: Body): seq<Field>
    requires m.ChannelAccept?
  {
    ProtoFields(m.service, m.protoType, m.protoVer) + [FOpaque(m.addtl)]
  }

  function AcceptFields(m: Body): seq<Field>
    requires m.ChannelAccept?
  {
    AcceptHead(m) + (FlaggedLogin(m.acceptorFlag, m.acceptor) + (AcceptanceFields(m.acceptance) + Trailer()))
  }

  method PutAcceptHead(b: PutBuffer, m: Body)
    requires b.Valid() && m.ChannelAccept?
    modifies b, b.buf
    ensures b.Valid() && b.fields == old(b.fields) + AcceptHead(m) && (b.buf == old(b.buf) || fresh(b.buf))
  {
    PutProto(b, m.service, m.protoType, m.protoVer);
    b.Opaque(m.addtl);
  }

  // CHANNEL_ACCEPT_put
  method PutAccept(b: PutBuffer, m: Body)
    requires b.Valid() && m.ChannelAccept?
    modifies b, b.buf
    ensures b.Valid() && b.fields == old(b.fields) + AcceptFields(m) && (b.buf == old(b.buf) || fresh(b.buf))
  {
    ghost var f0 := b.fields;
    ghost var h, l, o := AcceptHead(m), FlaggedLogin(m.acceptorFlag, m.acceptor), AcceptanceFields(m.acceptance);
    PutAcceptHead(b, m);
    PutFlagged(b, m.acceptorFlag, m.acceptor);
    PutAcceptance(b, m.acceptance);
    PutTrailer(b);
    RegroupFour(f0, h, l, o, Trailer());
  }

  function NormAccept(m: Body): Body
    requires m.ChannelAccept?
  {
    m.(acceptorFlag := NormBool(m.acceptorFlag), acceptor := NormFlagged(m.acceptorFlag, m.acceptor),
       acceptance := NormAcceptance(m.acceptance))
  }

  // CHANNEL_ACCEPT_get
  method GetAccept(b: GetBuffer, ghost m: Body) returns (r: Body)
    requires b.Valid() && m.ChannelAccept?
    modifies b
    ensures b.Sticky()
    ensures old(b.Ready()) && AcceptFields(m) <= old(b.coming) &&
            (m.acceptance.item.Some? ==> FitsInner(AcceptanceInner(m.acceptance.item.value, m.acceptance))) ==>
              r == NormAccept(m) && !b.error
  {
    ghost var h, l, o := AcceptHead(m), FlaggedLogin(m.acceptorFlag, m.acceptor), AcceptanceFields(m.acceptance);
    if AcceptFields(m) <= b.coming {
      PrefixSplit(h, l + (o + Trailer()), b.coming);
      PrefixSplit(l, o + Trailer(), b.coming[|h|..]);
      OfferPrefix(o, b.coming[|h|..][|l|..]);
    }
    var service, protoType, protoVer, addtl := GetAcceptHead(b, m);
    var flag, acceptor := GetFlagged(b, m.acceptorFlag, m.acceptor);
    var acceptance := GetAcceptance(b, m.acceptance);
    r := ChannelAccept(service, protoType, protoVer, addtl, flag, acceptor, acceptance);
  }

  method GetAcceptHead(b: GetBuffer, ghost m: Body) returns (service: U32, protoType: U32, protoVer: U32, addtl: seq<Byte>)
    requires b.Valid() && m.ChannelAccept?
    modifies b
    ensures b.Sticky()
    ensures old(b.Ready()) && AcceptHead(m) <= old(b.coming) ==>
              b.Went(|AcceptHead(m)|) &&
              service == m.service && protoType == m.protoType && protoVer == m.protoVer && addtl == m.addtl
  {
    if AcceptHead(m) <= b.coming {
      PrefixSplit(ProtoFields(m.service, m.protoType, m.protoVer), [FOpaque(m.addtl)], b.coming);
    }
    service, protoType, protoVer := GetProto(b, m.service, m.protoType, m.protoVer);
    addtl := b.Opaque();
  }

  // ---- announcements ----

  function AnnounceFields(m: Body): seq<Field>
    requires m.Announce?
  {
    FlaggedLogin(m.senderPresent, m.sender) +
    AnnounceRest(m)
  }

  function NoticeBlock(unknownA: U16, o: seq<Byte>, count: U32): seq<Field> {
    [F16(unknownA), FOpaque(o), F32(count)]
  }

  function NormAnnounce(m: Body): Body
    requires m.Announce?
  {
    Announce(NormBool(m.senderPresent), NormFlagged(m.senderPresent, m.sender), m.unknownA,
             NormBool(m.mayReply), NormStr(m.text), NormRecipients(m.recipients))
  }

  method Notice(mayReply: int, text: Str) returns (o: seq<Byte>)
    ensures o == FieldsBytes(NoticeFields(mayReply, text))
  {
    var pb := new PutBuffer();
    pb.Gboolean(mayReply);
    pb.String(text);
    o := pb.Finalize();
  }

  lemma StrsNext(f0: seq<Field>, ss: seq<Str>, l: nat)
    requires l < |ss|
    ensures (f0 + StrsFields(ss)[..l]) + [FStr(ss[l])] == f0 + StrsFields(ss)[..l + 1]
  {
    assert StrsFields(ss)[..l] + [FStr(ss[l])] == StrsFields(ss)[..l + 1];
  }

  method PutStrs(b: PutBuffer, ss: seq<Str>)
    requires b.Valid()
    modifies b, b.buf
    ensures b.Valid() && b.fields == old(b.fields) + StrsFields(ss) && (b.buf == old(b.buf) || fresh(b.buf))
  {
    for l := 0 to |ss|
      invariant b.Valid() && b.fields == old(b.fields) + StrsFields(ss)[..l] && (b.buf == old(b.buf) || fresh(b.buf))
    {
      StrsNext(old(b.fields), ss, l);
      b.String(ss[l]);
    }
  }

  // ANNOUNCE_put
  method PutAnnounce(b: PutBuffer, m: Body)
    requires b.Valid() && m.Announce?
    modifies b, b.buf
    ensures b.Valid() && b.fields == old(b.fields) + AnnounceFields(m) && (b.buf == old(b.buf) || fresh(b.buf))
  {
    ghost var f0, l := b.fields, FlaggedLogin(m.senderPresent, m.sender);
    PutFlagged(b, m.senderPresent, m.sender);
    var o := Notice(m.mayReply, m.text);
    PutNotice(b, m.unknownA, o, |m.recipients| % 0x1_0000_0000);
    PutStrs(b, m.recipients);
    ghost var n := NoticeBlock(m.unknownA, o, |m.recipients| % 0x1_0000_0000);
    Regroup(f0 + l, n, StrsFields(m.recipients));
    Regroup(f0, l, n + StrsFields(m.recipients));
  }

  method PutNotice(b: PutBuffer, unknownA: U16, o: seq<Byte>, count: U32)
    requires b.Valid()
    modifies b, b.buf
    ensures b.Valid() && b.fields == old(b.fields) + NoticeBlock(unknownA, o, count) && (b.buf == old(b.buf) || fresh(b.buf))
  {
    b.Guint16(unknownA);
    b.Opaque(o);
    b.Guint32(count);
  }

  // the buffer that ANNOUNCE_get wraps around the opaque
  method ReadNotice(o: seq<Byte>, ghost mayReply: int, ghost text: Str) returns (reply: int, t: Str)
    ensures o == FieldsBytes(NoticeFields(mayReply, text)) && FitsStr(text) ==> reply == NormBool(mayReply) && t == NormStr(text)
  {
    var gb := new GetBuffer(o, NoticeFields(mayReply, text));
    reply := gb.Gboolean();
    t := gb.String();
  }

  // the first n strings have been read, in reverse
  ghost predicate GotSome(rs: seq<Str>, ss: seq<Str>, n: int, start: seq<Field>, coming: seq<Field>) {
    && StrsFields(ss) <= start && |rs| == n <= |ss| && coming == start[n..]
    && forall i :: 0 <= i < n ==> rs[i] == NormStr(ss[n - 1 - i])
  }

  lemma GotNext(rs: seq<Str>, ss: seq<Str>, n: int, start: seq<Field>, coming: seq<Field>)
    requires GotSome(rs, ss, n, start, coming) && n < |ss|
    ensures |coming| > 0 && coming[0] == FStr(ss[n])
    ensures GotSome([NormStr(ss[n])] + rs, ss, n + 1, start, coming[1..])
  {
    assert coming[0] == StrsFields(ss)[n];
    assert coming[1..] == start[n + 1..];
  }

  method GetStrs(b: GetBuffer, count: U32, ghost ss: seq<Str>) returns (rs: seq<Str>)
    requires b.Valid()
    modifies b
    ensures b.Sticky()
    ensures old(b.Ready()) && StrsFields(ss) <= old(b.coming) && count == |ss| ==> rs == NormRecipients(ss) && !b.error
  {
    rs := [];
    var c: int := count;
    ghost var known, start := b.Ready() && StrsFields(ss) <= b.coming && count == |ss|, b.coming;
    while c > 0
      invariant 0 <= c <= count && b.Sticky()
      invariant known ==> b.Ready() && GotSome(rs, ss, count - c, start, b.coming)
    {
      if known {
        GotNext(rs, ss, count - c, start, b.coming);
      }
      var r := b.String();
      rs := [r] + rs;
      c := c - 1;
    }
  }

  method GetNotice(b: GetBuffer, ghost i: U16, ghost o: seq<Byte>, ghost n: U32) returns (unknownA: U16, block: seq<Byte>, count: U32)
    requires b.Valid()
    modifies b
    ensures b.Sticky()
    ensures old(b.Ready()) && NoticeBlock(i, o, n) <= old(b.coming) ==> unknownA == i && block == o && count == n && b.Went(3)
  {
    unknownA := b.Guint16();
    block := b.Opaque();
    count := b.Guint32();
  }

  function AnnounceRest(m: Body): seq<Field>
    requires m.Announce?
  {
    NoticeBlock(m.unknownA, FieldsBytes(NoticeFields(m.mayReply, m.text)), |m.recipients| % 0x1_0000_0000) +
    StrsFields(m.recipients)
  }

  // ANNOUNCE_get
  method GetAnnounce(b: GetBuffer, ghost m: Body) returns (r: Body)
    requires b.Valid() && m.Announce?
    modifies b
    ensures b.Sticky()
    ensures old(b.Ready()) && AnnounceFields(m) <= old(b.coming) && FitsStr(m.text) && |m.recipients| < 0x1_0000_0000 ==>
              r == NormAnnounce(m) && !b.error
  {
    if AnnounceFields(m) <= b.coming {
      PrefixSplit(FlaggedLogin(m.senderPresent, m.sender), AnnounceRest(m), b.coming);
    }
    var present, sender := GetFlagged(b, m.senderPresent, m.sender);
    var unknownA, reply, text, recipients := GetAnnounceRest(b, m);
    r := Announce(present, sender, unknownA, reply, text, recipients);
  }

  method GetAnnounceRest(b: GetBuffer, ghost m: Body) returns (unknownA: U16, reply: int, text: Str, recipients: seq<Str>)
    requires b.Valid() && m.Announce?
    modifies b
    ensures b.Sticky()
    ensures old(b.Ready()) && AnnounceRest(m) <= old(b.coming) && FitsStr(m.text) && |m.recipients| < 0x1_0000_0000 ==>
              unknownA == m.unknownA && reply == NormBool(m.mayReply) && text == NormStr(m.text) &&
              recipients == NormRecipients(m.recipients) && !b.error
  {
    ghost var o := FieldsBytes(NoticeFields(m.mayReply, m.text));
    if AnnounceRest(m) <= b.coming {
      PrefixSplit(NoticeBlock(m.unknownA, o, |m.recipients| % 0x1_0000_0000), StrsFields(m.recipients), b.coming);
    }
    var block, count;
    unknownA, block, count := GetNotice(b, m.unknownA, o, |m.recipients| % 0x1_0000_0000);
    reply, text := ReadNotice(block, m.mayReply, m.text);
    recipients := GetStrs(b, count, m.recipients);
  }

  // ---- whole messages ----

  datatype Message = Message(options: U16, channel: U32, attribs: seq<Byte>, body: Body)

  predicate HasAttribs(options: U16) {
    options / 0x8000 % 2 == 1
  }

  function HeadFields(m: Message): seq<Field> {
    [F16(TypeOf(m.body)), F16(m.options), F32(m.channel)] + if HasAttribs(m.options) then [FOpaque(m.attribs)] else []
  }

  function BodyFields(channel: U32, m: Body): seq<Field> {
    match m
    case Handshake(_, _, _, _, _, _, _, _) => HandshakeFields(channel, m)
    case HandshakeAck(_, _, _, _, _) => HandshakeAckFields(m)
    case Login(_, _, _, _) => LoginMsgFields(m)
    case LoginRedirect(host, serverId) => [FStr(host), FStr(serverId)]
    case LoginContinue => []
    case ChannelCreate(_, _, _, _, _, _, _, _, _, _, _) => CreateFields(m)
    case ChannelDestroy(reason, data) => [F32(reason), FOpaque(data)]
    case ChannelSend(ty, data) => [F16(ty), FOpaque(data)]
    case ChannelAccept(_, _, _, _, _, _, _) => AcceptFields(m)
    case SetUserStatus(status) => StatusFields(status)
    case SetPrivacyList(privacy) => PrivacyFields(privacy)
    case SenseService(service) => [F32(service)]
    case Announce(_, _, _, _, _, _) => AnnounceFields(m)
    case NoPut(_) => []
  }

  function MessageFields(m: Message): seq<Field> {
    HeadFields(m) + BodyFields(m.channel, m.body)
  }

  // what comes back from reading a message that was written
  function NormBody(m: Body): Body {
    match m
    case Handshake(_, _, _, _, _, _, _, _) => NormHandshake(m)
    case HandshakeAck(_, _, _, _, _) => NormHandshakeAck(m)
    case Login(_, _, _, _) => m.(name := NormStr(m.name))
    case LoginRedirect(host, serverId) => LoginRedirect(NormStr(host), NormStr(serverId))
    case ChannelCreate(_, _, _, _, _, _, _, _, _, _, _) => NormCreate(m)
    case ChannelAccept(_, _, _, _, _, _, _) => NormAccept(m)
    case SetUserStatus(status) => SetUserStatus(NormStatus(status))
    case SetPrivacyList(privacy) => SetPrivacyList(NormPrivacy(privacy))
    case Announce(_, _, _, _, _, _) => NormAnnounce(m)
    case _ => m
  }

  function NormMessage(m: Message): Message {
    m.(attribs := if HasAttribs(m.options) then m.attribs else [], body := NormBody(m.body))
  }

  // Every length fits where it is written: 16 bits for a string, 32 for the rest.
  predicate FitsBody(m: Body) {
    match m
    case ChannelCreate(_, _, _, _, _, _, _, _, _, _, _) => FitsInner(OfferInner(m.offer)) && |m.offer.items| < 0x1_0000_0000
    case ChannelAccept(_, _, _, _, _, _, _) =>
      m.acceptance.item.Some? ==> FitsInner(AcceptanceInner(m.acceptance.item.value, m.acceptance))
    case SetPrivacyList(privacy) => |privacy.users| < 0x1_0000_0000
    case Announce(_, _, _, _, text, recipients) => FitsStr(text) && |recipients| < 0x1_0000_0000
    case NoPut(_) => false
    case _ => true
  }

  predicate FitsMessage(m: Message) {
    Fits(MessageFields(m)) && FitsBody(m.body)
  }

  // mwMessageHead_put
  method PutHead(b: PutBuffer, m: Message)
    requires b.Valid()
    modifies b, b.buf
    ensures b.Valid() && b.fields == old(b.fields) + HeadFields(m) && (b.buf == old(b.buf) || fresh(b.buf))
  {
    PutVersion(b, TypeOf(m.body), m.options, m.channel);
    if HasAttribs(m.options) {
      b.Opaque(m.attribs);
    }
  }

  method PutPair(b: PutBuffer, host: Str, serverId: Str)
    requires b.Valid()
    modifies b, b.buf
    ensures b.Valid() && b.fields == old(b.fields) + [FStr(host), FStr(serverId)] && (b.buf == old(b.buf) || fresh(b.buf))
  {
    b.String(host);
    b.String(serverId);
  }

  // CHANNEL_DESTROY_put
  method PutDestroy(b: PutBuffer, reason: U32, data: seq<Byte>)
    requires b.Valid()
    modifies b, b.buf
    ensures b.Valid() && b.fields == old(b.fields) + [F32(reason), FOpaque(data)] && (b.buf == old(b.buf) || fresh(b.buf))
  {
    b.Guint32(reason);
    b.Opaque(data);
  }

  // CHANNEL_SEND_put
  method PutSend(b: PutBuffer, ty: U16, data: seq<Byte>)
    requires b.Valid()
    modifies b, b.buf
    ensures b.Valid() && b.fields == old(b.fields) + [F16(ty), FOpaque(data)] && (b.buf == old(b.buf) || fresh(b.buf))
  {
    b.Guint16(ty);
    b.Opaque(data);
  }

  // the switch of mwMessage_put
  method PutBody(b: PutBuffer, channel: U32, m: Body)
    requires b.Valid()
    modifies b, b.buf
    ensures b.Valid() && b.fields == old(b.fields) + BodyFields(channel, m) && (b.buf == old(b.buf) || fresh(b.buf))
  {
    match m {
      case Handshake(_, _, _, _, _, _, _, _) => PutHandshake(b, channel, m);
      case HandshakeAck(_, _, _, _, _) => PutHandshakeAck(b, m);
      case Login(_, _, _, _) => PutLoginMsg(b, m);
      case LoginRedirect(host, serverId) => PutPair(b, host, serverId);
      case LoginContinue =>
      case ChannelCreate(_, _, _, _, _, _, _, _, _, _, _) => PutCreate(b, m);
      case ChannelDestroy(reason, data) => PutDestroy(b, reason, data);
      case ChannelSend(ty, data) => PutSend(b, ty, data);
      case ChannelAccept(_, _, _, _, _, _, _) => PutAccept(b, m);
      case SetUserStatus(status) => PutStatus(b, status);
      case SetPrivacyList(privacy) => PutPrivacy(b, privacy);
      case SenseService(service) => b.Guint32(service);
      case Announce(_, _, _, _, _, _) => PutAnnounce(b, m);
      case NoPut(_) =>
    }
  }

  // mwMessage_put
  method Put(b: PutBuffer, m: Message)
    requires b.Valid()
    modifies b, b.buf
    ensures b.Valid() && b.fields == old(b.fields) + MessageFields(m) && (b.buf == old(b.buf) || fresh(b.buf))
  {
    PutHead(b, m);
    PutBody(b, m.channel, m.body);
    Regroup(old(b.fields), HeadFields(m), BodyFields(m.channel, m.body));
  }

  // mwMessageHead_get
  method GetHead(b: GetBuffer, ghost m: Message) returns (kind: U16, options: U16, channel: U32, attribs: seq<Byte>)
    requires b.Valid()
    modifies b
    ensures b.Sticky()
    ensures old(b.Ready()) && HeadFields(m) <= old(b.coming) ==>
              kind == TypeOf(m.body) && options == m.options && channel == m.channel &&
              attribs == (if HasAttribs(m.options) then m.attribs else []) && b.Went(|HeadFields(m)|)
  {
    kind, options, channel, attribs := 0, 0, 0, [];
    if b.error {
      return;
    }
    if HeadFields(m) <= b.coming && HasAttribs(m.options) {
      PrefixSplit(VersionFields(TypeOf(m.body), m.options, m.channel), [FOpaque(m.attribs)], b.coming);
    }
    kind, options, channel := GetVersion(b, TypeOf(m.body), m.options, m.channel);
    if HasAttribs(options) {
      attribs := b.Opaque();
    }
  }

  method GetPair(b: GetBuffer, ghost h: Str, ghost s: Str) returns (r: Body)
    requires b.Valid()
    modifies b
    ensures b.Sticky()
    ensures old(b.Ready()) && [FStr(h), FStr(s)] <= old(b.coming) ==> r == LoginRedirect(NormStr(h), NormStr(s)) && !b.error
  {
    var host := b.String();
    var serverId := b.String();
    r := LoginRedirect(host, serverId);
  }

  // CHANNEL_DESTROY_get
  method GetDestroy(b: GetBuffer, ghost n: U32, ghost o: seq<Byte>) returns (r: Body)
    requires b.Valid()
    modifies b
    ensures b.Sticky()
    ensures old(b.Ready()) && [F32(n), FOpaque(o)] <= old(b.coming) ==> r == ChannelDestroy(n, o) && !b.error
  {
    var reason := b.Guint32();
    var data := b.Opaque();
    r := ChannelDestroy(reason, data);
  }

  // CHANNEL_SEND_get
  method GetSend(b: GetBuffer, ghost n: U16, ghost o: seq<Byte>) returns (r: Body)
    requires b.Valid()
    modifies b
    ensures b.Sticky()
    ensures old(b.Ready()) && [F16(n), FOpaque(o)] <= old(b.coming) ==> r == ChannelSend(n, o) && !b.error
  {
    var ty := b.Guint16();
    var data := b.Opaque();
    r := ChannelSend(ty, data);
  }

  // an arbitrary value of the kind a type number stands for, when another is anticipated
  ghost function Wanted(kind: U16, m: Body): Body {
    if TypeOf(m) == kind && !m.NoPut? then m
    else if kind == 0x0000 then Handshake(0, 0, 0, 0, 0, 0, 0, None)
    else if kind == 0x8000 then HandshakeAck(0, 0, 0, 0, [])
    else if kind == 0x0001 then Login(0, None, 0, [])
    else if kind == 0x0002 then
      ChannelCreate(0, 0, IdBlock(None, None), 0, 0, 0, 0, [], 0, NoLogin(), Offer(0, [], 0, 0))
    else if kind == 0x0006 then ChannelAccept(0, 0, 0, [], 0, NoLogin(), Acceptance(0, None, 0, 0))
    else if kind == 0x0022 then Announce(0, NoLogin(), 0, 0, None, [])
    else LoginContinue
  }

  // the switch of mwMessage_get. known is false for a type without a parser; the types
  // that are only received are not parsed here.
  method GetBody(b: GetBuffer, kind: U16, channel: U32, ghost m: Body) returns (known: bool, ch: U32, r: Body)
    requires b.Valid()
    modifies b
    ensures b.Sticky()
    ensures old(b.Ready()) && BodyFields(channel, m) <= old(b.coming) && kind == TypeOf(m) && FitsBody(m) ==>
              known && ch == channel && r == NormBody(m) && !b.error
  {
    known, ch, r := true, channel, NoPut(kind);
    ghost var w := Wanted(kind, m);
    if kind == 0x0000 {
      ch, r := GetHandshake(b, channel, w);
    } else if kind == 0x8000 {
      r := GetHandshakeAck(b, w);
    } else if kind == 0x0001 {
      r := GetLoginMsg(b, w);
    } else if kind == 0x0002 {
      r := GetCreate(b, w);
    } else if kind == 0x0006 {
      r := GetAccept(b, w);
    } else if kind == 0x0022 {
      r := GetAnnounce(b, w);
    } else {
      known, r := GetShort(b, kind, w);
    }
  }

  method GetShort(b: GetBuffer, kind: U16, ghost m: Body) returns (known: bool, r: Body)
    requires b.Valid()
    modifies b
    ensures b.Sticky()
    ensures old(b.Ready()) && BodyFields(0, m) <= old(b.coming) && kind == TypeOf(m) && FitsBody(m) && Short(m) ==>
              known && r == NormBody(m) && !b.error
  {
    known, r := true, NoPut(kind);
    if kind == 0x0018 {
      r := GetPair(b, if m.LoginRedirect? then m.host else None, if m.LoginRedirect? then m.serverId else None);
    } else if kind == 0x0016 {
      r := LoginContinue;
    } else if kind == 0x0003 {
      r := GetDestroy(b, if m.ChannelDestroy? then m.reason else 0, if m.ChannelDestroy? then m.data else []);
    } else if kind == 0x0004 {
      r := GetSend(b, if m.ChannelSend? then m.ty else 0, if m.ChannelSend? then m.data else []);
    } else if kind == 0x0009 {
      var s := GetStatus(b, if m.SetUserStatus? then m.status else UserStatus(0, 0, None));
      r := SetUserStatus(s);
    } else if kind == 0x000b {
      var p := GetPrivacy(b, if m.SetPrivacyList? then m.privacy else PrivacyInfo(0, []));
      r := SetPrivacyList(p);
    } else if kind == 0x0011 {
      var n := b.Guint32();
      r := SenseService(n);
    } else {
      known := kind == 0x8001 || kind == 0x0019;
    }
  }

  predicate Short(m: Body) {
    m.LoginRedirect? || m.LoginContinue? || m.ChannelDestroy? || m.ChannelSend? || m.SetUserStatus? ||
    m.SetPrivacyList? || m.SenseService?
  }

  // mwMessage_get
  method Get(b: GetBuffer, ghost m: Message) returns (r: Option<Message>)
    requires b.Valid()
    modifies b
    ensures b.Sticky()
    ensures old(b.Ready()) && MessageFields(m) <= old(b.coming) && FitsBody(m.body) ==> r == Some(NormMessage(m)) && !b.error
  {
    if MessageFields(m) <= b.coming {
      PrefixSplit(HeadFields(m), BodyFields(m.channel, m.body), b.coming);
    }
    var kind, options, channel, attribs := GetHead(b, m);
    if b.error {
      return None;
    }
    var known, ch, body := GetBody(b, kind, channel, m.body);
    if !known {
      return None;
    }
    r := Some(Message(options, ch, attribs, body));
  }
}
