/**
  The common structures of the protocol (section 8.2 of the community protocol, in
  src/common.c). A getter is given, as a ghost, the value that it is about to read; its
  contract says what comes back when that value is what the buffer holds.
 */
module Structures {
  import opened Options
  import opened Bytes
  import opened Sequences
  import opened Buffers

  lemma PrefixSplit(a: seq<Field>, b: seq<Field>, s: seq<Field>)
    requires a + b <= s
    ensures a <= s && b <= s[|a|..] && s[|a|..][|b|..] == s[|a + b|..]
  {
    assert forall i :: 0 <= i < |b| ==> s[|a|..][i] == (a + b)[|a| + i];
  }

  // ---- login info ----

  datatype LoginInfo = LoginInfo(
    loginId: Str, kind: U16, userId: Str, userName: Str, community: Str,
    full: int, desc: Str, ipAddr: U32, serverId: Str)

  function NoLogin(): LoginInfo {
    LoginInfo(None, 0, None, None, None, 0, None, 0, None)
  }

  function LoginNames(l: LoginInfo): seq<Field> {
    [FStr(l.loginId), F16(l.kind), FStr(l.userId), FStr(l.userName), FStr(l.community), FBool(l.full)]
  }

  // its first and its second half
  function LoginUser(l: LoginInfo): seq<Field> {
    [FStr(l.loginId), F16(l.kind), FStr(l.userId)]
  }

  function LoginPlace(l: LoginInfo): seq<Field> {
    [FStr(l.userName), FStr(l.community), FBool(l.full)]
  }

  function LoginRest(l: LoginInfo): seq<Field> {
    if l.full != 0 then [FStr(l.desc), F32(l.ipAddr), FStr(l.serverId)] else []
  }

  function LoginFields(l: LoginInfo): seq<Field> {
    LoginNames(l) + LoginRest(l)
  }

  function NormLogin(l: LoginInfo): LoginInfo {
    LoginInfo(NormStr(l.loginId), l.kind, NormStr(l.userId), NormStr(l.userName), NormStr(l.community), NormBool(l.full),
              if l.full != 0 then NormStr(l.desc) else None, if l.full != 0 then l.ipAddr else 0,
              if l.full != 0 then NormStr(l.serverId) else None)
  }

  // mwLoginInfo_put
  method PutLogin(b: PutBuffer, l: LoginInfo)
    requires b.Valid()
    modifies b, b.buf
    ensures b.Valid() && b.fields == old(b.fields) + LoginFields(l) && (b.buf == old(b.buf) || fresh(b.buf))
  {
    PutLoginNames(b, l);
    PutLoginRest(b, l);
    Regroup(old(b.fields), LoginNames(l), LoginRest(l));
  }

  method PutLoginRest(b: PutBuffer, l: LoginInfo)
    requires b.Valid()
    modifies b, b.buf
    ensures b.Valid() && b.fields == old(b.fields) + LoginRest(l) && (b.buf == old(b.buf) || fresh(b.buf))
  {
    if l.full != 0 {
      b.String(l.desc);
      b.Guint32(l.ipAddr);
      b.String(l.serverId);
    }
  }

  method PutLoginNames(b: PutBuffer, l: LoginInfo)
    requires b.Valid()
    modifies b, b.buf
    ensures b.Valid() && b.fields == old(b.fields) + LoginNames(l) && (b.buf == old(b.buf) || fresh(b.buf))
  {
    PutLoginUser(b, l);
    PutLoginPlace(b, l);
    assert LoginNames(l) == LoginUser(l) + LoginPlace(l);
    Regroup(old(b.fields), LoginUser(l), LoginPlace(l));
  }

  method PutLoginPlace(b: PutBuffer, l: LoginInfo)
    requires b.Valid()
    modifies b, b.buf
    ensures b.Valid() && b.fields == old(b.fields) + LoginPlace(l) && (b.buf == old(b.buf) || fresh(b.buf))
  {
    b.String(l.userName);
    b.String(l.community);
    b.Gboolean(l.full);
  }

  method PutLoginUser(b: PutBuffer, l: LoginInfo)
    requires b.Valid()
    modifies b, b.buf
    ensures b.Valid() && (b.buf == old(b.buf) || fresh(b.buf))
    ensures b.fields == old(b.fields) + LoginUser(l)
  {
    b.String(l.loginId);
    b.Guint16(l.kind);
    b.String(l.userId);
  }

  // mwLoginInfo_get
  method GetLogin(b: GetBuffer, ghost l: LoginInfo) returns (r: LoginInfo)
    requires b.Valid()
    modifies b
    ensures b.Sticky()
    ensures old(b.Ready()) && LoginFields(l) <= old(b.coming) ==> r == NormLogin(l) && b.Went(|LoginFields(l)|)
  {
    r := NoLogin();
    if b.error {
      return;
    }
    if LoginFields(l) <= b.coming {
      PrefixSplit(LoginNames(l), LoginRest(l), b.coming);
    }
    r := GetLoginNames(b, l);
    if r.full != 0 {
      var desc := b.String();
      var ipAddr := b.Guint32();
      var serverId := b.String();
      r := r.(desc := desc, ipAddr := ipAddr, serverId := serverId);
    }
  }

  method GetLoginNames(b: GetBuffer, ghost l: LoginInfo) returns (r: LoginInfo)
    requires b.Valid()
    modifies b
    ensures b.Sticky()
    ensures old(b.Ready()) && LoginNames(l) <= old(b.coming) ==>
              r == NormLogin(l.(full := 0)).(full := NormBool(l.full)) && b.Went(|LoginNames(l)|)
  {
    assert LoginNames(l) == LoginUser(l) + LoginPlace(l);
    if LoginNames(l) <= b.coming {
      PrefixSplit(LoginUser(l), LoginPlace(l), b.coming);
    }
    var loginId, kind, userId := GetLoginUser(b, l);
    var userName, community, full := GetLoginPlace(b, l);
    r := LoginInfo(loginId, kind, userId, userName, community, full, None, 0, None);
  }

  method GetLoginUser(b: GetBuffer, ghost l: LoginInfo) returns (loginId: Str, kind: U16, userId: Str)
    requires b.Valid()
    modifies b
    ensures b.Sticky()
    ensures old(b.Ready()) && LoginUser(l) <= old(b.coming) ==>
              loginId == NormStr(l.loginId) && kind == l.kind && userId == NormStr(l.userId) && b.Went(3)
  {
    loginId := b.String();
    kind := b.Guint16();
    userId := b.String();
  }

  method GetLoginPlace(b: GetBuffer, ghost l: LoginInfo) returns (userName: Str, community: Str, full: int)
    requires b.Valid()
    modifies b
    ensures b.Sticky()
    ensures old(b.Ready()) && LoginPlace(l) <= old(b.coming) ==>
              userName == NormStr(l.userName) && community == NormStr(l.community) && full == NormBool(l.full) && b.Went(3)
  {
    userName := b.String();
    community := b.String();
    full := b.Gboolean();
  }

  // ---- privacy ----

  datatype UserItem = UserItem(full: int, id: Str, community: Str, name: Str)

  function UserFields(u: UserItem): seq<Field> {
    [FBool(u.full), FStr(u.id), FStr(u.community)] + if u.full != 0 then [FStr(u.name)] else []
  }

  function NormUser(u: UserItem): UserItem {
    UserItem(NormBool(u.full), NormStr(u.id), NormStr(u.community), if u.full != 0 then NormStr(u.name) else None)
  }

  // mwUserItem_put
  method PutUser(b: PutBuffer, u: UserItem)
    requires b.Valid()
    modifies b, b.buf
    ensures b.Valid() && b.fields == old(b.fields) + UserFields(u) && (b.buf == old(b.buf) || fresh(b.buf))
  {
    PutUserId(b, u);
    if u.full != 0 {
      b.String(u.name);
      Regroup(old(b.fields), [FBool(u.full), FStr(u.id), FStr(u.community)], [FStr(u.name)]);
    }
  }

  method PutUserId(b: PutBuffer, u: UserItem)
    requires b.Valid()
    modifies b, b.buf
    ensures b.Valid() && (b.buf == old(b.buf) || fresh(b.buf))
    ensures b.fields == old(b.fields) + [FBool(u.full), FStr(u.id), FStr(u.community)]
  {
    b.Gboolean(u.full);
    b.String(u.id);
    b.String(u.community);
  }

  // mwUserItem_get
  method GetUser(b: GetBuffer, ghost u: UserItem) returns (r: UserItem)
    requires b.Valid()
    modifies b
    ensures b.Sticky()
    ensures old(b.Ready()) && UserFields(u) <= old(b.coming) ==> r == NormUser(u) && b.Went(|UserFields(u)|)
  {
    r := UserItem(0, None, None, None);
    if b.error {
      return;
    }
    var full := b.Gboolean();
    var id := b.String();
    var community := b.String();
    r := UserItem(full, id, community, None);
    if full != 0 {
      var name := b.String();
      r := r.(name := name);
    }
  }

  datatype PrivacyInfo = PrivacyInfo(deny: int, users: seq<UserItem>)

  // the users are written from the last to the first
  function UsersFields(us: seq<UserItem>): seq<Field> {
    if us == [] then [] else UserFields(us[|us| - 1]) + UsersFields(us[..|us| - 1])
  }

  function PrivacyFields(p: PrivacyInfo): seq<Field> {
    [FBool(p.deny), F32(|p.users| % 0x1_0000_0000)] + UsersFields(p.users)
  }

  function NormUsers(us: seq<UserItem>): seq<UserItem> {
    seq(|us|, i requires 0 <= i < |us| => NormUser(us[i]))
  }

  function NormPrivacy(p: PrivacyInfo): PrivacyInfo {
    PrivacyInfo(NormBool(p.deny), NormUsers(p.users))
  }

  // mwPrivacyInfo_put
  method PutPrivacy(b: PutBuffer, p: PrivacyInfo)
    requires b.Valid()
    modifies b, b.buf
    ensures b.Valid() && b.fields == old(b.fields) + PrivacyFields(p) && (b.buf == old(b.buf) || fresh(b.buf))
  {
    PutPrivacyHead(b, p.deny, |p.users| % 0x1_0000_0000);
    PutUsers(b, p.users);
    Regroup(old(b.fields), [FBool(p.deny), F32(|p.users| % 0x1_0000_0000)], UsersFields(p.users));
  }

  method PutPrivacyHead(b: PutBuffer, deny: int, count: U32)
    requires b.Valid()
    modifies b, b.buf
    ensures b.Valid() && b.fields == old(b.fields) + [FBool(deny), F32(count)] && (b.buf == old(b.buf) || fresh(b.buf))
  {
    b.Gboolean(deny);
    b.Guint32(count);
  }

  // its loop
  method PutUsers(b: PutBuffer, us: seq<UserItem>)
    requires b.Valid()
    modifies b, b.buf
    ensures b.Valid() && b.fields == old(b.fields) + UsersFields(us) && (b.buf == old(b.buf) || fresh(b.buf))
  {
    var c := |us|;
    assert us[..c] == us;
    while c > 0
      invariant c <= |us| && b.Valid() && (b.buf == old(b.buf) || fresh(b.buf))
      invariant b.fields + UsersFields(us[..c]) == old(b.fields) + UsersFields(us)
    {
      c := c - 1;
      UsersLast(us, c);
      Regroup(b.fields, UserFields(us[c]), UsersFields(us[..c]));
      PutUser(b, us[c]);
    }
    assert us[..c] == [];
  }

  lemma UsersLast(us: seq<UserItem>, c: nat)
    requires c < |us|
    ensures UsersFields(us[..c + 1]) == UserFields(us[c]) + UsersFields(us[..c])
  {
    assert us[..c + 1][..c] == us[..c];
  }

  // mwPrivacyInfo_get
  method GetPrivacy(b: GetBuffer, ghost p: PrivacyInfo) returns (r: PrivacyInfo)
    requires b.Valid()
    modifies b
    ensures b.Sticky()
    ensures old(b.Ready()) && PrivacyFields(p) <= old(b.coming) && |p.users| < 0x1_0000_0000 ==>
              r == NormPrivacy(p) && b.Went(|PrivacyFields(p)|)
  {
    r := PrivacyInfo(0, []);
    if b.error {
      return;
    }
    var deny := b.Gboolean();
    var count := b.Guint32();
    var users := GetUsers(b, count, p.users);
    r := PrivacyInfo(deny, users);
  }

  // its loop; the array is filled from the end
  method GetUsers(b: GetBuffer, count: U32, ghost us: seq<UserItem>) returns (users: seq<UserItem>)
    requires b.Valid()
    modifies b
    ensures b.Sticky()
    ensures old(b.Ready()) && UsersFields(us) <= old(b.coming) && count == |us| ==>
              users == NormUsers(us) && b.Went(|UsersFields(us)|)
  {
    users := [];
    var c: int := count;
    ghost var known := b.Ready() && UsersFields(us) <= b.coming && count == |us|;
    ghost var n := |UsersFields(us)|;
    assert known ==> us[..c] == us;
    while c > 0
      invariant 0 <= c <= count && b.Sticky()
      invariant known ==> b.Ready() && users == NormUsers(us)[c..]
      invariant known ==> UsersFields(us[..c]) <= b.coming && b.coming[|UsersFields(us[..c])|..] == old(b.coming)[n..]
    {
      c := c - 1;
      ghost var want := if known then us[c] else UserItem(0, None, None, None);
      ghost var ahead := b.coming;
      if known {
        assert us[..c + 1][..c] == us[..c];
        PrefixSplit(UserFields(want), UsersFields(us[..c]), ahead);
      }
      var u := GetUser(b, want);
      users := [u] + users;
    }
  }

  // ---- status, ids and ciphers ----

  datatype UserStatus = UserStatus(status: U16, time: U32, desc: Str)

  function StatusFields(s: UserStatus): seq<Field> {
    [F16(s.status), F32(s.time), FStr(s.desc)]
  }

  // the time is dropped by the getter
  function NormStatus(s: UserStatus): UserStatus {
    UserStatus(s.status, 0, NormStr(s.desc))
  }

  // mwUserStatus_put
  method PutStatus(b: PutBuffer, s: UserStatus)
    requires b.Valid()
    modifies b, b.buf
    ensures b.Valid() && b.fields == old(b.fields) + StatusFields(s) && (b.buf == old(b.buf) || fresh(b.buf))
  {
    b.Guint16(s.status);
    b.Guint32(s.time);
    b.String(s.desc);
  }

  // mwUserStatus_get
  method GetStatus(b: GetBuffer, ghost s: UserStatus) returns (r: UserStatus)
    requires b.Valid()
    modifies b
    ensures b.Sticky()
    ensures old(b.Ready()) && StatusFields(s) <= old(b.coming) ==> r == NormStatus(s) && b.Went(|StatusFields(s)|)
  {
    r := UserStatus(0, 0, None);
    if b.error {
      return;
    }
    var status := b.Guint16();
    var time := b.Guint32();
    var desc := b.String();
    r := UserStatus(status, time, desc);
    r := r.(time := 0);
  }

  datatype IdBlock = IdBlock(user: Str, community: Str)

  function IdFields(i: IdBlock): seq<Field> {
    [FStr(i.user), FStr(i.community)]
  }

  function NormId(i: IdBlock): IdBlock {
    IdBlock(NormStr(i.user), NormStr(i.community))
  }

  // mwIdBlock_put
  method PutId(b: PutBuffer, i: IdBlock)
    requires b.Valid()
    modifies b, b.buf
    ensures b.Valid() && b.fields == old(b.fields) + IdFields(i) && (b.buf == old(b.buf) || fresh(b.buf))
  {
    b.String(i.user);
    b.String(i.community);
  }

  // mwIdBlock_get
  method GetId(b: GetBuffer, ghost i: IdBlock) returns (r: IdBlock)
    requires b.Valid()
    modifies b
    ensures b.Sticky()
    ensures old(b.Ready()) && IdFields(i) <= old(b.coming) ==> r == NormId(i) && b.Went(|IdFields(i)|)
  {
    r := IdBlock(None, None);
    if b.error {
      return;
    }
    var user := b.String();
    var community := b.String();
    r := IdBlock(user, community);
  }

  datatype EncryptItem = EncryptItem(id: U16, info: seq<Byte>)

  function ItemFields(i: EncryptItem): seq<Field> {
    [F16(i.id), FOpaque(i.info)]
  }

  // mwEncryptItem_put
  method PutItem(b: PutBuffer, i: EncryptItem)
    requires b.Valid()
    modifies b, b.buf
    ensures b.Valid() && b.fields == old(b.fields) + ItemFields(i) && (b.buf == old(b.buf) || fresh(b.buf))
  {
    b.Guint16(i.id);
    b.Opaque(i.info);
  }

  // mwEncryptItem_get
  method GetItem(b: GetBuffer, ghost i: EncryptItem) returns (r: EncryptItem)
    requires b.Valid()
    modifies b
    ensures b.Sticky()
    ensures old(b.Ready()) && ItemFields(i) <= old(b.coming) ==> r == i && b.Went(|ItemFields(i)|)
  {
    r := EncryptItem(0, []);
    if b.error {
      return;
    }
    var id := b.Guint16();
    var info := b.Opaque();
    r := EncryptItem(id, info);
  }
}
