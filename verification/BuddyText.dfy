/**
  The text form of a buddy list (src/st_list.c): one line for the version, one for each
  group and one for each user.
 */
module BuddyText {
  import opened Options

  // ---- characters and words ----

  // what ends a word for sscanf
  predicate IsSpace(c: char) {
    c == ' ' || c == '\t' || c == '\n' || c == '\r' || c == '\U{0B}' || c == '\U{0C}'
  }

  // what fetch_line skips: g_ascii_isspace does not count the vertical tab
  predicate IsBlank(c: char) {
    IsSpace(c) && c != '\U{0B}'
  }

  predicate IsEnd(c: char) {
    c == '\n' || c == '\r'
  }

  // str_replace
  function Replace(s: string, from: char, to: char): (r: string)
    ensures |r| == |s|
    ensures forall i :: 0 <= i < |s| ==> r[i] == if s[i] == from then to else s[i]
  {
    seq(|s|, i requires 0 <= i < |s| => if s[i] == from then to else s[i])
  }

  function Coded(s: string): string {
    Replace(s, ' ', ';')
  }

  function Decoded(s: string): string {
    Replace(s, ';', ' ')
  }

  // text that survives being written as a word
  predicate Plain(s: string) {
    forall i :: 0 <= i < |s| ==> s[i] != ';' && (IsSpace(s[i]) ==> s[i] == ' ')
  }

  lemma CodedWord(s: string)
    requires Plain(s)
    ensures Decoded(Coded(s)) == s && NoSpace(Coded(s))
  {}

  predicate NoSpace(s: string) {
    forall i :: 0 <= i < |s| ==> !IsSpace(s[i])
  }

  function SkipSpace(s: string): string {
    if s != [] && IsSpace(s[0]) then SkipSpace(s[1..]) else s
  }

  // %s after blanks have been skipped
  function Word(s: string): (w: string)
    ensures w <= s && NoSpace(w)
    ensures |w| < |s| ==> IsSpace(s[|w|])
  {
    if s != [] && !IsSpace(s[0]) then [s[0]] + Word(s[1..]) else []
  }

  function AfterWord(s: string): string {
    s[|Word(s)|..]
  }

  lemma {:induction false} WordIs(w: string, rest: string)
    requires NoSpace(w) && (rest != [] ==> IsSpace(rest[0]))
    ensures Word(w + rest) == w && AfterWord(w + rest) == rest
  {
    if w == [] {
      assert w + rest == rest;
    } else {
      assert (w + rest)[1..] == w[1..] + rest;
      WordIs(w[1..], rest);
    }
  }

  lemma OneSpace(s: string)
    requires s != [] ==> !IsSpace(s[0])
    ensures SkipSpace(" " + s) == s
  {
    assert (" " + s)[1..] == s;
  }

  // a decoded word is plain
  lemma DecodedPlain(w: string)
    requires NoSpace(w)
    ensures Plain(Decoded(w))
  {}

  // ---- searching ----

  predicate ColonsAt(s: string, i: nat) {
    i + 1 < |s| && s[i] == ':' && s[i + 1] == ':'
  }

  // strstr(s, "::"), or the length when there is none
  function FindColons(s: string, from: nat): (i: nat)
    requires from <= |s|
    ensures from <= i <= |s|
    ensures i < |s| ==> ColonsAt(s, i)
    ensures forall j :: from <= j < i ==> !ColonsAt(s, j)
    decreases |s| - from
  {
    if from == |s| || ColonsAt(s, from) then from else FindColons(s, from + 1)
  }

  predicate NoColons(s: string) {
    forall j :: 0 <= j < |s| ==> !ColonsAt(s, j)
  }

  // strrchr(s, ','), or -1
  function LastComma(s: string): (i: int)
    ensures -1 <= i < |s|
    ensures i >= 0 ==> s[i] == ','
    ensures forall j :: i < j < |s| ==> s[j] != ','
  {
    if s == [] then -1 else if s[|s| - 1] == ',' then |s| - 1 else LastComma(s[..|s| - 1])
  }

  // ---- users ----

  datatype UserType = USER_NORMAL | USER_EXTERNAL | USER_UNKNOWN

  datatype User = User(kind: UserType, id: string, community: Option<string>, name: Option<string>, alias: Option<string>)

  function UserTypeToChar(t: UserType): char {
    match t
    case USER_NORMAL => '1'
    case USER_EXTERNAL => '2'
    case USER_UNKNOWN => '9'
  }

  function UserCharToType(c: char): UserType {
    if c == '1' then USER_NORMAL else if c == '2' then USER_EXTERNAL else USER_UNKNOWN
  }

  function Text(s: Option<string>): string {
    if s.Some? then s.value else ""
  }

  // an alias without a name is written as the name
  function ShownName(u: User): Option<string> {
    if u.name.None? then u.alias else u.name
  }

  function ShownAlias(u: User): Option<string> {
    if u.name.None? then None else u.alias
  }

  function IdWord(u: User): string {
    Coded(u.id) + [UserTypeToChar(u.kind)] + "::"
  }

  function NameWord(u: User): string {
    Coded(Text(ShownName(u))) + "," + Coded(Text(ShownAlias(u)))
  }

  // what user_put appends, without the line end
  function UserLine(u: User): string {
    "U " + IdWord(u) + " " + NameWord(u)
  }

  // The type stands before the first "::". One at the very start is left as it is: the C
  // code then writes before its buffer.
  function IdOf(id: string): string {
    var at := FindColons(id, 0);
    if 0 < at < |id| then id[..at - 1] else id
  }

  function KindOf(id: string): UserType {
    var at := FindColons(id, 0);
    UserCharToType(if 0 < at < |id| then id[at - 1] else '1')
  }

  // the alias stands behind the last comma
  function NameOf(name: string): string {
    var comma := LastComma(name);
    if comma >= 0 then name[..comma] else name
  }

  function AliasOf(name: string): Option<string> {
    var comma := LastComma(name);
    if comma >= 0 && comma + 1 < |name| then Some(name[comma + 1..]) else None
  }

  // get_user
  function GetUser(line: string): User
    requires |line| > 0
  {
    var s := SkipSpace(line[1..]);
    var id := Decoded(Word(s));
    var name := Decoded(Word(SkipSpace(AfterWord(s))));
    User(KindOf(id), IdOf(id), None, Some(NameOf(name)), AliasOf(name))
  }

  // what comes back: no community, a name, and no empty alias
  function NormUser(u: User): User {
    User(u.kind, u.id, None, Some(Text(ShownName(u))), if Text(ShownAlias(u)) == "" then None else ShownAlias(u))
  }

  predicate CleanUser(u: User) {
    && Plain(u.id) && NoColons(u.id)
    && (u.name.Some? ==> Plain(u.name.value))
    && (u.alias.Some? ==> Plain(u.alias.value))
    && (u.name.Some? && u.alias.Some? ==> ',' !in u.alias.value)
  }

  // the words of a line of a clean user
  lemma UserFirstWord(u: User)
    requires Plain(u.id)
    ensures var s := SkipSpace(UserLine(u)[1..]);
      Word(s) == IdWord(u) && AfterWord(s) == " " + NameWord(u)
  {
    CodedWord(u.id);
    var rest := " " + NameWord(u);
    assert UserLine(u)[1..] == " " + (IdWord(u) + rest);
    OneSpace(IdWord(u) + rest);
    WordIs(IdWord(u), rest);
  }

  lemma UserSecondWord(u: User)
    requires Plain(Text(ShownName(u))) && Plain(Text(ShownAlias(u)))
    ensures Word(SkipSpace(" " + NameWord(u))) == NameWord(u)
  {
    CodedWord(Text(ShownName(u)));
    CodedWord(Text(ShownAlias(u)));
    OneSpace(NameWord(u));
    WordIs(NameWord(u), "");
    assert NameWord(u) + "" == NameWord(u);
  }

  lemma ColonsFound(id: string, c: char, s: string)
    requires NoColons(id) && c != ':' && s == id + [c] + "::"
    ensures FindColons(s, 0) == |id| + 1
  {
    assert s[|id|] == c && ColonsAt(s, |id| + 1);
    forall j | 0 <= j < |id| + 1 ensures !ColonsAt(s, j) {
      if j + 1 < |id| {
        assert !ColonsAt(id, j) && s[j] == id[j] && s[j + 1] == id[j + 1];
      }
    }
  }

  lemma CommaFound(name: string, alias: string, s: string)
    requires ',' !in alias && s == name + "," + alias
    ensures LastComma(s) == |name| && s[..|name|] == name && s[|name| + 1..] == alias
  {
    assert s[|name|] == ',';
    assert forall j :: |name| < j < |s| ==> s[j] == alias[j - |name| - 1];
  }

  lemma DecodedJoin(a: string, b: string)
    ensures Decoded(a + b) == Decoded(a) + Decoded(b)
  {}

  lemma DecodedIdWord(u: User)
    requires Plain(u.id)
    ensures Decoded(IdWord(u)) == u.id + [UserTypeToChar(u.kind)] + "::"
  {
    CodedWord(u.id);
    DecodedJoin(Coded(u.id) + [UserTypeToChar(u.kind)], "::");
    DecodedJoin(Coded(u.id), [UserTypeToChar(u.kind)]);
  }

  lemma DecodedNameWord(u: User)
    requires Plain(Text(ShownName(u))) && Plain(Text(ShownAlias(u)))
    ensures Decoded(NameWord(u)) == Text(ShownName(u)) + "," + Text(ShownAlias(u))
  {
    CodedWord(Text(ShownName(u)));
    CodedWord(Text(ShownAlias(u)));
    DecodedJoin(Coded(Text(ShownName(u))) + ",", Coded(Text(ShownAlias(u))));
    DecodedJoin(Coded(Text(ShownName(u))), ",");
  }

  // what get_user makes of any line can be written and read again
  lemma IdOfPlain(id: string)
    requires Plain(id)
    ensures Plain(IdOf(id)) && (NoColons(IdOf(id)) || IdOf(id) == id)
  {
    var at := FindColons(id, 0);
    if 0 < at < |id| {
      var r := id[..at - 1];
      forall j | 0 <= j < |r| ensures !ColonsAt(r, j) {
        assert !ColonsAt(id, j);
      }
    }
  }

  lemma NameOfPlain(name: string)
    requires Plain(name)
    ensures Plain(NameOf(name)) && (AliasOf(name).Some? ==> Plain(AliasOf(name).value) && ',' !in AliasOf(name).value)
  {
    var comma := LastComma(name);
    if comma >= 0 && comma + 1 < |name| {
      var a := name[comma + 1..];
      forall i | 0 <= i < |a| ensures a[i] != ',' && a[i] == name[comma + 1 + i] {
      }
    }
  }

  predicate WrittenUser(u: User) {
    && Plain(u.id) && u.name.Some? && Plain(u.name.value)
    && (u.alias.Some? ==> Plain(u.alias.value) && ',' !in u.alias.value)
  }

  lemma GetUserPlain(line: string)
    requires |line| > 0
    ensures var u := GetUser(line);
      WrittenUser(u) && (NoColons(u.id) || u.id == Decoded(Word(SkipSpace(line[1..]))))
  {
    var s := SkipSpace(line[1..]);
    DecodedPlain(Word(s));
    DecodedPlain(Word(SkipSpace(AfterWord(s))));
    IdOfPlain(Decoded(Word(s)));
    NameOfPlain(Decoded(Word(SkipSpace(AfterWord(s)))));
  }

  lemma CleanUserSurvives(u: User)
    requires CleanUser(u)
    ensures GetUser(UserLine(u)) == NormUser(u)
  {
    UserFirstWord(u);
    UserSecondWord(u);
    IdSurvives(u);
    NameSurvives(u);
  }

  lemma IdSurvives(u: User)
    requires Plain(u.id) && NoColons(u.id)
    ensures IdOf(Decoded(IdWord(u))) == u.id && KindOf(Decoded(IdWord(u))) == u.kind
  {
    DecodedIdWord(u);
    var id := Decoded(IdWord(u));
    ColonsFound(u.id, UserTypeToChar(u.kind), id);
    assert id[..|u.id|] == u.id && id[|u.id|] == UserTypeToChar(u.kind);
  }

  lemma NameSurvives(u: User)
    requires CleanUser(u)
    ensures NameOf(Decoded(NameWord(u))) == Text(ShownName(u))
    ensures AliasOf(Decoded(NameWord(u))) == NormUser(u).alias
  {
    DecodedNameWord(u);
    CommaFound(Text(ShownName(u)), Text(ShownAlias(u)), Decoded(NameWord(u)));
  }

  // the normal form keeps every field whose cleanness matters
  lemma NormUserClean(u: User)
    requires WrittenUser(NormUser(u)) && NoColons(u.id)
    ensures CleanUser(u)
  {}

  // A user survives its line exactly when it is clean.
  lemma UserExact(u: User)
    ensures GetUser(UserLine(u)) == NormUser(u) <==> CleanUser(u)
  {
    if CleanUser(u) {
      CleanUserSurvives(u);
    } else if GetUser(UserLine(u)) == NormUser(u) {
      GetUserPlain(UserLine(u));
      UserFirstWord(u);
      if NoColons(u.id) {
        NormUserClean(u);
      }
    }
  }

  // ---- groups ----

  datatype GroupType = GROUP_NORMAL | GROUP_DYNAMIC | GROUP_UNKNOWN

  datatype Group = Group(kind: GroupType, name: string, alias: Option<string>, open: bool, users: seq<User>)

  function GroupTypeToChar(t: GroupType): char {
    match t
    case GROUP_NORMAL => '2'
    case GROUP_DYNAMIC => '3'
    case GROUP_UNKNOWN => '9'
  }

  function GroupCharToType(c: char): GroupType {
    if c == '2' then GROUP_NORMAL else if c == '3' then GROUP_DYNAMIC else GROUP_UNKNOWN
  }

  function ShownGroupAlias(g: Group): string {
    if g.alias.Some? then g.alias.value else g.name
  }

  function GroupWord(g: Group): string {
    Coded(g.name) + [GroupTypeToChar(g.kind)]
  }

  function OpenWord(g: Group): string {
    if g.open then "O" else "C"
  }

  // what group_put appends before the users, without the line end
  function GroupLine(g: Group): string {
    "G " + GroupWord(g) + " " + Coded(ShownGroupAlias(g)) + " " + OpenWord(g)
  }

  // a group from its words; the type is the last character of the first
  function GroupOf(name: string, alias: string, rest: string): Group {
    var kind := if name == "" then '2' else name[|name| - 1];
    Group(GroupCharToType(kind), if name == "" then "" else name[..|name| - 1], Some(alias), rest == "" || rest[0] == 'O', [])
  }

  // what follows the first word
  function GroupTail(line: string): string
    requires |line| > 0
  {
    AfterWord(SkipSpace(line[1..]))
  }

  // get_group
  function GetGroup(line: string): Group
    requires |line| > 0
  {
    var t := SkipSpace(GroupTail(line));
    GroupOf(Decoded(Word(SkipSpace(line[1..]))), Decoded(Word(t)), SkipSpace(AfterWord(t)))
  }

  // the users are read from lines of their own
  function NormGroupHead(g: Group): Group {
    g.(alias := Some(ShownGroupAlias(g)), users := [])
  }

  predicate CleanGroupHead(g: Group) {
    Plain(g.name) && Plain(ShownGroupAlias(g)) && ShownGroupAlias(g) != ""
  }

  lemma GroupLineTail(g: Group, rest: string)
    requires rest == " " + Coded(ShownGroupAlias(g)) + " " + OpenWord(g)
    ensures GroupLine(g)[1..] == " " + (GroupWord(g) + rest)
  {}

  lemma GroupNameWord(g: Group)
    requires Plain(g.name)
    ensures Decoded(Word(SkipSpace(GroupLine(g)[1..]))) == g.name + [GroupTypeToChar(g.kind)]
    ensures GroupTail(GroupLine(g)) == " " + Coded(ShownGroupAlias(g)) + " " + OpenWord(g)
  {
    CodedWord(g.name);
    var rest := " " + Coded(ShownGroupAlias(g)) + " " + OpenWord(g);
    GroupLineTail(g, rest);
    OneSpace(GroupWord(g) + rest);
    WordIs(GroupWord(g), rest);
    DecodedJoin(Coded(g.name), [GroupTypeToChar(g.kind)]);
  }

  lemma GroupAliasWord(g: Group)
    requires CleanGroupHead(g)
    ensures var t := SkipSpace(" " + Coded(ShownGroupAlias(g)) + " " + OpenWord(g));
      && Decoded(Word(t)) == ShownGroupAlias(g) && SkipSpace(AfterWord(t)) == OpenWord(g)
  {
    var a := Coded(ShownGroupAlias(g));
    CodedWord(ShownGroupAlias(g));
    var rest := " " + OpenWord(g);
    assert " " + a + " " + OpenWord(g) == " " + (a + rest);
    OneSpace(a + rest);
    WordIs(a, rest);
    OneSpace(OpenWord(g));
  }

  lemma CleanGroupSurvives(g: Group)
    requires CleanGroupHead(g)
    ensures GetGroup(GroupLine(g)) == NormGroupHead(g)
  {
    GroupNameWord(g);
    GroupAliasWord(g);
    GroupOfWords(g);
  }

  lemma GroupOfWords(g: Group)
    ensures GroupOf(g.name + [GroupTypeToChar(g.kind)], ShownGroupAlias(g), OpenWord(g)) == NormGroupHead(g)
  {
    var w := g.name + [GroupTypeToChar(g.kind)];
    assert w != "" && w[..|w| - 1] == g.name && w[|w| - 1] == GroupTypeToChar(g.kind);
  }

  lemma GetGroupPlain(line: string)
    requires |line| > 0
    ensures Plain(GetGroup(line).name) && GetGroup(line).alias.Some? && Plain(GetGroup(line).alias.value)
    ensures GetGroup(line).users == []
  {
    DecodedPlain(Word(SkipSpace(line[1..])));
    DecodedPlain(Word(SkipSpace(GroupTail(line))));
  }

  // A group survives its line exactly when its name and alias are plain and the alias
  // that is written is not empty.
  lemma GroupExact(g: Group)
    ensures GetGroup(GroupLine(g)) == NormGroupHead(g) <==> CleanGroupHead(g)
  {
    if CleanGroupHead(g) {
      CleanGroupSurvives(g);
    } else if GetGroup(GroupLine(g)) == NormGroupHead(g) {
      GetGroupPlain(GroupLine(g));
      EmptyAliasLost(g);
    }
  }

  lemma EmptyAliasLost(g: Group)
    requires Plain(g.name) && ShownGroupAlias(g) == ""
    ensures GetGroup(GroupLine(g)).alias == Some(Decoded(OpenWord(g)))
  {
    GroupNameWord(g);
    NoEmptyAlias(g);
  }

  // an empty alias is read as the word after it
  lemma NoEmptyAlias(g: Group)
    ensures ShownGroupAlias(g) == "" ==>
      Word(SkipSpace(" " + Coded(ShownGroupAlias(g)) + " " + OpenWord(g))) == OpenWord(g)
  {
    if ShownGroupAlias(g) == "" {
      assert " " + Coded("") + " " + OpenWord(g) == " " + (" " + OpenWord(g));
      assert (" " + (" " + OpenWord(g)))[1..] == " " + OpenWord(g);
      OneSpace(OpenWord(g));
      WordIs(OpenWord(g), "");
      assert OpenWord(g) + "" == OpenWord(g);
    }
  }

  // ---- the lines, character by character ----

  // The user line: spaces become semicolons, the type stands before two colons, and an alias
  // without a name is written as the name.
  lemma UserWritten(u: User)
    ensures var kind := if u.kind == USER_NORMAL then '1' else if u.kind == USER_EXTERNAL then '2' else '9';
      var name := if u.name.Some? then u.name.value else if u.alias.Some? then u.alias.value else "";
      var alias := if u.name.Some? && u.alias.Some? then u.alias.value else "";
      UserLine(u) == "U " + (Replace(u.id, ' ', ';') + [kind] + "::") + " " +
                     (Replace(name, ' ', ';') + "," + Replace(alias, ' ', ';'))
  {}

  // what is read from such a line, whatever its type
  lemma UserRead(id: string, c: char, name: string, alias: string)
    requires NoSpace(id + [c]) && NoSpace(name + "," + alias) && NoColons(id) && c != ':' && ',' !in alias
    ensures var u := GetUser("U " + (id + [c] + "::") + " " + (name + "," + alias));
      && u.kind == (if c == '1' then USER_NORMAL else if c == '2' then USER_EXTERNAL else USER_UNKNOWN)
      && u.id == Replace(id, ';', ' ') && u.community == None && u.name == Some(Replace(name, ';', ' '))
      && u.alias == if alias == "" then None else Some(Replace(alias, ';', ' '))
  {
    var w, n := id + [c] + "::", name + "," + alias;
    TwoWords("U ", w, n);
    IdWordRead(id, c);
    NameWordRead(name, alias);
  }

  lemma IdWordRead(id: string, c: char)
    requires NoColons(id) && c != ':'
    ensures var w := Decoded(id + [c] + "::");
      IdOf(w) == Decoded(id) && KindOf(w) == UserCharToType(if c == ';' then ' ' else c)
  {
    DecodedJoin(id + [c], "::");
    DecodedJoin(id, [c]);
    forall j | 0 <= j < |id| ensures !ColonsAt(Decoded(id), j) {
      assert !ColonsAt(id, j);
    }
    IdRead(Decoded(id), if c == ';' then ' ' else c, Decoded(id + [c] + "::"));
  }

  lemma NameWordRead(name: string, alias: string)
    requires ',' !in alias
    ensures var n := Decoded(name + "," + alias);
      NameOf(n) == Decoded(name) && AliasOf(n) == if alias == "" then None else Some(Decoded(alias))
  {
    DecodedJoin(name + ",", alias);
    DecodedJoin(name, ",");
    CommaFound(Decoded(name), Decoded(alias), Decoded(name + "," + alias));
  }

  lemma IdRead(id: string, c: char, s: string)
    requires NoColons(id) && c != ':' && s == id + [c] + "::"
    ensures IdOf(s) == id && KindOf(s) == UserCharToType(c)
  {
    ColonsFound(id, c, s);
    assert s[..|id|] == id && s[|id|] == c;
  }

  // the first two words of a line
  lemma TwoWords(tag: string, w: string, rest: string)
    requires |tag| == 2 && tag[1] == ' ' && NoSpace(w) && w != "" && rest != "" && !IsSpace(rest[0])
    ensures var s := SkipSpace((tag + w + " " + rest)[1..]);
      Word(s) == w && SkipSpace(AfterWord(s)) == rest
    ensures NoSpace(rest) ==> Word(rest) == rest
  {
    var t := " " + rest;
    LineTail(tag, w, rest, t);
    assert (w + t)[0] == w[0];
    OneSpace(w + t);
    WordIs(w, t);
    OneSpace(rest);
    if NoSpace(rest) {
      WordIs(rest, "");
      assert rest + "" == rest;
    }
  }

  lemma LineTail(tag: string, w: string, rest: string, t: string)
    requires |tag| == 2 && tag[1] == ' ' && t == " " + rest
    ensures (tag + w + " " + rest)[1..] == " " + (w + t)
  {
    assert tag[1..] == " ";
    assert tag + w + " " + rest == tag + (w + t);
    assert (tag + (w + t))[1..] == tag[1..] + (w + t);
  }

  // The group line: the type is the last character of the name, and the alias is the name
  // when there is none.
  lemma GroupWritten(g: Group)
    ensures var kind := if g.kind == GROUP_NORMAL then '2' else if g.kind == GROUP_DYNAMIC then '3' else '9';
      var alias := if g.alias.Some? then g.alias.value else g.name;
      GroupLine(g) == "G " + (Replace(g.name, ' ', ';') + [kind]) + " " + Replace(alias, ' ', ';') + " " +
                      if g.open then "O" else "C"
  {}

  lemma StateRead(alias: string, state: char, rest: string)
    requires NoSpace(alias) && !IsSpace(state) && rest == alias + " " + [state]
    ensures Word(rest) == alias && SkipSpace(AfterWord(rest)) == [state]
  {
    OneSpace([state]);
    assert rest == alias + (" " + [state]);
    WordIs(alias, " " + [state]);
  }

  lemma GroupRead(name: string, c: char, alias: string, state: char)
    requires NoSpace(name + [c]) && NoSpace(alias) && alias != "" && !IsSpace(state)
    ensures var g := GetGroup("G " + (name + [c]) + " " + (alias + " " + [state]));
      && g.kind == (if c == '2' then GROUP_NORMAL else if c == '3' then GROUP_DYNAMIC else GROUP_UNKNOWN)
      && g.name == Replace(name, ';', ' ') && g.alias == Some(Replace(alias, ';', ' ')) && g.users == []
      && (g.open <==> state == 'O')
  {
    var rest := alias + " " + [state];
    TwoWords("G ", name + [c], rest);
    DecodedJoin(name, [c]);
    StateRead(alias, state, rest);
    var w := Decoded(name + [c]);
    assert w[..|w| - 1] == Decoded(name) && w[|w| - 1] == if c == ';' then ' ' else c;
  }

  // without a type the user is a normal one, and without a comma there is no alias
  lemma UserBare(id: string, name: string)
    requires NoSpace(id) && NoSpace(name) && id != "" && name != "" && NoColons(id) && ',' !in name
    ensures var u := GetUser("U " + id + " " + name);
      u == User(USER_NORMAL, Replace(id, ';', ' '), None, Some(Replace(name, ';', ' ')), None)
  {
    TwoWords("U ", id, name);
    forall j | 0 <= j < |id| ensures !ColonsAt(Decoded(id), j) {
      assert !ColonsAt(id, j);
    }
    assert FindColons(Decoded(id), 0) == |id|;
    assert LastComma(Decoded(name)) == -1;
  }

  // a group without a state is open
  lemma GroupBare(name: string, c: char, alias: string)
    requires NoSpace(name + [c]) && NoSpace(alias) && alias != ""
    ensures GetGroup("G " + (name + [c]) + " " + alias).open
  {
    TwoWords("G ", name + [c], alias);
    WordIs(alias, "");
    assert alias + "" == alias;
  }

  // the characters that end a word
  lemma WordEnds(c: char, rest: string)
    ensures Word(['a', c] + rest) == "a" <==>
            c == ' ' || c == '\t' || c == '\n' || c == '\r' || c == '\U{0B}' || c == '\U{0C}'
  {
    assert (['a', c] + rest)[1..] == [c] + rest;
    assert Word(['a', c] + rest) == ['a'] + Word([c] + rest);
    assert ([c] + rest)[0] == c;
  }
}
