/**
  Storing and loading a whole buddy list (src/st_list.c).
 */
module SametimeLists {
  import opened Options
  import opened Sequences
  import opened BuddyText

  datatype Version = Version(major: nat, minor: nat, micro: nat)

  datatype Content = Content(version: Version, groups: seq<Group>)

  // ---- the version line ----

  function Digit(d: nat): char
    requires d < 10
  {
    ('0' as int + d) as char
  }

  predicate IsDigit(c: char) {
    '0' <= c <= '9'
  }

  // %u on output
  function Decimal(n: nat): (s: string)
    ensures |s| > 0 && forall i :: 0 <= i < |s| ==> IsDigit(s[i])
  {
    if n < 10 then [Digit(n)] else Decimal(n / 10) + [Digit(n % 10)]
  }

  function Number(s: string): nat
    requires forall i :: 0 <= i < |s| ==> IsDigit(s[i])
  {
    if s == [] then 0
    else
      assert IsDigit(s[|s| - 1]);
      10 * Number(s[..|s| - 1]) + (s[|s| - 1] as int - '0' as int)
  }

  lemma {:induction false} NumberDecimal(n: nat)
    ensures Number(Decimal(n)) == n
  {
    if n < 10 {
      assert [Digit(n)][..0] == [];
      assert Number([]) == 0;
    } else {
      NumberDecimal(n / 10);
      var s := Decimal(n / 10);
      assert (s + [Digit(n % 10)])[..|s|] == s;
    }
  }

  // %u on input: the digits at the front
  function Digits(s: string): (d: string)
    ensures d <= s && forall i :: 0 <= i < |d| ==> IsDigit(d[i])
  {
    if s != [] && IsDigit(s[0]) then [s[0]] + Digits(s[1..]) else []
  }

  lemma {:induction false} DigitsOf(d: string, rest: string)
    requires (forall i :: 0 <= i < |d| ==> IsDigit(d[i])) && (rest != [] ==> !IsDigit(rest[0]))
    ensures Digits(d + rest) == d && (d + rest)[|d|..] == rest
  {
    if d == [] {
      assert d + rest == rest;
    } else {
      assert (d + rest)[1..] == d[1..] + rest;
      DigitsOf(d[1..], rest);
    }
  }

  // what sscanf has left behind a number; nothing when the number is missing
  datatype Scan = Scan(value: nat, rest: string, ok: bool)

  function ScanNumber(s: string): Scan {
    var d := Digits(s);
    Scan(Number(d), s[|d|..], d != [])
  }

  function ScanDot(s: string): Scan {
    if s != [] && s[0] == '.' then ScanNumber(s[1..]) else Scan(0, s, false)
  }

  const VERSION: string := "Version="

  // get_version: numbers that are not found stay zero
  function GetVersion(line: string): Version {
    if VERSION <= line then
      var a := ScanNumber(line[|VERSION|..]);
      var b := if a.ok then ScanDot(a.rest) else a.(value := 0);
      var c := if b.ok then ScanDot(b.rest) else b.(value := 0);
      Version(a.value, b.value, c.value)
    else Version(0, 0, 0)
  }

  function VersionLine(v: Version): string {
    VERSION + (Decimal(v.major) + ("." + (Decimal(v.minor) + ("." + (Decimal(v.micro) + "")))))
  }

  lemma ScanDecimal(n: nat, rest: string)
    requires rest != [] ==> !IsDigit(rest[0])
    ensures ScanNumber(Decimal(n) + rest) == Scan(n, rest, true)
    ensures ScanDot("." + (Decimal(n) + rest)) == Scan(n, rest, true)
  {
    NumberDecimal(n);
    DigitsOf(Decimal(n), rest);
    assert ("." + (Decimal(n) + rest))[1..] == Decimal(n) + rest;
  }

  lemma VersionSurvives(v: Version)
    ensures GetVersion(VersionLine(v)) == v
  {
    var r2 := "." + (Decimal(v.micro) + "");
    var r1 := "." + (Decimal(v.minor) + r2);
    assert VersionLine(v)[|VERSION|..] == Decimal(v.major) + r1;
    ScanDecimal(v.major, r1);
    ScanDecimal(v.minor, r2);
    ScanDecimal(v.micro, "");
  }

  // the version line: the numbers are written with the digits '0' to '9', the highest first
  lemma VersionWritten(v: Version)
    ensures VersionLine(v) == "Version=" + (Decimal(v.major) + ("." + (Decimal(v.minor) + ("." + Decimal(v.micro)))))
  {
    assert Decimal(v.micro) + "" == Decimal(v.micro);
  }

  lemma DecimalDigits(n: nat)
    ensures n < 10 ==> Decimal(n) == ["0123456789"[n]]
    ensures n >= 10 ==> Decimal(n) == Decimal(n / 10) + ["0123456789"[n % 10]]
  {
    DigitIs(n % 10);
  }

  lemma DigitIs(d: nat)
    requires d < 10
    ensures Digit(d) == "0123456789"[d]
  {}

  // ---- lines ----

  function SkipBlank(s: string): string {
    if s != [] && IsBlank(s[0]) then SkipBlank(s[1..]) else s
  }

  // the first line end at or behind n, or the end
  function EndFrom(s: string, n: nat): (e: nat)
    requires n <= |s|
    ensures n <= e <= |s|
    ensures e < |s| ==> IsEnd(s[e])
    ensures forall i :: n <= i < e ==> !IsEnd(s[i])
    decreases |s| - n
  {
    if n == |s| || IsEnd(s[n]) then n else EndFrom(s, n + 1)
  }

  // what is skipped before a line, and what ends it
  lemma BlankSkipped(c: char, rest: string)
    requires rest != "" && !IsBlank(rest[0])
    ensures SkipBlank([c] + rest) == rest <==> c == ' ' || c == '\t' || c == '\n' || c == '\r' || c == '\U{0C}'
  {
    assert ([c] + rest)[1..] == rest;
  }

  lemma LineEnds(c: char, rest: string)
    ensures EndFrom(['a', c] + rest, 1) == 1 <==> c == '\n' || c == '\r'
  {}

  lemma SkipBlankShorter(s: string)
    ensures |SkipBlank(s)| <= |s|
  {}

  // fetch_line, over and over
  function ReadLines(s: string): seq<string>
    decreases |s|
  {
    SkipBlankShorter(s);
    var t := SkipBlank(s);
    if t == [] then []
    else
      var e := EndFrom(t, 1);
      [t[..e]] + ReadLines(if e < |t| then t[e + 1..] else [])
  }

  function Joined(lines: seq<string>): string {
    if lines == [] then "" else lines[0] + "\r\n" + Joined(lines[1..])
  }

  // a line that fetch_line gives back
  predicate IsLine(s: string) {
    s != [] && !IsBlank(s[0]) && forall i :: 0 <= i < |s| ==> !IsEnd(s[i])
  }

  lemma EndFound(s: string, rest: string)
    requires IsLine(s)
    ensures var t := s + "\r\n" + rest;
      EndFrom(t, 1) == |s| && t[..|s|] == s && t[|s| + 1..] == "\n" + rest && SkipBlank(t) == t
  {
    var t := s + "\r\n" + rest;
    assert t[|s|] == '\r';
    assert forall i :: 0 <= i < |s| ==> t[i] == s[i];
  }

  lemma SkipNewline(rest: string)
    ensures ReadLines("\n" + rest) == ReadLines(rest)
  {
    assert ("\n" + rest)[1..] == rest;
  }

  lemma {:induction false} ReadJoined(lines: seq<string>)
    requires forall i :: 0 <= i < |lines| ==> IsLine(lines[i])
    ensures ReadLines(Joined(lines)) == lines
  {
    if lines != [] {
      var rest := Joined(lines[1..]);
      EndFound(lines[0], rest);
      SkipNewline(rest);
      ReadJoined(lines[1..]);
    }
  }

  // ---- the lines of a list ----

  function UserLines(us: seq<User>): (ls: seq<string>)
    ensures |ls| == |us| && forall i :: 0 <= i < |us| ==> ls[i] == UserLine(us[i])
  {
    seq(|us|, i requires 0 <= i < |us| => UserLine(us[i]))
  }

  function GroupsLines(gs: seq<Group>): seq<string> {
    if gs == [] then [] else GroupsLines(gs[..|gs| - 1]) + ([GroupLine(gs[|gs| - 1])] + UserLines(gs[|gs| - 1].users))
  }

  function Lines(l: Content): seq<string> {
    [VersionLine(l.version)] + GroupsLines(l.groups)
  }

  // list_store
  function Stored(l: Content): string {
    Joined(Lines(l))
  }

  // the switch of list_get. A user before any group is dropped here; the C code then
  // reads through a null pointer.
  function Apply(l: Content, line: string): Content
    requires |line| > 0
  {
    if line[0] == 'V' then l.(version := GetVersion(line))
    else if line[0] == 'G' then l.(groups := l.groups + [GetGroup(line)])
    else if line[0] == 'U' && l.groups != [] then AddUsers(l, [GetUser(line)])
    else l
  }

  // more users for the last group
  function AddUsers(l: Content, us: seq<User>): Content
    requires l.groups != []
  {
    var last := |l.groups| - 1;
    l.(groups := l.groups[last := l.groups[last].(users := l.groups[last].users + us)])
  }

  predicate NoneEmpty(lines: seq<string>) {
    forall i :: 0 <= i < |lines| ==> lines[i] != []
  }

  function ApplyAll(l: Content, lines: seq<string>): Content
    requires NoneEmpty(lines)
  {
    if lines == [] then l else Apply(ApplyAll(l, lines[..|lines| - 1]), lines[|lines| - 1])
  }

  lemma {:induction false} LinesNotEmpty(s: string)
    ensures NoneEmpty(ReadLines(s))
    decreases |s|
  {
    SkipBlankShorter(s);
    var t := SkipBlank(s);
    if t != [] {
      var e := EndFrom(t, 1);
      LinesNotEmpty(if e < |t| then t[e + 1..] else []);
    }
  }

  // mwSametimeList_new; the numbers are those of the library
  function NewContent(): Content {
    Content(Version(3, 1, 3), [])
  }

  // mwSametimeList_load
  function Loaded(s: string): Content {
    LinesNotEmpty(s);
    ApplyAll(NewContent(), ReadLines(s))
  }

  // an empty text leaves a new list, with the version of the library
  lemma EmptyLoaded()
    ensures Loaded("") == Content(Version(3, 1, 3), [])
  {
    assert ReadLines("") == [];
  }

  // ---- what loading makes of the lines ----

  function Mapped<T, U>(f: T -> U, s: seq<T>): (r: seq<U>)
    ensures |r| == |s| && forall i :: 0 <= i < |s| ==> r[i] == f(s[i])
  {
    seq(|s|, i requires 0 <= i < |s| => f(s[i]))
  }

  lemma MappedLast<T, U>(f: T -> U, s: seq<T>)
    requires s != []
    ensures Mapped(f, s) == Mapped(f, s[..|s| - 1]) + [f(s[|s| - 1])]
  {}

  function UserBack(u: User): User {
    GetUser(UserLine(u))
  }

  function ReadUsers(us: seq<User>): (rs: seq<User>)
    ensures |rs| == |us| && forall i :: 0 <= i < |us| ==> rs[i] == GetUser(UserLine(us[i]))
  {
    Mapped(UserBack, us)
  }

  function ReadGroup(g: Group): Group {
    GetGroup(GroupLine(g)).(users := ReadUsers(g.users))
  }

  function ReadGroups(gs: seq<Group>): (rs: seq<Group>)
    ensures |rs| == |gs| && forall i :: 0 <= i < |gs| ==> rs[i] == ReadGroup(gs[i])
  {
    Mapped(ReadGroup, gs)
  }

  lemma {:induction false} ApplyAppend(l: Content, a: seq<string>, b: seq<string>)
    requires NoneEmpty(a) && NoneEmpty(b)
    ensures NoneEmpty(a + b)
    ensures ApplyAll(l, a + b) == ApplyAll(ApplyAll(l, a), b)
  {
    if b == [] {
      assert a + b == a;
    } else {
      ApplyAppend(l, a, b[..|b| - 1]);
      assert (a + b)[..|a + b| - 1] == a + b[..|b| - 1];
    }
  }

  lemma ApplyUserLine(l: Content, u: User)
    requires l.groups != []
    ensures UserLine(u) != [] && Apply(l, UserLine(u)) == AddUsers(l, [GetUser(UserLine(u))])
  {}

  lemma ApplyGroupLine(l: Content, g: Group)
    ensures GroupLine(g) != [] && Apply(l, GroupLine(g)) == l.(groups := l.groups + [GetGroup(GroupLine(g))])
  {}

  lemma AddUsersMore(l: Content, us: seq<User>, u: User)
    requires l.groups != []
    ensures AddUsers(AddUsers(l, us), [u]) == AddUsers(l, us + [u])
    ensures AddUsers(l, []) == l
  {
    var last := |l.groups| - 1;
    assert (l.groups[last].users + us) + [u] == l.groups[last].users + (us + [u]);
    assert l.groups[last].users + [] == l.groups[last].users;
    assert l.groups[last := l.groups[last]] == l.groups;
  }

  lemma ApplyLast(l: Content, lines: seq<string>, m: Content)
    requires lines != [] && NoneEmpty(lines) && ApplyAll(l, lines[..|lines| - 1]) == m
    ensures ApplyAll(l, lines) == Apply(m, lines[|lines| - 1])
  {}

  lemma ReadUsersLast(us: seq<User>)
    requires us != []
    ensures ReadUsers(us) == ReadUsers(us[..|us| - 1]) + [GetUser(UserLine(us[|us| - 1]))]
  {
    MappedLast(UserBack, us);
  }

  lemma {:induction false} ApplyUsers(l: Content, us: seq<User>)
    requires l.groups != []
    ensures ApplyAll(l, UserLines(us)) == AddUsers(l, ReadUsers(us))
    decreases |us|
  {
    if us == [] {
      AddUsersMore(l, [], User(USER_NORMAL, "", None, None, None));
    } else {
      var but, u := us[..|us| - 1], us[|us| - 1];
      ApplyUsers(l, but);
      assert UserLines(us)[..|us| - 1] == UserLines(but);
      ApplyLast(l, UserLines(us), AddUsers(l, ReadUsers(but)));
      ApplyUserLine(AddUsers(l, ReadUsers(but)), u);
      AddUsersMore(l, ReadUsers(but), GetUser(UserLine(u)));
      ReadUsersLast(us);
    }
  }

  lemma ApplyGroup(l: Content, g: Group)
    ensures ApplyAll(l, [GroupLine(g)] + UserLines(g.users)) == l.(groups := l.groups + [ReadGroup(g)])
  {
    var bare := GetGroup(GroupLine(g));
    var m := l.(groups := l.groups + [bare]);
    ApplyGroupHead(l, g);
    GetGroupPlain(GroupLine(g));
    ApplyUsers(m, g.users);
    UsersOfBare(l.groups, bare, ReadUsers(g.users));
    ApplyBoth(l, [GroupLine(g)], UserLines(g.users), m, l.(groups := l.groups + [ReadGroup(g)]));
  }

  lemma ApplyGroupHead(l: Content, g: Group)
    ensures NoneEmpty([GroupLine(g)])
    ensures ApplyAll(l, [GroupLine(g)]) == l.(groups := l.groups + [GetGroup(GroupLine(g))])
  {
    ApplyGroupLine(l, g);
    assert [GroupLine(g)][..0] == [] && ApplyAll(l, []) == l;
    ApplyLast(l, [GroupLine(g)], l);
  }

  lemma UsersOfBare(gs: seq<Group>, bare: Group, us: seq<User>)
    requires bare.users == []
    ensures (gs + [bare])[|gs| := bare.(users := bare.users + us)] == gs + [bare.(users := us)]
  {
    assert [] + us == us;
  }

  lemma {:induction false} GroupsLinesNotEmpty(gs: seq<Group>)
    ensures NoneEmpty(GroupsLines(gs))
  {
    if gs != [] {
      GroupsLinesNotEmpty(gs[..|gs| - 1]);
    }
  }

  lemma GroupLinesNotEmpty(g: Group)
    ensures NoneEmpty([GroupLine(g)] + UserLines(g.users))
  {}

  lemma ReadGroupsLast(gs: seq<Group>)
    requires gs != []
    ensures ReadGroups(gs) == ReadGroups(gs[..|gs| - 1]) + [ReadGroup(gs[|gs| - 1])]
  {
    MappedLast(ReadGroup, gs);
  }

  lemma ApplyBoth(l: Content, a: seq<string>, b: seq<string>, m: Content, r: Content)
    requires NoneEmpty(a) && NoneEmpty(b)
    requires ApplyAll(l, a) == m && ApplyAll(m, b) == r
    ensures NoneEmpty(a + b)
    ensures ApplyAll(l, a + b) == r
  {
    ApplyAppend(l, a, b);
  }

  lemma {:induction false} ApplyGroups(l: Content, gs: seq<Group>)
    ensures NoneEmpty(GroupsLines(gs))
    ensures ApplyAll(l, GroupsLines(gs)) == WithGroups(l, ReadGroups(gs))
  {
    GroupsLinesNotEmpty(gs);
    if gs == [] {
      assert l.groups + [] == l.groups;
    } else {
      ApplyGroups(l, gs[..|gs| - 1]);
      ApplyLastGroup(l, gs);
    }
  }

  function WithGroups(l: Content, gs: seq<Group>): Content {
    l.(groups := l.groups + gs)
  }

  lemma ApplyLastGroup(l: Content, gs: seq<Group>)
    requires gs != []
    requires NoneEmpty(GroupsLines(gs[..|gs| - 1]))
    requires ApplyAll(l, GroupsLines(gs[..|gs| - 1])) == WithGroups(l, ReadGroups(gs[..|gs| - 1]))
    ensures NoneEmpty(GroupsLines(gs))
    ensures ApplyAll(l, GroupsLines(gs)) == WithGroups(l, ReadGroups(gs))
  {
    var but, g := gs[..|gs| - 1], gs[|gs| - 1];
    var b := [GroupLine(g)] + UserLines(g.users);
    GroupLinesNotEmpty(g);
    ApplyGroup(WithGroups(l, ReadGroups(but)), g);
    ReadGroupsLast(gs);
    MoreGroups(l, ReadGroups(but), ReadGroup(g));
    ApplyBoth(l, GroupsLines(but), b, WithGroups(l, ReadGroups(but)), WithGroups(l, ReadGroups(gs)));
  }

  lemma MoreGroups(l: Content, gs: seq<Group>, g: Group)
    ensures WithGroups(l, gs).(groups := WithGroups(l, gs).groups + [g]) == WithGroups(l, gs + [g])
  {
    assert (l.groups + gs) + [g] == l.groups + (gs + [g]);
  }

  // each line is read by itself when no field breaks it
  predicate OneLine(s: string) {
    forall i :: 0 <= i < |s| ==> !IsEnd(s[i])
  }

  predicate OneLineEach(gs: seq<Group>) {
    forall i :: 0 <= i < |gs| ==>
      OneLine(GroupLine(gs[i])) && forall j :: 0 <= j < |gs[i].users| ==> OneLine(UserLine(gs[i].users[j]))
  }

  lemma {:induction false} GroupsAreLines(gs: seq<Group>)
    requires OneLineEach(gs)
    ensures forall i :: 0 <= i < |GroupsLines(gs)| ==> IsLine(GroupsLines(gs)[i])
  {
    if gs != [] {
      GroupsAreLines(gs[..|gs| - 1]);
    }
  }

  lemma VersionIsLine(v: Version)
    ensures IsLine(VersionLine(v))
  {}

  lemma LinesAreLines(l: Content)
    requires OneLineEach(l.groups)
    ensures forall i :: 0 <= i < |Lines(l)| ==> IsLine(Lines(l)[i])
  {
    GroupsAreLines(l.groups);
    VersionIsLine(l.version);
  }

  lemma VersionApplied(v: Version)
    ensures NoneEmpty([VersionLine(v)]) && ApplyAll(NewContent(), [VersionLine(v)]) == Content(v, [])
  {
    VersionSurvives(v);
    assert [VersionLine(v)][..0] == [];
    assert ApplyAll(NewContent(), []) == NewContent();
    ApplyLast(NewContent(), [VersionLine(v)], NewContent());
  }

  lemma LoadStored(l: Content)
    requires OneLineEach(l.groups)
    ensures Loaded(Stored(l)) == Content(l.version, ReadGroups(l.groups))
  {
    LinesAreLines(l);
    ReadJoined(Lines(l));
    VersionApplied(l.version);
    ApplyGroups(Content(l.version, []), l.groups);
    assert [] + ReadGroups(l.groups) == ReadGroups(l.groups);
    ApplyBoth(NewContent(), [VersionLine(l.version)], GroupsLines(l.groups), Content(l.version, []),
              Content(l.version, ReadGroups(l.groups)));
    LinesNotEmpty(Stored(l));
  }

  // ---- the round trip ----

  function NormUsers(us: seq<User>): (rs: seq<User>)
    ensures |rs| == |us| && forall i :: 0 <= i < |us| ==> rs[i] == NormUser(us[i])
  {
    seq(|us|, i requires 0 <= i < |us| => NormUser(us[i]))
  }

  function NormGroup(g: Group): Group {
    NormGroupHead(g).(users := NormUsers(g.users))
  }

  function NormGroups(gs: seq<Group>): (rs: seq<Group>)
    ensures |rs| == |gs| && forall i :: 0 <= i < |gs| ==> rs[i] == NormGroup(gs[i])
  {
    seq(|gs|, i requires 0 <= i < |gs| => NormGroup(gs[i]))
  }

  function Norm(l: Content): Content {
    l.(groups := NormGroups(l.groups))
  }

  predicate CleanGroup(g: Group) {
    CleanGroupHead(g) && forall j :: 0 <= j < |g.users| ==> CleanUser(g.users[j])
  }

  predicate Clean(l: Content) {
    forall i :: 0 <= i < |l.groups| ==> CleanGroup(l.groups[i])
  }

  // every group and user that is loaded has plain fields
  predicate PlainGroup(g: Group) {
    && Plain(g.name) && g.alias.Some? && Plain(g.alias.value)
    && forall j :: 0 <= j < |g.users| ==> WrittenUser(g.users[j])
  }

  predicate PlainGroups(gs: seq<Group>) {
    forall i :: 0 <= i < |gs| ==> PlainGroup(gs[i])
  }

  lemma ApplyPlain(l: Content, line: string)
    requires |line| > 0 && PlainGroups(l.groups)
    ensures PlainGroups(Apply(l, line).groups)
  {
    if line[0] == 'G' {
      GetGroupPlain(line);
      PlainGroupsMore(l.groups, GetGroup(line));
    } else if line[0] == 'U' && l.groups != [] {
      GetUserPlain(line);
      PlainUsersMore(l, GetUser(line));
    }
  }

  lemma PlainGroupsMore(gs: seq<Group>, g: Group)
    requires PlainGroups(gs) && PlainGroup(g)
    ensures PlainGroups(gs + [g])
  {}

  lemma PlainUsersMore(l: Content, u: User)
    requires PlainGroups(l.groups) && l.groups != [] && WrittenUser(u)
    ensures PlainGroups(AddUsers(l, [u]).groups)
  {
    assert PlainGroup(l.groups[|l.groups| - 1]);
  }

  lemma {:induction false} LoadedPlain(l: Content, lines: seq<string>)
    requires NoneEmpty(lines)
    requires PlainGroups(l.groups)
    ensures PlainGroups(ApplyAll(l, lines).groups)
  {
    if lines != [] {
      LoadedPlain(l, lines[..|lines| - 1]);
      var m := ApplyAll(l, lines[..|lines| - 1]);
      ApplyLast(l, lines, m);
      ApplyPlain(m, lines[|lines| - 1]);
    }
  }

  // plain fields make single lines
  lemma PlainOneLine(g: Group)
    requires PlainGroup(NormGroup(g))
    ensures OneLine(GroupLine(g)) && forall j :: 0 <= j < |g.users| ==> OneLine(UserLine(g.users[j]))
  {
    CodedOneLine(g.name);
    CodedOneLine(ShownGroupAlias(g));
    forall j | 0 <= j < |g.users| ensures OneLine(UserLine(g.users[j])) {
      assert WrittenUser(NormUser(g.users[j]));
      PlainUserLine(g.users[j]);
    }
  }

  lemma CodedOneLine(s: string)
    requires Plain(s)
    ensures OneLine(Coded(s))
  {}

  lemma PlainUserLine(u: User)
    requires WrittenUser(NormUser(u))
    ensures OneLine(UserLine(u))
  {
    CodedOneLine(u.id);
    CodedOneLine(Text(ShownName(u)));
    CodedOneLine(Text(ShownAlias(u)));
  }

  lemma CleanIsPlain(g: Group)
    requires CleanGroup(g)
    ensures PlainGroup(NormGroup(g))
  {
    forall j | 0 <= j < |g.users| ensures WrittenUser(NormUser(g.users[j])) {
      assert CleanUser(g.users[j]);
    }
  }

  lemma GroupReadExact(g: Group)
    ensures ReadGroup(g) == NormGroup(g) <==> CleanGroup(g)
  {
    GroupExact(g);
    GetGroupPlain(GroupLine(g));
    forall j | 0 <= j < |g.users|
      ensures ReadUsers(g.users)[j] == NormUsers(g.users)[j] <==> CleanUser(g.users[j])
    {
      UserExact(g.users[j]);
    }
    if CleanGroup(g) {
      assert ReadUsers(g.users) == NormUsers(g.users);
    }
    if ReadGroup(g) == NormGroup(g) {
      assert ReadUsers(g.users) == NormUsers(g.users);
      assert GetGroup(GroupLine(g)) == ReadGroup(g).(users := []) == NormGroupHead(g);
    }
  }

  // A list comes back from its stored form, up to the normal form, exactly when all its
  // groups and users are clean.
  lemma RoundTripExact(l: Content)
    ensures Loaded(Stored(l)) == Norm(l) <==> Clean(l)
  {
    if Clean(l) {
      forall i | 0 <= i < |l.groups| ensures PlainGroup(NormGroup(l.groups[i])) {
        CleanIsPlain(l.groups[i]);
      }
      ReadExact(l);
    } else if Loaded(Stored(l)) == Norm(l) {
      LinesNotEmpty(Stored(l));
      LoadedPlain(NewContent(), ReadLines(Stored(l)));
      forall i | 0 <= i < |l.groups| ensures PlainGroup(NormGroup(l.groups[i])) {
        assert PlainGroup(NormGroups(l.groups)[i]);
      }
      ReadExact(l);
    }
  }

  // with plain fields, reading is exact group by group
  lemma ReadExact(l: Content)
    requires forall i :: 0 <= i < |l.groups| ==> PlainGroup(NormGroup(l.groups[i]))
    ensures Loaded(Stored(l)) == Norm(l) <==> Clean(l)
  {
    forall i | 0 <= i < |l.groups|
      ensures OneLine(GroupLine(l.groups[i]))
      ensures forall j :: 0 <= j < |l.groups[i].users| ==> OneLine(UserLine(l.groups[i].users[j]))
    {
      PlainOneLine(l.groups[i]);
    }
    LoadStored(l);
    forall i | 0 <= i < |l.groups|
      ensures ReadGroups(l.groups)[i] == NormGroups(l.groups)[i] <==> CleanGroup(l.groups[i])
    {
      GroupReadExact(l.groups[i]);
    }
    if Clean(l) {
      assert ReadGroups(l.groups) == NormGroups(l.groups);
    }
  }

  // ---- the normal form is stored alike ----

  lemma NormGroupLines(g: Group)
    ensures GroupLine(NormGroup(g)) == GroupLine(g) && UserLines(NormGroup(g).users) == UserLines(g.users)
  {}

  lemma {:induction false} NormLines(gs: seq<Group>)
    ensures GroupsLines(NormGroups(gs)) == GroupsLines(gs)
  {
    if gs != [] {
      var but, g := gs[..|gs| - 1], gs[|gs| - 1];
      NormLines(but);
      assert NormGroups(gs)[..|gs| - 1] == NormGroups(but);
      NormGroupLines(g);
    }
  }

  // For every list, storing its normal form gives the same text; so what is loaded from
  // a stored clean list is stored as the same text again.
  lemma StoreAgain(l: Content)
    ensures Stored(Norm(l)) == Stored(l)
    ensures Clean(l) ==> Stored(Loaded(Stored(l))) == Stored(l)
  {
    NormLines(l.groups);
    RoundTripExact(l);
  }

  // ---- the routines ----

  // str_replace, in place
  method StrReplace(str: array<char>, from: char, to: char)
    modifies str
    ensures str[..] == Replace(old(str[..]), from, to)
  {
    for i := 0 to str.Length
      invariant forall k :: 0 <= k < i ==> str[k] == if old(str[k]) == from then to else old(str[k])
      invariant forall k :: i <= k < str.Length ==> str[k] == old(str[k])
    {
      if str[i] == from {
        str[i] := to;
      }
    }
  }

  // g_strdup with the replacement that follows it
  method Replaced(s: string, from: char, to: char) returns (r: string)
    ensures r == Replace(s, from, to)
  {
    var a := new char[|s|](i requires 0 <= i < |s| => s[i]);
    assert a[..] == s;
    StrReplace(a, from, to);
    r := a[..];
  }

  // user_put
  method UserPut(str: string, u: User) returns (r: string)
    ensures r == str + (UserLine(u) + "\r\n")
  {
    var id := Replaced(u.id, ' ', ';');
    var name, alias := u.name, u.alias;
    if name.None? && alias.Some? {
      name := alias;
      alias := None;
    }
    var n := Replaced(Text(name), ' ', ';');
    var a := Replaced(Text(alias), ' ', ';');
    r := str + ("U " + (id + [UserTypeToChar(u.kind)] + "::") + " " + (n + "," + a) + "\r\n");
  }

  // group_put
  method GroupPut(str: string, g: Group) returns (r: string)
    ensures r == str + Joined([GroupLine(g)] + UserLines(g.users))
  {
    var name := Replaced(g.name, ' ', ';');
    var alias := Replaced(if g.alias.Some? then g.alias.value else g.name, ' ', ';');
    r := str + ("G " + (name + [GroupTypeToChar(g.kind)]) + " " + alias + " " + (if g.open then "O" else "C") + "\r\n");
    JoinedOne(GroupLine(g));
    r := UsersPut(r, g.users);
    JoinedAppend([GroupLine(g)], UserLines(g.users));
    Regroup(str, Joined([GroupLine(g)]), Joined(UserLines(g.users)));
  }

  lemma JoinedOne(line: string)
    ensures Joined([line]) == line + "\r\n"
  {
    assert [line][1..] == [];
  }

  lemma {:induction false} JoinedAppend(a: seq<string>, b: seq<string>)
    ensures Joined(a + b) == Joined(a) + Joined(b)
  {
    if a == [] {
      assert a + b == b;
    } else {
      assert (a + b)[1..] == a[1..] + b;
      JoinedAppend(a[1..], b);
      Regroup(a[0] + "\r\n", Joined(a[1..]), Joined(b));
    }
  }

  // The stored text begins with the line of the version, and grows at its end by the line of
  // a group, or of a user of the last group, each with its line end.
  lemma VersionStored(v: Version)
    ensures Stored(Content(v, [])) == VersionLine(v) + "\r\n"
  {
    JoinedOne(VersionLine(v));
    assert Lines(Content(v, [])) == [VersionLine(v)];
  }

  lemma GroupStored(v: Version, gs: seq<Group>, g: Group)
    requires g.users == []
    ensures Stored(Content(v, gs + [g])) == Stored(Content(v, gs)) + (GroupLine(g) + "\r\n")
  {
    LinesOf(v, gs, g);
    assert [GroupLine(g)] + UserLines([]) == [GroupLine(g)];
    LineMore(Content(v, gs), Content(v, gs + [g]), GroupLine(g));
  }

  lemma UserStored(v: Version, gs: seq<Group>, g: Group, h: Group, u: User)
    requires h == g.(users := g.users + [u])
    ensures Stored(Content(v, gs + [h])) == Stored(Content(v, gs + [g])) + (UserLine(u) + "\r\n")
  {
    var l := Lines(Content(v, gs));
    LinesOf(v, gs, g);
    LinesOf(v, gs, h);
    assert UserLines(h.users) == UserLines(g.users) + [UserLine(u)];
    assert l + ([GroupLine(g)] + UserLines(h.users)) == (l + ([GroupLine(g)] + UserLines(g.users))) + [UserLine(u)];
    assert GroupLine(h) == GroupLine(g);
    LineMore(Content(v, gs + [g]), Content(v, gs + [h]), UserLine(u));
  }

  lemma LinesOf(v: Version, gs: seq<Group>, g: Group)
    ensures Lines(Content(v, gs + [g])) == Lines(Content(v, gs)) + ([GroupLine(g)] + UserLines(g.users))
  {
    assert (gs + [g])[..|gs|] == gs;
    Regroup([VersionLine(v)], GroupsLines(gs), [GroupLine(g)] + UserLines(g.users));
  }

  lemma LineMore(l: Content, m: Content, line: string)
    requires Lines(m) == Lines(l) + [line]
    ensures Stored(m) == Stored(l) + (line + "\r\n")
  {
    JoinedAppend(Lines(l), [line]);
    JoinedOne(line);
  }

  // the loop of group_put over the users
  method UsersPut(str: string, us: seq<User>) returns (r: string)
    ensures r == str + Joined(UserLines(us))
  {
    r := str;
    for i := 0 to |us|
      invariant r == str + Joined(UserLines(us)[..i])
    {
      r := UserPut(r, us[i]);
      var ls := UserLines(us);
      assert ls[..i + 1] == ls[..i] + [UserLine(us[i])];
      JoinedAppend(ls[..i], [UserLine(us[i])]);
      JoinedOne(UserLine(us[i]));
      Regroup(str, Joined(ls[..i]), UserLine(us[i]) + "\r\n");
    }
    assert UserLines(us)[..|us|] == UserLines(us);
  }

  // get_user. The searches are those of strstr and strrchr on the decoded words.
  method ReadUser(line: string) returns (u: User)
    requires |line| > 0
    ensures u == GetUser(line)
  {
    var s := SkipSpace(line[1..]);
    var id := Replaced(Word(s), ';', ' ');
    var name := Replaced(Word(SkipSpace(AfterWord(s))), ';', ' ');
    var kind, alias;
    kind, id := TakeKind(id);
    name, alias := TakeAlias(name);
    u := User(UserCharToType(kind), id, None, Some(name), alias);
  }

  // its two middle parts: the type behind the id, and the alias behind the name
  method TakeKind(word: string) returns (kind: char, id: string)
    ensures UserCharToType(kind) == KindOf(word) && id == IdOf(word)
  {
    kind, id := '1', word;
    var tmp := FindColons(id, 0);
    if 0 < tmp < |id| {
      kind := id[tmp - 1];
      id := id[..tmp - 1];
    }
  }

  method TakeAlias(word: string) returns (name: string, alias: Option<string>)
    ensures name == NameOf(word) && alias == AliasOf(word)
  {
    name, alias := word, None;
    var comma := LastComma(name);
    if comma >= 0 {
      if comma + 1 < |name| {
        alias := Some(name[comma + 1..]);
      }
      name := name[..comma];
    }
  }

  // get_group
  method ReadGroupLine(line: string) returns (g: Group)
    requires |line| > 0
    ensures g == GetGroup(line)
  {
    var kind := '2';
    var s := SkipSpace(line[1..]);
    var t := SkipSpace(AfterWord(s));
    var rest := SkipSpace(AfterWord(t));
    var open := if rest == "" then 'O' else rest[0];
    var name := Replaced(Word(s), ';', ' ');
    var alias := Replaced(Word(t), ';', ' ');
    if |name| > 0 {
      var l := |name| - 1;
      kind := name[l];
      name := name[..l];
    }
    g := Group(GroupCharToType(kind), name, Some(alias), open == 'O', []);
  }

  // the next line, and what follows its end
  ghost predicate Fetched(str: string, line: Option<string>, rest: string) {
    var t := SkipBlank(str);
    if t == [] then line.None?
    else var e := EndFrom(t, 1); line == Some(t[..e]) && rest == if e < |t| then t[e + 1..] else []
  }

  // fetch_line
  method FetchLine(str: string) returns (line: Option<string>, rest: string)
    ensures Fetched(str, line, rest)
  {
    rest := "";
    var start := 0;
    while start < |str| && IsBlank(str[start])
      invariant start <= |str| && SkipBlank(str[start..]) == SkipBlank(str)
    {
      assert str[start..][1..] == str[start + 1..];
      start := start + 1;
    }
    if start == |str| {
      return None, rest;
    }
    var t := str[start..];
    var end := 1;
    while end < |t| && !IsEnd(t[end])
      invariant 1 <= end <= |t| && EndFrom(t, end) == EndFrom(t, 1)
    {
      end := end + 1;
    }
    line := Some(t[..end]);
    if end < |t| {
      rest := t[end + 1..];
    }
  }

  // a buddy list, as the functions of the library change it
  class SametimeList {
    var version: Version
    var groups: seq<Group>

    ghost function View(): Content
      reads this
    {
      Content(version, groups)
    }

    // mwSametimeList_new
    constructor ()
      ensures View() == NewContent()
    {
      version, groups := Version(3, 1, 3), [];
    }

    // mwSametimeList_store
    method Store() returns (str: string)
      ensures str == Stored(View())
    {
      str := VersionLine(version) + "\r\n";
      JoinedOne(VersionLine(version));
      for i := 0 to |groups|
        invariant str == Joined([VersionLine(version)] + GroupsLines(groups[..i]))
      {
        StoredNext(version, groups, i);
        str := GroupPut(str, groups[i]);
      }
      assert groups[..|groups|] == groups;
    }

    // the body of the loop of list_get
    method Line(line: string)
      requires |line| > 0
      modifies this
      ensures View() == Apply(old(View()), line)
    {
      if line[0] == 'V' {
        version := GetVersion(line);
      } else if line[0] == 'G' {
        var g := ReadGroupLine(line);
        groups := groups + [g];
      } else if line[0] == 'U' && |groups| > 0 {
        var u := ReadUser(line);
        var last := |groups| - 1;
        groups := groups[last := groups[last].(users := groups[last].users + [u])];
      }
    }

    // list_get
    method Get(lines: string)
      modifies this
      ensures NoneEmpty(ReadLines(lines)) && View() == ApplyAll(old(View()), ReadLines(lines))
    {
      ghost var was, done: seq<string> := View(), [];
      var line, s := FetchLine(lines);
      ReadingStart(was, lines, line, s);
      while line.Some?
        invariant Reading(was, lines, done, line, s, View())
        decreases line.Some?, |s|
      {
        ghost var now, at, before := View(), line, s;
        Line(line.value);
        line, s := FetchLine(s);
        ReadingStep(was, lines, done, at, before, now, line, s);
        done := done + [at.value];
      }
      assert done + [] == done;
    }
  }

  // the loop of list_get: the lines before this one have been applied
  ghost predicate Reading(was: Content, all: string, done: seq<string>, line: Option<string>, s: string, now: Content) {
    && NoneEmpty(done) && now == ApplyAll(was, done) && (line.Some? ==> line.value != [])
    && ReadLines(all) == done + (if line.Some? then [line.value] + ReadLines(s) else [])
  }

  lemma ReadingStart(was: Content, all: string, line: Option<string>, s: string)
    requires Fetched(all, line, s)
    ensures Reading(was, all, [], line, s, was)
  {
    FetchedLines(all, line, s);
  }

  lemma FetchedLines(all: string, line: Option<string>, s: string)
    requires Fetched(all, line, s)
    ensures ReadLines(all) == if line.Some? then [line.value] + ReadLines(s) else []
    ensures line.Some? ==> line.value != [] && |s| < |all|
  {
    SkipBlankShorter(all);
  }

  lemma ReadingStep(was: Content, all: string, done: seq<string>, line: Option<string>, s: string, now: Content,
                    next: Option<string>, rest: string)
    requires Reading(was, all, done, line, s, now) && line.Some? && Fetched(s, next, rest)
    ensures Reading(was, all, done + [line.value], next, rest, Apply(now, line.value))
    ensures next.Some? ==> |rest| < |s|
  {
    FetchedLines(s, next, rest);
    NextLine(was, done, line.value);
    var tail := ReadLines(s);
    assert done + ([line.value] + tail) == (done + [line.value]) + tail;
  }

  lemma StoredNext(v: Version, gs: seq<Group>, i: nat)
    requires i < |gs|
    ensures var ls := [GroupLine(gs[i])] + UserLines(gs[i].users);
      Joined([VersionLine(v)] + GroupsLines(gs[..i + 1])) == Joined([VersionLine(v)] + GroupsLines(gs[..i])) + Joined(ls)
  {
    var ls := [GroupLine(gs[i])] + UserLines(gs[i].users);
    assert gs[..i + 1][..i] == gs[..i];
    assert [VersionLine(v)] + (GroupsLines(gs[..i]) + ls) == ([VersionLine(v)] + GroupsLines(gs[..i])) + ls;
    JoinedAppend([VersionLine(v)] + GroupsLines(gs[..i]), ls);
  }

  lemma NextLine(l: Content, done: seq<string>, line: string)
    requires NoneEmpty(done) && line != []
    ensures NoneEmpty(done + [line]) && ApplyAll(l, done + [line]) == Apply(ApplyAll(l, done), line)
  {
    assert (done + [line])[..|done|] == done;
    ApplyLast(l, done + [line], ApplyAll(l, done));
  }

  // Storing a list and loading the text into a new one.
  method StoreAndLoad(l: SametimeList) returns (m: SametimeList)
    ensures m.View() == Norm(l.View()) <==> Clean(l.View())
  {
    var text := l.Store();
    m := new SametimeList();
    m.Get(text);
    RoundTripExact(l.View());
  }
}
