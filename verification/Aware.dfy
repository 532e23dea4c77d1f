/**
  The index of the awareness service (src/srvc_aware.c): which lists watch which ids,
  and what the server has been told of it.
 */
module Aware {
  import opened Options

  // mwAwareIdBlock; a string may be NULL, and equality is that of mwAwareIdBlock_equal
  datatype AwareId = AwareId(kind: int, user: Option<string>, community: Option<string>)

  // an mwAwareList is known by its address
  type ListId = nat

  datatype Op = Add(ids: seq<AwareId>) | Remove(ids: seq<AwareId>)

  datatype ServiceState = STOPPED | STARTING | STARTED

  // ---- what the server makes of the messages ----

  function SetOf<T>(s: seq<T>): set<T> {
    set x | x in s
  }

  function Told(watched: set<AwareId>, op: Op): set<AwareId> {
    match op
    case Add(ids) => watched + SetOf(ids)
    case Remove(ids) => watched - SetOf(ids)
  }

  function ToldAll(watched: set<AwareId>, ops: seq<Op>): set<AwareId>
    decreases |ops|
  {
    if ops == [] then watched else Told(ToldAll(watched, ops[..|ops| - 1]), ops[|ops| - 1])
  }

  // each id is told of independently
  lemma {:induction false} ToldSame(s: set<AwareId>, t: set<AwareId>, ops: seq<Op>, id: AwareId)
    requires id in s <==> id in t
    ensures id in ToldAll(s, ops) <==> id in ToldAll(t, ops)
    decreases |ops|
  {
    if ops != [] {
      ToldSame(s, t, ops[..|ops| - 1], id);
    }
  }

  lemma {:induction false} ToldAppend(s: set<AwareId>, ops: seq<Op>, more: seq<Op>)
    ensures ToldAll(s, ops + more) == ToldAll(ToldAll(s, ops), more)
    decreases |more|
  {
    if more == [] {
      assert ops + more == ops;
    } else {
      ToldAppend(s, ops, more[..|more| - 1]);
      assert (ops + more)[..|ops + more| - 1] == ops + more[..|more| - 1];
    }
  }

  // A queue settles on s when replaying it after all of s has been added changes nothing.
  ghost predicate Settles(s: set<AwareId>, ops: seq<Op>) {
    ToldAll(s, ops) == s
  }

  // and it goes on to settle when every change is queued
  lemma SettlesMore(s: set<AwareId>, ops: seq<Op>, op: Op, t: set<AwareId>)
    requires Settles(s, ops) && t == Told(s, op)
    ensures Settles(t, ops + [op])
  {
    assert (ops + [op])[..|ops|] == ops;
    forall id: AwareId ensures id in ToldAll(t, ops + [op]) <==> id in t {
      if id !in SetOf(op.ids) {
        ToldSame(s, t, ops, id);
      }
    }
  }

  // ---- membership lists ----

  // g_list_remove: the first occurrence goes
  function RemoveFirst<T(==)>(s: seq<T>, x: T): (r: seq<T>)
    ensures multiset(r) == multiset(s) - multiset{x}
  {
    if s == [] then [] else if s[0] == x then assert s == [x] + s[1..]; s[1..]
    else assert s == [s[0]] + s[1..]; [s[0]] + RemoveFirst(s[1..], x)
  }

  // how often a list occurs in a membership list
  function Times<T(==)>(s: seq<T>, x: T): nat {
    multiset(s)[x]
  }

  // the ids that list_add takes
  predicate Usable(id: AwareId) {
    id.user.Some? && id.user.value != ""
  }

  type Entries = map<AwareId, seq<ListId>>
  type Tables = map<ListId, set<AwareId>>

  // the list is in the membership of the id
  ghost predicate Member(entries: Entries, l: ListId, id: AwareId) {
    id in entries && l in entries[id]
  }

  ghost predicate Listed(tables: Tables, l: ListId, id: AwareId) {
    l in tables && id in tables[l]
  }

  // An id is in the table of a list exactly when the list is in its membership, once.
  ghost predicate Index(entries: Entries, tables: Tables) {
    && (forall l: ListId, id: AwareId :: Member(entries, l, id) <==> Listed(tables, l, id))
    && (forall l: ListId, id: AwareId :: id in entries ==> Times(entries[id], l) <= 1)
  }

  // every entry is wanted by some list
  ghost predicate NoDead(entries: Entries) {
    forall id :: id in entries ==> entries[id] != []
  }

  // exactly the entries with members are left
  ghost predicate OnlyWanted(was: Entries, now: Entries) {
    forall id :: id in now <==> id in was && was[id] != []
  }

  // so the table of the service is the union of those of its lists
  lemma Union(entries: Entries, tables: Tables, id: AwareId)
    requires Index(entries, tables) && NoDead(entries)
    ensures id in entries <==> exists l :: Listed(tables, l, id)
  {
    if id in entries {
      var l := entries[id][0];
      assert Member(entries, l, id);
    }
    if l :| Listed(tables, l, id) {
      assert Member(entries, l, id);
    }
  }

  lemma TimesAppend(s: seq<ListId>, l: ListId, x: ListId)
    ensures Times(s + [l], x) == Times(s, x) + (if x == l then 1 else 0)
    ensures x in s <==> Times(s, x) > 0
  {}

  // the index after a list joins a membership
  lemma IndexAdd(entries: Entries, tables: Tables, l: ListId, id: AwareId)
    requires Index(entries, tables) && l in tables && id !in tables[l]
    ensures var m := if id in entries then entries[id] else [];
      Index(entries[id := m + [l]], tables[l := tables[l] + {id}])
  {
    var m := if id in entries then entries[id] else [];
    var e, t := entries[id := m + [l]], tables[l := tables[l] + {id}];
    assert !Listed(tables, l, id) && !Member(entries, l, id);
    forall x: ListId, y: AwareId
      ensures Member(e, x, y) <==> Listed(t, x, y)
      ensures y in e ==> Times(e[y], x) <= 1
    {
      assert Member(entries, x, y) <==> Listed(tables, x, y);
      TimesAppend(m, l, x);
    }
  }

  // and after it leaves
  lemma IndexRemove(entries: Entries, tables: Tables, l: ListId, id: AwareId)
    requires Index(entries, tables) && Listed(tables, l, id)
    ensures id in entries
    ensures Index(entries[id := RemoveFirst(entries[id], l)], tables[l := tables[l] - {id}])
  {
    assert Member(entries, l, id);
    var e, t := entries[id := RemoveFirst(entries[id], l)], tables[l := tables[l] - {id}];
    forall x: ListId, y: AwareId
      ensures Member(e, x, y) <==> Listed(t, x, y)
      ensures y in e ==> Times(e[y], x) <= 1
    {
      assert Member(entries, x, y) <==> Listed(tables, x, y);
      if y == id {
        TimesRemoved(entries[id], l, x);
      }
    }
  }

  lemma TimesRemoved(s: seq<ListId>, l: ListId, x: ListId)
    requires l in s && Times(s, l) <= 1
    ensures Times(RemoveFirst(s, l), x) == if x == l then 0 else Times(s, x)
    ensures x in RemoveFirst(s, l) <==> x in s && x != l
  {
    assert l in multiset(s);
    assert x in RemoveFirst(s, l) <==> x in multiset(RemoveFirst(s, l));
  }

  // dropping entries without members does not touch the index
  lemma IndexDrop(entries: Entries, tables: Tables, dead: set<AwareId>)
    requires Index(entries, tables) && forall id :: id in dead ==> id in entries && entries[id] == []
    ensures Index(entries - dead, tables)
  {
    forall x: ListId, y: AwareId ensures Member(entries - dead, x, y) <==> Listed(tables, x, y) {
      assert Member(entries, x, y) <==> Listed(tables, x, y);
    }
  }

  lemma DroppedKeys(entries: Entries, dead: set<AwareId>)
    requires forall id :: id in dead <==> id in entries && entries[id] == []
    ensures (entries - dead).Keys == entries.Keys - dead && dead == entries.Keys - (entries - dead).Keys
    ensures NoDead(entries - dead)
    ensures OnlyWanted(entries, entries - dead)
  {
    assert (entries - dead).Keys == entries.Keys - dead;
  }

  // a list without ids can go
  lemma IndexForget(entries: Entries, tables: Tables, l: ListId)
    requires Index(entries, tables)
    ensures l !in tables ==> Index(entries, tables[l := {}])
    ensures l in tables && tables[l] == {} ==> Index(entries, tables - {l})
  {
    forall x: ListId, y: AwareId
      ensures l !in tables ==> (Member(entries, x, y) <==> Listed(tables[l := {}], x, y))
      ensures l in tables && tables[l] == {} ==> (Member(entries, x, y) <==> Listed(tables - {l}, x, y))
    {
      assert Member(entries, x, y) <==> Listed(tables, x, y);
    }
  }

  class AwareService {
    var entries: Entries     // each aware_entry with its membership list
    var lists: seq<ListId>
    var tables: Tables       // the entries table of each list
    var state: ServiceState
    var queue: seq<Op>       // messages waiting for the channel to open
    var wire: seq<Op>        // messages sent on the channel since it opened

    // the server knows, or will know once the channel has opened
    ghost predicate Mirrored()
      reads this
    {
      match state
      case STOPPED => queue == [] && wire == []
      case STARTING => wire == [] && Settles(entries.Keys, queue)
      case STARTED => queue == [] && ToldAll({}, wire) == entries.Keys
    }

    ghost predicate Valid()
      reads this
    {
      && Index(entries, tables) && NoDead(entries) && Mirrored()
      && (forall l :: l in tables <==> l in lists)
    }

    // Once the channel is open, the server watches exactly the ids that some list wants.
    lemma Watching(id: AwareId)
      requires Valid() && state == STARTED
      ensures id in ToldAll({}, wire) <==> exists l :: Listed(tables, l, id)
    {
      Union(entries, tables, id);
    }

    constructor ()
      ensures Valid() && state == STOPPED && tables == map[]
    {
      entries, lists, tables, state, queue, wire := map[], [], map[], STOPPED, [], [];
    }

    // mwAwareList_new
    method NewList() returns (l: ListId)
      requires Valid()
      modifies `lists, `tables
      ensures Valid() && l !in old(tables) && tables == old(tables)[l := {}] && lists == [l] + old(lists)
    {
      l := Fresh(lists);
      IndexForget(entries, tables, l);
      lists := [l] + lists;
      tables := tables[l := {}];
    }

    // list_add
    method ListAdd(l: ListId, id: AwareId) returns (added: bool)
      requires Index(entries, tables) && NoDead(entries) && l in tables
      modifies `entries, `tables
      ensures Index(entries, tables) && NoDead(entries)
      ensures added == (Usable(id) && id !in old(tables)[l])
      ensures tables == old(tables)[l := old(tables)[l] + if Usable(id) then {id} else {}]
      ensures entries.Keys == old(entries).Keys + if added then {id} else {}
    {
      if id.user.None? || |id.user.value| == 0 {
        assert tables == tables[l := tables[l]] && tables[l] + {} == tables[l];
        return false;
      }
      if id in tables[l] {
        assert tables == tables[l := tables[l]] && tables[l] + {id} == tables[l];
        return false;
      }
      IndexAdd(entries, tables, l, id);
      if id !in entries {
        entries := entries[id := []];
      }
      entries := entries[id := entries[id] + [l]];
      tables := tables[l := tables[l] + {id}];
      added := true;
      assert entries == old(entries)[id := entries[id]];
    }

    // mwChannel_send on the channel of the service
    method Send(op: Op)
      requires state != STOPPED
      modifies `queue, `wire
      ensures if state == STARTED then wire == old(wire) + [op] && queue == old(queue)
              else queue == old(queue) + [op] && wire == old(wire)
    {
      if state == STARTED {
        wire := wire + [op];
      } else {
        queue := queue + [op];
      }
    }

    // the one message that a change leads to, unless it names no id
    ghost predicate Reported(op: Op, w: seq<Op>, q: seq<Op>)
      reads this
    {
      var msgs := if op.ids == [] then [] else [op];
      wire == w + (if state == STARTED then msgs else []) && queue == q + (if state == STARTING then msgs else [])
    }

    // what Mirrored needs of a change and of the message about it
    lemma MirrorMore(before: set<AwareId>, op: Op, q: seq<Op>, w: seq<Op>)
      requires state != STOPPED && entries.Keys == Told(before, op)
      requires state == STARTED ==> q == [] && ToldAll({}, w) == before && queue == [] && wire == w + [op]
      requires state == STARTING ==> w == [] && Settles(before, q) && queue == q + [op] && wire == []
      ensures Mirrored()
    {
      if state == STARTED {
        assert (w + [op])[..|w|] == w;
      } else {
        SettlesMore(before, q, op, entries.Keys);
      }
    }

    // the loop of mwAwareList_addAware
    method AddEach(l: ListId, ids: seq<AwareId>) returns (additions: seq<AwareId>)
      requires Index(entries, tables) && NoDead(entries) && l in tables
      modifies `entries, `tables
      ensures Index(entries, tables) && NoDead(entries)
      ensures tables == old(tables)[l := old(tables)[l] + UsableIn(ids)]
      ensures entries.Keys == old(entries).Keys + SetOf(additions)
      ensures SetOf(additions) == UsableIn(ids) - old(tables)[l]
    {
      ghost var t0 := tables[l];
      additions := [];
      AddNothing(tables, l);
      for i := 0 to |ids|
        invariant Index(entries, tables) && NoDead(entries) && l in tables
        invariant tables == old(tables)[l := t0 + UsableIn(ids[..i])]
        invariant entries.Keys == old(entries).Keys + SetOf(additions)
        invariant SetOf(additions) == UsableIn(ids[..i]) - t0
      {
        AddNext(t0, ids, i, additions);
        var added := ListAdd(l, ids[i]);
        if added {
          additions := [ids[i]] + additions;
        }
      }
      assert ids[..|ids|] == ids;
    }

    // mwAwareList_addAware
    method AddAware(l: ListId, ids: seq<AwareId>) returns (ghost adds: seq<AwareId>)
      requires Valid() && l in tables
      modifies `entries, `tables, `queue, `wire
      ensures Valid()
      ensures tables == old(tables)[l := old(tables)[l] + UsableIn(ids)]
      ensures entries.Keys == old(entries).Keys + UsableIn(ids)
      ensures SetOf(adds) == UsableIn(ids) - old(tables)[l] && Reported(Add(adds), old(wire), old(queue))
      ensures forall id :: id in adds <==> id in ids && id.user != None && id.user != Some("") && id !in old(tables)[l]
      ensures forall id :: id in tables[l] <==> id in old(tables)[l] || id in adds
    {
      ListedInService(entries, tables, l);
      var additions := AddEach(l, ids);
      SendAdditions(additions, old(entries).Keys);
      adds := additions;
      AddsAre(ids, old(tables)[l], adds);
    }

    lemma AddsAre(ids: seq<AwareId>, t: set<AwareId>, adds: seq<AwareId>)
      requires SetOf(adds) == UsableIn(ids) - t
      ensures forall id :: id in adds <==> id in ids && id.user != None && id.user != Some("") && id !in t
      ensures forall id :: id in t + UsableIn(ids) <==> id in t || id in adds
    {
      forall id ensures id in adds <==> id in ids && id.user != None && id.user != Some("") && id !in t {
        assert id in adds <==> id in SetOf(adds);
        assert id in UsableIn(ids) <==> id in ids && Usable(id);
      }
      assert forall id :: id in adds <==> id in SetOf(adds);
    }

    // the message of mwAwareList_addAware
    method SendAdditions(additions: seq<AwareId>, ghost before: set<AwareId>)
      requires entries.Keys == before + SetOf(additions)
      requires state == STOPPED ==> queue == [] && wire == []
      requires state == STARTING ==> wire == [] && Settles(before, queue)
      requires state == STARTED ==> queue == [] && ToldAll({}, wire) == before
      modifies `queue, `wire
      ensures Mirrored() && Reported(Add(additions), old(wire), old(queue))
    {
      if state != STOPPED && |additions| > 0 {
        Send(Add(additions));
        MirrorMore(before, Add(additions), old(queue), old(wire));
      } else if |additions| == 0 {
        assert entries.Keys == before;
      }
    }

    // one turn of the loops that take a list out of memberships: mwAwareList_removeAware
    // and dismember_aware
    method Dismember(l: ListId, id: AwareId)
      requires Index(entries, tables) && Listed(tables, l, id)
      modifies `entries, `tables
      ensures Index(entries, tables)
      ensures tables == old(tables)[l := old(tables)[l] - {id}] && entries.Keys == old(entries).Keys
      ensures forall x :: x in entries && x != id ==> entries[x] == old(entries)[x]
    {
      IndexRemove(entries, tables, l, id);
      entries := entries[id := RemoveFirst(entries[id], l)];
      tables := tables[l := tables[l] - {id}];
    }

    // collect_dead over the table of the service
    method CollectDead() returns (dead: seq<AwareId>)
      ensures forall id :: id in dead <==> id in entries && entries[id] == []
    {
      dead := [];
      var left := entries.Keys;
      while left != {}
        invariant left <= entries.Keys
        invariant forall id :: id in dead <==> id in entries && id !in left && entries[id] == []
        decreases left
      {
        var id :| id in left;
        if entries[id] == [] {
          dead := dead + [id];
        }
        left := left - {id};
      }
    }

    // remove_unused
    method RemoveUnused(ghost before: set<AwareId>) returns (ghost gone: seq<AwareId>)
      requires Index(entries, tables) && entries.Keys == before
      requires state == STOPPED ==> queue == [] && wire == []
      requires state == STARTING ==> wire == [] && Settles(before, queue)
      requires state == STARTED ==> queue == [] && ToldAll({}, wire) == before
      modifies `entries, `queue, `wire
      ensures Index(entries, tables) && NoDead(entries) && Mirrored()
      ensures OnlyWanted(old(entries), entries) && entries.Keys <= old(entries).Keys
      ensures SetOf(gone) == old(entries).Keys - entries.Keys && Reported(Remove(gone), old(wire), old(queue))
    {
      var dead := DropDead();
      SendDead(dead, before);
      gone := dead;
    }

    // the entries that go
    method DropDead() returns (dead: seq<AwareId>)
      requires Index(entries, tables)
      modifies `entries
      ensures Index(entries, tables) && NoDead(entries)
      ensures entries.Keys == old(entries).Keys - SetOf(dead) && SetOf(dead) == old(entries).Keys - entries.Keys
      ensures OnlyWanted(old(entries), entries)
    {
      dead := CollectDead();
      IndexDrop(entries, tables, SetOf(dead));
      DroppedKeys(entries, SetOf(dead));
      entries := entries - SetOf(dead);
    }

    // the message of remove_unused
    method SendDead(dead: seq<AwareId>, ghost before: set<AwareId>)
      requires entries.Keys == before - SetOf(dead)
      requires state == STOPPED ==> queue == [] && wire == []
      requires state == STARTING ==> wire == [] && Settles(before, queue)
      requires state == STARTED ==> queue == [] && ToldAll({}, wire) == before
      modifies `queue, `wire
      ensures Mirrored() && Reported(Remove(dead), old(wire), old(queue))
    {
      if |dead| > 0 {
        if state != STOPPED {
          Send(Remove(dead));
          MirrorMore(before, Remove(dead), old(queue), old(wire));
        }
      } else {
        assert entries.Keys == before;
      }
    }

    // the loop of mwAwareList_removeAware
    method RemoveEach(l: ListId, ids: seq<AwareId>)
      requires Index(entries, tables) && l in tables
      modifies `entries, `tables
      ensures Index(entries, tables)
      ensures tables == old(tables)[l := old(tables)[l] - SetOf(ids)] && entries.Keys == old(entries).Keys
    {
      ghost var t0 := tables[l];
      assert t0 - SetOf(ids[..0]) == t0 && tables == tables[l := t0];
      for i := 0 to |ids|
        invariant Index(entries, tables) && l in tables && entries.Keys == old(entries).Keys
        invariant tables == old(tables)[l := t0 - SetOf(ids[..i])]
      {
        assert t0 - SetOf(ids[..i + 1]) == (t0 - SetOf(ids[..i])) - {ids[i]};
        if ids[i] in tables[l] {
          Dismember(l, ids[i]);
        } else {
          assert tables[l] - {ids[i]} == tables[l];
        }
      }
      assert ids[..|ids|] == ids;
    }

    // mwAwareList_removeAware
    method RemoveAware(l: ListId, ids: seq<AwareId>) returns (ghost gone: seq<AwareId>)
      requires Valid() && l in tables
      modifies `entries, `tables, `queue, `wire
      ensures Valid() && tables == old(tables)[l := old(tables)[l] - SetOf(ids)]
      ensures entries.Keys <= old(entries).Keys <= entries.Keys + SetOf(ids)
      ensures SetOf(gone) == old(entries).Keys - entries.Keys && Reported(Remove(gone), old(wire), old(queue))
    {
      ghost var e0, t0 := entries, tables;
      RemoveEach(l, ids);
      gone := RemoveUnused(e0.Keys);
      assert e0.Keys <= entries.Keys + SetOf(ids) by {
        StillWanted(e0, t0, entries, tables, l, SetOf(ids));
      }
    }

    // the loop of mwAwareList_removeAllAware over the table of the list
    method RemoveAll(l: ListId)
      requires Index(entries, tables) && l in tables
      modifies `entries, `tables
      ensures Index(entries, tables) && tables == old(tables)[l := {}] && entries.Keys == old(entries).Keys
    {
      var left := tables[l];
      assert tables == tables[l := left];
      while left != {}
        invariant Index(entries, tables) && l in tables && entries.Keys == old(entries).Keys
        invariant tables == old(tables)[l := left]
        decreases left
      {
        var id :| id in left;
        Dismember(l, id);
        left := left - {id};
      }
    }

    // mwAwareList_free
    method FreeList(l: ListId) returns (ghost gone: seq<AwareId>)
      requires Valid() && l in tables
      modifies `entries, `tables, `lists, `queue, `wire
      ensures Valid() && tables == old(tables) - {l} && entries.Keys <= old(entries).Keys
      ensures SetOf(gone) == old(entries).Keys - entries.Keys && Reported(Remove(gone), old(wire), old(queue))
    {
      lists := RemoveEvery(lists, l);
      RemoveAll(l);
      gone := RemoveUnused(old(entries).Keys);
      IndexForget(entries, tables, l);
      tables := tables - {l};
      assert tables == old(tables) - {l};
    }

    // mwService_start and start; made says whether the channel could be created
    method Start(made: bool)
      requires Valid()
      modifies `state
      ensures Valid() && state == if old(state) == STOPPED && made then STARTING else old(state)
    {
      if state != STOPPED {
        return;
      }
      state := STARTING;
      if !made {
        state := STOPPED;
      }
    }

    // recv_accept, and the flush of the channel that follows it. All entries are added
    // again before the messages that were waiting.
    method RecvAccept()
      requires Valid() && state == STARTING
      modifies `state, `queue, `wire
      ensures Valid() && state == STARTED && queue == []
      ensures exists all :: SetOf(all) == entries.Keys && wire == [Add(all)] + old(queue)
    {
      var all := CollectAll();
      ghost var q := queue;
      wire := wire + [Add(all)];
      state := STARTED;
      wire := wire + queue;
      queue := [];
      AcceptMirrors(all, entries.Keys, q);
      assert wire == [Add(all)] + q;
    }

    // map_collect_values
    method CollectAll() returns (all: seq<AwareId>)
      ensures SetOf(all) == entries.Keys
    {
      all := [];
      var left := entries.Keys;
      while left != {}
        invariant left <= entries.Keys && SetOf(all) == entries.Keys - left
        decreases left
      {
        var id :| id in left;
        assert SetOf(all + [id]) == SetOf(all) + {id};
        all := all + [id];
        left := left - {id};
      }
    }

    // stop and recv_destroy: the channel goes, and the messages on it with it
    method Stop()
      requires Valid()
      modifies `state, `queue, `wire
      ensures Valid() && state == STOPPED && queue == [] && wire == []
    {
      state, queue, wire := STOPPED, [], [];
    }
  }

  // g_list_remove_all
  function RemoveEvery(s: seq<ListId>, l: ListId): (r: seq<ListId>)
    ensures forall x :: x in r <==> x in s && x != l
  {
    if s == [] then [] else (if s[0] == l then [] else [s[0]]) + RemoveEvery(s[1..], l)
  }

  lemma AcceptMirrors(all: seq<AwareId>, ids: set<AwareId>, q: seq<Op>)
    requires SetOf(all) == ids && Settles(ids, q)
    ensures ToldAll({}, [] + [Add(all)] + q) == ids
  {
    assert [Add(all)][..0] == [];
    assert ToldAll({}, [Add(all)]) == {} + ids == ids;
    ToldAppend({}, [Add(all)], q);
    assert [] + [Add(all)] + q == [Add(all)] + q;
  }

  // an id that was not named keeps its entry
  lemma StillWanted(e0: Entries, t0: Tables, e: Entries, t: Tables, l: ListId, ids: set<AwareId>)
    requires Index(e0, t0) && NoDead(e0) && Index(e, t) && l in t0 && t == t0[l := t0[l] - ids]
    ensures e0.Keys <= e.Keys + ids
  {
    forall id | id in e0 && id !in ids ensures id in e {
      Union(e0, t0, id);
      var x :| Listed(t0, x, id);
      assert Listed(t, x, id);
      assert Member(e, x, id);
    }
  }

  lemma AddNothing(tables: Tables, l: ListId)
    requires l in tables
    ensures tables == tables[l := tables[l] + UsableIn([])]
  {
    assert tables[l] + UsableIn([]) == tables[l];
  }

  lemma AddNext(t0: set<AwareId>, ids: seq<AwareId>, i: nat, adds: seq<AwareId>)
    requires i < |ids| && SetOf(adds) == UsableIn(ids[..i]) - t0
    ensures var id, u, v := ids[i], UsableIn(ids[..i]), UsableIn(ids[..i + 1]);
      var added := Usable(id) && id !in t0 + u;
      && (t0 + u) + (if Usable(id) then {id} else {}) == t0 + v
      && SetOf(if added then [id] + adds else adds) == v - t0
      && SetOf(if added then [id] + adds else adds) == SetOf(adds) + if added then {id} else {}
  {
    UsableNext(ids, i);
    var id := ids[i];
    assert SetOf([id] + adds) == SetOf(adds) + {id};
  }

  // the ids that lead to an entry
  function UsableIn(ids: seq<AwareId>): set<AwareId> {
    set id | id in ids && Usable(id)
  }

  lemma UsableNext(ids: seq<AwareId>, i: nat)
    requires i < |ids|
    ensures UsableIn(ids[..i + 1]) == UsableIn(ids[..i]) + if Usable(ids[i]) then {ids[i]} else {}
  {
    assert ids[..i + 1] == ids[..i] + [ids[i]];
  }

  lemma ListedInService(entries: Entries, tables: Tables, l: ListId)
    requires Index(entries, tables) && l in tables
    ensures tables[l] <= entries.Keys
  {
    forall id | id in tables[l] ensures id in entries {
      assert Listed(tables, l, id) && Member(entries, l, id);
    }
  }

  // an address that is not in use
  method Fresh(s: seq<ListId>) returns (l: ListId)
    ensures l !in s
  {
    l := 0;
    for i := 0 to |s|
      invariant forall k :: 0 <= k < i ==> s[k] < l
    {
      if s[i] >= l {
        l := s[i] + 1;
      }
    }
  }
}
