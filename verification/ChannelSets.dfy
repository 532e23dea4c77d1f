/**
  The ids of the channels of a session (mwChannelSet of src/channel.c).
 */
module ChannelSets {
  import opened Bytes

  const IDS: nat := 0x1_0000_0000
  const MASTER: U32 := 0

  predicate IsOutgoing(id: U32) {
    id < 0x8000_0000
  }

  // the id reached by n more increments of a guint32 counter
  function After(counter: U32, n: nat): U32 {
    (counter + n) % IDS
  }

  // id is the first unused one, n increments on
  ghost predicate FirstFree(counter: U32, ids: set<U32>, n: nat, id: U32) {
    && 1 <= n <= IDS && id == After(counter, n) && id !in ids
    && forall k :: 1 <= k < n ==> After(counter, k) in ids
  }

  // every unused id is reached within one turn of the counter
  lemma Reached(counter: U32, id: U32)
    ensures var n := if id > counter then id - counter else id + IDS - counter;
      1 <= n <= IDS && After(counter, n) == id
  {}

  lemma FirstFreeUnique(counter: U32, ids: set<U32>, m: nat, a: U32, n: nat, b: U32)
    requires FirstFree(counter, ids, m, a) && FirstFree(counter, ids, n, b)
    ensures m == n && a == b
  {
    assert m < n ==> After(counter, m) in ids;
    assert n < m ==> After(counter, n) in ids;
  }

  // The counter yields an outgoing id, and not that of the master channel, exactly when an
  // id above it in the outgoing range is free, or one at or below it is and none is until
  // the counter has wrapped around past the master channel. The counter itself may have
  // left the range before.
  lemma OutgoingExact(counter: U32, ids: set<U32>, n: nat, id: U32)
    requires FirstFree(counter, ids, n, id)
    ensures 0 < id < 0x8000_0000 <==>
      || (exists f: U32 :: counter < f < 0x8000_0000 && f !in ids)
      || ((forall f: U32 :: counter < f || f == 0 ==> f in ids) && exists f: U32 :: f < 0x8000_0000 && f !in ids)
  {
    if f: U32 :| counter < f && IsOutgoing(f) && f !in ids {
      Reached(counter, f);
      assert After(counter, f - counter) == f;
      assert n <= f - counter;
    } else if id > counter {
      assert !IsOutgoing(id);
    } else {
      assert n >= IDS - counter;
      forall f: U32 | counter < f ensures f in ids {
        assert After(counter, f - counter) == f;
      }
      if id != MASTER {
        assert n > IDS - counter && After(counter, IDS - counter) == MASTER;
        assert id == n - (IDS - counter);
        if f: U32 :| IsOutgoing(f) && f !in ids {
          Reached(counter, f);
          assert f <= counter ==> n <= f + IDS - counter;
        }
      }
    }
  }

  class ChannelSet {
    var counter: U32
    var ids: set<U32>     // the keys of the map

    // mwChannelSet_new
    constructor ()
      ensures counter == 0 && ids == {}
    {
      counter, ids := 0, {};
    }

    // mwChannel_newIncoming: the id is the server's
    method NewIncoming(id: U32)
      modifies `ids
      ensures ids == old(ids) + {id}
    {
      ids := ids + {id};
    }

    // mwChannel_newOutgoing. With every id in use the loop does not end.
    method NewOutgoing() returns (id: U32)
      requires exists f: U32 :: f !in ids
      modifies this
      ensures exists n :: FirstFree(old(counter), old(ids), n, id)
      ensures counter == id && ids == old(ids) + {id}
    {
      ghost var f: U32 :| f !in ids;
      ghost var c, n := counter, 1;
      ghost var last := if f > c then f - c else f + IDS - c;
      Reached(c, f);
      assert After(c, last) == f;
      counter := (counter + 1) % IDS;
      id := counter;
      while id in ids
        invariant ids == old(ids)
        invariant 1 <= n <= last && id == counter == After(c, n)
        invariant forall k :: 1 <= k < n ==> After(c, k) in ids
        decreases last - n
      {
        Stepped(c, n);
        counter := (counter + 1) % IDS;
        id := counter;
        n := n + 1;
      }
      assert FirstFree(c, ids, n, id);
      NewIncoming(id);
    }

    // mwChannel_destroy takes the id away again
    method Forget(id: U32)
      modifies `ids
      ensures ids == old(ids) - {id}
    {
      ids := ids - {id};
    }
  }

  lemma Stepped(c: U32, n: nat)
    ensures (After(c, n) + 1) % IDS == After(c, n + 1)
  {}
}
