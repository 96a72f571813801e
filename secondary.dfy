/**
 The secondary's ordered-apply engine (secondary/secondary.py).

 A secondary keeps a committed list `messages`, a cursor `next_expected_id`
 and an out-of-order `pending_buffer` keyed by id. Every delivered message is
 handled by exactly one of five rules: a committed id is dropped, a buffered
 id is overwritten, an id below the cursor is ignored, the expected id is
 committed together with every consecutive buffered id after it, and a
 future id is buffered.

 `Apply` states one delivery on values; the class `Secondary` holds the same
 state in fields and its method `Replicate` runs the source's drain loop.
 */
module SecondaryApply {
  import opened ReplicatedLog

  /** The secondary's whole state: committed list, cursor and buffer. */
  datatype Replica = Replica(messages: seq<Msg>, nextExpected: int, buffer: map<int, Msg>)

  /** The state a secondary starts in. */
  const Initial: Replica := Replica([], 1, map[])

  /**
   The invariant of the engine: the committed ids are exactly
   `1 .. nextExpected - 1` in list order, and every buffered key is above the
   cursor and is the id of the message stored under it.
   */
  ghost predicate ValidReplica(s: Replica)
  {
    Consecutive(s.messages) &&
    |s.messages| == s.nextExpected - 1 &&
    (forall k :: k in s.buffer ==> k > s.nextExpected && s.buffer[k].id == k)
  }

  /**
   The drain loop: while the cursor is a buffered key, move that entry to the
   tail of the committed list and advance the cursor.
   */
  function Drain(ms: seq<Msg>, next: int, buf: map<int, Msg>): Replica
    decreases |buf|
  {
    if next in buf then
      assert (buf - {next}).Keys == buf.Keys - {next};
      Drain(ms + [buf[next]], next + 1, buf - {next})
    else
      Replica(ms, next, buf)
  }

  /** One delivery of message `m`, branch for branch as the source handles it. */
  function Apply(s: Replica, m: Msg): Replica
  {
    if m.id in IdsOf(s.messages) then s
    else if m.id in s.buffer then s.(buffer := s.buffer[m.id := m])
    else if m.id < s.nextExpected then s
    else if m.id == s.nextExpected then Drain(s.messages + [m], s.nextExpected + 1, s.buffer)
    else s.(buffer := s.buffer[m.id := m])
  }

  /**
   What the drain loop does, stated without the loop: it stops at the first
   id at or after `next` that is not buffered, appends the buffered entries
   of the skipped run in id order, and removes exactly that run from the
   buffer.
   */
  lemma {:induction false} DrainShape(ms: seq<Msg>, next: int, buf: map<int, Msg>)
    ensures var r := Drain(ms, next, buf);
      r.nextExpected >= next &&
      (forall k :: next <= k < r.nextExpected ==> k in buf) &&
      r.nextExpected !in buf &&
      |r.messages| == |ms| + (r.nextExpected - next) &&
      r.messages[..|ms|] == ms &&
      (forall i :: |ms| <= i < |r.messages| ==> r.messages[i] == buf[next + (i - |ms|)]) &&
      (forall k :: k in r.buffer <==> k in buf && !(next <= k < r.nextExpected)) &&
      (forall k :: k in r.buffer ==> r.buffer[k] == buf[k])
    decreases |buf|
  {
    if next in buf {
      var ms', buf' := ms + [buf[next]], buf - {next};
      assert buf'.Keys == buf.Keys - {next};
      DrainShape(ms', next + 1, buf');
      var r := Drain(ms', next + 1, buf');
      assert Drain(ms, next, buf) == r;
      forall k | next <= k < r.nextExpected ensures k in buf {
        if k != next {
          assert k in buf';
        }
      }
      assert r.messages[..|ms'|] == ms';
      assert r.messages[|ms|] == ms'[|ms|];
      assert r.messages[..|ms|] == r.messages[..|ms'|][..|ms|];
    }
  }

  /** For a valid state the committed ids are exactly `1 .. nextExpected - 1`. */
  lemma CommittedIds(s: Replica)
    requires ValidReplica(s)
    ensures forall k :: k in IdsOf(s.messages) <==> 1 <= k < s.nextExpected
  {
    ConsecutiveIsStrictlyIncreasing(s.messages);
  }

  /** Every delivery, whatever its id, keeps the invariant. */
  lemma ApplyPreservesValid(s: Replica, m: Msg)
    requires ValidReplica(s)
    ensures ValidReplica(Apply(s, m))
  {
    if m.id !in IdsOf(s.messages) && m.id !in s.buffer && m.id == s.nextExpected {
      var ms := s.messages + [m];
      DrainShape(ms, s.nextExpected + 1, s.buffer);
      var r := Apply(s, m);
      forall i | 0 <= i < |ms| ensures r.messages[i].id == i + 1 {
        assert r.messages[i] == r.messages[..|ms|][i];
      }
    }
  }

  /** Delivering an already committed id changes nothing. */
  lemma ApplyDuplicate(s: Replica, m: Msg)
    requires m.id in IdsOf(s.messages)
    ensures Apply(s, m) == s
  {
  }

  /**
   Delivering an id that is buffered and not committed replaces that one
   buffer entry; the committed list, the cursor and every other entry stay.
   */
  lemma ApplyBuffered(s: Replica, m: Msg)
    requires m.id !in IdsOf(s.messages) && m.id in s.buffer
    ensures var r := Apply(s, m);
      r.messages == s.messages && r.nextExpected == s.nextExpected &&
      r.buffer.Keys == s.buffer.Keys && r.buffer[m.id] == m &&
      (forall k :: k in s.buffer && k != m.id ==> r.buffer[k] == s.buffer[k])
  {
  }

  /**
   An id below the cursor that is neither committed nor buffered can only be
   an id `<= 0` in a valid state, and it is ignored.
   */
  lemma ApplyStale(s: Replica, m: Msg)
    requires ValidReplica(s)
    requires m.id !in IdsOf(s.messages) && m.id !in s.buffer && m.id < s.nextExpected
    ensures m.id <= 0
    ensures Apply(s, m) == s
  {
    CommittedIds(s);
  }

  /**
   Delivering exactly the expected id appends it and then the maximal run of
   consecutive buffered ids after it; the new cursor is the first id after
   the run, it is not buffered, and the buffer keeps exactly its keys above
   the new cursor.
   */
  lemma ApplyCommit(s: Replica, m: Msg)
    requires ValidReplica(s) && m.id == s.nextExpected
    ensures var r := Apply(s, m);
      var run := r.nextExpected - s.nextExpected - 1;
      run >= 0 &&
      (forall k :: s.nextExpected < k < r.nextExpected ==> k in s.buffer) &&
      r.nextExpected !in s.buffer && r.nextExpected !in r.buffer &&
      |r.messages| == |s.messages| + 1 + run &&
      r.messages[..|s.messages|] == s.messages && r.messages[|s.messages|] == m &&
      (forall i :: |s.messages| < i < |r.messages| ==> r.messages[i] == s.buffer[i + 1]) &&
      (forall k :: k in r.buffer <==> k in s.buffer && k > r.nextExpected) &&
      (forall k :: k in r.buffer ==> r.buffer[k] == s.buffer[k])
  {
    CommittedIds(s);
    assert m.id !in IdsOf(s.messages);
    var ms := s.messages + [m];
    DrainShape(ms, s.nextExpected + 1, s.buffer);
    var r := Apply(s, m);
    assert r.messages[..|ms|] == ms;
    assert r.messages[..|s.messages|] == r.messages[..|ms|][..|s.messages|];
    assert r.messages[|s.messages|] == r.messages[..|ms|][|s.messages|];
  }

  /** Delivering an id above the cursor that is not yet known buffers it. */
  lemma ApplyFuture(s: Replica, m: Msg)
    requires ValidReplica(s)
    requires m.id !in s.buffer && m.id > s.nextExpected
    ensures Apply(s, m) == s.(buffer := s.buffer[m.id := m])
  {
    CommittedIds(s);
  }

  /** `messages` only grows at its tail, and the cursor never moves back. */
  lemma ApplyGrows(s: Replica, m: Msg)
    ensures var r := Apply(s, m);
      |s.messages| <= |r.messages| && r.messages[..|s.messages|] == s.messages &&
      r.nextExpected >= s.nextExpected
  {
    if m.id !in IdsOf(s.messages) && m.id !in s.buffer && m.id == s.nextExpected {
      var ms := s.messages + [m];
      DrainShape(ms, s.nextExpected + 1, s.buffer);
      var r := Apply(s, m);
      assert r.messages[..|s.messages|] == r.messages[..|ms|][..|s.messages|];
    }
  }

  /** Delivering the same message twice is the same as delivering it once. */
  lemma ApplyIdempotent(s: Replica, m: Msg)
    ensures Apply(Apply(s, m), m) == Apply(s, m)
  {
    if m.id !in IdsOf(s.messages) && m.id !in s.buffer && m.id == s.nextExpected {
      var ms := s.messages + [m];
      DrainShape(ms, s.nextExpected + 1, s.buffer);
      var r := Apply(s, m);
      assert r.messages[|s.messages|] == r.messages[..|ms|][|s.messages|];
      assert m in r.messages;
    }
  }

  /** The list is in non-decreasing id order. */
  ghost predicate SortedById(ms: seq<Msg>)
  {
    forall i, j :: 0 <= i < j < |ms| ==> ms[i].id <= ms[j].id
  }

  /** Inserts `x` after every entry whose id is at most `x.id`. */
  function InsertById(x: Msg, s: seq<Msg>): seq<Msg>
  {
    if s == [] then [x]
    else if s[|s| - 1].id <= x.id then s + [x]
    else InsertById(x, s[..|s| - 1]) + [s[|s| - 1]]
  }

  /** A stable insertion sort by id: the snapshot `sorted(messages, key=id)`. */
  function SortById(ms: seq<Msg>): seq<Msg>
  {
    if ms == [] then [] else InsertById(ms[|ms| - 1], SortById(ms[..|ms| - 1]))
  }

  lemma {:induction false} InsertByIdPermutes(x: Msg, s: seq<Msg>)
    ensures multiset(InsertById(x, s)) == multiset(s) + multiset{x}
  {
    if s != [] && s[|s| - 1].id > x.id {
      var init := s[..|s| - 1];
      InsertByIdPermutes(x, init);
      assert s == init + [s[|s| - 1]];
    }
  }

  lemma {:induction false} InsertBySorted(x: Msg, s: seq<Msg>)
    requires SortedById(s)
    ensures SortedById(InsertById(x, s))
  {
    if s != [] && s[|s| - 1].id > x.id {
      var init, last := s[..|s| - 1], s[|s| - 1];
      assert SortedById(init);
      InsertBySorted(x, init);
      InsertByIdPermutes(x, init);
      var t := InsertById(x, init);
      forall i | 0 <= i < |t| ensures t[i].id <= last.id {
        assert t[i] in multiset(t);
        if t[i] != x {
          assert t[i] in multiset(init);
          var j :| 0 <= j < |init| && init[j] == t[i];
          assert s[j] == init[j];
        }
      }
    }
  }

  /** `SortById` returns its input sorted by id. */
  lemma {:induction false} SortByIdSorted(ms: seq<Msg>)
    ensures SortedById(SortById(ms))
  {
    if ms != [] {
      SortByIdSorted(ms[..|ms| - 1]);
      InsertBySorted(ms[|ms| - 1], SortById(ms[..|ms| - 1]));
    }
  }

  /** A non-empty list is its prefix plus its last entry, as a multiset. */
  lemma SplitLast(ms: seq<Msg>)
    requires ms != []
    ensures multiset(ms) == multiset(ms[..|ms| - 1]) + multiset{ms[|ms| - 1]}
  {
    assert ms == ms[..|ms| - 1] + [ms[|ms| - 1]];
  }

  /** `SortById` returns a permutation of its input. */
  lemma {:induction false} SortByIdPermutes(ms: seq<Msg>)
    ensures multiset(SortById(ms)) == multiset(ms)
  {
    if ms != [] {
      var init, last := ms[..|ms| - 1], ms[|ms| - 1];
      SortByIdPermutes(init);
      InsertByIdPermutes(last, SortById(init));
      SplitLast(ms);
    }
  }

  /** A list already in id order is its own sorted snapshot. */
  lemma {:induction false} SortByIdOfSorted(ms: seq<Msg>)
    requires SortedById(ms)
    ensures SortById(ms) == ms
  {
    if ms != [] {
      var init := ms[..|ms| - 1];
      assert SortedById(init);
      SortByIdOfSorted(init);
    }
  }

  /** The secondary service: its module-level state as the fields of one object. */
  class Secondary {
    var messages: seq<Msg>
    var nextExpectedId: int
    var pendingBuffer: map<int, Msg>

    /** The fields as one `Replica` value. */
    function State(): Replica
      reads this
    {
      Replica(messages, nextExpectedId, pendingBuffer)
    }

    ghost predicate Valid()
      reads this
    {
      ValidReplica(State())
    }

    constructor ()
      ensures Valid() && State() == Initial
    {
      messages := [];
      nextExpectedId := 1;
      pendingBuffer := map[];
    }

    /**
     Handles one delivered message under the lock: the new state is
     `Apply(old state, msg)`, so the invariant is kept.
     */
    method Replicate(msg: Msg)
      requires Valid()
      modifies this
      ensures Valid()
      ensures State() == Apply(old(State()), msg)
    {
      ghost var before := State();
      var existingIds := IdsOf(messages);
      if msg.id in existingIds {
      } else if msg.id in pendingBuffer {
        pendingBuffer := pendingBuffer[msg.id := msg];
      } else if msg.id < nextExpectedId {
      } else if msg.id == nextExpectedId {
        messages := messages + [msg];
        nextExpectedId := nextExpectedId + 1;
        while nextExpectedId in pendingBuffer
          invariant Drain(messages, nextExpectedId, pendingBuffer)
                 == Drain(before.messages + [msg], before.nextExpected + 1, before.buffer)
          decreases |pendingBuffer|
        {
          var buffered := pendingBuffer[nextExpectedId];
          assert (pendingBuffer - {nextExpectedId}).Keys == pendingBuffer.Keys - {nextExpectedId};
          pendingBuffer := pendingBuffer - {nextExpectedId};
          messages := messages + [buffered];
          nextExpectedId := nextExpectedId + 1;
        }
      } else {
        pendingBuffer := pendingBuffer[msg.id := msg];
      }
      ApplyPreservesValid(before, msg);
    }

    /**
     The snapshot served to readers: the committed list sorted by id, which
     under the invariant is the committed list itself.
     */
    method GetMessages() returns (snapshot: seq<Msg>)
      requires Valid()
      ensures snapshot == SortById(messages)
      ensures snapshot == messages
    {
      snapshot := SortById(messages);
      SortByIdOfSorted(messages);
    }
  }
}
