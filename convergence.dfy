/**
 Properties of a secondary over a whole series of deliveries: the total
 ordering the `replicate` endpoint promises. Whatever order the entries of a
 master log arrive in, and however often each arrives, the secondary ends up
 holding exactly that log, with an empty buffer.
 */
module SecondaryConvergence {
  import opened ReplicatedLog
  import opened SecondaryApply

  /** Delivers `ds` one after another, first to last. */
  function ApplyAll(s: Replica, ds: seq<Msg>): Replica
    decreases |ds|
  {
    if ds == [] then s else ApplyAll(Apply(s, ds[0]), ds[1..])
  }

  /** Id `k` is committed or buffered in `s` (for a valid `s`). */
  ghost predicate Known(s: Replica, k: int)
  {
    1 <= k < s.nextExpected || k in s.buffer
  }

  /** Some message of `ds` carries id `k`. */
  ghost predicate HasId(ds: seq<Msg>, k: int)
  {
    exists j :: 0 <= j < |ds| && ds[j].id == k
  }

  /** Every message of `ds` carries an id in `1 .. n`. */
  ghost predicate IdsWithin(ds: seq<Msg>, n: int)
  {
    forall j :: 0 <= j < |ds| ==> 1 <= ds[j].id <= n
  }

  /** One delivery of a positive id adds exactly that id to the known ids. */
  lemma ApplyKnown(s: Replica, m: Msg)
    requires ValidReplica(s) && m.id >= 1
    ensures forall k :: Known(Apply(s, m), k) <==> Known(s, k) || k == m.id
  {
    CommittedIds(s);
    if m.id !in IdsOf(s.messages) && m.id !in s.buffer && m.id == s.nextExpected {
      ApplyCommit(s, m);
    }
  }

  /** A series of deliveries keeps the invariant and adds exactly its ids. */
  lemma {:induction false} ApplyAllKnown(s: Replica, ds: seq<Msg>)
    requires ValidReplica(s)
    requires forall j :: 0 <= j < |ds| ==> ds[j].id >= 1
    ensures ValidReplica(ApplyAll(s, ds))
    ensures forall k :: Known(ApplyAll(s, ds), k) <==> Known(s, k) || HasId(ds, k)
    decreases |ds|
  {
    if ds != [] {
      var s' := Apply(s, ds[0]);
      ApplyPreservesValid(s, ds[0]);
      ApplyKnown(s, ds[0]);
      ApplyAllKnown(s', ds[1..]);
      forall k ensures HasId(ds, k) <==> k == ds[0].id || HasId(ds[1..], k) {
        if HasId(ds, k) && k != ds[0].id {
          var j :| 0 <= j < |ds| && ds[j].id == k;
          assert ds[1..][j - 1] == ds[j];
        }
        if HasId(ds[1..], k) {
          var j :| 0 <= j < |ds[1..]| && ds[1..][j].id == k;
          assert ds[j + 1] == ds[1..][j];
        }
      }
    }
  }

  /** A valid state that knows exactly the ids `1 .. n` has committed them all. */
  lemma KnownExactlyIsComplete(r: Replica, n: nat)
    requires ValidReplica(r)
    requires forall k :: Known(r, k) <==> 1 <= k <= n
    ensures r.nextExpected == n + 1 && |r.messages| == n && r.buffer == map[]
  {
    assert !Known(r, r.nextExpected);
    assert !Known(r, n + 1);
    forall k ensures k !in r.buffer {
      assert Known(r, k) <==> 1 <= k <= n;
    }
    assert r.buffer.Keys == {};
  }

  /**
   From a valid state that knows only ids in `1 .. n`, delivering messages
   with ids in `1 .. n` that supply every id it lacks, in any order and with
   any repetition, commits exactly `1 .. n` and empties the buffer.
   */
  lemma ConvergesFrom(s: Replica, ds: seq<Msg>, n: nat)
    requires ValidReplica(s)
    requires forall k :: Known(s, k) ==> 1 <= k <= n
    requires IdsWithin(ds, n)
    requires forall k :: 1 <= k <= n ==> Known(s, k) || HasId(ds, k)
    ensures var r := ApplyAll(s, ds);
      ValidReplica(r) && r.nextExpected == n + 1 && |r.messages| == n && r.buffer == map[]
  {
    ApplyAllKnown(s, ds);
    var r := ApplyAll(s, ds);
    forall k ensures Known(r, k) <==> 1 <= k <= n {
      if HasId(ds, k) {
        var j :| 0 <= j < |ds| && ds[j].id == k;
      }
    }
    KnownExactlyIsComplete(r, n);
  }

  /**
   Total ordering from a fresh secondary: delivering every id of `1 .. n`,
   in any order and with any repetition, ends with committed ids exactly
   `1, ..., n` in order, an empty buffer and cursor `n + 1`.
   */
  lemma TotalOrder(ds: seq<Msg>, n: nat)
    requires IdsWithin(ds, n)
    requires forall k :: 1 <= k <= n ==> HasId(ds, k)
    ensures var r := ApplyAll(Initial, ds);
      |r.messages| == n && Consecutive(r.messages) &&
      r.buffer == map[] && r.nextExpected == n + 1
  {
    ConvergesFrom(Initial, ds, n);
  }

  /** A message the master created: its id names its own position in `log`. */
  ghost predicate FromLog(m: Msg, log: seq<Msg>)
  {
    1 <= m.id <= |log| && log[m.id - 1] == m
  }

  /** Everything the secondary holds, committed or buffered, is an entry of `log`. */
  ghost predicate AgreesWith(s: Replica, log: seq<Msg>)
  {
    |s.messages| <= |log| &&
    (forall i :: 0 <= i < |s.messages| ==> s.messages[i] == log[i]) &&
    (forall k :: k in s.buffer ==> 1 <= k <= |log| && s.buffer[k] == log[k - 1])
  }

  /**
   A committed list that extends an agreeing one by the expected entry and
   then by buffered entries of an agreeing buffer still agrees with `log`.
   */
  lemma ExtendedAgrees(ms: seq<Msg>, m: Msg, buf: map<int, Msg>, r: seq<Msg>, log: seq<Msg>)
    requires |ms| <= |log| && forall i :: 0 <= i < |ms| ==> ms[i] == log[i]
    requires forall k :: k in buf ==> 1 <= k <= |log| && buf[k] == log[k - 1]
    requires FromLog(m, log) && m.id == |ms| + 1
    requires |r| > |ms| && r[..|ms|] == ms && r[|ms|] == m
    requires forall k :: |ms| + 1 < k <= |r| ==> k in buf && r[k - 1] == buf[k]
    ensures |r| <= |log| && forall i :: 0 <= i < |r| ==> r[i] == log[i]
  {
    if |r| > |ms| + 1 {
      assert |r| in buf;
    }
    forall i | 0 <= i < |r| ensures r[i] == log[i] {
      if i < |ms| {
        assert r[i] == r[..|ms|][i];
      } else if i > |ms| {
        assert i + 1 in buf && r[i] == buf[i + 1];
      }
    }
  }

  /** Committing the expected id keeps the secondary in agreement with `log`. */
  lemma CommitAgrees(s: Replica, m: Msg, log: seq<Msg>)
    requires ValidReplica(s) && AgreesWith(s, log) && FromLog(m, log)
    requires m.id == s.nextExpected
    ensures AgreesWith(Apply(s, m), log)
  {
    ApplyCommit(s, m);
    var r := Apply(s, m);
    ExtendedAgrees(s.messages, m, s.buffer, r.messages, log);
    assert forall k :: k in r.buffer ==> 1 <= k <= |log| && r.buffer[k] == log[k - 1];
  }

  /** Delivering an entry of `log` keeps the secondary in agreement with `log`. */
  lemma ApplyAgrees(s: Replica, m: Msg, log: seq<Msg>)
    requires ValidReplica(s) && AgreesWith(s, log) && FromLog(m, log)
    ensures AgreesWith(Apply(s, m), log)
  {
    if m.id == s.nextExpected {
      CommitAgrees(s, m, log);
    } else {
      var r := Apply(s, m);
      assert r.messages == s.messages;
      assert forall k :: k in r.buffer ==> k in s.buffer || k == m.id;
    }
  }

  lemma {:induction false} ApplyAllAgrees(s: Replica, ds: seq<Msg>, log: seq<Msg>)
    requires ValidReplica(s) && AgreesWith(s, log)
    requires forall j :: 0 <= j < |ds| ==> FromLog(ds[j], log)
    ensures AgreesWith(ApplyAll(s, ds), log)
    decreases |ds|
  {
    if ds != [] {
      ApplyAgrees(s, ds[0], log);
      ApplyPreservesValid(s, ds[0]);
      ApplyAllAgrees(Apply(s, ds[0]), ds[1..], log);
    }
  }

  /**
   Catch-up convergence: a secondary that holds only entries of the master's
   log, and then receives every entry it lacks (in any order, with any
   repetition), holds exactly the master's log.
   */
  lemma CatchUpConverges(s: Replica, ds: seq<Msg>, log: seq<Msg>)
    requires Consecutive(log)
    requires ValidReplica(s) && AgreesWith(s, log)
    requires forall j :: 0 <= j < |ds| ==> FromLog(ds[j], log)
    requires forall k :: 1 <= k <= |log| ==> Known(s, k) || HasId(ds, k)
    ensures var r := ApplyAll(s, ds);
      r.messages == log && r.buffer == map[] && r.nextExpected == |log| + 1
  {
    ApplyAllAgrees(s, ds, log);
    ConvergesFrom(s, ds, |log|);
  }

  /**
   Replaying the whole master log in log order, as the master's resend does,
   brings a secondary that agrees with the log up to exactly the log.
   */
  lemma ReplayCatchesUp(s: Replica, log: seq<Msg>)
    requires Consecutive(log)
    requires ValidReplica(s) && AgreesWith(s, log)
    ensures var r := ApplyAll(s, log);
      r.messages == log && r.buffer == map[] && r.nextExpected == |log| + 1
  {
    forall k | 1 <= k <= |log| ensures HasId(log, k) {
      assert log[k - 1].id == k;
    }
    CatchUpConverges(s, log, log);
  }

  /**
   Order-insensitive merge: two scrambled deliveries of the same master log
   to a fresh secondary end in the same state.
   */
  lemma OrderInsensitive(ds1: seq<Msg>, ds2: seq<Msg>, log: seq<Msg>)
    requires Consecutive(log)
    requires forall j :: 0 <= j < |ds1| ==> FromLog(ds1[j], log)
    requires forall j :: 0 <= j < |ds2| ==> FromLog(ds2[j], log)
    requires forall k :: 1 <= k <= |log| ==> HasId(ds1, k) && HasId(ds2, k)
    ensures ApplyAll(Initial, ds1) == ApplyAll(Initial, ds2)
  {
    CatchUpConverges(Initial, ds1, log);
    CatchUpConverges(Initial, ds2, log);
  }
}
