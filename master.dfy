/**
 The master (master/master.py): id allocation and the local log append, the
 write-concern acknowledgment count, the rule that queues a failed
 replication in `pending`, and the replay of the whole log to one secondary.

 Every HTTP attempt is an input `HttpOutcome`; the concurrent fan-out of
 `asyncio.gather` is taken one secondary at a time, in the order of the
 secondary list.
 */
module Master {
  import opened ReplicatedLog

  /** How one POST to a secondary's `/replicate` ends. */
  datatype HttpOutcome =
    | Response(status: int)   // the secondary answered with this status code
    | TransportError          // the client raised (unreachable, timeout, ...)

  /** What `asyncio.gather(..., return_exceptions=True)` yields per task. */
  datatype TaskResult =
    | Returned(value: bool)
    | Raised

  /** An entry of `pending`: the secondary's url and the message it missed. */
  datatype PendingItem = PendingItem(url: string, msg: Msg)

  /** The fixed secondary list of `post_message`. */
  const Secondaries: seq<string> := ["http://secondary1:5000", "http://secondary2:5000"]

  /** A replication counts as acknowledged only on status 200. */
  predicate Delivered(o: HttpOutcome)
  {
    o.Response? && o.status == 200
  }

  /** A task result adds an acknowledgment when it is not an exception and is truthy. */
  predicate Acked(r: TaskResult)
  {
    r.Returned? && r.value
  }

  /** The number of results that add an acknowledgment. */
  function Successes(results: seq<TaskResult>): nat
  {
    if results == [] then 0 else (if Acked(results[0]) then 1 else 0) + Successes(results[1..])
  }

  /**
   The ack loop from count `count` on: each acknowledging result adds one,
   and the loop stops right after any result once the count reaches `w`.
   */
  function AckFold(results: seq<TaskResult>, count: int, w: int): int
  {
    if results == [] then count
    else
      var c := if Acked(results[0]) then count + 1 else count;
      if c >= w then c else AckFold(results[1..], c, w)
  }

  /** The acknowledgment count reported to the client; the master counts itself. */
  function AckCount(results: seq<TaskResult>, w: int): int
  {
    AckFold(results, 1, w)
  }

  /** The ack loop of `post_message`, with its early `break`. */
  method CountAcks(results: seq<TaskResult>, w: int) returns (ackCount: int)
    ensures ackCount == AckCount(results, w)
  {
    ackCount := 1;
    var i := 0;
    while i < |results|
      invariant 0 <= i <= |results|
      invariant AckFold(results[i..], ackCount, w) == AckCount(results, w)
    {
      var r := results[i];
      if r.Returned? && r.value {
        ackCount := ackCount + 1;
      }
      if ackCount >= w {
        break;
      }
      i := i + 1;
    }
  }

  /** The fold never loses a count it started with and adds at most one per success. */
  lemma {:induction false} AckFoldBounds(results: seq<TaskResult>, count: int, w: int)
    ensures count <= AckFold(results, count, w) <= count + Successes(results)
    decreases |results|
  {
    if results != [] {
      var c := if Acked(results[0]) then count + 1 else count;
      AckFoldBounds(results[1..], c, w);
    }
  }

  /** The count is at least 1 (the master itself) and at most 1 + the successes. */
  lemma AckCountBounds(results: seq<TaskResult>, w: int)
    ensures 1 <= AckCount(results, w) <= 1 + Successes(results)
  {
    AckFoldBounds(results, 1, w);
  }

  /** Below the quorum the fold counts every success, up to `w` and no further. */
  lemma {:induction false} AckFoldQuorum(results: seq<TaskResult>, count: int, w: int)
    requires count < w
    ensures AckFold(results, count, w) == Min(w, count + Successes(results))
    decreases |results|
  {
    if results != [] {
      var c := if Acked(results[0]) then count + 1 else count;
      if c < w {
        AckFoldQuorum(results[1..], c, w);
      }
    }
  }

  function Min(a: int, b: int): int
  {
    if a <= b then a else b
  }

  /** For `w >= 2` the count is `w` when enough secondaries acknowledge, else 1 + successes. */
  lemma AckCountQuorum(results: seq<TaskResult>, w: int)
    requires w >= 2
    ensures AckCount(results, w) == Min(w, 1 + Successes(results))
  {
    AckFoldQuorum(results, 1, w);
  }

  /**
   For `w <= 1` the loop breaks after the first result: the count is 2 when
   that result acknowledges and 1 otherwise, whatever the later results are.
   */
  lemma AckCountLowConcern(results: seq<TaskResult>, w: int)
    requires w <= 1
    ensures AckCount(results, w) == (if results != [] && Acked(results[0]) then 2 else 1)
  {
  }

  /** The results `post_message` folds: one `Returned` per secondary attempt. */
  function Replies(outcomes: seq<HttpOutcome>): (rs: seq<TaskResult>)
    ensures |rs| == |outcomes|
  {
    seq(|outcomes|, i requires 0 <= i < |outcomes| => Returned(Delivered(outcomes[i])))
  }

  /** The number of attempts answered with status 200. */
  function DeliveredCount(outcomes: seq<HttpOutcome>): nat
  {
    if outcomes == [] then 0 else (if Delivered(outcomes[0]) then 1 else 0) + DeliveredCount(outcomes[1..])
  }

  lemma {:induction false} RepliesSuccesses(outcomes: seq<HttpOutcome>)
    ensures Successes(Replies(outcomes)) == DeliveredCount(outcomes)
    decreases |outcomes|
  {
    if outcomes != [] {
      assert Replies(outcomes)[1..] == Replies(outcomes[1..]);
      RepliesSuccesses(outcomes[1..]);
    }
  }

  /**
   The acknowledgments `post_message` reports, in terms of the HTTP outcomes:
   at least 1, at most 1 + the 200 replies, and for `w >= 2` exactly
   `min(w, 1 + 200 replies)`.
   */
  lemma PostAcks(outcomes: seq<HttpOutcome>, w: int)
    ensures 1 <= AckCount(Replies(outcomes), w) <= 1 + DeliveredCount(outcomes)
    ensures w >= 2 ==> AckCount(Replies(outcomes), w) == Min(w, 1 + DeliveredCount(outcomes))
  {
    RepliesSuccesses(outcomes);
    AckCountBounds(Replies(outcomes), w);
    if w >= 2 {
      AckCountQuorum(Replies(outcomes), w);
    }
  }

  /** The attempts whose outcome raised, in attempt order: what `pending` gains. */
  function Enqueued(attempts: seq<PendingItem>, outcomes: seq<HttpOutcome>): seq<PendingItem>
    requires |attempts| == |outcomes|
    decreases |attempts|
  {
    if attempts == [] then []
    else
      Enqueued(attempts[..|attempts| - 1], outcomes[..|outcomes| - 1]) +
      (if outcomes[|outcomes| - 1].TransportError? then [attempts[|attempts| - 1]] else [])
  }

  /** An item is enqueued exactly when some attempt of it raised. */
  lemma {:induction false} EnqueuedMembers(attempts: seq<PendingItem>, outcomes: seq<HttpOutcome>, p: PendingItem)
    requires |attempts| == |outcomes|
    ensures p in Enqueued(attempts, outcomes) <==>
      exists i :: 0 <= i < |attempts| && attempts[i] == p && outcomes[i].TransportError?
    decreases |attempts|
  {
    if attempts != [] {
      var n := |attempts| - 1;
      EnqueuedMembers(attempts[..n], outcomes[..n], p);
      if exists i :: 0 <= i < |attempts| && attempts[i] == p && outcomes[i].TransportError? {
        var i :| 0 <= i < |attempts| && attempts[i] == p && outcomes[i].TransportError?;
        if i < n {
          assert attempts[..n][i] == p && outcomes[..n][i].TransportError?;
        }
      }
      if exists i :: 0 <= i < n && attempts[..n][i] == p && outcomes[..n][i].TransportError? {
        var i :| 0 <= i < n && attempts[..n][i] == p && outcomes[..n][i].TransportError?;
        assert attempts[i] == p && outcomes[i].TransportError?;
      }
    }
  }

  /** The message ids of `items` strictly increase. */
  ghost predicate IdsIncreasing(items: seq<PendingItem>)
  {
    forall i, j :: 0 <= i < j < |items| ==> items[i].msg.id < items[j].msg.id
  }

  /** Queuing keeps the attempt order: increasing ids stay increasing. */
  lemma {:induction false} EnqueuedInOrder(attempts: seq<PendingItem>, outcomes: seq<HttpOutcome>)
    requires |attempts| == |outcomes| && IdsIncreasing(attempts)
    ensures IdsIncreasing(Enqueued(attempts, outcomes))
    decreases |attempts|
  {
    if attempts != [] {
      var n := |attempts| - 1;
      var init := Enqueued(attempts[..n], outcomes[..n]);
      assert IdsIncreasing(attempts[..n]);
      EnqueuedInOrder(attempts[..n], outcomes[..n]);
      forall i | 0 <= i < |init| ensures init[i].msg.id < attempts[n].msg.id {
        EnqueuedMembers(attempts[..n], outcomes[..n], init[i]);
        var k :| 0 <= k < n && attempts[..n][k] == init[i] && outcomes[..n][k].TransportError?;
        assert attempts[k] == init[i];
      }
    }
  }

  /** The attempts of one message to every secondary in `urls`. */
  function FanOut(urls: seq<string>, msg: Msg): (a: seq<PendingItem>)
    ensures |a| == |urls|
  {
    seq(|urls|, i requires 0 <= i < |urls| => PendingItem(urls[i], msg))
  }

  /** The attempts of every message of `log` to one secondary, in log order. */
  function Replay(url: string, log: seq<Msg>): (a: seq<PendingItem>)
    ensures |a| == |log|
  {
    seq(|log|, i requires 0 <= i < |log| => PendingItem(url, log[i]))
  }

  /**
   Replaying a well-formed log queues the failed messages in log order, each
   addressed to the replaying secondary.
   */
  lemma ReplayQueuesInLogOrder(url: string, log: seq<Msg>, outcomes: seq<HttpOutcome>)
    requires Consecutive(log) && |outcomes| == |log|
    ensures IdsIncreasing(Enqueued(Replay(url, log), outcomes))
    ensures forall p :: p in Enqueued(Replay(url, log), outcomes) ==> p.url == url && p.msg in log
  {
    EnqueuedInOrder(Replay(url, log), outcomes);
    forall p | p in Enqueued(Replay(url, log), outcomes) ensures p.url == url && p.msg in log {
      EnqueuedMembers(Replay(url, log), outcomes, p);
    }
  }

  /** The master service: its module-level `messages`, `next_id` and `pending`. */
  class MasterNode {
    var messages: seq<Msg>
    var nextId: int
    var pending: seq<PendingItem>

    /**
     Entry `i` of the log has id `i + 1`, `nextId` is the id the next post
     gets, and every queued message is an entry of the log.
     */
    ghost predicate Valid()
      reads this
    {
      Consecutive(messages) && nextId == |messages| + 1 &&
      (forall p :: p in pending ==> p.msg in messages)
    }

    constructor ()
      ensures Valid() && messages == [] && nextId == 1 && pending == []
    {
      messages := [];
      nextId := 1;
      pending := [];
    }

    /**
     One replication attempt: true exactly on status 200; only a raised
     attempt queues `(url, msg)` in `pending`.
     */
    method ReplicateToSecondary(url: string, msg: Msg, outcome: HttpOutcome) returns (ok: bool)
      modifies this`pending
      ensures ok == Delivered(outcome)
      ensures outcome.TransportError? ==> pending == old(pending) + [PendingItem(url, msg)]
      ensures !outcome.TransportError? ==> pending == old(pending)
    {
      match outcome {
        case Response(status) =>
          if status == 200 {
            return true;
          }
        case TransportError =>
          pending := pending + [PendingItem(url, msg)];
      }
      return false;
    }

    /**
     Accepts `text` under write concern `w`: the message gets the current
     `nextId`, which then moves on by one, and is appended to the log; every
     secondary is tried once, the raised attempts are queued, and the
     acknowledgment count of the results is returned with the message.
     */
    method PostMessage(text: string, w: int, outcomes: seq<HttpOutcome>) returns (acks: int, msg: Msg)
      requires Valid() && |outcomes| == |Secondaries|
      modifies this
      ensures Valid()
      ensures msg == Msg(old(nextId), text)
      ensures nextId == old(nextId) + 1
      ensures messages == old(messages) + [msg]
      ensures pending == old(pending) + Enqueued(FanOut(Secondaries, msg), outcomes)
      ensures acks == AckCount(Replies(outcomes), w)
    {
      msg := Msg(nextId, text);
      nextId := nextId + 1;
      messages := messages + [msg];
      ghost var attempts := FanOut(Secondaries, msg);
      var results: seq<TaskResult> := [];
      var i := 0;
      while i < |Secondaries|
        invariant 0 <= i <= |Secondaries|
        invariant messages == old(messages) + [msg] && nextId == old(nextId) + 1
        invariant pending == old(pending) + Enqueued(attempts[..i], outcomes[..i])
        invariant results == Replies(outcomes)[..i]
        invariant forall p :: p in pending ==> p.msg in messages
      {
        var ok := ReplicateToSecondary(Secondaries[i], msg, outcomes[i]);
        assert attempts[..i + 1][..i] == attempts[..i] && outcomes[..i + 1][..i] == outcomes[..i];
        results := results + [Returned(ok)];
        i := i + 1;
      }
      assert attempts[..i] == attempts && outcomes[..i] == outcomes;
      assert results == Replies(outcomes);
      acks := CountAcks(results, w);
    }

    /**
     A restarted secondary at `url` asks for the log: every message is
     replicated to it once, in log order, and the raised attempts are queued.
     */
    method ResendPending(url: string, outcomes: seq<HttpOutcome>)
      requires Valid() && |outcomes| == |messages|
      modifies this`pending
      ensures Valid()
      ensures pending == old(pending) + Enqueued(Replay(url, messages), outcomes)
    {
      ghost var attempts := Replay(url, messages);
      var i := 0;
      while i < |messages|
        invariant 0 <= i <= |messages|
        invariant pending == old(pending) + Enqueued(attempts[..i], outcomes[..i])
        invariant forall p :: p in pending ==> p.msg in messages
      {
        var _ := ReplicateToSecondary(url, messages[i], outcomes[i]);
        assert attempts[..i + 1][..i] == attempts[..i] && outcomes[..i + 1][..i] == outcomes[..i];
        i := i + 1;
      }
      assert attempts[..i] == attempts && outcomes[..i] == outcomes;
    }
  }
}
