# Replicated log: secondary ordered apply and master write concern

A model in Dafny of the two pieces of replication logic in a minimal
replicated log, where one master accepts text messages and pushes them to
two secondaries.

- **Secondary ordered-apply engine** (`secondary/secondary.py`, `replicate`
  and `get_messages`). A secondary keeps a committed list `messages`, a
  cursor `next_expected_id` and an out-of-order `pending_buffer` keyed by id.
  Each delivered message takes exactly one of five paths. A committed id is
  dropped. A buffered id is overwritten. An id below the cursor is ignored.
  The expected id is committed, and then every consecutive buffered id after
  it is drained. A future id is buffered.
  `SecondaryApply.Apply` states one delivery on values (`Replica`).
  `SecondaryApply.Secondary` holds the same state in fields. Its `Replicate`
  method runs the source's drain loop, and its contract ties the new state to
  `Apply` of the old one. The lemmas prove these facts about `Apply`:
  - it keeps the invariant: committed ids are `1 .. cursor - 1` in order, and
    buffered keys are above the cursor;
  - each of the five paths behaves as stated above;
  - the committed list only grows at its tail;
  - delivering the same message twice is the same as delivering it once.
  `SecondaryConvergence` covers whole series of deliveries. It proves total
  order: delivering a master log in any order, with any repetition, leaves
  the secondary holding exactly that log.
- **Master id allocation, acknowledgment count and pending rule**
  (`master/master.py`). `Master.MasterNode` holds `messages`, `next_id` and
  `pending`. `PostMessage` allocates the id, appends to the log, tries every
  secondary and counts acknowledgments. `ReplicateToSecondary` queues
  `(url, msg)` in `pending` only when the attempt raises. `ResendPending`
  replays the whole log to one secondary. The ack loop, with its early
  `break`, is `Master.CountAcks`. It is proved equal to the fold `AckCount`,
  and lemmas give that fold's meaning: it lies between 1 and 1 + successes,
  it equals `min(w, 1 + successes)` for `w >= 2`, and for `w <= 1` it depends
  only on the first result.

The network is an input. Each attempt to reach a secondary is an
`HttpOutcome`: either `Response(status)` or `TransportError`. The time a
secondary sleeps, its random injected failure, the HTTP framing and the
logging are not modelled.

The system's design description says more than the code does. In each case
below the model follows the code:
- The description says a secondary inserts out-of-order entries by id. The
  code commits only the expected id and holds later ones in `pending_buffer`.
- The description says every append enqueues the entry for every secondary,
  and that entries leave the queue on acknowledgment. The code appends to
  `pending` only when an attempt raises, and nothing ever removes an entry.
- The description says `w` is validated and that the quorum wait is bounded
  by a timeout. The code accepts any `w`. It waits for every attempt to
  finish and then counts.
- The description has a catch-up request "entries after id N". The code has
  only `resend_pending`, which replays the whole log.

## Model

| member | source | states |
|---|---|---|
| `ReplicatedLog.ConsecutiveIsStrictlyIncreasing` | master/master.py:36-40 | a log whose entry `i` has id `i+1` (what successive posts build) is strictly increasing by id, and its id set is exactly `1..n` |
| `SecondaryApply.DrainShape` | secondary/secondary.py:62-65 | the drain loop stops at the first id at or after the cursor that is not buffered. It appends the buffered entries of the skipped run in id order, keeps the old list as a prefix, and removes exactly that run from the buffer |
| `SecondaryApply.CommittedIds` | secondary/secondary.py:49 | under the invariant, the set `existing_ids` is exactly `1 .. next_expected_id-1` |
| `SecondaryApply.ApplyPreservesValid` | secondary/secondary.py:48-74 | every delivery keeps two facts: committed ids are `1..next_expected_id-1` in list order; each buffered key is above the cursor and is the id of the message stored under it |
| `SecondaryApply.ApplyDuplicate` | secondary/secondary.py:49-52 | delivering an id that is already committed leaves messages, buffer and cursor unchanged |
| `SecondaryApply.ApplyBuffered` | secondary/secondary.py:53-55 | delivering a buffered, uncommitted id replaces only that buffer entry. Messages, cursor, the key set and every other entry are unchanged |
| `SecondaryApply.ApplyStale` | secondary/secondary.py:56-57 | an id below the cursor that is neither committed nor buffered must be `<= 0` under the invariant, and it is ignored with no state change |
| `SecondaryApply.ApplyCommit` | secondary/secondary.py:58-65 | delivering the expected id appends it, then the maximal run of consecutive buffered ids after it. The new cursor is the first id after the run and is not buffered. The buffer keeps exactly its keys above the new cursor, with their old values |
| `SecondaryApply.ApplyFuture` | secondary/secondary.py:68-74 | an unbuffered id above the cursor is stored in the buffer under its id, and nothing else changes |
| `SecondaryApply.ApplyGrows` | secondary/secondary.py:59-65 | `messages` only grows by appending at the tail, and the cursor never decreases |
| `SecondaryApply.ApplyIdempotent` | secondary/secondary.py:32-35 | delivering the same message a second time changes nothing (deduplication) |
| `SecondaryApply.SortByIdSorted` | secondary/secondary.py:87 | the snapshot `sorted(messages, key=id)` is in non-decreasing id order |
| `SecondaryApply.SortByIdPermutes` | secondary/secondary.py:87 | the snapshot is a permutation of `messages` |
| `SecondaryApply.SortByIdOfSorted` | secondary/secondary.py:87 | sorting a list already in id order returns it unchanged |
| `SecondaryApply.Secondary.constructor` | secondary/secondary.py:20-23 | a secondary starts with no messages, cursor 1 and an empty buffer, which satisfies the invariant |
| `SecondaryApply.Secondary.Replicate` | secondary/secondary.py:38-74 | the dedup / overwrite / ignore / commit-and-drain / buffer step with its `while` drain loop leaves exactly `Apply(old state, msg)` and keeps the invariant |
| `SecondaryApply.Secondary.GetMessages` | secondary/secondary.py:84-88 | the returned snapshot is the id-sorted list, and under the invariant it equals `messages` |
| `SecondaryConvergence.ApplyKnown` | secondary/secondary.py:48-74 | a delivery of a positive id adds exactly that id to the committed or buffered ids |
| `SecondaryConvergence.ApplyAllKnown` | secondary/secondary.py:48-74 | a series of deliveries of positive ids keeps the invariant and adds exactly the delivered ids to the known ids |
| `SecondaryConvergence.KnownExactlyIsComplete` | secondary/secondary.py:58-74 | a valid state whose committed or buffered ids are exactly `1..n` has cursor `n+1`, `n` committed messages and an empty buffer |
| `SecondaryConvergence.ConvergesFrom` | secondary/secondary.py:48-74 | from a valid state that knows only ids in `1..n`, delivering every missing id of `1..n` (any order, any repetition) commits exactly `1..n` and empties the buffer |
| `SecondaryConvergence.TotalOrder` | secondary/secondary.py:34-35 | from the initial state, delivering every id of `1..n` in any order with repetitions gives committed ids `1..n` in order, an empty buffer and cursor `n+1` |
| `SecondaryConvergence.ExtendedAgrees` | secondary/secondary.py:59-65 | a committed list is the agreeing old list, then the expected log entry, then buffered entries taken from an agreeing buffer in id order. Such a list is still a prefix of the master log |
| `SecondaryConvergence.CommitAgrees` | secondary/secondary.py:58-65 | committing the expected id, and draining after it, keeps every committed and buffered entry equal to the master-log entry with the same id |
| `SecondaryConvergence.ApplyAgrees` | secondary/secondary.py:48-74 | delivering an entry of a master log keeps every committed and buffered entry equal to the log entry with the same id |
| `SecondaryConvergence.ApplyAllAgrees` | secondary/secondary.py:48-74 | the same for a whole series of log entries |
| `SecondaryConvergence.CatchUpConverges` | secondary/secondary.py:34-35 | a secondary holding only master-log entries that receives every entry it lacks, in any order with repetitions, ends holding exactly the master log, with an empty buffer |
| `SecondaryConvergence.ReplayCatchesUp` | master/master.py:97-98 | replaying the whole master log in log order to a secondary that agrees with it brings that secondary to exactly the master log |
| `SecondaryConvergence.OrderInsensitive` | secondary/secondary.py:34-35 | two scrambled deliveries of the same master log to fresh secondaries end in the same state |
| `Master.CountAcks` | master/master.py:50-57 | the `for r in results` loop with its early `break` returns the acknowledgment fold `AckCount(results, w)` |
| `Master.AckFoldBounds` | master/master.py:53-55 | from any starting count, the fold never drops below that count and adds at most one per successful result |
| `Master.AckCountBounds` | master/master.py:50-55 | the reported count is at least 1 (the master itself) and at most 1 + the number of non-exception, truthy results |
| `Master.AckFoldQuorum` | master/master.py:53-57 | while the count is below `w`, the fold ends at `min(w, count + successes)` |
| `Master.AckCountQuorum` | master/master.py:53-57 | for `w >= 2` the count is `min(w, 1 + successes)` |
| `Master.AckCountLowConcern` | master/master.py:53-57 | for `w <= 1` the loop breaks after the first result: the count is 2 if that result acknowledges and 1 otherwise, which includes the case of no results |
| `Master.RepliesSuccesses` | master/master.py:64-78 | `post_message` folds one `Returned` result per attempt. The successes among them are exactly the attempts answered with status 200 |
| `Master.PostAcks` | master/master.py:50-57 | in terms of the HTTP outcomes, `post_message` reports between 1 and 1 + the 200 replies, and exactly `min(w, 1 + 200 replies)` when `w >= 2` |
| `Master.EnqueuedMembers` | master/master.py:75-77 | an item is queued in `pending` exactly when one of its attempts raised |
| `Master.EnqueuedInOrder` | master/master.py:97-98 | queuing keeps the attempt order: attempts with increasing ids queue with increasing ids |
| `Master.ReplayQueuesInLogOrder` | master/master.py:97-98 | replaying a well-formed log queues the failed messages in log order, each addressed to the replaying secondary and each an entry of the log |
| `Master.MasterNode.constructor` | master/master.py:16-18 | the master starts with an empty log, `next_id` 1 and an empty `pending` |
| `Master.MasterNode.ReplicateToSecondary` | master/master.py:69-78 | the result is true exactly on status 200. A raised attempt appends `(url, msg)` to `pending` and returns false. A non-200 reply returns false and leaves `pending` unchanged |
| `Master.MasterNode.PostMessage` | master/master.py:36-57 | the new message has id old `next_id`. `next_id` goes up by one and the log becomes the old log plus that message, so gapless ids are kept. `pending` gains exactly the raised attempts. The returned count is the ack fold of the attempts' results |
| `Master.MasterNode.ResendPending` | master/master.py:97-98 | every log message is attempted once to `url`, in log order. `pending` gains exactly the raised attempts, and the log is unchanged |

## Left out

- HTTP routing, JSON bodies and `jsonify` responses are not modelled. The
  model takes a message's id as an integer that equals its `"id"` field; the
  `int(msg.get("id"))` parse and its failure are left out. `w` is taken as an
  integer; the `int(data.get("w", 1))` default and parse are left out. The
  text is taken as a string, so a missing `"text"` (None) is not modelled.
- Master's `get_messages` only returns `messages` as JSON, so it has no
  member of its own.
- `threading.Lock`: each `replicate` call is one atomic step.
- The secondary's `REPLICA_DELAY` sleep and its `ERROR_RATE` random HTTP 500
  are not modelled. Both happen outside the state update, so `Replicate`
  returns no status.
- `httpx` calls are not modelled. Each attempt is an `HttpOutcome` input.
- `Master.MasterNode.PostMessage` is modelled as one atomic step, but the
  source takes no lock around reading `next_id`, incrementing it and
  appending to `messages` (master/master.py:36-40). Flask's threaded server
  can run two posts at once, so in the source two messages could get the
  same id or be appended out of id order. Gapless ids in `MasterNode.Valid()`
  are proved only for posts that run one at a time.
- `Master.MasterNode.ResendPending` is modelled as one atomic step that
  replays the log as it was when the call started. In the source, each
  `await` in `for msg in messages` (master/master.py:97-98) lets other
  requests run. A post that appends during the replay is therefore replayed
  too, and that case is not modelled.
- `Master.MasterNode.PostMessage`: the attempts run concurrently under
  `asyncio.gather`, but the model tries them one after another in
  secondary-list order. So `pending` gains the raised attempts in list order.
  In the source their relative order depends on which task raises first.
- `Master.TaskResult.Raised` is the `isinstance(r, Exception)` case of the
  ack loop. It is kept in the fold, but `post_message` never produces it,
  because `replicate_to_secondary` catches the exception itself.
- Logging is not modelled.
- There is no retry or backoff worker, no quorum timeout and no `w`
  validation. The code has none of these: `pending` is only ever appended to,
  and any `w` is accepted.
- `SecondaryApply.Secondary.Replicate` requires the invariant on entry. The
  module state starts in the initial state and changes only through
  `replicate`, so the invariant always holds there.
- `SecondaryApply.Secondary.GetMessages` requires the invariant for the same
  reason. The source needs no such condition, and neither does the first
  `ensures` (the snapshot is the id-sorted list). Only the second `ensures`,
  which says the snapshot equals `messages`, relies on the invariant.
- `SecondaryApply.SortById` models Python's stable `sorted` as an insertion
  that places each element after its equals. The proofs show it sorts and
  permutes. Stability holds by construction but is not stated as a lemma.
