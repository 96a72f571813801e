/**
 The message entry shared by the master and the secondaries, and the shape
 of a well-formed replicated log: entry `i` (0-based) carries id `i + 1`.
 */
module ReplicatedLog {

  /** A message `{id, text}` as the master creates it and posts it. */
  datatype Msg = Msg(id: int, text: string)

  /** The ids of `log`, in list order, are exactly `1, 2, ..., |log|`. */
  ghost predicate Consecutive(log: seq<Msg>)
  {
    forall i :: 0 <= i < |log| ==> log[i].id == i + 1
  }

  /** The set of ids present in a list of messages. */
  function IdsOf(ms: seq<Msg>): set<int>
  {
    set m | m in ms :: m.id
  }

  /** A consecutive log is strictly increasing by id and has no duplicate id. */
  lemma ConsecutiveIsStrictlyIncreasing(log: seq<Msg>)
    requires Consecutive(log)
    ensures forall i, j :: 0 <= i < j < |log| ==> log[i].id < log[j].id
    ensures forall k :: k in IdsOf(log) <==> 1 <= k <= |log|
  {
    forall k | 1 <= k <= |log| ensures k in IdsOf(log) {
      assert log[k - 1] in log;
    }
  }
}
