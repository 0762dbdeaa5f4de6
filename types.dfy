/** Values shared by the log, replication and read-index modules.
    Entries and snapshots carry only the fields the core reads: their index and term.
    A message carries only the fields the core reads from it. */
module RaftTypes {

  datatype Option<T> = None | Some(value: T)

  /** A log entry: its position in the log and the term of the leader that created it. */
  datatype Entry = Entry(index: nat, term: nat)

  /** A snapshot stands for the compacted prefix [1, index] whose last entry has `term`. */
  datatype Snapshot = Snapshot(index: nat, term: nat)

  /** The fields of a raft message that Progress and ReadOnly read:
      `reject`, `index`, `rejectHint` for append responses and snapshot status,
      `from` and `context` for heartbeat acknowledgements, and the data of each entry
      (a read-index request carries its context token as the data of its first entry). */
  datatype Message = Message(
    reject: bool,
    index: nat,
    rejectHint: nat,
    from: nat,
    context: string,
    entryData: seq<string>)

  /** The entries of `run` carry consecutive indices starting at `from`. */
  ghost predicate Numbered(run: seq<Entry>, from: nat) {
    forall k :: 0 <= k < |run| ==> run[k].index == from + k
  }

  /** A suffix of a numbered run is numbered from where it starts. */
  lemma NumberedSuffix(run: seq<Entry>, from: nat, n: nat)
    requires Numbered(run, from) && n <= |run|
    ensures Numbered(run[n..], from + n)
  {
    forall k | 0 <= k < |run| - n
      ensures run[n..][k].index == from + n + k
    {
      assert run[n..][k] == run[n + k];
    }
  }

  /** A slice of a numbered run is numbered from where it starts. */
  lemma NumberedSlice(run: seq<Entry>, from: nat, a: nat, b: nat)
    requires Numbered(run, from) && a <= b <= |run|
    ensures Numbered(run[a..b], from + a)
  {
    forall k | 0 <= k < b - a
      ensures run[a..b][k].index == from + a + k
    {
      assert run[a..b][k] == run[a + k];
    }
  }

  /** Two numbered runs that meet make one numbered run. */
  lemma NumberedConcat(a: seq<Entry>, b: seq<Entry>, from: nat)
    requires Numbered(a, from) && Numbered(b, from + |a|)
    ensures Numbered(a + b, from)
  {
    forall k | 0 <= k < |a + b|
      ensures (a + b)[k].index == from + k
    {
      if k >= |a| {
        assert (a + b)[k] == b[k - |a|];
      }
    }
  }

  /** The smaller of `a` and `b`. */
  function Min(a: nat, b: nat): (r: nat)
    ensures r <= a && r <= b && (r == a || r == b)
  {
    if a <= b then a else b
  }

  /** The larger of `a` and `b`. */
  function Max(a: nat, b: nat): (r: nat)
    ensures r >= a && r >= b && (r == a || r == b)
  {
    if a >= b then a else b
  }
}
