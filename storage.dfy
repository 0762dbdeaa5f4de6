/** The durable-storage contract the log consults for entries the in-memory tail no longer
    holds. A Storage is modelled by what it answers: every query is read-only and reports a
    value together with an error code, so a Storage value never changes under a query. */
module RaftStorage {
  import opened RaftTypes

  /** The error taxonomy: exactly these five codes. */
  datatype Error = OK | ErrCompacted | ErrSnapOutOfDate | ErrUnavailable | ErrSnapshotTemporarilyUnavailable

  /** The fixed message for each error code. */
  function ErrorString(error: Error): (s: string)
    ensures s == "OK" <==> error == OK
    ensures error == ErrCompacted ==> s == "requested index is unavailable due to compaction"
    ensures error == ErrSnapOutOfDate ==> s == "requested index is older than the existing snapshot"
    ensures error == ErrUnavailable ==> s == "requested entry at index is unavailable"
    ensures error == ErrSnapshotTemporarilyUnavailable ==> s == "snapshot is temporarily unavailable"
  {
    match error
    case OK => "OK"
    case ErrCompacted => "requested index is unavailable due to compaction"
    case ErrSnapOutOfDate => "requested index is older than the existing snapshot"
    case ErrUnavailable => "requested entry at index is unavailable"
    case ErrSnapshotTemporarilyUnavailable => "snapshot is temporarily unavailable"
  }

  /** Distinct errors have distinct messages. */
  lemma ErrorStringInjective(a: Error, b: Error)
    ensures ErrorString(a) == ErrorString(b) ==> a == b
  {
  }

  /** What a query writes to its out-parameter, together with the code it returns. */
  datatype Reply<T> = Reply(err: Error, value: T)

  /** The answers of one Storage to the queries the log uses:
      FirstIndex(), LastIndex(), Term(i), GetEntries(low, high) over [low, high), Snapshot(). */
  datatype Storage = Storage(
    firstIndex: Reply<nat>,
    lastIndex: Reply<nat>,
    term: nat -> Reply<nat>,
    entries: (nat, nat) -> Reply<seq<Entry>>,
    snapshot: Reply<Snapshot>)
  {
    /** The answers a caller of the log may rely on:
        FirstIndex and LastIndex succeed (the log treats their failure as fatal), the first
        retained index is at least 1 and at most one past the last; Term fails only with ErrCompacted or ErrUnavailable (any
        other failure is fatal to the log); a successful GetEntries(low, high) returns a run of
        at most high - low entries with consecutive indices starting at low (a short read is
        allowed, it happens when a compaction races the read). */
    ghost predicate Valid() {
      && firstIndex.err == OK && firstIndex.value >= 1
      && lastIndex.err == OK && firstIndex.value <= lastIndex.value + 1
      && (forall i :: term(i).err in {OK, ErrCompacted, ErrUnavailable})
      && (forall low, high :: entries(low, high).err == OK ==> RunFrom(entries(low, high).value, low, high))
    }
  }

  /** `run` holds at most high - low entries whose indices count up from `low`. */
  ghost predicate RunFrom(run: seq<Entry>, low: nat, high: nat) {
    |run| <= high - low && Numbered(run, low)
  }
}
