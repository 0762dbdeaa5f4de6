/** The replicated log of one node: the durable Storage, the in-memory Unstable tail, and the
    two watermarks `committed` (highest index known to be committed) and `applied` (highest
    index handed to the state machine). Storage is read, never written: the log treats it as
    a constant source of answers. */
module RaftLogs {
  import opened RaftTypes
  import opened EntrySlices
  import opened RaftStorage
  import opened Unstables

  /** What a leader's append request guarantees: the entries follow `index` without gaps, and
      every term is at least 1 (term 0 belongs only to the dummy entry at index 0). */
  ghost predicate WellFormedAppend(index: nat, term: nat, es: EntrySlice) {
    && es.InRange()
    && ConsecutiveFrom(es, index + 1)
    && (forall k :: 0 <= k < es.size ==> es.At(k).term >= 1)
    && (index == 0 || term >= 1)
  }

  /** The term read for an index, or 0 when the index has been compacted away. Any other
      error is fatal. */
  function ZeroTermOnErrCompacted(term: nat, error: Error): (t: nat)
    requires error == OK || error == ErrCompacted
    ensures error == OK ==> t == term
    ensures error == ErrCompacted ==> t == 0
  {
    if error == OK then term else 0
  }

  /** A log ending at (lastTerm, lastIndex) is no more up to date than one ending at
      (term, index): a later last term wins, and for equal last terms the longer log wins. */
  predicate AtLeastAsUpToDate(term: nat, index: nat, lastTerm: nat, lastIndex: nat) {
    term > lastTerm || (term == lastTerm && index >= lastIndex)
  }

  /** Being at least as up to date is a total order on (last term, last index): any two logs
      compare, only equal ends compare both ways, and the comparison chains. */
  lemma UpToDateTotalOrder(t1: nat, i1: nat, t2: nat, i2: nat, t3: nat, i3: nat)
    ensures AtLeastAsUpToDate(t1, i1, t2, i2) || AtLeastAsUpToDate(t2, i2, t1, i1)
    ensures AtLeastAsUpToDate(t1, i1, t2, i2) && AtLeastAsUpToDate(t2, i2, t1, i1) ==> t1 == t2 && i1 == i2
    ensures AtLeastAsUpToDate(t1, i1, t2, i2) && AtLeastAsUpToDate(t2, i2, t3, i3) ==>
      AtLeastAsUpToDate(t1, i1, t3, i3)
  {
  }

  class RaftLog {
    const storage: Storage
    const unstable: Unstable
    var committed: nat
    var applied: nat

    /** The parts the queries rely on; without a pending snapshot, Storage retains nothing
        past the start of the unstable tail. */
    ghost predicate LogValid()
      reads unstable
    {
      && storage.Valid() && unstable.Valid()
      && (unstable.snapshot.None? ==> storage.firstIndex.value <= unstable.first)
    }

    /** The watermark invariant: applied <= committed <= LastIndex(); a pending snapshot is
        committed, and the first retained index is never past committed + 1 (only committed
        entries are ever compacted). */
    ghost predicate Valid()
      reads this, unstable
    {
      && LogValid()
      && applied <= committed <= LastIndex()
      && (unstable.snapshot.Some? ==> unstable.snapshot.value.index <= committed)
      && (unstable.snapshot.None? ==> storage.firstIndex.value <= committed + 1)
    }

    /** A log over `storage`: the unstable tail starts right after the last stored index and
        both watermarks sit just below the first stored index. */
    constructor (storage: Storage)
      requires storage.Valid()
      ensures Valid() && fresh(unstable)
      ensures this.storage == storage
      ensures committed == storage.firstIndex.value - 1 && applied == committed
      ensures unstable.first == storage.lastIndex.value + 1 && unstable.Contents == [] && unstable.snapshot == None
    {
      this.storage := storage;
      var firstIndex := storage.firstIndex.value;
      var lastIndex := storage.lastIndex.value;
      unstable := new Unstable(lastIndex + 1);
      committed := firstIndex - 1;
      applied := firstIndex - 1;
    }

    /** The first index of the log: right after a pending snapshot, else the first stored index. */
    function FirstIndex(): (r: nat)
      reads unstable
      requires LogValid()
      ensures r >= 1
      ensures unstable.snapshot.Some? ==> r == unstable.snapshot.value.index + 1 && r <= unstable.first
      ensures unstable.snapshot.None? ==> r == storage.firstIndex.value
    {
      match unstable.MaybeFirstIndex()
      case Some(i) => i
      case None => storage.firstIndex.value
    }

    /** The last index of the log: the end of the unstable tail, else the pending snapshot's
        index, else the last stored index. */
    function LastIndex(): (r: nat)
      reads unstable
      requires LogValid()
      ensures unstable.Contents != [] ==> r == unstable.last
      ensures unstable.Contents == [] && unstable.snapshot.Some? ==> r == unstable.snapshot.value.index
      ensures unstable.Contents == [] && unstable.snapshot.None? ==> r == storage.lastIndex.value
    {
      match unstable.MaybeLastIndex()
      case Some(i) => i
      case None => storage.lastIndex.value
    }

    /** The term at `index`. Outside [FirstIndex() - 1, LastIndex()] it is 0 with OK; inside,
        the unstable tail answers first and Storage answers the rest, its ErrCompacted and
        ErrUnavailable passed through with term 0. Storage.Valid rules out every other
        storage error, which is fatal. */
    function Term(index: nat): (r: Reply<nat>)
      reads unstable
      requires LogValid()
      ensures r.err == OK || r.err == ErrCompacted || r.err == ErrUnavailable
      ensures r.err != OK ==> r.value == 0
      ensures index < FirstIndex() - 1 || index > LastIndex() ==> r == Reply(OK, 0)
      ensures FirstIndex() - 1 <= index <= LastIndex() ==>
        match TailTerm(unstable.snapshot, unstable.first, unstable.Contents, index)
        case Some(t) => r == Reply(OK, t)
        case None => r.err == storage.term(index).err && (r.err == OK ==> r.value == storage.term(index).value)
    {
      if index < FirstIndex() - 1 || index > LastIndex() then Reply(OK, 0)
      else match unstable.MaybeTerm(index)
        case Some(t) => Reply(OK, t)
        case None =>
          var s := storage.term(index);
          if s.err == OK then Reply(OK, s.value) else Reply(s.err, 0)
    }

    /** The log holds an entry at `index` with `term`. A match with a non-zero term lies
        inside [FirstIndex() - 1, LastIndex()]. */
    function MatchTerm(index: nat, term: nat): (b: bool)
      reads unstable
      requires LogValid()
      ensures b <==> Term(index) == Reply(OK, term)
      ensures b && term != 0 ==> FirstIndex() - 1 <= index <= LastIndex()
    {
      var r := Term(index);
      r.err == OK && r.value == term
    }

    /** The term of the last entry; any failure to read it is fatal. */
    function LastTerm(): (t: nat)
      reads unstable
      requires LogValid() && Term(LastIndex()).err == OK
      ensures MatchTerm(LastIndex(), t)
      ensures unstable.Contents != [] ==> t == unstable.Contents[|unstable.Contents| - 1].term
    {
      Term(LastIndex()).value
    }

    /** A candidate whose log ends at (term, index) is at least as up to date as this log. */
    function IsUpToData(index: nat, term: nat): (b: bool)
      reads unstable
      requires LogValid() && Term(LastIndex()).err == OK
      ensures b <==> AtLeastAsUpToDate(term, index, LastTerm(), LastIndex())
      ensures b && term == LastTerm() ==> index >= LastIndex()
    {
      var lastTerm := LastTerm();
      term > lastTerm || (term == lastTerm && index >= LastIndex())
    }

    /** The pending snapshot if there is one, else whatever Storage answers. */
    function Snapshot(): (r: Reply<Snapshot>)
      reads unstable
      requires LogValid()
      ensures unstable.snapshot.Some? ==> r == Reply(OK, unstable.snapshot.value)
      ensures unstable.snapshot.None? ==> r == storage.snapshot
    {
      match unstable.PendingSnapshot()
      case Some(s) => Reply(OK, s)
      case None => storage.snapshot
    }

    /** The first index not yet applied that the log still holds. */
    function NextOffset(): (offset: nat)
      reads this, unstable
      requires LogValid()
      ensures offset > applied && offset >= FirstIndex()
      ensures offset == applied + 1 || offset == FirstIndex()
    {
      Max(applied + 1, FirstIndex())
    }

    /** Some committed entry is not yet applied: [NextOffset(), committed] is non-empty. */
    function HasNextEntries(): (b: bool)
      reads this, unstable
      requires LogValid()
      ensures b <==> applied < committed && FirstIndex() <= committed
    {
      committed + 1 > NextOffset()
    }

    /** The position in `es` of the first entry the log does not match, |es| if none. */
    ghost function MismatchFrom(es: EntrySlice, k: nat): (j: nat)
      reads unstable
      requires LogValid() && es.InRange() && k <= es.size
      ensures k <= j <= es.size
      ensures forall i :: k <= i < j ==> MatchTerm(es.At(i).index, es.At(i).term)
      ensures j < es.size ==> !MatchTerm(es.At(j).index, es.At(j).term)
      decreases es.size - k
    {
      if k == es.size then k
      else if !MatchTerm(es.At(k).index, es.At(k).term) then k
      else MismatchFrom(es, k + 1)
    }

    /** The index of the first entry of `es` the log does not match, 0 if it matches them all. */
    ghost function Conflict(es: EntrySlice): nat
      reads unstable
      requires LogValid() && es.InRange()
    {
      var j := MismatchFrom(es, 0);
      if j == es.size then 0 else es.At(j).index
    }

    /** In a well-formed request the conflict index is 0 exactly when the log matches every
        entry, and otherwise it is the index of the first entry it does not match. */
    lemma ConflictPosition(index: nat, term: nat, es: EntrySlice)
      requires LogValid() && WellFormedAppend(index, term, es)
      ensures var j := MismatchFrom(es, 0);
        && (Conflict(es) == 0 <==> j == es.size)
        && (j < es.size ==> Conflict(es) == es.At(j).index == index + 1 + j)
    {
      var j := MismatchFrom(es, 0);
      if j < es.size {
        ConsecutiveAt(es, index + 1, j);
      }
    }

    /** Scan `es` in order and report the index of the first entry whose term the log does
        not hold at that index, or 0 when every entry matches. */
    method FindConflict(es: EntrySlice) returns (c: nat)
      requires LogValid() && es.InRange()
      ensures c == Conflict(es)
    {
      var size := es.Size();
      var i := 0;
      while i < size
        invariant 0 <= i <= size
        invariant MismatchFrom(es, i) == MismatchFrom(es, 0)
        decreases size - i
      {
        var entry := es.At(i);
        if !MatchTerm(entry.index, entry.term) {
          return entry.index;
        }
        i := i + 1;
      }
      return 0;
    }

    /** Raise the commit watermark to `c`; a lower `c` is ignored. Committing past the last
        index is fatal. */
    method CommitTo(c: nat)
      requires Valid()
      requires committed < c ==> c <= LastIndex()
      modifies this
      ensures Valid() && applied == old(applied)
      ensures committed == Max(old(committed), c)
      ensures committed >= old(committed)
    {
      if committed < c {
        committed := c;
      }
    }

    /** Record that the state machine has applied up to `a`; 0 means "nothing new". Applying
        beyond the commit watermark or moving the applied watermark back is fatal. */
    method ApplyTo(a: nat)
      requires Valid()
      requires a != 0 ==> applied <= a <= committed
      modifies this
      ensures Valid() && committed == old(committed)
      ensures applied == if a == 0 then old(applied) else a
      ensures a != 0 ==> applied <= committed
    {
      if a == 0 {
        return;
      }
      applied := a;
    }

    /** Storage already holds the tail's entries up to `index` with their terms; when that is
        the whole tail, Storage ends at `index` and the pending snapshot, if any, has already
        been handed over with `StableSnapTo`. Without that last condition the log's last index
        would fall back from the tail's end to the snapshot's index. */
    ghost predicate Persisted(index: nat)
      reads unstable
      requires LogValid()
    {
      && unstable.first <= index <= unstable.last
      && (forall i :: unstable.first <= i <= index ==>
            storage.term(i) == Reply(OK, unstable.Contents[i - unstable.first].term))
      && (index == unstable.last ==> unstable.snapshot.None? && storage.lastIndex.value == index)
    }

    /** Entries up to `index` with `term` have become durable, so the tail gives them up.
        Storage must by then hold them: the log keeps its first and last index and answers
        the same term at every index. */
    method StableTo(index: nat, term: nat)
      requires Valid()
      requires unstable.MaybeTerm(index) == Some(term) && index >= unstable.first ==> Persisted(index)
      modifies unstable
      ensures Valid()
      ensures unstable.snapshot == old(unstable.snapshot) && unstable.last == old(unstable.last)
      ensures old(unstable.MaybeTerm(index)) == Some(term) && index >= old(unstable.first) ==>
        unstable.first == index + 1 && unstable.Contents == old(unstable.Contents)[index + 1 - old(unstable.first)..]
      ensures !(old(unstable.MaybeTerm(index)) == Some(term) && index >= old(unstable.first)) ==>
        unstable.first == old(unstable.first) && unstable.Contents == old(unstable.Contents)
      ensures FirstIndex() == old(FirstIndex()) && LastIndex() == old(LastIndex())
      ensures forall i: nat :: Term(i) == old(Term(i))
    {
      ghost var stabilizes := unstable.MaybeTerm(index) == Some(term) && index >= unstable.first;
      unstable.StableTo(index, term);
      if stabilizes {
        StableKeepsLog(index);
      }
    }

    /** Handing the persisted entries up to `index` over from the tail to Storage changes
        neither the bounds of the log nor any term it answers. */
    twostate lemma StableKeepsLog(index: nat)
      requires old(LogValid()) && LogValid() && old(Persisted(index))
      requires unstable.snapshot == old(unstable.snapshot) && unstable.last == old(unstable.last)
      requires unstable.first == index + 1
      requires unstable.Contents == old(unstable.Contents)[index + 1 - old(unstable.first)..]
      ensures FirstIndex() == old(FirstIndex()) && LastIndex() == old(LastIndex())
      ensures forall i: nat :: Term(i) == old(Term(i))
    {
      forall i: nat
        ensures Term(i) == old(Term(i))
      {
        if old(unstable.first) <= i <= index {
          assert storage.term(i) == Reply(OK, old(unstable.Contents)[i - old(unstable.first)].term);
        } else if index < i <= unstable.last {
          assert unstable.Contents[i - unstable.first] == old(unstable.Contents)[i - old(unstable.first)];
        }
      }
    }

    /** The snapshot at `index` has been applied to Storage; the snapshot is forgotten, so
        Storage must by then reach the snapshot's index and retain nothing past committed + 1
        or past the start of the tail. */
    method StableSnapTo(index: nat)
      requires Valid()
      requires unstable.snapshot.Some? && unstable.snapshot.value.index == index ==>
        && storage.firstIndex.value <= committed + 1 && storage.firstIndex.value <= unstable.first
        && index <= storage.lastIndex.value
      modifies unstable
      ensures Valid()
      ensures unstable.Contents == old(unstable.Contents) && unstable.first == old(unstable.first)
      ensures unstable.snapshot ==
        if old(unstable.snapshot).Some? && old(unstable.snapshot).value.index == index then None
        else old(unstable.snapshot)
    {
      unstable.StableSnapTo(index);
    }

    /** Adopt `snap` as the whole log up to its index: it becomes committed and pending.
        The snapshot must not lie below what has been applied. */
    method Restore(snap: Snapshot)
      requires Valid()
      requires applied <= snap.index
      modifies this, unstable
      ensures Valid() && applied == old(applied)
      ensures committed == snap.index
      ensures unstable.snapshot == Some(snap) && unstable.Contents == []
      ensures FirstIndex() == snap.index + 1 && LastIndex() == snap.index
      ensures MatchTerm(snap.index, snap.term)
    {
      committed := snap.index;
      unstable.Restore(snap);
    }

    /** Commit `index` if it is above the watermark and the log holds `term` there (a
        compacted index counts as term 0). */
    method MaybeCommit(index: nat, term: nat) returns (ok: bool)
      requires Valid()
      requires committed < index ==> Term(index).err != ErrUnavailable
      requires committed < index && ZeroTermOnErrCompacted(Term(index).value, Term(index).err) == term ==>
        index <= LastIndex()
      modifies this
      ensures Valid() && applied == old(applied)
      ensures ok <==> old(committed) < index && ZeroTermOnErrCompacted(Term(index).value, Term(index).err) == term
      ensures committed == if ok then index else old(committed)
      ensures ok && term != 0 ==> MatchTerm(index, term)
    {
      var gterm := Term(index);
      if index > committed && ZeroTermOnErrCompacted(gterm.value, gterm.err) == term {
        CommitTo(index);
        return true;
      }
      return false;
    }

    /** The log holds the first `n` entries of `es`, each with its term. */
    ghost predicate HoldsEntries(es: EntrySlice, n: nat)
      reads unstable
      requires LogValid() && es.InRange()
    {
      forall k :: 0 <= k < n && k < es.size ==> MatchTerm(es.At(k).index, es.At(k).term)
    }

    /** Every index below `below` that the log held before keeps its term. */
    twostate predicate KeepsTermsBelow(below: nat)
      reads unstable
      requires old(LogValid()) && LogValid()
    {
      forall i: nat :: i < below && i <= old(LastIndex()) ==> Term(i) == old(Term(i))
    }

    /** Append a non-empty run `es` by cutting the tail at its first index; returns the new last
        index. Writing at or below the commit watermark is fatal. The entries of `es` are then
        read back with their terms, and every index below the first one that the log held
        keeps its term. */
    method Append(es: EntrySlice) returns (lastIndex: nat)
      requires Valid() && es.InRange()
      requires es.size > 0 ==>
        ConsecutiveFrom(es, es.At(0).index) && committed < es.At(0).index <= unstable.last + 1
      modifies unstable
      ensures Valid()
      ensures lastIndex == LastIndex()
      ensures es.size == 0 ==> unchanged(unstable)
      ensures es.size > 0 ==> lastIndex == es.At(0).index + es.size - 1
      ensures es.size > 0 ==> HoldsEntries(es, es.size)
      ensures es.size > 0 ==> KeepsTermsBelow(es.At(0).index)
      ensures unstable.snapshot == old(unstable.snapshot) && FirstIndex() == old(FirstIndex())
      ensures es.size > 0 ==> WroteFrom(es.At(0).index, es.View())
    {
      if es.Size() == 0 {
        return LastIndex();
      }
      unstable.TruncateAndAppend(es);
      AppendedLog(es);
      AppendedKeeps(es);
      return LastIndex();
    }

    /** What a truncate-and-append of `es` does to the log as a whole: it ends at the last
        entry of `es` and matches every entry of `es`. */
    twostate lemma AppendedLog(es: EntrySlice)
      requires old(LogValid()) && LogValid()
      requires es.InRange() && es.size > 0 && ConsecutiveFrom(es, es.At(0).index)
      requires es.At(0).index <= old(unstable.last) + 1
      requires old(unstable.snapshot).Some? ==> old(unstable.snapshot).value.index < es.At(0).index
      requires unstable.snapshot == old(unstable.snapshot)
      requires unstable.first == Min(old(unstable.first), es.At(0).index)
      requires unstable.Contents ==
        old(unstable.Contents)[..if es.At(0).index <= old(unstable.first) then 0 else es.At(0).index - old(unstable.first)] + es.View()
      ensures LastIndex() == es.At(0).index + es.size - 1
      ensures HoldsEntries(es, es.size)
    {
      TruncateAndAppendTerms(unstable.snapshot, old(unstable.first), old(unstable.Contents), es.View(),
                             es.At(0).index, unstable.first, unstable.Contents);
      ConsecutiveAt(es, es.At(0).index, es.size - 1);
      TailEntriesMatch(es);
    }

    /** A truncate-and-append of `es` keeps the log's first index and the term of every index
        below the first entry of `es` that the log held. */
    twostate lemma AppendedKeeps(es: EntrySlice)
      requires old(LogValid()) && LogValid()
      requires es.InRange() && es.size > 0 && ConsecutiveFrom(es, es.At(0).index)
      requires es.At(0).index <= old(unstable.last) + 1
      requires old(unstable.snapshot).Some? ==> old(unstable.snapshot).value.index < es.At(0).index
      requires unstable.snapshot == old(unstable.snapshot)
      requires unstable.first == Min(old(unstable.first), es.At(0).index)
      requires unstable.Contents ==
        old(unstable.Contents)[..if es.At(0).index <= old(unstable.first) then 0 else es.At(0).index - old(unstable.first)] + es.View()
      requires LastIndex() == es.At(0).index + es.size - 1
      ensures FirstIndex() == old(FirstIndex())
      ensures KeepsTermsBelow(es.At(0).index)
    {
      TruncateAndAppendTerms(unstable.snapshot, old(unstable.first), old(unstable.Contents), es.View(),
                             es.At(0).index, unstable.first, unstable.Contents);
      TermKept(es.At(0).index);
    }

    /** The unstable tail was cut below index `after` and `run` written from there on; the
        pending snapshot was left alone. */
    twostate predicate WroteFrom(after: nat, new run: seq<Entry>)
      reads unstable
      requires old(unstable.Valid())
    {
      && unstable.snapshot == old(unstable.snapshot)
      && unstable.first == Min(old(unstable.first), after)
      && unstable.Contents == old(unstable.Below(after)) + run
    }

    /** When the tail answers the term of every entry of `es` and the log reaches the last of
        them, the log matches every entry of `es`. */
    lemma TailEntriesMatch(es: EntrySlice)
      requires LogValid() && es.InRange() && es.size > 0
      requires FirstIndex() - 1 <= es.At(0).index && es.At(es.size - 1).index <= LastIndex()
      requires ConsecutiveFrom(es, es.At(0).index)
      requires forall k :: 0 <= k < es.size ==>
        TailTerm(unstable.snapshot, unstable.first, unstable.Contents, es.View()[k].index) == Some(es.View()[k].term)
      ensures forall k :: 0 <= k < es.size ==> MatchTerm(es.At(k).index, es.At(k).term)
    {
      forall k | 0 <= k < es.size
        ensures MatchTerm(es.At(k).index, es.At(k).term)
      {
        assert es.At(k) == es.View()[k];
        ConsecutiveAt(es, es.At(0).index, k);
      }
    }

    /** A change of the unstable tail that keeps the pending snapshot and the terms the tail
        answers below `after`, and leaves the log reaching at least after - 1, keeps the term
        of every index below `after` that the log held. */
    twostate lemma TermKept(after: nat)
      requires old(LogValid()) && LogValid()
      requires unstable.snapshot == old(unstable.snapshot)
      requires forall i: nat :: i < after ==>
        TailTerm(unstable.snapshot, unstable.first, unstable.Contents, i) ==
        TailTerm(old(unstable.snapshot), old(unstable.first), old(unstable.Contents), i)
      requires after <= LastIndex() + 1
      ensures forall i: nat :: i < after && i <= old(LastIndex()) ==> Term(i) == old(Term(i))
    {
    }

    /** What an accepted append request leaves behind. The log holds `term` at `index` and
        every entry of `es`, and reaches the last of them. Every index below the conflict (every
        index, when there is none) keeps its term. The pending snapshot and the first index
        stay. After a conflict at position j of `es`, the conflict index is index + 1 + j, the
        log ends at the last entry of `es`, and the tail holds its old entries below the
        conflict followed by the entries of `es` from position j on. */
    twostate predicate AppendedRequest(index: nat, term: nat, es: EntrySlice)
      reads unstable
      requires old(LogValid()) && LogValid() && es.InRange()
    {
      && MatchTerm(index, term)
      && HoldsEntries(es, es.size)
      && index + es.size <= LastIndex()
      && KeepsTermsBelow(if old(Conflict(es)) == 0 then old(LastIndex()) + 1 else old(Conflict(es)))
      && unstable.snapshot == old(unstable.snapshot) && FirstIndex() == old(FirstIndex())
      && (old(Conflict(es)) != 0 ==> LastIndex() == index + es.size)
      && (old(MismatchFrom(es, 0)) < es.size ==>
           && old(Conflict(es)) == index + 1 + old(MismatchFrom(es, 0))
           && WroteFrom(old(Conflict(es)), es.View()[old(MismatchFrom(es, 0))..]))
    }

    /** The accepted half of MaybeAppend: write the entries of `es` from the first one the log
        does not match, so that afterwards the log holds `term` at `index` and every entry of
        `es`, and LastIndex() covers them. */
    method AppendConflicting(index: nat, term: nat, es: EntrySlice) returns (ghost j: nat)
      requires Valid() && MatchTerm(index, term)
      requires WellFormedAppend(index, term, es)
      requires Conflict(es) != 0 ==> committed < Conflict(es) <= unstable.last + 1
      modifies unstable
      ensures Valid()
      ensures old(Conflict(es)) == 0 ==> unchanged(unstable)
      ensures j == old(MismatchFrom(es, 0))
      ensures AppendedRequest(index, term, es)
    {
      j := MismatchFrom(es, 0);
      ConflictPosition(index, term, es);
      var conflict := FindConflict(es);
      if conflict != 0 {
        var offset := index + 1;
        var first := conflict - offset;
        assert first == j && conflict == old(Conflict(es));
        assert unstable.Below(conflict) == old(unstable.Below(conflict));
        AppendFrom(index, term, es, first);
      } else {
        NothingToAppend(index, term, es);
      }
    }

    /** When the log already matches every entry of a request, the request holds nothing to
        write and the log reaches its last entry. */
    lemma NothingToAppend(index: nat, term: nat, es: EntrySlice)
      requires LogValid() && MatchTerm(index, term) && WellFormedAppend(index, term, es) && Conflict(es) == 0
      ensures MismatchFrom(es, 0) == es.size && HoldsEntries(es, es.size)
      ensures index + es.size <= LastIndex()
    {
      ConflictPosition(index, term, es);
      if es.size > 0 {
        ConsecutiveAt(es, index + 1, es.size - 1);
        assert MatchTerm(es.At(es.size - 1).index, es.At(es.size - 1).term);
      }
    }

    /** Write the entries of `es` from position j on, where the log matches the first j
        entries and the entry before them. */
    method AppendFrom(index: nat, term: nat, es: EntrySlice, j: nat)
      requires Valid() && MatchTerm(index, term)
      requires WellFormedAppend(index, term, es) && j < es.size
      requires HoldsEntries(es, j)
      requires committed < index + 1 + j <= unstable.last + 1
      modifies unstable
      ensures Valid()
      ensures MatchTerm(index, term)
      ensures HoldsEntries(es, es.size)
      ensures index + es.size == LastIndex()
      ensures KeepsTermsBelow(index + 1 + j)
      ensures unstable.snapshot == old(unstable.snapshot) && FirstIndex() == old(FirstIndex())
      ensures WroteFrom(index + 1 + j, es.View()[j..])
    {
      var rest := SubSlice(es, j, es.Size() - j);
      SubSliceView(es, j, es.Size() - j);
      NumberedSlice(es.View(), index + 1, j, es.size);
      ConsecutiveAt(es, index + 1, j);
      assert rest.At(0) == es.At(j);
      assert rest.View() == es.View()[j..];
      BeforeConflict(index, term, es, j);
      var last := Append(rest);
      forall k | 0 <= k < es.size
        ensures MatchTerm(es.At(k).index, es.At(k).term)
      {
        if k >= j {
          assert es.At(k) == rest.At(k - j);
        }
      }
    }

    /** The entries of a request before position j sit below the write position and inside
        the log. */
    lemma BeforeConflict(index: nat, term: nat, es: EntrySlice, j: nat)
      requires LogValid() && WellFormedAppend(index, term, es) && j < es.size
      requires HoldsEntries(es, j)
      ensures forall k :: 0 <= k < j ==> es.At(k).index < index + 1 + j && es.At(k).index <= LastIndex()
    {
      forall k | 0 <= k < j
        ensures es.At(k).index < index + 1 + j && es.At(k).index <= LastIndex()
      {
        ConsecutiveAt(es, index + 1, k);
        assert MatchTerm(es.At(k).index, es.At(k).term);
      }
    }

    /** Handle an append request whose entries follow (index, term). Rejected, changing
        nothing, unless the log holds `term` at `index`. Accepted, it writes the entries from
        the first conflicting one on, so that afterwards the log holds every entry of the
        request and the entry before them (log matching), every entry before the conflict
        keeps its term, and the commit watermark rises to min(committedArg, index + |es|).
        Overwriting a committed entry is fatal. */
    method MaybeAppend(index: nat, term: nat, committedArg: nat, es: EntrySlice) returns (ok: bool, newLastIndex: nat)
      requires Valid()
      requires WellFormedAppend(index, term, es)
      requires MatchTerm(index, term) && Conflict(es) != 0 ==> committed < Conflict(es) <= unstable.last + 1
      modifies this, unstable
      ensures Valid() && applied == old(applied)
      ensures ok == old(MatchTerm(index, term))
      ensures !ok ==> committed == old(committed) && unchanged(unstable)
      ensures ok && old(Conflict(es)) == 0 ==> unchanged(unstable)
      ensures ok ==> newLastIndex == index + es.size
      ensures ok ==> committed == Max(old(committed), Min(committedArg, newLastIndex))
      ensures ok ==> AppendedRequest(index, term, es)
      ensures unstable.snapshot == old(unstable.snapshot) && FirstIndex() == old(FirstIndex())
    {
      ok := MatchTerm(index, term);
      if !ok {
        return false, 0;
      }
      newLastIndex := index + es.Size();
      ghost var j := AppendConflicting(index, term, es);
      CommitTo(Min(committedArg, newLastIndex));
    }

    /** The entries [low, high) as far as they can be read, or ErrCompacted when `low` lies
        before the first index. When the range starts before the unstable tail, Storage is
        read first and the tail only if Storage returned everything asked of it. */
    ghost function SliceResult(low: nat, high: nat): (r: Reply<seq<Entry>>)
      reads unstable
      requires LogValid() && SliceAllowed(low, high)
      ensures low < FirstIndex() ==> r == Reply(ErrCompacted, [])
      ensures r.err == OK || r.err == ErrCompacted
      ensures r.err == OK ==> |r.value| <= high - low && Numbered(r.value, low)
      ensures r.err == OK && ReachesTail(low, high) ==> |r.value| == high - low
      ensures r.err == OK ==> forall k :: 0 <= k < |r.value| && low + k >= unstable.first ==>
        low + k <= unstable.last && r.value[k] == unstable.Contents[low + k - unstable.first]
      ensures FirstIndex() <= low < high && low < unstable.first ==>
        var s := storage.entries(low, Min(high, unstable.first));
        && (s.err == ErrCompacted ==> r == s)
        && (s.err == OK ==> r.err == OK && s.value <= r.value)
        && (s.err == OK && |s.value| < Min(high, unstable.first) - low ==> r == s)
    {
      if low < FirstIndex() then Reply(ErrCompacted, [])
      else if low == high then Reply(OK, [])
      else if low < unstable.first then
        var s := storage.entries(low, Min(high, unstable.first));
        if s.err == ErrCompacted then Reply(ErrCompacted, s.value)
        else if |s.value| < Min(high, unstable.first) - low || high <= unstable.first then Reply(OK, s.value)
        else
          var tail := unstable.Contents[..high - unstable.first];
          NumberedSlice(unstable.Contents, unstable.first, 0, high - unstable.first);
          NumberedConcat(s.value, tail, low);
          Reply(OK, s.value + tail)
      else
        NumberedSlice(unstable.Contents, unstable.first, low - unstable.first, high - unstable.first);
        Reply(OK, unstable.Contents[low - unstable.first..high - unstable.first])
    }

    /** Slice reads every index of [low, high): it starts in the unstable tail, or Storage
        returned the whole part below the tail. */
    ghost predicate ReachesTail(low: nat, high: nat)
      reads unstable
      requires LogValid()
    {
      low >= unstable.first ||
      (storage.entries(low, Min(high, unstable.first)).err == OK &&
       |storage.entries(low, Min(high, unstable.first)).value| >= Min(high, unstable.first) - low)
    }

    /** The conditions under which Slice(low, high) is not fatal: low <= high; a range that is
        not compacted ends by LastIndex() + 1; and the range can be read. */
    ghost predicate SliceAllowed(low: nat, high: nat)
      reads unstable
      requires LogValid()
    {
      && low <= high
      && (low >= FirstIndex() ==> high <= LastIndex() + 1)
      && SliceReadable(low, high)
    }

    /** Storage answers OK or ErrCompacted for the part of [low, high) below the tail, and a
        read that reaches the tail stays within it. */
    ghost predicate SliceReadable(low: nat, high: nat)
      reads unstable
      requires LogValid()
    {
      && (FirstIndex() <= low < high && low < unstable.first ==>
            storage.entries(low, Min(high, unstable.first)).err in {OK, ErrCompacted})
      && (FirstIndex() <= low < high && high > unstable.first && ReachesTail(low, high) ==>
            high <= unstable.last + 1)
    }

    /** Read the entries [low, high), Storage first and then the unstable tail. */
    method Slice(low: nat, high: nat) returns (err: Error, out: seq<Entry>)
      requires LogValid() && SliceAllowed(low, high)
      ensures Reply(err, out) == SliceResult(low, high)
    {
      out := [];
      err := MustCheckOutOfBounds(low, high);
      if err != OK {
        return;
      }
      if low == high {
        return OK, [];
      }
      if low < unstable.first {
        var s := storage.entries(low, Min(high, unstable.first));
        out := s.value;
        if s.err == ErrCompacted {
          return ErrCompacted, out;
        }
        if |out| < Min(high, unstable.first) - low {
          return OK, out;
        }
      }
      if high > unstable.first {
        ghost var before := out;
        out := unstable.Slice(Max(low, unstable.first), high, out);
        if low < unstable.first {
          assert unstable.Contents[0..high - unstable.first] == unstable.Contents[..high - unstable.first];
          assert out == before + unstable.Contents[..high - unstable.first];
          assert SliceResult(low, high) == Reply(OK, before + unstable.Contents[..high - unstable.first]);
        } else {
          assert before == [];
          assert out == unstable.Contents[low - unstable.first..high - unstable.first];
        }
      } else {
        assert SliceResult(low, high) == Reply(OK, out);
      }
      return OK, out;
    }

    /** ErrCompacted when `low` lies before the first index, OK otherwise. */
    method MustCheckOutOfBounds(low: nat, high: nat) returns (err: Error)
      requires LogValid() && low <= high
      requires low >= FirstIndex() ==> high <= LastIndex() + 1
      ensures err == (if low < FirstIndex() then ErrCompacted else OK)
    {
      var firstIndex := FirstIndex();
      if low < firstIndex {
        return ErrCompacted;
      }
      return OK;
    }

    /** At most `max` entries from `index` on; none, with OK, when `index` lies past the end. */
    method GetEntries(index: nat, max: nat) returns (err: Error, out: seq<Entry>)
      requires LogValid()
      requires index <= LastIndex() ==> SliceReadable(index, Min(index + max, LastIndex() + 1))
      ensures index > LastIndex() ==> err == OK && out == []
      ensures index <= LastIndex() ==> Reply(err, out) == SliceResult(index, Min(index + max, LastIndex() + 1))
      ensures err == OK ==> |out| <= max && Numbered(out, index)
    {
      var lastIndex := LastIndex();
      if index > lastIndex {
        return OK, [];
      }
      err, out := Slice(index, Min(index + max, lastIndex + 1));
    }

    /** The whole unstable tail, in index order. */
    method UnstableEntries() returns (out: seq<Entry>)
      requires LogValid()
      ensures out == unstable.Contents
      ensures Numbered(out, unstable.first)
    {
      if unstable.Size() == 0 {
        return [];
      }
      out := unstable.Slice(unstable.first, unstable.last + 1, []);
      assert unstable.Contents[0..unstable.last + 1 - unstable.first] == unstable.Contents;
    }

    /** The committed entries not yet applied, [NextOffset(), committed]; `acc` is left as it
        is when there are none. Failing to read them is fatal. */
    method NextEntries(acc: seq<Entry>) returns (out: seq<Entry>)
      requires Valid()
      requires HasNextEntries() ==>
        SliceReadable(NextOffset(), committed + 1) && SliceResult(NextOffset(), committed + 1).err == OK
      ensures !HasNextEntries() ==> out == acc
      ensures HasNextEntries() ==> out == SliceResult(NextOffset(), committed + 1).value
      ensures HasNextEntries() ==> Numbered(out, NextOffset()) && |out| <= committed + 1 - NextOffset()
    {
      var offset := NextOffset();
      out := acc;
      if committed + 1 > offset {
        var err;
        err, out := Slice(offset, committed + 1);
      }
    }
  }
}
