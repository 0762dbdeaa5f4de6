/** The in-memory tail of the log: entries with indices [first, last] that are not yet
    durable, plus at most one pending snapshot awaiting application. Entries are kept in
    buckets of ENTRY_BUFFER_SIZE slots keyed by the first index of the bucket; a bucket is
    dropped wholesale once every index it covers has become durable. */
module Unstables {
  import opened RaftTypes
  import opened EntrySlices

  /** Number of slots in one bucket. */
  const ENTRY_BUFFER_SIZE: nat := 1000

  /** The first index of the bucket that holds `index`. */
  function BaseIndex(index: nat): (base: nat)
    ensures base % ENTRY_BUFFER_SIZE == 0
    ensures base <= index < base + ENTRY_BUFFER_SIZE
  {
    index / ENTRY_BUFFER_SIZE * ENTRY_BUFFER_SIZE
  }

  /** A bucket-aligned `base` is the bucket of every index in [base, base + ENTRY_BUFFER_SIZE). */
  lemma BaseIndexOfBucket(base: nat, index: nat)
    requires base % ENTRY_BUFFER_SIZE == 0 && base <= index < base + ENTRY_BUFFER_SIZE
    ensures BaseIndex(index) == base
  {
    var b := BaseIndex(index);
    assert b % ENTRY_BUFFER_SIZE == 0 && b <= index < b + ENTRY_BUFFER_SIZE;
  }

  /** Later indices never live in earlier buckets. */
  lemma BaseIndexMonotonic(i: nat, j: nat)
    requires i <= j
    ensures BaseIndex(i) <= BaseIndex(j)
  {
  }

  /** Two distinct bucket bases are at least a bucket apart. */
  lemma AlignedStep(base: nat, limit: nat)
    requires base % ENTRY_BUFFER_SIZE == 0 && limit % ENTRY_BUFFER_SIZE == 0 && base < limit
    ensures base + ENTRY_BUFFER_SIZE <= limit
  {
    assert base == base / ENTRY_BUFFER_SIZE * ENTRY_BUFFER_SIZE;
    assert limit == limit / ENTRY_BUFFER_SIZE * ENTRY_BUFFER_SIZE;
  }

  /** The bucket map holds `e` for `index`: slot index - BaseIndex(index) of bucket BaseIndex(index). */
  ghost predicate StoredAt(buckets: map<nat, seq<Entry>>, index: nat, e: Entry) {
    var base := BaseIndex(index);
    base in buckets && index - base < |buckets[base]| && buckets[base][index - base] == e
  }

  /** The bucket map holds run[k] for index from + k, for every k. */
  ghost predicate RunStored(buckets: map<nat, seq<Entry>>, from: nat, run: seq<Entry>) {
    forall k :: 0 <= k < |run| ==> StoredAt(buckets, from + k, run[k])
  }

  /** Every bucket has exactly ENTRY_BUFFER_SIZE slots. */
  ghost predicate BucketsFull(buckets: map<nat, seq<Entry>>) {
    forall base :: base in buckets ==> |buckets[base]| == ENTRY_BUFFER_SIZE
  }

  /** A stored run stays stored after its first n entries are forgotten. */
  lemma RunStoredSuffix(buckets: map<nat, seq<Entry>>, from: nat, run: seq<Entry>, n: nat)
    requires RunStored(buckets, from, run) && n <= |run|
    ensures RunStored(buckets, from + n, run[n..])
  {
    forall k | 0 <= k < |run| - n
      ensures StoredAt(buckets, from + n + k, run[n..][k])
    {
      assert StoredAt(buckets, from + (n + k), run[n + k]);
    }
  }

  /** A prefix of a stored run is stored. */
  lemma RunStoredPrefix(buckets: map<nat, seq<Entry>>, from: nat, run: seq<Entry>, n: nat)
    requires RunStored(buckets, from, run) && n <= |run|
    ensures RunStored(buckets, from, run[..n])
  {
    forall k | 0 <= k < n
      ensures StoredAt(buckets, from + k, run[..n][k])
    {
      assert StoredAt(buckets, from + k, run[k]);
    }
  }

  /** Two stored runs that meet make one stored run. */
  lemma RunStoredConcat(buckets: map<nat, seq<Entry>>, from: nat, a: seq<Entry>, b: seq<Entry>)
    requires RunStored(buckets, from, a) && RunStored(buckets, from + |a|, b)
    ensures RunStored(buckets, from, a + b)
  {
    forall k | 0 <= k < |a + b|
      ensures StoredAt(buckets, from + k, (a + b)[k])
    {
      if k >= |a| {
        assert StoredAt(buckets, from + |a| + (k - |a|), b[k - |a|]);
      }
    }
  }

  /** Dropping only buckets below `limit` keeps every run stored at or after `limit`. */
  lemma RunStoredAboveLimit(buckets: map<nat, seq<Entry>>, kept: map<nat, seq<Entry>>, limit: nat,
                            from: nat, run: seq<Entry>)
    requires RunStored(buckets, from, run)
    requires forall b :: b in buckets && b >= limit ==> b in kept && kept[b] == buckets[b]
    requires limit <= BaseIndex(from)
    ensures RunStored(kept, from, run)
  {
    forall k | 0 <= k < |run|
      ensures StoredAt(kept, from + k, run[k])
    {
      assert StoredAt(buckets, from + k, run[k]);
      BaseIndexMonotonic(from, from + k);
    }
  }

  /** Writing `e` into slot j of bucket `base`, the slot right after a stored run, stores the
      run followed by `e`. */
  lemma WriteSlot(m: map<nat, seq<Entry>>, base: nat, buffer: seq<Entry>, j: nat, e: Entry,
                  from: nat, run: seq<Entry>)
    requires base % ENTRY_BUFFER_SIZE == 0 && j < |buffer| == ENTRY_BUFFER_SIZE
    requires RunStored(m[base := buffer], from, run) && from + |run| == base + j
    ensures RunStored(m[base := buffer[j := e]], from, run + [e])
  {
    var m' := m[base := buffer[j := e]];
    BaseIndexOfBucket(base, base + j);
    forall k | 0 <= k < |run|
      ensures StoredAt(m', from + k, run[k])
    {
      assert StoredAt(m[base := buffer], from + k, run[k]);
    }
    assert StoredAt(m', from + |run|, e);
    RunStoredConcat(m', from, run, [e]);
  }

  /** Replacing bucket `base` by its current contents (or by a new bucket when there is none)
      keeps every stored run stored. */
  lemma FetchBucket(m: map<nat, seq<Entry>>, base: nat, buffer: seq<Entry>, from: nat, run: seq<Entry>)
    requires RunStored(m, from, run)
    requires base in m ==> buffer == m[base]
    ensures RunStored(m[base := buffer], from, run)
  {
    forall k | 0 <= k < |run|
      ensures StoredAt(m[base := buffer], from + k, run[k])
    {
      assert StoredAt(m, from + k, run[k]);
    }
  }

  /** The term the tail answers for `index`: the pending snapshot's term at the snapshot's
      index, the term of the entry at `index` within [first, first + |tail|), nothing otherwise. */
  ghost function TailTerm(snapshot: Option<Snapshot>, first: nat, tail: seq<Entry>, index: nat): Option<nat> {
    if snapshot.Some? && snapshot.value.index == index then Some(snapshot.value.term)
    else if first <= index < first + |tail| then Some(tail[index - first].term)
    else None
  }

  /** What TruncateAndAppend does to the terms the tail answers: the result is numbered from
      min(first, after), each appended entry's term is answered at its index, and every index
      below the first appended one keeps its answer. */
  lemma TruncateAndAppendTerms(snapshot: Option<Snapshot>, first: nat, tail: seq<Entry>,
                               added: seq<Entry>, after: nat, first': nat, tail': seq<Entry>)
    requires Numbered(tail, first) && Numbered(added, after)
    requires after <= first + |tail|
    requires snapshot.Some? ==> snapshot.value.index < after
    requires first' == Min(first, after)
    requires tail' == tail[..if after <= first then 0 else after - first] + added
    ensures Numbered(tail', first')
    ensures forall k :: 0 <= k < |added| ==> TailTerm(snapshot, first', tail', added[k].index) == Some(added[k].term)
    ensures forall i: nat :: i < after ==> TailTerm(snapshot, first', tail', i) == TailTerm(snapshot, first, tail, i)
  {
    var kept := if after <= first then 0 else after - first;
    assert first' + kept == after;
    forall k | 0 <= k < |tail'|
      ensures tail'[k].index == first' + k
    {
      if k >= kept {
        assert tail'[k] == added[k - kept];
      }
    }
    forall k | 0 <= k < |added|
      ensures TailTerm(snapshot, first', tail', added[k].index) == Some(added[k].term)
    {
      assert tail'[kept + k] == added[k];
    }
    forall i: nat | i < after
      ensures TailTerm(snapshot, first', tail', i) == TailTerm(snapshot, first, tail, i)
    {
      if first' <= i {
        assert tail'[i - first'] == tail[i - first];
      }
    }
  }

  /** Erase the buckets based at start, start + ENTRY_BUFFER_SIZE, ... below `limit`: every
      erased bucket lies wholly below `limit` and every bucket at or above `limit` is kept. */
  method DropBuckets(buckets: map<nat, seq<Entry>>, start: nat, limit: nat) returns (m: map<nat, seq<Entry>>)
    requires start % ENTRY_BUFFER_SIZE == 0 && limit % ENTRY_BUFFER_SIZE == 0 && start <= limit
    ensures forall b :: b in m ==> b in buckets && m[b] == buckets[b]
    ensures forall b :: b in buckets && b !in m ==> start <= b && b + ENTRY_BUFFER_SIZE <= limit
    ensures forall b :: b in buckets && b >= limit ==> b in m
    ensures forall b :: b in buckets && start <= b < limit && b % ENTRY_BUFFER_SIZE == 0 ==> b !in m
  {
    m := buckets;
    var base := start;
    while base < limit
      invariant base % ENTRY_BUFFER_SIZE == 0 && start <= base <= limit
      invariant forall b :: b in m ==> b in buckets && m[b] == buckets[b]
      invariant forall b :: b in buckets && b !in m ==> start <= b && b + ENTRY_BUFFER_SIZE <= base
      invariant forall b :: b in buckets && b >= base ==> b in m
      invariant forall b :: b in buckets && start <= b < base && b % ENTRY_BUFFER_SIZE == 0 ==> b !in m
      decreases limit - base
    {
      AlignedStep(base, limit);
      m := m - {base};
      base := base + ENTRY_BUFFER_SIZE;
    }
  }

  /** Free the buckets of a run stored from `first` that hold only indices up to `index`: the
      result still stores the part of the run after `index`, and every bucket it drops lies
      wholly at or below `index`. */
  method DropStable(buckets: map<nat, seq<Entry>>, first: nat, ghost run: seq<Entry>, index: nat)
    returns (m: map<nat, seq<Entry>>)
    requires BucketsFull(buckets) && RunStored(buckets, first, run)
    requires first <= index + 1 <= first + |run|
    ensures BucketsFull(m) && RunStored(m, index + 1, run[index + 1 - first..])
    ensures forall b :: b in m ==> b in buckets && m[b] == buckets[b]
    ensures forall b :: b in buckets && b !in m ==> b + ENTRY_BUFFER_SIZE <= index + 1
  {
    BaseIndexMonotonic(first, index + 1);
    m := DropBuckets(buckets, BaseIndex(first), BaseIndex(index + 1));
    RunStoredSuffix(buckets, first, run, index + 1 - first);
    RunStoredAboveLimit(buckets, m, BaseIndex(index + 1), index + 1, run[index + 1 - first..]);
  }

  /** Write the entries of `es`, which continue the stored run `tail` that starts at `from`,
      into their buckets, creating a bucket (of default entries) the first time one of its
      indices is written. The result stores `tail` followed by the entries of `es`. */
  method WriteEntries(buckets: map<nat, seq<Entry>>, es: EntrySlice, ghost from: nat, ghost tail: seq<Entry>)
    returns (m: map<nat, seq<Entry>>)
    requires BucketsFull(buckets) && RunStored(buckets, from, tail)
    requires es.InRange() && ConsecutiveFrom(es, from + |tail|)
    ensures BucketsFull(m) && RunStored(m, from, tail + es.View())
  {
    var size := es.Size();
    m := buckets;
    ghost var added := es.View();
    ghost var done := tail;
    var i := 0;
    while i < size
      invariant 0 <= i <= size
      invariant done == tail + added[..i]
      invariant BucketsFull(m)
      invariant RunStored(m, from, done)
      decreases size - i
    {
      var index := es.At(i).index;
      assert es.At(i) == added[i];
      var base := BaseIndex(index);
      var buffer := if base in m then m[base] else seq(ENTRY_BUFFER_SIZE, _ => Entry(0, 0));
      FetchBucket(m, base, buffer, from, done);
      var j := index - base;
      ghost var i0 := i;
      while j < ENTRY_BUFFER_SIZE && i < size
        invariant i0 <= i <= size
        invariant done == tail + added[..i]
        invariant base + j == from + |done|
        invariant i == i0 ==> j < ENTRY_BUFFER_SIZE
        invariant |buffer| == ENTRY_BUFFER_SIZE
        invariant RunStored(m[base := buffer], from, done)
        decreases size - i
      {
        var e := es.At(i);
        assert e == added[i];
        WriteSlot(m, base, buffer, j, e, from, done);
        assert tail + added[..i] + [added[i]] == tail + added[..i + 1];
        done := done + [e];
        buffer := buffer[j := e];
        j := j + 1;
        i := i + 1;
      }
      m := m[base := buffer];
    }
    assert added[..size] == added;
  }

  class Unstable {
    var snapshot: Option<Snapshot>
    var buckets: map<nat, seq<Entry>>
    var first: nat
    var last: nat

    /** The entries of the tail in index order: Contents[k] has index first + k. */
    ghost var Contents: seq<Entry>

    ghost predicate Valid()
      reads this
    {
      && 1 <= first <= last + 1
      && |Contents| == last + 1 - first
      && Numbered(Contents, first)
      && RunStored(buckets, first, Contents)
      && BucketsFull(buckets)
      && (snapshot.Some? ==> snapshot.value.index < first)
    }

    /** An empty tail that starts at `first`. */
    constructor (first: nat)
      requires first >= 1
      ensures Valid()
      ensures this.first == first && last == first - 1
      ensures snapshot == None && Contents == []
    {
      this.first := first;
      last := first - 1;
      snapshot := None;
      buckets := map[];
      Contents := [];
    }

    /** The number of entries in the tail. */
    function Size(): (n: nat)
      reads this
      requires Valid()
      ensures n == |Contents|
    {
      last + 1 - first
    }

    /** The first index of the log when a snapshot is pending, "not found" otherwise. */
    function MaybeFirstIndex(): (r: Option<nat>)
      reads this
      requires Valid()
      ensures r.Some? <==> snapshot.Some?
      ensures r.Some? ==> r.value == snapshot.value.index + 1 && r.value <= first
    {
      if snapshot.Some? then Some(snapshot.value.index + 1) else None
    }

    /** The last index of the log if the tail or a pending snapshot knows it. */
    function MaybeLastIndex(): (r: Option<nat>)
      reads this
      requires Valid()
      ensures Contents != [] ==> r == Some(Contents[|Contents| - 1].index)
      ensures Contents == [] ==> (r.Some? <==> snapshot.Some?)
      ensures Contents == [] && snapshot.Some? ==> r == Some(snapshot.value.index)
      ensures r.Some? ==> r.value <= last
    {
      if last + 1 - first != 0 then Some(last)
      else if snapshot.Some? then Some(snapshot.value.index)
      else None
    }

    /** The term at `index` if the pending snapshot or the tail knows it. */
    function MaybeTerm(index: nat): (r: Option<nat>)
      reads this
      requires Valid()
      ensures r == TailTerm(snapshot, first, Contents, index)
    {
      if snapshot.Some? && snapshot.value.index == index then Some(snapshot.value.term)
      else if index < first || index > last then None
      else
        var k := index - first;
        assert StoredAt(buckets, first + k, Contents[k]);
        var base := BaseIndex(index);
        Some(buckets[base][index - base].term)
    }

    /** The pending snapshot, if any. */
    function PendingSnapshot(): (r: Option<Snapshot>)
      reads this
      requires Valid()
      ensures r.Some? ==> r.value.index < first
      ensures r.Some? ==> MaybeTerm(r.value.index) == Some(r.value.term)
    {
      snapshot
    }

    /** Entries up to `index` have become durable: drop them, but only if the tail still holds
        `term` at `index` (an acknowledgement for an entry that has since been replaced is
        ignored). Buckets that cover only durable indices are freed; the bucket holding
        index + 1 is kept. */
    method StableTo(index: nat, term: nat)
      requires Valid()
      modifies this
      ensures Valid()
      ensures snapshot == old(snapshot) && last == old(last)
      ensures old(MaybeTerm(index)) == Some(term) && index >= old(first) ==>
        first == index + 1 && Contents == old(Contents)[index + 1 - old(first)..]
      ensures !(old(MaybeTerm(index)) == Some(term) && index >= old(first)) ==>
        first == old(first) && Contents == old(Contents) && buckets == old(buckets)
      ensures forall b :: b in buckets ==> b in old(buckets) && buckets[b] == old(buckets)[b]
      ensures forall b :: b in old(buckets) && b !in buckets ==> b + ENTRY_BUFFER_SIZE <= first
    {
      var gterm := MaybeTerm(index);
      if gterm.None? {
        return;
      }
      if gterm.value == term && index >= first {
        var m := DropStable(buckets, first, Contents, index);
        ghost var kept := Contents[index + 1 - first..];
        NumberedSuffix(Contents, first, index + 1 - first);
        buckets := m;
        first := index + 1;
        Contents := kept;
      }
    }

    /** The snapshot at `index` has been applied: forget it. */
    method StableSnapTo(index: nat)
      requires Valid()
      modifies this
      ensures Valid()
      ensures first == old(first) && last == old(last) && Contents == old(Contents) && buckets == old(buckets)
      ensures snapshot == if old(snapshot).Some? && old(snapshot).value.index == index then None else old(snapshot)
    {
      if snapshot.Some? && snapshot.value.index == index {
        snapshot := None;
      }
    }

    /** Install `snap` as the pending snapshot and empty the tail right after it. */
    method Restore(snap: Snapshot)
      modifies this
      ensures Valid()
      ensures snapshot == Some(snap) && first == snap.index + 1 && last == snap.index
      ensures Contents == [] && buckets == map[]
    {
      snapshot := Some(snap);
      buckets := map[];
      first := snap.index + 1;
      last := first - 1;
      Contents := [];
    }

    /** The entries of the tail whose index is below `after`. */
    ghost function Below(after: nat): (kept: seq<Entry>)
      reads this
      requires Valid()
      ensures kept <= Contents
    {
      Contents[..Min(Max(after, first) - first, |Contents|)]
    }

    /** Append entries whose first index is `after`: a pure append when after == last + 1,
        a replacement of the whole tail when after <= first, and otherwise a cut of the tail
        to after - 1 followed by the append. The appended entries win for every index they carry. */
    method TruncateAndAppend(es: EntrySlice)
      requires Valid()
      requires es.InRange() && es.size > 0 && ConsecutiveFrom(es, es.At(0).index)
      requires 1 <= es.At(0).index <= last + 1
      requires snapshot.Some? ==> snapshot.value.index < es.At(0).index
      modifies this
      ensures Valid()
      ensures snapshot == old(snapshot)
      ensures first == Min(old(first), es.At(0).index)
      ensures last == es.At(0).index + es.size - 1
      ensures Contents ==
        old(Contents)[..if es.At(0).index <= old(first) then 0 else es.At(0).index - old(first)] + es.View()
      ensures Contents == old(Below(es.At(0).index)) + es.View()
    {
      var after := es.At(0).index;
      ghost var kept := if after <= first then 0 else after - first;
      ghost var prefix := Contents[..kept];
      ghost var first' := Min(first, after);
      if after == last + 1 {
        assert prefix == Contents && first' == first;
        Append(es);
      } else if after <= first {
        buckets := map[];
        first := after;
        last := after - 1;
        Contents := [];
        Append(es);
      } else {
        RunStoredPrefix(buckets, first, Contents, kept);
        last := after - 1;
        Contents := prefix;
        Append(es);
      }
      assert first == first' && Contents == prefix + es.View();
    }

    /** Write entries that continue the tail at last + 1 into their buckets, allocating a
        bucket the first time one of its indices is written. */
    method Append(es: EntrySlice)
      requires Valid()
      requires es.InRange() && ConsecutiveFrom(es, last + 1)
      modifies this
      ensures Valid()
      ensures first == old(first) && snapshot == old(snapshot)
      ensures last == old(last) + es.size
      ensures Contents == old(Contents) + es.View()
    {
      var m := WriteEntries(buckets, es, first, Contents);
      buckets := m;
      last := last + es.Size();
      Contents := Contents + es.View();
    }

    /** Append the entries with indices [low, high) of the tail to `acc`, bucket by bucket.
        Bounds outside [first, last + 1] are a fatal error in the source. */
    method Slice(low: nat, high: nat, acc: seq<Entry>) returns (out: seq<Entry>)
      requires Valid()
      requires low <= high && first <= low && high <= last + 1
      ensures out == acc + Contents[low - first..high - first]
    {
      out := acc;
      var i := low;
      while i < high
        invariant low <= i <= high
        invariant out == acc + Contents[low - first..i - first]
        decreases high - i
      {
        var base := BaseIndex(i);
        assert StoredAt(buckets, first + (i - first), Contents[i - first]);
        var buffer := buckets[base];
        var j := i - base;
        ghost var i0 := i;
        while j < ENTRY_BUFFER_SIZE && i < high
          invariant i0 <= i <= high
          invariant base + j == i
          invariant i == i0 ==> j < ENTRY_BUFFER_SIZE
          invariant |buffer| == ENTRY_BUFFER_SIZE
          invariant buffer == buckets[base]
          invariant out == acc + Contents[low - first..i - first]
          decreases high - i
        {
          BaseIndexOfBucket(base, i);
          assert StoredAt(buckets, first + (i - first), Contents[i - first]);
          assert Contents[low - first..i + 1 - first] == Contents[low - first..i - first] + [Contents[i - first]];
          out := out + [buffer[j]];
          j := j + 1;
          i := i + 1;
        }
      }
    }
  }
}
