/** A non-owning view of `size` consecutive entries of a backing sequence, starting at
    offset `first`. The backing sequence is a value, so a view can neither copy nor change it.
    Nothing checks `first` and `size` against the backing sequence: in-range access is the
    caller's obligation. */
module EntrySlices {
  import opened RaftTypes

  datatype EntrySlice = EntrySlice(entries: seq<Entry>, first: int, size: int) {

    /** The view lies inside its backing sequence. */
    predicate InRange() {
      0 <= first && 0 <= size && first + size <= |entries|
    }

    /** Element `index` of the view is element `first + index` of the backing sequence. */
    function At(index: int): (e: Entry)
      requires 0 <= first + index < |entries|
      ensures e in entries
      ensures InRange() && 0 <= index < size ==> e == View()[index]
    {
      entries[first + index]
    }

    /** The size given at construction, whatever the backing sequence holds. */
    function Size(): (n: int)
      ensures InRange() ==> n == |View()|
    {
      size
    }

    /** The entries the view shows, in order. */
    function View(): (v: seq<Entry>)
      requires InRange()
      ensures |v| == size
    {
      entries[first..first + size]
    }
  }

  /** The sub-view constructor: offsets compose, the backing sequence is shared. */
  function SubSlice(s: EntrySlice, first: int, size: int): (r: EntrySlice)
    ensures r.entries == s.entries && r.first == s.first + first && r.Size() == size
    ensures forall i :: 0 <= s.first + first + i < |s.entries| ==> r.At(i) == s.At(first + i)
  {
    EntrySlice(s.entries, s.first + first, size)
  }

  /** A sub-view taken inside a view shows the corresponding part of that view. */
  lemma SubSliceView(s: EntrySlice, first: int, size: int)
    requires s.InRange()
    requires 0 <= first && 0 <= size && first + size <= s.size
    ensures SubSlice(s, first, size).InRange()
    ensures SubSlice(s, first, size).View() == s.View()[first..first + size]
  {
    var r := SubSlice(s, first, size);
    assert |r.View()| == size;
    forall i | 0 <= i < size
      ensures r.View()[i] == s.View()[first..first + size][i]
    {
      assert r.View()[i] == r.At(i) == s.At(first + i);
    }
  }

  /** The entries of a view carry consecutive indices, starting at `start`. */
  ghost predicate ConsecutiveFrom(s: EntrySlice, start: nat)
    requires s.InRange()
  {
    Numbered(s.View(), start)
  }

  /** Element k of a view numbered from `start` has index start + k. */
  lemma ConsecutiveAt(s: EntrySlice, start: nat, k: int)
    requires s.InRange() && ConsecutiveFrom(s, start) && 0 <= k < s.size
    ensures s.At(k).index == start + k
  {
    assert s.At(k) == s.View()[k];
  }
}
