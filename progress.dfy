/** The leader's view of one follower: how far the follower's log is known to match (`matchIndex`),
    the next index to send (`nextIndex`), and which of three replication states the follower is
    in. A follower is probed one message at a time, replicated to with a bounded window of
    in-flight appends, or sent a snapshot. */
module Progresses {
  import opened RaftTypes

  /** How many entries at the front of `queue` are at most `to`: the entries an acknowledgement
      of `to` releases, counted up to the first larger one. */
  function AckedCount(queue: seq<nat>, to: nat): (n: nat)
    ensures n <= |queue|
    ensures forall k :: 0 <= k < n ==> queue[k] <= to
    ensures n < |queue| ==> queue[n] > to
  {
    if |queue| == 0 || queue[0] > to then 0 else 1 + AckedCount(queue[1..], to)
  }

  /** The entries of `queue` are in non-decreasing order. */
  ghost predicate Ascending(queue: seq<nat>) {
    forall i, j :: 0 <= i < j < |queue| ==> queue[i] <= queue[j]
  }

  /** Cutting an ascending queue where its first entry above `to` sits leaves an ascending
      queue of entries above `to`. */
  lemma AscendingCut(queue: seq<nat>, n: nat, to: nat)
    requires Ascending(queue) && n <= |queue|
    requires n < |queue| ==> queue[n] > to
    ensures forall k :: n <= k < |queue| ==> queue[k] > to
    ensures Ascending(queue[n..])
  {
    forall k | n <= k < |queue|
      ensures queue[k] > to
    {
      assert queue[n] <= queue[k];
    }
    var rest := queue[n..];
    forall i, j | 0 <= i < j < |rest|
      ensures rest[i] <= rest[j]
    {
      assert rest[i] == queue[n + i] && rest[j] == queue[n + j];
    }
  }

  /** In an ascending window the acknowledgement of `to` releases exactly the entries that are
      at most `to`: everything that stays is larger, and still ascending. */
  lemma AckedCountAscending(queue: seq<nat>, to: nat)
    requires Ascending(queue)
    ensures forall k :: AckedCount(queue, to) <= k < |queue| ==> queue[k] > to
    ensures Ascending(queue[AckedCount(queue, to)..])
  {
    AscendingCut(queue, AckedCount(queue, to), to);
  }

  /** The window of in-flight appends to one follower: the last index of each append sent and
      not yet acknowledged, oldest first, at most `maxSize` of them. */
  class Inflights {
    var queue: seq<nat>
    const maxSize: nat

    /** The window never holds more than `maxSize` appends. */
    ghost predicate Valid()
      reads this
    {
      |queue| <= maxSize
    }

    /** An empty window of capacity `maxSize`. */
    constructor (maxSize: nat)
      ensures Valid()
      ensures queue == [] && this.maxSize == maxSize
    {
      queue := [];
      this.maxSize := maxSize;
    }

    /** The window is full when it holds exactly `maxSize` appends; a full window has no room. */
    predicate Full()
      reads this
      ensures Valid() && !Full() ==> |queue| < maxSize
    {
      |queue| == maxSize
    }

    /** Record one more append at the back; pushing into a full window is fatal. */
    method Push(inflight: nat)
      requires !Full()
      modifies this
      ensures queue == old(queue) + [inflight]
      ensures old(Valid()) ==> Valid()
    {
      queue := queue + [inflight];
    }

    /** Release every append at the front of the window that `to` acknowledges, stopping at
      the first one that is larger than `to`. */
    method PopTo(to: nat)
      modifies this
      ensures queue == old(queue)[AckedCount(old(queue), to)..]
      ensures old(Valid()) ==> Valid()
      ensures old(Ascending(queue)) ==> Ascending(queue) && forall k :: 0 <= k < |queue| ==> queue[k] > to
    {
      ghost var popped := 0;
      while |queue| > 0 && to >= queue[0]
        invariant popped <= |old(queue)|
        invariant queue == old(queue)[popped..]
        invariant AckedCount(old(queue), to) == popped + AckedCount(queue, to)
        decreases |queue|
      {
        queue := queue[1..];
        popped := popped + 1;
      }
      if Ascending(old(queue)) {
        AckedCountAscending(old(queue), to);
      }
    }

    /** Release the oldest append only; the window must not be empty. */
    method PopFirstOne()
      requires |queue| > 0
      modifies this
      ensures queue == old(queue)[1..]
      ensures old(Valid()) ==> Valid()
    {
      queue := queue[1..];
    }

    /** Forget every append in flight. */
    method Clear()
      modifies this
      ensures queue == [] && Valid()
    {
      queue := [];
    }
  }

  /** The three ways the leader replicates to a follower. */
  datatype ProgressState = StateProbe | StateReplicate | StateSnapshot

  /** Whether a rejection of index `rejected` is fresh enough to move `nextIndex` back: in
      Replicate any rejection above the match; otherwise only the rejection of the last probe,
      the index right before `nextIndex`. */
  predicate DecreaseAccepted(state: ProgressState, matchIndex: nat, nextIndex: nat, rejected: nat) {
    if state == StateReplicate then rejected > matchIndex else nextIndex == rejected + 1
  }

  /** Where the source's MaybeDecrease sends the next probe after an accepted rejection of
      `rejected` from a follower whose last index is `last`: min(rejected, last + 1), never
      below 1. It ignores the match, so it can fall to or below it. */
  function DecreasedNextAsWritten(rejected: nat, last: nat): (next: nat)
    ensures 1 <= next && next <= Max(1, rejected)
    ensures next <= last + 1 || next == 1
  {
    Max(1, Min(rejected, last + 1))
  }

  /** A follower matched up to 5 and probed at 7 that rejects 6 while reporting 3 as its last
      index is accepted, and the as-written rule sends the next probe to 4, below the match. */
  lemma DecreasedNextBelowMatch()
    ensures DecreaseAccepted(StateProbe, 5, 7, 6)
    ensures DecreasedNextAsWritten(6, 3) == 4 && DecreasedNextAsWritten(6, 3) <= 5
  {
  }

  /** The next probe after an accepted rejection, kept above the match: min(rejected, last + 1),
      raised to matchIndex + 1 when it would fall to or below the match. It agrees with the
      as-written rule whenever that rule stays above the match, and never moves a probe that
      was above the match forward. */
  function DecreasedNext(matchIndex: nat, rejected: nat, last: nat): (next: nat)
    ensures next > matchIndex
    ensures DecreasedNextAsWritten(rejected, last) > matchIndex ==> next == DecreasedNextAsWritten(rejected, last)
    ensures matchIndex <= rejected ==> next <= rejected + 1
  {
    Max(matchIndex + 1, Min(rejected, last + 1))
  }

  class Progress {
    var matchIndex: nat
    var nextIndex: nat
    var state: ProgressState
    var paused: bool
    var pendingSnapshot: nat
    var recentActive: bool
    const inflights: Inflights
    const isLearner: bool

    /** The window of in-flight appends stays within its capacity, and the next index to send
        lies above the match. */
    ghost predicate Valid()
      reads this, inflights
    {
      inflights.Valid() && matchIndex < nextIndex
    }

    /** A follower known to match up to `matchIndex`, to be probed from `nextIndex`. */
    constructor (matchIndex: nat, nextIndex: nat, maxInflight: nat, isLearner: bool)
      requires matchIndex < nextIndex
      ensures Valid() && fresh(inflights)
      ensures this.matchIndex == matchIndex && this.nextIndex == nextIndex && this.isLearner == isLearner
      ensures state == StateProbe && !paused && pendingSnapshot == 0 && !recentActive
      ensures inflights.queue == [] && inflights.maxSize == maxInflight
    {
      this.matchIndex := matchIndex;
      this.nextIndex := nextIndex;
      state := StateProbe;
      paused := false;
      pendingSnapshot := 0;
      recentActive := false;
      inflights := new Inflights(maxInflight);
      this.isLearner := isLearner;
    }

    /** Stop sending to a probed follower until it answers. */
    method Pause()
      modifies this
      ensures paused
      ensures matchIndex == old(matchIndex) && nextIndex == old(nextIndex) && state == old(state)
      ensures pendingSnapshot == old(pendingSnapshot) && recentActive == old(recentActive)
    {
      paused := true;
    }

    /** Allow sending to a probed follower again. */
    method Resume()
      modifies this
      ensures !paused
      ensures matchIndex == old(matchIndex) && nextIndex == old(nextIndex) && state == old(state)
      ensures pendingSnapshot == old(pendingSnapshot) && recentActive == old(recentActive)
    {
      paused := false;
    }

    /** After sending entries up to `index` in Replicate, send from the next one without waiting. */
    method OptimisticUpdate(index: nat)
      modifies this
      ensures nextIndex == index + 1
      ensures matchIndex == old(matchIndex) && state == old(state) && paused == old(paused)
      ensures pendingSnapshot == old(pendingSnapshot) && recentActive == old(recentActive)
      ensures old(Valid()) && index >= matchIndex ==> Valid()
    {
      nextIndex := index + 1;
    }

    /** The snapshot in flight was lost: nothing is pending any more. */
    method SnapshotFailure()
      modifies this
      ensures pendingSnapshot == 0
      ensures matchIndex == old(matchIndex) && nextIndex == old(nextIndex) && state == old(state)
      ensures paused == old(paused) && recentActive == old(recentActive)
    {
      pendingSnapshot := 0;
    }

    /** A follower being sent a snapshot has caught up with it on its own; such a follower is
        still held back until it leaves Snapshot. */
    predicate NeedSnapshotAbort()
      reads this, inflights
      ensures NeedSnapshotAbort() <==> state == StateSnapshot && pendingSnapshot <= matchIndex
      ensures NeedSnapshotAbort() ==> IsPaused()
    {
      state == StateSnapshot && matchIndex >= pendingSnapshot
    }

    /** Whether the leader holds back appends to this follower: a probed follower while paused,
        a replicated follower while its window is full, a follower being sent a snapshot always. */
    predicate IsPaused()
      reads this, inflights
      ensures state == StateProbe ==> (IsPaused() <==> paused)
      ensures state == StateReplicate ==> (IsPaused() <==> |inflights.queue| == inflights.maxSize)
      ensures state == StateSnapshot ==> IsPaused()
      ensures inflights.Valid() && state == StateReplicate && !IsPaused() ==> |inflights.queue| < inflights.maxSize
    {
      match state
      case StateProbe => paused
      case StateReplicate => inflights.Full()
      case StateSnapshot => true
    }

    /** Probe the follower from right after what it is known to hold; leaving Snapshot, probe
        from after the pending snapshot when that is further. */
    method BecomeProbe()
      requires Valid()
      modifies this, inflights
      ensures Valid()
      ensures nextIndex == if old(state) == StateSnapshot then Max(old(matchIndex) + 1, old(pendingSnapshot) + 1)
                           else old(matchIndex) + 1
      ensures nextIndex > matchIndex
      ensures state == StateProbe && !paused && pendingSnapshot == 0 && inflights.queue == []
      ensures matchIndex == old(matchIndex) && recentActive == old(recentActive)
      ensures !IsPaused()
    {
      if state == StateSnapshot {
        nextIndex := Max(matchIndex + 1, pendingSnapshot + 1);
      } else {
        nextIndex := matchIndex + 1;
      }
      state := StateProbe;
      paused := false;
      pendingSnapshot := 0;
      inflights.Clear();
    }

    /** Stream appends to the follower from right after what it is known to hold. */
    method BecomeReplicate()
      requires Valid()
      modifies this, inflights
      ensures Valid()
      ensures nextIndex == old(matchIndex) + 1
      ensures state == StateReplicate && !paused && pendingSnapshot == 0 && inflights.queue == []
      ensures matchIndex == old(matchIndex) && recentActive == old(recentActive)
      ensures IsPaused() <==> inflights.maxSize == 0
    {
      nextIndex := matchIndex + 1;
      state := StateReplicate;
      paused := false;
      pendingSnapshot := 0;
      inflights.Clear();
    }

    /** Send the follower the snapshot ending at `snapshotIndex`; nextIndex is left alone. */
    method BecomeSnapshot(snapshotIndex: nat)
      requires Valid()
      modifies this, inflights
      ensures Valid()
      ensures state == StateSnapshot && !paused && pendingSnapshot == snapshotIndex && inflights.queue == []
      ensures matchIndex == old(matchIndex) && nextIndex == old(nextIndex) && recentActive == old(recentActive)
      ensures IsPaused()
    {
      state := StateSnapshot;
      paused := false;
      pendingSnapshot := snapshotIndex;
      inflights.Clear();
    }

    /** The follower acknowledged entries up to `index`: raise the match (and resume) when it
        is news, and never send below index + 1 again. Reports whether the match rose. */
    method MaybeUpdate(index: nat) returns (updated: bool)
      modifies this
      ensures old(Valid()) ==> Valid()
      ensures updated <==> old(matchIndex) < index
      ensures matchIndex == Max(old(matchIndex), index)
      ensures nextIndex == Max(old(nextIndex), index + 1)
      ensures nextIndex >= old(nextIndex) && nextIndex > index
      ensures paused == (if updated then false else old(paused))
      ensures state == old(state) && pendingSnapshot == old(pendingSnapshot) && recentActive == old(recentActive)
    {
      updated := false;
      if matchIndex < index {
        matchIndex := index;
        updated := true;
        Resume();
      }
      if nextIndex <= index {
        nextIndex := index + 1;
      }
    }

    /** The follower rejected an append at `rejected` and reported `last` as its last index.
        In Replicate, a rejection above the match sends the leader back to right after the
        match. Otherwise only the rejection of the last probe counts: the next probe goes to
        min(rejected, last + 1), kept above the match, and sending resumes. Reports whether
        the rejection counted; a stale one changes nothing. */
    method MaybeDecrease(rejected: nat, last: nat) returns (decreased: bool)
      modifies this
      ensures decreased == DecreaseAccepted(old(state), old(matchIndex), old(nextIndex), rejected)
      ensures !decreased ==> nextIndex == old(nextIndex) && paused == old(paused)
      ensures decreased && old(state) == StateReplicate ==> nextIndex == old(matchIndex) + 1 && paused == old(paused)
      ensures decreased && old(state) != StateReplicate ==>
        nextIndex == DecreasedNext(old(matchIndex), rejected, last) && !paused
      ensures old(Valid()) && decreased ==> nextIndex <= old(nextIndex)
      ensures old(Valid()) ==> Valid()
      ensures matchIndex == old(matchIndex) && state == old(state)
      ensures pendingSnapshot == old(pendingSnapshot) && recentActive == old(recentActive)
    {
      if state == StateReplicate {
        if rejected <= matchIndex {
          return false;
        }
        nextIndex := matchIndex + 1;
        return true;
      }
      if nextIndex != rejected + 1 {
        return false;
      }
      nextIndex := Min(rejected, last + 1);
      if nextIndex <= matchIndex {
        nextIndex := matchIndex + 1;
      }
      Resume();
      return true;
    }

    /** Handle the follower's answer to an append. The follower is marked recently active.
        An accepted rejection demotes Replicate to Probe. A successful update promotes Probe
        to Replicate, ends Snapshot once the follower has caught up with the pending snapshot,
        and in Replicate releases the in-flight appends the acknowledgement covers. Reports
        whether the answer changed the progress. */
    method ProgressAppResp(m: Message) returns (changed: bool)
      requires Valid()
      modifies this, inflights
      ensures Valid() && recentActive
      ensures changed <==>
        if m.reject then DecreaseAccepted(old(state), old(matchIndex), old(nextIndex), m.index)
        else old(matchIndex) < m.index
      ensures !changed ==>
        && matchIndex == old(matchIndex) && nextIndex == old(nextIndex) && state == old(state)
        && paused == old(paused) && pendingSnapshot == old(pendingSnapshot)
        && inflights.queue == old(inflights.queue)
      ensures m.reject ==> matchIndex == old(matchIndex)
      ensures m.reject && changed && old(state) == StateReplicate ==>
        && state == StateProbe && nextIndex == old(matchIndex) + 1 && !paused
        && pendingSnapshot == 0 && inflights.queue == []
      ensures m.reject && changed && old(state) != StateReplicate ==>
        && state == old(state) && nextIndex == DecreasedNext(old(matchIndex), m.index, m.rejectHint)
        && !paused && pendingSnapshot == old(pendingSnapshot) && inflights.queue == old(inflights.queue)
      ensures !m.reject ==> matchIndex == Max(old(matchIndex), m.index)
      ensures !m.reject && changed && old(state) == StateProbe ==>
        && state == StateReplicate && nextIndex == m.index + 1 && !paused
        && pendingSnapshot == 0 && inflights.queue == []
      ensures !m.reject && changed && old(state) == StateReplicate ==>
        && state == StateReplicate && nextIndex == Max(old(nextIndex), m.index + 1) && !paused
        && pendingSnapshot == old(pendingSnapshot)
        && inflights.queue == old(inflights.queue)[AckedCount(old(inflights.queue), m.index)..]
      ensures !m.reject && changed && old(state) == StateSnapshot && m.index >= old(pendingSnapshot) ==>
        && state == StateProbe && nextIndex == m.index + 1 && !paused
        && pendingSnapshot == 0 && inflights.queue == []
      ensures !m.reject && changed && old(state) == StateSnapshot && m.index < old(pendingSnapshot) ==>
        && state == StateSnapshot && nextIndex == Max(old(nextIndex), m.index + 1) && !paused
        && pendingSnapshot == old(pendingSnapshot) && inflights.queue == old(inflights.queue)
    {
      recentActive := true;
      if m.reject {
        var decreased := MaybeDecrease(m.index, m.rejectHint);
        if decreased {
          if state == StateReplicate {
            BecomeProbe();
          }
          return true;
        }
      } else {
        var updated := MaybeUpdate(m.index);
        if updated {
          match state {
            case StateProbe =>
              BecomeReplicate();
            case StateSnapshot =>
              if NeedSnapshotAbort() {
                BecomeProbe();
              }
            case StateReplicate =>
              inflights.PopTo(m.index);
          }
          return true;
        }
      }
      return false;
    }

    /** The follower answered a heartbeat: it is recently active and may be sent to again, and
        a full Replicate window gives up its oldest append (a full window of capacity 0 has
        nothing to give up, which is fatal). */
    method ProgressHeartbeatResp(m: Message)
      requires Valid()
      requires state == StateReplicate && inflights.Full() ==> |inflights.queue| > 0
      modifies this, inflights
      ensures Valid() && recentActive && !paused
      ensures matchIndex == old(matchIndex) && nextIndex == old(nextIndex) && state == old(state)
      ensures pendingSnapshot == old(pendingSnapshot)
      ensures inflights.queue ==
        if old(state) == StateReplicate && old(inflights.Full())
        then old(inflights.queue)[1..] else old(inflights.queue)
      ensures state == StateReplicate && old(inflights.Full()) ==> !IsPaused()
    {
      recentActive := true;
      Resume();
      if state == StateReplicate && inflights.Full() {
        inflights.PopFirstOne();
      }
    }

    /** The follower reported on the snapshot sent to it. Outside Snapshot the report is
        ignored. Otherwise the follower goes back to Probe (a failed snapshot is forgotten
        first, so probing restarts right after the match) and is paused until it answers. */
    method ProgressSnapStatus(m: Message)
      requires Valid()
      modifies this, inflights
      ensures Valid()
      ensures old(state) != StateSnapshot ==>
        state == old(state) && paused == old(paused) && nextIndex == old(nextIndex) &&
        pendingSnapshot == old(pendingSnapshot) && inflights.queue == old(inflights.queue)
      ensures old(state) == StateSnapshot ==>
        state == StateProbe && paused && pendingSnapshot == 0 && inflights.queue == [] && IsPaused()
      ensures old(state) == StateSnapshot && m.reject ==> nextIndex == old(matchIndex) + 1
      ensures old(state) == StateSnapshot && !m.reject ==>
        nextIndex == Max(old(matchIndex) + 1, old(pendingSnapshot) + 1)
      ensures matchIndex == old(matchIndex) && recentActive == old(recentActive)
    {
      if state != StateSnapshot {
        return;
      }
      if m.reject {
        SnapshotFailure();
        BecomeProbe();
      } else {
        BecomeProbe();
      }
      Pause();
    }

    /** The follower could not be reached: a replicated follower falls back to Probe. */
    method ProgressUnreachable(m: Message)
      requires Valid()
      modifies this, inflights
      ensures Valid()
      ensures old(state) == StateReplicate ==>
        && state == StateProbe && nextIndex == old(matchIndex) + 1 && !paused
        && pendingSnapshot == 0 && inflights.queue == []
      ensures old(state) != StateReplicate ==>
        && state == old(state) && nextIndex == old(nextIndex) && paused == old(paused)
        && pendingSnapshot == old(pendingSnapshot) && inflights.queue == old(inflights.queue)
      ensures matchIndex == old(matchIndex) && recentActive == old(recentActive)
    {
      if state == StateReplicate {
        BecomeProbe();
      }
    }
  }
}
