/** The leader's bookkeeping for linearizable read-index requests: each request is identified by
    the context token it carries, waits in submission order, and collects the ids of the
    followers that acknowledged the heartbeat sent for it. */
module ReadOnlies {
  import opened RaftTypes

  /** How reads are served: confirmed by a quorum of heartbeats, or trusted to the leader lease. */
  datatype ReadOnlyOption = ReadOnlySafe | ReadOnlyLeaseBased

  /** One pending read: the request message, the commit index at submission, and the ids of
      the followers that have acknowledged it. */
  datatype ReadIndexStatus = ReadIndexStatus(request: Message, index: nat, acks: set<nat>)

  /** No token occurs twice in `queue`. */
  ghost predicate Distinct(queue: seq<string>) {
    forall i, j :: 0 <= i < j < |queue| ==> queue[i] != queue[j]
  }

  /** Where `token` sits in `queue`: its first occurrence. */
  ghost function Position(queue: seq<string>, token: string): (k: nat)
    requires token in queue
    ensures k < |queue| && queue[k] == token
    ensures forall j :: 0 <= j < k ==> queue[j] != token
  {
    if queue[0] == token then 0 else 1 + Position(queue[1..], token)
  }

  /** A suffix of a queue without repeats has no repeats either. */
  lemma DistinctSuffix(queue: seq<string>, n: nat)
    requires Distinct(queue) && n <= |queue|
    ensures Distinct(queue[n..])
  {
    forall i, j | 0 <= i < j < |queue| - n
      ensures queue[n..][i] != queue[n..][j]
    {
      assert queue[n..][i] == queue[n + i] && queue[n..][j] == queue[n + j];
    }
  }

  /** Taking the front token off a queue without repeats, and its status off the map keyed by
      the queued tokens, leaves a queue without repeats whose tokens are the keys left. */
  lemma TakeOne(queue: seq<string>, pending: map<string, ReadIndexStatus>)
    requires Distinct(queue) && |queue| > 0
    requires forall t :: t in pending <==> t in queue
    ensures Distinct(queue[1..])
    ensures forall t :: t in pending - {queue[0]} <==> t in queue[1..]
  {
    DistinctSuffix(queue, 1);
    forall t | t in queue[1..]
      ensures t != queue[0]
    {
      var j :| 0 <= j < |queue| - 1 && queue[1..][j] == t;
      assert queue[1 + j] == t;
    }
    assert queue == [queue[0]] + queue[1..];
  }

  /** Scan `queue` from the front for `token`: when found, `count` is its position plus one. */
  method FindToken(queue: seq<string>, token: string) returns (found: bool, count: nat)
    ensures found <==> token in queue
    ensures found ==> count == Position(queue, token) + 1
  {
    count := 0;
    found := false;
    while count < |queue|
      invariant count <= |queue|
      invariant forall j :: 0 <= j < count ==> queue[j] != token
    {
      count := count + 1;
      if token == queue[count - 1] {
        found := true;
        break;
      }
    }
    if found {
      assert Position(queue, token) == count - 1;
    }
  }

  /** After taking the first i tokens of `queue`: `q` is the rest of the queue, `p` holds
      exactly the statuses of the rest, unchanged, and `rss` the statuses taken, in order. */
  ghost predicate Taken(queue: seq<string>, pending: map<string, ReadIndexStatus>, i: nat,
                        rss: seq<ReadIndexStatus>, q: seq<string>, p: map<string, ReadIndexStatus>)
  {
    && i <= |queue|
    && q == queue[i..] && Distinct(q)
    && (forall t :: t in p <==> t in q)
    && (forall t :: t in p ==> t in pending && p[t] == pending[t])
    && |rss| == i && (forall j :: 0 <= j < i ==> queue[j] in pending && rss[j] == pending[queue[j]])
  }

  /** Taking one more token keeps the bookkeeping of Taken. */
  lemma TakeStep(queue: seq<string>, pending: map<string, ReadIndexStatus>, i: nat,
                 rss: seq<ReadIndexStatus>, q: seq<string>, p: map<string, ReadIndexStatus>)
    requires Taken(queue, pending, i, rss, q, p) && i < |queue|
    ensures q[0] in p
    ensures Taken(queue, pending, i + 1, rss + [p[q[0]]], q[1..], p - {q[0]})
  {
    assert q[0] == queue[i];
    TakeOne(q, p);
    assert q[1..] == queue[i + 1..];
    var rss' := rss + [p[q[0]]];
    forall j | 0 <= j < i + 1
      ensures queue[j] in pending && rss'[j] == pending[queue[j]]
    {
      if j < i {
        assert rss'[j] == rss[j];
      }
    }
  }

  /** Remove the first `count` tokens of `queue` and their statuses, returning the statuses in
      queue order. */
  method TakeThrough(queue: seq<string>, pending: map<string, ReadIndexStatus>, count: nat)
    returns (rss: seq<ReadIndexStatus>, q: seq<string>, p: map<string, ReadIndexStatus>)
    requires Distinct(queue) && (forall t :: t in pending <==> t in queue)
    requires count <= |queue|
    ensures Distinct(q) && (forall t :: t in p <==> t in q)
    ensures q == queue[count..]
    ensures forall t :: t in p ==> p[t] == pending[t]
    ensures |rss| == count && forall j :: 0 <= j < count ==> rss[j] == pending[queue[j]]
  {
    q, p := queue, pending;
    rss := [];
    var i := 0;
    while i < count
      invariant i <= count
      invariant Taken(queue, pending, i, rss, q, p)
    {
      TakeStep(queue, pending, i, rss, q, p);
      rss := rss + [p[q[0]]];
      p := p - {q[0]};
      q := q[1..];
      i := i + 1;
    }
  }

  class ReadOnly {
    const option: ReadOnlyOption
    var queue: seq<string>
    var pending: map<string, ReadIndexStatus>

    /** Every queued token is queued once and has a status, and every status is queued. */
    ghost predicate Valid()
      reads this
    {
      Distinct(queue) && (forall t :: t in pending <==> t in queue)
    }

    /** No read pending; the read option is fixed from here on. */
    constructor (option: ReadOnlyOption)
      ensures Valid()
      ensures this.option == option && queue == [] && pending == map[]
    {
      this.option := option;
      queue := [];
      pending := map[];
    }

    /** Queue the read request `msg`, submitted at commit index `index`, under the token its
        first entry carries. A token already pending is left as it is. */
    method AddRequest(index: nat, msg: Message)
      requires Valid() && |msg.entryData| > 0
      modifies this
      ensures Valid()
      ensures msg.entryData[0] in old(pending) ==> queue == old(queue) && pending == old(pending)
      ensures msg.entryData[0] !in old(pending) ==>
        queue == old(queue) + [msg.entryData[0]] &&
        pending == old(pending)[msg.entryData[0] := ReadIndexStatus(msg, index, {})]
    {
      var ctx := msg.entryData[0];
      if ctx in pending {
        return;
      }
      pending := pending[ctx := ReadIndexStatus(msg, index, {})];
      queue := queue + [ctx];
    }

    /** Record that follower `msg.from` acknowledged the heartbeat for the read `msg.context`,
        and report how many nodes, the leader included, now back that read; an unknown token
        is answered with 0. Acknowledging twice counts once. */
    method RecvAck(msg: Message) returns (count: nat)
      requires Valid()
      modifies this
      ensures Valid() && queue == old(queue)
      ensures msg.context !in old(pending) ==> count == 0 && pending == old(pending)
      ensures msg.context in old(pending) ==>
        var s := old(pending)[msg.context];
        && pending == old(pending)[msg.context := s.(acks := s.acks + {msg.from})]
        && count == |s.acks + {msg.from}| + 1
      ensures msg.context in old(pending) && msg.from in old(pending)[msg.context].acks ==>
        pending == old(pending) && count == |old(pending)[msg.context].acks| + 1
      ensures msg.context in old(pending) ==> count >= 2
    {
      if msg.context !in pending {
        return 0;
      }
      var s := pending[msg.context];
      var acks := s.acks + {msg.from};
      if msg.from in s.acks {
        assert acks == s.acks;
      }
      pending := pending[msg.context := s.(acks := acks)];
      return |acks| + 1;
    }

    /** The read `msg.context` is confirmed, and with it every read queued before it: remove
        them all from the queue and the map and return their statuses in submission order.
        A token that is not queued confirms nothing. */
    method Advance(msg: Message) returns (rss: seq<ReadIndexStatus>)
      requires Valid()
      modifies this
      ensures Valid()
      ensures msg.context !in old(queue) ==> rss == [] && queue == old(queue) && pending == old(pending)
      ensures msg.context in old(queue) ==>
        var k := Position(old(queue), msg.context);
        && |rss| == k + 1
        && (forall j :: 0 <= j <= k ==> rss[j] == old(pending)[old(queue)[j]])
        && queue == old(queue)[k + 1..]
        && (forall t :: t in pending ==> pending[t] == old(pending)[t])
    {
      var found, count := FindToken(queue, msg.context);
      rss := [];
      if !found {
        return;
      }
      rss, queue, pending := TakeThrough(queue, pending, count);
    }

    /** The token of the most recently queued read still pending, or "" when none is. */
    function LastPendingRequestCtx(): (ctx: string)
      reads this
      ensures |queue| == 0 ==> ctx == ""
      ensures Valid() && |queue| > 0 ==> ctx in pending && ctx == queue[|queue| - 1]
    {
      if |queue| == 0 then "" else queue[|queue| - 1]
    }
  }
}
