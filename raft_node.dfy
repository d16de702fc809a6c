/**
 * The sequential decision logic of lu-raft-kv's Raft node (DefaultNode.java):
 * the client-write path, per-peer replication with nextIndex back-off, the
 * election tick with its vote tally, the no-op commit of a new leader and the
 * heartbeat's term adoption.
 *
 * Everything the Java code obtains from outside becomes a parameter: RPC
 * replies arrive as scripts (None for a timeout, an exception or a null
 * result), clock readings and random jitter as numbers. The parallel
 * fan-outs run as sequential loops over the peers, in peer order.
 */
module RaftNode {
  import opened Common
  import opened RaftLog

  /** `replication` keeps retrying for 20 seconds. */
  const RetryWindowMillis: int := 20 * 1000

  datatype ClientRequest = Get(key: string) | Put(key: string, value: string)

  /** A client acknowledgement: a GET answer, or the outcome of a PUT. */
  datatype ClientAck = Found(entry: Option<LogEntry>) | Ok | Fail

  datatype AppendRequest = AppendRequest(
    term: int, serverId: Peer, leaderId: Peer, leaderCommit: int,
    prevLogIndex: int, prevLogTerm: int, entries: seq<LogEntry>)

  datatype AppendReply = AppendReply(term: int, success: bool)

  /**
   * One replication attempt as the transport and the clock report it: the
   * reply (None for a null result or an exception) and the milliseconds since
   * the replication started, read after the reply was handled.
   */
  datatype Attempt = Attempt(reply: Option<AppendReply>, elapsed: int)

  /** What one reply does to a replication: finish with a result, or back off and retry. */
  datatype Step = Done(ok: bool) | Retry

  datatype VoteRequest = VoteRequest(term: int, candidateId: Peer, lastLogIndex: int, lastLogTerm: int)

  datatype VoteReply = VoteReply(term: int, voteGranted: bool)

  datatype Heartbeat = Heartbeat(term: int, leaderId: Peer, serverId: Peer, leaderCommit: int)

  /**
   * The clock readings and random draws of one election tick: the tick's
   * `now` and its `nextInt(50)` jitter, then the clock and `nextInt(200)` when
   * the node becomes a candidate, then the clock and `nextInt(200)` once the
   * votes are counted.
   */
  datatype ElectionClock = ElectionClock(
    now: int, tickJitter: int, startedAt: int, startJitter: int, endedAt: int, endJitter: int)

  ghost predicate JitterInRange(c: ElectionClock) {
    0 <= c.tickJitter < 50 && 0 <= c.startJitter < 200 && 0 <= c.endJitter < 200
  }

  /** The entries' indices run up by one from the first. */
  ghost predicate Consecutive(entries: seq<LogEntry>) {
    forall k :: 0 <= k < |entries| ==> entries[k].index == entries[0].index + k
  }

  /** The first index a batch can start at: nextIndex, but not below the first entry. */
  function FirstSent(nextIndex: int): int {
    if nextIndex < 1 then 1 else nextIndex
  }

  /** A stretch of a contiguous log is consecutive and made of log entries. */
  lemma SliceIsConsecutive(log: seq<LogEntry>, lo: int, hi: int)
    requires Contiguous(log) && 0 <= lo <= hi <= |log|
    ensures Consecutive(log[lo..hi]) && forall e :: e in log[lo..hi] ==> e in log
  {
  }

  /** A stretch of the log grows by the entry that follows it. */
  lemma SliceGrows(log: seq<LogEntry>, lo: int, hi: int)
    requires 0 <= lo <= hi < |log|
    ensures log[lo..hi] + [log[hi]] == log[lo..hi + 1]
  {
  }

  /**
   * An append-entries batch for `target`: the log entries from nextIndex up to
   * the target when the target is at or beyond nextIndex, otherwise the
   * target alone.
   */
  ghost predicate BatchFrom(log: seq<LogEntry>, entries: seq<LogEntry>, target: LogEntry, nextIndex: int) {
    && (target.index >= nextIndex ==>
          FirstSent(nextIndex) <= target.index <= |log|
          && entries == log[FirstSent(nextIndex) - 1 .. target.index])
    && (target.index < nextIndex ==> entries == [target])
  }

  /**
   * The log-matching fields of a request: the entries are consecutive log
   * entries ending with the target, and prevLogIndex/prevLogTerm describe the
   * entry just before the first one, or are (0, 0) when there is none.
   */
  ghost predicate WellFormedAppend(log: seq<LogEntry>, req: AppendRequest, target: LogEntry)
    requires Contiguous(log)
  {
    && |req.entries| > 0
    && req.entries[|req.entries| - 1] == target
    && Consecutive(req.entries)
    && (forall e :: e in req.entries ==> e in log)
    && var before := Read(log, req.entries[0].index - 1);
       if before.Some? then req.prevLogIndex == before.value.index && req.prevLogTerm == before.value.term
       else req.prevLogIndex == 0 && req.prevLogTerm == 0
  }

  /** What every request of one replication carries: the leader's term and commit index, and a batch built from nextIndex. */
  ghost predicate SentFor(req: AppendRequest, leaderId: Peer, peer: Peer, term: int, commit: int,
                          log: seq<LogEntry>, target: LogEntry, nextIndex: int)
    requires Contiguous(log)
  {
    && req.term == term && req.serverId == peer && req.leaderId == leaderId && req.leaderCommit == commit
    && WellFormedAppend(log, req, target)
    && BatchFrom(log, req.entries, target, nextIndex)
  }

  /** Every request of a replication so far, the k-th built after k rejections. */
  ghost predicate SentSoFar(sent: seq<AppendRequest>, leaderId: Peer, peer: Peer, term: int, commit: int,
                            log: seq<LogEntry>, target: LogEntry, nextIndex: int)
    requires Contiguous(log)
  {
    sent != [] ==>
      && SentSoFar(sent[..|sent| - 1], leaderId, peer, term, commit, log, target, nextIndex)
      && SentFor(sent[|sent| - 1], leaderId, peer, term, commit, log, target, BackedOff(nextIndex, |sent| - 1))
  }

  /** The k-th request of a replication carries the batch built from nextIndex after k rejections. */
  lemma {:induction false} SentSoFarAt(sent: seq<AppendRequest>, leaderId: Peer, peer: Peer, term: int, commit: int,
                                      log: seq<LogEntry>, target: LogEntry, nextIndex: int, k: nat)
    requires Contiguous(log) && k < |sent|
    requires SentSoFar(sent, leaderId, peer, term, commit, log, target, nextIndex)
    ensures SentFor(sent[k], leaderId, peer, term, commit, log, target, BackedOff(nextIndex, k))
  {
    if k < |sent| - 1 {
      SentSoFarAt(sent[..|sent| - 1], leaderId, peer, term, commit, log, target, nextIndex, k);
    }
  }

  /**
   * nextIndex after k plain rejections: each steps back by one, except that a
   * nextIndex of 0 stays 0.
   */
  function BackedOff(nextIndex: int, k: nat): (r: int)
    ensures nextIndex >= 0 ==> 0 <= r <= nextIndex
    ensures r <= nextIndex
  {
    if nextIndex < 0 then nextIndex - k
    else if nextIndex - k < 0 then 0
    else nextIndex - k
  }

  /** A second update of the same peer's progress replaces the first. */
  lemma UpdatedTwice(m: map<Peer, int>, k: Peer, a: int, b: int)
    ensures m[k := a][k := b] == m[k := b]
  {
  }

  /** The matchIndex values of the given peers, in peer order. */
  function ValuesOf(m: map<Peer, int>, ps: seq<Peer>): (r: seq<int>)
    requires forall p :: p in ps ==> p in m
    ensures |r| == |ps|
    ensures forall i {:trigger r[i]} :: 0 <= i < |ps| ==> r[i] == m[ps[i]]
  {
    if ps == [] then [] else [m[ps[0]]] + ValuesOf(m, ps[1..])
  }

  /**
   * The progress maps after replicating `entry` to the first |results| peers:
   * a peer that accepted it is matched up to it, any other keeps its old matchIndex.
   */
  ghost predicate ReplicatedTo(peers: seq<Peer>, results: seq<bool>, entry: LogEntry,
                               nextIndexs: map<Peer, int>, matchIndexs: map<Peer, int>, before: map<Peer, int>)
  {
    && |results| <= |peers|
    && (forall j :: 0 <= j < |peers| ==> peers[j] in nextIndexs && peers[j] in matchIndexs && peers[j] in before)
    && (forall j :: 0 <= j < |results| && results[j] ==>
          matchIndexs[peers[j]] == entry.index && nextIndexs[peers[j]] == entry.index + 1)
    && (forall j :: 0 <= j < |peers| && (j >= |results| || !results[j]) ==> matchIndexs[peers[j]] == before[peers[j]])
  }

  /** Replicating to one more peer, which leaves every other peer's progress alone. */
  lemma ReplicatedToOneMore(peers: seq<Peer>, results: seq<bool>, ok: bool, entry: LogEntry,
                            next0: map<Peer, int>, match0: map<Peer, int>,
                            next1: map<Peer, int>, match1: map<Peer, int>, before: map<Peer, int>)
    requires forall i, j :: 0 <= i < j < |peers| ==> peers[i] != peers[j]
    requires |results| < |peers|
    requires ReplicatedTo(peers, results, entry, next0, match0, before)
    requires forall p :: p in peers ==> p in next1 && p in match1
    requires forall p :: p != peers[|results|] && p in peers ==> next1[p] == next0[p] && match1[p] == match0[p]
    requires ok ==> match1[peers[|results|]] == entry.index && next1[peers[|results|]] == entry.index + 1
    requires !ok ==> match1[peers[|results|]] == match0[peers[|results|]]
    ensures ReplicatedTo(peers, results + [ok], entry, next1, match1, before)
  {
    var i := |results|;
    forall j | 0 <= j < |peers| && j != i
      ensures next1[peers[j]] == next0[peers[j]] && match1[peers[j]] == match0[peers[j]]
    {
      assert peers[j] != peers[i];
    }
  }

  /** A progress map giving every peer the same value. */
  function Uniform(peers: seq<Peer>, v: int): (m: map<Peer, int>)
    ensures forall j :: 0 <= j < |peers| ==> peers[j] in m && m[peers[j]] == v
    ensures m.Keys == set p | p in peers
  {
    map p | p in peers :: v
  }

  /** How many replications both succeeded and reported before the waits ran out. */
  function Tally(results: seq<bool>, inTime: seq<bool>): (r: nat)
    requires |results| == |inTime|
    ensures r <= |results|
  {
    if results == [] then 0 else
      var n := |results| - 1;
      Tally(results[..n], inTime[..n]) + (if results[n] && inTime[n] then 1 else 0)
  }

  /** The number of granted votes among the replies that arrived. */
  function Granted(votes: seq<Option<VoteReply>>): (r: nat)
    ensures r <= |votes|
  {
    if votes == [] then 0 else
      var n := |votes| - 1;
      Granted(votes[..n]) + (if votes[n].Some? && votes[n].value.voteGranted then 1 else 0)
  }

  /** The term after the denials are read: the largest of `term` and every denial's term. */
  function TermAfterDenials(term: int, votes: seq<Option<VoteReply>>): (r: int)
    ensures r >= term
    ensures forall v :: v in votes && v.Some? && !v.value.voteGranted ==> r >= v.value.term
    ensures r == term || exists v :: v in votes && v.Some? && !v.value.voteGranted && r == v.value.term
  {
    if votes == [] then term else
      var n := |votes| - 1;
      var t := TermAfterDenials(term, votes[..n]);
      assert votes == votes[..n] + [votes[n]];
      if votes[n].Some? && !votes[n].value.voteGranted && votes[n].value.term >= t then votes[n].value.term else t
  }

  /** The largest of `term` and every heartbeat reply's term. */
  function HighestReplyTerm(term: int, replies: seq<Option<int>>): (r: int)
    ensures r >= term
    ensures forall t :: Some(t) in replies ==> r >= t
    ensures r == term || Some(r) in replies
  {
    if replies == [] then term else
      var n := |replies| - 1;
      var t := HighestReplyTerm(term, replies[..n]);
      assert replies == replies[..n] + [replies[n]];
      if replies[n].Some? && replies[n].value > t then replies[n].value else t
  }

  /**
   * `stateMachine.get(key)`: the most recently applied entry that wrote the
   * key, or null. The key-value store is not part of this model; it is taken
   * to keep the last write per key.
   */
  function StateMachineGet(applied: seq<LogEntry>, key: string): (r: Option<LogEntry>)
    ensures r.Some? ==> exists i :: 0 <= i < |applied| && applied[i] == r.value
                          && r.value.command.Some? && r.value.command.value.key == key
                          && forall j :: i < j < |applied| ==> !(applied[j].command.Some? && applied[j].command.value.key == key)
    ensures r.None? ==> forall e :: e in applied ==> !(e.command.Some? && e.command.value.key == key)
  {
    if applied == [] then None else
      var n := |applied| - 1;
      if applied[n].command.Some? && applied[n].command.value.key == key then Some(applied[n])
      else
        var r := StateMachineGet(applied[..n], key);
        assert applied == applied[..n] + [applied[n]];
        r
  }

  class Node {
    const self: Peer
    const peers: seq<Peer>
    const heartBeatTick: int

    var electionTime: int
    var preElectionTime: int
    var preHeartBeatTime: int
    var status: Status
    var leader: Option<Peer>
    var currentTerm: int
    var votedFor: Option<Peer>
    var log: seq<LogEntry>
    var commitIndex: int
    var lastApplied: int
    var nextIndexs: map<Peer, int>
    var matchIndexs: map<Peer, int>
    /** The entries handed to the state machine, in order. */
    var applied: seq<LogEntry>

    /** Both progress maps have an entry for every peer. */
    ghost predicate Tracked()
      reads this`nextIndexs, this`matchIndexs
    {
      forall p :: p in peers ==> p in nextIndexs && p in matchIndexs
    }

    /** The peers are distinct and do not include the node itself. */
    ghost predicate Membership() {
      (forall i, j :: 0 <= i < j < |peers| ==> peers[i] != peers[j]) && self !in peers
    }

    /** The log is contiguous and the commit and apply indices stay within one past its end. */
    ghost predicate LogBounds()
      reads this`log, this`commitIndex, this`lastApplied
    {
      Contiguous(log) && 0 <= lastApplied <= commitIndex <= |log| + 1
    }

    /** The invariant every operation keeps, apart from the leader's maps. */
    ghost predicate Consistent()
      reads this`log, this`commitIndex, this`lastApplied
    {
      Membership() && LogBounds()
    }

    ghost predicate Valid()
      reads this`log, this`commitIndex, this`lastApplied, this`status, this`nextIndexs, this`matchIndexs
    {
      Consistent() && (status == Leader ==> Tracked())
    }

    constructor (self: Peer, peers: seq<Peer>)
      requires forall i, j :: 0 <= i < j < |peers| ==> peers[i] != peers[j]
      requires self !in peers
      ensures Valid()
      ensures this.self == self && this.peers == peers && heartBeatTick == 500
      ensures status == Follower && currentTerm == 0 && votedFor == None && leader == None
      ensures log == [] && applied == [] && commitIndex == 0 && lastApplied == 0
      ensures electionTime == 15 * 1000 && preElectionTime == 0 && preHeartBeatTime == 0
      ensures nextIndexs == map[] && matchIndexs == map[]
    {
      this.self := self;
      this.peers := peers;
      heartBeatTick := 5 * 100;
      electionTime := 15 * 1000;
      preElectionTime := 0;
      preHeartBeatTime := 0;
      status := Follower;
      leader := None;
      currentTerm := 0;
      votedFor := None;
      log := [];
      commitIndex := 0;
      lastApplied := 0;
      nextIndexs := map[];
      matchIndexs := map[];
      applied := [];
    }

    /** `getPreLog`: the entry before `first`, or the sentinel (0, 0) when there is none. */
    function PrevLog(first: LogEntry): (r: LogEntry)
      reads this
      requires Contiguous(log)
      ensures (exists e :: e in log && e.index == first.index - 1) ==> r in log && r.index == first.index - 1
      ensures !(exists e :: e in log && e.index == first.index - 1) ==> r == LogEntry(0, 0, None)
    {
      match Read(log, first.index - 1)
      case Some(e) => e
      case None => LogEntry(0, 0, None)
    }

    /** The batch loop of `replication`: read nextIndex..target.index and keep the entries found. */
    method CollectBatch(nextIndex: int, target: LogEntry) returns (batch: seq<LogEntry>)
      requires Contiguous(log) && Read(log, target.index) == Some(target) && target.index >= nextIndex
      ensures batch == log[FirstSent(nextIndex) - 1 .. target.index]
    {
      ghost var lo := FirstSent(nextIndex);
      batch := [];
      var i := nextIndex;
      while i <= target.index
        invariant nextIndex <= i <= target.index + 1
        invariant batch == log[lo - 1 .. if i < lo then lo - 1 else i - 1]
        decreases target.index + 1 - i
      {
        match Read(log, i) {
          case Some(e) =>
            SliceGrows(log, lo - 1, i - 1);
            batch := batch + [e];
          case None =>
            assert i < lo;
        }
        i := i + 1;
      }
    }

    /** The batch `replication` sends: the entries nextIndex..target.index, or the target alone. */
    method BuildBatch(nextIndex: int, target: LogEntry) returns (batch: seq<LogEntry>)
      requires Contiguous(log) && Read(log, target.index) == Some(target)
      ensures |batch| > 0 && batch[|batch| - 1] == target
      ensures Consecutive(batch) && forall e :: e in batch ==> e in log
      ensures BatchFrom(log, batch, target, nextIndex)
    {
      if target.index >= nextIndex {
        batch := CollectBatch(nextIndex, target);
        SliceIsConsecutive(log, FirstSent(nextIndex) - 1, target.index);
      } else {
        batch := [target];
      }
    }

    /** The request one iteration of `replication` sends to `peer`. */
    method BuildRequest(peer: Peer, target: LogEntry) returns (req: AppendRequest)
      requires Consistent() && peer in nextIndexs && Read(log, target.index) == Some(target)
      ensures SentFor(req, self, peer, currentTerm, commitIndex, log, target, nextIndexs[peer])
    {
      var batch := BuildBatch(nextIndexs[peer], target);
      var prev := PrevLog(batch[0]);
      req := AppendRequest(currentTerm, peer, self, commitIndex, prev.index, prev.term, batch);
    }

    /** How `replication` reacts to one reply (or to its absence). */
    method HandleAppendReply(peer: Peer, target: LogEntry, reply: Option<AppendReply>) returns (step: Step)
      requires Consistent() && peer in nextIndexs && peer in matchIndexs && target.index >= 1
      modifies this`currentTerm, this`status, this`nextIndexs, this`matchIndexs
      ensures Consistent()
      ensures reply.None? ==>
        step == Done(false) && currentTerm == old(currentTerm) && status == old(status)
        && nextIndexs == old(nextIndexs) && matchIndexs == old(matchIndexs)
      ensures reply.Some? && reply.value.success ==>
        step == Done(true) && currentTerm == old(currentTerm) && status == old(status)
        && nextIndexs == old(nextIndexs)[peer := target.index + 1]
        && matchIndexs == old(matchIndexs)[peer := target.index]
      ensures reply.Some? && !reply.value.success && reply.value.term > old(currentTerm) ==>
        step == Done(false) && currentTerm == reply.value.term && status == Follower
        && nextIndexs == old(nextIndexs) && matchIndexs == old(matchIndexs)
      ensures reply.Some? && !reply.value.success && reply.value.term <= old(currentTerm) ==>
        step == Retry && currentTerm == old(currentTerm) && status == old(status)
        && nextIndexs == old(nextIndexs)[peer := BackedOff(old(nextIndexs)[peer], 1)]
        && matchIndexs == old(matchIndexs)
    {
      match reply
      case None =>
        step := Done(false);
      case Some(r) =>
        if r.success {
          nextIndexs := nextIndexs[peer := target.index + 1];
          matchIndexs := matchIndexs[peer := target.index];
          step := Done(true);
        } else if r.term > currentTerm {
          currentTerm := r.term;
          status := Follower;
          step := Done(false);
        } else {
          var nextIndex := nextIndexs[peer];
          if nextIndex == 0 {
            nextIndex := 1;
          }
          nextIndexs := nextIndexs[peer := nextIndex - 1];
          step := Retry;
        }
    }

    /**
     * One pass of the `replication` loop: build the request from the current
     * nextIndex (nextIndex0 after as many rejections as requests already
     * sent), send it, and react to the reply. The progress maps are those of
     * the loop's start, `nextBase` and `matchBase`, except for the peer's
     * nextIndex.
     */
    method ReplicationRound(peer: Peer, target: LogEntry, reply: Option<AppendReply>, sent: seq<AppendRequest>,
                            ghost term: int, ghost status0: Status, ghost commit: int, ghost entries: seq<LogEntry>,
                            ghost nextIndex0: int, ghost nextBase: map<Peer, int>, ghost matchBase: map<Peer, int>)
      returns (sent': seq<AppendRequest>, step: Step)
      requires Consistent() && Tracked() && peer in peers && Read(log, target.index) == Some(target)
      requires term == currentTerm && status0 == status && commit == commitIndex && entries == log
      requires nextIndexs == nextBase[peer := BackedOff(nextIndex0, |sent|)] && matchIndexs == matchBase
      requires SentSoFar(sent, self, peer, term, commit, entries, target, nextIndex0)
      modifies this`currentTerm, this`status, this`nextIndexs, this`matchIndexs
      ensures Consistent() && Tracked()
      ensures |sent'| == |sent| + 1
      ensures SentSoFar(sent', self, peer, term, commit, entries, target, nextIndex0)
      ensures step == Done(true) ==>
        && nextIndexs == nextBase[peer := target.index + 1] && matchIndexs == matchBase[peer := target.index]
        && currentTerm == term && status == status0
      ensures step == Done(false) ==>
        && nextIndexs == nextBase[peer := BackedOff(nextIndex0, |sent'| - 1)] && matchIndexs == matchBase
        && ((currentTerm == term && status == status0) || (currentTerm > term && status == Follower))
      ensures step == Retry ==>
        && nextIndexs == nextBase[peer := BackedOff(nextIndex0, |sent'|)] && matchIndexs == matchBase
        && currentTerm == term && status == status0
    {
      var req := BuildRequest(peer, target);
      step := HandleAppendReply(peer, target, reply);
      sent' := sent + [req];
      assert sent'[..|sent|] == sent;
      assert BackedOff(BackedOff(nextIndex0, |sent|), 1) == BackedOff(nextIndex0, |sent| + 1);
      UpdatedTwice(nextBase, peer, BackedOff(nextIndex0, |sent|), target.index + 1);
      UpdatedTwice(nextBase, peer, BackedOff(nextIndex0, |sent|), BackedOff(nextIndex0, |sent| + 1));
    }

    /**
     * `replication(peer, target)`: send append-entries until the peer accepts,
     * a reply is missing, a higher term is reported, or the 20-second window
     * is over; every plain rejection steps nextIndex back by one. An
     * exhausted script counts as an expired window.
     */
    method Replicate(peer: Peer, target: LogEntry, script: seq<Attempt>) returns (ok: bool, sent: seq<AppendRequest>)
      requires Consistent() && Tracked() && peer in peers && Read(log, target.index) == Some(target)
      modifies this`currentTerm, this`status, this`nextIndexs, this`matchIndexs
      ensures Consistent() && Tracked()
      ensures 0 < |sent| <= |script| || (sent == [] && script == [] && !ok)
      ensures SentSoFar(sent, self, peer, old(currentTerm), commitIndex, log, target, old(nextIndexs)[peer])
      ensures ok ==>
        && nextIndexs == old(nextIndexs)[peer := target.index + 1]
        && matchIndexs == old(matchIndexs)[peer := target.index]
        && currentTerm == old(currentTerm) && status == old(status)
      ensures !ok ==>
        && matchIndexs == old(matchIndexs)
        && (nextIndexs == old(nextIndexs)[peer := BackedOff(old(nextIndexs)[peer], |sent|)]
            || (|sent| > 0 && nextIndexs == old(nextIndexs)[peer := BackedOff(old(nextIndexs)[peer], |sent| - 1)]))
      ensures currentTerm >= old(currentTerm)
      ensures currentTerm != old(currentTerm) ==> !ok && status == Follower
      ensures currentTerm == old(currentTerm) ==> status == old(status)
      ensures status == old(status) || status == Follower
    {
      ok := false;
      sent := [];
      ghost var next0, nextBase, matchBase := nextIndexs[peer], nextIndexs, matchIndexs;
      ghost var term0, status0, commit0, log0 := currentTerm, status, commitIndex, log;
      assert nextIndexs == nextBase[peer := BackedOff(next0, 0)];
      var elapsed := 0;
      var i := 0;
      while elapsed < RetryWindowMillis
        invariant 0 <= i <= |script| && |sent| == i
        invariant i > 0 || elapsed == 0
        invariant Consistent() && Tracked()
        invariant currentTerm == term0 && status == status0 && commitIndex == commit0 && log == log0
        invariant nextIndexs == nextBase[peer := BackedOff(next0, i)] && matchIndexs == matchBase
        invariant SentSoFar(sent, self, peer, term0, commit0, log0, target, next0)
        decreases |script| - i
      {
        if i == |script| {
          return;
        }
        var step;
        sent, step := ReplicationRound(peer, target, script[i].reply, sent, term0, status0, commit0, log0,
                                       next0, nextBase, matchBase);
        if step.Done? {
          ok := step.ok;
          return;
        }
        elapsed := script[i].elapsed;
        i := i + 1;
      }
    }

    /** The `replication` call for the i-th peer, which moves that peer's progress alone. */
    method ReplicateTo(i: nat, entry: LogEntry, script: seq<Attempt>, ghost results: seq<bool>, ghost before: map<Peer, int>)
      returns (ok: bool)
      requires Consistent() && Tracked() && Read(log, entry.index) == Some(entry)
      requires i == |results| < |peers|
      requires ReplicatedTo(peers, results, entry, nextIndexs, matchIndexs, before)
      modifies this`currentTerm, this`status, this`nextIndexs, this`matchIndexs
      ensures Consistent() && Tracked()
      ensures ReplicatedTo(peers, results + [ok], entry, nextIndexs, matchIndexs, before)
      ensures currentTerm >= old(currentTerm)
      ensures currentTerm == old(currentTerm) ==> status == old(status)
      ensures currentTerm != old(currentTerm) ==> status == Follower
    {
      ghost var next0, match0 := nextIndexs, matchIndexs;
      var sent;
      ok, sent := Replicate(peers[i], entry, script);
      ReplicatedToOneMore(peers, results, ok, entry, next0, match0, nextIndexs, matchIndexs, before);
    }

    /** The parallel `replication` calls of a write or of the no-op, run one peer after the other. */
    method FanOut(entry: LogEntry, scripts: seq<seq<Attempt>>) returns (results: seq<bool>)
      requires Consistent() && Tracked() && Read(log, entry.index) == Some(entry)
      requires |scripts| == |peers|
      modifies this`currentTerm, this`status, this`nextIndexs, this`matchIndexs
      ensures Consistent() && Tracked()
      ensures |results| == |peers|
      ensures ReplicatedTo(peers, results, entry, nextIndexs, matchIndexs, old(matchIndexs))
      ensures currentTerm >= old(currentTerm)
      ensures |peers| == 0 ==> currentTerm == old(currentTerm)
      ensures currentTerm == old(currentTerm) ==> status == old(status)
      ensures currentTerm != old(currentTerm) ==> status == Follower
    {
      results := [];
      var i := 0;
      while i < |peers|
        invariant 0 <= i <= |peers| && |results| == i
        invariant Consistent() && Tracked()
        invariant ReplicatedTo(peers, results, entry, nextIndexs, matchIndexs, old(matchIndexs))
        invariant currentTerm >= old(currentTerm)
        invariant i == 0 ==> currentTerm == old(currentTerm)
        invariant currentTerm == old(currentTerm) ==> status == old(status)
        invariant currentTerm != old(currentTerm) ==> status == Follower
      {
        var ok := ReplicateTo(i, entry, scripts[i], results, old(matchIndexs));
        results := results + [ok];
        i := i + 1;
      }
    }

    /**
     * The loop over the result list after the wait: `inTime[i]` says whether
     * peer i's result was in the list when the wait ended; only those count.
     */
    method CountSuccesses(results: seq<bool>, inTime: seq<bool>) returns (successes: nat)
      requires |results| == |inTime|
      ensures successes == Tally(results, inTime)
    {
      successes := 0;
      var i := 0;
      while i < |results|
        invariant 0 <= i <= |results|
        invariant successes == Tally(results[..i], inTime[..i])
      {
        assert results[..i + 1][..i] == results[..i] && inTime[..i + 1][..i] == inTime[..i];
        if results[i] && inTime[i] {
          successes := successes + 1;
        }
        i := i + 1;
      }
      assert results[..i] == results && inTime[..i] == inTime;
    }

    /**
     * The commit step of sections 5.3 and 5.4 of the Raft paper as written:
     * N is the median of the peers' matchIndex values, and commitIndex moves to
     * N when that entry exists and has the current term. With no peers the
     * median lookup throws.
     */
    method AdvanceCommitIndex() returns (threw: bool)
      requires Consistent() && Tracked()
      modifies this`commitIndex
      ensures Consistent()
      ensures threw <==> |peers| == 0
      ensures threw ==> commitIndex == old(commitIndex)
      ensures !threw ==>
        commitIndex == CommitAfterMedian(log, currentTerm, old(commitIndex), MedianMatchIndex(ValuesOf(matchIndexs, peers)))
      ensures commitIndex != old(commitIndex) ==>
        Read(log, commitIndex).Some? && Read(log, commitIndex).value.term == currentTerm
      ensures commitIndex >= old(commitIndex)
    {
      var values := ValuesOf(matchIndexs, peers);
      if |values| == 0 {
        return true;
      }
      var n := MedianMatchIndex(values);
      CommitStepIsSafe(log, currentTerm, commitIndex, n);
      commitIndex := CommitAfterMedian(log, currentTerm, commitIndex, n);
      threw := false;
    }

    /**
     * The end of a write or of the no-op: with enough successes the entry is
     * committed and applied, otherwise it is removed from the log again.
     */
    method CommitOrRollback(entry: LogEntry, successes: nat) returns (committed: bool)
      requires Consistent() && |log| > 0 && log[|log| - 1] == entry && commitIndex <= entry.index
      modifies this`commitIndex, this`lastApplied, this`applied, this`log
      ensures Consistent()
      ensures committed == WriteQuorum(successes, |peers|)
      ensures committed ==>
        log == old(log) && commitIndex == entry.index && lastApplied == entry.index
        && applied == old(applied) + [entry]
      ensures !committed ==>
        log == old(log)[..|old(log)| - 1] && commitIndex == old(commitIndex)
        && lastApplied == old(lastApplied) && applied == old(applied)
    {
      committed := WriteQuorum(successes, |peers|);
      if committed {
        commitIndex := entry.index;
        applied := applied + [entry];
        lastApplied := commitIndex;
      } else {
        log := TruncateFrom(log, entry.index);
      }
    }

    /**
     * The end of a write or of the no-op once the successes are counted: the
     * commit step, then commit and apply the entry or remove it again. With no
     * peers the commit step throws and the entry stays in the log.
     */
    method Conclude(entry: LogEntry, successes: nat) returns (threw: bool, committed: bool)
      requires Consistent() && Tracked() && |log| > 0 && log[|log| - 1] == entry && entry.index == |log|
      requires commitIndex <= entry.index
      modifies this`log, this`commitIndex, this`lastApplied, this`applied
      ensures Consistent()
      ensures threw <==> |peers| == 0
      ensures threw ==>
        !committed && log == old(log) && commitIndex == old(commitIndex)
        && lastApplied == old(lastApplied) && applied == old(applied)
      ensures !threw ==> committed == WriteQuorum(successes, |peers|)
      ensures committed ==>
        log == old(log) && commitIndex == entry.index && lastApplied == entry.index
        && applied == old(applied) + [entry]
      ensures !threw && !committed ==>
        log == old(log)[..|old(log)| - 1] && lastApplied == old(lastApplied) && applied == old(applied)
        && commitIndex == CommitAfterMedian(old(log), currentTerm, old(commitIndex), MedianMatchIndex(ValuesOf(matchIndexs, peers)))
      ensures commitIndex >= old(commitIndex)
    {
      threw := AdvanceCommitIndex();
      if threw {
        committed := false;
        return;
      }
      committed := CommitOrRollback(entry, successes);
    }

    /**
     * What `handlerClientRequest` and `becomeLeaderToDoThing` both do with a
     * new entry: write it, replicate it to every peer, count the successes
     * that arrived in time, run the commit step, then commit and apply the
     * entry or remove it again. `results` are the peers' replication outcomes.
     */
    method WriteAndReplicate(entry: LogEntry, scripts: seq<seq<Attempt>>, inTime: seq<bool>)
      returns (threw: bool, committed: bool, results: seq<bool>)
      requires Consistent() && Tracked() && entry.index == |log| + 1
      requires |scripts| == |peers| && |inTime| == |peers|
      modifies this`log, this`commitIndex, this`lastApplied, this`applied
      modifies this`currentTerm, this`status, this`nextIndexs, this`matchIndexs
      ensures Consistent() && Tracked()
      ensures |results| == |peers|
      ensures ReplicatedTo(peers, results, entry, nextIndexs, matchIndexs, old(matchIndexs))
      ensures threw <==> |peers| == 0
      ensures threw ==>
        !committed && log == old(log) + [entry] && commitIndex == old(commitIndex)
        && lastApplied == old(lastApplied) && applied == old(applied)
      ensures !threw ==> committed == WriteQuorum(Tally(results, inTime), |peers|)
      ensures committed ==>
        log == old(log) + [entry] && commitIndex == entry.index && lastApplied == entry.index
        && applied == old(applied) + [entry]
      ensures !threw && !committed ==>
        log == old(log) && lastApplied == old(lastApplied) && applied == old(applied)
        && commitIndex == CommitAfterMedian(old(log) + [entry], currentTerm, old(commitIndex), MedianMatchIndex(ValuesOf(matchIndexs, peers)))
      ensures currentTerm >= old(currentTerm) && commitIndex >= old(commitIndex)
      ensures threw ==> currentTerm == old(currentTerm)
      ensures currentTerm == old(currentTerm) ==> status == old(status)
      ensures currentTerm != old(currentTerm) ==> status == Follower
    {
      ghost var log0 := log;
      log := log + [entry];
      assert Read(log, entry.index) == Some(entry);
      results := FanOut(entry, scripts);
      var successes := CountSuccesses(results, inTime);
      threw, committed := Conclude(entry, successes);
      assert !threw && !committed ==> log == (log0 + [entry])[..|log0|] == log0;
    }

    /**
     * `handlerClientRequest`. A non-leader answers with whatever the leader
     * answers to the redirected request; a GET reads the state machine; a PUT
     * appends an entry of the current term, replicates it and commits it or
     * rolls it back.
     */
    method HandleClientRequest(request: ClientRequest, redirected: ClientAck, scripts: seq<seq<Attempt>>, inTime: seq<bool>)
      returns (r: Returned<ClientAck>, results: seq<bool>)
      requires Valid() && |scripts| == |peers| && |inTime| == |peers|
      modifies this`log, this`commitIndex, this`lastApplied, this`applied
      modifies this`currentTerm, this`status, this`nextIndexs, this`matchIndexs
      ensures Valid()
      ensures old(status) != Leader ==> r == Value(redirected) && unchanged(this)
      ensures old(status) == Leader && request.Get? ==>
        r == Value(Found(StateMachineGet(applied, request.key))) && unchanged(this)
      ensures old(status) == Leader && request.Put? ==>
        var entry := LogEntry(|old(log)| + 1, old(currentTerm), Some(Command(request.key, request.value)));
        && |results| == |peers|
        && ReplicatedTo(peers, results, entry, nextIndexs, matchIndexs, old(matchIndexs))
        && (r.Thrown? <==> |peers| == 0)
        && (r.Thrown? ==>
              log == old(log) + [entry] && commitIndex == old(commitIndex)
              && lastApplied == old(lastApplied) && applied == old(applied))
        && (r == Value(Ok) <==> |peers| > 0 && WriteQuorum(Tally(results, inTime), |peers|))
        && (r == Value(Ok) ==>
              log == old(log) + [entry] && commitIndex == entry.index && lastApplied == entry.index
              && applied == old(applied) + [entry])
        && (r.Value? && r != Value(Ok) ==>
              r == Value(Fail) && log == old(log) && lastApplied == old(lastApplied) && applied == old(applied)
              && commitIndex == CommitAfterMedian(old(log) + [entry], currentTerm, old(commitIndex),
                                                  MedianMatchIndex(ValuesOf(matchIndexs, peers))))
      ensures currentTerm >= old(currentTerm) && commitIndex >= old(commitIndex) && lastApplied >= old(lastApplied)
    {
      results := [];
      if status != Leader {
        return Value(redirected), results;
      }
      match request
      case Get(key) =>
        r := Value(Found(StateMachineGet(applied, key)));
      case Put(key, value) =>
        var entry := LogEntry(|log| + 1, currentTerm, Some(Command(key, value)));
        var threw, committed;
        threw, committed, results := WriteAndReplicate(entry, scripts, inTime);
        r := if threw then Thrown("IndexOutOfBoundsException") else if committed then Value(Ok) else Value(Fail);
    }

    /** The fresh progress maps of a new leader: nextIndex one past the last entry, matchIndex 0. */
    method ResetProgress()
      requires Contiguous(log)
      modifies this`nextIndexs, this`matchIndexs
      ensures Tracked()
      ensures nextIndexs.Keys == matchIndexs.Keys == set p | p in peers
      ensures forall j :: 0 <= j < |peers| ==> nextIndexs[peers[j]] == LastIndex(log) + 1 && matchIndexs[peers[j]] == 0
    {
      var nextIndex := LastIndex(log) + 1;
      nextIndexs := Uniform(peers, nextIndex);
      matchIndexs := Uniform(peers, 0);
    }

    /**
     * The second half of `becomeLeaderToDoThing`: a no-op entry of the current
     * term written and replicated like a client write, removed again with the
     * node stepping down when it misses the threshold.
     */
    method ReplicateNoop(scripts: seq<seq<Attempt>>, inTime: seq<bool>) returns (threw: bool, results: seq<bool>)
      requires Consistent() && Tracked() && |scripts| == |peers| && |inTime| == |peers|
      modifies this`log, this`commitIndex, this`lastApplied, this`applied
      modifies this`currentTerm, this`status, this`nextIndexs, this`matchIndexs, this`leader, this`votedFor
      ensures Valid() && Tracked()
      ensures threw <==> |peers| == 0
      ensures |results| == |peers|
      ensures var noop := LogEntry(|old(log)| + 1, old(currentTerm), None);
        && (threw ==>
              log == old(log) + [noop] && commitIndex == old(commitIndex) && lastApplied == old(lastApplied)
              && applied == old(applied) && votedFor == old(votedFor) && leader == old(leader))
        && (!threw && WriteQuorum(Tally(results, inTime), |peers|) ==>
              log == old(log) + [noop] && commitIndex == noop.index && lastApplied == noop.index
              && applied == old(applied) + [noop] && votedFor == old(votedFor) && leader == old(leader))
        && (!threw && !WriteQuorum(Tally(results, inTime), |peers|) ==>
              log == old(log) && lastApplied == old(lastApplied) && applied == old(applied)
              && commitIndex == CommitAfterMedian(old(log) + [noop], currentTerm, old(commitIndex),
                                                  MedianMatchIndex(ValuesOf(matchIndexs, peers)))
              && status == Follower && leader == None && votedFor == Some(""))
      ensures currentTerm >= old(currentTerm) && commitIndex >= old(commitIndex)
      ensures threw ==> currentTerm == old(currentTerm) && status == old(status)
      ensures !threw && WriteQuorum(Tally(results, inTime), |peers|) && currentTerm == old(currentTerm) ==>
        status == old(status)
      ensures currentTerm != old(currentTerm) ==> status == Follower
      ensures status == old(status) || status == Follower
    {
      var noop := LogEntry(|log| + 1, currentTerm, None);
      var committed;
      threw, committed, results := WriteAndReplicate(noop, scripts, inTime);
      if !threw && !committed {
        StepDown();
      }
    }

    /**
     * `becomeLeaderToDoThing`: fresh progress maps (nextIndex one past the
     * last entry, matchIndex 0 for every peer), then a no-op entry of the
     * current term written and replicated like a client write; a no-op that
     * misses the threshold is removed and the node steps down.
     */
    method BecomeLeader(scripts: seq<seq<Attempt>>, inTime: seq<bool>) returns (threw: bool, results: seq<bool>)
      requires Consistent() && |scripts| == |peers| && |inTime| == |peers|
      modifies this`log, this`commitIndex, this`lastApplied, this`applied
      modifies this`currentTerm, this`status, this`nextIndexs, this`matchIndexs, this`leader, this`votedFor
      ensures Valid() && Tracked()
      ensures threw <==> |peers| == 0
      ensures |results| == |peers|
      ensures var noop := LogEntry(|old(log)| + 1, old(currentTerm), None);
        && (threw ==>
              log == old(log) + [noop] && commitIndex == old(commitIndex) && lastApplied == old(lastApplied)
              && applied == old(applied) && votedFor == old(votedFor) && leader == old(leader))
        && (!threw && WriteQuorum(Tally(results, inTime), |peers|) ==>
              log == old(log) + [noop] && commitIndex == noop.index && lastApplied == noop.index
              && applied == old(applied) + [noop] && votedFor == old(votedFor) && leader == old(leader))
        && (!threw && !WriteQuorum(Tally(results, inTime), |peers|) ==>
              log == old(log) && lastApplied == old(lastApplied) && applied == old(applied)
              && commitIndex == CommitAfterMedian(old(log) + [noop], currentTerm, old(commitIndex),
                                                  MedianMatchIndex(ValuesOf(matchIndexs, peers)))
              && status == Follower && leader == None && votedFor == Some(""))
      ensures currentTerm >= old(currentTerm) && commitIndex >= old(commitIndex)
      ensures threw ==> currentTerm == old(currentTerm) && status == old(status)
      ensures !threw && WriteQuorum(Tally(results, inTime), |peers|) && currentTerm == old(currentTerm) ==>
        status == old(status)
      ensures currentTerm != old(currentTerm) ==> status == Follower
      ensures status == old(status) || status == Follower
    {
      ResetProgress();
      threw, results := ReplicateNoop(scripts, inTime);
    }

    /** A new leader whose no-op missed the threshold steps down with no leader and no vote. */
    method StepDown()
      modifies this`status, this`leader, this`votedFor
      ensures status == Follower && leader == None && votedFor == Some("")
    {
      status := Follower;
      leader := None;
      votedFor := Some("");
    }

    /**
     * The loop over the vote replies: count the granted votes, and adopt the
     * term of every denial at or above the current term.
     */
    method CountVotes(votes: seq<Option<VoteReply>>) returns (granted: nat)
      modifies this`currentTerm
      ensures granted == Granted(votes)
      ensures currentTerm == TermAfterDenials(old(currentTerm), votes)
    {
      granted := 0;
      var i := 0;
      while i < |votes|
        invariant 0 <= i <= |votes|
        invariant granted == Granted(votes[..i])
        invariant currentTerm == TermAfterDenials(old(currentTerm), votes[..i])
      {
        assert votes[..i + 1][..i] == votes[..i];
        match votes[i] {
          case None =>
          case Some(v) =>
            if v.voteGranted {
              granted := granted + 1;
            } else if v.term >= currentTerm {
              currentTerm := v.term;
            }
        }
        i := i + 1;
      }
      assert votes[..i] == votes;
    }

    /** The start of an election: candidate of the next term, voting for itself. */
    method BecomeCandidate(clock: ElectionClock)
      modifies this`status, this`preElectionTime, this`currentTerm, this`votedFor
      ensures status == Candidate && currentTerm == old(currentTerm) + 1 && votedFor == Some(self)
      ensures preElectionTime == clock.startedAt + clock.startJitter + 150
    {
      status := Candidate;
      preElectionTime := clock.startedAt + clock.startJitter + 150;
      currentTerm := currentTerm + 1;
      votedFor := Some(self);
    }

    /** A won election: leader of its term, itself the known leader, no vote held. */
    method ClaimLeadership()
      modifies this`status, this`leader, this`votedFor
      ensures status == Leader && leader == Some(self) && votedFor == Some("")
    {
      status := Leader;
      leader := Some(self);
      votedFor := Some("");
    }

    /**
     * `ElectionTask.run` once the timeout has expired: become a candidate of
     * the next term voting for itself, ask every peer for its vote, count the
     * replies, and win with `peers.size() / 2` granted votes. `steppedDown`
     * says whether another thread turned the node into a follower while the
     * votes were awaited.
     */
    method RunElection(clock: ElectionClock, votes: seq<Option<VoteReply>>, steppedDown: bool,
                       scripts: seq<seq<Attempt>>, inTime: seq<bool>)
      returns (requests: seq<VoteRequest>, won: bool, threw: bool, results: seq<bool>)
      requires Consistent() && |votes| == |peers| && |scripts| == |peers| && |inTime| == |peers|
      modifies this`preElectionTime, this`status, this`currentTerm, this`votedFor, this`leader
      modifies this`log, this`commitIndex, this`lastApplied, this`applied, this`nextIndexs, this`matchIndexs
      ensures Valid()
      ensures |requests| == |peers|
      ensures forall i :: 0 <= i < |requests| ==>
        requests[i] == VoteRequest(old(currentTerm) + 1, self, LastIndex(old(log)), LastTerm(old(log)))
      ensures won <==> !steppedDown && VoteQuorum(Granted(votes), |peers|)
      ensures won ==> Tracked()
      ensures steppedDown ==>
        && status == Follower && votedFor == Some(self) && leader == old(leader)
        && currentTerm == TermAfterDenials(old(currentTerm) + 1, votes)
        && preElectionTime == clock.startedAt + clock.startJitter + 150
        && log == old(log) && commitIndex == old(commitIndex) && applied == old(applied)
      ensures !steppedDown && !won ==>
        && status == Candidate && votedFor == Some("") && leader == old(leader)
        && currentTerm == TermAfterDenials(old(currentTerm) + 1, votes)
        && preElectionTime == clock.endedAt + clock.endJitter + 150
        && log == old(log) && commitIndex == old(commitIndex) && applied == old(applied)
      ensures won ==>
        var term := TermAfterDenials(old(currentTerm) + 1, votes);
        var noop := LogEntry(|old(log)| + 1, term, None);
        && preElectionTime == (if threw then clock.startedAt + clock.startJitter + 150
                               else clock.endedAt + clock.endJitter + 150)
        && currentTerm >= term
        && (threw <==> |peers| == 0) && |results| == |peers|
        && (threw ==>
              log == old(log) + [noop] && currentTerm == term && status == Leader
              && leader == Some(self) && votedFor == Some(""))
        && (!threw && WriteQuorum(Tally(results, inTime), |peers|) ==>
              log == old(log) + [noop] && commitIndex == noop.index && lastApplied == noop.index
              && applied == old(applied) + [noop] && leader == Some(self) && votedFor == Some(""))
        && (!threw && WriteQuorum(Tally(results, inTime), |peers|) && currentTerm == term ==> status == Leader)
        && (currentTerm != term ==> status == Follower)
        && (!threw && !WriteQuorum(Tally(results, inTime), |peers|) ==>
              log == old(log) && status == Follower && leader == None && votedFor == Some("")
              && commitIndex == CommitAfterMedian(old(log) + [noop], currentTerm, old(commitIndex),
                                                  MedianMatchIndex(ValuesOf(matchIndexs, peers))))
      ensures !won ==> !threw && results == []
      ensures currentTerm > old(currentTerm) && commitIndex >= old(commitIndex)
    {
      BecomeCandidate(clock);
      var request := VoteRequest(currentTerm, self, LastIndex(log), LastTerm(log));
      requests := seq(|peers|, _ => request);
      var granted := CountVotes(votes);
      won, threw, results := false, false, [];
      if steppedDown {
        status := Follower;
        return;
      }
      if VoteQuorum(granted, |peers|) {
        won := true;
        ClaimLeadership();
        threw, results := BecomeLeader(scripts, inTime);
        if threw {
          return;
        }
      } else {
        votedFor := Some("");
      }
      preElectionTime := clock.endedAt + clock.endJitter + 150;
    }

    /**
     * `ElectionTask.run`: a leader does nothing; any other node adds the
     * tick's jitter to its election timeout and starts an election once that
     * much time has passed since `preElectionTime`.
     */
    method ElectionTick(clock: ElectionClock, votes: seq<Option<VoteReply>>, steppedDown: bool,
                        scripts: seq<seq<Attempt>>, inTime: seq<bool>)
      returns (requests: seq<VoteRequest>, won: bool, threw: bool, results: seq<bool>)
      requires Valid() && |votes| == |peers| && |scripts| == |peers| && |inTime| == |peers|
      modifies this`electionTime, this`preElectionTime, this`status, this`currentTerm, this`votedFor, this`leader
      modifies this`log, this`commitIndex, this`lastApplied, this`applied, this`nextIndexs, this`matchIndexs
      ensures Valid()
      ensures old(status) == Leader ==> requests == [] && !won && !threw && unchanged(this)
      ensures old(status) != Leader ==> electionTime == old(electionTime) + clock.tickJitter
      ensures old(status) != Leader && clock.now - old(preElectionTime) < electionTime ==>
        && requests == [] && !won && !threw
        && status == old(status) && currentTerm == old(currentTerm) && votedFor == old(votedFor)
        && preElectionTime == old(preElectionTime) && log == old(log) && commitIndex == old(commitIndex)
      ensures requests != [] <==>
        old(status) != Leader && clock.now - old(preElectionTime) >= electionTime && |peers| > 0
      ensures won ==> old(status) != Leader && VoteQuorum(Granted(votes), |peers|) && !steppedDown
      ensures won ==> |results| == |peers|
      ensures won && threw ==> status == Leader && leader == Some(self)
      ensures won && !threw && WriteQuorum(Tally(results, inTime), |peers|)
              && currentTerm == TermAfterDenials(old(currentTerm) + 1, votes) ==>
        status == Leader && leader == Some(self)
      ensures won ==> Tracked()
      ensures old(status) != Leader && clock.now - old(preElectionTime) >= electionTime ==>
        var term := TermAfterDenials(old(currentTerm) + 1, votes);
        && currentTerm > old(currentTerm) && currentTerm >= term
        && |requests| == |peers|
        && (forall i :: 0 <= i < |requests| ==>
              requests[i] == VoteRequest(old(currentTerm) + 1, self, LastIndex(old(log)), LastTerm(old(log))))
        && (won <==> !steppedDown && VoteQuorum(Granted(votes), |peers|))
        && (steppedDown ==>
              status == Follower && votedFor == Some(self) && leader == old(leader) && currentTerm == term
              && preElectionTime == clock.startedAt + clock.startJitter + 150
              && log == old(log) && commitIndex == old(commitIndex) && applied == old(applied))
        && (!steppedDown && !won ==>
              status == Candidate && votedFor == Some("") && leader == old(leader) && currentTerm == term
              && preElectionTime == clock.endedAt + clock.endJitter + 150
              && log == old(log) && commitIndex == old(commitIndex) && applied == old(applied))
        && (won ==>
              var noop := LogEntry(|old(log)| + 1, term, None);
              && (threw <==> |peers| == 0)
              && (threw ==> log == old(log) + [noop] && currentTerm == term
                            && preElectionTime == clock.startedAt + clock.startJitter + 150)
              && (!threw ==> preElectionTime == clock.endedAt + clock.endJitter + 150)
              && (!threw && WriteQuorum(Tally(results, inTime), |peers|) ==>
                    log == old(log) + [noop] && commitIndex == noop.index && applied == old(applied) + [noop])
              && (!threw && !WriteQuorum(Tally(results, inTime), |peers|) ==>
                    log == old(log) && status == Follower && leader == None && votedFor == Some("")
                    && commitIndex == CommitAfterMedian(old(log) + [noop], currentTerm, old(commitIndex),
                                                        MedianMatchIndex(ValuesOf(matchIndexs, peers))))
              && (currentTerm != term ==> status == Follower))
      ensures currentTerm >= old(currentTerm) && commitIndex >= old(commitIndex)
    {
      requests, won, threw, results := [], false, false, [];
      if status == Leader {
        return;
      }
      electionTime := electionTime + clock.tickJitter;
      if clock.now - preElectionTime < electionTime {
        return;
      }
      requests, won, threw, results := RunElection(clock, votes, steppedDown, scripts, inTime);
    }

    /**
     * The reply handlers of `HeartBeatTask.run`: a reply carrying a higher
     * term makes the node a follower of that term with no vote.
     */
    method AdoptReplyTerms(replies: seq<Option<int>>)
      modifies this`currentTerm, this`votedFor, this`status
      ensures currentTerm == HighestReplyTerm(old(currentTerm), replies)
      ensures currentTerm > old(currentTerm) ==> status == Follower && votedFor == Some("")
      ensures currentTerm == old(currentTerm) ==> status == old(status) && votedFor == old(votedFor)
    {
      var i := 0;
      while i < |replies|
        invariant 0 <= i <= |replies|
        invariant currentTerm == HighestReplyTerm(old(currentTerm), replies[..i])
        invariant currentTerm > old(currentTerm) ==> status == Follower && votedFor == Some("")
        invariant currentTerm == old(currentTerm) ==> status == old(status) && votedFor == old(votedFor)
      {
        assert replies[..i + 1][..i] == replies[..i];
        match replies[i] {
          case None =>
          case Some(term) =>
            if term > currentTerm {
              currentTerm := term;
              votedFor := Some("");
              status := Follower;
            }
        }
        i := i + 1;
      }
      assert replies[..i] == replies;
    }

    /**
     * `HeartBeatTask.run`: a leader whose last heartbeat is at least
     * `heartBeatTick` old stamps the time and sends every peer an empty
     * append-entries carrying its term and commit index. `replies[i]` is the
     * term peer i answers with, None for a failed call.
     */
    method HeartbeatTick(now: int, stampedAt: int, replies: seq<Option<int>>) returns (sent: seq<Heartbeat>)
      requires Valid() && |replies| == |peers|
      modifies this`preHeartBeatTime, this`currentTerm, this`votedFor, this`status
      ensures Valid()
      ensures old(status) != Leader || now - old(preHeartBeatTime) < heartBeatTick ==> sent == [] && unchanged(this)
      ensures old(status) == Leader && now - old(preHeartBeatTime) >= heartBeatTick ==>
        && preHeartBeatTime == stampedAt
        && |sent| == |peers|
        && (forall i :: 0 <= i < |peers| ==> sent[i] == Heartbeat(old(currentTerm), self, peers[i], commitIndex))
        && currentTerm == HighestReplyTerm(old(currentTerm), replies)
        && (currentTerm > old(currentTerm) ==> status == Follower && votedFor == Some(""))
        && (currentTerm == old(currentTerm) ==> status == Leader && votedFor == old(votedFor))
      ensures currentTerm >= old(currentTerm)
    {
      sent := [];
      if status != Leader || now - preHeartBeatTime < heartBeatTick {
        return;
      }
      preHeartBeatTime := stampedAt;
      var i := 0;
      while i < |peers|
        invariant 0 <= i <= |peers| && |sent| == i
        invariant forall j :: 0 <= j < i ==> sent[j] == Heartbeat(currentTerm, self, peers[j], commitIndex)
      {
        sent := sent + [Heartbeat(currentTerm, self, peers[i], commitIndex)];
        i := i + 1;
      }
      AdoptReplyTerms(replies);
    }
  }
}
