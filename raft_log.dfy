/**
 * The replicated log, the commit-index arithmetic and the quorum thresholds
 * that the Raft node of lu-raft-kv (DefaultNode.java) works with.
 *
 * The log store itself (DefaultLogModule) is not part of this model; it is
 * represented by a sequence whose entry at position i carries index i + 1,
 * so `write` appends at index length + 1, `read(i)` is the entry with index i
 * and `removeOnStartIndex(i)` keeps the entries with an index below i.
 */
module RaftLog {
  import opened Common

  /** A cluster member, identified by its address. */
  type Peer = string

  datatype Status = Follower | Candidate | Leader

  datatype Command = Command(key: string, value: string)

  /** A log entry; the no-op a new leader writes has no command. */
  datatype LogEntry = LogEntry(index: int, term: int, command: Option<Command>)

  /** Indices are contiguous and 1-based: the entry at position i has index i + 1. */
  ghost predicate Contiguous(log: seq<LogEntry>) {
    forall i :: 0 <= i < |log| ==> log[i].index == i + 1
  }

  /** `logModule.read(index)`: the entry with that index, or null. */
  function Read(log: seq<LogEntry>, index: int): (r: Option<LogEntry>)
    requires Contiguous(log)
    ensures r.Some? <==> 1 <= index <= |log|
    ensures r.Some? ==> r.value == log[index - 1] && r.value.index == index
  {
    if 1 <= index <= |log| then Some(log[index - 1]) else None
  }

  /** A read finds an entry exactly when the log holds one with that index, and then returns it. */
  lemma ReadFindsIndex(log: seq<LogEntry>, index: int)
    requires Contiguous(log)
    ensures Read(log, index).Some? <==> exists e :: e in log && e.index == index
    ensures forall e :: e in log && e.index == index ==> Read(log, index) == Some(e)
  {
    forall e | e in log && e.index == index
      ensures Read(log, index) == Some(e)
    {
      var i :| 0 <= i < |log| && log[i] == e;
    }
  }

  /** `logModule.getLastIndex()`: 0 for an empty log. */
  function LastIndex(log: seq<LogEntry>): (r: nat)
    requires Contiguous(log)
    ensures forall e :: e in log ==> e.index <= r
    ensures r == 0 || Read(log, r).Some?
  {
    |log|
  }

  /** The term of `logModule.getLast()`, or 0 when the log is empty. */
  function LastTerm(log: seq<LogEntry>): (r: int)
    requires Contiguous(log)
    ensures |log| == 0 ==> r == 0
    ensures |log| > 0 ==> Read(log, LastIndex(log)).Some? && Read(log, LastIndex(log)).value.term == r
  {
    if |log| == 0 then 0 else log[|log| - 1].term
  }

  /** `logModule.removeOnStartIndex(index)`: drop every entry whose index is `index` or more. */
  function TruncateFrom(log: seq<LogEntry>, index: int): (r: seq<LogEntry>)
    requires Contiguous(log)
    ensures Contiguous(r) && r <= log
    ensures forall e :: e in r <==> e in log && e.index < index
  {
    if index <= 1 then [] else if index - 1 >= |log| then log else log[..index - 1]
  }

  // ------------------------------------------------------------------
  // The commit index chosen from the peers' matchIndex values
  // ------------------------------------------------------------------

  ghost predicate SortedAsc(s: seq<int>) {
    forall i, j :: 0 <= i < j < |s| ==> s[i] <= s[j]
  }

  /** How many of the values are at least x. */
  function CountAtLeast(s: seq<int>, x: int): (r: nat)
    ensures r <= |s|
  {
    if s == [] then 0 else (if s[0] >= x then 1 else 0) + CountAtLeast(s[1..], x)
  }

  /** Insert x before the first value not smaller than it. */
  function Insert(x: int, s: seq<int>): (r: seq<int>)
    ensures |r| == |s| + 1
  {
    if s == [] || x <= s[0] then [x] + s else [s[0]] + Insert(x, s[1..])
  }

  /** `Collections.sort` on the matchIndex values, as an insertion sort. */
  function SortAsc(s: seq<int>): (r: seq<int>)
    ensures |r| == |s|
  {
    if s == [] then [] else Insert(s[0], SortAsc(s[1..]))
  }

  /** Inserting adds exactly x to the values. */
  lemma {:induction false} InsertPermutation(x: int, s: seq<int>)
    ensures multiset(Insert(x, s)) == multiset(s) + multiset{x}
  {
    if s != [] && x > s[0] {
      InsertPermutation(x, s[1..]);
      assert s == [s[0]] + s[1..];
    }
  }

  lemma {:induction false} InsertLowerBound(x: int, s: seq<int>, lo: int)
    requires x >= lo && forall k :: 0 <= k < |s| ==> s[k] >= lo
    ensures forall k :: 0 <= k < |Insert(x, s)| ==> Insert(x, s)[k] >= lo
  {
    if s != [] && x > s[0] {
      InsertLowerBound(x, s[1..], lo);
    }
  }

  /** Inserting into an ascending sequence keeps it ascending. */
  lemma {:induction false} InsertSorted(x: int, s: seq<int>)
    requires SortedAsc(s)
    ensures SortedAsc(Insert(x, s))
  {
    if s != [] && x > s[0] {
      var t := Insert(x, s[1..]);
      InsertSorted(x, s[1..]);
      InsertLowerBound(x, s[1..], s[0]);
      var r := [s[0]] + t;
      forall a, b | 0 <= a < b < |r|
        ensures r[a] <= r[b]
      {
        assert r[b] == t[b - 1];
        if a > 0 {
          assert r[a] == t[a - 1];
        }
      }
    }
  }

  /** The sort is ascending and a permutation of its input. */
  lemma {:induction false} SortAscSortedPermutation(s: seq<int>)
    ensures SortedAsc(SortAsc(s)) && multiset(SortAsc(s)) == multiset(s)
  {
    if s != [] {
      SortAscSortedPermutation(s[1..]);
      InsertSorted(s[0], SortAsc(s[1..]));
      InsertPermutation(s[0], SortAsc(s[1..]));
      assert s == [s[0]] + s[1..];
    }
  }

  lemma {:induction false} CountAtLeastInsert(x: int, s: seq<int>, y: int)
    requires SortedAsc(s)
    ensures CountAtLeast(Insert(x, s), y) == CountAtLeast(s, y) + (if x >= y then 1 else 0)
  {
    if s == [] || x <= s[0] {
      assert ([x] + s)[1..] == s;
    } else {
      CountAtLeastInsert(x, s[1..], y);
      assert ([s[0]] + Insert(x, s[1..]))[1..] == Insert(x, s[1..]);
    }
  }

  /** Sorting keeps the number of values at least y. */
  lemma {:induction false} CountAtLeastSort(s: seq<int>, y: int)
    ensures CountAtLeast(SortAsc(s), y) == CountAtLeast(s, y)
  {
    if s != [] {
      CountAtLeastSort(s[1..], y);
      SortAscSortedPermutation(s[1..]);
      CountAtLeastInsert(s[0], SortAsc(s[1..]), y);
    }
  }

  /**
   * N of the commit step: the element at position size/2 of the sorted values,
   * or the element at position 0 (unsorted) when there are fewer than two.
   * The leader's own last index is not among the values.
   */
  function MedianMatchIndex(values: seq<int>): int
    requires |values| > 0
  {
    if |values| < 2 then values[0] else SortAsc(values)[|values| / 2]
  }

  lemma {:induction false} SortedSuffixCount(s: seq<int>, k: nat, x: int)
    requires k <= |s|
    requires forall i :: k <= i < |s| ==> s[i] >= x
    ensures CountAtLeast(s, x) >= |s| - k
  {
    if s != [] {
      if k == 0 {
        SortedSuffixCount(s[1..], 0, x);
      } else {
        SortedSuffixCount(s[1..], k - 1, x);
      }
    }
  }

  /** In an ascending sequence, at least |s| - k values are at least s[k]. */
  lemma SortedCountFrom(s: seq<int>, k: nat)
    requires SortedAsc(s) && k < |s|
    ensures CountAtLeast(s, s[k]) >= |s| - k
  {
    SortedSuffixCount(s, k, s[k]);
  }

  /**
   * The median is backed by a quorum: counting the leader, who holds every
   * entry it sends, more than half of the cluster (peers plus leader) has a
   * matchIndex of at least N.
   */
  lemma MedianHasClusterMajority(values: seq<int>)
    requires |values| > 0
    ensures MedianMatchIndex(values) in values
    ensures CountAtLeast(values, MedianMatchIndex(values)) >= |values| - |values| / 2
    ensures 2 * (CountAtLeast(values, MedianMatchIndex(values)) + 1) > |values| + 1
  {
    var n := MedianMatchIndex(values);
    var half := |values| / 2;
    if |values| < 2 {
      assert values == [values[0]];
      assert CountAtLeast(values, n) == 1;
    } else {
      var r := SortAsc(values);
      SortAscSortedPermutation(values);
      assert n == r[half];
      assert r[half] in multiset(values);
      SortedCountFrom(r, half);
      CountAtLeastSort(values, n);
    }
  }

  /**
   * The commit rule of sections 5.3 and 5.4 of the Raft paper as the node
   * applies it to N: commitIndex moves to N only if N is beyond it and the
   * entry at N exists and belongs to the current term.
   */
  function CommitAfterMedian(log: seq<LogEntry>, currentTerm: int, commitIndex: int, n: int): (r: int)
    requires Contiguous(log)
  {
    if n > commitIndex && Read(log, n).Some? && Read(log, n).value.term == currentTerm then n
    else commitIndex
  }

  /**
   * The commit step never moves backwards and never commits, by counting, an
   * entry from an earlier term: a new commit index names an existing entry of
   * the current term, and a rejected N leaves the index where it was.
   */
  lemma CommitStepIsSafe(log: seq<LogEntry>, currentTerm: int, commitIndex: int, n: int)
    requires Contiguous(log)
    ensures CommitAfterMedian(log, currentTerm, commitIndex, n) >= commitIndex
    ensures var r := CommitAfterMedian(log, currentTerm, commitIndex, n);
      r != commitIndex <==>
        (r == n && n > commitIndex && exists e :: e in log && e.index == n && e.term == currentTerm)
  {
    ReadFindsIndex(log, n);
  }

  /**
   * A write that misses the threshold is removed only after the commit step
   * has run on the log that still holds it. When acceptances that arrived
   * after the wait have already moved every matchIndex to the entry, the
   * step commits it and the removal leaves commitIndex one past the log.
   */
  lemma RollbackCanLeaveCommitPastLog()
    ensures var log := [LogEntry(1, 5, None)];
      var n := MedianMatchIndex([1, 1, 1]);
      && !WriteQuorum(0, 3)
      && CommitAfterMedian(log, 5, 0, n) == 1
      && TruncateFrom(log, 1) == []
      && CommitAfterMedian(log, 5, 0, n) == |TruncateFrom(log, 1)| + 1
  {
  }

  // ------------------------------------------------------------------
  // Thresholds
  // ------------------------------------------------------------------

  /** The client-write and no-op threshold: `success >= count / 2`, integer division, leader not counted. */
  function WriteQuorum(successes: nat, peerCount: nat): bool {
    successes >= peerCount / 2
  }

  /** The election threshold: `success >= peers.size() / 2`, the self-vote not counted. */
  function VoteQuorum(granted: nat, peerCount: nat): bool {
    granted >= peerCount / 2
  }

  /**
   * What the thresholds guarantee: with the leader (or the candidate's own
   * vote) added, they reach at least half of the cluster, and a strict
   * majority exactly when the cluster size is odd.
   */
  lemma ThresholdReachesHalfTheCluster(k: nat, peerCount: nat)
    requires k >= peerCount / 2
    ensures 2 * (k + 1) >= peerCount + 1
    ensures peerCount % 2 == 0 ==> 2 * (k + 1) > peerCount + 1
  {
  }

  /**
   * In a cluster of four (three peers) one granted vote wins an election and
   * one successful replica commits a write, so two candidates can win the same
   * term with disjoint voters, and in a cluster of two the leader commits with
   * no replica at all.
   */
  lemma ThresholdsAdmitNonMajorities()
    ensures VoteQuorum(1, 3) && 2 * (1 + 1) <= 3 + 1
    ensures VoteQuorum(0, 1) && WriteQuorum(0, 1) && 2 * (0 + 1) <= 1 + 1
  {
  }
}
