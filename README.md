# A verified model of lu-raft-kv's node and of the javacore utilities around it

This project models, in Dafny, the core logic of several parts of a Java
repository, and proves what that code promises:

- **The Raft node of lu-raft-kv** (`DefaultNode`). The node keeps its state
  in fields that it updates in place: status, current term, vote, commit and
  apply indices, per-peer `nextIndex`/`matchIndex`, and the election and
  heartbeat timers. The model covers:
  - the client write path: append, replicate, count the successes, run the
    median commit step, then commit and apply the entry or roll it back;
  - per-peer replication with batch construction and back-off;
  - the election tick and the vote tally;
  - the no-op a new leader writes;
  - the heartbeat's adoption of higher terms.

  Modules `RaftLog` and `RaftNode`. The node is a class whose methods
  modify its fields. The log is a sequence with contiguous 1-based indices.
  The state machine is the sequence of applied entries.
- **`BitwiseUtils`**: 32-bit bit tricks on `bv32`, plus shifts, absolute
  value, max/min and modulo on Java `int` with explicit wrap-around. Modules
  `BitwiseUtils` and `JavaInt`. `countOnes` and `isBinaryPalindrome` loop in
  Java and are methods with loop invariants; `swap` is a method that
  reassigns its locals.
- **`UnThreadSafeQueue`**: a linked FIFO queue whose `head`, `last`, `size`
  and node links are updated in place. Module `UnsafeQueue`. It is a class
  with a ghost list of its nodes and elements.
- **`tableSizeFor` and `spread`** of `ConcurrentHashMapTest`: the
  next-power-of-two table size and the hash spreading. Module `HashSpread`.
- **`TimeIntervalLimiter`**: a limiter that grants at most one acquisition
  per window, with the clock reading passed in. Module `IntervalLimiter`.
- **`ComponentClassLoader`**: the routing policy for classes and resources:
  - component-first and owner-first prefixes;
  - the fallback order;
  - resource concatenation;
  - the module hint on a missing class.

  Module `ComponentLoader`. The delegate loaders' answers are parameters.
- **`correctRecurseBackward4Carried`** of `EntitySheetBoTest`: a work-list
  traversal backwards through carried-code nodes. It groups carried codes by
  node and dimension. Module `CarriedTraversal`.

`Common` holds `Option` and `Returned`. `Returned` is a value or a thrown
exception, for Java methods that throw.

What the model takes as parameters:
- every RPC reply;
- the "did it arrive before the latch timed out" flags;
- clock readings and random jitter;
- the redirected answer of a non-leader.

The fan-outs to the peers, which run in parallel in Java, run one peer after
the other.

A write or no-op that misses the threshold is removed only after the median
commit step has run on the log that still holds it. When acceptances that
came after the wait have already moved a majority's matchIndex to the entry,
that step commits it, and the removal leaves commitIndex one past the end of
the log. The model keeps this behaviour: the node's invariant bounds
commitIndex by the log length plus one, and `RaftLog.RollbackCanLeaveCommitPastLog`
exhibits a case.

## Model

| member | source | states |
|---|---|---|
| RaftLog.Read | distributed/lu-raft-kv/server/src/main/java/cn/think/in/java/raft/server/impl/DefaultNode.java:322-323 | `logModule.read(i)` finds an entry exactly when 1 <= i <= length, and it is the entry carrying index i |
| RaftLog.LastIndex | distributed/lu-raft-kv/server/src/main/java/cn/think/in/java/raft/server/impl/DefaultNode.java:637 | the last index bounds every entry's index and is 0 or names an existing entry |
| RaftLog.LastTerm | distributed/lu-raft-kv/server/src/main/java/cn/think/in/java/raft/server/impl/DefaultNode.java:626-631 | the last term is 0 for an empty log, otherwise the term of the entry at the last index |
| RaftLog.TruncateFrom | distributed/lu-raft-kv/server/src/main/java/cn/think/in/java/raft/server/impl/DefaultNode.java:341 | `removeOnStartIndex(i)` leaves a contiguous prefix holding exactly the entries with index below i |
| RaftLog.SortAscSortedPermutation | distributed/lu-raft-kv/server/src/main/java/cn/think/in/java/raft/server/impl/DefaultNode.java:317 | `Collections.sort` of the matchIndex list gives an ascending permutation of it |
| RaftLog.MedianHasClusterMajority | distributed/lu-raft-kv/server/src/main/java/cn/think/in/java/raft/server/impl/DefaultNode.java:313-320 | N is one of the peers' matchIndex values and, counting the leader, more than half of the cluster has a matchIndex of at least N |
| RaftLog.CommitStepIsSafe | distributed/lu-raft-kv/server/src/main/java/cn/think/in/java/raft/server/impl/DefaultNode.java:320-326 | the commit step never lowers commitIndex, and it changes it exactly when N is beyond it and the entry at N exists with the current term |
| RaftLog.ThresholdReachesHalfTheCluster | distributed/lu-raft-kv/server/src/main/java/cn/think/in/java/raft/server/impl/DefaultNode.java:329 | `success >= count / 2` (and the same vote threshold at line 715) plus the leader's own copy reach at least half the cluster, a strict majority when the peer count is even |
| RaftLog.RollbackCanLeaveCommitPastLog | distributed/lu-raft-kv/server/src/main/java/cn/think/in/java/raft/server/impl/DefaultNode.java:320-341 | a write that misses the threshold after late acceptances moved every matchIndex to it is committed by the commit step and then removed, leaving commitIndex one past the log |
| RaftLog.ThresholdsAdmitNonMajorities | distributed/lu-raft-kv/server/src/main/java/cn/think/in/java/raft/server/impl/DefaultNode.java:715 | one granted vote of three peers wins an election, and with one peer the leader commits with no successful replica: neither threshold is a strict majority |
| RaftNode.BackedOff | distributed/lu-raft-kv/server/src/main/java/cn/think/in/java/raft/server/impl/DefaultNode.java:433-436 | after k plain rejections nextIndex has stepped back by k but never below 0 |
| RaftNode.ValuesOf | distributed/lu-raft-kv/server/src/main/java/cn/think/in/java/raft/server/impl/DefaultNode.java:313 | the matchIndex values of the peers, one per peer in peer order |
| RaftNode.Uniform | distributed/lu-raft-kv/server/src/main/java/cn/think/in/java/raft/server/impl/DefaultNode.java:739-742 | the fresh progress map gives every peer the same value |
| RaftNode.Tally | distributed/lu-raft-kv/server/src/main/java/cn/think/in/java/raft/server/impl/DefaultNode.java:305-309 | the count of successes that arrived in time is at most the number of peers |
| RaftNode.Granted | distributed/lu-raft-kv/server/src/main/java/cn/think/in/java/raft/server/impl/DefaultNode.java:677-680 | the count of granted votes is at most the number of replies |
| RaftNode.TermAfterDenials | distributed/lu-raft-kv/server/src/main/java/cn/think/in/java/raft/server/impl/DefaultNode.java:681-686 | the term after the vote replies is the largest of the starting term and every denial's term, and is one of them |
| RaftNode.HighestReplyTerm | distributed/lu-raft-kv/server/src/main/java/cn/think/in/java/raft/server/impl/DefaultNode.java:882-890 | the term after the heartbeat replies is the largest of the starting term and every reply's term, and is one of them |
| RaftNode.StateMachineGet | distributed/lu-raft-kv/server/src/main/java/cn/think/in/java/raft/server/impl/DefaultNode.java:261-266 | a GET returns the last applied entry that wrote the key, or nothing when no applied entry wrote it |
| RaftNode.SentSoFarAt | distributed/lu-raft-kv/server/src/main/java/cn/think/in/java/raft/server/impl/DefaultNode.java:375-402 | the k-th append request of one replication carries the batch built from nextIndex after k rejections |
| RaftNode.Node.constructor | distributed/lu-raft-kv/server/src/main/java/cn/think/in/java/raft/server/impl/DefaultNode.java:58-131 | a new node is a follower of term 0 with no vote, an empty log, zero indices, a 15 s election timeout and a 500 ms heartbeat tick |
| RaftNode.Node.PrevLog | distributed/lu-raft-kv/server/src/main/java/cn/think/in/java/raft/server/impl/DefaultNode.java:464-472 | `getPreLog` returns the log entry with the previous index, or the sentinel (0, 0) when there is none |
| RaftNode.Node.CollectBatch | distributed/lu-raft-kv/server/src/main/java/cn/think/in/java/raft/server/impl/DefaultNode.java:388-393 | reading every index from nextIndex to the target's and keeping the entries found gives exactly the log stretch from max(nextIndex, 1) to the target |
| RaftNode.Node.BuildBatch | distributed/lu-raft-kv/server/src/main/java/cn/think/in/java/raft/server/impl/DefaultNode.java:385-396 | the batch is the existing entries nextIndex..target in increasing index order when target >= nextIndex, otherwise the target alone; it ends with the target |
| RaftNode.Node.BuildRequest | distributed/lu-raft-kv/server/src/main/java/cn/think/in/java/raft/server/impl/DefaultNode.java:377-402 | the request carries the leader's term, its id, the peer, commitIndex, the batch and the prev-log fields of the entry before the batch |
| RaftNode.Node.HandleAppendReply | distributed/lu-raft-kv/server/src/main/java/cn/think/in/java/raft/server/impl/DefaultNode.java:411-441 | no reply: false and no change; success: nextIndex = target + 1, matchIndex = target; higher-term rejection: adopt the term, become follower, maps untouched; other rejection: nextIndex steps back (not below 0) and retry |
| RaftNode.Node.ReplicationRound | distributed/lu-raft-kv/server/src/main/java/cn/think/in/java/raft/server/impl/DefaultNode.java:375-441 | one pass sends a well-formed request built from nextIndex after as many rejections as requests already sent, and then matches the peer, backs it off by one, or leaves its progress alone and maybe adopts a higher term, as the reply dictates |
| RaftNode.Node.Replicate | distributed/lu-raft-kv/server/src/main/java/cn/think/in/java/raft/server/impl/DefaultNode.java:368-462 | `replication` returns true only after an acceptance, with the peer matched up to the target; every request sent is the k-th back-off's batch; the term only grows and a change of term means false and follower |
| RaftNode.Node.ReplicateTo | distributed/lu-raft-kv/server/src/main/java/cn/think/in/java/raft/server/impl/DefaultNode.java:289-291 | replicating to the next peer in turn moves that peer's progress alone, matching it up to the entry exactly when it accepts |
| RaftNode.Node.FanOut | distributed/lu-raft-kv/server/src/main/java/cn/think/in/java/raft/server/impl/DefaultNode.java:285-292 | after replicating to every peer, each peer that accepted is matched up to the entry and every other keeps its matchIndex |
| RaftNode.Node.CountSuccesses | distributed/lu-raft-kv/server/src/main/java/cn/think/in/java/raft/server/impl/DefaultNode.java:305-309 | the counted successes are the results that are true and arrived before the wait ended |
| RaftNode.Node.AdvanceCommitIndex | distributed/lu-raft-kv/server/src/main/java/cn/think/in/java/raft/server/impl/DefaultNode.java:313-326 | with peers, commitIndex becomes the commit rule applied to the median matchIndex; with none the lookup throws and nothing changes; a new commitIndex names an entry of the current term |
| RaftNode.Node.CommitOrRollback | distributed/lu-raft-kv/server/src/main/java/cn/think/in/java/raft/server/impl/DefaultNode.java:329-346 | with `success >= count / 2` the entry is committed and applied and lastApplied follows; otherwise the entry is removed again and nothing is applied |
| RaftNode.Node.Conclude | distributed/lu-raft-kv/server/src/main/java/cn/think/in/java/raft/server/impl/DefaultNode.java:311-346 | the commit step, then commit-or-rollback; with no peers it throws before either and the entry stays in the log; a removed entry leaves commitIndex at the commit step's value on the log that still held it, which can be one past the shortened log |
| RaftNode.Node.WriteAndReplicate | distributed/lu-raft-kv/server/src/main/java/cn/think/in/java/raft/server/impl/DefaultNode.java:269-346 | the entry is appended at index length + 1, replicated to every peer, counted, and then committed and applied or removed again; on removal commitIndex keeps the commit step's value; the term and commitIndex never decrease |
| RaftNode.Node.HandleClientRequest | distributed/lu-raft-kv/server/src/main/java/cn/think/in/java/raft/server/impl/DefaultNode.java:249-347 | a non-leader redirects and a GET reads the state machine, neither changing the node; a leader PUT appends one entry of the current term, answers ok exactly when the threshold is met (entry committed and applied) and fail otherwise (log restored, commitIndex at the commit step's value) |
| RaftNode.Node.ResetProgress | distributed/lu-raft-kv/server/src/main/java/cn/think/in/java/raft/server/impl/DefaultNode.java:737-742 | both maps are fresh, keyed by exactly the peers, with nextIndex = last index + 1 and matchIndex = 0 for each |
| RaftNode.Node.ReplicateNoop | distributed/lu-raft-kv/server/src/main/java/cn/think/in/java/raft/server/impl/DefaultNode.java:748-822 | the no-op of the current term is written and replicated; committed and applied when the threshold is met, otherwise removed (commitIndex at the commit step's value) with the node stepping down to follower with no leader and an empty vote; the node stays leader when the commit step throws or the no-op commits without a higher term, and any higher term makes it a follower |
| RaftNode.Node.BecomeLeader | distributed/lu-raft-kv/server/src/main/java/cn/think/in/java/raft/server/impl/DefaultNode.java:736-822 | fresh maps, then a no-op of the current term written and replicated; committed and applied when the threshold is met, otherwise removed (commitIndex at the commit step's value) with the node stepping down to follower with no leader and an empty vote; the node stays leader when the commit step throws or the no-op commits without a higher term, and any higher term makes it a follower |
| RaftNode.Node.StepDown | distributed/lu-raft-kv/server/src/main/java/cn/think/in/java/raft/server/impl/DefaultNode.java:815-819 | the node becomes a follower with no leader and an empty vote |
| RaftNode.Node.CountVotes | distributed/lu-raft-kv/server/src/main/java/cn/think/in/java/raft/server/impl/DefaultNode.java:668-696 | the granted votes are counted and every denial's term at or above the current one is adopted |
| RaftNode.Node.BecomeCandidate | distributed/lu-raft-kv/server/src/main/java/cn/think/in/java/raft/server/impl/DefaultNode.java:600-612 | a candidate of the next term voting for itself, with the next election time stamped |
| RaftNode.Node.ClaimLeadership | distributed/lu-raft-kv/server/src/main/java/cn/think/in/java/raft/server/impl/DefaultNode.java:715-719 | a winner becomes leader, its own known leader, with an empty vote |
| RaftNode.Node.RunElection | distributed/lu-raft-kv/server/src/main/java/cn/think/in/java/raft/server/impl/DefaultNode.java:600-727 | every peer is asked with the new term and the last log index and term; a step-down during the wait aborts; the election is won exactly when granted votes (self excluded) >= peers / 2, after which the node is leader unless a higher term arrives; a loss only clears the vote; preElectionTime is stamped again at the end, except when the new leader's commit step throws |
| RaftNode.Node.ElectionTick | distributed/lu-raft-kv/server/src/main/java/cn/think/in/java/raft/server/impl/DefaultNode.java:582-727 | a leader does nothing; otherwise the jitter is added to electionTime and, exactly when now - preElectionTime >= electionTime, an election runs with all of RunElection's outcomes: the term goes up, every peer is asked with the next term and the last log index and term, the election is won exactly at the vote quorum without a step-down, a step-down or a loss leaves a follower or a candidate of the adopted term with the log untouched, and a won election leaves the node leader of itself when its commit step throws or its no-op commits at the election term |
| RaftNode.Node.AdoptReplyTerms | distributed/lu-raft-kv/server/src/main/java/cn/think/in/java/raft/server/impl/DefaultNode.java:876-890 | a reply term above the current one makes the node a follower of that term with an empty vote; otherwise nothing changes |
| RaftNode.Node.HeartbeatTick | distributed/lu-raft-kv/server/src/main/java/cn/think/in/java/raft/server/impl/DefaultNode.java:833-897 | only a leader whose last heartbeat is at least heartBeatTick old stamps the time and sends every peer its term and commitIndex; the log, commitIndex and progress maps never change, and a higher reply term makes it a follower |
| BitwiseUtils.And | javacore-basics/src/main/java/io/github/dunwu/javacore/operator/BitwiseUtils.java:16-18 | bit i of the result is set exactly when it is set in both operands |
| BitwiseUtils.Or | javacore-basics/src/main/java/io/github/dunwu/javacore/operator/BitwiseUtils.java:27-29 | bit i of the result is set exactly when it is set in either operand |
| BitwiseUtils.Xor | javacore-basics/src/main/java/io/github/dunwu/javacore/operator/BitwiseUtils.java:38-40 | bit i of the result is set exactly when the operands differ there |
| BitwiseUtils.Not | javacore-basics/src/main/java/io/github/dunwu/javacore/operator/BitwiseUtils.java:48-50 | every bit of the result is the opposite of the operand's |
| BitwiseUtils.LeftShift | javacore-basics/src/main/java/io/github/dunwu/javacore/operator/BitwiseUtils.java:59-61 | the shift is multiplication by 2^(n mod 32) modulo 2^32, and exact when the product fits |
| BitwiseUtils.RightShift | javacore-basics/src/main/java/io/github/dunwu/javacore/operator/BitwiseUtils.java:70-72 | the arithmetic shift is floor division by 2^(n mod 32) and keeps the sign |
| BitwiseUtils.UnsignedRightShift | javacore-basics/src/main/java/io/github/dunwu/javacore/operator/BitwiseUtils.java:81-83 | a non-zero shift is the floor of the pattern read as unsigned (a + 2^32 for negative a) divided by 2^(n mod 32), so never negative; it agrees with the arithmetic shift on non-negative operands, and a zero shift is the identity |
| BitwiseUtils.IsOdd | javacore-basics/src/main/java/io/github/dunwu/javacore/operator/BitwiseUtils.java:93-95 | true exactly when the 32-bit pattern is odd, negatives included |
| BitwiseUtils.IsPowerOfTwo | javacore-basics/src/main/java/io/github/dunwu/javacore/operator/BitwiseUtils.java:103-105 | true exactly when the number is non-negative with exactly one bit set |
| BitwiseUtils.PowersOfTwoPass | javacore-basics/src/main/java/io/github/dunwu/javacore/operator/BitwiseUtils.java:103-105 | every 2^k for k < 31 passes the test |
| BitwiseUtils.Swap | javacore-basics/src/main/java/io/github/dunwu/javacore/operator/BitwiseUtils.java:114-119 | the pair comes back exchanged for every pair of ints |
| BitwiseUtils.XorCancels | javacore-basics/src/main/java/io/github/dunwu/javacore/operator/BitwiseUtils.java:114-119 | xor with the same operand twice restores the other, which is why the swap works |
| BitwiseUtils.LowestOneBit | javacore-basics/src/main/java/io/github/dunwu/javacore/operator/BitwiseUtils.java:127-129 | the result is a single bit set in n with no lower bit of n set, and zero only for zero |
| BitwiseUtils.ClearLowestOneBit | javacore-basics/src/main/java/io/github/dunwu/javacore/operator/BitwiseUtils.java:137-139 | for n != 0 the result has exactly one set bit fewer than n |
| BitwiseUtils.LowestAndClearedPartition | javacore-basics/src/main/java/io/github/dunwu/javacore/operator/BitwiseUtils.java:127-139 | the lowest bit and the cleared number together make n: their OR is n and their AND is 0 |
| BitwiseUtils.LowestOneBitIsSingle | javacore-basics/src/main/java/io/github/dunwu/javacore/operator/BitwiseUtils.java:127-129 | for n != 0 the lowest one bit has exactly one bit set |
| BitwiseUtils.HaveSameSign | javacore-basics/src/main/java/io/github/dunwu/javacore/operator/BitwiseUtils.java:148-150 | true exactly when both numbers are negative or both are not |
| BitwiseUtils.MedianThree | javacore-basics/src/main/java/io/github/dunwu/javacore/operator/BitwiseUtils.java:160-169 | as written, the result is one of the three indices; with three distinct values it holds the median |
| BitwiseUtils.MedianThreeDistinct | javacore-basics/src/main/java/io/github/dunwu/javacore/operator/BitwiseUtils.java:160-169 | for three distinct values the xor of strict comparisons selects the median |
| BitwiseUtils.MedianThreeTie | javacore-basics/src/main/java/io/github/dunwu/javacore/operator/BitwiseUtils.java:160-169 | on [2, 2, 1] the code returns the index of 1, which is not a median |
| BitwiseUtils.MedianOfThree | javacore-basics/src/main/java/io/github/dunwu/javacore/operator/BitwiseUtils.java:160-169 | the corrected selection returns an index holding a median for every input |
| BitwiseUtils.MedianChoicesAgreeOnDistinct | javacore-basics/src/main/java/io/github/dunwu/javacore/operator/BitwiseUtils.java:160-169 | on distinct values the corrected selection and the original agree |
| BitwiseUtils.AbsoluteValue | javacore-basics/src/main/java/io/github/dunwu/javacore/operator/BitwiseUtils.java:179-182 | the absolute value of n for every n other than Integer.MIN_VALUE, which maps to itself |
| BitwiseUtils.IsBinaryPalindrome | javacore-basics/src/main/java/io/github/dunwu/javacore/operator/BitwiseUtils.java:190-197 | for n >= 0 true exactly when n's binary digits, without leading zeros, read the same reversed |
| BitwiseUtils.Max | javacore-basics/src/main/java/io/github/dunwu/javacore/operator/BitwiseUtils.java:206-208 | the larger of a and b whenever a - b fits in 32 bits |
| BitwiseUtils.Min | javacore-basics/src/main/java/io/github/dunwu/javacore/operator/BitwiseUtils.java:217-219 | the smaller of a and b whenever a - b fits in 32 bits |
| BitwiseUtils.MaxMinOverflow | javacore-basics/src/main/java/io/github/dunwu/javacore/operator/BitwiseUtils.java:206-219 | when a - b overflows the result can be wrong: max(MAX_VALUE, -1) is -1 |
| BitwiseUtils.MaxMinAgreeWithoutOverflow | javacore-basics/src/main/java/io/github/dunwu/javacore/operator/BitwiseUtils.java:206-219 | without overflow the bit tricks agree with the plain maximum and minimum |
| BitwiseUtils.IsZero | javacore-basics/src/main/java/io/github/dunwu/javacore/operator/BitwiseUtils.java:227-229 | true exactly when n is 0 |
| BitwiseUtils.ModByPowerOfTwo | javacore-basics/src/main/java/io/github/dunwu/javacore/operator/BitwiseUtils.java:238-240 | for a positive power of two p, the mask gives the non-negative remainder of n mod p |
| BitwiseUtils.FlipBits | javacore-basics/src/main/java/io/github/dunwu/javacore/operator/BitwiseUtils.java:248-250 | every bit flipped: the result xor n is all ones |
| BitwiseUtils.FlipBitsTwiceIsIdentity | javacore-basics/src/main/java/io/github/dunwu/javacore/operator/BitwiseUtils.java:248-250 | flipping twice restores the number |
| BitwiseUtils.CountOnes | javacore-basics/src/main/java/io/github/dunwu/javacore/operator/BitwiseUtils.java:258-265 | the loop counts the set bits of the 32-bit pattern, negatives included |
| BitwiseUtils.PopCountZero | javacore-basics/src/main/java/io/github/dunwu/javacore/operator/BitwiseUtils.java:258-265 | a pattern has no set bit exactly when it is zero, so the loop ends |
| BitwiseUtils.PatternTestValues | javacore-basics/src/test/java/io/github/dunwu/javacore/operator/BitwiseUtilsTest.java:8-89 | the unit tests' expectations for and/or/xor/not/flip, odd, power of two, lowest bit and sign |
| BitwiseUtils.PopCountTestValue | javacore-basics/src/test/java/io/github/dunwu/javacore/operator/BitwiseUtilsTest.java:143-147 | countOnes(11) is 3 |
| BitwiseUtils.ShiftTestValues | javacore-basics/src/test/java/io/github/dunwu/javacore/operator/BitwiseUtilsTest.java:32-48 | 60 << 2 = 240, 60 >> 2 = 15 and 60 >>> 2 = 15 |
| BitwiseUtils.ArithmeticTestValues | javacore-basics/src/test/java/io/github/dunwu/javacore/operator/BitwiseUtilsTest.java:98-122 | absoluteValue(-5) = absoluteValue(5) = 5, max(5, 10) = 10, min(5, 10) = 5 |
| BitwiseUtils.MedianTestValue | javacore-basics/src/test/java/io/github/dunwu/javacore/operator/BitwiseUtilsTest.java:91-96 | medianThree([3, 1, 2], 0, 1, 2) is 2 |
| BitwiseUtils.ModTestValue | javacore-basics/src/test/java/io/github/dunwu/javacore/operator/BitwiseUtilsTest.java:131-135 | modByPowerOfTwo(11, 8) is 3 |
| HashSpread.TableSizeFor | javacore-concurrent/src/main/java/io/github/dunwu/javacore/concurrent/current/features/concurrenthashmap/ConcurrentHashMapTest.java:61-70 | the result is always a power of two between 1 and 2^30 |
| HashSpread.SmearFillsBelowTopBit | javacore-concurrent/src/main/java/io/github/dunwu/javacore/concurrent/current/features/concurrenthashmap/ConcurrentHashMapTest.java:62-67 | the shift-or chain sets every bit below the top set bit and nothing above it |
| HashSpread.TableSizeForIsNextPowerOfTwo | javacore-concurrent/src/main/java/io/github/dunwu/javacore/concurrent/current/features/concurrenthashmap/ConcurrentHashMapTest.java:61-70 | for 1 <= c <= 2^30 the result is the smallest power of two at least c |
| HashSpread.TableSizeForCapped | javacore-concurrent/src/main/java/io/github/dunwu/javacore/concurrent/current/features/concurrenthashmap/ConcurrentHashMapTest.java:49-70 | every c above 2^30 yields exactly MAXIMUM_CAPACITY |
| HashSpread.TableSizeForNonPositive | javacore-concurrent/src/main/java/io/github/dunwu/javacore/concurrent/current/features/concurrenthashmap/ConcurrentHashMapTest.java:62-69 | every c in (MIN_VALUE, 0] yields 1, and MIN_VALUE wraps round to 2^30 |
| HashSpread.TableSizeForSeven | javacore-concurrent/src/main/java/io/github/dunwu/javacore/concurrent/current/features/concurrenthashmap/ConcurrentHashMapTest.java:61-70 | tableSizeFor(7) is 8 |
| HashSpread.Spread | javacore-concurrent/src/main/java/io/github/dunwu/javacore/concurrent/current/features/concurrenthashmap/ConcurrentHashMapTest.java:78-81 | the result is never negative, its low 16 bits are the low half xor the high half of h, and bits 16-30 are h's |
| HashSpread.BucketIsRemainder | javacore-concurrent/src/main/java/io/github/dunwu/javacore/concurrent/current/features/concurrenthashmap/ConcurrentHashMapTest.java:41-45 | `(16 - 1) & spread(h)` equals `spread(h) % 16` for every h |
| IntervalLimiter.Minus | javacore-concurrent/javacore-concurrent-base/src/main/java/io/github/dunwu/javacore/concurrent/current/features/limiter/TimeIntervalLimiter.java:46 | 64-bit subtraction wraps modulo 2^64 and is exact when it fits |
| IntervalLimiter.SaturatedTimes | javacore-concurrent/javacore-concurrent-base/src/main/java/io/github/dunwu/javacore/concurrent/current/features/limiter/TimeIntervalLimiter.java:29 | the unit conversion multiplies and saturates at the long bounds |
| IntervalLimiter.TruncatedDiv | javacore-concurrent/javacore-concurrent-base/src/main/java/io/github/dunwu/javacore/concurrent/current/features/limiter/TimeIntervalLimiter.java:29 | the unit conversion divides, rounding toward zero |
| IntervalLimiter.GrantsWithoutOverflow | javacore-concurrent/javacore-concurrent-base/src/main/java/io/github/dunwu/javacore/concurrent/current/features/limiter/TimeIntervalLimiter.java:46 | for non-negative times the grant test is exactly now - last >= windowSizeMillis |
| IntervalLimiter.Limiter.constructor | javacore-concurrent/javacore-concurrent-base/src/main/java/io/github/dunwu/javacore/concurrent/current/features/limiter/TimeIntervalLimiter.java:17-30 | the window is the interval converted to milliseconds and the last success time is 0 |
| IntervalLimiter.Limiter.TryAcquire | javacore-concurrent/javacore-concurrent-base/src/main/java/io/github/dunwu/javacore/concurrent/current/features/limiter/TimeIntervalLimiter.java:37-47 | true exactly when the elapsed time reaches the window; on true the last time becomes now, on false it stays |
| IntervalLimiter.GrantedTimes | javacore-concurrent/javacore-concurrent-base/src/main/java/io/github/dunwu/javacore/concurrent/current/features/limiter/TimeIntervalLimiter.java:46 | the granted times of a run are among the supplied times |
| IntervalLimiter.AcquireAll | javacore-concurrent/javacore-concurrent-base/src/main/java/io/github/dunwu/javacore/concurrent/current/features/limiter/TimeIntervalLimiter.java:37-47 | a run of tryAcquire calls grants exactly the times of the specification run and leaves its last time; the window never changes |
| IntervalLimiter.GrantsAreSpaced | javacore-concurrent/javacore-concurrent-base/src/main/java/io/github/dunwu/javacore/concurrent/current/features/limiter/TimeIntervalLimiter.java:46 | any two consecutive granted times are at least a window apart, and the first is a window after the starting time |
| IntervalLimiter.FirstAcquisition | javacore-concurrent/javacore-concurrent-base/src/main/java/io/github/dunwu/javacore/concurrent/current/features/limiter/TimeIntervalLimiter.java:46 | a fresh limiter grants its first call exactly when now >= windowSizeMillis |
| UnsafeQueue.Node.constructor | javacore-concurrent/src/main/java/io/github/dunwu/javacore/concurrent/current/patterns/LockFreeQueue/UnThreadSafeQueue.java:5-35 | a node holds the given element and successor |
| UnsafeQueue.Queue.constructor | javacore-concurrent/src/main/java/io/github/dunwu/javacore/concurrent/current/patterns/LockFreeQueue/UnThreadSafeQueue.java:37-39 | a new queue is empty, with null head and last and size 0 |
| UnsafeQueue.Queue.Size | javacore-concurrent/src/main/java/io/github/dunwu/javacore/concurrent/current/patterns/LockFreeQueue/UnThreadSafeQueue.java:41-43 | size equals the number of elements on the chain |
| UnsafeQueue.Queue.IsEmpty | javacore-concurrent/src/main/java/io/github/dunwu/javacore/concurrent/current/patterns/LockFreeQueue/UnThreadSafeQueue.java:45-47 | true exactly when size() is 0, i.e. no element is queued |
| UnsafeQueue.Queue.PeekFirst | javacore-concurrent/src/main/java/io/github/dunwu/javacore/concurrent/current/patterns/LockFreeQueue/UnThreadSafeQueue.java:49-51 | the oldest element without change; a NullPointerException on an empty queue |
| UnsafeQueue.Queue.PeekLast | javacore-concurrent/src/main/java/io/github/dunwu/javacore/concurrent/current/patterns/LockFreeQueue/UnThreadSafeQueue.java:53-55 | the newest element without change; a NullPointerException on an empty queue |
| UnsafeQueue.Queue.AddLast | javacore-concurrent/src/main/java/io/github/dunwu/javacore/concurrent/current/patterns/LockFreeQueue/UnThreadSafeQueue.java:57-70 | the element joins the end, earlier elements stay in order, size grows by one and the chain invariant holds |
| UnsafeQueue.Queue.RemoveFirst | javacore-concurrent/src/main/java/io/github/dunwu/javacore/concurrent/current/patterns/LockFreeQueue/UnThreadSafeQueue.java:72-86 | null and no change on an empty queue; otherwise the oldest element, the rest in order, size one less and the chain invariant kept |
| UnsafeQueue.FirstInFirstOut | javacore-concurrent/src/main/java/io/github/dunwu/javacore/concurrent/current/patterns/LockFreeQueue/UnThreadSafeQueue.java:88-97 | three elements added come back out in the order they went in |
| ComponentLoader.NewLoader | javacore-advanced/javacore-advanced-spi/src/main/java/com/hw/lineage/loader/classload/ComponentClassLoader.java:66-84 | the constructor keeps the packages and derives each resource prefix from its package |
| ComponentLoader.AnyMatch | javacore-advanced/javacore-advanced-spi/src/main/java/com/hw/lineage/loader/classload/ComponentClassLoader.java:161-170 | a name matches exactly when some configured prefix is a prefix of it |
| ComponentLoader.ReplaceDots | javacore-advanced/javacore-advanced-spi/src/main/java/com/hw/lineage/loader/classload/ComponentClassLoader.java:409 | same length, no '.' left, every '.' turned into '/' and every other character kept |
| ComponentLoader.ConvertPackagePrefixesToPathPrefixes | javacore-advanced/javacore-advanced-spi/src/main/java/com/hw/lineage/loader/classload/ComponentClassLoader.java:407-411 | same length and order, each element the package with its dots replaced |
| ComponentLoader.ReplaceDotsKeepsPrefix | javacore-advanced/javacore-advanced-spi/src/main/java/com/hw/lineage/loader/classload/ComponentClassLoader.java:272-283 | a package prefix of a name stays a path prefix once both are converted |
| ComponentLoader.ClassFileFollowsClassRouting | javacore-advanced/javacore-advanced-spi/src/main/java/com/hw/lineage/loader/classload/ComponentClassLoader.java:272-283 | a class's resource file is routed the way the class is |
| ComponentLoader.FirstSuccess | javacore-advanced/javacore-advanced-spi/src/main/java/com/hw/lineage/loader/classload/ComponentClassLoader.java:187-218 | the first delegate's class when it loads, otherwise whatever the second gives |
| ComponentLoader.FirstAssociatedModule | javacore-advanced/javacore-advanced-spi/src/main/java/com/hw/lineage/loader/classload/ComponentClassLoader.java:127-131 | no module exactly when no key prefixes the name; otherwise the module of the first key that does |
| ComponentLoader.LoadClass | javacore-advanced/javacore-advanced-spi/src/main/java/com/hw/lineage/loader/classload/ComponentClassLoader.java:100-143 | an already loaded class is returned first; a successful delegation is returned as is; a failed one stays a failure |
| ComponentLoader.LoadClassPrecedence | javacore-advanced/javacore-advanced-spi/src/main/java/com/hw/lineage/loader/classload/ComponentClassLoader.java:106-123 | component-first names get the component's class even when owner-first matches, the other owner-first names get the owner's, the rest the component's |
| ComponentLoader.LoadClassSucceeds | javacore-advanced/javacore-advanced-spi/src/main/java/com/hw/lineage/loader/classload/ComponentClassLoader.java:106-123 | loading succeeds exactly when a class was loaded, the component has it, or a prefixed name finds it in the owner; a component-only name never consults the owner |
| ComponentLoader.LoadClassFailure | javacore-advanced/javacore-advanced-spi/src/main/java/com/hw/lineage/loader/classload/ComponentClassLoader.java:124-141 | a ClassNotFoundException is re-thrown with the first matching module's hint and the original as cause, unchanged when no prefix matches; a NoClassDefFoundError passes through |
| ComponentLoader.ResourcesInOrder | javacore-advanced/javacore-advanced-spi/src/main/java/com/hw/lineage/loader/classload/ComponentClassLoader.java:357-369 | an IOException of either source propagates, the first's first; otherwise all of the first source's URLs followed by all of the second's |
| ComponentLoader.GetResource | javacore-advanced/javacore-advanced-spi/src/main/java/com/hw/lineage/loader/classload/ComponentClassLoader.java:233-243 | null on an IOException or when there is no URL; otherwise the first URL of getResources |
| ComponentLoader.GetResourcesOrder | javacore-advanced/javacore-advanced-spi/src/main/java/com/hw/lineage/loader/classload/ComponentClassLoader.java:254-265 | component-first paths list the component's URLs then the owner's, owner-first paths the reverse, others only the component's |
| ComponentLoader.GetResourceComponentFirst | javacore-advanced/javacore-advanced-spi/src/main/java/com/hw/lineage/loader/classload/ComponentClassLoader.java:233-243 | for a component-first path the component's first URL wins, then the owner's first, and an IOException gives null |
| CarriedTraversal.Universe | javacore-container/src/test/java/hashset/EntitySheetBoTest.java:195-230 | every start node and every predecessor belong to the finite set the loop can visit |
| CarriedTraversal.ReachableStep | javacore-container/src/test/java/hashset/EntitySheetBoTest.java:227-230 | a predecessor of a reachable node is reachable |
| CarriedTraversal.RootsAreReachable | javacore-container/src/test/java/hashset/EntitySheetBoTest.java:193 | every node of the starting list is reachable |
| CarriedTraversal.PrevsAreReachable | javacore-container/src/test/java/hashset/EntitySheetBoTest.java:227-230 | all predecessors of a reachable node are reachable |
| CarriedTraversal.RootIsReachable | javacore-container/src/test/java/hashset/EntitySheetBoTest.java:193 | a starting node is reachable |
| CarriedTraversal.ClosedSetHoldsReachable | javacore-container/src/test/java/hashset/EntitySheetBoTest.java:195-230 | a set holding the roots and closed under predecessors holds the end of every backward path from a root |
| CarriedTraversal.ExactlyTheReachable | javacore-container/src/test/java/hashset/EntitySheetBoTest.java:195-230 | a closed set of reachable nodes holding the roots is exactly the reachable set |
| CarriedTraversal.SheetsDescribeReachable | javacore-container/src/test/java/hashset/EntitySheetBoTest.java:202-225 | when the visited set is the reachable set, every reachable node is listed and every listed code comes from a reachable node |
| CarriedTraversal.RecordFresh | javacore-container/src/test/java/hashset/EntitySheetBoTest.java:197-200 | adding an unvisited node keeps the processed list duplicate-free and in step with the visited set |
| CarriedTraversal.Record | javacore-container/src/test/java/hashset/EntitySheetBoTest.java:202-225 | the (nodeId, dimCode) entry is replaced by one with the code added, or created; still one entry per pair, every visited node listed, every code from a visited node, other pairs untouched |
| CarriedTraversal.FrontierSkip | javacore-container/src/test/java/hashset/EntitySheetBoTest.java:196-199 | popping an already visited node keeps every unvisited reachable node pending |
| CarriedTraversal.FrontierVisit | javacore-container/src/test/java/hashset/EntitySheetBoTest.java:200-230 | visiting a node and pushing its unvisited predecessors keeps every unvisited reachable node pending |
| CarriedTraversal.PushUnvisited | javacore-container/src/test/java/hashset/EntitySheetBoTest.java:227-230 | the work list keeps its contents and gains exactly the predecessors not yet visited |
| CarriedTraversal.SkipKeepsInvariant | javacore-container/src/test/java/hashset/EntitySheetBoTest.java:196-199 | skipping a visited node keeps the loop invariant |
| CarriedTraversal.InvariantAtEnd | javacore-container/src/test/java/hashset/EntitySheetBoTest.java:195-233 | with the work list empty the invariant gives the traversal's postcondition |
| CarriedTraversal.Visit | javacore-container/src/test/java/hashset/EntitySheetBoTest.java:196-230 | one visit keeps the invariant, marks the node visited and shrinks the set of unvisited nodes |
| CarriedTraversal.CorrectRecurseBackward4Carried | javacore-container/src/test/java/hashset/EntitySheetBoTest.java:190-234 | terminates; processes each node once, exactly the nodes reachable from toProcess; one entry per (nodeId, dimCode), none of them empty; each reachable node's code in its entry and nothing else |

## Left out

- Threads, the thread pool, futures, `CountDownLatch` waits and their timeouts. A peer's replication outcome and whether it arrived in time are parameters, and the fan-out is sequential, so interleavings of replication threads with the commit step are not modelled.
- `rpcClient.send`, `System.currentTimeMillis` and `ThreadLocalRandom` are parameters. RPC exceptions appear as a missing reply.
- The redirect of a non-leader is an opaque answer passed in.
- `DefaultLogModule` and the state machine are not part of this model. The log is a sequence with contiguous 1-based indices. The state machine is the sequence of applied entries, and a GET returns the last applied write of the key.
- The retry-failure queue and `tryApplyStateMachine` (DefaultNode.java 475-556) are not modelled. Nothing ever enqueues into that queue, because the enqueue in `replication` is commented out.
- `init`, `setConfig`, `destroy`, the receive-side handlers delegated to the consensus module, and membership changes are not part of this model.
- RaftNode.Node.Replicate: the 20-second window is modelled by the elapsed time each attempt reports. A script that runs out counts as an expired window.
- RaftNode.Node.HeartbeatTick: each heartbeat reply is applied in peer order after all are sent. In Java the replies arrive asynchronously, possibly after the tick.
- `ElectionTask`'s vote requests read `currentTerm` and the log when each task runs. The model reads both once, after the term is incremented.
- BitwiseUtils.IsBinaryPalindrome: requires a non-negative argument. On a negative int Java's loop never ends, because `num >>= 1` stops at -1, so there is no result to model.
- UnsafeQueue.Queue.RemoveFirst: Java returns null both for an empty queue and for a stored null element. The model keeps the two apart with `Option`.
- UnsafeQueue.Queue.AddLast: `size` is a Java `int`. The model does not wrap it after 2^31 - 1 additions.
- ComponentLoader.LoadClass: the `resolve` flag and `resolveClass` are not modelled. The class returned is the same either way.
- The entries of `knownPackagePrefixesModuleAssociation` are a sequence in the map's iteration order. That order is unspecified in Java.
- `IteratorBackedEnumeration` and the static platform-loader lookup are not modelled. Resources are sequences of URLs.
- CarriedTraversal.CorrectRecurseBackward4Carried: a node is identified by (carriedCode, nodeId, dimCode), as its `equals` does, and its predecessors come from a graph keyed by that identity. Two equal Java objects with different predecessor lists are therefore not modelled.
- The HashSet bucket behaviour after mutating an element, and `wrongRecurseBackward4Carried`, which differs only through it, are not modelled.
- The CAS in `TimeIntervalLimiter.tryAcquire` is a plain update, since there is only one caller.

## Findings

| source | as written | input that shows it | evidently intended | confidence | as-written member | corrected member |
|---|---|---|---|---|---|---|
| javacore-basics/src/main/java/io/github/dunwu/javacore/operator/BitwiseUtils.java:160-169 | `medianThree` combines strict comparisons with exclusive-or. When two values tie above the third, both tests are false and it returns the third index, which holds the minimum. | `nums = [2, 2, 1]`, indices 0, 1, 2: returns 2, whose value 1 is not a median | an index holding a median of the three values for every input | not executed | BitwiseUtils.MedianThreeTie | BitwiseUtils.MedianOfThree |
