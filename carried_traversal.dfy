/**
 * `correctRecurseBackward4Carried`: walks backwards from a list of carried
 * objects along their `prevNodeCarriedBo` links and groups the carried codes
 * by `(nodeId, dimCode)`, one `EntitySheetBo` per group.
 *
 * A `WFNodeCarriedBo` is compared by `carriedCode`, `nodeId` and `dimCode`,
 * so here it is that triple (`NodeKey`); its predecessor links are a map
 * from the triple to the predecessors in the set's iteration order. An
 * `EntitySheetBo` is compared by all three of its fields, so it is a value.
 */
module CarriedTraversal {

  /** A carried object, by the fields its `equals` compares. */
  datatype NodeKey = NodeKey(carriedCode: string, nodeId: string, dimCode: string)

  /** An `EntitySheetBo`: the codes carried at one node for one dimension member. */
  datatype EntitySheet = EntitySheet(nodeId: string, entity: string, sheetId: set<string>)

  /** The `prevNodeCarriedBo` links of every carried object that has any. */
  type Graph = map<NodeKey, seq<NodeKey>>

  function Prev(g: Graph, k: NodeKey): seq<NodeKey>
  {
    if k in g then g[k] else []
  }

  /** A walk that follows predecessor links from its first element to its last. */
  ghost predicate IsBackwardPath(g: Graph, path: seq<NodeKey>)
  {
    |path| >= 1 && forall i {:trigger Prev(g, path[i])} :: 0 <= i < |path| - 1 ==> path[i + 1] in Prev(g, path[i])
  }

  /** k is one of the roots or reachable from one through predecessor links. */
  ghost predicate Reachable(g: Graph, roots: seq<NodeKey>, k: NodeKey)
  {
    exists path :: IsBackwardPath(g, path) && path[0] in roots && path[|path| - 1] == k
  }

  /** The sheet is the one for k's node and dimension member, and lists k's code. */
  predicate Lists(e: EntitySheet, k: NodeKey)
  {
    e.nodeId == k.nodeId && e.entity == k.dimCode && k.carriedCode in e.sheetId
  }

  /** No two sheets share a node and an entity. */
  predicate OnePerEntity(sheets: set<EntitySheet>)
  {
    forall e1, e2 :: e1 in sheets && e2 in sheets && e1.nodeId == e2.nodeId && e1.entity == e2.entity ==> e1 == e2
  }

  /** Every object and its predecessors' codes: the nodes a walk may ever see. */
  ghost function Universe(g: Graph, roots: seq<NodeKey>): (u: set<NodeKey>)
    ensures forall r :: r in roots ==> r in u
    ensures forall k, n :: n in Prev(g, k) ==> n in u
  {
    (set r | r in roots) + (set k, n | k in g && n in g[k] :: n)
  }

  lemma {:induction false} ReachableStep(g: Graph, roots: seq<NodeKey>, k: NodeKey, n: NodeKey)
    requires Reachable(g, roots, k) && n in Prev(g, k)
    ensures Reachable(g, roots, n)
  {
    var path :| IsBackwardPath(g, path) && path[0] in roots && path[|path| - 1] == k;
    var longer := path + [n];
    assert forall i :: 0 <= i < |path| ==> longer[i] == path[i];
    assert IsBackwardPath(g, longer);
  }

  lemma RootsAreReachable(g: Graph, roots: seq<NodeKey>)
    ensures forall r {:trigger Reachable(g, roots, r)} :: r in roots ==> Reachable(g, roots, r)
  {
    forall r | r in roots ensures Reachable(g, roots, r) {
      RootIsReachable(g, roots, r);
    }
  }

  lemma PrevsAreReachable(g: Graph, roots: seq<NodeKey>, k: NodeKey)
    requires Reachable(g, roots, k)
    ensures forall n {:trigger Reachable(g, roots, n)} :: n in Prev(g, k) ==> Reachable(g, roots, n)
  {
    forall n | n in Prev(g, k) ensures Reachable(g, roots, n) {
      ReachableStep(g, roots, k, n);
    }
  }

  lemma RootIsReachable(g: Graph, roots: seq<NodeKey>, r: NodeKey)
    requires r in roots
    ensures Reachable(g, roots, r)
  {
    assert IsBackwardPath(g, [r]);
  }

  /** A set holding the roots and closed under predecessors holds everything reachable. */
  lemma {:induction false} ClosedSetHoldsReachable(g: Graph, roots: seq<NodeKey>, closed: set<NodeKey>, path: seq<NodeKey>)
    requires forall r :: r in roots ==> r in closed
    requires forall k, n :: k in closed && n in Prev(g, k) ==> n in closed
    requires IsBackwardPath(g, path) && path[0] in roots
    ensures path[|path| - 1] in closed
    decreases |path|
  {
    if |path| > 1 {
      var shorter := path[..|path| - 1];
      assert IsBackwardPath(g, shorter);
      ClosedSetHoldsReachable(g, roots, closed, shorter);
      assert path[|path| - 1] in Prev(g, path[|path| - 2]);
    }
  }

  /** Every visited object's code is listed in the sheet for its node and dimension member. */
  ghost predicate Covers(sheets: set<EntitySheet>, visited: set<NodeKey>)
  {
    forall k {:trigger Listed(sheets, k)} :: k in visited ==> Listed(sheets, k)
  }

  /** Some sheet lists k's code under k's node and dimension member. */
  ghost predicate Listed(sheets: set<EntitySheet>, k: NodeKey)
  {
    exists e :: e in sheets && Lists(e, k)
  }

  /** Every listed code comes from a visited object of that node and dimension member. */
  ghost predicate ComesFrom(sheets: set<EntitySheet>, visited: set<NodeKey>)
  {
    forall e, c :: e in sheets && c in e.sheetId ==> NodeKey(c, e.nodeId, e.entity) in visited
  }

  /** The sheet belongs to the node and dimension member of k. */
  predicate SameGroup(e: EntitySheet, k: NodeKey)
  {
    e.nodeId == k.nodeId && e.entity == k.dimCode
  }

  /**
   * A set of reachable objects that holds the roots and is closed under
   * predecessors is the set of all reachable objects.
   */
  lemma ExactlyTheReachable(g: Graph, roots: seq<NodeKey>, closed: set<NodeKey>)
    requires forall r :: r in roots ==> r in closed
    requires forall k, n :: k in closed && n in Prev(g, k) ==> n in closed
    requires forall k {:trigger Reachable(g, roots, k)} :: k in closed ==> Reachable(g, roots, k)
    ensures forall k {:trigger Reachable(g, roots, k)} :: k in closed <==> Reachable(g, roots, k)
  {
    forall k | Reachable(g, roots, k) ensures k in closed {
      var path :| IsBackwardPath(g, path) && path[0] in roots && path[|path| - 1] == k;
      ClosedSetHoldsReachable(g, roots, closed, path);
    }
  }

  /**
   * Once the visited set is exactly the reachable objects, the sheets list
   * every reachable object's code and only codes of reachable objects.
   */
  lemma SheetsDescribeReachable(g: Graph, roots: seq<NodeKey>, visited: set<NodeKey>, sheets: set<EntitySheet>)
    requires Covers(sheets, visited) && ComesFrom(sheets, visited)
    requires forall k {:trigger Reachable(g, roots, k)} :: k in visited <==> Reachable(g, roots, k)
    ensures forall k :: Reachable(g, roots, k) ==> Listed(sheets, k)
    ensures forall e, c :: e in sheets && c in e.sheetId ==> Reachable(g, roots, NodeKey(c, e.nodeId, e.entity))
  {
  }

  /** Appending an object not yet recorded keeps the record free of repeats. */
  lemma {:induction false} RecordFresh(processed: seq<NodeKey>, visited: set<NodeKey>, current: NodeKey)
    requires forall k :: k in processed <==> k in visited
    requires forall i, j :: 0 <= i < j < |processed| ==> processed[i] != processed[j]
    requires current !in visited
    ensures forall k :: k in processed + [current] <==> k in visited + {current}
    ensures forall i, j :: 0 <= i < j < |processed + [current]| ==> (processed + [current])[i] != (processed + [current])[j]
  {
  }

  /**
   * Lines 202-225: put k's code into the sheet for k's node and dimension
   * member. A sheet already there is replaced by a copy with the code added;
   * otherwise a new sheet holding just that code is added. Sheets of other
   * groups stay as they are.
   */
  method Record(sheets: set<EntitySheet>, visited: set<NodeKey>, k: NodeKey) returns (updated: set<EntitySheet>)
    requires OnePerEntity(sheets) && Covers(sheets, visited) && ComesFrom(sheets, visited)
    ensures OnePerEntity(updated)
    ensures Covers(updated, visited + {k}) && ComesFrom(updated, visited + {k})
    ensures forall e :: !SameGroup(e, k) ==> (e in updated <==> e in sheets)
    ensures forall e :: e in updated && SameGroup(e, k) ==> k.carriedCode in e.sheetId
  {
    if existing :| existing in sheets && SameGroup(existing, k) {
      var replacement := EntitySheet(k.nodeId, k.dimCode, existing.sheetId + {k.carriedCode});
      updated := sheets - {existing} + {replacement};
      forall v | v in visited + {k}
        ensures Listed(updated, v)
      {
        if v == k {
          assert Lists(replacement, v);
        } else {
          assert Listed(sheets, v);
          var e :| e in sheets && Lists(e, v);
          if e == existing {
            assert Lists(replacement, v);
          } else {
            assert e in updated && Lists(e, v);
          }
        }
      }
    } else {
      var created := EntitySheet(k.nodeId, k.dimCode, {k.carriedCode});
      updated := sheets + {created};
      forall v | v in visited + {k}
        ensures Listed(updated, v)
      {
        if v == k {
          assert Lists(created, v);
        } else {
          assert Listed(sheets, v);
          var e :| e in sheets && Lists(e, v);
          assert e in updated;
        }
      }
    }
  }

  /**
   * Every root, and every predecessor of a visited object, is visited or
   * still waiting on the worklist.
   */
  ghost predicate Frontier(g: Graph, roots: seq<NodeKey>, visited: set<NodeKey>, work: seq<NodeKey>)
  {
    && (forall r :: r in roots ==> r in visited || r in work)
    && (forall k, n :: k in visited && n in Prev(g, k) ==> n in visited || n in work)
  }

  /** Popping an object that was already visited keeps the frontier. */
  lemma FrontierSkip(g: Graph, roots: seq<NodeKey>, visited: set<NodeKey>, rest: seq<NodeKey>, current: NodeKey)
    requires Frontier(g, roots, visited, rest + [current]) && current in visited
    ensures Frontier(g, roots, visited, rest)
  {
  }

  /**
   * Visiting the popped object and pushing its unvisited predecessors keeps
   * the frontier.
   */
  lemma FrontierVisit(g: Graph, roots: seq<NodeKey>, visited: set<NodeKey>, rest: seq<NodeKey>, current: NodeKey, pushed: seq<NodeKey>)
    requires Frontier(g, roots, visited, rest + [current])
    requires forall w :: w in rest ==> w in pushed
    requires forall n :: n in Prev(g, current) ==> n in visited + {current} || n in pushed
    ensures Frontier(g, roots, visited + {current}, pushed)
  {
  }

  /**
   * Lines 228-230: append, in order, the predecessors that are not yet
   * visited to the worklist.
   */
  method PushUnvisited(work: seq<NodeKey>, prevs: seq<NodeKey>, visited: set<NodeKey>) returns (pushed: seq<NodeKey>)
    ensures |pushed| >= |work| && pushed[..|work|] == work
    ensures forall w :: w in pushed[|work|..] ==> w in prevs && w !in visited
    ensures forall p :: p in prevs ==> p in visited || p in pushed
  {
    pushed := work;
    var i := 0;
    while i < |prevs|
      invariant 0 <= i <= |prevs|
      invariant |pushed| >= |work| && pushed[..|work|] == work
      invariant forall w :: w in pushed[|work|..] ==> w in prevs[..i] && w !in visited
      invariant forall j :: 0 <= j < i ==> prevs[j] in visited || prevs[j] in pushed
    {
      if prevs[i] !in visited {
        pushed := pushed + [prevs[i]];
      }
      assert prevs[..i + 1] == prevs[..i] + [prevs[i]];
      i := i + 1;
    }
    assert prevs[..i] == prevs;
  }

  /**
   * What holds before every pop: everything seen lies in the universe; the
   * record lists the visited objects once each; everything visited or
   * waiting is reachable; the frontier is waiting; the sheets describe the
   * visited objects, one sheet per node and dimension member.
   */
  ghost predicate Invariant(g: Graph, roots: seq<NodeKey>, universe: set<NodeKey>, visited: set<NodeKey>,
                            work: seq<NodeKey>, processed: seq<NodeKey>, sheets: set<EntitySheet>)
  {
    && visited <= universe
    && (forall w :: w in work ==> w in universe)
    && (forall k :: k in processed <==> k in visited)
    && (forall i, j :: 0 <= i < j < |processed| ==> processed[i] != processed[j])
    && (forall k {:trigger Reachable(g, roots, k)} :: k in visited ==> Reachable(g, roots, k))
    && (forall w {:trigger Reachable(g, roots, w)} :: w in work ==> Reachable(g, roots, w))
    && Frontier(g, roots, visited, work)
    && OnePerEntity(sheets) && Covers(sheets, visited) && ComesFrom(sheets, visited)
    && (forall e :: e in sheets ==> e.sheetId != {})
  }

  /** Popping an object that was already visited keeps the invariant. */
  lemma SkipKeepsInvariant(g: Graph, roots: seq<NodeKey>, universe: set<NodeKey>, visited: set<NodeKey>,
                           work: seq<NodeKey>, processed: seq<NodeKey>, sheets: set<EntitySheet>)
    requires Invariant(g, roots, universe, visited, work, processed, sheets)
    requires work != [] && work[|work| - 1] in visited
    ensures Invariant(g, roots, universe, visited, work[..|work| - 1], processed, sheets)
  {
    var rest, current := work[..|work| - 1], work[|work| - 1];
    assert work == rest + [current];
    FrontierSkip(g, roots, visited, rest, current);
  }

  /** With nothing left to pop, the sheets describe exactly the reachable objects. */
  lemma InvariantAtEnd(g: Graph, roots: seq<NodeKey>, universe: set<NodeKey>, visited: set<NodeKey>,
                       processed: seq<NodeKey>, sheets: set<EntitySheet>)
    requires Invariant(g, roots, universe, visited, [], processed, sheets)
    ensures OnePerEntity(sheets) && forall e :: e in sheets ==> e.sheetId != {}
    ensures forall k :: Reachable(g, roots, k) ==> Listed(sheets, k)
    ensures forall e, c :: e in sheets && c in e.sheetId ==> Reachable(g, roots, NodeKey(c, e.nodeId, e.entity))
    ensures forall i, j :: 0 <= i < j < |processed| ==> processed[i] != processed[j]
    ensures forall k :: k in processed <==> Reachable(g, roots, k)
  {
    ExactlyTheReachable(g, roots, visited);
    SheetsDescribeReachable(g, roots, visited, sheets);
  }

  /**
   * One pop of an object not yet visited (lines 200-230): mark it, record
   * its code, push its unvisited predecessors.
   */
  method Visit(g: Graph, roots: seq<NodeKey>, ghost universe: set<NodeKey>, visited: set<NodeKey>,
               work: seq<NodeKey>, sheets: set<EntitySheet>, ghost processed: seq<NodeKey>)
    returns (visited': set<NodeKey>, work': seq<NodeKey>, sheets': set<EntitySheet>, ghost processed': seq<NodeKey>)
    requires universe == Universe(g, roots)
    requires Invariant(g, roots, universe, visited, work, processed, sheets)
    requires work != [] && work[|work| - 1] !in visited
    ensures Invariant(g, roots, universe, visited', work', processed', sheets')
    ensures visited' == visited + {work[|work| - 1]} && |universe - visited'| < |universe - visited|
  {
    var rest, current := work[..|work| - 1], work[|work| - 1];
    assert work == rest + [current];
    assert universe - (visited + {current}) < universe - visited;
    var prevs := Prev(g, current);
    var pushed := PushUnvisited(rest, prevs, visited + {current});
    assert forall w :: w in rest ==> w in pushed;
    assert forall w :: w in pushed ==> w in rest || w in prevs;
    FrontierVisit(g, roots, visited, rest, current, pushed);
    PrevsAreReachable(g, roots, current);
    sheets' := Record(sheets, visited, current);
    RecordFresh(processed, visited, current);
    visited' := visited + {current};
    processed' := processed + [current];
    work' := pushed;
  }

  /**
   * `correctRecurseBackward4Carried(toProcess)`: pop the last object of a
   * copy of the list, skip it if already visited, otherwise mark it, record
   * its code and push its predecessors that are not yet visited.
   *
   * The ghost `processed` lists the objects in the order they were recorded.
   */
  method CorrectRecurseBackward4Carried(g: Graph, toProcess: seq<NodeKey>)
    returns (entitySheets: set<EntitySheet>, ghost processed: seq<NodeKey>)
    ensures OnePerEntity(entitySheets)
    ensures forall e :: e in entitySheets ==> e.sheetId != {}
    ensures forall k :: Reachable(g, toProcess, k) ==> Listed(entitySheets, k)
    ensures forall e, c :: e in entitySheets && c in e.sheetId ==> Reachable(g, toProcess, NodeKey(c, e.nodeId, e.entity))
    ensures forall i, j :: 0 <= i < j < |processed| ==> processed[i] != processed[j]
    ensures forall k :: k in processed <==> Reachable(g, toProcess, k)
  {
    ghost var universe := Universe(g, toProcess);
    entitySheets := {};
    var visited: set<NodeKey> := {};
    var work := toProcess;
    processed := [];
    RootsAreReachable(g, toProcess);
    while work != []
      invariant Invariant(g, toProcess, universe, visited, work, processed, entitySheets)
      decreases |universe - visited|, |work|
    {
      if work[|work| - 1] in visited {
        SkipKeepsInvariant(g, toProcess, universe, visited, work, processed, entitySheets);
        work := work[..|work| - 1];
      } else {
        visited, work, entitySheets, processed := Visit(g, toProcess, universe, visited, work, entitySheets, processed);
      }
    }
    InvariantAtEnd(g, toProcess, universe, visited, processed, entitySheets);
  }
}
