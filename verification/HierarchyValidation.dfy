/** Parent references and cycles in a clause hierarchy (src/domain/clauses/hierarchy-validation.ts). */
module HierarchyValidation {
  import opened Seqs

  datatype HierarchyNode = HierarchyNode(orderIndex: int, parentOrderIndex: Option<int>)

  predicate IsValidParentReference(node: HierarchyNode, allOrderIndexes: set<int>) {
    node.parentOrderIndex.None?
    || (node.parentOrderIndex.value != node.orderIndex && node.parentOrderIndex.value in allOrderIndexes)
  }

  type Parents = map<int, Option<int>>

  /** `new Map` filled in node order: a repeated index keeps the parent of its last node. */
  function ParentByIndex(nodes: seq<HierarchyNode>): Parents {
    if nodes == [] then map[]
    else ParentByIndex(nodes[..|nodes| - 1])[nodes[|nodes| - 1].orderIndex := nodes[|nodes| - 1].parentOrderIndex]
  }

  function ParentOf(parents: Parents, k: int): Option<int> {
    if k in parents then parents[k] else None
  }

  function Ancestor(parents: Parents, k: int, n: nat): Option<int>
    decreases n
  {
    if n == 0 then Some(k)
    else if ParentOf(parents, k).None? then None
    else Ancestor(parents, ParentOf(parents, k).value, n - 1)
  }

  ghost predicate IsOwnAncestor(parents: Parents, k: int, n: nat) {
    n > 0 && Ancestor(parents, k, n) == Some(k)
  }

  /** The chain from `k` ends after exactly `n` steps. */
  predicate EndsAfter(parents: Parents, k: int, n: nat)
    decreases n
  {
    if ParentOf(parents, k).None? then n == 0
    else n > 0 && EndsAfter(parents, ParentOf(parents, k).value, n - 1)
  }

  ghost predicate Ends(parents: Parents, k: int) {
    exists n: nat :: EndsAfter(parents, k, n)
  }

  /** A rank that strictly decreases from child to parent. */
  ghost predicate IsRank(parents: Parents, rank: int -> nat) {
    forall k :: k in parents && parents[k].Some? ==> rank(parents[k].value) < rank(k)
  }

  ghost predicate IsForest(parents: Parents) {
    exists rank: int -> nat :: IsRank(parents, rank)
  }

  // ----- ranks, cycles and chains -----

  lemma {:induction false} AncestorHasLowerRank(parents: Parents, rank: int -> nat, k: int, n: nat)
    requires IsRank(parents, rank) && n > 0 && Ancestor(parents, k, n).Some?
    ensures rank(Ancestor(parents, k, n).value) < rank(k)
    decreases n
  {
    if n > 1 {
      AncestorHasLowerRank(parents, rank, ParentOf(parents, k).value, n - 1);
    }
  }

  lemma {:induction false} EndIsUnique(parents: Parents, k: int, n: nat, m: nat)
    requires EndsAfter(parents, k, n) && EndsAfter(parents, k, m)
    ensures n == m
    decreases n
  {
    if ParentOf(parents, k).Some? {
      EndIsUnique(parents, ParentOf(parents, k).value, n - 1, m - 1);
    }
  }

  ghost function ChainLength(parents: Parents, k: int): nat {
    if exists n: nat :: EndsAfter(parents, k, n) then (var n: nat :| EndsAfter(parents, k, n); n) else 0
  }

  lemma {:induction false} ChainLengthIs(parents: Parents, k: int, n: nat)
    requires EndsAfter(parents, k, n)
    ensures ChainLength(parents, k) == n
  {
    var m: nat :| EndsAfter(parents, k, m) && m == ChainLength(parents, k);
    EndIsUnique(parents, k, n, m);
  }

  /** When every chain ends, its length is a rank. */
  lemma {:induction false} EndingChainsGiveRank(parents: Parents)
    requires forall k :: k in parents ==> Ends(parents, k)
    ensures IsForest(parents)
  {
    var rank := (k: int) => ChainLength(parents, k);
    forall k | k in parents && parents[k].Some?
      ensures rank(parents[k].value) < rank(k)
    {
      assert Ends(parents, k);
      var n: nat :| EndsAfter(parents, k, n);
      ChainLengthIs(parents, k, n);
      ChainLengthIs(parents, parents[k].value, n - 1);
    }
    assert IsRank(parents, rank);
  }

  lemma {:induction false} ForestHasNoCycle(parents: Parents, k: int, n: nat)
    requires IsForest(parents)
    ensures !IsOwnAncestor(parents, k, n)
  {
    var rank :| IsRank(parents, rank);
    if IsOwnAncestor(parents, k, n) {
      AncestorHasLowerRank(parents, rank, k, n);
    }
  }

  // ----- the code -----

  ghost predicate IsChain(parents: Parents, chain: seq<int>) {
    forall i :: 0 < i < |chain| ==> ParentOf(parents, chain[i - 1]) == Some(chain[i])
  }

  lemma {:induction false} ChainAncestor(parents: Parents, chain: seq<int>, i: nat, j: nat)
    requires IsChain(parents, chain) && i <= j < |chain|
    ensures Ancestor(parents, chain[i], j - i) == Some(chain[j])
    decreases j - i
  {
    if i < j {
      ChainAncestor(parents, chain, i + 1, j);
    }
  }

  lemma {:induction false} ChainEnds(parents: Parents, chain: seq<int>, i: nat)
    requires IsChain(parents, chain) && i < |chain| && ParentOf(parents, chain[|chain| - 1]).None?
    ensures EndsAfter(parents, chain[i], |chain| - 1 - i)
    decreases |chain| - i
  {
    if i < |chain| - 1 {
      ChainEnds(parents, chain, i + 1);
    }
  }

  function AllIndexes(parents: Parents): set<int> {
    parents.Keys + set k | k in parents && parents[k].Some? :: parents[k].value
  }

  /** The walk from `start`: `chain` has been visited, and `current` comes next. */
  ghost predicate IsWalk(parents: Parents, start: int, chain: seq<int>, current: Option<int>) {
    && IsChain(parents, chain) && (chain != [] ==> chain[0] == start)
    && current == (if chain == [] then Some(start) else ParentOf(parents, chain[|chain| - 1]))
    && (current.Some? ==> current.value in AllIndexes(parents) + {start})
    && (current.None? ==> chain != [])
  }

  lemma {:induction false} WalkGoesOn(parents: Parents, start: int, chain: seq<int>, current: Option<int>)
    requires IsWalk(parents, start, chain, current) && current.Some?
    ensures IsWalk(parents, start, chain + [current.value], ParentOf(parents, current.value))
  {
  }

  lemma {:induction false} WalkRepeats(parents: Parents, start: int, chain: seq<int>, current: Option<int>)
    requires IsWalk(parents, start, chain, current) && current.Some? && current.value in chain
    ensures exists k, n: nat :: IsOwnAncestor(parents, k, n)
  {
    var i :| 0 <= i < |chain| && chain[i] == current.value;
    var longer := chain + [current.value];
    WalkGoesOn(parents, start, chain, current);
    ChainAncestor(parents, longer, i, |chain|);
    assert IsOwnAncestor(parents, chain[i], |chain| - i);
  }

  lemma {:induction false} WalkEnds(parents: Parents, start: int, chain: seq<int>, current: Option<int>)
    requires IsWalk(parents, start, chain, current) && current.None?
    ensures Ends(parents, start)
  {
    ChainEnds(parents, chain, 0);
  }

  lemma {:induction false} EndsAfterAncestor(parents: Parents, k: int, n: nat, m: nat)
    requires EndsAfter(parents, k, n) && Ancestor(parents, k, m).Some?
    ensures m <= n && EndsAfter(parents, Ancestor(parents, k, m).value, n - m)
    decreases m
  {
    if m > 0 {
      EndsAfterAncestor(parents, ParentOf(parents, k).value, n - 1, m - 1);
    }
  }

  /** A chain that meets an index twice does not end. */
  lemma {:induction false} RepeatingChainNeverEnds(parents: Parents, start: int, chain: seq<int>, current: Option<int>)
    requires IsWalk(parents, start, chain, current) && current.Some? && current.value in chain
    ensures !Ends(parents, start)
  {
    var i :| 0 <= i < |chain| && chain[i] == current.value;
    var longer := chain + [current.value];
    WalkGoesOn(parents, start, chain, current);
    ChainAncestor(parents, longer, 0, i);
    ChainAncestor(parents, longer, 0, |chain|);
    forall n: nat
      ensures !EndsAfter(parents, start, n)
    {
      if EndsAfter(parents, start, n) {
        EndsAfterAncestor(parents, start, n, i);
        EndsAfterAncestor(parents, start, n, |chain|);
        EndIsUnique(parents, current.value, n - i, n - |chain|);
      }
    }
  }

  lemma {:induction false} WalkStaysInside(parents: Parents, start: int, chain: seq<int>, current: Option<int>)
    requires IsWalk(parents, start, chain, current) && current.Some?
    ensures current.value in AllIndexes(parents) + {start}
  {
  }

  /** Where no index is its own ancestor, every walk stops. */
  lemma {:induction false} WalkStops(parents: Parents, start: int, chain: seq<int>, current: Option<int>)
    requires IsWalk(parents, start, chain, current) && forall k, n: nat :: !IsOwnAncestor(parents, k, n)
    ensures Ends(parents, start)
    decreases |AllIndexes(parents) + {start} - set x | x in chain|
  {
    hide IsWalk, AllIndexes, Ends, IsOwnAncestor;
    if current.None? {
      WalkEnds(parents, start, chain, current);
    } else if current.value in chain {
      WalkRepeats(parents, start, chain, current);
    } else {
      WalkGoesOn(parents, start, chain, current);
      var longer := chain + [current.value];
      var universe := AllIndexes(parents) + {start};
      WalkStaysInside(parents, start, chain, current);
      assert universe - (set x | x in longer) == universe - (set x | x in chain) - {current.value};
      WalkStops(parents, start, longer, ParentOf(parents, current.value));
    }
  }

  /** A hierarchy has a rank exactly when no index is its own ancestor. */
  lemma {:induction false} ForestExactlyWithoutCycle(parents: Parents)
    ensures IsForest(parents) <==> forall k, n: nat :: !IsOwnAncestor(parents, k, n)
  {
    hide IsForest, IsOwnAncestor, Ends, IsChain;
    if IsForest(parents) {
      forall k, n: nat
        ensures !IsOwnAncestor(parents, k, n)
      {
        ForestHasNoCycle(parents, k, n);
      }
    }
    if forall k, n: nat :: !IsOwnAncestor(parents, k, n) {
      forall k | k in parents
        ensures Ends(parents, k)
      {
        EmptyChain(parents);
        WalkStops(parents, k, [], Some(k));
      }
      EndingChainsGiveRank(parents);
    }
  }

  /** The inner walk from one node: it always stops, and meets an index twice exactly when the chain does not end. */
  method ChainRepeats(parentByIndex: Parents, start: int) returns (repeats: bool)
    ensures repeats <==> !Ends(parentByIndex, start)
    ensures repeats ==> exists k, n: nat :: IsOwnAncestor(parentByIndex, k, n)
  {
    hide IsChain, AllIndexes, Ends, IsOwnAncestor;
    var visited: set<int> := {};
    var current := Some(start);
    ghost var chain: seq<int> := [];
    ghost var universe := AllIndexes(parentByIndex) + {start};
    assert IsChain(parentByIndex, []) by { EmptyChain(parentByIndex); }
    while current.Some?
      invariant IsWalk(parentByIndex, start, chain, current)
      invariant visited == set x | x in chain
      invariant visited <= universe
      decreases |universe - visited|
    {
      if current.value in visited {
        WalkRepeats(parentByIndex, start, chain, current);
        RepeatingChainNeverEnds(parentByIndex, start, chain, current);
        return true;
      }
      WalkGoesOn(parentByIndex, start, chain, current);
      ghost var unseen := universe - visited;
      visited := visited + {current.value};
      assert universe - visited == unseen - {current.value};
      chain := chain + [current.value];
      current := ParentOf(parentByIndex, current.value);
    }
    WalkEnds(parentByIndex, start, chain, current);
    return false;
  }

  lemma {:induction false} EmptyChain(parents: Parents)
    ensures IsChain(parents, [])
  {
  }

  lemma {:induction false} KeysAreNodes(nodes: seq<HierarchyNode>)
    ensures forall k :: k in ParentByIndex(nodes) <==> exists i :: 0 <= i < |nodes| && nodes[i].orderIndex == k
    ensures forall k :: k in ParentByIndex(nodes) ==>
              exists i :: 0 <= i < |nodes| && nodes[i].orderIndex == k && nodes[i].parentOrderIndex == ParentByIndex(nodes)[k]
    ensures |ParentByIndex(nodes)| <= |nodes|
  {
    if nodes != [] {
      var front, node := nodes[..|nodes| - 1], nodes[|nodes| - 1];
      KeysAreNodes(front);
      assert forall i :: 0 <= i < |front| ==> front[i] == nodes[i];
      forall k | k in ParentByIndex(nodes)
        ensures exists i :: 0 <= i < |nodes| && nodes[i].orderIndex == k
                            && nodes[i].parentOrderIndex == ParentByIndex(nodes)[k]
      {
        if k == node.orderIndex {
          assert nodes[|nodes| - 1].orderIndex == k;
        } else {
          var i :| 0 <= i < |front| && front[i].orderIndex == k && front[i].parentOrderIndex == ParentByIndex(front)[k];
          assert nodes[i] == front[i];
        }
      }
    }
  }

  /** `hasHierarchyCycle` answers whether no rank decreasing from child to parent exists. */
  method HasHierarchyCycle(nodes: seq<HierarchyNode>) returns (cyclic: bool)
    ensures cyclic <==> !IsForest(ParentByIndex(nodes))
    ensures cyclic <==> exists k, n: nat :: IsOwnAncestor(ParentByIndex(nodes), k, n)
  {
    var parentByIndex: Parents := map[];
    for i := 0 to |nodes|
      invariant parentByIndex == ParentByIndex(nodes[..i])
    {
      assert nodes[..i + 1][..i] == nodes[..i];
      parentByIndex := parentByIndex[nodes[i].orderIndex := nodes[i].parentOrderIndex];
    }
    assert nodes[..|nodes|] == nodes;
    for i := 0 to |nodes|
      invariant forall j :: 0 <= j < i ==> Ends(parentByIndex, nodes[j].orderIndex)
    {
      var repeats := ChainRepeats(parentByIndex, nodes[i].orderIndex);
      if repeats {
        ghost var k, n: nat :| IsOwnAncestor(parentByIndex, k, n);
        if IsForest(parentByIndex) {
          ForestHasNoCycle(parentByIndex, k, n);
        }
        return true;
      }
    }
    KeysAreNodes(nodes);
    forall k | k in parentByIndex
      ensures Ends(parentByIndex, k)
    {
      ghost var j :| 0 <= j < |nodes| && nodes[j].orderIndex == k;
    }
    EndingChainsGiveRank(parentByIndex);
    forall k, n: nat
      ensures !IsOwnAncestor(parentByIndex, k, n)
    {
      ForestHasNoCycle(parentByIndex, k, n);
    }
    return false;
  }

  // ----- walking up a valid hierarchy -----

  /** The indexes on the way from `k` to the end of its chain. */
  ghost function ChainIndexes(parents: Parents, k: int, n: nat): set<int>
    requires EndsAfter(parents, k, n)
    decreases n
  {
    if n == 0 then {k} else {k} + ChainIndexes(parents, ParentOf(parents, k).value, n - 1)
  }

  ghost predicate EndsWithin(parents: Parents, k: int, n: nat) {
    exists m: nat :: m <= n && EndsAfter(parents, k, m)
  }

  lemma {:induction false} ChainIndexesAreDistinct(parents: Parents, k: int, n: nat)
    requires EndsAfter(parents, k, n)
    ensures |ChainIndexes(parents, k, n)| == n + 1
    ensures forall j :: j in ChainIndexes(parents, k, n) ==> EndsWithin(parents, j, n)
    decreases n
  {
    if n == 0 {
      assert EndsAfter(parents, k, 0) && 0 <= n;
    } else {
      var p := ParentOf(parents, k).value;
      ChainIndexesAreDistinct(parents, p, n - 1);
      if k in ChainIndexes(parents, p, n - 1) {
        var m: nat :| m <= n - 1 && EndsAfter(parents, k, m);
        EndIsUnique(parents, k, n, m);
      }
      forall j | j in ChainIndexes(parents, k, n)
        ensures EndsWithin(parents, j, n)
      {
        if j in ChainIndexes(parents, p, n - 1) {
          var m: nat :| m <= n - 1 && EndsAfter(parents, j, m);
        } else {
          assert EndsAfter(parents, k, n);
        }
      }
    }
  }

  ghost predicate IsClosed(parents: Parents) {
    forall k :: k in parents && parents[k].Some? ==> parents[k].value in parents
  }

  lemma {:induction false} ChainStaysInside(parents: Parents, k: int, n: nat)
    requires EndsAfter(parents, k, n) && IsClosed(parents) && k in parents
    ensures ChainIndexes(parents, k, n) <= parents.Keys
    ensures Ancestor(parents, k, n).Some? && Ancestor(parents, k, n).value in parents
    ensures parents[Ancestor(parents, k, n).value].None?
    decreases n
  {
    if n > 0 {
      ChainStaysInside(parents, ParentOf(parents, k).value, n - 1);
    }
  }

  lemma {:induction false} SubsetSize<T>(a: set<T>, b: set<T>)
    requires a <= b
    ensures |a| <= |b|
  {
    if a != {} {
      var x :| x in a;
      SubsetSize(a - {x}, b - {x});
    }
  }

  lemma {:induction false} RankedChainEnds(parents: Parents, rank: int -> nat, k: int) returns (n: nat)
    requires IsRank(parents, rank)
    ensures EndsAfter(parents, k, n)
    decreases rank(k)
  {
    if ParentOf(parents, k).None? {
      n := 0;
    } else {
      n := RankedChainEnds(parents, rank, ParentOf(parents, k).value);
      n := n + 1;
    }
  }

  ghost function OrderIndexes(nodes: seq<HierarchyNode>): set<int> {
    set i | 0 <= i < |nodes| :: nodes[i].orderIndex
  }

  /** The last node with an index decides its parent. */
  lemma {:induction false} LastNodeDecides(nodes: seq<HierarchyNode>, i: nat)
    requires i < |nodes| && !(exists j :: i < j < |nodes| && nodes[j].orderIndex == nodes[i].orderIndex)
    ensures nodes[i].orderIndex in ParentByIndex(nodes)
    ensures ParentByIndex(nodes)[nodes[i].orderIndex] == nodes[i].parentOrderIndex
  {
    var last := |nodes| - 1;
    if i < last {
      assert forall j :: 0 <= j < last ==> nodes[..last][j] == nodes[j];
      LastNodeDecides(nodes[..last], i);
      assert nodes[last].orderIndex != nodes[i].orderIndex;
    }
  }

  ghost predicate DistinctIndexes(nodes: seq<HierarchyNode>) {
    forall i, j :: 0 <= i < j < |nodes| ==> nodes[i].orderIndex != nodes[j].orderIndex
  }

  /**
    * What the check of single references is worth: with distinct indexes all of them are valid exactly when every
    * parent is a node and no node is its own parent, which is the shortest cycle.
    */
  lemma {:induction false} ReferencesValidExactly(nodes: seq<HierarchyNode>)
    requires DistinctIndexes(nodes)
    ensures (forall i :: 0 <= i < |nodes| ==> IsValidParentReference(nodes[i], OrderIndexes(nodes)))
            <==> IsClosed(ParentByIndex(nodes)) && forall k :: !IsOwnAncestor(ParentByIndex(nodes), k, 1)
  {
    hide ParentByIndex;
    var parents := ParentByIndex(nodes);
    KeysAreNodes(nodes);
    forall k
      ensures k in parents <==> k in OrderIndexes(nodes)
    {
      assert k in parents <==> exists i :: 0 <= i < |nodes| && nodes[i].orderIndex == k;
    }
    forall i | 0 <= i < |nodes|
      ensures nodes[i].orderIndex in parents && parents[nodes[i].orderIndex] == nodes[i].parentOrderIndex
    {
      LastNodeDecides(nodes, i);
    }
    forall k
      ensures IsOwnAncestor(parents, k, 1) <==> k in parents && parents[k] == Some(k)
    {
      OneStep(parents, k);
    }
    if IsClosed(parents) && forall k :: !IsOwnAncestor(parents, k, 1) {
      forall i | 0 <= i < |nodes|
        ensures IsValidParentReference(nodes[i], OrderIndexes(nodes))
      {
        assert !IsOwnAncestor(parents, nodes[i].orderIndex, 1);
      }
    }
  }

  lemma {:induction false} OneStep(parents: Parents, k: int)
    ensures IsOwnAncestor(parents, k, 1) <==> k in parents && parents[k] == Some(k)
  {
    if ParentOf(parents, k).Some? {
      assert Ancestor(parents, ParentOf(parents, k).value, 0) == ParentOf(parents, k);
    }
  }

  /**
    * With valid references and no cycle, walking up from any node reaches a parentless node in fewer steps than there
    * are nodes.
    */
  lemma {:induction false} EveryNodeReachesRoot(nodes: seq<HierarchyNode>, i: nat) returns (steps: nat)
    requires i < |nodes| && IsForest(ParentByIndex(nodes))
    requires forall j :: 0 <= j < |nodes| ==> IsValidParentReference(nodes[j], OrderIndexes(nodes))
    ensures steps < |nodes|
    ensures var root := Ancestor(ParentByIndex(nodes), nodes[i].orderIndex, steps);
            root.Some? && root.value in OrderIndexes(nodes) && root.value in ParentByIndex(nodes)
            && ParentByIndex(nodes)[root.value].None?
  {
    var parents := ParentByIndex(nodes);
    KeysAreNodes(nodes);
    var rank :| IsRank(parents, rank);
    var k := nodes[i].orderIndex;
    steps := RankedChainEnds(parents, rank, k);
    forall j | j in parents && parents[j].Some?
      ensures parents[j].value in parents
    {
      var m :| 0 <= m < |nodes| && nodes[m].orderIndex == j && nodes[m].parentOrderIndex == parents[j];
      assert IsValidParentReference(nodes[m], OrderIndexes(nodes));
    }
    ChainStaysInside(parents, k, steps);
    ChainIndexesAreDistinct(parents, k, steps);
    SubsetSize(ChainIndexes(parents, k, steps), parents.Keys);
  }
}
