/**
 * The A* search of src/algorithms/astar.ts.
 *
 * Search nodes are objects the source mutates in place (`parent`, `g`, `h`,
 * `f`) and refers to from three places: the open heap, the open map and other
 * nodes' `parent` links. They are modelled as an arena: `nodes` holds every
 * node ever created, and a node is referred to by its index (a handle). The
 * open heap is a sequence of handles kept with the priority queue's own
 * `Enqueued`, under a comparator that reads the arena's current `f` values,
 * as `heapComparator` reads the live objects.
 *
 * The callbacks `isEnd`, `neighbor`, `distance`, `heuristic` and `hash` are
 * function parameters; the wall clock is an oracle `elapsed` giving the
 * milliseconds elapsed at each check of the loop.
 */
module Pathfinding {
  import opened Wrappers
  import PriorityQueues

  /** One search node: `{data, parent, g, h, f}`; `parent` is a handle into the arena. */
  datatype SearchNode<D> = SearchNode(data: D, parent: Option<nat>, g: int, h: int, f: int)

  /** "success", "timeout" and "noPath". */
  datatype Status = Found | TimedOut | NoPath

  /** `PathfindingResult`: `status` is one of "success", "timeout" and "noPath". */
  datatype PathfindingResult<D> = PathfindingResult(status: Status, cost: int, path: seq<D>)

  /** `params.timeout`: a number of milliseconds, `Infinity` or `NaN`. */
  datatype TimeoutSetting = Finite(ms: int) | Infinity | NaN

  /** The `params` object of `aStar`; an absent property is `None`. */
  datatype Params<!D> = Params(
    start: Option<D>,
    isEnd: Option<D -> bool>,
    neighbor: Option<D -> seq<D>>,
    distance: Option<(D, D) -> int>,
    heuristic: Option<D -> int>,
    hash: Option<D -> string>,
    timeout: Option<TimeoutSetting>)

  // ---------------------------------------------------------------------
  // Pure helpers

  /** `f` of the node a handle designates (0 for a handle outside the arena, which never occurs). */
  function FOf<D>(nodes: seq<SearchNode<D>>, i: nat): int
  {
    if i < |nodes| then nodes[i].f else 0
  }

  /** `heapComparator(a, b) = a.f - b.f`, reading the nodes as they are now. */
  function HeapComparator<D>(nodes: seq<SearchNode<D>>): (nat, nat) -> int
  {
    (a: nat, b: nat) => FOf(nodes, a) - FOf(nodes, b)
  }

  /** The heap comparator orders handles by `f`, and is a strict weak order. */
  lemma HeapComparatorOrdersByF<D>(nodes: seq<SearchNode<D>>)
    ensures PriorityQueues.StrictWeakOrder(HeapComparator(nodes))
    ensures forall a: nat, b: nat :: PriorityQueues.Less(HeapComparator(nodes), a, b) <==> FOf(nodes, a) < FOf(nodes, b)
  {
  }

  /**
   * `defaultHash(node) = node.toString()`; `toString` is the data's own string
   * conversion. Two data share a key exactly when their strings agree.
   */
  function DefaultHash<D(!new)>(toString: D -> string): (r: D -> string)
    ensures forall a, b :: r(a) == r(b) <==> toString(a) == toString(b)
  {
    d => toString(d)
  }

  /**
   * `reconstructPath(node)`: the `data` of every node on the parent chain,
   * root first. The source recurses without bound (a cyclic chain would
   * overflow the stack); here `fuel` bounds the recursion and `None` stands
   * for running out of it.
   */
  function ReconstructPath<D>(nodes: seq<SearchNode<D>>, i: nat, fuel: nat): (r: Option<seq<D>>)
    ensures r.Some? ==> i < |nodes| && r.value != [] && r.value[|r.value| - 1] == nodes[i].data
    decreases fuel
  {
    if i >= |nodes| || fuel == 0 then None
    else match nodes[i].parent
      case None => Some([nodes[i].data])
      case Some(j) =>
        match ReconstructPath(nodes, j, fuel - 1)
        case None => None
        case Some(p) => Some(p + [nodes[i].data])
  }

  /** The path to a node, with as much fuel as there are nodes. */
  function PathTo<D>(nodes: seq<SearchNode<D>>, i: nat): seq<D>
  {
    match ReconstructPath(nodes, i, |nodes|)
    case Some(p) => p
    case None => []
  }

  /** Node `i` has depth 0 without a parent, and one more than its parent's otherwise. */
  ghost predicate RankedAt<D>(nodes: seq<SearchNode<D>>, rank: seq<nat>, i: nat)
    requires i < |nodes| && |rank| == |nodes|
  {
    match nodes[i].parent
    case None => rank[i] == 0
    case Some(j) => j < |nodes| && rank[i] == rank[j] + 1
  }

  /**
   * `rank` gives each node its depth: a parentless node has depth 0, and a
   * node's parent is in the arena and one level shallower. (The per-node
   * condition is a predicate of its own, so that following one parent link
   * does not make the verifier follow the whole chain.)
   */
  ghost predicate Ranked<D>(nodes: seq<SearchNode<D>>, rank: seq<nat>)
  {
    |rank| == |nodes| && forall i :: 0 <= i < |nodes| ==> RankedAt(nodes, rank, i)
  }

  /** The parentless node a parent chain starts from. */
  ghost function Root<D>(nodes: seq<SearchNode<D>>, rank: seq<nat>, i: nat): (r: nat)
    requires Ranked(nodes, rank) && i < |nodes|
    ensures r < |nodes| && nodes[r].parent.None?
    decreases rank[i]
  {
    match nodes[i].parent
    case None => i
    case Some(j) => assert RankedAt(nodes, rank, i); Root(nodes, rank, j)
  }

  /** The handles on the parent chain of `i`, `i` included. */
  ghost function Ancestors<D>(nodes: seq<SearchNode<D>>, rank: seq<nat>, i: nat): set<nat>
    requires Ranked(nodes, rank) && i < |nodes|
    decreases rank[i]
  {
    match nodes[i].parent
    case None => {i}
    case Some(j) => assert RankedAt(nodes, rank, i); {i} + Ancestors(nodes, rank, j)
  }

  /**
   * With enough fuel the path exists, has one entry per level of the chain,
   * starts at the chain's root and ends at the node itself.
   */
  lemma {:induction false} ReconstructPathFollowsChain<D>(nodes: seq<SearchNode<D>>, rank: seq<nat>, i: nat, fuel: nat)
    requires Ranked(nodes, rank) && i < |nodes| && rank[i] < fuel
    ensures ReconstructPath(nodes, i, fuel).Some?
    ensures |ReconstructPath(nodes, i, fuel).value| == rank[i] + 1
    ensures ReconstructPath(nodes, i, fuel).value[0] == nodes[Root(nodes, rank, i)].data
    decreases fuel
  {
    assert RankedAt(nodes, rank, i);
    match nodes[i].parent
    case None =>
    case Some(j) =>
      ReconstructPathFollowsChain(nodes, rank, j, fuel - 1);
  }

  lemma {:induction false} AncestorsShape<D>(nodes: seq<SearchNode<D>>, rank: seq<nat>, i: nat)
    requires Ranked(nodes, rank) && i < |nodes|
    ensures |Ancestors(nodes, rank, i)| == rank[i] + 1
    ensures forall a :: a in Ancestors(nodes, rank, i) ==> a < |nodes| && rank[a] <= rank[i]
    decreases rank[i]
  {
    assert RankedAt(nodes, rank, i);
    match nodes[i].parent
    case None =>
    case Some(j) =>
      AncestorsShape(nodes, rank, j);
      assert i !in Ancestors(nodes, rank, j);
  }

  lemma {:induction false} HandlesBelow(s: set<nat>, n: nat)
    requires forall a :: a in s ==> a < n
    ensures |s| <= n
  {
    if n > 0 {
      HandlesBelow(s - {n - 1}, n - 1);
    } else {
      assert s == {};
    }
  }

  /** A chain has no more levels than there are nodes, so a chain never repeats a node. */
  lemma DepthBelowSize<D>(nodes: seq<SearchNode<D>>, rank: seq<nat>, i: nat)
    requires Ranked(nodes, rank) && i < |nodes|
    ensures rank[i] < |nodes|
  {
    AncestorsShape(nodes, rank, i);
    HandlesBelow(Ancestors(nodes, rank, i), |nodes|);
  }

  /** `PathTo` is the whole chain: root first, the node last, depth + 1 entries. */
  lemma PathToFollowsChain<D>(nodes: seq<SearchNode<D>>, rank: seq<nat>, i: nat)
    requires Ranked(nodes, rank) && i < |nodes|
    ensures ReconstructPath(nodes, i, |nodes|) == Some(PathTo(nodes, i))
    ensures |PathTo(nodes, i)| == rank[i] + 1
    ensures PathTo(nodes, i)[0] == nodes[Root(nodes, rank, i)].data
    ensures PathTo(nodes, i)[rank[i]] == nodes[i].data
  {
    DepthBelowSize(nodes, rank, i);
    ReconstructPathFollowsChain(nodes, rank, i, |nodes|);
  }

  /** A node one level below an existing parent may join the arena. */
  lemma RankedAppend<D>(nodes: seq<SearchNode<D>>, rank: seq<nat>, node: SearchNode<D>, depth: nat)
    requires Ranked(nodes, rank) && node.parent.Some? && node.parent.value < |nodes|
    requires depth == rank[node.parent.value] + 1
    ensures Ranked(nodes + [node], rank + [depth])
  {
    var nodes', rank' := nodes + [node], rank + [depth];
    forall i | 0 <= i < |nodes'|
      ensures RankedAt(nodes', rank', i)
    {
      if i < |nodes| {
        assert RankedAt(nodes, rank, i);
        assert nodes'[i] == nodes[i] && rank'[i] == rank[i];
        if nodes[i].parent.Some? {
          assert rank'[nodes[i].parent.value] == rank[nodes[i].parent.value];
        }
      } else {
        assert rank'[node.parent.value] == rank[node.parent.value];
      }
    }
  }

  /** Every open hash designates a node of the arena stored under that hash. */
  ghost predicate OpenMapped<D>(nodes: seq<SearchNode<D>>, open: map<string, nat>, hash: D -> string)
  {
    forall key :: key in open ==> open[key] < |nodes| && hash(nodes[open[key]].data) == key
  }

  /** The parent of node `i`, if any, is in the arena and has been closed. */
  ghost predicate ParentClosedAt<D>(nodes: seq<SearchNode<D>>, closed: set<string>, hash: D -> string, i: nat)
    requires i < |nodes|
  {
    match nodes[i].parent
    case None => true
    case Some(j) => j < |nodes| && hash(nodes[j].data) in closed
  }

  /** Every node that is some node's parent has been closed. */
  ghost predicate ParentsClosed<D>(nodes: seq<SearchNode<D>>, closed: set<string>, hash: D -> string)
  {
    forall i :: 0 <= i < |nodes| ==> ParentClosedAt(nodes, closed, hash, i)
  }

  lemma AppendKeepsMaps<D>(nodes: seq<SearchNode<D>>, open: map<string, nat>, closed: set<string>,
                           hash: D -> string, node: SearchNode<D>)
    requires OpenMapped(nodes, open, hash) && ParentsClosed(nodes, closed, hash)
    requires node.parent.Some? && node.parent.value < |nodes| && hash(nodes[node.parent.value].data) in closed
    ensures OpenMapped(nodes + [node], open[hash(node.data) := |nodes|], hash)
    ensures ParentsClosed(nodes + [node], closed, hash)
  {
    var nodes' := nodes + [node];
    forall i | 0 <= i < |nodes|
      ensures nodes'[i] == nodes[i]
    {
    }
    forall i | 0 <= i < |nodes'|
      ensures ParentClosedAt(nodes', closed, hash, i)
    {
      if i < |nodes| {
        assert ParentClosedAt(nodes, closed, hash, i);
        if nodes[i].parent.Some? {
          assert nodes'[nodes[i].parent.value] == nodes[nodes[i].parent.value];
        }
      } else {
        assert nodes'[node.parent.value] == nodes[node.parent.value];
      }
    }
  }

  /** Dropping an open key and closing hashes keeps the invariant. */
  lemma CloseKeepsInvariant<D(!new)>(nodes: seq<SearchNode<D>>, rank: seq<nat>, best: nat, heap: seq<nat>,
                                     open: map<string, nat>, closed: set<string>,
                                     hash: D -> string, heuristic: D -> int, key: string, closed': set<string>)
    requires SearchInvariant(nodes, rank, best, heap, open, closed, hash, heuristic)
    requires closed <= closed'
    ensures SearchInvariant(nodes, rank, best, heap, open - {key}, closed', hash, heuristic)
  {
    forall i | 0 <= i < |nodes|
      ensures ParentClosedAt(nodes, closed', hash, i)
    {
      assert ParentClosedAt(nodes, closed, hash, i);
    }
  }

  lemma AppendKeepsHeuristic<D>(nodes: seq<SearchNode<D>>, heuristic: D -> int, node: SearchNode<D>)
    requires HeuristicConsistent(nodes, heuristic) && node.h == heuristic(node.data)
    ensures HeuristicConsistent(nodes + [node], heuristic)
  {
    var nodes' := nodes + [node];
    forall i | 0 <= i < |nodes|
      ensures nodes'[i] == nodes[i]
    {
    }
  }

  /** Enqueuing a handle adds exactly that handle to the heap's multiset, so every handle stays below a bound. */
  lemma EnqueuedHandles(heap: seq<nat>, n: nat, cmp: (nat, nat) -> int, bound: nat)
    requires forall j :: 0 <= j < |heap| ==> heap[j] < bound
    requires n < bound
    ensures multiset(PriorityQueues.Enqueued<nat>(heap, n, cmp)) == multiset(heap) + multiset{n}
    ensures forall j :: 0 <= j < |heap| + 1 ==> PriorityQueues.Enqueued<nat>(heap, n, cmp)[j] < bound
  {
    var r := PriorityQueues.Enqueued<nat>(heap, n, cmp);
    PriorityQueues.SiftUpPermutes<nat>(heap + [n], |heap|, cmp);
    forall j | 0 <= j < |r|
      ensures r[j] < bound
    {
      assert r[j] in multiset(heap + [n]);
      var k :| 0 <= k < |heap + [n]| && (heap + [n])[k] == r[j];
    }
  }

  /** Different data never share a hash. */
  ghost predicate Injective<D(!new)>(hash: D -> string)
  {
    forall a, b :: hash(a) == hash(b) ==> a == b
  }

  /** Every node's `h` is the heuristic of its own data. */
  ghost predicate HeuristicConsistent<D>(nodes: seq<SearchNode<D>>, heuristic: D -> int)
  {
    forall i :: 0 <= i < |nodes| ==> nodes[i].h == heuristic(nodes[i].data)
  }

  /** What holds of the search state between any two steps of the source. */
  ghost predicate SearchInvariant<D(!new)>(nodes: seq<SearchNode<D>>, rank: seq<nat>, best: nat, heap: seq<nat>,
                                           open: map<string, nat>, closed: set<string>,
                                           hash: D -> string, heuristic: D -> int)
  {
    && Ranked(nodes, rank)
    && best < |nodes|
    && heap != []
    && (forall j :: 0 <= j < |heap| ==> heap[j] < |nodes|)
    && OpenMapped(nodes, open, hash)
    && ParentsClosed(nodes, closed, hash)
    && (Injective(hash) ==> HeuristicConsistent(nodes, heuristic))
  }

  /** Adding a node below a closed parent, registering and enqueuing it, keeps the invariant. */
  lemma AddKeepsInvariant<D(!new)>(nodes: seq<SearchNode<D>>, rank: seq<nat>, best: nat, heap: seq<nat>,
                                   open: map<string, nat>, closed: set<string>,
                                   hash: D -> string, heuristic: D -> int, p: nat, nd: D, g: int,
                                   nodes': seq<SearchNode<D>>, rank': seq<nat>, best': nat, heap': seq<nat>,
                                   open': map<string, nat>)
    requires SearchInvariant(nodes, rank, best, heap, open, closed, hash, heuristic)
    requires p < |nodes| && hash(nodes[p].data) in closed
    requires nodes' == nodes + [SearchNode(nd, Some(p), g, heuristic(nd), g + heuristic(nd))]
    requires rank' == rank + [rank[p] + 1]
    requires best' == if heuristic(nd) < nodes[best].h then |nodes| else best
    requires heap' == PriorityQueues.Enqueued<nat>(heap, |nodes|, HeapComparator(nodes'))
    requires open' == open[hash(nd) := |nodes|]
    ensures SearchInvariant(nodes', rank', best', heap', open', closed, hash, heuristic)
  {
    var node := SearchNode(nd, Some(p), g, heuristic(nd), g + heuristic(nd));
    EnqueuedHandles(heap, |nodes|, HeapComparator(nodes'), |nodes'|);
    RankedAppend(nodes, rank, node, rank[p] + 1);
    AppendKeepsMaps(nodes, open, closed, hash, node);
    if HeuristicConsistent(nodes, heuristic) {
      AppendKeepsHeuristic(nodes, heuristic, node);
    }
  }

  /**
   * Giving an open, childless node a closed parent and new `g`, `h`, `f`
   * keeps the invariant; with an injective hash its `h` is unchanged, so
   * the best `h` does not grow.
   */
  lemma UpdateKeepsInvariant<D(!new)>(nodes: seq<SearchNode<D>>, rank: seq<nat>, best: nat, heap: seq<nat>,
                                      open: map<string, nat>, closed: set<string>,
                                      hash: D -> string, heuristic: D -> int, p: nat, k: nat, nd: D, g: int,
                                      nodes': seq<SearchNode<D>>, rank': seq<nat>, best': nat)
    requires SearchInvariant(nodes, rank, best, heap, open, closed, hash, heuristic)
    requires p < |nodes| && hash(nodes[p].data) in closed
    requires hash(nd) !in closed && hash(nd) in open && k == open[hash(nd)]
    requires nodes' == nodes[k := SearchNode(nodes[k].data, Some(p), g, heuristic(nd), g + heuristic(nd))]
    requires rank' == rank[k := rank[p] + 1]
    requires best' == if heuristic(nd) < nodes'[best].h then k else best
    ensures SearchInvariant(nodes', rank', best', heap, open, closed, hash, heuristic)
    ensures Injective(hash) ==> nodes'[best'].h <= nodes[best].h
  {
    assert hash(nodes[k].data) !in closed && k != p;
    assert RankedAt(nodes, rank, k) && ParentClosedAt(nodes, closed, hash, k);
    forall i | 0 <= i < |nodes'|
      ensures RankedAt(nodes', rank', i) && ParentClosedAt(nodes', closed, hash, i)
    {
      assert RankedAt(nodes, rank, i) && ParentClosedAt(nodes, closed, hash, i);
      if i != k {
        assert nodes'[i] == nodes[i] && rank'[i] == rank[i];
        if nodes[i].parent.Some? {
          var j := nodes[i].parent.value;
          assert j != k;
          assert nodes'[j] == nodes[j] && rank'[j] == rank[j];
        }
      } else {
        assert nodes'[p] == nodes[p] && rank'[p] == rank[p];
      }
    }
    forall i | 0 <= i < |nodes| && i != k
      ensures nodes'[i] == nodes[i]
    {
    }
    if Injective(hash) {
      assert nodes[k].data == nd;
    }
  }

  // ---------------------------------------------------------------------
  // The search state

  /**
   * The local state of one `aStar` call: the node arena, `closedDataSet`,
   * `openDataMap` (hash to handle), the open heap, `bestNode`, and
   * `heapSize`, the value `openHeap.size` reports: the queue's `_length`,
   * fixed when it was built.
   */
  /**
   * After relaxing `nd` with the cost `bound` through the current node: its
   * hash is closed, or it is open and its node's `g` is at most `bound`.
   */
  predicate Relaxed<D>(nodes: seq<SearchNode<D>>, open: map<string, nat>, closed: set<string>,
                       hash: D -> string, nd: D, bound: int)
  {
    hash(nd) in closed || (hash(nd) in open && open[hash(nd)] < |nodes| && nodes[open[hash(nd)]].g <= bound)
  }

  /** From `nodes`, `open` to `nodes'`, `open'`: nodes are only appended, open entries persist, and no `g` grows. */
  predicate Persists<D>(nodes: seq<SearchNode<D>>, open: map<string, nat>,
                        nodes': seq<SearchNode<D>>, open': map<string, nat>)
  {
    && |nodes| <= |nodes'|
    && (forall key :: key in open ==> key in open' && open'[key] == open[key])
    && (forall k :: 0 <= k < |nodes| ==> nodes'[k].g <= nodes[k].g)
  }

  /** A relaxed neighbour stays relaxed while open entries persist and no `g` grows. */
  lemma RelaxedStays<D>(nodes: seq<SearchNode<D>>, open: map<string, nat>, nodes': seq<SearchNode<D>>,
                        open': map<string, nat>, closed: set<string>, hash: D -> string, nd: D, bound: int)
    requires Relaxed(nodes, open, closed, hash, nd, bound)
    requires Persists(nodes, open, nodes', open')
    ensures Relaxed(nodes', open', closed, hash, nd, bound)
  {
    if hash(nd) !in closed {
      var k := open[hash(nd)];
      assert open'[hash(nd)] == k && nodes'[k].g <= nodes[k].g;
    }
  }

  class Search<D(!new)> {
    const isEnd: D -> bool
    const neighbor: D -> seq<D>
    const distance: (D, D) -> int
    const heuristic: D -> int
    const hash: D -> string

    var nodes: seq<SearchNode<D>>
    var closed: set<string>
    var open: map<string, nat>
    var heap: seq<nat>
    var heapSize: int
    var best: nat
    ghost var rank: seq<nat>

    ghost predicate Valid()
      reads this
    {
      SearchInvariant(nodes, rank, best, heap, open, closed, hash, heuristic)
    }

    /**
     * Lines 48-61: the start node with `g = 0`, `h = f = heuristic(start)` and
     * no parent is the first `bestNode`, is enqueued on a queue built without
     * initial values, and is registered under its hash.
     */
    constructor (isEnd: D -> bool, neighbor: D -> seq<D>, distance: (D, D) -> int,
                 heuristic: D -> int, hash: D -> string, start: D)
      ensures this.isEnd == isEnd && this.neighbor == neighbor && this.distance == distance
      ensures this.heuristic == heuristic && this.hash == hash
      ensures nodes == [SearchNode(start, None, 0, heuristic(start), heuristic(start))] && best == 0
      ensures heap == [0] && heapSize == 0 && open == map[hash(start) := 0] && closed == {}
      ensures Valid()
    {
      this.isEnd := isEnd;
      this.neighbor := neighbor;
      this.distance := distance;
      this.heuristic := heuristic;
      this.hash := hash;
      var startNode := SearchNode(start, None, 0, heuristic(start), 0);
      startNode := startNode.(f := startNode.h);
      nodes := [startNode];
      best := 0;
      closed := {};
      heapSize := 0;
      rank := [0];
      heap := PriorityQueues.Enqueued([], 0, HeapComparator([startNode]));
      open := map[hash(start) := 0];
    }

    /**
     * One pass of the inner `for` loop (lines 85-119) for the neighbour `nd`
     * of the node with handle `p`.
     */
    method Relax(p: nat, nd: D)
      requires Valid() && p < |nodes| && hash(nodes[p].data) in closed
      modifies this
      ensures Valid() && p < |nodes| && nodes[p] == old(nodes[p]) && |old(nodes)| <= |nodes|
      ensures closed == old(closed) && heapSize == old(heapSize)
      ensures multiset(old(heap)) <= multiset(heap)
      // a closed neighbour is skipped
      ensures hash(nd) in old(closed) ==> unchanged(this)
      // a new neighbour is created with `node` as parent, registered and enqueued
      ensures hash(nd) !in old(closed) && hash(nd) !in old(open) ==>
                var n := |old(nodes)|;
                var g := old(nodes[p].g) + distance(old(nodes[p].data), nd);
                && nodes == old(nodes) + [SearchNode(nd, Some(p), g, heuristic(nd), g + heuristic(nd))]
                && open == old(open)[hash(nd) := n]
                && heap == PriorityQueues.Enqueued<nat>(old(heap), n, HeapComparator(nodes))
                && best == (if heuristic(nd) < old(nodes[best].h) then n else old(best))
      // an open neighbour with a strictly smaller `g` is skipped
      ensures hash(nd) !in old(closed) && hash(nd) in old(open) &&
              old(nodes[open[hash(nd)]].g) < old(nodes[p].g) + distance(old(nodes[p].data), nd) ==>
                unchanged(this)
      // any other open neighbour is updated in place and not re-enqueued
      ensures hash(nd) !in old(closed) && hash(nd) in old(open) &&
              old(nodes[open[hash(nd)]].g) >= old(nodes[p].g) + distance(old(nodes[p].data), nd) ==>
                var k := old(open[hash(nd)]);
                var g := old(nodes[p].g) + distance(old(nodes[p].data), nd);
                && nodes == old(nodes)[k := SearchNode(old(nodes[k].data), Some(p), g, heuristic(nd), g + heuristic(nd))]
                && open == old(open) && heap == old(heap)
                && best == (if k != old(best) && heuristic(nd) < old(nodes[best].h) then k else old(best))
      // `bestNode` only moves to a node with a strictly smaller `h`
      ensures best != old(best) ==> nodes[best].h < old(nodes[best].h)
      ensures Injective(hash) ==> nodes[best].h <= old(nodes[best].h)
      // in every case: open entries persist, no `g` grows, and `nd` ends up relaxed
      ensures Persists(old(nodes), old(open), nodes, open)
      ensures Relaxed(nodes, open, closed, hash, nd, old(nodes[p].g) + distance(old(nodes[p].data), nd))
    {
      var key := hash(nd);
      if key in closed {
        return;
      }
      var g := nodes[p].g + distance(nodes[p].data, nd);
      if key !in open {
        AddNode(p, nd, g);
      } else {
        var k := open[key];
        if nodes[k].g < g {
          return;
        }
        UpdateNode(p, k, nd, g);
      }
    }

    /** Lines 96-100 and 110-118: a new node for `nd`, registered under its hash and enqueued. */
    method AddNode(p: nat, nd: D, g: int)
      requires Valid() && p < |nodes| && hash(nodes[p].data) in closed && hash(nd) !in open
      modifies this
      ensures Valid() && p < |nodes| && nodes[p] == old(nodes[p])
      ensures closed == old(closed) && heapSize == old(heapSize)
      ensures nodes == old(nodes) + [SearchNode(nd, Some(p), g, heuristic(nd), g + heuristic(nd))]
      ensures open == old(open)[hash(nd) := |old(nodes)|]
      ensures heap == PriorityQueues.Enqueued<nat>(old(heap), |old(nodes)|, HeapComparator(nodes))
      ensures multiset(heap) == multiset(old(heap)) + multiset{|old(nodes)| as nat}
      ensures best == (if heuristic(nd) < old(nodes[best].h) then |old(nodes)| else old(best))
      ensures Persists(old(nodes), old(open), nodes, open)
      ensures Relaxed(nodes, open, closed, hash, nd, g)
    {
      var h := heuristic(nd);
      var n := |nodes|;
      ghost var nodes0, rank0, best0, heap0, open0 := nodes, rank, best, heap, open;
      EnqueuedHandles(heap, n, HeapComparator(nodes + [SearchNode(nd, Some(p), g, h, g + h)]), n + 1);
      best := if h < nodes[best].h then n else best;
      nodes := nodes + [SearchNode(nd, Some(p), g, h, g + h)];
      heap := PriorityQueues.Enqueued<nat>(heap, n, HeapComparator(nodes));
      rank := rank + [rank[p] + 1];
      open := open[hash(nd) := n];
      AddKeepsInvariant(nodes0, rank0, best0, heap0, open0, closed, hash, heuristic, p, nd, g, nodes, rank, best, heap, open);
    }

    /** Lines 106 and 110-116: an open node found under `nd`'s hash gets `node` as its new parent, in place. */
    method UpdateNode(p: nat, k: nat, nd: D, g: int)
      requires Valid() && p < |nodes| && hash(nodes[p].data) in closed
      requires hash(nd) !in closed && hash(nd) in open && k == open[hash(nd)]
      modifies this
      ensures Valid() && p < |nodes| && nodes[p] == old(nodes[p])
      ensures closed == old(closed) && heapSize == old(heapSize) && open == old(open) && heap == old(heap)
      ensures nodes == old(nodes)[k := SearchNode(old(nodes[k].data), Some(p), g, heuristic(nd), g + heuristic(nd))]
      ensures best == (if k != old(best) && heuristic(nd) < old(nodes[best].h) then k else old(best))
      ensures Injective(hash) ==> nodes[best].h <= old(nodes[best].h)
      ensures g <= old(nodes[k].g) ==> Persists(old(nodes), old(open), nodes, open)
      ensures Relaxed(nodes, open, closed, hash, nd, g)
    {
      var h := heuristic(nd);
      ghost var nodes0, rank0, best0 := nodes, rank, best;
      nodes := nodes[k := SearchNode(nodes[k].data, Some(p), g, h, g + h)];
      rank := rank[k := rank[p] + 1];
      if h < nodes[best].h {
        best := k;
      }
      UpdateKeepsInvariant(nodes0, rank0, best0, heap, open, closed, hash, heuristic, p, k, nd, g, nodes, rank, best);
    }

    /**
     * One iteration of the `while` loop (lines 64-120): the timeout check,
     * then `peek` (the node stays in the heap), removal of its hash from the
     * open map, the goal test, closing it, and relaxing each neighbour.
     */
    method Expand(timedOut: bool) returns (outcome: Option<PathfindingResult<D>>)
      requires Valid()
      modifies this
      ensures Valid() && heapSize == old(heapSize)
      ensures timedOut ==>
                outcome == Some(PathfindingResult(TimedOut, old(nodes[best].g), old(PathTo(nodes, best)))) && unchanged(this)
      ensures !timedOut && isEnd(old(nodes[heap[0]].data)) ==>
                && outcome == Some(PathfindingResult(Found, old(nodes[heap[0]].g), old(PathTo(nodes, heap[0]))))
                && open == old(open) - {hash(old(nodes[heap[0]].data))}
                && nodes == old(nodes) && heap == old(heap) && closed == old(closed) && best == old(best)
      ensures !timedOut && !isEnd(old(nodes[heap[0]].data)) ==>
                && outcome == None
                && closed == old(closed) + {hash(old(nodes[heap[0]].data))}
                && hash(old(nodes[heap[0]].data)) !in open
                && old(heap[0]) in heap && nodes[old(heap[0])] == old(nodes[heap[0]])
                && multiset(old(heap)) <= multiset(heap)
                && forall nd :: nd in neighbor(old(nodes[heap[0]].data)) ==>
                     Relaxed(nodes, open, closed, hash, nd, old(nodes[heap[0]].g) + distance(old(nodes[heap[0]].data), nd))
      ensures Injective(hash) ==> nodes[best].h <= old(nodes[best].h)
    {
      if timedOut {
        outcome := Some(PathfindingResult(TimedOut, nodes[best].g, PathTo(nodes, best)));
        return;
      }
      var p := heap[0];
      var key := hash(nodes[p].data);
      open := open - {key};
      CloseKeepsInvariant(nodes, rank, best, heap, old(open), closed, hash, heuristic, key, closed);
      if isEnd(nodes[p].data) {
        outcome := Some(PathfindingResult(Found, nodes[p].g, PathTo(nodes, p)));
        return;
      }
      closed := closed + {key};
      CloseKeepsInvariant(nodes, rank, best, heap, old(open), old(closed), hash, heuristic, key, closed);
      RelaxNeighbors(p);
      assert p in multiset(old(heap));
      outcome := None;
    }

    /** Lines 83-119: the inner `for` loop; every neighbour of the closed node `p` is relaxed in turn. */
    method RelaxNeighbors(p: nat)
      requires Valid() && p < |nodes| && hash(nodes[p].data) in closed && hash(nodes[p].data) !in open
      modifies this
      ensures Valid() && p < |nodes| && nodes[p] == old(nodes[p])
      ensures closed == old(closed) && hash(nodes[p].data) !in open && heapSize == old(heapSize)
      ensures multiset(old(heap)) <= multiset(heap)
      ensures Injective(hash) ==> nodes[best].h <= old(nodes[best].h)
      ensures forall nd :: nd in neighbor(nodes[p].data) ==>
                Relaxed(nodes, open, closed, hash, nd, nodes[p].g + distance(nodes[p].data, nd))
    {
      var neighbors := neighbor(nodes[p].data);
      var g, data, key := nodes[p].g, nodes[p].data, hash(nodes[p].data);
      for i := 0 to |neighbors|
        invariant Valid() && p < |nodes| && nodes[p] == old(nodes[p])
        invariant closed == old(closed) && key !in open && heapSize == old(heapSize)
        invariant multiset(old(heap)) <= multiset(heap)
        invariant Injective(hash) ==> nodes[best].h <= old(nodes[best].h)
        invariant forall j :: 0 <= j < i ==> Relaxed(nodes, open, closed, hash, neighbors[j], g + distance(data, neighbors[j]))
      {
        ghost var nodes0, open0 := nodes, open;
        Relax(p, neighbors[i]);
        assert Relaxed(nodes, open, closed, hash, neighbors[i], g + distance(data, neighbors[i]));
        forall j | 0 <= j < i + 1
          ensures Relaxed(nodes, open, closed, hash, neighbors[j], g + distance(data, neighbors[j]))
        {
          if j < i {
            RelaxedStays(nodes0, open0, nodes, open, closed, hash, neighbors[j], g + distance(data, neighbors[j]));
          }
        }
      }
    }

    /**
     * The `while (openHeap.size)` loop and the `noPath` result after it.
     * The loop as written never dequeues, so it can spin until the clock
     * runs out; `budget` bounds the number of iterations modelled and `None`
     * stands for exceeding it.
     */
    method Run(timeout: TimeoutSetting, elapsed: nat -> int, budget: nat) returns (outcome: Option<PathfindingResult<D>>)
      requires Valid()
      modifies this
      ensures Valid()
      ensures old(heapSize) == 0 ==>
                outcome == Some(PathfindingResult(NoPath, old(nodes[best].g), old(PathTo(nodes, best)))) && unchanged(this)
      ensures outcome.Some? && outcome.value.status != Found ==>
                outcome.value.cost == nodes[best].g && outcome.value.path == PathTo(nodes, best)
    {
      var tick := 0;
      while heapSize != 0
        invariant Valid() && tick <= budget && heapSize == old(heapSize)
        invariant old(heapSize) == 0 ==> unchanged(this)
        decreases budget - tick
      {
        if tick == budget {
          return None;
        }
        var timedOut := match timeout
          case Finite(ms) => elapsed(tick) > ms
          case _ => false;
        outcome := Expand(timedOut);
        if outcome.Some? {
          return;
        }
        tick := tick + 1;
      }
      outcome := Some(PathfindingResult(NoPath, nodes[best].g, PathTo(nodes, best)));
    }
  }

  /**
   * The assertions at the top of `aStar` (lines 39-45), in order, with a
   * missing `timeout` read as `Infinity`: the message of the first that
   * fails, or `None` when all hold.
   */
  function ParamsError<D>(params: Params<D>): (e: Option<string>)
    ensures e.None? <==>
              params.start.Some? && params.isEnd.Some? && params.neighbor.Some? && params.distance.Some? &&
              params.heuristic.Some? && params.timeout != Some(NaN)
    ensures params.start.None? ==> e == Some("params.start !== undefined")
  {
    if params.start.None? then Some("params.start !== undefined")
    else if params.isEnd.None? then Some("params.isEnd !== undefined")
    else if params.neighbor.None? then Some("params.neighbor")
    else if params.distance.None? then Some("params.distance")
    else if params.heuristic.None? then Some("params.heuristic")
    else if params.timeout == Some(NaN) then Some("!isNaN(params.timeout)")
    else None
  }

  /**
   * `aStar(params)`. A failed assertion is a `Failure` carrying the asserted
   * expression. Otherwise, because `openHeap.size` is the `_length` of a
   * queue built empty, the loop never runs: the result is `noPath` with cost
   * 0 and the path `[start]`, whatever the callbacks and the clock do.
   * `toString` is the start data's own string conversion, used when no
   * `hash` is given.
   */
  method AStar<D(!new)>(params: Params<D>, toString: D -> string, elapsed: nat -> int, budget: nat)
    returns (r: Result<PathfindingResult<D>, string>)
    ensures ParamsError(params).Some? ==> r == Failure(ParamsError(params).value)
    ensures ParamsError(params).None? ==> r == Success(PathfindingResult(NoPath, 0, [params.start.value]))
  {
    var error := ParamsError(params);
    if error.Some? {
      return Failure(error.value);
    }
    var timeout := if params.timeout.None? then Infinity else params.timeout.value;
    var hash := if params.hash.Some? then params.hash.value else DefaultHash(toString);
    var search := new Search(params.isEnd.value, params.neighbor.value, params.distance.value,
                             params.heuristic.value, hash, params.start.value);
    var outcome := search.Run(timeout, elapsed, budget);
    match outcome {
      case Some(result) =>
        r := Success(result);
      case None =>
        r := Failure("iteration budget exhausted");
    }
  }
}
