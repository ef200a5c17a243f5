/**
 The planner's bounded breadth-first search, over an arbitrary labelled graph
 on words, and its instance for seed runways.
 */
module Search {
  import opened Words

  datatype RouteStep = RouteStep(op: char, value: Word)
  datatype Edge = Edge(to: Word, step: RouteStep)
  datatype Node = Node(value: Word, steps: seq<RouteStep>)
  type Graph = Word -> seq<Edge>

  datatype Query = Query(edges: Graph, hit: Word -> bool, maxDepth: nat, limit: nat, allowEmpty: bool)
  datatype Result = Result(found: seq<Node>, seen: set<Word>)

  function WordsBelow(n: nat): (r: set<Word>)
    requires n <= WORD_MOD
    ensures forall w: Word :: w in r <==> w < n
  {
    if n == 0 then {} else WordsBelow(n - 1) + {n - 1}
  }

  function AllWords(): (r: set<Word>)
    ensures forall w: Word :: w in r
  {
    WordsBelow(WORD_MOD)
  }

  /** Enqueue the unseen targets of the edges, in edge order. */
  function Expand(node: Node, edges: seq<Edge>, queue: seq<Node>, seen: set<Word>): (r: (seq<Node>, set<Word>))
    ensures seen <= r.1
    ensures r.1 == seen ==> r.0 == queue
  {
    if edges == [] then (queue, seen)
    else
      var e := edges[0];
      if e.to in seen then Expand(node, edges[1..], queue, seen)
      else Expand(node, edges[1..], queue + [Node(e.to, node.steps + [e.step])], seen + {e.to})
  }

  function Bfs(q: Query, queue: seq<Node>, seen: set<Word>, found: seq<Node>): Result
    decreases AllWords() - seen, |queue|
  {
    if queue == [] || |found| >= q.limit then Result(found, seen)
    else
      var node := queue[0];
      if q.hit(node.value) && (q.allowEmpty || node.steps != []) then Bfs(q, queue[1..], seen, found + [node])
      else if |node.steps| >= q.maxDepth then Bfs(q, queue[1..], seen, found)
      else
        var (queue', seen') := Expand(node, q.edges(node.value), queue[1..], seen);
        assert seen' != seen ==> AllWords() - seen' < AllWords() - seen by {
          if seen' != seen {
            var w :| w in seen' && w !in seen;
            assert w in AllWords() - seen;
          }
        }
        Bfs(q, queue', seen', found)
  }

  function BfsFind(q: Query, start: Word): Result {
    Bfs(q, [Node(start, [])], {start}, [])
  }

  /** The search as the planner runs it: a queue and a seen set updated in place. */
  method BfsLoop(q: Query, start: Word) returns (found: seq<Node>, seen: set<Word>)
    ensures Result(found, seen) == BfsFind(q, start)
  {
    var queue := [Node(start, [])];
    seen, found := {start}, [];
    while queue != [] && |found| < q.limit
      invariant Bfs(q, queue, seen, found) == BfsFind(q, start)
      decreases AllWords() - seen, |queue|
    {
      var node := queue[0];
      ghost var queue0, seen0 := queue, seen;
      queue := queue[1..];
      if q.hit(node.value) && (q.allowEmpty || node.steps != []) {
        found := found + [node];
      } else if |node.steps| < q.maxDepth {
        var edges := q.edges(node.value);
        ghost var rest := queue;
        var i := 0;
        while i < |edges|
          invariant 0 <= i <= |edges|
          invariant Expand(node, edges[i..], queue, seen) == Expand(node, edges, rest, seen0)
          invariant seen0 <= seen && (seen == seen0 ==> queue == rest)
        {
          var e := edges[i];
          assert edges[i..][0] == e && edges[i..][1..] == edges[i + 1..];
          if e.to !in seen {
            seen := seen + {e.to};
            queue := queue + [Node(e.to, node.steps + [e.step])];
          }
          i := i + 1;
        }
        if seen != seen0 {
          var w :| w in seen && w !in seen0;
          assert w in AllWords() - seen0;
          assert AllWords() - seen < AllWords() - seen0;
        }
      }
    }
  }

  // ----- paths -----

  ghost predicate HasEdge(g: Graph, a: Word, b: Word) {
    exists k :: 0 <= k < |g(a)| && g(a)[k].to == b
  }

  /** `to` is reachable from `start` by exactly n edges. */
  ghost predicate Reach(g: Graph, start: Word, to: Word, n: nat)
    decreases n
  {
    if n == 0 then to == start
    else exists mid: Word :: Reach(g, start, mid, n - 1) && HasEdge(g, mid, to)
  }

  /** The labels spell a path from `start` to `to`. */
  ghost predicate Follows(g: Graph, start: Word, steps: seq<RouteStep>, to: Word)
    decreases |steps|
  {
    if steps == [] then to == start
    else exists mid: Word :: Follows(g, start, steps[..|steps| - 1], mid) && Edge(to, steps[|steps| - 1]) in g(mid)
  }

  lemma {:induction false} FollowsReach(g: Graph, start: Word, steps: seq<RouteStep>, to: Word)
    requires Follows(g, start, steps, to)
    ensures Reach(g, start, to, |steps|)
    decreases |steps|
  {
    if steps != [] {
      var mid: Word :| Follows(g, start, steps[..|steps| - 1], mid) && Edge(to, steps[|steps| - 1]) in g(mid);
      FollowsReach(g, start, steps[..|steps| - 1], mid);
      var k :| 0 <= k < |g(mid)| && g(mid)[k] == Edge(to, steps[|steps| - 1]);
      assert HasEdge(g, mid, to);
    }
  }

  // ----- the search invariant -----

  predicate Queued(queue: seq<Node>, v: Word) {
    exists k :: 0 <= k < |queue| && queue[k].value == v
  }

  /** Every queued node is a path to a seen word; depths are d or d+1, in order; no word is queued twice. */
  ghost predicate QueueOk(q: Query, start: Word, queue: seq<Node>, depth: map<Word, nat>, d: nat) {
    (forall k :: 0 <= k < |queue| ==>
       var n := queue[k];
       n.value in depth && depth[n.value] == |n.steps| && d <= |n.steps| <= d + 1 && |n.steps| <= q.maxDepth
       && Follows(q.edges, start, n.steps, n.value))
    && (forall i, j :: 0 <= i < j < |queue| ==>
          |queue[i].steps| <= |queue[j].steps| && queue[i].value != queue[j].value)
  }

  /** A finished word missed the target, and within the depth bound all its successors are seen, at most one deeper. */
  ghost predicate Finished(q: Query, v: Word, depth: map<Word, nat>, d: nat)
    requires v in depth
  {
    !q.hit(v) && depth[v] <= d
    && (depth[v] < q.maxDepth ==>
          forall k :: 0 <= k < |q.edges(v)| ==>
            q.edges(v)[k].to in depth && depth[q.edges(v)[k].to] <= depth[v] + 1)
  }

  ghost predicate Inv(q: Query, start: Word, queue: seq<Node>, depth: map<Word, nat>, d: nat, open: set<Word>) {
    start in depth && depth[start] == 0
    && QueueOk(q, start, queue, depth, d)
    && (forall v: Word :: v in depth && v !in open && !Queued(queue, v) ==> Finished(q, v, depth, d))
  }

  lemma {:induction false} ExpandKeeps(q: Query, start: Word, node: Node, i: nat, queue: seq<Node>,
                                       depth: map<Word, nat>)
    returns (depth': map<Word, nat>)
    requires i <= |q.edges(node.value)| && |node.steps| < q.maxDepth
    requires node.value in depth && depth[node.value] == |node.steps| && !Queued(queue, node.value)
    requires Follows(q.edges, start, node.steps, node.value)
    requires Inv(q, start, queue, depth, |node.steps|, {node.value})
    requires forall k :: 0 <= k < i ==>
               q.edges(node.value)[k].to in depth && depth[q.edges(node.value)[k].to] <= |node.steps| + 1
    ensures var r := Expand(node, q.edges(node.value)[i..], queue, depth.Keys);
            depth'.Keys == r.1
            && node.value in depth' && depth'[node.value] == |node.steps| && !Queued(r.0, node.value)
            && Inv(q, start, r.0, depth', |node.steps|, {node.value})
            && forall k :: 0 <= k < |q.edges(node.value)| ==>
                 q.edges(node.value)[k].to in depth' && depth'[q.edges(node.value)[k].to] <= |node.steps| + 1
    decreases |q.edges(node.value)| - i
  {
    var edges := q.edges(node.value);
    if i == |edges| {
      depth' := depth;
    } else {
      var e := edges[i];
      assert edges[i..][0] == e && edges[i..][1..] == edges[i + 1..];
      if e.to in depth {
        AnyDepth(q, start, queue, depth, |node.steps|, node.value, e.to);
        depth' := ExpandKeeps(q, start, node, i + 1, queue, depth);
      } else {
        var n := Node(e.to, node.steps + [e.step]);
        var queue1, depth1 := queue + [n], depth[e.to := |node.steps| + 1];
        assert n.steps[..|n.steps| - 1] == node.steps && Edge(e.to, e.step) in q.edges(node.value);
        assert Follows(q.edges, start, n.steps, n.value);
        PushKeeps(q, start, queue, depth, |node.steps|, node.value, n);
        assert depth1.Keys == depth.Keys + {e.to};
        depth' := ExpandKeeps(q, start, node, i + 1, queue1, depth1);
      }
    }
  }

  /** Every seen word lies within one level of the word being expanded. */
  lemma AnyDepth(q: Query, start: Word, queue: seq<Node>, depth: map<Word, nat>, d: nat, v: Word, w: Word)
    requires Inv(q, start, queue, depth, d, {v}) && v in depth && depth[v] == d && w in depth
    ensures depth[w] <= d + 1
  {
    if w != v && !Queued(queue, w) {
      assert Finished(q, w, depth, d);
    }
  }

  lemma PushQueue(q: Query, start: Word, queue: seq<Node>, depth: map<Word, nat>, d: nat, n: Node)
    requires QueueOk(q, start, queue, depth, d)
    requires n.value !in depth && |n.steps| == d + 1 <= q.maxDepth && Follows(q.edges, start, n.steps, n.value)
    ensures QueueOk(q, start, queue + [n], depth[n.value := d + 1], d)
  {
    hide Follows;
    var queue1 := queue + [n];
    assert forall k :: 0 <= k < |queue| ==> queue1[k] == queue[k];
    assert queue1[|queue|] == n;
  }

  lemma QueuedAppend(queue: seq<Node>, n: Node, w: Word)
    ensures Queued(queue + [n], w) <==> Queued(queue, w) || w == n.value
  {
    var queue1 := queue + [n];
    if Queued(queue, w) {
      var k :| 0 <= k < |queue| && queue[k].value == w;
      assert queue1[k].value == w;
    }
    assert queue1[|queue|] == n;
  }

  lemma PushKeeps(q: Query, start: Word, queue: seq<Node>, depth: map<Word, nat>, d: nat, v: Word, n: Node)
    requires Inv(q, start, queue, depth, d, {v}) && v in depth && depth[v] == d && !Queued(queue, v)
    requires n.value !in depth && |n.steps| == d + 1 <= q.maxDepth && Follows(q.edges, start, n.steps, n.value)
    ensures Inv(q, start, queue + [n], depth[n.value := d + 1], d, {v})
    ensures !Queued(queue + [n], v)
  {
    hide QueueOk, Queued, Follows;
    var depth1 := depth[n.value := d + 1];
    PushQueue(q, start, queue, depth, d, n);
    forall w: Word
      ensures Queued(queue + [n], w) <==> Queued(queue, w) || w == n.value
    {
      QueuedAppend(queue, n, w);
    }
    forall w: Word | w in depth1 && w != v && !Queued(queue + [n], w)
      ensures Finished(q, w, depth1, d)
    {
      assert Finished(q, w, depth, d);
    }
  }

  /**
   With the frontier at depth d, every word within fewer edges than d (or than the bound,
   once the queue is empty) is finished.
   */
  lemma {:induction false} NearWordsSeen(q: Query, start: Word, queue: seq<Node>, depth: map<Word, nat>, d: nat,
                                         v: Word, n: nat)
    requires Inv(q, start, queue, depth, d, {})
    requires n <= q.maxDepth && (queue != [] ==> n < |queue[0].steps|)
    requires Reach(q.edges, start, v, n)
    ensures v in depth && depth[v] <= n && !q.hit(v)
    decreases n
  {
    if n > 0 {
      var mid: Word :| Reach(q.edges, start, mid, n - 1) && HasEdge(q.edges, mid, v);
      NearWordsSeen(q, start, queue, depth, d, mid, n - 1);
      NotQueued(q, start, queue, depth, d, mid);
    }
    NotQueued(q, start, queue, depth, d, v);
  }

  lemma NotQueued(q: Query, start: Word, queue: seq<Node>, depth: map<Word, nat>, d: nat, v: Word)
    requires Inv(q, start, queue, depth, d, {}) && v in depth
    requires queue != [] ==> depth[v] < |queue[0].steps|
    ensures Finished(q, v, depth, d)
  {
    assert forall k :: 0 <= k < |queue| ==> |queue[0].steps| <= |queue[k].steps|;
  }

  /** No word satisfying the query is fewer than n edges from the start. */
  ghost predicate NoneWithin(q: Query, start: Word, n: nat) {
    forall v: Word, k: nat :: k < n && Reach(q.edges, start, v, k) ==> !q.hit(v)
  }

  ghost predicate BestOrNone(q: Query, start: Word, found: seq<Node>) {
    if found == [] then NoneWithin(q, start, q.maxDepth + 1)
    else
      |found| == 1 && q.hit(found[0].value) && |found[0].steps| <= q.maxDepth
      && Follows(q.edges, start, found[0].steps, found[0].value)
      && NoneWithin(q, start, |found[0].steps|)
  }

  lemma {:induction false} BfsKeeps(q: Query, start: Word, queue: seq<Node>, depth: map<Word, nat>, d: nat)
    requires q.limit == 1 && q.allowEmpty
    requires Inv(q, start, queue, depth, d, {})
    ensures BestOrNone(q, start, Bfs(q, queue, depth.Keys, []).found)
    decreases AllWords() - depth.Keys, |queue|
  {
    if queue == [] {
      forall v: Word, k: nat | k < q.maxDepth + 1 && Reach(q.edges, start, v, k)
        ensures !q.hit(v)
      {
        NearWordsSeen(q, start, queue, depth, d, v, k);
      }
    } else {
      var node := queue[0];
      if q.hit(node.value) {
        forall v: Word, k: nat | k < |node.steps| && Reach(q.edges, start, v, k)
          ensures !q.hit(v)
        {
          NearWordsSeen(q, start, queue, depth, d, v, k);
        }
        assert Bfs(q, queue, depth.Keys, []).found == [node];
      } else {
        PopKeeps(q, start, queue, depth, d);
        if |node.steps| >= q.maxDepth {
          CloseNode(q, start, node, queue[1..], depth);
          BfsKeeps(q, start, queue[1..], depth, |node.steps|);
        } else {
          var edges := q.edges(node.value);
          assert edges[0..] == edges;
          var depth' := ExpandKeeps(q, start, node, 0, queue[1..], depth);
          var r := Expand(node, edges, queue[1..], depth.Keys);
          CloseNode(q, start, node, r.0, depth');
          if r.1 != depth.Keys {
            var w :| w in r.1 && w !in depth.Keys;
            assert w in AllWords() - depth.Keys;
          }
          BfsKeeps(q, start, r.0, depth', |node.steps|);
        }
      }
    }
  }

  lemma StillQueued(queue: seq<Node>, v: Word)
    requires queue != [] && Queued(queue, v) && v != queue[0].value
    ensures Queued(queue[1..], v)
  {
    var k :| 0 <= k < |queue| && queue[k].value == v;
    assert queue[1..][k - 1] == queue[k];
  }

  lemma PopQueue(q: Query, start: Word, queue: seq<Node>, depth: map<Word, nat>, d: nat)
    requires QueueOk(q, start, queue, depth, d) && queue != []
    ensures QueueOk(q, start, queue[1..], depth, |queue[0].steps|) && !Queued(queue[1..], queue[0].value)
            && d <= |queue[0].steps|
  {
    hide Follows;
    var rest := queue[1..];
    assert forall k :: 0 <= k < |rest| ==> rest[k] == queue[k + 1];
  }

  lemma PopKeeps(q: Query, start: Word, queue: seq<Node>, depth: map<Word, nat>, d: nat)
    requires Inv(q, start, queue, depth, d, {}) && queue != []
    ensures Inv(q, start, queue[1..], depth, |queue[0].steps|, {queue[0].value})
    ensures !Queued(queue[1..], queue[0].value)
  {
    hide QueueOk, Queued;
    PopQueue(q, start, queue, depth, d);
    forall v: Word | v in depth && v != queue[0].value && !Queued(queue[1..], v)
      ensures Finished(q, v, depth, |queue[0].steps|)
    {
      if Queued(queue, v) {
        StillQueued(queue, v);
      }
      assert Finished(q, v, depth, d);
    }
  }

  lemma CloseNode(q: Query, start: Word, node: Node, queue: seq<Node>, depth: map<Word, nat>)
    requires node.value in depth && depth[node.value] == |node.steps| && !q.hit(node.value)
    requires Inv(q, start, queue, depth, |node.steps|, {node.value})
    requires |node.steps| < q.maxDepth ==>
               forall k :: 0 <= k < |q.edges(node.value)| ==>
                 q.edges(node.value)[k].to in depth && depth[q.edges(node.value)[k].to] <= |node.steps| + 1
    ensures Inv(q, start, queue, depth, |node.steps|, {})
  {
  }

  /**
   The search asked for one solution, the empty path allowed: it returns a path
   to a satisfying word that is as short as any, or nothing exactly when no
   satisfying word lies within the depth bound.
   */
  lemma BfsShortest(q: Query, start: Word)
    requires q.limit == 1 && q.allowEmpty
    ensures BestOrNone(q, start, BfsFind(q, start).found)
  {
    var depth: map<Word, nat> := map[start := 0];
    var queue := [Node(start, [])];
    assert queue[0].value == start;
    assert depth.Keys == {start};
    BfsKeeps(q, start, queue, depth, 0);
  }

  // ----- seed runways -----

  /** What one runway step leaves in A: p combines A with the seed, * rotates the seed. */
  function StepResult(a: Word, step: RouteStep): Word {
    if step.op == 'p' then Crazy(a, step.value) else RotateRight(step.value)
  }

  function RunwayResult(a: Word, steps: seq<RouteStep>): Word
    decreases |steps|
  {
    if steps == [] then a else StepResult(RunwayResult(a, steps[..|steps| - 1]), steps[|steps| - 1])
  }

  function RunwayEdges(a: Word, constants: seq<Word>): seq<Edge> {
    seq(|constants|, i requires 0 <= i < |constants| => Edge(Crazy(a, constants[i]), RouteStep('p', constants[i])))
    + seq(|constants|, i requires 0 <= i < |constants| => Edge(RotateRight(constants[i]), RouteStep('*', constants[i])))
  }

  function RunwayGraph(constants: seq<Word>): Graph {
    (a: Word) => RunwayEdges(a, constants)
  }

  predicate RunwayStep(step: RouteStep, constants: seq<Word>) {
    (step.op == 'p' || step.op == '*') && step.value in constants
  }

  lemma {:induction false} FollowsRunway(constants: seq<Word>, start: Word, steps: seq<RouteStep>, to: Word)
    requires Follows(RunwayGraph(constants), start, steps, to)
    ensures RunwayResult(start, steps) == to
    ensures forall k :: 0 <= k < |steps| ==> RunwayStep(steps[k], constants)
    decreases |steps|
  {
    hide Crazy, RotateRight;
    if steps != [] {
      var g := RunwayGraph(constants);
      var last := steps[|steps| - 1];
      var mid: Word :| Follows(g, start, steps[..|steps| - 1], mid) && Edge(to, last) in g(mid);
      FollowsRunway(constants, start, steps[..|steps| - 1], mid);
      var k :| 0 <= k < |g(mid)| && g(mid)[k] == Edge(to, last);
      forall j | 0 <= j < |steps|
        ensures RunwayStep(steps[j], constants)
      {
        assert j < |steps| - 1 ==> steps[..|steps| - 1][j] == steps[j];
      }
    }
  }

  function MaskQuery(constants: seq<Word>, mask: Word, maxDepth: nat): Query {
    Query(RunwayGraph(constants), w => w == mask, maxDepth, 1, true)
  }

  /** Tries the masks in order and returns the runway for the first one the search reaches. */
  function PlanForMasks(start: Word, masks: seq<Word>, maxDepth: nat, constants: seq<Word>): Option<Node> {
    if masks == [] then None
    else
      var found := BfsFind(MaskQuery(constants, masks[0], maxDepth), start).found;
      if found != [] then Some(found[0]) else PlanForMasks(start, masks[1..], maxDepth, constants)
  }

  method FindRunwayPlanForMasks(start: Word, masks: seq<Word>, maxDepth: nat, constants: seq<Word>)
    returns (r: Option<Node>)
    ensures r == PlanForMasks(start, masks, maxDepth, constants)
  {
    for i := 0 to |masks|
      invariant PlanForMasks(start, masks[i..], maxDepth, constants) == PlanForMasks(start, masks, maxDepth, constants)
    {
      assert masks[i..][0] == masks[i] && masks[i..][1..] == masks[i + 1..];
      var found, _ := BfsLoop(MaskQuery(constants, masks[i], maxDepth), start);
      if found != [] {
        return Some(found[0]);
      }
    }
    r := None;
  }

  ghost predicate Reachable(constants: seq<Word>, start: Word, to: Word, maxDepth: nat) {
    exists n: nat :: n <= maxDepth && Reach(RunwayGraph(constants), start, to, n)
  }

  /** Mask number i is reachable, no earlier one is, and the node is a shortest runway to it. */
  ghost predicate BestPlan(start: Word, masks: seq<Word>, maxDepth: nat, constants: seq<Word>, node: Node, i: nat) {
    i < |masks| && node.value == masks[i]
    && (forall k :: 0 <= k < i ==> !Reachable(constants, start, masks[k], maxDepth))
    && RunwayResult(start, node.steps) == masks[i]
    && |node.steps| <= maxDepth
    && (forall k :: 0 <= k < |node.steps| ==> RunwayStep(node.steps[k], constants))
    && (forall n: nat :: n < |node.steps| ==> !Reach(RunwayGraph(constants), start, masks[i], n))
  }

  /**
   The chosen mask is the first of the list that any runway within the bound
   reaches, the runway drives A to it and is as short as any, and there is no
   plan exactly when no mask of the list is reachable.
   */
  lemma {:induction false} FirstReachableMask(start: Word, masks: seq<Word>, maxDepth: nat, constants: seq<Word>)
    returns (i: nat)
    ensures var r := PlanForMasks(start, masks, maxDepth, constants);
            (r.None? ==> forall k :: 0 <= k < |masks| ==> !Reachable(constants, start, masks[k], maxDepth))
            && (r.Some? ==> BestPlan(start, masks, maxDepth, constants, r.value, i)
                            && Reachable(constants, start, masks[i], maxDepth))
    decreases |masks|
  {
    hide Reach, Follows, RunwayResult, Bfs;
    i := 0;
    if masks != [] {
      var q := MaskQuery(constants, masks[0], maxDepth);
      var found := BfsFind(q, start).found;
      BfsShortest(q, start);
      if found != [] {
        FollowsRunway(constants, start, found[0].steps, found[0].value);
        FollowsReach(q.edges, start, found[0].steps, found[0].value);
      } else {
        i := FirstReachableMask(start, masks[1..], maxDepth, constants);
        i := i + 1;
        assert forall k :: 0 < k < |masks| ==> masks[k] == masks[1..][k - 1];
      }
    }
  }
}
