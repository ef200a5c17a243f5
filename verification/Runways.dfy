/**
 The runway search over step lists.  A step combines A with a seed or rotates
 a seed; the search is complete, shortest and first over all lists of steps,
 without reference to the graph it walks.
 */
module Runways {
  import opened Words
  import opened Search

  /** A list of allowed steps: `p` or `*` with a seed among the constants. */
  predicate AllowedSteps(steps: seq<RouteStep>, constants: seq<Word>) {
    forall k :: 0 <= k < |steps| ==> (steps[k].op == 'p' || steps[k].op == '*') && steps[k].value in constants
  }

  /** A after the steps, first step first. */
  function After(a: Word, steps: seq<RouteStep>): Word
    decreases |steps|
  {
    if steps == [] then a
    else After(if steps[0].op == 'p' then Crazy(a, steps[0].value) else RotateRight(steps[0].value), steps[1..])
  }

  lemma {:induction false} AfterLast(a: Word, steps: seq<RouteStep>, last: RouteStep)
    ensures After(a, steps + [last])
         == if last.op == 'p' then Crazy(After(a, steps), last.value) else RotateRight(last.value)
    decreases |steps|
  {
    hide Crazy, RotateRight;
    if steps == [] {
      assert [last][1..] == [] && [] + [last] == [last];
    } else {
      assert (steps + [last])[0] == steps[0] && (steps + [last])[1..] == steps[1..] + [last];
      AfterLast(if steps[0].op == 'p' then Crazy(a, steps[0].value) else RotateRight(steps[0].value), steps[1..], last);
    }
  }

  lemma {:induction false} AfterIsResult(a: Word, steps: seq<RouteStep>)
    ensures After(a, steps) == RunwayResult(a, steps)
    decreases |steps|
  {
    hide Crazy, RotateRight, After;
    if steps != [] {
      var front, last := steps[..|steps| - 1], steps[|steps| - 1];
      assert steps == front + [last];
      AfterIsResult(a, front);
      AfterLast(a, front, last);
    } else {
      assert After(a, []) == a by { AfterNothing(a); }
    }
  }

  lemma AfterNothing(a: Word)
    ensures After(a, []) == a
  {
  }

  /** The edges out of a word: every seed combined, then every seed rotated. */
  lemma EdgesInOrder(a: Word, constants: seq<Word>, i: nat)
    requires i < |constants|
    ensures |RunwayEdges(a, constants)| == 2 * |constants|
    ensures RunwayEdges(a, constants)[i] == Edge(Crazy(a, constants[i]), RouteStep('p', constants[i]))
    ensures RunwayEdges(a, constants)[|constants| + i] == Edge(RotateRight(constants[i]), RouteStep('*', constants[i]))
  {
  }

  /** Every allowed list is a path of the graph. */
  lemma {:induction false} StepsReach(constants: seq<Word>, start: Word, steps: seq<RouteStep>)
    requires AllowedSteps(steps, constants)
    ensures Reach(RunwayGraph(constants), start, RunwayResult(start, steps), |steps|)
    decreases |steps|
  {
    hide Crazy, RotateRight, RunwayEdges;
    if steps != [] {
      var front, last := steps[..|steps| - 1], steps[|steps| - 1];
      StepsReach(constants, start, front);
      var mid := RunwayResult(start, front);
      assert last.value in constants by { assert steps[|steps| - 1].value in constants; }
      var i :| 0 <= i < |constants| && constants[i] == last.value;
      EdgesInOrder(mid, constants, i);
      EdgeTo(constants, mid, last, i);
    }
  }

  lemma EdgeTo(constants: seq<Word>, mid: Word, step: RouteStep, i: nat)
    requires i < |constants| && constants[i] == step.value && (step.op == 'p' || step.op == '*')
    ensures HasEdge(RunwayGraph(constants), mid, StepResult(mid, step))
  {
    hide Crazy, RotateRight;
    var k := if step.op == 'p' then i else |constants| + i;
    assert RunwayGraph(constants)(mid)[k].to == StepResult(mid, step);
  }

  /** No list within the depth ends in the word. */
  ghost predicate OutOfReach(start: Word, to: Word, maxDepth: int, constants: seq<Word>) {
    forall steps: seq<RouteStep> :: |steps| <= maxDepth && AllowedSteps(steps, constants) ==> After(start, steps) != to
  }

  lemma Unreachable(start: Word, to: Word, maxDepth: nat, constants: seq<Word>)
    requires forall n: nat :: n <= maxDepth ==> !Reach(RunwayGraph(constants), start, to, n)
    ensures OutOfReach(start, to, maxDepth, constants)
  {
    hide Reach, After, RunwayResult;
    forall steps: seq<RouteStep> | |steps| <= maxDepth && AllowedSteps(steps, constants)
      ensures After(start, steps) != to
    {
      StepsReach(constants, start, steps);
      AfterIsResult(start, steps);
    }
  }

  /**
   The search, decided.  It fails exactly when no allowed list within the
   depth reaches any mask; what it returns is such a list, to the first mask any
   of them reaches, and no shorter one reaches that mask.
   */
  lemma SearchExactly(start: Word, masks: seq<Word>, maxDepth: nat, constants: seq<Word>)
    ensures var r := PlanForMasks(start, masks, maxDepth, constants);
            (r.None? <==> forall i :: 0 <= i < |masks| ==> OutOfReach(start, masks[i], maxDepth, constants))
            && (r.Some? ==>
                  var steps := r.value.steps;
                  AllowedSteps(steps, constants) && |steps| <= maxDepth && After(start, steps) == r.value.value
                  && OutOfReach(start, r.value.value, |steps| - 1, constants)
                  && exists i :: 0 <= i < |masks| && masks[i] == r.value.value
                                 && forall j :: 0 <= j < i ==> OutOfReach(start, masks[j], maxDepth, constants))
  {
    hide Reach, After, RunwayResult, PlanForMasks, OutOfReach, AllowedSteps;
    var r := PlanForMasks(start, masks, maxDepth, constants);
    var i := FirstReachableMask(start, masks, maxDepth, constants);
    if r.None? {
      forall k | 0 <= k < |masks|
        ensures OutOfReach(start, masks[k], maxDepth, constants)
      {
        NotReachable(start, masks[k], maxDepth, constants);
      }
    } else {
      var steps := r.value.steps;
      StepsAllowed(steps, constants);
      AfterIsResult(start, steps);
      Shorter(start, masks[i], steps, constants);
      forall j | 0 <= j < i
        ensures OutOfReach(start, masks[j], maxDepth, constants)
      {
        NotReachable(start, masks[j], maxDepth, constants);
      }
      Found(start, masks[i], steps, maxDepth, constants);
    }
  }

  lemma Found(start: Word, to: Word, steps: seq<RouteStep>, maxDepth: nat, constants: seq<Word>)
    requires AllowedSteps(steps, constants) && |steps| <= maxDepth && After(start, steps) == to
    ensures !OutOfReach(start, to, maxDepth, constants)
  {
    hide After, AllowedSteps;
  }

  lemma StepsAllowed(steps: seq<RouteStep>, constants: seq<Word>)
    requires forall k :: 0 <= k < |steps| ==> RunwayStep(steps[k], constants)
    ensures AllowedSteps(steps, constants)
  {
  }

  lemma NotReachable(start: Word, to: Word, maxDepth: nat, constants: seq<Word>)
    requires !Reachable(constants, start, to, maxDepth)
    ensures OutOfReach(start, to, maxDepth, constants)
  {
    hide Reach, OutOfReach;
    forall n: nat | n <= maxDepth
      ensures !Reach(RunwayGraph(constants), start, to, n)
    {
    }
    Unreachable(start, to, maxDepth, constants);
  }

  lemma Shorter(start: Word, to: Word, steps: seq<RouteStep>, constants: seq<Word>)
    requires forall n: nat :: n < |steps| ==> !Reach(RunwayGraph(constants), start, to, n)
    ensures OutOfReach(start, to, |steps| - 1, constants)
  {
    hide Reach, After, AllowedSteps;
    if |steps| > 0 {
      Unreachable(start, to, |steps| - 1, constants);
    }
  }
}
