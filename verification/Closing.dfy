/**
 The planner's closing check, exactly.  The plan resets A, the search does not:
 a runway found from another accumulator is driven from zero, and the check
 fails precisely when that misses the mask.
 */
module Closing {
  import opened Words
  import opened Frames
  import opened Inversion
  import opened Search
  import opened Planner
  import opened Straight
  import opened Ritual
  import opened Ceremony

  /** The layout's own conditions: padding exists, the block ends below the arguments, live targets are clear. */
  predicate Placeable(r: Request, node: Node, a: seq<ChainStep>, b: seq<ChainStep>) {
    var junk := LeastJunk(r.dEntry, r.cellBase, PairTotal(r, node, a, b), PairCount(r, node, a, b), 0);
    junk.Some?
    && var p := Draft(r, node, a, b, junk.value);
       p.blockStart + BlockPairs(p) - 1 < ABI_ARGC
       && (p.cellAddr.Some? ==>
             LiveCheck(LiveTargets(p.cellAddr.value, p.neighbors), p.cellBase, p.cellBase + p.CellCount(), p.blockStart,
                       BlockPairs(p)) == None)
  }

  /** From A = 0 the runway makes the accumulator rewrite the value into its successor. */
  predicate DrivesHome(node: Node, value: int) {
    Crazy(RunwayResult(0, node.steps), ModWord(value)) == ModWord(value + 1)
  }

  ghost predicate Prepared(r: Request, node: Node, a: seq<ChainStep>, b: seq<ChainStep>) {
    |r.ok| == 2 && Printable(r.ok[0]) && Printable(r.ok[1])
    && (forall k :: 0 <= k < |node.steps| ==> node.steps[k].op == 'p' || node.steps[k].op == '*')
    && IsChain(a, ModWord(r.value + 1), r.ok[0] as nat) && IsChain(b, ModWord(r.value + 1), r.ok[1] as nat)
  }

  /** Outcomes of the layout stage: placement is refused, or only simulation and closing check remain. */
  lemma PlacedOrRefused(r: Request, node: Node, a: seq<ChainStep>, b: seq<ChainStep>)
    requires |r.ok| == 2
    ensures Placeable(r, node, a, b) <==>
            LayOut(r, node, a, b).Ok? || LayOut(r, node, a, b).reason in {Mismatch, Untracked}
  {
    hide TrackAt, LeastJunk, SetupOps, RitualOps, Pairs, LiveCheck, KnownAtStart, SizeAll, BlockValues, Neighbors,
         AllTracked;
    forall targets: seq<nat>, lo: nat, hi: nat, blockStart: nat, pairs: nat
      ensures LiveCheck(targets, lo, hi, blockStart, pairs) !in {Some(Mismatch), Some(Untracked)}
    {
      LiveTargetsNoComplaint(targets, lo, hi, blockStart, pairs);
    }
  }

  /** The layout stage, decided: it succeeds or fails its closing check according to the runway driven from zero. */
  lemma LayOutExactly(r: Request, node: Node, a: seq<ChainStep>, b: seq<ChainStep>)
    requires Prepared(r, node, a, b)
    ensures LayOut(r, node, a, b).Ok? <==> Placeable(r, node, a, b) && DrivesHome(node, r.value)
    ensures LayOut(r, node, a, b) == Fail(Mismatch) <==> Placeable(r, node, a, b) && !DrivesHome(node, r.value)
  {
    hide LayOut, WellLaid, IsChain, RunwayResult, Crazy, BlockValues, Neighbors, LeastJunk, SetupOps, RitualOps,
         Placeable, TrackAt, AllTracked;
    PlacedOrRefused(r, node, a, b);
    if Placeable(r, node, a, b) {
      var p := LayOutDraft(r, node, a, b);
      NeverUntracked(r, node, a, b);
      AtFinal(p, r.startA);
      DraftCarries(r, node, a, b, p.junk);
    }
  }

  /**
   The planner, decided.  Once the search has found a runway, the plan is
   returned if and only if it can be placed and the runway drives home from
   zero, and the closing check fails if and only if it can be placed and the
   runway does not.
   */
  lemma ClosingExactly(r: Request, node: Node)
    requires |r.ok| == 2 && Printable(r.ok[0]) && Printable(r.ok[1])
    requires Possible(Choices(ModWord(r.value), ModWord(r.value + 1), TRITS))
    requires PlanForMasks(ModWord(r.startA), SearchMasks(ModWord(r.value), ModWord(r.value + 1), r.maskLimit),
                          r.maxDepth, RequestConstants(r)) == Some(node)
    ensures var a, b := ChainToTarget(ModWord(r.value + 1), r.ok[0] as nat, TRITS),
                        ChainToTarget(ModWord(r.value + 1), r.ok[1] as nat, TRITS);
            a.Some? && b.Some?
            && (PlanEntry(r).Ok? <==> Placeable(r, node, a.value, b.value) && DrivesHome(node, r.value))
            && (PlanEntry(r) == Fail(Mismatch) <==> Placeable(r, node, a.value, b.value) && !DrivesHome(node, r.value))
  {
    hide LayOut, PlanForMasks, SearchMasks, RequestConstants, ChainToTarget, Choices, Placeable, DrivesHome, IsChain;
    var target := ModWord(r.value + 1);
    PlannedChain(target, r.ok[0] as nat);
    PlannedChain(target, r.ok[1] as nat);
    var a, b := ChainToTarget(target, r.ok[0] as nat, TRITS).value, ChainToTarget(target, r.ok[1] as nat, TRITS).value;
    RunwayOpsOk(r, node);
    LayOutExactly(r, node, a, b);
  }

  lemma RunwayOpsOk(r: Request, node: Node)
    requires PlanForMasks(ModWord(r.startA), SearchMasks(ModWord(r.value), ModWord(r.value + 1), r.maskLimit),
                          r.maxDepth, RequestConstants(r)) == Some(node)
    ensures forall k :: 0 <= k < |node.steps| ==> node.steps[k].op == 'p' || node.steps[k].op == '*'
  {
    hide PlanForMasks, SearchMasks, RequestConstants, RunwayResult, Reach;
    var masks, constants := SearchMasks(ModWord(r.value), ModWord(r.value + 1), r.maskLimit), RequestConstants(r);
    var i := FirstReachableMask(ModWord(r.startA), masks, r.maxDepth, constants);
    assert forall k :: 0 <= k < |node.steps| ==> RunwayStep(node.steps[k], constants);
  }

  // ----- a request that fails it -----

  /** All trits one. */
  function Ones(width: nat): nat {
    if width == 0 then 0 else 1 + 3 * Ones(width - 1)
  }

  lemma {:induction false} OnesBlank(width: nat)
    ensures CrazyW(Ones(width), 0, width) == 0
  {
    if width > 0 {
      OnesBlank(width - 1);
    }
  }

  /** Over zero data a zero result needs every accumulator trit to be one or two. */
  lemma {:induction false} BlankNeedsOnes(m: nat, width: nat)
    requires CrazyW(m, 0, width) == 0
    ensures m >= Ones(width)
  {
    if width > 0 {
      BlankNeedsOnes(m / 3, width - 1);
    }
  }

  lemma NineOnes()
    ensures Ones(9) == 9841
  {
    assert Ones(4) == 40;
    assert Ones(9) == 121 + 243 * Ones(4);
  }

  /** Ten-trit masks from 0 to 1: the lowest trit zero, the others one or two. */
  lemma MaskShape(m: nat)
    ensures CrazyW(m, 0, TRITS) == 1 <==> m % 3 == 0 && CrazyW(m / 3, 0, 9) == 0
  {
    hide CrazyW;
    CrazyUnfold(m);
  }

  lemma CrazyUnfold(m: nat)
    ensures CrazyW(m, 0, TRITS) == Table(0, m % 3) + 3 * CrazyW(m / 3, 0, 9)
  {
  }

  /** The least mask from 0 to 1 is 29523. */
  lemma LeastMask()
    ensures var masks := Masks(0, 1, TRITS); masks != [] && masks[0] == 29523
    ensures Possible(Choices(0, 1, TRITS))
  {
    MasksMeanPossible();
    hide Choices, Possible, Ones, Masks, CrazyW, Pow3;
    NineOnes();
    OnesBlank(9);
    PowTen();
    MasksExact(0, 1, TRITS);
    var masks := Masks(0, 1, TRITS);
    MaskShape(29523);
    assert 29523 in masks;
    MaskShape(masks[0]);
    assert masks[0] in masks;
    BlankNeedsOnes(masks[0] / 3, 9);
    var k :| 0 <= k < |masks| && masks[k] == 29523;
    if k > 0 {
      assert false;
    }
  }

  lemma MasksMeanPossible()
    ensures Masks(0, 1, TRITS) != [] ==> Possible(Choices(0, 1, TRITS))
  {
    hide Choices, Possible, Sort, Values, Product;
  }

  lemma LeastSearched()
    ensures SearchMasks(0, 1, 16) != [] && SearchMasks(0, 1, 16)[0] == 29523
  {
    hide Masks;
    LeastMask();
    MaskWords(0, 1);
  }

  /** The command `plan-entry 0 --start-a 29523`. */
  function StartsOnMask(): Request {
    Request(0, "OK", 29523, 4, 16, None, 1, 6, None)
  }

  lemma EmptyRunway(masks: seq<Word>, maxDepth: nat, constants: seq<Word>)
    requires masks != []
    ensures PlanForMasks(masks[0], masks, maxDepth, constants) == Some(Node(masks[0], []))
  {
    var q := MaskQuery(constants, masks[0], maxDepth);
    var node := Node(masks[0], []);
    assert Bfs(q, [], {masks[0]}, [node]) == Result([node], {masks[0]});
    assert [node][1..] == [] && [] + [node] == [node];
  }

  lemma ShortBlock(r: Request, node: Node, a: seq<ChainStep>, b: seq<ChainStep>)
    requires r.cellAddr.None? && r.dEntry == 1 && r.cellBase == 6 && node.steps == [] && |a| <= 2 && |b| <= 2
    ensures Placeable(r, node, a, b)
  {
    hide SetupOps, RitualOps, KnownAtStart, LeastJunk, Rows, JunkWorks, LiveCheck;
    var total := PairTotal(r, node, a, b);
    LeastJunkMargin(r.dEntry, r.cellBase, total, PairCount(r, node, a, b), 0);
  }

  lemma ZeroMisses()
    ensures !DrivesHome(Node(29523, []), 0)
  {
    PowTen();
    assert CrazyW(0, 0, TRITS) % 3 == 1 && CrazyW(0, 0, TRITS) / 3 == CrazyW(0, 0, 9);
    assert CrazyW(0, 0, 9) % 3 == 1;
  }

  /**
   It fails the closing check: the search starts on the least mask and finds nothing to do,
   the plan starts from zero.
   */
  lemma StartOnMaskFails()
    ensures PlanEntry(StartsOnMask()) == Fail(Mismatch)
  {
    hide PlanEntry, PlanForMasks, SearchMasks, RequestConstants, ChainToTarget, Choices, Placeable, DrivesHome, IsChain,
         Possible, ModWord, Masks, PairTotal, LayOut;
    var r, node := StartsOnMask(), Node(29523, []);
    LeastMask();
    LeastSearched();
    SmallWord(0);
    SmallWord(1);
    SmallWord(29523);
    EmptyRunway(SearchMasks(0, 1, 16), 4, RequestConstants(r));
    ClosingExactly(r, node);
    PlannedChain(1, 'O' as nat);
    PlannedChain(1, 'K' as nat);
    var a, b := ChainToTarget(1, 'O' as nat, TRITS).value, ChainToTarget(1, 'K' as nat, TRITS).value;
    ChainLengths(a, b, 1, 'O' as nat, 'K' as nat);
    ShortBlock(r, node, a, b);
    ZeroMisses();
  }
}
