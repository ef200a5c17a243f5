/**
 Macros with room around them.  A macro whose code lies ahead of D and whose
 cells lie clear of code and arguments is planned exactly when its value can be
 incremented and four steps reach a mask; the scrolls shipped with the
 assembler ask for 58017, and both are.
 */
module Shipped {
  import opened Words
  import opened Inversion
  import opened Search
  import opened Runways
  import opened Planner
  import opened Straight
  import opened Ritual
  import opened Ceremony
  import opened Closing
  import opened Verdict
  import opened Agreement

  // ----- room -----

  /** Cells a live-cell plan without junk takes. */
  function CellsTaken(node: Node, a: seq<ChainStep>, b: seq<ChainStep>): nat {
    6 * (2 * (|node.steps| + 1 + |a| + |b|) + 1) + |node.steps| + 1 + |a| + |b| + 17
  }

  lemma DraftSize(r: Request, node: Node, a: seq<ChainStep>, b: seq<ChainStep>)
    requires r.cellAddr.Some?
    ensures Draft(r, node, a, b, 0).CellCount() == CellsTaken(node, a, b)
  {
    hide SetupOps, RitualOps, KnownAtStart, Rows, SizeAll, TrackAt, ModWord;
    var p := Draft(r, node, a, b, 0);
    SetupAt(0, SeedCells(p), 0);
    SetupSize(0, SeedCells(p));
    RitualSize(node.steps, |a|, |b|, true, p.MutableAddr());
    SizeAllSplit(SetupOps(0, SeedCells(p)), RitualOps(node.steps, |a|, |b|, true, p.MutableAddr()));
  }

  /** At most four steps and two chains of at most two. */
  predicate Short(node: Node, a: seq<ChainStep>, b: seq<ChainStep>) {
    |node.steps| <= 4 && |a| <= 2 && |b| <= 2
  }

  /** The live cell and its seeds, clear of the plan's own code. */
  predicate CellsClear(r: Request, node: Node, a: seq<ChainStep>, b: seq<ChainStep>) {
    r.cellAddr.Some? ==> r.cellBase + CellsTaken(node, a, b) <= r.cellAddr.value < 57994
  }

  /**
   Without a live cell at most four junk instructions are needed, with one the code must
   start far enough ahead for none.
   */
  lemma RoomPlaces(r: Request, node: Node, a: seq<ChainStep>, b: seq<ChainStep>)
    requires |r.ok| == 2 && Short(node, a, b) && r.dEntry + 38 <= 58000
    requires r.dEntry + (if r.cellAddr.None? then 5 else 18) <= r.cellBase
    requires CellsClear(r, node, a, b)
    ensures Placeable(r, node, a, b)
  {
    hide LayOut, Draft, Placeable, LiveCheck, Neighbors;
    var total := SeedTotal(r, node, a, b);
    var k := if Padded(r, total, 0) then 0 else if Padded(r, total, 1) then 1 else if Padded(r, total, 2) then 2
             else if Padded(r, total, 3) then 3 else 4;
    PlacementExactly(r, node, a, b, k);
    if r.cellAddr.Some? {
      var p := Draft(r, node, a, b, 0);
      DraftSize(r, node, a, b);
      LiveDraft(r, node, a, b);
      var targets := LiveTargets(p.cellAddr.value, p.neighbors);
      LiveExactly(targets, r.cellBase, r.cellBase + p.CellCount(), p.blockStart, BlockTotal(r, node, a, b));
      forall k | 0 <= k < |targets|
        ensures Clear(targets[k], r.cellBase, r.cellBase + p.CellCount(), p.blockStart, BlockTotal(r, node, a, b))
      {
        Claims(p, p.cellAddr.value, targets[k]);
      }
    }
  }

  lemma LiveDraft(r: Request, node: Node, a: seq<ChainStep>, b: seq<ChainStep>)
    requires r.cellAddr.Some? && 0 <= r.cellAddr.value < 59049
    ensures var p := Draft(r, node, a, b, 0);
            p.cellAddr == Some(r.cellAddr.value) && p.chainA == a && p.chainB == b
            && p.neighbors == Neighbors(a, b, p.cellAddr)
  {
    SmallWord(r.cellAddr.value);
  }

  /** Code at least five cells ahead of D, 18 and its own 140 cells clear with a live cell. */
  predicate HasRoom(dEntry: nat, cellBase: nat, live: Option<int>) {
    dEntry + 38 <= 58000
    && match live
       case None => dEntry + 5 <= cellBase
       case Some(x) => dEntry + 18 <= cellBase && cellBase + 140 <= x < 57994
  }

  /** With room, the macro's request is granted unless the value or the search refuses it. */
  lemma RoomPlans(value: int, dEntry: nat, cellBase: nat, live: Option<int>)
    requires HasRoom(dEntry, cellBase, live)
    ensures var p := PlanEntry(MacroRequest(value, dEntry, cellBase, live));
            p.Ok? <==> p != Fail(ImpossibleRewrite) && p != Fail(NoRunway)
  {
    hide PlanEntry, LayOut, Placeable, CellsTaken;
    var r := MacroRequest(value, dEntry, cellBase, live);
    MacroRefused(value, dEntry, cellBase, live);
    if PlanEntry(r).Fail? && PlanEntry(r).reason != ImpossibleRewrite && PlanEntry(r).reason != NoRunway {
      var node, a, b := Stages(r);
      ChainLengths(a, b, ModWord(r.value + 1), r.ok[0] as nat, r.ok[1] as nat);
      assert CellsTaken(node, a, b) <= 140 by { ShortTakes(node, a, b); }
      RoomPlaces(r, node, a, b);
      NotRefused(r, node, a, b);
    }
  }

  lemma ShortTakes(node: Node, a: seq<ChainStep>, b: seq<ChainStep>)
    requires Short(node, a, b)
    ensures CellsTaken(node, a, b) <= 140
  {
  }

  lemma NotRefused(r: Request, node: Node, a: seq<ChainStep>, b: seq<ChainStep>)
    requires |r.ok| == 2 && PlanEntry(r) == LayOut(r, node, a, b) && Placeable(r, node, a, b) && r.startA == 0
    ensures PlanEntry(r).Ok?
  {
    hide PlanEntry, LayOut, Placeable;
    SmallWord(0);
    PlacedOrRefused(r, node, a, b);
    InternalErrorsUnreachable(r);
  }

  /**
   The macro, decided.  With room around it a macro is planned if and only if
   its value is not 2 modulo 3 and at most four steps over the default seeds
   lead from zero to one of its sixteen least masks.
   */
  lemma RoomPlansExactly(value: int, dEntry: nat, cellBase: nat, live: Option<int>)
    requires HasRoom(dEntry, cellBase, live)
    ensures PlanEntry(MacroRequest(value, dEntry, cellBase, live)).Ok? <==>
              (value % 59049) % 3 != 2
              && var tried := SearchMasks(ModWord(value), ModWord(value + 1), 16);
                 exists i :: 0 <= i < |tried| && !Unmet(tried[i])
  {
    hide PlanEntry, SearchMasks, Unmet;
    RoomPlans(value, dEntry, cellBase, live);
    MacroRefused(value, dEntry, cellBase, live);
  }

  /** A live cell that starts where the code of a granted plan ends is granted too. */
  lemma PlansBehindItsCode(value: int, dEntry: nat, cellBase: nat, live: int)
    requires dEntry + 18 <= cellBase && dEntry + 38 <= 58000
    requires PlanEntry(MacroRequest(value, dEntry, cellBase, Some(57000))).Ok?
    requires cellBase + PlanEntry(MacroRequest(value, dEntry, cellBase, Some(57000))).plan.CellCount() <= live < 57994
    ensures PlanEntry(MacroRequest(value, dEntry, cellBase, Some(live))).Ok?
  {
    hide PlanEntry, LayOut, Placeable, CellsTaken, IsChain;
    var x, r := MacroRequest(value, dEntry, cellBase, Some(57000)), MacroRequest(value, dEntry, cellBase, Some(live));
    var node, a, b := SameStages(value, dEntry, cellBase, 57000, live);
    ChainLengths(a, b, ModWord(value + 1), 'O' as nat, 'K' as nat);
    PadlessSize(x, node, a, b);
    RoomPlaces(r, node, a, b);
    NotRefused(r, node, a, b);
  }

  lemma PadlessSize(r: Request, node: Node, a: seq<ChainStep>, b: seq<ChainStep>)
    requires |r.ok| == 2 && r.cellAddr.Some? && LayOut(r, node, a, b).Ok? && Short(node, a, b)
    requires r.dEntry + 18 <= r.cellBase
    ensures LayOut(r, node, a, b).plan.CellCount() == CellsTaken(node, a, b)
  {
    hide LayOut, LeastJunk;
    LaidOutSize(r, node, a, b);
    TotalsAre(r, node, a, b);
    LeastIs(r, SeedTotal(r, node, a, b), BlockTotal(r, node, a, b), 0);
  }

  /** A live-cell plan with room takes at most 140 cells. */
  lemma PlanSmall(value: int, dEntry: nat, cellBase: nat, x: int)
    requires dEntry + 18 <= cellBase && PlanEntry(MacroRequest(value, dEntry, cellBase, Some(x))).Ok?
    ensures PlanEntry(MacroRequest(value, dEntry, cellBase, Some(x))).plan.CellCount() <= 140
  {
    hide PlanEntry, LayOut, CellsTaken, IsChain;
    var node, a, b := SameStages(value, dEntry, cellBase, x, x);
    ChainLengths(a, b, ModWord(value + 1), 'O' as nat, 'K' as nat);
    PadlessSize(MacroRequest(value, dEntry, cellBase, Some(x)), node, a, b);
    ShortTakes(node, a, b);
  }

  /** Search and chains do not look at the live address. */
  lemma SameStages(value: int, dEntry: nat, cellBase: nat, x: int, y: int)
    returns (node: Node, a: seq<ChainStep>, b: seq<ChainStep>)
    requires PlanEntry(MacroRequest(value, dEntry, cellBase, Some(x))).Ok?
    ensures PlanEntry(MacroRequest(value, dEntry, cellBase, Some(x)))
         == LayOut(MacroRequest(value, dEntry, cellBase, Some(x)), node, a, b)
    ensures PlanEntry(MacroRequest(value, dEntry, cellBase, Some(y)))
         == LayOut(MacroRequest(value, dEntry, cellBase, Some(y)), node, a, b)
    ensures |node.steps| <= 4
    ensures IsChain(a, ModWord(value + 1), 'O' as nat) && IsChain(b, ModWord(value + 1), 'K' as nat)
  {
    hide LayOut, PlanForMasks, SearchMasks, RequestConstants, IsChain, ChainToTarget, Choices, Possible, RunwayResult,
         Crazy, Reach;
    var rx, ry := MacroRequest(value, dEntry, cellBase, Some(x)), MacroRequest(value, dEntry, cellBase, Some(y));
    var target := ModWord(value + 1);
    SmallWord(0);
    SameConstants(rx, ry);
    var masks := SearchMasks(ModWord(value), target, 16);
    var i := FirstReachableMask(0, masks, 4, RequestConstants(rx));
    node := PlanForMasks(0, masks, 4, RequestConstants(rx)).value;
    PlannedChain(target, 'O' as nat);
    PlannedChain(target, 'K' as nat);
    a, b := ChainToTarget(target, 'O' as nat, TRITS).value, ChainToTarget(target, 'K' as nat, TRITS).value;
  }

  // ----- 58017 -----

  /** The least mask trit for each pair of trits, 2 if there is none. */
  function LeastTrit(d: Trit, t: Trit): Trit {
    if Table(d, 0) == t then 0 else if Table(d, 1) == t then 1 else 2
  }

  function LowMask(source: nat, target: nat, width: nat): nat {
    if width == 0 then 0 else LeastTrit(source % 3, target % 3) + 3 * LowMask(source / 3, target / 3, width - 1)
  }

  lemma {:induction false} NoMaskBelow(m: nat, source: nat, width: nat)
    ensures m >= LowMask(source, CrazyW(m, source, width), width)
  {
    if width > 0 {
      var rest := CrazyW(m / 3, source / 3, width - 1);
      var t := CrazyW(m, source, width);
      assert t % 3 == Table(source % 3, m % 3) && t / 3 == rest;
      NoMaskBelow(m / 3, source / 3, width - 1);
    }
  }

  lemma Rewrites()
    ensures Crazy(27, 58017) == 58018
  {
    assert CrazyW(0, 26, 3) == 26;
    assert CrazyW(0, 238, 5) == 238;
    assert CrazyW(1, 2148, 7) == 2148;
    assert CrazyW(9, 19339, 9) == 19339;
    assert CrazyW(27, 58017, 10) == 58018;
  }

  lemma TwentySevenLow()
    ensures LowMask(58017, 58018, 10) == 27
  {
    assert LowMask(26, 26, 3) == 0;
    assert LowMask(238, 238, 5) == 0;
    assert LowMask(2148, 2148, 7) == 1;
    assert LowMask(19339, 19339, 9) == 9;
  }

  /** From 58017 to 58018 the least mask is 27, so it is among those tried. */
  lemma TwentySevenTried()
    ensures 27 in SearchMasks(58017, 58018, 16)
  {
    Rewrites();
    TwentySevenLow();
    hide SearchMasks, CrazyW, LowMask;
    MasksTried(58017, 58018, 16);
    var tried := SearchMasks(58017, 58018, 16);
    if 27 !in tried {
      assert tried[0] in tried;
      NoMaskBelow(tried[0], 58017, 10);
    }
  }

  lemma FirstStep(a: Word, value: Word, rest: seq<RouteStep>)
    ensures After(a, [RouteStep('p', value)] + rest) == After(Crazy(a, value), rest)
  {
    var steps := [RouteStep('p', value)] + rest;
    assert steps[0] == RouteStep('p', value) && steps[1..] == rest;
  }

  lemma FirstResult()
    ensures Crazy(0, 0) == 29524
  {
    assert CrazyW(0, 0, 3) == 13;
    assert CrazyW(0, 0, 5) == 121;
    assert CrazyW(0, 0, 7) == 1093;
    assert CrazyW(0, 0, 9) == 9841;
    assert CrazyW(0, 0, 10) == 29524;
  }

  lemma SecondResult()
    ensures Crazy(29524, 80) == 80
  {
    assert CrazyW(13, 0, 3) == 0;
    assert CrazyW(121, 0, 5) == 0;
    assert CrazyW(1093, 2, 7) == 2;
    assert CrazyW(9841, 26, 9) == 26;
    assert CrazyW(29524, 80, 10) == 80;
  }

  lemma ThirdResult()
    ensures Crazy(80, 26) == 29497
  {
    assert CrazyW(0, 0, 3) == 13;
    assert CrazyW(0, 0, 5) == 121;
    assert CrazyW(2, 0, 7) == 1092;
    assert CrazyW(26, 8, 9) == 9832;
    assert CrazyW(80, 26, 10) == 29497;
  }

  lemma FourthResult()
    ensures Crazy(29497, 0) == 27
  {
    assert CrazyW(13, 0, 3) == 0;
    assert CrazyW(121, 0, 5) == 0;
    assert CrazyW(1092, 0, 7) == 1;
    assert CrazyW(9832, 0, 9) == 9;
    assert CrazyW(29497, 0, 10) == 27;
  }

  /** Combining with 0, 80, 26 and 0 leads from zero to 27. */
  lemma FourSteps()
    ensures !Unmet(27)
  {
    FirstResult();
    SecondResult();
    ThirdResult();
    FourthResult();
    hide Crazy, After;
    var last := [RouteStep('p', 0)];
    var two := [RouteStep('p', 26)] + last;
    var three := [RouteStep('p', 80)] + two;
    var steps := [RouteStep('p', 0)] + three;
    FirstStep(0, 0, three);
    FirstStep(29524, 80, two);
    FirstStep(80, 26, last);
    FirstStep(29497, 0, []);
    AfterNothing(27);
    assert last == [RouteStep('p', 0)] + [] && DefaultSteps(steps);
  }

  /** Both shipped macros on 58017 are planned wherever there is room. */
  lemma FiftyEightPlans(dEntry: nat, cellBase: nat, live: Option<int>)
    requires HasRoom(dEntry, cellBase, live)
    ensures PlanEntry(MacroRequest(58017, dEntry, cellBase, live)).Ok?
  {
    hide PlanEntry, SearchMasks, Unmet;
    SmallWord(58017);
    SmallWord(58018);
    TwentySevenTried();
    FourSteps();
    RoomPlansExactly(58017, dEntry, cellBase, live);
  }
}
