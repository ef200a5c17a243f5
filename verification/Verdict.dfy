/**
 The planner's answers, all of them: for every request, exactly when each
 refusal comes and when a plan does, with the numbers written out.
 */
module Verdict {
  import opened Words
  import opened Inversion
  import opened Search
  import opened Runways
  import opened Source
  import opened Planner
  import opened Ritual
  import opened Closing

  // ----- inputs of the search -----

  /** Some value is w modulo the word size. */
  predicate Reduces(values: seq<int>, w: Word) {
    exists i :: 0 <= i < |values| && values[i] % 59049 == w
  }

  /** The seeds are the values reduced, each once. */
  lemma {:induction false} NormalizeExactly(values: seq<int>, seen: set<Word>)
    ensures var r := Normalize(values, seen);
            Distinct(r) && forall w: Word :: w in r <==> w !in seen && Reduces(values, w)
    decreases |values|
  {
    hide Distinct, ModWord, Reduces;
    if values == [] {
      EmptyDistinct();
      NothingReduces();
    } else {
      FirstModulo(values);
      var w := ModWord(values[0]);
      var rest := if w in seen then Normalize(values[1..], seen) else Normalize(values[1..], seen + {w});
      NormalizeExactly(values[1..], if w in seen then seen else seen + {w});
      if w !in seen {
        DistinctBehind(w, rest);
      }
      forall x: Word
        ensures Reduces(values, x) <==> x == w || Reduces(values[1..], x)
      {
        OccursBehind(values, x);
      }
    }
  }

  lemma FirstModulo(values: seq<int>)
    requires values != []
    ensures ModWord(values[0]) == values[0] % 59049
  {
  }

  lemma OccursBehind(values: seq<int>, x: Word)
    requires values != []
    ensures Reduces(values, x) <==> x == values[0] % 59049 || Reduces(values[1..], x)
  {
    if i :| 0 <= i < |values| && values[i] % 59049 == x {
      assert i > 0 ==> values[1..][i - 1] == values[i];
    }
    if i :| 0 <= i < |values| - 1 && values[1..][i] % 59049 == x {
      assert values[i + 1] == values[1..][i];
    }
  }

  lemma NothingReduces()
    ensures forall w: Word :: !Reduces([], w)
  {
  }

  lemma EmptyDistinct()
    ensures Distinct<Word>([])
  {
  }

  lemma DistinctBehind(w: Word, rest: seq<Word>)
    requires Distinct(rest) && w !in rest
    ensures Distinct([w] + rest)
  {
  }

  /** Without constants in the request, the seeds are these fifteen. */
  lemma DefaultSeeds(r: Request)
    requires r.constants.None?
    ensures forall w: Word :: w in RequestConstants(r) <==>
                                w in {0, 1, 2, 3, 10, 26, 80, 94, 255, 256, 512, 1024, 19683, 29524, 59048}
  {
    var values := [0, 1, 2, 3, 10, 26, 80, 94, 255, 256, 512, 1024, 19683, 29524, 59048];
    NormalizeExactly(values, {});
    assert DEFAULT_CONSTANTS == values;
    hide Normalize, Reduces;
    forall w: Word
      ensures Reduces(values, w) <==> w in {0, 1, 2, 3, 10, 26, 80, 94, 255, 256, 512, 1024, 19683, 29524, 59048}
    {
      FifteenSeeds(values, w);
    }
  }

  lemma FifteenSeeds(values: seq<int>, w: Word)
    requires values == [0, 1, 2, 3, 10, 26, 80, 94, 255, 256, 512, 1024, 19683, 29524, 59048]
    ensures Reduces(values, w) <==> w in {0, 1, 2, 3, 10, 26, 80, 94, 255, 256, 512, 1024, 19683, 29524, 59048}
  {
    assert forall i :: 0 <= i < |values| ==> values[i] % 59049 == values[i];
    if w in {0, 1, 2, 3, 10, 26, 80, 94, 255, 256, 512, 1024, 19683, 29524, 59048} {
      assert values[0] == 0 && values[1] == 1 && values[2] == 2 && values[3] == 3 && values[4] == 10 && values[5] == 26
             && values[6] == 80 && values[7] == 94 && values[8] == 255 && values[9] == 256 && values[10] == 512
             && values[11] == 1024 && values[12] == 19683 && values[13] == 29524 && values[14] == 59048;
    }
  }

  /** The masks tried: the least ones, as many as the limit allows, and at least one if there is one. */
  lemma MasksTried(value: Word, target: Word, limit: int)
    ensures var tried := SearchMasks(value, target, limit);
            Increasing(tried) && |tried| <= (if limit < 1 then 1 else limit)
            && (forall m: Word :: m in tried ==> Crazy(m, value) == target)
            && (forall m: Word :: Crazy(m, value) == target && m !in tried ==>
                  |tried| == (if limit < 1 then 1 else limit) && forall i :: 0 <= i < |tried| ==> tried[i] < m)
  {
    hide CrazyW, Masks, Increasing;
    PowTen();
    MasksExact(value, target, TRITS);
    var masks := Masks(value, target, TRITS);
    var tried := SearchMasks(value, target, limit);
    Prefix(masks, |tried|);
    forall m: Word | Crazy(m, value) == target && m !in tried
      ensures |tried| == (if limit < 1 then 1 else limit) && forall i :: 0 <= i < |tried| ==> tried[i] < m
    {
      assert m in masks;
      Larger(masks, |tried|, m);
    }
  }

  lemma Prefix(masks: seq<nat>, n: nat)
    requires Increasing(masks) && n <= |masks|
    ensures Increasing(masks[..n])
  {
  }

  lemma Larger(masks: seq<nat>, n: nat, m: nat)
    requires Increasing(masks) && n <= |masks| && m in masks && m !in masks[..n]
    ensures n < |masks| && forall i :: 0 <= i < n ==> masks[..n][i] < m
  {
    var k :| 0 <= k < |masks| && masks[k] == m;
    assert forall q :: 0 <= q < n ==> masks[..n][q] == masks[q] && masks[q] != m;
    assert k >= n;
  }

  // ----- live targets -----

  /** A cell the macro may claim. */
  predicate Clear(x: nat, lo: nat, hi: nat, blockStart: nat, pairs: nat) {
    !(lo <= x < hi) && x < 58000 && !(blockStart <= x < blockStart + pairs)
  }

  /** The check names the first cell that is not clear, code first, then the argument block, then the seed block. */
  lemma {:induction false} LiveExactly(targets: seq<nat>, lo: nat, hi: nat, blockStart: nat, pairs: nat)
    ensures var r := LiveCheck(targets, lo, hi, blockStart, pairs);
            (r == None <==> forall k :: 0 <= k < |targets| ==> Clear(targets[k], lo, hi, blockStart, pairs))
            && (r.Some? ==>
                  exists k :: 0 <= k < |targets| && !Clear(targets[k], lo, hi, blockStart, pairs)
                    && (forall j :: 0 <= j < k ==> Clear(targets[j], lo, hi, blockStart, pairs))
                    && r.value == if lo <= targets[k] < hi then LiveCellInCode
                                  else if targets[k] >= 58000 then LiveCellReachesAbi
                                  else LiveCellInBlock)
  {
    if targets != [] {
      if Clear(targets[0], lo, hi, blockStart, pairs) {
        LiveExactly(targets[1..], lo, hi, blockStart, pairs);
        var r := LiveCheck(targets, lo, hi, blockStart, pairs);
        assert forall k :: 0 < k < |targets| ==> targets[k] == targets[1..][k - 1];
        if r.Some? {
          var k :| 0 <= k < |targets| - 1 && !Clear(targets[1..][k], lo, hi, blockStart, pairs)
                   && (forall j :: 0 <= j < k ==> Clear(targets[1..][j], lo, hi, blockStart, pairs))
                   && r.value == if lo <= targets[1..][k] < hi then LiveCellInCode
                                 else if targets[1..][k] >= 58000 then LiveCellReachesAbi
                                 else LiveCellInBlock;
          assert targets[k + 1] == targets[1..][k];
        }
      }
    }
  }

  /** What a live-cell macro claims: the cell, and the seeds of both proof chains behind it. */
  lemma Claims(p: Plan, addr: Word, x: nat)
    requires p.cellAddr == Some(addr) && p.neighbors == Neighbors(p.chainA, p.chainB, p.cellAddr)
    ensures x in LiveTargets(addr, p.neighbors) <==>
              x == addr || addr < x <= addr + |p.chainA|
              || addr + |p.chainA| + 2 < x <= addr + |p.chainA| + 2 + |p.chainB|
  {
    var targets := LiveTargets(addr, p.neighbors);
    var m, n := |p.chainA|, |p.chainB|;
    assert |targets| == 1 + m + n && targets[0] == addr;
    assert forall k :: 1 <= k <= m ==> targets[k] == addr + k;
    assert forall k :: m < k <= m + n ==> targets[k] == addr + 2 + k;
    if addr < x <= addr + m {
      assert targets[x - addr] == x;
    }
    if addr + m + 2 < x <= addr + m + 2 + n {
      assert targets[x - addr - 2] == x;
    }
  }

  // ----- the answers -----

  predicate GoodPrints(ok: string) {
    |ok| == 2 && 33 <= ok[0] as int <= 126 && 33 <= ok[1] as int <= 126
  }

  lemma PrintsAre(ok: string)
    ensures GoodPrints(ok) <==> |ok| == 2 && Printable(ok[0]) && Printable(ok[1])
  {
  }

  lemma PossibleExactly(value: int)
    ensures Possible(Choices(ModWord(value), ModWord(value + 1), TRITS)) <==> (value % 59049) % 3 != 2
  {
    hide Choices, Possible, Masks, MaskCount;
    PowTen();
    ModWordNext(value);
    IncrementMasks(ModWord(value), TRITS);
    MasksIffPossible(ModWord(value), ModWord(value + 1));
  }

  lemma MasksIffPossible(s: Word, t: Word)
    ensures Masks(s, t, TRITS) != [] <==> Possible(Choices(s, t, TRITS))
  {
    hide Choices, Product, Values, Sort;
    PowTen();
    hide CrazyW, Pow3;
    MasksExact(s, t, TRITS);
    if Possible(Choices(s, t, TRITS)) {
      PositiveCount(Choices(s, t, TRITS));
    }
  }

  lemma {:induction false} PositiveCount(choices: seq<seq<Trit>>)
    requires Possible(choices)
    ensures CountProduct(choices) > 0
  {
    if choices != [] {
      PositiveCount(choices[1..]);
      assert choices[0] != [];
      PositiveProduct(|choices[0]|, CountProduct(choices[1..]));
    }
  }

  lemma PositiveProduct(x: nat, y: nat)
    requires x > 0 && y > 0
    ensures x * y > 0
  {
  }

  lemma LayoutReasons(r: Request, node: Node, a: seq<ChainStep>, b: seq<ChainStep>)
    requires |r.ok| == 2
    ensures LayOut(r, node, a, b).Fail? ==>
              LayOut(r, node, a, b).reason in {NoJunk, BlockReachesAbi, LiveCellInCode, LiveCellReachesAbi,
                LiveCellInBlock,
                                               Untracked, Mismatch}
  {
    hide TrackAt, LeastJunk, SetupOps, RitualOps, Pairs, LiveCheck, KnownAtStart, SizeAll, BlockValues, Neighbors,
         AllTracked;
    forall targets: seq<nat>, lo: nat, hi: nat, blockStart: nat, pairs: nat
      ensures var c := LiveCheck(targets, lo, hi, blockStart, pairs);
              c.Some? ==> c.value in {LiveCellInCode, LiveCellReachesAbi, LiveCellInBlock}
    {
      LiveExactly(targets, lo, hi, blockStart, pairs);
    }
  }

  /** The first three refusals: bad characters, a value whose lowest trit is two, no list of steps to any mask tried. */
  lemma RefusalsExactly(r: Request)
    ensures PlanEntry(r) == Fail(BadOkChars) <==> !GoodPrints(r.ok)
    ensures PlanEntry(r) == Fail(ImpossibleRewrite) <==> GoodPrints(r.ok) && (r.value % 59049) % 3 == 2
    ensures PlanEntry(r) == Fail(NoRunway) <==>
              GoodPrints(r.ok) && (r.value % 59049) % 3 != 2
              && var tried := SearchMasks(ModWord(r.value), ModWord(r.value + 1), r.maskLimit);
                 forall i :: 0 <= i < |tried| ==>
                        OutOfReach(ModWord(r.startA), tried[i], r.maxDepth, RequestConstants(r))
  {
    hide LayOut, PlanForMasks, SearchMasks, RequestConstants, ChainToTarget, Choices, Possible, OutOfReach, IsChain;
    PrintsAre(r.ok);
    PossibleExactly(r.value);
    var tried := SearchMasks(ModWord(r.value), ModWord(r.value + 1), r.maskLimit);
    SearchExactly(ModWord(r.startA), tried, r.maxDepth, RequestConstants(r));
    if GoodPrints(r.ok) {
      PlannedChain(ModWord(r.value + 1), r.ok[0] as nat);
      PlannedChain(ModWord(r.value + 1), r.ok[1] as nat);
      var plan := PlanForMasks(ModWord(r.startA), tried, r.maxDepth, RequestConstants(r));
      if plan.Some? {
        LayoutReasons(r, plan.value, ChainToTarget(ModWord(r.value + 1), r.ok[0] as nat, TRITS).value,
                      ChainToTarget(ModWord(r.value + 1), r.ok[1] as nat, TRITS).value);
      }
    }
  }

  /** k junk instructions bring the first seed below its own store. */
  predicate Padded(r: Request, total: nat, k: nat) {
    r.cellBase + 5 * k + 5 > r.dEntry + 2 * total
  }

  /** Seed cells to store: runway, value, chains and two scratch cells in a block, or runway, pointer and chains. */
  function SeedTotal(r: Request, node: Node, a: seq<ChainStep>, b: seq<ChainStep>): nat {
    |node.steps| + |a| + |b| + (if r.cellAddr.None? then 3 else 1)
  }

  /** How many of them lie in the planner's own block. */
  function BlockTotal(r: Request, node: Node, a: seq<ChainStep>, b: seq<ChainStep>): nat {
    if r.cellAddr.None? then |node.steps| + |a| + |b| + 3 else |node.steps| + 1
  }

  lemma TotalsAre(r: Request, node: Node, a: seq<ChainStep>, b: seq<ChainStep>)
    ensures PairTotal(r, node, a, b) == SeedTotal(r, node, a, b)
            && PairCount(r, node, a, b) == BlockTotal(r, node, a, b)
  {
  }

  /** Where each placement refusal comes from. */
  lemma PlacementExactly(r: Request, node: Node, a: seq<ChainStep>, b: seq<ChainStep>, k: nat)
    requires |r.ok| == 2
    ensures var total := SeedTotal(r, node, a, b);
            LayOut(r, node, a, b) == Fail(NoJunk) <==> !Padded(r, total, 255)
    ensures var total := SeedTotal(r, node, a, b);
            k < 256 && Padded(r, total, k) && (k > 0 ==> !Padded(r, total, k - 1)) ==>
              var p := Draft(r, node, a, b, k);
              p.blockStart == r.dEntry + k + 2 * total + 1
              && (LayOut(r, node, a, b) == Fail(BlockReachesAbi) <==> p.blockStart + BlockTotal(r, node, a, b) > 58000)
              && (p.blockStart + BlockTotal(r, node, a, b) <= 58000 ==>
                    var complaint := if r.cellAddr.None? then None
                                     else LiveCheck(LiveTargets(p.cellAddr.value, p.neighbors), r.cellBase,
                                                    r.cellBase + p.CellCount(), p.blockStart,
                                                      BlockTotal(r, node, a, b));
                    (complaint.Some? ==> LayOut(r, node, a, b) == Fail(complaint.value))
                    && (complaint.None? <==> Placeable(r, node, a, b)))
  {
    hide TrackAt, LeastJunk, SetupOps, RitualOps, Pairs, LiveCheck, KnownAtStart, SizeAll, BlockValues, Neighbors,
         AllTracked, JunkWorks;
    TotalsAre(r, node, a, b);
    var total, pairs := PairTotal(r, node, a, b), PairCount(r, node, a, b);
    LeastJunkMargin(r.dEntry, r.cellBase, total, pairs, 0);
    forall targets: seq<nat>, lo: nat, hi: nat, blockStart: nat, n: nat
      ensures var c := LiveCheck(targets, lo, hi, blockStart, n);
              c.Some? ==> c.value in {LiveCellInCode, LiveCellReachesAbi, LiveCellInBlock}
    {
      LiveExactly(targets, lo, hi, blockStart, n);
    }
    var junk := LeastJunk(r.dEntry, r.cellBase, total, pairs, 0);
    if k < 256 && Padded(r, total, k) && (k > 0 ==> !Padded(r, total, k - 1)) {
      LeastIs(r, total, pairs, k);
    }
  }

  lemma LeastIs(r: Request, total: nat, pairs: nat, k: nat)
    requires pairs >= 1 && k < 256 && Padded(r, total, k) && (k > 0 ==> !Padded(r, total, k - 1))
    ensures LeastJunk(r.dEntry, r.cellBase, total, pairs, 0) == Some(k)
  {
    hide LeastJunk;
    LeastJunkMargin(r.dEntry, r.cellBase, total, pairs, 0);
    var j := LeastJunk(r.dEntry, r.cellBase, total, pairs, 0).value;
    assert Slack(r.dEntry, r.cellBase, total, k, 1) > 0;
    if k < j {
      assert false;
    }
    if j < k {
      assert false;
    }
  }

  // ----- the macro -----

  /**
   The macro asks for two printed characters, O and K, from A zero, at most
   four runway steps over the default seeds, and the sixteen least masks.
   */
  lemma MacroAsks(value: int, dEntry: nat, cellBase: nat, live: Option<int>)
    ensures var r := MacroRequest(value, dEntry, cellBase, live);
            r.value == value && r.ok == ['O', 'K'] && r.startA == 0 && r.maxDepth == 4 && r.maskLimit == 16
            && r.constants == None && r.dEntry == dEntry && r.cellBase == cellBase && r.cellAddr == live
  {
  }

  /**
   A macro is refused for its value exactly when that is 2 modulo 3, or four steps over those
   seeds reach none of the masks.
   */
  lemma MacroRefused(value: int, dEntry: nat, cellBase: nat, live: Option<int>)
    ensures var p := PlanEntry(MacroRequest(value, dEntry, cellBase, live));
            (p == Fail(ImpossibleRewrite) <==> (value % 59049) % 3 == 2)
            && p != Fail(BadOkChars)
            && (p == Fail(NoRunway) <==>
                  (value % 59049) % 3 != 2
                  && var tried := SearchMasks(ModWord(value), ModWord(value + 1), 16);
                     forall i :: 0 <= i < |tried| ==> Unmet(tried[i]))
  {
    hide PlanEntry, SearchMasks, RequestConstants, After, AllowedSteps, DefaultSteps;
    var r := MacroRequest(value, dEntry, cellBase, live);
    RefusalsExactly(r);
    assert ModWord(0) == 0;
    forall steps: seq<RouteStep>
      ensures AllowedSteps(steps, RequestConstants(r)) <==> DefaultSteps(steps)
    {
      DefaultAllowed(r, steps);
    }
    forall m: Word
      ensures OutOfReach(0, m, 4, RequestConstants(r)) <==> Unmet(m)
    {
    }
  }

  /** Steps over the fifteen default seeds. */
  predicate DefaultSteps(steps: seq<RouteStep>) {
    forall k :: 0 <= k < |steps| ==>
      (steps[k].op == 'p' || steps[k].op == '*')
      && steps[k].value in {0, 1, 2, 3, 10, 26, 80, 94, 255, 256, 512, 1024, 19683, 29524, 59048}
  }

  /** No four of those steps lead from zero to the mask. */
  ghost predicate Unmet(mask: Word) {
    forall steps: seq<RouteStep> :: |steps| <= 4 && DefaultSteps(steps) ==> After(0, steps) != mask
  }

  lemma DefaultAllowed(r: Request, steps: seq<RouteStep>)
    requires r.constants.None?
    ensures AllowedSteps(steps, RequestConstants(r)) <==> DefaultSteps(steps)
  {
    hide RequestConstants;
    DefaultSeeds(r);
  }

  // ----- the scroll, instruction by instruction -----

  /** How many seed cells a plan stores: with or without the rewritten cell's own block. */
  function SeedCount(p: Plan): nat {
    |p.runway| + |p.chainA| + |p.chainB| + (if p.cellAddr.None? then 3 else 1)
  }

  /**
   The word of seed k: runway, then the value or the hop's pointer, then the proof chains,
   two scratch zeros between.
   */
  function SeedWord(p: Plan, k: nat): Word
    requires k < SeedCount(p)
  {
    var n, a := |p.runway|, |p.chainA|;
    if k < n then p.runway[k].value
    else if k == n then (if p.cellAddr.None? then p.value else (p.cellAddr.value - 1) % 59049)
    else if k <= n + a then p.chainA[k - n - 1].seed % 59049
    else if p.cellAddr.Some? then p.chainB[k - n - a - 1].seed % 59049
    else if k <= n + a + 2 then 0
    else p.chainB[k - n - a - 3].seed % 59049
  }

  /** Where seed k goes: one block, or the chains behind the live cell with two cells between. */
  function SeedPlace(p: Plan, k: nat): nat
    requires k < SeedCount(p)
  {
    var n, a := |p.runway|, |p.chainA|;
    if p.cellAddr.None? || k <= n then p.blockStart + k
    else if k <= n + a then p.cellAddr.value + (k - n)
    else p.cellAddr.value + (k - n) + 2
  }

  predicate SeedStored(p: Plan, k: nat)
    requires k < SeedCount(p)
  {
    var i := p.junk + 2 * k;
    i + 1 < |p.ops| && p.ops[i] == SetA(SeedWord(p, k)) && p.ops[i + 1] == StoreA(SeedPlace(p, k))
  }

  /** Nothing but one classic instruction from lo to hi. */
  predicate AllOf(ops: seq<Instr>, lo: nat, hi: nat, op: Instr) {
    hi <= |ops| && forall i :: lo <= i < hi ==> ops[i] == op
  }

  /** The second half: from the final p on. */
  predicate Proof(p: Plan, f: nat) {
    var a, b := |p.chainA|, |p.chainB|;
    |p.ops| == f + a + b + 7
    && AllOf(p.ops, f, f + 1 + a, Classic('p')) && p.ops[f + 1 + a] == Classic('<')
    && p.ops[f + 2 + a] == LoadA(if p.cellAddr.Some? then p.cellAddr.value else p.blockStart + |p.runway|)
    && AllOf(p.ops, f + 3 + a, f + 3 + a + b, Classic('p')) && p.ops[f + 3 + a + b] == Classic('<')
    && p.ops[f + 4 + a + b] == SetA(10) && p.ops[f + 5 + a + b] == Classic('<') && p.ops[f + 6 + a + b] == Classic('v')
  }

  /** The first half: junk, the seeds, A reset; D then stands at the block. */
  predicate Setup(p: Plan) {
    var q := p.junk + 2 * SeedCount(p);
    p.blockStart == p.dEntry + q + 1
    && AllOf(p.ops, 0, p.junk, SetA(0))
    && (forall k :: 0 <= k < SeedCount(p) ==> SeedStored(p, k))
    && q < |p.ops| && p.ops[q] == SetA(0)
  }

  /** From q on the runway, the hop to a live cell, and the second half. */
  predicate Rite(p: Plan, q: nat) {
    var f := q + |p.runway| + (if p.cellAddr.None? then 0 else 1);
    f < |p.ops| && (forall k :: 0 <= k < |p.runway| ==> p.ops[q + k] == Classic(p.runway[k].op))
    && (p.cellAddr.Some? ==> p.ops[f - 1] == Classic('j'))
    && Proof(p, f)
  }

  predicate Scroll(p: Plan) {
    Setup(p) && Rite(p, p.junk + 2 * SeedCount(p) + 1)
  }

  lemma SeedCellIs(p: Plan, startA: int, k: nat)
    requires WellLaid(p, startA) && k < SeedCount(p)
    ensures |SeedCells(p)| == SeedCount(p) && SeedCells(p)[k] == (SeedPlace(p, k), SeedWord(p, k))
  {
    hide WellLaid;
    SeedLists(p, startA);
    var n, a := |p.runway|, |p.chainA|;
    var block := At(p.blockStart, p.blockValues);
    if p.cellAddr.Some? && k > n {
      assert SeedCells(p)[k] == p.neighbors[k - n - 1];
    } else {
      assert SeedCells(p)[k] == block[k] == (p.blockStart + k, p.blockValues[k]);
    }
  }

  lemma SeedLists(p: Plan, startA: int)
    requires WellLaid(p, startA)
    ensures p.blockValues == BlockValues(p.runway, p.value, p.chainA, p.chainB, p.cellAddr)
    ensures p.neighbors == Neighbors(p.chainA, p.chainB, p.cellAddr)
  {
  }

  lemma SetupReads(p: Plan, startA: int, k: nat)
    requires WellLaid(p, startA)
    ensures |SeedCells(p)| == SeedCount(p) && p.junk + 2 * SeedCount(p) < |p.ops|
    ensures k < p.junk ==> p.ops[k] == SetA(0)
    ensures k < SeedCount(p) ==> SeedStored(p, k)
    ensures p.ops[p.junk + 2 * SeedCount(p)] == SetA(0)
  {
    hide WellLaid, SeedWord, SeedPlace, SetupOps, RitualOps, SeedCells;
    SeedCellIs(p, startA, 0);
    OpsAre(p, startA);
    var cells, n := SeedCells(p), SeedCount(p);
    SetupAt(p.junk, cells, p.junk + 2 * n);
    if k < p.junk {
      SetupAt(p.junk, cells, k);
    }
    if k < n {
      SeedCellIs(p, startA, k);
      SetupAt(p.junk, cells, p.junk + 2 * k);
      SetupAt(p.junk, cells, p.junk + 2 * k + 1);
    }
  }

  lemma SetupIs(p: Plan, startA: int)
    requires WellLaid(p, startA)
    ensures Setup(p) && |SeedCells(p)| == SeedCount(p)
  {
    hide WellLaid, SetupOps, RitualOps, SeedStored, SeedCells, SeedCount;
    forall k: nat
      ensures k < p.junk ==> k < |p.ops| && p.ops[k] == SetA(0)
      ensures k < SeedCount(p) ==> SeedStored(p, k)
    {
      SetupReads(p, startA, k);
    }
    SetupReads(p, startA, 0);
    OpsAre(p, startA);
  }

  lemma ScrollOps(p: Plan, startA: int)
    requires WellLaid(p, startA)
    ensures Scroll(p)
  {
    hide WellLaid, SetupOps, RitualOps, SeedCells, SeedCount, Setup, Rite;
    SetupIs(p, startA);
    OpsAre(p, startA);
    SetupAt(p.junk, SeedCells(p), 0);
    RitualReads(p, p.junk + 2 * SeedCount(p) + 1);
  }

  lemma OpsAre(p: Plan, startA: int)
    requires WellLaid(p, startA)
    ensures p.ops == SetupOps(p.junk, SeedCells(p))
                     + RitualOps(p.runway, |p.chainA|, |p.chainB|, p.cellAddr.Some?, p.MutableAddr())
    ensures p.blockStart == p.dEntry + RitualIndex(p)
  {
  }

  lemma RitualReads(p: Plan, q: nat)
    requires q <= |p.ops|
             && p.ops[q..] == RitualOps(p.runway, |p.chainA|, |p.chainB|, p.cellAddr.Some?, p.MutableAddr())
    ensures Rite(p, q)
  {
    hide RitualOps, Proof, CoreOps, RunwayOps;
    var f := q + |p.runway| + (if p.cellAddr.None? then 0 else 1);
    RitualParts(p);
    var hop := if p.cellAddr.Some? then [Classic('j')] else [];
    var core := CoreOps(|p.chainA|, |p.chainB|, p.MutableAddr());
    var way := RunwayOps(p.runway);
    forall k | 0 <= k < |way|
      ensures p.ops[q + k] == way[k] == Classic(p.runway[k].op)
    {
      assert p.ops[q..][k] == (way + hop + core)[k];
      RunwayOpIs(p.runway, k);
    }
    assert p.cellAddr.Some? ==> p.ops[f - 1] == p.ops[q..][|way|] == (way + hop + core)[|way|] == hop[0];
    assert p.ops[f..] == p.ops[q..][f - q..] == core;
    CoreReads(p, f);
  }

  lemma RunwayOpIs(runway: seq<RouteStep>, k: nat)
    requires k < |runway|
    ensures RunwayOps(runway)[k] == Classic(runway[k].op)
  {
  }

  lemma RitualParts(p: Plan)
    ensures RitualOps(p.runway, |p.chainA|, |p.chainB|, p.cellAddr.Some?, p.MutableAddr())
            == RunwayOps(p.runway) + (if p.cellAddr.Some? then [Classic('j')] else [])
               + CoreOps(|p.chainA|, |p.chainB|, p.MutableAddr())
  {
  }

  lemma CoreReads(p: Plan, f: nat)
    requires f <= |p.ops| && p.ops[f..] == CoreOps(|p.chainA|, |p.chainB|, p.MutableAddr())
    ensures f < |p.ops| && Proof(p, f)
  {
    hide CoreOps;
    CoreShape(p.ops, f, p.chainA, p.chainB, p.MutableAddr());
  }

  /** Rows number the ticks from the entry tick on. */
  predicate RowsNumbered(p: Plan) {
    |p.rows| == |p.ops| && forall i :: 0 <= i < |p.rows| ==> p.rows[i].n == p.dEntry + i + 1
  }

  lemma RowsAre(p: Plan, startA: int)
    requires WellLaid(p, startA)
    ensures RowsNumbered(p)
  {
    hide TrackAt, RowD, IsChain, LiveCheck, JunkWorks, SetupOps, RitualOps, StartOf;
  }

  /** A plan is for its request. */
  predicate PlannedFor(p: Plan, r: Request) {
    p.value == r.value % 59049 && p.target == (r.value + 1) % 59049 && p.ok == r.ok && p.dEntry == r.dEntry
    && p.cellBase == r.cellBase
    && p.cellAddr == match r.cellAddr
                     case None => None
                     case Some(x) => Some(x % 59049)
  }

  lemma DraftFor(r: Request, node: Node, a: seq<ChainStep>, b: seq<ChainStep>, junk: nat)
    ensures PlannedFor(Draft(r, node, a, b, junk), r)
  {
  }

  /** Every plan's code, spelled out. */
  lemma PlanSpelledOut(r: Request)
    requires PlanEntry(r).Ok?
    ensures var p := PlanEntry(r).plan; Scroll(p) && RowsNumbered(p) && PlannedFor(p, r)
  {
    hide PlanEntry, WellLaid, Scroll, LayOut, Draft, IsChain, PlannedFor;
    PlannedWell(r);
    var p := PlanEntry(r).plan;
    ScrollOps(p, r.startA);
    RowsAre(p, r.startA);
    var node, a, b := Stages(r);
    var q := LayOutDraft(r, node, a, b);
    DraftFor(r, node, a, b, q.junk);
  }
}
