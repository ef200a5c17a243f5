/**
 The ritual theorem: from a well-planned plan to the run of its code.
 */
module Ceremony {
  import opened Words
  import opened Frames
  import opened Machine
  import opened Source
  import opened Inversion
  import opened Search
  import opened Planner
  import opened Straight
  import opened Ritual

  // ----- the instruction list -----

  lemma RitualSplit(runway: seq<RouteStep>, a: nat, b: nat, live: bool, m: nat)
    ensures RitualOps(runway, a, b, live, m)
            == RunwayOps(runway) + (if live then [Classic('j')] else []) + CoreOps(a, b, m)
    ensures |CoreOps(a, b, m)| == a + b + 7 && |RunwayOps(runway)| == |runway|
  {
    var front := RunwayOps(runway) + (if live then [Classic('j')] else []);
    var tail := [Classic('<'), SetA(10), Classic('<'), Classic('v')];
    assert front + [Classic('p')] + Crazies(a) + [Classic('<'), LoadA(m)] + Crazies(b) + tail
        == front + ([Classic('p')] + Crazies(a) + [Classic('<'), LoadA(m)] + Crazies(b) + tail);
  }

  lemma Slices(ops: seq<Instr>, x: seq<Instr>, y: seq<Instr>, z: seq<Instr>, w: seq<Instr>)
    requires ops == x + (y + z + w)
    ensures |ops| == |x| + |y| + |z| + |w|
    ensures ops[..|x|] == x && ops[|x| + |y| + |z|..] == w
    ensures forall k :: |x| <= k < |x| + |y| ==> ops[k] == y[k - |x|]
    ensures |z| == 1 ==> ops[|x| + |y|] == z[0]
  {
  }

  /** Setup, runway, hop and core make up the instruction list. */
  lemma PlanParts(p: Plan, startA: int)
    requires WellLaid(p, startA)
    ensures |SetupOps(p.junk, SeedCells(p))| == RitualIndex(p)
    ensures p.ops
         == SetupOps(p.junk, SeedCells(p))
            + (RunwayOps(p.runway) + (if p.cellAddr.Some? then [Classic('j')] else [])
               + CoreOps(|p.chainA|, |p.chainB|, p.MutableAddr()))
    ensures |CoreOps(|p.chainA|, |p.chainB|, p.MutableAddr())| == |p.chainA| + |p.chainB| + 7
    ensures forall k :: 0 <= k < |p.runway| ==> p.runway[k].op == 'p' || p.runway[k].op == '*'
  {
    hide IsChain, JunkWorks, LiveCheck, KnownAtStart, Rows, BlockValues, Neighbors, SetupOps, RitualOps, CoreOps,
         SeedCells, RunwayOps;
    SetupAt(p.junk, SeedCells(p), 0);
    RitualSplit(p.runway, |p.chainA|, |p.chainB|, p.cellAddr.Some?, p.MutableAddr());
  }

  lemma PlanOps(p: Plan, startA: int)
    requires WellLaid(p, startA)
    ensures |p.ops| == FinalIndex(p) + |p.chainA| + |p.chainB| + 7
    ensures p.ops[..RitualIndex(p)] == SetupOps(p.junk, SeedCells(p))
    ensures CodeFor(p.ops, RitualIndex(p), p.runway)
    ensures p.cellAddr.Some? ==> p.ops[FinalIndex(p) - 1] == Classic('j')
    ensures p.ops[FinalIndex(p)..] == CoreOps(|p.chainA|, |p.chainB|, p.MutableAddr())
  {
    hide WellLaid, SetupOps, CoreOps, SeedCells, CodeFor;
    PlanParts(p, startA);
    var setup, core := SetupOps(p.junk, SeedCells(p)), CoreOps(|p.chainA|, |p.chainB|, p.MutableAddr());
    Slices(p.ops, setup, RunwayOps(p.runway), if p.cellAddr.Some? then [Classic('j')] else [], core);
    RunwayCode(p.ops, RitualIndex(p), p.runway);
  }

  lemma RunwayCode(ops: seq<Instr>, r: nat, runway: seq<RouteStep>)
    requires r + |runway| <= |ops| && forall k :: r <= k < r + |runway| ==> ops[k] == RunwayOps(runway)[k - r]
    requires forall k :: 0 <= k < |runway| ==> runway[k].op == 'p' || runway[k].op == '*'
    ensures CodeFor(ops, r, runway)
  {
  }

  // ----- what is known at the start -----

  lemma KnownBlockMode(p: Plan, startA: int, x: nat)
    requires WellLaid(p, startA) && p.cellAddr.None?
    ensures var k := StartOf(p, startA).known;
            (x in k <==> InBlock(p, x)) && (x in k ==> k[x] == p.blockValues[x - p.blockStart])
  {
    hide WellLaid;
    assert p.neighbors == [] by { NoNeighbors(p, startA); }
    InstallAt(p.blockStart, p.blockValues, map[], x);
  }

  lemma NoNeighbors(p: Plan, startA: int)
    requires WellLaid(p, startA) && p.cellAddr.None?
    ensures p.neighbors == []
  {
  }

  lemma {:induction false} LiveCheckClear(targets: seq<nat>, lo: nat, hi: nat, blockStart: nat, pairs: nat, k: nat)
    requires LiveCheck(targets, lo, hi, blockStart, pairs) == None && k < |targets|
    ensures !(lo <= targets[k] < hi) && targets[k] < ABI_ARGC && !(blockStart <= targets[k] <= blockStart + pairs - 1)
  {
    if k > 0 {
      LiveCheckClear(targets[1..], lo, hi, blockStart, pairs, k - 1);
    }
  }

  /** Live mode: the live cell and the chain seeds behind it clear the code, the ABI block and the seed block. */
  lemma LiveClear(p: Plan, startA: int, x: nat)
    requires WellLaid(p, startA) && p.cellAddr.Some?
    requires x == p.cellAddr.value || InNeighbors(p, p.cellAddr.value, x)
    ensures !(p.cellBase <= x < p.cellBase + p.CellCount()) && x < ABI_ARGC && !InBlock(p, x)
  {
    hide IsChain, JunkWorks, LiveCheck, KnownAtStart, Rows, SetupOps, RitualOps, SizeAll;
    var addr := p.cellAddr.value;
    var targets := LiveTargets(addr, p.neighbors);
    var k := if x == addr then 0 else if x < addr + 1 + |p.chainA| then x - addr else x - addr - 2;
    assert targets[k] == x;
    LiveCheckClear(targets, p.cellBase, p.cellBase + p.CellCount(), p.blockStart, BlockPairs(p), k);
  }

  lemma KnownLayers(p: Plan, addr: Word, x: nat)
    requires p.cellAddr == Some(addr) && p.neighbors == Neighbors(p.chainA, p.chainB, p.cellAddr)
    ensures var k := KnownAtStart(p.blockStart, p.blockValues, p.cellAddr, p.value, p.neighbors);
            (x in k <==> InBlock(p, x) || x == addr || InNeighbors(p, addr, x))
            && (addr + |p.chainA| + 3 <= x < addr + |p.chainA| + 3 + |p.chainB| ==>
                  k[x] == ChainSteps(p.chainB)[x - addr - |p.chainA| - 3].value)
            && (addr + 1 <= x < addr + 1 + |p.chainA| ==> k[x] == ChainSteps(p.chainA)[x - addr - 1].value)
            && (x == addr ==> k[x] == p.value)
            && (InBlock(p, x) && x != addr && !InNeighbors(p, addr, x) ==> k[x] == p.blockValues[x - p.blockStart])
  {
    hide Install;
    var block := Install(At(p.blockStart, p.blockValues), map[]);
    var withLive := block[addr as nat := p.value];
    var withA := Install(At(addr + 1, Seeds(p.chainA)), withLive);
    InstallAt(p.blockStart, p.blockValues, map[], x);
    InstallSplit(At(addr + 1, Seeds(p.chainA)), At(addr + |p.chainA| + 3, Seeds(p.chainB)), withLive);
    InstallAt(addr + 1, Seeds(p.chainA), withLive, x);
    InstallAt(addr + |p.chainA| + 3, Seeds(p.chainB), withA, x);
  }

  lemma KnownLiveMode(p: Plan, startA: int, x: nat)
    requires WellLaid(p, startA) && p.cellAddr.Some?
    ensures var k, addr := StartOf(p, startA).known, p.cellAddr.value;
            (x in k <==> InBlock(p, x) || x == addr || InNeighbors(p, addr, x))
            && (InBlock(p, x) ==> k[x] == p.blockValues[x - p.blockStart])
            && (x == addr ==> k[x] == p.value)
            && (addr + 1 <= x < addr + 1 + |p.chainA| ==> k[x] == ChainSteps(p.chainA)[x - addr - 1].value)
            && (addr + |p.chainA| + 3 <= x < addr + |p.chainA| + 3 + |p.chainB| ==>
                  k[x] == ChainSteps(p.chainB)[x - addr - |p.chainA| - 3].value)
  {
    hide IsChain, JunkWorks, LiveCheck, KnownAtStart, Rows, SetupOps, RitualOps, SizeAll, Neighbors, BlockValues;
    KnownLayers(p, p.cellAddr.value, x);
    if x == p.cellAddr.value || InNeighbors(p, p.cellAddr.value, x) {
      LiveClear(p, startA, x);
    }
  }

  // ----- the simulation through the ritual -----

  lemma AtRitual(p: Plan, startA: int)
    requires WellLaid(p, startA)
    ensures RitualIndex(p) <= |p.ops|
    ensures var t := TrackAt(p.ops, StartOf(p, startA), RitualIndex(p));
            t.d == p.blockStart && t.a == 0 && t.known == StartOf(p, startA).known
  {
    hide IsChain, JunkWorks, LiveCheck, KnownAtStart, Rows, RitualOps, SizeAll, Neighbors, BlockValues, TrackAt,
         SetupOps;
    PlanOps(p, startA);
    var r := RitualIndex(p);
    forall k | 0 <= k < r
      ensures p.ops[k].SetA? || p.ops[k].StoreA?
      ensures k == r - 1 ==> p.ops[k] == SetA(0)
    {
      SetupAt(p.junk, SeedCells(p), k);
      assert p.ops[..r][k] == p.ops[k];
    }
    SetupTrack(p.ops, StartOf(p, startA), r, r);
  }

  lemma BlockValueAt(runway: seq<RouteStep>, value: Word, a: seq<ChainStep>, b: seq<ChainStep>, i: nat)
    ensures var v := BlockValues(runway, value, a, b, None);
            |v| == |runway| + 3 + |a| + |b|
            && (i < |runway| ==> v[i] == runway[i].value)
            && v[|runway|] == value
            && (i < |a| ==> v[|runway| + 1 + i] == ChainSteps(a)[i].value)
            && (i < |b| ==> v[|runway| + 3 + |a| + i] == ChainSteps(b)[i].value)
  {
  }

  /** The layout of the block: runway seeds, the value, chain a, two scratch cells, chain b. */
  lemma BlockLayout(k: map<nat, Word>, start: nat, runway: seq<RouteStep>, value: Word, a: seq<ChainStep>,
                    b: seq<ChainStep>)
    requires var v := BlockValues(runway, value, a, b, None);
             forall x: nat :: start <= x < start + |v| ==> x in k && k[x] == v[x - start]
    ensures Holds(k, start, runway) && CoreCells(k, start + |runway|, value, a, b)
  {
    hide BlockValues, ChainSteps;
    var m := start + |runway|;
    BlockValueAt(runway, value, a, b, 0);
    forall x | start <= x < m
      ensures x in k && k[x] == runway[x - start].value
    {
      BlockValueAt(runway, value, a, b, x - start);
    }
    forall x | m + 1 <= x < m + 1 + |a|
      ensures x in k && k[x] == ChainSteps(a)[x - m - 1].value
    {
      BlockValueAt(runway, value, a, b, x - m - 1);
    }
    forall x | m + |a| + 3 <= x < m + |a| + 3 + |b|
      ensures x in k && k[x] == ChainSteps(b)[x - m - |a| - 3].value
    {
      BlockValueAt(runway, value, a, b, x - m - |a| - 3);
    }
  }

  lemma BlockModeCells(p: Plan, startA: int)
    requires WellLaid(p, startA) && p.cellAddr.None?
    ensures Holds(StartOf(p, startA).known, p.blockStart, p.runway)
    ensures CoreCells(StartOf(p, startA).known, p.MutableAddr(), p.value, p.chainA, p.chainB)
    ensures p.MutableAddr() + |p.chainA| + |p.chainB| + 2 < ABI_ARGC
    ensures |p.blockValues| == |p.runway| + 3 + |p.chainA| + |p.chainB|
  {
    hide IsChain, JunkWorks, LiveCheck, KnownAtStart, Rows, SetupOps, RitualOps, SizeAll, Neighbors, BlockValues;
    var k := StartOf(p, startA).known;
    forall x: nat | p.blockStart <= x < p.blockStart + |p.blockValues|
      ensures x in k && k[x] == p.blockValues[x - p.blockStart]
    {
      KnownBlockMode(p, startA, x);
    }
    NoNeighbors(p, startA);
    BlockValueAt(p.runway, p.value, p.chainA, p.chainB, 0);
    BlockLayout(k, p.blockStart, p.runway, p.value, p.chainA, p.chainB);
  }

  lemma LiveModeCells(p: Plan, startA: int)
    requires WellLaid(p, startA) && p.cellAddr.Some?
    ensures var k := StartOf(p, startA).known;
            Holds(k, p.blockStart, p.runway)
            && p.blockStart + |p.runway| in k && k[p.blockStart + |p.runway|] == ModWord(p.cellAddr.value - 1)
            && CoreCells(k, p.MutableAddr(), p.value, p.chainA, p.chainB)
    ensures p.MutableAddr() + |p.chainA| + |p.chainB| + 2 < ABI_ARGC
    ensures |p.blockValues| == |p.runway| + 1
  {
    hide IsChain, JunkWorks, LiveCheck, KnownAtStart, Rows, SetupOps, RitualOps, SizeAll, Neighbors, ChainSteps;
    var k, addr := StartOf(p, startA).known, p.cellAddr.value;
    KnownLiveMode(p, startA, addr);
    forall x | p.blockStart <= x < p.blockStart + |p.runway| + 1
      ensures x in k && k[x] == p.blockValues[x - p.blockStart]
    {
      KnownLiveMode(p, startA, x);
    }
    forall x | addr + 1 <= x < addr + 1 + |p.chainA|
      ensures x in k && k[x] == ChainSteps(p.chainA)[x - addr - 1].value
    {
      KnownLiveMode(p, startA, x);
    }
    forall x | addr + |p.chainA| + 3 <= x < addr + |p.chainA| + 3 + |p.chainB|
      ensures x in k && k[x] == ChainSteps(p.chainB)[x - addr - |p.chainA| - 3].value
    {
      KnownLiveMode(p, startA, x);
    }
    ChainLength(p, startA);
    LiveClear(p, startA, addr + |p.chainA| + 2 + |p.chainB|);
  }

  lemma ChainLength(p: Plan, startA: int)
    requires WellLaid(p, startA)
    ensures 1 <= |p.chainA| <= 2 && 1 <= |p.chainB| <= 2
  {
  }

  /** At the final p: the runway walked, D on the mutable cell, the core's cells untouched. */
  ghost predicate AtMutable(p: Plan, s: Track) {
    var r, q := RitualIndex(p), FinalIndex(p);
    q < |p.ops| && r + |p.runway| <= q
    && Ticking(p.ops, s, r, r + |p.runway|)
    && TrackAt(p.ops, s, r + |p.runway|).a == RunwayResult(0, p.runway)
    && TrackAt(p.ops, s, q).d == p.MutableAddr()
    && TrackAt(p.ops, s, q).a == RunwayResult(0, p.runway)
    && TrackAt(p.ops, s, q).known.Keys == s.known.Keys
    && CoreCells(TrackAt(p.ops, s, q).known, p.MutableAddr(), p.value, p.chainA, p.chainB)
    && p.MutableAddr() + |p.chainA| + |p.chainB| + 2 < ABI_ARGC
  }

  lemma AtFinalBlock(p: Plan, startA: int)
    requires WellLaid(p, startA) && p.cellAddr.None?
    ensures AtMutable(p, StartOf(p, startA))
  {
    hide WellLaid, TrackAt, RunwayResult, CodeFor, CoreOps, StartOf, ChainSteps;
    PlanOps(p, startA);
    AtRitual(p, startA);
    BlockModeCells(p, startA);
    WalkTicks(p.ops, StartOf(p, startA), RitualIndex(p), p.runway);
  }

  lemma BlockBelow(p: Plan, startA: int)
    requires WellLaid(p, startA)
    ensures p.blockStart + BlockPairs(p) - 1 < ABI_ARGC
  {
    hide IsChain, JunkWorks, LiveCheck, KnownAtStart, Rows, SetupOps, RitualOps, SizeAll, Neighbors, BlockValues;
  }

  lemma AtFinalLive(p: Plan, startA: int)
    requires WellLaid(p, startA) && p.cellAddr.Some?
    ensures AtMutable(p, StartOf(p, startA))
  {
    hide WellLaid, TrackAt, RunwayResult, CodeFor, CoreOps, StartOf, ChainSteps, CoreCells;
    var s, r := StartOf(p, startA), RitualIndex(p);
    PlanOps(p, startA);
    AtRitual(p, startA);
    LiveModeCells(p, startA);
    BlockBelow(p, startA);
    WalkTicks(p.ops, s, r, p.runway);
    LiveClear(p, startA, p.cellAddr.value);
    forall x: nat | InNeighbors(p, p.cellAddr.value, x)
      ensures !(p.blockStart <= x < p.blockStart + |p.runway|)
    {
      LiveClear(p, startA, x);
    }
    LiveHop(p, s, r + |p.runway|, p.cellAddr.value);
  }

  /** D reaches the mutable cell exactly when the final p executes, with the core's cells untouched. */
  lemma AtFinal(p: Plan, startA: int)
    requires WellLaid(p, startA)
    ensures FinalIndex(p) < |p.ops|
    ensures var s, r, q := StartOf(p, startA), RitualIndex(p), FinalIndex(p);
            Ticking(p.ops, s, r, r + |p.runway|)
            && TrackAt(p.ops, s, r).d == p.blockStart && TrackAt(p.ops, s, r).known.Keys == s.known.Keys
            && TrackAt(p.ops, s, r + |p.runway|).a == RunwayResult(0, p.runway)
            && TrackAt(p.ops, s, q).d == p.MutableAddr()
            && TrackAt(p.ops, s, q).a == RunwayResult(0, p.runway)
            && TrackAt(p.ops, s, q).known.Keys == s.known.Keys
            && CoreCells(TrackAt(p.ops, s, q).known, p.MutableAddr(), p.value, p.chainA, p.chainB)
            && TrackAt(p.ops, s, q + 1).a == p.rows[q].aAfter == Crazy(RunwayResult(0, p.runway), p.value)
    ensures p.MutableAddr() + |p.chainA| + |p.chainB| + 2 < ABI_ARGC
  {
    hide WellLaid, TrackAt, SetupOps, RunwayResult, CodeFor, CoreOps, Crazy, StartOf, CoreCells, Ticking;
    PlanOps(p, startA);
    AtRitual(p, startA);
    var s, q := StartOf(p, startA), FinalIndex(p);
    if p.cellAddr.None? {
      AtFinalBlock(p, startA);
    } else {
      AtFinalLive(p, startA);
    }
    LaidRow(p, startA, q);
    FinalP(p, s, q);
  }

  lemma LaidRow(p: Plan, startA: int, i: nat)
    requires WellLaid(p, startA) && i < |p.ops|
    ensures i < |p.rows| && p.rows[i] == RowAt(p.ops, StartOf(p, startA), p.dEntry, i)
  {
    hide IsChain, JunkWorks, LiveCheck, KnownAtStart, SetupOps, RitualOps, SizeAll, Neighbors, BlockValues, TrackAt;
  }

  lemma FinalP(p: Plan, start: Track, q: nat)
    requires q < |p.ops| && p.ops[q..] == CoreOps(|p.chainA|, |p.chainB|, p.MutableAddr())
    requires TrackAt(p.ops, start, q).d == p.MutableAddr() < ABI_ARGC
    requires CoreCells(TrackAt(p.ops, start, q).known, p.MutableAddr(), p.value, p.chainA, p.chainB)
    ensures TrackAt(p.ops, start, q + 1).a == Crazy(TrackAt(p.ops, start, q).a, p.value)
  {
    hide TrackAt, Crazy, CoreOps, Holds;
    CoreShape(p.ops, q, p.chainA, p.chainB, p.MutableAddr());
    TrackUnfold(p.ops, start, q);
    TrackTouch('p', TrackAt(p.ops, start, q));
  }

  /** Cells away from a walked stretch keep the core layout. */
  lemma CoreUntouched(p: Plan, k: map<nat, Word>, k0: map<nat, Word>, d: nat, n: nat, m: nat)
    requires CoreCells(k0, m, p.value, p.chainA, p.chainB) && Outside(k, k0, d, n)
    requires !(d <= m < d + n) && forall x: nat :: InNeighbors(p, m, x) ==> !(d <= x < d + n)
    ensures CoreCells(k, m, p.value, p.chainA, p.chainB)
  {
    hide ChainSteps;
    forall x: nat | InNeighbors(p, m, x)
      ensures x in k0 && x in k && k[x] == k0[x]
    {
    }
    forall x | m + 1 <= x < m + 1 + |p.chainA|
      ensures x in k && k[x] == ChainSteps(p.chainA)[x - (m + 1)].value
    {
      assert InNeighbors(p, m, x);
    }
    forall x | m + |p.chainA| + 3 <= x < m + |p.chainA| + 3 + |p.chainB|
      ensures x in k && k[x] == ChainSteps(p.chainB)[x - (m + |p.chainA| + 3)].value
    {
      assert InNeighbors(p, m, x);
    }
  }

  lemma JustPast(k: map<nat, Word>, k0: map<nat, Word>, d: nat, n: nat)
    requires Outside(k, k0, d, n) && d + n in k0
    ensures d + n in k && k[d + n] == k0[d + n]
  {
  }

  /** The hop sends D from the pointer cell at the end of the block to the live cell. */
  lemma LiveHop(p: Plan, start: Track, i: nat, addr: Word)
    requires i < |p.ops| && p.ops[i] == Classic('j')
    requires TrackAt(p.ops, start, i).d == p.blockStart + |p.runway|
    requires Outside(TrackAt(p.ops, start, i).known, start.known, p.blockStart, |p.runway|)
    requires p.blockStart + |p.runway| in start.known && start.known[p.blockStart + |p.runway|] == ModWord(addr - 1)
    requires CoreCells(start.known, addr, p.value, p.chainA, p.chainB)
    requires !(p.blockStart <= addr < p.blockStart + |p.runway|)
    requires forall x: nat :: InNeighbors(p, addr, x) ==> !(p.blockStart <= x < p.blockStart + |p.runway|)
    ensures var t, u := TrackAt(p.ops, start, i), TrackAt(p.ops, start, i + 1);
            u.d == addr && u.a == t.a && u.known == t.known
            && CoreCells(u.known, addr, p.value, p.chainA, p.chainB)
  {
    hide TrackAt, CoreCells, Outside, InNeighbors;
    JustPast(TrackAt(p.ops, start, i).known, start.known, p.blockStart, |p.runway|);
    TrackHop(p.ops, start, i);
    BackOne(addr);
    CoreUntouched(p, TrackAt(p.ops, start, i).known, start.known, p.blockStart, |p.runway|, addr);
  }

  lemma TrackHop(ops: seq<Instr>, start: Track, i: nat)
    requires i < |ops| && ops[i] == Classic('j') && TrackAt(ops, start, i).d >= 0
             && TrackAt(ops, start, i).d in TrackAt(ops, start, i).known
    ensures var t, u := TrackAt(ops, start, i), TrackAt(ops, start, i + 1);
            u.a == t.a && u.known == t.known && u.d == ModWord(t.known[t.d] as int + 1)
  {
    TrackUnfold(ops, start, i);
  }

  lemma BackOne(addr: Word)
    ensures ModWord(ModWord(addr - 1) + 1) == addr
  {
    if addr > 0 {
      SmallWord(addr - 1);
      SmallWord(addr);
    }
  }

  // ----- the plan is a straight line -----

  function LiveSet(p: Plan): set<nat> {
    if p.cellAddr.Some? then {p.cellAddr.value as nat} else {}
  }

  /**
   Seed number j: its cell lies behind its own store instruction or outside the code, and its
   value is the tracked one.
   */
  lemma SeedPlacement(p: Plan, startA: int, j: nat)
    requires WellPlanned(p, startA) && j < |SeedCells(p)|
    ensures var (x, v) := SeedCells(p)[j];
            x < ABI_ARGC && x in StartOf(p, startA).known && StartOf(p, startA).known[x] == v
            && !(p.cellBase + 6 * (p.junk + 2 * j + 1) <= x < p.cellBase + p.CellCount())
  {
    hide IsChain, LiveCheck, KnownAtStart, Rows, SetupOps, RitualOps, SizeAll, BlockValues;
    var x := SeedCells(p)[j].0;
    if j < |p.blockValues| {
      BlockSeedBehind(p, startA, j);
      if p.cellAddr.None? {
        KnownBlockMode(p, startA, x);
      } else {
        KnownLiveMode(p, startA, x);
      }
    } else {
      NeighborSeed(p, startA, j - |p.blockValues|);
    }
  }

  lemma BlockSeedBehind(p: Plan, startA: int, j: nat)
    requires WellPlanned(p, startA) && j < |p.blockValues|
    ensures p.blockStart + j < ABI_ARGC && p.blockStart + j < p.cellBase + 6 * (p.junk + 2 * j + 1)
  {
    assert |p.blockValues| <= BlockPairs(p) by { BlockLength(p, startA); }
    assert Slack(p.dEntry, p.cellBase, |SeedCells(p)|, p.junk, j + 1) > 0;
  }

  lemma BlockLength(p: Plan, startA: int)
    requires WellPlanned(p, startA)
    ensures |p.blockValues| <= BlockPairs(p)
  {
  }

  lemma NeighborSeed(p: Plan, startA: int, n: nat)
    requires WellPlanned(p, startA) && n < |p.neighbors|
    ensures var (x, v) := p.neighbors[n];
            x < ABI_ARGC && x in StartOf(p, startA).known && StartOf(p, startA).known[x] == v
            && !(p.cellBase <= x < p.cellBase + p.CellCount())
  {
    hide IsChain, JunkWorks, LiveCheck, KnownAtStart, Rows, SetupOps, RitualOps, SizeAll, BlockValues;
    var x := p.neighbors[n].0;
    LiveClear(p, startA, x);
    KnownLiveMode(p, startA, x);
  }

  lemma EndOfPlan(p: Plan)
    ensures End(p.ops, p.cellBase) == p.cellBase + p.CellCount()
  {
    CellEnd(p.ops, p.cellBase, |p.ops|);
    assert p.ops[|p.ops|..] == [];
  }

  lemma SetupCell(p: Plan, startA: int, i: nat)
    requires WellPlanned(p, startA) && i <= RitualIndex(p)
    ensures RitualIndex(p) <= |p.ops| && Cell(p.ops, p.cellBase, i) == p.cellBase + 6 * i
  {
    hide WellLaid, SetupOps, Cell;
    PlanOps(p, startA);
    forall k | 0 <= k < RitualIndex(p)
      ensures Size(p.ops[..RitualIndex(p)][k]) == 6
    {
      SetupAt(p.junk, SeedCells(p), k);
    }
    WideCells(p.ops, p.cellBase, RitualIndex(p), i);
  }

  lemma PlanSetup(p: Plan, startA: int, i: nat)
    requires WellPlanned(p, startA) && i < RitualIndex(p)
    ensures i < |p.ops| && SetupOp(p.ops, StartOf(p, startA), i)
  {
    hide WellLaid, SetupOps, Cell, End, SeedCells, StartOf;
    PlanOps(p, startA);
    SetupAt(p.junk, SeedCells(p), i);
    var setup := SetupOps(p.junk, SeedCells(p));
    assert p.ops[i] == setup[i];
    if p.ops[i].StoreA? {
      var j := (i - p.junk) / 2;
      assert i == p.junk + 2 * j + 1;
      SetupAt(p.junk, SeedCells(p), i - 1);
      assert p.ops[i - 1] == setup[i - 1];
      SeedPlacement(p, startA, j);
      SetupCell(p, startA, i);
      EndOfPlan(p);
      SmallWord(SeedCells(p)[j].1);
    }
    StartCell(p, startA);
  }

  lemma StartCell(p: Plan, startA: int)
    ensures StartOf(p, startA).cell == p.cellBase && StartOf(p, startA).d == p.dEntry
  {
  }

  lemma PlanRitualOp(p: Plan, startA: int, i: nat)
    requires WellPlanned(p, startA) && RitualIndex(p) <= i < |p.ops|
    ensures RitualOp(p.ops, StartOf(p, startA), i)
  {
    hide WellLaid, WellPlanned, TrackAt, StartOf, RitualOp;
    if i < FinalIndex(p) {
      RunwayOpOk(p, startA, i);
    } else {
      CoreOpOk(p, startA, i);
    }
  }

  lemma RunwayOpOk(p: Plan, startA: int, i: nat)
    requires WellPlanned(p, startA) && RitualIndex(p) <= i < FinalIndex(p) && i < |p.ops|
    ensures RitualOp(p.ops, StartOf(p, startA), i)
  {
    hide WellLaid, TrackAt, StartOf, IsChain, RunwayResult, CoreOps, CoreCells;
    var s, r := StartOf(p, startA), RitualIndex(p);
    PlanOps(p, startA);
    AtFinal(p, startA);
    TickAt(p.ops, s, r, r + |p.runway|, i);
    RunwayKnown(p, startA, p.blockStart + (i - r));
  }

  lemma CoreOpOk(p: Plan, startA: int, i: nat)
    requires WellPlanned(p, startA) && FinalIndex(p) <= i < |p.ops|
    ensures RitualOp(p.ops, StartOf(p, startA), i)
  {
    hide WellLaid, TrackAt, StartOf, RunwayResult, CoreOps, Ticking, IsChain, RitualOp, CoreCode;
    var s, q, m := StartOf(p, startA), FinalIndex(p), p.MutableAddr();
    PlanOps(p, startA);
    AtFinal(p, startA);
    CoreFor(p, startA);
    CoreShape(p.ops, q, p.chainA, p.chainB, m);
    if i < |p.ops| - 1 {
      TickAt(p.ops, s, q, |p.ops| - 1, i);
    }
    CoreOpAt(p, s, i);
  }

  /** The core's instructions at their places: crazies on chain cells, prints, the reload, the newline, the halt. */
  lemma CoreOpAt(p: Plan, s: Track, i: nat)
    requires FinalIndex(p) <= i < |p.ops| && |p.ops| == FinalIndex(p) + |p.chainA| + |p.chainB| + 7
    requires var q, m, a, b := FinalIndex(p), p.MutableAddr(), |p.chainA|, |p.chainB|;
             p.ops[q] == Classic('p') && CodeFor(p.ops, q + 1, ChainSteps(p.chainA))
             && p.ops[q + 1 + a] == Classic('<') && p.ops[q + 2 + a] == LoadA(m)
             && CodeFor(p.ops, q + 3 + a, ChainSteps(p.chainB))
             && p.ops[q + 3 + a + b] == Classic('<') && p.ops[q + 4 + a + b] == SetA(10)
             && p.ops[q + 5 + a + b] == Classic('<') && p.ops[q + 6 + a + b] == Classic('v')
    requires i < |p.ops| - 1 ==> TrackAt(p.ops, s, i).d == p.MutableAddr() + (i - FinalIndex(p))
    requires TrackAt(p.ops, s, FinalIndex(p)).known.Keys == s.known.Keys
    requires CoreCells(TrackAt(p.ops, s, FinalIndex(p)).known, p.MutableAddr(), p.value, p.chainA, p.chainB)
    ensures RitualOp(p.ops, s, i)
  {
    hide TrackAt;
    var q, m, a, b := FinalIndex(p), p.MutableAddr(), |p.chainA|, |p.chainB|;
    var known := TrackAt(p.ops, s, q).known;
    if q + 1 <= i < q + 1 + a {
      assert p.ops[i] == Classic(ChainSteps(p.chainA)[i - (q + 1)].op);
      assert m + (i - q) in known;
    } else if q + 3 + a <= i < q + 3 + a + b {
      assert p.ops[i] == Classic(ChainSteps(p.chainB)[i - (q + 3 + a)].op);
      assert m + (i - q) in known;
    }
  }

  lemma RunwayKnown(p: Plan, startA: int, x: nat)
    requires WellLaid(p, startA) && p.blockStart <= x <= p.blockStart + |p.runway|
    ensures x in StartOf(p, startA).known
  {
    hide WellLaid, TrackAt, StartOf, IsChain;
    if p.cellAddr.None? {
      BlockModeCells(p, startA);
      KnownBlockMode(p, startA, x);
    } else {
      LiveModeCells(p, startA);
      KnownLiveMode(p, startA, x);
    }
  }

  lemma PlanChains(p: Plan, startA: int)
    requires WellPlanned(p, startA)
    ensures |p.ok| == 2 && Printable(p.ok[0]) && Printable(p.ok[1])
    ensures IsChain(p.chainA, p.target, p.ok[0] as nat) && IsChain(p.chainB, p.target, p.ok[1] as nat)
  {
  }

  /** The core's track facts, for the plan. */
  lemma CoreFor(p: Plan, startA: int)
    requires WellPlanned(p, startA)
    ensures FinalIndex(p) < |p.ops| && |p.ok| == 2
    ensures var s, q, a, b := StartOf(p, startA), FinalIndex(p), |p.chainA|, |p.chainB|;
            |p.ops| == q + a + b + 7
            && Ticking(p.ops, s, q, |p.ops| - 1) && TrackAt(p.ops, s, q).d == p.MutableAddr()
            && TrackAt(p.ops, s, q + 1 + a).a == p.ok[0] as nat
            && TrackAt(p.ops, s, q + 3 + a + b).a == p.ok[1] as nat
            && TrackAt(p.ops, s, q + 5 + a + b).a == 10
            && p.MutableAddr() in TrackAt(p.ops, s, |p.ops|).known
            && TrackAt(p.ops, s, |p.ops|).known[p.MutableAddr()] == p.target
  {
    hide TrackAt, WellLaid, StartOf, CoreOps, RunwayResult, IsChain, CoreCells, Ticking;
    AtFinal(p, startA);
    PlanOps(p, startA);
    PlanChains(p, startA);
    CoreTrack(p.ops, StartOf(p, startA), FinalIndex(p), p.MutableAddr(), p.value, p.target, p.chainA, p.chainB,
              p.ok[0] as nat, p.ok[1] as nat);
  }

  lemma SeedStored(p: Plan, startA: int, j: nat)
    requires WellPlanned(p, startA) && j < |SeedCells(p)|
    ensures RitualIndex(p) <= |p.ops| && Stored(p.ops, RitualIndex(p), SeedCells(p)[j].0)
  {
    hide WellLaid, SetupOps, SeedCells;
    PlanOps(p, startA);
    var i := p.junk + 2 * j + 1;
    SetupAt(p.junk, SeedCells(p), i);
    assert p.ops[..RitualIndex(p)][i] == p.ops[i];
  }

  /** Every tracked cell other than the live one is seed number j for some j. */
  lemma SeedIndex(p: Plan, startA: int, x: nat) returns (j: nat)
    requires WellPlanned(p, startA) && x in StartOf(p, startA).known && x !in LiveSet(p)
    ensures j < |SeedCells(p)| && SeedCells(p)[j].0 == x
  {
    hide WellLaid, StartOf;
    if p.cellAddr.None? {
      KnownBlockMode(p, startA, x);
      j := x - p.blockStart;
    } else {
      var addr := p.cellAddr.value;
      KnownLiveMode(p, startA, x);
      if InBlock(p, x) {
        j := x - p.blockStart;
      } else {
        j := NeighborIndex(p, startA, addr, x);
        j := |p.blockValues| + j;
      }
    }
  }

  lemma NeighborIndex(p: Plan, startA: int, addr: Word, x: nat) returns (n: nat)
    requires WellPlanned(p, startA) && p.cellAddr == Some(addr) && InNeighbors(p, addr, x)
    ensures n < |p.neighbors| && p.neighbors[n].0 == x
  {
    n := if x < addr + 1 + |p.chainA| then x - addr - 1 else x - addr - 3;
  }

  lemma PlanKnown(p: Plan, startA: int, x: nat)
    requires WellPlanned(p, startA) && x in StartOf(p, startA).known
    ensures RitualIndex(p) <= |p.ops|
    ensures x < ABI_ARGC && (x in LiveSet(p) || Stored(p.ops, RitualIndex(p), x))
    ensures !(Cell(p.ops, p.cellBase, RitualIndex(p)) <= x < End(p.ops, p.cellBase))
    ensures x in LiveSet(p) ==> !(p.cellBase <= x < End(p.ops, p.cellBase))
  {
    hide WellLaid, StartOf, SeedCells, Stored, Cell, End, SizeAll;
    SetupCell(p, startA, RitualIndex(p));
    EndOfPlan(p);
    if x in LiveSet(p) {
      LiveClear(p, startA, x);
    } else {
      var j := SeedIndex(p, startA, x);
      SeedStored(p, startA, j);
      SeedPlacement(p, startA, j);
    }
  }

  lemma LiveKnown(p: Plan, startA: int)
    requires WellPlanned(p, startA)
    ensures forall x :: x in LiveSet(p) ==> x in StartOf(p, startA).known && StartOf(p, startA).known[x] == p.value
  {
    hide WellLaid, StartOf;
    if p.cellAddr.Some? {
      KnownLiveMode(p, startA, p.cellAddr.value);
    }
  }

  /**
   Dead-cell placement: every seed the plan writes, and every cell the ritual touches, is
   clear of the code still to run.
   */
  lemma PlanStraight(p: Plan, startA: int)
    requires WellPlanned(p, startA) && p.cellBase + p.CellCount() <= MEM_SIZE
    ensures Straightline(p.ops, StartOf(p, startA), RitualIndex(p), LiveSet(p))
  {
    hide WellLaid, StartOf, SeedCells, Stored, Cell, End, SetupOp, RitualOp, SizeAll, SetupOps, CoreOps;
    PlanOps(p, startA);
    SetupAt(p.junk, SeedCells(p), 0);
    assert p.ops[0] == p.ops[..RitualIndex(p)][0];
    EndOfPlan(p);
    StartCell(p, startA);
    StartBound(p, startA);
    forall i | 0 <= i < RitualIndex(p)
      ensures SetupOp(p.ops, StartOf(p, startA), i)
    {
      PlanSetup(p, startA, i);
    }
    forall i | RitualIndex(p) <= i < |p.ops|
      ensures RitualOp(p.ops, StartOf(p, startA), i)
    {
      PlanRitualOp(p, startA, i);
    }
    LiveKnown(p, startA);
    forall x | x in StartOf(p, startA).known
      ensures x < MEM_SIZE && (x in LiveSet(p) || Stored(p.ops, RitualIndex(p), x))
      ensures !(Cell(p.ops, p.cellBase, RitualIndex(p)) <= x < End(p.ops, p.cellBase))
      ensures x in LiveSet(p) ==> !(p.cellBase <= x < End(p.ops, p.cellBase))
    {
      PlanKnown(p, startA, x);
    }
  }

  lemma StartBound(p: Plan, startA: int)
    requires WellPlanned(p, startA)
    ensures p.dEntry < p.blockStart < ABI_ARGC
  {
    hide IsChain, JunkWorks, LiveCheck, KnownAtStart, Rows, SetupOps, RitualOps, SizeAll, Neighbors;
  }

  // ----- what is printed -----

  lemma {:induction false} PrintedSilent(ops: seq<Instr>, start: Track, i: nat, j: nat)
    requires i <= j <= |ops| && forall k :: i <= k < j ==> ops[k] != Classic('<')
    ensures Printed(ops, start, j) == Printed(ops, start, i)
    decreases j
  {
    hide TrackAt;
    if i < j {
      PrintedSilent(ops, start, i, j - 1);
      PrintedUnfold(ops, start, j - 1);
    }
  }

  lemma PlanSilent(p: Plan, startA: int, k: nat)
    requires WellPlanned(p, startA) && k < |p.ops| && p.ops[k] == Classic('<')
    ensures k == FinalIndex(p) + 1 + |p.chainA| || k == FinalIndex(p) + 3 + |p.chainA| + |p.chainB|
            || k == FinalIndex(p) + 5 + |p.chainA| + |p.chainB|
  {
    hide WellLaid, SetupOps, CoreOps, SeedCells;
    PlanOps(p, startA);
    var r, q := RitualIndex(p), FinalIndex(p);
    CoreShape(p.ops, q, p.chainA, p.chainB, p.MutableAddr());
    if k < r {
      SetupAt(p.junk, SeedCells(p), k);
      SetupPart(p, startA, k);
    }
  }

  lemma SetupPart(p: Plan, startA: int, k: nat)
    requires WellPlanned(p, startA) && k < RitualIndex(p)
    ensures k < |p.ops| && k < |SetupOps(p.junk, SeedCells(p))| && p.ops[k] == SetupOps(p.junk, SeedCells(p))[k]
  {
    hide WellLaid, SetupOps;
    PlanOps(p, startA);
    assert p.ops[..RitualIndex(p)][k] == p.ops[k];
  }

  lemma PlanPrints(p: Plan, startA: int)
    requires WellPlanned(p, startA)
    ensures |p.ok| == 2 && Printable(p.ok[0]) && Printable(p.ok[1])
    ensures Printed(p.ops, StartOf(p, startA), |p.ops|) == [p.ok[0] as nat, p.ok[1] as nat, 10]
  {
    hide WellLaid, TrackAt, StartOf, CoreOps, Printed, Ticking, IsChain;
    PlanOps(p, startA);
    PlanChains(p, startA);
    CoreFor(p, startA);
    var s, q, a, b := StartOf(p, startA), FinalIndex(p), |p.chainA|, |p.chainB|;
    CoreShape(p.ops, q, p.chainA, p.chainB, p.MutableAddr());
    var i, j, k := q + 1 + a, q + 3 + a + b, q + 5 + a + b;
    forall n | 0 <= n < |p.ops| && n != i && n != j && n != k
      ensures p.ops[n] != Classic('<')
    {
      if p.ops[n] == Classic('<') {
        PlanSilent(p, startA, n);
      }
    }
    ThreePrints(p.ops, s, i, j, k);
  }

  /** Code that prints at three places prints the three characters in A there. */
  lemma ThreePrints(ops: seq<Instr>, s: Track, i: nat, j: nat, k: nat)
    requires i < j < k < |ops| && ops[i] == ops[j] == ops[k] == Classic('<')
    requires forall n :: 0 <= n < |ops| && n != i && n != j && n != k ==> ops[n] != Classic('<')
    requires TrackAt(ops, s, i).a < 256 && TrackAt(ops, s, j).a < 256 && TrackAt(ops, s, k).a < 256
    ensures Printed(ops, s, |ops|) == [TrackAt(ops, s, i).a, TrackAt(ops, s, j).a, TrackAt(ops, s, k).a]
  {
    hide TrackAt, Printed;
    PrintedStart(ops, s);
    PrintedSilent(ops, s, 0, i);
    PrintedUnfold(ops, s, i);
    PrintedSilent(ops, s, i + 1, j);
    PrintedUnfold(ops, s, j);
    PrintedSilent(ops, s, j + 1, k);
    PrintedUnfold(ops, s, k);
    PrintedSilent(ops, s, k + 1, |ops|);
  }

  lemma PrintedStart(ops: seq<Instr>, start: Track)
    ensures Printed(ops, start, 0) == []
  {
  }

  // ----- the theorem -----

  /** Running i instructions reaches planner row i: same cell, D and A, and the next step leaves the row's A. */
  ghost predicate RowHolds(prog: Program, p: Plan, s: Src, script: Script, i: nat)
    requires |s.mem| == MEM_SIZE && i < |p.rows| && i < |p.ops|
  {
    SrcRun(prog, s, script, i).Some? && SrcRun(prog, s, script, i + 1).Some?
    && var row, t, u := p.rows[i], SrcRun(prog, s, script, i).value, SrcRun(prog, s, script, i + 1).value;
    !t.halted
    && row.n == p.dEntry + i + 1
    && t.C == row.cell
    && (if p.ops[i] == Classic('j') then t.D !in t.ran && t.mem[t.D] == row.dAt else t.D == row.dAt)
    && (i > 0 ==> t.A == row.aBefore)
    && u.A == row.aAfter
  }

  /**
   How a plan's code is entered: its instructions in place and clean, D on schedule, the live
   cell (if any) holding the value.
   */
  ghost predicate Entered(prog: Program, p: Plan, s: Src) {
    |s.mem| == MEM_SIZE && !s.halted
    && Placed(prog, p.ops, p.cellBase) && p.cellBase + p.CellCount() <= MEM_SIZE
    && s.C == p.cellBase && s.D == p.dEntry
    && (forall x: Word :: x in s.ran || x in s.dirty ==> !(p.cellBase <= x < p.cellBase + p.CellCount()))
    && (p.cellAddr.Some? ==> p.cellAddr.value !in s.ran && s.mem[p.cellAddr.value] == p.value)
  }

  ghost predicate Completed(p: Plan, s: Src, u: Src) {
    |u.mem| == MEM_SIZE && u.halted && u.exitCode == s.exitCode && u.calls == s.calls
    && |p.ok| == 2 && Printable(p.ok[0]) && Printable(p.ok[1])
    && u.output == s.output + [p.ok[0] as nat, p.ok[1] as nat, 10]
    && p.MutableAddr() < MEM_SIZE && p.MutableAddr() !in u.ran
    && u.mem[p.MutableAddr()] == ModWord(p.value + 1)
  }

  lemma EnteredAgrees(prog: Program, p: Plan, startA: int, s: Src)
    requires WellPlanned(p, startA) && Entered(prog, p, s)
    ensures Straightline(p.ops, StartOf(p, startA), RitualIndex(p), LiveSet(p))
    ensures Agrees(p.ops, StartOf(p, startA), RitualIndex(p), LiveSet(p), s, 0, s)
    ensures Placed(prog, p.ops, StartOf(p, startA).cell)
  {
    hide WellLaid, Straightline, Agrees, End, Placed, StartOf, SizeAll;
    PlanStraight(p, startA);
    EndOfPlan(p);
    StartCell(p, startA);
    LiveKnown(p, startA);
    InitiallyAgrees(p.ops, StartOf(p, startA), RitualIndex(p), LiveSet(p), s);
  }

  /** One row: instruction i runs, and the states around it are the row. */
  lemma RitualRow(prog: Program, p: Plan, startA: int, s: Src, script: Script, i: nat)
    requires WellPlanned(p, startA) && Entered(prog, p, s) && i < |p.ops|
    ensures |p.rows| == |p.ops| && RowHolds(prog, p, s, script, i)
  {
    PlanRows(p, startA, i);
    EnteredAgrees(prog, p, startA, s);
    hide WellLaid, StartOf, Straightline, Placed, TrackAt, SrcRun, Agrees;
    RunRow(prog, p.ops, StartOf(p, startA), RitualIndex(p), LiveSet(p), s, script, i);
  }

  lemma PlanRows(p: Plan, startA: int, i: nat)
    requires WellPlanned(p, startA) && i < |p.ops|
    ensures |p.rows| == |p.ops| && p.rows[i] == RowAt(p.ops, StartOf(p, startA), p.dEntry, i)
    ensures p.target == ModWord(p.value + 1)
  {
    hide IsChain, JunkWorks, LiveCheck, KnownAtStart, SetupOps, RitualOps, SizeAll, Neighbors, BlockValues, TrackAt;
  }

  lemma LastIsHalt(p: Plan, startA: int)
    requires WellPlanned(p, startA)
    ensures |p.ops| > RitualIndex(p) && p.ops[|p.ops| - 1] == Classic('v')
  {
    hide WellLaid, CoreOps;
    PlanOps(p, startA);
    CoreShape(p.ops, FinalIndex(p), p.chainA, p.chainB, p.MutableAddr());
  }

  /** After the last row the ritual is complete. */
  lemma RitualEnds(prog: Program, p: Plan, startA: int, s: Src, script: Script)
    requires WellPlanned(p, startA) && Entered(prog, p, s)
    ensures SrcRun(prog, s, script, |p.ops|).Some?
    ensures Completed(p, s, SrcRun(prog, s, script, |p.ops|).value)
  {
    hide WellLaid, StartOf, Straightline, Placed, TrackAt, Printed, Cell, SrcStep, SetupOp, Agrees, Ticking, End;
    var start := StartOf(p, startA);
    EnteredAgrees(prog, p, startA, s);
    LastIsHalt(p, startA);
    RunDone(prog, p.ops, start, RitualIndex(p), LiveSet(p), s, script);
    CoreFor(p, startA);
    PlanPrints(p, startA);
    MutableKnown(p, startA);
    PlanRows(p, startA, 0);
  }

  lemma MutableKnown(p: Plan, startA: int)
    requires WellPlanned(p, startA)
    ensures p.MutableAddr() in StartOf(p, startA).known
  {
    hide WellLaid, StartOf;
    if p.cellAddr.None? {
      BlockModeCells(p, startA);
    } else {
      LiveModeCells(p, startA);
    }
  }

  lemma LayOutCarries(r: Request, node: Node, a: seq<ChainStep>, b: seq<ChainStep>)
    requires |r.ok| == 2 && LayOut(r, node, a, b).Ok?
    ensures var p := LayOut(r, node, a, b).plan;
            p.value == ModWord(r.value) && p.ok == r.ok && p.cellBase == r.cellBase && p.dEntry == r.dEntry
  {
    hide TrackAt, LeastJunk, RitualOps, Pairs, LiveCheck, KnownAtStart, SizeAll, BlockValues;
  }

  lemma PlanCarries(r: Request)
    requires PlanEntry(r).Ok?
    ensures var p := PlanEntry(r).plan;
            p.value == ModWord(r.value) && p.ok == r.ok && p.cellBase == r.cellBase && p.dEntry == r.dEntry
  {
    hide LayOut, PlanForMasks, SearchMasks, RequestConstants, ChainToTarget, Choices;
    var value, target := ModWord(r.value), ModWord(r.value + 1);
    var node := PlanForMasks(ModWord(r.startA), SearchMasks(value, target, r.maskLimit), r.maxDepth,
                             RequestConstants(r)).value;
    LayOutCarries(r, node, ChainToTarget(target, r.ok[0] as nat, TRITS).value,
                  ChainToTarget(target, r.ok[1] as nat, TRITS).value);
  }

  /**
   Ritual correctness.  Whatever plan the planner returns, entering its code
   with the planned D runs it row by row and completes it: the mutable cell
   holds the incremented value, the two proof characters and a newline are
   printed, and the machine halts.
   */
  lemma RitualCorrect(r: Request, prog: Program, s: Src, script: Script)
    requires PlanEntry(r).Ok? && Entered(prog, PlanEntry(r).plan, s)
    ensures var p := PlanEntry(r).plan;
            p.value == ModWord(r.value) && p.ok == r.ok
            && SrcRun(prog, s, script, |p.ops|).Some? && Completed(p, s, SrcRun(prog, s, script, |p.ops|).value)
            && |p.rows| == |p.ops|
            && forall i: nat :: i < |p.ops| ==> RowHolds(prog, p, s, script, i)
  {
    var p := PlanEntry(r).plan;
    PlannedWell(r);
    PlanCarries(r);
    assert |s.mem| == MEM_SIZE;
    hide WellLaid, Entered, Completed, RowHolds, SrcStep, SrcRun, PlanEntry;
    RitualEnds(prog, p, r.startA, s, script);
    LastIsHalt(p, r.startA);
    PlanRows(p, r.startA, 0);
    forall i: nat | i < |p.ops|
      ensures RowHolds(prog, p, s, script, i)
    {
      RitualRow(prog, p, r.startA, s, script, i);
    }
  }

  /**
   Row i on the virtual machine: before its instruction C, D and A are the
   row's (the hop's row shows the word D is about to load), after it A is.
   Before the first row A is whatever the caller left.
   */
  ghost predicate MachineRow(p: Plan, v: State, script: Script, i: nat)
    requires v.Valid() && i < |p.rows| && i < |p.ops|
  {
    var row, t, u := p.rows[i], Run(v, script, i), Run(v, script, i + 1);
    !t.halted && row.n == p.dEntry + i + 1
    && t.C == row.cell
    && (if p.ops[i] == Classic('j') then t.mem[t.D] == row.dAt else t.D == row.dAt)
    && (i > 0 ==> t.A == row.aBefore)
    && u.A == row.aAfter
  }

  lemma RowOnMachine(prog: Program, p: Plan, s: Src, v: State, script: Script, i: nat)
    requires Sim(prog, s, v) && i < |p.rows| && i < |p.ops| && RowHolds(prog, p, s, script, i)
    ensures MachineRow(p, v, script, i)
  {
    hide SrcRun, Run, InstalledAt, WellPlaced, Size, CleanSpan;
    SimRun(prog, s, v, script, i);
    SimRun(prog, s, v, script, i + 1);
  }

  /** Ritual correctness on the virtual machine, row by row and at the end, from any state that simulates the entry. */
  lemma RitualOnMachine(r: Request, prog: Program, s: Src, v: State, script: Script)
    requires PlanEntry(r).Ok? && Entered(prog, PlanEntry(r).plan, s) && Sim(prog, s, v)
    ensures var p := PlanEntry(r).plan;
            |p.rows| == |p.ops| && forall i: nat :: i < |p.ops| ==> MachineRow(p, v, script, i)
    ensures var p := PlanEntry(r).plan;
            var u := Run(v, script, |p.ops|);
            u.halted && u.exitCode == v.exitCode
            && |p.ok| == 2 && Printable(p.ok[0]) && Printable(p.ok[1])
            && u.output == v.output + [p.ok[0] as nat, p.ok[1] as nat, 10]
            && p.MutableAddr() < MEM_SIZE && u.mem[p.MutableAddr()] == ModWord(r.value + 1)
  {
    hide WellLaid, Entered, SrcStep, PlanEntry, Step, RowHolds, MachineRow;
    var p := PlanEntry(r).plan;
    RitualCorrect(r, prog, s, script);
    forall i: nat | i < |p.ops|
      ensures MachineRow(p, v, script, i)
    {
      RowOnMachine(prog, p, s, v, script, i);
    }
    SimRun(prog, s, v, script, |p.ops|);
    ModWordNext(r.value);
  }

  /**
   The planner's internal errors.  Chains always exist; the simulation never
   looks up a cell it does not track; with A assumed zero the
   closing simulation never disagrees; and padding is always found when the
   code sits at least five cells ahead of D, as the assembler guarantees, and
   the search depth is within what 255 junk instructions can make up for.
   */
  lemma InternalErrorsUnreachable(r: Request)
    ensures PlanEntry(r) != Fail(NoChain)
    ensures PlanEntry(r) != Fail(Untracked)
    ensures ModWord(r.startA) == 0 ==> PlanEntry(r) != Fail(Mismatch)
    ensures r.cellBase >= r.dEntry + 5 && r.maxDepth <= 600 ==> PlanEntry(r) != Fail(NoJunk)
  {
    hide PlanEntry, LayOut, IsChain, RunwayResult, Crazy;
    if PlanEntry(r).Fail? && PlanEntry(r).reason !in {BadOkChars, ImpossibleRewrite, NoRunway} {
      var node, a, b := Stages(r);
      NeverNoChain(r, node, a, b);
      ChainLengths(a, b, ModWord(r.value + 1), r.ok[0] as nat, r.ok[1] as nat);
      if PlanEntry(r).reason == Untracked {
        NeverUntracked(r, node, a, b);
      }
      if PlanEntry(r).reason == Mismatch && ModWord(r.startA) == 0 {
        NeverMismatch(r, node, a, b);
      }
      if PlanEntry(r).reason == NoJunk && r.cellBase >= r.dEntry + 5 && r.maxDepth <= 600 {
        JunkFound(r, node, a, b);
      }
    }
  }

  lemma ChainLengths(a: seq<ChainStep>, b: seq<ChainStep>, from: Word, ok0: Word, ok1: Word)
    requires IsChain(a, from, ok0) && IsChain(b, from, ok1)
    ensures |a| <= 2 && |b| <= 2
  {
  }

  /** From the final p on: D ticks over the core's cells whatever A is. */
  lemma CoreTicks(p: Plan, startA: int)
    requires WellLaid(p, startA)
    ensures FinalIndex(p) < |p.ops|
    ensures Ticking(p.ops, StartOf(p, startA), FinalIndex(p), |p.ops| - 1)
    ensures TrackAt(p.ops, StartOf(p, startA), FinalIndex(p)).d == p.MutableAddr()
  {
    hide TrackAt, WellLaid, StartOf, CoreOps, RunwayResult, IsChain, CoreCells, Ticking;
    AtFinal(p, startA);
    PlanOps(p, startA);
    var s, q := StartOf(p, startA), FinalIndex(p);
    CoreTrack(p.ops, s, q, p.MutableAddr(), p.value, TrackAt(p.ops, s, q + 1).a, p.chainA, p.chainB, 0, 0);
  }

  lemma SetupTracked(p: Plan, startA: int, i: nat)
    requires WellLaid(p, startA) && i < RitualIndex(p) && i < |p.ops|
    ensures Tracked(p.ops[i], TrackAt(p.ops, StartOf(p, startA), i))
  {
    hide WellLaid, TrackAt, StartOf, SetupOps, CoreOps;
    PlanOps(p, startA);
    SetupAt(p.junk, SeedCells(p), i);
    assert p.ops[i] == p.ops[..RitualIndex(p)][i];
  }

  lemma RunwayTracked(p: Plan, startA: int, i: nat)
    requires WellLaid(p, startA) && RitualIndex(p) <= i < FinalIndex(p) && i < |p.ops|
    ensures Tracked(p.ops[i], TrackAt(p.ops, StartOf(p, startA), i))
  {
    hide WellLaid, TrackAt, StartOf, IsChain, RunwayResult, CoreOps, CoreCells;
    var s, r := StartOf(p, startA), RitualIndex(p);
    PlanOps(p, startA);
    AtFinal(p, startA);
    TickAt(p.ops, s, r, r + |p.runway|, i);
    RunwayKnown(p, startA, p.blockStart + (i - r));
  }

  lemma CoreTracked(p: Plan, startA: int, i: nat)
    requires WellLaid(p, startA) && FinalIndex(p) <= i < |p.ops|
    ensures Tracked(p.ops[i], TrackAt(p.ops, StartOf(p, startA), i))
  {
    hide WellLaid, TrackAt, StartOf, RunwayResult, CoreOps, Ticking, IsChain, RitualOp, CoreCode, Tracked;
    var s, q, m := StartOf(p, startA), FinalIndex(p), p.MutableAddr();
    PlanOps(p, startA);
    AtFinal(p, startA);
    CoreTicks(p, startA);
    CoreShape(p.ops, q, p.chainA, p.chainB, m);
    if i < |p.ops| - 1 {
      TickAt(p.ops, s, q, |p.ops| - 1, i);
    }
    CoreOpAt(p, s, i);
    if i < |p.ops| - 1 {
      TouchTracked(p.ops, s, i);
    } else {
      HaltTracked(p.ops, s, i);
    }
  }

  lemma TouchTracked(ops: seq<Instr>, s: Track, i: nat)
    requires i < |ops| && RitualOp(ops, s, i) && TrackAt(ops, s, i).known.Keys == s.known.Keys
    ensures Tracked(ops[i], TrackAt(ops, s, i))
  {
    hide TrackAt;
  }

  lemma HaltTracked(ops: seq<Instr>, s: Track, i: nat)
    requires i < |ops| && ops[i] == Classic('v')
    ensures Tracked(ops[i], TrackAt(ops, s, i))
  {
    hide TrackAt;
  }

  lemma NeverUntracked(r: Request, node: Node, a: seq<ChainStep>, b: seq<ChainStep>)
    requires |r.ok| == 2 && Printable(r.ok[0]) && Printable(r.ok[1])
    requires forall k :: 0 <= k < |node.steps| ==> node.steps[k].op == 'p' || node.steps[k].op == '*'
    requires IsChain(a, ModWord(r.value + 1), r.ok[0] as nat) && IsChain(b, ModWord(r.value + 1), r.ok[1] as nat)
    ensures LayOut(r, node, a, b) != Fail(Untracked)
  {
    hide LayOut, WellLaid, IsChain, BlockValues, Neighbors, LeastJunk, SetupOps, RitualOps, Tracked, TrackAt, StartOf;
    if LayOut(r, node, a, b) == Fail(Untracked) {
      var p := LayOutDraft(r, node, a, b);
      forall i | 0 <= i < |p.ops|
        ensures Tracked(p.ops[i], TrackAt(p.ops, StartOf(p, r.startA), i))
      {
        if i < RitualIndex(p) {
          SetupTracked(p, r.startA, i);
        } else if i < FinalIndex(p) {
          RunwayTracked(p, r.startA, i);
        } else {
          CoreTracked(p, r.startA, i);
        }
      }
    }
  }

  lemma NeverMismatch(r: Request, node: Node, a: seq<ChainStep>, b: seq<ChainStep>)
    requires |r.ok| == 2 && Printable(r.ok[0]) && Printable(r.ok[1])
    requires forall k :: 0 <= k < |node.steps| ==> node.steps[k].op == 'p' || node.steps[k].op == '*'
    requires IsChain(a, ModWord(r.value + 1), r.ok[0] as nat) && IsChain(b, ModWord(r.value + 1), r.ok[1] as nat)
    requires RunwayResult(0, node.steps) == node.value && Crazy(node.value, ModWord(r.value)) == ModWord(r.value + 1)
    ensures LayOut(r, node, a, b) != Fail(Mismatch)
  {
    hide LayOut, WellLaid, IsChain, RunwayResult, Crazy, BlockValues, Neighbors, LeastJunk, SetupOps, RitualOps;
    if LayOut(r, node, a, b) == Fail(Mismatch) {
      var p := LayOutDraft(r, node, a, b);
      AtFinal(p, r.startA);
      DraftCarries(r, node, a, b, p.junk);
    }
  }

  lemma DraftCarries(r: Request, node: Node, a: seq<ChainStep>, b: seq<ChainStep>, junk: nat)
    ensures var p := Draft(r, node, a, b, junk);
            p.runway == node.steps && p.value == ModWord(r.value) && p.target == ModWord(r.value + 1)
  {
  }

  lemma {:induction false} LiveComplaints(targets: seq<nat>, lo: nat, hi: nat, blockStart: nat, pairs: nat)
    ensures LiveCheck(targets, lo, hi, blockStart, pairs) !in {Some(NoChain), Some(NoJunk)}
  {
    if targets != [] {
      LiveComplaints(targets[1..], lo, hi, blockStart, pairs);
    }
  }

  lemma NeverNoChain(r: Request, node: Node, a: seq<ChainStep>, b: seq<ChainStep>)
    requires |r.ok| == 2
    ensures LayOut(r, node, a, b) != Fail(NoChain)
  {
    hide TrackAt, JunkWorks, LeastJunk, RitualOps, Pairs, LiveCheck, KnownAtStart, SizeAll, BlockValues, Neighbors;
    forall targets: seq<nat>, lo: nat, hi: nat, blockStart: nat, pairs: nat
      ensures LiveCheck(targets, lo, hi, blockStart, pairs) !in {Some(NoChain), Some(NoJunk)}
    {
      LiveComplaints(targets, lo, hi, blockStart, pairs);
    }
  }

  lemma JunkFound(r: Request, node: Node, a: seq<ChainStep>, b: seq<ChainStep>)
    requires |r.ok| == 2 && |a| <= 2 && |b| <= 2 && |node.steps| <= 600 && r.cellBase >= r.dEntry + 5
    ensures LayOut(r, node, a, b) != Fail(NoJunk)
  {
    var total := |BlockValues(node.steps, ModWord(r.value), a, b, LiveAddr(r))| + |Neighbors(a, b, LiveAddr(r))|;
    var pairs := if LiveAddr(r).None? then total else |node.steps| + 1;
    assert 1 <= pairs && total <= 607;
    LeastJunkMargin(r.dEntry, r.cellBase, total, pairs, 0);
    hide TrackAt, JunkWorks, LeastJunk, RitualOps, Pairs, LiveCheck, KnownAtStart, SizeAll, BlockValues, Neighbors,
         Slack;
    forall targets: seq<nat>, lo: nat, hi: nat, blockStart: nat, pairs: nat
      ensures LiveCheck(targets, lo, hi, blockStart, pairs) !in {Some(NoChain), Some(NoJunk)}
    {
      LiveComplaints(targets, lo, hi, blockStart, pairs);
    }
  }
}
