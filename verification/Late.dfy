/**
 A crazyinc plan entered behind schedule: the planned D has been charged for
 ticks the machine never spent.  The seeds still go to their absolute
 addresses, the instructions still run, but every crazy lands that many cells
 too low, and the mutable cell keeps the value it was seeded with.
 */
module Late {
  import opened Words
  import opened Glyphs
  import opened Frames
  import opened Machine
  import opened Source
  import opened Planner
  import opened Straight
  import opened Ritual
  import opened Ceremony

  // ----- following the machine into cells the simulation does not track -----

  /** The machine's own state as an assembly state: every cell readable, the given cells taken as overwritten. */
  function Adopt(v: State, dirty: set<Word>): Src {
    Src(v.mem, v.A, v.C, v.D, v.halted, v.exitCode, v.lastError, v.input, v.output, v.calls, {}, dirty)
  }

  /** Executed classic opcodes are given up as overwritten. */
  function Rebase(prog: Program, s: Src, v: State): Src {
    Adopt(v, s.dirty + set x | x in s.ran && x in prog && prog[x].Classic?)
  }

  lemma RebaseSim(prog: Program, s: Src, v: State)
    requires Sim(prog, s, v)
    ensures Sim(prog, Rebase(prog, s, v), v)
  {
    hide DecodeFrame, DecodeOp, FrameOf, OpChar;
    assert forall x: Word :: x in s.ran && x in prog && prog[x].Classic? ==> x in Rebase(prog, s, v).dirty;
    forall pc | pc in prog && CleanSpan(pc, Size(prog[pc]), Rebase(prog, s, v).dirty)
      ensures InstalledAt(v, pc, prog[pc], false)
    {
      SizePositive(prog[pc]);
      assert CleanSpan(pc, Size(prog[pc]), s.dirty);
      assert InstalledAt(v, pc, prog[pc], pc in s.ran);
      assert pc in s.ran ==> !prog[pc].Classic?;
    }
  }

  // ----- one instruction, late -----

  /** A plan's code in place. */
  ghost predicate Laid(prog: Program, p: Plan, startA: int) {
    WellPlanned(p, startA) && Placed(prog, p.ops, p.cellBase) && End(p.ops, p.cellBase) <= MEM_SIZE
  }

  /** With D this far behind, no crazy or rotate of the plan meets the mutable cell. */
  predicate Misses(p: Plan, late: nat) {
    late == |p.chainA| + 1 || late == |p.chainA| + 2 || late > |p.chainA| + |p.chainB| + 2
  }

  /** What instruction i is, and where D stands when it runs on time. */
  ghost predicate OpFacts(p: Plan, startA: int, late: nat, i: nat)
    requires i < |p.ops|
  {
    var op := p.ops[i];
    (if i < RitualIndex(p) then op.SetA? || op.StoreA? else Quiet(op) || op == Classic('p') || op == Classic('*'))
    && (op == Classic('v') <==> i == |p.ops| - 1)
    && (op.StoreA? ==> SetupOp(p.ops, StartOf(p, startA), i))
    && p.dEntry + i + 1 < MEM_SIZE
    && (Touches(op) ==> p.dEntry + i < Cell(p.ops, p.cellBase, i) && p.dEntry + i != p.MutableAddr() + late)
  }

  lemma LateSetup(p: Plan, startA: int, late: nat, i: nat)
    requires WellPlanned(p, startA) && i < RitualIndex(p) && i < |p.ops|
    ensures OpFacts(p, startA, late, i)
  {
    hide WellLaid, StartOf, Cell, End, SeedCells, CoreOps;
    PlanSetup(p, startA, i);
    BlockBelow(p, startA);
    PlanOps(p, startA);
    StartsAt(p, startA);
  }

  lemma StartsAt(p: Plan, startA: int)
    requires WellLaid(p, startA)
    ensures p.blockStart == p.dEntry + RitualIndex(p) < ABI_ARGC
  {
    hide IsChain, JunkWorks, LiveCheck, KnownAtStart, Rows, SetupOps, RitualOps, SizeAll, Neighbors;
  }

  /** In the ritual D on schedule, before any hop, is below the running instruction. */
  lemma BelowCode(p: Plan, startA: int, i: nat)
    requires WellPlanned(p, startA) && RitualIndex(p) <= i < |p.ops|
    ensures p.dEntry + i < Cell(p.ops, p.cellBase, i)
  {
    hide WellLaid, Cell, SeedCells;
    StartsAt(p, startA);
    if p.cellAddr.None? {
      BlockModeCells(p, startA);
    } else {
      LiveModeCells(p, startA);
    }
    BlockSeedBehind(p, startA, 0);
    SetupCell(p, startA, RitualIndex(p));
    CellIncreases(p.ops, p.cellBase, RitualIndex(p), i);
  }

  /** Ritual instructions in block mode: crazies and rotates only over the runway and the chains. */
  lemma BlockRitualOp(p: Plan, startA: int, i: nat)
    requires WellLaid(p, startA) && p.cellAddr.None? && RitualIndex(p) <= i < |p.ops|
    ensures Quiet(p.ops[i]) || p.ops[i] == Classic('p') || p.ops[i] == Classic('*')
    ensures p.ops[i] == Classic('v') <==> i == |p.ops| - 1
    ensures Touches(p.ops[i]) ==>
              i <= FinalIndex(p) + |p.chainA|
                || FinalIndex(p) + |p.chainA| + 3 <= i < FinalIndex(p) + |p.chainA| + |p.chainB| + 3
  {
    hide WellLaid, CoreOps, SeedCells;
    PlanOps(p, startA);
    var q := FinalIndex(p);
    CoreShape(p.ops, q, p.chainA, p.chainB, p.MutableAddr());
    if RitualIndex(p) <= i < q {
      assert p.ops[i] == Classic(p.runway[i - RitualIndex(p)].op);
    } else if q + 1 <= i < q + 1 + |p.chainA| {
      assert p.ops[i] == Classic(ChainSteps(p.chainA)[i - (q + 1)].op);
    } else if q + 3 + |p.chainA| <= i < q + 3 + |p.chainA| + |p.chainB| {
      assert p.ops[i] == Classic(ChainSteps(p.chainB)[i - (q + 3 + |p.chainA|)].op);
    }
  }

  lemma LateRitual(p: Plan, startA: int, late: nat, i: nat)
    requires WellPlanned(p, startA) && p.cellAddr.None? && Misses(p, late) && RitualIndex(p) <= i < |p.ops|
    ensures OpFacts(p, startA, late, i)
  {
    hide WellLaid, Cell, SeedCells, Quiet, StartOf;
    StartsAt(p, startA);
    BlockModeCells(p, startA);
    BelowCode(p, startA, i);
    BlockRitualOp(p, startA, i);
    PlanOps(p, startA);
  }

  /**
   After i instructions, late: C on schedule, D behind, the code ahead intact, the mutable cell
   of a block-mode plan seeded once its store has run.
   */
  ghost predicate LateAt(p: Plan, startA: int, late: nat, i: nat, s: Src)
    requires i <= |p.ops|
  {
    |s.mem| == MEM_SIZE && s.ran == {} && (s.halted <==> i == |p.ops|)
    && (i < |p.ops| ==> s.C == Cell(p.ops, p.cellBase, i) && s.D + late == p.dEntry + i)
    && (forall x: Word :: x in s.dirty ==> !(Cell(p.ops, p.cellBase, i) <= x < End(p.ops, p.cellBase)))
    && (0 < i <= RitualIndex(p) && p.ops[i - 1].SetA? ==> s.A == ModWord(p.ops[i - 1].value))
    && Seeded(p, i, s)
  }

  ghost predicate Seeded(p: Plan, i: nat, s: Src)
    requires |s.mem| == MEM_SIZE && i <= |p.ops|
  {
    p.cellAddr.None? && Stored(p.ops, i, p.MutableAddr()) ==>
      p.MutableAddr() < MEM_SIZE && s.mem[p.MutableAddr()] == p.value
      && !(Cell(p.ops, p.cellBase, i) <= p.MutableAddr() < End(p.ops, p.cellBase))
  }

  lemma LateFetch(prog: Program, p: Plan, startA: int, late: nat, i: nat, s: Src)
    requires Laid(prog, p, startA) && i < |p.ops| && OpFacts(p, startA, late, i) && LateAt(p, startA, late, i, s)
    ensures CanFetch(prog, s) && prog[s.C] == p.ops[i]
    ensures s.C + Size(p.ops[i]) == Cell(p.ops, p.cellBase, i + 1) <= End(p.ops, p.cellBase) <= MEM_SIZE
    ensures i + 1 < |p.ops| ==> s.C + Size(p.ops[i]) < MEM_SIZE
  {
    hide WellPlanned, SetupOp, Size, Stored, Seeded, RitualIndex, StartOf, Cell, End;
    assert Cell(p.ops, p.cellBase, i) in prog;
    CellInside(p.ops, p.cellBase, i);
  }

  lemma CellInside(ops: seq<Instr>, base: nat, i: nat)
    requires i < |ops|
    ensures Cell(ops, base, i) + Size(ops[i]) == Cell(ops, base, i + 1) <= End(ops, base)
    ensures i + 1 < |ops| ==> Cell(ops, base, i + 1) < End(ops, base)
  {
    hide Size;
    CellIncreases(ops, base, i + 1, |ops|);
  }

  /** storea at the assembly level, nothing unreadable. */
  lemma StoreSource(prog: Program, t: Src, script: Script, x: int)
    requires |t.mem| == MEM_SIZE && !t.halted && CanFetch(prog, t) && prog[t.C] == StoreA(x) && 0 <= x < MEM_SIZE
             && x != t.C
    ensures SrcStep(prog, t, script)
         == Some(t.(C := Wrap(t.C + 6), D := Wrap(t.D + 1), mem := t.mem[x := t.A],
                    ran := (t.ran - {x}) + {t.C}, dirty := t.dirty + {x}))
  {
    hide CanFetch;
    SmallWord(x);
    OneWrite(t.mem, x, t.A);
  }

  /** What the next source state u shows before the machine's memory is taken over. */
  ghost predicate LateMoved(p: Plan, late: nat, i: nat, s: Src, u: Src)
    requires i < |p.ops|
  {
    |u.mem| == MEM_SIZE && u.ran <= {s.C} && (u.halted <==> i + 1 == |p.ops|)
    && (i + 1 < |p.ops| ==> u.C == Cell(p.ops, p.cellBase, i + 1) && u.D + late == p.dEntry + i + 1)
    && (forall x: Word :: x in u.dirty ==> !(Cell(p.ops, p.cellBase, i + 1) <= x < End(p.ops, p.cellBase)))
    && (i < RitualIndex(p) && p.ops[i].SetA? ==> u.A == ModWord(p.ops[i].value))
    && Seeded(p, i + 1, u)
    && (p.cellAddr.None? && Stored(p.ops, i + 1, p.MutableAddr()) ==> p.MutableAddr() != s.C)
  }

  lemma {:induction false} LateQuiet(prog: Program, p: Plan, startA: int, late: nat, i: nat, s: Src, script: Script)
    requires Laid(prog, p, startA) && i < |p.ops| && OpFacts(p, startA, late, i) && LateAt(p, startA, late, i, s)
    requires Quiet(p.ops[i])
    ensures SrcStep(prog, s, script).Some? && LateMoved(p, late, i, s, SrcStep(prog, s, script).value)
  {
    hide Laid, CanFetch, Cell, End, ModWord, Wrap, Emitted, Size, SetupOp, SrcStep, Seeded;
    LateFetch(prog, p, startA, late, i, s);
    QuietSource(prog, p.ops[i], s, script);
    NextWrap(s.C, Size(p.ops[i]));
    NextWrap(s.D, 1);
    NextOf(p, i);
    SeedKept(p, i, s, AfterQuiet(p.ops[i], s));
  }

  lemma NextOf(p: Plan, i: nat)
    requires i < |p.ops|
    ensures Cell(p.ops, p.cellBase, i) < Cell(p.ops, p.cellBase, i + 1)
  {
    CellIncreases(p.ops, p.cellBase, i, i + 1);
  }

  /** An instruction that is not the mutable cell's store leaves its seeding alone. */
  lemma SeedKept(p: Plan, i: nat, s: Src, u: Src)
    requires i < |p.ops| && |s.mem| == |u.mem| == MEM_SIZE && Seeded(p, i, s)
    requires p.cellAddr.None? ==> p.ops[i] != StoreA(p.MutableAddr())
    requires p.cellAddr.None? && p.MutableAddr() < MEM_SIZE
             && !(Cell(p.ops, p.cellBase, i) <= p.MutableAddr() < End(p.ops, p.cellBase))
             ==> u.mem[p.MutableAddr()] == s.mem[p.MutableAddr()]
    ensures Seeded(p, i + 1, u)
    ensures p.cellAddr.None? && Stored(p.ops, i + 1, p.MutableAddr()) ==>
              p.MutableAddr() != Cell(p.ops, p.cellBase, i)
  {
    NextOf(p, i);
    CellInside(p.ops, p.cellBase, i);
    assert p.cellAddr.None? && Stored(p.ops, i + 1, p.MutableAddr()) ==> Stored(p.ops, i, p.MutableAddr());
  }

  lemma {:induction false} LateStore(prog: Program, p: Plan, startA: int, late: nat, i: nat, s: Src, script: Script)
    requires Laid(prog, p, startA) && i < |p.ops| && OpFacts(p, startA, late, i) && LateAt(p, startA, late, i, s)
    requires p.ops[i].StoreA? && i < RitualIndex(p)
    ensures SrcStep(prog, s, script).Some? && LateMoved(p, late, i, s, SrcStep(prog, s, script).value)
  {
    hide CanFetch, Cell, End, Wrap, SrcStep, Seeded, ModWord, WellPlanned, Placed;
    LateFetch(prog, p, startA, late, i, s);
    var x := p.ops[i].target;
    StoreSource(prog, s, script, x);
    NextWrap(s.C, 6);
    NextWrap(s.D, 1);
    NextOf(p, i);
    var u := SrcStep(prog, s, script).value;
    StartCell(p, startA);
    if p.cellAddr.None? && x == p.MutableAddr() {
      MutableKnown(p, startA);
      SeedNow(p, i, u);
    } else {
      SeedKept(p, i, s, u);
    }
  }

  lemma SeedNow(p: Plan, i: nat, u: Src)
    requires i < |p.ops| && p.ops[i] == StoreA(p.MutableAddr()) && |u.mem| == MEM_SIZE
    requires p.MutableAddr() < MEM_SIZE && !(Cell(p.ops, p.cellBase, i) <= p.MutableAddr() < End(p.ops, p.cellBase))
    requires u.mem[p.MutableAddr()] == p.value
    ensures Seeded(p, i + 1, u)
    ensures p.cellAddr.None? && Stored(p.ops, i + 1, p.MutableAddr()) ==>
              p.MutableAddr() != Cell(p.ops, p.cellBase, i)
  {
    NextOf(p, i);
    CellInside(p.ops, p.cellBase, i);
  }

  lemma MutableKnown(p: Plan, startA: int)
    requires WellPlanned(p, startA) && p.cellAddr.None?
    ensures p.MutableAddr() in StartOf(p, startA).known && StartOf(p, startA).known[p.MutableAddr()] == p.value
    ensures p.MutableAddr() < ABI_ARGC && Stored(p.ops, |p.ops|, p.MutableAddr())
  {
    hide WellLaid, SetupOps, SeedCells, CoreOps;
    BlockModeCells(p, startA);
    PlanOps(p, startA);
    MutableSeed(p, startA);
    SetupAt(p.junk, SeedCells(p), p.junk + 2 * |p.runway| + 1);
    var i := p.junk + 2 * |p.runway| + 1;
    assert p.ops[i] == p.ops[..RitualIndex(p)][i] == StoreA(p.MutableAddr());
  }

  lemma MutableSeed(p: Plan, startA: int)
    requires WellLaid(p, startA) && p.cellAddr.None?
    ensures |p.runway| < |SeedCells(p)| && SeedCells(p)[|p.runway|].0 == p.MutableAddr()
  {
    hide WellLaid;
    BlockModeCells(p, startA);
  }

  lemma {:induction false} LateTouch(prog: Program, p: Plan, startA: int, late: nat, i: nat, s: Src, script: Script)
    requires Laid(prog, p, startA) && i < |p.ops| && OpFacts(p, startA, late, i) && LateAt(p, startA, late, i, s)
    requires p.ops[i] == Classic('p') || p.ops[i] == Classic('*')
    ensures SrcStep(prog, s, script).Some? && LateMoved(p, late, i, s, SrcStep(prog, s, script).value)
  {
    hide Laid, CanFetch, Cell, End, Wrap, SrcStep, Seeded, ModWord, SetupOp, TouchResult;
    LateFetch(prog, p, startA, late, i, s);
    var w := TouchResult(p.ops[i].op, s.A, s.mem[s.D]);
    TouchSource(prog, p.ops[i].op, s, script);
    NextWrap(s.C, 1);
    NextWrap(s.D, 1);
    NextOf(p, i);
    SeedKept(p, i, s, AfterTouch(s, w));
  }

  // ----- the whole plan, late -----

  /** Instructions followed here: the setup of any plan, and the ritual of a block-mode plan whose cell is missed. */
  predicate Followed(p: Plan, late: nat, i: nat) {
    i < RitualIndex(p) || (p.cellAddr.None? && Misses(p, late))
  }

  lemma LateOne(prog: Program, p: Plan, startA: int, late: nat, i: nat, s: Src, script: Script)
    requires Laid(prog, p, startA) && Followed(p, late, i) && i < |p.ops| && LateAt(p, startA, late, i, s)
    ensures SrcStep(prog, s, script).Some? && LateMoved(p, late, i, s, SrcStep(prog, s, script).value)
    ensures s.C == Cell(p.ops, p.cellBase, i)
  {
    hide WellPlanned, SrcStep, LateMoved, OpFacts, Placed, Seeded, Cell, End, StartOf;
    if i < RitualIndex(p) {
      LateSetup(p, startA, late, i);
    } else {
      LateRitual(p, startA, late, i);
    }
    LateKind(p, startA, late, i);
    if p.ops[i].StoreA? {
      LateStore(prog, p, startA, late, i, s, script);
    } else if Quiet(p.ops[i]) {
      LateQuiet(prog, p, startA, late, i, s, script);
    } else {
      LateTouch(prog, p, startA, late, i, s, script);
    }
  }

  lemma LateKind(p: Plan, startA: int, late: nat, i: nat)
    requires i < |p.ops| && OpFacts(p, startA, late, i)
    ensures Quiet(p.ops[i]) || p.ops[i] == Classic('p') || p.ops[i] == Classic('*')
            || (p.ops[i].StoreA? && i < RitualIndex(p))
  {
    hide SetupOp, StartOf, Cell;
  }

  /** One machine step, and the source state taken over from it. */
  lemma LateStep(prog: Program, p: Plan, startA: int, late: nat, i: nat, s: Src, v: State, script: Script)
    returns (t: Src)
    requires Laid(prog, p, startA) && Followed(p, late, i) && i < |p.ops| && LateAt(p, startA, late, i, s)
             && Sim(prog, s, v)
    ensures LateAt(p, startA, late, i + 1, t) && Sim(prog, t, Step(v, script)) && !v.halted
  {
    hide Laid, SrcStep, Sim, Step, OpFacts, LateMoved, Followed, Cell, End, Seeded;
    LateOne(prog, p, startA, late, i, s, script);
    SimHalted(prog, s, v);
    SimStep(prog, s, v, script);
    var u := SrcStep(prog, s, script).value;
    RebaseSim(prog, u, Step(v, script));
    t := Rebase(prog, u, Step(v, script));
    Rebased(prog, p, startA, late, i, s, u, Step(v, script));
  }

  lemma SimHalted(prog: Program, s: Src, v: State)
    requires Sim(prog, s, v)
    ensures v.Valid() && v.halted == s.halted
  {
  }

  lemma Rebased(prog: Program, p: Plan, startA: int, late: nat, i: nat, s: Src, u: Src, v: State)
    requires i < |p.ops| && LateMoved(p, late, i, s, u) && Sim(prog, u, v) && s.C == Cell(p.ops, p.cellBase, i)
    ensures LateAt(p, startA, late, i + 1, Rebase(prog, u, v))
  {
    hide Cell, End, InstalledAt, CleanSpan, Stored, RitualIndex;
    var t := Rebase(prog, u, v);
    NextOf(p, i);
    CellInside(p.ops, p.cellBase, i);
    assert Seeded(p, i + 1, t);
    forall x: Word | x in t.dirty
      ensures !(Cell(p.ops, p.cellBase, i + 1) <= x < End(p.ops, p.cellBase))
    {
    }
  }

  lemma {:induction false} LateRun(prog: Program, p: Plan, startA: int, late: nat, i: nat, s: Src, v: State,
                                   script: Script)
    requires Laid(prog, p, startA) && p.cellAddr.None? && Misses(p, late) && i <= |p.ops|
    requires LateAt(p, startA, late, i, s) && Sim(prog, s, v)
    ensures var u := Run(v, script, |p.ops| - i);
            u.Valid() && u.halted && p.MutableAddr() < MEM_SIZE && u.mem[p.MutableAddr()] == p.value
    decreases |p.ops| - i
  {
    hide Laid, Sim, Step, Misses, LateAt;
    SimHalted(prog, s, v);
    if i < |p.ops| {
      var t := LateStep(prog, p, startA, late, i, s, v, script);
      LateRun(prog, p, startA, late, i + 1, t, Step(v, script), script);
    } else {
      LateEnd(prog, p, startA, late, s, v);
    }
  }

  lemma LateEnd(prog: Program, p: Plan, startA: int, late: nat, s: Src, v: State)
    requires Laid(prog, p, startA) && p.cellAddr.None? && LateAt(p, startA, late, |p.ops|, s) && Sim(prog, s, v)
    ensures v.halted && p.MutableAddr() < MEM_SIZE && v.mem[p.MutableAddr()] == p.value
  {
    hide WellPlanned, InstalledAt, CleanSpan, Placed, Stored, Cell, End, RitualIndex, StartOf;
    MutableKnown(p, startA);
  }

  /** A plan's code entered with D `late` cells behind the plan. */
  ghost predicate EnteredLate(prog: Program, p: Plan, late: nat, s: Src) {
    |s.mem| == MEM_SIZE && !s.halted
    && Placed(prog, p.ops, p.cellBase) && p.cellBase + p.CellCount() <= MEM_SIZE
    && s.C == p.cellBase && s.D + late == p.dEntry
    && forall x: Word :: x in s.ran || x in s.dirty ==> !(p.cellBase <= x < p.cellBase + p.CellCount())
  }

  lemma LateStart(prog: Program, p: Plan, startA: int, late: nat, s: Src, v: State)
    requires WellPlanned(p, startA) && EnteredLate(prog, p, late, s) && Sim(prog, s, v)
    ensures Laid(prog, p, startA) && LateAt(p, startA, late, 0, Rebase(prog, s, v))
  {
    hide WellPlanned, InstalledAt, CleanSpan, Placed, SizeAll;
    EndOfPlan(p);
    HasOps(p, startA);
  }

  lemma HasOps(p: Plan, startA: int)
    requires WellPlanned(p, startA)
    ensures |p.ops| > 0
  {
    hide WellLaid;
    PlanOps(p, startA);
  }

  /**
   A late ritual rewrites nothing.  Enter a block-mode plan with D behind by
   a distance at which no crazy meets the mutable cell, in particular by more
   than the core's span: the machine runs the plan to its halt and the mutable
   cell still holds the value it was meant to step past.
   */
  lemma LateNeverIncrements(r: Request, prog: Program, late: nat, s: Src, v: State, script: Script)
    requires PlanEntry(r).Ok? && PlanEntry(r).plan.cellAddr.None? && Misses(PlanEntry(r).plan, late)
    requires EnteredLate(prog, PlanEntry(r).plan, late, s) && Sim(prog, s, v)
    ensures var p := PlanEntry(r).plan;
            var u := Run(v, script, |p.ops|);
            u.Valid() && u.halted && p.MutableAddr() < MEM_SIZE
            && u.mem[p.MutableAddr()] == ModWord(r.value) != ModWord(r.value + 1)
  {
    hide PlanEntry, WellPlanned, Sim, EnteredLate, Misses, LateAt, Laid;
    var p := PlanEntry(r).plan;
    PlannedWell(r);
    PlanCarries(r);
    LateStart(prog, p, r.startA, late, s, v);
    SimHalted(prog, s, v);
    RebaseSim(prog, s, v);
    LateRun(prog, p, r.startA, late, 0, Rebase(prog, s, v), v, script);
    Differs(r.value);
  }

  lemma Differs(x: int)
    ensures ModWord(x) != ModWord(x + 1)
  {
    ModWordNext(x);
    if ModWord(x) < WORD_MOD - 1 {
      SmallWord(ModWord(x) + 1);
    } else {
      assert ModWord(WORD_MOD) == 0;
    }
  }

  /** Chains have one or two steps, so seven ticks are always past the core's span. */
  lemma SevenMisses(r: Request, late: nat)
    requires PlanEntry(r).Ok? && late >= 7
    ensures Misses(PlanEntry(r).plan, late)
  {
    hide PlanEntry, WellLaid;
    PlannedWell(r);
    ChainLength(PlanEntry(r).plan, r.startA);
  }

  // ----- the first late crazy, in either mode -----

  /** The setup runs as planned whatever D is. */
  lemma {:induction false} LateSetupRun(prog: Program, p: Plan, startA: int, late: nat, i: nat, s: Src, v: State,
                                        script: Script) returns (t: Src)
    requires v.Valid() && Laid(prog, p, startA) && i <= RitualIndex(p) < |p.ops|
    requires LateAt(p, startA, late, 0, s) && Sim(prog, s, v)
    ensures LateAt(p, startA, late, i, t) && Sim(prog, t, Run(v, script, i))
    decreases i
  {
    hide Laid, Sim, Step, LateAt, RitualIndex;
    if i == 0 {
      t := s;
    } else {
      var before := LateSetupRun(prog, p, startA, late, i - 1, s, v, script);
      LateGoesOn(p, startA, late, i - 1, before);
      SimHalted(prog, before, Run(v, script, i - 1));
      t := LateStep(prog, p, startA, late, i - 1, before, Run(v, script, i - 1), script);
      LateLast(v, script, i - 1);
    }
  }

  lemma LateGoesOn(p: Plan, startA: int, late: nat, i: nat, s: Src)
    requires i < |p.ops| && LateAt(p, startA, late, i, s)
    ensures !s.halted && |s.mem| == MEM_SIZE
  {
    hide Seeded, Cell, End, RitualIndex;
  }

  lemma LateLast(v: State, script: Script, i: nat)
    requires v.Valid() && !Run(v, script, i).halted
    ensures Run(v, script, i + 1) == Step(Run(v, script, i), script)
  {
    hide Step;
    RunSplit(v, script, i, 1);
    var t := Run(v, script, i);
    assert Run(t, script, 1) == Run(Step(t, script), script, 0);
  }

  /** The first ritual instruction touches a cell: a runway step, the hop, or the final crazy. */
  lemma FirstTouch(p: Plan, startA: int)
    requires WellLaid(p, startA)
    ensures 0 < RitualIndex(p) < |p.ops| && p.ops[RitualIndex(p) - 1] == SetA(0) && Touches(p.ops[RitualIndex(p)])
  {
    hide WellLaid, SetupOps, SeedCells, CoreOps;
    PlanOps(p, startA);
    CoreShape(p.ops, FinalIndex(p), p.chainA, p.chainB, p.MutableAddr());
    SetupAt(p.junk, SeedCells(p), RitualIndex(p) - 1);
    assert p.ops[..RitualIndex(p)][RitualIndex(p) - 1] == p.ops[RitualIndex(p) - 1];
    if p.runway != [] {
      assert p.ops[RitualIndex(p)] == Classic(p.runway[0].op);
    }
  }

  /** The ritual's first instruction, late. */
  lemma FirstLateStep(prog: Program, p: Plan, startA: int, late: nat, s: Src, v: State, script: Script)
    requires Laid(prog, p, startA) && RitualIndex(p) < |p.ops| && Sim(prog, s, v)
    requires LateAt(p, startA, late, RitualIndex(p), s)
    ensures late <= p.blockStart < MEM_SIZE && v.Valid() && !v.halted && v.D == p.blockStart - late && v.A == 0
    ensures var op, w, u := p.ops[RitualIndex(p)], v.mem[v.D], Step(v, script);
            !u.halted && Touches(op)
            && (op == Classic('p') ==> u.A == Crazy(0, w) && u.D == v.D + 1)
            && (op == Classic('*') ==> u.A == RotateRight(w) && u.D == v.D + 1)
            && (op == Classic('p') || op == Classic('*') ==> u.mem[v.D] == u.A)
            && (op == Classic('j') ==> u.A == 0 && u.D == Wrap(w as nat + 1))
  {
    hide WellPlanned, CanFetch, Cell, End, Seeded, Crazy, RotateRight, InstalledAt, CleanSpan, Size, RitualIndex,
         SrcStep, Step;
    var q := RitualIndex(p);
    LaidPlan(p, startA);
    FirstTouch(p, startA);
    StartsAt(p, startA);
    BelowCode(p, startA, q);
    TouchFetch(prog, p, startA, late, q, s);
    assert s.D + late == p.dEntry + q && !s.halted && s.ran == {};
    TouchOnMachine(prog, p.ops[q], s, v, script);
  }

  lemma TouchFetch(prog: Program, p: Plan, startA: int, late: nat, i: nat, s: Src)
    requires Laid(prog, p, startA) && i < |p.ops| && LateAt(p, startA, late, i, s) && Touches(p.ops[i])
    ensures CanFetch(prog, s) && prog[s.C] == p.ops[i] && s.C == Cell(p.ops, p.cellBase, i)
  {
    hide WellPlanned, Size, Stored, Seeded, RitualIndex, Cell, End;
    assert Cell(p.ops, p.cellBase, i) in prog;
    CellInside(p.ops, p.cellBase, i);
  }

  lemma TouchOnMachine(prog: Program, op: Instr, s: Src, v: State, script: Script)
    requires Sim(prog, s, v) && !s.halted && CanFetch(prog, s) && prog[s.C] == op && Touches(op) && s.ran == {}
             && s.D < s.C
    ensures v.Valid() && !v.halted && v.D == s.D && v.A == s.A && v.mem == s.mem
    ensures var w, u := v.mem[v.D], Step(v, script);
            !u.halted
            && (op == Classic('p') ==> u.A == Crazy(s.A, w) && u.D == v.D + 1)
            && (op == Classic('*') ==> u.A == RotateRight(w) && u.D == v.D + 1)
            && (op == Classic('p') || op == Classic('*') ==> u.mem[v.D] == u.A)
            && (op == Classic('j') ==> u.A == s.A && u.D == Wrap(w as nat + 1))
  {
    hide CanFetch, Crazy, RotateRight, InstalledAt, CleanSpan, Size, WellPlaced, Step;
    NextWrap(s.D, 1);
    if op == Classic('j') {
      HopSource(prog, s, script);
    } else {
      TouchSource(prog, op.op, s, script);
    }
    StepMatches(prog, s, v, script);
  }

  lemma HopSource(prog: Program, s: Src, script: Script)
    requires |s.mem| == MEM_SIZE && !s.halted && CanFetch(prog, s) && prog[s.C] == Classic('j') && s.ran == {}
    ensures SrcStep(prog, s, script)
         == Some(s.(C := Wrap(s.C + 1), D := Wrap(s.mem[s.D] as nat + 1), ran := {s.C}))
  {
    hide CanFetch;
    NoWrites(s.mem);
    assert s.dirty + {} == s.dirty && (s.ran - {}) + {s.C} == {s.C};
  }

  /** What the first late crazy, rotate or hop makes of word w under D. */
  ghost predicate Meets(op: Instr, t: State, u: State, x: nat)
    requires t.Valid() && u.Valid() && x < MEM_SIZE
  {
    t.D == x && t.A == 0 && !t.halted && !u.halted && Touches(op)
    && (op == Classic('p') ==> u.A == Crazy(0, t.mem[x]) && u.D == x + 1)
    && (op == Classic('*') ==> u.A == RotateRight(t.mem[x]) && u.D == x + 1)
    && (op == Classic('p') || op == Classic('*') ==> u.mem[x] == u.A)
    && (op == Classic('j') ==> u.A == 0 && u.D == Wrap(t.mem[x] as nat + 1))
  }

  /**
   What a late plan meets first, in either mode.  After the setup, A is zero and
   D stands `late` cells below the first seed.  The first crazy or rotate takes
   the word it finds there and writes its result back there; a hop without a
   runway sends D behind that word.  The outcome depends on that cell, not on the seed.
   */
  lemma LateMeets(r: Request, prog: Program, late: nat, s: Src, v: State, script: Script)
    requires v.Valid() && PlanEntry(r).Ok? && EnteredLate(prog, PlanEntry(r).plan, late, s) && Sim(prog, s, v)
    ensures var p := PlanEntry(r).plan;
            RitualIndex(p) < |p.ops| && late <= p.blockStart < MEM_SIZE
            && Meets(p.ops[RitualIndex(p)], Run(v, script, RitualIndex(p)), Run(v, script, RitualIndex(p) + 1),
                     p.blockStart - late)
  {
    hide PlanEntry, WellPlanned, WellLaid, Sim, EnteredLate, LateAt, Laid, RitualIndex, Crazy, RotateRight, Touches,
         Step, Run;
    var p := PlanEntry(r).plan;
    PlannedWell(r);
    LaidPlan(p, r.startA);
    FirstTouch(p, r.startA);
    LateStart(prog, p, r.startA, late, s, v);
    SimHalted(prog, s, v);
    RebaseSim(prog, s, v);
    var t := LateSetupRun(prog, p, r.startA, late, RitualIndex(p), Rebase(prog, s, v), v, script);
    FirstLateStep(prog, p, r.startA, late, t, Run(v, script, RitualIndex(p)), script);
    LateLast(v, script, RitualIndex(p));
  }

  lemma LaidPlan(p: Plan, startA: int)
    requires WellPlanned(p, startA)
    ensures WellLaid(p, startA)
  {
  }
}
