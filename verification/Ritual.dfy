/**
 The planner's plans work.  Whenever PlanEntry returns a plan, entering its
 code by fall-through with the planned D makes the machine follow the plan row
 by row, turn the mutable cell from x into x+1, print the two proof characters
 and a newline, and halt.
 */
module Ritual {
  import opened Words
  import opened Frames
  import opened Source
  import opened Inversion
  import opened Search
  import opened Planner
  import opened Straight

  // ----- setup code: six cells and one tick per instruction -----

  predicate Wide(ops: seq<Instr>) {
    forall i :: 0 <= i < |ops| ==> Size(ops[i]) == 6
  }

  lemma {:induction false} PairAt(cells: seq<(nat, Word)>, i: nat)
    requires i < 2 * |cells|
    ensures Pairs(cells)[i] == if i % 2 == 0 then SetA(cells[i / 2].1) else StoreA(cells[i / 2].0)
  {
    if i >= 2 {
      PairAt(cells[1..], i - 2);
      assert Pairs(cells)[i] == Pairs(cells[1..])[i - 2];
      assert (i - 2) % 2 == i % 2 && (i - 2) / 2 == i / 2 - 1;
    }
  }

  /** Instruction i of the setup: junk, then seta/storea pairs, then the reset of A. */
  lemma SetupAt(junk: nat, cells: seq<(nat, Word)>, i: nat)
    requires i < junk + 2 * |cells| + 1
    ensures |SetupOps(junk, cells)| == junk + 2 * |cells| + 1
    ensures SetupOps(junk, cells)[i] ==
              if i < junk || i == junk + 2 * |cells| then SetA(0)
              else if (i - junk) % 2 == 0 then SetA(cells[(i - junk) / 2].1) else StoreA(cells[(i - junk) / 2].0)
  {
    if junk <= i < junk + 2 * |cells| {
      PairAt(cells, i - junk);
      assert SetupOps(junk, cells)[i] == Pairs(cells)[i - junk];
    }
  }

  lemma {:induction false} WideCells(ops: seq<Instr>, base: nat, r: nat, i: nat)
    requires i <= r <= |ops| && Wide(ops[..r])
    ensures Cell(ops, base, i) == base + 6 * i
    decreases i
  {
    if i > 0 {
      WideCells(ops, base, r, i - 1);
      assert ops[i - 1] == ops[..r][i - 1];
    }
  }

  /** Until the ritual the simulation only ticks D and tracks the last seta. */
  lemma {:induction false} SetupTrack(ops: seq<Instr>, start: Track, r: nat, i: nat)
    requires i <= r <= |ops| && start.d >= 0 && start.d + r < WORD_MOD
    requires forall k :: 0 <= k < r ==> ops[k].SetA? || ops[k].StoreA?
    ensures TrackAt(ops, start, i).d == start.d + i && TrackAt(ops, start, i).known == start.known
    ensures i > 0 && ops[i - 1].SetA? ==> TrackAt(ops, start, i).a == ModWord(ops[i - 1].value)
    decreases i
  {
    if i > 0 {
      SetupTrack(ops, start, r, i - 1);
    }
  }

  // ----- walking D over tracked cells -----

  ghost predicate Holds(known: map<nat, Word>, d: nat, steps: seq<RouteStep>) {
    forall x :: d <= x < d + |steps| ==> x in known && known[x] == steps[x - d].value
  }

  ghost predicate CodeFor(ops: seq<Instr>, i: nat, steps: seq<RouteStep>) {
    i + |steps| <= |ops|
    && forall j :: i <= j < i + |steps| ==>
         (steps[j - i].op == 'p' || steps[j - i].op == '*') && ops[j] == Classic(steps[j - i].op)
  }

  /** Cells outside [d, d+n) keep what they held. */
  ghost predicate Outside(a: map<nat, Word>, b: map<nat, Word>, d: nat, n: nat) {
    a.Keys == b.Keys && forall x :: x in a && !(d <= x < d + n) ==> a[x] == b[x]
  }

  lemma {:induction false} WalkTrack(ops: seq<Instr>, start: Track, i: nat, steps: seq<RouteStep>, n: nat)
    requires CodeFor(ops, i, steps) && n <= |steps|
    requires var t := TrackAt(ops, start, i); t.d >= 0 && t.d + |steps| < WORD_MOD && Holds(t.known, t.d, steps)
    ensures var t, u := TrackAt(ops, start, i), TrackAt(ops, start, i + n);
            u.d == t.d + n && u.a == RunwayResult(t.a, steps[..n])
            && u.known.Keys == t.known.Keys && Outside(u.known, t.known, t.d, n)
            && (n > 0 ==> u.known[t.d + n - 1] == u.a)
    decreases n
  {
    hide Crazy, RotateRight, TrackStep, StepResult;
    if n > 0 {
      WalkTrack(ops, start, i, steps, n - 1);
      var t, u := TrackAt(ops, start, i), TrackAt(ops, start, i + n - 1);
      var step := steps[n - 1];
      assert steps[..n][..n - 1] == steps[..n - 1];
      assert ops[i + n - 1] == Classic(step.op);
      assert u.d in u.known && u.known[u.d] == step.value;
      WalkStep(ops, start, i + n - 1, step);
    }
  }

  lemma WalkStep(ops: seq<Instr>, start: Track, i: nat, step: RouteStep)
    requires i < |ops| && ops[i] == Classic(step.op) && (step.op == 'p' || step.op == '*')
    requires var t := TrackAt(ops, start, i);
             0 <= t.d && t.d + 1 < WORD_MOD && t.d in t.known && t.known[t.d] == step.value
    ensures var t, u := TrackAt(ops, start, i), TrackAt(ops, start, i + 1);
            u.d == t.d + 1 && u.a == StepResult(t.a, step) && u.known == t.known[t.d := u.a]
  {
    hide Crazy, RotateRight;
    TrackUnfold(ops, start, i);
    TrackTouch(step.op, TrackAt(ops, start, i));
  }

  // ----- chains as walks -----

  function ChainSteps(chain: seq<ChainStep>): (r: seq<RouteStep>)
    ensures |r| == |chain|
  {
    seq(|chain|, i requires 0 <= i < |chain| => RouteStep('p', ModWord(chain[i].seed)))
  }

  lemma {:induction false} DriveIsRunway(a: Word, chain: seq<ChainStep>)
    requires 1 <= |chain| <= 2 && forall k :: 0 <= k < |chain| ==> chain[k].seed < WORD_MOD
    ensures RunwayResult(a, ChainSteps(chain)) == Drive(a, chain, TRITS)
  {
    hide CrazyW, RotateRight;
    var steps := ChainSteps(chain);
    assert steps[..0] == [];
    assert RunwayResult(a, steps[..0]) == a;
    if |chain| == 1 {
      assert chain == [chain[0]] && steps[..|steps| - 1] == steps[..0];
      DriveOne(a, chain[0], TRITS);
    } else {
      assert chain == [chain[0], chain[1]];
      assert steps[..|steps| - 1] == steps[..1] && steps[..1][..0] == steps[..0];
      assert RunwayResult(a, steps[..1]) == StepResult(a, steps[0]);
      DriveTwo(a, chain[0], chain[1], TRITS);
    }
  }

  ghost predicate IsChain(chain: seq<ChainStep>, from: Word, to: Word) {
    1 <= |chain| <= 2 && RunwayResult(from, ChainSteps(chain)) == to
  }

  lemma PlannedChain(from: Word, to: Word)
    ensures ChainToTarget(from, to, TRITS).Some? && IsChain(ChainToTarget(from, to, TRITS).value, from, to)
  {
    hide ChainToTarget, Drive, RunwayResult, Pow3;
    PowTen();
    ChainTotal(from, to, TRITS);
    DriveIsRunway(from, ChainToTarget(from, to, TRITS).value);
  }

  // ----- the core: from the final p to the halt -----

  function CoreOps(aLen: nat, bLen: nat, mutable: nat): seq<Instr> {
    [Classic('p')] + Crazies(aLen) + [Classic('<'), LoadA(mutable)]
    + Crazies(bLen) + [Classic('<'), SetA(10), Classic('<'), Classic('v')]
  }

  /** The seeds the core walks over: the mutable cell, chain a behind it, two scratch ticks, chain b. */
  ghost predicate CoreCells(known: map<nat, Word>, mutable: nat, value: Word, a: seq<ChainStep>, b: seq<ChainStep>) {
    mutable in known && known[mutable] == value
    && Holds(known, mutable + 1, ChainSteps(a))
    && Holds(known, mutable + |a| + 3, ChainSteps(b))
  }

  lemma CoreShape(ops: seq<Instr>, q: nat, a: seq<ChainStep>, b: seq<ChainStep>, mutable: nat)
    requires q <= |ops| && ops[q..] == CoreOps(|a|, |b|, mutable)
    ensures |ops| == q + |a| + |b| + 7
    ensures ops[q] == Classic('p') && CodeFor(ops, q + 1, ChainSteps(a))
    ensures ops[q + 1 + |a|] == Classic('<') && ops[q + 2 + |a|] == LoadA(mutable)
    ensures CodeFor(ops, q + 3 + |a|, ChainSteps(b))
    ensures ops[q + 3 + |a| + |b|] == Classic('<') && ops[q + 4 + |a| + |b|] == SetA(10)
    ensures ops[q + 5 + |a| + |b|] == Classic('<') && ops[q + 6 + |a| + |b|] == Classic('v')
  {
    var core := CoreOps(|a|, |b|, mutable);
    forall k | 0 <= k < |core|
      ensures ops[q + k] == core[k]
    {
      assert ops[q..][k] == ops[q + k];
    }
    assert core[0] == Classic('p');
  }

  /** The first crazy of the core rewrites the mutable cell and leaves A at the target. */
  lemma CoreFirst(ops: seq<Instr>, start: Track, q: nat, mutable: nat, value: Word, target: Word, a: seq<ChainStep>,
                  b: seq<ChainStep>)
    requires q < |ops| && ops[q] == Classic('p') && mutable + |a| + |b| + 6 < WORD_MOD
    requires var t := TrackAt(ops, start, q); t.d == mutable && CoreCells(t.known, mutable, value, a, b)
    requires TrackAt(ops, start, q + 1).a == target
    ensures var t0, t1 := TrackAt(ops, start, q), TrackAt(ops, start, q + 1);
            t1.known == t0.known[mutable := target] && t1.d == mutable + 1 && t1.known.Keys == t0.known.Keys
            && Holds(t1.known, mutable + 1, ChainSteps(a)) && Holds(t1.known, mutable + |a| + 3, ChainSteps(b))
  {
    var t0 := TrackAt(ops, start, q);
    TrackUnfold(ops, start, q);
    hide TrackAt;
    TrackTouch('p', t0);
  }

  /** D and A through the core, and what each print emits. */
  lemma CoreTrack(ops: seq<Instr>, start: Track, q: nat, mutable: nat, value: Word, target: Word,
                  a: seq<ChainStep>, b: seq<ChainStep>, ok0: Word, ok1: Word)
    requires q <= |ops| && ops[q..] == CoreOps(|a|, |b|, mutable)
    requires var t := TrackAt(ops, start, q); t.d == mutable && CoreCells(t.known, mutable, value, a, b)
    requires mutable + |a| + |b| + 6 < WORD_MOD
    requires TrackAt(ops, start, q + 1).a == target
    ensures |ops| == q + |a| + |b| + 7
    ensures Ticking(ops, start, q, |ops| - 1)
    ensures TrackAt(ops, start, |ops|).known.Keys == TrackAt(ops, start, q).known.Keys
    ensures IsChain(a, target, ok0) ==> TrackAt(ops, start, q + 1 + |a|).a == ok0
    ensures IsChain(b, target, ok1) ==> TrackAt(ops, start, q + 3 + |a| + |b|).a == ok1
    ensures TrackAt(ops, start, q + 5 + |a| + |b|).a == 10
    ensures mutable in TrackAt(ops, start, |ops|).known && TrackAt(ops, start, |ops|).known[mutable] == target
  {
    hide TrackAt, Ticking, IsChain, CoreOps;
    CoreShape(ops, q, a, b, mutable);
    assert CoreCode(ops, q + 1, q + 3 + |a|, mutable, a, b);
    hide CoreCode;
    CoreFirst(ops, start, q, mutable, value, target, a, b);
    OneTick(ops, start, q);
    CoreLast(ops, start, q + 1, q + 3 + |a|, mutable, target, a, b, ok0, ok1);
    JoinTicks(ops, start, q, q + 1, |ops| - 1);
  }

  /** Between instructions i and j, D advances one cell per instruction and no tracked cell appears or goes. */
  ghost predicate Ticking(ops: seq<Instr>, start: Track, i: nat, j: nat)
    requires i <= j <= |ops|
  {
    forall k {:trigger TrackAt(ops, start, k)} :: i <= k <= j ==>
      TrackAt(ops, start, k).d == TrackAt(ops, start, i).d + (k - i)
      && TrackAt(ops, start, k).known.Keys == TrackAt(ops, start, i).known.Keys
  }

  lemma WalkTicks(ops: seq<Instr>, start: Track, i: nat, steps: seq<RouteStep>)
    requires CodeFor(ops, i, steps)
    requires var t := TrackAt(ops, start, i); t.d >= 0 && t.d + |steps| < WORD_MOD && Holds(t.known, t.d, steps)
    ensures Ticking(ops, start, i, i + |steps|)
    ensures var t, u := TrackAt(ops, start, i), TrackAt(ops, start, i + |steps|);
            u.a == RunwayResult(t.a, steps) && Outside(u.known, t.known, t.d, |steps|)
  {
    forall k | i <= k <= i + |steps|
      ensures TrackAt(ops, start, k).d == TrackAt(ops, start, i).d + (k - i)
              && TrackAt(ops, start, k).known.Keys == TrackAt(ops, start, i).known.Keys
    {
      WalkTick(ops, start, i, steps, k);
    }
    WalkEnd(ops, start, i, steps);
  }

  lemma WalkTick(ops: seq<Instr>, start: Track, i: nat, steps: seq<RouteStep>, k: nat)
    requires CodeFor(ops, i, steps) && i <= k <= i + |steps|
    requires var t := TrackAt(ops, start, i); t.d >= 0 && t.d + |steps| < WORD_MOD && Holds(t.known, t.d, steps)
    ensures TrackAt(ops, start, k).d == TrackAt(ops, start, i).d + (k - i)
    ensures TrackAt(ops, start, k).known.Keys == TrackAt(ops, start, i).known.Keys
  {
    hide TrackAt, RunwayResult, Holds;
    WalkTrack(ops, start, i, steps, k - i);
  }

  lemma WalkEnd(ops: seq<Instr>, start: Track, i: nat, steps: seq<RouteStep>)
    requires CodeFor(ops, i, steps)
    requires var t := TrackAt(ops, start, i); t.d >= 0 && t.d + |steps| < WORD_MOD && Holds(t.known, t.d, steps)
    ensures var t, u := TrackAt(ops, start, i), TrackAt(ops, start, i + |steps|);
            u.a == RunwayResult(t.a, steps) && Outside(u.known, t.known, t.d, |steps|)
  {
    hide TrackAt, RunwayResult, Holds;
    assert steps[..|steps|] == steps;
    WalkTrack(ops, start, i, steps, |steps|);
  }

  /** Chain a, its print, and the reload of the mutable cell. */
  lemma FirstProof(ops: seq<Instr>, start: Track, i: nat, mutable: nat, target: Word, a: seq<ChainStep>, ok0: Word)
    requires CodeFor(ops, i, ChainSteps(a)) && i + |a| + 2 <= |ops|
    requires ops[i + |a|] == Classic('<') && ops[i + |a| + 1] == LoadA(mutable)
    requires var t := TrackAt(ops, start, i);
             t.d == mutable + 1 && t.a == target && mutable in t.known && t.known[mutable] == target
             && Holds(t.known, mutable + 1, ChainSteps(a))
    requires mutable + |a| + 3 < WORD_MOD
    ensures Ticking(ops, start, i, i + |a| + 2) && (IsChain(a, target, ok0) ==> TrackAt(ops, start, i + |a|).a == ok0)
    ensures var t, u := TrackAt(ops, start, i), TrackAt(ops, start, i + |a| + 2);
            u.a == target && Outside(u.known, t.known, mutable + 1, |a|)
  {
    hide TrackAt, RunwayResult, Holds, CodeFor;
    WalkTicks(ops, start, i, ChainSteps(a));
    QuietTrack(ops, start, i + |a|);
    QuietTrack(ops, start, i + |a| + 1);
  }

  /** Chain b, its print, the newline and the halt. */
  lemma SecondProof(ops: seq<Instr>, start: Track, i: nat, target: Word, b: seq<ChainStep>, ok1: Word)
    requires CodeFor(ops, i, ChainSteps(b)) && i + |b| + 4 == |ops|
    requires ops[i + |b|] == Classic('<') && ops[i + |b| + 1] == SetA(10)
    requires ops[i + |b| + 2] == Classic('<') && ops[i + |b| + 3] == Classic('v')
    requires var t := TrackAt(ops, start, i); t.d >= 0 && t.a == target && Holds(t.known, t.d, ChainSteps(b))
    requires TrackAt(ops, start, i).d + |b| + 3 < WORD_MOD
    ensures Ticking(ops, start, i, i + |b| + 3) && (IsChain(b, target, ok1) ==> TrackAt(ops, start, i + |b|).a == ok1)
    ensures TrackAt(ops, start, i + |b| + 2).a == 10
    ensures var t, u := TrackAt(ops, start, i), TrackAt(ops, start, |ops|);
            Outside(u.known, t.known, t.d, |b|)
  {
    hide TrackAt, RunwayResult, Holds, CodeFor;
    WalkTicks(ops, start, i, ChainSteps(b));
    QuietTrack(ops, start, i + |b|);
    QuietTrack(ops, start, i + |b| + 1);
    QuietTrack(ops, start, i + |b| + 2);
    HaltTrack(ops, start, i + |b| + 3);
  }

  /** Chain a, its print, the reload, chain b, its print, the newline, the halt: what lies where from i and j on. */
  ghost predicate CoreCode(ops: seq<Instr>, i: nat, j: nat, mutable: nat, a: seq<ChainStep>, b: seq<ChainStep>) {
    j == i + |a| + 2 && j + |b| + 4 == |ops|
    && CodeFor(ops, i, ChainSteps(a)) && ops[i + |a|] == Classic('<') && ops[i + |a| + 1] == LoadA(mutable)
    && CodeFor(ops, j, ChainSteps(b)) && ops[j + |b|] == Classic('<') && ops[j + |b| + 1] == SetA(10)
    && ops[j + |b| + 2] == Classic('<') && ops[j + |b| + 3] == Classic('v')
  }

  lemma CoreLast(ops: seq<Instr>, start: Track, i: nat, j: nat, mutable: nat, target: Word,
                 a: seq<ChainStep>, b: seq<ChainStep>, ok0: Word, ok1: Word)
    requires CoreCode(ops, i, j, mutable, a, b)
    requires var t := TrackAt(ops, start, i);
             t.d == mutable + 1 && t.a == target && mutable in t.known && t.known[mutable] == target
             && Holds(t.known, mutable + 1, ChainSteps(a)) && Holds(t.known, mutable + |a| + 3, ChainSteps(b))
    requires mutable + |a| + |b| + 6 < WORD_MOD
    ensures Ticking(ops, start, i, |ops| - 1)
    ensures TrackAt(ops, start, |ops|).known.Keys == TrackAt(ops, start, i).known.Keys
    ensures IsChain(a, target, ok0) ==> TrackAt(ops, start, i + |a|).a == ok0
    ensures IsChain(b, target, ok1) ==> TrackAt(ops, start, j + |b|).a == ok1
    ensures TrackAt(ops, start, j + |b| + 2).a == 10
    ensures mutable in TrackAt(ops, start, |ops|).known && TrackAt(ops, start, |ops|).known[mutable] == target
  {
    hide TrackAt, RunwayResult, CodeFor, CoreOps, IsChain, Ticking, Holds, Outside, ChainSteps;
    FirstProof(ops, start, i, mutable, target, a, ok0);
    Reloaded(ops, start, i, j, mutable, target, a, b);
    SecondProof(ops, start, j, target, b, ok1);
    Closing(ops, start, i, j, |ops| - 1, mutable, target, |a|, |b|);
  }

  /** After the first proof: still ticking, the mutable cell intact, chain b's cells too. */
  lemma Reloaded(ops: seq<Instr>, start: Track, i: nat, j: nat, mutable: nat, target: Word, a: seq<ChainStep>,
                 b: seq<ChainStep>)
    requires i <= j <= |ops| && j == i + |a| + 2 && Ticking(ops, start, i, j)
    requires var t, u := TrackAt(ops, start, i), TrackAt(ops, start, j);
             t.d == mutable + 1 && mutable in t.known && t.known[mutable] == target
             && Holds(t.known, mutable + |a| + 3, ChainSteps(b)) && Outside(u.known, t.known, mutable + 1, |a|)
    ensures var u := TrackAt(ops, start, j);
            u.d == mutable + |a| + 3 && mutable in u.known && u.known[mutable] == target
              && Holds(u.known, u.d, ChainSteps(b))
  {
    hide TrackAt, Ticking, Holds, Outside, ChainSteps;
    var t, u := TrackAt(ops, start, i), TrackAt(ops, start, j);
    TickAt(ops, start, i, j, j);
    HoldsOutside(u.known, t.known, mutable + 1, |a|, mutable + |a| + 3, ChainSteps(b));
    OutsideKeeps(u.known, t.known, mutable + 1, |a|, mutable);
  }

  lemma Closing(ops: seq<Instr>, start: Track, i: nat, j: nat, k: nat, mutable: nat, target: Word, m: nat, n: nat)
    requires i <= j <= k < |ops| && Ticking(ops, start, i, j) && Ticking(ops, start, j, k)
    requires var u, w := TrackAt(ops, start, j), TrackAt(ops, start, |ops|);
             u.d == mutable + m + 3 && mutable in u.known && u.known[mutable] == target
               && Outside(w.known, u.known, u.d, n)
    ensures Ticking(ops, start, i, k)
    ensures var t, w := TrackAt(ops, start, i), TrackAt(ops, start, |ops|);
            w.known.Keys == t.known.Keys && mutable in w.known && w.known[mutable] == target
  {
    hide TrackAt, Ticking, Outside;
    JoinTicks(ops, start, i, j, k);
    TickAt(ops, start, i, j, j);
    var u, w := TrackAt(ops, start, j), TrackAt(ops, start, |ops|);
    OutsideKeeps(w.known, u.known, u.d, n, mutable);
  }

  lemma TickAt(ops: seq<Instr>, start: Track, i: nat, j: nat, k: nat)
    requires i <= k <= j <= |ops| && Ticking(ops, start, i, j)
    ensures TrackAt(ops, start, k).d == TrackAt(ops, start, i).d + (k - i)
    ensures TrackAt(ops, start, k).known.Keys == TrackAt(ops, start, i).known.Keys
  {
  }

  lemma JoinTicks(ops: seq<Instr>, start: Track, i: nat, j: nat, k: nat)
    requires i <= j <= k <= |ops| && Ticking(ops, start, i, j) && Ticking(ops, start, j, k)
    ensures Ticking(ops, start, i, k)
  {
    hide TrackAt;
    TickAt(ops, start, i, j, j);
  }

  lemma OneTick(ops: seq<Instr>, start: Track, i: nat)
    requires i < |ops| && TrackAt(ops, start, i + 1).d == TrackAt(ops, start, i).d + 1
    requires TrackAt(ops, start, i + 1).known.Keys == TrackAt(ops, start, i).known.Keys
    ensures Ticking(ops, start, i, i + 1)
  {
    hide TrackAt;
  }

  lemma OutsideKeeps(u: map<nat, Word>, t: map<nat, Word>, at: nat, n: nat, x: nat)
    requires Outside(u, t, at, n) && x in t && !(at <= x < at + n)
    ensures x in u && u[x] == t[x] && u.Keys == t.Keys
  {
  }

  lemma HoldsOutside(u: map<nat, Word>, t: map<nat, Word>, at: nat, n: nat, from: nat, steps: seq<RouteStep>)
    requires Outside(u, t, at, n) && at + n <= from && Holds(t, from, steps)
    ensures Holds(u, from, steps)
  {
  }

  lemma HaltTrack(ops: seq<Instr>, start: Track, i: nat)
    requires i < |ops| && ops[i] == Classic('v')
    ensures TrackAt(ops, start, i + 1).known == TrackAt(ops, start, i).known
  {
    TrackUnfold(ops, start, i);
  }

  lemma QuietTrack(ops: seq<Instr>, start: Track, i: nat)
    requires i < |ops| && Quiet(ops[i])
    requires 0 <= TrackAt(ops, start, i).d && TrackAt(ops, start, i).d + 1 < WORD_MOD
    ensures var t, u := TrackAt(ops, start, i), TrackAt(ops, start, i + 1);
            u.d == t.d + 1 && u.known == t.known
            && u.a == if ops[i].SetA? then ModWord(ops[i].value)
                      else if ops[i].LoadA? then Known(t.known, ops[i].source) else t.a
  {
    TrackUnfold(ops, start, i);
    TrackQuiet(ops[i], TrackAt(ops, start, i));
    SmallWord(TrackAt(ops, start, i).d + 1);
  }

  // ----- what is known at the start -----

  lemma {:induction false} InstallAt(base: nat, values: seq<Word>, known: map<nat, Word>, x: nat)
    ensures var m := Install(At(base, values), known);
            if base <= x < base + |values| then x in m && m[x] == values[x - base]
            else (x in m <==> x in known) && (x in known ==> m[x] == known[x])
    decreases |values|
  {
    if values != [] {
      var rest := At(base, values)[1..];
      assert rest == At(base + 1, values[1..]);
      var known1 := known[base := values[0]];
      assert Install(At(base, values), known) == Install(rest, known1);
      InstallAt(base + 1, values[1..], known1, x);
    }
  }

  lemma {:induction false} InstallSplit(a: seq<(nat, Word)>, b: seq<(nat, Word)>, known: map<nat, Word>)
    ensures Install(a + b, known) == Install(b, Install(a, known))
    decreases |a|
  {
    if a == [] {
      assert a + b == b;
    } else {
      assert (a + b)[1..] == a[1..] + b;
      InstallSplit(a[1..], b, known[a[0].0 := a[0].1]);
    }
  }

  function SeedCells(p: Plan): seq<(nat, Word)> {
    At(p.blockStart, p.blockValues) + p.neighbors
  }

  function StartOf(p: Plan, startA: int): Track {
    Track(p.cellBase, p.dEntry, ModWord(startA),
          KnownAtStart(p.blockStart, p.blockValues, p.cellAddr, p.value, p.neighbors))
  }

  /** Index of the first ritual instruction and of the final p. */
  function RitualIndex(p: Plan): nat {
    p.junk + 2 * |SeedCells(p)| + 1
  }

  function FinalIndex(p: Plan): nat {
    RitualIndex(p) + |p.runway| + (if p.cellAddr.Some? then 1 else 0)
  }

  function BlockPairs(p: Plan): nat {
    if p.cellAddr.None? then |p.blockValues| + |p.neighbors| else |p.runway| + 1
  }

  predicate InBlock(p: Plan, x: nat) {
    p.blockStart <= x < p.blockStart + |p.blockValues|
  }

  predicate InNeighbors(p: Plan, addr: nat, x: nat) {
    addr + 1 <= x < addr + 1 + |p.chainA| || addr + |p.chainA| + 3 <= x < addr + |p.chainA| + 3 + |p.chainB|
  }

  /** Everything the planner settled before its closing check. */
  ghost predicate WellLaid(p: Plan, startA: int) {
    p.blockValues == BlockValues(p.runway, p.value, p.chainA, p.chainB, p.cellAddr)
    && p.neighbors == Neighbors(p.chainA, p.chainB, p.cellAddr)
    && p.blockStart == p.dEntry + RitualIndex(p)
    && JunkWorks(p.dEntry, p.cellBase, |SeedCells(p)|, BlockPairs(p), p.junk)
    && p.blockStart + BlockPairs(p) - 1 < ABI_ARGC
    && p.ops == SetupOps(p.junk, SeedCells(p))
       + RitualOps(p.runway, |p.chainA|, |p.chainB|, p.cellAddr.Some?, p.MutableAddr())
    && (p.cellAddr.Some? ==>
          LiveCheck(LiveTargets(p.cellAddr.value, p.neighbors), p.cellBase, p.cellBase + p.CellCount(), p.blockStart,
                    BlockPairs(p)) == None)
    && p.rows == Rows(p.ops, StartOf(p, startA), p.dEntry)
    && FinalIndex(p) < |p.ops|
    && (forall k :: 0 <= k < |p.runway| ==> p.runway[k].op == 'p' || p.runway[k].op == '*')
    && |p.ok| == 2 && Printable(p.ok[0]) && Printable(p.ok[1])
    && IsChain(p.chainA, p.target, p.ok[0] as nat) && IsChain(p.chainB, p.target, p.ok[1] as nat)
    && p.target == ModWord(p.value + 1)
  }

  /** The closing check: the simulated final p leaves the target in A. */
  ghost predicate WellPlanned(p: Plan, startA: int) {
    WellLaid(p, startA) && p.rows[FinalIndex(p)].aAfter == p.target
  }

  lemma {:induction false} LeastJunkWorks(dEntry: nat, cellBase: nat, total: nat, pairs: nat, k: nat)
    requires LeastJunk(dEntry, cellBase, total, pairs, k).Some?
    ensures JunkWorks(dEntry, cellBase, total, pairs, LeastJunk(dEntry, cellBase, total, pairs, k).value)
    decreases JUNK_LIMIT - k
  {
    if !JunkWorks(dEntry, cellBase, total, pairs, k) {
      LeastJunkWorks(dEntry, cellBase, total, pairs, k + 1);
    }
  }

  lemma RitualLength(runway: seq<RouteStep>, aLen: nat, bLen: nat, live: bool, mutable: nat)
    ensures |RitualOps(runway, aLen, bLen, live, mutable)| == |runway| + (if live then 1 else 0) + aLen + bLen + 7
  {
  }

  /** The plan before the closing check. */
  function Draft(r: Request, node: Node, a: seq<ChainStep>, b: seq<ChainStep>, junk: nat): Plan {
    var value, target, live := ModWord(r.value), ModWord(r.value + 1), LiveAddr(r);
    var blockValues := BlockValues(node.steps, value, a, b, live);
    var neighbors := Neighbors(a, b, live);
    var total := |blockValues| + |neighbors|;
    var blockStart := r.dEntry + junk + 2 * total + 1;
    var mutable := if live.Some? then live.value else blockStart + |node.steps|;
    var ops := SetupOps(junk, At(blockStart, blockValues) + neighbors)
      + RitualOps(node.steps, |a|, |b|, live.Some?, mutable);
    var start := Track(r.cellBase, r.dEntry, ModWord(r.startA),
                       KnownAtStart(blockStart, blockValues, live, value, neighbors));
    Plan(value, target, node.value, node.steps, a, b, r.ok, r.dEntry, r.cellBase, junk,
         blockStart, blockValues, ops, Rows(ops, start, r.dEntry), live, neighbors)
  }

  lemma DraftWellLaid(r: Request, node: Node, a: seq<ChainStep>, b: seq<ChainStep>, junk: nat)
    requires |r.ok| == 2 && Printable(r.ok[0]) && Printable(r.ok[1])
    requires forall k :: 0 <= k < |node.steps| ==> node.steps[k].op == 'p' || node.steps[k].op == '*'
    requires IsChain(a, ModWord(r.value + 1), r.ok[0] as nat) && IsChain(b, ModWord(r.value + 1), r.ok[1] as nat)
    requires var p := Draft(r, node, a, b, junk);
             JunkWorks(p.dEntry, p.cellBase, |SeedCells(p)|, BlockPairs(p), p.junk)
             && p.blockStart + BlockPairs(p) - 1 < ABI_ARGC
             && (p.cellAddr.Some? ==>
                   LiveCheck(LiveTargets(p.cellAddr.value, p.neighbors), p.cellBase, p.cellBase + p.CellCount(),
                             p.blockStart, BlockPairs(p)) == None)
    ensures WellLaid(Draft(r, node, a, b, junk), r.startA)
  {
    hide TrackAt, IsChain, JunkWorks, RitualOps, Pairs, LiveCheck, KnownAtStart, SizeAll;
    var p := Draft(r, node, a, b, junk);
    ModWordNext(r.value);
    SetupAt(p.junk, SeedCells(p), 0);
    RitualLength(p.runway, |p.chainA|, |p.chainB|, p.cellAddr.Some?, p.MutableAddr());
    assert p.blockStart == p.dEntry + RitualIndex(p);
  }

  /** The number of seed pairs, and how many of them the padding must bring behind their stores. */
  function PairTotal(r: Request, node: Node, a: seq<ChainStep>, b: seq<ChainStep>): nat {
    |BlockValues(node.steps, ModWord(r.value), a, b, LiveAddr(r))| + |Neighbors(a, b, LiveAddr(r))|
  }

  function PairCount(r: Request, node: Node, a: seq<ChainStep>, b: seq<ChainStep>): nat {
    if LiveAddr(r).None? then PairTotal(r, node, a, b) else |node.steps| + 1
  }

  /** What LayOut returns is the draft, unless a check fails; after layout come the simulation and the closing check. */
  lemma LayOutDraft(r: Request, node: Node, a: seq<ChainStep>, b: seq<ChainStep>) returns (p: Plan)
    requires |r.ok| == 2 && Printable(r.ok[0]) && Printable(r.ok[1])
    requires forall k :: 0 <= k < |node.steps| ==> node.steps[k].op == 'p' || node.steps[k].op == '*'
    requires IsChain(a, ModWord(r.value + 1), r.ok[0] as nat) && IsChain(b, ModWord(r.value + 1), r.ok[1] as nat)
    requires LayOut(r, node, a, b).Ok? || LayOut(r, node, a, b).reason in {Mismatch, Untracked}
    ensures p == Draft(r, node, a, b, p.junk) && WellLaid(p, r.startA)
    ensures LayOut(r, node, a, b)
         == if !AllTracked(p.ops, StartOf(p, r.startA)) then Fail(Untracked)
            else if p.rows[FinalIndex(p)].aAfter == p.target then Ok(p) else Fail(Mismatch)
  {
    hide TrackAt, IsChain, JunkWorks, LeastJunk, RitualOps, Pairs, LiveCheck, KnownAtStart, SizeAll, BlockValues,
         Neighbors, WellLaid, AllTracked;
    var total, pairs := PairTotal(r, node, a, b), PairCount(r, node, a, b);
    var junk := LeastJunk(r.dEntry, r.cellBase, total, pairs, 0);
    p := Draft(r, node, a, b, junk.value);
    LiveTargetsNoComplaint(LiveTargets(if p.cellAddr.Some? then p.cellAddr.value else 0, p.neighbors), p.cellBase,
                           p.cellBase + p.CellCount(), p.blockStart, BlockPairs(p));
    LeastJunkWorks(r.dEntry, r.cellBase, total, pairs, 0);
    DraftWellLaid(r, node, a, b, junk.value);
    SetupAt(p.junk, SeedCells(p), 0);
  }

  lemma {:induction false} LiveTargetsNoComplaint(targets: seq<nat>, lo: nat, hi: nat, blockStart: nat, pairs: nat)
    ensures LiveCheck(targets, lo, hi, blockStart, pairs) !in {Some(Mismatch), Some(Untracked)}
  {
    if targets != [] {
      LiveTargetsNoComplaint(targets[1..], lo, hi, blockStart, pairs);
    }
  }

  lemma ModWordNext(v: int)
    ensures ModWord(ModWord(v) + 1) == ModWord(v + 1)
  {
    ModWordSum(1, v);
  }

  /** The planner's last stage, with what the earlier stages guarantee about its inputs. */
  lemma Stages(r: Request) returns (node: Node, a: seq<ChainStep>, b: seq<ChainStep>)
    requires PlanEntry(r).Ok? || PlanEntry(r).reason !in {BadOkChars, ImpossibleRewrite, NoRunway}
    ensures |r.ok| == 2 && Printable(r.ok[0]) && Printable(r.ok[1])
    ensures PlanEntry(r) == LayOut(r, node, a, b)
    ensures forall k :: 0 <= k < |node.steps| ==> node.steps[k].op == 'p' || node.steps[k].op == '*'
    ensures |node.steps| <= r.maxDepth
    ensures RunwayResult(ModWord(r.startA), node.steps) == node.value
    ensures Crazy(node.value, ModWord(r.value)) == ModWord(r.value + 1)
    ensures IsChain(a, ModWord(r.value + 1), r.ok[0] as nat) && IsChain(b, ModWord(r.value + 1), r.ok[1] as nat)
  {
    hide LayOut, PlanForMasks, SearchMasks, RequestConstants, IsChain, ChainToTarget, Choices, RunwayResult, Crazy,
         Reach;
    var value, target := ModWord(r.value), ModWord(r.value + 1);
    var masks, constants := SearchMasks(value, target, r.maskLimit), RequestConstants(r);
    var i := FirstReachableMask(ModWord(r.startA), masks, r.maxDepth, constants);
    node := PlanForMasks(ModWord(r.startA), masks, r.maxDepth, constants).value;
    assert forall k :: 0 <= k < |node.steps| ==> RunwayStep(node.steps[k], constants);
    MaskRewrites(value, target, r.maskLimit, i);
    PlannedChain(target, r.ok[0] as nat);
    PlannedChain(target, r.ok[1] as nat);
    a, b := ChainToTarget(target, r.ok[0] as nat, TRITS).value, ChainToTarget(target, r.ok[1] as nat, TRITS).value;
  }

  lemma MaskRewrites(value: Word, target: Word, limit: int, i: nat)
    requires i < |SearchMasks(value, target, limit)|
    ensures Crazy(SearchMasks(value, target, limit)[i], value) == target
  {
    hide Masks, CrazyW;
    PowTen();
    MasksExact(value, target, TRITS);
    assert SearchMasks(value, target, limit)[i] in Masks(value, target, TRITS);
  }

  /** Every plan the planner returns is well planned. */
  lemma PlannedWell(r: Request)
    requires PlanEntry(r).Ok?
    ensures WellPlanned(PlanEntry(r).plan, r.startA)
  {
    hide PlanEntry, LayOut, WellLaid, IsChain;
    var node, a, b := Stages(r);
    var p := LayOutDraft(r, node, a, b);
  }
}
