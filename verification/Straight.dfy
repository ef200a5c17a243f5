/**
 Straight-line rituals on the assembly machine.  The planner's simulation
 pretends every seed is in place from the start and ignores the code; this
 module shows when the real run, whose stores land in code that is already
 dead, agrees with it row by row.
 */
module Straight {
  import opened Words
  import opened Frames
  import opened Machine
  import opened Source
  import opened Planner

  /** Address of instruction i. */
  function Cell(ops: seq<Instr>, base: nat, i: nat): nat
    requires i <= |ops|
  {
    if i == 0 then base else Cell(ops, base, i - 1) + Size(ops[i - 1])
  }

  lemma {:induction false} CellIncreases(ops: seq<Instr>, base: nat, i: nat, j: nat)
    requires i <= j <= |ops|
    ensures Cell(ops, base, i) + (j - i) <= Cell(ops, base, j)
    decreases j
  {
    if i < j {
      CellIncreases(ops, base, i, j - 1);
    }
  }

  lemma {:induction false} CellEnd(ops: seq<Instr>, base: nat, i: nat)
    requires i <= |ops|
    ensures Cell(ops, base, i) + SizeAll(ops[i..]) == base + SizeAll(ops)
    decreases i
  {
    if i == 0 {
      assert ops[0..] == ops;
    } else {
      CellEnd(ops, base, i - 1);
      assert ops[i - 1..][1..] == ops[i..];
    }
  }

  lemma {:induction false} TrackCell(ops: seq<Instr>, start: Track, i: nat)
    requires i <= |ops|
    ensures TrackAt(ops, start, i).cell == Cell(ops, start.cell, i)
    decreases i
  {
    hide Crazy, RotateRight;
    if i > 0 {
      TrackCell(ops, start, i - 1);
    }
  }

  function End(ops: seq<Instr>, base: nat): nat {
    Cell(ops, base, |ops|)
  }

  predicate Touches(op: Instr) {
    op == Classic('p') || op == Classic('*') || op == Classic('j')
  }

  ghost predicate SetupOp(ops: seq<Instr>, start: Track, i: nat)
    requires i < |ops|
  {
    match ops[i]
    case SetA(_) => true
    case StoreA(x) =>
      i > 0 && ops[i - 1].SetA? && 0 <= x < MEM_SIZE && x in start.known && start.known[x] == ModWord(ops[i - 1].value)
      && !(Cell(ops, start.cell, i) <= x < End(ops, start.cell))
    case _ => false
  }

  ghost predicate RitualOp(ops: seq<Instr>, start: Track, i: nat)
    requires i < |ops|
  {
    match ops[i]
    case SetA(_) => true
    case LoadA(x) => 0 <= x && x in start.known
    case Classic(c) =>
      (c == 'p' || c == '*' || c == 'j' || c == '<' || (c == 'v' && i == |ops| - 1))
      && (Touches(ops[i]) ==> TrackAt(ops, start, i).d >= 0 && TrackAt(ops, start, i).d in start.known)
    case _ => false
  }

  /** Seed cell x is stored by some instruction before number i. */
  ghost predicate Stored(ops: seq<Instr>, i: nat, x: nat) {
    exists k :: 0 <= k < i && k < |ops| && ops[k] == StoreA(x)
  }

  /**
   The shape the argument needs: setup instructions before r, ritual
   instructions from r on; stores hit cells outside the code not yet executed;
   the cells the ritual touches are the live ones and the stored ones, none of
   them in the ritual's own code.
   */
  ghost predicate Straightline(ops: seq<Instr>, start: Track, r: nat, live: set<nat>) {
    0 < r <= |ops| && ops[0].SetA?
    && End(ops, start.cell) <= MEM_SIZE
    && 0 <= start.d < MEM_SIZE
    && (forall i :: 0 <= i < r ==> SetupOp(ops, start, i))
    && (forall i :: r <= i < |ops| ==> RitualOp(ops, start, i))
    && (forall x :: x in start.known ==>
          x < MEM_SIZE && !(Cell(ops, start.cell, r) <= x < End(ops, start.cell)) && (x in live || Stored(ops, r, x)))
    && (forall x :: x in live ==> x in start.known && !(start.cell <= x < End(ops, start.cell)))
  }

  ghost predicate Placed(prog: Program, ops: seq<Instr>, base: nat) {
    forall i :: 0 <= i < |ops| ==> Cell(ops, base, i) in prog && prog[Cell(ops, base, i)] == ops[i]
  }

  /** The bytes printed by the first i instructions. */
  function Printed(ops: seq<Instr>, start: Track, i: nat): seq<Byte>
    requires i <= |ops|
  {
    if i == 0 then []
    else
      var t := TrackAt(ops, start, i - 1);
      Printed(ops, start, i - 1) + (if ops[i - 1] == Classic('<') && t.a != EOF_WORD then [t.a % 256] else [])
  }

  ghost predicate InPlace(ops: seq<Instr>, i: nat, r: nat, live: set<nat>, x: nat) {
    x in live || Stored(ops, if i < r then i else r, x)
  }

  /** The run after i instructions agrees with the simulation. */
  ghost predicate Agrees(ops: seq<Instr>, start: Track, r: nat, live: set<nat>, s: Src, i: nat, t: Src)
    requires i <= |ops|
  {
    var tr := TrackAt(ops, start, i);
    |t.mem| == MEM_SIZE
    && (i < |ops| ==> t.C == Cell(ops, start.cell, i)) && t.D == tr.d && !t.halted && (i > 0 ==> t.A == tr.a)
    && t.exitCode == s.exitCode && t.lastError == s.lastError && t.calls == s.calls && t.input == s.input
    && t.output == s.output + Printed(ops, start, i)
    && (forall x: Word :: x in t.ran || x in t.dirty ==> !(Cell(ops, start.cell, i) <= x < End(ops, start.cell)))
    && tr.known.Keys == start.known.Keys
    && (i <= r ==> tr.known == start.known)
    && (forall x :: x in start.known && InPlace(ops, i, r, live, x) ==>
        x < MEM_SIZE && x !in t.ran && t.mem[x] == tr.known[x])
  }

  lemma AllInPlace(ops: seq<Instr>, start: Track, r: nat, live: set<nat>, i: nat, x: nat)
    requires Straightline(ops, start, r, live) && r <= i <= |ops| && x in start.known
    ensures InPlace(ops, i, r, live, x)
  {
  }

  lemma InsideMemory(ops: seq<Instr>, start: Track, r: nat, live: set<nat>, i: nat)
    requires Straightline(ops, start, r, live) && i < |ops|
    ensures Cell(ops, start.cell, i) + Size(ops[i]) == Cell(ops, start.cell, i + 1) <= End(ops, start.cell) <= MEM_SIZE
    ensures i + 1 < |ops| ==> Cell(ops, start.cell, i + 1) < MEM_SIZE
  {
    hide SetupOp, RitualOp, Stored, Size;
    CellIncreases(ops, start.cell, i + 1, |ops|);
  }

  /** The next instruction can be fetched: its cells are neither ciphered nor overwritten. */
  lemma CanFetchNext(prog: Program, ops: seq<Instr>, start: Track, r: nat, live: set<nat>, s: Src, i: nat, t: Src)
    requires Straightline(ops, start, r, live) && Placed(prog, ops, start.cell) && i < |ops|
    requires Agrees(ops, start, r, live, s, i, t)
    ensures CanFetch(prog, t) && prog[t.C] == ops[i]
  {
    hide TrackAt, Printed, InPlace, Stored, Touches, Size, Cell;
    InsideMemory(ops, start, r, live, i);
    if i < r {
      assert SetupOp(ops, start, i);
    } else {
      assert RitualOp(ops, start, i);
    }
    assert Size(ops[i]) > 0 by { SizePositive(ops[i]); }
  }

  lemma Behind(ops: seq<Instr>, base: nat, i: nat, t: Src, u: Src, writes: set<Word>)
    requires i < |ops| && t.C == Cell(ops, base, i)
    requires forall x: Word :: x in t.ran || x in t.dirty ==> !(Cell(ops, base, i) <= x < End(ops, base))
    requires forall x: Word :: x in writes ==> !(Cell(ops, base, i + 1) <= x < End(ops, base))
    requires u.ran == (t.ran - writes) + {t.C} && u.dirty == t.dirty + writes
    ensures forall x: Word :: x in u.ran || x in u.dirty ==> !(Cell(ops, base, i + 1) <= x < End(ops, base))
  {
    CellIncreases(ops, base, i, i + 1);
  }

  lemma NextWrap(c: nat, size: nat)
    requires c + size <= MEM_SIZE
    ensures c + size < MEM_SIZE ==> Wrap(c + size) == c + size
  {
  }

  lemma TrackUnfold(ops: seq<Instr>, start: Track, i: nat)
    requires i < |ops|
    ensures TrackAt(ops, start, i + 1) == TrackStep(ops[i], TrackAt(ops, start, i))
  {
  }

  lemma PrintedUnfold(ops: seq<Instr>, start: Track, i: nat)
    requires i < |ops|
    ensures ops[i] != Classic('<') ==> Printed(ops, start, i + 1) == Printed(ops, start, i)
    ensures ops[i] == Classic('<') && TrackAt(ops, start, i).a != EOF_WORD ==>
              Printed(ops, start, i + 1) == Printed(ops, start, i) + [TrackAt(ops, start, i).a % 256]
    ensures TrackAt(ops, start, i).a == EOF_WORD ==> Printed(ops, start, i + 1) == Printed(ops, start, i)
  {
    hide TrackAt;
  }

  /** A cell in place by the end of instruction i is not among the cells from that instruction on. */
  lemma OutOfTheWay(ops: seq<Instr>, start: Track, r: nat, live: set<nat>, i: nat, y: nat)
    requires Straightline(ops, start, r, live) && i < |ops|
    requires y in start.known && InPlace(ops, i + 1, r, live, y)
    ensures !(Cell(ops, start.cell, i) <= y < End(ops, start.cell))
  {
    hide TrackAt, RitualOp;
    CellIncreases(ops, start.cell, 0, i);
    if y !in live {
      if i >= r {
        CellIncreases(ops, start.cell, r, i);
      } else {
        var k :| 0 <= k < i + 1 && ops[k] == StoreA(y);
        assert SetupOp(ops, start, k);
        CellIncreases(ops, start.cell, k, i);
      }
    }
  }

  /** A setup instruction: seta changes nothing tracked, storea puts one more seed in place. */
  lemma SetupStep(prog: Program, ops: seq<Instr>, start: Track, r: nat, live: set<nat>, s: Src, i: nat, t: Src,
                  script: Script)
    requires Straightline(ops, start, r, live) && Placed(prog, ops, start.cell) && i < r
    requires Agrees(ops, start, r, live, s, i, t)
    ensures SrcStep(prog, t, script).Some?
    ensures Agrees(ops, start, r, live, s, i + 1, SrcStep(prog, t, script).value)
  {
    CanFetchNext(prog, ops, start, r, live, s, i, t);
    assert SetupOp(ops, start, i);
    hide Straightline, Agrees, Placed, CanFetch, SrcStep;
    if ops[i].StoreA? {
      SetupStore(prog, ops, start, r, live, s, i, t, script);
    } else {
      SetupSet(prog, ops, start, r, live, s, i, t, script);
    }
  }

  lemma SetupSet(prog: Program, ops: seq<Instr>, start: Track, r: nat, live: set<nat>, s: Src, i: nat, t: Src,
                 script: Script)
    requires Straightline(ops, start, r, live) && i < r && i < |ops| && ops[i].SetA?
    requires Agrees(ops, start, r, live, s, i, t) && CanFetch(prog, t) && prog[t.C] == ops[i] && SetupOp(ops, start, i)
    ensures SrcStep(prog, t, script).Some?
    ensures Agrees(ops, start, r, live, s, i + 1, SrcStep(prog, t, script).value)
  {
    hide TrackAt, Crazy, RotateRight, ApplyWrites, WriteTargets, Printed, Cell, Answer, Straightline, CanFetch;
    var op, tr := ops[i], TrackAt(ops, start, i);
    TrackUnfold(ops, start, i);
    PrintedUnfold(ops, start, i);
    NoWrites(t.mem);
    InsideMemory(ops, start, r, live, i);
    NextWrap(t.C, Size(op));
    var u := Commit(t, Act(op, t, script));
    CellIncreases(ops, start.cell, i, i + 1);
    Behind(ops, start.cell, i, t, u, {});
    forall y | y in start.known && InPlace(ops, i + 1, r, live, y)
      ensures y < MEM_SIZE && y !in u.ran && u.mem[y] == tr.known[y]
    {
      OutOfTheWay(ops, start, r, live, i, y);
      InPlaceEarlier(ops, i, r, live, y);
    }
  }

  lemma SetupStore(prog: Program, ops: seq<Instr>, start: Track, r: nat, live: set<nat>, s: Src, i: nat, t: Src,
                   script: Script)
    requires Straightline(ops, start, r, live) && i < r && i < |ops| && ops[i].StoreA?
    requires Agrees(ops, start, r, live, s, i, t) && CanFetch(prog, t) && prog[t.C] == ops[i] && SetupOp(ops, start, i)
    ensures SrcStep(prog, t, script).Some?
    ensures Agrees(ops, start, r, live, s, i + 1, SrcStep(prog, t, script).value)
  {
    hide TrackAt, Crazy, RotateRight, ApplyWrites, WriteTargets, Printed, Cell, Answer, Straightline, CanFetch;
    var op, tr := ops[i], TrackAt(ops, start, i);
    var x := op.target;
    TrackUnfold(ops, start, i);
    TrackUnfold(ops, start, i - 1);
    PrintedUnfold(ops, start, i);
    InsideMemory(ops, start, r, live, i);
    NextWrap(t.C, Size(op));
    OneWrite(t.mem, x, t.A);
    assert ModWord(x) == x;
    assert tr.a == ModWord(ops[i - 1].value);
    var u := Commit(t, Act(op, t, script));
    CellIncreases(ops, start.cell, i, i + 1);
    Behind(ops, start.cell, i, t, u, {x});
    forall y | y in start.known && InPlace(ops, i + 1, r, live, y)
      ensures y < MEM_SIZE && y !in u.ran && u.mem[y] == tr.known[y]
    {
      OutOfTheWay(ops, start, r, live, i, y);
      if y != x {
        InPlaceEarlier(ops, i, r, live, y);
      }
    }
  }

  lemma InPlaceEarlier(ops: seq<Instr>, i: nat, r: nat, live: set<nat>, y: nat)
    requires i < |ops| && InPlace(ops, i + 1, r, live, y) && (i < r ==> ops[i] != StoreA(y))
    ensures InPlace(ops, i, r, live, y)
  {
  }

  /** What the run looks like once the halt has executed. */
  ghost predicate Done(ops: seq<Instr>, start: Track, s: Src, u: Src) {
    var n := |ops|;
    |u.mem| == MEM_SIZE && n > 0 && u.halted
    && u.C == Cell(ops, start.cell, n - 1) && u.D == TrackAt(ops, start, n - 1).d && u.A == TrackAt(ops, start, n).a
    && u.exitCode == s.exitCode && u.lastError == s.lastError && u.calls == s.calls
    && u.output == s.output + Printed(ops, start, n)
    && (forall x :: x in start.known ==>
          x < MEM_SIZE && x in TrackAt(ops, start, n).known && x !in u.ran
            && u.mem[x] == TrackAt(ops, start, n).known[x])
  }

  /** In the ritual every tracked cell holds what the simulation says, readable and clear of the executed cell. */
  ghost predicate Ready(ops: seq<Instr>, start: Track, i: nat, t: Src)
    requires i < |ops|
  {
    var tr := TrackAt(ops, start, i);
    |t.mem| == MEM_SIZE && t.C == Cell(ops, start.cell, i) && t.D == tr.d && t.A == tr.a && !t.halted
    && tr.known.Keys == start.known.Keys
    && (forall x: Word :: x in t.ran || x in t.dirty ==> !(Cell(ops, start.cell, i) <= x < End(ops, start.cell)))
    && (forall x :: x in start.known ==> x < MEM_SIZE && x !in t.ran && t.mem[x] == tr.known[x] && x != t.C
                                         && !(Cell(ops, start.cell, i) <= x < End(ops, start.cell)))
  }

  lemma RitualReady(ops: seq<Instr>, start: Track, r: nat, live: set<nat>, s: Src, i: nat, t: Src)
    requires Straightline(ops, start, r, live) && r <= i < |ops|
    requires Agrees(ops, start, r, live, s, i, t)
    ensures Ready(ops, start, i, t)
  {
    hide TrackAt, Printed, Cell, InPlace, SetupOp, RitualOp, Stored;
    InsideMemory(ops, start, r, live, i);
    CellIncreases(ops, start.cell, r, i);
    CellIncreases(ops, start.cell, i, |ops|);
    CellIncreases(ops, start.cell, i, i + 1);
    forall x | x in start.known
      ensures x < MEM_SIZE && x !in t.ran && t.mem[x] == TrackAt(ops, start, i).known[x]
    {
      AllInPlace(ops, start, r, live, i, x);
    }
    CellIncreases(ops, start.cell, i + 1, |ops|);
  }

  ghost predicate Moved(ops: seq<Instr>, start: Track, i: nat, t: Src, u: Src)
    requires i < |ops|
  {
    var tr := TrackAt(ops, start, i + 1);
    |u.mem| == MEM_SIZE && u.A == tr.a && tr.known.Keys == start.known.Keys
    && u.exitCode == t.exitCode && u.lastError == t.lastError && u.calls == t.calls && u.input == t.input
    && t.output <= u.output && Printed(ops, start, i + 1) == Printed(ops, start, i) + u.output[|t.output|..]
    && (forall x: Word :: x in u.ran || x in u.dirty ==> !(Cell(ops, start.cell, i + 1) <= x < End(ops, start.cell)))
    && (forall x :: x in start.known ==> x < MEM_SIZE && x !in u.ran && u.mem[x] == tr.known[x])
    && if ops[i] == Classic('v') then u.halted && u.C == t.C && u.D == t.D
       else !u.halted && u.D == tr.d && (i + 1 < |ops| ==> u.C == Cell(ops, start.cell, i + 1))
  }

  predicate Quiet(op: Instr) {
    op.SetA? || op.LoadA? || op == Classic('<') || op == Classic('v')
  }

  function Emitted(op: Instr, a: Word): seq<Byte> {
    if op == Classic('<') && a != EOF_WORD then [a % 256] else []
  }

  lemma ActQuiet(op: Instr, t: Src, script: Script)
    requires |t.mem| == MEM_SIZE && Quiet(op)
    ensures var e := Act(op, t, script);
            e.writes == [] && e.readSet == (if op.LoadA? then {ModWord(op.source)} else {})
            && e.after == t.(C := if op == Classic('v') then t.C else NextC(t, op),
                             A := if op.SetA? then ModWord(op.value) else if op.LoadA? then t.mem[ModWord(op.source)]
                               else t.A,
                             halted := t.halted || op == Classic('v'), output := t.output + Emitted(op, t.A))
  {
    hide ModWord;
    assert t.output + [] == t.output;
  }

  lemma TrackQuiet(op: Instr, tr: Track)
    requires Quiet(op)
    ensures TrackStep(op, tr) == Track(tr.cell + Size(op), ModWord(tr.d + 1),
                                       if op.SetA? then ModWord(op.value)
                                       else if op.LoadA? then Known(tr.known, op.source) else tr.a,
                                       tr.known)
  {
    hide ModWord;
  }

  /** The state after an instruction that writes no cell. */
  function AfterQuiet(op: Instr, t: Src): Src
    requires |t.mem| == MEM_SIZE
  {
    var a := if op.SetA? then ModWord(op.value) else if op.LoadA? then t.mem[ModWord(op.source)] else t.A;
    var done := t.(A := a, output := t.output + Emitted(op, t.A), ran := t.ran + {t.C});
    if op == Classic('v') then done.(halted := true) else done.(C := NextC(t, op), D := Wrap(t.D + 1))
  }

  lemma QuietSource(prog: Program, op: Instr, t: Src, script: Script)
    requires |t.mem| == MEM_SIZE && !t.halted && Quiet(op) && CanFetch(prog, t) && prog[t.C] == op
    requires op.LoadA? ==> ModWord(op.source) !in t.ran
    ensures SrcStep(prog, t, script) == Some(AfterQuiet(op, t))
  {
    hide CanFetch, ModWord, ApplyWrites, WriteTargets, Act, Wrap, Emitted;
    ActQuiet(op, t, script);
    NoWrites(t.mem);
    assert (t.ran - {}) + {t.C} == t.ran + {t.C} && t.dirty + {} == t.dirty;
  }

  lemma QuietMoved(ops: seq<Instr>, start: Track, i: nat, t: Src)
    requires i < |ops| && Quiet(ops[i]) && Ready(ops, start, i, t)
    requires TrackAt(ops, start, i + 1) == TrackStep(ops[i], TrackAt(ops, start, i))
    requires Printed(ops, start, i + 1) == Printed(ops, start, i) + Emitted(ops[i], t.A)
    requires t.C + Size(ops[i]) <= MEM_SIZE && (i + 1 < |ops| ==> t.C + Size(ops[i]) < MEM_SIZE)
    requires ops[i].LoadA? ==> 0 <= ops[i].source && ops[i].source in start.known
    ensures ops[i].LoadA? ==> ModWord(ops[i].source) !in t.ran
    ensures Moved(ops, start, i, t, AfterQuiet(ops[i], t))
  {
    hide TrackAt, TrackStep, Printed, Cell, End, ModWord, Wrap, Emitted, Size;
    NextCell(ops, start, i);
    NextWrap(t.C, Size(ops[i]));
    WrapIsModWord(t.D + 1);
    TrackQuiet(ops[i], TrackAt(ops, start, i));
    if ops[i].LoadA? {
      SmallWord(ops[i].source);
    }
    assert AfterQuiet(ops[i], t).output[|t.output|..] == Emitted(ops[i], t.A);
    Behind(ops, start.cell, i, t, AfterQuiet(ops[i], t), {});
  }

  /** seta, loada, output, halt: no cell is written. */
  lemma QuietStep(prog: Program, ops: seq<Instr>, start: Track, r: nat, live: set<nat>, i: nat, t: Src, script: Script)
    requires Straightline(ops, start, r, live) && r <= i < |ops| && RitualOp(ops, start, i) && !Touches(ops[i])
    requires Ready(ops, start, i, t) && CanFetch(prog, t) && prog[t.C] == ops[i]
    ensures SrcStep(prog, t, script).Some? && Moved(ops, start, i, t, SrcStep(prog, t, script).value)
  {
    hide TrackAt, TrackStep, Printed, Cell, CanFetch, End, Straightline, ModWord, Moved, AfterQuiet, SrcStep;
    TrackUnfold(ops, start, i);
    PrintedUnfold(ops, start, i);
    InsideMemory(ops, start, r, live, i);
    assert ops[i] != Classic('<') ==> Printed(ops, start, i) + [] == Printed(ops, start, i);
    QuietMoved(ops, start, i, t);
    QuietSource(prog, ops[i], t, script);
  }

  lemma SmallWord(x: int)
    ensures 0 <= x < WORD_MOD ==> ModWord(x) == x
  {
  }

  lemma WrapIsModWord(x: nat)
    ensures Wrap(x) == ModWord(x)
  {
  }

  /** The hop: D is loaded from a tracked cell. */
  lemma HopStep(prog: Program, ops: seq<Instr>, start: Track, r: nat, live: set<nat>, i: nat, t: Src, script: Script)
    requires Straightline(ops, start, r, live) && r <= i < |ops| && RitualOp(ops, start, i) && ops[i] == Classic('j')
    requires Ready(ops, start, i, t) && CanFetch(prog, t) && prog[t.C] == ops[i]
    ensures SrcStep(prog, t, script).Some? && Moved(ops, start, i, t, SrcStep(prog, t, script).value)
  {
    hide TrackAt, Printed, Cell, SetupOp, Stored, CanFetch, End, Straightline;
    TrackUnfold(ops, start, i);
    PrintedUnfold(ops, start, i);
    InsideMemory(ops, start, r, live, i);
    NextWrap(t.C, 1);
    NoWrites(t.mem);
    var e := Act(ops[i], t, script);
    Behind(ops, start.cell, i, t, Commit(t, e), {});
  }

  function TouchResult(op: char, a: Word, cell: Word): Word {
    if op == 'p' then Crazy(a, cell) else RotateRight(cell)
  }

  lemma ActTouch(op: char, t: Src, script: Script)
    requires |t.mem| == MEM_SIZE && (op == 'p' || op == '*')
    ensures var v := TouchResult(op, t.A, t.mem[t.D]);
            Act(Classic(op), t, script) == Effect({t.D}, [(t.D, v)], t.(C := Wrap(t.C + 1), A := v))
  {
    hide Crazy, RotateRight;
  }

  lemma TrackTouch(op: char, tr: Track)
    requires (op == 'p' || op == '*') && 0 <= tr.d < MEM_SIZE && tr.d in tr.known
    ensures var v := TouchResult(op, tr.a, tr.known[tr.d]);
            TrackStep(Classic(op), tr) == Track(tr.cell + 1, Wrap(tr.d + 1), v, tr.known[tr.d := v])
  {
    hide Crazy, RotateRight;
  }

  /** The state after p or * wrote v under D. */
  function AfterTouch(t: Src, v: Word): Src
    requires |t.mem| == MEM_SIZE
  {
    t.(mem := t.mem[t.D := v], A := v, C := Wrap(t.C + 1), D := Wrap(t.D + 1),
       ran := (t.ran - {t.D}) + {t.C}, dirty := t.dirty + {t.D})
  }

  lemma TouchSource(prog: Program, op: char, t: Src, script: Script)
    requires |t.mem| == MEM_SIZE && !t.halted && (op == 'p' || op == '*')
    requires CanFetch(prog, t) && prog[t.C] == Classic(op) && t.D !in t.ran && t.D != t.C
    ensures SrcStep(prog, t, script) == Some(AfterTouch(t, TouchResult(op, t.A, t.mem[t.D])))
  {
    hide CanFetch, TouchResult, ApplyWrites, WriteTargets, Act;
    ActTouch(op, t, script);
    OneWrite(t.mem, t.D, TouchResult(op, t.A, t.mem[t.D]));
  }

  lemma TouchMoved(ops: seq<Instr>, start: Track, i: nat, t: Src, v: Word)
    requires i < |ops| && (ops[i] == Classic('p') || ops[i] == Classic('*')) && Ready(ops, start, i, t)
    requires var tr := TrackAt(ops, start, i);
             0 <= tr.d < MEM_SIZE && tr.d in start.known
             && TrackAt(ops, start, i + 1) == Track(tr.cell + 1, Wrap(tr.d + 1), v, tr.known[tr.d := v])
    requires Printed(ops, start, i + 1) == Printed(ops, start, i) && t.C + 1 <= MEM_SIZE
    requires i + 1 < |ops| ==> t.C + 1 < MEM_SIZE
    ensures Moved(ops, start, i, t, AfterTouch(t, v))
  {
    hide TrackAt, Printed, Cell, End;
    NextCell(ops, start, i);
    NextWrap(t.C, 1);
    BelowNext(ops, start, i, t.D);
    Behind(ops, start.cell, i, t, AfterTouch(t, v), {t.D});
  }

  lemma NextCell(ops: seq<Instr>, start: Track, i: nat)
    requires i < |ops|
    ensures Cell(ops, start.cell, i + 1) == Cell(ops, start.cell, i) + Size(ops[i])
  {
  }

  /** p and *: the tracked cell under D is read and rewritten, by the machine and by the simulation alike. */
  lemma TouchStep(prog: Program, ops: seq<Instr>, start: Track, r: nat, live: set<nat>, i: nat, t: Src, script: Script)
    requires Straightline(ops, start, r, live) && r <= i < |ops| && RitualOp(ops, start, i)
    requires ops[i] == Classic('p') || ops[i] == Classic('*')
    requires Ready(ops, start, i, t) && CanFetch(prog, t) && prog[t.C] == ops[i]
    ensures SrcStep(prog, t, script).Some? && Moved(ops, start, i, t, SrcStep(prog, t, script).value)
  {
    hide TrackAt, TrackStep, Printed, Cell, CanFetch, End, Straightline, TouchResult, Moved, AfterTouch, SrcStep;
    TrackUnfold(ops, start, i);
    PrintedUnfold(ops, start, i);
    InsideMemory(ops, start, r, live, i);
    TrackTouch(ops[i].op, TrackAt(ops, start, i));
    TouchSource(prog, ops[i].op, t, script);
    TouchMoved(ops, start, i, t, TouchResult(ops[i].op, t.A, t.mem[t.D]));
  }

  lemma BelowNext(ops: seq<Instr>, start: Track, i: nat, x: nat)
    requires i < |ops| && !(Cell(ops, start.cell, i) <= x < End(ops, start.cell))
    ensures !(Cell(ops, start.cell, i + 1) <= x < End(ops, start.cell))
  {
  }

  lemma RitualStep(prog: Program, ops: seq<Instr>, start: Track, r: nat, live: set<nat>, s: Src, i: nat, t: Src,
                   script: Script)
    requires Straightline(ops, start, r, live) && Placed(prog, ops, start.cell) && r <= i < |ops|
    requires Agrees(ops, start, r, live, s, i, t)
    ensures SrcStep(prog, t, script).Some?
    ensures ops[i] != Classic('v') ==> Agrees(ops, start, r, live, s, i + 1, SrcStep(prog, t, script).value)
    ensures ops[i] == Classic('v') ==> Done(ops, start, s, SrcStep(prog, t, script).value)
  {
    hide TrackAt, Printed, Cell, InPlace, SetupOp, Stored, CanFetch, End, SrcStep, Size;
    CanFetchNext(prog, ops, start, r, live, s, i, t);
    assert RitualOp(ops, start, i);
    RitualReady(ops, start, r, live, s, i, t);
    if ops[i] == Classic('j') {
      HopStep(prog, ops, start, r, live, i, t, script);
    } else if Touches(ops[i]) {
      TouchStep(prog, ops, start, r, live, i, t, script);
    } else {
      QuietStep(prog, ops, start, r, live, i, t, script);
    }
    var u := SrcStep(prog, t, script).value;
    assert u.output == t.output + u.output[|t.output|..];
  }

  lemma InitiallyAgrees(ops: seq<Instr>, start: Track, r: nat, live: set<nat>, s: Src)
    requires Straightline(ops, start, r, live) && |s.mem| == MEM_SIZE
    requires s.C == start.cell && s.D == start.d && !s.halted
    requires forall x: Word :: x in s.ran || x in s.dirty ==> !(start.cell <= x < End(ops, start.cell))
    requires forall x :: x in live ==> x < MEM_SIZE && x !in s.ran && s.mem[x] == start.known[x]
    ensures Agrees(ops, start, r, live, s, 0, s)
  {
    assert s.output + [] == s.output;
  }

  /** Entered at its first cell with the right D, the ritual runs in step with the simulation. */
  lemma {:induction false} RunAgrees(prog: Program, ops: seq<Instr>, start: Track, r: nat, live: set<nat>, s: Src,
                                     script: Script, i: nat)
    requires Straightline(ops, start, r, live) && Placed(prog, ops, start.cell)
    requires |s.mem| == MEM_SIZE && Agrees(ops, start, r, live, s, 0, s)
    requires i < |ops|
    ensures SrcRun(prog, s, script, i).Some?
    ensures Agrees(ops, start, r, live, s, i, SrcRun(prog, s, script, i).value)
    decreases i
  {
    hide SrcStep, Agrees, Straightline, Placed, TrackAt, Printed, Cell;
    if i > 0 {
      RunAgrees(prog, ops, start, r, live, s, script, i - 1);
      var t := SrcRun(prog, s, script, i - 1).value;
      assert !t.halted && ops[i - 1] != Classic('v') by { NotHaltYet(ops, start, r, live, s, i, t); }
      if i - 1 < r {
        SetupStep(prog, ops, start, r, live, s, i - 1, t, script);
      } else {
        RitualStep(prog, ops, start, r, live, s, i - 1, t, script);
      }
      OneMore(prog, s, script, i - 1);
    }
  }

  lemma NotHaltYet(ops: seq<Instr>, start: Track, r: nat, live: set<nat>, s: Src, i: nat, t: Src)
    requires Straightline(ops, start, r, live) && 0 < i < |ops| && Agrees(ops, start, r, live, s, i - 1, t)
    ensures !t.halted && ops[i - 1] != Classic('v')
  {
    if i - 1 < r {
      assert SetupOp(ops, start, i - 1);
    } else {
      assert RitualOp(ops, start, i - 1);
    }
  }

  lemma OneMore(prog: Program, s: Src, script: Script, i: nat)
    requires |s.mem| == MEM_SIZE && SrcRun(prog, s, script, i).Some? && !SrcRun(prog, s, script, i).value.halted
    ensures SrcRun(prog, s, script, i + 1) == SrcStep(prog, SrcRun(prog, s, script, i).value, script)
  {
    hide SrcStep;
    SrcRunSplit(prog, s, script, i, 1);
  }

  /** After the last instruction, the halt, the run is over with everything the simulation predicts. */
  lemma RunDone(prog: Program, ops: seq<Instr>, start: Track, r: nat, live: set<nat>, s: Src, script: Script)
    requires Straightline(ops, start, r, live) && Placed(prog, ops, start.cell)
    requires |s.mem| == MEM_SIZE && Agrees(ops, start, r, live, s, 0, s)
    requires r < |ops| && ops[|ops| - 1] == Classic('v')
    ensures SrcRun(prog, s, script, |ops|).Some? && Done(ops, start, s, SrcRun(prog, s, script, |ops|).value)
  {
    hide SrcStep, Done, Straightline, Placed;
    var n := |ops| - 1;
    RunAgrees(prog, ops, start, r, live, s, script, n);
    RitualStep(prog, ops, start, r, live, s, n, SrcRun(prog, s, script, n).value, script);
    OneMore(prog, s, script, n);
  }

  /** The states around instruction i, against the simulation's row. */
  ghost predicate RowFacts(ops: seq<Instr>, start: Track, i: nat, t: Src, u: Src)
    requires i < |ops|
  {
    var tr := TrackAt(ops, start, i);
    |t.mem| == MEM_SIZE && !t.halted && t.C == tr.cell
    && (if ops[i] == Classic('j') then t.D !in t.ran && t.mem[t.D] == RowD(ops[i], tr) else t.D == RowD(ops[i], tr))
    && (i > 0 ==> t.A == tr.a)
    && u.A == TrackAt(ops, start, i + 1).a
  }

  lemma SetupRow(ops: seq<Instr>, start: Track, r: nat, live: set<nat>, s: Src, i: nat, t: Src, u: Src)
    requires Straightline(ops, start, r, live) && i < r
    requires Agrees(ops, start, r, live, s, i, t) && Agrees(ops, start, r, live, s, i + 1, u)
    ensures RowFacts(ops, start, i, t, u)
  {
    hide TrackAt, Printed, InPlace, Stored, RitualOp;
    assert SetupOp(ops, start, i);
    TrackCell(ops, start, i);
  }

  lemma RitualRowFacts(ops: seq<Instr>, start: Track, r: nat, live: set<nat>, s: Src, i: nat, t: Src, u: Src)
    requires Straightline(ops, start, r, live) && r <= i < |ops|
    requires Agrees(ops, start, r, live, s, i, t) && u.A == TrackAt(ops, start, i + 1).a
    ensures RowFacts(ops, start, i, t, u)
  {
    hide TrackAt, Printed, InPlace, Stored, SetupOp, Cell, End;
    assert RitualOp(ops, start, i);
    RitualReady(ops, start, r, live, s, i, t);
    TrackCell(ops, start, i);
  }

  lemma RunRow(prog: Program, ops: seq<Instr>, start: Track, r: nat, live: set<nat>, s: Src, script: Script, i: nat)
    requires Straightline(ops, start, r, live) && Placed(prog, ops, start.cell)
    requires |s.mem| == MEM_SIZE && Agrees(ops, start, r, live, s, 0, s)
    requires i < |ops|
    ensures SrcRun(prog, s, script, i).Some? && SrcRun(prog, s, script, i + 1).Some?
    ensures RowFacts(ops, start, i, SrcRun(prog, s, script, i).value, SrcRun(prog, s, script, i + 1).value)
  {
    RunAgrees(prog, ops, start, r, live, s, script, i);
    var t := SrcRun(prog, s, script, i).value;
    assert |t.mem| == MEM_SIZE && !t.halted;
    hide Straightline, Placed, Agrees, TrackAt, Printed, Cell, SrcStep, SrcRun, Done, RowFacts;
    OneMore(prog, s, script, i);
    if i < r {
      SetupStep(prog, ops, start, r, live, s, i, t, script);
      SetupRow(ops, start, r, live, s, i, t, SrcStep(prog, t, script).value);
    } else {
      RitualStep(prog, ops, start, r, live, s, i, t, script);
      var u := SrcStep(prog, t, script).value;
      StepA(ops, start, r, live, s, i, u);
      RitualRowFacts(ops, start, r, live, s, i, t, u);
    }
  }

  lemma StepA(ops: seq<Instr>, start: Track, r: nat, live: set<nat>, s: Src, i: nat, u: Src)
    requires Straightline(ops, start, r, live) && r <= i < |ops|
    requires ops[i] != Classic('v') ==> Agrees(ops, start, r, live, s, i + 1, u)
    requires ops[i] == Classic('v') ==> Done(ops, start, s, u)
    ensures u.A == TrackAt(ops, start, i + 1).a
  {
    hide TrackAt, Printed, InPlace, Stored, SetupOp, Cell;
    assert RitualOp(ops, start, i);
  }
}
