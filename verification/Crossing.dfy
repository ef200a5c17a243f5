/**
 Control in data.  A machine that comes to cells the lineage walk did not mark
 executes whatever their contents decode to.  This module says, cell by cell
 and before the run, exactly when it crosses them in one tick each, and what
 happens at the first cell where it does not.
 */
module Crossing {
  import opened Words
  import opened Glyphs
  import opened Frames
  import opened Machine

  // ----- one step of the machine -----

  /**
   An unmarked jump glyph still takes its operands from the cells behind it; it may happen to
   lead to the next cell.
   */
  predicate LandsNext(op: char, mem: seq<Word>, acc: Word, err: bool, c: Word)
    requires |mem| == MEM_SIZE
  {
    match op
    case '!' => FrameWord(mem, c, 0) == Wrap(c + 1)
    case '?' => Taken(FrameWord(mem, c, 1), acc, err) && FrameWord(mem, c, 0) == Wrap(c + 1)
    case '`' => mem[FrameWord(mem, c, 0)] == Wrap(c + 1)
    case _ => false
  }

  /** Operations that take C and D one cell on. */
  predicate OpAdvances(op: char, mem: seq<Word>, acc: Word, err: bool, c: Word, d: Word)
    requires |mem| == MEM_SIZE
  {
    if ExtensionOp(op) then LandsNext(op, mem, acc, err, c)
    else op != 'v' && (op == 'i' ==> mem[d] == c) && (op == 'j' ==> mem[d] == d)
  }

  predicate Advances(s: State)
    requires s.Valid()
  {
    Graphic(s.mem[s.C]) && OpAdvances(EffectiveOp(s, s.C), s.mem, s.A, s.lastError, s.C, s.D)
  }

  /** Where control goes, if it goes on. */
  function GoesTo(op: char, mem: seq<Word>, acc: Word, err: bool, c: Word, d: Word): Word
    requires |mem| == MEM_SIZE
  {
    match op
    case 'i' => Wrap(mem[d] as nat + 1)
    case '@' => AfterFrame(c, 6)
    case '!' => FrameWord(mem, c, 0)
    case '?' => if Taken(FrameWord(mem, c, 1), acc, err) then FrameWord(mem, c, 0) else AfterFrame(c, 2)
    case '`' => mem[FrameWord(mem, c, 0)]
    case _ => if ExtensionOp(op) then AfterFrame(c, 1) else Wrap(c + 1)
  }

  function TicksTo(op: char, mem: seq<Word>, d: Word): Word
    requires |mem| == MEM_SIZE
  {
    if op == 'j' then Wrap(mem[d] as nat + 1) else Wrap(d + 1)
  }

  /** The host call of an unmarked trap glyph is exit. */
  predicate Exits(op: char, s: State)
    requires s.Valid()
  {
    op == '@' && TrapFrame(s, s.C).sys == EXIT_CALL
  }

  /** Registers after a classic operation or a no-op. */
  lemma ClassicPlace(s: State, op: char)
    requires s.Valid() && !s.halted && !ExtensionOp(op)
    ensures var r := ExecuteClassic(s, op);
            if op == 'v' then r.halted && r.exitCode == s.exitCode
            else !r.halted && r.C == GoesTo(op, s.mem, s.A, s.lastError, s.C, s.D)
                 && r.D == if op == 'j' then s.mem[s.D] else s.D
  {
    hide FrameWord, Crazy, RotateRight, Wrap, AfterFrame;
  }

  lemma TrapPlace(s: State, script: Script)
    requires s.Valid() && !s.halted
    ensures var r := ExecuteExtension(s, '@', script);
            if Exits('@', s) then r.halted
            else !r.halted && r.C == GoesTo('@', s.mem, s.A, s.lastError, s.C, s.D) && r.D == s.D
  {
    hide FrameWord, SupportedCall, ApplyWrites, AfterFrame, ModWord, TrapFrame;
  }

  lemma ExtensionPlace(s: State, op: char, script: Script)
    requires s.Valid() && !s.halted && ExtensionOp(op) && op != '@'
    ensures var r := ExecuteExtension(s, op, script);
            !r.halted && r.C == GoesTo(op, s.mem, s.A, s.lastError, s.C, s.D) && r.D == s.D
  {
    hide FrameWord, HostCall, TrapFrame, AfterFrame, ModWord, Taken;
  }

  /** Registers after one step, whatever the cell. */
  lemma StepPlace(s: State, script: Script)
    requires s.Valid() && !s.halted
    ensures var u, op := Step(s, script), EffectiveOp(s, s.C);
            if !Graphic(s.mem[s.C]) then u.halted && u.exitCode == 127
            else if op == 'v' then u.halted && u.exitCode == s.exitCode
            else if Exits(op, s) then u.halted
            else !u.halted && u.C == GoesTo(op, s.mem, s.A, s.lastError, s.C, s.D) && u.D == TicksTo(op, s.mem, s.D)
  {
    hide EffectiveOp, Lineage, GoesTo, ExecuteClassic, ExecuteExtension, Cipher, Wrap, Exits;
    var op := EffectiveOp(s, s.C);
    ExitsTrap(op, s);
    if !ExtensionOp(op) {
      ClassicPlace(s, op);
    } else if op == '@' {
      TrapPlace(s, script);
    } else {
      ExtensionPlace(s, op, script);
    }
  }

  lemma ExitsTrap(op: char, s: State)
    requires s.Valid()
    ensures Exits(op, s) ==> op == '@'
  {
  }

  lemma WrapApart(x: Word, y: Word)
    ensures Wrap(x as nat + 1) == Wrap(y as nat + 1) <==> x == y
    ensures AfterFrame(x, 1) != Wrap(x + 1) && AfterFrame(x, 2) != Wrap(x + 1) && AfterFrame(x, 6) != Wrap(x + 1)
  {
  }

  /** One step takes C and D one cell on exactly when the cell is printable and its operation advances. */
  lemma AdvancesExactly(s: State, script: Script)
    requires s.Valid() && !s.halted
    ensures var u := Step(s, script);
            (!u.halted && u.C == Wrap(s.C + 1) && u.D == Wrap(s.D + 1)) <==> Advances(s)
  {
    hide EffectiveOp, FrameWord, Step, Wrap, AfterFrame, Taken, TrapFrame;
    StepPlace(s, script);
    WrapApart(s.mem[s.D], s.C);
    WrapApart(s.mem[s.D], s.D);
    WrapApart(s.C, s.C);
  }

  // ----- several cells, before the run -----

  /** What the cells crossed so far leave behind: memory, accumulator, unread input. */
  datatype Trail = Trail(mem: seq<Word>, acc: Word, unread: seq<Byte>)

  function WorkCell(op: char, t: Trail, d: Word): Trail
    requires |t.mem| == MEM_SIZE
  {
    match op
    case '*' => t.(mem := t.mem[d := RotateRight(t.mem[d])], acc := RotateRight(t.mem[d]))
    case 'p' => t.(mem := t.mem[d := Crazy(t.acc, t.mem[d])], acc := Crazy(t.acc, t.mem[d]))
    case '/' => if t.unread == [] then t.(acc := EOF_WORD) else t.(acc := t.unread[0], unread := t.unread[1..])
    case _ => t
  }

  function CrossCell(t: Trail, c: Word, d: Word): (r: Trail)
    requires |t.mem| == MEM_SIZE
    ensures |r.mem| == MEM_SIZE
  {
    var worked := WorkCell(DecodeOp(t.mem[c], c), t, d);
    if Graphic(t.mem[c]) then worked.(mem := worked.mem[c := Cipher(t.mem[c])]) else worked
  }

  function TrailAt(s: State, i: nat): (t: Trail)
    requires s.Valid() && s.C + i <= MEM_SIZE && s.D + i <= MEM_SIZE
    ensures |t.mem| == MEM_SIZE
  {
    if i == 0 then Trail(s.mem, s.A, s.input) else CrossCell(TrailAt(s, i - 1), s.C + i - 1, s.D + i - 1)
  }

  /** What lies under D when cell i runs: D follows C, so at most one self-cipher has passed over it. */
  function Under(s: State, i: nat): Word
    requires s.Valid() && s.D + i < MEM_SIZE
  {
    var x := s.D + i;
    if s.C <= x && Graphic(s.mem[x]) then Cipher(s.mem[x]) else s.mem[x]
  }

  /**
   Cell number i from C on, holding w, lets control and D pass; settled by what is in memory before
   the first of the cells runs.  Only an unmarked jump glyph looks further than w, its address and
   the cell under D.
   */
  predicate ValueAdvances(s: State, i: nat, w: Word)
    requires s.Valid() && s.C + i < MEM_SIZE && s.D + i < MEM_SIZE
  {
    var c: Word, op := s.C + i, DecodeOp(w, s.C + i);
    Graphic(w)
    && if ExtensionOp(op) then LandsNext(op, TrailAt(s, i).mem, TrailAt(s, i).acc, s.lastError, c)
       else op != 'v' && (op == 'i' ==> Under(s, i) == c) && (op == 'j' ==> Under(s, i) == s.D + i)
  }

  predicate CellAdvances(s: State, i: nat)
    requires s.Valid() && s.C + i < MEM_SIZE && s.D + i < MEM_SIZE
  {
    ValueAdvances(s, i, s.mem[s.C + i])
  }

  /** Cells at or behind neither pointer's way keep what they held; those C has crossed are ciphered once. */
  lemma {:induction false} TrailCell(s: State, i: nat, x: Word)
    requires s.Valid() && s.D < s.C && s.C + i <= MEM_SIZE
    requires !(s.D <= x < s.D + i)
    ensures TrailAt(s, i).mem[x] == if s.C <= x < s.C + i && Graphic(s.mem[x]) then Cipher(s.mem[x]) else s.mem[x]
    decreases i
  {
    hide Cipher, DecodeOp, RotateRight, Crazy;
    if i > 0 {
      TrailCell(s, i - 1, x);
      if x != s.C + i - 1 {
        CrossElsewhere(TrailAt(s, i - 1), s.C + i - 1, s.D + i - 1, x);
      } else {
        CrossHere(TrailAt(s, i - 1), x, s.D + i - 1);
      }
    }
  }

  lemma CrossElsewhere(t: Trail, c: Word, d: Word, x: Word)
    requires |t.mem| == MEM_SIZE && x != c && x != d
    ensures CrossCell(t, c, d).mem[x] == t.mem[x]
  {
    hide Cipher, DecodeOp, RotateRight, Crazy;
  }

  lemma CrossHere(t: Trail, c: Word, d: Word)
    requires |t.mem| == MEM_SIZE && c != d
    ensures CrossCell(t, c, d).mem[c] == if Graphic(t.mem[c]) then Cipher(t.mem[c]) else t.mem[c]
  {
    hide Cipher, DecodeOp, RotateRight, Crazy;
  }

  // ----- the machine follows the trail -----

  /** No cell of the stretch is marked as an extension instruction. */
  predicate Unmarked(s: State, n: nat)
    requires s.Valid() && s.C + n <= MEM_SIZE
  {
    forall x :: s.C <= x < s.C + n ==> s.seed[x] == '\0'
  }

  lemma StepTrail(s: State, script: Script)
    requires s.Valid() && !s.halted && Advances(s) && s.seed[s.C] == '\0' && s.D != s.C
    ensures var u := Step(s, script);
            Trail(u.mem, u.A, u.input) == CrossCell(Trail(s.mem, s.A, s.input), s.C, s.D)
            && u.seed == s.seed && u.expected == s.expected && u.lastError == s.lastError && u.exitCode == s.exitCode
            && u.calls == s.calls
  {
    hide DecodeFrame, DecodeOp, Crazy, RotateRight, Cipher, Wrap, AfterFrame, TrapFrame, FrameWord, HostCall;
  }

  /** The machine i cells on: where C and D should be, with the predicted memory. */
  ghost predicate OnCourse(s: State, t: State, i: nat)
    requires s.Valid() && s.C + i <= MEM_SIZE && s.D + i <= MEM_SIZE
  {
    t.Valid() && !t.halted && t.C == Wrap(s.C + i) && t.D == Wrap(s.D + i)
    && Trail(t.mem, t.A, t.input) == TrailAt(s, i)
    && t.seed == s.seed && t.expected == s.expected && t.lastError == s.lastError && t.exitCode == s.exitCode
    && t.calls == s.calls
  }

  /** At every tick C and D are as many cells on. */
  ghost predicate WalksOn(s: State, script: Script, n: nat)
    requires s.Valid()
  {
    forall i :: 0 <= i <= n ==> Passing(s, Run(s, script, i), i)
  }

  predicate Passing(s: State, t: State, i: nat) {
    !t.halted && t.C == Wrap(s.C + i) && t.D == Wrap(s.D + i)
  }

  lemma LastStep(s: State, script: Script, i: nat)
    requires s.Valid() && !Run(s, script, i).halted
    ensures Run(s, script, i + 1) == Step(Run(s, script, i), script)
  {
    hide Step;
    RunSplit(s, script, i, 1);
    var t := Run(s, script, i);
    assert Run(t, script, 1) == Run(Step(t, script), script, 0);
  }

  /** On course at cell i, the step advances exactly when the cell does. */
  lemma CourseStep(s: State, t: State, i: nat)
    requires s.Valid() && s.D < s.C && s.C + i < MEM_SIZE && OnCourse(s, t, i) && s.seed[s.C + i] == '\0'
    ensures t.C == s.C + i && t.D == s.D + i && Advances(t) == CellAdvances(s, i)
  {
    hide DecodeOp, Cipher, TrailAt, LandsNext;
    TrailCell(s, i, s.C + i);
    TrailCell(s, i, s.D + i);
  }

  lemma {:induction false} StaysOnCourse(s: State, script: Script, n: nat, i: nat)
    requires s.Valid() && !s.halted && s.D < s.C && s.C + n <= MEM_SIZE && Unmarked(s, n) && i <= n
    requires forall k :: 0 <= k < i ==> CellAdvances(s, k)
    ensures OnCourse(s, Run(s, script, i), i)
    decreases i
  {
    hide CellAdvances, Step, Advances, CrossCell;
    if i > 0 {
      StaysOnCourse(s, script, n, i - 1);
      var t := Run(s, script, i - 1);
      CourseStep(s, t, i - 1);
      AdvancesExactly(t, script);
      StepTrail(t, script);
      LastStep(s, script, i - 1);
    }
  }

  lemma {:induction false} WalkedCells(s: State, script: Script, n: nat, i: nat)
    requires s.Valid() && !s.halted && s.D < s.C && s.C + n <= MEM_SIZE && Unmarked(s, n) && i <= n
    requires WalksOn(s, script, i)
    ensures forall k :: 0 <= k < i ==> CellAdvances(s, k)
    decreases i
  {
    hide CellAdvances, Step, Advances, OnCourse;
    if i > 0 {
      WalkedCells(s, script, n, i - 1);
      StaysOnCourse(s, script, n, i - 1);
      var t := Run(s, script, i - 1);
      CourseHere(s, t, i - 1);
      CourseStep(s, t, i - 1);
      LastStep(s, script, i - 1);
      assert Passing(s, Run(s, script, i), i);
      AdvancesExactly(t, script);
    }
  }

  lemma CourseHere(s: State, t: State, i: nat)
    requires s.Valid() && s.C + i <= MEM_SIZE && s.D + i <= MEM_SIZE && OnCourse(s, t, i)
    ensures t.Valid() && Passing(s, t, i)
  {
    hide TrailAt;
  }

  /**
   Crossing data, exactly.  With D behind C, the machine takes C and D over n
   unmarked cells in n ticks, one cell a tick, if and only if each of them
   advances; and then memory, accumulator and input are the predicted ones.
   */
  lemma WalksExactly(s: State, script: Script, n: nat)
    requires s.Valid() && !s.halted && s.D < s.C && s.C + n <= MEM_SIZE && Unmarked(s, n)
    ensures WalksOn(s, script, n) <==> forall i :: 0 <= i < n ==> CellAdvances(s, i)
    ensures WalksOn(s, script, n) ==> OnCourse(s, Run(s, script, n), n)
  {
    hide CellAdvances, Step, OnCourse, Run;
    if WalksOn(s, script, n) {
      WalkedCells(s, script, n, n);
      StaysOnCourse(s, script, n, n);
    }
    if forall i :: 0 <= i < n ==> CellAdvances(s, i) {
      forall i | 0 <= i <= n
        ensures Passing(s, Run(s, script, i), i)
      {
        StaysOnCourse(s, script, n, i);
        CourseHere(s, Run(s, script, i), i);
      }
    }
  }

  /** What the first cell that does not advance, number k holding w, makes of the machine. */
  ghost predicate Diverted(s: State, k: nat, w: Word, u: State)
    requires s.Valid() && s.C + k < MEM_SIZE && s.D + k < MEM_SIZE
  {
    var c: Word, d: Word, op := s.C + k, s.D + k, DecodeOp(w, s.C + k);
    (u.halted || u.C != Wrap(c + 1) || u.D != Wrap(d + 1))
    && (!Graphic(w) ==> u.halted && u.exitCode == 127)
    && (op == 'v' ==> u.halted && u.exitCode == s.exitCode)
    && (op == 'i' ==> !u.halted && u.C == Wrap(Under(s, k) as nat + 1) && u.D == Wrap(d + 1))
    && (op == 'j' ==> !u.halted && u.C == Wrap(c + 1) && u.D == Wrap(Under(s, k) as nat + 1))
    && (ExtensionOp(op) && op != '@' ==>
          !u.halted && u.C == GoesTo(op, TrailAt(s, k).mem, TrailAt(s, k).acc, s.lastError, c, d) && u.D == Wrap(d + 1))
    && (op == '@' ==> u.halted || (u.C == AfterFrame(c, 6) && u.D == Wrap(d + 1)))
  }

  /**
   The first cell that does not advance.  Everything before it is crossed;
   there the machine stops with code 127 at a cell that is not printable, stops
   with its exit code unchanged at a halt, stops or skips operands at an
   unmarked extension glyph, or goes on with C or D somewhere else.
   */
  lemma FirstOffender(s: State, script: Script, n: nat, k: nat)
    requires s.Valid() && !s.halted && s.D < s.C && s.C + n <= MEM_SIZE && Unmarked(s, n) && k < n
    requires (forall i :: 0 <= i < k ==> CellAdvances(s, i)) && !CellAdvances(s, k)
    ensures WalksOn(s, script, k) && Diverted(s, k, s.mem[s.C + k], Run(s, script, k + 1))
  {
    hide CellAdvances, Step, Run, Advances, TrailAt, DecodeOp, Cipher, Wrap, AfterFrame, FrameWord, WalksOn;
    WalksExactly(s, script, k);
    StaysOnCourse(s, script, n, k);
    var t := Run(s, script, k);
    OffenderStep(s, t, script, k);
    LastStep(s, script, k);
  }

  lemma OffenderStep(s: State, t: State, script: Script, k: nat)
    requires s.Valid() && s.D < s.C && s.C + k < MEM_SIZE && OnCourse(s, t, k) && s.seed[s.C + k] == '\0'
    requires !CellAdvances(s, k)
    ensures Diverted(s, k, s.mem[s.C + k], Step(t, script))
  {
    hide CellAdvances, Step, Advances, TrailAt, Cipher, Wrap, AfterFrame, FrameWord, Xlat1;
    CourseStep(s, t, k);
    AdvancesExactly(t, script);
    StepPlace(t, script);
    TrailCell(s, k, t.C);
    TrailCell(s, k, t.D);
  }

  // ----- what a crossing leaves alone -----

  /** Memory off both pointers' ways is untouched. */
  lemma CourseFrame(s: State, t: State, n: nat, x: Word)
    requires s.Valid() && s.D < s.C && s.C + n <= MEM_SIZE && OnCourse(s, t, n)
    requires !(s.C <= x < s.C + n) && !(s.D <= x < s.D + n)
    ensures t.mem[x] == s.mem[x]
  {
    hide TrailAt;
    TrailCell(s, n, x);
  }
}
