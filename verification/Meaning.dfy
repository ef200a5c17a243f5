/**
 Meaning preservation.  The plain assembly machine has only registers, data
 cells and instructions at addresses: no glyphs, no frames, no self-cipher, no
 bookkeeping.  Its runs, loops included, are the runs of the virtual machine on
 the assembled, printed and reloaded image.
 */
module Meaning {
  import opened Words
  import opened Glyphs
  import opened Frames
  import opened Machine
  import opened Loader
  import opened Source
  import opened Straight
  import opened Assembly
  import opened Agreement
  import opened Compiler
  import opened Startup

  // ----- the plain machine -----

  ghost predicate OffCode(prog: Program, xs: set<Word>) {
    forall x :: x in xs ==> NotCode(prog, x)
  }

  function Strip(s: Src): Src {
    s.(ran := {}, dirty := {})
  }

  /** One instruction; no successor when it is not a framed instruction (or the halt), or touches code cells as data. */
  ghost function PlainStep(prog: Program, s: Src, script: Script): (r: Option<Src>)
    requires |s.mem| == MEM_SIZE && !s.halted
    ensures r.Some? ==> |r.value.mem| == MEM_SIZE
  {
    if s.C !in prog || (prog[s.C].Classic? && prog[s.C] != Classic('v')) then None
    else
      var e := Act(prog[s.C], s, script);
      if OffCode(prog, e.readSet) && OffCode(prog, WriteTargets(e.writes)) then Some(Strip(Commit(s, e))) else None
  }

  ghost function PlainRun(prog: Program, s: Src, script: Script, n: nat): (r: Option<Src>)
    requires |s.mem| == MEM_SIZE
    ensures r.Some? ==> |r.value.mem| == MEM_SIZE
    decreases n
  {
    if n == 0 || s.halted then Some(s)
    else
      match PlainStep(prog, s, script)
      case None => None
      case Some(t) => PlainRun(prog, t, script, n - 1)
  }

  // ----- plain runs keep the contract -----

  /** Nothing written is code, everything ciphered is an opcode, and a framed one as long as the program runs. */
  ghost predicate Safe(prog: Program, s: Src) {
    OffCode(prog, s.dirty)
    && forall x: Word :: x in s.ran ==> x in prog && (s.halted || !prog[x].Classic?)
  }

  /** An effect does not look at the bookkeeping and does not touch it. */
  ghost predicate Blind(e: Effect, f: Effect, s: Src) {
    f.readSet == e.readSet && f.writes == e.writes && f.after == Strip(e.after)
    && e.after.ran == s.ran && e.after.dirty == s.dirty && (s.halted ==> e.after.halted)
  }

  lemma ActStrip(i: Instr, s: Src, script: Script)
    requires |s.mem| == MEM_SIZE
    ensures var e, f := Act(i, s, script), Act(i, Strip(s), script);
            f.readSet == e.readSet && f.writes == e.writes && f.after == Strip(e.after)
            && e.after.ran == s.ran && e.after.dirty == s.dirty && (i == Classic('v') || s.halted ==> e.after.halted)
  {
    hide Act;
    match i {
      case Classic(op) => ClassicActs(op, s, script); ActClassicStrip(op, s);
      case Trap(_, _, _, _, _, _) => TrapStrip(i, s, script);
      case Jump(_) => ControlStrip(i, s, script);
      case Branch(_, _) => ControlStrip(i, s, script);
      case JumpM(_) => ControlStrip(i, s, script);
      case SetA(_) => ImmediateStrip(i, s, script);
      case AddI(_) => ImmediateStrip(i, s, script);
      case SubI(_) => ImmediateStrip(i, s, script);
      case StoreA(_) => StoreStrip(i, s, script);
      case StoreI(_) => StoreStrip(i, s, script);
      case _ => LoadStrip(i, s, script);
    }
  }

  lemma ClassicActs(op: char, s: Src, script: Script)
    requires |s.mem| == MEM_SIZE
    ensures Act(Classic(op), s, script) == ActClassic(op, s)
            && Act(Classic(op), Strip(s), script) == ActClassic(op, Strip(s))
  {
    hide ActClassic;
  }

  lemma TrapStrip(i: Instr, s: Src, script: Script)
    requires |s.mem| == MEM_SIZE && i.Trap?
    ensures Blind(Act(i, s, script), Act(i, Strip(s), script), s)
  {
    hide ModWord, Answer, Wrap;
  }

  lemma ControlStrip(i: Instr, s: Src, script: Script)
    requires |s.mem| == MEM_SIZE && (i.Jump? || i.Branch? || i.JumpM?)
    ensures Blind(Act(i, s, script), Act(i, Strip(s), script), s)
  {
    hide ModWord, Wrap, Taken;
  }

  lemma ImmediateStrip(i: Instr, s: Src, script: Script)
    requires |s.mem| == MEM_SIZE && (i.SetA? || i.AddI? || i.SubI?)
    ensures Blind(Act(i, s, script), Act(i, Strip(s), script), s)
  {
    hide ModWord, Wrap;
  }

  lemma StoreStrip(i: Instr, s: Src, script: Script)
    requires |s.mem| == MEM_SIZE && (i.StoreA? || i.StoreI?)
    ensures Blind(Act(i, s, script), Act(i, Strip(s), script), s)
  {
    hide ModWord, Wrap;
  }

  lemma LoadStrip(i: Instr, s: Src, script: Script)
    requires |s.mem| == MEM_SIZE && (i.LoadA? || i.AddM? || i.SubM? || i.CmpM? || i.LoadI?)
    ensures Blind(Act(i, s, script), Act(i, Strip(s), script), s)
  {
    hide ModWord, Wrap;
  }

  lemma ActClassicStrip(op: char, s: Src)
    requires |s.mem| == MEM_SIZE
    ensures var e, f := ActClassic(op, s), ActClassic(op, Strip(s));
            f.readSet == e.readSet && f.writes == e.writes && f.after == Strip(e.after)
            && e.after.ran == s.ran && e.after.dirty == s.dirty && (op == 'v' || s.halted ==> e.after.halted)
  {
    hide ActClassic;
    if op == 'j' || op == 'i' || op == '*' || op == 'p' {
      TouchingStrip(op, s);
    } else {
      StreamStrip(op, s);
    }
  }

  lemma StreamStrip(op: char, s: Src)
    requires |s.mem| == MEM_SIZE && op != 'j' && op != 'i' && op != '*' && op != 'p'
    ensures var e, f := ActClassic(op, s), ActClassic(op, Strip(s));
            f.readSet == e.readSet && f.writes == e.writes && f.after == Strip(e.after)
            && e.after.ran == s.ran && e.after.dirty == s.dirty && (op == 'v' || s.halted ==> e.after.halted)
  {
    hide Crazy, RotateRight, Wrap;
  }

  lemma TouchingStrip(op: char, s: Src)
    requires |s.mem| == MEM_SIZE && (op == 'j' || op == 'i' || op == '*' || op == 'p')
    ensures var e, f := ActClassic(op, s), ActClassic(op, Strip(s));
            Blind(e, f, s)
  {
    hide Crazy, RotateRight, Wrap;
  }

  lemma OffCodeClean(prog: Program, pc: nat, xs: set<Word>)
    requires pc in prog && OffCode(prog, xs)
    ensures CleanSpan(pc, Size(prog[pc]), xs)
  {
    hide Size;
    forall x | x in xs
      ensures !(pc <= x < pc + Size(prog[pc]))
    {
      assert NotCode(prog, x);
    }
  }

  lemma OpcodeIsCode(prog: Program, x: nat)
    requires x in prog
    ensures !NotCode(prog, x)
  {
  }

  lemma PlainFetch(prog: Program, s: Src, script: Script)
    requires WellPlaced(prog) && |s.mem| == MEM_SIZE && !s.halted && Safe(prog, s)
    requires PlainStep(prog, Strip(s), script).Some?
    ensures CanFetch(prog, s) && Allowed(s, Act(prog[s.C], s, script))
  {
    hide Act, Size, CleanSpan, NotCode, WriteTargets;
    ActStrip(prog[s.C], s, script);
    OffCodeClean(prog, s.C, s.dirty);
    var e := Act(prog[s.C], s, script);
    OpcodeIsCode(prog, s.C);
    forall x | x in e.readSet
      ensures x !in s.ran
    {
      if x in s.ran {
        OpcodeIsCode(prog, x);
      }
    }
  }

  lemma PlainStepSafe(prog: Program, s: Src, script: Script)
    requires WellPlaced(prog) && |s.mem| == MEM_SIZE && !s.halted && Safe(prog, s)
    requires PlainStep(prog, Strip(s), script).Some?
    ensures SrcStep(prog, s, script).Some?
    ensures Strip(SrcStep(prog, s, script).value) == PlainStep(prog, Strip(s), script).value
    ensures Safe(prog, SrcStep(prog, s, script).value)
    ensures SrcStep(prog, s, script).value.ran <= s.ran + {s.C}
  {
    hide Act, CanFetch, NotCode, WriteTargets, ApplyWrites;
    PlainFetch(prog, s, script);
    ActStrip(prog[s.C], s, script);
  }

  lemma {:induction false} PlainRunSafe(prog: Program, s: Src, script: Script, n: nat)
    requires WellPlaced(prog) && |s.mem| == MEM_SIZE && Safe(prog, s)
    requires PlainRun(prog, Strip(s), script, n).Some?
    ensures SrcRun(prog, s, script, n).Some?
    ensures Strip(SrcRun(prog, s, script, n).value) == PlainRun(prog, Strip(s), script, n).value
    ensures Safe(prog, SrcRun(prog, s, script, n).value)
    decreases n
  {
    hide SrcStep, PlainStep, Safe, WellPlaced;
    if n > 0 && !s.halted {
      PlainStepSafe(prog, s, script);
      PlainRunSafe(prog, SrcStep(prog, s, script).value, script, n - 1);
    }
  }

  lemma {:induction false} PlainRunSplit(prog: Program, s: Src, script: Script, m: nat, n: nat)
    requires |s.mem| == MEM_SIZE && PlainRun(prog, s, script, m).Some?
    ensures PlainRun(prog, s, script, m + n) == PlainRun(prog, PlainRun(prog, s, script, m).value, script, n)
    decreases m
  {
    hide PlainStep;
    if m > 0 && !s.halted {
      PlainRunSplit(prog, PlainStep(prog, s, script).value, script, m - 1, n);
    }
  }

  // ----- compiler correctness -----

  /** Data cells initialised, control at `start`, D showing the startup ticks. */
  function PlainStart(image: Image, v: State): Src
    requires v.Valid() && forall k :: 0 <= k < |image.inits| ==> image.inits[k].0 < MEM_SIZE
  {
    Src(ApplyWrites(v.mem, InitWrites(image.inits)), LastValue(image.inits), ModWord(image.start),
        ModWord(MatTicks(|image.inits|)), false, 0, false, v.input, [], [], {}, {})
  }

  lemma InitsInMemory(image: Image)
    requires GoodImage(image)
    ensures forall k :: 0 <= k < |image.inits| ==> image.inits[k].0 < MEM_SIZE
    ensures WellPlaced(ProgramOf(image.pieces, 0))
  {
    hide ProgramOf, EncodePieces, MatPieces, NotCode;
    ProgramPlaced(image.pieces, 0);
  }

  lemma {:induction false} MatNotClassic(inits: seq<(nat, Word)>, start: int, addr: nat, pc: nat)
    requires pc in ProgramOf(MatPieces(inits, start), addr)
    ensures !ProgramOf(MatPieces(inits, start), addr)[pc].Classic?
  {
    var ps := MatPieces(inits, start);
    if inits == [] {
      assert ps[1..] == [];
    } else {
      assert ps[1..] == [Code(StoreA(inits[0].0))] + MatPieces(inits[1..], start);
      assert ps[1..][1..] == MatPieces(inits[1..], start);
      if pc != addr && pc != addr + 6 {
        MatNotClassic(inits[1..], start, addr + 12, pc);
      }
    }
  }

  /** During startup only startup opcodes are executed. */
  lemma {:induction false} PlainRanGrows(prog: Program, s: Src, script: Script, n: nat)
    requires |s.mem| == MEM_SIZE && SrcRun(prog, s, script, n).Some?
    ensures forall x :: x in SrcRun(prog, s, script, n).value.ran ==> x in s.ran || x in prog
    decreases n
  {
    hide Act, WriteTargets, ApplyWrites;
    if n > 0 && !s.halted {
      ActKeepsRan(prog, s, script);
      PlainRanGrows(prog, SrcStep(prog, s, script).value, script, n - 1);
    }
  }

  lemma ActKeepsRan(prog: Program, s: Src, script: Script)
    requires |s.mem| == MEM_SIZE && !s.halted && SrcStep(prog, s, script).Some?
    ensures SrcStep(prog, s, script).value.ran <= s.ran + {s.C} && s.C in prog
  {
    hide Act, WriteTargets, ApplyWrites;
    ActStrip(prog[s.C], s, script);
  }

  lemma StartSafe(image: Image, v: State, script: Script)
    requires GoodImage(image) && v.Valid() && Booted(v, image.cells)
    requires forall k :: 0 <= k < |image.inits| ==> image.inits[k].0 < MEM_SIZE
    ensures var prog := ProgramOf(image.pieces, 0);
            var r := SrcRun(prog, SourceBoot(v), script, MatTicks(|image.inits|));
            r.Some? && AtStart(image, v, r.value) && Strip(r.value) == PlainStart(image, v) && Safe(prog, r.value)
  {
    hide GoodImage, Booted, ProgramOf, NotCode, SrcStep;
    var prog := ProgramOf(image.pieces, 0);
    BootMemory(v);
    StartupRuns(image, v, script);
    var t := SrcRun(prog, SourceBoot(v), script, MatTicks(|image.inits|)).value;
    PlainRanGrows(prog, SourceBoot(v), script, MatTicks(|image.inits|));
    hide SrcRun, ApplyWrites, InitWrites, WriteTargets;
    StartTicks(image);
    forall x | x in t.ran
      ensures x in prog && !prog[x].Classic?
    {
      StartupOpcode(image, x);
    }
    forall x | x in t.dirty
      ensures NotCode(prog, x)
    {
      TargetNotCode(image, x);
    }
  }

  lemma StartTicks(image: Image)
    requires GoodImage(image)
    ensures ModWord(MatTicks(|image.inits|)) == MatTicks(|image.inits|)
  {
    hide ProgramOf, EncodePieces, MatPieces, NotCode;
    SmallWord(MatTicks(|image.inits|));
  }

  lemma StartupOpcode(image: Image, x: nat)
    requires GoodImage(image) && x < image.prefix && x in ProgramOf(image.pieces, 0)
    ensures !ProgramOf(image.pieces, 0)[x].Classic?
  {
    hide ProgramOf, EncodePieces, NotCode;
    var mat := MatPieces(image.inits, image.start);
    var rest := image.pieces[|mat|..];
    assert image.pieces == mat + rest;
    ProgramSplit(mat, rest, 0);
    MatPiecesSize(image.inits, image.start);
    ProgramBounds(rest, PiecesSize(mat));
    MatNotClassic(image.inits, image.start, 0, x);
  }

  lemma TargetNotCode(image: Image, x: Word)
    requires GoodImage(image) && (forall k :: 0 <= k < |image.inits| ==> image.inits[k].0 < MEM_SIZE)
    requires x in WriteTargets(InitWrites(image.inits))
    ensures NotCode(ProgramOf(image.pieces, 0), x)
  {
    hide ProgramOf, EncodePieces, MatPieces;
    var k :| 0 <= k < |image.inits| && InitWrites(image.inits)[k].0 == x;
    assert image.inits[k].0 == x;
  }

  /**
   Compiler correctness with loops.  After startup, n steps of the plain
   machine are n steps of the virtual machine: same registers, same error flag,
   same host calls and output, same contents of every cell that is not code,
   and every framed instruction still dispatches as itself.
   */
  lemma CompilerCorrect(image: Image, v: State, script: Script, n: nat)
    requires GoodImage(image) && ClassicOnly(image.pieces) && v.Valid() && Booted(v, image.cells)
    requires forall k :: 0 <= k < |image.inits| ==> image.inits[k].0 < MEM_SIZE
    requires PlainRun(ProgramOf(image.pieces, 0), PlainStart(image, v), script, n).Some?
    ensures var prog := ProgramOf(image.pieces, 0);
            var t := PlainRun(prog, PlainStart(image, v), script, n).value;
            var u := Run(v, script, MatTicks(|image.inits|) + n);
            SameRegisters(t, u)
            && (forall x: Word :: NotCode(prog, x) ==> u.mem[x] == t.mem[x])
            && (forall pc: Word :: pc in prog && !prog[pc].Classic? ==>
                  Graphic(u.mem[pc]) && EffectiveOp(u, pc) == OpChar(prog[pc]))
  {
    hide GoodImage, ProgramOf, SrcStep, PlainStep, EncodePieces, AtStart, DecodeOp, Marked, Sim, Safe, Run,
         SameRegisters, NotCode, SrcRun, PlainRun, Booted, MatTicks, SourceBoot, EffectiveOp, WellPlaced;
    var prog := ProgramOf(image.pieces, 0);
    var k := MatTicks(|image.inits|);
    GoodEncodes(image);
    BootSim(image.pieces, v, image.cells);
    BootMemory(v);
    StartSafe(image, v, script);
    var s := SrcRun(prog, SourceBoot(v), script, k).value;
    PlainRunSafe(prog, s, script, n);
    SrcRunSplit(prog, SourceBoot(v), script, k, n);
    SimRun(prog, SourceBoot(v), v, script, k + n);
    CompiledState(prog, SrcRun(prog, s, script, n).value, Run(v, script, k + n));
  }

  lemma GoodEncodes(image: Image)
    requires GoodImage(image)
    ensures EncodePieces(image.pieces, 0) == Success(image.cells) && WellPlaced(ProgramOf(image.pieces, 0))
  {
    InitsInMemory(image);
  }

  lemma CompiledState(prog: Program, t: Src, u: State)
    requires Sim(prog, t, u) && Safe(prog, t)
    ensures SameRegisters(Strip(t), u)
    ensures forall x: Word :: NotCode(prog, x) ==> u.mem[x] == t.mem[x]
    ensures forall pc: Word :: pc in prog && !prog[pc].Classic? ==>
              Graphic(u.mem[pc]) && EffectiveOp(u, pc) == OpChar(prog[pc])
  {
    hide DecodeFrame, DecodeOp, Size, CleanSpan, OpChar, NotCode;
    forall x: Word | NotCode(prog, x)
      ensures u.mem[x] == t.mem[x]
    {
      if x in t.ran {
        OpcodeIsCode(prog, x);
      }
    }
    forall pc: Word | pc in prog && !prog[pc].Classic?
      ensures Graphic(u.mem[pc]) && EffectiveOp(u, pc) == OpChar(prog[pc])
    {
      OffCodeClean(prog, pc, t.dirty);
      assert InstalledAt(u, pc, prog[pc], pc in t.ran);
      NotNul(prog[pc]);
    }
  }

  lemma NotNul(i: Instr)
    requires !i.Classic?
    ensures OpChar(i) != '\0'
  {
  }
}
