/**
 The assembly-level machine, and the theorem that the virtual machine
 simulates it.

 An assembly program is a map from addresses to instructions with their
 operands as numbers.  The assembly machine knows nothing of glyphs, frames,
 ciphers or lineage.  It keeps two sets for the contract between programmer and
 machine: `ran`, the opcode cells executed since they were last written (their
 contents are ciphered, so the program may not read them), and `dirty`, the
 cells ever written as data (an instruction may run only while its own cells
 are not among them).  A step that breaks the contract has no successor.
 */
module Source {
  import opened Words
  import opened Glyphs
  import opened Frames
  import opened Machine

  datatype Instr =
    | Trap(sys: int, a0: int, a1: int, a2: int, a3: int, a4: int)
    | Jump(target: int)
    | Branch(mode: int, target: int)
    | StoreA(target: int)
    | LoadA(source: int)
    | SetA(value: int)
    | AddI(value: int)
    | SubI(value: int)
    | AddM(source: int)
    | SubM(source: int)
    | CmpM(source: int)
    | LoadI(source: int)
    | StoreI(target: int)
    | JumpM(source: int)
    | Classic(op: char)

  function OpChar(i: Instr): char {
    match i
    case Trap(_, _, _, _, _, _) => '@'
    case Jump(_) => '!'
    case Branch(_, _) => '?'
    case StoreA(_) => '='
    case LoadA(_) => '~'
    case SetA(_) => '#'
    case AddI(_) => '+'
    case SubI(_) => '-'
    case AddM(_) => '['
    case SubM(_) => ']'
    case CmpM(_) => ':'
    case LoadI(_) => '^'
    case StoreI(_) => '$'
    case JumpM(_) => '`'
    case Classic(op) => op
  }

  /** The inline frame words, in the order they follow the opcode. */
  function FrameOf(i: Instr): seq<int> {
    match i
    case Trap(sys, a0, a1, a2, a3, a4) => [sys, a0, a1, a2, a3, a4]
    case Jump(target) => [target]
    case Branch(mode, target) => [target, mode]
    case StoreA(target) => [target]
    case LoadA(source) => [source]
    case SetA(value) => [value]
    case AddI(value) => [value]
    case SubI(value) => [value]
    case AddM(source) => [source]
    case SubM(source) => [source]
    case CmpM(source) => [source]
    case LoadI(source) => [source]
    case StoreI(target) => [target]
    case JumpM(source) => [source]
    case Classic(_) => []
  }

  function Size(i: Instr): nat {
    1 + |FrameOf(i)| * ENC_WORD_CELLS
  }

  type Program = map<nat, Instr>

  // ----- the assembly machine -----

  datatype Src = Src(
    mem: seq<Word>, A: Word, C: Word, D: Word,
    halted: bool, exitCode: nat, lastError: bool,
    input: seq<Byte>, output: seq<Byte>, calls: seq<TrapCall>,
    ran: set<Word>, dirty: set<Word>)

  /** What one instruction does: cells read and written, and the new registers. */
  datatype Effect = Effect(readSet: set<Word>, writes: seq<(Word, Word)>, after: Src)

  function NextC(s: Src, i: Instr): Word {
    Wrap(s.C + Size(i))
  }

  /** `after` carries the new registers and streams; its memory is still the old one. */
  function Act(i: Instr, s: Src, script: Script): Effect
    requires |s.mem| == MEM_SIZE
  {
    var next := s.(C := NextC(s, i));
    match i
    case Trap(sys, a0, a1, a2, a3, a4) =>
      var call := TrapCall(ModWord(sys),
                           [Operand(ModWord(a0), s.A), Operand(ModWord(a1), s.A), Operand(ModWord(a2), s.A),
                            Operand(ModWord(a3), s.A), Operand(ModWord(a4), s.A)]);
      if call.sys == EXIT_CALL then
        Effect({}, [], s.(A := call.args[0], lastError := false, halted := true,
                          exitCode := call.args[0] % 256, calls := s.calls + [call]))
      else
        var answer := Answer(script, |s.calls|, call.sys);
        Effect({}, answer.writes,
               next.(A := ModWord(answer.ret), lastError := answer.ret < 0, calls := s.calls + [call]))
    case Jump(target) => Effect({}, [], s.(C := ModWord(target)))
    case Branch(mode, target) =>
      Effect({}, [], if Taken(ModWord(mode), s.A, s.lastError) then s.(C := ModWord(target)) else next)
    case StoreA(target) => Effect({}, [(ModWord(target), s.A)], next)
    case LoadA(source) => Effect({ModWord(source)}, [], next.(A := s.mem[ModWord(source)]))
    case SetA(value) => Effect({}, [], next.(A := ModWord(value)))
    case AddI(value) => Effect({}, [], next.(A := ModWord(s.A + value)))
    case SubI(value) => Effect({}, [], next.(A := ModWord(s.A - value)))
    case AddM(source) => Effect({ModWord(source)}, [], next.(A := ModWord(s.A + s.mem[ModWord(source)])))
    case SubM(source) => Effect({ModWord(source)}, [], next.(A := ModWord(s.A - s.mem[ModWord(source)])))
    case CmpM(source) => Effect({ModWord(source)}, [], next.(A := if s.A == s.mem[ModWord(source)] then 0 else 1))
    case LoadI(source) =>
      var ptr := s.mem[ModWord(source)];
      Effect({ModWord(source), ptr}, [], next.(A := s.mem[ptr]))
    case StoreI(target) => Effect({ModWord(target)}, [(s.mem[ModWord(target)], s.A)], next)
    case JumpM(source) => Effect({ModWord(source)}, [], s.(C := s.mem[ModWord(source)]))
    case Classic(op) => ActClassic(op, s)
  }

  function ActClassic(op: char, s: Src): Effect
    requires |s.mem| == MEM_SIZE
  {
    var next := s.(C := Wrap(s.C + 1));
    var cell := s.mem[s.D];
    match op
    case 'j' => Effect({s.D}, [], next.(D := cell))
    case 'i' => Effect({s.D}, [], s.(C := Wrap(cell as nat + 1)))
    case '*' => Effect({s.D}, [(s.D, RotateRight(cell))], next.(A := RotateRight(cell)))
    case 'p' => Effect({s.D}, [(s.D, Crazy(s.A, cell))], next.(A := Crazy(s.A, cell)))
    case '/' =>
      Effect({}, [], if s.input == [] then next.(A := EOF_WORD) else next.(A := s.input[0], input := s.input[1..]))
    case '<' =>
      Effect({}, [], if s.A == EOF_WORD then next else next.(output := s.output + [s.A % 256]))
    case 'v' => Effect({}, [], s.(halted := true))
    case _ => Effect({}, [], next)
  }

  predicate CleanSpan(pc: nat, size: nat, dirty: set<Word>) {
    forall x: Word :: x in dirty ==> !(pc <= x < pc + size)
  }

  predicate CanFetch(prog: Program, s: Src) {
    s.C in prog
    && s.C + Size(prog[s.C]) <= MEM_SIZE
    && CleanSpan(s.C, Size(prog[s.C]), s.dirty)
    && (prog[s.C].Classic? ==> ClassicOp(prog[s.C].op) && s.C !in s.ran)
  }

  predicate Allowed(s: Src, e: Effect) {
    e.readSet !! s.ran && s.C !in WriteTargets(e.writes)
  }

  function Commit(s: Src, e: Effect): (r: Src)
    requires |s.mem| == MEM_SIZE
    ensures |r.mem| == MEM_SIZE
  {
    var targets := WriteTargets(e.writes);
    var done := e.after.(mem := ApplyWrites(s.mem, e.writes),
                         ran := (s.ran - targets) + {s.C}, dirty := s.dirty + targets);
    if done.halted then done else done.(D := Wrap(done.D + 1))
  }

  function SrcStep(prog: Program, s: Src, script: Script): (r: Option<Src>)
    requires |s.mem| == MEM_SIZE && !s.halted
    ensures r.Some? ==> |r.value.mem| == MEM_SIZE
  {
    if !CanFetch(prog, s) then None
    else
      var e := Act(prog[s.C], s, script);
      if Allowed(s, e) then Some(Commit(s, e)) else None
  }

  function SrcRun(prog: Program, s: Src, script: Script, n: nat): (r: Option<Src>)
    requires |s.mem| == MEM_SIZE
    ensures r.Some? ==> |r.value.mem| == MEM_SIZE
    decreases n
  {
    if n == 0 || s.halted then Some(s)
    else
      match SrcStep(prog, s, script)
      case None => None
      case Some(t) => SrcRun(prog, t, script, n - 1)
  }

  lemma {:induction false} SrcRunSplit(prog: Program, s: Src, script: Script, m: nat, n: nat)
    requires |s.mem| == MEM_SIZE && SrcRun(prog, s, script, m).Some?
    ensures SrcRun(prog, s, script, m + n) == SrcRun(prog, SrcRun(prog, s, script, m).value, script, n)
    decreases m
  {
    hide SrcStep;
    if m > 0 && !s.halted {
      SrcRunSplit(prog, SrcStep(prog, s, script).value, script, m - 1, n);
    }
  }

  // ----- the simulation relation -----

  /** The cells at `pc` hold the encoded instruction, possibly several cipher generations on. */
  ghost predicate InstalledAt(v: State, pc: nat, i: Instr, ran: bool)
    requires v.Valid() && pc + Size(i) <= MEM_SIZE
  {
    (forall k :: 0 <= k < |FrameOf(i)| ==> DecodeFrame(v.mem, pc + 1 + k * ENC_WORD_CELLS) == ModWord(FrameOf(i)[k]))
    && if i.Classic? then !ran ==> Graphic(v.mem[pc]) && v.seed[pc] == '\0' && DecodeOp(v.mem[pc], pc) == i.op
       else Graphic(v.mem[pc]) && v.seed[pc] == OpChar(i) && v.expected[pc] == v.mem[pc]
  }

  /** No instruction's cells reach into another's, and all lie in memory. */
  ghost predicate WellPlaced(prog: Program) {
    (forall pc :: pc in prog ==> pc + Size(prog[pc]) <= MEM_SIZE)
    && forall a, b :: a in prog && b in prog && a < b ==> a + Size(prog[a]) <= b
  }

  ghost predicate SameRegisters(s: Src, v: State) {
    v.A == s.A && v.C == s.C && v.D == s.D && v.halted == s.halted && v.exitCode == s.exitCode
    && v.lastError == s.lastError && v.input == s.input && v.output == s.output && v.calls == s.calls
  }

  ghost predicate Sim(prog: Program, s: Src, v: State) {
    v.Valid() && |s.mem| == MEM_SIZE && WellPlaced(prog)
    && SameRegisters(s, v)
    && (forall x: Word :: x !in s.ran ==> v.mem[x] == s.mem[x])
    && forall pc :: pc in prog && CleanSpan(pc, Size(prog[pc]), s.dirty) ==>
         InstalledAt(v, pc, prog[pc], pc in s.ran)
  }

  lemma DecodeFrameSame(a: seq<Word>, b: seq<Word>, pos: nat)
    requires |a| == |b| == MEM_SIZE && pos + ENC_WORD_CELLS <= MEM_SIZE
    requires forall x :: pos <= x < pos + ENC_WORD_CELLS ==> a[x] == b[x]
    ensures DecodeFrame(a, pos) == DecodeFrame(b, pos)
  {
    var ca := seq(ENC_WORD_CELLS, i requires 0 <= i < ENC_WORD_CELLS => a[(pos + i) % MEM_SIZE]);
    var cb := seq(ENC_WORD_CELLS, i requires 0 <= i < ENC_WORD_CELLS => b[(pos + i) % MEM_SIZE]);
    forall i | 0 <= i < ENC_WORD_CELLS
      ensures ca[i] == cb[i]
    {
      assert (pos + i) % MEM_SIZE == pos + i;
    }
    assert ca == cb;
  }

  lemma {:induction false} ApplyWritesAgree(a: seq<Word>, b: seq<Word>, writes: seq<(Word, Word)>, x: Word)
    requires |a| == |b| == MEM_SIZE
    requires a[x] == b[x] || x in WriteTargets(writes)
    ensures ApplyWrites(a, writes)[x] == ApplyWrites(b, writes)[x]
    decreases |writes|
  {
    if writes != [] {
      var (t, v) := writes[0];
      if x in WriteTargets(writes) && x != t {
        var k :| 0 <= k < |writes| && writes[k].0 == x;
        assert writes[1..][k - 1].0 == x;
      }
      ApplyWritesAgree(a[t := v], b[t := v], writes[1..], x);
    }
  }

  /** The machine's reading of the program at C: same operation, same operands. */
  lemma FetchMatches(prog: Program, s: Src, v: State)
    requires Sim(prog, s, v) && !s.halted && CanFetch(prog, s)
    ensures Graphic(v.mem[v.C]) && EffectiveOp(v, v.C) == OpChar(prog[s.C])
    ensures Lineage(v, v.C) <==> !prog[s.C].Classic?
    ensures forall k :: 0 <= k < |FrameOf(prog[s.C])| ==> FrameWord(v.mem, v.C, k) == ModWord(FrameOf(prog[s.C])[k])
  {
    hide DecodeOp, DecodeFrame, ModWord;
    assert InstalledAt(v, s.C, prog[s.C], s.C in s.ran);
  }

  lemma NoWrites(mem: seq<Word>)
    requires |mem| == MEM_SIZE
    ensures ApplyWrites(mem, []) == mem && WriteTargets([]) == {}
  {
  }

  lemma OneWrite(mem: seq<Word>, t: Word, v: Word)
    requires |mem| == MEM_SIZE
    ensures ApplyWrites(mem, [(t, v)]) == mem[t := v] && WriteTargets([(t, v)]) == {t}
  {
    var w := [(t, v)];
    assert w[1..] == [] && w[0] == (t, v);
    NoWrites(mem[t := v]);
    assert WriteTargets(w) == {t} by {
      assert t in WriteTargets(w);
    }
  }

  ghost predicate ActsAlike(i: Instr, s: Src, v: State, script: Script)
    requires v.Valid() && |s.mem| == MEM_SIZE
  {
    var e := Act(i, s, script);
    Execute(v, OpChar(i), script)
    == v.(mem := ApplyWrites(v.mem, e.writes), A := e.after.A, C := e.after.C, D := e.after.D,
          halted := e.after.halted, exitCode := e.after.exitCode, lastError := e.after.lastError,
          input := e.after.input, output := e.after.output, calls := e.after.calls)
    && OpWrites(v, OpChar(i), script) == WriteTargets(e.writes)
  }

  /** Given the same operands and agreeing reads, executing the operation is the instruction's effect. */
  lemma ExecuteMatches(i: Instr, s: Src, v: State, script: Script)
    requires v.Valid() && |s.mem| == MEM_SIZE && SameRegisters(s, v) && !s.halted
    requires i.Classic? ==> ClassicOp(i.op)
    requires forall k :: 0 <= k < |FrameOf(i)| ==> FrameWord(v.mem, v.C, k) == ModWord(FrameOf(i)[k])
    requires forall x :: x in Act(i, s, script).readSet ==> v.mem[x] == s.mem[x]
    ensures ActsAlike(i, s, v, script)
  {
    hide DecodeFrame, Crazy, RotateRight, SupportedCall, ApplyWrites, WriteTargets, ModWord, ActsAlike;
    if i.Classic? {
      ClassicMatches(i.op, s, v, script);
    } else if i.Trap? {
      TrapMatches(i, s, v, script);
    } else {
      FramedMatches(i, s, v, script);
    }
  }

  lemma ClassicMatches(op: char, s: Src, v: State, script: Script)
    requires v.Valid() && |s.mem| == MEM_SIZE && SameRegisters(s, v) && !s.halted
    requires ClassicOp(op)
    requires forall x :: x in Act(Classic(op), s, script).readSet ==> v.mem[x] == s.mem[x]
    ensures ActsAlike(Classic(op), s, v, script)
  {
    hide DecodeFrame, Crazy, RotateRight, SupportedCall, ApplyWrites, WriteTargets, ModWord, ActsAlike;
    if op == '*' || op == 'p' {
      RewriteMatches(op, s, v, script);
    } else {
      QuietMatches(op, s, v, script);
    }
  }

  lemma RewriteMatches(op: char, s: Src, v: State, script: Script)
    requires v.Valid() && |s.mem| == MEM_SIZE && SameRegisters(s, v) && !s.halted
    requires op == '*' || op == 'p'
    requires v.mem[s.D] == s.mem[s.D]
    ensures ActsAlike(Classic(op), s, v, script)
  {
    hide DecodeFrame, Crazy, RotateRight, SupportedCall, ApplyWrites, WriteTargets, ModWord;
    OneWrite(v.mem, s.D, ActClassic(op, s).writes[0].1);
  }

  lemma QuietMatches(op: char, s: Src, v: State, script: Script)
    requires v.Valid() && |s.mem| == MEM_SIZE && SameRegisters(s, v) && !s.halted
    requires ClassicOp(op) && op != '*' && op != 'p'
    requires forall x :: x in Act(Classic(op), s, script).readSet ==> v.mem[x] == s.mem[x]
    ensures ActsAlike(Classic(op), s, v, script)
  {
    hide DecodeFrame, Crazy, RotateRight, SupportedCall, ApplyWrites, WriteTargets, ModWord, ActsAlike;
    if op == 'j' || op == 'i' {
      PointerMatches(op, s, v, script);
    } else {
      StreamMatches(op, s, v, script);
    }
  }

  lemma PointerMatches(op: char, s: Src, v: State, script: Script)
    requires v.Valid() && |s.mem| == MEM_SIZE && SameRegisters(s, v) && !s.halted
    requires (op == 'j' || op == 'i') && v.mem[s.D] == s.mem[s.D]
    ensures ActsAlike(Classic(op), s, v, script)
  {
    hide DecodeFrame, Crazy, RotateRight, SupportedCall, ApplyWrites, WriteTargets, ModWord;
    NoWrites(v.mem);
  }

  lemma StreamMatches(op: char, s: Src, v: State, script: Script)
    requires v.Valid() && |s.mem| == MEM_SIZE && SameRegisters(s, v) && !s.halted
    requires op == '/' || op == '<' || op == 'v' || op == 'o'
    ensures ActsAlike(Classic(op), s, v, script)
  {
    hide DecodeFrame, Crazy, RotateRight, SupportedCall, ApplyWrites, WriteTargets, ModWord;
    NoWrites(v.mem);
  }

  lemma TrapMatches(i: Instr, s: Src, v: State, script: Script)
    requires v.Valid() && |s.mem| == MEM_SIZE && SameRegisters(s, v) && !s.halted && i.Trap?
    requires forall k :: 0 <= k < |FrameOf(i)| ==> FrameWord(v.mem, v.C, k) == ModWord(FrameOf(i)[k])
    ensures ActsAlike(i, s, v, script)
  {
    hide DecodeFrame, Crazy, RotateRight, SupportedCall, ApplyWrites, WriteTargets, ModWord, ExecuteClassic;
    forall k | 0 <= k < 6
      ensures FrameWord(v.mem, v.C, k) == ModWord([i.sys, i.a0, i.a1, i.a2, i.a3, i.a4][k])
    {
      assert FrameOf(i)[k] == [i.sys, i.a0, i.a1, i.a2, i.a3, i.a4][k];
    }
    NoWrites(v.mem);
  }

  lemma ModWordSum(a: Word, b: int)
    ensures ModWord(a + ModWord(b)) == ModWord(a + b)
    ensures ModWord(a - ModWord(b)) == ModWord(a - b)
  {
    var q, r := b / WORD_MOD, ModWord(b);
    assert b == WORD_MOD * q + r;
    ModShift(a + r, q);
    ModShift(a - r, -q);
  }

  lemma ModShift(x: int, q: int)
    ensures ModWord(x + WORD_MOD * q) == ModWord(x)
  {
  }

  lemma FramedMatches(i: Instr, s: Src, v: State, script: Script)
    requires v.Valid() && |s.mem| == MEM_SIZE && SameRegisters(s, v) && !s.halted && !i.Trap? && !i.Classic?
    requires forall k :: 0 <= k < |FrameOf(i)| ==> FrameWord(v.mem, v.C, k) == ModWord(FrameOf(i)[k])
    requires forall x :: x in Act(i, s, script).readSet ==> v.mem[x] == s.mem[x]
    ensures ActsAlike(i, s, v, script)
  {
    hide DecodeFrame, SupportedCall, ApplyWrites, WriteTargets, ExecuteClassic, HostCall, TrapFrame, Answer, ModWord,
         ActsAlike;
    if i.StoreA? || i.StoreI? {
      StoreMatches(i, s, v, script);
    } else if i.Jump? || i.Branch? || i.JumpM? {
      JumpMatches(i, s, v, script);
    } else {
      LoadMatches(i, s, v, script);
    }
  }

  lemma StoreMatches(i: Instr, s: Src, v: State, script: Script)
    requires v.Valid() && |s.mem| == MEM_SIZE && SameRegisters(s, v) && !s.halted && (i.StoreA? || i.StoreI?)
    requires forall k :: 0 <= k < |FrameOf(i)| ==> FrameWord(v.mem, v.C, k) == ModWord(FrameOf(i)[k])
    requires forall x :: x in Act(i, s, script).readSet ==> v.mem[x] == s.mem[x]
    ensures ActsAlike(i, s, v, script)
  {
    hide DecodeFrame, SupportedCall, ApplyWrites, WriteTargets, ExecuteClassic, HostCall, TrapFrame, Answer, ModWord;
    assert FrameWord(v.mem, v.C, 0) == ModWord(FrameOf(i)[0]);
    OneWrite(v.mem, Act(i, s, script).writes[0].0, s.A);
  }

  lemma JumpMatches(i: Instr, s: Src, v: State, script: Script)
    requires v.Valid() && |s.mem| == MEM_SIZE && SameRegisters(s, v) && !s.halted && (i.Jump? || i.Branch? || i.JumpM?)
    requires forall k :: 0 <= k < |FrameOf(i)| ==> FrameWord(v.mem, v.C, k) == ModWord(FrameOf(i)[k])
    requires forall x :: x in Act(i, s, script).readSet ==> v.mem[x] == s.mem[x]
    ensures ActsAlike(i, s, v, script)
  {
    hide DecodeFrame, SupportedCall, ApplyWrites, WriteTargets, ExecuteClassic, HostCall, TrapFrame, Answer, ModWord;
    assert FrameWord(v.mem, v.C, 0) == ModWord(FrameOf(i)[0]);
    NoWrites(v.mem);
    if i.Branch? {
      assert FrameWord(v.mem, v.C, 1) == ModWord(FrameOf(i)[1]);
    }
  }

  lemma LoadMatches(i: Instr, s: Src, v: State, script: Script)
    requires v.Valid() && |s.mem| == MEM_SIZE && SameRegisters(s, v) && !s.halted && !i.Trap? && !i.Classic?
    requires !i.StoreA? && !i.StoreI? && !i.Jump? && !i.Branch? && !i.JumpM?
    requires forall k :: 0 <= k < |FrameOf(i)| ==> FrameWord(v.mem, v.C, k) == ModWord(FrameOf(i)[k])
    requires forall x :: x in Act(i, s, script).readSet ==> v.mem[x] == s.mem[x]
    ensures ActsAlike(i, s, v, script)
  {
    hide DecodeFrame, SupportedCall, ApplyWrites, WriteTargets, ExecuteClassic, HostCall, TrapFrame, Answer, ModWord,
         ActsAlike;
    assert FrameWord(v.mem, v.C, 0) == ModWord(FrameOf(i)[0]);
    if i.SetA? || i.AddI? || i.SubI? {
      ImmediateMatches(i, s, v, script);
    } else {
      MemoryMatches(i, s, v, script);
    }
  }

  lemma ImmediateMatches(i: Instr, s: Src, v: State, script: Script)
    requires v.Valid() && |s.mem| == MEM_SIZE && SameRegisters(s, v) && !s.halted && (i.SetA? || i.AddI? || i.SubI?)
    requires FrameWord(v.mem, v.C, 0) == ModWord(FrameOf(i)[0])
    ensures ActsAlike(i, s, v, script)
  {
    hide DecodeFrame, SupportedCall, ApplyWrites, WriteTargets, ExecuteClassic, HostCall, TrapFrame, Answer, ModWord;
    NoWrites(v.mem);
    ModWordSum(s.A, FrameOf(i)[0]);
  }

  lemma MemoryMatches(i: Instr, s: Src, v: State, script: Script)
    requires v.Valid() && |s.mem| == MEM_SIZE && SameRegisters(s, v) && !s.halted
    requires i.LoadA? || i.AddM? || i.SubM? || i.CmpM? || i.LoadI?
    requires FrameWord(v.mem, v.C, 0) == ModWord(FrameOf(i)[0])
    requires forall x :: x in Act(i, s, script).readSet ==> v.mem[x] == s.mem[x]
    ensures ActsAlike(i, s, v, script)
  {
    hide DecodeFrame, SupportedCall, ApplyWrites, WriteTargets, ExecuteClassic, HostCall, TrapFrame, Answer, ModWord;
    NoWrites(v.mem);
  }

  /** One machine step under the relation: its data writes, and its effect outside the executed cell. */
  lemma StepMatches(prog: Program, s: Src, v: State, script: Script)
    requires Sim(prog, s, v) && !s.halted && SrcStep(prog, s, script).Some?
    ensures var t := SrcStep(prog, s, script).value;
            var u := Step(v, script);
            SameRegisters(t, u) && !v.halted
            && u.seed == v.seed
            && DataWrites(v, script) == WriteTargets(Act(prog[s.C], s, script).writes)
            && (forall x: Word :: x !in t.ran ==> u.mem[x] == t.mem[x])
  {
    hide EffectiveOp, Lineage, DecodeFrame, ModWord, Act, Execute, OpWrites, OpChar, FrameOf, ApplyWrites, WriteTargets,
         Cipher;
    FetchMatches(prog, s, v);
    var i := prog[s.C];
    var e := Act(i, s, script);
    ExecuteMatches(i, s, v, script);
    var t := SrcStep(prog, s, script).value;
    var u := Step(v, script);
    ActKeeps(i, s, script);
    forall x: Word | x !in t.ran
      ensures u.mem[x] == t.mem[x]
    {
      ApplyWritesAgree(v.mem, s.mem, e.writes, x);
    }
  }

  lemma ActKeeps(i: Instr, s: Src, script: Script)
    requires |s.mem| == MEM_SIZE
    ensures Act(i, s, script).after.mem == s.mem
  {
    hide ModWord, Answer, Crazy, RotateRight;
  }

  /** The step leaves a clean instruction's cells alone, except for the executed opcode. */
  lemma CellsKept(prog: Program, s: Src, v: State, script: Script, pc: nat)
    requires Sim(prog, s, v) && !s.halted && SrcStep(prog, s, script).Some?
    requires pc in prog && CleanSpan(pc, Size(prog[pc]), SrcStep(prog, s, script).value.dirty)
    ensures forall x: Word :: pc <= x < pc + Size(prog[pc]) && x != s.C ==>
              Step(v, script).mem[x] == v.mem[x] && Step(v, script).expected[x] == v.expected[x]
    ensures Step(v, script).seed == v.seed && v.C == s.C && !v.halted && s.C !in DataWrites(v, script)
    ensures CleanSpan(pc, Size(prog[pc]), s.dirty)
  {
    hide EffectiveOp, DecodeFrame, ModWord, Act, OpChar, DecodeOp, Step, DataWrites, Cipher, InstalledAt, WellPlaced,
         Size;
    StepMatches(prog, s, v, script);
    forall x: Word | pc <= x < pc + Size(prog[pc]) && x != s.C
      ensures Step(v, script).mem[x] == v.mem[x] && Step(v, script).expected[x] == v.expected[x]
    {
      StepFrame(v, script, x);
    }
  }

  lemma FramesKept(v: State, u: State, pc: nat, i: Instr, ran: bool)
    requires v.Valid() && u.Valid() && pc + Size(i) <= MEM_SIZE && InstalledAt(v, pc, i, ran)
    requires forall x: Word :: pc < x < pc + Size(i) ==> u.mem[x] == v.mem[x]
    ensures forall k :: 0 <= k < |FrameOf(i)| ==>
            DecodeFrame(u.mem, pc + 1 + k * ENC_WORD_CELLS) == ModWord(FrameOf(i)[k])
  {
    hide DecodeFrame, ModWord, FrameOf, OpChar, DecodeOp;
    forall k | 0 <= k < |FrameOf(i)|
      ensures DecodeFrame(u.mem, pc + 1 + k * ENC_WORD_CELLS) == ModWord(FrameOf(i)[k])
    {
      DecodeFrameSame(v.mem, u.mem, pc + 1 + k * ENC_WORD_CELLS);
    }
  }

  /** An instruction untouched by the step stays installed; the executed one moves on one cipher generation. */
  lemma StillInstalled(prog: Program, s: Src, v: State, script: Script, pc: nat)
    requires Sim(prog, s, v) && !s.halted && SrcStep(prog, s, script).Some?
    requires pc in prog && CleanSpan(pc, Size(prog[pc]), SrcStep(prog, s, script).value.dirty)
    ensures InstalledAt(Step(v, script), pc, prog[pc], pc in SrcStep(prog, s, script).value.ran)
  {
    hide DecodeFrame, ModWord, Act, OpChar, DecodeOp, Step, DataWrites, Cipher, FrameOf, CleanSpan, EffectiveOp;
    CellsKept(prog, s, v, script, pc);
    FetchMatches(prog, s, v);
    assert InstalledAt(v, pc, prog[pc], pc in s.ran);
    FramesKept(v, Step(v, script), pc, prog[pc], pc in s.ran);
    if pc == s.C {
      ExecutedCell(v, script);
    } else {
      RanElsewhere(prog, s, script, pc);
    }
  }

  lemma RanElsewhere(prog: Program, s: Src, script: Script, pc: nat)
    requires |s.mem| == MEM_SIZE && !s.halted && SrcStep(prog, s, script).Some? && pc in prog
    requires pc != s.C && CleanSpan(pc, Size(prog[pc]), SrcStep(prog, s, script).value.dirty)
    ensures pc in SrcStep(prog, s, script).value.ran <==> pc in s.ran
  {
    hide Act;
    SizePositive(prog[pc]);
  }

  lemma SizePositive(i: Instr)
    ensures Size(i) >= 1
  {
  }

  lemma SimStep(prog: Program, s: Src, v: State, script: Script)
    requires Sim(prog, s, v) && !s.halted && SrcStep(prog, s, script).Some?
    ensures Sim(prog, SrcStep(prog, s, script).value, Step(v, script))
  {
    hide Step, SrcStep, InstalledAt, CleanSpan;
    StepMatches(prog, s, v, script);
    var t := SrcStep(prog, s, script).value;
    forall pc | pc in prog && CleanSpan(pc, Size(prog[pc]), t.dirty)
      ensures InstalledAt(Step(v, script), pc, prog[pc], pc in t.ran)
    {
      StillInstalled(prog, s, v, script, pc);
    }
  }

  /**
   The simulation theorem.  As long as the assembly machine has a successor,
   the virtual machine takes the same steps: after any number of them the
   registers, the streams, the host calls and every readable cell agree, and
   every instruction whose cells were not overwritten is still executable,
   however many times its opcode cell has been ciphered.
   */
  lemma {:induction false} SimRun(prog: Program, s: Src, v: State, script: Script, n: nat)
    requires Sim(prog, s, v) && SrcRun(prog, s, script, n).Some?
    ensures Sim(prog, SrcRun(prog, s, script, n).value, Run(v, script, n))
    decreases n
  {
    hide Step, SrcStep;
    if n > 0 && !s.halted {
      SimStep(prog, s, v, script);
      SimRun(prog, SrcStep(prog, s, script).value, Step(v, script), script, n - 1);
    }
  }
}
