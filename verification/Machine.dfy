/**
 The virtual machine as a transition function on states: fetch through the
 lineage table, execute, self-cipher the executed cell, advance.  Host calls
 are answered by a script: call number k gets response `script(k)`, a return
 value and a list of memory writes.
 */
module Machine {
  import opened Words
  import opened Glyphs
  import opened Frames

  /** Trap operand that stands for the accumulator. */
  const ARG_A: Word := 59047
  const EOF_WORD: Word := 59048
  const ENOSYS: int := 38

  type Byte = b: nat | b < 256

  datatype Response = Response(ret: int, writes: seq<(Word, Word)>)
  type Script = nat -> Response
  datatype TrapCall = TrapCall(sys: Word, args: seq<Word>)

  datatype State = State(
    mem: seq<Word>, A: Word, C: Word, D: Word,
    halted: bool, exitCode: nat, lastError: bool,
    seed: seq<char>, expected: seq<Word>,
    input: seq<Byte>, output: seq<Byte>, calls: seq<TrapCall>)
  {
    predicate Valid() {
      |mem| == MEM_SIZE && |seed| == MEM_SIZE && |expected| == MEM_SIZE
    }
  }

  function Wrap(x: nat): Word {
    x % MEM_SIZE
  }

  // ----- fetch -----

  predicate Lineage(s: State, x: Word)
    requires s.Valid()
  {
    s.seed[x] != '\0' && s.expected[x] == s.mem[x]
  }

  function EffectiveOp(s: State, x: Word): char
    requires s.Valid()
  {
    if Lineage(s, x) then s.seed[x] else DecodeOp(s.mem[x], x)
  }

  function FrameWord(mem: seq<Word>, pc: Word, index: nat): Word
    requires |mem| == MEM_SIZE
  {
    DecodeFrame(mem, pc + 1 + index * ENC_WORD_CELLS)
  }

  // ----- host calls -----

  predicate SupportedCall(sys: Word) {
    sys == 0 || sys == 1 || sys == 2 || sys == 3 || sys == 33 || sys == 34 || sys == 35 || sys == 39
    || sys == 57 || sys == 59 || sys == 61 || sys == 79 || sys == 80 || sys == 83 || sys == 112
    || sys == 165 || sys == 217
  }

  const EXIT_CALL: Word := 60

  /** What the host answers to a call other than exit. */
  function Answer(script: Script, index: nat, sys: Word): Response {
    if SupportedCall(sys) then script(index) else Response(-ENOSYS, [])
  }

  function ApplyWrites(mem: seq<Word>, writes: seq<(Word, Word)>): (r: seq<Word>)
    requires |mem| == MEM_SIZE
    ensures |r| == MEM_SIZE
    decreases |writes|
  {
    if writes == [] then mem
    else ApplyWrites(mem[writes[0].0 := writes[0].1], writes[1..])
  }

  function WriteTargets(writes: seq<(Word, Word)>): set<Word> {
    set k | 0 <= k < |writes| :: writes[k].0
  }

  function Operand(raw: Word, acc: Word): Word {
    if raw == ARG_A then acc else raw
  }

  function TrapFrame(s: State, pc: Word): TrapCall
    requires s.Valid()
  {
    TrapCall(FrameWord(s.mem, pc, 0),
             [Operand(FrameWord(s.mem, pc, 1), s.A), Operand(FrameWord(s.mem, pc, 2), s.A),
              Operand(FrameWord(s.mem, pc, 3), s.A), Operand(FrameWord(s.mem, pc, 4), s.A),
              Operand(FrameWord(s.mem, pc, 5), s.A)])
  }

  function HostCall(s: State, call: TrapCall, script: Script): (r: State)
    requires s.Valid() && |call.args| == 5
    ensures r.Valid()
  {
    if call.sys == EXIT_CALL then
      s.(A := call.args[0], lastError := false, halted := true, exitCode := call.args[0] % 256,
         calls := s.calls + [call])
    else
      var answer := Answer(script, |s.calls|, call.sys);
      s.(A := ModWord(answer.ret), lastError := answer.ret < 0,
         mem := ApplyWrites(s.mem, answer.writes), calls := s.calls + [call])
  }

  // ----- execute -----

  predicate Taken(mode: Word, acc: Word, err: bool) {
    mode == 0 || (mode == 1 && acc == 0) || (mode == 2 && acc != 0) || (mode == 3 && err) || (mode == 4 && !err)
  }

  function AfterFrame(pc: Word, words: nat): Word {
    Wrap(pc + 1 + words * ENC_WORD_CELLS)
  }

  /** The effect of one operation, with C already at its successor and D not yet ticked. */
  function Execute(s: State, op: char, script: Script): (r: State)
    requires s.Valid()
    ensures r.Valid()
  {
    if ExtensionOp(op) then ExecuteExtension(s, op, script) else ExecuteClassic(s, op)
  }

  function ExecuteClassic(s: State, op: char): (r: State)
    requires s.Valid()
    ensures r.Valid()
  {
    var next := s.(C := Wrap(s.C + 1));
    match op
    case 'j' => next.(D := s.mem[s.D])
    case 'i' => s.(C := Wrap(s.mem[s.D] as nat + 1))
    case '*' =>
      var v := RotateRight(s.mem[s.D]);
      next.(mem := s.mem[s.D := v], A := v)
    case 'p' =>
      var v := Crazy(s.A, s.mem[s.D]);
      next.(mem := s.mem[s.D := v], A := v)
    case '/' =>
      if s.input == [] then next.(A := EOF_WORD) else next.(A := s.input[0], input := s.input[1..])
    case '<' => if s.A == EOF_WORD then next else next.(output := s.output + [s.A % 256])
    case 'v' => s.(halted := true)
    case _ => next
  }

  function ExecuteExtension(s: State, op: char, script: Script): (r: State)
    requires s.Valid()
    ensures r.Valid()
  {
    var w := FrameWord(s.mem, s.C, 0);
    var next := s.(C := AfterFrame(s.C, 1));
    match op
    case '@' =>
      var r := HostCall(s, TrapFrame(s, s.C), script);
      if r.halted then r else r.(C := AfterFrame(s.C, 6))
    case '!' => s.(C := w)
    case '?' =>
      if Taken(FrameWord(s.mem, s.C, 1), s.A, s.lastError) then s.(C := w) else s.(C := AfterFrame(s.C, 2))
    case '=' => next.(mem := s.mem[w := s.A])
    case '~' => next.(A := s.mem[w])
    case '#' => next.(A := w)
    case '+' => next.(A := ModWord(s.A + w))
    case '-' => next.(A := ModWord(s.A - w))
    case '[' => next.(A := ModWord(s.A + s.mem[w]))
    case ']' => next.(A := ModWord(s.A - s.mem[w]))
    case ':' => next.(A := if s.A == s.mem[w] then 0 else 1)
    case '^' => next.(A := s.mem[s.mem[w]])
    case '$' => next.(mem := s.mem[s.mem[w] := s.A])
    case '`' => s.(C := s.mem[w])
    case _ => s
  }

  // ----- self-cipher and advance -----

  function SelfCipher(s: State, pc: Word, cell: Word, lineage: bool): (r: State)
    requires s.Valid() && Graphic(cell)
    ensures r.Valid()
  {
    var c := Cipher(cell);
    if lineage then s.(mem := s.mem[pc := c], expected := s.expected[pc := c])
    else s.(mem := s.mem[pc := c])
  }

  function Step(s: State, script: Script): (r: State)
    requires s.Valid() && !s.halted
    ensures r.Valid()
  {
    var cell := s.mem[s.C];
    if !Graphic(cell) then s.(halted := true, exitCode := 127)
    else
      var done := SelfCipher(Execute(s, EffectiveOp(s, s.C), script), s.C, cell, Lineage(s, s.C));
      if done.halted then done else done.(D := Wrap(done.D + 1))
  }

  /** At most n steps; a halted machine stays put. */
  function Run(s: State, script: Script, n: nat): (r: State)
    requires s.Valid()
    ensures r.Valid()
    decreases n
  {
    if n == 0 || s.halted then s else Run(Step(s, script), script, n - 1)
  }

  lemma {:induction false} RunSplit(s: State, script: Script, m: nat, n: nat)
    requires s.Valid()
    ensures Run(s, script, m + n) == Run(Run(s, script, m), script, n)
    decreases m
  {
    hide Step;
    if m > 0 && !s.halted {
      RunSplit(Step(s, script), script, m - 1, n);
    }
  }

  // ----- which cells a step writes as data -----

  function OpWrites(s: State, op: char, script: Script): set<Word>
    requires s.Valid()
  {
    match op
    case '*' => {s.D}
    case 'p' => {s.D}
    case '=' => {FrameWord(s.mem, s.C, 0)}
    case '$' => {s.mem[FrameWord(s.mem, s.C, 0)]}
    case '@' =>
      var call := TrapFrame(s, s.C);
      if call.sys == EXIT_CALL then {} else WriteTargets(Answer(script, |s.calls|, call.sys).writes)
    case _ => {}
  }

  function DataWrites(s: State, script: Script): set<Word>
    requires s.Valid() && !s.halted
  {
    if Graphic(s.mem[s.C]) then OpWrites(s, EffectiveOp(s, s.C), script) else {}
  }

  lemma {:induction false} ApplyWritesFrame(mem: seq<Word>, writes: seq<(Word, Word)>, x: Word)
    requires |mem| == MEM_SIZE && x !in WriteTargets(writes)
    ensures ApplyWrites(mem, writes)[x] == mem[x]
    decreases |writes|
  {
    if writes != [] {
      assert writes[0].0 in WriteTargets(writes);
      forall t | t in WriteTargets(writes[1..])
        ensures t in WriteTargets(writes)
      {
        var k :| 0 <= k < |writes| - 1 && writes[1..][k].0 == t;
        assert writes[k + 1].0 == t;
      }
      ApplyWritesFrame(mem[writes[0].0 := writes[0].1], writes[1..], x);
    }
  }

  lemma ExecuteFrame(s: State, op: char, script: Script, x: Word)
    requires s.Valid()
    ensures var r := Execute(s, op, script);
            r.seed == s.seed && r.expected == s.expected
            && (x !in OpWrites(s, op, script) ==> r.mem[x] == s.mem[x])
  {
    hide DecodeFrame, Crazy, RotateRight, SupportedCall, ApplyWrites, WriteTargets, ModWord;
    if op == '@' {
      var call := TrapFrame(s, s.C);
      var writes := Answer(script, |s.calls|, call.sys).writes;
      if call.sys != EXIT_CALL && x !in WriteTargets(writes) {
        ApplyWritesFrame(s.mem, writes, x);
      }
    }
  }

  /** A step changes no cell other than its data writes and the executed cell, and no seed ever. */
  lemma StepFrame(s: State, script: Script, x: Word)
    requires s.Valid() && !s.halted
    ensures Step(s, script).seed == s.seed
    ensures x !in DataWrites(s, script) && x != s.C ==>
              Step(s, script).mem[x] == s.mem[x] && Step(s, script).expected[x] == s.expected[x]
  {
    hide Execute, EffectiveOp, OpWrites, Cipher;
    if Graphic(s.mem[s.C]) {
      ExecuteFrame(s, EffectiveOp(s, s.C), script, x);
    }
  }

  // ----- lineage over whole runs -----

  /** Marked cells outside `touched` carry exactly the generation the table expects, and it is printable. */
  ghost predicate LineageOk(s: State, touched: set<Word>)
    requires s.Valid()
  {
    forall x: Word :: s.seed[x] != '\0' && x !in touched ==> Graphic(s.mem[x]) && s.expected[x] == s.mem[x]
  }

  ghost function Touched(s: State, script: Script, n: nat): set<Word>
    requires s.Valid()
    decreases n
  {
    if n == 0 || s.halted then {}
    else DataWrites(s, script) + Touched(Step(s, script), script, n - 1)
  }

  lemma LineageStep(s: State, script: Script, touched: set<Word>)
    requires s.Valid() && !s.halted && LineageOk(s, touched)
    ensures LineageOk(Step(s, script), touched + DataWrites(s, script))
  {
    var t := Step(s, script);
    forall x: Word | t.seed[x] != '\0' && x !in touched + DataWrites(s, script)
      ensures Graphic(t.mem[x]) && t.expected[x] == t.mem[x]
    {
      StepFrame(s, script, x);
      if x == s.C {
        ExecutedCell(s, script);
      }
    }
  }

  /** The executed cell ends up holding its own cipher, and the table follows it when its lineage matched. */
  lemma ExecutedCell(s: State, script: Script)
    requires s.Valid() && !s.halted && Graphic(s.mem[s.C])
    ensures Step(s, script).mem[s.C] == Cipher(s.mem[s.C])
    ensures Lineage(s, s.C) ==> Step(s, script).expected[s.C] == Cipher(s.mem[s.C])
  {
    hide Execute, EffectiveOp, OpWrites, Cipher;
    ExecuteFrame(s, EffectiveOp(s, s.C), script, s.C);
  }

  /**
   Lineage over whole runs: after any number of steps, a cell marked at load
   time that no data write has hit is printable, holds what the table expects,
   and still dispatches as its original operation, however often it was executed.
   */
  lemma {:induction false} LineageForever(s: State, script: Script, n: nat, touched: set<Word>)
    requires s.Valid() && LineageOk(s, touched)
    ensures var t := Run(s, script, n);
            t.seed == s.seed
            && LineageOk(t, touched + Touched(s, script, n))
            && forall x: Word :: s.seed[x] != '\0' && x !in touched + Touched(s, script, n) ==>
                 Graphic(t.mem[x]) && EffectiveOp(t, x) == s.seed[x]
    decreases n
  {
    hide Step, DataWrites, DecodeOp;
    if n > 0 && !s.halted {
      var u := Step(s, script);
      StepFrame(s, script, 0);
      LineageStep(s, script, touched);
      LineageForever(u, script, n - 1, touched + DataWrites(s, script));
      assert touched + DataWrites(s, script) + Touched(u, script, n - 1) == touched + Touched(s, script, n);
    }
  }

  /** How often a run executes the cell. */
  function Executions(s: State, script: Script, n: nat, x: Word): nat
    requires s.Valid()
    decreases n
  {
    if n == 0 || s.halted then 0
    else (if s.C == x then 1 else 0) + Executions(Step(s, script), script, n - 1, x)
  }

  /** What a run does to a printable cell no data write hits: one cipher generation per execution, nothing else. */
  lemma {:induction false} CellGenerations(s: State, script: Script, n: nat, x: Word)
    requires s.Valid() && Graphic(s.mem[x]) && x !in Touched(s, script, n)
    ensures Run(s, script, n).mem[x] == Generation(s.mem[x], Executions(s, script, n, x))
    decreases n
  {
    hide Step, DataWrites, Cipher;
    if n > 0 && !s.halted {
      StepFrame(s, script, x);
      if s.C == x {
        ExecutedCell(s, script);
        GenerationShift(s.mem[x], Executions(Step(s, script), script, n - 1, x));
      }
      CellGenerations(Step(s, script), script, n - 1, x);
    }
  }

  // ----- strings for the host -----

  /** A NUL-terminated string in memory. */
  predicate HoldsString(mem: seq<Word>, at: nat, s: seq<Byte>) {
    at + |s| < |mem| && mem[at + |s|] == 0
    && forall i :: 0 <= i < |s| ==> mem[at + i] == s[i] && s[i] != 0
  }

  lemma StringAt(mem: seq<Word>, at: nat, s: seq<Byte>, i: nat)
    requires HoldsString(mem, at, s) && i <= |s|
    ensures at + i < |mem|
    ensures mem[at + i] == (if i < |s| then s[i] else 0)
    ensures mem[at + i] == 0 <==> i == |s|
  {
  }

  lemma StringKept(before: seq<Word>, mem: seq<Word>, at: nat, s: seq<Byte>)
    requires HoldsString(before, at, s) && |before| == |mem|
    requires forall x :: at <= x <= at + |s| ==> mem[x] == before[x]
    ensures HoldsString(mem, at, s)
  {
    forall i | 0 <= i < |s|
      ensures mem[at + i] == s[i] && s[i] != 0
    {
      assert before[at + i] == s[i];
    }
  }
}
