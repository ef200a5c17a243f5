/**
 The runtime object: memory and lineage tables are arrays updated in place,
 the registers are fields.  `Abs` is its abstract state, and every method is
 proved against the transition functions of Machine and Loader.
 */
module Runtime {
  import opened Words
  import opened Glyphs
  import opened Frames
  import opened Machine
  import opened Loader
  import opened Arguments

  class VM {
    const mem: array<Word>
    const seedOp: array<char>
    const expected: array<Word>
    var A: Word
    var C: Word
    var D: Word
    var halted: bool
    var exitCode: nat
    var lastError: bool
    var input: seq<Byte>
    var output: seq<Byte>
    var calls: seq<TrapCall>

    ghost predicate Valid()
      reads this
    {
      mem.Length == MEM_SIZE && seedOp.Length == MEM_SIZE && expected.Length == MEM_SIZE && mem != expected
    }

    ghost function Abs(): (s: State)
      requires Valid()
      reads this, mem, seedOp, expected
      ensures s.Valid()
    {
      State(mem[..], A, C, D, halted, exitCode, lastError, seedOp[..], expected[..], input, output, calls)
    }

    constructor (stdin: seq<Byte>)
      ensures Valid() && fresh(mem) && fresh(seedOp) && fresh(expected)
      ensures Abs() == State(seq(MEM_SIZE, _ => 0), 0, 0, 0, false, 0, false,
                             seq(MEM_SIZE, _ => '\0'), seq(MEM_SIZE, _ => 0), stdin, [], [])
    {
      mem := new Word[MEM_SIZE](_ => 0);
      seedOp := new char[MEM_SIZE](_ => '\0');
      expected := new Word[MEM_SIZE](_ => 0);
      A, C, D := 0, 0, 0;
      halted, exitCode, lastError := false, 0, false;
      input, output, calls := stdin, [], [];
      new;
      assert mem[..] == seq(MEM_SIZE, _ => 0);
      assert seedOp[..] == seq(MEM_SIZE, _ => '\0');
      assert expected[..] == seq(MEM_SIZE, _ => 0);
    }

    // ----- loading -----

    /** Returns the number of cells loaded, or -1; on success memory starts with exactly the parsed cells. */
    method LoadGlyphImage(text: string) returns (n: int)
      requires Valid()
      modifies mem
      ensures Valid()
      ensures n == -1 <==> LoadCells(text) == None
      ensures n != -1 ==>
                0 < n <= MEM_SIZE && mem[..n] == LoadCells(text).value
                && TailFilled(mem[..], n)
                && (n == 1 ==> mem[1..] == old(mem[1..]))
    {
      hide DecodeOp, ValidOp, Crazy;
      if RAW_HEADER <= text {
        return -1;
      }
      n := 0;
      var p := 0;
      while p < |text| && text[p] != '\0'
        invariant 0 <= p <= |text| && 0 <= n <= MEM_SIZE
        invariant Parse(text[p..], mem[..n]) == Parse(text, [])
        invariant mem[n..] == old(mem[n..])
      {
        assert text[p..][0] == text[p] && text[p..][1..] == text[p + 1..];
        if !IsSpace(text[p]) {
          if text[p] < '!' || '~' < text[p] {
            return -1;
          }
          if n >= MEM_SIZE {
            return -1;
          }
          if !ValidOp(DecodeOp(text[p] as int, n)) {
            return -1;
          }
          ghost var before := mem[..n];
          mem[n] := text[p] as int;
          n := n + 1;
          assert mem[..n] == before + [text[p] as int];
        }
        p := p + 1;
      }
      assert Parse(text[p..], mem[..n]) == Some(mem[..n]);
      if n == 0 {
        return -1;
      }
      ghost var cells := mem[..n];
      FillTail(n);
      assert mem[..n] == cells;
    }

    method FillTail(loaded: nat)
      requires Valid() && loaded <= MEM_SIZE
      modifies mem
      ensures mem[..loaded] == old(mem[..loaded])
      ensures TailFilled(mem[..], loaded)
      ensures loaded < 2 ==> mem[..] == old(mem[..])
    {
      hide Crazy;
      if loaded < 2 {
        return;
      }
      for i := loaded to MEM_SIZE
        invariant mem[..loaded] == old(mem[..loaded])
        invariant forall k :: loaded <= k < i ==> mem[k] == Crazy(mem[k - 1], mem[k - 2])
      {
        mem[i] := CrazyLoop(mem[i - 1], mem[i - 2]);
      }
    }

    /** Clears both tables, then marks the extension opcodes found by walking the loaded cells. */
    method PrepareLineage(loaded: nat)
      requires Valid() && loaded <= MEM_SIZE
      modifies seedOp, expected
      ensures Marked(seedOp[..], expected[..], mem[..loaded])
      ensures mem[..] == old(mem[..])
    {
      hide DecodeOp, ExtensionOp, FrameWords;
      forall i | 0 <= i < MEM_SIZE {
        seedOp[i] := '\0';
      }
      forall i | 0 <= i < MEM_SIZE {
        expected[i] := 0;
      }
      ghost var cells := mem[..loaded];
      ghost var done: set<nat> := {};
      var pc := 0;
      while pc < loaded
        invariant mem[..] == old(mem[..])
        invariant Walk(cells, 0) == done + Walk(cells, pc)
        invariant forall x :: x in done ==> x < pc && x < loaded
        invariant forall x :: 0 <= x < MEM_SIZE ==>
                    if x in done then seedOp[x] == DecodeOp(mem[x], x) && expected[x] == mem[x]
                    else seedOp[x] == '\0' && expected[x] == 0
        decreases loaded - pc
      {
        var cell := mem[pc];
        assert cells[pc] == cell;
        if !Graphic(cell) {
          NotGraphicNotMarked(cell, pc);
          pc := pc + 1;
        } else {
          var op := DecodeOp(cell, pc);
          if ExtensionOp(op) {
            seedOp[pc] := op;
            expected[pc] := cell;
            done := done + {pc};
            pc := pc + 1 + FrameWords(op) * ENC_WORD_CELLS;
          } else {
            pc := pc + 1;
          }
        }
      }
      assert Walk(cells, 0) == done;
    }

    /** Count, vector and strings of the arguments, written behind the image. */
    method InstallArguments(argv: Arguments)
      requires Valid()
      modifies mem
      ensures mem[..] == Installed(old(mem[..]), argv)
    {
      hide PutStrings, PutString;
      var args := Clipped(argv);
      ClearVector(|args|);
      ghost var want := Installed(old(mem[..]), argv);
      var cursor, i := ABI_STRINGS, 0;
      PutTurn(mem[..], args, i, cursor);
      while i < |args| && cursor + |args[i]| + 1 < MEM_SIZE
        invariant i <= |args| && cursor >= ABI_STRINGS
        invariant PutStrings(mem[..], args, i, cursor) == want
      {
        PutTurn(mem[..], args, i, cursor);
        mem[ABI_ARGVEC + i] := cursor;
        CopyString(cursor, args[i]);
        cursor := cursor + |args[i]| + 1;
        i := i + 1;
      }
      PutTurn(mem[..], args, i, cursor);
    }

    method ClearVector(count: nat)
      requires Valid() && count <= ABI_MAX_ARGS
      modifies mem
      ensures mem[..] == PutVector(old(mem[..]), count)
    {
      mem[ABI_ARGC] := count;
      mem[ABI_ARGV] := ABI_ARGVEC;
      for i := 0 to ABI_MAX_ARGS + 1
        invariant forall x :: 0 <= x < MEM_SIZE ==>
                    mem[x] == if x == ABI_ARGC then count else if x == ABI_ARGV then ABI_ARGVEC
                              else if ABI_ARGVEC <= x < ABI_ARGVEC + i then 0 else old(mem[x])
      {
        mem[ABI_ARGVEC + i] := 0;
      }
    }

    method CopyString(at: nat, s: CText)
      requires Valid() && at + |s| < MEM_SIZE
      modifies mem
      ensures mem[..] == PutString(old(mem[..]), at, s)
    {
      for j := 0 to |s|
        invariant forall x :: 0 <= x < MEM_SIZE ==> mem[x] == if at <= x < at + j then s[x - at] else old(mem[x])
      {
        mem[at + j] := s[j];
      }
      mem[at + |s|] := 0;
    }

    // ----- executing -----

    method DecodeFrameWord(pos: nat) returns (w: Word)
      requires Valid()
      ensures w == DecodeFrame(mem[..], pos)
    {
      var value, place := 0, 1;
      ghost var m := mem[..];
      ghost var cells := seq(ENC_WORD_CELLS, i requires 0 <= i < ENC_WORD_CELLS => m[(pos + i) % MEM_SIZE]);
      for i := 0 to ENC_WORD_CELLS
        invariant AllGraphic(cells[..i])
        invariant place == Pow94(i)
        invariant value + place * Base94(cells[i..]) == Base94(cells)
      {
        var cell := mem[(pos + i) % MEM_SIZE];
        assert cells[i] == cell;
        if !Graphic(cell) {
          return 0;
        }
        assert cells[i..][1..] == cells[i + 1..];
        DigitStep(place, cell - 33, Base94(cells[i + 1..]));
        value := value + (cell - 33) * place;
        place := place * 94;
      }
      assert cells[..ENC_WORD_CELLS] == cells;
      w := ModWord(value);
    }

    method FrameWordAt(oldC: Word, index: nat) returns (w: Word)
      requires Valid()
      ensures w == FrameWord(mem[..], oldC, index)
    {
      w := DecodeFrameWord(oldC + 1 + index * ENC_WORD_CELLS);
    }

    method Apply(writes: seq<(Word, Word)>)
      requires Valid()
      modifies mem
      ensures mem[..] == ApplyWrites(old(mem[..]), writes)
    {
      for i := 0 to |writes|
        invariant ApplyWrites(mem[..], writes[i..]) == ApplyWrites(old(mem[..]), writes)
      {
        ghost var before := mem[..];
        mem[writes[i].0] := writes[i].1;
        assert mem[..] == before[writes[i].0 := writes[i].1];
        assert writes[i..][1..] == writes[i + 1..];
      }
    }

    method Trap(script: Script)
      requires Valid()
      modifies this, mem
      ensures Valid()
      ensures Abs() == HostCall(old(Abs()), TrapFrame(old(Abs()), old(C)), script)
    {
      hide DecodeFrame, ModWord, SupportedCall;
      var sysno := FrameWordAt(C, 0);
      var raw0 := FrameWordAt(C, 1);
      var raw1 := FrameWordAt(C, 2);
      var raw2 := FrameWordAt(C, 3);
      var raw3 := FrameWordAt(C, 4);
      var raw4 := FrameWordAt(C, 5);
      var call := TrapCall(sysno, [Operand(raw0, A), Operand(raw1, A), Operand(raw2, A), Operand(raw3, A),
                                   Operand(raw4, A)]);
      if sysno == EXIT_CALL {
        halted, exitCode := true, call.args[0] % 256;
        A, lastError := call.args[0], false;
      } else {
        var answer := Answer(script, |calls|, sysno);
        Apply(answer.writes);
        lastError, A := answer.ret < 0, ModWord(answer.ret);
      }
      calls := calls + [call];
    }

    method Store(target: Word, value: Word)
      requires Valid()
      modifies mem
      ensures mem[..] == old(mem[..])[target := value]
    {
      mem[target] := value;
    }

    method ExecuteClassicOp(op: char)
      requires Valid()
      modifies this, mem
      ensures Valid()
      ensures Abs() == ExecuteClassic(old(Abs()), op)
    {
      hide Crazy, RotateRight;
      match op
      case 'j' =>
        D := mem[D];
        C := Wrap(C + 1);
      case 'i' =>
        C := mem[D];
        C := Wrap(C as nat + 1);
      case '*' =>
        Store(D, RotateRight(mem[D]));
        A, C := mem[D], Wrap(C + 1);
      case 'p' =>
        var v := CrazyLoop(A, mem[D]);
        Store(D, v);
        A, C := mem[D], Wrap(C + 1);
      case '/' =>
        if input == [] {
          A := EOF_WORD;
        } else {
          A, input := input[0], input[1..];
        }
        C := Wrap(C + 1);
      case '<' =>
        if A != EOF_WORD {
          output := output + [A % 256];
        }
        C := Wrap(C + 1);
      case 'v' =>
        halted := true;
      case _ =>
        C := Wrap(C + 1);
    }

    method ExecuteExtensionOp(op: char, script: Script)
      requires Valid()
      modifies this, mem
      ensures Valid()
      ensures Abs() == ExecuteExtension(old(Abs()), op, script)
    {
      hide DecodeFrame, ModWord, HostCall;
      var oldC := C;
      if op == '@' {
        Trap(script);
        if !halted {
          C := AfterFrame(oldC, 6);
        }
        return;
      }
      var w := FrameWordAt(oldC, 0);
      match op
      case '!' =>
        C := w;
      case '?' =>
        var mode := FrameWordAt(oldC, 1);
        C := if Taken(mode, A, lastError) then w else AfterFrame(oldC, 2);
      case '=' =>
        Store(w, A);
        C := AfterFrame(oldC, 1);
      case '~' =>
        A, C := mem[w], AfterFrame(oldC, 1);
      case '#' =>
        A, C := w, AfterFrame(oldC, 1);
      case '+' =>
        A, C := ModWord(A + w), AfterFrame(oldC, 1);
      case '-' =>
        A, C := ModWord(A - w), AfterFrame(oldC, 1);
      case '[' =>
        A, C := ModWord(A + mem[w]), AfterFrame(oldC, 1);
      case ']' =>
        A, C := ModWord(A - mem[w]), AfterFrame(oldC, 1);
      case ':' =>
        A, C := if A == mem[w] then 0 else 1, AfterFrame(oldC, 1);
      case '^' =>
        var ptr := mem[w];
        A, C := mem[ptr], AfterFrame(oldC, 1);
      case '$' =>
        var ptr := mem[w];
        Store(ptr, A);
        C := AfterFrame(oldC, 1);
      case '`' =>
        C := mem[w];
      case _ =>
    }

    method SelfCipherExecutedCell(address: Word, cell: Word, lineage: bool)
      requires Valid() && Graphic(cell)
      modifies mem, expected
      ensures Abs() == SelfCipher(old(Abs()), address, cell, lineage)
    {
      hide Cipher;
      Store(address, Cipher(cell));
      if lineage {
        expected[address] := Cipher(cell);
      }
    }

    method StepOnce(script: Script)
      requires Valid() && !halted
      modifies this, mem, expected
      ensures Valid()
      ensures Abs() == Step(old(Abs()), script)
    {
      hide DecodeOp, ExtensionOp, ExecuteClassic, ExecuteExtension, SelfCipher;
      var oldC := C;
      var cell := mem[oldC];
      if !Graphic(cell) {
        halted, exitCode := true, 127;
        return;
      }
      var lineage := seedOp[oldC] != '\0' && expected[oldC] == cell;
      var op := if lineage then seedOp[oldC] else DecodeOp(cell, oldC);
      if ExtensionOp(op) {
        ExecuteExtensionOp(op, script);
      } else {
        ExecuteClassicOp(op);
      }
      SelfCipherExecutedCell(oldC, cell, lineage);
      if !halted {
        D := Wrap(D + 1);
      }
    }

    /** Runs until the machine halts or the step budget is spent; 124 reports a spent budget. */
    method RunSteps(script: Script, maxSteps: nat) returns (code: nat)
      requires Valid()
      modifies this, mem, expected
      ensures Valid()
      ensures Abs() == Run(old(Abs()), script, maxSteps)
      ensures code == if halted then exitCode else 124
    {
      hide Step;
      var i := 0;
      while !halted && i < maxSteps
        invariant Valid() && i <= maxSteps
        invariant Run(Abs(), script, maxSteps - i) == Run(old(Abs()), script, maxSteps)
        decreases maxSteps - i
      {
        StepOnce(script);
        i := i + 1;
      }
      code := if halted then exitCode else 124;
    }
  }

  lemma DigitStep(place: nat, digit: int, rest: int)
    ensures place * (digit + 94 * rest) == digit * place + (place * 94) * rest
  {
  }

  lemma NotGraphicNotMarked(cell: Word, pc: nat)
    requires !Graphic(cell)
    ensures !ExtensionOp(DecodeOp(cell, pc))
  {
  }
}
