/**
 The machine's instruction set, operation by operation: what one step does to
 the registers, to control and to memory, with the operands read from the
 frame behind the opcode.
 */
module InstructionSet {
  import opened Words
  import opened Glyphs
  import opened Frames
  import opened Machine

  /** The machine is about to execute the operation. */
  predicate AtOp(s: State, op: char) {
    s.Valid() && !s.halted && Graphic(s.mem[s.C]) && EffectiveOp(s, s.C) == op
  }

  /** Frame word k behind the opcode. */
  function FirstWord(s: State): Word
    requires s.Valid()
  {
    DecodeFrame(s.mem, s.C + 1)
  }

  function SecondWord(s: State): Word
    requires s.Valid()
  {
    DecodeFrame(s.mem, s.C + 6)
  }

  /** D ticks, and nothing but the named registers, the named cell and the executed cell changes. */
  predicate Steps(s: State, u: State, a: Word, c: int) {
    u.Valid() && !u.halted && u.A == a && u.C == c && u.D == (s.D + 1) % 59049
    && u.exitCode == s.exitCode && u.calls == s.calls
  }

  /** Memory outside the executed cell is the old one, but for one cell. */
  ghost predicate Writes(s: State, u: State, x: Word, w: Word)
    requires s.Valid() && u.Valid()
  {
    (x != s.C ==> u.mem[x] == w) && forall y: Word :: y != x && y != s.C ==> u.mem[y] == s.mem[y]
  }

  ghost predicate Keeps(s: State, u: State)
    requires s.Valid() && u.Valid()
  {
    forall y: Word :: y != s.C ==> u.mem[y] == s.mem[y]
  }

  // ----- control -----

  /**
   The conditional jump.  Mode 0 always jumps, mode 1 when A is zero, mode 2
   when it is not, mode 3 after a failed host call, mode 4 after a successful
   one; any other mode falls through behind its two frame words.
   */
  lemma BranchStep(s: State, script: Script)
    requires AtOp(s, '?')
    ensures var t, m, u := FirstWord(s), SecondWord(s), Step(s, script);
            (m == 0 ==> u.C == t)
            && (m == 1 ==> u.C == if s.A == 0 then t else (s.C + 11) % 59049)
            && (m == 2 ==> u.C == if s.A != 0 then t else (s.C + 11) % 59049)
            && (m == 3 ==> u.C == if s.lastError then t else (s.C + 11) % 59049)
            && (m == 4 ==> u.C == if s.lastError then (s.C + 11) % 59049 else t)
            && (m > 4 ==> u.C == (s.C + 11) % 59049)
    ensures Steps(s, Step(s, script), s.A, Step(s, script).C) && Keeps(s, Step(s, script))
            && Step(s, script).lastError == s.lastError
  {
    hide DecodeFrame, Cipher, EffectiveOp;
  }

  lemma JumpStep(s: State, script: Script)
    requires AtOp(s, '!') || AtOp(s, '`')
    ensures AtOp(s, '!') ==> Steps(s, Step(s, script), s.A, FirstWord(s))
    ensures AtOp(s, '`') ==> Steps(s, Step(s, script), s.A, s.mem[FirstWord(s)])
    ensures Keeps(s, Step(s, script))
  {
    hide DecodeFrame, Cipher, EffectiveOp;
  }

  // ----- accumulator and memory -----

  lemma ImmediateStep(s: State, script: Script)
    requires AtOp(s, '#') || AtOp(s, '+') || AtOp(s, '-')
    ensures AtOp(s, '#') ==> Steps(s, Step(s, script), FirstWord(s), (s.C + 6) % 59049)
    ensures AtOp(s, '+') ==> Steps(s, Step(s, script), (s.A + FirstWord(s)) % 59049, (s.C + 6) % 59049)
    ensures AtOp(s, '-') ==> Steps(s, Step(s, script), (s.A + 59049 - FirstWord(s)) % 59049, (s.C + 6) % 59049)
    ensures Keeps(s, Step(s, script))
  {
    hide DecodeFrame, Cipher, EffectiveOp;
  }

  lemma LoadStep(s: State, script: Script)
    requires AtOp(s, '~') || AtOp(s, '^') || AtOp(s, '[') || AtOp(s, ']') || AtOp(s, ':')
    ensures var w, c, u := FirstWord(s), (s.C + 6) % 59049, Step(s, script);
            (AtOp(s, '~') ==> Steps(s, u, s.mem[w], c))
            && (AtOp(s, '^') ==> Steps(s, u, s.mem[s.mem[w]], c))
            && (AtOp(s, '[') ==> Steps(s, u, (s.A + s.mem[w]) % 59049, c))
            && (AtOp(s, ']') ==> Steps(s, u, (s.A + 59049 - s.mem[w]) % 59049, c))
            && (AtOp(s, ':') ==> Steps(s, u, if s.A == s.mem[w] then 0 else 1, c))
    ensures Keeps(s, Step(s, script))
  {
    hide DecodeFrame, Cipher, EffectiveOp;
  }

  lemma StoreStep(s: State, script: Script)
    requires AtOp(s, '=') || AtOp(s, '$')
    ensures Steps(s, Step(s, script), s.A, (s.C + 6) % 59049)
    ensures AtOp(s, '=') ==> Writes(s, Step(s, script), FirstWord(s), s.A)
    ensures AtOp(s, '$') ==> Writes(s, Step(s, script), s.mem[FirstWord(s)], s.A)
  {
    hide DecodeFrame, Cipher, EffectiveOp;
  }

  // ----- host calls -----

  /** Operand k of a host call: frame word k + 1, or A where that word is 59047. */
  function CallArgument(s: State, k: nat): Word
    requires s.Valid()
  {
    var w := DecodeFrame(s.mem, s.C + 6 + 5 * k);
    if w == 59047 then s.A else w
  }

  /**
   The host call.  Six frame words: the number and five operands.  Number 60
   halts with its first operand modulo 256; the seventeen supported numbers get
   the host's answer to this call; any other number fails with -38.
   */
  lemma TrapStep(s: State, script: Script)
    requires AtOp(s, '@')
    ensures var sys, u := FirstWord(s), Step(s, script);
            u.calls == s.calls + [TrapCall(sys, [CallArgument(s, 0), CallArgument(s, 1), CallArgument(s, 2),
                                                 CallArgument(s, 3), CallArgument(s, 4)])]
            && (sys == 60 ==>
                  u.halted && u.A == CallArgument(s, 0) && u.exitCode == CallArgument(s, 0) % 256 && !u.lastError)
            && (sys in {0, 1, 2, 3, 33, 34, 35, 39, 57, 59, 61, 79, 80, 83, 112, 165, 217} ==>
                  var answer := script(|s.calls|);
                  !u.halted && u.A == answer.ret % 59049 && u.lastError == (answer.ret < 0)
                  && u.C == (s.C + 31) % 59049 && u.D == (s.D + 1) % 59049
                  && (forall x: Word :: x != s.C ==> Answered(s.mem[x], answer.writes, x, u.mem[x])))
            && (sys !in {60, 0, 1, 2, 3, 33, 34, 35, 39, 57, 59, 61, 79, 80, 83, 112, 165, 217} ==>
                  !u.halted && u.A == 59011 && u.lastError && u.C == (s.C + 31) % 59049 && u.D == (s.D + 1) % 59049
                  && Keeps(s, u))
  {
    hide DecodeFrame, Cipher, EffectiveOp, ApplyWrites;
    forall writes: seq<(Word, Word)>, x: Word
      ensures Answered(s.mem[x], writes, x, ApplyWrites(s.mem, writes)[x])
    {
      LastWrite(s.mem, writes, x);
    }
    assert ApplyWrites(s.mem, []) == s.mem by { NothingWritten(s.mem); }
  }

  /** A cell after a list of writes: the value of the last write to it, or what it held. */
  ghost predicate Answered(before: Word, writes: seq<(Word, Word)>, x: Word, after: Word) {
    (forall k :: 0 <= k < |writes| && writes[k].0 == x && (forall j :: k < j < |writes| ==> writes[j].0 != x) ==>
       after == writes[k].1)
    && ((forall k :: 0 <= k < |writes| ==> writes[k].0 != x) ==> after == before)
  }

  lemma NothingWritten(mem: seq<Word>)
    requires |mem| == MEM_SIZE
    ensures ApplyWrites(mem, []) == mem
  {
  }

  lemma {:induction false} LastWrite(mem: seq<Word>, writes: seq<(Word, Word)>, x: Word)
    requires |mem| == MEM_SIZE
    ensures Answered(mem[x], writes, x, ApplyWrites(mem, writes)[x])
    decreases |writes|
  {
    if writes != [] {
      LastWrite(mem[writes[0].0 := writes[0].1], writes[1..], x);
      assert forall k :: 0 < k < |writes| ==> writes[k] == writes[1..][k - 1];
      forall k | 0 <= k < |writes| && writes[k].0 == x && (forall j :: k < j < |writes| ==> writes[j].0 != x)
        ensures ApplyWrites(mem, writes)[x] == writes[k].1
      {
        if k > 0 {
          assert writes[1..][k - 1].0 == x && forall j :: k - 1 < j < |writes| - 1 ==> writes[1..][j].0 != x;
        }
      }
    }
  }

  // ----- classic operations -----

  lemma PointerStep(s: State, script: Script)
    requires AtOp(s, 'j') || AtOp(s, 'i')
    ensures var u := Step(s, script);
            !u.halted && u.A == s.A && Keeps(s, u)
            && (AtOp(s, 'j') ==> u.C == (s.C + 1) % 59049 && u.D == (s.mem[s.D] as int + 1) % 59049)
            && (AtOp(s, 'i') ==> u.C == (s.mem[s.D] as int + 1) % 59049 && u.D == (s.D + 1) % 59049)
  {
    hide Cipher, EffectiveOp;
  }

  lemma RewriteStep(s: State, script: Script)
    requires AtOp(s, '*') || AtOp(s, 'p')
    ensures Steps(s, Step(s, script), Step(s, script).A, (s.C + 1) % 59049)
    ensures Writes(s, Step(s, script), s.D, Step(s, script).A)
    ensures AtOp(s, '*') ==> Step(s, script).A == RotateRight(s.mem[s.D])
    ensures AtOp(s, 'p') ==> Step(s, script).A == Crazy(s.A, s.mem[s.D])
  {
    hide Cipher, EffectiveOp, RotateRight, Crazy;
  }

  /** Input reads a byte, or 59048 at the end; output prints A modulo 256, and nothing for 59048; the halt halts. */
  lemma StreamStep(s: State, script: Script)
    requires AtOp(s, '/') || AtOp(s, '<') || AtOp(s, 'v')
    ensures var u := Step(s, script);
            (AtOp(s, '/') ==>
               Steps(s, u, if s.input == [] then 59048 else s.input[0], (s.C + 1) % 59049)
               && u.input == (if s.input == [] then [] else s.input[1..]) && u.output == s.output)
            && (AtOp(s, '<') ==>
                  Steps(s, u, s.A, (s.C + 1) % 59049) && u.input == s.input
                  && u.output == if s.A == 59048 then s.output else s.output + [s.A % 256])
            && (AtOp(s, 'v') ==>
                  u.halted && u.exitCode == s.exitCode && u.C == s.C && u.D == s.D && u.output == s.output)
    ensures Keeps(s, Step(s, script))
  {
    hide Cipher, EffectiveOp;
  }

  /**
   Whatever else a printable cell decodes to does nothing; a cell that is not printable stops
   the machine with 127.
   */
  lemma OtherStep(s: State, script: Script)
    requires s.Valid() && !s.halted
    ensures !Graphic(s.mem[s.C]) ==> Step(s, script) == s.(halted := true, exitCode := 127)
    ensures Graphic(s.mem[s.C])
            && EffectiveOp(s, s.C) !in {'@', '!', '?', '=', '~', '#', '+', '-', '[', ']', ':', '^', '$', '`',
                                        'j', 'i', '*', 'p', '/', '<', 'v'} ==>
              Steps(s, Step(s, script), s.A, (s.C + 1) % 59049) && Keeps(s, Step(s, script))
  {
    hide Cipher, EffectiveOp, DecodeFrame, RotateRight, Crazy;
  }
}
