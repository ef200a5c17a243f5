/**
 From mnemonics to behaviour.  What each line of assembly source puts into the
 image, glyph and frame, and what the booted machine does when control comes
 to it: the meaning of the language, written out.
 */
module Mnemonics {
  import opened Words
  import opened Glyphs
  import opened Frames
  import opened Machine
  import opened Source
  import opened Assembly
  import opened Agreement
  import opened Compiler
  import opened Startup
  import opened Meaning
  import opened Delivery
  import opened Invocation
  import opened Rechain
  import opened InstructionSet

  // ----- expressions -----

  /** How often a label counts, with sign. */
  function Occurrences(e: Expr, name: string): int {
    match e
    case Num(_) => 0
    case Label(l) => if l == name then 1 else 0
    case Plus(l, r) => Occurrences(l, name) + Occurrences(r, name)
    case Minus(l, r) => Occurrences(l, name) - Occurrences(r, name)
    case Negate(x) => -Occurrences(x, name)
  }

  /**
   Moving one label by d moves the value by d for every occurrence, signs counted: a
   difference of labels is a distance.
   */
  lemma {:induction false} MovedLabel(e: Expr, labels: Labels, name: string, d: int)
    requires name in labels && Eval(e, labels).Some?
    ensures Eval(e, labels[name := labels[name] + d]) == Some(Eval(e, labels).value + d * Occurrences(e, name))
  {
    match e
    case Num(_) => Spread(d, 0, 0);
    case Label(_) => Spread(d, 0, 0);
    case Plus(l, r) =>
      MovedLabel(l, labels, name, d);
      MovedLabel(r, labels, name, d);
      Spread(d, Occurrences(l, name), Occurrences(r, name));
    case Minus(l, r) =>
      MovedLabel(l, labels, name, d);
      MovedLabel(r, labels, name, d);
      Spread(d, Occurrences(l, name), Occurrences(r, name));
    case Negate(x) =>
      MovedLabel(x, labels, name, d);
      Spread(d, Occurrences(x, name), 0);
  }

  lemma Spread(d: int, n: int, m: int)
    ensures d * (n + m) == d * n + d * m && d * (n - m) == d * n - d * m && d * -n == -(d * n)
    ensures d * 0 == 0 && d * 1 == d
  {
  }

  lemma ExpressionForms(a: int, b: int, name: string, labels: Labels)
    ensures Eval(Num(a), labels) == Some(a) && Eval(Negate(Num(a)), labels) == Some(-a)
    ensures Eval(Plus(Num(a), Num(b)), labels) == Some(a + b) && Eval(Minus(Num(a), Num(b)), labels) == Some(a - b)
    ensures Eval(Label(name), labels) == if name in labels then Some(labels[name]) else None
    ensures name !in labels ==>
              Eval(Plus(Label(name), Num(a)), labels) == None && Eval(Minus(Num(a), Label(name)), labels) == None
  {
  }

  // ----- the image -----

  /** The glyph each mnemonic stands for. */
  function Glyph(kind: Kind): char {
    match kind
    case KJump => '!'
    case KStoreA => '='
    case KLoadA => '~'
    case KSetA => '#'
    case KAddI => '+'
    case KSubI => '-'
    case KAddM => '['
    case KSubM => ']'
    case KCmpM => ':'
    case KLoadI => '^'
    case KStoreI => '$'
    case KJumpM => '`'
  }

  /** The image is in memory. */
  predicate Carries(mem: seq<Word>, cells: seq<Word>) {
    |mem| == MEM_SIZE && |cells| <= MEM_SIZE && mem[..|cells|] == cells
  }

  /** One instruction's cells in the image: its opcode decodes, its frame words read back. */
  lemma InstructionCells(entries: seq<Entry>, trailing: seq<string>, layout: Layout, image: Image, k: nat, i: Instr,
                         mem: seq<Word>)
    requires LayOutSource(entries, trailing) == Success(layout) && AssembleGlyph(layout) == Success(image)
             && ClassicSource(entries)
    requires k < |layout.items| && Carries(mem, image.cells)
    requires EmitItem(layout.items[k], image.labels, image.prefix) == Success(Emission([Code(i)], []))
    ensures var at := AddressOf(layout, image, k);
            at + Size(i) <= |image.cells| && DecodeOp(mem[at], at) == OpChar(i)
            && forall j :: 0 <= j < |FrameOf(i)| ==> DecodeFrame(mem, at + 1 + 5 * j) == ModWord(FrameOf(i)[j])
  {
    hide LayOutSource, AssembleGlyph, GoodImage, EmitItem, InStep, CountInitializers, AddressOf, EncodePiece,
         PiecesSize, DecodeFrame, DecodeOp, FrameOf, OpChar, ClassicSource, Mapped, EncodePieces;
    LayoutPrefix(entries, trailing, layout, image);
    ItemBase(entries, trailing, layout, image, k);
    var at := AddressOf(layout, image, k);
    var before, behind := ImagePieces(layout, image, MatTicks(CountInitializers(Mapped(entries, EntryItem))), k,
                                      Emission([Code(i)], []));
    GoodEncodes(image);
    EncodeApart(before + [Code(i)], behind, 0);
    EncodeApart(before, [Code(i)], 0);
    var front := EncodePieces(before, 0).value;
    EncodePiecesLength(before, 0);
    CodeAlone(i, at);
    EncodePieceLength(Code(i), at);
    var here := EncodePiece(Code(i), at).value;
    assert image.cells[at..at + Size(i)] == here by { Middle(front, here, image.cells, at); }
    assert mem[at..at + Size(i)] == mem[..|image.cells|][at..at + Size(i)] == here;
    ImageClassicOnly(entries, trailing);
    assert image.pieces[|before|] == Code(i);
    CellsRead(i, at, mem);
  }

  lemma Middle(front: seq<Word>, here: seq<Word>, cells: seq<Word>, at: nat)
    requires front + here <= cells && |front| == at
    ensures at + |here| <= |cells| && cells[at..at + |here|] == here
  {
    assert cells[at..at + |here|] == (front + here)[at..];
  }

  lemma CodeAlone(i: Instr, at: nat)
    requires EncodePieces([Code(i)], at).Success?
    ensures EncodePiece(Code(i), at).Success? && EncodePieces([Code(i)], at) == EncodePiece(Code(i), at)
  {
    hide EncodePiece;
    assert [Code(i)][1..] == [] && EncodePieces([], at + PieceSize(Code(i))) == Success([]);
    assert EncodePiece(Code(i), at).value + [] == EncodePiece(Code(i), at).value;
  }

  lemma CellsRead(i: Instr, at: nat, mem: seq<Word>)
    requires |mem| == MEM_SIZE && at + Size(i) <= MEM_SIZE && (i.Classic? ==> ClassicOp(i.op))
    requires EncodePiece(Code(i), at).Success? && mem[at..at + Size(i)] == EncodePiece(Code(i), at).value
    ensures DecodeOp(mem[at], at) == OpChar(i)
    ensures forall j :: 0 <= j < |FrameOf(i)| ==> DecodeFrame(mem, at + 1 + 5 * j) == ModWord(FrameOf(i)[j])
  {
    hide EncodeWords, DecodeOp, EncodeOp, OpChar, DecodeFrame, ModWord, FrameOf;
    var cells := EncodePiece(Code(i), at).value;
    assert mem[at] == mem[at..at + Size(i)][0] == cells[0];
    assert mem[at + 1..at + 1 + |FrameOf(i)| * ENC_WORD_CELLS] == cells[1..] == EncodeWords(FrameOf(i), at + 1).value;
    forall j | 0 <= j < |FrameOf(i)|
      ensures DecodeFrame(mem, at + 1 + 5 * j) == ModWord(FrameOf(i)[j])
    {
      WordsReadBack(FrameOf(i), at + 1, mem, j);
    }
  }

  /** A framed mnemonic assembles to its glyph, followed by the value of its operand. */
  lemma FramedCells(entries: seq<Entry>, trailing: seq<string>, layout: Layout, image: Image, k: nat, mem: seq<Word>)
    requires LayOutSource(entries, trailing) == Success(layout) && AssembleGlyph(layout) == Success(image)
             && ClassicSource(entries)
    requires k < |layout.items| && layout.items[k].item.IFramed? && Carries(mem, image.cells)
    ensures var at, item := AddressOf(layout, image, k), layout.items[k].item;
            at + 6 <= |image.cells| && DecodeOp(image.cells[at], at) == Glyph(item.kind)
            && Eval(item.arg, image.labels).Some?
            && DecodeFrame(mem, at + 1) == Eval(item.arg, image.labels).value % 59049
  {
    hide LayOutSource, AssembleGlyph, AddressOf, DecodeFrame, DecodeOp, ClassicSource, Eval;
    EmittedOk(entries, trailing, layout, image, k);
    var e := EmitItem(layout.items[k], image.labels, image.prefix).value;
    var i := e.pieces[0].instr;
    InstructionCells(entries, trailing, layout, image, k, i, mem);
    assert |FrameOf(i)| == 1 && FrameOf(i)[0] == Eval(layout.items[k].item.arg, image.labels).value;
    assert mem[AddressOf(layout, image, k)] == mem[..|image.cells|][AddressOf(layout, image, k)];
  }

  /** A branch assembles to `?`, its target and the mode of its test. */
  lemma BranchCells(entries: seq<Entry>, trailing: seq<string>, layout: Layout, image: Image, k: nat, mem: seq<Word>)
    requires LayOutSource(entries, trailing) == Success(layout) && AssembleGlyph(layout) == Success(image)
             && ClassicSource(entries)
    requires k < |layout.items| && layout.items[k].item.IBranch? && Carries(mem, image.cells)
    ensures var at, item := AddressOf(layout, image, k), layout.items[k].item;
            at + 11 <= |image.cells| && DecodeOp(image.cells[at], at) == '?'
            && Eval(item.arg, image.labels).Some?
            && DecodeFrame(mem, at + 1) == Eval(item.arg, image.labels).value % 59049
            && DecodeFrame(mem, at + 6)
               == match item.test
                  case Always => 0
                  case IfZero => 1
                  case IfNonzero => 2
                  case IfFailed => 3
                  case IfOk => 4
  {
    hide LayOutSource, AssembleGlyph, AddressOf, DecodeFrame, DecodeOp, ClassicSource, Eval;
    EmittedOk(entries, trailing, layout, image, k);
    var e := EmitItem(layout.items[k], image.labels, image.prefix).value;
    var i := e.pieces[0].instr;
    InstructionCells(entries, trailing, layout, image, k, i, mem);
    assert |FrameOf(i)| == 2 && FrameOf(i)[0] == Eval(layout.items[k].item.arg, image.labels).value;
    assert DecodeFrame(mem, AddressOf(layout, image, k) + 1 + 5 * 1) == ModWord(FrameOf(i)[1]);
    assert mem[AddressOf(layout, image, k)] == mem[..|image.cells|][AddressOf(layout, image, k)];
  }

  /** A trap assembles to `@` and six frame words: its one to six arguments in order, then zeros. */
  lemma TrapCells(entries: seq<Entry>, trailing: seq<string>, layout: Layout, image: Image, k: nat, j: nat,
                  mem: seq<Word>)
    requires LayOutSource(entries, trailing) == Success(layout) && AssembleGlyph(layout) == Success(image)
             && ClassicSource(entries)
    requires k < |layout.items| && layout.items[k].item.ITrap? && Carries(mem, image.cells) && j < 6
    ensures var at, item := AddressOf(layout, image, k), layout.items[k].item;
            at + 31 <= |image.cells| && DecodeOp(image.cells[at], at) == '@' && 1 <= |item.args| <= 6
            && (j < |item.args| ==> Eval(item.args[j], image.labels).Some?)
            && DecodeFrame(mem, at + 1 + 5 * j)
               == if j < |item.args| then Eval(item.args[j], image.labels).value % 59049 else 0
  {
    hide LayOutSource, AssembleGlyph, AddressOf, DecodeFrame, DecodeOp, ClassicSource, Eval, EvalAll;
    EmittedOk(entries, trailing, layout, image, k);
    var args := layout.items[k].item.args;
    var e := EmitItem(layout.items[k], image.labels, image.prefix).value;
    var i := e.pieces[0].instr;
    InstructionCells(entries, trailing, layout, image, k, i, mem);
    var vs := EvalAll(args, image.labels).value;
    TrapWords(vs, i, j);
    if j < |args| {
      EachArgument(args, image.labels, j);
    }
    assert DecodeFrame(mem, AddressOf(layout, image, k) + 1 + 5 * j) == ModWord(FrameOf(i)[j]);
    assert mem[AddressOf(layout, image, k)] == mem[..|image.cells|][AddressOf(layout, image, k)];
  }

  lemma TrapWords(vs: seq<int>, i: Instr, j: nat)
    requires 1 <= |vs| <= 6 && j < 6
    requires i == Trap(vs[0], Arg(vs, 1), Arg(vs, 2), Arg(vs, 3), Arg(vs, 4), Arg(vs, 5))
    ensures |FrameOf(i)| == 6 && FrameOf(i)[j] == if j < |vs| then vs[j] else 0
  {
  }

  lemma {:induction false} EachArgument(args: seq<Expr>, labels: Labels, j: nat)
    requires EvalAll(args, labels).Some? && j < |args|
    ensures Eval(args[j], labels) == Some(EvalAll(args, labels).value[j])
  {
    hide Eval;
    if j > 0 {
      EachArgument(args[1..], labels, j - 1);
    }
  }

  /** An op directive assembles to one cell that decodes to its operation. */
  lemma OpCells(entries: seq<Entry>, trailing: seq<string>, layout: Layout, image: Image, k: nat, mem: seq<Word>)
    requires LayOutSource(entries, trailing) == Success(layout) && AssembleGlyph(layout) == Success(image)
             && ClassicSource(entries)
    requires k < |layout.items| && layout.items[k].item.IOp? && Carries(mem, image.cells)
    ensures var at := AddressOf(layout, image, k);
            at < |image.cells| && DecodeOp(image.cells[at], at) == layout.items[k].item.op
  {
    hide LayOutSource, AssembleGlyph, AddressOf, DecodeFrame, DecodeOp, ClassicSource;
    EmittedOk(entries, trailing, layout, image, k);
    InstructionCells(entries, trailing, layout, image, k, Classic(layout.items[k].item.op), mem);
    assert mem[AddressOf(layout, image, k)] == mem[..|image.cells|][AddressOf(layout, image, k)];
  }

  // ----- one source line, run -----

  /** The data cells a framed instruction with operand w looks at or writes are not code. */
  ghost predicate AccessesData(prog: Program, kind: Kind, w: Word, mem: seq<Word>)
    requires |mem| == MEM_SIZE
  {
    match kind
    case KStoreA => NotCode(prog, w)
    case KLoadA => NotCode(prog, w)
    case KAddM => NotCode(prog, w)
    case KSubM => NotCode(prog, w)
    case KCmpM => NotCode(prog, w)
    case KJumpM => NotCode(prog, w)
    case KLoadI => NotCode(prog, w) && NotCode(prog, mem[w])
    case KStoreI => NotCode(prog, w) && NotCode(prog, mem[w])
    case _ => true
  }

  /** The accumulator after it. */
  function NewA(kind: Kind, w: Word, a: Word, mem: seq<Word>): Word
    requires |mem| == MEM_SIZE
  {
    match kind
    case KSetA => w
    case KAddI => (a as int + w) % 59049
    case KSubI => (a as int - w) % 59049
    case KAddM => (a as int + mem[w]) % 59049
    case KSubM => (a as int - mem[w]) % 59049
    case KCmpM => if a == mem[w] then 0 else 1
    case KLoadA => mem[w]
    case KLoadI => mem[mem[w]]
    case _ => a
  }

  /** Where control goes. */
  function NewC(kind: Kind, w: Word, c: Word, mem: seq<Word>): Word
    requires |mem| == MEM_SIZE
  {
    if kind == KJump then w else if kind == KJumpM then mem[w] else (c + 6) % 59049
  }

  /** The data cells after it: storea writes A into its operand, storei into the cell its operand points at. */
  ghost predicate NewCells(prog: Program, kind: Kind, w: Word, a: Word, before: seq<Word>, after: seq<Word>)
    requires |before| == |after| == MEM_SIZE
  {
    var written := if kind == KStoreA then {w} else if kind == KStoreI then {before[w]} else {};
    forall x: Word :: NotCode(prog, x) ==> after[x] == if x in written then a else before[x]
  }

  /** What the booted machine does at a framed instruction. */
  ghost predicate FramedEffect(prog: Program, kind: Kind, w: Word, s: State, u: State) {
    s.Valid() && u.Valid() && !u.halted
    && u.A == NewA(kind, w, s.A, s.mem) && u.C == NewC(kind, w, s.C, s.mem) && u.D == (s.D + 1) % 59049
    && NewCells(prog, kind, w, s.A, s.mem, u.mem)
    && u.lastError == s.lastError && u.output == s.output && u.input == s.input && u.calls == s.calls
  }

  // ----- the plain machine, instruction by instruction -----

  lemma OffTwo(prog: Program, x: Word, y: Word)
    ensures OffCode(prog, {}) && (OffCode(prog, {x}) <==> NotCode(prog, x))
    ensures OffCode(prog, {x, y}) <==> NotCode(prog, x) && NotCode(prog, y)
  {
    hide NotCode;
  }

  /** Both machines' view of one plain step. */
  ghost predicate PlainEffect(prog: Program, kind: Kind, w: Word, t: Src, r: Option<Src>)
    requires |t.mem| == MEM_SIZE
  {
    (r.Some? <==> AccessesData(prog, kind, w, t.mem))
    && (r.Some? ==>
          var u := r.value;
          |u.mem| == MEM_SIZE && !u.halted && u.A == NewA(kind, w, t.A, t.mem) && u.C == NewC(kind, w, t.C, t.mem)
          && u.D == (t.D + 1) % 59049 && NewCells(prog, kind, w, t.A, t.mem, u.mem)
          && u.lastError == t.lastError && u.output == t.output && u.input == t.input && u.calls == t.calls)
  }

  lemma PlainFramed(prog: Program, t: Src, script: Script, kind: Kind, x: int)
    requires |t.mem| == MEM_SIZE && !t.halted && t.C in prog && prog[t.C] == MakeFramed(kind, x)
    ensures PlainEffect(prog, kind, ModWord(x), t, PlainStep(prog, t, script))
  {
    hide PlainStep, PlainEffect;
    if kind == KJump || kind == KJumpM {
      PlainControl(prog, t, script, kind, x);
    } else if kind == KSetA {
      PlainSet(prog, t, script, x);
    } else if kind == KAddI || kind == KSubI {
      PlainImmediate(prog, t, script, kind, x);
    } else if kind == KStoreA || kind == KStoreI {
      PlainStore(prog, t, script, kind, x);
    } else if kind == KLoadA || kind == KLoadI || kind == KCmpM {
      PlainLoad(prog, t, script, kind, x);
    } else {
      PlainCombine(prog, t, script, kind, x);
    }
  }

  lemma PlainControl(prog: Program, t: Src, script: Script, kind: Kind, x: int)
    requires |t.mem| == MEM_SIZE && !t.halted && t.C in prog && prog[t.C] == MakeFramed(kind, x)
    requires kind == KJump || kind == KJumpM
    ensures PlainEffect(prog, kind, ModWord(x), t, PlainStep(prog, t, script))
  {
    hide NotCode, OffCode, ApplyWrites, WriteTargets;
    NoWrites(t.mem);
    OffTwo(prog, ModWord(x), 0);
  }

  lemma PlainSet(prog: Program, t: Src, script: Script, x: int)
    requires |t.mem| == MEM_SIZE && !t.halted && t.C in prog && prog[t.C] == MakeFramed(KSetA, x)
    ensures PlainEffect(prog, KSetA, ModWord(x), t, PlainStep(prog, t, script))
  {
    hide NotCode, OffCode, ApplyWrites, WriteTargets, ModWord;
    NoWrites(t.mem);
    OffTwo(prog, 0, 0);
  }

  lemma PlainImmediate(prog: Program, t: Src, script: Script, kind: Kind, x: int)
    requires |t.mem| == MEM_SIZE && !t.halted && t.C in prog && prog[t.C] == MakeFramed(kind, x)
    requires kind == KAddI || kind == KSubI
    ensures PlainEffect(prog, kind, ModWord(x), t, PlainStep(prog, t, script))
  {
    hide NotCode, OffCode, ApplyWrites, WriteTargets;
    NoWrites(t.mem);
    OffTwo(prog, 0, 0);
    ModWordSum(t.A, x);
  }

  lemma PlainStore(prog: Program, t: Src, script: Script, kind: Kind, x: int)
    requires |t.mem| == MEM_SIZE && !t.halted && t.C in prog && prog[t.C] == MakeFramed(kind, x)
    requires kind == KStoreA || kind == KStoreI
    ensures PlainEffect(prog, kind, ModWord(x), t, PlainStep(prog, t, script))
  {
    hide NotCode, OffCode, ApplyWrites, WriteTargets;
    var w := ModWord(x);
    OneWrite(t.mem, if kind == KStoreA then w else t.mem[w], t.A);
    OffTwo(prog, w, 0);
    OffTwo(prog, t.mem[w], 0);
  }

  lemma PlainLoad(prog: Program, t: Src, script: Script, kind: Kind, x: int)
    requires |t.mem| == MEM_SIZE && !t.halted && t.C in prog && prog[t.C] == MakeFramed(kind, x)
    requires kind == KLoadA || kind == KLoadI || kind == KCmpM
    ensures PlainEffect(prog, kind, ModWord(x), t, PlainStep(prog, t, script))
  {
    hide NotCode, OffCode, ApplyWrites, WriteTargets, ModWord;
    NoWrites(t.mem);
    OffTwo(prog, ModWord(x), t.mem[ModWord(x)]);
  }

  lemma PlainCombine(prog: Program, t: Src, script: Script, kind: Kind, x: int)
    requires |t.mem| == MEM_SIZE && !t.halted && t.C in prog && prog[t.C] == MakeFramed(kind, x)
    requires kind == KAddM || kind == KSubM
    ensures PlainEffect(prog, kind, ModWord(x), t, PlainStep(prog, t, script))
  {
    hide NotCode, OffCode, ApplyWrites, WriteTargets, ModWord;
    var w := ModWord(x);
    NoWrites(t.mem);
    OffTwo(prog, w, t.mem[w]);
    Combined(t.A, t.mem[w]);
  }

  lemma Combined(a: Word, m: Word)
    ensures ModWord(a + m) == (a + m) % 59049 && ModWord(a - m) == (a as int - m) % 59049
  {
  }

  /** When a branch jumps. */
  predicate TestHolds(test: Test, a: Word, failed: bool) {
    match test
    case Always => true
    case IfZero => a == 0
    case IfNonzero => a != 0
    case IfFailed => failed
    case IfOk => !failed
  }

  lemma PlainBranch(prog: Program, t: Src, script: Script, test: Test, x: int)
    requires |t.mem| == MEM_SIZE && !t.halted && t.C in prog && prog[t.C] == Branch(ModeOf(test), x)
    ensures var r := PlainStep(prog, t, script);
            r.Some? && |r.value.mem| == MEM_SIZE && !r.value.halted && r.value.A == t.A && r.value.mem == t.mem
            && r.value.C == (if TestHolds(test, t.A, t.lastError) then ModWord(x) else (t.C + 11) % 59049)
            && r.value.D == (t.D + 1) % 59049
            && r.value.lastError == t.lastError && r.value.output == t.output && r.value.input == t.input
            && r.value.calls == t.calls
  {
    hide NotCode, OffCode, ApplyWrites, WriteTargets;
    NoWrites(t.mem);
    OffTwo(prog, 0, 0);
  }

  // ----- host calls -----

  /** The six words of a trap: the values of its arguments, then zeros. */
  function TrapWord(vs: seq<int>, j: nat): Word {
    if j < |vs| then vs[j] % 59049 else 0
  }

  /** Operand k of the call; 59047 stands for A. */
  function TrapOperand(vs: seq<int>, k: nat, a: Word): Word {
    if TrapWord(vs, k + 1) == 59047 then a else TrapWord(vs, k + 1)
  }

  function HostRequest(vs: seq<int>, a: Word): TrapCall {
    TrapCall(TrapWord(vs, 0), [TrapOperand(vs, 0, a), TrapOperand(vs, 1, a), TrapOperand(vs, 2, a),
                               TrapOperand(vs, 3, a), TrapOperand(vs, 4, a)])
  }

  predicate Supported(sys: Word) {
    sys in {0, 1, 2, 3, 33, 34, 35, 39, 57, 59, 61, 79, 80, 83, 112, 165, 217}
  }

  /** Registers and streams after the call. */
  ghost predicate Called(vs: seq<int>, script: Script, a: Word, c: Word, d: Word, calls: seq<TrapCall>,
                         halted: bool, code: nat, a': Word, c': Word, d': Word, failed: bool, calls': seq<TrapCall>) {
    calls' == calls + [HostRequest(vs, a)]
    && if TrapWord(vs, 0) == 60 then halted && a' == TrapOperand(vs, 0, a) && code == a' % 256
       else
         !halted && c' == (c + 31) % 59049 && d' == (d + 1) % 59049
         && if Supported(TrapWord(vs, 0)) then a' == script(|calls|).ret % 59049 && failed == (script(|calls|).ret < 0)
            else a' == 59011 && failed
  }

  /** The writes of the host's answer. */
  function HostWrites(vs: seq<int>, script: Script, calls: seq<TrapCall>): seq<(Word, Word)> {
    if Supported(TrapWord(vs, 0)) then script(|calls|).writes else []
  }

  lemma PlainTrap(prog: Program, t: Src, script: Script, vs: seq<int>)
    requires |t.mem| == MEM_SIZE && !t.halted && t.C in prog && 1 <= |vs| <= 6
    requires prog[t.C] == Trap(vs[0], Arg(vs, 1), Arg(vs, 2), Arg(vs, 3), Arg(vs, 4), Arg(vs, 5))
    ensures var r := PlainStep(prog, t, script);
            (r.Some? <==> forall k :: 0 <= k < |HostWrites(vs, script, t.calls)| ==>
                            NotCode(prog, HostWrites(vs, script, t.calls)[k].0))
            && (r.Some? ==>
                  var u := r.value;
                  |u.mem| == MEM_SIZE && u.output == t.output && u.input == t.input
                  && Called(vs, script, t.A, t.C, t.D, t.calls, u.halted, u.exitCode, u.A, u.C, u.D, u.lastError,
                            u.calls)
                  && forall x: Word :: Answered(t.mem[x], HostWrites(vs, script, t.calls), x, u.mem[x]))
  {
    hide NotCode, OffCode, ApplyWrites, WriteTargets, Answered, PlainStep;
    var writes := HostWrites(vs, script, t.calls);
    TrapAct(t, script, vs);
    TargetsOff(prog, writes);
    forall x: Word
      ensures Answered(t.mem[x], writes, x, ApplyWrites(t.mem, writes)[x])
    {
      LastWrite(t.mem, writes, x);
    }
    OffTwo(prog, 0, 0);
    TrapCommit(prog, t, script, Trap(vs[0], Arg(vs, 1), Arg(vs, 2), Arg(vs, 3), Arg(vs, 4), Arg(vs, 5)));
  }

  lemma TrapCommit(prog: Program, t: Src, script: Script, i: Instr)
    requires |t.mem| == MEM_SIZE && !t.halted && t.C in prog && prog[t.C] == i && !i.Classic?
    requires OffCode(prog, Act(i, t, script).readSet)
    ensures PlainStep(prog, t, script)
         == if OffCode(prog, WriteTargets(Act(i, t, script).writes)) then Some(Strip(Commit(t, Act(i, t, script))))
           else None
  {
    hide NotCode, OffCode, ApplyWrites, WriteTargets, Act;
  }

  lemma TargetsOff(prog: Program, writes: seq<(Word, Word)>)
    ensures OffCode(prog, WriteTargets(writes)) <==> forall k :: 0 <= k < |writes| ==> NotCode(prog, writes[k].0)
  {
    hide NotCode;
    if OffCode(prog, WriteTargets(writes)) {
      forall k | 0 <= k < |writes|
        ensures NotCode(prog, writes[k].0)
      {
        assert writes[k].0 in WriteTargets(writes);
      }
    }
  }

  lemma TrapAct(t: Src, script: Script, vs: seq<int>)
    requires |t.mem| == MEM_SIZE && !t.halted && 1 <= |vs| <= 6
    ensures var e := Act(Trap(vs[0], Arg(vs, 1), Arg(vs, 2), Arg(vs, 3), Arg(vs, 4), Arg(vs, 5)), t, script);
            var u := Commit(t, e);
            e.readSet == {} && e.writes == HostWrites(vs, script, t.calls) && u.mem == ApplyWrites(t.mem, e.writes)
            && u.output == t.output && u.input == t.input
            && Called(vs, script, t.A, t.C, t.D, t.calls, u.halted, u.exitCode, u.A, u.C, u.D, u.lastError, u.calls)
  {
    hide ApplyWrites, WriteTargets;
  }

  // ----- on the machine -----

  /** Both machines at the same moment. */
  lemma SameMoment(image: Image, v: State, script: Script, n: nat)
    requires GoodImage(image) && ClassicOnly(image.pieces) && v.Valid() && Booted(v, image.cells)
    requires forall k :: 0 <= k < |image.inits| ==> image.inits[k].0 < MEM_SIZE
    requires PlainRun(ProgramOf(image.pieces, 0), PlainStart(image, v), script, n).Some?
    ensures var prog := ProgramOf(image.pieces, 0);
            var t, u := PlainRun(prog, PlainStart(image, v), script, n).value,
              Run(v, script, MatTicks(|image.inits|) + n);
            u.Valid() && |t.mem| == MEM_SIZE && SameRegisters(t, u)
            && forall x: Word :: NotCode(prog, x) ==> u.mem[x] == t.mem[x]
  {
    hide GoodImage, ProgramOf, NotCode, PlainRun, PlainStart, Booted, MatTicks, EffectiveOp, Run, ClassicOnly, OpChar,
         SameRegisters;
    CompilerCorrect(image, v, script, n);
  }

  /** The instruction of an item in the program. */
  lemma InstructionAt(entries: seq<Entry>, trailing: seq<string>, layout: Layout, image: Image, k: nat, i: Instr)
    requires LayOutSource(entries, trailing) == Success(layout) && AssembleGlyph(layout) == Success(image)
    requires k < |layout.items| && EmitItem(layout.items[k], image.labels, image.prefix)
             == Success(Emission([Code(i)], []))
    ensures var prog, at := ProgramOf(image.pieces, 0), AddressOf(layout, image, k); at in prog && prog[at] == i
  {
    hide LayOutSource, AssembleGlyph, GoodImage, EmitItem, InStep, CountInitializers, AddressOf, ProgramOf, Mapped;
    LayoutPrefix(entries, trailing, layout, image);
    ItemBase(entries, trailing, layout, image, k);
    OneInstruction(i, AddressOf(layout, image, k));
    ItemInImage(layout, image, MatTicks(CountInitializers(Mapped(entries, EntryItem))), k, Emission([Code(i)], []),
                AddressOf(layout, image, k));
  }

  lemma OneInstruction(i: Instr, at: nat)
    ensures at in ProgramOf([Code(i)], at) && ProgramOf([Code(i)], at)[at] == i
  {
  }

  lemma NextPlain(prog: Program, s: Src, script: Script, n: nat)
    requires |s.mem| == MEM_SIZE && PlainRun(prog, s, script, n).Some? && !PlainRun(prog, s, script, n).value.halted
    ensures PlainRun(prog, s, script, n + 1) == PlainStep(prog, PlainRun(prog, s, script, n).value, script)
  {
    hide PlainStep;
    PlainRunSplit(prog, s, script, n, 1);
    var t := PlainRun(prog, s, script, n).value;
    var r := PlainStep(prog, t, script);
    if r.Some? {
      assert PlainRun(prog, r.value, script, 0) == r;
    }
  }

  /**
   A framed line, run.  When the program comes to the item, it goes on exactly
   if the data cells the instruction touches are not code, and then the machine
   does in that step what the mnemonic says, with the value of the operand.
   */
  lemma FramedRuns(entries: seq<Entry>, trailing: seq<string>, layout: Layout, image: Image, v: State, script: Script,
                   k: nat, n: nat, x: int)
    requires LayOutSource(entries, trailing) == Success(layout) && AssembleGlyph(layout) == Success(image)
             && ClassicSource(entries)
    requires k < |layout.items| && layout.items[k].item.IFramed?
             && Eval(layout.items[k].item.arg, image.labels) == Some(x)
    requires Reaches(image, v, script, n, AddressOf(layout, image, k))
    ensures var prog, kind := ProgramOf(image.pieces, 0), layout.items[k].item.kind;
            var s, u := Run(v, script, MatTicks(|image.inits|) + n), Run(v, script, MatTicks(|image.inits|) + n + 1);
            var goes := PlainRun(prog, PlainStart(image, v), script, n + 1).Some?;
            s.Valid() && (goes <==> AccessesData(prog, kind, x % 59049, s.mem))
            && (goes ==> FramedEffect(prog, kind, x % 59049, s, u))
  {
    hide LayOutSource, AssembleGlyph, GoodImage, AddressOf, ProgramOf, Run, ClassicSource, ClassicOnly, MatTicks,
         Booted, PlainRun, PlainStart, PlainStep, PlainEffect, AccessesData, FramedEffect, NotCode, Mapped,
         CountInitializers, InStep, MakeFramed;
    LayoutPrefix(entries, trailing, layout, image);
    ImageClassicOnly(entries, trailing);
    EmitsFramed(layout.items[k], image.labels, image.prefix, x);
    var prog, kind := ProgramOf(image.pieces, 0), layout.items[k].item.kind;
    InstructionAt(entries, trailing, layout, image, k, MakeFramed(kind, x));
    var t := PlainRun(prog, PlainStart(image, v), script, n).value;
    NextPlain(prog, PlainStart(image, v), script, n);
    PlainFramed(prog, t, script, kind, x);
    SameMoment(image, v, script, n);
    var s := Run(v, script, MatTicks(|image.inits|) + n);
    PlainGoes(prog, kind, x % 59049, t, PlainStep(prog, t, script), s);
    if PlainRun(prog, PlainStart(image, v), script, n + 1).Some? {
      SameMoment(image, v, script, n + 1);
      EffectCarries(prog, kind, x % 59049, t, PlainStep(prog, t, script), s,
                    Run(v, script, MatTicks(|image.inits|) + n + 1));
    }
  }

  lemma EmitsFramed(it: Located, labels: Labels, base: nat, x: int)
    requires it.item.IFramed? && Eval(it.item.arg, labels) == Some(x)
    ensures EmitItem(it, labels, base) == Success(Emission([Code(MakeFramed(it.item.kind, x))], []))
  {
    hide Eval, MakeFramed;
  }

  lemma PlainGoes(prog: Program, kind: Kind, w: Word, t: Src, r: Option<Src>, s: State)
    requires |t.mem| == MEM_SIZE && s.Valid() && PlainEffect(prog, kind, w, t, r)
    requires forall x: Word :: NotCode(prog, x) ==> s.mem[x] == t.mem[x]
    ensures r.Some? <==> AccessesData(prog, kind, w, s.mem)
  {
    hide NotCode;
  }

  lemma EffectCarries(prog: Program, kind: Kind, w: Word, t: Src, r: Option<Src>, s: State, u: State)
    requires |t.mem| == MEM_SIZE && s.Valid() && u.Valid() && PlainEffect(prog, kind, w, t, r) && r.Some?
    requires |r.value.mem| == MEM_SIZE && SameRegisters(t, s) && SameRegisters(r.value, u)
    requires forall x: Word :: NotCode(prog, x) ==> s.mem[x] == t.mem[x]
    requires forall x: Word :: NotCode(prog, x) ==> u.mem[x] == r.value.mem[x]
    ensures FramedEffect(prog, kind, w, s, u)
  {
    hide NotCode;
  }

  /** A branch line, run: it jumps to the value of its operand exactly when its test holds. */
  lemma BranchRuns(entries: seq<Entry>, trailing: seq<string>, layout: Layout, image: Image, v: State, script: Script,
                   k: nat, n: nat, x: int)
    requires LayOutSource(entries, trailing) == Success(layout) && AssembleGlyph(layout) == Success(image)
             && ClassicSource(entries)
    requires k < |layout.items| && layout.items[k].item.IBranch?
             && Eval(layout.items[k].item.arg, image.labels) == Some(x)
    requires Reaches(image, v, script, n, AddressOf(layout, image, k))
    ensures var s, u := Run(v, script, MatTicks(|image.inits|) + n), Run(v, script, MatTicks(|image.inits|) + n + 1);
            PlainRun(ProgramOf(image.pieces, 0), PlainStart(image, v), script, n + 1).Some?
            && s.Valid() && u.Valid() && !u.halted
            && u.C == (if TestHolds(layout.items[k].item.test, s.A, s.lastError) then x % 59049 else (s.C + 11) % 59049)
            && u.A == s.A && u.D == (s.D + 1) % 59049 && u.lastError == s.lastError && u.output == s.output
            && u.calls == s.calls
            && forall y: Word :: NotCode(ProgramOf(image.pieces, 0), y) ==> u.mem[y] == s.mem[y]
  {
    hide LayOutSource, AssembleGlyph, GoodImage, AddressOf, ProgramOf, Run, ClassicSource, ClassicOnly, MatTicks,
         Booted, PlainRun, PlainStart, PlainStep, NotCode, Mapped, CountInitializers, InStep, ModeOf, Eval, TestHolds;
    LayoutPrefix(entries, trailing, layout, image);
    ImageClassicOnly(entries, trailing);
    var prog, test := ProgramOf(image.pieces, 0), layout.items[k].item.test;
    assert EmitItem(layout.items[k], image.labels, image.prefix)
           == Success(Emission([Code(Branch(ModeOf(test), x))], []));
    InstructionAt(entries, trailing, layout, image, k, Branch(ModeOf(test), x));
    var t := PlainRun(prog, PlainStart(image, v), script, n).value;
    NextPlain(prog, PlainStart(image, v), script, n);
    PlainBranch(prog, t, script, test, x);
    SameMoment(image, v, script, n);
    SameMoment(image, v, script, n + 1);
  }

  /** A trap line, run: the host is called with the values of its arguments, and its answer is what the program sees. */
  lemma TrapRuns(entries: seq<Entry>, trailing: seq<string>, layout: Layout, image: Image, v: State, script: Script,
                 k: nat, n: nat, vs: seq<int>)
    requires LayOutSource(entries, trailing) == Success(layout) && AssembleGlyph(layout) == Success(image)
             && ClassicSource(entries)
    requires k < |layout.items| && layout.items[k].item.ITrap?
             && EvalAll(layout.items[k].item.args, image.labels) == Some(vs)
    requires Reaches(image, v, script, n, AddressOf(layout, image, k))
    ensures var prog := ProgramOf(image.pieces, 0);
            var s, u := Run(v, script, MatTicks(|image.inits|) + n), Run(v, script, MatTicks(|image.inits|) + n + 1);
            var goes := PlainRun(prog, PlainStart(image, v), script, n + 1).Some?;
            s.Valid() && u.Valid()
            && (goes <==> forall q :: 0 <= q < |HostWrites(vs, script, s.calls)| ==>
                            NotCode(prog, HostWrites(vs, script, s.calls)[q].0))
            && (goes ==>
                  Called(vs, script, s.A, s.C, s.D, s.calls, u.halted, u.exitCode, u.A, u.C, u.D, u.lastError, u.calls)
                  && u.output == s.output
                  && forall y: Word :: NotCode(prog, y) ==>
                       Answered(s.mem[y], HostWrites(vs, script, s.calls), y, u.mem[y]))
  {
    hide LayOutSource, AssembleGlyph, GoodImage, AddressOf, ProgramOf, Run, ClassicSource, ClassicOnly, MatTicks,
         Booted, PlainRun, PlainStart, PlainStep, NotCode, Mapped, CountInitializers, InStep, EvalAll, Called,
         HostWrites, Answered;
    LayoutPrefix(entries, trailing, layout, image);
    ImageClassicOnly(entries, trailing);
    var prog := ProgramOf(image.pieces, 0);
    EmittedOk(entries, trailing, layout, image, k);
    EmitsTrap(layout.items[k], image.labels, image.prefix, vs);
    var i := Trap(vs[0], Arg(vs, 1), Arg(vs, 2), Arg(vs, 3), Arg(vs, 4), Arg(vs, 5));
    InstructionAt(entries, trailing, layout, image, k, i);
    var t := PlainRun(prog, PlainStart(image, v), script, n).value;
    NextPlain(prog, PlainStart(image, v), script, n);
    PlainTrap(prog, t, script, vs);
    SameMoment(image, v, script, n);
    if PlainRun(prog, PlainStart(image, v), script, n + 1).Some? {
      SameMoment(image, v, script, n + 1);
    }
  }

  lemma EmitsTrap(it: Located, labels: Labels, base: nat, vs: seq<int>)
    requires it.item.ITrap? && EvalAll(it.item.args, labels) == Some(vs) && EmitItem(it, labels, base).Success?
    ensures 1 <= |vs| <= 6
    ensures EmitItem(it, labels, base)
         == Success(Emission([Code(Trap(vs[0], Arg(vs, 1), Arg(vs, 2), Arg(vs, 3), Arg(vs, 4), Arg(vs, 5)))], []))
  {
    hide EvalAll;
  }
}
