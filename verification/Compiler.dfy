/**
 From the assembled image to running machines: the image is valid source, the
 lineage walk marks exactly the extension opcodes, the startup code installs
 every initialised cell, and any assembly-level run of the program is a run of
 the virtual machine.
 */
module Compiler {
  import opened Words
  import opened Glyphs
  import opened Frames
  import opened Machine
  import opened Loader
  import opened Source
  import opened Assembly
  import opened Agreement

  // ----- the program an image encodes -----

  function ProgramOf(ps: seq<Piece>, addr: nat): Program {
    if ps == [] then map[]
    else
      var rest := ProgramOf(ps[1..], addr + PieceSize(ps[0]));
      match ps[0]
      case Filler(_) => rest
      case Code(i) => rest[addr := i]
  }

  lemma {:induction false} ProgramBounds(ps: seq<Piece>, addr: nat)
    ensures forall pc :: pc in ProgramOf(ps, addr) ==>
              addr <= pc && pc + Size(ProgramOf(ps, addr)[pc]) <= addr + PiecesSize(ps)
  {
    if ps != [] {
      ProgramBounds(ps[1..], addr + PieceSize(ps[0]));
    }
  }

  lemma {:induction false} ProgramPlaced(ps: seq<Piece>, addr: nat)
    requires addr + PiecesSize(ps) <= MEM_SIZE
    ensures WellPlaced(ProgramOf(ps, addr))
  {
    ProgramBounds(ps, addr);
    if ps != [] {
      ProgramPlaced(ps[1..], addr + PieceSize(ps[0]));
      ProgramBounds(ps[1..], addr + PieceSize(ps[0]));
    }
  }

  lemma {:induction false} ProgramSplit(a: seq<Piece>, b: seq<Piece>, addr: nat)
    ensures forall pc :: pc in ProgramOf(a + b, addr) <==>
                           pc in ProgramOf(a, addr) || pc in ProgramOf(b, addr + PiecesSize(a))
    ensures forall pc :: pc in ProgramOf(a, addr) ==> ProgramOf(a + b, addr)[pc] == ProgramOf(a, addr)[pc]
    ensures forall pc :: pc in ProgramOf(b, addr + PiecesSize(a)) ==>
                           ProgramOf(a + b, addr)[pc] == ProgramOf(b, addr + PiecesSize(a))[pc]
  {
    if a == [] {
      assert a + b == b;
    } else {
      assert (a + b)[1..] == a[1..] + b;
      ProgramSplit(a[1..], b, addr + PieceSize(a[0]));
      ProgramBounds(b, addr + PiecesSize(a));
      ProgramBounds(a[1..], addr + PieceSize(a[0]));
    }
  }

  // ----- the image is valid source -----

  /** Pieces whose one-cell instructions are classic: an op directive never smuggles in a bare extension opcode. */
  predicate ClassicOnly(ps: seq<Piece>) {
    forall k :: 0 <= k < |ps| ==> ps[k].Code? && ps[k].instr.Classic? ==> ClassicOp(ps[k].instr.op)
  }

  lemma OpCharValid(i: Instr)
    requires i.Classic? ==> ClassicOp(i.op)
    ensures ValidOp(OpChar(i))
    ensures ExtensionOp(OpChar(i)) <==> !i.Classic?
    ensures FrameWords(OpChar(i)) == |FrameOf(i)|
    ensures i.Classic? ==> OpChar(i) == i.op
  {
  }

  lemma {:induction false} WordsValid(values: seq<int>, addr: nat)
    requires EncodeWords(values, addr).Some?
    ensures var cells := EncodeWords(values, addr).value;
            |cells| == |values| * ENC_WORD_CELLS && AllGraphic(cells) && ValidSource(cells, addr)
  {
    hide EncodeFrame, DecodeOp, ValidOp;
    if values != [] {
      EncodeFrameLeast(values[0], addr);
      WordsValid(values[1..], addr + ENC_WORD_CELLS);
      ValidJoin(EncodeFrame(values[0], addr).value, EncodeWords(values[1..], addr + ENC_WORD_CELLS).value, addr);
    }
  }

  lemma ValidJoin(a: seq<Word>, b: seq<Word>, addr: nat)
    requires AllGraphic(a) && ValidSource(a, addr) && AllGraphic(b) && ValidSource(b, addr + |a|)
    ensures AllGraphic(a + b) && ValidSource(a + b, addr)
  {
    hide DecodeOp, ValidOp;
    forall k | 0 <= k < |a + b|
      ensures Graphic((a + b)[k]) && ValidOp(DecodeOp((a + b)[k], addr + k))
    {
      if k >= |a| {
        assert (a + b)[k] == b[k - |a|];
        assert addr + k == addr + |a| + (k - |a|);
      }
    }
  }

  lemma {:induction false} FillerValid(n: nat, addr: nat)
    ensures AllGraphic(FillerCells(n, addr)) && ValidSource(FillerCells(n, addr), addr)
    ensures forall k :: 0 <= k < n ==> DecodeOp(FillerCells(n, addr)[k], addr + k) == 'o'
  {
    hide DecodeOp, FillerCell;
    if n > 0 {
      FillerValid(n - 1, addr + 1);
      var cells, rest := FillerCells(n, addr), FillerCells(n - 1, addr + 1);
      forall k | 0 <= k < n
        ensures Graphic(cells[k]) && DecodeOp(cells[k], addr + k) == 'o'
      {
        if k > 0 {
          assert cells[k] == rest[k - 1] && addr + k == addr + 1 + (k - 1);
        }
      }
    }
  }

  lemma PieceValid(p: Piece, addr: nat)
    requires EncodePiece(p, addr).Success? && (p.Code? && p.instr.Classic? ==> ClassicOp(p.instr.op))
    ensures var cells := EncodePiece(p, addr).value;
            |cells| == PieceSize(p) && AllGraphic(cells) && ValidSource(cells, addr)
            && (p.Code? ==> DecodeOp(cells[0], addr) == OpChar(p.instr))
  {
    hide EncodeWords, FillerCells, DecodeOp, EncodeOp, ValidOp, OpChar, FrameOf;
    EncodePieceLength(p, addr);
    match p
    case Filler(n) => FillerValid(n, addr);
    case Code(i) =>
      OpCharValid(i);
      WordsValid(FrameOf(i), addr + 1);
      var op := EncodeOp(OpChar(i), addr).value;
      ValidJoin([op], EncodeWords(FrameOf(i), addr + 1).value, addr);
  }

  lemma {:induction false} PiecesValid(ps: seq<Piece>, addr: nat)
    requires EncodePieces(ps, addr).Success? && ClassicOnly(ps)
    ensures var cells := EncodePieces(ps, addr).value;
            |cells| == PiecesSize(ps) && AllGraphic(cells) && ValidSource(cells, addr)
  {
    hide EncodePiece, DecodeOp, ValidOp;
    if ps != [] {
      PieceValid(ps[0], addr);
      PiecesValid(ps[1..], addr + PieceSize(ps[0]));
      ValidJoin(EncodePiece(ps[0], addr).value, EncodePieces(ps[1..], addr + PieceSize(ps[0])).value, addr);
    }
  }

  // ----- the lineage walk -----

  function ExtensionCells(prog: Program): set<nat> {
    set pc | pc in prog && !prog[pc].Classic?
  }

  lemma {:induction false} WalkFiller(cells: seq<Word>, pc: nat, n: nat)
    requires pc + n <= |cells| && forall k :: pc <= k < pc + n ==> DecodeOp(cells[k], k) == 'o'
    ensures Walk(cells, pc) == Walk(cells, pc + n)
    decreases n
  {
    hide DecodeOp;
    if n > 0 {
      WalkFiller(cells, pc + 1, n - 1);
    }
  }

  /** The first encoded piece is in the cells at pc, the others behind it. */
  lemma PiecesAhead(cells: seq<Word>, pc: nat, ps: seq<Piece>)
    requires ps != [] && EncodePieces(ps, pc).Success?
    requires pc + PiecesSize(ps) == |cells| && cells[pc..] == EncodePieces(ps, pc).value
    ensures EncodePiece(ps[0], pc).Success? && |EncodePiece(ps[0], pc).value| == PieceSize(ps[0])
    ensures cells[pc..pc + PieceSize(ps[0])] == EncodePiece(ps[0], pc).value
    ensures EncodePieces(ps[1..], pc + PieceSize(ps[0])) == Success(cells[pc + PieceSize(ps[0])..])
    ensures pc + PieceSize(ps[0]) + PiecesSize(ps[1..]) == |cells|
  {
    hide EncodePiece;
    var here := EncodePiece(ps[0], pc).value;
    EncodePieceLength(ps[0], pc);
    EncodePiecesLength(ps[1..], pc + PieceSize(ps[0]));
    assert cells[pc..pc + |here|] == cells[pc..][..|here|];
    assert cells[pc + |here|..] == cells[pc..][|here|..];
  }

  /** Walking over encoded pieces marks their extension opcodes and nothing else. */
  lemma {:induction false} WalkPieces(cells: seq<Word>, pc: nat, ps: seq<Piece>)
    requires EncodePieces(ps, pc).Success? && ClassicOnly(ps)
    requires pc + PiecesSize(ps) == |cells| && cells[pc..] == EncodePieces(ps, pc).value
    ensures Walk(cells, pc) == ExtensionCells(ProgramOf(ps, pc))
    decreases |ps|
  {
    hide EncodePiece, DecodeOp, FrameWords, ExtensionOp, OpChar, EncodePieces, ClassicOp;
    if ps != [] {
      var next := pc + PieceSize(ps[0]);
      PiecesAhead(cells, pc, ps);
      WalkPieces(cells, next, ps[1..]);
      if ps[0].Filler? {
        EncodeFiller(ps[0].count, pc);
        FillerInPlace(cells, pc, ps[0].count);
        WalkFiller(cells, pc, ps[0].count);
      } else {
        WalkCode(cells, pc, ps[0].instr);
        ProgramBounds(ps[1..], next);
      }
    }
  }

  /** The walk at an encoded instruction: it marks an extension opcode and jumps over its frame. */
  lemma WalkCode(cells: seq<Word>, pc: nat, i: Instr)
    requires EncodePiece(Code(i), pc).Success? && (i.Classic? ==> ClassicOp(i.op))
    requires pc + Size(i) <= |cells| && cells[pc..pc + Size(i)] == EncodePiece(Code(i), pc).value
    ensures Walk(cells, pc) == (if i.Classic? then {} else {pc}) + Walk(cells, pc + Size(i))
  {
    hide EncodePiece, DecodeOp, FrameWords, ExtensionOp, OpChar;
    var p := Code(i);
    PieceValid(p, pc);
    OpCharValid(i);
    assert cells[pc] == cells[pc..pc + Size(i)][0];
  }

  lemma EncodeFiller(n: nat, addr: nat)
    ensures EncodePiece(Filler(n), addr) == Success(FillerCells(n, addr))
  {
  }

  lemma FillerInPlace(cells: seq<Word>, pc: nat, n: nat)
    requires pc + n <= |cells| && cells[pc..pc + n] == FillerCells(n, pc)
    ensures forall k :: pc <= k < pc + n ==> DecodeOp(cells[k], k) == 'o'
  {
    hide DecodeOp, FillerCells;
    FillerValid(n, pc);
    forall k | pc <= k < pc + n
      ensures DecodeOp(cells[k], k) == 'o'
    {
      assert cells[k] == cells[pc..pc + n][k - pc];
      assert k == pc + (k - pc);
    }
  }

  // ----- instructions in memory -----

  lemma {:induction false} WordsReadBack(values: seq<int>, addr: nat, mem: seq<Word>, k: nat)
    requires EncodeWords(values, addr).Some? && |mem| == MEM_SIZE && k < |values|
    requires addr + |values| * ENC_WORD_CELLS <= MEM_SIZE
    requires mem[addr..addr + |values| * ENC_WORD_CELLS] == EncodeWords(values, addr).value
    ensures DecodeFrame(mem, addr + k * ENC_WORD_CELLS) == ModWord(values[k])
    decreases |values|
  {
    hide EncodeFrame, DecodeFrame, ModWord, SpellingOf;
    WordsAhead(values, addr, mem);
    if k == 0 {
      FirstReadsBack(values[0], addr, mem);
    } else {
      WordsReadBack(values[1..], addr + ENC_WORD_CELLS, mem, k - 1);
      assert addr + ENC_WORD_CELLS + (k - 1) * ENC_WORD_CELLS == addr + k * ENC_WORD_CELLS;
    }
  }

  lemma FirstReadsBack(value: int, addr: nat, mem: seq<Word>)
    requires |mem| == MEM_SIZE && addr + ENC_WORD_CELLS <= MEM_SIZE
    requires EncodeFrame(value, addr) == Some(mem[addr..addr + ENC_WORD_CELLS])
    ensures DecodeFrame(mem, addr) == ModWord(value)
  {
    hide EncodeFrame, DecodeFrame;
    EncodeFrameLeast(value, addr);
    DecodeSpelling(mem, addr, mem[addr..addr + ENC_WORD_CELLS], ModWord(value), addr);
  }

  lemma WordsAhead(values: seq<int>, addr: nat, mem: seq<Word>)
    requires values != [] && EncodeWords(values, addr).Some? && |mem| == MEM_SIZE
    requires addr + |values| * ENC_WORD_CELLS <= MEM_SIZE
    requires mem[addr..addr + |values| * ENC_WORD_CELLS] == EncodeWords(values, addr).value
    ensures EncodeFrame(values[0], addr) == Some(mem[addr..addr + ENC_WORD_CELLS])
    ensures EncodeWords(values[1..], addr + ENC_WORD_CELLS).Some?
    ensures var next := addr + ENC_WORD_CELLS;
            mem[next..next + |values[1..]| * ENC_WORD_CELLS] == EncodeWords(values[1..], next).value
  {
    hide EncodeFrame, SpellingOf;
    SpellingLength(values[0], addr);
    var first, next := EncodeFrame(values[0], addr).value, addr + ENC_WORD_CELLS;
    EncodeWordsLength(values[1..], next);
    var rest := EncodeWords(values[1..], next).value;
    var all := mem[addr..addr + |values| * ENC_WORD_CELLS];
    assert all == first + rest;
    assert mem[addr..next] == all[..ENC_WORD_CELLS];
    assert mem[next..next + |values[1..]| * ENC_WORD_CELLS] == all[ENC_WORD_CELLS..];
  }

  lemma CodeInMemory(i: Instr, addr: nat, v: State)
    requires v.Valid() && addr + Size(i) <= MEM_SIZE && (i.Classic? ==> ClassicOp(i.op))
    requires EncodePiece(Code(i), addr).Success? && v.mem[addr..addr + Size(i)] == EncodePiece(Code(i), addr).value
    requires SeedAt(v, addr, i)
    ensures InstalledAt(v, addr, i, false)
  {
    hide EncodeWords, DecodeOp, EncodeOp, OpChar, DecodeFrame, ModWord, FrameOf;
    PieceValid(Code(i), addr);
    var cells := EncodePiece(Code(i), addr).value;
    assert v.mem[addr] == v.mem[addr..addr + Size(i)][0] == cells[0];
    assert v.mem[addr + 1..addr + 1 + |FrameOf(i)| * ENC_WORD_CELLS] == cells[1..]
           == EncodeWords(FrameOf(i), addr + 1).value;
    forall k | 0 <= k < |FrameOf(i)|
      ensures DecodeFrame(v.mem, addr + 1 + k * ENC_WORD_CELLS) == ModWord(FrameOf(i)[k])
    {
      WordsReadBack(FrameOf(i), addr + 1, v.mem, k);
    }
    OpCharValid(i);
  }

  /** Extension opcodes are marked with the operation they decode to, classic ones are not marked. */
  ghost predicate Seeded(v: State, prog: Program)
    requires v.Valid()
  {
    forall x :: x in prog ==> x < MEM_SIZE && SeedAt(v, x, prog[x])
  }

  ghost predicate SeedAt(v: State, x: nat, i: Instr)
    requires v.Valid() && x < MEM_SIZE
  {
    if i.Classic? then v.seed[x] == '\0'
    else v.seed[x] == DecodeOp(v.mem[x], x) && v.expected[x] == v.mem[x]
  }

  /** Every instruction of the program stands in memory, encoded, with its lineage mark. */
  lemma {:induction false} PiecesInMemory(ps: seq<Piece>, addr: nat, v: State, pc: nat)
    requires v.Valid() && ClassicOnly(ps) && EncodePieces(ps, addr).Success? && addr + PiecesSize(ps) <= MEM_SIZE
    requires v.mem[addr..addr + PiecesSize(ps)] == EncodePieces(ps, addr).value
    requires Seeded(v, ProgramOf(ps, addr))
    requires pc in ProgramOf(ps, addr)
    ensures pc + Size(ProgramOf(ps, addr)[pc]) <= MEM_SIZE && InstalledAt(v, pc, ProgramOf(ps, addr)[pc], false)
    decreases |ps|
  {
    hide EncodePiece, DecodeOp, InstalledAt, SeedAt, EncodePieces, ClassicOp;
    var p, next := ps[0], addr + PieceSize(ps[0]);
    var cells := v.mem[..addr + PiecesSize(ps)];
    assert cells[addr..] == v.mem[addr..addr + PiecesSize(ps)];
    PiecesAhead(cells, addr, ps);
    ProgramBounds(ps[1..], next);
    if p.Code? && pc == addr {
      assert v.mem[addr..next] == cells[addr..next];
      assert SeedAt(v, addr, p.instr);
      CodeInMemory(p.instr, addr, v);
    } else {
      assert v.mem[next..next + PiecesSize(ps[1..])] == cells[next..];
      forall x | x in ProgramOf(ps[1..], next)
        ensures x < MEM_SIZE && SeedAt(v, x, ProgramOf(ps[1..], next)[x])
      {
        assert x in ProgramOf(ps, addr) && ProgramOf(ps, addr)[x] == ProgramOf(ps[1..], next)[x];
      }
      PiecesInMemory(ps[1..], next, v, pc);
    }
  }

  // ----- the booted machine -----

  /** Right after loading: image in place, lineage marked, registers zero; cells behind the image hold anything. */
  ghost predicate Booted(v: State, cells: seq<Word>) {
    v.Valid() && |cells| <= MEM_SIZE && v.mem[..|cells|] == cells && Marked(v.seed, v.expected, cells)
    && v.A == 0 && v.C == 0 && v.D == 0 && !v.halted && v.exitCode == 0 && !v.lastError && v.output == []
    && v.calls == []
  }

  /** The assembly machine at the same point. */
  function SourceBoot(v: State): Src {
    Src(v.mem, 0, 0, 0, false, 0, false, v.input, [], [], {}, {})
  }

  lemma SeedsMatch(ps: seq<Piece>, v: State, cells: seq<Word>, x: nat)
    requires EncodePieces(ps, 0) == Success(cells) && ClassicOnly(ps) && Booted(v, cells)
    requires x in ProgramOf(ps, 0)
    ensures x < |cells|
    ensures SeedAt(v, x, ProgramOf(ps, 0)[x])
  {
    hide DecodeOp;
    EncodePiecesLength(ps, 0);
    ProgramBounds(ps, 0);
    WalkPieces(cells, 0, ps);
    assert v.mem[x] == v.mem[..|cells|][x] == cells[x];
    assert x in Walk(cells, 0) <==> x in ExtensionCells(ProgramOf(ps, 0));
  }

  lemma BootSim(ps: seq<Piece>, v: State, cells: seq<Word>)
    requires EncodePieces(ps, 0) == Success(cells) && ClassicOnly(ps) && Booted(v, cells)
    ensures Sim(ProgramOf(ps, 0), SourceBoot(v), v)
  {
    hide InstalledAt, DecodeOp, Marked, EncodePieces, SeedAt;
    EncodePiecesLength(ps, 0);
    ProgramPlaced(ps, 0);
    var prog := ProgramOf(ps, 0);
    assert v.mem[0..0 + PiecesSize(ps)] == cells;
    forall x | x in prog
      ensures x < MEM_SIZE && SeedAt(v, x, prog[x])
    {
      SeedsMatch(ps, v, cells, x);
    }
    forall pc | pc in prog && CleanSpan(pc, Size(prog[pc]), {})
      ensures InstalledAt(v, pc, prog[pc], false)
    {
      PiecesInMemory(ps, 0, v, pc);
    }
  }
}
