/**
 The whole toolchain: source to image, image to text, text to booted machine,
 machine to run; and the crazyinc macro inside an assembled program.
 */
module Delivery {
  import opened Words
  import opened Glyphs
  import opened Frames
  import opened Machine
  import opened Loader
  import opened Arguments
  import opened Runtime
  import opened Source
  import opened Planner
  import opened Straight
  import opened Ritual
  import opened Ceremony
  import opened Assembly
  import opened Agreement
  import opened Compiler
  import opened Startup
  import opened Meaning

  // ----- classic operations only -----

  /** Op directives name classic operations. */
  predicate ClassicSource(entries: seq<Entry>) {
    forall k :: 0 <= k < |entries| ==> entries[k].item.IOp? ==> ClassicOp(entries[k].item.op)
  }

  predicate OpOk(i: Instr) {
    i.Classic? ==> ClassicOp(i.op)
  }

  lemma PlanOpOk(r: Request, i: nat)
    requires PlanEntry(r).Ok? && i < |PlanEntry(r).plan.ops|
    ensures OpOk(PlanEntry(r).plan.ops[i])
  {
    hide PlanEntry, WellLaid, TrackAt, StartOf;
    PlannedWell(r);
    var p := PlanEntry(r).plan;
    if i < RitualIndex(p) {
      PlanSetup(p, r.startA, i);
    } else {
      PlanRitualOp(p, r.startA, i);
    }
  }

  lemma PlanClassicOnly(r: Request)
    requires PlanEntry(r).Ok?
    ensures ClassicOnly(Codes(PlanEntry(r).plan.ops))
  {
    hide PlanEntry, ClassicOp;
    var ops := PlanEntry(r).plan.ops;
    forall k | 0 <= k < |ops|
      ensures OpOk(ops[k])
    {
      PlanOpOk(r, k);
    }
  }

  lemma EmitClassicOnly(it: Located, labels: Labels, base: nat)
    requires PlanFits(it, base) && (it.item.IOp? ==> ClassicOp(it.item.op)) && EmitItem(it, labels, base).Success?
    ensures ClassicOnly(EmitItem(it, labels, base).value.pieces)
  {
    hide PlanEntry, ClassicOp;
    match it.item
    case ICrazyInc(value) =>
      PlanClassicOnly(MacroRequest(value, it.plan.value.dEntry, base + it.address, None));
    case ICrazyIncCell(target, value) =>
      var v := Eval(target, labels).value;
      PlanClassicOnly(MacroRequest(value, it.plan.value.dEntry, base + it.address, Some(ModWord(v))));
    case _ =>
  }

  lemma {:induction false} AssembleClassicOnly(items: seq<Located>, ticks: nat, labels: Labels, base: nat, p: Program0)
    requires InStep(items, |p.cells|, ticks, base) && ClassicOnly(p.pieces)
    requires forall k :: 0 <= k < |items| ==> items[k].item.IOp? ==> ClassicOp(items[k].item.op)
    requires AssembleFrom(items, labels, base, p).Success?
    ensures ClassicOnly(AssembleFrom(items, labels, base, p).value.pieces)
    decreases |items|
  {
    hide EmitItem, EncodePieces, PlanFits, PlanTimed, ClassicOp;
    if items != [] {
      var e := EmitItem(items[0], labels, base).value;
      var cells := EncodePieces(e.pieces, base + |p.cells|).value;
      EmitClassicOnly(items[0], labels, base);
      EmitSize(items[0], labels, base);
      EncodePiecesLength(e.pieces, base + |p.cells|);
      AssembleClassicOnly(items[1..], ticks + LocatedTicks(items[0]), labels, base,
                          Program0(p.cells + cells, p.pieces + e.pieces, p.inits + e.inits));
    }
  }

  lemma {:induction false} MatClassicOnly(inits: seq<(nat, Word)>, start: int)
    ensures ClassicOnly(MatPieces(inits, start))
  {
    if inits != [] {
      MatClassicOnly(inits[1..], start);
    }
  }

  lemma ImageClassicOnly(entries: seq<Entry>, trailing: seq<string>)
    requires LayOutSource(entries, trailing).Success? && ClassicSource(entries)
    requires AssembleGlyph(LayOutSource(entries, trailing).value).Success?
    ensures ClassicOnly(AssembleGlyph(LayOutSource(entries, trailing).value).value.pieces)
  {
    hide InStep, EncodePieces, LayOutSource, CountInitializers, AssembleFrom, ClassicOp;
    var layout := LayOutSource(entries, trailing).value;
    LayoutInStep(entries, trailing);
    var image := AssembleGlyph(layout).value;
    forall k | 0 <= k < |layout.items|
      ensures layout.items[k].item.IOp? ==> ClassicOp(layout.items[k].item.op)
    {
      assert Mapped(layout.items, PlacedItem)[k] == Mapped(entries, EntryItem)[k];
    }
    AssembleClassicOnly(layout.items, MatTicks(CountInitializers(Mapped(entries, EntryItem))), image.labels,
                        image.prefix, Program0([], [], []));
    MatClassicOnly(image.inits, image.start);
  }

  // ----- printing, loading, marking -----

  /**
   The printed image loads back cell for cell, and the lineage walk over it
   marks exactly the opcodes of the program's framed instructions: never a
   frame cell, a filler cell or a classic opcode.
   */
  lemma PrintLoadMark(image: Image)
    requires GoodImage(image) && ClassicOnly(image.pieces)
    ensures AllGraphic(image.cells) && LoadCells(WrapGlyphs(image.cells)) == Some(image.cells)
    ensures Walk(image.cells, 0) == ExtensionCells(ProgramOf(image.pieces, 0))
  {
    hide EncodePiece, DecodeOp, ValidOp, Walk, ProgramOf, MatPieces, Parse, NotCode;
    PiecesValid(image.pieces, 0);
    PrintLoadRoundTrip(image.cells);
    assert image.cells[0..] == image.cells;
    WalkPieces(image.cells, 0, image.pieces);
  }

  /**
   A machine ready to run: `memory` is what loading left, the lineage marks are those of the
   image, the arguments are in.
   */
  ghost predicate Started(v: State, memory: seq<Word>, cells: seq<Word>, argv: Arguments) {
    v.Valid() && |memory| == MEM_SIZE && |cells| <= MEM_SIZE && memory[..|cells|] == cells
    && v.mem == Installed(memory, argv) && Marked(v.seed, v.expected, cells)
    && v.A == 0 && v.C == 0 && v.D == 0 && !v.halted && v.exitCode == 0 && !v.lastError && v.output == []
    && v.calls == []
  }

  /** Load a text, mark lineage, install the arguments: the way a run begins. */
  method Boot(text: string, stdin: seq<Byte>, argv: Arguments) returns (vm: VM, loaded: bool, ghost memory: seq<Word>)
    ensures vm.Valid() && fresh(vm) && fresh(vm.mem) && fresh(vm.seedOp) && fresh(vm.expected)
    ensures loaded <==> LoadCells(text).Some?
    ensures loaded ==>
              var cells := LoadCells(text).value;
              Started(vm.Abs(), memory, cells, argv) && vm.Abs().input == stdin
              && TailFilled(memory, |cells|) && (Booted(vm.Abs(), cells) <==> |cells| <= ABI_ARGC)
  {
    vm := new VM(stdin);
    var n := vm.LoadGlyphImage(text);
    loaded := n != -1;
    memory := vm.mem[..];
    if loaded {
      vm.PrepareLineage(n);
      memory := vm.mem[..];
      vm.InstallArguments(argv);
      LoadedIsValid(text);
      assert memory[..n] == LoadCells(text).value;
      BootedExactly(vm.Abs(), memory, LoadCells(text).value, argv);
    }
  }

  /** The image survives the installation of the arguments exactly when it ends below the argument block. */
  lemma BootedExactly(v: State, memory: seq<Word>, cells: seq<Word>, argv: Arguments)
    requires Started(v, memory, cells, argv) && AllGraphic(cells)
    ensures Booted(v, cells) <==> |cells| <= ABI_ARGC
  {
    hide Installed, Marked;
    InstalledFrame(memory, argv);
    if |cells| <= ABI_ARGC {
      forall x | 0 <= x < |cells|
        ensures v.mem[x] == cells[x]
      {
        assert v.mem[x] == memory[x] == memory[..|cells|][x];
      }
      assert v.mem[..|cells|] == cells;
    } else {
      assert v.mem[..|cells|][ABI_ARGC] == v.mem[ABI_ARGC];
    }
  }

  /** A text the loader accepts whose image does not survive: 58001 no-op glyphs. */
  lemma TooLongByOne(v: State, memory: seq<Word>, argv: Arguments)
    ensures var cells := FillerCells(ABI_ARGC + 1, 0);
            AllGraphic(cells) && LoadCells(WrapGlyphs(cells)) == Some(cells)
            && (Started(v, memory, cells, argv) ==> !Booted(v, cells))
  {
    hide FillerCells, Started, Booted, LoadCells, WrapGlyphs;
    var cells := FillerCells(ABI_ARGC + 1, 0);
    FillerValid(ABI_ARGC + 1, 0);
    PrintLoadRoundTrip(cells);
    if Started(v, memory, cells, argv) {
      BootedExactly(v, memory, cells, argv);
    }
  }

  // ----- lineage from the start -----

  /** After loading, every marked cell the arguments did not hit is in lineage: the base case. */
  lemma LineageAtStart(v: State, memory: seq<Word>, cells: seq<Word>, argv: Arguments)
    requires Started(v, memory, cells, argv)
    ensures LineageOk(v, ArgumentCells(argv))
    ensures forall x: Word :: x in Walk(cells, 0) ==> x < |cells| && v.seed[x] == DecodeOp(cells[x], x) != '\0'
    ensures forall x: Word :: x !in Walk(cells, 0) ==> v.seed[x] == '\0'
  {
    hide Installed, DecodeOp, ExtensionOp;
    InstalledFrame(memory, argv);
    WalkAhead(cells, 0);
    forall x: Word
      ensures x in Walk(cells, 0) ==>
              v.seed[x] == DecodeOp(cells[x], x) != '\0' && memory[x] == cells[x] && Graphic(cells[x])
    {
      if x in Walk(cells, 0) {
        assert memory[..|cells|][x] == memory[x];
        MarkedGraphic(cells[x], x);
      }
    }
  }

  lemma MarkedGraphic(cell: Word, x: nat)
    requires ExtensionOp(DecodeOp(cell, x))
    ensures Graphic(cell) && DecodeOp(cell, x) != '\0'
  {
  }

  /**
   Lineage in every reachable state, images of every accepted size: a cell the
   loader marked that neither the arguments nor a data write have hit is
   printable, holds what the table expects and still dispatches as the
   operation its glyph had at load time, however often it was executed.
   */
  lemma LineageFromStart(v: State, memory: seq<Word>, cells: seq<Word>, argv: Arguments, script: Script, n: nat,
                         x: Word)
    requires v.Valid() && Started(v, memory, cells, argv)
    requires x in Walk(cells, 0) && x !in ArgumentCells(argv) && x !in Touched(v, script, n)
    ensures var u := Run(v, script, n);
            Graphic(u.mem[x]) && u.expected[x] == u.mem[x] && x < |cells| && EffectiveOp(u, x) == DecodeOp(cells[x], x)
  {
    hide DecodeOp, Touched, Run, Started, EffectiveOp, Walk, Marked;
    LineageAtStart(v, memory, cells, argv);
    LineageForever(v, script, n, ArgumentCells(argv));
    WalkAhead(cells, 0);
  }

  // ----- source to machine -----

  /**
   Everything composed.  Assemble a source whose op directives are classic and
   whose image stays below the argument block, print it, load it back, boot:
   any n steps of the plain program are n steps of the machine after startup.
   */
  lemma SourceToMachine(entries: seq<Entry>, trailing: seq<string>, v: State, script: Script, n: nat)
    requires LayOutSource(entries, trailing).Success? && ClassicSource(entries)
    requires AssembleGlyph(LayOutSource(entries, trailing).value).Success?
    requires var image := AssembleGlyph(LayOutSource(entries, trailing).value).value;
             v.Valid() && AllGraphic(image.cells) && LoadCells(WrapGlyphs(image.cells)).Some?
             && Booted(v, LoadCells(WrapGlyphs(image.cells)).value)
    ensures var image := AssembleGlyph(LayOutSource(entries, trailing).value).value;
            (forall k :: 0 <= k < |image.inits| ==> image.inits[k].0 < MEM_SIZE)
            && var prog := ProgramOf(image.pieces, 0);
               var t := PlainRun(prog, PlainStart(image, v), script, n);
               t.Some? ==>
                 var u := Run(v, script, MatTicks(|image.inits|) + n);
                 SameRegisters(t.value, u)
                 && forall x: Word :: NotCode(prog, x) ==> u.mem[x] == t.value.mem[x]
  {
    hide GoodImage, Booted, ProgramOf, AssembleGlyph, LayOutSource, PlainRun, ClassicOnly, LoadCells, WrapGlyphs,
         SameRegisters, NotCode, Run, ClassicSource, Walk;
    var image := AssembleGlyph(LayOutSource(entries, trailing).value).value;
    ImageIsGood(entries, trailing);
    ImageClassicOnly(entries, trailing);
    PrintLoadMark(image);
    InitsInMemory(image);
    if PlainRun(ProgramOf(image.pieces, 0), PlainStart(image, v), script, n).Some? {
      CompilerCorrect(image, v, script, n);
    }
  }

  /**
   From source lines.  If they assemble, the printed image loads back cell for
   cell, and unless it reaches into the argument block the started machine
   runs, after startup, as the plain program of the lines.
   */
  lemma LinesToMachine(lines: seq<Line>, trailing: seq<string>, image: Image, memory: seq<Word>, argv: Arguments,
                       v: State, script: Script, n: nat)
    requires Assemble(lines, trailing) == Success(image) && ClassicSource(Entries(lines))
    requires v.Valid() && Started(v, memory, image.cells, argv) && |image.cells| <= ABI_ARGC
    ensures AllGraphic(image.cells) && LoadCells(WrapGlyphs(image.cells)) == Some(image.cells)
    ensures forall k :: 0 <= k < |image.inits| ==> image.inits[k].0 < MEM_SIZE
    ensures var prog := ProgramOf(image.pieces, 0);
            var t := PlainRun(prog, PlainStart(image, v), script, n);
            t.Some? ==>
              var u := Run(v, script, MatTicks(|image.inits|) + n);
              SameRegisters(t.value, u)
              && forall x: Word :: NotCode(prog, x) ==> u.mem[x] == t.value.mem[x]
  {
    hide GoodImage, Booted, Started, ProgramOf, AssembleGlyph, LayOutSource, PlainRun, ClassicOnly, LoadCells,
         WrapGlyphs, SameRegisters, NotCode, Run, ClassicSource, Walk, Entries;
    ImageIsGood(Entries(lines), trailing);
    ImageClassicOnly(Entries(lines), trailing);
    PrintLoadMark(image);
    BootedExactly(v, memory, image.cells, argv);
    SourceToMachine(Entries(lines), trailing, v, script, n);
  }

  // ----- items in the program -----

  lemma {:induction false} CodesPlaced(ops: seq<Instr>, base: nat, i: nat)
    requires i < |ops|
    ensures Cell(ops, base, i) in ProgramOf(Codes(ops), base)
            && ProgramOf(Codes(ops), base)[Cell(ops, base, i)] == ops[i]
    decreases i
  {
    hide Size;
    var tail := ops[1..];
    assert Codes(ops)[1..] == Codes(tail);
    ProgramBounds(Codes(tail), base + Size(ops[0]));
    CellIncreases(ops, base, 0, i);
    if i > 0 {
      CodesPlaced(tail, base + Size(ops[0]), i - 1);
      CellTail(ops, base, i);
    }
  }

  lemma {:induction false} CellTail(ops: seq<Instr>, base: nat, i: nat)
    requires 0 < i <= |ops|
    ensures Cell(ops, base, i) == Cell(ops[1..], base + Size(ops[0]), i - 1)
    decreases i
  {
    hide Size;
    if i > 1 {
      CellTail(ops, base, i - 1);
    }
  }

  /** The assembled pieces around item k's: those before it end at its planned address. */
  lemma {:induction false} ItemPieces(items: seq<Located>, ticks: nat, labels: Labels, base: nat, p: Program0, k: nat,
                                      e: Emission)
    returns (before: seq<Piece>, behind: seq<Piece>)
    requires InStep(items, |p.cells|, ticks, base) && |p.cells| == PiecesSize(p.pieces) && k < |items|
    requires AssembleFrom(items, labels, base, p).Success?
    requires EmitItem(items[k], labels, base) == Success(e)
    ensures AssembleFrom(items, labels, base, p).value.pieces == before + e.pieces + behind
    ensures PiecesSize(before) == items[k].address
    decreases |items|
  {
    hide EmitItem, EncodePieces, PlanFits, PlanTimed;
    var first := EmitItem(items[0], labels, base).value;
    var cells := EncodePieces(first.pieces, base + |p.cells|).value;
    var p1 := Program0(p.cells + cells, p.pieces + first.pieces, p.inits + first.inits);
    EmitSize(items[0], labels, base);
    EncodePiecesLength(first.pieces, base + |p.cells|);
    PiecesSizeSplit(p.pieces, first.pieces);
    if k > 0 {
      before, behind := ItemPieces(items[1..], ticks + LocatedTicks(items[0]), labels, base, p1, k - 1, e);
    } else {
      AssembleInStep(items[1..], ticks + LocatedTicks(items[0]), labels, base, p1);
      before, behind := p.pieces, AssembleFrom(items, labels, base, p).value.pieces[|p1.pieces|..];
    }
  }

  lemma ImageParts(layout: Layout)
    requires AssembleGlyph(layout).Success?
    ensures var image := AssembleGlyph(layout).value;
            var program := AssembleFrom(layout.items, image.labels, image.prefix, Program0([], [], []));
            program.Success?
            && image.pieces == MatPieces(image.inits, image.start) + program.value.pieces
            && image.inits == program.value.inits
            && image.labels == FinalLabels(layout.labels, image.prefix)
            && image.prefix == MatCells(CountInitializers(Mapped(layout.items, PlacedItem)))
  {
    hide EncodePieces, AssembleFrom, MatPieces, CountInitializers;
  }

  lemma NothingYet()
    ensures PiecesSize([]) == 0
  {
  }

  lemma GoodPrefix(image: Image)
    requires GoodImage(image)
    ensures image.prefix == MatCells(|image.inits|)
  {
  }

  /** The image's pieces around item k's. */
  lemma ImagePieces(layout: Layout, image: Image, ticks: nat, k: nat, e: Emission)
    returns (before: seq<Piece>, behind: seq<Piece>)
    requires AssembleGlyph(layout) == Success(image) && GoodImage(image)
    requires InStep(layout.items, 0, ticks, image.prefix)
    requires k < |layout.items| && EmitItem(layout.items[k], image.labels, image.prefix) == Success(e)
    ensures image.pieces == before + e.pieces + behind && PiecesSize(before) == image.prefix + layout.items[k].address
  {
    hide InStep, AssembleFrom, EmitItem, AssembleGlyph, MatPieces, PiecesSize, GoodImage, FinalLabels, MatCells;
    ImageParts(layout);
    NothingYet();
    before, behind := ItemPieces(layout.items, ticks, image.labels, image.prefix, Program0([], [], []), k, e);
    GoodPrefix(image);
    MatPiecesSize(image.inits, image.start);
    PiecesSizeSplit(MatPieces(image.inits, image.start), before);
    before := MatPieces(image.inits, image.start) + before;
  }

  /** Item k's instructions are in the image's program at prefix plus planned address. */
  lemma ItemInImage(layout: Layout, image: Image, ticks: nat, k: nat, e: Emission, pc: nat)
    requires AssembleGlyph(layout) == Success(image) && GoodImage(image)
    requires InStep(layout.items, 0, ticks, image.prefix)
    requires k < |layout.items| && EmitItem(layout.items[k], image.labels, image.prefix) == Success(e)
    requires pc in ProgramOf(e.pieces, image.prefix + layout.items[k].address)
    ensures pc in ProgramOf(image.pieces, 0)
    ensures ProgramOf(image.pieces, 0)[pc] == ProgramOf(e.pieces, image.prefix + layout.items[k].address)[pc]
  {
    hide InStep, ProgramOf, EmitItem, AssembleGlyph, PiecesSize, GoodImage;
    var before, behind := ImagePieces(layout, image, ticks, k, e);
    ProgramSplit(before + e.pieces, behind, 0);
    ProgramSplit(before, e.pieces, 0);
  }

  /** No instruction reaches into an item that emits only filler. */
  lemma FillerOffCode(layout: Layout, image: Image, ticks: nat, k: nat, e: Emission, x: nat)
    requires AssembleGlyph(layout) == Success(image) && GoodImage(image)
    requires InStep(layout.items, 0, ticks, image.prefix)
    requires k < |layout.items| && EmitItem(layout.items[k], image.labels, image.prefix) == Success(e)
    requires forall p :: p in e.pieces ==> p.Filler?
    requires var at := image.prefix + layout.items[k].address; at <= x < at + PiecesSize(e.pieces)
    ensures NotCode(ProgramOf(image.pieces, 0), x) && x < MEM_SIZE
  {
    hide InStep, ProgramOf, EmitItem, AssembleGlyph, PiecesSize, GoodImage;
    var before, behind := ImagePieces(layout, image, ticks, k, e);
    PiecesSizeSplit(before, e.pieces);
    PiecesSizeSplit(before + e.pieces, behind);
    ProgramSplit(before + e.pieces, behind, 0);
    ProgramSplit(before, e.pieces, 0);
    ProgramBounds(before, 0);
    ProgramBounds(behind, PiecesSize(before + e.pieces));
    FillerHasNoCode(e.pieces, PiecesSize(before));
    GoodSize(image);
  }

  /** What layout and assembly settle about each other, for an image made from a source. */
  lemma LayoutPrefix(entries: seq<Entry>, trailing: seq<string>, layout: Layout, image: Image)
    requires LayOutSource(entries, trailing) == Success(layout) && AssembleGlyph(layout) == Success(image)
    ensures GoodImage(image) && image.prefix == MatCells(CountInitializers(Mapped(entries, EntryItem)))
    ensures Mapped(layout.items, PlacedItem) == Mapped(entries, EntryItem)
    ensures InStep(layout.items, 0, MatTicks(CountInitializers(Mapped(entries, EntryItem))), image.prefix)
    ensures |image.inits| == CountInitializers(Mapped(entries, EntryItem))
  {
    hide InStep, LayOutSource, AssembleGlyph, GoodImage, CountInitializers, EmittedAt, MatCells, MatTicks, AssembleFrom,
         MatPieces, FinalLabels, Mapped;
    LayoutInStep(entries, trailing);
    ImageIsGood(entries, trailing);
    ImageParts(layout);
    GoodPrefix(image);
    MatCellsApart(|image.inits|, CountInitializers(Mapped(entries, EntryItem)));
  }

  lemma MatCellsApart(a: nat, b: nat)
    ensures MatCells(a) == MatCells(b) ==> a == b
  {
  }

  // ----- data -----

  /** Whatever item k wants initialised is among the startup pairs. */
  lemma {:induction false} ItemPairs(items: seq<Located>, ticks: nat, labels: Labels, base: nat, p: Program0, k: nat,
                                     e: Emission, i: nat)
    requires InStep(items, |p.cells|, ticks, base) && k < |items|
    requires AssembleFrom(items, labels, base, p).Success?
    requires EmitItem(items[k], labels, base) == Success(e) && i < |e.inits|
    ensures e.inits[i] in AssembleFrom(items, labels, base, p).value.inits
    decreases |items|
  {
    hide EmitItem, EncodePieces, PlanFits, PlanTimed;
    var first := EmitItem(items[0], labels, base).value;
    var cells := EncodePieces(first.pieces, base + |p.cells|).value;
    var p1 := Program0(p.cells + cells, p.pieces + first.pieces, p.inits + first.inits);
    EmitSize(items[0], labels, base);
    EncodePiecesLength(first.pieces, base + |p.cells|);
    if k > 0 {
      ItemPairs(items[1..], ticks + LocatedTicks(items[0]), labels, base, p1, k - 1, e, i);
    } else {
      AssembleInStep(items[1..], ticks + LocatedTicks(items[0]), labels, base, p1);
      assert p1.inits[|p.inits| + i] == e.inits[i];
      assert p1.inits <= AssembleFrom(items, labels, base, p).value.inits;
    }
  }

  /** The values a data item declares, where its operands resolve. */
  function Declared(item: Item, labels: Labels): Option<seq<int>> {
    match item
    case IAscii(bytes) => Some(bytes)
    case ICString(bytes) => Some(bytes + [0])
    case IWord(args) => EvalAll(args, labels)
    case IPtr(args) => EvalAll(args, labels)
    case IPtrV(args) =>
      (match EvalAll(args, labels)
       case Some(vs) => Some(vs + [0])
       case None => None)
    case _ => None
  }

  lemma DeclaredPairs(it: Located, labels: Labels, base: nat, e: Emission, i: nat)
    requires EmitItem(it, labels, base) == Success(e)
    requires Declared(it.item, labels).Some? && i < |Declared(it.item, labels).value|
    ensures i < |e.inits| && e.inits[i] == (base + it.address + i, ModWord(Declared(it.item, labels).value[i]))
  {
    hide PlanEntry, EvalAll, ModWord;
  }

  /** After startup, cell i of a data item holds the item's i-th declared value. */
  lemma DataDelivered(entries: seq<Entry>, trailing: seq<string>, layout: Layout, image: Image, v: State,
                      script: Script, k: nat, i: nat)
    requires LayOutSource(entries, trailing) == Success(layout) && AssembleGlyph(layout) == Success(image)
    requires ClassicSource(entries) && v.Valid() && Booted(v, image.cells) && k < |layout.items|
    requires Declared(layout.items[k].item, image.labels).Some?
             && i < |Declared(layout.items[k].item, image.labels).value|
    ensures var at := image.prefix + layout.items[k].address + i;
            at < MEM_SIZE
            && Run(v, script, 2 * |image.inits| + 1).mem[at]
               == ModWord(Declared(layout.items[k].item, image.labels).value[i])
  {
    hide InStep, AssembleFrom, ProgramOf, EmitItem, AssembleGlyph, LayOutSource, MatPieces, PiecesSize, GoodImage,
         FinalLabels, MatCells, MatTicks, Declared, Booted, ClassicSource, ClassicOnly, Run, CountInitializers,
         Ascending;
    LayoutPrefix(entries, trailing, layout, image);
    ImageParts(layout);
    ImageClassicOnly(entries, trailing);
    EmittedOk(entries, trailing, layout, image, k);
    var e := EmitItem(layout.items[k], image.labels, image.prefix).value;
    DeclaredPairs(layout.items[k], image.labels, image.prefix, e, i);
    ItemPairs(layout.items, MatTicks(CountInitializers(Mapped(entries, EntryItem))), image.labels, image.prefix,
              Program0([], [], []), k, e, i);
    MaterializerCorrect(image, v, script);
    GoodSize(image);
    var j :| 0 <= j < |image.inits| && image.inits[j] == e.inits[i];
  }

  lemma GoodSize(image: Image)
    requires GoodImage(image)
    ensures |image.cells| == PiecesSize(image.pieces) <= MEM_SIZE
  {
  }

  lemma EmittedOk(entries: seq<Entry>, trailing: seq<string>, layout: Layout, image: Image, k: nat)
    requires LayOutSource(entries, trailing) == Success(layout) && AssembleGlyph(layout) == Success(image)
             && k < |layout.items|
    ensures EmitItem(layout.items[k], image.labels, image.prefix).Success?
  {
    hide LayOutSource, AssembleGlyph, EmitItem, EncodePieces, CountInitializers, MatPieces, MatCells;
    LayoutAgreement(entries, trailing);
    assert EmittedAt(layout.items, image.labels, image.prefix, image.cells[image.prefix..], k);
  }

  /** Items whose cells hold no instructions. */
  predicate IsData(item: Item) {
    item.IZero? || item.IWord? || item.IPtr? || item.IPtrV? || item.IAscii? || item.ICString?
  }

  lemma DataIsFiller(it: Located, labels: Labels, base: nat, e: Emission)
    requires IsData(it.item) && PlanFits(it, base) && EmitItem(it, labels, base) == Success(e)
    ensures (forall p :: p in e.pieces ==> p.Filler?) && PiecesSize(e.pieces) == ItemSize(it.item)
  {
    hide PlanEntry, EvalAll;
    EmitSize(it, labels, base);
  }

  /** The buffer a data item reserves: in memory, behind the startup code, never executed. */
  lemma BufferIsData(entries: seq<Entry>, trailing: seq<string>, layout: Layout, image: Image, z: nat, x: nat)
    requires LayOutSource(entries, trailing) == Success(layout) && AssembleGlyph(layout) == Success(image)
    requires z < |layout.items| && IsData(layout.items[z].item)
    requires var at := image.prefix + layout.items[z].address; at <= x < at + ItemSize(layout.items[z].item)
    ensures NotCode(ProgramOf(image.pieces, 0), x) && 0 < image.prefix && x < MEM_SIZE
  {
    hide InStep, LayOutSource, AssembleGlyph, GoodImage, CountInitializers, EmitItem, ProgramOf, LayoutSize, MatTicks,
         PlanFits, NotCode;
    LayoutPrefix(entries, trailing, layout, image);
    var ticks := MatTicks(CountInitializers(Mapped(entries, EntryItem)));
    InStepAt(layout.items, 0, ticks, image.prefix, z);
    EmittedOk(entries, trailing, layout, image, z);
    var e := EmitItem(layout.items[z], image.labels, image.prefix).value;
    DataIsFiller(layout.items[z], image.labels, image.prefix, e);
    FillerOffCode(layout, image, ticks, z, e, x);
  }
}
