/**
 Two scrolls around one live-cell macro.  The documented one puts its data in
 front of `start` and is seven ticks late; the shipped demo starts with the
 macro, is on time, and prints OK.
 */
module Scrolls {
  import opened Words
  import opened Glyphs
  import opened Frames
  import opened Machine
  import opened Source
  import opened Straight
  import opened Ceremony
  import opened Assembly
  import opened Agreement
  import opened Compiler
  import opened Startup
  import opened Meaning
  import opened Delivery
  import opened Crossing
  import opened Invocation
  import opened Planner
  import opened Shipped
  import opened Acceptance

  function LiveMacro(labels: seq<string>): Entry {
    Entry(labels, ICrazyIncCell(Label("live_cell"), 58017))
  }

  function WordEntry(labels: seq<string>, value: int): Entry {
    Entry(labels, IWord([Num(value)]))
  }

  /** The example of the machine's specification: the live cell and six neighbours, then the macro at `start`. */
  function Documented(): seq<Entry> {
    [WordEntry(["live_cell"], 58017), WordEntry([], 0), WordEntry([], 0), WordEntry([], 0),
     WordEntry([], 0), WordEntry([], 0), WordEntry([], 0), LiveMacro(["start"])]
  }

  /** The shipped demo: the macro at `start`, then the live cell and its neighbours. */
  function Demo(): seq<Entry> {
    [LiveMacro(["start"]), WordEntry(["live_cell"], 58017),
     Entry(["neighbors"], IWord([Num(0), Num(0), Num(0), Num(0), Num(0), Num(0)]))]
  }

  // ----- counting -----

  lemma {:induction false} OneEach(items: seq<Item>, n: nat)
    requires n <= |items| && (forall i :: 0 <= i < n ==> ItemInits(items[i]) == 1)
             && (forall i :: n <= i < |items| ==> ItemInits(items[i]) == 0)
    ensures CountInitializers(items) == n
    decreases |items|
  {
    if items != [] {
      OneEach(items[1..], if n == 0 then 0 else n - 1);
    }
  }

  lemma {:induction false} TickEach(items: seq<Located>)
    requires forall i :: 0 <= i < |items| ==> LocatedTicks(items[i]) == 1
    ensures LayoutTicks(items) == |items|
  {
    hide LocatedTicks;
    if items != [] {
      TickEach(items[1..]);
    }
  }

  lemma EntryOf(entries: seq<Entry>, layout: Layout, i: nat)
    requires Mapped(layout.items, PlacedItem) == Mapped(entries, EntryItem) && i < |entries|
    ensures |layout.items| == |entries| && layout.items[i].item == entries[i].item
  {
    assert Mapped(layout.items, PlacedItem)[i] == Mapped(entries, EntryItem)[i];
  }

  // ----- the documented scroll -----

  lemma DocumentedCounts()
    ensures |Documented()| == 8 && CountInitializers(Mapped(Documented(), EntryItem)) == 7
    ensures OnlyAt(Documented(), [], 7, "start") && ClassicSource(Documented())
  {
    OneEach(Mapped(Documented(), EntryItem), 7);
  }

  /** Seven ticks are charged for the data in front of `start`. */
  lemma DocumentedTicks(layout: Layout, image: Image)
    requires LayOutSource(Documented(), []) == Success(layout) && AssembleGlyph(layout) == Success(image)
    ensures |layout.items| == 8 && IsMacro(layout.items[7].item) && LayoutTicks(layout.items[..7]) == 7
  {
    hide TicksBetween, LayOutSource, AssembleGlyph, InStep, GoodImage, CountInitializers, LocatedTicks, LayoutTicks,
         Documented, PlanFits, PlanTimed, Mapped, MatTicks, LayoutSize, ClassicSource, OnlyAt;
    LayoutPrefix(Documented(), [], layout, image);
    DocumentedCounts();
    DocumentedItems();
    forall i | 0 <= i < 7
      ensures LocatedTicks(layout.items[..7][i]) == 1
    {
      EntryOf(Documented(), layout, i);
      InStepAt(layout.items, 0, MatTicks(7), image.prefix, i);
      WordTick(layout.items[i], image.prefix);
    }
    TickEach(layout.items[..7]);
    EntryOf(Documented(), layout, 7);
  }

  lemma DocumentedItems()
    ensures |Documented()| == 8 && IsMacro(Documented()[7].item)
    ensures forall i :: 0 <= i < 7 ==> Documented()[i].item.IWord? && |Documented()[i].item.args| == 1
  {
  }

  lemma WordTick(it: Located, matCells: nat)
    requires PlanFits(it, matCells) && it.item.IWord? && |it.item.args| == 1
    ensures LocatedTicks(it) == 1
  {
  }

  /**
   The documented scroll is late.  However it assembles, the macro is planned
   for tick 22, and the machine, which jumps over the data, comes to it after
   15 steps with D at 15.
   */
  lemma DocumentedLate(layout: Layout, image: Image, v: State, script: Script)
    requires LayOutSource(Documented(), []) == Success(layout) && AssembleGlyph(layout) == Success(image)
    requires v.Valid() && Booted(v, image.cells)
    ensures |image.inits| == 7 && |layout.items| == 8 && layout.items[7].plan.Some?
    ensures var plan, u := layout.items[7].plan.value, Run(v, script, MatTicks(7));
            u.C == plan.cellBase && u.D == 15 && plan.dEntry == 22
  {
    hide TicksBetween, LayOutSource, AssembleGlyph, GoodImage, CountInitializers, LayoutTicks, AddressOf, ProgramOf,
         Booted, Run, Documented, InStep, PlainStart, ClassicSource, OnlyAt, IsMacro, PlainRun;
    DocumentedCounts();
    DocumentedTicks(layout, image);
    LayoutPrefix(Documented(), [], layout, image);
    InitsInMemory(image);
    LabelsResolve(Documented(), [], layout, image, 7, "start");
    ItemBase(Documented(), [], layout, image, 7);
    NoTicksYet(layout, 7);
    NoInstructions(ProgramOf(image.pieces, 0), image, v, script);
    PlainReaches(Documented(), [], layout, image, v, script, 7, 7);
    OnTimeExactly(Documented(), [], layout, image, v, script, 7, 7);
    MacroInMemory(Documented(), [], layout, image, 7);
    PlannedTick(Documented(), [], layout, image, 7, 7);
  }

  lemma NoInstructions(prog: Program, image: Image, v: State, script: Script)
    requires v.Valid() && forall i :: 0 <= i < |image.inits| ==> image.inits[i].0 < MEM_SIZE
    ensures |PlainStart(image, v).mem| == MEM_SIZE
    ensures PlainRun(prog, PlainStart(image, v), script, 0) == Some(PlainStart(image, v))
    ensures !PlainStart(image, v).halted
  {
    hide ApplyWrites, InitWrites;
  }

  // ----- the shipped demo -----

  lemma DemoCounts()
    ensures |Demo()| == 3 && OnlyAt(Demo(), [], 0, "start") && OnlyAt(Demo(), [], 1, "live_cell")
            && ClassicSource(Demo())
  {
  }

  lemma DemoItems(layout: Layout, image: Image)
    requires LayOutSource(Demo(), []) == Success(layout) && AssembleGlyph(layout) == Success(image)
    ensures |layout.items| == 3 && layout.items[0].item == ICrazyIncCell(Label("live_cell"), 58017)
    ensures layout.items[1].item == IWord([Num(58017)])
  {
    hide TicksBetween, LayOutSource, AssembleGlyph, InStep, GoodImage, CountInitializers;
    LayoutPrefix(Demo(), [], layout, image);
    EntryOf(Demo(), layout, 0);
    EntryOf(Demo(), layout, 1);
  }

  /** After startup the live cell holds 58017. */
  lemma DemoLive(layout: Layout, image: Image, v: State, script: Script)
    requires LayOutSource(Demo(), []) == Success(layout) && AssembleGlyph(layout) == Success(image)
    requires v.Valid() && Booted(v, image.cells) && |layout.items| == 3
    requires layout.items[0].item == ICrazyIncCell(Label("live_cell"), 58017)
             && layout.items[1].item == IWord([Num(58017)])
    ensures LiveHolds(layout.items[0].item, image.labels, Run(v, script, MatTicks(|image.inits|)).mem)
  {
    hide LayOutSource, AssembleGlyph, InStep, GoodImage, CountInitializers, ProgramOf, Run, Booted, Demo, ClassicSource,
         OnlyAt, AddressOf;
    DemoCounts();
    LabelsResolve(Demo(), [], layout, image, 1, "live_cell");
    OneWord(58017, image.labels);
    DataDelivered(Demo(), [], layout, image, v, script, 1, 0);
    SmallWord(image.prefix + layout.items[1].address);
  }

  lemma OneWord(value: int, labels: Labels)
    ensures Declared(IWord([Num(value)]), labels) == Some([value])
  {
    var args := [Num(value)];
    assert args[1..] == [] && EvalAll(args[1..], labels) == Some([]);
    assert [value] + [] == [value];
  }

  /**
   The shipped demo prints OK.  However it assembles, the booted machine runs
   startup and ritual to the halt, prints OK and a newline and nothing else,
   and the live cell holds 58018.
   */
  lemma DemoPrints(layout: Layout, image: Image, v: State, script: Script) returns (n: nat)
    requires LayOutSource(Demo(), []) == Success(layout) && AssembleGlyph(layout) == Success(image)
    requires v.Valid() && Booted(v, image.cells) && v.output == []
    ensures "live_cell" in image.labels && 0 <= image.labels["live_cell"] < MEM_SIZE
    ensures var u := Run(v, script, n);
            u.Valid() && u.halted && u.output == ['O' as nat, 'K' as nat, 10]
              && u.mem[image.labels["live_cell"]] == 58018
  {
    hide TicksBetween, LayOutSource, AssembleGlyph, GoodImage, CountInitializers, LayoutTicks, AddressOf, ProgramOf,
         Booted, Run, Demo, InStep, PlainStart, ClassicSource, OnlyAt, PlainRun, EmitsPlan, MachineRow, NotCode,
         Reached, LiveHolds, MatTicks;
    DemoCounts();
    DemoItems(layout, image);
    LayoutPrefix(Demo(), [], layout, image);
    InitsInMemory(image);
    LabelsResolve(Demo(), [], layout, image, 0, "start");
    LabelsResolve(Demo(), [], layout, image, 1, "live_cell");
    BufferIsData(Demo(), [], layout, image, 1, image.prefix + layout.items[1].address);
    ItemBase(Demo(), [], layout, image, 0);
    NoTicksYet(layout, 0);
    NoInstructions(ProgramOf(image.pieces, 0), image, v, script);
    PlainReaches(Demo(), [], layout, image, v, script, 0, 0);
    DemoLive(layout, image, v, script);
    NoTicks(layout.items[..0]);
    var r, plan := MacroRuns(Demo(), [], layout, image, v, script, 0, 0);
    n := MatTicks(|image.inits|) + |plan.ops|;
    RunSplit(v, script, MatTicks(|image.inits|), |plan.ops|);
    NothingPrinted(image, v);
    SmallWord(image.labels["live_cell"]);
    SmallWord(58018);
  }

  lemma DemoInits()
    ensures CountInitializers(Mapped(Demo(), EntryItem)) == 7
  {
    DemoItemInits();
    hide ItemInits;
    var items := Mapped(Demo(), EntryItem);
    assert items == [Demo()[0].item, Demo()[1].item, Demo()[2].item];
    assert items[1..] == [Demo()[1].item, Demo()[2].item] && items[1..][1..] == [Demo()[2].item];
    assert items[1..][1..][1..] == [];
    assert CountInitializers(items[1..][1..]) == 6 && CountInitializers(items[1..]) == 7;
  }

  lemma DemoItemInits()
    ensures ItemInits(Demo()[0].item) == 0 && ItemInits(Demo()[1].item) == 1 && ItemInits(Demo()[2].item) == 6
  {
  }

  lemma OneLabel(labels: Labels, name: string, pc: nat)
    ensures WithLabels(labels, [name], pc) == labels[name := pc]
  {
    assert [name][1..] == [];
  }

  lemma ThreePlaced(e: seq<Entry>, matCells: nat, c: Cursor)
    requires |e| == 3 && Place(e[0], matCells, c).Success?
    requires Place(e[1], matCells, Place(e[0], matCells, c).value).Success?
    ensures PlaceAll(e, matCells, c)
         == Place(e[2], matCells, Place(e[1], matCells, Place(e[0], matCells, c).value).value)
  {
    hide Place;
    var first := Place(e[0], matCells, c).value;
    var second := Place(e[1], matCells, first).value;
    assert e[1..][1..] == [e[2]] && [e[2]][1..] == [];
    assert PlaceAll(e[1..], matCells, first) == PlaceAll([e[2]], matCells, second);
    if Place(e[2], matCells, second).Success? {
      assert PlaceAll([], matCells, Place(e[2], matCells, second).value) == Place(e[2], matCells, second);
    }
  }

  /**
   The shipped demo does lay out, and its macro is granted again at the address
   the live cell ends up at, right behind the macro's code.
   */
  lemma DemoLaysOut()
    ensures LayOutSource(Demo(), []).Success?
    ensures var layout := LayOutSource(Demo(), []).value;
            |layout.items| == 3 && layout.items[0].plan.Some? && "live_cell" in layout.labels
            && layout.labels["live_cell"] == layout.items[0].plan.value.CellCount()
            && PlanEntry(MacroRequest(58017, 15, 90, Some(90 + layout.labels["live_cell"]))).Ok?
  {
    hide PlanEntry, SizeAll, Place, PlaceAll, WithLabels;
    DemoInits();
    FiftyEightPlans(15, 90, Some(57000));
    PlanSmall(58017, 15, 90, 57000);
    var plan := PlanEntry(MacroRequest(58017, 15, 90, Some(57000))).plan;
    var es := Demo();
    var c0 := Cursor(0, 15, [], map[]);
    PlaceExactly(es[0], 90, c0);
    OneLabel(map[], "start", 0);
    var c1 := Place(es[0], 90, c0).value;
    PlaceExactly(es[1], 90, c1);
    OneLabel(c1.labels, "live_cell", c1.pc);
    var c2 := Place(es[1], 90, c1).value;
    PlaceExactly(es[2], 90, c2);
    OneLabel(c2.labels, "neighbors", c2.pc);
    ThreePlaced(es, 90, c0);
    NoLabels(Place(es[2], 90, c2).value);
    PlansBehindItsCode(58017, 15, 90, 90 + plan.CellCount());
  }

  lemma NoLabels(c: Cursor)
    ensures WithLabels(c.labels, [], c.pc) == c.labels
  {
  }

  /** So does the scroll whose only line is `crazyinc 58017`, labelled start. */
  lemma LoneMacroLaysOut()
    ensures LayOutSource([Entry(["start"], ICrazyInc(58017))], []).Success?
  {
    hide PlanEntry, SizeAll, WithLabels;
    var es := [Entry(["start"], ICrazyInc(58017))];
    FiftyEightPlans(1, 6, None);
    assert Mapped(es, EntryItem)[1..] == [] && CountInitializers([]) == 0;
    assert es[1..] == [];
  }

  lemma NoTicks(items: seq<Located>)
    requires items == []
    ensures LayoutTicks(items) == 0
  {
  }

  lemma NothingPrinted(image: Image, v: State)
    requires v.Valid() && forall i :: 0 <= i < |image.inits| ==> image.inits[i].0 < MEM_SIZE
    ensures PlainStart(image, v).output == []
  {
    hide ApplyWrites, InitWrites;
  }

  // ----- a word at start -----

  /** The one-line scroll `start: word VALUE`. */
  function StartWord(value: int): seq<Entry> {
    [WordEntry(["start"], value)]
  }

  lemma StartWordCounts(value: int)
    ensures |StartWord(value)| == 1 && CountInitializers(Mapped(StartWord(value), EntryItem)) == 1
    ensures OnlyAt(StartWord(value), [], 0, "start") && ClassicSource(StartWord(value))
  {
    OneEach(Mapped(StartWord(value), EntryItem), 1);
  }

  /**
   After three steps the machine stands at its only data cell, number 18, which holds the
   value and is charged one tick.
   */
  lemma StartWordAt(value: int, layout: Layout, image: Image, v: State, script: Script)
    requires LayOutSource(StartWord(value), []) == Success(layout) && AssembleGlyph(layout) == Success(image)
    requires v.Valid() && Booted(v, image.cells)
    ensures |image.inits| == 1 && |layout.items| == 1 && AddressOf(layout, image, 0) == 18
    ensures Declared(layout.items[0].item, image.labels) == Some([value])
    ensures AtValues(layout, image, v, Run(v, script, 3), 0, [value]) && TicksBetween(layout, 0, 1) == 1
    ensures Run(v, script, 3).D == 3 && Run(v, script, 3).exitCode == 0
  {
    hide LayOutSource, AssembleGlyph, GoodImage, CountInitializers, LayoutTicks, AddressOf, ProgramOf, Booted, Run,
         StartWord, InStep, ClassicSource, OnlyAt, TicksBetween, Declared;
    StartWordCounts(value);
    LayoutPrefix(StartWord(value), [], layout, image);
    StartWordItem(value, layout);
    OneWord(value, image.labels);
    LabelsResolve(StartWord(value), [], layout, image, 0, "start");
    ItemBase(StartWord(value), [], layout, image, 0);
    FirstAddress(layout, image);
    StartsAtValues(StartWord(value), [], layout, image, v, script, 0, [value]);
    DataExactly(StartWord(value), [], layout, image, v, Run(v, script, 3), script, 0, [value]);
    ImageClassicOnly(StartWord(value), []);
    var dirty := AfterStartup(image, v, script);
  }

  lemma StartWordItem(value: int, layout: Layout)
    requires Mapped(layout.items, PlacedItem) == Mapped(StartWord(value), EntryItem)
    ensures |layout.items| == 1 && layout.items[0].item == IWord([Num(value)])
  {
    EntryOf(StartWord(value), layout, 0);
  }

  lemma FirstAddress(layout: Layout, image: Image)
    ensures AddressOf(layout, image, 0) == image.prefix
  {
    assert layout.items[..0] == [];
  }

  /** `start: word 0` stops with code 127, `start: word 63` halts, and `start: word 50` is crossed in its one tick. */
  lemma StartWordRuns(value: int, layout: Layout, image: Image, v: State, script: Script)
    requires LayOutSource(StartWord(value), []) == Success(layout) && AssembleGlyph(layout) == Success(image)
    requires v.Valid() && Booted(v, image.cells)
    ensures var u := Run(v, script, 4);
            (value == 0 ==> u.halted && u.exitCode == 127)
            && (value == 63 ==> u.halted && u.exitCode == 0)
            && (value == 50 ==> !u.halted && u.C == 19 && u.D == 4)
  {
    hide LayOutSource, AssembleGlyph, AddressOf, Booted, Run, StartWord, ClassicSource, Declared, WalksOn, TrailAt,
         Diverted, ValueAdvances;
    StartWordAt(value, layout, image, v, script);
    StartWordCounts(value);
    var s := Run(v, script, 3);
    RunSplit(v, script, 3, 1);
    if value == 50 {
      FiftyAdvances(s);
      DataExactly(StartWord(value), [], layout, image, v, s, script, 0, [value]);
      WalkedOne(s, script);
    } else if value == 0 || value == 63 {
      Offends(s, value);
      InitialisedDataStops(StartWord(value), [], layout, image, v, s, script, 0, [value], 0);
      OffenceIs(s, value, Run(s, script, 1));
    }
  }

  lemma FiftyAdvances(s: State)
    requires s.Valid() && s.C == 18 && s.D == 3
    ensures ValueAdvances(s, 0, ModWord(50))
  {
    hide TrailAt;
    SmallWord(50);
    assert DecodeOp(50, 18) == 'o';
  }

  lemma WalkedOne(s: State, script: Script)
    requires s.Valid() && s.C == 18 && s.D == 3 && WalksOn(s, script, 1)
    ensures var u := Run(s, script, 1); !u.halted && u.C == 19 && u.D == 4
  {
    hide Run;
    assert Passing(s, Run(s, script, 1), 1);
  }

  lemma Offends(s: State, value: int)
    requires s.Valid() && s.C == 18 && s.D == 3 && (value == 0 || value == 63)
    ensures !ValueAdvances(s, 0, ModWord(value))
  {
    hide TrailAt;
    SmallWord(value);
    assert DecodeOp(63, 18) == 'v';
  }

  lemma OffenceIs(s: State, value: int, u: State)
    requires s.Valid() && s.C == 18 && s.D == 3 && (value == 0 || value == 63) && s.exitCode == 0
    requires Diverted(s, 0, ModWord(value), u)
    ensures u.halted && u.exitCode == if value == 0 then 127 else 0
  {
    hide TrailAt;
    SmallWord(value);
    assert DecodeOp(63, 18) == 'v';
  }

  // ----- those scrolls assemble -----

  /** Five printable cells, each at the place of an operation in the table, spell their base-94 value. */
  lemma FiveCells(cells: seq<Word>, ops: string, word: Word, address: nat)
    requires |cells| == |ops| == 5 && AllGraphic(cells)
    requires forall k :: 0 <= k < 5 ==> ValidOp(ops[k]) && (cells[k] - 33 + address + k) % 94 == OpIndex(ops[k])
    requires FiveDigits(cells) % WORD_MOD == word
    ensures EncodeFrame(word, address).Some?
  {
    hide DecodeOp, ValidOp, EncodeFrame, OpIndex, FiveDigits;
    SumOfDigits(cells);
    SmallWord(word);
    forall k | 0 <= k < 5
      ensures ValidOp(DecodeOp(cells[k], address + k))
    {
      DecodesAs(cells[k], address + k, ops[k]);
    }
    assert SpellingOf(cells, word, address);
    EncodeFrameLeast(word, address);
  }

  function FiveDigits(cells: seq<Word>): int
    requires |cells| == 5
  {
    (cells[0] as int - 33) + 94 * (cells[1] as int - 33) + 8836 * (cells[2] as int - 33)
    + 830584 * (cells[3] as int - 33) + 78074896 * (cells[4] as int - 33)
  }

  lemma SumOfDigits(cells: seq<Word>)
    requires |cells| == 5
    ensures Base94(cells) == FiveDigits(cells)
  {
    var d4 := cells[4..];
    assert d4[1..] == [] && Base94(d4) == cells[4] as int - 33;
    assert cells[3..][1..] == d4 && Base94(cells[3..]) == cells[3] as int - 33 + 94 * Base94(d4);
    assert cells[2..][1..] == cells[3..] && Base94(cells[2..]) == cells[2] as int - 33 + 94 * Base94(cells[3..]);
    assert cells[1..][1..] == cells[2..] && Base94(cells[1..]) == cells[1] as int - 33 + 94 * Base94(cells[2..]);
  }

  lemma ZeroSpelled()
    ensures EncodeFrame(0, 1).Some?
  {
    hide EncodeFrame;
    FiveCells([80, 91, 117, 35, 34], "v@:**", 0, 1);
  }

  lemma SixtyThreeSpelled()
    ensures EncodeFrame(63, 1).Some?
  {
    hide EncodeFrame;
    FiveCells([54, 96, 52, 35, 57], "~i~*p", 63, 1);
  }

  lemma FiftySpelled()
    ensures EncodeFrame(50, 1).Some?
  {
    hide EncodeFrame;
    FiveCells([97, 118, 36, 35, 49], "i:**#", 50, 1);
  }

  lemma StoreSpelled()
    ensures EncodeFrame(18, 7).Some?
  {
    hide EncodeFrame;
    FiveCells([48, 112, 108, 44, 57], "~:/#o", 18, 7);
  }

  lemma JumpSpelled()
    ensures EncodeFrame(18, 13).Some?
  {
    hide EncodeFrame;
    FiveCells([42, 67, 83, 38, 97], "~vi#!", 18, 13);
  }

  lemma Spelled(value: int)
    requires value == 0 || value == 63 || value == 50
    ensures EncodeFrame(value, 1).Some? && EncodeFrame(18, 7).Some? && EncodeFrame(18, 13).Some?
  {
    hide EncodeFrame;
    ZeroSpelled();
    SixtyThreeSpelled();
    FiftySpelled();
    StoreSpelled();
    JumpSpelled();
  }

  lemma EncodesOne(i: Instr, value: int, addr: nat)
    requires FrameOf(i) == [value] && !i.Classic? && EncodeFrame(value, addr + 1).Some?
    ensures EncodePiece(Code(i), addr).Success?
  {
    hide EncodeFrame, EncodeOp;
    ValidOpsEncode(OpChar(i), addr);
    assert FrameOf(i)[1..] == [] && EncodeWords([], addr + 6) == Some([]);
  }

  lemma StartupEncodes(value: int)
    requires value == 0 || value == 63 || value == 50
    ensures var inits: seq<(nat, Word)> := [(18, ModWord(value))];
            EncodePieces(MatPieces(inits, 18), 0).Success? && |EncodePieces(MatPieces(inits, 18), 0).value| == 18
  {
    hide EncodeFrame, EncodePiece;
    Spelled(value);
    SmallWord(value);
    var inits: seq<(nat, Word)> := [(18, ModWord(value))];
    EncodesOne(SetA(ModWord(value)), ModWord(value), 0);
    EncodesOne(StoreA(18), 18, 6);
    EncodesOne(Jump(18), 18, 12);
    assert inits[1..] == [] && MatPieces([], 18) == [Code(Jump(18))];
    var ps := MatPieces(inits, 18);
    assert ps == [Code(SetA(inits[0].1)), Code(StoreA(inits[0].0))] + MatPieces(inits[1..], 18);
    assert ps == [Code(SetA(ModWord(value))), Code(StoreA(18)), Code(Jump(18))];
    assert ps[1..] == [Code(StoreA(18)), Code(Jump(18))] && ps[1..][1..] == [Code(Jump(18))] && ps[1..][1..][1..] == [];
    assert EncodePieces([], 18) == Success([]);
    assert PieceSize(Code(Jump(18))) == PieceSize(Code(StoreA(18))) == PieceSize(Code(SetA(ModWord(value)))) == 6;
    assert EncodePieces([Code(Jump(18))], 12).Success?;
    assert EncodePieces(ps[1..], 6).Success?;
    EncodePiecesLength(ps, 0);
    MatPiecesSize(inits, 18);
  }

  lemma StartWordLaidOut(value: int)
    ensures LayOutSource(StartWord(value), [])
         == Success(Layout([Located(IWord([Num(value)]), 0, None)], map["start" := 0]))
  {
    StartWordCounts(value);
    var es := StartWord(value);
    var c := Cursor(0, MatTicks(1), [], map[]);
    assert es[0].labels[1..] == [] && es[1..] == [];
    var labels: Labels := map[];
    var started: Labels := map["start" := 0];
    assert labels["start" := 0] == started && WithLabels(started, [], 0) == started;
    assert WithLabels(labels, es[0].labels, 0) == started;
    var after := Cursor(1, MatTicks(1) + 1, [Located(es[0].item, 0, None)], started);
    assert SizingPlan(es[0].item, c.ticks, MatCells(1)) == None && c.items + after.items == after.items;
    assert Place(es[0], MatCells(1), c) == Success(after);
    assert PlaceAll([], MatCells(1), after) == Success(after);
    assert PlaceAll(es, MatCells(1), c) == PlaceAll(es[1..], MatCells(1), after);
  }

  /** The three scrolls do assemble. */
  lemma StartWordAssembles(value: int)
    requires value == 0 || value == 63 || value == 50
    ensures LayOutSource(StartWord(value), []).Success?
    ensures AssembleGlyph(LayOutSource(StartWord(value), []).value).Success?
  {
    hide EncodeFrame, MatPieces, LayOutSource;
    StartWordLaidOut(value);
    var layout := LayOutSource(StartWord(value), []).value;
    var it := Located(IWord([Num(value)]), 0, None);
    OneWord(value, FinalLabels(layout.labels, 18));
    assert CountInitializers(Mapped(layout.items, PlacedItem)) == 1 by {
      assert Mapped(layout.items, PlacedItem)[0] == IWord([Num(value)]);
      OneEach(Mapped(layout.items, PlacedItem), 1);
    }
    OneItemAssembles(value, FinalLabels(layout.labels, 18));
    StartupEncodes(value);
  }

  lemma OneItemAssembles(value: int, labels: Labels)
    ensures var p := AssembleFrom([Located(IWord([Num(value)]), 0, None)], labels, 18, Program0([], [], []));
            p.Success? && p.value.inits == [(18, ModWord(value))] && |p.value.cells| == 1
  {
    hide EvalAll, FillerCells, ModWord;
    var it := Located(IWord([Num(value)]), 0, None);
    OneWord(value, labels);
    OneFiller(1, 18);
    var e := Data(18, [value]);
    assert EmitItem(it, labels, 18) == Success(e) && e.pieces == [Filler(1)];
    assert e.inits == [(18, ModWord(value))] && [it][1..] == [];
    NothingLeft(labels, Program0([] + FillerCells(1, 18), [] + e.pieces, [] + e.inits));
  }

  lemma NothingLeft(labels: Labels, p: Program0)
    ensures AssembleFrom([], labels, 18, p) == Success(p)
  {
  }
}
