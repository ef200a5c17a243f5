/**
 The crazyinc macros inside an assembled program: code and data in front of the
 macro and exactly when control crosses them a tick at a time, D on schedule
 exactly when no data cells were skipped, the ritual completing on the machine
 that booted the printed image when it is, and rewriting nothing when it is late.
 */
module Invocation {
  import opened Words
  import opened Glyphs
  import opened Frames
  import opened Machine
  import opened Loader
  import opened Source
  import opened Planner
  import opened Straight
  import opened Ritual
  import opened Ceremony
  import opened Assembly
  import opened Agreement
  import opened Compiler
  import opened Startup
  import opened Meaning
  import opened Delivery
  import opened Crossing
  import opened Late

  /** Classic operations after which C and D are both one cell on. */
  predicate StraightOp(op: char) {
    op == '/' || op == '<' || op == 'o' || op == '*' || op == 'p'
  }

  /** Items that execute as one instruction and fall through. */
  predicate SingleStep(item: Item) {
    match item
    case ITrap(_) => true
    case IFramed(kind, _) => kind != KJump && kind != KJumpM
    case IOp(op) => StraightOp(op)
    case _ => false
  }

  /** Items control can fall through: single instructions, and data cells, each executed as what it decodes to. */
  predicate FallsThrough(item: Item) {
    SingleStep(item) || IsData(item)
  }

  predicate Flows(i: Instr) {
    !i.Jump? && !i.Branch? && !i.JumpM? && (i.Classic? ==> StraightOp(i.op))
  }

  /** The instruction such an item emits, at its final address. */
  lemma FallThroughCode(it: Located, labels: Labels, base: nat)
    requires SingleStep(it.item) && PlanFits(it, base) && EmitItem(it, labels, base).Success?
    ensures var ps := EmitItem(it, labels, base).value.pieces;
            |ps| == 1 && ps[0].Code? && Flows(ps[0].instr)
            && base + it.address in ProgramOf(ps, base + it.address)
            && ProgramOf(ps, base + it.address)[base + it.address] == ps[0].instr
            && LocatedSize(it) == Size(ps[0].instr) && LocatedTicks(it) == 1
  {
    hide PlanEntry;
    var ps := EmitItem(it, labels, base).value.pieces;
    assert ps[1..] == [];
  }

  function AddressOf(layout: Layout, image: Image, i: nat): nat
    requires i <= |layout.items|
  {
    image.prefix + LayoutSize(layout.items[..i])
  }

  lemma {:induction false} LayoutSizeStep(items: seq<Located>, i: nat)
    requires i < |items|
    ensures LayoutSize(items[..i + 1]) == LayoutSize(items[..i]) + LocatedSize(items[i])
    ensures LayoutTicks(items[..i + 1]) == LayoutTicks(items[..i]) + LocatedTicks(items[i])
  {
    hide LocatedSize, LocatedTicks;
    if i > 0 {
      assert items[..i + 1][1..] == items[1..][..i] && items[..i][1..] == items[1..][..i - 1];
      LayoutSizeStep(items[1..], i - 1);
    } else {
      assert items[..1][1..] == [];
    }
  }

  /** Item i of the straight stretch is in the program as a fall-through instruction, one tick long. */
  lemma StretchItem(entries: seq<Entry>, trailing: seq<string>, layout: Layout, image: Image, i: nat)
    requires LayOutSource(entries, trailing) == Success(layout) && AssembleGlyph(layout) == Success(image)
    requires i < |layout.items| && SingleStep(layout.items[i].item)
    ensures var prog, pc := ProgramOf(image.pieces, 0), AddressOf(layout, image, i);
            pc in prog && Flows(prog[pc]) && pc + Size(prog[pc]) == AddressOf(layout, image, i + 1)
            && EmitItem(layout.items[i], image.labels, image.prefix).Success?
            && var ps := EmitItem(layout.items[i], image.labels, image.prefix).value.pieces;
               |ps| == 1 && ps[0] == Code(prog[pc])
    ensures LocatedTicks(layout.items[i]) == 1
  {
    hide InStep, LayOutSource, AssembleGlyph, GoodImage, CountInitializers, EmitItem, ProgramOf, LayoutSize, Size,
         MatCells, MatTicks, PlanFits;
    LayoutPrefix(entries, trailing, layout, image);
    var ticks := MatTicks(CountInitializers(Mapped(entries, EntryItem)));
    InStepAt(layout.items, 0, ticks, image.prefix, i);
    EmittedOk(entries, trailing, layout, image, i);
    var it := layout.items[i];
    var e := EmitItem(it, image.labels, image.prefix).value;
    FallThroughCode(it, image.labels, image.prefix);
    ItemInImage(layout, image, ticks, i, e, image.prefix + it.address);
    LayoutSizeStep(layout.items, i);
  }

  /** One fall-through instruction advances C by its size and D by one. */
  lemma FlowStep(prog: Program, s: Src, script: Script)
    requires |s.mem| == MEM_SIZE && !s.halted && s.C in prog && Flows(prog[s.C])
    requires SrcStep(prog, s, script).Some? && !SrcStep(prog, s, script).value.halted
    ensures var u := SrcStep(prog, s, script).value;
            u.C == Wrap(s.C + Size(prog[s.C])) && u.D == Wrap(s.D + 1) && u.ran <= s.ran + {s.C}
  {
    hide ModWord, Answer, ApplyWrites, WriteTargets, Crazy, RotateRight;
  }

  lemma {:induction false} AddressGrows(layout: Layout, image: Image, i: nat, j: nat)
    requires i <= j <= |layout.items|
    ensures AddressOf(layout, image, i) <= AddressOf(layout, image, j)
    decreases j
  {
    hide LocatedSize;
    if i < j {
      AddressGrows(layout, image, i, j - 1);
      LayoutSizeStep(layout.items, j - 1);
    }
  }

  /** Ticks charged for items j, ..., k - 1. */
  function TicksBetween(layout: Layout, j: nat, k: nat): nat
    requires j <= k <= |layout.items|
  {
    LayoutTicks(layout.items[j..k])
  }

  lemma {:induction false} TicksSplit(layout: Layout, j: nat, k: nat)
    requires j <= k <= |layout.items|
    ensures LayoutTicks(layout.items[..k]) == LayoutTicks(layout.items[..j]) + TicksBetween(layout, j, k)
    decreases k
  {
    hide LocatedTicks, LocatedSize;
    if j < k {
      TicksSplit(layout, j, k - 1);
      OneMoreTick(layout, j, k - 1);
      LayoutSizeStep(layout.items, k - 1);
    } else {
      assert layout.items[j..k] == [];
    }
  }

  lemma OneMoreTick(layout: Layout, j: nat, k: nat)
    requires j <= k < |layout.items|
    ensures TicksBetween(layout, j, k + 1) == TicksBetween(layout, j, k) + LocatedTicks(layout.items[k])
  {
    hide LocatedTicks, LocatedSize, LayoutTicks;
    assert layout.items[j..][..k - j] == layout.items[j..k] && layout.items[j..][..k + 1 - j] == layout.items[j..k + 1];
    LayoutSizeStep(layout.items[j..], k - j);
  }

  /** The tick at which item k's plan was made, and its address. */
  lemma PlannedTick(entries: seq<Entry>, trailing: seq<string>, layout: Layout, image: Image, j: nat, k: nat)
    requires LayOutSource(entries, trailing) == Success(layout) && AssembleGlyph(layout) == Success(image)
    requires j <= k < |layout.items| && layout.items[k].plan.Some?
    ensures layout.items[k].plan.value.dEntry
         == MatTicks(|image.inits|) + TicksBetween(layout, j, k) + LayoutTicks(layout.items[..j])
    ensures layout.items[k].plan.value.cellBase == AddressOf(layout, image, k)
  {
    hide InStep, LayOutSource, AssembleGlyph, GoodImage, CountInitializers, LayoutSize, LayoutTicks, MatCells, MatTicks,
         PlanFits, TicksBetween;
    LayoutPrefix(entries, trailing, layout, image);
    InStepAt(layout.items, 0, MatTicks(CountInitializers(Mapped(entries, EntryItem))), image.prefix, k);
    TicksSplit(layout, j, k);
  }

  /** The plan whose instructions item k emits. */
  ghost predicate EmitsPlan(layout: Layout, image: Image, k: nat, r: Request, plan: Plan)
    requires k < |layout.items|
  {
    PlanEntry(r) == Planned.Ok(plan) && r.ok == "OK"
    && EmitItem(layout.items[k], image.labels, image.prefix) == Success(Emission(Codes(plan.ops), []))
    && plan.cellBase == image.prefix + layout.items[k].address
    && layout.items[k].plan.Some? && plan.dEntry == layout.items[k].plan.value.dEntry
    && plan.CellCount() == LocatedSize(layout.items[k])
  }

  /** A crazyinc item emits a plan made for its address and tick. */
  lemma MacroEmits(entries: seq<Entry>, trailing: seq<string>, layout: Layout, image: Image, k: nat)
    returns (r: Request, plan: Plan)
    requires LayOutSource(entries, trailing) == Success(layout) && AssembleGlyph(layout) == Success(image)
             && k < |layout.items|
    requires layout.items[k].item.ICrazyInc? || layout.items[k].item.ICrazyIncCell?
    ensures EmitsPlan(layout, image, k, r, plan) && r.value == layout.items[k].item.value
    ensures plan.cellAddr == LiveCell(layout.items[k].item, image.labels)
    ensures plan.value == ModWord(r.value)
  {
    hide InStep, LayOutSource, AssembleGlyph, GoodImage, CountInitializers, LayoutSize, MatCells, MatTicks, PlanEntry;
    LayoutPrefix(entries, trailing, layout, image);
    InStepAt(layout.items, 0, MatTicks(CountInitializers(Mapped(entries, EntryItem))), image.prefix, k);
    EmittedOk(entries, trailing, layout, image, k);
    var it := layout.items[k];
    match it.item
    case ICrazyInc(value) =>
      r := MacroRequest(value, it.plan.value.dEntry, image.prefix + it.address, None);
      plan := it.plan.value;
      PlanCarries(r);
      PlanLive(r);
    case ICrazyIncCell(target, value) =>
      r := MacroRequest(value, it.plan.value.dEntry, image.prefix + it.address,
                        Some(ModWord(Eval(target, image.labels).value)));
      plan := PlanEntry(r).plan;
      PlanCarries(r);
      PlanLive(r);
    case _ =>
  }

  lemma PlanLive(r: Request)
    requires PlanEntry(r).Ok?
    ensures PlanEntry(r).plan.cellAddr == LiveAddr(r)
  {
    hide PlanEntry, LayOut, WellLaid, IsChain;
    var node, a, b := Stages(r);
    var p := LayOutDraft(r, node, a, b);
  }

  lemma MacroPlaced(entries: seq<Entry>, trailing: seq<string>, layout: Layout, image: Image, k: nat, r: Request,
                    plan: Plan)
    requires LayOutSource(entries, trailing) == Success(layout) && AssembleGlyph(layout) == Success(image)
             && k < |layout.items|
    requires EmitsPlan(layout, image, k, r, plan)
    ensures Placed(ProgramOf(image.pieces, 0), plan.ops, plan.cellBase)
  {
    hide InStep, LayOutSource, AssembleGlyph, GoodImage, CountInitializers, MatCells, MatTicks, PlanEntry, EmitItem,
         ProgramOf, Cell;
    LayoutPrefix(entries, trailing, layout, image);
    forall i | 0 <= i < |plan.ops|
      ensures Cell(plan.ops, plan.cellBase, i) in ProgramOf(image.pieces, 0)
              && ProgramOf(image.pieces, 0)[Cell(plan.ops, plan.cellBase, i)] == plan.ops[i]
    {
      CodesPlaced(plan.ops, plan.cellBase, i);
      ItemInImage(layout, image, MatTicks(CountInitializers(Mapped(entries, EntryItem))), k,
                  Emission(Codes(plan.ops), []), Cell(plan.ops, plan.cellBase, i));
    }
  }

  /** Every cell of placed straight-line code is code. */
  lemma {:induction false} SpanIsCode(prog: Program, ops: seq<Instr>, base: nat, x: nat, n: nat)
    requires Placed(prog, ops, base) && n <= |ops| && base <= x < Cell(ops, base, n)
    ensures !NotCode(prog, x)
    decreases n
  {
    hide Size, NotCode;
    var last := Cell(ops, base, n - 1);
    if x < last {
      SpanIsCode(prog, ops, base, x, n - 1);
    } else {
      CoveredIsCode(prog, last, x);
    }
  }

  lemma CoveredIsCode(prog: Program, pc: nat, x: nat)
    requires pc in prog && pc <= x < pc + Size(prog[pc])
    ensures !NotCode(prog, x)
  {
  }

  // ----- the stretch from `start` to the macro -----

  predicate IsMacro(item: Item) {
    item.ICrazyInc? || item.ICrazyIncCell?
  }

  /** Startup and the stretch from item j to item k, in machine steps. */
  function StepsTo(layout: Layout, image: Image, j: nat, k: nat): nat
    requires j <= k <= |layout.items|
  {
    MatTicks(|image.inits|) + TicksBetween(layout, j, k)
  }

  /** None of the cells belongs to an instruction among items i, ..., k - 1 or to item k. */
  ghost predicate Spares(layout: Layout, image: Image, i: nat, k: nat, xs: set<Word>)
    requires i <= k < |layout.items|
  {
    forall h :: i <= h <= k && (h == k || SingleStep(layout.items[h].item)) ==>
      CleanSpan(AddressOf(layout, image, h), LocatedSize(layout.items[h]), xs)
  }

  /**
   What item i asks of the machine that has come to it: a data item, that each of its cells as they
   are now advances; an instruction, that it goes on and overwrites neither its own opcode nor any
   instruction still to come.
   */
  ghost predicate Crosses(layout: Layout, image: Image, i: nat, k: nat, s: State, script: Script)
    requires i < k < |layout.items|
  {
    s.Valid() && !s.halted
    && if IsData(layout.items[i].item) then CellsAdvance(s, LocatedSize(layout.items[i]))
       else !Step(s, script).halted && s.C !in DataWrites(s, script)
            && Spares(layout, image, i + 1, k, DataWrites(s, script))
  }

  predicate CellsAdvance(s: State, n: nat)
    requires s.Valid()
  {
    s.C + n <= MEM_SIZE && s.D + n <= MEM_SIZE && forall q :: 0 <= q < n ==> CellAdvances(s, q)
  }

  /** The machine boots, starts at item j, and every item up to item k lets control through when it comes there. */
  ghost predicate Reached(layout: Layout, image: Image, v: State, script: Script, j: nat, k: nat) {
    v.Valid() && Booted(v, image.cells) && j <= k < |layout.items|
    && image.start == AddressOf(layout, image, j)
    && forall i :: j <= i < k ==>
         FallsThrough(layout.items[i].item)
           && Crosses(layout, image, i, k, Run(v, script, StepsTo(layout, image, j, i)), script)
  }

  /** A live-cell macro's cell holds the value the macro names. */
  predicate LiveHolds(item: Item, labels: Labels, mem: seq<Word>)
    requires |mem| == MEM_SIZE
  {
    match item
    case ICrazyIncCell(target, value) =>
      Eval(target, labels).Some? && mem[ModWord(Eval(target, labels).value)] == ModWord(value)
    case _ => true
  }

  /** The machine stands before item i: on the layout's schedule, with everything still to come executable. */
  ghost predicate Stands(layout: Layout, image: Image, s: State, j: nat, i: nat, k: nat, seed: seq<char>,
                         dirty: set<Word>)
    requires j <= i <= k < |layout.items|
  {
    s.Valid() && !s.halted && s.seed == seed
    && s.C == AddressOf(layout, image, i) && s.D == StepsTo(layout, image, j, i)
    && Sim(ProgramOf(image.pieces, 0), Adopt(s, dirty), s) && Spares(layout, image, i, k, dirty)
  }

  lemma StartsInsidePrefix(image: Image)
    requires GoodImage(image)
    ensures MatTicks(|image.inits|) <= image.prefix
  {
    hide ProgramOf, EncodePieces, MatPieces, NotCode;
  }

  /** Placed code fits in memory: its base, its end. */
  lemma PlacedFits(prog: Program, p: Plan)
    requires WellPlaced(prog) && Placed(prog, p.ops, p.cellBase) && |p.ops| > 0
    ensures p.cellBase < MEM_SIZE && p.cellBase + p.CellCount() <= MEM_SIZE
    ensures Cell(p.ops, p.cellBase, |p.ops|) == p.cellBase + p.CellCount()
  {
    hide Size;
    var n := |p.ops|;
    CellEnd(p.ops, p.cellBase, n);
    assert p.ops[n..] == [];
    CellIncreases(p.ops, p.cellBase, 0, n - 1);
    SizePositive(p.ops[n - 1]);
    assert Cell(p.ops, p.cellBase, n - 1) in prog;
  }

  lemma PlanHasOps(r: Request)
    requires PlanEntry(r).Ok?
    ensures |PlanEntry(r).plan.ops| > 0
  {
    hide PlanEntry, WellLaid;
    PlannedWell(r);
    LastIsHalt(PlanEntry(r).plan, r.startA);
  }

  lemma AddressBehind(layout: Layout, image: Image, j: nat)
    requires j <= |layout.items|
    ensures image.prefix <= AddressOf(layout, image, j)
  {
  }

  lemma ItemBase(entries: seq<Entry>, trailing: seq<string>, layout: Layout, image: Image, k: nat)
    requires LayOutSource(entries, trailing) == Success(layout) && AssembleGlyph(layout) == Success(image)
             && k < |layout.items|
    ensures image.prefix + layout.items[k].address == AddressOf(layout, image, k)
  {
    hide InStep, LayOutSource, AssembleGlyph, GoodImage, CountInitializers, LayoutSize, LayoutTicks, MatCells, MatTicks,
         PlanFits;
    LayoutPrefix(entries, trailing, layout, image);
    InStepAt(layout.items, 0, MatTicks(CountInitializers(Mapped(entries, EntryItem))), image.prefix, k);
  }

  lemma ItemAddress(entries: seq<Entry>, trailing: seq<string>, layout: Layout, image: Image, k: nat)
    requires LayOutSource(entries, trailing) == Success(layout) && AssembleGlyph(layout) == Success(image)
    requires k < |layout.items|
    ensures image.prefix + layout.items[k].address == AddressOf(layout, image, k)
    ensures AddressOf(layout, image, k) + LocatedSize(layout.items[k]) == AddressOf(layout, image, k + 1)
  {
    hide LayOutSource, AssembleGlyph, LayoutSize, LocatedSize;
    ItemBase(entries, trailing, layout, image, k);
    LayoutSizeStep(layout.items, k);
  }

  lemma NoTicksYet(layout: Layout, j: nat)
    requires j <= |layout.items|
    ensures TicksBetween(layout, j, j) == 0
  {
    assert layout.items[j..j] == [];
  }

  lemma StartPlace(image: Image, v: State, s: Src)
    requires GoodImage(image) && v.Valid() && AtStart(image, v, s)
    ensures s.C == ModWord(image.start) && s.D == MatTicks(|image.inits|)
            && forall x: Word :: x in s.ran ==> x < image.prefix
  {
    hide GoodImage, InitWrites, ApplyWrites;
  }

  lemma MacroInMemory(entries: seq<Entry>, trailing: seq<string>, layout: Layout, image: Image, k: nat)
    requires LayOutSource(entries, trailing) == Success(layout) && AssembleGlyph(layout) == Success(image)
    requires k < |layout.items| && IsMacro(layout.items[k].item)
    ensures AddressOf(layout, image, k) < MEM_SIZE && layout.items[k].plan.Some?
  {
    hide LayOutSource, AssembleGlyph, ProgramOf, AddressOf, PlanEntry, EmitItem, GoodImage, Placed, SizeAll;
    var r, plan := MacroEmits(entries, trailing, layout, image, k);
    LayoutPrefix(entries, trailing, layout, image);
    InitsInMemory(image);
    MacroPlaced(entries, trailing, layout, image, k, r, plan);
    PlanHasOps(r);
    PlacedFits(ProgramOf(image.pieces, 0), plan);
    ItemBase(entries, trailing, layout, image, k);
  }

  /** Ticks fall behind cells: D stays below C from the end of the startup code on. */
  lemma {:induction false} TicksBelow(entries: seq<Entry>, trailing: seq<string>, layout: Layout, image: Image, j: nat,
                                      i: nat)
    requires LayOutSource(entries, trailing) == Success(layout) && AssembleGlyph(layout) == Success(image)
    requires j <= i <= |layout.items|
    ensures TicksBetween(layout, j, i) + AddressOf(layout, image, j) <= AddressOf(layout, image, i)
    ensures StepsTo(layout, image, j, i) < AddressOf(layout, image, i)
    decreases i
  {
    hide LayOutSource, AssembleGlyph, AddressOf, TicksBetween, GoodImage, InStep, CountInitializers, LocatedSize,
         LocatedTicks, PlanFits;
    LayoutPrefix(entries, trailing, layout, image);
    StartsInsidePrefix(image);
    AddressBehind(layout, image, j);
    if j < i {
      TicksBelow(entries, trailing, layout, image, j, i - 1);
      OneMoreTick(layout, j, i - 1);
      ItemAddress(entries, trailing, layout, image, i - 1);
      InStepAt(layout.items, 0, MatTicks(CountInitializers(Mapped(entries, EntryItem))), image.prefix, i - 1);
      ItemAhead(layout.items[i - 1], image.prefix);
    } else {
      NoTicksYet(layout, j);
    }
  }

  /** Cells that are not code spare every instruction. */
  lemma OffCodeSpares(entries: seq<Entry>, trailing: seq<string>, layout: Layout, image: Image, i: nat, k: nat,
                      xs: set<Word>)
    requires LayOutSource(entries, trailing) == Success(layout) && AssembleGlyph(layout) == Success(image)
    requires i <= k < |layout.items| && IsMacro(layout.items[k].item) && OffCode(ProgramOf(image.pieces, 0), xs)
    ensures Spares(layout, image, i, k, xs)
  {
    hide LayOutSource, AssembleGlyph, ProgramOf, AddressOf, OffCode, CleanSpan, LocatedSize, SingleStep;
    forall h | i <= h <= k && (h == k || SingleStep(layout.items[h].item))
      ensures CleanSpan(AddressOf(layout, image, h), LocatedSize(layout.items[h]), xs)
    {
      if h == k {
        MacroClean(entries, trailing, layout, image, k, xs);
      } else {
        ItemClean(entries, trailing, layout, image, h, xs);
      }
    }
  }

  lemma ItemClean(entries: seq<Entry>, trailing: seq<string>, layout: Layout, image: Image, h: nat, xs: set<Word>)
    requires LayOutSource(entries, trailing) == Success(layout) && AssembleGlyph(layout) == Success(image)
    requires h < |layout.items| && SingleStep(layout.items[h].item) && OffCode(ProgramOf(image.pieces, 0), xs)
    ensures CleanSpan(AddressOf(layout, image, h), LocatedSize(layout.items[h]), xs)
  {
    hide LayOutSource, AssembleGlyph, ProgramOf, AddressOf, OffCode, CleanSpan, LocatedSize, SingleStep, Size;
    StretchItem(entries, trailing, layout, image, h);
    ItemAddress(entries, trailing, layout, image, h);
    OffCodeClean(ProgramOf(image.pieces, 0), AddressOf(layout, image, h), xs);
  }

  lemma MacroClean(entries: seq<Entry>, trailing: seq<string>, layout: Layout, image: Image, k: nat, dirty: set<Word>)
    requires LayOutSource(entries, trailing) == Success(layout) && AssembleGlyph(layout) == Success(image)
    requires k < |layout.items| && IsMacro(layout.items[k].item) && OffCode(ProgramOf(image.pieces, 0), dirty)
    ensures CleanSpan(AddressOf(layout, image, k), LocatedSize(layout.items[k]), dirty)
  {
    hide LayOutSource, AssembleGlyph, ProgramOf, AddressOf, PlanEntry, EmitItem, GoodImage, Placed, SizeAll,
         LocatedSize, NotCode, Cell, InStep, CountInitializers;
    var r, plan := MacroEmits(entries, trailing, layout, image, k);
    MacroStands(entries, trailing, layout, image, k, r, plan);
    forall x: Word | x in dirty
      ensures !(plan.cellBase <= x < plan.cellBase + plan.CellCount())
    {
      if plan.cellBase <= x < plan.cellBase + plan.CellCount() {
        SpanIsCode(ProgramOf(image.pieces, 0), plan.ops, plan.cellBase, x, |plan.ops|);
      }
    }
  }

  /** The macro's code in the image's program. */
  lemma MacroStands(entries: seq<Entry>, trailing: seq<string>, layout: Layout, image: Image, k: nat, r: Request,
                    plan: Plan)
    requires LayOutSource(entries, trailing) == Success(layout) && AssembleGlyph(layout) == Success(image)
    requires k < |layout.items| && EmitsPlan(layout, image, k, r, plan)
    ensures Placed(ProgramOf(image.pieces, 0), plan.ops, plan.cellBase)
    ensures plan.cellBase == AddressOf(layout, image, k) && plan.cellBase + plan.CellCount() <= MEM_SIZE
    ensures Cell(plan.ops, plan.cellBase, |plan.ops|) == plan.cellBase + plan.CellCount()
  {
    hide LayOutSource, AssembleGlyph, ProgramOf, AddressOf, PlanEntry, EmitItem, GoodImage, Placed, SizeAll, WellPlaced,
         Cell, InStep, CountInitializers;
    LayoutPrefix(entries, trailing, layout, image);
    InitsInMemory(image);
    MacroPlaced(entries, trailing, layout, image, k, r, plan);
    PlanHasOps(r);
    PlacedFits(ProgramOf(image.pieces, 0), plan);
    ItemBase(entries, trailing, layout, image, k);
  }

  // ----- standing at the first item -----

  lemma {:induction false} RunKeepsSeed(v: State, script: Script, n: nat)
    requires v.Valid()
    ensures Run(v, script, n).seed == v.seed
    decreases n
  {
    hide Step;
    if n > 0 && !v.halted {
      StepFrame(v, script, 0);
      RunKeepsSeed(Step(v, script), script, n - 1);
    }
  }

  lemma SimFromBoot(image: Image, v: State, script: Script, n: nat)
    requires GoodImage(image) && ClassicOnly(image.pieces) && v.Valid() && Booted(v, image.cells)
    requires SrcRun(ProgramOf(image.pieces, 0), SourceBoot(v), script, n).Some?
    ensures Sim(ProgramOf(image.pieces, 0), SrcRun(ProgramOf(image.pieces, 0), SourceBoot(v), script, n).value,
                Run(v, script, n))
  {
    hide GoodImage, ProgramOf, SrcRun, Booted, Sim, ClassicOnly, Run, EncodePieces;
    GoodEncodes(image);
    BootSim(image.pieces, v, image.cells);
    SimRun(ProgramOf(image.pieces, 0), SourceBoot(v), v, script, n);
  }

  /** After startup: the machine's state, nothing of the program's code spoilt. */
  lemma AfterStartup(image: Image, v: State, script: Script) returns (dirty: set<Word>)
    requires GoodImage(image) && ClassicOnly(image.pieces) && v.Valid() && Booted(v, image.cells)
    ensures var s := Run(v, script, MatTicks(|image.inits|));
            s.Valid() && !s.halted && s.C == ModWord(image.start) && s.D == MatTicks(|image.inits|) && s.seed == v.seed
            && Sim(ProgramOf(image.pieces, 0), Adopt(s, dirty), s) && OffCode(ProgramOf(image.pieces, 0), dirty)
  {
    hide GoodImage, ProgramOf, SrcRun, Booted, AtStart, MatTicks, PlainStart, Sim, Run, ClassicOnly, NotCode;
    var prog, ticks := ProgramOf(image.pieces, 0), MatTicks(|image.inits|);
    InitsInMemory(image);
    BootMemory(v);
    StartSafe(image, v, script);
    SimFromBoot(image, v, script, ticks);
    RunKeepsSeed(v, script, ticks);
    var t, s := SrcRun(prog, SourceBoot(v), script, ticks).value, Run(v, script, ticks);
    StartPlace(image, v, t);
    RebaseSim(prog, t, s);
    SimPlace(prog, t, s);
    StartGoesOn(image, v, t);
    dirty := Rebase(prog, t, s).dirty;
    RebaseOffCode(prog, t, s);
  }

  lemma StartGoesOn(image: Image, v: State, t: Src)
    requires GoodImage(image) && v.Valid() && AtStart(image, v, t)
    ensures !t.halted
  {
    hide GoodImage, InitWrites, ApplyWrites;
  }

  lemma RebaseOffCode(prog: Program, t: Src, s: State)
    requires Safe(prog, t) && !t.halted
    ensures OffCode(prog, Rebase(prog, t, s).dirty)
  {
    hide NotCode;
  }

  lemma SimPlace(prog: Program, s: Src, v: State)
    requires Sim(prog, s, v)
    ensures v.Valid() && v.C == s.C && v.D == s.D && v.halted == s.halted
  {
  }

  // ----- one item further: an instruction -----

  /** What the machine writes as data is what the assembly machine would write. */
  lemma WritesMatch(prog: Program, t: Src, s: State, script: Script)
    requires Sim(prog, t, s) && !t.halted && CanFetch(prog, t) && t.ran == {}
    ensures DataWrites(s, script) == WriteTargets(Act(prog[t.C], t, script).writes)
  {
    hide EffectiveOp, Lineage, DecodeFrame, ModWord, Act, Execute, OpWrites, OpChar, FrameOf, ApplyWrites, WriteTargets,
         Cipher, CanFetch;
    FetchMatches(prog, t, s);
    FetchClassic(prog, t);
    ExecuteMatches(prog[t.C], t, s, script);
  }

  lemma FetchClassic(prog: Program, t: Src)
    requires CanFetch(prog, t)
    ensures t.C in prog && (prog[t.C].Classic? ==> ClassicOp(prog[t.C].op))
  {
  }

  /** A clean fall-through instruction that goes on and spares its opcode: C and D advance, the relation is kept. */
  lemma InstructionCrossed(prog: Program, s: State, script: Script, dirty: set<Word>) returns (more: set<Word>)
    requires s.Valid() && !s.halted && Sim(prog, Adopt(s, dirty), s)
    requires s.C in prog && Flows(prog[s.C]) && s.C + Size(prog[s.C]) < MEM_SIZE && s.D + 1 < MEM_SIZE
    requires CleanSpan(s.C, Size(prog[s.C]), dirty)
    requires s.C !in DataWrites(s, script) && !Step(s, script).halted
    ensures var u := Step(s, script);
            u.Valid() && u.C == s.C + Size(prog[s.C]) && u.D == s.D + 1 && u.seed == s.seed
            && Sim(prog, Adopt(u, more), u) && more <= dirty + DataWrites(s, script) + {s.C}
  {
    hide Sim, Act, Step, DataWrites, WriteTargets, Size, Flows, Commit;
    var t := Adopt(s, dirty);
    FlowsClassic(prog[s.C]);
    WritesMatch(prog, t, s, script);
    assert SrcStep(prog, t, script).Some?;
    SimStep(prog, t, s, script);
    var u, v := SrcStep(prog, t, script).value, Step(s, script);
    SimPlace(prog, u, v);
    FlowStep(prog, t, script);
    NextWrap(s.C, Size(prog[s.C]));
    NextWrap(s.D, 1);
    RebaseSim(prog, u, v);
    StepFrame(s, script, 0);
    more := Rebase(prog, u, v).dirty;
    CommitMarks(prog, t, script);
  }

  lemma FlowsClassic(i: Instr)
    requires Flows(i)
    ensures i.Classic? ==> ClassicOp(i.op)
  {
  }

  lemma CommitMarks(prog: Program, t: Src, script: Script)
    requires |t.mem| == MEM_SIZE && !t.halted && SrcStep(prog, t, script).Some? && t.ran == {}
    ensures var u := SrcStep(prog, t, script).value;
            u.ran <= {t.C} && u.dirty == t.dirty + WriteTargets(Act(prog[t.C], t, script).writes)
  {
    hide Act, WriteTargets, ApplyWrites;
  }

  // ----- one item further: data -----

  predicate Within(x: Word, at: nat, n: nat) {
    at <= x < at + n
  }

  function Span(at: nat, n: nat): set<Word> {
    set x: Word | Within(x, at, n)
  }

  /** Crossing data spoils at most the cells C and D pass over. */
  lemma DataCrossed(prog: Program, s: State, t: State, n: nat, dirty: set<Word>)
    requires s.Valid() && s.D < s.C && s.C + n <= MEM_SIZE && OnCourse(s, t, n)
    requires Sim(prog, Adopt(s, dirty), s)
    ensures Sim(prog, Adopt(t, dirty + Span(s.D, n) + Span(s.C, n)), t)
  {
    hide DecodeFrame, DecodeOp, FrameOf, OpChar, TrailAt, Size;
    var more := dirty + Span(s.D, n) + Span(s.C, n);
    forall pc | pc in prog && CleanSpan(pc, Size(prog[pc]), more)
      ensures InstalledAt(t, pc, prog[pc], false)
    {
      SpanSize(prog, pc);
      assert CleanSpan(pc, Size(prog[pc]), dirty);
      assert InstalledAt(s, pc, prog[pc], false);
      forall x: Word | pc <= x < pc + Size(prog[pc])
        ensures t.mem[x] == s.mem[x]
      {
        assert x !in Span(s.D, n) && x !in Span(s.C, n);
        CourseFrame(s, t, n, x);
      }
      FramesKept(s, t, pc, prog[pc], false);
    }
  }

  lemma SpanSize(prog: Program, pc: nat)
    requires WellPlaced(prog) && pc in prog
    ensures pc + Size(prog[pc]) <= MEM_SIZE && Size(prog[pc]) > 0
  {
    SizePositive(prog[pc]);
  }

  /** A data item is where the layout says, charged a tick a cell, and no cell of it is marked. */
  lemma DataUnmarked(entries: seq<Entry>, trailing: seq<string>, layout: Layout, image: Image, v: State, z: nat)
    requires LayOutSource(entries, trailing) == Success(layout) && AssembleGlyph(layout) == Success(image)
             && ClassicSource(entries)
    requires v.Valid() && Booted(v, image.cells) && z < |layout.items| && IsData(layout.items[z].item)
    ensures LocatedTicks(layout.items[z]) == LocatedSize(layout.items[z])
    ensures AddressOf(layout, image, z) + LocatedSize(layout.items[z]) <= MEM_SIZE
    ensures var at := AddressOf(layout, image, z);
            forall x: Word :: at <= x < at + LocatedSize(layout.items[z]) ==> v.seed[x] == '\0'
  {
    hide LayOutSource, AssembleGlyph, ProgramOf, AddressOf, GoodImage, InStep, CountInitializers, ClassicSource,
         ClassicOnly, Booted, NotCode, Walk, LoadCells, WrapGlyphs, PlanFits;
    LayoutPrefix(entries, trailing, layout, image);
    ImageClassicOnly(entries, trailing);
    PrintLoadMark(image);
    InStepAt(layout.items, 0, MatTicks(CountInitializers(Mapped(entries, EntryItem))), image.prefix, z);
    DataPlain(layout.items[z], image.prefix);
    ItemBase(entries, trailing, layout, image, z);
    var at, n := AddressOf(layout, image, z), LocatedSize(layout.items[z]);
    ItemInside(entries, trailing, layout, image, z);
    forall x: Word | at <= x < at + n
      ensures v.seed[x] == '\0'
    {
      BufferIsData(entries, trailing, layout, image, z, x);
      NotMarked(image, v, x);
    }
  }

  lemma DataPlain(it: Located, base: nat)
    requires IsData(it.item) && PlanFits(it, base)
    ensures LocatedTicks(it) == LocatedSize(it) == ItemSize(it.item)
  {
  }

  /** Every item lies inside the image. */
  lemma ItemInside(entries: seq<Entry>, trailing: seq<string>, layout: Layout, image: Image, z: nat)
    requires LayOutSource(entries, trailing) == Success(layout) && AssembleGlyph(layout) == Success(image)
    requires z < |layout.items|
    ensures AddressOf(layout, image, z) + LocatedSize(layout.items[z]) <= MEM_SIZE
  {
    hide LayOutSource, AssembleGlyph, AddressOf, GoodImage, EmitItem, InStep, CountInitializers, PiecesSize,
         LocatedSize, PlanFits;
    LayoutPrefix(entries, trailing, layout, image);
    InStepAt(layout.items, 0, MatTicks(CountInitializers(Mapped(entries, EntryItem))), image.prefix, z);
    EmitSize(layout.items[z], image.labels, image.prefix);
    EmittedOk(entries, trailing, layout, image, z);
    ItemBase(entries, trailing, layout, image, z);
    var e := EmitItem(layout.items[z], image.labels, image.prefix).value;
    var before, behind := ImagePieces(layout, image, MatTicks(CountInitializers(Mapped(entries, EntryItem))), z, e);
    PiecesSizeSplit(before + e.pieces, behind);
    PiecesSizeSplit(before, e.pieces);
    GoodSize(image);
  }

  lemma NotMarked(image: Image, v: State, x: Word)
    requires v.Valid() && Booted(v, image.cells) && Walk(image.cells, 0) == ExtensionCells(ProgramOf(image.pieces, 0))
    requires NotCode(ProgramOf(image.pieces, 0), x)
    ensures v.seed[x] == '\0'
  {
    hide ProgramOf, DecodeOp, NotCode, Walk;
    if x in ProgramOf(image.pieces, 0) {
      OpcodeIsCode(ProgramOf(image.pieces, 0), x);
    }
  }

  /**
   Standing before a data item, the machine meets unmarked cells with D below C: the
   condition of the crossing applies.
   */
  lemma AtData(entries: seq<Entry>, trailing: seq<string>, layout: Layout, image: Image, v: State, s: State, z: nat)
    requires LayOutSource(entries, trailing) == Success(layout) && AssembleGlyph(layout) == Success(image)
             && ClassicSource(entries)
    requires v.Valid() && Booted(v, image.cells) && z < |layout.items| && IsData(layout.items[z].item)
    requires s.Valid() && s.seed == v.seed && s.C == AddressOf(layout, image, z)
    ensures s.C + LocatedSize(layout.items[z]) <= MEM_SIZE && Unmarked(s, LocatedSize(layout.items[z]))
    ensures LocatedTicks(layout.items[z]) == LocatedSize(layout.items[z])
  {
    hide LayOutSource, AssembleGlyph, AddressOf, Booted, ClassicSource, LocatedSize, LocatedTicks;
    DataUnmarked(entries, trailing, layout, image, v, z);
  }

  // ----- from start to the macro -----

  /** Standing at item j after startup. */
  lemma StandsFirst(entries: seq<Entry>, trailing: seq<string>, layout: Layout, image: Image, v: State, script: Script,
                    j: nat, k: nat) returns (dirty: set<Word>)
    requires LayOutSource(entries, trailing) == Success(layout) && AssembleGlyph(layout) == Success(image)
             && ClassicSource(entries)
    requires v.Valid() && Booted(v, image.cells) && j <= k < |layout.items|
             && image.start == AddressOf(layout, image, j)
    requires IsMacro(layout.items[k].item)
    ensures Stands(layout, image, Run(v, script, StepsTo(layout, image, j, j)), j, j, k, v.seed, dirty)
  {
    hide LayOutSource, AssembleGlyph, ProgramOf, AddressOf, GoodImage, InStep, CountInitializers, ClassicSource,
         ClassicOnly, Booted, Run, Sim, TicksBetween, Spares, OffCode, IsMacro;
    LayoutPrefix(entries, trailing, layout, image);
    ImageClassicOnly(entries, trailing);
    dirty := AfterStartup(image, v, script);
    OffCodeSpares(entries, trailing, layout, image, j, k, dirty);
    MacroInMemory(entries, trailing, layout, image, k);
    AddressGrows(layout, image, j, k);
    SmallWord(image.start);
    NoTicksYet(layout, j);
  }

  lemma SparesLater(layout: Layout, image: Image, i: nat, k: nat, xs: set<Word>)
    requires i < k < |layout.items| && Spares(layout, image, i, k, xs)
    ensures Spares(layout, image, i + 1, k, xs)
    ensures SingleStep(layout.items[i].item) ==>
            CleanSpan(AddressOf(layout, image, i), LocatedSize(layout.items[i]), xs)
  {
    hide AddressOf, LocatedSize, SingleStep, CleanSpan;
  }

  lemma SparesUnion(layout: Layout, image: Image, i: nat, k: nat, xs: set<Word>, ys: set<Word>, all: set<Word>)
    requires i <= k < |layout.items| && Spares(layout, image, i, k, xs) && Spares(layout, image, i, k, ys)
             && all <= xs + ys
    ensures Spares(layout, image, i, k, all)
  {
    hide AddressOf, LocatedSize, SingleStep;
    forall h | i <= h <= k && (h == k || SingleStep(layout.items[h].item))
      ensures CleanSpan(AddressOf(layout, image, h), LocatedSize(layout.items[h]), all)
    {
      assert CleanSpan(AddressOf(layout, image, h), LocatedSize(layout.items[h]), xs);
      assert CleanSpan(AddressOf(layout, image, h), LocatedSize(layout.items[h]), ys);
    }
  }

  /** Cells in front of item i spare everything from it on. */
  lemma SparesBehind(layout: Layout, image: Image, i: nat, k: nat, xs: set<Word>)
    requires i <= k < |layout.items| && forall x :: x in xs ==> x < AddressOf(layout, image, i)
    ensures Spares(layout, image, i, k, xs)
  {
    hide AddressOf, LocatedSize, SingleStep;
    forall h | i <= h <= k
      ensures CleanSpan(AddressOf(layout, image, h), LocatedSize(layout.items[h]), xs)
    {
      AddressGrows(layout, image, i, h);
    }
  }

  lemma InstructionNext(entries: seq<Entry>, trailing: seq<string>, layout: Layout, image: Image, s: State,
                        script: Script, j: nat, i: nat, k: nat, seed: seq<char>, dirty: set<Word>)
                          returns (more: set<Word>)
    requires LayOutSource(entries, trailing) == Success(layout) && AssembleGlyph(layout) == Success(image)
    requires j <= i < k < |layout.items| && IsMacro(layout.items[k].item) && SingleStep(layout.items[i].item)
    requires Stands(layout, image, s, j, i, k, seed, dirty) && Crosses(layout, image, i, k, s, script)
    ensures Stands(layout, image, Step(s, script), j, i + 1, k, seed, more)
    ensures StepsTo(layout, image, j, i + 1) == StepsTo(layout, image, j, i) + 1
  {
    hide LayOutSource, AssembleGlyph, ProgramOf, AddressOf, Step, Sim, TicksBetween, Spares, DataWrites, IsMacro, Flows,
         Size, CleanSpan, LocatedSize, LocatedTicks;
    StretchItem(entries, trailing, layout, image, i);
    TicksBelow(entries, trailing, layout, image, j, i);
    OneMoreTick(layout, j, i);
    MacroInMemory(entries, trailing, layout, image, k);
    AddressGrows(layout, image, i + 1, k);
    ItemAddress(entries, trailing, layout, image, i);
    SparesLater(layout, image, i, k, dirty);
    var prog := ProgramOf(image.pieces, 0);
    more := InstructionCrossed(prog, s, script, dirty);
    SizePositive(prog[s.C]);
    SparesBehind(layout, image, i + 1, k, {s.C});
    SparesUnion(layout, image, i + 1, k, dirty, DataWrites(s, script), dirty + DataWrites(s, script));
    SparesUnion(layout, image, i + 1, k, dirty + DataWrites(s, script), {s.C}, more);
  }

  lemma DataNext(entries: seq<Entry>, trailing: seq<string>, layout: Layout, image: Image, v: State, s: State,
                 script: Script, j: nat, i: nat, k: nat, dirty: set<Word>) returns (more: set<Word>)
    requires LayOutSource(entries, trailing) == Success(layout) && AssembleGlyph(layout) == Success(image)
             && ClassicSource(entries)
    requires v.Valid() && Booted(v, image.cells)
    requires j <= i < k < |layout.items| && IsMacro(layout.items[k].item) && IsData(layout.items[i].item)
    requires Stands(layout, image, s, j, i, k, v.seed, dirty) && Crosses(layout, image, i, k, s, script)
    ensures Stands(layout, image, Run(s, script, LocatedTicks(layout.items[i])), j, i + 1, k, v.seed, more)
    ensures StepsTo(layout, image, j, i + 1) == StepsTo(layout, image, j, i) + LocatedTicks(layout.items[i])
  {
    hide LayOutSource, AssembleGlyph, ProgramOf, AddressOf, Step, Run, Sim, TicksBetween, Spares, DataWrites, IsMacro,
         LocatedSize, LocatedTicks, Booted, ClassicSource, CellAdvances, TrailAt;
    AtData(entries, trailing, layout, image, v, s, i);
    TicksBelow(entries, trailing, layout, image, j, i);
    OneMoreTick(layout, j, i);
    MacroInMemory(entries, trailing, layout, image, k);
    AddressGrows(layout, image, i + 1, k);
    ItemAddress(entries, trailing, layout, image, i);
    var n := LocatedSize(layout.items[i]);
    WalksExactly(s, script, n);
    var t := Run(s, script, n);
    NextWrap(s.C, n);
    NextWrap(s.D, n);
    DataCrossed(ProgramOf(image.pieces, 0), s, t, n, dirty);
    more := dirty + Span(s.D, n) + Span(s.C, n);
    SparesLater(layout, image, i, k, dirty);
    SparesBehind(layout, image, i + 1, k, Span(s.D, n) + Span(s.C, n));
    SparesUnion(layout, image, i + 1, k, dirty, Span(s.D, n) + Span(s.C, n), more);
  }

  /**
   From start to item i on schedule: a stretch of instructions and data whose
   cells advance takes exactly the ticks the layout charges, with C on the item's
   address and everything still to come executable.
   */
  lemma {:induction false} StretchFalls(entries: seq<Entry>, trailing: seq<string>, layout: Layout, image: Image,
                                        v: State, script: Script, j: nat, i: nat, k: nat) returns (dirty: set<Word>)
    requires LayOutSource(entries, trailing) == Success(layout) && AssembleGlyph(layout) == Success(image)
             && ClassicSource(entries)
    requires Reached(layout, image, v, script, j, k) && IsMacro(layout.items[k].item) && j <= i <= k
    ensures Stands(layout, image, Run(v, script, StepsTo(layout, image, j, i)), j, i, k, v.seed, dirty)
    decreases i
  {
    hide LayOutSource, AssembleGlyph, AddressOf, Run, Step, Stands, StepsTo, Crosses, SingleStep, IsData, IsMacro,
         ClassicSource, Booted, LocatedTicks;
    if i == j {
      dirty := StandsFirst(entries, trailing, layout, image, v, script, j, k);
    } else {
      var before := StretchFalls(entries, trailing, layout, image, v, script, j, i - 1, k);
      var s := Run(v, script, StepsTo(layout, image, j, i - 1));
      StandsOn(layout, image, s, j, i - 1, k, v.seed, before);
      if IsData(layout.items[i - 1].item) {
        dirty := DataNext(entries, trailing, layout, image, v, s, script, j, i - 1, k, before);
        RunSplit(v, script, StepsTo(layout, image, j, i - 1), LocatedTicks(layout.items[i - 1]));
      } else {
        dirty := InstructionNext(entries, trailing, layout, image, s, script, j, i - 1, k, v.seed, before);
        LastStep(v, script, StepsTo(layout, image, j, i - 1));
      }
    }
  }

  lemma StandsOn(layout: Layout, image: Image, s: State, j: nat, i: nat, k: nat, seed: seq<char>, dirty: set<Word>)
    requires j <= i <= k < |layout.items| && Stands(layout, image, s, j, i, k, seed, dirty)
    ensures s.Valid() && !s.halted && s.C == AddressOf(layout, image, i) && s.D == StepsTo(layout, image, j, i)
            && s.seed == seed
  {
    hide AddressOf, StepsTo, Sim, Spares;
  }

  // ----- data in the path of control -----

  /** The machine has come, in any way, to data item z with D below C, and the item's cells hold these values. */
  ghost predicate AtValues(layout: Layout, image: Image, v: State, s: State, z: nat, values: seq<int>)
    requires z < |layout.items|
  {
    s.Valid() && !s.halted && s.seed == v.seed && s.D < s.C
    && s.C == AddressOf(layout, image, z) && s.C + |values| <= MEM_SIZE
    && forall q :: 0 <= q < |values| ==> s.mem[s.C + q] == ModWord(values[q])
  }

  /**
   The tick charge of initialised data, exactly.  Control that comes to a data
   item crosses its n cells in the n ticks charged for them, one cell a tick,
   if and only if every declared value is printable and decodes, at its own
   address, to an operation that takes C and D one cell on.
   */
  lemma DataExactly(entries: seq<Entry>, trailing: seq<string>, layout: Layout, image: Image, v: State, s: State,
                    script: Script, z: nat, values: seq<int>)
    requires LayOutSource(entries, trailing) == Success(layout) && AssembleGlyph(layout) == Success(image)
             && ClassicSource(entries)
    requires v.Valid() && Booted(v, image.cells) && z < |layout.items|
    requires Declared(layout.items[z].item, image.labels) == Some(values) && AtValues(layout, image, v, s, z, values)
    ensures TicksBetween(layout, z, z + 1) == |values|
    ensures WalksOn(s, script, |values|) <==> forall q :: 0 <= q < |values| ==> ValueAdvances(s, q, ModWord(values[q]))
  {
    hide LayOutSource, AssembleGlyph, AddressOf, Booted, ClassicSource, LocatedSize, LocatedTicks, TicksBetween,
         WalksOn, ValueAdvances;
    DeclaredIsData(layout.items[z].item, image.labels);
    DeclaredTicks(entries, trailing, layout, image, z);
    AtData(entries, trailing, layout, image, v, s, z);
    OneItemTicks(layout, z);
    WalksExactly(s, script, |values|);
    ValuesAreCells(s, values);
  }

  lemma ValuesAreCells(s: State, values: seq<int>)
    requires s.Valid() && s.D < s.C && s.C + |values| <= MEM_SIZE
    requires forall q :: 0 <= q < |values| ==> s.mem[s.C + q] == ModWord(values[q])
    ensures forall q :: 0 <= q < |values| ==> CellAdvances(s, q) == ValueAdvances(s, q, ModWord(values[q]))
  {
    hide ValueAdvances;
  }

  lemma OneItemTicks(layout: Layout, z: nat)
    requires z < |layout.items|
    ensures TicksBetween(layout, z, z + 1) == LocatedTicks(layout.items[z])
  {
    hide LocatedTicks, TicksBetween;
    NoTicksYet(layout, z);
    OneMoreTick(layout, z, z);
  }

  lemma DeclaredIsData(item: Item, labels: Labels)
    requires Declared(item, labels).Some?
    ensures IsData(item)
  {
    hide EvalAll;
  }

  /**
   The first declared value that does not advance decides what happens: the
   values before it are crossed, and at it the machine stops (with code 127 if
   the value is not printable, with its exit code unchanged at a halt) or goes
   on with C or D elsewhere.
   */
  lemma InitialisedDataStops(entries: seq<Entry>, trailing: seq<string>, layout: Layout, image: Image, v: State,
                             s: State, script: Script, z: nat, values: seq<int>, k: nat)
    requires LayOutSource(entries, trailing) == Success(layout) && AssembleGlyph(layout) == Success(image)
             && ClassicSource(entries)
    requires v.Valid() && Booted(v, image.cells) && z < |layout.items|
    requires Declared(layout.items[z].item, image.labels) == Some(values) && AtValues(layout, image, v, s, z, values)
    requires k < |values| && !ValueAdvances(s, k, ModWord(values[k]))
    requires forall q :: 0 <= q < k ==> ValueAdvances(s, q, ModWord(values[q]))
    ensures WalksOn(s, script, k) && Diverted(s, k, ModWord(values[k]), Run(s, script, k + 1))
  {
    hide LayOutSource, AssembleGlyph, AddressOf, Booted, ClassicSource, LocatedSize, LocatedTicks, WalksOn,
         ValueAdvances, Diverted, Run, TicksBetween;
    DeclaredIsData(layout.items[z].item, image.labels);
    AtData(entries, trailing, layout, image, v, s, z);
    DeclaredTicks(entries, trailing, layout, image, z);
    OneItemTicks(layout, z);
    ValuesAreCells(s, values);
    FirstOffender(s, script, |values|, k);
  }

  /** A data item at `start`: the machine comes to it straight after startup, which has just stored its values. */
  lemma StartsAtValues(entries: seq<Entry>, trailing: seq<string>, layout: Layout, image: Image, v: State,
                       script: Script, z: nat, values: seq<int>)
    requires LayOutSource(entries, trailing) == Success(layout) && AssembleGlyph(layout) == Success(image)
             && ClassicSource(entries)
    requires v.Valid() && Booted(v, image.cells) && z < |layout.items| && image.start == AddressOf(layout, image, z)
    requires Declared(layout.items[z].item, image.labels) == Some(values) && values != []
    ensures AtValues(layout, image, v, Run(v, script, MatTicks(|image.inits|)), z, values)
    ensures Run(v, script, MatTicks(|image.inits|)).exitCode == 0
  {
    hide LayOutSource, AssembleGlyph, AddressOf, GoodImage, Booted, ClassicSource, ClassicOnly, Run, CountInitializers,
         InStep, ProgramOf, Declared, LocatedSize;
    LayoutPrefix(entries, trailing, layout, image);
    ImageClassicOnly(entries, trailing);
    DeclaredIsData(layout.items[z].item, image.labels);
    InitsInMemory(image);
    MaterializerCorrect(image, v, script);
    StartupCode(image, v, script);
    RunKeepsSeed(v, script, MatTicks(|image.inits|));
    DataUnmarked(entries, trailing, layout, image, v, z);
    DeclaredTicks(entries, trailing, layout, image, z);
    OneItemTicks(layout, z);
    ItemBase(entries, trailing, layout, image, z);
    StartsInsidePrefix(image);
    AddressBehind(layout, image, z);
    forall q | 0 <= q < |values|
      ensures Run(v, script, MatTicks(|image.inits|)).mem[AddressOf(layout, image, z) + q] == ModWord(values[q])
    {
      DataDelivered(entries, trailing, layout, image, v, script, z, q);
    }
    assert AddressOf(layout, image, z) + |values| <= MEM_SIZE;
    SmallWord(image.start);
  }

  lemma StartupCode(image: Image, v: State, script: Script)
    requires GoodImage(image) && ClassicOnly(image.pieces) && v.Valid() && Booted(v, image.cells)
    ensures Run(v, script, MatTicks(|image.inits|)).exitCode == 0
  {
    hide GoodImage, ProgramOf, SrcRun, Booted, MatTicks, PlainStart, Sim, Run, ClassicOnly;
    InitsInMemory(image);
    BootMemory(v);
    StartSafe(image, v, script);
    SimFromBoot(image, v, script, MatTicks(|image.inits|));
    ZeroCode(ProgramOf(image.pieces, 0), image, v, SrcRun(ProgramOf(image.pieces, 0), SourceBoot(v), script,
                                                          MatTicks(|image.inits|)).value,
             Run(v, script, MatTicks(|image.inits|)));
  }

  lemma ZeroCode(prog: Program, image: Image, v: State, t: Src, s: State)
    requires GoodImage(image) && v.Valid() && AtStart(image, v, t) && Sim(prog, t, s)
    ensures s.exitCode == 0
  {
    hide GoodImage, InitWrites, ApplyWrites, InstalledAt;
  }

  /** Reserved cells nobody has written hold no-ops: a `zero N` is always crossed. */
  lemma ReservedAdvance(entries: seq<Entry>, trailing: seq<string>, layout: Layout, image: Image, v: State, s: State,
                        z: nat)
    requires LayOutSource(entries, trailing) == Success(layout) && AssembleGlyph(layout) == Success(image)
             && ClassicSource(entries)
    requires v.Valid() && Booted(v, image.cells) && z < |layout.items| && layout.items[z].item.IZero?
    requires s.Valid() && s.seed == v.seed && s.C == AddressOf(layout, image, z) && s.D < s.C
    requires forall x: Word :: s.C <= x < s.C + LocatedSize(layout.items[z]) ==> s.mem[x] == v.mem[x]
    ensures CellsAdvance(s, LocatedSize(layout.items[z]))
  {
    hide LayOutSource, AssembleGlyph, AddressOf, GoodImage, InStep, CountInitializers, ClassicSource, EmitItem,
         PiecesSize, PlanFits, TrailAt, DecodeOp, EncodePieces, Booted;
    LayoutPrefix(entries, trailing, layout, image);
    InStepAt(layout.items, 0, MatTicks(CountInitializers(Mapped(entries, EntryItem))), image.prefix, z);
    ZeroItem(layout.items[z], image.labels, image.prefix);
    AtData(entries, trailing, layout, image, v, s, z);
    ItemBase(entries, trailing, layout, image, z);
    var n := layout.items[z].item.count;
    var before, behind := ImagePieces(layout, image, MatTicks(CountInitializers(Mapped(entries, EntryItem))), z,
                                      Emission([Filler(n)], []));
    FillerInImage(image, v, before, n, behind);
    forall q | 0 <= q < n
      ensures CellAdvances(s, q)
    {
      assert s.mem[s.C + q] == v.mem[s.C + q];
    }
  }

  lemma ZeroItem(it: Located, labels: Labels, base: nat)
    requires it.item.IZero? && PlanFits(it, base)
    ensures EmitItem(it, labels, base) == Success(Emission([Filler(it.item.count)], []))
    ensures LocatedTicks(it) == LocatedSize(it) == it.item.count
  {
  }

  lemma FillerInImage(image: Image, v: State, before: seq<Piece>, n: nat, behind: seq<Piece>)
    requires GoodImage(image) && v.Valid() && Booted(v, image.cells) && image.pieces == before + [Filler(n)] + behind
    ensures PiecesSize(before) + n <= MEM_SIZE
    ensures forall x: Word :: PiecesSize(before) <= x < PiecesSize(before) + n ==>
            Graphic(v.mem[x]) && DecodeOp(v.mem[x], x) == 'o'
  {
    hide DecodeOp, EncodePiece, MatPieces, ProgramOf, NotCode, PiecesSize, FillerCell, EncodePieces, Marked;
    var at := PiecesSize(before);
    var mid := [Filler(n)];
    EncodeApart(before + mid, behind, 0);
    EncodeApart(before, mid, 0);
    PiecesSizeSplit(before, mid);
    OneFiller(n, at);
    var front, cells := EncodePieces(before, 0).value, FillerCells(n, at);
    EncodePiecesLength(before, 0);
    assert image.cells[..at + n] == front + cells;
    forall x: Word | at <= x < at + n
      ensures Graphic(v.mem[x]) && DecodeOp(v.mem[x], x) == 'o'
    {
      assert v.mem[x] == v.mem[..|image.cells|][x] == image.cells[x] == image.cells[..at + n][x] == cells[x - at];
      FillerDecodes(n, at, x - at);
    }
  }

  lemma OneFiller(n: nat, at: nat)
    ensures PiecesSize([Filler(n)]) == n && EncodePieces([Filler(n)], at) == Success(FillerCells(n, at))
  {
    assert [Filler(n)][1..] == [] && EncodePieces([], at + n) == Success([]);
    assert FillerCells(n, at) + [] == FillerCells(n, at);
  }

  lemma {:induction false} FillerDecodes(n: nat, at: nat, q: nat)
    requires q < n
    ensures Graphic(FillerCells(n, at)[q]) && DecodeOp(FillerCells(n, at)[q], at + q) == 'o'
    decreases n
  {
    hide FillerCell, DecodeOp;
    if q > 0 {
      FillerDecodes(n - 1, at + 1, q - 1);
    }
  }

  /** An encoding of two stretches is the encoding of the first and then of the second. */
  lemma {:induction false} EncodeApart(a: seq<Piece>, b: seq<Piece>, addr: nat)
    requires EncodePieces(a + b, addr).Success?
    ensures EncodePieces(a, addr).Success? && EncodePieces(b, addr + PiecesSize(a)).Success?
    ensures EncodePieces(a + b, addr).value
         == EncodePieces(a, addr).value + EncodePieces(b, addr + PiecesSize(a)).value
    decreases |a|
  {
    hide EncodePiece;
    if a == [] {
      assert a + b == b;
      assert [] + EncodePieces(b, addr).value == EncodePieces(b, addr).value;
    } else {
      assert (a + b)[0] == a[0] && (a + b)[1..] == a[1..] + b;
      EncodeApart(a[1..], b, addr + PieceSize(a[0]));
      var first := EncodePiece(a[0], addr).value;
      var ra := EncodePieces(a[1..], addr + PieceSize(a[0])).value;
      var rb := EncodePieces(b, addr + PiecesSize(a)).value;
      assert first + (ra + rb) == (first + ra) + rb;
    }
  }

  lemma DeclaredTicks(entries: seq<Entry>, trailing: seq<string>, layout: Layout, image: Image, z: nat)
    requires LayOutSource(entries, trailing) == Success(layout) && AssembleGlyph(layout) == Success(image)
    requires z < |layout.items| && Declared(layout.items[z].item, image.labels).Some?
    ensures TicksBetween(layout, z, z + 1) == |Declared(layout.items[z].item, image.labels).value|
  {
    hide LayOutSource, AssembleGlyph, GoodImage, CountInitializers, InStep, PlanFits, TicksBetween, EvalAll;
    LayoutPrefix(entries, trailing, layout, image);
    InStepAt(layout.items, 0, MatTicks(CountInitializers(Mapped(entries, EntryItem))), image.prefix, z);
    NoTicksYet(layout, z);
    OneMoreTick(layout, z, z);
    DeclaredCost(layout.items[z], image.labels, image.prefix);
  }

  lemma DeclaredCost(it: Located, labels: Labels, base: nat)
    requires PlanFits(it, base) && Declared(it.item, labels).Some?
    ensures LocatedTicks(it) == |Declared(it.item, labels).value|
  {
    hide PlanEntry;
  }


  // ----- a plain program that falls through -----

  lemma {:induction false} PlainStays(prog: Program, s: Src, script: Script, m: nat, n: nat)
    requires |s.mem| == MEM_SIZE && m <= n
    requires PlainRun(prog, s, script, n).Some? && !PlainRun(prog, s, script, n).value.halted
    ensures PlainRun(prog, s, script, m).Some? && !PlainRun(prog, s, script, m).value.halted
    ensures m < n ==> PlainStep(prog, PlainRun(prog, s, script, m).value, script).Some?
                      && !PlainStep(prog, PlainRun(prog, s, script, m).value, script).value.halted
    decreases n
  {
    hide PlainStep;
    PlainGoesOn(prog, s, script, n);
    if m > 0 {
      PlainStays(prog, PlainStep(prog, s, script).value, script, m - 1, n - 1);
    } else if n > 0 {
      PlainGoesOn(prog, PlainStep(prog, s, script).value, script, n - 1);
    }
  }

  lemma PlainGoesOn(prog: Program, s: Src, script: Script, n: nat)
    requires |s.mem| == MEM_SIZE
    requires PlainRun(prog, s, script, n).Some? && !PlainRun(prog, s, script, n).value.halted
    ensures !s.halted
    ensures n > 0 ==>
              PlainStep(prog, s, script).Some?
              && PlainRun(prog, s, script, n) == PlainRun(prog, PlainStep(prog, s, script).value, script, n - 1)
  {
    hide PlainStep;
  }

  /** A plain step writes no code, on the machine either. */
  lemma PlainSpares(prog: Program, t: Src, s: State, script: Script)
    requires Sim(prog, t, s) && WellPlaced(prog) && Safe(prog, t) && !t.halted
    requires PlainStep(prog, Strip(t), script).Some? && !PlainStep(prog, Strip(t), script).value.halted
    ensures s.Valid() && !s.halted && !Step(s, script).halted && OffCode(prog, DataWrites(s, script)) && s.C in prog
  {
    hide Act, SrcStep, PlainStep, Step, DataWrites, WriteTargets, NotCode;
    PlainStepSafe(prog, t, script);
    StepMatches(prog, t, s, script);
    StepDirty(prog, t, script);
  }

  lemma StepDirty(prog: Program, t: Src, script: Script)
    requires |t.mem| == MEM_SIZE && !t.halted && SrcStep(prog, t, script).Some?
    ensures t.C in prog && SrcStep(prog, t, script).value.dirty
            == t.dirty + WriteTargets(Act(prog[t.C], t, script).writes)
  {
    hide Act, WriteTargets, ApplyWrites;
    ActStrip(prog[t.C], t, script);
  }

  lemma PlainAt(image: Image, v: State, script: Script, m: nat, n: nat)
    requires GoodImage(image) && ClassicOnly(image.pieces) && v.Valid() && Booted(v, image.cells) && m < n
    requires forall i :: 0 <= i < |image.inits| ==> image.inits[i].0 < MEM_SIZE
    requires var t := PlainRun(ProgramOf(image.pieces, 0), PlainStart(image, v), script, n); t.Some? && !t.value.halted
    ensures var s := Run(v, script, MatTicks(|image.inits|) + m);
            s.Valid() && !s.halted && !Step(s, script).halted && s.C in ProgramOf(image.pieces, 0)
            && OffCode(ProgramOf(image.pieces, 0), DataWrites(s, script))
  {
    hide GoodImage, ProgramOf, SrcRun, PlainRun, PlainStep, Booted, AtStart, MatTicks, PlainStart, Sim, Run, Step,
         ClassicOnly, Safe, OffCode, DataWrites, WellPlaced;
    var prog, ticks := ProgramOf(image.pieces, 0), MatTicks(|image.inits|);
    InitsInMemory(image);
    BootMemory(v);
    StartSafe(image, v, script);
    var s := SrcRun(prog, SourceBoot(v), script, ticks).value;
    PlainStays(prog, PlainStart(image, v), script, m, n);
    PlainRunSafe(prog, s, script, m);
    SrcRunSplit(prog, SourceBoot(v), script, ticks, m);
    SimFromBoot(image, v, script, ticks + m);
    var t := SrcRun(prog, s, script, m).value;
    StripHalted(t);
    PlainSpares(prog, t, Run(v, script, ticks + m), script);
  }

  lemma StripHalted(t: Src)
    ensures Strip(t).halted == t.halted
  {
  }

  /**
   The plain machine suffices for a stretch of instructions: if its run falls through from
   `start`, the macro is reached.
   */
  lemma PlainReaches(entries: seq<Entry>, trailing: seq<string>, layout: Layout, image: Image, v: State,
                     script: Script, j: nat, k: nat)
    requires LayOutSource(entries, trailing) == Success(layout) && AssembleGlyph(layout) == Success(image)
             && ClassicSource(entries)
    requires v.Valid() && Booted(v, image.cells) && forall i :: 0 <= i < |image.inits| ==> image.inits[i].0 < MEM_SIZE
    requires j <= k < |layout.items| && IsMacro(layout.items[k].item) && image.start == AddressOf(layout, image, j)
    requires forall i :: j <= i < k ==>
               SingleStep(layout.items[i].item) || (IsData(layout.items[i].item) && LocatedSize(layout.items[i]) == 0)
    requires var t := PlainRun(ProgramOf(image.pieces, 0), PlainStart(image, v), script, TicksBetween(layout, j, k));
             t.Some? && !t.value.halted
    ensures Reached(layout, image, v, script, j, k)
    ensures var t := PlainRun(ProgramOf(image.pieces, 0), PlainStart(image, v), script,
                              TicksBetween(layout, j, k)).value;
            var s := Run(v, script, StepsTo(layout, image, j, k));
            s.output == t.output && forall x: Word :: NotCode(ProgramOf(image.pieces, 0), x) ==> s.mem[x] == t.mem[x]
  {
    hide LayOutSource, AssembleGlyph, ProgramOf, AddressOf, GoodImage, ClassicSource, ClassicOnly, Booted, PlainRun,
         PlainStart, TicksBetween, SingleStep, IsData, IsMacro, LocatedSize, Crosses, CountInitializers, InStep, Run,
         NotCode, EffectiveOp, OpChar, MatTicks;
    LayoutPrefix(entries, trailing, layout, image);
    ImageClassicOnly(entries, trailing);
    forall i | j <= i < k
      ensures Crosses(layout, image, i, k, Run(v, script, StepsTo(layout, image, j, i)), script)
    {
      PlainCrosses(entries, trailing, layout, image, v, script, j, i, k);
    }
    CompilerCorrect(image, v, script, TicksBetween(layout, j, k));
  }

  /** Where the plain run stands when the layout says item i begins, and what its next step spares. */
  lemma PlainCrosses(entries: seq<Entry>, trailing: seq<string>, layout: Layout, image: Image, v: State,
                     script: Script, j: nat, i: nat, k: nat)
    requires LayOutSource(entries, trailing) == Success(layout) && AssembleGlyph(layout) == Success(image)
    requires GoodImage(image) && ClassicOnly(image.pieces) && v.Valid() && Booted(v, image.cells)
    requires forall h :: 0 <= h < |image.inits| ==> image.inits[h].0 < MEM_SIZE
    requires j <= i < k < |layout.items| && IsMacro(layout.items[k].item)
    requires SingleStep(layout.items[i].item) || (IsData(layout.items[i].item) && LocatedSize(layout.items[i]) == 0)
    requires var t := PlainRun(ProgramOf(image.pieces, 0), PlainStart(image, v), script, TicksBetween(layout, j, k));
             t.Some? && !t.value.halted
    ensures Crosses(layout, image, i, k, Run(v, script, StepsTo(layout, image, j, i)), script)
  {
    hide LayOutSource, AssembleGlyph, ProgramOf, AddressOf, GoodImage, ClassicOnly, Booted, PlainRun, PlainStart,
         OffCode, Step, TicksBetween, IsMacro, Spares, LocatedSize, CountInitializers, InStep, Run, NotCode, DataWrites,
         MatTicks, SingleStep, Crosses, IsData;
    var m, n := TicksBetween(layout, j, i), TicksBetween(layout, j, k);
    var s := Run(v, script, StepsTo(layout, image, j, i));
    TicksLater(layout, j, i, k);
    if SingleStep(layout.items[i].item) {
      SingleTick(entries, trailing, layout, image, i);
      PlainAt(image, v, script, m, n);
      NotSelf(ProgramOf(image.pieces, 0), s, script);
      OffCodeSpares(entries, trailing, layout, image, i + 1, k, DataWrites(s, script));
      SingleNotData(layout.items[i].item);
      InstructionCrosses(layout, image, i, k, s, script);
    } else {
      RunsOn(image, v, script, m, n);
      EmptyCrosses(layout, image, i, k, s, script);
    }
  }

  lemma InstructionCrosses(layout: Layout, image: Image, i: nat, k: nat, s: State, script: Script)
    requires i < k < |layout.items| && !IsData(layout.items[i].item) && s.Valid() && !s.halted
    requires !Step(s, script).halted && s.C !in DataWrites(s, script)
             && Spares(layout, image, i + 1, k, DataWrites(s, script))
    ensures Crosses(layout, image, i, k, s, script)
  {
    hide Step, DataWrites, Spares, IsData;
  }

  lemma EmptyCrosses(layout: Layout, image: Image, i: nat, k: nat, s: State, script: Script)
    requires i < k < |layout.items| && IsData(layout.items[i].item) && LocatedSize(layout.items[i]) == 0
    requires s.Valid() && !s.halted
    ensures Crosses(layout, image, i, k, s, script)
  {
    hide Step, DataWrites, Spares, IsData, LocatedSize;
  }

  lemma SingleNotData(item: Item)
    requires SingleStep(item)
    ensures !IsData(item)
  {
  }

  lemma SingleTick(entries: seq<Entry>, trailing: seq<string>, layout: Layout, image: Image, i: nat)
    requires LayOutSource(entries, trailing) == Success(layout) && AssembleGlyph(layout) == Success(image)
    requires i < |layout.items| && SingleStep(layout.items[i].item)
    ensures LocatedTicks(layout.items[i]) == 1
  {
    hide LayOutSource, AssembleGlyph, ProgramOf, AddressOf, Flows, Size, EmitItem;
    StretchItem(entries, trailing, layout, image, i);
  }

  lemma NotSelf(prog: Program, s: State, script: Script)
    requires s.Valid() && !s.halted && s.C in prog && OffCode(prog, DataWrites(s, script))
    ensures s.C !in DataWrites(s, script)
  {
    hide DataWrites, NotCode;
    OpcodeIsCode(prog, s.C);
  }

  lemma RunsOn(image: Image, v: State, script: Script, m: nat, n: nat)
    requires GoodImage(image) && ClassicOnly(image.pieces) && v.Valid() && Booted(v, image.cells) && m <= n
    requires forall i :: 0 <= i < |image.inits| ==> image.inits[i].0 < MEM_SIZE
    requires var t := PlainRun(ProgramOf(image.pieces, 0), PlainStart(image, v), script, n); t.Some? && !t.value.halted
    ensures var s := Run(v, script, MatTicks(|image.inits|) + m);
            s.Valid() && !s.halted && s.D as nat <= MEM_SIZE && s.C as nat <= MEM_SIZE
  {
    hide GoodImage, ProgramOf, PlainRun, Booted, PlainStart, Run, ClassicOnly, EffectiveOp, OpChar, NotCode, MatTicks;
    StartMemory(image, v);
    PlainStays(ProgramOf(image.pieces, 0), PlainStart(image, v), script, m, n);
    CompilerCorrect(image, v, script, m);
  }

  lemma StartMemory(image: Image, v: State)
    requires v.Valid() && forall i :: 0 <= i < |image.inits| ==> image.inits[i].0 < MEM_SIZE
    ensures |PlainStart(image, v).mem| == MEM_SIZE
  {
    hide ApplyWrites, InitWrites;
  }

  lemma {:induction false} TicksLater(layout: Layout, j: nat, i: nat, k: nat)
    requires j <= i <= k <= |layout.items|
    ensures TicksBetween(layout, j, i) <= TicksBetween(layout, j, k)
    ensures i < k ==> TicksBetween(layout, j, i) + LocatedTicks(layout.items[i]) <= TicksBetween(layout, j, k)
    decreases k
  {
    hide TicksBetween, LocatedTicks;
    if i < k {
      TicksLater(layout, j, i, k - 1);
      OneMoreTick(layout, j, k - 1);
    }
  }

  // ----- the macro -----

  /**
   The tick model against the machine.  When control comes to a macro from
   `start`, C is where the plan was made for, and the planned D is ahead of the
   machine's D by exactly the ticks charged in front of `start`: data placed
   there is counted by the layout although the startup jump skips it.
   */
  lemma OnTimeExactly(entries: seq<Entry>, trailing: seq<string>, layout: Layout, image: Image,
                      v: State, script: Script, j: nat, k: nat)
    requires LayOutSource(entries, trailing) == Success(layout) && AssembleGlyph(layout) == Success(image)
             && ClassicSource(entries)
    requires Reached(layout, image, v, script, j, k) && IsMacro(layout.items[k].item)
    ensures layout.items[k].plan.Some?
    ensures var plan, u := layout.items[k].plan.value, Run(v, script, StepsTo(layout, image, j, k));
            u.C == plan.cellBase && plan.dEntry == u.D + LayoutTicks(layout.items[..j])
            && (u.D == plan.dEntry <==> LayoutTicks(layout.items[..j]) == 0)
  {
    hide LayOutSource, AssembleGlyph, AddressOf, PlanEntry, EmitItem, GoodImage, Run, MatTicks, TicksBetween,
         LayoutTicks, ClassicSource, Sim, Booted, Crosses, Stands, FallsThrough;
    var dirty := StretchFalls(entries, trailing, layout, image, v, script, j, k, k);
    StandsOn(layout, image, Run(v, script, StepsTo(layout, image, j, k)), j, k, k, v.seed, dirty);
    MacroInMemory(entries, trailing, layout, image, k);
    PlannedTick(entries, trailing, layout, image, j, k);
  }

  /** What a macro that has been reached shows of its code: placed, in memory, neither executed nor overwritten. */
  lemma CodeWaits(entries: seq<Entry>, trailing: seq<string>, layout: Layout, image: Image, v: State, script: Script,
                  j: nat, k: nat, r: Request, plan: Plan) returns (t: Src)
    requires LayOutSource(entries, trailing) == Success(layout) && AssembleGlyph(layout) == Success(image)
             && ClassicSource(entries)
    requires Reached(layout, image, v, script, j, k) && EmitsPlan(layout, image, k, r, plan)
             && IsMacro(layout.items[k].item)
    ensures plan.dEntry == StepsTo(layout, image, j, k) + LayoutTicks(layout.items[..j])
    ensures var s := Run(v, script, StepsTo(layout, image, j, k));
            Sim(ProgramOf(image.pieces, 0), t, s) && t.mem == s.mem && t.ran == {} && |t.mem| == MEM_SIZE && !t.halted
            && Placed(ProgramOf(image.pieces, 0), plan.ops, plan.cellBase)
            && plan.cellBase + plan.CellCount() <= MEM_SIZE
            && t.C == plan.cellBase && t.D + LayoutTicks(layout.items[..j]) == plan.dEntry
            && (forall x: Word :: x in t.ran || x in t.dirty ==>
                  !(plan.cellBase <= x < plan.cellBase + plan.CellCount()))
  {
    hide LayOutSource, AssembleGlyph, ProgramOf, AddressOf, PlanEntry, EmitItem, GoodImage, Run, MatTicks, LayoutTicks,
         ClassicSource, Sim, Placed, SizeAll, Booted, LocatedSize, Crosses, TicksBetween, FallsThrough, SingleStep;
    var dirty := StretchFalls(entries, trailing, layout, image, v, script, j, k, k);
    var s := Run(v, script, StepsTo(layout, image, j, k));
    MacroStands(entries, trailing, layout, image, k, r, plan);
    PlannedTick(entries, trailing, layout, image, j, k);
    assert CleanSpan(AddressOf(layout, image, k), LocatedSize(layout.items[k]), dirty);
    t := Adopt(s, dirty);
  }

  /**
   The ritual inside an assembled program.  Boot the image of a source whose
   item k is a crazyinc macro reached from `start` through instructions and
   data that fall through, with no ticks charged in front of `start`: the
   machine follows the plan row by row, prints OK and a newline after what the
   stretch printed, halts, and the mutable cell, for a live-cell macro the
   named one, holds the value plus one.
   */
  lemma MacroRuns(entries: seq<Entry>, trailing: seq<string>, layout: Layout, image: Image,
                  v: State, script: Script, j: nat, k: nat) returns (r: Request, plan: Plan)
    requires LayOutSource(entries, trailing) == Success(layout) && AssembleGlyph(layout) == Success(image)
             && ClassicSource(entries)
    requires Reached(layout, image, v, script, j, k) && IsMacro(layout.items[k].item)
    requires LiveHolds(layout.items[k].item, image.labels, Run(v, script, StepsTo(layout, image, j, k)).mem)
    requires LayoutTicks(layout.items[..j]) == 0
    ensures EmitsPlan(layout, image, k, r, plan)
    ensures plan.cellAddr == LiveCell(layout.items[k].item, image.labels)
    ensures MacroDone(plan, Run(v, script, StepsTo(layout, image, j, k)), script, layout.items[k].item.value)
  {
    hide LayOutSource, AssembleGlyph, ProgramOf, AddressOf, PlanEntry, EmitItem, GoodImage, Run, MatTicks, TicksBetween,
         LayoutTicks, ClassicSource, Sim, Entered, LiveHolds, MacroDone, Eval, Booted, Crosses, FallsThrough;
    r, plan := MacroEmits(entries, trailing, layout, image, k);
    var t := CodeWaits(entries, trailing, layout, image, v, script, j, k, r, plan);
    LiveEntered(ProgramOf(image.pieces, 0), layout.items[k].item, image.labels, plan, t);
    RitualDone(r, ProgramOf(image.pieces, 0), t, Run(v, script, StepsTo(layout, image, j, k)), script,
               layout.items[k].item.value);
  }

  /**
   And when it is late.  With at least seven ticks charged in front of `start`
   (or any number at which no crazy meets the mutable cell), a crazyinc macro
   without a live cell runs to its halt and its mutable cell still holds the
   value it was meant to step past.
   */
  lemma LateMacro(entries: seq<Entry>, trailing: seq<string>, layout: Layout, image: Image,
                  v: State, script: Script, j: nat, k: nat) returns (r: Request, plan: Plan)
    requires LayOutSource(entries, trailing) == Success(layout) && AssembleGlyph(layout) == Success(image)
             && ClassicSource(entries)
    requires Reached(layout, image, v, script, j, k) && layout.items[k].item.ICrazyInc?
    ensures EmitsPlan(layout, image, k, r, plan) && r.value == layout.items[k].item.value
    ensures LayoutTicks(layout.items[..j]) >= 7 || Misses(plan, LayoutTicks(layout.items[..j])) ==>
              var u := Run(v, script, StepsTo(layout, image, j, k) + |plan.ops|);
              u.Valid() && u.halted && plan.MutableAddr() < MEM_SIZE
              && u.mem[plan.MutableAddr()] == ModWord(r.value) != ModWord(r.value + 1)
  {
    hide LayOutSource, AssembleGlyph, ProgramOf, AddressOf, PlanEntry, EmitItem, GoodImage, Run, MatTicks, TicksBetween,
         LayoutTicks, ClassicSource, Sim, Misses, Placed, SizeAll, Booted, Crosses, FallsThrough;
    r, plan := MacroEmits(entries, trailing, layout, image, k);
    var late := LayoutTicks(layout.items[..j]);
    if late >= 7 {
      SevenMisses(r, late);
    }
    if Misses(plan, late) {
      var t := CodeWaits(entries, trailing, layout, image, v, script, j, k, r, plan);
      LateNeverIncrements(r, ProgramOf(image.pieces, 0), late, t, Run(v, script, StepsTo(layout, image, j, k)), script);
      RunSplit(v, script, StepsTo(layout, image, j, k), |plan.ops|);
    }
  }

  /**
   Any macro, late or not, in terms of the cell its first crazy meets.  With L
   ticks charged in front of `start` the ritual of a crazyinc or live-cell
   macro begins L cells below its first seed, with A zero, and its first crazy,
   rotate or hop works on whatever that cell holds.
   */
  lemma LateMacroMeets(entries: seq<Entry>, trailing: seq<string>, layout: Layout, image: Image,
                       v: State, script: Script, j: nat, k: nat) returns (r: Request, plan: Plan)
    requires LayOutSource(entries, trailing) == Success(layout) && AssembleGlyph(layout) == Success(image)
             && ClassicSource(entries)
    requires Reached(layout, image, v, script, j, k) && IsMacro(layout.items[k].item)
    ensures EmitsPlan(layout, image, k, r, plan)
    ensures RitualIndex(plan) < |plan.ops| && LayoutTicks(layout.items[..j]) <= plan.blockStart < MEM_SIZE
    ensures var n := StepsTo(layout, image, j, k) + RitualIndex(plan);
            Meets(plan.ops[RitualIndex(plan)], Run(v, script, n), Run(v, script, n + 1),
                  plan.blockStart - LayoutTicks(layout.items[..j]))
  {
    hide LayOutSource, AssembleGlyph, ProgramOf, AddressOf, PlanEntry, EmitItem, GoodImage, Run, MatTicks, TicksBetween,
         LayoutTicks, ClassicSource, Sim, Placed, SizeAll, Booted, Crosses, FallsThrough, Meets, RitualIndex;
    r, plan := MacroEmits(entries, trailing, layout, image, k);
    var t := CodeWaits(entries, trailing, layout, image, v, script, j, k, r, plan);
    var s := Run(v, script, StepsTo(layout, image, j, k));
    LateMeets(r, ProgramOf(image.pieces, 0), LayoutTicks(layout.items[..j]), t, s, script);
    RunSplit(v, script, StepsTo(layout, image, j, k), RitualIndex(plan));
    RunSplit(v, script, StepsTo(layout, image, j, k), RitualIndex(plan) + 1);
  }

  /** The cell a live-cell macro names. */
  function LiveCell(item: Item, labels: Labels): Option<Word> {
    match item
    case ICrazyIncCell(target, _) =>
      (match Eval(target, labels)
       case Some(x) => Some(ModWord(x))
       case None => None)
    case _ => None
  }

  /**
   From state t the machine follows the plan row by row to its halt, prints OK and leaves
   value + 1 in the mutable cell.
   */
  ghost predicate MacroDone(plan: Plan, t: State, script: Script, value: int) {
    t.Valid() && |plan.rows| == |plan.ops| && (forall i: nat :: i < |plan.ops| ==> MachineRow(plan, t, script, i))
    && var u := Run(t, script, |plan.ops|);
       u.halted && u.exitCode == t.exitCode && u.output == t.output + ['O' as nat, 'K' as nat, 10]
       && plan.MutableAddr() < MEM_SIZE && u.mem[plan.MutableAddr()] == ModWord(value + 1)
  }

  lemma LiveEntered(prog: Program, item: Item, labels: Labels, plan: Plan, t: Src)
    requires |t.mem| == MEM_SIZE && !t.halted && Placed(prog, plan.ops, plan.cellBase)
             && plan.cellBase + plan.CellCount() <= MEM_SIZE
    requires t.C == plan.cellBase && t.D == plan.dEntry
    requires forall x: Word :: x in t.ran || x in t.dirty ==> !(plan.cellBase <= x < plan.cellBase + plan.CellCount())
    requires IsMacro(item) && t.ran == {} && LiveHolds(item, labels, t.mem) && plan.cellAddr == LiveCell(item, labels)
             && plan.value == ModWord(item.value)
    ensures Entered(prog, plan, t)
  {
    hide Placed, SizeAll, Eval;
  }

  lemma RitualDone(r: Request, prog: Program, s: Src, t: State, script: Script, value: int)
    requires PlanEntry(r).Ok? && Entered(prog, PlanEntry(r).plan, s) && Sim(prog, s, t) && r.ok == "OK"
             && r.value == value
    ensures MacroDone(PlanEntry(r).plan, t, script, value)
  {
    hide PlanEntry, Entered, Sim, Run, MachineRow, SizeAll;
    RitualOnMachine(r, prog, s, t, script);
    PlanCarries(r);
    SimValid(prog, s, t);
  }

  lemma SimValid(prog: Program, s: Src, v: State)
    requires Sim(prog, s, v)
    ensures v.Valid()
  {
  }

}
