/**
 The assembler's phases agree: every item is emitted at its planned address
 with its planned size, the initializer count is the number of startup pairs,
 the materializer has the promised length, and the internal errors that guard
 these facts never fire.
 */
module Agreement {
  import opened Words
  import opened Glyphs
  import opened Frames
  import opened Source
  import opened Inversion
  import opened Search
  import opened Planner
  import opened Ritual
  import opened Ceremony
  import opened Assembly

  // ----- sizes of encoded stretches -----

  lemma {:induction false} EncodeWordsLength(values: seq<int>, addr: nat)
    ensures EncodeWords(values, addr).Some? ==> |EncodeWords(values, addr).value| == |values| * ENC_WORD_CELLS
  {
    hide EncodeFrame;
    if values != [] {
      EncodeFrameLeast(values[0], addr);
      EncodeWordsLength(values[1..], addr + ENC_WORD_CELLS);
    }
  }

  lemma EncodePieceLength(p: Piece, addr: nat)
    ensures EncodePiece(p, addr).Success? ==> |EncodePiece(p, addr).value| == PieceSize(p)
  {
    hide EncodeOp, EncodeWords, FillerCells;
    if p.Code? {
      EncodeWordsLength(FrameOf(p.instr), addr + 1);
    }
  }

  lemma {:induction false} EncodePiecesLength(ps: seq<Piece>, addr: nat)
    ensures EncodePieces(ps, addr).Success? ==> |EncodePieces(ps, addr).value| == PiecesSize(ps)
  {
    hide EncodePiece;
    if ps != [] {
      EncodePieceLength(ps[0], addr);
      EncodePiecesLength(ps[1..], addr + PieceSize(ps[0]));
    }
  }

  lemma {:induction false} PiecesSizeSplit(a: seq<Piece>, b: seq<Piece>)
    ensures PiecesSize(a + b) == PiecesSize(a) + PiecesSize(b)
  {
    if a == [] {
      assert a + b == b;
    } else {
      assert (a + b)[1..] == a[1..] + b;
      PiecesSizeSplit(a[1..], b);
    }
  }

  lemma {:induction false} CodesSize(ops: seq<Instr>)
    ensures PiecesSize(Codes(ops)) == SizeAll(ops)
  {
    if ops != [] {
      assert Codes(ops)[1..] == Codes(ops[1..]);
      CodesSize(ops[1..]);
    }
  }

  lemma {:induction false} MatPiecesSize(inits: seq<(nat, Word)>, start: int)
    ensures PiecesSize(MatPieces(inits, start)) == MatCells(|inits|)
  {
    if inits == [] {
      assert PiecesSize([Code(Jump(start))][1..]) == 0;
    } else {
      var two := [Code(SetA(inits[0].1)), Code(StoreA(inits[0].0))];
      MatPiecesSize(inits[1..], start);
      PiecesSizeSplit(two, MatPieces(inits[1..], start));
      assert two[1..] == [two[1]] && two[1..][1..] == [];
      assert PiecesSize(two) == 12;
    }
  }

  // ----- macro plans -----

  /** Sizes of a plan's two halves depend on counts only, never on addresses or values. */
  lemma {:induction false} SizeAllSplit(a: seq<Instr>, b: seq<Instr>)
    ensures SizeAll(a + b) == SizeAll(a) + SizeAll(b)
  {
    if a == [] {
      assert a + b == b;
    } else {
      assert (a + b)[1..] == a[1..] + b;
      SizeAllSplit(a[1..], b);
    }
  }

  lemma {:induction false} SizeAllUniform(ops: seq<Instr>, size: nat)
    requires forall i :: 0 <= i < |ops| ==> Size(ops[i]) == size
    ensures SizeAll(ops) == size * |ops|
  {
    if ops != [] {
      SizeAllUniform(ops[1..], size);
    }
  }

  lemma SetupSize(junk: nat, cells: seq<(nat, Word)>)
    ensures SizeAll(SetupOps(junk, cells)) == 6 * (junk + 2 * |cells| + 1)
  {
    SetupAt(junk, cells, 0);
    forall i | 0 <= i < |SetupOps(junk, cells)|
      ensures Size(SetupOps(junk, cells)[i]) == 6
    {
      SetupAt(junk, cells, i);
    }
    SizeAllUniform(SetupOps(junk, cells), 6);
  }

  lemma SizeAllTwo(a: Instr, b: Instr)
    ensures SizeAll([a]) == Size(a) && SizeAll([a, b]) == Size(a) + Size(b)
  {
    assert [a, b][1..] == [b] && [b][1..] == [] && [a][1..] == [];
  }

  lemma ClassicSizes(runway: seq<RouteStep>, n: nat)
    ensures SizeAll(RunwayOps(runway)) == |runway| && SizeAll(Crazies(n)) == n
  {
    SizeAllUniform(RunwayOps(runway), 1);
    SizeAllUniform(Crazies(n), 1);
  }

  lemma PrintSizes(mutable: nat)
    ensures SizeAll([]) == 0 && SizeAll([Classic('j')]) == 1 && SizeAll([Classic('p')]) == 1
    ensures SizeAll([Classic('<'), LoadA(mutable)]) == 7
    ensures SizeAll([Classic('<'), SetA(10)]) == 7 && SizeAll([Classic('<'), Classic('v')]) == 2
  {
    SizeAllTwo(Classic('j'), Classic('j'));
    SizeAllTwo(Classic('p'), Classic('p'));
    SizeAllTwo(Classic('<'), LoadA(mutable));
    SizeAllTwo(Classic('<'), SetA(10));
    SizeAllTwo(Classic('<'), Classic('v'));
  }

  lemma RitualSize(runway: seq<RouteStep>, aLen: nat, bLen: nat, live: bool, mutable: nat)
    ensures SizeAll(RitualOps(runway, aLen, bLen, live, mutable))
         == |runway| + (if live then 1 else 0) + aLen + bLen + 17
  {
    hide SizeAll, Size, RunwayOps, Crazies;
    ClassicSizes(runway, aLen);
    ClassicSizes(runway, bLen);
    PrintSizes(mutable);
    var hop := if live then [Classic('j')] else [];
    var first := [Classic('<'), LoadA(mutable)];
    var last := [Classic('<'), SetA(10), Classic('<'), Classic('v')];
    var r1 := RunwayOps(runway) + hop;
    var r2 := r1 + [Classic('p')];
    var r3 := r2 + Crazies(aLen);
    var r4 := r3 + first;
    var r5 := r4 + Crazies(bLen);
    SizeAllSplit(RunwayOps(runway), hop);
    SizeAllSplit(r1, [Classic('p')]);
    SizeAllSplit(r2, Crazies(aLen));
    SizeAllSplit(r3, first);
    SizeAllSplit(r4, Crazies(bLen));
    SizeAllSplit(r5, last);
    assert last == [Classic('<'), SetA(10)] + [Classic('<'), Classic('v')];
    SizeAllSplit([Classic('<'), SetA(10)], [Classic('<'), Classic('v')]);
  }

  /** A live-cell plan's instruction and cell counts do not depend on the live address. */
  lemma LiveSizeFixed(value: int, dEntry: nat, cellBase: nat, x: int, y: int)
    requires PlanEntry(MacroRequest(value, dEntry, cellBase, Some(x))).Ok?
    requires PlanEntry(MacroRequest(value, dEntry, cellBase, Some(y))).Ok?
    ensures var p, q := PlanEntry(MacroRequest(value, dEntry, cellBase, Some(x))).plan,
                        PlanEntry(MacroRequest(value, dEntry, cellBase, Some(y))).plan;
            p.CellCount() == q.CellCount() && |p.ops| == |q.ops|
  {
    var rx, ry := MacroRequest(value, dEntry, cellBase, Some(x)), MacroRequest(value, dEntry, cellBase, Some(y));
    hide LayOut, PlanForMasks, SearchMasks, RequestConstants, ChainToTarget, Choices;
    var v, target := ModWord(value), ModWord(value + 1);
    var node := PlanForMasks(0, SearchMasks(v, target, 16), 4, RequestConstants(rx)).value;
    assert RequestConstants(rx) == RequestConstants(ry) by { SameConstants(rx, ry); }
    var a := ChainToTarget(target, 'O' as nat, TRITS).value;
    var b := ChainToTarget(target, 'K' as nat, TRITS).value;
    assert PlanEntry(rx) == LayOut(rx, node, a, b) && PlanEntry(ry) == LayOut(ry, node, a, b);
    LaidOutSize(rx, node, a, b);
    LaidOutSize(ry, node, a, b);
  }

  lemma SameConstants(r: Request, s: Request)
    requires r.constants == s.constants
    ensures RequestConstants(r) == RequestConstants(s)
  {
  }

  function LiveTotal(node: Node, a: seq<ChainStep>, b: seq<ChainStep>): nat {
    |node.steps| + 1 + |a| + |b|
  }

  lemma LaidOutSize(r: Request, node: Node, a: seq<ChainStep>, b: seq<ChainStep>)
    requires |r.ok| == 2 && r.cellAddr.Some? && LayOut(r, node, a, b).Ok?
    ensures var p := LayOut(r, node, a, b).plan;
            var total := LiveTotal(node, a, b);
            var junk := LeastJunk(r.dEntry, r.cellBase, total, |node.steps| + 1, 0);
            junk.Some?
            && p.CellCount() == 6 * (junk.value + 2 * total + 1) + |node.steps| + 1 + |a| + |b| + 17
            && |p.ops| == junk.value + 2 * total + 1 + |node.steps| + 1 + |a| + |b| + 7
  {
    hide LeastJunk, SetupOps, RitualOps, LiveCheck, KnownAtStart, Rows, SizeAll, AllTracked, TrackAt, ModWord;
    var p := LayOut(r, node, a, b).plan;
    SetupAt(p.junk, SeedCells(p), 0);
    SetupSize(p.junk, SeedCells(p));
    RitualSize(node.steps, |a|, |b|, true, p.MutableAddr());
    RitualLength(node.steps, |a|, |b|, true, p.MutableAddr());
    SizeAllSplit(SetupOps(p.junk, SeedCells(p)), RitualOps(node.steps, |a|, |b|, true, p.MutableAddr()));
  }

  // ----- layout -----

  function LocatedSize(it: Located): nat {
    match it.plan
    case Some(plan) => plan.CellCount()
    case None => ItemSize(it.item)
  }

  function LocatedTicks(it: Located): nat {
    match it.plan
    case Some(plan) => |plan.ops|
    case None => ItemTicks(it.item)
  }

  /** The item's plan, if it is a macro, was made at the right place and for the right value. */
  ghost predicate PlanFits(it: Located, matCells: nat) {
    match it.item
    case ICrazyInc(value) =>
      it.plan.Some?
      && PlanEntry(MacroRequest(value, it.plan.value.dEntry, matCells + it.address, None)) == Ok(it.plan.value)
    case ICrazyIncCell(_, value) =>
      it.plan.Some?
      && PlanEntry(MacroRequest(value, it.plan.value.dEntry, matCells + it.address, Some(CANARY))) == Ok(it.plan.value)
    case _ => it.plan.None?
  }

  /** A macro's plan assumes the tick count and the cell address at which it was laid out. */
  predicate PlanTimed(it: Located, ticks: nat, matCells: nat) {
    it.plan.Some? ==> it.plan.value.dEntry == ticks && it.plan.value.cellBase == matCells + it.address
  }

  /** Addresses run on from `pc` and planned ticks from `ticks` without gaps. */
  ghost predicate InStep(items: seq<Located>, pc: nat, ticks: nat, matCells: nat)
    decreases |items|
  {
    items == []
    || (items[0].address == pc && PlanFits(items[0], matCells) && PlanTimed(items[0], ticks, matCells)
        && InStep(items[1..], pc + LocatedSize(items[0]), ticks + LocatedTicks(items[0]), matCells))
  }

  function LayoutTicks(items: seq<Located>): nat {
    if items == [] then 0 else LocatedTicks(items[0]) + LayoutTicks(items[1..])
  }

  /** Item k sits at the sum of the sizes before it, and its planned tick is the sum of the ticks before it. */
  lemma {:induction false} InStepAt(items: seq<Located>, pc: nat, ticks: nat, matCells: nat, k: nat)
    requires InStep(items, pc, ticks, matCells) && k < |items|
    ensures items[k].address == pc + LayoutSize(items[..k])
    ensures PlanFits(items[k], matCells) && PlanTimed(items[k], ticks + LayoutTicks(items[..k]), matCells)
    decreases |items|
  {
    hide PlanFits, PlanTimed;
    if k > 0 {
      InStepAt(items[1..], pc + LocatedSize(items[0]), ticks + LocatedTicks(items[0]), matCells, k - 1);
      assert items[..k][1..] == items[1..][..k - 1];
    }
  }

  function LayoutSize(items: seq<Located>): nat {
    if items == [] then 0 else LocatedSize(items[0]) + LayoutSize(items[1..])
  }

  lemma PlaceFits(e: Entry, matCells: nat, c: Cursor)
    requires Place(e, matCells, c).Success?
    ensures var c' := Place(e, matCells, c).value;
            |c'.items| == |c.items| + 1 && c'.items[..|c.items|] == c.items
            && var it := c'.items[|c.items|];
               it.item == e.item && it.address == c.pc && PlanFits(it, matCells)
               && c'.pc == c.pc + LocatedSize(it) && c'.ticks == c.ticks + LocatedTicks(it)
               && PlanTimed(it, c.ticks, matCells)
  {
    hide PlanEntry, WithLabels;
    match e.item
    case ICrazyInc(value) => PlanCarries(MacroRequest(value, c.ticks, matCells + c.pc, None));
    case ICrazyIncCell(_, value) => PlanCarries(MacroRequest(value, c.ticks, matCells + c.pc, Some(CANARY)));
    case _ =>
  }

  lemma {:induction false} PlaceAllFits(entries: seq<Entry>, matCells: nat, c: Cursor)
    requires PlaceAll(entries, matCells, c).Success?
    ensures var c' := PlaceAll(entries, matCells, c).value;
            |c'.items| == |c.items| + |entries| && c'.items[..|c.items|] == c.items
            && InStep(c'.items[|c.items|..], c.pc, c.ticks, matCells)
            && (forall k :: 0 <= k < |entries| ==> c'.items[|c.items| + k].item == entries[k].item)
    decreases |entries|
  {
    hide Place, PlanFits, PlanTimed;
    if entries != [] {
      var c1 := Place(entries[0], matCells, c).value;
      PlaceFits(entries[0], matCells, c);
      PlaceAllFits(entries[1..], matCells, c1);
      var c' := PlaceAll(entries, matCells, c).value;
      var it := c1.items[|c.items|];
      assert c'.items[|c.items|] == c'.items[..|c1.items|][|c.items|] == it;
      assert c'.items[|c.items|..] == [it] + c'.items[|c1.items|..];
      forall k | 0 <= k < |entries|
        ensures c'.items[|c.items| + k].item == entries[k].item
      {
        if k > 0 {
          assert c'.items[|c1.items| + (k - 1)].item == entries[1..][k - 1].item;
        }
      }
    }
  }

  lemma LayoutInStep(entries: seq<Entry>, trailing: seq<string>)
    requires LayOutSource(entries, trailing).Success?
    ensures var layout := LayOutSource(entries, trailing).value;
            Mapped(layout.items, PlacedItem) == Mapped(entries, EntryItem)
            && var n := CountInitializers(Mapped(entries, EntryItem));
               InStep(layout.items, 0, MatTicks(n), MatCells(n))
  {
    hide PlaceAll, InStep;
    var n := CountInitializers(Mapped(entries, EntryItem));
    PlaceAllFits(entries, MatCells(n), Cursor(0, MatTicks(n), [], map[]));
    var layout := LayOutSource(entries, trailing).value;
    assert layout.items[0..] == layout.items;
    assert Mapped(layout.items, PlacedItem) == Mapped(entries, EntryItem);
  }

  // ----- emission -----

  /** What an item emits has the size and the initializers the layout counted, and a live-cell plan keeps its size. */
  lemma EmitSize(it: Located, labels: Labels, base: nat)
    requires PlanFits(it, base)
    ensures EmitItem(it, labels, base) != Failure(SizeChanged) && EmitItem(it, labels, base) != Failure(PlanMissing)
    ensures EmitItem(it, labels, base) != Failure(OutOfStep)
    ensures EmitItem(it, labels, base).Success? ==>
              PiecesSize(EmitItem(it, labels, base).value.pieces) == LocatedSize(it)
              && |EmitItem(it, labels, base).value.inits| == ItemInits(it.item)
  {
    hide PlanEntry;
    if EmitItem(it, labels, base).Success? {
      var ps := EmitItem(it, labels, base).value.pieces;
      if it.item.ICrazyInc? || it.item.ICrazyIncCell? {
        MacroSize(it, labels, base);
      } else {
        assert |ps| == 1 && ps[1..] == [];
      }
    }
    if it.item.ICrazyIncCell? {
      LiveReplan(it, labels, base);
    }
  }

  lemma MacroSize(it: Located, labels: Labels, base: nat)
    requires PlanFits(it, base) && (it.item.ICrazyInc? || it.item.ICrazyIncCell?) && EmitItem(it, labels, base).Success?
    ensures PiecesSize(EmitItem(it, labels, base).value.pieces) == LocatedSize(it)
    ensures EmitItem(it, labels, base).value.inits == []
  {
    hide PlanEntry, SizeAll;
    match it.item
    case ICrazyInc(_) => CodesSize(it.plan.value.ops);
    case ICrazyIncCell(target, value) =>
      var v := Eval(target, labels).value;
      CodesSize(PlanEntry(MacroRequest(value, it.plan.value.dEntry, base + it.address, Some(ModWord(v)))).plan.ops);
    case _ =>
  }

  lemma LiveReplan(it: Located, labels: Labels, base: nat)
    requires PlanFits(it, base) && it.item.ICrazyIncCell?
    ensures EmitItem(it, labels, base) != Failure(SizeChanged)
  {
    hide PlanEntry, SizeAll;
    var v := Eval(it.item.addr, labels);
    if v.Some? {
      var request := MacroRequest(it.item.value, it.plan.value.dEntry, base + it.address, Some(ModWord(v.value)));
      if PlanEntry(request).Ok? {
        LiveSizeFixed(it.item.value, it.plan.value.dEntry, base + it.address, CANARY, ModWord(v.value));
      }
    }
  }

  lemma {:induction false} EncodePiecesErrors(ps: seq<Piece>, addr: nat)
    ensures EncodePieces(ps, addr).Failure? ==> EncodePieces(ps, addr).error in {NoSpelling, UnknownOp}
  {
    hide EncodeOp, EncodeWords, FillerCells;
    if ps != [] {
      EncodePiecesErrors(ps[1..], addr + PieceSize(ps[0]));
    }
  }

  const INTERNAL: set<AsmError> := {OutOfStep, SizeChanged, PlanMissing}

  lemma {:induction false} AssembleInStep(items: seq<Located>, ticks: nat, labels: Labels, base: nat, p: Program0)
    requires InStep(items, |p.cells|, ticks, base)
    ensures AssembleFrom(items, labels, base, p).Failure? ==> AssembleFrom(items, labels, base, p).error !in INTERNAL
    ensures AssembleFrom(items, labels, base, p).Success? ==>
              var q := AssembleFrom(items, labels, base, p).value;
              |q.cells| == |p.cells| + LayoutSize(items)
              && |q.inits| == |p.inits| + CountInitializers(Mapped(items, PlacedItem))
              && p.cells <= q.cells && p.pieces <= q.pieces && p.inits <= q.inits
    decreases |items|
  {
    hide EmitItem, EncodePieces, PlanFits, PlanTimed;
    if items != [] {
      EmitSize(items[0], labels, base);
      if EmitItem(items[0], labels, base).Success? {
        var e := EmitItem(items[0], labels, base).value;
        EncodePiecesErrors(e.pieces, base + |p.cells|);
        EncodePiecesLength(e.pieces, base + |p.cells|);
        assert Mapped(items, PlacedItem)[1..] == Mapped(items[1..], PlacedItem);
        if EncodePieces(e.pieces, base + |p.cells|).Success? {
          var cells := EncodePieces(e.pieces, base + |p.cells|).value;
          AssembleInStep(items[1..], ticks + LocatedTicks(items[0]), labels, base,
                         Program0(p.cells + cells, p.pieces + e.pieces, p.inits + e.inits));
        }
      }
    }
  }

  /** Item k's planned address, and what it emits, lies in the image there. */
  ghost predicate EmittedAt(items: seq<Located>, labels: Labels, base: nat, cells: seq<Word>, k: nat)
    requires k < |items|
  {
    EmitItem(items[k], labels, base).Success?
    && var here := EncodePieces(EmitItem(items[k], labels, base).value.pieces, base + items[k].address);
       here.Success? && |here.value| == LocatedSize(items[k])
       && items[k].address + |here.value| <= |cells|
       && cells[items[k].address..items[k].address + |here.value|] == here.value
  }

  /** One turn of the assembly loop: the first item's cells are appended. */
  lemma AssembleTurn(items: seq<Located>, ticks: nat, labels: Labels, base: nat, p: Program0)
    returns (cells: seq<Word>, p1: Program0)
    requires InStep(items, |p.cells|, ticks, base) && items != []
    requires AssembleFrom(items, labels, base, p).Success?
    ensures EmitItem(items[0], labels, base).Success? && items[0].address == |p.cells|
    ensures EncodePieces(EmitItem(items[0], labels, base).value.pieces, base + |p.cells|) == Success(cells)
    ensures |cells| == LocatedSize(items[0]) && p1.cells == p.cells + cells
    ensures InStep(items[1..], |p1.cells|, ticks + LocatedTicks(items[0]), base)
    ensures AssembleFrom(items[1..], labels, base, p1) == AssembleFrom(items, labels, base, p)
  {
    hide EmitItem, EncodePieces, PlanFits, PlanTimed;
    var e := EmitItem(items[0], labels, base).value;
    EmitSize(items[0], labels, base);
    EncodePiecesLength(e.pieces, base + |p.cells|);
    cells := EncodePieces(e.pieces, base + |p.cells|).value;
    p1 := Program0(p.cells + cells, p.pieces + e.pieces, p.inits + e.inits);
  }

  lemma {:induction false} AssembleEmits(items: seq<Located>, ticks: nat, labels: Labels, base: nat, p: Program0,
                                         k: nat)
    requires InStep(items, |p.cells|, ticks, base) && k < |items|
    requires AssembleFrom(items, labels, base, p).Success?
    ensures EmittedAt(items, labels, base, AssembleFrom(items, labels, base, p).value.cells, k)
    decreases |items|
  {
    hide EmitItem, EncodePieces, InStep, AssembleFrom;
    var cells, p1 := AssembleTurn(items, ticks, labels, base, p);
    if k == 0 {
      AssembleInStep(items[1..], ticks + LocatedTicks(items[0]), labels, base, p1);
      PrefixSlice(p.cells, cells, AssembleFrom(items, labels, base, p).value.cells);
    } else {
      AssembleEmits(items[1..], ticks + LocatedTicks(items[0]), labels, base, p1, k - 1);
    }
  }

  lemma PrefixSlice(a: seq<Word>, b: seq<Word>, all: seq<Word>)
    requires a + b <= all
    ensures |a| + |b| <= |all| && all[|a|..|a| + |b|] == b
  {
    assert all[|a|..|a| + |b|] == (a + b)[|a|..];
  }

  /**
   Layout agreement.  For any source that lays out, assembling never hits an
   internal error; if it yields an image, the prefix is the materializer of
   its startup pairs, there are as many pairs as initializers were counted, and
   every item's encoding stands at its planned address with its planned size.
   */
  lemma LayoutAgreement(entries: seq<Entry>, trailing: seq<string>)
    requires LayOutSource(entries, trailing).Success?
    ensures var layout := LayOutSource(entries, trailing).value;
            var image := AssembleGlyph(layout);
            (image.Failure? ==> image.error !in INTERNAL)
            && (image.Success? ==>
                  |image.value.inits| == CountInitializers(Mapped(entries, EntryItem))
                  && image.value.prefix == MatCells(|image.value.inits|)
                  && EncodePieces(MatPieces(image.value.inits, image.value.start), 0)
                     == Success(image.value.cells[..image.value.prefix])
                  && |image.value.cells| == image.value.prefix + LayoutSize(layout.items)
                  && forall k :: 0 <= k < |layout.items| ==>
                       EmittedAt(layout.items, image.value.labels, image.value.prefix,
                                 image.value.cells[image.value.prefix..], k))
  {
    hide InStep, EncodePieces, EmittedAt, LayOutSource, CountInitializers, AssembleFrom;
    var layout := LayOutSource(entries, trailing).value;
    LayoutInStep(entries, trailing);
    var prefix := MatCells(CountInitializers(Mapped(entries, EntryItem)));
    var labels := FinalLabels(layout.labels, prefix);
    var ticks := MatTicks(CountInitializers(Mapped(entries, EntryItem)));
    AssembleInStep(layout.items, ticks, labels, prefix, Program0([], [], []));
    var program := AssembleProgram(layout, prefix);
    if program.Success? {
      var start := StartAddress(labels, prefix);
      var mat := MatPieces(program.value.inits, start);
      MatPiecesSize(program.value.inits, start);
      EncodePiecesErrors(mat, 0);
      EncodePiecesLength(mat, 0);
      if AssembleGlyph(layout).Success? {
        var image := AssembleGlyph(layout).value;
        assert image.cells[prefix..] == program.value.cells;
        forall k | 0 <= k < |layout.items|
          ensures EmittedAt(layout.items, labels, prefix, program.value.cells, k)
        {
          AssembleEmits(layout.items, ticks, labels, prefix, Program0([], [], []), k);
        }
      }
    }
  }

  // ----- the planner inside the assembler -----

  /** Planner failures that would be the planner's fault rather than the request's. */
  predicate PlannerFault(e: AsmError) {
    e.CannotPlan? && e.reason in {Blocked.NoChain, Blocked.NoJunk, Blocked.Untracked, Blocked.Mismatch}
  }

  lemma MacroPlanned(value: int, dEntry: nat, cellBase: nat, live: Option<int>)
    requires cellBase >= dEntry + 5
    ensures var p := PlanEntry(MacroRequest(value, dEntry, cellBase, live));
            p.Fail? ==> !PlannerFault(CannotPlan(p.reason))
  {
    hide PlanEntry;
    InternalErrorsUnreachable(MacroRequest(value, dEntry, cellBase, live));
  }

  /** No item costs more ticks than cells, so code stays ahead of the D it is planned for. */
  lemma PlaceAhead(e: Entry, matCells: nat, c: Cursor)
    requires matCells + c.pc >= c.ticks + 5
    ensures match Place(e, matCells, c)
            case Failure(error) => !PlannerFault(error)
            case Success(c') => matCells + c'.pc >= c'.ticks + 5
  {
    hide PlanEntry, WithLabels;
    match e.item {
      case ICrazyInc(value) => MacroPlanned(value, c.ticks, matCells + c.pc, None);
      case ICrazyIncCell(_, value) => MacroPlanned(value, c.ticks, matCells + c.pc, Some(CANARY));
      case _ =>
    }
    var planned := SizingPlan(e.item, c.ticks, matCells + c.pc);
    if planned.Some? && planned.value.Ok? {
      OpsBelowCells(planned.value.plan.ops);
    }
  }

  lemma {:induction false} OpsBelowCells(ops: seq<Instr>)
    ensures |ops| <= SizeAll(ops)
  {
    hide Size;
    if ops != [] {
      SizePositive(ops[0]);
      OpsBelowCells(ops[1..]);
    }
  }

  lemma {:induction false} PlaceAllAhead(entries: seq<Entry>, matCells: nat, c: Cursor)
    requires matCells + c.pc >= c.ticks + 5
    ensures PlaceAll(entries, matCells, c).Failure? ==> !PlannerFault(PlaceAll(entries, matCells, c).error)
    decreases |entries|
  {
    hide Place;
    if entries != [] {
      PlaceAhead(entries[0], matCells, c);
      if Place(entries[0], matCells, c).Success? {
        PlaceAllAhead(entries[1..], matCells, Place(entries[0], matCells, c).value);
      }
    }
  }

  lemma ItemAhead(it: Located, matCells: nat)
    requires PlanFits(it, matCells)
    ensures LocatedTicks(it) <= LocatedSize(it)
  {
    hide PlanEntry;
    if it.plan.Some? {
      OpsBelowCells(it.plan.value.ops);
    }
  }

  lemma EmitPlans(it: Located, labels: Labels, base: nat)
    requires PlanFits(it, base) && (it.plan.Some? ==> base + it.address >= it.plan.value.dEntry + 5)
    ensures EmitItem(it, labels, base).Failure? ==> !PlannerFault(EmitItem(it, labels, base).error)
  {
    hide PlanEntry;
    if it.item.ICrazyIncCell? && it.plan.Some? && Eval(it.item.addr, labels).Some? {
      MacroPlanned(it.item.value, it.plan.value.dEntry, base + it.address,
                   Some(ModWord(Eval(it.item.addr, labels).value)));
    }
  }

  lemma EncodeNeverPlans(ps: seq<Piece>, addr: nat)
    ensures EncodePieces(ps, addr).Failure? ==> !PlannerFault(EncodePieces(ps, addr).error)
  {
    hide EncodePieces;
    EncodePiecesErrors(ps, addr);
  }

  lemma {:induction false} AssemblePlans(items: seq<Located>, ticks: nat, labels: Labels, base: nat, p: Program0)
    requires InStep(items, |p.cells|, ticks, base) && base + |p.cells| >= ticks + 5
    ensures AssembleFrom(items, labels, base, p).Failure? ==> !PlannerFault(AssembleFrom(items, labels, base, p).error)
    decreases |items|
  {
    hide EmitItem, EncodePieces, PlanFits, PlannerFault;
    if items != [] {
      FaultsDiffer();
      EmitPlans(items[0], labels, base);
      EmitSize(items[0], labels, base);
      ItemAhead(items[0], base);
      if EmitItem(items[0], labels, base).Success? {
        var e := EmitItem(items[0], labels, base).value;
        EncodeNeverPlans(e.pieces, base + |p.cells|);
        EncodePiecesLength(e.pieces, base + |p.cells|);
        if EncodePieces(e.pieces, base + |p.cells|).Success? {
          var cells := EncodePieces(e.pieces, base + |p.cells|).value;
          AssemblePlans(items[1..], ticks + LocatedTicks(items[0]), labels, base,
                        Program0(p.cells + cells, p.pieces + e.pieces, p.inits + e.inits));
        }
      }
    }
  }

  lemma FaultsDiffer()
    ensures !PlannerFault(OutOfStep) && !PlannerFault(ImageTooLarge) && !PlannerFault(SizeChanged)
            && !PlannerFault(BadExpression)
  {
  }

  /**
   A macro fails to assemble only for reasons that lie in its request (an
   impossible increment, no runway, seeds colliding with live data): missing
   chains, missing padding, a look-up of an untracked cell and a disagreeing
   simulation never occur, neither
   when the macro is sized nor when it is planned again at its final address.
   */
  lemma PlannerNeverAtFault(entries: seq<Entry>, trailing: seq<string>)
    ensures LayOutSource(entries, trailing).Failure? ==> !PlannerFault(LayOutSource(entries, trailing).error)
    ensures LayOutSource(entries, trailing).Success? ==>
              var image := AssembleGlyph(LayOutSource(entries, trailing).value);
              image.Failure? ==> !PlannerFault(image.error)
  {
    hide PlaceAll, InStep, CountInitializers, AssembleFrom, EncodePieces, MatPieces, Mapped;
    var n := CountInitializers(Mapped(entries, EntryItem));
    PlaceAllAhead(entries, MatCells(n), Cursor(0, MatTicks(n), [], map[]));
    if LayOutSource(entries, trailing).Success? {
      var layout := LayOutSource(entries, trailing).value;
      LayoutInStep(entries, trailing);
      var labels := FinalLabels(layout.labels, MatCells(n));
      AssemblePlans(layout.items, MatTicks(n), labels, MatCells(n), Program0([], [], []));
      forall inits: seq<(nat, Word)>, start: int, addr: nat
        ensures EncodePieces(MatPieces(inits, start), addr).Failure? ==>
                !PlannerFault(EncodePieces(MatPieces(inits, start), addr).error)
      {
        EncodeNeverPlans(MatPieces(inits, start), addr);
      }
    }
  }

  // ----- labels -----

  lemma {:induction false} WithLabelsGet(labels: Labels, names: seq<string>, pc: nat, name: string)
    ensures var r := WithLabels(labels, names, pc);
            if name in names then name in r && r[name] == pc
            else (name in r <==> name in labels) && (name in labels ==> r[name] == labels[name])
    decreases |names|
  {
    if names != [] {
      WithLabelsGet(labels[names[0] := pc], names[1..], pc, name);
    }
  }

  predicate SameLabel(a: Labels, b: Labels, name: string) {
    (name in a <==> name in b) && (name in a ==> a[name] == b[name])
  }

  lemma PlaceLabels(e: Entry, matCells: nat, c: Cursor, name: string)
    requires Place(e, matCells, c).Success?
    ensures var r := Place(e, matCells, c).value;
            if name in e.labels then name in r.labels && r.labels[name] == c.pc else SameLabel(r.labels, c.labels, name)
  {
    hide PlanEntry;
    WithLabelsGet(c.labels, e.labels, c.pc, name);
  }

  lemma {:induction false} PlaceAllKeepsLabel(entries: seq<Entry>, matCells: nat, c: Cursor, name: string)
    requires PlaceAll(entries, matCells, c).Success? && forall k :: 0 <= k < |entries| ==> name !in entries[k].labels
    ensures SameLabel(PlaceAll(entries, matCells, c).value.labels, c.labels, name)
    decreases |entries|
  {
    hide Place;
    if entries != [] {
      PlaceLabels(entries[0], matCells, c, name);
      PlaceAllKeepsLabel(entries[1..], matCells, Place(entries[0], matCells, c).value, name);
    }
  }

  lemma {:induction false} PlaceAllSetsLabel(entries: seq<Entry>, matCells: nat, c: Cursor, k: nat, name: string)
    requires PlaceAll(entries, matCells, c).Success? && k < |entries| && name in entries[k].labels
    requires forall j :: k < j < |entries| ==> name !in entries[j].labels
    ensures var r := PlaceAll(entries, matCells, c).value;
            |c.items| + k < |r.items| && name in r.labels && r.labels[name] == r.items[|c.items| + k].address
    decreases |entries|
  {
    hide Place;
    var c1 := Place(entries[0], matCells, c).value;
    PlaceFits(entries[0], matCells, c);
    PlaceLabels(entries[0], matCells, c, name);
    PlaceAllFits(entries[1..], matCells, c1);
    var r := PlaceAll(entries, matCells, c).value;
    if k > 0 {
      PlaceAllSetsLabel(entries[1..], matCells, c1, k - 1, name);
    } else {
      PlaceAllKeepsLabel(entries[1..], matCells, c1, name);
      assert r.items[|c.items|] == r.items[..|c1.items|][|c.items|] == c1.items[|c.items|];
    }
  }

  /** No other line carries the label; the lexer refuses duplicates. */
  predicate OnlyAt(entries: seq<Entry>, trailing: seq<string>, k: nat, name: string)
    requires k < |entries|
  {
    name in entries[k].labels && name !in trailing
      && forall j :: 0 <= j < |entries| && j != k ==> name !in entries[j].labels
  }

  /**
   Labels resolve to the final addresses of the items they stand before, and
   `start` is where the startup code jumps; without a start label that is the
   first cell behind the startup code.
   */
  lemma LabelsResolve(entries: seq<Entry>, trailing: seq<string>, layout: Layout, image: Image, k: nat, name: string)
    requires LayOutSource(entries, trailing) == Success(layout) && AssembleGlyph(layout) == Success(image)
    requires k < |entries| && OnlyAt(entries, trailing, k, name)
    ensures k < |layout.items| && name in image.labels && image.labels[name] == image.prefix + layout.items[k].address
    ensures name == "start" ==> image.start == image.prefix + layout.items[k].address
  {
    hide PlaceAll, AssembleFrom, EncodePieces, CountInitializers, MatPieces;
    var n := CountInitializers(Mapped(entries, EntryItem));
    var c := PlaceAll(entries, MatCells(n), Cursor(0, MatTicks(n), [], map[])).value;
    PlaceAllSetsLabel(entries, MatCells(n), Cursor(0, MatTicks(n), [], map[]), k, name);
    WithLabelsGet(c.labels, trailing, c.pc, name);
  }

  lemma NoStartLabel(entries: seq<Entry>, trailing: seq<string>, layout: Layout, image: Image)
    requires LayOutSource(entries, trailing) == Success(layout) && AssembleGlyph(layout) == Success(image)
    requires "start" !in trailing && forall k :: 0 <= k < |entries| ==> "start" !in entries[k].labels
    ensures image.start == image.prefix
  {
    hide PlaceAll, AssembleFrom, EncodePieces, CountInitializers, MatPieces;
    var n := CountInitializers(Mapped(entries, EntryItem));
    var c := PlaceAll(entries, MatCells(n), Cursor(0, MatTicks(n), [], map[])).value;
    PlaceAllKeepsLabel(entries, MatCells(n), Cursor(0, MatTicks(n), [], map[]), "start");
    WithLabelsGet(c.labels, trailing, c.pc, "start");
  }
}
