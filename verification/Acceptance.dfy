/**
 What the assembler takes and what it refuses: sizes and ticks in numbers,
 when an item is accepted, and when a whole source assembles.
 */
module Acceptance {
  import opened Words
  import opened Glyphs
  import opened Frames
  import opened Source
  import opened Planner
  import opened Assembly
  import opened Agreement

  // ----- laying out -----

  /** Cells of an item that is no macro. */
  function CellsOf(item: Item): nat
    requires !item.ICrazyInc? && !item.ICrazyIncCell?
  {
    match item
    case ITrap(_) => 31
    case IFramed(_, _) => 6
    case IBranch(_, _) => 11
    case IOp(_) => 1
    case IAscii(bytes) => |bytes|
    case ICString(bytes) => |bytes| + 1
    case IWord(args) => |args|
    case IPtr(args) => |args|
    case IPtrV(args) => |args| + 1
    case IZero(count) => count
  }

  /** Ticks: one for an instruction, one for every cell of data. */
  function TicksOf(item: Item): nat
    requires !item.ICrazyInc? && !item.ICrazyIncCell?
  {
    if item.ITrap? || item.IFramed? || item.IBranch? || item.IOp? then 1 else CellsOf(item)
  }

  /** The request a macro is sized with: a live cell stands at 57000 for the time being. */
  function SizedWith(item: Item, ticks: nat, cellBase: nat): Request
    requires item.ICrazyInc? || item.ICrazyIncCell?
  {
    if item.ICrazyInc? then MacroRequest(item.value, ticks, cellBase, None)
    else MacroRequest(item.value, ticks, cellBase, Some(57000))
  }

  /** One entry is placed at the cursor; only a macro can be refused, for its planner's reason. */
  lemma PlaceExactly(e: Entry, matCells: nat, c: Cursor)
    ensures var r, labels := Place(e, matCells, c), WithLabels(c.labels, e.labels, c.pc);
            if e.item.ICrazyInc? || e.item.ICrazyIncCell? then
              match PlanEntry(SizedWith(e.item, c.ticks, matCells + c.pc))
              case Fail(reason) => r == Failure(CannotPlan(reason))
              case Ok(p) =>
                r == Success(Cursor(c.pc + p.CellCount(), c.ticks + |p.ops|,
                                    c.items + [Located(e.item, c.pc, Some(p))], labels))
            else
              r == Success(Cursor(c.pc + CellsOf(e.item), c.ticks + TicksOf(e.item),
                                  c.items + [Located(e.item, c.pc, None)], labels))
  {
    hide PlanEntry, SizeAll, WithLabels;
  }

  /** A layout fails exactly at the first entry that cannot be placed behind the ones before it. */
  lemma {:induction false} PlacingFails(entries: seq<Entry>, matCells: nat, c: Cursor)
    ensures PlaceAll(entries, matCells, c).Failure? <==>
              exists k :: 0 <= k < |entries| && StopsAt(entries, matCells, c, k)
    decreases |entries|
  {
    hide Place;
    if entries != [] {
      if Place(entries[0], matCells, c).Success? {
        var next := Place(entries[0], matCells, c).value;
        PlacingFails(entries[1..], matCells, next);
        forall k | 0 <= k < |entries| - 1
          ensures StopsAt(entries, matCells, c, k + 1) <==> StopsAt(entries[1..], matCells, next, k)
        {
          assert entries[..k + 1][0] == entries[0] && entries[..k + 1][1..] == entries[1..][..k];
        }
        assert entries[..0] == [] && !StopsAt(entries, matCells, c, 0);
        if PlaceAll(entries, matCells, c).Failure? {
          var k :| 0 <= k < |entries| - 1 && StopsAt(entries[1..], matCells, next, k);
          assert StopsAt(entries, matCells, c, k + 1);
        }
        if k :| 0 <= k < |entries| && StopsAt(entries, matCells, c, k) {
          assert StopsAt(entries[1..], matCells, next, k - 1);
        }
      } else {
        assert entries[..0] == [];
        assert StopsAt(entries, matCells, c, 0);
      }
    }
  }

  predicate StopsAt(entries: seq<Entry>, matCells: nat, c: Cursor, k: nat)
    requires k < |entries|
  {
    PlaceAll(entries[..k], matCells, c).Success?
    && Place(entries[k], matCells, PlaceAll(entries[..k], matCells, c).value).Failure?
  }

  /** A source lays out unless one of its macros is refused where it would stand. */
  lemma LaysOutExactly(entries: seq<Entry>, trailing: seq<string>)
    ensures var n := CountInitializers(Mapped(entries, EntryItem));
            var matCells, first := 12 * n + 6, Cursor(0, 2 * n + 1, [], map[]);
            LayOutSource(entries, trailing).Failure? <==>
              exists k :: 0 <= k < |entries| && StopsAt(entries, matCells, first, k)
  {
    hide PlaceAll, CountInitializers, Mapped, StopsAt;
    var n := CountInitializers(Mapped(entries, EntryItem));
    PlacingFails(entries, 12 * n + 6, Cursor(0, 2 * n + 1, [], map[]));
  }

  // ----- items -----

  /** The labels an expression names. */
  function Mentions(e: Expr): set<string> {
    match e
    case Num(_) => {}
    case Label(name) => {name}
    case Plus(l, r) => Mentions(l) + Mentions(r)
    case Minus(l, r) => Mentions(l) + Mentions(r)
    case Negate(x) => Mentions(x)
  }

  lemma {:induction false} EvalExactly(e: Expr, labels: Labels)
    ensures Eval(e, labels).Some? <==> Mentions(e) <= labels.Keys
  {
    match e
    case Num(_) =>
    case Label(name) =>
    case Plus(l, r) =>
      EvalExactly(l, labels);
      EvalExactly(r, labels);
    case Minus(l, r) =>
      EvalExactly(l, labels);
      EvalExactly(r, labels);
    case Negate(x) =>
      EvalExactly(x, labels);
  }

  predicate Known(e: Expr, labels: Labels) {
    Mentions(e) <= labels.Keys
  }

  predicate AllKnown(es: seq<Expr>, labels: Labels) {
    forall j :: 0 <= j < |es| ==> Known(es[j], labels)
  }

  lemma {:induction false} EvalAllExactly(es: seq<Expr>, labels: Labels)
    ensures EvalAll(es, labels).Some? <==> AllKnown(es, labels)
  {
    hide Eval, Known;
    if es != [] {
      EvalExactly(es[0], labels);
      EvalAllExactly(es[1..], labels);
      assert Known(es[0], labels) <==> Eval(es[0], labels).Some? by {
        KnownMeans(es[0], labels);
      }
      AllBehind(es, labels);
    }
  }

  lemma KnownMeans(e: Expr, labels: Labels)
    ensures Known(e, labels) <==> Eval(e, labels).Some?
  {
    EvalExactly(e, labels);
  }

  lemma AllBehind(es: seq<Expr>, labels: Labels)
    requires es != []
    ensures AllKnown(es, labels) <==> Known(es[0], labels) && AllKnown(es[1..], labels)
  {
    hide Known;
    assert forall j :: 0 < j < |es| ==> es[j] == es[1..][j - 1];
  }

  /** What an item needs: defined labels, a trap with one to six arguments, a pointer list with one at least. */
  predicate Acceptable(item: Item, labels: Labels)
    requires !item.ICrazyInc? && !item.ICrazyIncCell?
  {
    match item
    case ITrap(args) => 1 <= |args| <= 6 && AllKnown(args, labels)
    case IFramed(_, arg) => Known(arg, labels)
    case IBranch(_, arg) => Known(arg, labels)
    case IWord(args) => AllKnown(args, labels)
    case IPtr(args) => args != [] && AllKnown(args, labels)
    case IPtrV(args) => args != [] && AllKnown(args, labels)
    case IAscii(_) => true
    case ICString(_) => true
    case IZero(_) => true
    case IOp(_) => true
  }

  /** An item is emitted exactly when it is acceptable; the number of arguments and undefined labels are told apart. */
  lemma EmitsExactly(it: Located, labels: Labels, base: nat)
    requires !it.item.ICrazyInc? && !it.item.ICrazyIncCell?
    ensures var r := EmitItem(it, labels, base);
            (r.Success? <==> Acceptable(it.item, labels))
            && (r.Failure? ==>
                  r.error == if (it.item.ITrap? || it.item.IPtr? || it.item.IPtrV?) && it.item.args == [] then BadArity
                             else if it.item.ITrap? && AllKnown(it.item.args, labels) then BadArity
                             else BadExpression)
  {
    hide Eval, EvalAll, Known, AllKnown, PlanEntry;
    match it.item
    case ITrap(args) => EvalAllExactly(args, labels);
    case IFramed(_, arg) => KnownMeans(arg, labels);
    case IBranch(_, arg) => KnownMeans(arg, labels);
    case IWord(args) => EvalAllExactly(args, labels);
    case IPtr(args) => EvalAllExactly(args, labels);
    case IPtrV(args) => EvalAllExactly(args, labels);
    case _ =>
  }

  /** A sized macro is emitted as planned; with a live cell it is planned again, for the address the label has now. */
  lemma MacroEmitsExactly(it: Located, labels: Labels, base: nat)
    requires PlanFits(it, base) && (it.item.ICrazyInc? || it.item.ICrazyIncCell?)
    ensures it.item.ICrazyInc? ==> EmitItem(it, labels, base) == Success(Emission(Codes(it.plan.value.ops), []))
    ensures it.item.ICrazyIncCell? && !Known(it.item.addr, labels) ==>
              EmitItem(it, labels, base) == Failure(BadExpression)
    ensures it.item.ICrazyIncCell? && Known(it.item.addr, labels) ==>
              Eval(it.item.addr, labels).Some?
              && var again := PlanEntry(MacroRequest(it.item.value, it.plan.value.dEntry, base + it.address,
                                                     Some(Eval(it.item.addr, labels).value % 59049)));
                 match again
                 case Fail(reason) => EmitItem(it, labels, base) == Failure(CannotPlan(reason))
                 case Ok(p) => EmitItem(it, labels, base) == Success(Emission(Codes(p.ops), []))
  {
    hide PlanEntry, Eval, SizeAll, Known;
    if it.item.ICrazyIncCell? {
      KnownMeans(it.item.addr, labels);
      LiveReplan(it, labels, base);
    }
  }

  // ----- cells -----

  /** The characters that can be encoded. */
  predicate HasGlyph(op: char) {
    33 <= op as int <= 126 && op as int != 46
  }

  /** A stretch can be written: its operations exist and its frames have spellings where they stand. */
  ghost predicate Writable(p: Piece, addr: nat) {
    p.Code? ==> HasGlyph(OpChar(p.instr)) && Spelt(FrameOf(p.instr), addr + 1)
  }

  /** Every word has an acceptable spelling at its address. */
  ghost predicate Spelt(values: seq<int>, addr: nat) {
    forall j :: 0 <= j < |values| ==> EncodeFrame(values[j], addr + 5 * j).Some?
  }

  lemma {:induction false} WordsExactly(values: seq<int>, addr: nat)
    ensures EncodeWords(values, addr).Some? <==> Spelt(values, addr)
    decreases |values|
  {
    hide EncodeFrame;
    if values != [] {
      WordsExactly(values[1..], addr + 5);
      SpeltBehind(values, addr);
    }
  }

  lemma SpeltBehind(values: seq<int>, addr: nat)
    requires values != []
    ensures Spelt(values, addr) <==> EncodeFrame(values[0], addr).Some? && Spelt(values[1..], addr + 5)
  {
    hide EncodeFrame;
    if Spelt(values, addr) {
      forall j | 0 <= j < |values| - 1
        ensures EncodeFrame(values[1..][j], addr + 5 + 5 * j).Some?
      {
        assert EncodeFrame(values[j + 1], addr + 5 * (j + 1)).Some?;
      }
    }
    if EncodeFrame(values[0], addr).Some? && Spelt(values[1..], addr + 5) {
      forall j | 0 <= j < |values|
        ensures EncodeFrame(values[j], addr + 5 * j).Some?
      {
        if j > 0 {
          assert EncodeFrame(values[1..][j - 1], addr + 5 + 5 * (j - 1)).Some?;
        }
      }
    }
  }

  lemma PieceExactly(p: Piece, addr: nat)
    ensures EncodePiece(p, addr).Success? <==> Writable(p, addr)
    ensures EncodePiece(p, addr).Failure? ==>
              EncodePiece(p, addr).error == if HasGlyph(OpChar(p.instr)) then NoSpelling else UnknownOp
  {
    hide EncodeOp, EncodeWords, Spelt, FillerCells;
    if p.Code? {
      EncodesExactly(OpChar(p.instr), addr);
      WordsExactly(FrameOf(p.instr), addr + 1);
    }
  }

  /** All of a list, each where the ones before it end. */
  ghost predicate AllWritable(ps: seq<Piece>, addr: nat) {
    forall k :: 0 <= k < |ps| ==> WritableAt(ps, addr, k)
  }

  ghost predicate WritableAt(ps: seq<Piece>, addr: nat, k: nat)
    requires k < |ps|
  {
    Writable(ps[k], addr + PiecesSize(ps[..k]))
  }

  lemma {:induction false} PiecesExactly(ps: seq<Piece>, addr: nat)
    ensures EncodePieces(ps, addr).Success? <==> AllWritable(ps, addr)
    decreases |ps|
  {
    hide EncodePiece, Writable;
    if ps != [] {
      PieceExactly(ps[0], addr);
      PiecesExactly(ps[1..], addr + PieceSize(ps[0]));
      WritableBehind(ps, addr);
    }
  }

  lemma WritableBehind(ps: seq<Piece>, addr: nat)
    requires ps != []
    ensures AllWritable(ps, addr) <==> Writable(ps[0], addr) && AllWritable(ps[1..], addr + PieceSize(ps[0]))
  {
    hide Writable;
    var rest, next := ps[1..], addr + PieceSize(ps[0]);
    assert ps[..0] == [] && (WritableAt(ps, addr, 0) <==> Writable(ps[0], addr));
    forall k | 0 < k < |ps|
      ensures WritableAt(ps, addr, k) <==> WritableAt(rest, next, k - 1)
    {
      assert ps[..k][0] == ps[0] && ps[..k][1..] == rest[..k - 1];
    }
    if AllWritable(ps, addr) {
      forall k | 0 <= k < |rest|
        ensures WritableAt(rest, next, k)
      {
        assert WritableAt(ps, addr, k + 1);
      }
    }
  }

  // ----- the program -----

  /** An item is emitted, and what it emits can be written at its final address. */
  ghost predicate Assembles(it: Located, labels: Labels, base: nat) {
    EmitItem(it, labels, base).Success?
    && AllWritable(EmitItem(it, labels, base).value.pieces, base + it.address)
  }

  ghost predicate AllAssemble(items: seq<Located>, labels: Labels, base: nat) {
    forall k :: 0 <= k < |items| ==> Assembles(items[k], labels, base)
  }

  /** The items assemble one by one or not at all. */
  lemma {:induction false} ProgramExactly(items: seq<Located>, ticks: nat, labels: Labels, base: nat, p: Program0)
    requires InStep(items, |p.cells|, ticks, base)
    ensures AssembleFrom(items, labels, base, p).Success? <==> AllAssemble(items, labels, base)
    decreases |items|
  {
    hide EmitItem, EncodePieces, AllWritable, PlanFits, PlanTimed;
    if items != [] {
      AssemblesBehind(items, labels, base);
      EmitSize(items[0], labels, base);
      if EmitItem(items[0], labels, base).Success? {
        var e := EmitItem(items[0], labels, base).value;
        PiecesExactly(e.pieces, base + |p.cells|);
        EncodePiecesLength(e.pieces, base + |p.cells|);
        if EncodePieces(e.pieces, base + |p.cells|).Success? {
          var cells := EncodePieces(e.pieces, base + |p.cells|).value;
          ProgramExactly(items[1..], ticks + LocatedTicks(items[0]), labels, base,
                         Program0(p.cells + cells, p.pieces + e.pieces, p.inits + e.inits));
        }
      }
    }
  }

  lemma AssemblesBehind(items: seq<Located>, labels: Labels, base: nat)
    requires items != []
    ensures AllAssemble(items, labels, base)
            <==> Assembles(items[0], labels, base) && AllAssemble(items[1..], labels, base)
  {
    hide Assembles;
    assert forall k :: 0 < k < |items| ==> items[k] == items[1..][k - 1];
    if Assembles(items[0], labels, base) && AllAssemble(items[1..], labels, base) {
      forall k | 0 <= k < |items|
        ensures Assembles(items[k], labels, base)
      {
        assert k > 0 ==> Assembles(items[1..][k - 1], labels, base);
      }
    }
  }

  /**
   The assembler, decided: a source that lays out becomes an image if and only
   if each of its items is emitted and can be written where it stands, the
   startup code for the values it declares can be written at 0, and both
   together fit 59049 cells.
   */
  lemma AssemblesExactly(entries: seq<Entry>, trailing: seq<string>)
    requires LayOutSource(entries, trailing).Success?
    ensures var layout := LayOutSource(entries, trailing).value;
            var n := CountInitializers(Mapped(entries, EntryItem));
            var base := 12 * n + 6;
            var labels := FinalLabels(layout.labels, base);
            var program := AssembleProgram(layout, base);
            (program.Success? <==> AllAssemble(layout.items, labels, base))
            && (AssembleGlyph(layout).Success? <==>
                  program.Success? && AllWritable(MatPieces(program.value.inits, StartAddress(labels, base)), 0)
                  && base + LayoutSize(layout.items) <= 59049)
  {
    hide LayOutSource, CountInitializers, InStep, AssembleFrom, AllWritable, MatPieces, AllAssemble, FinalLabels,
         Mapped, StartAddress;
    var layout := LayOutSource(entries, trailing).value;
    LayoutInStep(entries, trailing);
    var n := CountInitializers(Mapped(entries, EntryItem));
    var base := MatCells(n);
    var labels := FinalLabels(layout.labels, base);
    ProgramExactly(layout.items, MatTicks(n), labels, base, Program0([], [], []));
    AssembleInStep(layout.items, MatTicks(n), labels, base, Program0([], [], []));
    var program := AssembleProgram(layout, base);
    if program.Success? {
      var mat := MatPieces(program.value.inits, StartAddress(labels, base));
      PiecesExactly(mat, 0);
      EncodePiecesLength(mat, 0);
      MatPiecesSize(program.value.inits, StartAddress(labels, base));
    }
  }
}
