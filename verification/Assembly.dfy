/**
 The assembler from parsed lines to the printable image: macro expansion,
 two-phase layout, emission, and the startup materializer.
 */
module Assembly {
  import opened Words
  import opened Glyphs
  import opened Frames
  import opened Source
  import opened Planner

  // ----- parsed source -----

  datatype Expr = Num(n: int) | Label(name: string) | Plus(l: Expr, r: Expr) | Minus(l: Expr, r: Expr) | Negate(e: Expr)
  type Labels = map<string, int>

  function Eval(e: Expr, labels: Labels): Option<int> {
    match e
    case Num(n) => Some(n)
    case Label(name) => if name in labels then Some(labels[name]) else None
    case Plus(l, r) =>
      (match (Eval(l, labels), Eval(r, labels))
       case (Some(a), Some(b)) => Some(a + b)
       case _ => None)
    case Minus(l, r) =>
      (match (Eval(l, labels), Eval(r, labels))
       case (Some(a), Some(b)) => Some(a - b)
       case _ => None)
    case Negate(x) =>
      (match Eval(x, labels)
       case Some(a) => Some(-a)
       case None => None)
  }

  function EvalAll(es: seq<Expr>, labels: Labels): (r: Option<seq<int>>)
    ensures r.Some? ==> |r.value| == |es|
  {
    if es == [] then Some([])
    else
      match (Eval(es[0], labels), EvalAll(es[1..], labels))
      case (Some(v), Some(rest)) => Some([v] + rest)
      case _ => None
  }

  /** Instructions with one inline frame word. */
  datatype Kind =
    | KJump | KStoreA | KLoadA | KSetA | KAddI | KSubI | KAddM | KSubM | KCmpM | KLoadI | KStoreI | KJumpM

  /** What a branch asks: branch, branchz, branchnz, brancherr, branchok. */
  datatype Test = Always | IfZero | IfNonzero | IfFailed | IfOk

  function ModeOf(test: Test): nat {
    match test
    case Always => 0
    case IfZero => 1
    case IfNonzero => 2
    case IfFailed => 3
    case IfOk => 4
  }

  datatype Item =
    | ITrap(args: seq<Expr>)
    | IFramed(kind: Kind, arg: Expr)
    | IBranch(test: Test, arg: Expr)
    | IAscii(bytes: seq<Word>)
    | ICString(bytes: seq<Word>)
    | IWord(args: seq<Expr>)
    | IPtr(args: seq<Expr>)
    | IPtrV(args: seq<Expr>)
    | IZero(count: nat)
    | IOp(op: char)
    | ICrazyInc(value: int)
    | ICrazyIncCell(addr: Expr, value: int)

  datatype Statement = One(item: Item) | Rechain(chain: string, count: nat)
  datatype Line = Line(labels: seq<string>, statement: Statement)
  datatype Entry = Entry(labels: seq<string>, item: Item)

  datatype AsmError =
    | BadExpression | BadArity | NoSpelling | UnknownOp | CannotPlan(reason: Blocked)
    | PlanMissing | SizeChanged | OutOfStep | ImageTooLarge

  datatype Outcome<+T> = Success(value: T) | Failure(error: AsmError)
  {
    predicate IsFailure() { Failure? }
    function PropagateFailure<U>(): Outcome<U>
      requires Failure?
    {
      Failure(error)
    }
    function Extract(): T
      requires Success?
    {
      value
    }
  }

  function Need<T>(o: Option<T>, error: AsmError): Outcome<T> {
    if o.Some? then Success(o.value) else Failure(error)
  }

  // ----- rechain -----

  function LinkExpr(chain: string, count: nat, k: nat): Expr {
    if k == count - 1 then Num(0) else Plus(Label(chain), Num(k + 1))
  }

  /** Links k, k+1, ... of the chain; the first entry carries the pending labels. */
  function Links(pending: seq<string>, chain: string, count: nat, k: nat): seq<Entry>
    decreases count - k
  {
    if k >= count then []
    else
      [Entry(pending, IFramed(KSetA, LinkExpr(chain, count, k))),
       Entry([], IFramed(KStoreA, Plus(Label(chain), Num(k))))]
      + Links([], chain, count, k + 1)
  }

  method ExpandRechain(pending: seq<string>, chain: string, count: nat) returns (raw: seq<Entry>)
    ensures raw == Links(pending, chain, count, 0)
  {
    raw := [];
    var macroPending := pending;
    for k := 0 to count
      invariant raw + Links(macroPending, chain, count, k) == Links(pending, chain, count, 0)
    {
      var before := raw;
      var two := [Entry(macroPending, IFramed(KSetA, LinkExpr(chain, count, k))),
                  Entry([], IFramed(KStoreA, Plus(Label(chain), Num(k))))];
      raw := raw + two;
      macroPending := [];
      assert before + (two + Links([], chain, count, k + 1)) == raw + Links([], chain, count, k + 1);
    }
    assert raw + [] == raw;
  }

  function Entries(lines: seq<Line>): seq<Entry> {
    if lines == [] then []
    else
      (match lines[0].statement
       case One(item) => [Entry(lines[0].labels, item)]
       case Rechain(chain, count) => Links(lines[0].labels, chain, count, 0))
      + Entries(lines[1..])
  }

  // ----- sizes, ticks, initializers -----

  function ItemSize(item: Item): nat {
    match item
    case ITrap(_) => 1 + 6 * ENC_WORD_CELLS
    case IFramed(_, _) => 1 + ENC_WORD_CELLS
    case IBranch(_, _) => 1 + 2 * ENC_WORD_CELLS
    case IAscii(bytes) => |bytes|
    case ICString(bytes) => |bytes| + 1
    case IWord(args) => |args|
    case IPtr(args) => |args|
    case IPtrV(args) => |args| + 1
    case IZero(count) => count
    case IOp(_) => 1
    case ICrazyInc(_) => 0
    case ICrazyIncCell(_, _) => 0
  }

  function ItemTicks(item: Item): nat {
    match item
    case ITrap(_) => 1
    case IFramed(_, _) => 1
    case IBranch(_, _) => 1
    case IOp(_) => 1
    case _ => ItemSize(item)
  }

  function ItemInits(item: Item): nat {
    match item
    case IAscii(bytes) => |bytes|
    case ICString(bytes) => |bytes| + 1
    case IWord(args) => |args|
    case IPtr(args) => |args|
    case IPtrV(args) => |args| + 1
    case _ => 0
  }

  function CountInitializers(items: seq<Item>): nat {
    if items == [] then 0 else ItemInits(items[0]) + CountInitializers(items[1..])
  }

  function Mapped<T, U>(xs: seq<T>, f: T -> U): (r: seq<U>)
    ensures |r| == |xs| && forall i :: 0 <= i < |xs| ==> r[i] == f(xs[i])
  {
    seq(|xs|, i requires 0 <= i < |xs| => f(xs[i]))
  }

  function EntryItem(e: Entry): Item {
    e.item
  }

  function PlacedItem(it: Located): Item {
    it.item
  }

  /** Cells and ticks of the startup code for n initialised cells. */
  function MatCells(n: nat): nat {
    n * (2 * (1 + ENC_WORD_CELLS)) + (1 + ENC_WORD_CELLS)
  }

  function MatTicks(n: nat): nat {
    2 * n + 1
  }

  // ----- layout -----

  datatype Located = Located(item: Item, address: nat, plan: Option<Plan>)
  datatype Layout = Layout(items: seq<Located>, labels: Labels)

  const CANARY: int := 57000

  /** The macro's plan at sizing time; live-cell macros are sized against a canary address. */
  function SizingPlan(item: Item, ticks: nat, cellBase: nat): Option<Planned> {
    match item
    case ICrazyInc(value) => Some(PlanEntry(MacroRequest(value, ticks, cellBase, None)))
    case ICrazyIncCell(_, value) => Some(PlanEntry(MacroRequest(value, ticks, cellBase, Some(CANARY))))
    case _ => None
  }

  function WithLabels(labels: Labels, names: seq<string>, pc: nat): Labels
    decreases |names|
  {
    if names == [] then labels else WithLabels(labels[names[0] := pc], names[1..], pc)
  }

  datatype Cursor = Cursor(pc: nat, ticks: nat, items: seq<Located>, labels: Labels)

  /** One entry of phase two. */
  function Place(e: Entry, matCells: nat, c: Cursor): Outcome<Cursor> {
    var labels := WithLabels(c.labels, e.labels, c.pc);
    match SizingPlan(e.item, c.ticks, matCells + c.pc)
    case None =>
      Success(Cursor(c.pc + ItemSize(e.item), c.ticks + ItemTicks(e.item), c.items + [Located(e.item, c.pc, None)],
                     labels))
    case Some(Fail(reason)) => Failure(CannotPlan(reason))
    case Some(Ok(plan)) =>
      Success(Cursor(c.pc + plan.CellCount(), c.ticks + |plan.ops|, c.items + [Located(e.item, c.pc, Some(plan))],
                     labels))
  }

  function PlaceAll(entries: seq<Entry>, matCells: nat, c: Cursor): Outcome<Cursor>
    decreases |entries|
  {
    if entries == [] then Success(c)
    else
      match Place(entries[0], matCells, c)
      case Failure(e) => Failure(e)
      case Success(c') => PlaceAll(entries[1..], matCells, c')
  }

  /** Phase two of parsing: addresses, ticks, macro plans and label values, program-relative. */
  function LayOutSource(entries: seq<Entry>, trailing: seq<string>): Outcome<Layout> {
    var n := CountInitializers(Mapped(entries, EntryItem));
    match PlaceAll(entries, MatCells(n), Cursor(0, MatTicks(n), [], map[]))
    case Failure(e) => Failure(e)
    case Success(c) => Success(Layout(c.items, WithLabels(c.labels, trailing, c.pc)))
  }

  /** The phase-two loop, its counters and its lists. */
  method LayOutLoop(entries: seq<Entry>, trailing: seq<string>) returns (r: Outcome<Layout>)
    ensures r == LayOutSource(entries, trailing)
  {
    hide PlanEntry, Mapped, CountInitializers, WithLabels;
    var n := CountInitializers(Mapped(entries, EntryItem));
    var matCells := MatCells(n);
    var pc, ticks, items, labels: Labels := 0, MatTicks(n), [], map[];
    for k := 0 to |entries|
      invariant PlaceAll(entries[k..], matCells, Cursor(pc, ticks, items, labels))
             == PlaceAll(entries, matCells, Cursor(0, MatTicks(n), [], map[]))
    {
      var e := entries[k];
      assert entries[k..][0] == e && entries[k..][1..] == entries[k + 1..];
      labels := WithLabels(labels, e.labels, pc);
      var planned := SizingPlan(e.item, ticks, matCells + pc);
      match planned {
        case None =>
          items := items + [Located(e.item, pc, None)];
          pc, ticks := pc + ItemSize(e.item), ticks + ItemTicks(e.item);
        case Some(Fail(reason)) =>
          return Failure(CannotPlan(reason));
        case Some(Ok(plan)) =>
          items := items + [Located(e.item, pc, Some(plan))];
          pc, ticks := pc + plan.CellCount(), ticks + |plan.ops|;
      }
    }
    r := Success(Layout(items, WithLabels(labels, trailing, pc)));
  }

  // ----- emission -----

  /** A stretch of image: one instruction, or filler cells that decode to no-ops. */
  datatype Piece = Code(instr: Instr) | Filler(count: nat)

  function PieceSize(p: Piece): nat {
    match p
    case Code(i) => Size(i)
    case Filler(n) => n
  }

  function PiecesSize(ps: seq<Piece>): nat {
    if ps == [] then 0 else PieceSize(ps[0]) + PiecesSize(ps[1..])
  }

  function MakeFramed(kind: Kind, v: int): Instr {
    match kind
    case KJump => Jump(v)
    case KStoreA => StoreA(v)
    case KLoadA => LoadA(v)
    case KSetA => SetA(v)
    case KAddI => AddI(v)
    case KSubI => SubI(v)
    case KAddM => AddM(v)
    case KSubM => SubM(v)
    case KCmpM => CmpM(v)
    case KLoadI => LoadI(v)
    case KStoreI => StoreI(v)
    case KJumpM => JumpM(v)
  }

  function Codes(ops: seq<Instr>): (r: seq<Piece>)
    ensures |r| == |ops|
  {
    seq(|ops|, i requires 0 <= i < |ops| => Code(ops[i]))
  }

  /** What an item contributes: its stretch of image and its startup pairs (address, value). */
  datatype Emission = Emission(pieces: seq<Piece>, inits: seq<(nat, Word)>)

  function InitPairs(addr: nat, values: seq<int>): (r: seq<(nat, Word)>)
    ensures |r| == |values|
  {
    seq(|values|, i requires 0 <= i < |values| => (addr + i, ModWord(values[i])))
  }

  function Data(addr: nat, values: seq<int>): Emission {
    Emission([Filler(|values|)], InitPairs(addr, values))
  }

  function Arg(args: seq<int>, i: nat): int {
    if i < |args| then args[i] else 0
  }

  function EmitItem(it: Located, labels: Labels, base: nat): Outcome<Emission> {
    var addr := base + it.address;
    match it.item
    case ITrap(args) =>
      if args == [] then Failure(BadArity)
      else
        var vs :- Need(EvalAll(args, labels), BadExpression);
        if |vs| > 6 then Failure(BadArity)
        else Success(Emission([Code(Trap(vs[0], Arg(vs, 1), Arg(vs, 2), Arg(vs, 3), Arg(vs, 4), Arg(vs, 5)))], []))
    case IFramed(kind, arg) =>
      var v :- Need(Eval(arg, labels), BadExpression);
      Success(Emission([Code(MakeFramed(kind, v))], []))
    case IBranch(test, arg) =>
      var v :- Need(Eval(arg, labels), BadExpression);
      Success(Emission([Code(Branch(ModeOf(test), v))], []))
    case IAscii(bytes) => Success(Data(addr, bytes))
    case ICString(bytes) => Success(Data(addr, bytes + [0]))
    case IWord(args) =>
      var vs :- Need(EvalAll(args, labels), BadExpression);
      Success(Data(addr, vs))
    case IPtr(args) =>
      if args == [] then Failure(BadArity)
      else
        var vs :- Need(EvalAll(args, labels), BadExpression);
        Success(Data(addr, vs))
    case IPtrV(args) =>
      if args == [] then Failure(BadArity)
      else
        var vs :- Need(EvalAll(args, labels), BadExpression);
        Success(Data(addr, vs + [0]))
    case IZero(count) => Success(Emission([Filler(count)], []))
    case IOp(op) => Success(Emission([Code(Classic(op))], []))
    case ICrazyInc(_) =>
      var plan :- Need(it.plan, PlanMissing);
      Success(Emission(Codes(plan.ops), []))
    case ICrazyIncCell(target, value) =>
      var sized :- Need(it.plan, PlanMissing);
      var v :- Need(Eval(target, labels), BadExpression);
      match PlanEntry(MacroRequest(value, sized.dEntry, addr, Some(ModWord(v))))
      case Fail(reason) => Failure(CannotPlan(reason))
      case Ok(plan) =>
        if plan.CellCount() != sized.CellCount() then Failure(SizeChanged)
        else Success(Emission(Codes(plan.ops), []))
  }

  // ----- encoding pieces -----

  function EncodeWords(values: seq<int>, addr: nat): Option<seq<Word>> {
    if values == [] then Some([])
    else
      match (EncodeFrame(values[0], addr), EncodeWords(values[1..], addr + ENC_WORD_CELLS))
      case (Some(cells), Some(rest)) => Some(cells + rest)
      case _ => None
  }

  /** The cell that decodes to a no-op at its address. */
  function FillerCell(addr: nat): (c: Word)
    ensures Graphic(c) && DecodeOp(c, addr) == 'o'
  {
    ValidOpsEncode('o', addr);
    EncodeOp('o', addr).value
  }

  function FillerCells(n: nat, addr: nat): (r: seq<Word>)
    ensures |r| == n
  {
    if n == 0 then [] else [FillerCell(addr)] + FillerCells(n - 1, addr + 1)
  }

  function EncodePiece(p: Piece, addr: nat): Outcome<seq<Word>> {
    match p
    case Filler(n) => Success(FillerCells(n, addr))
    case Code(i) =>
      var op :- Need(EncodeOp(OpChar(i), addr), UnknownOp);
      var words :- Need(EncodeWords(FrameOf(i), addr + 1), NoSpelling);
      Success([op] + words)
  }

  function EncodePieces(ps: seq<Piece>, addr: nat): Outcome<seq<Word>> {
    if ps == [] then Success([])
    else
      var cells :- EncodePiece(ps[0], addr);
      var rest :- EncodePieces(ps[1..], addr + PieceSize(ps[0]));
      Success(cells + rest)
  }

  // ----- the program and its startup code -----

  function FinalLabels(labels: Labels, base: nat): Labels {
    map k | k in labels :: labels[k] + base
  }

  datatype Program0 = Program0(cells: seq<Word>, pieces: seq<Piece>, inits: seq<(nat, Word)>)

  /** Items in order; an item whose planned address is not the current length is an internal error. */
  function AssembleFrom(items: seq<Located>, labels: Labels, base: nat, p: Program0): Outcome<Program0>
    decreases |items|
  {
    if items == [] then Success(p)
    else if |p.cells| != items[0].address then Failure(OutOfStep)
    else
      var e :- EmitItem(items[0], labels, base);
      var cells :- EncodePieces(e.pieces, base + |p.cells|);
      AssembleFrom(items[1..], labels, base, Program0(p.cells + cells, p.pieces + e.pieces, p.inits + e.inits))
  }

  function AssembleProgram(layout: Layout, base: nat): Outcome<Program0> {
    AssembleFrom(layout.items, FinalLabels(layout.labels, base), base, Program0([], [], []))
  }

  function MatPieces(inits: seq<(nat, Word)>, start: int): seq<Piece> {
    if inits == [] then [Code(Jump(start))]
    else [Code(SetA(inits[0].1)), Code(StoreA(inits[0].0))] + MatPieces(inits[1..], start)
  }

  datatype Image = Image(cells: seq<Word>, prefix: nat, start: int, labels: Labels, pieces: seq<Piece>,
                         inits: seq<(nat, Word)>)

  function StartAddress(labels: Labels, prefix: nat): int {
    if "start" in labels then labels["start"] else prefix
  }

  function AssembleGlyph(layout: Layout): Outcome<Image> {
    var prefix := MatCells(CountInitializers(Mapped(layout.items, PlacedItem)));
    var labels := FinalLabels(layout.labels, prefix);
    var program :- AssembleProgram(layout, prefix);
    var start := StartAddress(labels, prefix);
    var materializer :- EncodePieces(MatPieces(program.inits, start), 0);
    if |materializer| != prefix then Failure(OutOfStep)
    else
      var cells := materializer + program.cells;
      if |cells| > WORD_MOD then Failure(ImageTooLarge)
      else Success(Image(cells, prefix, start, labels, MatPieces(program.inits, start) + program.pieces, program.inits))
  }

  /** Source lines to image. */
  function Assemble(lines: seq<Line>, trailing: seq<string>): Outcome<Image> {
    var layout :- LayOutSource(Entries(lines), trailing);
    AssembleGlyph(layout)
  }
}
