/**
 The entry planner: a straight-line scroll that rewrites a cell from x to x+1.
 Seed cells are laid into frames that have already executed, the data pointer
 is walked onto them tick by tick, and two proof chains print the result.
 */
module Planner {
  import opened Words
  import opened Frames
  import opened Inversion
  import opened Search
  import opened Source


  // ----- constants -----

  const DEFAULT_CONSTANTS: seq<int> :=
    [0, 1, 2, 3, 10, 26, 80, 94, 255, 256, 512, 1024, 19683, 29524, 59048]

  /** Reduced modulo the word size, later duplicates dropped. */
  function Normalize(values: seq<int>, seen: set<Word>): seq<Word> {
    if values == [] then []
    else
      var w := ModWord(values[0]);
      if w in seen then Normalize(values[1..], seen) else [w] + Normalize(values[1..], seen + {w})
  }

  // ----- junk padding -----

  /** Cells between pair j's store instruction and the seed cell it writes; pairs count from 1. */
  function Slack(dEntry: nat, cellBase: nat, total: nat, k: nat, j: int): int {
    (cellBase + 6 * k + 12 * (j - 1) + 6) - (dEntry + k + 2 * total + 1 + (j - 1))
  }

  predicate JunkWorks(dEntry: nat, cellBase: nat, total: nat, pairs: nat, k: nat) {
    forall j :: 1 <= j <= pairs ==> Slack(dEntry, cellBase, total, k, j) > 0
  }

  const JUNK_LIMIT: nat := 256

  function LeastJunk(dEntry: nat, cellBase: nat, total: nat, pairs: nat, k: nat): Option<nat>
    decreases JUNK_LIMIT - k
  {
    if k >= JUNK_LIMIT then None
    else if JunkWorks(dEntry, cellBase, total, pairs, k) then Some(k)
    else LeastJunk(dEntry, cellBase, total, pairs, k + 1)
  }

  /** The planner's nested loops; the reported margin, the worst slack, is always the first pair's. */
  method JunkSearch(dEntry: nat, cellBase: nat, total: nat, pairs: nat) returns (junk: Option<nat>, margin: int)
    requires pairs >= 1
    ensures junk == LeastJunk(dEntry, cellBase, total, pairs, 0)
    ensures junk.Some? ==> margin == Slack(dEntry, cellBase, total, junk.value, 1)
    ensures junk.None? ==> margin == 0
  {
    for k := 0 to JUNK_LIMIT
      invariant LeastJunk(dEntry, cellBase, total, pairs, 0) == LeastJunk(dEntry, cellBase, total, pairs, k)
    {
      var start := dEntry + k + 2 * total + 1;
      var worst: Option<int> := None;
      var j := 1;
      while j <= pairs
        invariant 1 <= j <= pairs + 1
        invariant j > 1 ==> worst == Some(Slack(dEntry, cellBase, total, k, 1)) && worst.value > 0
        invariant j == 1 ==> worst == None
      {
        var storeaCell := cellBase + 6 * k + 12 * (j - 1) + 6;
        var slack := storeaCell - (start + (j - 1));
        if worst.None? || slack < worst.value {
          worst := Some(slack);
        }
        if slack <= 0 {
          break;
        }
        j := j + 1;
      }
      if worst.Some? && worst.value > 0 {
        return Some(k), worst.value;
      }
      assert !JunkWorks(dEntry, cellBase, total, pairs, k) by {
        assert Slack(dEntry, cellBase, total, k, 1) <= 0;
      }
    }
    return None, 0;
  }

  /**
   Padding exists exactly when the first pair can be brought below its own
   store within 255 junk instructions; the least such padding leaves between
   one and five cells of margin unless none was needed.
   */
  lemma {:induction false} LeastJunkMargin(dEntry: nat, cellBase: nat, total: nat, pairs: nat, k: nat)
    requires pairs >= 1 && k <= JUNK_LIMIT
    requires k > 0 ==> Slack(dEntry, cellBase, total, k - 1, 1) <= 0
    ensures var r := LeastJunk(dEntry, cellBase, total, pairs, k);
            (r.Some? <==> Slack(dEntry, cellBase, total, JUNK_LIMIT - 1, 1) > 0)
            && (r.Some? ==>
                  k <= r.value < JUNK_LIMIT
                  && (forall j :: 1 <= j <= pairs ==>
                      Slack(dEntry, cellBase, total, r.value, j) >= Slack(dEntry, cellBase, total, r.value, 1) > 0)
                  && (forall m :: 0 <= m < r.value ==> Slack(dEntry, cellBase, total, m, 1) <= 0)
                  && (r.value > 0 ==> 1 <= Slack(dEntry, cellBase, total, r.value, 1) <= 5))
    decreases JUNK_LIMIT - k
  {
    if k < JUNK_LIMIT {
      if Slack(dEntry, cellBase, total, k, 1) <= 0 {
        assert !JunkWorks(dEntry, cellBase, total, pairs, k);
        LeastJunkMargin(dEntry, cellBase, total, pairs, k + 1);
      } else {
        forall j | 1 <= j <= pairs
          ensures Slack(dEntry, cellBase, total, k, j) >= Slack(dEntry, cellBase, total, k, 1)
        {
        }
        assert JunkWorks(dEntry, cellBase, total, pairs, k);
      }
    }
  }

  // ----- the plan -----

  datatype Row = Row(n: nat, cell: nat, dAt: int, aBefore: Word, aAfter: Word)

  datatype Plan = Plan(
    value: Word, target: Word, mask: Word, runway: seq<RouteStep>,
    chainA: seq<ChainStep>, chainB: seq<ChainStep>, ok: string,
    dEntry: nat, cellBase: nat, junk: nat, blockStart: nat, blockValues: seq<Word>,
    ops: seq<Instr>, rows: seq<Row>, cellAddr: Option<Word>, neighbors: seq<(nat, Word)>)
  {
    function MutableAddr(): nat {
      match cellAddr
      case None => blockStart + |runway|
      case Some(addr) => addr
    }

    function CellCount(): nat {
      SizeAll(ops)
    }
  }

  datatype Blocked =
    | BadOkChars | ImpossibleRewrite | NoRunway | NoChain | NoJunk | BlockReachesAbi
    | LiveCellInCode | LiveCellReachesAbi | LiveCellInBlock | Untracked | Mismatch

  datatype Planned = Ok(plan: Plan) | Fail(reason: Blocked)

  function SizeAll(ops: seq<Instr>): nat {
    if ops == [] then 0 else Size(ops[0]) + SizeAll(ops[1..])
  }

  function Seeds(chain: seq<ChainStep>): (r: seq<Word>)
    ensures |r| == |chain|
  {
    seq(|chain|, i requires 0 <= i < |chain| => ModWord(chain[i].seed))
  }

  function RunwaySeeds(runway: seq<RouteStep>): (r: seq<Word>)
    ensures |r| == |runway|
  {
    seq(|runway|, i requires 0 <= i < |runway| => runway[i].value)
  }

  function BlockValues(runway: seq<RouteStep>, value: Word, a: seq<ChainStep>, b: seq<ChainStep>,
                       live: Option<Word>): seq<Word> {
    match live
    case None => RunwaySeeds(runway) + [value] + Seeds(a) + [0, 0] + Seeds(b)
    case Some(addr) => RunwaySeeds(runway) + [ModWord(addr - 1)]
  }

  function At(base: nat, values: seq<Word>): (r: seq<(nat, Word)>)
    ensures |r| == |values|
  {
    seq(|values|, i requires 0 <= i < |values| => (base + i, values[i]))
  }

  function Neighbors(a: seq<ChainStep>, b: seq<ChainStep>, live: Option<Word>): seq<(nat, Word)> {
    match live
    case None => []
    case Some(addr) => At(addr + 1, Seeds(a)) + At(addr + |a| + 3, Seeds(b))
  }

  function Junk(n: nat): (r: seq<Instr>)
    ensures |r| == n
  {
    seq(n, _ => SetA(0))
  }

  /** One seta/storea pair per seed cell. */
  function Pairs(cells: seq<(nat, Word)>): (r: seq<Instr>)
    ensures |r| == 2 * |cells|
  {
    if cells == [] then [] else [SetA(cells[0].1), StoreA(cells[0].0)] + Pairs(cells[1..])
  }

  function RunwayOps(runway: seq<RouteStep>): (r: seq<Instr>)
    ensures |r| == |runway|
  {
    seq(|runway|, i requires 0 <= i < |runway| => Classic(runway[i].op))
  }

  function Crazies(n: nat): (r: seq<Instr>)
    ensures |r| == n
  {
    seq(n, _ => Classic('p'))
  }

  function SetupOps(junk: nat, cells: seq<(nat, Word)>): seq<Instr> {
    Junk(junk) + Pairs(cells) + [SetA(0)]
  }

  function RitualOps(runway: seq<RouteStep>, aLen: nat, bLen: nat, live: bool, mutable: nat): seq<Instr> {
    RunwayOps(runway) + (if live then [Classic('j')] else []) + [Classic('p')]
    + Crazies(aLen) + [Classic('<'), LoadA(mutable)]
    + Crazies(bLen) + [Classic('<'), SetA(10), Classic('<'), Classic('v')]
  }

  // ----- the planner's own simulation -----

  datatype Track = Track(cell: nat, d: int, a: Word, known: map<nat, Word>)

  /** The tracked value, 0 for a cell the simulation does not track. */
  function Known(known: map<nat, Word>, x: int): Word {
    if x >= 0 && x in known then known[x] else 0
  }

  /** D as the row records it: the hop's row already shows the new D. */
  function RowD(op: Instr, t: Track): int {
    if op == Classic('j') then Known(t.known, t.d) else t.d
  }

  function TrackStep(op: Instr, t: Track): Track {
    var next := t.(cell := t.cell + Size(op), d := ModWord(RowD(op, t) + 1));
    match op
    case SetA(value) => next.(a := ModWord(value))
    case LoadA(source) => next.(a := Known(t.known, source))
    case Classic(c) =>
      if t.d >= 0 && c == 'p' then
        var v := Crazy(t.a, Known(t.known, t.d));
        next.(a := v, known := t.known[t.d := v])
      else if t.d >= 0 && c == '*' then
        var v := RotateRight(Known(t.known, t.d));
        next.(a := v, known := t.known[t.d := v])
      else next
    case _ => next
  }

  /** The simulation state after the first i instructions. */
  function TrackAt(ops: seq<Instr>, start: Track, i: nat): Track
    requires i <= |ops|
  {
    if i == 0 then start else TrackStep(ops[i - 1], TrackAt(ops, start, i - 1))
  }

  function RowAt(ops: seq<Instr>, start: Track, dEntry: nat, i: nat): Row
    requires i < |ops|
  {
    var t := TrackAt(ops, start, i);
    Row(dEntry + i + 1, t.cell, RowD(ops[i], t), t.a, TrackAt(ops, start, i + 1).a)
  }

  function Rows(ops: seq<Instr>, start: Track, dEntry: nat): seq<Row> {
    seq(|ops|, i requires 0 <= i < |ops| => RowAt(ops, start, dEntry, i))
  }

  /** The cell under D that p, * and j look up must be one the simulation tracks. */
  predicate Tracked(op: Instr, t: Track) {
    op.Classic? && (op.op == 'p' || op.op == '*' || op.op == 'j') ==> t.d >= 0 && t.d in t.known
  }

  predicate AllTracked(ops: seq<Instr>, start: Track) {
    forall i :: 0 <= i < |ops| ==> Tracked(ops[i], TrackAt(ops, start, i))
  }

  lemma RowTurn(ops: seq<Instr>, start: Track, dEntry: nat, i: nat)
    ensures TrackAt(ops, start, 0) == start
    ensures i < |ops| ==>
              var t := TrackAt(ops, start, i);
              TrackAt(ops, start, i + 1) == TrackStep(ops[i], t)
              && RowAt(ops, start, dEntry, i)
                 == Row(dEntry + i + 1, t.cell, RowD(ops[i], t), t.a, TrackStep(ops[i], t).a)
  {
    hide TrackStep, RowD;
  }

  /** The row loop, with its running a, d, cell and known map; a look-up outside the map ends it. */
  method SimulateRows(ops: seq<Instr>, start: Track, dEntry: nat) returns (rows: Option<seq<Row>>)
    ensures rows == if AllTracked(ops, start) then Some(Rows(ops, start, dEntry)) else None
  {
    hide TrackAt, TrackStep, Tracked, RowD, RowAt;
    RowTurn(ops, start, dEntry, 0);
    var done := [];
    var t := start;
    for i := 0 to |ops|
      invariant t == TrackAt(ops, start, i)
      invariant forall k :: 0 <= k < i ==> Tracked(ops[k], TrackAt(ops, start, k))
      invariant |done| == i && forall k :: 0 <= k < i ==> done[k] == RowAt(ops, start, dEntry, k)
    {
      RowTurn(ops, start, dEntry, i);
      if !Tracked(ops[i], t) {
        return None;
      }
      var before, rowD := t.a, RowD(ops[i], t);
      var cell := t.cell;
      t := TrackStep(ops[i], t);
      done := done + [Row(dEntry + i + 1, cell, rowD, before, t.a)];
    }
    assert done == Rows(ops, start, dEntry);
    rows := Some(done);
  }

  function Install(cells: seq<(nat, Word)>, known: map<nat, Word>): map<nat, Word> {
    if cells == [] then known else Install(cells[1..], known[cells[0].0 := cells[0].1])
  }

  function KnownAtStart(blockStart: nat, blockValues: seq<Word>, live: Option<Word>, value: Word,
                        neighbors: seq<(nat, Word)>): map<nat, Word> {
    var block := Install(At(blockStart, blockValues), map[]);
    var withLive := if live.Some? then block[live.value := value] else block;
    Install(neighbors, withLive)
  }

  // ----- putting the plan together -----

  function LiveTargets(addr: Word, neighbors: seq<(nat, Word)>): seq<nat> {
    [addr] + seq(|neighbors|, i requires 0 <= i < |neighbors| => neighbors[i].0)
  }

  /** The first complaint about a live target, in the order they are checked. */
  function LiveCheck(targets: seq<nat>, lo: nat, hi: nat, blockStart: nat, pairs: nat): Option<Blocked> {
    if targets == [] then None
    else
      var x := targets[0];
      if lo <= x < hi then Some(LiveCellInCode)
      else if x >= ABI_ARGC then Some(LiveCellReachesAbi)
      else if blockStart <= x <= blockStart + pairs - 1 then Some(LiveCellInBlock)
      else LiveCheck(targets[1..], lo, hi, blockStart, pairs)
  }

  predicate Printable(c: char) {
    '!' <= c <= '~'
  }

  datatype Request = Request(
    value: int, ok: string, startA: int, maxDepth: nat, maskLimit: int, constants: Option<seq<int>>,
    dEntry: nat, cellBase: nat, cellAddr: Option<int>)

  /** The macro's request: default prints, depth, mask limit and constants, A assumed zero. */
  function MacroRequest(value: int, dEntry: nat, cellBase: nat, cellAddr: Option<int>): Request {
    Request(value, "OK", 0, 4, 16, None, dEntry, cellBase, cellAddr)
  }

  function SearchMasks(value: Word, target: Word, limit: int): seq<Word>
    requires 0 <= target < WORD_MOD
  {
    var masks := Masks(value, target, TRITS);
    MaskWords(value, target);
    var n: nat := if limit < 1 then 1 else limit;
    if |masks| <= n then masks else masks[..n]
  }

  lemma MaskWords(value: Word, target: Word)
    ensures forall k :: 0 <= k < |Masks(value, target, TRITS)| ==> Masks(value, target, TRITS)[k] < WORD_MOD
  {
    PowTen();
    MasksExact(value, target, TRITS);
    var masks := Masks(value, target, TRITS);
    forall k | 0 <= k < |masks|
      ensures masks[k] < WORD_MOD
    {
      assert masks[k] in masks;
    }
  }

  function RequestConstants(r: Request): seq<Word> {
    Normalize(if r.constants.Some? then r.constants.value else DEFAULT_CONSTANTS, {})
  }

  function LiveAddr(r: Request): Option<Word> {
    match r.cellAddr
    case None => None
    case Some(addr) => Some(ModWord(addr))
  }

  /** The part after the search: layout, instruction list, checks, simulation. */
  function LayOut(r: Request, node: Node, a: seq<ChainStep>, b: seq<ChainStep>): Planned
    requires |r.ok| == 2
  {
    var value, target := ModWord(r.value), ModWord(r.value + 1);
    var live := LiveAddr(r);
    var blockValues := BlockValues(node.steps, value, a, b, live);
    var neighbors := Neighbors(a, b, live);
    var total := |blockValues| + |neighbors|;
    var pairs := if live.None? then total else |node.steps| + 1;
    match LeastJunk(r.dEntry, r.cellBase, total, pairs, 0)
    case None => Fail(NoJunk)
    case Some(junk) =>
      var blockStart := r.dEntry + junk + 2 * total + 1;
      if blockStart + pairs - 1 >= ABI_ARGC then Fail(BlockReachesAbi)
      else
        var mutable := if live.Some? then live.value else blockStart + |node.steps|;
        var setup := SetupOps(junk, At(blockStart, blockValues) + neighbors);
        var ops := setup + RitualOps(node.steps, |a|, |b|, live.Some?, mutable);
        var hi := r.cellBase + SizeAll(ops);
        var complaint := if live.None? then None
                         else LiveCheck(LiveTargets(live.value, neighbors), r.cellBase, hi, blockStart, pairs);
        if complaint.Some? then Fail(complaint.value)
        else
          var start := Track(r.cellBase, r.dEntry, ModWord(r.startA),
                             KnownAtStart(blockStart, blockValues, live, value, neighbors));
          var rows := Rows(ops, start, r.dEntry);
          var finalP := |setup| + |node.steps| + (if live.Some? then 1 else 0);
          if !AllTracked(ops, start) then Fail(Untracked)
          else if rows[finalP].aAfter != target then Fail(Mismatch)
          else
            Ok(Plan(value, target, node.value, node.steps, a, b, r.ok, r.dEntry, r.cellBase, junk,
                    blockStart, blockValues, ops, rows, live, neighbors))
  }

  function PlanEntry(r: Request): Planned {
    var value, target := ModWord(r.value), ModWord(r.value + 1);
    if |r.ok| != 2 || !Printable(r.ok[0]) || !Printable(r.ok[1]) then Fail(BadOkChars)
    else if !Possible(Choices(value, target, TRITS)) then Fail(ImpossibleRewrite)
    else
      match PlanForMasks(ModWord(r.startA), SearchMasks(value, target, r.maskLimit), r.maxDepth, RequestConstants(r))
      case None => Fail(NoRunway)
      case Some(node) =>
        match (ChainToTarget(target, r.ok[0] as nat, TRITS), ChainToTarget(target, r.ok[1] as nat, TRITS))
        case (Some(a), Some(b)) => LayOut(r, node, a, b)
        case _ => Fail(NoChain)
  }
}
