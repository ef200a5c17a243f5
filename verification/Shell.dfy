/**
 The msh shell's memory: four pointer-chain buffers, the read loops that fill
 them, builtin dispatch through the equality oracle, and the external path.
 */
module Shell {
  import opened Words
  import opened Frames
  import opened Machine
  import opened OracleTree
  import opened ShellLine
  import opened ShellParse

  // ----- chase buffers -----

  /** What an untouched cell of a chain holds: the next cell's address, 0 in the last. */
  function LinkAt(base: nat, n: nat, i: nat): nat {
    if i == n - 1 then 0 else base + i + 1
  }

  function CursorAt(base: nat, n: nat, k: nat): nat {
    if k < n then base + k else 0
  }

  /** A chain of n cells: what was written, then the links untouched; the cursor is the next cell, or 0 when full. */
  ghost predicate Chain(mem: seq<Word>, base: nat, n: nat, written: seq<Word>, cur: Word) {
    |written| <= n && 0 < base && base + n <= |mem|
    && cur == CursorAt(base, n, |written|)
    && (forall i :: 0 <= i < |written| ==> ChainCell(mem, base, i) == written[i])
    && (forall i :: |written| <= i < n ==> ChainCell(mem, base, i) == LinkAt(base, n, i))
  }

  function ChainCell(mem: seq<Word>, base: nat, i: nat): Word
    requires base + i < |mem|
  {
    mem[base + i]
  }

  predicate SameCells(a: seq<Word>, b: seq<Word>, base: nat, n: nat) {
    |a| == |b| && base + n <= |a| && forall i :: 0 <= i < n ==> ChainCell(a, base, i) == ChainCell(b, base, i)
  }

  lemma ChainFrame(a: seq<Word>, b: seq<Word>, base: nat, n: nat, written: seq<Word>, cur: Word)
    requires Chain(a, base, n, written, cur) && SameCells(a, b, base, n)
    ensures Chain(b, base, n, written, cur)
  {
    forall i | 0 <= i < n
      ensures ChainCell(b, base, i) == ChainCell(a, base, i)
    {
    }
  }

  /** A chase write: the link read before the store becomes the cursor. */
  lemma ChainWrite(mem: seq<Word>, base: nat, n: nat, written: seq<Word>, cur: Word, w: Word)
    requires Chain(mem, base, n, written, cur) && cur != 0
    ensures cur < |mem| && base <= cur < base + n
    ensures Chain(mem[cur := w], base, n, written + [w], mem[cur])
  {
    var k := |written|;
    var after := mem[cur := w];
    assert ChainCell(mem, base, k) == mem[cur];
    forall i | 0 <= i < n
      ensures ChainCell(after, base, i) == if i == k then w else ChainCell(mem, base, i)
    {
    }
  }

  const BIN: seq<Byte> := [47, 98, 105, 110, 47]
  const MB: seq<Byte> := [46, 109, 98]

  function AsWords(s: seq<Byte>): (r: seq<Word>)
    ensures |r| == |s| && forall i :: 0 <= i < |s| ==> r[i] == s[i]
  {
    seq(|s|, i requires 0 <= i < |s| => s[i])
  }

  datatype Choice = Help | Exit | ChangeDir | MfsLs | MfsCat | External

  function ChoiceOf(k: nat): Choice
    requires k < |BUILTINS|
  {
    if k == 0 then Help else if k == 1 then Exit else if k == 2 then ChangeDir else if k == 3 then MfsLs else MfsCat
  }

  /** The name cells spell the word and end there. */
  predicate Spells(name: seq<Byte>, word: seq<Byte>) {
    |word| < |name| && name[..|word|] == word && name[|word|] == 0
  }

  /** The choice for name cells: help, exit, cd, mfsls, mfscat by their bytes, everything else external. */
  predicate PicksCells(c: Choice, name: seq<Byte>) {
    (c == Help <==> Spells(name, [104, 101, 108, 112]))
    && (c == Exit <==> Spells(name, [101, 120, 105, 116]))
    && (c == ChangeDir <==> Spells(name, [99, 100]))
    && (c == MfsLs <==> Spells(name, [109, 102, 115, 108, 115]))
    && (c == MfsCat <==> Spells(name, [109, 102, 115, 99, 97, 116]))
    && (c == External <==> !Spells(name, [104, 101, 108, 112]) && !Spells(name, [101, 120, 105, 116])
                           && !Spells(name, [99, 100]) && !Spells(name, [109, 102, 115, 108, 115])
                           && !Spells(name, [109, 102, 115, 99, 97, 116]))
  }

  /** The choice for a command word. */
  predicate PicksWord(c: Choice, word: seq<Byte>) {
    (c == Help <==> word == [104, 101, 108, 112])
    && (c == Exit <==> word == [101, 120, 105, 116])
    && (c == ChangeDir <==> word == [99, 100])
    && (c == MfsLs <==> word == [109, 102, 115, 108, 115])
    && (c == MfsCat <==> word == [109, 102, 115, 99, 97, 116])
    && (c == External <==> word !in {[104, 101, 108, 112], [101, 120, 105, 116], [99, 100], [109, 102, 115, 108, 115],
                                     [109, 102, 115, 99, 97, 116]})
  }

  lemma BuiltinBytes()
    ensures |BUILTINS| == 5 && BUILTINS[0] == [104, 101, 108, 112] && BUILTINS[1] == [101, 120, 105, 116]
            && BUILTINS[2] == [99, 100] && BUILTINS[3] == [109, 102, 115, 108, 115]
            && BUILTINS[4] == [109, 102, 115, 99, 97, 116]
  {
  }

  lemma FiveChoices()
    ensures |BUILTINS| == 5 && ChoiceOf(0) == Help && ChoiceOf(1) == Exit && ChoiceOf(2) == ChangeDir
            && ChoiceOf(3) == MfsLs && ChoiceOf(4) == MfsCat
  {
  }

  datatype ByteKind = Letter | Newline | Return | Blank

  class Msh {
    const mem: array<Word>
    const pathBase: nat
    const tree: Tree
    const cwd: Path
    const mfsLs: Word
    const mfsCat: Word
    var nameCur: Word
    var pathCur: Word
    var argCur: Word
    var xCur: Word
    var xSlot: Word
    var cmdDone: bool
    var lineActive: bool
    var cmdStarted: bool
    var mode: Mode
    var input: seq<Event>
    var pos: nat

    function NameBase(): nat { pathBase + 24 }
    function ArgBase(): nat { pathBase + 48 }
    function ExecArgv(): nat { pathBase + 560 }
    function ExecBase(): nat { pathBase + 562 }
    function ExecEnd(): nat { pathBase + 570 }

    /** The shell as it starts: data in place, no argument chain yet. */
    constructor (mem: array<Word>, pathBase: nat, tree: Tree, cwd: Path, mfsLs: Word, mfsCat: Word, input: seq<Event>)
      requires mem.Length == MEM_SIZE && 5 < pathBase && pathBase + 570 < ABI_ARGC && Shipped(tree)
      requires (forall i :: 0 <= i < 5 ==> mem[pathBase - 5 + i] == BIN[i]) && mem[pathBase + 570] == 0
      ensures this.mem == mem && this.pathBase == pathBase && this.input == input && pos == 0
      ensures forall buf: seq<Byte> :: |buf| == ARG_CELLS ==> Ready(buf)
    {
      this.mem, this.pathBase, this.tree, this.cwd, this.mfsLs, this.mfsCat := mem, pathBase, tree, cwd, mfsLs, mfsCat;
      this.input, pos := input, 0;
      nameCur, pathCur, argCur, xCur, xSlot := 0, 0, 0, 0, 0;
      cmdDone, lineActive, cmdStarted, mode := false, false, false, Between;
    }

    /**
     The data section's layout: "/bin/", path, name, arguments, argv with its final zero; the
     oracle tree is shipped.
     */
    ghost predicate Placed()
      reads mem
    {
      mem.Length == MEM_SIZE && 5 < pathBase && ExecEnd() < ABI_ARGC && Shipped(tree)
      && (forall i :: 0 <= i < 5 ==> mem[pathBase - 5 + i] == BIN[i])
      && mem[ExecEnd()] == 0
    }

    function SlotWord(slot: Option<nat>): Word
      requires ExecEnd() < ABI_ARGC && (slot.Some? ==> slot.value < ARG_CELLS)
    {
      if slot.Some? then ArgBase() + slot.value else 0
    }

    predicate SlotsOk(l: Line) {
      forall i :: 0 <= i < |l.slots| && l.slots[i].Some? ==> l.slots[i].value < ARG_CELLS
    }

    function SlotWords(l: Line): (r: seq<Word>)
      requires ExecEnd() < ABI_ARGC && SlotsOk(l)
    {
      seq(|l.slots|, i requires 0 <= i < |l.slots| => SlotWord(l.slots[i]))
    }

    /** Memory and cursors hold the line. */
    ghost predicate HoldsLine(l: Line)
      reads this, mem
    {
      Placed() && Roomy(l) && SlotsOk(l)
      && Chain(mem[..], NameBase(), NAME_CELLS, AsWords(l.name), nameCur)
      && Chain(mem[..], pathBase, NAME_CELLS, AsWords(l.path), pathCur)
      && Chain(mem[..], ArgBase(), ARG_CELLS, AsWords(l.buf), argCur)
      && Chain(mem[..], ExecBase(), EXEC_SLOTS, SlotWords(l), xCur)
      && (l.mode == InArgument ==> xSlot == ExecBase() + |l.slots| - 1)
      && cmdDone == l.done && lineActive == l.active && cmdStarted == l.started && mode == l.mode
    }

    /** Nothing outside the four buffers has changed. */
    ghost predicate Contained(before: seq<Word>)
      requires |before| == mem.Length
      reads mem
    {
      forall x :: 0 <= x < mem.Length && !(pathBase <= x < ExecArgv()) && !(ExecBase() <= x < ExecEnd()) ==>
             mem[x] == before[x]
    }

    // ----- single writes -----

    /** loadi next, storei, advance: one cell of one chain. */
    method Chase(cur: Word, w: Word, ghost base: nat, ghost n: nat, ghost written: seq<Word>) returns (next: Word)
      requires mem.Length == MEM_SIZE && Chain(mem[..], base, n, written, cur) && cur != 0
      modifies mem
      ensures base <= cur < base + n && mem[..] == old(mem[..])[cur := w]
      ensures Chain(mem[..], base, n, written + [w], next)
    {
      ChainWrite(mem[..], base, n, written, cur, w);
      next := mem[cur];
      mem[cur] := w;
    }

    method PutName(ghost l: Line, b: Byte)
      requires HoldsLine(l) && nameCur != 0
      modifies this`nameCur, mem
      ensures |l.name| < NAME_CELLS && HoldsLine(l.(name := l.name + [b])) && Contained(old(mem[..]))
    {
      hide Chain;
      ghost var before := mem[..];
      CursorRoom(mem[..], NameBase(), NAME_CELLS, AsWords(l.name), nameCur);
      ghost var at := nameCur;
      nameCur := Chase(nameCur, b, NameBase(), NAME_CELLS, AsWords(l.name));
      assert AsWords(l.name + [b]) == AsWords(l.name) + [b as Word];
      OneCellFrame(before, mem[..], at, b, pathBase, NAME_CELLS, AsWords(l.path), pathCur);
      OneCellFrame(before, mem[..], at, b, ArgBase(), ARG_CELLS, AsWords(l.buf), argCur);
      OneCellFrame(before, mem[..], at, b, ExecBase(), EXEC_SLOTS, SlotWords(l), xCur);
    }

    method PutPath(ghost l: Line, b: Byte)
      requires HoldsLine(l) && pathCur != 0
      modifies this`pathCur, mem
      ensures |l.path| < NAME_CELLS && HoldsLine(l.(path := l.path + [b])) && Contained(old(mem[..]))
    {
      hide Chain;
      ghost var before := mem[..];
      CursorRoom(mem[..], pathBase, NAME_CELLS, AsWords(l.path), pathCur);
      ghost var at := pathCur;
      pathCur := Chase(pathCur, b, pathBase, NAME_CELLS, AsWords(l.path));
      assert AsWords(l.path + [b]) == AsWords(l.path) + [b as Word];
      OneCellFrame(before, mem[..], at, b, NameBase(), NAME_CELLS, AsWords(l.name), nameCur);
      OneCellFrame(before, mem[..], at, b, ArgBase(), ARG_CELLS, AsWords(l.buf), argCur);
      OneCellFrame(before, mem[..], at, b, ExecBase(), EXEC_SLOTS, SlotWords(l), xCur);
    }

    method PutArgument(ghost l: Line, b: Byte)
      requires HoldsLine(l) && argCur != 0
      modifies this`argCur, mem
      ensures |l.buf| < ARG_CELLS && HoldsLine(l.(buf := l.buf + [b])) && Contained(old(mem[..]))
    {
      hide Chain;
      ghost var before := mem[..];
      CursorRoom(mem[..], ArgBase(), ARG_CELLS, AsWords(l.buf), argCur);
      ghost var at := argCur;
      argCur := Chase(argCur, b, ArgBase(), ARG_CELLS, AsWords(l.buf));
      assert AsWords(l.buf + [b]) == AsWords(l.buf) + [b as Word];
      OneCellFrame(before, mem[..], at, b, NameBase(), NAME_CELLS, AsWords(l.name), nameCur);
      OneCellFrame(before, mem[..], at, b, pathBase, NAME_CELLS, AsWords(l.path), pathCur);
      OneCellFrame(before, mem[..], at, b, ExecBase(), EXEC_SLOTS, SlotWords(l), xCur);
      assert SlotWords(l.(buf := l.buf + [b])) == SlotWords(l);
    }

    /** The next argv slot receives the address of the next argument cell. */
    method PutSlot(ghost l: Line)
      requires HoldsLine(l) && xCur != 0 && argCur != 0 && l.mode != InArgument
      modifies this`xCur, this`xSlot, mem
      ensures |l.slots| < EXEC_SLOTS && |l.buf| < ARG_CELLS
      ensures HoldsLine(l.(slots := l.slots + [Some(|l.buf|)])) && Contained(old(mem[..]))
      ensures xSlot == ExecBase() + |l.slots|
    {
      hide Chain;
      ghost var before := mem[..];
      CursorRoom(mem[..], ExecBase(), EXEC_SLOTS, SlotWords(l), xCur);
      CursorRoom(mem[..], ArgBase(), ARG_CELLS, AsWords(l.buf), argCur);
      ghost var l' := l.(slots := l.slots + [Some(|l.buf|)]);
      xSlot := xCur;
      xCur := Chase(xCur, argCur, ExecBase(), EXEC_SLOTS, SlotWords(l));
      assert SlotWords(l') == SlotWords(l) + [argCur];
      OneCellFrame(before, mem[..], xSlot, argCur, NameBase(), NAME_CELLS, AsWords(l.name), nameCur);
      OneCellFrame(before, mem[..], xSlot, argCur, pathBase, NAME_CELLS, AsWords(l.path), pathCur);
      OneCellFrame(before, mem[..], xSlot, argCur, ArgBase(), ARG_CELLS, AsWords(l.buf), argCur);
    }

    /** The open argument's slot is cleared again. */
    method ClearSlot(ghost l: Line)
      requires HoldsLine(l) && l.slots != [] && xSlot == ExecBase() + |l.slots| - 1
      modifies mem, this`mode
      ensures HoldsLine(DropArgument(l)) && Contained(old(mem[..]))
    {
      hide Chain;
      ghost var before := mem[..];
      ghost var k := |l.slots| - 1;
      mem[xSlot] := 0;
      mode := Draining;
      assert mem[..] == before[xSlot := 0];
      ChainPatch(before, ExecBase(), EXEC_SLOTS, SlotWords(l), xCur, k, 0);
      assert SlotWords(DropArgument(l)) == SlotWords(l)[k := 0];
      OneCellFrame(before, mem[..], xSlot, 0, NameBase(), NAME_CELLS, AsWords(l.name), nameCur);
      OneCellFrame(before, mem[..], xSlot, 0, pathBase, NAME_CELLS, AsWords(l.path), pathCur);
      OneCellFrame(before, mem[..], xSlot, 0, ArgBase(), ARG_CELLS, AsWords(l.buf), argCur);
    }

    /** Full or not shows in the cursor. */
    lemma Cursors(l: Line)
      requires HoldsLine(l)
      ensures nameCur == 0 <==> |l.name| == NAME_CELLS
      ensures pathCur == 0 <==> |l.path| == NAME_CELLS
      ensures argCur == 0 <==> |l.buf| == ARG_CELLS
      ensures xCur == 0 <==> |l.slots| == EXEC_SLOTS
    {
      CursorRoom(mem[..], NameBase(), NAME_CELLS, AsWords(l.name), nameCur);
      CursorRoom(mem[..], pathBase, NAME_CELLS, AsWords(l.path), pathCur);
      CursorRoom(mem[..], ArgBase(), ARG_CELLS, AsWords(l.buf), argCur);
      CursorRoom(mem[..], ExecBase(), EXEC_SLOTS, SlotWords(l), xCur);
    }

    // ----- the reader's actions -----

    method WriteCommandByte(ghost l: Line, b: Byte)
      requires HoldsLine(l)
      modifies this`nameCur, this`pathCur, this`cmdDone, this`mode, mem
      ensures HoldsLine(WriteCommand(l, b)) && Contained(old(mem[..]))
    {
      hide Chain;
      Cursors(l);
      if nameCur == 0 || pathCur == 0 {
        cmdDone := true;
        mode := Between;
        Relabel(l, WriteCommand(l, b));
        return;
      }
      PutName(l, b);
      PutPath(l.(name := l.name + [b]), b);
      mode := InCommand;
      Relabel(l.(name := l.name + [b], path := l.path + [b]), WriteCommand(l, b));
    }

    /** Close the command word with a NUL if there is room. */
    method EndCommandWord(ghost l: Line)
      requires HoldsLine(l)
      modifies this`nameCur, this`cmdDone, mem
      ensures HoldsLine(EndCommand(l)) && Contained(old(mem[..]))
    {
      hide Chain;
      Cursors(l);
      ghost var l' := l;
      if nameCur != 0 {
        PutName(l, 0);
        l' := l.(name := l.name + [0]);
      }
      cmdDone := true;
      Relabel(l', EndCommand(l));
    }

    method WriteArgumentByte(ghost l: Line, b: Byte)
      requires HoldsLine(l) && l.slots != [] && xSlot == ExecBase() + |l.slots| - 1
      modifies this`argCur, this`mode, mem
      ensures HoldsLine(WriteArgument(l, b)) && Contained(old(mem[..]))
    {
      hide Chain;
      Cursors(l);
      if argCur == 0 {
        ClearSlot(l);
      } else {
        PutArgument(l, b);
        mode := InArgument;
        Relabel(l.(buf := l.buf + [b]), WriteArgument(l, b));
      }
    }

    method StartArgumentWord(ghost l: Line, b: Byte)
      requires HoldsLine(l) && l.mode != InArgument
      modifies this`argCur, this`xCur, this`xSlot, this`mode, mem
      ensures HoldsLine(StartArgument(l, b)) && Contained(old(mem[..]))
    {
      hide Chain;
      Cursors(l);
      if xCur == 0 || argCur == 0 {
        mode := Draining;
        Relabel(l, StartArgument(l, b));
      } else {
        PutSlot(l);
        WriteArgumentByte(l.(slots := l.slots + [Some(|l.buf|)]), b);
      }
    }

    method EndArgumentWord(ghost l: Line)
      requires HoldsLine(l) && l.mode == InArgument
      modifies this`argCur, this`mode, mem
      ensures HoldsLine(EndArgument(l)) && Contained(old(mem[..]))
    {
      hide Chain;
      Cursors(l);
      if argCur == 0 {
        ClearSlot(l);
      } else {
        PutArgument(l, 0);
        mode := Between;
        Relabel(l.(buf := l.buf + [0]), EndArgument(l));
      }
    }

    /** Flags and mode may change without touching the buffers. */
    lemma Relabel(l: Line, l': Line)
      requires ExecEnd() < ABI_ARGC && SlotsOk(l)
      requires l'.name == l.name && l'.path == l.path && l'.buf == l.buf && l'.slots == l.slots
      ensures SlotsOk(l') && SlotWords(l') == SlotWords(l)
    {
    }

    // ----- classification by probing -----

    method Probe(dir: Name, b: Byte) returns (found: bool)
      requires Shipped(tree) && SeparatorNames(dir) != [] && b != 0
      ensures found <==> [b, X] in SeparatorNames(dir)
    {
      SeparatorProbe(tree, cwd, dir, b);
      found := Opens(tree, cwd, ProbePath([M8, dir], b, X));
    }

    /** NUL is a letter before any probe; then /.m8/x, /.m8/n and /.m8/r decide. */
    method Classify(b: Byte) returns (kind: ByteKind)
      requires Shipped(tree)
      ensures kind == (if b == 10 then Newline else if b == 13 then Return else if b == 32 then Blank else Letter)
    {
      hide Opens, ProbePath, Shipped;
      if b == 0 {
        return Letter;
      }
      var any := Probe(DIR_X, b);
      if !any {
        return Letter;
      }
      var lf := Probe(DIR_N, b);
      if lf {
        return Newline;
      }
      var cr := Probe(DIR_R, b);
      return if cr then Return else Blank;
    }

    /** One byte in one of the four loops; true when it ends the line. */
    method TakeByte(ghost l: Line, b: Byte) returns (ends: bool)
      requires HoldsLine(l)
      modifies this`nameCur, this`pathCur, this`argCur, this`xCur, this`xSlot, this`cmdDone, this`lineActive,
               this`cmdStarted, this`mode, mem
      ensures ends <==> b == 10
      ensures Contained(old(mem[..])) && HoldsLine(if ends then l else Feed(l, b))
    {
      hide Chain, Shipped;
      if mode == Draining {
        if b == 0 {
          return false;
        }
        ends := Probe(DIR_N, b);
        return;
      }
      var kind := Classify(b);
      match kind
      case Newline => ends := true;
      case Return => ends := false;
      case Blank =>
        ends := false;
        TakeBlank(l);
      case Letter =>
        ends := false;
        TakeLetter(l, b);
    }

    method TakeBlank(ghost l: Line)
      requires HoldsLine(l) && l.mode != Draining
      modifies this`nameCur, this`argCur, this`cmdDone, this`lineActive, this`mode, mem
      ensures Contained(old(mem[..])) && HoldsLine(Feed(l, SPACE))
    {
      hide Chain, Shipped;
      match mode
      case Between =>
        lineActive := true;
        Relabel(l, Feed(l, SPACE));
      case InCommand =>
        EndCommandWord(l);
        mode := Between;
        Relabel(EndCommand(l), Feed(l, SPACE));
      case InArgument =>
        EndArgumentWord(l);
    }

    method TakeLetter(ghost l: Line, b: Byte)
      requires HoldsLine(l) && l.mode != Draining && b != CR && b != SPACE
      modifies this`nameCur, this`pathCur, this`argCur, this`xCur, this`xSlot, this`cmdDone, this`lineActive,
               this`cmdStarted, this`mode, mem
      ensures Contained(old(mem[..])) && HoldsLine(Feed(l, b))
    {
      hide Chain, Shipped;
      match mode
      case Between =>
        lineActive := true;
        ghost var l' := l.(active := true);
        Relabel(l, l');
        if cmdDone {
          StartArgumentWord(l', b);
        } else {
          cmdStarted := true;
          Relabel(l', l'.(started := true));
          WriteCommandByte(l'.(started := true), b);
        }
      case InCommand =>
        WriteCommandByte(l, b);
      case InArgument =>
        WriteArgumentByte(l, b);
    }

    // ----- one line -----

    /** Between lines only the argument chain matters; a zero cursor asks for a fresh one. */
    ghost predicate Ready(buf: seq<Byte>)
      reads this, mem
    {
      Placed() && |buf| <= ARG_CELLS
      && if argCur == 0 then |buf| == ARG_CELLS
         else Chain(mem[..], ArgBase(), ARG_CELLS, AsWords(buf), argCur) && |buf| < ARG_CELLS
    }

    /** A finished line: the buffers hold it, and the first unused argv slot is zero. */
    ghost predicate Settled(l: Line)
      reads this, mem
    {
      Placed() && Roomy(l) && SlotsOk(l)
      && Chain(mem[..], NameBase(), NAME_CELLS, AsWords(l.name), nameCur)
      && Chain(mem[..], pathBase, NAME_CELLS, AsWords(l.path), pathCur)
      && Chain(mem[..], ArgBase(), ARG_CELLS, AsWords(l.buf), argCur)
      && (forall i :: 0 <= i < |l.slots| ==> ChainCell(mem[..], ExecBase(), i) == SlotWord(l.slots[i]))
      && (|l.slots| < EXEC_SLOTS ==> ChainCell(mem[..], ExecBase(), |l.slots|) == 0)
      && cmdStarted == l.started
    }

    /** The unrolled initializer: cell k receives the address of cell k + 1, the last cell 0. */
    method Rechain(base: nat, n: nat)
      requires 0 < base && 0 < n && base + n <= mem.Length == MEM_SIZE
      modifies mem
      ensures Chain(mem[..], base, n, [], base)
      ensures forall x :: 0 <= x < mem.Length && !(base <= x < base + n) ==> mem[x] == old(mem[x])
    {
      for k := 0 to n
        invariant forall i :: 0 <= i < k ==> ChainCell(mem[..], base, i) == LinkAt(base, n, i)
        invariant forall x :: 0 <= x < mem.Length && !(base <= x < base + n) ==> mem[x] == old(mem[x])
      {
        ghost var was := mem[..];
        mem[base + k] := if k == n - 1 then 0 else base + k + 1;
        forall i | 0 <= i < k
          ensures ChainCell(mem[..], base, i) == LinkAt(base, n, i)
        {
          assert ChainCell(was, base, i) == LinkAt(base, n, i);
        }
      }
    }

    method Begin(ghost buf: seq<Byte>)
      requires Ready(buf)
      modifies this`nameCur, this`pathCur, this`argCur, this`xCur, this`cmdDone, this`lineActive, this`cmdStarted,
               this`mode, mem
      ensures HoldsLine(Start(buf)) && Contained(old(mem[..]))
    {
      hide Chain, Shipped;
      ghost var w0 := mem[..];
      cmdDone, lineActive, cmdStarted := false, false, false;
      mode := Between;
      Rechain(NameBase(), NAME_CELLS);
      nameCur := NameBase();
      ghost var w1 := mem[..];
      Rechain(pathBase, NAME_CELLS);
      pathCur := pathBase;
      ghost var w2 := mem[..];
      KeepChain(w1, w2, pathBase, NAME_CELLS, NameBase(), NAME_CELLS, [], nameCur);
      Rechain(ExecBase(), EXEC_SLOTS);
      xCur := ExecBase();
      ghost var w3 := mem[..];
      KeepChain(w2, w3, ExecBase(), EXEC_SLOTS, NameBase(), NAME_CELLS, [], nameCur);
      KeepChain(w2, w3, ExecBase(), EXEC_SLOTS, pathBase, NAME_CELLS, [], pathCur);
      if argCur != 0 {
        KeepChain(w0, w1, NameBase(), NAME_CELLS, ArgBase(), ARG_CELLS, AsWords(buf), argCur);
        KeepChain(w1, w2, pathBase, NAME_CELLS, ArgBase(), ARG_CELLS, AsWords(buf), argCur);
        KeepChain(w2, w3, ExecBase(), EXEC_SLOTS, ArgBase(), ARG_CELLS, AsWords(buf), argCur);
      } else {
        Rechain(ArgBase(), ARG_CELLS);
        argCur := ArgBase();
        KeepChain(w3, mem[..], ArgBase(), ARG_CELLS, NameBase(), NAME_CELLS, [], nameCur);
        KeepChain(w3, mem[..], ArgBase(), ARG_CELLS, pathBase, NAME_CELLS, [], pathCur);
        KeepChain(w3, mem[..], ArgBase(), ARG_CELLS, ExecBase(), EXEC_SLOTS, [], xCur);
      }
      assert AsWords([]) == [] && SlotWords(Start(buf)) == [];
    }

    /** End of line: close an open command word, guard the argument, terminate the argv slots. */
    method Close(ghost l: Line)
      requires HoldsLine(l)
      modifies this`nameCur, this`argCur, this`cmdDone, mem
      ensures Settled(Finish(l)) && Contained(old(mem[..]))
    {
      hide Chain, Shipped;
      ghost var l' := l;
      if !cmdDone {
        EndCommandWord(l);
        l' := EndCommand(l);
      }
      Cursors(l');
      if argCur != 0 {
        PutArgument(l', 0);
        l' := l'.(buf := l'.buf + [0]);
      }
      assert l' == Finish(l);
      EndSlots(l');
    }

    /** Zero the first unused argv slot. */
    method EndSlots(ghost l: Line)
      requires HoldsLine(l)
      modifies mem
      ensures Settled(l) && Contained(old(mem[..]))
    {
      hide Chain, Shipped;
      Cursors(l);
      ghost var before := mem[..];
      WrittenCells(before, ExecBase(), EXEC_SLOTS, SlotWords(l), xCur);
      if xCur != 0 {
        CursorRoom(before, ExecBase(), EXEC_SLOTS, SlotWords(l), xCur);
        mem[xCur] := 0;
        assert mem[..] == before[xCur := 0];
        OneCellFrame(before, mem[..], xCur, 0, NameBase(), NAME_CELLS, AsWords(l.name), nameCur);
        OneCellFrame(before, mem[..], xCur, 0, pathBase, NAME_CELLS, AsWords(l.path), pathCur);
        OneCellFrame(before, mem[..], xCur, 0, ArgBase(), ARG_CELLS, AsWords(l.buf), argCur);
      }
      forall i | 0 <= i < |l.slots|
        ensures ChainCell(mem[..], ExecBase(), i) == SlotWord(l.slots[i])
      {
        assert ChainCell(before, ExecBase(), i) == SlotWords(l)[i];
      }
    }

    /** read_parse: one line, whatever the input does. */
    method ReadParse(ghost buf: seq<Byte>) returns (outcome: Outcome)
      requires Ready(buf) && pos <= |input|
      modifies this`nameCur, this`pathCur, this`argCur, this`xCur, this`xSlot, this`cmdDone, this`lineActive,
               this`cmdStarted, this`mode, this`pos, mem
      ensures var r := ReadLine(Start(buf), old(input[pos..]));
              outcome == r.outcome && pos == old(pos) + r.used && pos <= |input|
              && Ready(r.line.buf) && Contained(old(mem[..]))
              && (outcome == Finished ==> Settled(r.line))
              && (outcome == Failed ==> HoldsLine(r.line))
    {
      hide Chain, Shipped, Feed, Settled, Placed;
      Begin(buf);
      ghost var l, whole := Start(buf), ReadLine(Start(buf), input[pos..]);
      while true
        invariant pos <= |input| && HoldsLine(l) && Contained(old(mem[..]))
        invariant old(pos) <= pos
        invariant var rest := ReadLine(l, input[pos..]);
                  whole.outcome == rest.outcome && whole.line == rest.line && whole.used == rest.used + (pos - old(pos))
        decreases |input| - pos
      {
        ghost var events := input[pos..];
        if pos == |input| {
          outcome := StopReading(l);
          return;
        }
        var event := input[pos];
        pos := pos + 1;
        assert events[0] == event && events[1..] == input[pos..];
        match event
        case Fault =>
          Cursors(l);
          return Failed;
        case End =>
          outcome := StopReading(l);
          return;
        case Got(b) =>
          var ends := TakeByte(l, b);
          if ends {
            EndLine(l);
            return Finished;
          }
          l := Feed(l, b);
      }
    }

    /** End of input: an empty line closes the shell, anything else finishes the line. */
    method StopReading(ghost l: Line) returns (outcome: Outcome)
      requires HoldsLine(l)
      modifies this`nameCur, this`argCur, this`cmdDone, mem
      ensures outcome == AtEnd(l, 0).outcome && Contained(old(mem[..])) && Ready(AtEnd(l, 0).line.buf)
      ensures outcome == Finished ==> Settled(AtEnd(l, 0).line)
    {
      hide Chain, Shipped;
      Cursors(l);
      if mode != Draining && !lineActive {
        return Closed;
      }
      EndLine(l);
      return Finished;
    }

    /** Close the open word; the buffers are then ready for the next line too. */
    method EndLine(ghost l: Line)
      requires HoldsLine(l)
      modifies this`nameCur, this`argCur, this`cmdDone, mem
      ensures Settled(Finish(l)) && Ready(Finish(l).buf) && Contained(old(mem[..]))
    {
      hide Chain, Shipped, HoldsLine, Settled, Ready, Placed;
      Close(l);
      StillReady(Finish(l));
    }

    lemma StillReady(l: Line)
      requires Settled(l)
      ensures Ready(l.buf)
    {
      CursorRoom(mem[..], ArgBase(), ARG_CELLS, AsWords(l.buf), argCur);
    }

    // ----- what the program finds after a line -----

    /** An argv slot pointing at an argument in the argument buffer. */
    ghost predicate ArgumentAt(m: seq<Word>, i: nat, arg: seq<Byte>)
      requires ExecBase() + i < |m|
    {
      ArgBase() <= m[ExecBase() + i] && m[ExecBase() + i] + |arg| < ExecArgv() && HoldsString(m, m[ExecBase() + i], arg)
    }

    /**
     Words as NUL-terminated strings: the command name, and the argv slots pointing at the
     arguments, ended by a zero.
     */
    ghost predicate DeliveredIn(m: seq<Word>, words: Argv)
      requires words != []
    {
      |m| == MEM_SIZE && ExecEnd() < MEM_SIZE && |words| - 1 <= EXEC_SLOTS
      && |words[0]| < NAME_CELLS && HoldsString(m, NameBase(), words[0])
      && m[ExecBase() + |words| - 1] == 0
      && forall i :: 0 <= i < |words[1..]| ==> ArgumentAt(m, i, words[1..][i])
    }

    ghost predicate Delivered(words: Argv)
      requires words != []
      reads mem
    {
      DeliveredIn(mem[..], words)
    }

    lemma DeliveredKept(before: seq<Word>, after: seq<Word>, words: Argv)
      requires words != [] && |after| == |before| && DeliveredIn(before, words)
      requires forall x :: NameBase() <= x < |before| && x != ExecArgv() + 1 ==> after[x] == before[x]
      ensures DeliveredIn(after, words)
    {
      StringKept(before, after, NameBase(), words[0]);
      forall i | 0 <= i < |words[1..]|
        ensures ArgumentAt(after, i, words[1..][i])
      {
        assert ArgumentAt(before, i, words[1..][i]);
        StringKept(before, after, before[ExecBase() + i], words[1..][i]);
      }
    }

    lemma SlotDelivers(l: Line, words: Argv, i: nat)
      requires Settled(l) && ParsedAs(l, words) && i < |words| - 1 && 0 !in words[1..][i]
      ensures ArgumentAt(mem[..], i, words[1..][i])
    {
      hide Chain, Shipped;
      var arg := words[1..][i];
      assert ArgumentIn(l, i, arg);
      assert ChainCell(mem[..], ExecBase(), i) == SlotWord(l.slots[i]);
      StringInChain(mem[..], ArgBase(), ARG_CELLS, l.buf, argCur, l.slots[i].value, arg);
    }

    lemma TerminatorDelivers(l: Line, words: Argv)
      requires Settled(l) && ParsedAs(l, words)
      ensures |words| - 1 <= EXEC_SLOTS && mem[ExecBase() + |words| - 1] == 0
    {
      hide Chain, Shipped, ArgumentsIn;
      var n := Live(l.slots);
      if n < |l.slots| {
        FirstCleared(l.slots);
        assert ChainCell(mem[..], ExecBase(), n) == SlotWord(l.slots[n]);
      } else if n < EXEC_SLOTS {
        assert ChainCell(mem[..], ExecBase(), n) == 0;
      }
    }

    /** A line that parsed as these words (free of NULs) is in memory as these words. */
    lemma LineDelivered(l: Line, words: Argv)
      requires Settled(l) && ParsedAs(l, words) && forall i :: 0 <= i < |words| ==> 0 !in words[i]
      ensures Delivered(words)
    {
      hide Chain, Shipped, Live;
      StringInChain(mem[..], NameBase(), NAME_CELLS, l.name, nameCur, 0, words[0]);
      TerminatorDelivers(l, words);
      forall i | 0 <= i < |words[1..]|
        ensures ArgumentAt(mem[..], i, words[1..][i])
      {
        SlotDelivers(l, words, i);
      }
    }

    /**
     The parser at the machine level: a line of bytes without NUL, ended by LF,
     that meets the conditions a caller can check, is consumed whole and found
     in memory as its words.
     */
    method ReadCommand(ghost buf: seq<Byte>, ghost s: seq<Byte>, ghost rest: seq<Event>) returns (outcome: Outcome)
      requires Ready(buf) && pos <= |input| && input[pos..] == Events(s) + [Got(10)] + rest
      requires 10 !in s && 0 !in s && |buf| <= ARG_CELLS
      modifies this`nameCur, this`pathCur, this`argCur, this`xCur, this`xSlot, this`cmdDone, this`lineActive,
               this`cmdStarted, this`mode, this`pos, mem
      ensures outcome == Finished && pos <= |input| && input[pos..] == rest && Contained(old(mem[..]))
      ensures var l := Finish(Feeds(Start(buf), s));
              Settled(l) && Ready(l.buf) && NameEnds(l) && (cmdStarted ==> WordsOf(DropCR(s)) != [])
              && var words := WordsOf(DropCR(s));
                 words != [] && Enough(ARG_CELLS - |Start(buf).buf|, words) ==>
                   cmdStarted && l.path == words[0] && StringIn(l.name, 0, words[0]) && Delivered(words)
    {
      hide Chain, Shipped, Feed, Feeds, Finish, WordsOf, DropCR, Settled, Ready, Delivered, ParsedAs, ReadLine, Enough,
           NameEnds, StringIn;
      ghost var from := pos;
      ReadWholeLine(Start(buf), s, rest);
      outcome := ReadParse(buf);
      RestOfInput(input, from, Events(s) + [Got(LF)], rest);
      ghost var l, words := Finish(Feeds(Start(buf), s)), WordsOf(DropCR(s));
      ParsesExactly(buf, s);
      PathAndStart(buf, s);
      LineSane(buf, s);
      SettledStarted(l);
      if words != [] && Enough(ARG_CELLS - |Start(buf).buf|, words) {
        WordsHaveNoNul(s);
        LineDelivered(l, words);
        ParsedName(l, words);
      }
    }

    lemma ParsedName(l: Line, words: Argv)
      requires ParsedAs(l, words)
      ensures StringIn(l.name, 0, words[0])
    {
    }

    lemma SettledStarted(l: Line)
      requires Settled(l)
      ensures cmdStarted == l.started
    {
    }

    // ----- dispatch -----

    /** The name cells spell builtin k and end there. */
    predicate Named(l: Line, k: nat)
      requires k < |BUILTINS|
    {
      Spells(l.name, BUILTINS[k])
    }

    /** Byte equality by probing; a NUL matches nothing. */
    method SameByte(pattern: Byte, c: Byte) returns (same: bool)
      requires Shipped(tree) && Magic(pattern)
      ensures same <==> c != 0 && c == pattern
    {
      hide Opens, ProbePath, Shipped;
      if c == 0 {
        return false;
      }
      EqualityProbe(tree, cwd, pattern, c);
      same := Opens(tree, cwd, ProbePath([M8, EQ, [pattern]], c, E));
    }

    lemma NameCell(l: Line, i: nat)
      requires Settled(l) && i < |l.name|
      ensures mem.Length == MEM_SIZE && NameBase() + i < MEM_SIZE && Shipped(tree) && mem[NameBase() + i] == l.name[i]
    {
      hide Shipped, Chain;
      WrittenCells(mem[..], NameBase(), NAME_CELLS, AsWords(l.name), nameCur);
      assert ChainCell(mem[..], NameBase(), i) == l.name[i];
    }

    lemma BuiltinMagic(k: nat, i: nat)
      requires k < |BUILTINS| && i < |BUILTINS[k]|
      ensures Magic(BUILTINS[k][i])
    {
    }

    /** One builtin: a NUL or a failing equality probe is a mismatch; after the last character a NUL is a match. */
    method IsBuiltin(ghost l: Line, k: nat) returns (same: bool)
      requires Settled(l) && NameEnds(l) && k < |BUILTINS|
      ensures same <==> Named(l, k)
    {
      hide Settled, Magic, Shipped, NameEnds;
      var pattern := BUILTINS[k];
      BuiltinsShort(k);
      PrefixGrows(l, pattern, 0);
      for i := 0 to |pattern|
        invariant i < |l.name| && l.name[..i] == pattern[..i]
      {
        NameCell(l, i);
        NamedAt(l, k, i);
        BuiltinMagic(k, i);
        BuiltinNoNul(k, i);
        var equal := SameByte(pattern[i], mem[NameBase() + i]);
        if !equal {
          return false;
        }
        PrefixGrows(l, pattern, i);
      }
      NameCell(l, |pattern|);
      same := mem[NameBase() + |pattern|] == 0;
    }

    /** A non-NUL name byte is followed by another name cell, as long as the name is shorter than its region. */
    lemma PrefixGrows(l: Line, pattern: seq<Byte>, i: nat)
      requires NameEnds(l) && i < |pattern| < NAME_CELLS && i <= |l.name|
      ensures 0 < |l.name|
      ensures i < |l.name| && l.name[i] == pattern[i] != 0 ==> i + 1 < |l.name|
      ensures i < |l.name| && l.name[..i] == pattern[..i] && l.name[i] == pattern[i] ==>
              l.name[..i + 1] == pattern[..i + 1]
    {
    }

    lemma NamedAt(l: Line, k: nat, i: nat)
      requires k < |BUILTINS| && i < |BUILTINS[k]|
      ensures Named(l, k) ==> i < |l.name| && l.name[i] == BUILTINS[k][i]
    {
      if Named(l, k) {
        assert l.name[i] == l.name[..|BUILTINS[k]|][i];
      }
    }

    lemma ChosenCells(l: Line, c: Choice)
      requires forall k :: 0 <= k < |BUILTINS| ==> (c == ChoiceOf(k) <==> Named(l, k))
      requires c == External <==> forall k :: 0 <= k < |BUILTINS| ==> !Named(l, k)
      ensures PicksCells(c, l.name)
    {
      BuiltinBytes();
      hide Spells;
      forall k | 0 <= k < |BUILTINS|
        ensures Named(l, k) <==> Spells(l.name, BUILTINS[k])
      {
      }
      FiveChoices();
    }

    /** The dispatch chain: help, exit, cd, mfsls, mfscat, otherwise external. */
    method Dispatch(ghost l: Line) returns (c: Choice)
      requires Settled(l) && NameEnds(l)
      ensures forall k :: 0 <= k < |BUILTINS| ==> (c == ChoiceOf(k) <==> Named(l, k))
      ensures c == External <==> forall k :: 0 <= k < |BUILTINS| ==> !Named(l, k)
      ensures PicksCells(c, l.name)
    {
      hide Settled, Named, NameEnds, PicksCells, Spells;
      for k := 0 to |BUILTINS|
        invariant forall i :: 0 <= i < k ==> !Named(l, i)
      {
        var same := IsBuiltin(l, k);
        if same {
          OnlyOne(l, k);
          ChosenCells(l, ChoiceOf(k));
          return ChoiceOf(k);
        }
      }
      ChosenCells(l, External);
      return External;
    }

    lemma OnlyOne(l: Line, k: nat)
      requires k < |BUILTINS| && Named(l, k)
      ensures forall i :: 0 <= i < |BUILTINS| && i != k ==> !Named(l, i)
    {
      NamedMeans(l, k);
      forall i | 0 <= i < |BUILTINS| && i != k
        ensures !Named(l, i)
      {
        NamedMeans(l, i);
        DifferentBuiltins(i, k);
      }
    }

    lemma NamedMeans(l: Line, k: nat)
      requires k < |BUILTINS|
      ensures Named(l, k) ==> l.name[..FirstNul(l.name)] == BUILTINS[k]
    {
      BuiltinsShort(k);
      BuiltinNoNul(k, 0);
      if Named(l, k) {
        FirstNulIs(l.name, BUILTINS[k]);
      }
    }

    /** For a NUL-terminated command, dispatch picks a builtin exactly when the command is its name. */
    lemma NamedExactly(l: Line, word: seq<Byte>, k: nat)
      requires StringIn(l.name, 0, word) && 0 !in word && k < |BUILTINS|
      ensures Named(l, k) <==> word == BUILTINS[k]
    {
      BuiltinNoNul(k, 0);
      var b := BUILTINS[k];
      assert l.name[0..|word|] == l.name[..|word|];
      if Named(l, k) {
        FirstNulIs(l.name, word);
        FirstNulIs(l.name, b);
      }
    }

    // ----- external commands -----

    /** One chase write of the path suffix, skipped when the chain is full. */
    method AppendPath(ghost path: seq<Byte>, b: Byte)
      requires Placed() && Chain(mem[..], pathBase, NAME_CELLS, AsWords(path), pathCur)
      modifies this`pathCur, mem
      ensures Chain(mem[..], pathBase, NAME_CELLS, AsWords(if |path| < NAME_CELLS then path + [b] else path), pathCur)
      ensures forall x :: 0 <= x < mem.Length && !(pathBase <= x < NameBase()) ==> mem[x] == old(mem[x])
    {
      CursorRoom(mem[..], pathBase, NAME_CELLS, AsWords(path), pathCur);
      if pathCur != 0 {
        pathCur := Chase(pathCur, b, pathBase, NAME_CELLS, AsWords(path));
        assert AsWords(path + [b]) == AsWords(path) + [b as Word];
      }
    }

    /** do_external: append ".mb" and a NUL, each only if a cell is left. */
    method DoExternal(ghost path: seq<Byte>)
      requires Placed() && Chain(mem[..], pathBase, NAME_CELLS, AsWords(path), pathCur)
      modifies this`pathCur, mem
      ensures 0 !in path ==> (|path| <= 20 <==> exists n :: 0 <= n < NAME_CELLS && ChainCell(mem[..], pathBase, n) == 0)
      ensures 0 !in path && |path| <= 20 ==>
              HoldsString(mem[..], pathBase - 5, [47, 98, 105, 110, 47] + path + [46, 109, 98])
      ensures forall x :: 0 <= x < mem.Length && !(pathBase <= x < NameBase()) ==> mem[x] == old(mem[x])
    {
      hide Chain;
      WrittenCells(mem[..], pathBase, NAME_CELLS, AsWords(path), pathCur);
      var i := 0;
      ghost var p := path;
      while i < 4
        invariant 0 <= i <= 4 && |p| == (if |path| + i < NAME_CELLS then |path| + i else NAME_CELLS)
        invariant Placed() && Chain(mem[..], pathBase, NAME_CELLS, AsWords(p), pathCur)
        invariant p == (path + (MB + [0])[..i])[..|p|]
        invariant forall x :: 0 <= x < mem.Length && !(pathBase <= x < NameBase()) ==> mem[x] == old(mem[x])
      {
        var b := (MB + [0])[i];
        AppendPath(p, b);
        assert (MB + [0])[..i + 1] == (MB + [0])[..i] + [b];
        p := if |p| < NAME_CELLS then p + [b] else p;
        i := i + 1;
      }
      assert (MB + [0])[..4] == MB + [0];
      if 0 !in path {
        PathWritten(p, path);
      }
    }

    // ----- from a parsed line to an action -----

    /**
     Dispatch and the hand-over to execve, for any finished line: which program,
     with which arguments.  mfs.ls is started without arguments; for everything
     else the command name and the argument vector stay as they were parsed.
     */
    method Launch(ghost l: Line) returns (c: Choice)
      requires Settled(l) && NameEnds(l)
      modifies this`pathCur, mem
      ensures forall k :: 0 <= k < |BUILTINS| ==> (c == ChoiceOf(k) <==> Named(l, k))
      ensures c == External <==> forall k :: 0 <= k < |BUILTINS| ==> !Named(l, k)
      ensures PicksCells(c, l.name)
      ensures c == MfsLs ==> mem[ExecArgv() + 1] == mfsLs && mem[ExecBase()] == 0
      ensures c == MfsCat ==> mem[ExecArgv() + 1] == mfsCat
      ensures c == External ==> mem[ExecArgv() + 1] == pathBase - 5
      ensures c == External && 0 !in l.path && |l.path| <= 20 ==>
              HoldsString(mem[..], pathBase - 5, [47, 98, 105, 110, 47] + l.path + [46, 109, 98])
      ensures c != MfsLs ==> forall x :: NameBase() <= x < mem.Length && x != ExecArgv() + 1 ==> mem[x] == old(mem[x])
      ensures Ready(l.buf)
    {
      hide Chain, Shipped, Named, Opens, StringIn, HoldsString, PicksCells;
      c := Dispatch(l);
      ghost var before := mem[..];
      if c == MfsLs {
        mem[ExecArgv() + 1] := mfsLs;
        mem[ExecBase()] := 0;
      } else if c == MfsCat {
        mem[ExecArgv() + 1] := mfsCat;
      } else if c == External {
        DoExternal(l.path);
        ghost var after := mem[..];
        mem[ExecArgv() + 1] := pathBase - 5;
        if 0 !in l.path && |l.path| <= 20 {
          PathKept(after, mem[..], l.path);
        }
      }
      ChainFrame(before, mem[..], ArgBase(), ARG_CELLS, AsWords(l.buf), argCur);
      CursorRoom(mem[..], ArgBase(), ARG_CELLS, AsWords(l.buf), argCur);
    }

    /**
     One turn of the main loop on any input whatsoever: a line is read, and if
     it started a command, a builtin or alias is chosen exactly when the name
     cells spell it and end there, and an external program otherwise.  The
     argument buffer is ready for the next turn.
     */
    method Turn(ghost buf: seq<Byte>) returns (outcome: Outcome, c: Option<Choice>)
      requires Ready(buf) && |buf| <= ARG_CELLS && pos <= |input|
      modifies this`nameCur, this`pathCur, this`argCur, this`xCur, this`xSlot, this`cmdDone, this`lineActive,
               this`cmdStarted, this`mode, this`pos, mem
      ensures var r := ReadLine(Start(buf), old(input[pos..]));
              outcome == r.outcome && pos == old(pos) + r.used && pos <= |input| && Ready(r.line.buf)
              && (c.Some? <==> outcome == Finished && r.line.started)
              && (c.Some? ==>
                    PicksCells(c.value, r.line.name))
    {
      hide Chain, Shipped, Feed, Settled, Ready, NameEnds, ReadLine, Named, HoldsString, PicksCells;
      ghost var r := ReadLine(Start(buf), input[pos..]);
      StartSane(buf);
      ReadSane(Start(buf), input[pos..]);
      outcome := ReadParse(buf);
      if outcome != Finished {
        return outcome, None;
      }
      SettledStarted(r.line);
      if !cmdStarted {
        return outcome, None;
      }
      var choice := Launch(r.line);
      return outcome, Some(choice);
    }

    /** The same turn on a line that meets the conditions a caller can check, in terms of its words. */
    method CommandTurn(ghost buf: seq<Byte>, ghost s: seq<Byte>, ghost rest: seq<Event>) returns (c: Option<Choice>)
      requires Ready(buf) && pos <= |input| && input[pos..] == Events(s) + [Got(10)] + rest
      requires 10 !in s && 0 !in s && |buf| <= ARG_CELLS
      requires WordsOf(DropCR(s)) == [] || Enough(ARG_CELLS - |Start(buf).buf|, WordsOf(DropCR(s)))
      modifies this`nameCur, this`pathCur, this`argCur, this`xCur, this`xSlot, this`cmdDone, this`lineActive,
               this`cmdStarted, this`mode, this`pos, mem
      ensures pos <= |input| && input[pos..] == rest && Ready(Finish(Feeds(Start(buf), s)).buf)
      ensures c.None? <==> WordsOf(DropCR(s)) == []
      ensures c.Some? ==>
                var words := WordsOf(DropCR(s));
                PicksWord(c.value, words[0])
                && (c.value != MfsLs ==> Delivered(words))
                && (c.value == MfsLs ==> mem[ExecArgv() + 1] == mfsLs && mem[ExecBase()] == 0)
                && (c.value == MfsCat ==> mem[ExecArgv() + 1] == mfsCat)
                && (c.value == External ==> mem[ExecArgv() + 1] == pathBase - 5)
                && (c.value == External && |words[0]| <= 20 ==>
                    HoldsString(mem[..], pathBase - 5, [47, 98, 105, 110, 47] + words[0] + [46, 109, 98]))
    {
      hide Chain, Shipped, Feed, Feeds, Finish, WordsOf, DropCR, Settled, Ready, DeliveredIn, Enough, NameEnds,
           StringIn, HoldsString, Named, PicksCells, PicksWord;
      var outcome := ReadCommand(buf, s, rest);
      if !cmdStarted {
        return None;
      }
      ghost var words, l := WordsOf(DropCR(s)), Finish(Feeds(Start(buf), s));
      WordsHaveNoNul(s);
      ghost var before := mem[..];
      var choice := Launch(l);
      ChosenWord(l, words[0], choice);
      if choice != MfsLs {
        DeliveredKept(before, mem[..], words);
      }
      return Some(choice);
    }

    lemma ChosenWord(l: Line, word: seq<Byte>, c: Choice)
      requires StringIn(l.name, 0, word) && 0 !in word
      requires forall k :: 0 <= k < |BUILTINS| ==> (c == ChoiceOf(k) <==> Named(l, k))
      requires c == External <==> forall k :: 0 <= k < |BUILTINS| ==> !Named(l, k)
      ensures PicksWord(c, word)
    {
      hide StringIn, Named;
      forall k | 0 <= k < |BUILTINS|
        ensures Named(l, k) <==> word == BUILTINS[k]
      {
        NamedExactly(l, word, k);
      }
      BuiltinBytes();
      FiveChoices();
    }

    lemma PathKept(before: seq<Word>, after: seq<Word>, word: seq<Byte>)
      requires 5 < pathBase && |before| == |after| && |word| <= 20 && HoldsString(before, pathBase - 5, BIN + word + MB)
      requires forall x :: 0 <= x < |before| && x != ExecArgv() + 1 ==> after[x] == before[x]
      ensures HoldsString(after, pathBase - 5, [47, 98, 105, 110, 47] + word + [46, 109, 98])
    {
      StringKept(before, after, pathBase - 5, BIN + word + MB);
    }

    lemma PathWritten(p: seq<Byte>, path: seq<Byte>)
      requires Placed() && Chain(mem[..], pathBase, NAME_CELLS, AsWords(p), pathCur) && 0 !in path
               && |path| <= NAME_CELLS
      requires |p| == (if |path| + 4 < NAME_CELLS then |path| + 4 else NAME_CELLS) && p == (path + (MB + [0]))[..|p|]
      ensures |path| <= 20 <==> exists n :: 0 <= n < NAME_CELLS && ChainCell(mem[..], pathBase, n) == 0
      ensures |path| <= 20 ==> HoldsString(mem[..], pathBase - 5, [47, 98, 105, 110, 47] + path + [46, 109, 98])
    {
      WrittenCells(mem[..], pathBase, NAME_CELLS, AsWords(p), pathCur);
      forall n | 0 <= n < |p|
        ensures mem[pathBase + n] == p[n] && p[n] == (if n < |path| then path[n] else (MB + [0])[n - |path|])
      {
        assert ChainCell(mem[..], pathBase, n) == AsWords(p)[n];
      }
      if |path| <= 20 {
        var end := |path| + 3;
        assert (MB + [0])[end - |path|] == 0;
        assert p[end] == 0;
        assert 0 <= end < NAME_CELLS && ChainCell(mem[..], pathBase, end) == 0;
        var full := BIN + path + MB;
        forall i | 0 <= i < |full|
          ensures mem[..][pathBase - 5 + i] == full[i] && full[i] != 0
        {
          if i < 5 {
            assert mem[pathBase - 5 + i] == BIN[i];
          } else {
            assert mem[pathBase + (i - 5)] == p[i - 5];
            assert i - 5 < |path| ==> path[i - 5] in path;
          }
        }
      } else {
        forall n | 0 <= n < NAME_CELLS
          ensures ChainCell(mem[..], pathBase, n) != 0
        {
          assert mem[pathBase + n] == p[n];
          assert n < |path| ==> path[n] in path;
        }
      }
    }
  }

  lemma StringInChain(mem: seq<Word>, base: nat, n: nat, written: seq<Byte>, cur: Word, at: nat, s: seq<Byte>)
    requires Chain(mem, base, n, AsWords(written), cur) && StringIn(written, at, s) && 0 !in s
    ensures HoldsString(mem, base + at, s)
  {
    WrittenCells(mem, base, n, AsWords(written), cur);
    var start := base + at;
    assert ChainCell(mem, base, at + |s|) == written[at + |s|];
    forall i | 0 <= i < |s|
      ensures mem[start + i] == s[i] && s[i] != 0
    {
      assert ChainCell(mem, base, at + i) == written[at + i] == written[at..at + |s|][i];
      assert s[i] in s;
    }
  }

  lemma {:induction false} FirstCleared(slots: seq<Option<nat>>)
    requires Live(slots) < |slots|
    ensures slots[Live(slots)].None?
  {
    if slots[0].Some? {
      FirstCleared(slots[1..]);
    }
  }

  lemma RestOfInput(input: seq<Event>, from: nat, first: seq<Event>, rest: seq<Event>)
    requires from <= |input| && input[from..] == first + rest
    ensures from + |first| <= |input| && input[from + |first|..] == rest
  {
    assert |input| - from == |first| + |rest|;
    assert input[from + |first|..] == input[from..][|first|..];
  }

  /** Splitting keeps bytes: no NUL in the line, none in its words. */
  lemma WordsHaveNoNul(s: seq<Byte>)
    requires 0 !in s
    ensures forall i :: 0 <= i < |WordsOf(DropCR(s))| ==> 0 !in WordsOf(DropCR(s))[i]
  {
    DropKeeps(s);
    WordsKeep(DropCR(s));
  }

  lemma {:induction false} DropKeeps(s: seq<Byte>)
    ensures 0 !in s ==> 0 !in DropCR(s)
  {
    if s != [] {
      DropKeeps(s[..|s| - 1]);
    }
  }

  lemma {:induction false} WordsKeep(t: seq<Byte>)
    requires 0 !in t
    ensures forall i :: 0 <= i < |WordsOf(t)| ==> 0 !in WordsOf(t)[i]
    decreases |t|
  {
    if t != [] {
      if t[0] == SPACE {
        WordsKeep(t[1..]);
      } else {
        FirstIsWord(t);
        WordsKeep(t[WordEnd(t)..]);
      }
    }
  }

  lemma BuiltinsShort(k: nat)
    requires k < |BUILTINS|
    ensures 0 < |BUILTINS[k]| < NAME_CELLS
  {
  }

  lemma BuiltinNoNul(k: nat, i: nat)
    requires k < |BUILTINS| && i < |BUILTINS[k]|
    ensures BUILTINS[k][i] != 0 && 0 !in BUILTINS[k]
  {
  }

  lemma DifferentBuiltins(i: nat, k: nat)
    requires i < |BUILTINS| && k < |BUILTINS| && i != k
    ensures BUILTINS[i] != BUILTINS[k]
  {
    assert |HELP| == 4 && |EXIT| == 4 && |CD| == 2 && |MFSLS| == 5 && |MFSCAT| == 6 && HELP[0] != EXIT[0];
  }

  function FirstNul(name: seq<Byte>): (n: nat)
    ensures n <= |name|
  {
    if name == [] || name[0] == 0 then 0 else 1 + FirstNul(name[1..])
  }

  /** A buffer spells at most one NUL-terminated string from its start. */
  lemma {:induction false} FirstNulIs(name: seq<Byte>, a: seq<Byte>)
    requires |a| < |name| && name[..|a|] == a && name[|a|] == 0 && 0 !in a
    ensures FirstNul(name) == |a|
  {
    if a != [] {
      assert a[0] == name[..|a|][0] && a[0] in a;
      assert name[1..][..|a| - 1] == name[..|a|][1..] == a[1..];
      FirstNulIs(name[1..], a[1..]);
    }
  }

  lemma KeepChain(a: seq<Word>, b: seq<Word>, lo: nat, size: nat, base: nat, n: nat, written: seq<Word>, cur: Word)
    requires |a| == |b| && Chain(a, base, n, written, cur)
    requires forall x :: 0 <= x < |a| && !(lo <= x < lo + size) ==> b[x] == a[x]
    requires lo + size <= base || base + n <= lo
    ensures Chain(b, base, n, written, cur)
  {
    ChainFrame(a, b, base, n, written, cur);
  }

  lemma WrittenCells(mem: seq<Word>, base: nat, n: nat, written: seq<Word>, cur: Word)
    requires Chain(mem, base, n, written, cur)
    ensures |written| <= n && base + n <= |mem|
            && forall i :: 0 <= i < |written| ==> ChainCell(mem, base, i) == written[i]
  {
  }

  lemma CursorRoom(mem: seq<Word>, base: nat, n: nat, written: seq<Word>, cur: Word)
    requires Chain(mem, base, n, written, cur)
    ensures cur == 0 <==> |written| == n
    ensures cur != 0 ==> cur == base + |written| < base + n
  {
  }

  lemma OneCellFrame(before: seq<Word>, after: seq<Word>, at: nat, w: Word, base: nat, n: nat, written: seq<Word>,
                     cur: Word)
    requires at < |before| && after == before[at := w] && !(base <= at < base + n)
             && Chain(before, base, n, written, cur)
    ensures Chain(after, base, n, written, cur)
  {
    ChainFrame(before, after, base, n, written, cur);
  }

  lemma ChainPatch(mem: seq<Word>, base: nat, n: nat, written: seq<Word>, cur: Word, k: nat, w: Word)
    requires Chain(mem, base, n, written, cur) && k < |written|
    ensures Chain(mem[base + k := w], base, n, written[k := w], cur)
  {
    forall i | 0 <= i < n
      ensures ChainCell(mem[base + k := w], base, i) == if i == k then w else ChainCell(mem, base, i)
    {
    }
  }
}
