/**
 The rechain macro, from its expansion to the buffer it restores: the assembled
 pairs run on the plain machine and leave a fresh pointer chain.
 */
module Rechain {
  import opened Words
  import opened Frames
  import opened Machine
  import opened Source
  import opened Assembly
  import opened Agreement
  import opened Compiler
  import opened Straight
  import opened Startup
  import opened Meaning
  import opened Delivery
  import opened Invocation
  import opened Shell

  /** Expansion entries 2k and 2k+1 emit: A becomes link k, cell k of the buffer receives it. */
  lemma {:induction false} LinksEmit(pending: seq<string>, chain: string, n: nat, from: nat, k: nat, labels: Labels,
                                     base: nat, at: nat, prefix: nat)
    requires from <= k < n && chain in labels && labels[chain] == base
    ensures var raw, i := Links(pending, chain, n, from), 2 * (k - from);
            |raw| == 2 * (n - from)
            && EmitItem(Located(raw[i].item, at, None), labels, prefix)
               == Success(Emission([Code(SetA(LinkAt(base, n, k)))], []))
            && EmitItem(Located(raw[i + 1].item, at, None), labels, prefix)
               == Success(Emission([Code(StoreA(base + k))], []))
    decreases k - from
  {
    if from < k {
      LinksEmit([], chain, n, from + 1, k, labels, base, at, prefix);
    } else {
      LinksCount([], chain, n, from + 1);
      LinkValues(chain, n, k, labels, base);
      var raw := Links(pending, chain, n, from);
      assert raw[0].item == IFramed(KSetA, LinkExpr(chain, n, k));
      assert raw[1].item == IFramed(KStoreA, Plus(Label(chain), Num(k)));
    }
  }

  lemma LinkValues(chain: string, n: nat, k: nat, labels: Labels, base: nat)
    requires k < n && chain in labels && labels[chain] == base
    ensures Eval(LinkExpr(chain, n, k), labels) == Some(LinkAt(base, n, k))
    ensures Eval(Plus(Label(chain), Num(k)), labels) == Some(base + k)
  {
    assert Eval(Label(chain), labels) == Some(base) && Eval(Num(k + 1), labels) == Some(k + 1)
           && Eval(Num(k), labels) == Some(k);
  }

  lemma {:induction false} LinksCount(pending: seq<string>, chain: string, n: nat, from: nat)
    requires from <= n
    ensures |Links(pending, chain, n, from)| == 2 * (n - from)
    decreases n - from
  {
    if from < n {
      LinksCount([], chain, n, from + 1);
    }
  }

  ghost predicate LinkPair(prog: Program, base: nat, n: nat, pc: nat, k: nat) {
    pc + 12 * k in prog && prog[pc + 12 * k] == SetA(LinkAt(base, n, k))
    && pc + 12 * k + 6 in prog && prog[pc + 12 * k + 6] == StoreA(base + k)
    && NotCode(prog, base + k)
  }

  /** The macro's pairs one after the other in a program, for a buffer that is data. */
  ghost predicate RechainCode(prog: Program, base: nat, n: nat, pc: nat) {
    0 < n && 0 < base && base + n <= MEM_SIZE && pc + 12 * n <= MEM_SIZE
    && forall k :: 0 <= k < n ==> LinkPair(prog, base, n, pc, k)
  }

  lemma SetStep(prog: Program, s: Src, script: Script, v: nat)
    requires |s.mem| == MEM_SIZE && !s.halted && s.C in prog && prog[s.C] == SetA(v) && v < MEM_SIZE
             && s.C + 6 < MEM_SIZE
    ensures PlainStep(prog, s, script) == Some(Strip(s).(A := v, C := s.C + 6, D := Wrap(s.D + 1)))
  {
    NoWrites(s.mem);
    SmallWord(v);
    NextWrap(s.C, 6);
  }

  lemma StoreStep(prog: Program, s: Src, script: Script, x: nat)
    requires |s.mem| == MEM_SIZE && !s.halted && s.C in prog && prog[s.C] == StoreA(x) && x < MEM_SIZE
    requires NotCode(prog, x)
    ensures PlainStep(prog, s, script)
            == Some(Strip(s).(mem := s.mem[x := s.A], C := Wrap(s.C + 6), D := Wrap(s.D + 1)))
  {
    OneWrite(s.mem, x, s.A);
    SmallWord(x);
  }

  /** Running the macro: after 2n instructions the buffer is a fresh chain, nothing else in memory has changed. */
  lemma {:induction false} RechainRuns(prog: Program, s: Src, script: Script, base: nat, n: nat, pc: nat, k: nat)
    requires |s.mem| == MEM_SIZE && !s.halted && RechainCode(prog, base, n, pc) && k <= n && s.C == Wrap(pc + 12 * k)
    requires forall i :: 0 <= i < k ==> ChainCell(s.mem, base, i) == LinkAt(base, n, i)
    ensures var r := PlainRun(prog, s, script, 2 * (n - k));
            r.Some? && !r.value.halted && r.value.C == Wrap(pc + 12 * n)
            && Chain(r.value.mem, base, n, [], base)
            && (forall x :: 0 <= x < MEM_SIZE && !(base <= x < base + n) ==> r.value.mem[x] == s.mem[x])
            && r.value.output == s.output && r.value.calls == s.calls
    decreases n - k
  {
    hide PlainStep, NotCode;
    if k < n {
      assert LinkPair(prog, base, n, pc, k);
      NextWrap(pc, 12 * k);
      SetStep(prog, s, script, LinkAt(base, n, k));
      var t := PlainStep(prog, s, script).value;
      StoreStep(prog, t, script, base + k);
      var u := PlainStep(prog, t, script).value;
      forall i | 0 <= i < k + 1
        ensures ChainCell(u.mem, base, i) == LinkAt(base, n, i)
      {
        assert i < k ==> ChainCell(s.mem, base, i) == LinkAt(base, n, i);
      }
      RechainRuns(prog, u, script, base, n, pc, k + 1);
      TwoPlainSteps(prog, s, script, 2 * (n - k));
    }
  }

  lemma TwoPlainSteps(prog: Program, s: Src, script: Script, m: nat)
    requires |s.mem| == MEM_SIZE && m >= 2 && !s.halted && PlainStep(prog, s, script).Some?
    requires !PlainStep(prog, s, script).value.halted && PlainStep(prog, PlainStep(prog, s, script).value, script).Some?
    ensures PlainRun(prog, s, script, m)
            == PlainRun(prog, PlainStep(prog, PlainStep(prog, s, script).value, script).value, script, m - 2)
  {
    hide PlainStep;
  }

  // ----- the macro in an assembled source -----

  /** Line k's expansion in the entries, behind the expansions of the lines before it. */
  lemma {:induction false} EntriesAt(lines: seq<Line>, k: nat, i: nat)
    requires k < |lines| && lines[k].statement.Rechain?
    requires i < |Links(lines[k].labels, lines[k].statement.chain, lines[k].statement.count, 0)|
    ensures |Entries(lines[..k])| + i < |Entries(lines)|
    ensures Entries(lines)[|Entries(lines[..k])| + i]
         == Links(lines[k].labels, lines[k].statement.chain, lines[k].statement.count, 0)[i]
    decreases k
  {
    hide Links;
    if k > 0 {
      assert lines[..k][1..] == lines[1..][..k - 1];
      EntriesAt(lines[1..], k - 1, i);
    }
  }

  /** Line k is `rechain chain n`; its expansion starts at entry `pos`. */
  ghost predicate Expands(lines: seq<Line>, entries: seq<Entry>, k: nat, chain: string, n: nat, pos: nat) {
    entries == Entries(lines) && k < |lines| && lines[k].statement == Statement.Rechain(chain, n)
    && pos == |Entries(lines[..k])|
  }

  /** Entry z is a data item labelled `chain`, long enough for a chain of n cells. */
  ghost predicate Buffers(entries: seq<Entry>, trailing: seq<string>, chain: string, n: nat, z: nat) {
    0 < n && z < |entries| && OnlyAt(entries, trailing, z, chain)
    && IsData(entries[z].item) && n <= ItemSize(entries[z].item)
  }

  lemma ItemIsEntry(entries: seq<Entry>, layout: Layout, q: nat)
    requires Mapped(layout.items, PlacedItem) == Mapped(entries, EntryItem) && q < |entries|
    ensures q < |layout.items| && layout.items[q].item == entries[q].item
  {
    assert Mapped(layout.items, PlacedItem)[q] == Mapped(entries, EntryItem)[q];
  }

  lemma {:induction false} LinkEntries(pending: seq<string>, chain: string, n: nat, from: nat, i: nat)
    requires from <= i < n
    ensures var raw := Links(pending, chain, n, from);
            |raw| == 2 * (n - from) && raw[2 * (i - from)].item == IFramed(KSetA, LinkExpr(chain, n, i))
            && raw[2 * (i - from) + 1].item == IFramed(KStoreA, Plus(Label(chain), Num(i)))
    decreases i - from
  {
    LinksCount([], chain, n, from + 1);
    if from < i {
      LinkEntries([], chain, n, from + 1, i);
    }
  }

  /** A framed fall-through item in the program. */
  lemma FramedItem(entries: seq<Entry>, trailing: seq<string>, layout: Layout, image: Image, q: nat, kind: Kind,
                   arg: Expr, v: int)
    requires LayOutSource(entries, trailing) == Success(layout) && AssembleGlyph(layout) == Success(image)
    requires q < |layout.items| && layout.items[q].item == IFramed(kind, arg) && (kind == KSetA || kind == KStoreA)
    requires Eval(arg, image.labels) == Some(v)
    ensures var prog, at := ProgramOf(image.pieces, 0), AddressOf(layout, image, q);
            at in prog && prog[at] == MakeFramed(kind, v) && AddressOf(layout, image, q + 1) == at + 6
  {
    hide LayOutSource, AssembleGlyph, ProgramOf, AddressOf, Eval;
    StretchItem(entries, trailing, layout, image, q);
  }

  /** Items q and q + 1 are link i's pair. */
  ghost predicate PairItems(items: seq<Located>, q: nat, chain: string, n: nat, i: nat) {
    q + 1 < |items| && items[q].item == IFramed(KSetA, LinkExpr(chain, n, i))
    && items[q + 1].item == IFramed(KStoreA, Plus(Label(chain), Num(i)))
  }

  lemma {:induction false} PairsLaidOut(lines: seq<Line>, entries: seq<Entry>, layout: Layout, k: nat, chain: string,
                                        n: nat, pos: nat, i: nat)
    requires Mapped(layout.items, PlacedItem) == Mapped(entries, EntryItem)
             && Expands(lines, entries, k, chain, n, pos) && i < n
    ensures PairItems(layout.items, pos + 2 * i, chain, n, i)
  {
    LinkEntries(lines[k].labels, chain, n, 0, i);
    EntriesAt(lines, k, 2 * i);
    EntriesAt(lines, k, 2 * i + 1);
    ItemIsEntry(entries, layout, pos + 2 * i);
    ItemIsEntry(entries, layout, pos + 2 * i + 1);
  }

  /** Link i's pair in the program where item q is. */
  ghost predicate PairCode(layout: Layout, image: Image, q: nat, base: nat, n: nat, i: nat) {
    q + 2 <= |layout.items|
    && var prog, at := ProgramOf(image.pieces, 0), AddressOf(layout, image, q);
       at in prog && prog[at] == SetA(LinkAt(base, n, i)) && at + 6 in prog && prog[at + 6] == StoreA(base + i)
       && AddressOf(layout, image, q + 2) == at + 12
  }

  lemma PairInProgram(entries: seq<Entry>, trailing: seq<string>, layout: Layout, image: Image, q: nat, chain: string,
                      n: nat, i: nat, base: nat)
    requires LayOutSource(entries, trailing) == Success(layout) && AssembleGlyph(layout) == Success(image)
    requires PairItems(layout.items, q, chain, n, i) && i < n
    requires chain in image.labels && image.labels[chain] == base
    ensures PairCode(layout, image, q, base, n, i)
  {
    hide LayOutSource, AssembleGlyph, ProgramOf, AddressOf, Eval, LinkExpr, LinkAt;
    LinkValues(chain, n, i, image.labels, base);
    FramedItem(entries, trailing, layout, image, q, KSetA, LinkExpr(chain, n, i), LinkAt(base, n, i));
    FramedItem(entries, trailing, layout, image, q + 1, KStoreA, Plus(Label(chain), Num(i)), base + i);
  }

  /** Pair i sits at its item, and the cell it stores to is no instruction. */
  ghost predicate PairThere(layout: Layout, image: Image, pos: nat, base: nat, n: nat, i: nat) {
    PairCode(layout, image, pos + 2 * i, base, n, i) && NotCode(ProgramOf(image.pieces, 0), base + i)
  }

  lemma {:induction false} PairAddress(layout: Layout, image: Image, pos: nat, base: nat, n: nat, i: nat)
    requires pos <= |layout.items| && forall h :: 0 <= h < i ==> PairThere(layout, image, pos, base, n, h)
    ensures pos + 2 * i <= |layout.items|
    ensures AddressOf(layout, image, pos + 2 * i) == AddressOf(layout, image, pos) + 12 * i
    decreases i
  {
    hide ProgramOf, AddressOf;
    if i > 0 {
      PairAddress(layout, image, pos, base, n, i - 1);
      assert PairThere(layout, image, pos, base, n, i - 1);
    }
  }

  lemma PairHere(layout: Layout, image: Image, q: nat, base: nat, n: nat, pc: nat, i: nat)
    requires PairCode(layout, image, q, base, n, i) && AddressOf(layout, image, q) == pc + 12 * i
    requires NotCode(ProgramOf(image.pieces, 0), base + i) && WellPlaced(ProgramOf(image.pieces, 0))
    ensures LinkPair(ProgramOf(image.pieces, 0), base, n, pc, i) && pc + 12 * i + 12 <= MEM_SIZE
  {
    hide ProgramOf, AddressOf, NotCode;
    assert Size(StoreA(base + i)) == 6;
  }

  lemma PairsRechain(layout: Layout, image: Image, pos: nat, base: nat, n: nat)
    requires 0 < n && 0 < base && base + n <= MEM_SIZE && pos <= |layout.items|
             && WellPlaced(ProgramOf(image.pieces, 0))
    requires forall i :: 0 <= i < n ==> PairThere(layout, image, pos, base, n, i)
    ensures RechainCode(ProgramOf(image.pieces, 0), base, n, AddressOf(layout, image, pos))
  {
    hide ProgramOf, AddressOf, NotCode;
    var prog, pc := ProgramOf(image.pieces, 0), AddressOf(layout, image, pos);
    forall i | 0 <= i < n
      ensures LinkPair(prog, base, n, pc, i) && pc + 12 * i + 12 <= MEM_SIZE
    {
      assert PairThere(layout, image, pos, base, n, i);
      PairAddress(layout, image, pos, base, n, i);
      PairHere(layout, image, pos + 2 * i, base, n, pc, i);
    }
    assert LinkPair(prog, base, n, pc, n - 1);
  }

  /** An assembled source line `rechain chain n` is the macro's code for the buffer its label names. */
  lemma {:induction false} RechainAssembled(lines: seq<Line>, entries: seq<Entry>, trailing: seq<string>,
                                            layout: Layout, image: Image, k: nat, chain: string, n: nat, pos: nat,
                                              z: nat)
    requires LayOutSource(entries, trailing) == Success(layout) && AssembleGlyph(layout) == Success(image)
    requires Expands(lines, entries, k, chain, n, pos) && Buffers(entries, trailing, chain, n, z)
    ensures pos <= |layout.items| && chain in image.labels && image.labels[chain] >= 0
    ensures RechainCode(ProgramOf(image.pieces, 0), image.labels[chain], n, AddressOf(layout, image, pos))
  {
    hide LayOutSource, AssembleGlyph, ProgramOf, AddressOf, NotCode, RechainCode, GoodImage, InStep, CountInitializers,
         PairItems, PairCode, Expands, WellPlaced;
    LayoutPrefix(entries, trailing, layout, image);
    ItemIsEntry(entries, layout, z);
    LabelsResolve(entries, trailing, layout, image, z, chain);
    var base := image.prefix + layout.items[z].address;
    InitsInMemory(image);
    ExpansionIn(lines, entries, layout, k, chain, n, pos);
    forall i | 0 <= i < n
      ensures PairThere(layout, image, pos, base, n, i)
    {
      PairsLaidOut(lines, entries, layout, k, chain, n, pos, i);
      PairInProgram(entries, trailing, layout, image, pos + 2 * i, chain, n, i, base);
      BufferIsData(entries, trailing, layout, image, z, base + i);
    }
    BufferIsData(entries, trailing, layout, image, z, base + (n - 1));
    PairsRechain(layout, image, pos, base, n);
  }

  lemma ExpansionIn(lines: seq<Line>, entries: seq<Entry>, layout: Layout, k: nat, chain: string, n: nat, pos: nat)
    requires Mapped(layout.items, PlacedItem) == Mapped(entries, EntryItem)
             && Expands(lines, entries, k, chain, n, pos) && 0 < n
    ensures pos <= |layout.items|
  {
    PairsLaidOut(lines, entries, layout, k, chain, n, pos, 0);
  }

  // ----- and on the machine -----

  lemma ChainDelivered(prog: Program, base: nat, n: nat, pc: nat, mem: seq<Word>, u: State)
    requires RechainCode(prog, base, n, pc) && |mem| == MEM_SIZE && Chain(mem, base, n, [], base) && u.Valid()
    requires forall x: Word :: NotCode(prog, x) ==> u.mem[x] == mem[x]
    ensures Chain(u.mem, base, n, [], base)
  {
    hide NotCode;
    forall i | 0 <= i < n
      ensures ChainCell(u.mem, base, i) == ChainCell(mem, base, i)
    {
      assert LinkPair(prog, base, n, pc, i);
    }
    ChainFrame(mem, u.mem, base, n, [], base);
  }

  /** What compiler correctness says of one moment, without the code cells. */
  lemma SameAfter(image: Image, v: State, script: Script, n: nat)
    requires GoodImage(image) && ClassicOnly(image.pieces) && v.Valid() && Booted(v, image.cells)
    requires forall k :: 0 <= k < |image.inits| ==> image.inits[k].0 < MEM_SIZE
    requires PlainRun(ProgramOf(image.pieces, 0), PlainStart(image, v), script, n).Some?
    ensures var prog := ProgramOf(image.pieces, 0);
            var t, u := PlainRun(prog, PlainStart(image, v), script, n).value,
              Run(v, script, MatTicks(|image.inits|) + n);
            u.Valid() && u.C == t.C && u.halted == t.halted && u.output == t.output && u.calls == t.calls
            && forall x: Word :: NotCode(prog, x) ==> u.mem[x] == t.mem[x]
  {
    hide GoodImage, ProgramOf, NotCode, PlainRun, PlainStart, Booted, MatTicks, EffectiveOp, Run, ClassicOnly, OpChar;
    CompilerCorrect(image, v, script, n);
  }

  /** The plain program, m instructions after startup, stands at address pc. */
  ghost predicate Reaches(image: Image, v: State, script: Script, m: nat, pc: nat) {
    v.Valid() && Booted(v, image.cells) && (forall i :: 0 <= i < |image.inits| ==> image.inits[i].0 < MEM_SIZE)
    && |PlainStart(image, v).mem| == MEM_SIZE
    && var t := PlainRun(ProgramOf(image.pieces, 0), PlainStart(image, v), script, m);
       t.Some? && !t.value.halted && t.value.C == pc
  }

  /** From t to u the buffer has become a fresh chain; no other data cell, no output and no host call has changed. */
  ghost predicate Rechained(prog: Program, t: State, u: State, base: nat, n: nat, pc: nat) {
    t.Valid() && u.Valid() && base < MEM_SIZE && Chain(u.mem, base, n, [], base) && !u.halted
      && u.C == Wrap(pc + 12 * n)
    && u.output == t.output && u.calls == t.calls
    && forall x: Word :: NotCode(prog, x) && !(base <= x < base + n) ==> u.mem[x] == t.mem[x]
  }

  lemma CodeRechains(image: Image, v: State, script: Script, base: nat, n: nat, pc: nat, m: nat)
    requires GoodImage(image) && ClassicOnly(image.pieces) && Reaches(image, v, script, m, pc)
    requires RechainCode(ProgramOf(image.pieces, 0), base, n, pc)
    ensures Rechained(ProgramOf(image.pieces, 0), Run(v, script, MatTicks(|image.inits|) + m),
                      Run(v, script, MatTicks(|image.inits|) + m + 2 * n), base, n, pc)
  {
    hide ProgramOf, NotCode, LinkPair, GoodImage, Run, PlainRun, PlainStart, Booted, ClassicOnly, MatTicks;
    var prog := ProgramOf(image.pieces, 0);
    var s := PlainRun(prog, PlainStart(image, v), script, m).value;
    RechainRuns(prog, s, script, base, n, pc, 0);
    PlainRunSplit(prog, PlainStart(image, v), script, m, 2 * n);
    SameAfter(image, v, script, m);
    SameAfter(image, v, script, m + 2 * n);
    ChainDelivered(prog, base, n, pc, PlainRun(prog, s, script, 2 * n).value.mem,
                   Run(v, script, MatTicks(|image.inits|) + m + 2 * n));
  }

  /**
   The macro from source line to machine.  Whenever the running program comes
   to an assembled `rechain chain n`, 2n machine steps later the buffer the
   label names is a fresh chain of n cells, control is behind the macro, and no
   other data cell, no output and no host call has changed.
   */
  lemma {:induction false} RechainOnMachine(lines: seq<Line>, entries: seq<Entry>, trailing: seq<string>,
                                            layout: Layout, image: Image, v: State, script: Script, k: nat,
                                              chain: string, n: nat, pos: nat, z: nat, m: nat)
    requires LayOutSource(entries, trailing) == Success(layout) && AssembleGlyph(layout) == Success(image)
             && ClassicSource(entries)
    requires Expands(lines, entries, k, chain, n, pos) && Buffers(entries, trailing, chain, n, z)
    requires pos <= |layout.items| && Reaches(image, v, script, m, AddressOf(layout, image, pos))
    ensures chain in image.labels && image.labels[chain] >= 0
    ensures Rechained(ProgramOf(image.pieces, 0), Run(v, script, MatTicks(|image.inits|) + m),
                      Run(v, script, MatTicks(|image.inits|) + m + 2 * n), image.labels[chain], n,
                        AddressOf(layout, image, pos))
  {
    hide LayOutSource, AssembleGlyph, ProgramOf, AddressOf, GoodImage, Run, ClassicSource, ClassicOnly, MatTicks,
         RechainCode, Rechained, Reaches, Expands, Buffers, CountInitializers, InStep;
    RechainAssembled(lines, entries, trailing, layout, image, k, chain, n, pos, z);
    LayoutPrefix(entries, trailing, layout, image);
    ImageClassicOnly(entries, trailing);
    CodeRechains(image, v, script, image.labels[chain], n, AddressOf(layout, image, pos), m);
  }
}
