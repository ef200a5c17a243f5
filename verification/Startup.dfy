/**
 The startup code: after exactly 2n+1 steps every initialised cell holds its
 word, nothing else of the program has changed, and control is at `start`.
 */
module Startup {
  import opened Words
  import opened Frames
  import opened Machine
  import opened Source
  import opened Planner
  import opened Assembly
  import opened Agreement
  import opened Compiler

  // ----- where startup pairs point -----

  /** No instruction of the program covers cell x. */
  ghost predicate NotCode(prog: Program, x: nat) {
    forall pc :: pc in prog ==> !(pc <= x < pc + Size(prog[pc]))
  }

  /** Targets lie in [lo, hi), strictly increasing. */
  predicate Ascending(inits: seq<(nat, Word)>, lo: nat, hi: nat) {
    (forall k :: 0 <= k < |inits| ==> lo <= inits[k].0 < hi)
    && forall i, j :: 0 <= i < j < |inits| ==> inits[i].0 < inits[j].0
  }

  /** An item's pairs point into its own cells, and an item with pairs emits no code. */
  lemma EmitInits(it: Located, labels: Labels, base: nat)
    requires EmitItem(it, labels, base).Success? && PlanFits(it, base)
    ensures var e := EmitItem(it, labels, base).value;
            Ascending(e.inits, base + it.address, base + it.address + LocatedSize(it))
            && (e.inits != [] ==> forall p :: p in e.pieces ==> p.Filler?)
  {
    hide PlanEntry;
    EmitSize(it, labels, base);
  }

  lemma {:induction false} FillerHasNoCode(ps: seq<Piece>, addr: nat)
    requires forall p :: p in ps ==> p.Filler?
    ensures ProgramOf(ps, addr) == map[]
  {
    if ps != [] {
      assert ps[0] in ps;
      FillerHasNoCode(ps[1..], addr + PieceSize(ps[0]));
    }
  }

  /** Pairs collected so far: inside the program emitted so far, off its code. */
  ghost predicate PairsOffCode(p: Program0, base: nat) {
    |p.cells| == PiecesSize(p.pieces)
    && Ascending(p.inits, base, base + |p.cells|)
    && forall k :: 0 <= k < |p.inits| ==> NotCode(ProgramOf(p.pieces, base), p.inits[k].0)
  }

  lemma PairsStep(it: Located, labels: Labels, base: nat, p: Program0, cells: seq<Word>)
    requires PairsOffCode(p, base) && PlanFits(it, base) && it.address == |p.cells|
    requires EmitItem(it, labels, base).Success?
    requires EncodePieces(EmitItem(it, labels, base).value.pieces, base + |p.cells|) == Success(cells)
    ensures var e := EmitItem(it, labels, base).value;
            PairsOffCode(Program0(p.cells + cells, p.pieces + e.pieces, p.inits + e.inits), base)
            && |cells| == LocatedSize(it)
  {
    hide EmitItem, EncodePieces, PlanFits, ProgramOf;
    var e := EmitItem(it, labels, base).value;
    EmitInits(it, labels, base);
    EmitSize(it, labels, base);
    EncodePiecesLength(e.pieces, base + |p.cells|);
    PiecesSizeSplit(p.pieces, e.pieces);
    forall k | 0 <= k < |p.inits + e.inits|
      ensures NotCode(ProgramOf(p.pieces + e.pieces, base), (p.inits + e.inits)[k].0)
    {
      PairOffCode(it, labels, base, p, e, k);
    }
  }

  lemma PairOffCode(it: Located, labels: Labels, base: nat, p: Program0, e: Emission, k: nat)
    requires PairsOffCode(p, base) && PlanFits(it, base) && it.address == |p.cells|
    requires EmitItem(it, labels, base) == Success(e) && k < |p.inits + e.inits|
    ensures NotCode(ProgramOf(p.pieces + e.pieces, base), (p.inits + e.inits)[k].0)
  {
    hide EmitItem, EncodePieces, PlanFits, ProgramOf;
    EmitInits(it, labels, base);
    ProgramSplit(p.pieces, e.pieces, base);
    ProgramBounds(p.pieces, base);
    ProgramBounds(e.pieces, base + |p.cells|);
    if k < |p.inits| {
      assert NotCode(ProgramOf(p.pieces, base), p.inits[k].0);
    } else {
      FillerHasNoCode(e.pieces, base + |p.cells|);
    }
  }

  lemma {:induction false} AssemblePairs(items: seq<Located>, ticks: nat, labels: Labels, base: nat, p: Program0)
    requires InStep(items, |p.cells|, ticks, base) && PairsOffCode(p, base)
    requires AssembleFrom(items, labels, base, p).Success?
    ensures PairsOffCode(AssembleFrom(items, labels, base, p).value, base)
    decreases |items|
  {
    hide EmitItem, EncodePieces, PlanFits, PlanTimed, PairsOffCode;
    if items != [] {
      var e := EmitItem(items[0], labels, base).value;
      var cells := EncodePieces(e.pieces, base + |p.cells|).value;
      PairsStep(items[0], labels, base, p, cells);
      AssemblePairs(items[1..], ticks + LocatedTicks(items[0]), labels, base,
                    Program0(p.cells + cells, p.pieces + e.pieces, p.inits + e.inits));
    }
  }

  lemma {:induction false} AssembleEncodes(items: seq<Located>, labels: Labels, base: nat, p: Program0)
    requires EncodePieces(p.pieces, base) == Success(p.cells)
    requires AssembleFrom(items, labels, base, p).Success?
    ensures var q := AssembleFrom(items, labels, base, p).value;
            EncodePieces(q.pieces, base) == Success(q.cells)
    decreases |items|
  {
    hide EmitItem, EncodePieces;
    if items != [] {
      var e := EmitItem(items[0], labels, base).value;
      var cells := EncodePieces(e.pieces, base + |p.cells|).value;
      EncodeJoin(p.pieces, e.pieces, base);
      AssembleEncodes(items[1..], labels, base, Program0(p.cells + cells, p.pieces + e.pieces, p.inits + e.inits));
    }
  }

  lemma {:induction false} EncodeJoin(a: seq<Piece>, b: seq<Piece>, addr: nat)
    requires EncodePieces(a, addr).Success? && EncodePieces(b, addr + |EncodePieces(a, addr).value|).Success?
    ensures EncodePieces(a + b, addr)
         == Success(EncodePieces(a, addr).value + EncodePieces(b, addr + |EncodePieces(a, addr).value|).value)
  {
    hide EncodePiece;
    EncodePiecesLength(a, addr);
    if a == [] {
      assert a + b == b;
      var rb := EncodePieces(b, addr).value;
      assert [] + rb == rb;
    } else {
      assert (a + b)[1..] == a[1..] + b;
      EncodePiecesLength(a[1..], addr + PieceSize(a[0]));
      EncodeJoin(a[1..], b, addr + PieceSize(a[0]));
      var first := EncodePiece(a[0], addr).value;
      var ra := EncodePieces(a[1..], addr + PieceSize(a[0])).value;
      var rb := EncodePieces(b, addr + |EncodePieces(a, addr).value|).value;
      assert first + (ra + rb) == (first + ra) + rb;
    }
  }

  /** What the assembler guarantees of an image, in one place. */
  ghost predicate GoodImage(image: Image) {
    EncodePieces(image.pieces, 0) == Success(image.cells)
    && 0 < |image.cells| <= MEM_SIZE && |image.cells| == PiecesSize(image.pieces)
    && image.prefix == MatCells(|image.inits|) <= |image.cells|
    && MatPieces(image.inits, image.start) <= image.pieces
    && Ascending(image.inits, image.prefix, |image.cells|)
    && forall k :: 0 <= k < |image.inits| ==> NotCode(ProgramOf(image.pieces, 0), image.inits[k].0)
  }

  lemma ImageIsGood(entries: seq<Entry>, trailing: seq<string>)
    requires LayOutSource(entries, trailing).Success?
    requires AssembleGlyph(LayOutSource(entries, trailing).value).Success?
    ensures GoodImage(AssembleGlyph(LayOutSource(entries, trailing).value).value)
  {
    hide InStep, EncodePieces, LayOutSource, CountInitializers, AssembleFrom, PairsOffCode, ProgramOf;
    var layout := LayOutSource(entries, trailing).value;
    LayoutInStep(entries, trailing);
    LayoutAgreement(entries, trailing);
    var image := AssembleGlyph(layout).value;
    var labels := FinalLabels(layout.labels, image.prefix);
    var program := AssembleProgram(layout, image.prefix).value;
    StartOff(image.prefix);
    AssemblePairs(layout.items, MatTicks(CountInitializers(Mapped(entries, EntryItem))), labels, image.prefix,
                  Program0([], [], []));
    AssembleEncodes(layout.items, labels, image.prefix, Program0([], [], []));
    var mat := MatPieces(image.inits, image.start);
    MatPiecesSize(image.inits, image.start);
    EncodePiecesLength(mat, 0);
    EncodeJoin(mat, program.pieces, 0);
    EncodePiecesLength(image.pieces, 0);
    PairsInImage(mat, program, image.prefix);
  }

  lemma StartOff(base: nat)
    ensures PairsOffCode(Program0([], [], []), base) && EncodePieces([], base) == Success([])
  {
  }

  lemma PairsInImage(mat: seq<Piece>, program: Program0, prefix: nat)
    requires PairsOffCode(program, prefix) && PiecesSize(mat) == prefix
    ensures Ascending(program.inits, prefix, prefix + |program.cells|)
    ensures forall k :: 0 <= k < |program.inits| ==> NotCode(ProgramOf(mat + program.pieces, 0), program.inits[k].0)
  {
    hide ProgramOf;
    ProgramSplit(mat, program.pieces, 0);
    ProgramBounds(mat, 0);
    forall k | 0 <= k < |program.inits|
      ensures NotCode(ProgramOf(mat + program.pieces, 0), program.inits[k].0)
    {
      assert NotCode(ProgramOf(program.pieces, prefix), program.inits[k].0);
    }
  }

  // ----- running it -----

  /** The pieces of the first pair in front of the rest. */
  lemma FirstPair(inits: seq<(nat, Word)>, start: int, addr: nat)
    requires inits != []
    ensures var prog, rest := ProgramOf(MatPieces(inits, start), addr),
            ProgramOf(MatPieces(inits[1..], start), addr + 12);
            addr in prog && prog[addr] == SetA(inits[0].1) && addr + 6 in prog && prog[addr + 6] == StoreA(inits[0].0)
            && forall x :: x in rest ==> x in prog && prog[x] == rest[x]
  {
    var ps, rest := MatPieces(inits, start), MatPieces(inits[1..], start);
    var tail := [Code(StoreA(inits[0].0))] + rest;
    assert ps[1..] == tail && tail[1..] == rest;
    hide MatPieces;
    ProgramBounds(rest, addr + 12);
  }

  /** Startup instruction 2k, 2k+1 and the closing jump, at their addresses. */
  lemma {:induction false} MatProgram(inits: seq<(nat, Word)>, start: int, addr: nat, k: nat)
    requires k <= |inits|
    ensures var prog := ProgramOf(MatPieces(inits, start), addr);
            if k == |inits| then addr + 12 * k in prog && prog[addr + 12 * k] == Jump(start)
            else addr + 12 * k in prog && prog[addr + 12 * k] == SetA(inits[k].1)
                 && addr + 12 * k + 6 in prog && prog[addr + 12 * k + 6] == StoreA(inits[k].0)
    decreases k
  {
    if inits == [] {
      assert MatPieces(inits, start)[1..] == [];
    } else {
      hide ProgramOf, MatPieces;
      FirstPair(inits, start, addr);
      if k > 0 {
        MatProgram(inits[1..], start, addr + 12, k - 1);
      }
    }
  }

  function InitWrites(inits: seq<(nat, Word)>): (r: seq<(Word, Word)>)
    requires forall k :: 0 <= k < |inits| ==> inits[k].0 < MEM_SIZE
    ensures |r| == |inits|
  {
    seq(|inits|, i requires 0 <= i < |inits| => (inits[i].0 as Word, inits[i].1))
  }

  lemma {:induction false} ApplyAppend(mem: seq<Word>, writes: seq<(Word, Word)>, w: (Word, Word))
    requires |mem| == MEM_SIZE
    ensures ApplyWrites(mem, writes + [w]) == ApplyWrites(mem, writes)[w.0 := w.1]
    ensures WriteTargets(writes + [w]) == WriteTargets(writes) + {w.0}
    decreases |writes|
  {
    if writes == [] {
      assert writes + [w] == [w] && [w][1..] == [];
      OneWrite(mem, w.0, w.1);
    } else {
      assert (writes + [w])[1..] == writes[1..] + [w];
      ApplyAppend(mem[writes[0].0 := writes[0].1], writes[1..], w);
    }
    TargetsAppend(writes, w);
  }

  lemma TargetsAppend(writes: seq<(Word, Word)>, w: (Word, Word))
    ensures WriteTargets(writes + [w]) == WriteTargets(writes) + {w.0}
  {
    var all := writes + [w];
    forall x | x in WriteTargets(writes) + {w.0}
      ensures x in WriteTargets(all)
    {
      if x in WriteTargets(writes) {
        var k :| 0 <= k < |writes| && writes[k].0 == x;
        assert all[k].0 == x;
      } else {
        assert all[|writes|].0 == x;
      }
    }
  }

  lemma {:induction false} ApplyAscending(mem: seq<Word>, inits: seq<(nat, Word)>, hi: nat, k: nat)
    requires |mem| == MEM_SIZE && hi <= MEM_SIZE && Ascending(inits, 0, hi) && k < |inits|
    ensures ApplyWrites(mem, InitWrites(inits))[inits[k].0] == inits[k].1
    decreases |inits|
  {
    var n := |inits| - 1;
    var front := inits[..n];
    assert InitWrites(inits) == InitWrites(front) + [(inits[n].0 as Word, inits[n].1)];
    ApplyAppend(mem, InitWrites(front), (inits[n].0 as Word, inits[n].1));
    if k < n {
      ApplyAscending(mem, front, hi, k);
      assert front[k] == inits[k];
    }
  }

  function LastValue(inits: seq<(nat, Word)>): Word {
    if inits == [] then 0 else inits[|inits| - 1].1
  }

  /** After k pairs. */
  ghost predicate AfterPairs(image: Image, v: State, k: nat, t: Src)
    requires k <= |image.inits| && GoodImage(image) && v.Valid()
  {
    var writes := InitWrites(image.inits[..k]);
    t.mem == ApplyWrites(v.mem, writes)
    && t.A == LastValue(image.inits[..k]) && t.C == 12 * k && t.D == 2 * k
    && !t.halted && t.exitCode == 0 && !t.lastError && t.input == v.input && t.output == [] && t.calls == []
    && t.dirty == WriteTargets(writes)
    && (forall x: Word :: x in t.ran ==> x < 12 * k)
  }

  /** The machine's state where the user program starts. */
  ghost predicate AtStart(image: Image, v: State, t: Src)
    requires GoodImage(image) && v.Valid()
  {
    var writes := InitWrites(image.inits);
    t.mem == ApplyWrites(v.mem, writes)
    && t.A == LastValue(image.inits) && t.C == ModWord(image.start) && t.D == MatTicks(|image.inits|)
    && !t.halted && t.exitCode == 0 && !t.lastError && t.input == v.input && t.output == [] && t.calls == []
    && t.dirty == WriteTargets(writes)
    && (forall x: Word :: x in t.ran ==> x < image.prefix)
  }

  lemma TargetsBeyond(image: Image, k: nat, x: Word)
    requires GoodImage(image) && k <= |image.inits| && x in WriteTargets(InitWrites(image.inits[..k]))
    ensures image.prefix <= x
  {
    hide ProgramOf, EncodePieces, MatPieces;
    var j :| 0 <= j < k && InitWrites(image.inits[..k])[j].0 == x;
    assert image.inits[..k][j] == image.inits[j];
  }

  lemma MatInstr(image: Image, k: nat)
    requires GoodImage(image) && k <= |image.inits|
    ensures var prog := ProgramOf(image.pieces, 0);
            12 * k in prog
            && (k == |image.inits| ==> prog[12 * k] == Jump(image.start))
            && (k < |image.inits| ==> prog[12 * k] == SetA(image.inits[k].1)
                                      && 12 * k + 6 in prog && prog[12 * k + 6] == StoreA(image.inits[k].0))
  {
    hide ProgramOf, EncodePieces;
    var mat := MatPieces(image.inits, image.start);
    MatProgram(image.inits, image.start, 0, k);
    var rest := image.pieces[|mat|..];
    assert image.pieces == mat + rest;
    ProgramSplit(mat, rest, 0);
  }

  lemma PairFacts(image: Image, k: nat)
    requires GoodImage(image) && k < |image.inits|
    ensures image.prefix <= image.inits[k].0 < MEM_SIZE && 12 * k + 18 <= image.prefix <= MEM_SIZE
    ensures InitWrites(image.inits[..k + 1])
            == InitWrites(image.inits[..k]) + [(image.inits[k].0 as Word, image.inits[k].1)]
    ensures forall i :: 0 <= i < k ==> image.inits[..k][i].0 < MEM_SIZE
    ensures LastValue(image.inits[..k + 1]) == image.inits[k].1
  {
    hide ProgramOf, EncodePieces, MatPieces;
    assert image.inits[..k + 1] == image.inits[..k] + [image.inits[k]];
  }

  lemma DirtyBeyond(image: Image, v: State, k: nat, t: Src)
    requires GoodImage(image) && v.Valid() && k <= |image.inits| && AfterPairs(image, v, k, t)
    ensures forall y: Word :: y in t.dirty ==> image.prefix <= y
  {
    hide GoodImage;
    forall y | y in t.dirty
      ensures image.prefix <= y
    {
      TargetsBeyond(image, k, y);
    }
  }

  /** One seta/storea pair. */
  lemma PairStep(image: Image, v: State, script: Script, k: nat, t: Src)
    requires GoodImage(image) && v.Valid() && k < |image.inits| && AfterPairs(image, v, k, t)
    ensures SrcRun(ProgramOf(image.pieces, 0), t, script, 2).Some?
    ensures AfterPairs(image, v, k + 1, SrcRun(ProgramOf(image.pieces, 0), t, script, 2).value)
  {
    hide GoodImage, ProgramOf, ApplyWrites, WriteTargets, InitWrites, SrcRun, LastValue;
    PairFacts(image, k);
    DirtyBeyond(image, v, k, t);
    MatInstr(image, k);
    var x: Word, val := image.inits[k].0, image.inits[k].1;
    ApplyAppend(v.mem, InitWrites(image.inits[..k]), (x, val));
    PairRuns(ProgramOf(image.pieces, 0), t, script, 12 * k, x, val);
  }

  /** seta v; storea x from a clean state. */
  lemma PairRuns(prog: Program, t: Src, script: Script, c: nat, x: Word, val: Word)
    requires |t.mem| == MEM_SIZE && !t.halted && t.C == c && t.D + 2 < MEM_SIZE && c + 12 < MEM_SIZE
    requires c in prog && prog[c] == SetA(val) && c + 6 in prog && prog[c + 6] == StoreA(x)
    requires c + 12 <= x && (forall y: Word :: y in t.dirty ==> c + 12 <= y)
    ensures var r := SrcRun(prog, t, script, 2);
            r.Some? && r.value == t.(A := val, C := c + 12, D := t.D + 2, mem := t.mem[x := val],
                                     ran := ((t.ran + {c}) - {x}) + {c + 6}, dirty := t.dirty + {x})
  {
    hide ApplyWrites, WriteTargets;
    NoWrites(t.mem);
    SetARuns(prog, t, script, c, val);
    var u := SrcStep(prog, t, script).value;
    StoreARuns(prog, u, script, c + 6, x);
    TwoSteps(prog, t, script);
    assert ((t.ran + {c as Word}) - {x}) + {(c + 6) as Word} == u.ran - {x} + {(c + 6) as Word};
  }

  lemma TwoSteps(prog: Program, t: Src, script: Script)
    requires |t.mem| == MEM_SIZE && !t.halted && SrcStep(prog, t, script).Some?
             && !SrcStep(prog, t, script).value.halted
    ensures SrcRun(prog, t, script, 2) == SrcStep(prog, SrcStep(prog, t, script).value, script)
  {
    hide SrcStep;
    var u := SrcStep(prog, t, script).value;
    var r := SrcStep(prog, u, script);
    assert SrcRun(prog, t, script, 2) == SrcRun(prog, u, script, 1);
    if r.Some? {
      assert SrcRun(prog, u, script, 1) == SrcRun(prog, r.value, script, 0);
    }
  }

  lemma SetARuns(prog: Program, t: Src, script: Script, c: nat, val: Word)
    requires |t.mem| == MEM_SIZE && !t.halted && t.C == c && t.D + 1 < MEM_SIZE && c + 6 < MEM_SIZE
    requires c in prog && prog[c] == SetA(val) && (forall y: Word :: y in t.dirty ==> c + 6 <= y)
    ensures SrcStep(prog, t, script) == Some(t.(A := val, C := c + 6, D := t.D + 1, ran := t.ran + {c}))
  {
    NoWrites(t.mem);
    assert t.dirty + {} == t.dirty && t.ran - {} == t.ran;
  }

  lemma StoreARuns(prog: Program, t: Src, script: Script, c: nat, x: Word)
    requires |t.mem| == MEM_SIZE && !t.halted && t.C == c && t.D + 1 < MEM_SIZE && c + 6 < MEM_SIZE
    requires c in prog && prog[c] == StoreA(x) && x != c && (forall y: Word :: y in t.dirty ==> c + 6 <= y)
    ensures SrcStep(prog, t, script)
         == Some(t.(C := c + 6, D := t.D + 1, mem := t.mem[x := t.A], ran := (t.ran - {x}) + {c},
                    dirty := t.dirty + {x}))
  {
    OneWrite(t.mem, x, t.A);
  }

  lemma BootMemory(v: State)
    requires v.Valid()
    ensures |SourceBoot(v).mem| == MEM_SIZE
  {
  }

  lemma PairsStart(image: Image, v: State)
    requires GoodImage(image) && v.Valid() && Booted(v, image.cells)
    ensures AfterPairs(image, v, 0, SourceBoot(v))
  {
    hide GoodImage;
    NoWrites(v.mem);
    assert InitWrites(image.inits[..0]) == [];
  }

  lemma {:induction false} PairsRun(image: Image, v: State, script: Script, k: nat)
    requires GoodImage(image) && v.Valid() && Booted(v, image.cells) && k <= |image.inits|
    ensures SrcRun(ProgramOf(image.pieces, 0), SourceBoot(v), script, 2 * k).Some?
    ensures AfterPairs(image, v, k, SrcRun(ProgramOf(image.pieces, 0), SourceBoot(v), script, 2 * k).value)
    decreases k
  {
    hide GoodImage, AfterPairs, Booted, SrcStep, ProgramOf;
    BootMemory(v);
    var prog := ProgramOf(image.pieces, 0);
    if k == 0 {
      PairsStart(image, v);
    } else {
      PairsRun(image, v, script, k - 1);
      var t := SrcRun(prog, SourceBoot(v), script, 2 * (k - 1)).value;
      PairStep(image, v, script, k - 1, t);
      SrcRunSplit(prog, SourceBoot(v), script, 2 * (k - 1), 2);
      assert 2 * (k - 1) + 2 == 2 * k;
    }
  }

  lemma JumpFacts(image: Image)
    requires GoodImage(image)
    ensures 12 * |image.inits| + 6 == image.prefix <= MEM_SIZE
    ensures image.inits[..|image.inits|] == image.inits
  {
    hide ProgramOf, EncodePieces, MatPieces, NotCode;
  }

  /** The materializer on the assembly machine: 2n+1 steps from boot to `start`. */
  lemma StartupRuns(image: Image, v: State, script: Script)
    requires GoodImage(image) && v.Valid() && Booted(v, image.cells)
    ensures var r := SrcRun(ProgramOf(image.pieces, 0), SourceBoot(v), script, MatTicks(|image.inits|));
            r.Some? && AtStart(image, v, r.value)
  {
    hide GoodImage, ProgramOf, ApplyWrites, WriteTargets, InitWrites, SrcRun, Booted;
    BootMemory(v);
    var n, prog := |image.inits|, ProgramOf(image.pieces, 0);
    PairsRun(image, v, script, n);
    MatInstr(image, n);
    JumpFacts(image);
    var t := SrcRun(prog, SourceBoot(v), script, 2 * n).value;
    DirtyBeyond(image, v, n, t);
    JumpRuns(prog, t, script, 12 * n, image.start);
    SrcRunSplit(prog, SourceBoot(v), script, 2 * n, 1);
    OneStep(prog, t, script);
  }

  lemma OneStep(prog: Program, t: Src, script: Script)
    requires |t.mem| == MEM_SIZE && !t.halted
    ensures SrcRun(prog, t, script, 1) == SrcStep(prog, t, script)
  {
    hide SrcStep;
    var r := SrcStep(prog, t, script);
    if r.Some? {
      assert SrcRun(prog, r.value, script, 0) == r;
    }
  }

  lemma JumpRuns(prog: Program, t: Src, script: Script, c: nat, start: int)
    requires |t.mem| == MEM_SIZE && !t.halted && t.C == c && t.D + 1 < MEM_SIZE && c + 6 <= MEM_SIZE
    requires c in prog && prog[c] == Jump(start) && (forall y: Word :: y in t.dirty ==> c + 6 <= y)
    ensures SrcStep(prog, t, script) == Some(t.(C := ModWord(start), D := t.D + 1, ran := t.ran + {c}))
  {
    NoWrites(t.mem);
    assert t.dirty + {} == t.dirty && t.ran - {} == t.ran;
  }

  /**
   Materializer correctness.  From a booted machine, exactly 2n+1 steps put
   C at `start` and D at 2n+1; every initialised cell holds its word, no pair
   points into the startup code, and every other cell behind it is unchanged.
   */
  lemma MaterializerCorrect(image: Image, v: State, script: Script)
    requires GoodImage(image) && ClassicOnly(image.pieces) && Booted(v, image.cells)
    ensures var u := Run(v, script, 2 * |image.inits| + 1);
            u.C == ModWord(image.start) && u.D == 2 * |image.inits| + 1 && !u.halted
            && (forall k :: 0 <= k < |image.inits| ==>
                  image.prefix <= image.inits[k].0 < |image.cells| && u.mem[image.inits[k].0] == image.inits[k].1)
            && (forall x: Word ::
                  image.prefix <= x && (forall k :: 0 <= k < |image.inits| ==> image.inits[k].0 != x) ==>
                  u.mem[x] == v.mem[x])
  {
    var prog := ProgramOf(image.pieces, 0);
    BootSim(image.pieces, v, image.cells);
    StartupRuns(image, v, script);
    SimRun(prog, SourceBoot(v), v, script, MatTicks(|image.inits|));
    var t := SrcRun(prog, SourceBoot(v), script, MatTicks(|image.inits|)).value;
    var u := Run(v, script, MatTicks(|image.inits|));
    forall k | 0 <= k < |image.inits|
      ensures image.prefix <= image.inits[k].0 < |image.cells| && u.mem[image.inits[k].0] == image.inits[k].1
    {
      ApplyAscending(v.mem, image.inits, |image.cells|, k);
    }
    forall x: Word | image.prefix <= x && (forall k :: 0 <= k < |image.inits| ==> image.inits[k].0 != x)
      ensures u.mem[x] == v.mem[x]
    {
      ApplyWritesFrame(v.mem, InitWrites(image.inits), x);
    }
  }
}
