/**
 The assembler's loops: image cells are appended one after the other through
 the caching frame encoder, startup pairs are collected on the way, and the
 result is the one Assembly describes.
 */
module Assembler {
  import opened Words
  import opened Glyphs
  import opened Frames
  import opened Source
  import opened Assembly

  method EncodeWordsLoop(enc: FrameEncoder, values: seq<int>, addr: nat) returns (r: Option<seq<Word>>)
    requires enc.Valid()
    modifies enc
    ensures enc.Valid() && r == EncodeWords(values, addr)
  {
    hide EncodeFrame;
    var cells := [];
    ghost var whole := EncodeWords(values, addr);
    assert values[0..] == values && (whole.Some? ==> [] + whole.value == whole.value);
    for k := 0 to |values|
      invariant enc.Valid()
      invariant |cells| == k * ENC_WORD_CELLS
      invariant EncodeWords(values, addr) ==
                  match EncodeWords(values[k..], addr + k * ENC_WORD_CELLS)
                  case Some(rest) => Some(cells + rest)
                  case None => None
    {
      assert values[k..][0] == values[k] && values[k..][1..] == values[k + 1..];
      var word := enc.Encode(values[k], addr + |cells|);
      if word.None? {
        return None;
      }
      SpellingLength(values[k], addr + |cells|);
      ghost var rest := EncodeWords(values[k + 1..], addr + (k + 1) * ENC_WORD_CELLS);
      if rest.Some? {
        assert cells + (word.value + rest.value) == (cells + word.value) + rest.value;
      }
      cells := cells + word.value;
    }
    assert cells + [] == cells;
    r := Some(cells);
  }

  method AppendFiller(address: nat, count: nat) returns (cells: seq<Word>)
    ensures cells == FillerCells(count, address)
  {
    hide FillerCell, DecodeOp;
    cells := [];
    for i := 0 to count
      invariant cells + FillerCells(count - i, address + i) == FillerCells(count, address)
    {
      var cell := FillerCell(address + i);
      assert cells + ([cell] + FillerCells(count - i - 1, address + i + 1))
          == (cells + [cell]) + FillerCells(count - i - 1, address + i + 1);
      cells := cells + [cell];
    }
  }

  method EncodePieceLoop(enc: FrameEncoder, p: Piece, addr: nat) returns (r: Outcome<seq<Word>>)
    requires enc.Valid()
    modifies enc
    ensures enc.Valid() && r == EncodePiece(p, addr)
  {
    hide EncodeOp, EncodeWords, FillerCells;
    match p
    case Filler(n) =>
      var cells := AppendFiller(addr, n);
      r := Success(cells);
    case Code(i) =>
      var op := EncodeOp(OpChar(i), addr);
      if op.None? {
        return Failure(UnknownOp);
      }
      var words := EncodeWordsLoop(enc, FrameOf(i), addr + 1);
      r := if words.None? then Failure(NoSpelling) else Success([op.value] + words.value);
  }

  method EncodePiecesLoop(enc: FrameEncoder, ps: seq<Piece>, addr: nat) returns (r: Outcome<seq<Word>>)
    requires enc.Valid()
    modifies enc
    ensures enc.Valid() && r == EncodePieces(ps, addr)
  {
    hide EncodePiece, PieceSize;
    var mem, at: nat := [], addr;
    ghost var whole := EncodePieces(ps, addr);
    assert ps[0..] == ps && (whole.Success? ==> [] + whole.value == whole.value);
    for k := 0 to |ps|
      invariant enc.Valid()
      invariant EncodePieces(ps, addr) ==
                  match EncodePieces(ps[k..], at)
                  case Success(rest) => Success(mem + rest)
                  case Failure(e) => Failure(e)
    {
      assert ps[k..][0] == ps[k] && ps[k..][1..] == ps[k + 1..];
      var cells := EncodePieceLoop(enc, ps[k], at);
      if cells.Failure? {
        return Failure(cells.error);
      }
      at := at + PieceSize(ps[k]);
      ghost var rest := EncodePieces(ps[k + 1..], at);
      if rest.Success? {
        assert mem + (cells.value + rest.value) == (mem + cells.value) + rest.value;
      }
      mem := mem + cells.value;
    }
    assert mem + [] == mem;
    r := Success(mem);
  }

  method AssembleProgramLoop(enc: FrameEncoder, layout: Layout, base: nat) returns (r: Outcome<Program0>)
    requires enc.Valid()
    modifies enc
    ensures enc.Valid() && r == AssembleProgram(layout, base)
  {
    hide EmitItem, EncodePieces;
    var labels, items := FinalLabels(layout.labels, base), layout.items;
    var mem, pieces, inits := [], [], [];
    for k := 0 to |items|
      invariant enc.Valid()
      invariant AssembleFrom(items[k..], labels, base, Program0(mem, pieces, inits)) == AssembleProgram(layout, base)
    {
      var item := items[k];
      assert items[k..][0] == item && items[k..][1..] == items[k + 1..];
      if |mem| != item.address {
        return Failure(OutOfStep);
      }
      var e := EmitItem(item, labels, base);
      if e.Failure? {
        return Failure(e.error);
      }
      var cells := EncodePiecesLoop(enc, e.value.pieces, base + |mem|);
      if cells.Failure? {
        return Failure(cells.error);
      }
      mem, pieces, inits := mem + cells.value, pieces + e.value.pieces, inits + e.value.inits;
    }
    r := Success(Program0(mem, pieces, inits));
  }

  method BuildMaterializer(enc: FrameEncoder, inits: seq<(nat, Word)>, start: int) returns (r: Outcome<seq<Word>>)
    requires enc.Valid()
    modifies enc
    ensures enc.Valid() && r == EncodePieces(MatPieces(inits, start), 0)
  {
    hide EncodePieces;
    var pieces: seq<Piece> := [];
    for k := 0 to |inits|
      invariant enc.Valid()
      invariant pieces + MatPieces(inits[k..], start) == MatPieces(inits, start)
    {
      assert inits[k..][0] == inits[k] && inits[k..][1..] == inits[k + 1..];
      var two := [Code(SetA(inits[k].1)), Code(StoreA(inits[k].0))];
      assert pieces + (two + MatPieces(inits[k + 1..], start)) == (pieces + two) + MatPieces(inits[k + 1..], start);
      pieces := pieces + two;
    }
    pieces := pieces + [Code(Jump(start))];
    r := EncodePiecesLoop(enc, pieces, 0);
  }

  method AssembleGlyphLoop(enc: FrameEncoder, layout: Layout) returns (r: Outcome<Image>)
    requires enc.Valid()
    modifies enc
    ensures enc.Valid() && r == AssembleGlyph(layout)
  {
    hide EncodePieces, AssembleProgram, MatPieces;
    var prefix := MatCells(CountInitializers(Mapped(layout.items, PlacedItem)));
    var program := AssembleProgramLoop(enc, layout, prefix);
    if program.Failure? {
      return Failure(program.error);
    }
    var labels := FinalLabels(layout.labels, prefix);
    var start := StartAddress(labels, prefix);
    var materializer := BuildMaterializer(enc, program.value.inits, start);
    if materializer.Failure? {
      return Failure(materializer.error);
    }
    if |materializer.value| != prefix {
      return Failure(OutOfStep);
    }
    var cells := materializer.value + program.value.cells;
    if |cells| > WORD_MOD {
      return Failure(ImageTooLarge);
    }
    r := Success(Image(cells, prefix, start, labels, MatPieces(program.value.inits, start) + program.value.pieces,
                       program.value.inits));
  }
}
