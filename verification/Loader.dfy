/**
 Image loading: the glyph parser, the text wrapping the assembler prints, and
 the structural lineage walk over a loaded image.
 */
module Loader {
  import opened Words
  import opened Glyphs
  import opened Frames

  predicate IsSpace(c: char) {
    c == ' ' || '\t' <= c <= '\r'
  }

  const RAW_HEADER: string := "# M8 raw memory image"

  /** Cells read from the text so far, followed by those of the rest; None when the loader refuses. */
  function Parse(text: string, cells: seq<Word>): Option<seq<Word>> {
    if text == "" || text[0] == '\0' then Some(cells)
    else
      var c := text[0];
      if IsSpace(c) then Parse(text[1..], cells)
      else if c < '!' || '~' < c || |cells| >= MEM_SIZE || !ValidOp(DecodeOp(c as int, |cells|)) then None
      else Parse(text[1..], cells + [c as int])
  }

  function LoadCells(text: string): Option<seq<Word>> {
    if RAW_HEADER <= text then None
    else
      match Parse(text, [])
      case None => None
      case Some(cells) => if cells == [] then None else Some(cells)
  }

  lemma {:induction false} ParseShape(text: string, cells: seq<Word>)
    requires |cells| <= MEM_SIZE && AllGraphic(cells) && ValidSource(cells, 0)
    ensures var r := Parse(text, cells);
            r.Some? ==> cells <= r.value && |r.value| <= MEM_SIZE && AllGraphic(r.value) && ValidSource(r.value, 0)
  {
    hide DecodeOp, ValidOp;
    if text != "" && text[0] != '\0' && Parse(text, cells).Some? {
      ParseShape(text[1..], if IsSpace(text[0]) then cells else cells + [text[0] as int]);
    }
  }

  /** Whatever text the loader accepts, every loaded cell is graphic and a valid operation at its address. */
  lemma LoadedIsValid(text: string)
    requires LoadCells(text).Some?
    ensures var cells := LoadCells(text).value;
            0 < |cells| <= MEM_SIZE && AllGraphic(cells) && ValidSource(cells, 0)
  {
    ParseShape(text, []);
  }

  // ----- printing -----

  function Chars(cells: seq<Word>): string
    requires AllGraphic(cells)
  {
    seq(|cells|, i requires 0 <= i < |cells| => cells[i] as char)
  }

  /** Lines of at most `width` glyphs, joined by newlines, with a final newline. */
  function Wrapped(text: string, width: nat): string
    requires width > 0
    decreases |text|
  {
    if |text| <= width then text + "\n" else text[..width] + "\n" + Wrapped(text[width..], width)
  }

  const WRAP_WIDTH: nat := 94

  function WrapGlyphs(cells: seq<Word>): string
    requires AllGraphic(cells)
  {
    Wrapped(Chars(cells), WRAP_WIDTH)
  }

  lemma {:induction false} ParseGlyphs(cells: seq<Word>, more: seq<Word>, rest: string)
    requires AllGraphic(cells) && AllGraphic(more) && |cells + more| <= MEM_SIZE && ValidSource(cells + more, 0)
    ensures Parse(Chars(more) + rest, cells) == Parse(rest, cells + more)
    decreases |more|
  {
    hide DecodeOp, ValidOp;
    if more == [] {
      assert Chars(more) + rest == rest && cells + more == cells;
    } else {
      var c := more[0] as char;
      var text := Chars(more) + rest;
      assert text[0] == c && text[1..] == Chars(more[1..]) + rest;
      assert cells + more == (cells + [more[0]]) + more[1..];
      assert (cells + more)[|cells|] == more[0];
      ParseGlyphs(cells + [more[0]], more[1..], rest);
    }
  }

  lemma SkipNewline(rest: string, cells: seq<Word>)
    ensures Parse("\n" + rest, cells) == Parse(rest, cells)
  {
    assert ("\n" + rest)[0] == '\n' && ("\n" + rest)[1..] == rest;
  }

  lemma {:induction false} ParseWrapped(cells: seq<Word>, more: seq<Word>, width: nat)
    requires width > 0
    requires AllGraphic(cells) && AllGraphic(more) && |cells + more| <= MEM_SIZE && ValidSource(cells + more, 0)
    ensures Parse(Wrapped(Chars(more), width), cells) == Some(cells + more)
    decreases |more|
  {
    hide DecodeOp, ValidOp;
    var n := if |more| <= width then |more| else width;
    var line, tail := more[..n], more[n..];
    assert Chars(more)[..n] == Chars(line) && Chars(more)[n..] == Chars(tail);
    assert line + tail == more && cells + more == (cells + line) + tail;
    ValidPrefix(cells + line, tail);
    var rest := if |more| <= width then "" else Wrapped(Chars(tail), width);
    assert Wrapped(Chars(more), width) == Chars(line) + ("\n" + rest);
    ParseGlyphs(cells, line, "\n" + rest);
    SkipNewline(rest, cells + line);
    if |more| > width {
      ParseWrapped(cells + line, tail, width);
    } else {
      assert tail == [] && (cells + line) + tail == cells + line;
    }
  }

  lemma ValidPrefix(a: seq<Word>, b: seq<Word>)
    requires AllGraphic(a + b) && ValidSource(a + b, 0)
    ensures AllGraphic(a) && ValidSource(a, 0)
  {
    forall k | 0 <= k < |a|
      ensures Graphic(a[k]) && ValidOp(DecodeOp(a[k], k))
    {
      assert a[k] == (a + b)[k];
    }
  }

  /** Printing an image and loading it back restores it cell for cell. */
  lemma PrintLoadRoundTrip(cells: seq<Word>)
    requires 0 < |cells| <= MEM_SIZE && AllGraphic(cells) && ValidSource(cells, 0)
    ensures LoadCells(WrapGlyphs(cells)) == Some(cells)
  {
    hide DecodeOp, ValidOp;
    ParseWrapped([], cells, WRAP_WIDTH);
    assert [] + cells == cells;
    var text := WrapGlyphs(cells);
    assert RAW_HEADER[1] == ' ';
    assert |text| >= 2 && text[1] != ' ' by {
      if |cells| > 1 {
        assert text[1] == cells[1] as char;
      }
    }
  }

  // ----- the lineage walk -----

  /** Addresses marked by the walk from `pc`: extension opcodes, their frames skipped. */
  function Walk(cells: seq<Word>, pc: nat): set<nat>
    decreases |cells| - pc
  {
    if pc >= |cells| then {}
    else
      var op := DecodeOp(cells[pc], pc);
      if ExtensionOp(op) then {pc} + Walk(cells, pc + 1 + FrameWords(op) * ENC_WORD_CELLS)
      else Walk(cells, pc + 1)
  }

  lemma {:induction false} WalkAhead(cells: seq<Word>, pc: nat)
    ensures forall x :: x in Walk(cells, pc) ==> pc <= x < |cells| && ExtensionOp(DecodeOp(cells[x], x))
    decreases |cells| - pc
  {
    hide DecodeOp;
    if pc < |cells| {
      var op := DecodeOp(cells[pc], pc);
      WalkAhead(cells, if ExtensionOp(op) then pc + 1 + FrameWords(op) * ENC_WORD_CELLS else pc + 1);
    }
  }

  ghost predicate Marked(seed: seq<char>, expected: seq<Word>, cells: seq<Word>) {
    |seed| == |expected| == MEM_SIZE && |cells| <= MEM_SIZE
    && forall x :: 0 <= x < MEM_SIZE ==>
         if x in Walk(cells, 0) && x < |cells| then seed[x] == DecodeOp(cells[x], x) && expected[x] == cells[x]
         else seed[x] == '\0' && expected[x] == 0
  }

  ghost predicate TailFilled(mem: seq<Word>, loaded: nat) {
    |mem| == MEM_SIZE
    && (loaded >= 2 ==> forall i :: loaded <= i < MEM_SIZE ==> mem[i] == Crazy(mem[i - 1], mem[i - 2]))
  }

  // ----- in characters -----

  /** What the loader looks at: the text up to its first NUL. */
  function UpToNul(text: string): string {
    if text == "" || text[0] as int == 0 then "" else [text[0]] + UpToNul(text[1..])
  }

  /** Only white space (9 to 13 and 32) and glyphs. */
  predicate Readable(text: string) {
    forall i :: 0 <= i < |text| ==> 9 <= text[i] as int <= 13 || 32 <= text[i] as int <= 126
  }

  /** The glyphs of a text. */
  function Marks(text: string): seq<Word> {
    if text == "" then []
    else if 33 <= text[0] as int <= 126 then [text[0] as int] + Marks(text[1..])
    else Marks(text[1..])
  }

  /** Cells that may stand from an address on. */
  predicate Sourced(cells: seq<Word>, at: nat) {
    ValidSource(cells, at) && at + |cells| <= 59049
  }

  lemma {:induction false} ParseExactly(text: string, cells: seq<Word>)
    requires |cells| <= 59049
    ensures var seen := UpToNul(text);
            Parse(text, cells) == if Readable(seen)
              && Sourced(Marks(seen), |cells|) then Some(cells + Marks(seen)) else None
    decreases |text|
  {
    hide DecodeOp, ValidOp;
    var seen := UpToNul(text);
    if seen == "" {
      assert cells + [] == cells;
    } else {
      var c := text[0];
      var rest := UpToNul(text[1..]);
      assert seen[0] == c && seen[1..] == rest;
      if IsSpace(c) {
        ParseExactly(text[1..], cells);
        ReadableBehind(seen);
      } else if '!' <= c <= '~' {
        ReadableBehind(seen);
        SourcedBehind(c as int, Marks(rest), |cells|);
        if |cells| < 59049 {
          ParseExactly(text[1..], cells + [c as int]);
          assert cells + [c as int] + Marks(rest) == cells + Marks(seen);
        }
      }
    }
  }

  lemma ReadableBehind(text: string)
    requires text != ""
    ensures Readable(text) <==>
              (9 <= text[0] as int <= 13 || 32 <= text[0] as int <= 126) && Readable(text[1..])
  {
    assert forall i :: 0 < i < |text| ==> text[i] == text[1..][i - 1];
  }

  lemma SourcedBehind(c: Word, rest: seq<Word>, at: nat)
    ensures Sourced([c] + rest, at) <==> ValidOp(DecodeOp(c, at)) && Sourced(rest, at + 1) && at < 59049
  {
    hide DecodeOp, ValidOp;
    var all := [c] + rest;
    assert all[0] == c && forall k :: 0 <= k < |rest| ==> all[k + 1] == rest[k];
    if ValidSource(rest, at + 1) && ValidOp(DecodeOp(c, at)) {
      forall k | 0 <= k < |all|
        ensures ValidOp(DecodeOp(all[k], at + k))
      {
        assert k > 0 ==> ValidOp(DecodeOp(rest[k - 1], at + 1 + (k - 1)));
      }
    }
    if ValidSource(all, at) {
      forall k | 0 <= k < |rest|
        ensures ValidOp(DecodeOp(rest[k], at + 1 + k))
      {
        assert ValidOp(DecodeOp(all[k + 1], at + (k + 1)));
      }
    }
  }

  /**
   The loader, decided: a text is an image if and only if it is not a raw
   dump, shows only white space and glyphs before any NUL, and its glyphs are
   between one and 59049 cells, each a valid operation at its address; the
   cells are those glyphs.
   */
  lemma LoadsExactly(text: string)
    ensures var seen := UpToNul(text);
            LoadCells(text) == if !("# M8 raw memory image" <= text) && Readable(seen) && Marks(seen) != []
                                  && Sourced(Marks(seen), 0)
                               then Some(Marks(seen)) else None
  {
    hide Parse, UpToNul, Marks, Readable, Sourced;
    ParseExactly(text, []);
    assert [] + Marks(UpToNul(text)) == Marks(UpToNul(text));
  }

  /** The printed image: every 95th character and the last are newlines, the others the cells in order. */
  lemma WrapShape(cells: seq<Word>)
    requires AllGraphic(cells)
    ensures var t := WrapGlyphs(cells);
            |t| == |cells| + (if cells == [] then 1 else (|cells| + 93) / 94)
            && forall x :: 0 <= x < |t| ==>
                 if x % 95 == 94 || x == |t| - 1 then t[x] as int == 10
                 else x - x / 95 < |cells| && t[x] as int == cells[x - x / 95]
  {
    hide Wrapped;
    var t := WrapGlyphs(cells);
    WrappedShape(Chars(cells));
    forall x | 0 <= x < |t|
      ensures if x % 95 == 94 || x == |t| - 1 then t[x] as int == 10
              else x - x / 95 < |cells| && t[x] as int == cells[x - x / 95]
    {
      assert InShape(Chars(cells), t, x);
    }
  }

  predicate InShape(text: string, t: string, x: nat)
    requires x < |t|
  {
    if x % 95 == 94 || x == |t| - 1 then t[x] == '\n' else x - x / 95 < |text| && t[x] == text[x - x / 95]
  }

  lemma {:induction false} WrappedShape(text: string)
    ensures var t := Wrapped(text, 94);
            |t| == |text| + (if text == "" then 1 else (|text| + 93) / 94)
            && forall x :: 0 <= x < |t| ==> InShape(text, t, x)
    decreases |text|
  {
    var t := Wrapped(text, 94);
    if |text| > 94 {
      WrappedShape(text[94..]);
      var rest := Wrapped(text[94..], 94);
      assert t == text[..94] + "\n" + rest;
      forall x | 0 <= x < |t|
        ensures InShape(text, t, x)
      {
        if x >= 95 {
          assert InShape(text[94..], rest, x - 95);
          assert t[x] == rest[x - 95] && x / 95 == (x - 95) / 95 + 1;
        }
      }
    }
  }
}
