/**
 Inline frame words.  A word is spelled as five printable base-94 digits, least
 significant first; the spelling is read back modulo 59049, so every word has
 many spellings, and the assembler takes the least one whose five cells are
 also valid source at their own addresses.
 */
module Frames {
  import opened Words
  import opened Glyphs

  const MEM_SIZE: nat := 59049
  const ABI_ARGC: nat := 58000
  /** 94 to the fifth power: spellings are the numbers below it. */
  const CAP: nat := 7339040224

  function Base94(cells: seq<Word>): int {
    if cells == [] then 0 else cells[0] - 33 + 94 * Base94(cells[1..])
  }

  function Spell(t: nat, n: nat): (cells: seq<Word>)
    ensures |cells| == n
    ensures forall k :: 0 <= k < n ==> Graphic(cells[k])
  {
    if n == 0 then [] else [33 + t % 94] + Spell(t / 94, n - 1)
  }

  predicate AllGraphic(cells: seq<Word>) {
    forall k :: 0 <= k < |cells| ==> Graphic(cells[k])
  }

  /** Every cell decodes to an operation at its own address. */
  predicate ValidSource(cells: seq<Word>, address: nat) {
    forall k :: 0 <= k < |cells| ==> ValidOp(DecodeOp(cells[k], address + k))
  }

  /** The spellings the loader accepts at `address` and the machine reads back as `word`. */
  predicate SpellingOf(cells: seq<Word>, word: Word, address: nat) {
    |cells| == ENC_WORD_CELLS && AllGraphic(cells) && ValidSource(cells, address)
    && Base94(cells) % WORD_MOD == word
  }

  // ----- base 94 -----

  function Pow94(n: nat): (p: nat)
    ensures p >= 1
  {
    if n == 0 then 1 else 94 * Pow94(n - 1)
  }

  lemma {:induction false} SpellValue(t: nat, n: nat)
    requires t < Pow94(n)
    ensures Base94(Spell(t, n)) == t
  {
    if n > 0 {
      SpellValue(t / 94, n - 1);
      assert Spell(t, n)[1..] == Spell(t / 94, n - 1);
    }
  }

  lemma {:induction false} ValueSpell(cells: seq<Word>)
    requires AllGraphic(cells)
    ensures 0 <= Base94(cells) < Pow94(|cells|)
    ensures Spell(Base94(cells), |cells|) == cells
  {
    if cells != [] {
      ValueSpell(cells[1..]);
      var v := Base94(cells);
      assert v % 94 == cells[0] - 33 && v / 94 == Base94(cells[1..]);
      assert Spell(v, |cells|) == [cells[0]] + cells[1..];
    }
  }

  // ----- reading a frame word -----

  function DecodeFrame(mem: seq<Word>, pos: nat): Word
    requires |mem| == MEM_SIZE
  {
    var cells := seq(ENC_WORD_CELLS, i requires 0 <= i < ENC_WORD_CELLS => mem[(pos + i) % MEM_SIZE]);
    if AllGraphic(cells) then ModWord(Base94(cells)) else 0
  }

  /** A spelling of a word, wherever it lies in memory, is read back as that word. */
  lemma DecodeSpelling(mem: seq<Word>, pos: nat, cells: seq<Word>, word: Word, address: nat)
    requires |mem| == MEM_SIZE && pos + ENC_WORD_CELLS <= MEM_SIZE
    requires SpellingOf(cells, word, address)
    requires mem[pos..pos + ENC_WORD_CELLS] == cells
    ensures DecodeFrame(mem, pos) == word
  {
    hide DecodeOp, ValidOp, ValidSource;
    var read := seq(ENC_WORD_CELLS, i requires 0 <= i < ENC_WORD_CELLS => mem[(pos + i) % MEM_SIZE]);
    forall i | 0 <= i < ENC_WORD_CELLS
      ensures read[i] == cells[i]
    {
      assert cells[i] == mem[pos..pos + ENC_WORD_CELLS][i] == mem[pos + i];
      assert (pos + i) % MEM_SIZE == pos + i;
    }
    assert read == cells;
  }

  function Digit(cell: Word): int {
    cell as int - 33
  }

  lemma FiveDigits(c: seq<Word>)
    requires |c| == 5
    ensures Base94(c) == Digit(c[0]) + 94 * Digit(c[1]) + 8836 * Digit(c[2]) + 830584 * Digit(c[3])
                         + 78074896 * Digit(c[4])
  {
    assert c[1..][1..] == c[2..] && c[2..][1..] == c[3..] && c[3..][1..] == c[4..] && c[4..][1..] == [];
    assert Base94(c[4..]) == Digit(c[4]) + 94 * Base94([]) && Base94([]) == 0;
    assert Base94(c[3..]) == Digit(c[3]) + 94 * Base94(c[4..]);
    assert Base94(c[2..]) == Digit(c[2]) + 94 * Base94(c[3..]);
    assert Base94(c[1..]) == Digit(c[1]) + 94 * Base94(c[2..]);
  }

  /**
   A frame in digits: five cells from pos on, around the end of memory, the lowest first; 0
   if one is not printable.
   */
  lemma FrameInDigits(mem: seq<Word>, pos: nat)
    requires |mem| == 59049
    ensures var c := seq(5, i requires 0 <= i < 5 => mem[(pos + i) % 59049]);
            DecodeFrame(mem, pos)
            == if forall i :: 0 <= i < 5 ==> 33 <= c[i] <= 126
               then (Digit(c[0]) + 94 * Digit(c[1]) + 8836 * Digit(c[2]) + 830584 * Digit(c[3])
                     + 78074896 * Digit(c[4])) % 59049
               else 0
  {
    hide Base94;
    var c := seq(5, i requires 0 <= i < 5 => mem[(pos + i) % 59049]);
    FiveDigits(c);
    assert c == seq(ENC_WORD_CELLS, i requires 0 <= i < ENC_WORD_CELLS => mem[(pos + i) % MEM_SIZE]);
  }

  // ----- the search -----

  /** The candidates encoded, encoded + 59049, ... below 94^5, tried in order. */
  function Search(encoded: nat, address: nat): Option<seq<Word>>
    decreases CAP - encoded
  {
    if encoded >= CAP then None
    else if ValidSource(Spell(encoded, ENC_WORD_CELLS), address) then Some(Spell(encoded, ENC_WORD_CELLS))
    else Search(encoded + WORD_MOD, address)
  }

  function EncodeFrame(value: int, address: nat): Option<seq<Word>> {
    Search(ModWord(value), address)
  }

  lemma CapIsPow()
    ensures Pow94(ENC_WORD_CELLS) == CAP
  {
    assert Pow94(2) == 8836;
    assert Pow94(3) == 830584;
    assert Pow94(4) == 94 * Pow94(3);
    assert Pow94(5) == 94 * Pow94(4);
  }

  lemma NextResidue(encoded: nat)
    ensures (encoded + WORD_MOD) % WORD_MOD == encoded % WORD_MOD
  {
  }

  lemma {:induction false} SearchSound(encoded: nat, address: nat)
    requires Search(encoded, address).Some?
    ensures SpellingOf(Search(encoded, address).value, encoded % WORD_MOD, address)
    ensures Base94(Search(encoded, address).value) >= encoded
    decreases CAP - encoded
  {
    hide DecodeOp, ValidOp, Spell, ValidSource, Base94;
    CapIsPow();
    var cells := Spell(encoded, ENC_WORD_CELLS);
    if ValidSource(cells, address) {
      SpellValue(encoded, ENC_WORD_CELLS);
    } else {
      SearchSound(encoded + WORD_MOD, address);
      NextResidue(encoded);
    }
  }

  lemma {:induction false} SearchComplete(encoded: nat, address: nat, cells: seq<Word>)
    requires SpellingOf(cells, encoded % WORD_MOD, address)
    requires Base94(cells) >= encoded
    ensures Search(encoded, address).Some?
    ensures Base94(Search(encoded, address).value) <= Base94(cells)
    decreases CAP - encoded
  {
    CapIsPow();
    ValueSpell(cells);
    var v := Base94(cells);
    if ValidSource(Spell(encoded, ENC_WORD_CELLS), address) {
      SpellValue(encoded, ENC_WORD_CELLS);
    } else {
      assert v != encoded;
      NextCongruent(encoded, v);
      SearchComplete(encoded + WORD_MOD, address, cells);
    }
  }

  lemma NextCongruent(a: nat, b: nat)
    requires a < b && a % WORD_MOD == b % WORD_MOD
    ensures a + WORD_MOD <= b
    ensures (a + WORD_MOD) % WORD_MOD == a % WORD_MOD
  {
    var qa, qb := a / WORD_MOD, b / WORD_MOD;
    assert b - a == WORD_MOD * (qb - qa);
  }

  lemma ModAtMost(v: nat, word: Word)
    requires v % WORD_MOD == word
    ensures word <= v
  {
  }

  /**
   The codec law.  The search succeeds exactly when an acceptable spelling of
   the word exists, and then returns the numerically least one.
   */
  lemma EncodeFrameLeast(value: int, address: nat)
    ensures EncodeFrame(value, address).Some? <==> exists cells :: SpellingOf(cells, ModWord(value), address)
    ensures EncodeFrame(value, address).Some? ==>
              var best := EncodeFrame(value, address).value;
              SpellingOf(best, ModWord(value), address)
              && forall cells :: SpellingOf(cells, ModWord(value), address) ==> Base94(best) <= Base94(cells)
  {
    hide DecodeOp, ValidOp, Base94, Search;
    var want := ModWord(value);
    if EncodeFrame(value, address).Some? {
      SearchSound(want, address);
    }
    forall cells | SpellingOf(cells, want, address)
      ensures EncodeFrame(value, address).Some? && Base94(EncodeFrame(value, address).value) <= Base94(cells)
    {
      ValueSpell(cells);
      ModAtMost(Base94(cells), want);
      SearchComplete(want, address, cells);
    }
  }

  lemma SpellingLength(value: int, addr: nat)
    ensures EncodeFrame(value, addr).Some? ==> |EncodeFrame(value, addr).value| == ENC_WORD_CELLS
  {
    hide EncodeFrame;
    EncodeFrameLeast(value, addr);
  }

  /** The search result depends on the address modulo 94 only: what makes the cache key sound. */
  lemma {:induction false} SearchPeriod(encoded: nat, a: nat, b: nat)
    requires a % 94 == b % 94
    ensures Search(encoded, a) == Search(encoded, b)
    decreases CAP - encoded
  {
    if encoded < CAP {
      var cells := Spell(encoded, ENC_WORD_CELLS);
      forall k | 0 <= k < |cells|
        ensures DecodeOp(cells[k], a + k) == DecodeOp(cells[k], b + k)
      {
        ModPlus(a, b, k);
        DecodePeriod(cells[k], a + k, b + k);
      }
      SearchPeriod(encoded + WORD_MOD, a, b);
    }
  }

  lemma ModPlus(a: nat, b: nat, k: nat)
    requires a % 94 == b % 94
    ensures (a + k) % 94 == (b + k) % 94
  {
    var m := a / 94 - b / 94;
    assert a + k == (b + k) + 94 * m;
  }

  /** One pass of the inner loop: peel five digits, stop at the first cell that is not valid source. */
  method TryCandidate(encoded: nat, start: nat) returns (ok: bool, cells: seq<Word>)
    ensures ok <==> ValidSource(Spell(encoded, ENC_WORD_CELLS), start)
    ensures ok ==> cells == Spell(encoded, ENC_WORD_CELLS)
  {
    hide DecodeOp, ValidOp;
    var t, i: nat, n := encoded, 0, ENC_WORD_CELLS;
    ghost var all := Spell(encoded, n);
    ok, cells := true, [];
    while i < n
      invariant 0 <= i <= n == |all|
      invariant cells == all[..i] && Spell(t, n - i) == all[i..]
      invariant ValidSource(cells, start)
    {
      var digit := t % 94;
      assert all[i] == Spell(t, n - i)[0] == 33 + digit;
      assert all[i + 1..] == Spell(t, n - i)[1..] == Spell(t / 94, n - i - 1);
      t := t / 94;
      if !ValidOp(DecodeOp(33 + digit, start + i)) {
        return false, cells;
      }
      cells := cells + [33 + digit];
      i := i + 1;
    }
  }

  lemma SearchTurn(encoded: nat, start: nat)
    ensures Search(encoded, start)
            == if encoded >= CAP then None
               else if ValidSource(Spell(encoded, ENC_WORD_CELLS), start) then Some(Spell(encoded, ENC_WORD_CELLS))
               else Search(encoded + WORD_MOD, start)
  {
  }

  /** The encoder with its cache, keyed by the word and the address modulo 94. */
  class FrameEncoder {
    var cache: map<(Word, nat), seq<Word>>

    ghost predicate Valid()
      reads this
    {
      forall key :: key in cache ==> EncodeFrame(key.0, key.1) == Some(cache[key])
    }

    constructor ()
      ensures Valid() && cache == map[]
    {
      cache := map[];
    }

    /** Whatever is cached, the answer is that of a fresh search. */
    method Encode(value: int, start: nat) returns (r: Option<seq<Word>>)
      requires Valid()
      modifies this
      ensures Valid()
      ensures r == EncodeFrame(value, start)
      ensures forall key :: key in old(cache) ==> key in cache && cache[key] == old(cache)[key]
    {
      hide DecodeOp, ValidOp, Spell, ValidSource, Search;
      var want := ModWord(value);
      var key: (Word, nat) := (want, start % 94);
      SearchPeriod(want, start, start % 94);
      if key in cache {
        return Some(cache[key]);
      }
      var encoded: nat := want;
      while encoded < CAP
        invariant Search(encoded, start) == EncodeFrame(value, start)
        invariant cache == old(cache)
        decreases CAP - encoded
      {
        SearchTurn(encoded, start);
        var ok, cells := TryCandidate(encoded, start);
        if ok {
          cache := cache[key := cells];
          return Some(cells);
        }
        encoded := encoded + WORD_MOD;
      }
      SearchTurn(encoded, start);
      r := None;
    }
  }
}
