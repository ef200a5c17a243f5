/**
 Glyph cells: how a printable cell decodes to an operation at its address,
 how the assembler picks the cell for an operation, and the self-cipher table.
 */
module Glyphs {
  import opened Words

  function Xlat1Low(i: nat): (c: char)
    requires i < 47
    ensures '!' <= c <= '~'
  {
    match i
    case 0 => '+' case 1 => 'b' case 2 => '(' case 3 => '2' case 4 => '9' case 5 => 'e'
    case 6 => '*' case 7 => 'j' case 8 => '1' case 9 => 'V' case 10 => 'M' case 11 => 'E'
    case 12 => 'K' case 13 => 'L' case 14 => 'y' case 15 => 'C' case 16 => '}' case 17 => ')'
    case 18 => '8' case 19 => '&' case 20 => 'm' case 21 => '#' case 22 => '~' case 23 => 'W'
    case 24 => '>' case 25 => 'q' case 26 => 'x' case 27 => 'd' case 28 => 'R' case 29 => 'p'
    case 30 => '0' case 31 => 'w' case 32 => 'k' case 33 => 'r' case 34 => 'U' case 35 => 'o'
    case 36 => '[' case 37 => 'D' case 38 => '7' case 39 => ',' case 40 => 'X' case 41 => 'T'
    case 42 => 'c' case 43 => 'A' case 44 => '\"' case 45 => 'l' case _ => 'I'
  }

  function Xlat1High(i: nat): (c: char)
    requires i < 47
    ensures '!' <= c <= '~'
  {
    match i
    case 0 => '\\' case 1 => 'v' case 2 => '%' case 3 => '{' case 4 => 'g' case 5 => 'J'
    case 6 => 'h' case 7 => '4' case 8 => 'G' case 9 => '\\' case 10 => '-' case 11 => '='
    case 12 => 'O' case 13 => '@' case 14 => '5' case 15 => '`' case 16 => '_' case 17 => '3'
    case 18 => 'i' case 19 => '<' case 20 => '?' case 21 => 'Z' case 22 => '\'' case 23 => ';'
    case 24 => 'F' case 25 => 'N' case 26 => 'Q' case 27 => 'u' case 28 => 'Y' case 29 => ']'
    case 30 => 's' case 31 => 'z' case 32 => 'f' case 33 => '$' case 34 => '!' case 35 => 'B'
    case 36 => 'S' case 37 => '/' case 38 => '|' case 39 => 't' case 40 => ':' case 41 => 'P'
    case 42 => 'n' case 43 => '6' case 44 => '^' case 45 => 'H' case _ => 'a'
  }

  /** The decoding table, indexed by (cell - 33 + address) mod 94. */
  function Xlat1(i: nat): (c: char)
    requires i < 94
    ensures '!' <= c <= '~'
  {
    if i < 47 then Xlat1Low(i) else Xlat1High(i - 47)
  }

  function Xlat2Low(i: nat): (c: char)
    requires i < 47
    ensures '!' <= c <= '~'
  {
    match i
    case 0 => '5' case 1 => 'z' case 2 => ']' case 3 => '&' case 4 => 'g' case 5 => 'q'
    case 6 => 't' case 7 => 'y' case 8 => 'f' case 9 => 'r' case 10 => '$' case 11 => '('
    case 12 => 'w' case 13 => 'e' case 14 => '4' case 15 => '{' case 16 => 'W' case 17 => 'P'
    case 18 => ')' case 19 => 'H' case 20 => '-' case 21 => 'Z' case 22 => 'n' case 23 => ','
    case 24 => '[' case 25 => '%' case 26 => '\\' case 27 => '3' case 28 => 'd' case 29 => 'L'
    case 30 => '+' case 31 => 'Q' case 32 => ';' case 33 => '>' case 34 => 'U' case 35 => '!'
    case 36 => 'p' case 37 => 'J' case 38 => 'S' case 39 => '7' case 40 => '2' case 41 => 'F'
    case 42 => 'h' case 43 => 'O' case 44 => 'A' case 45 => '1' case _ => 'C'
  }

  function Xlat2High(i: nat): (c: char)
    requires i < 47
    ensures '!' <= c <= '~'
  {
    match i
    case 0 => 'B' case 1 => '6' case 2 => 'v' case 3 => '^' case 4 => '=' case 5 => 'I'
    case 6 => '_' case 7 => '0' case 8 => '/' case 9 => '8' case 10 => '|' case 11 => 'j'
    case 12 => 's' case 13 => 'b' case 14 => '9' case 15 => 'm' case 16 => '<' case 17 => '.'
    case 18 => 'T' case 19 => 'V' case 20 => 'a' case 21 => 'c' case 22 => '`' case 23 => 'u'
    case 24 => 'Y' case 25 => '*' case 26 => 'M' case 27 => 'K' case 28 => '\'' case 29 => 'X'
    case 30 => '~' case 31 => 'x' case 32 => 'D' case 33 => 'l' case 34 => '}' case 35 => 'R'
    case 36 => 'E' case 37 => 'o' case 38 => 'k' case 39 => 'N' case 40 => ':' case 41 => '#'
    case 42 => '?' case 43 => 'G' case 44 => '\"' case 45 => 'i' case _ => '@'
  }

  /** The self-cipher table, indexed by cell - 33; every entry is graphic. */
  function Xlat2(i: nat): (c: char)
    requires i < 94
    ensures '!' <= c <= '~'
  {
    if i < 47 then Xlat2Low(i) else Xlat2High(i - 47)
  }

  predicate Graphic(cell: int) {
    33 <= cell <= 126
  }

  /** The operation a cell decodes to, or NUL when the cell is not graphic. */
  function DecodeOp(cell: int, address: nat): char {
    if Graphic(cell) then Xlat1((cell - 33 + address) % 94) else '\0'
  }

  function Cipher(cell: int): (c: Word)
    requires Graphic(cell)
    ensures Graphic(c)
  {
    Xlat2(cell - 33) as int
  }

  predicate ClassicOp(op: char) {
    op == 'j' || op == 'i' || op == '*' || op == 'p' || op == '/' || op == '<' || op == 'v' || op == 'o'
  }

  predicate ExtensionOp(op: char) {
    op == '@' || op == '!' || op == '?' || op == '=' || op == '~' || op == '#' || op == '+'
    || op == '-' || op == '[' || op == ']' || op == ':' || op == '^' || op == '$' || op == '`'
  }

  predicate ValidOp(op: char) {
    ClassicOp(op) || ExtensionOp(op)
  }

  /** Number of inline frame words that follow an extension opcode. */
  function FrameWords(op: char): nat {
    if op == '@' then 6 else if op == '?' then 2 else if ExtensionOp(op) then 1 else 0
  }

  const ENC_WORD_CELLS: nat := 5

  /** Least table index at or after `from` that holds `op`, or 94. */
  function FindOp(op: char, from: nat): (i: nat)
    requires from <= 94
    ensures from <= i <= 94
    ensures i < 94 ==> Xlat1(i) == op
    ensures forall k :: from <= k < i ==> Xlat1(k) != op
    decreases 94 - from
  {
    if from == 94 || Xlat1(from) == op then from else FindOp(op, from + 1)
  }

  /** The assembler's choice of cell for an operation; None when the table lacks it. */
  function EncodeOp(op: char, address: nat): (r: Option<Word>)
    ensures r.Some? ==> Graphic(r.value) && DecodeOp(r.value, address) == op
    ensures r.None? <==> forall i: nat :: i < 94 ==> Xlat1(i) != op
  {
    var idx := FindOp(op, 0);
    if idx == 94 then None
    else
      ModRoundTrip(idx, address);
      Some(33 + (idx - address) % 94)
  }

  lemma ModRoundTrip(idx: nat, address: nat)
    requires idx < 94
    ensures ((idx - address) % 94 + address) % 94 == idx
  {
    var q := (idx - address) / 94;
    assert (idx - address) % 94 + address == idx - 94 * q;
  }

  /** Every operation the machine knows can be encoded at every address. */
  lemma ValidOpsEncode(op: char, address: nat)
    requires ValidOp(op)
    ensures EncodeOp(op, address).Some?
  {
    if ClassicOp(op) {
      ClassicInTable(op);
    } else {
      ExtensionInTable(op);
    }
  }

  lemma ClassicInTable(op: char)
    requires ClassicOp(op)
    ensures exists i: nat :: i < 94 && Xlat1(i) == op
  {
    assert Xlat1(7) == 'j';
    assert Xlat1(65) == 'i';
    assert Xlat1(6) == '*';
    assert Xlat1(29) == 'p';
    assert Xlat1(84) == '/';
    assert Xlat1(66) == '<';
    assert Xlat1(48) == 'v';
    assert Xlat1(35) == 'o';
  }

  lemma ExtensionInTable(op: char)
    requires ExtensionOp(op)
    ensures exists i: nat :: i < 94 && Xlat1(i) == op
  {
    hide Xlat1;
    if op == '@' || op == '!' || op == '?' || op == '=' || op == '~' || op == '#' || op == '+' {
      ControlInTable(op);
    } else {
      ArithmeticInTable(op);
    }
  }

  lemma ControlInTable(op: char)
    requires op == '@' || op == '!' || op == '?' || op == '=' || op == '~' || op == '#' || op == '+'
    ensures exists i: nat :: i < 94 && Xlat1(i) == op
  {
    assert Xlat1(60) == '@';
    assert Xlat1(81) == '!';
    assert Xlat1(67) == '?';
    assert Xlat1(58) == '=';
    assert Xlat1(22) == '~';
    assert Xlat1(21) == '#';
    assert Xlat1(0) == '+';
  }

  lemma ArithmeticInTable(op: char)
    requires op == '-' || op == '[' || op == ']' || op == ':' || op == '^' || op == '$' || op == '`'
    ensures exists i: nat :: i < 94 && Xlat1(i) == op
  {
    assert Xlat1(57) == '-';
    assert Xlat1(36) == '[';
    assert Xlat1(76) == ']';
    assert Xlat1(87) == ':';
    assert Xlat1(91) == '^';
    assert Xlat1(80) == '$';
    assert Xlat1(62) == '`';
  }

  /** Decoding depends on the address only modulo 94. */
  lemma DecodePeriod(cell: int, a: nat, b: nat)
    requires a % 94 == b % 94
    ensures DecodeOp(cell, a) == DecodeOp(cell, b)
  {
    if Graphic(cell) {
      var k := a / 94 - b / 94;
      assert cell - 33 + a == cell - 33 + b + 94 * k;
      assert (cell - 33 + a) % 94 == (cell - 33 + b) % 94;
    }
  }

  // ----- the tables as inverses -----

  /** Where an operation stands in the decoding table. */
  function OpIndex(op: char): (i: nat)
    ensures i < 94
  {
    match op
    case 'j' => 7 case 'i' => 65 case '*' => 6 case 'p' => 29 case '/' => 84 case '<' => 66 case 'v' => 48
    case 'o' => 35 case '@' => 60 case '!' => 81 case '?' => 67 case '=' => 58 case '~' => 22 case '#' => 21
    case '+' => 0 case '-' => 57 case '[' => 36
    case ']' => 76 case ':' => 87 case '^' => 91 case '$' => 80 case '`' => 62
    case _ => 0
  }

  lemma OpIndexLow(i: nat)
    requires i < 47 && ValidOp(Xlat1Low(i))
    ensures OpIndex(Xlat1Low(i)) == i
  {
  }

  lemma OpIndexHigh(i: nat)
    requires i < 47 && ValidOp(Xlat1High(i))
    ensures OpIndex(Xlat1High(i)) == i + 47
  {
  }

  /**
   No operation has two glyphs at one address: the assembler's cell is the only one that
   decodes to the operation there.
   */
  lemma EncodeUnique(op: char, address: nat, cell: int)
    requires ValidOp(op) && Graphic(cell)
    ensures DecodeOp(cell, address) == op <==> EncodeOp(op, address) == Some(cell)
  {
    hide Xlat1Low, Xlat1High, OpIndex, ValidOp;
    ValidOpsEncode(op, address);
    var c := EncodeOp(op, address).value;
    OpPlace((c - 33 + address) % 94);
    OpPlace((cell - 33 + address) % 94);
    if DecodeOp(cell, address) == op {
      SamePlace(c - 33, cell - 33, address);
    }
  }

  lemma OpPlace(i: nat)
    requires i < 94
    ensures ValidOp(Xlat1(i)) ==> OpIndex(Xlat1(i)) == i
  {
    hide Xlat1Low, Xlat1High, OpIndex;
    if ValidOp(Xlat1(i)) {
      if i < 47 {
        OpIndexLow(i);
      } else {
        OpIndexHigh(i - 47);
      }
    }
  }

  /** A cell decodes to an operation when it stands at the operation's place in the table, shifted by the address. */
  lemma DecodesAs(cell: Word, address: nat, op: char)
    requires ValidOp(op) && Graphic(cell) && (cell - 33 + address) % 94 == OpIndex(op)
    ensures DecodeOp(cell, address) == op
  {
    hide Xlat1, OpIndex;
    if ClassicOp(op) {
      ClassicInTable(op);
    } else {
      ExtensionInTable(op);
    }
    var i: nat :| i < 94 && Xlat1(i) == op;
    OpPlace(i);
  }

  lemma SamePlace(a: int, b: int, address: nat)
    requires 0 <= a < 94 && 0 <= b < 94 && (a + address) % 94 == (b + address) % 94
    ensures a == b
  {
  }

  function Unxlat2Low(i: nat): (r: nat)
    requires i < 47
    ensures r < 94
  {
    match i
    case 0 => 35 case 1 => 91 case 2 => 88 case 3 => 10 case 4 => 25 case 5 => 3 case 6 => 75 case 7 => 11
    case 8 => 18 case 9 => 72 case 10 => 30 case 11 => 23 case 12 => 20 case 13 => 64 case 14 => 55 case 15 => 54
    case 16 => 45 case 17 => 40 case 18 => 27 case 19 => 14 case 20 => 0 case 21 => 48 case 22 => 39 case 23 => 56
    case 24 => 61 case 25 => 87 case 26 => 32 case 27 => 63 case 28 => 51 case 29 => 33 case 30 => 89 case 31 => 93
    case 32 => 44 case 33 => 47 case 34 => 46 case 35 => 79 case 36 => 83 case 37 => 41 case 38 => 90 case 39 => 19
    case 40 => 52 case 41 => 37 case 42 => 74 case 43 => 29 case 44 => 73 case 45 => 86 case _ => 43
  }

  function Unxlat2High(i: nat): (r: nat)
    requires i < 47
    ensures r < 94
  {
    match i
    case 0 => 17 case 1 => 31 case 2 => 82 case 3 => 38 case 4 => 65 case 5 => 34 case 6 => 66 case 7 => 16
    case 8 => 76 case 9 => 71 case 10 => 21 case 11 => 24 case 12 => 26 case 13 => 2 case 14 => 50 case 15 => 53
    case 16 => 69 case 17 => 67 case 18 => 60 case 19 => 68 case 20 => 28 case 21 => 13 case 22 => 8 case 23 => 4
    case 24 => 42 case 25 => 92 case 26 => 58 case 27 => 85 case 28 => 80 case 29 => 62 case 30 => 22 case 31 => 84
    case 32 => 36 case 33 => 5 case 34 => 9 case 35 => 59 case 36 => 6 case 37 => 70 case 38 => 49 case 39 => 12
    case 40 => 78 case 41 => 7 case 42 => 1 case 43 => 15 case 44 => 57 case 45 => 81 case _ => 77
  }

  /** The cell a ciphered cell came from. */
  function Uncipher(cell: int): (c: Word)
    requires Graphic(cell)
    ensures Graphic(c)
  {
    33 + (if cell < 80 then Unxlat2Low(cell - 33) else Unxlat2High(cell - 80))
  }

  lemma UncipherLow(i: nat)
    requires i < 47
    ensures Uncipher(Xlat2Low(i) as int) == 33 + i
  {
  }

  lemma UncipherMid(i: nat)
    requires i < 24
    ensures Uncipher(Xlat2High(i) as int) == 80 + i
  {
  }

  lemma UncipherHigh(i: nat)
    requires 24 <= i < 47
    ensures Uncipher(Xlat2High(i) as int) == 80 + i
  {
  }

  /** The self-cipher permutes the printable cells: no two generations of different cells ever meet. */
  lemma CipherInverse(cell: int)
    requires Graphic(cell)
    ensures Uncipher(Cipher(cell)) == cell
  {
    hide Xlat2Low, Xlat2High, Uncipher;
    if cell < 80 {
      UncipherLow(cell - 33);
    } else if cell < 104 {
      UncipherMid(cell - 80);
    } else {
      UncipherHigh(cell - 80);
    }
  }

  /** A cell after n executions. */
  function Generation(cell: int, n: nat): (c: int)
    requires Graphic(cell)
    ensures Graphic(c)
  {
    if n == 0 then cell else Cipher(Generation(cell, n - 1))
  }

  lemma {:induction false} GenerationShift(cell: int, n: nat)
    requires Graphic(cell)
    ensures Generation(Cipher(cell), n) == Generation(cell, n + 1)
    decreases n
  {
    hide Cipher;
    if n > 0 {
      GenerationShift(cell, n - 1);
    }
  }

  lemma {:induction false} GenerationsApart(a: int, b: int, n: nat)
    requires Graphic(a) && Graphic(b)
    ensures Generation(a, n) == Generation(b, n) <==> a == b
    decreases n
  {
    hide Cipher, Uncipher;
    if n > 0 {
      GenerationsApart(a, b, n - 1);
      CipherInverse(Generation(a, n - 1));
      CipherInverse(Generation(b, n - 1));
    }
  }

  // ----- the decoding table is not quite a permutation -----

  function Unxlat1Low(i: nat): (r: nat)
    requires i < 47
    ensures r < 94
  {
    match i
    case 0 => 81 case 1 => 44 case 2 => 21 case 3 => 80 case 4 => 49 case 5 => 19 case 6 => 69 case 7 => 2
    case 8 => 17 case 9 => 6 case 10 => 0 case 11 => 39 case 12 => 57 case 13 => 0 case 14 => 84 case 15 => 30
    case 16 => 8 case 17 => 3 case 18 => 64 case 19 => 54 case 20 => 61 case 21 => 90 case 22 => 38 case 23 => 18
    case 24 => 4 case 25 => 87 case 26 => 70 case 27 => 66 case 28 => 58 case 29 => 24 case 30 => 67 case 31 => 60
    case 32 => 43 case 33 => 82 case 34 => 15 case 35 => 37 case 36 => 11 case 37 => 71 case 38 => 55 case 39 => 92
    case 40 => 46 case 41 => 52 case 42 => 12 case 43 => 13 case 44 => 10 case 45 => 72 case _ => 59
  }

  function Unxlat1High(i: nat): (r: nat)
    requires i < 47
    ensures r < 94
  {
    match i
    case 0 => 88 case 1 => 73 case 2 => 28 case 3 => 83 case 4 => 41 case 5 => 34 case 6 => 9 case 7 => 23
    case 8 => 40 case 9 => 75 case 10 => 68 case 11 => 36 case 12 => 47 case 13 => 76 case 14 => 91 case 15 => 63
    case 16 => 62 case 17 => 93 case 18 => 1 case 19 => 42 case 20 => 27 case 21 => 5 case 22 => 79 case 23 => 51
    case 24 => 53 case 25 => 65 case 26 => 7 case 27 => 32 case 28 => 45 case 29 => 20 case 30 => 89 case 31 => 35
    case 32 => 29 case 33 => 25 case 34 => 33 case 35 => 77 case 36 => 86 case 37 => 74 case 38 => 48 case 39 => 31
    case 40 => 26 case 41 => 14 case 42 => 78 case 43 => 50 case 44 => 85 case 45 => 16 case _ => 22
  }

  /** The first index of a printable character in the decoding table (0 for the full stop, which has none). */
  function FirstIndex(c: char): nat
    requires '!' <= c <= '~'
  {
    if (c as int) < 80 then Unxlat1Low(c as int - 33) else Unxlat1High(c as int - 80)
  }

  lemma FirstIndexLow(i: nat)
    requires i < 47
    ensures FirstIndex(Xlat1Low(i)) == i && Xlat1Low(i) != '.' && Xlat1Low(i) != '\\'
  {
  }

  lemma FirstIndexMid(i: nat)
    requires i < 24
    ensures FirstIndex(Xlat1High(i)) == (if i == 9 then 47 else i + 47) && Xlat1High(i) != '.'
    ensures Xlat1High(i) == '\\' <==> i == 0 || i == 9
  {
  }

  lemma FirstIndexHigh(i: nat)
    requires 24 <= i < 47
    ensures FirstIndex(Xlat1High(i)) == i + 47 && Xlat1High(i) != '.' && Xlat1High(i) != '\\'
  {
  }

  /** Two entries agree only at 47 and 56, both a backslash; no entry is a full stop. */
  lemma DecodeTableRepeats(i: nat, j: nat)
    requires i < 94 && j < 94
    ensures Xlat1(i) == Xlat1(j) <==> i == j || (i == 47 && j == 56) || (i == 56 && j == 47)
    ensures Xlat1(i) == '\\' <==> i == 47 || i == 56
    ensures Xlat1(i) != '.'
  {
    hide FirstIndex, Xlat1;
    IndexOf(i);
    IndexOf(j);
  }

  lemma IndexOf(i: nat)
    requires i < 94
    ensures FirstIndex(Xlat1(i)) == (if i == 56 then 47 else i) && Xlat1(i) != '.'
    ensures Xlat1(i) == '\\' <==> i == 47 || i == 56
  {
    hide FirstIndex, Xlat1Low, Xlat1High;
    if i < 47 {
      FirstIndexLow(i);
    } else if i < 71 {
      FirstIndexMid(i - 47);
    } else {
      FirstIndexHigh(i - 47);
    }
  }

  lemma OccursLow(c: char)
    requires '!' <= c <= 'O' && c != '.'
    ensures FirstIndex(c) < 94 && Xlat1(FirstIndex(c)) == c
  {
  }

  lemma OccursHigh(c: char)
    requires 'P' <= c <= '~'
    ensures FirstIndex(c) < 94 && Xlat1(FirstIndex(c)) == c
  {
  }

  /** The encoder knows exactly the printable characters but the full stop. */
  lemma EncodesExactly(op: char, address: nat)
    ensures EncodeOp(op, address).Some? <==> '!' <= op <= '~' && op != '.'
  {
    hide Xlat1, FirstIndex, FindOp;
    if '!' <= op <= '~' && op != '.' {
      if op <= 'O' {
        OccursLow(op);
      } else {
        OccursHigh(op);
      }
    } else {
      forall i: nat | i < 94
        ensures Xlat1(i) != op
      {
        IndexOf(i);
      }
    }
  }
}
