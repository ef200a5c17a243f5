/**
 Decimal printing with file offsets as the only arithmetic: ladders of bounded
 reads find each digit, and the unread rest is copied to the other scratch file.
 Host calls succeed; a file is its size, an open descriptor an offset.
 */
module Decimal {
  import opened Machine

  const SCRATCH: nat := 8192
  const ZERO: Byte := 48

  function Pow10(k: nat): (p: nat)
    ensures p > 0
  {
    if k == 0 then 1 else 10 * Pow10(k - 1)
  }

  function Min(a: nat, b: nat): nat {
    if a < b then a else b
  }

  /** The digits of n, most significant first, none for zero. */
  function Digits(n: nat): seq<Byte> {
    if n == 0 then [] else Digits(n / 10) + [ZERO + n % 10]
  }

  /** Canonical decimal: no leading zeros, "0" for zero. */
  function Canonical(n: nat): seq<Byte> {
    if n == 0 then [ZERO] else Digits(n)
  }

  function ValueOf(s: seq<Byte>): int {
    if s == [] then 0 else 10 * ValueOf(s[..|s| - 1]) + (s[|s| - 1] as int - ZERO as int)
  }

  lemma {:induction false} DigitsReadBack(n: nat)
    requires n > 0
    ensures ValueOf(Digits(n)) == n && Digits(n) != [] && Digits(n)[0] != 48
    ensures forall i :: 0 <= i < |Digits(n)| ==> 48 <= Digits(n)[i] <= 57
  {
    var front, s := Digits(n / 10), Digits(n);
    assert s[..|s| - 1] == front;
    if n >= 10 {
      DigitsReadBack(n / 10);
    }
  }

  /** Canonical decimals read back, so no two numbers print alike; and only zero starts with a zero. */
  lemma CanonicalReadsBack(n: nat)
    ensures ValueOf(Canonical(n)) == n
    ensures Canonical(n) != [] && (n > 0 ==> Canonical(n)[0] != 48)
    ensures forall i :: 0 <= i < |Canonical(n)| ==> 48 <= Canonical(n)[i] <= 57
  {
    hide Digits;
    if n > 0 {
      DigitsReadBack(n);
    } else {
      assert Canonical(n)[..0] == [];
    }
  }

  // ----- what the ladders compute -----

  function TopDigit(k: nat, size: nat): (d: nat)
    requires k > 0
    ensures d <= 9 && d * Pow10(k - 1) <= size
    ensures size < Pow10(k) ==> size - d * Pow10(k - 1) < Pow10(k - 1)
  {
    NextPower(k);
    DigitBounds(Pow10(k - 1), size);
    Min(9, size / Pow10(k - 1))
  }

  lemma DigitBounds(p: nat, size: nat)
    requires p > 0
    ensures Min(9, size / p) * p <= size && (size < 10 * p ==> size - Min(9, size / p) * p < p)
  {
    var q := size / p;
    DivideSplit(size, p);
    Below(q, 10, p);
    Below(9, q, p);
  }

  lemma DivideSplit(size: nat, p: nat)
    requires p > 0
    ensures size == (size / p) * p + size % p
  {
  }

  /** The number k positions print for a file of this size: digits saturate at nine, the carry at the transfer size. */
  function Laddered(k: nat, size: nat): nat {
    if k == 0 then 0 else TopDigit(k, size) * Pow10(k - 1) + Laddered(k - 1, Carried(k, size))
  }

  function Rest(k: nat, size: nat): nat
    requires k > 0
  {
    size - TopDigit(k, size) * Pow10(k - 1)
  }

  function Carried(k: nat, size: nat): nat
    requires k > 0
  {
    Min(SCRATCH, Rest(k, size))
  }

  lemma {:induction false} LadderedBound(k: nat, size: nat)
    ensures Laddered(k, size) < Pow10(k) && Laddered(k, size) <= size
  {
    hide Pow10, TopDigit;
    if k == 0 {
      ZeroPower();
    } else {
      var d, p := TopDigit(k, size), Pow10(k - 1);
      LadderedBound(k - 1, Carried(k, size));
      Below(d, 10, p);
      NextPower(k);
    }
  }

  lemma ZeroPower()
    ensures Pow10(0) == 1
  {
  }

  lemma NextPower(k: nat)
    requires k > 0
    ensures Pow10(k) == 10 * Pow10(k - 1)
  {
  }

  /** Which values the ladders get right: those of at most k digits whose first remainder survives one transfer. */
  lemma {:induction false} LadderedExactly(k: nat, value: nat)
    requires k > 0
    ensures Laddered(k, value) == value <==> value < Pow10(k) && (k > 1 ==> Rest(k, value) <= 8192)
  {
    hide Pow10, TopDigit;
    LadderedBound(k, value);
    LadderedBound(k - 1, Carried(k, value));
    if k == 1 {
      ZeroPower();
      assert value < Pow10(1) ==> Rest(1, value) == 0;
    } else if value < Pow10(k) && Rest(k, value) <= SCRATCH {
      var rest := Rest(k, value);
      LadderedExactly(k - 1, rest);
      RestFits(k - 1, rest);
    }
  }

  lemma RestFits(k: nat, rest: nat)
    requires k > 0 && rest <= SCRATCH
    ensures Rest(k, rest) <= SCRATCH
  {
    hide Pow10, TopDigit;
  }

  /** At the shipped four positions every value below ten thousand qualifies. */
  lemma FourPositions(value: nat)
    ensures Laddered(4, value) == value <==> value < 10000
  {
    LadderedExactly(4, value);
    assert Pow10(1) == 10 && Pow10(2) == 100 && Pow10(3) == 1000 && Pow10(4) == 10000;
  }

  /** Five positions would not be enough room: a concrete value that comes out wrong. */
  lemma FivePositionsClip()
    ensures 9000 < Pow10(5) && Laddered(5, 9000) == 8192
  {
    assert Pow10(1) == 10 && Pow10(2) == 100 && Pow10(3) == 1000 && Pow10(4) == 10000 && Pow10(5) == 100000;
    assert TopDigit(5, 9000) == 0;
    FourPositions(8192);
  }

  /**
   The routine prints a value correctly exactly when it has at most k digits and its first
   remainder fits one transfer.
   */
  lemma PrintsExactly(k: nat, value: nat)
    requires k > 0
    ensures Canonical(Laddered(k, value)) == Canonical(value)
            <==> value < Pow10(k) && (k > 1 ==> Rest(k, value) <= 8192)
  {
    hide Laddered, Canonical, Rest, Pow10;
    CanonicalReadsBack(value);
    CanonicalReadsBack(Laddered(k, value));
    LadderedExactly(k, value);
  }

  /** A position splits the value: the digit is the quotient, the carried file's size the remainder. */
  lemma CarriesRemainder(k: nat, value: nat)
    requires k > 0 && value < Pow10(k) && Rest(k, value) <= SCRATCH
    ensures TopDigit(k, value) == value / Pow10(k - 1) && Carried(k, value) == value % Pow10(k - 1)
  {
    hide Pow10;
    var p := Pow10(k - 1);
    var q, r := value / p, value % p;
    assert value == q * p + r;
    NextPower(k);
    Below(9, q, p);
  }

  // ----- the program -----

  class Printer {
    var sizes: seq<nat>
    var offset: nat
    var leading: bool
    var out: seq<Byte>
    ghost var widest: nat

    ghost predicate Valid()
      reads this
    {
      |sizes| == 2
    }

    constructor ()
      ensures Valid() && out == [] && widest == 0
    {
      sizes, offset, leading, out, widest := [0, 0], 0, true, [], 0;
    }

    method OpenForReading(f: nat)
      modifies this`offset
      ensures offset == 0
    {
      offset := 0;
    }

    /** At most `count` bytes from the offset on; the scratch buffer receives them. */
    method Read(f: nat, count: nat) returns (got: nat)
      requires Valid() && f < 2 && offset <= sizes[f]
      modifies this`offset, this`widest
      ensures got == Min(count, sizes[f] - old(offset)) && offset == old(offset) + got
      ensures widest == if got > old(widest) then got else old(widest)
    {
      got := Min(count, sizes[f] - offset);
      offset := offset + got;
      widest := if got > widest then got else widest;
    }

    /** Truncate, then write. */
    method Rewrite(f: nat, count: nat)
      requires Valid() && f < 2
      modifies this`sizes
      ensures Valid() && sizes == old(sizes)[f := count]
    {
      sizes := sizes[f := 0];
      sizes := sizes[f := sizes[f] + count];
    }

    /** Nine rungs of read(p - 1), read(1); the first rung that finds nothing is the digit. */
    method Ladder(f: nat, k: nat) returns (digit: nat)
      requires Valid() && f < 2 && k > 0
      modifies this`offset, this`widest
      ensures digit == TopDigit(k, sizes[f])
      ensures widest <= old(widest) || widest <= sizes[f]
    {
      var p := Pow10(k - 1);
      OpenForReading(f);
      digit := 0;
      while digit < 9
        invariant digit <= 9 && offset == digit * p <= sizes[f]
        invariant widest <= old(widest) || widest <= sizes[f]
      {
        var skipped := Read(f, p - 1);
        var one := Read(f, 1);
        if one == 0 {
          RungFails(digit, p, sizes[f]);
          return;
        }
        digit := digit + 1;
      }
      NineRungs(p, sizes[f]);
    }

    /** A digit, unless it is a zero in front of the number. */
    method PrintDigit(digit: nat, ghost before: seq<Byte>, ghost n: nat)
      requires digit <= 9 && out == before + Digits(n) && (leading <==> n == 0)
      modifies this`leading, this`out
      ensures out == before + Digits(10 * n + digit) && (leading <==> 10 * n + digit == 0)
    {
      if digit == 0 {
        if !leading {
          out := out + [ZERO];
        }
      } else {
        leading := false;
        out := out + [ZERO + digit];
      }
      assert (10 * n + digit) / 10 == n && (10 * n + digit) % 10 == digit;
    }

    /** Reopen, skip digit * p bytes, copy what one transfer delivers to the other file. */
    method Carry(f: nat, g: nat, digit: nat, k: nat)
      requires Valid() && f < 2 && g < 2 && f != g && k > 0 && digit == TopDigit(k, sizes[f])
      modifies this`offset, this`widest, this`sizes
      ensures Valid() && sizes == old(sizes)[g := Carried(k, old(sizes)[f])]
      ensures widest <= old(widest) || widest <= old(sizes)[f]
    {
      OpenForReading(f);
      var skipped := Read(f, digit * Pow10(k - 1));
      var rest := Read(f, SCRATCH);
      Rewrite(g, rest);
    }

    /** The whole routine for k positions. */
    method Print(value: nat, positions: nat)
      requires Valid() && positions > 0 && widest == 0
      modifies this
      ensures Valid() && out == old(out) + Canonical(Laddered(positions, value))
      ensures widest <= value
    {
      hide Pow10, TopDigit, Laddered, Digits, Goal, Carried;
      Starts(positions, value);
      ghost var before := out;
      ghost var n: nat := 0;
      leading := true;
      Rewrite(0, value);
      var f, k := 0, positions;
      while k > 0
        invariant k <= positions && f < 2 && Valid() && sizes[f] <= value
        invariant out == before + Digits(n) && (leading <==> n == 0)
        invariant Goal(n, k, sizes[f]) == Laddered(positions, value)
        invariant widest <= value
      {
        var digit := Ladder(f, k);
        PrintDigit(digit, before, n);
        NextPosition(n, k, digit, sizes[f]);
        if k > 1 {
          Carry(f, 1 - f, digit, k);
          f := 1 - f;
        }
        n := 10 * n + digit;
        k := k - 1;
      }
      Finishes(n, sizes[f]);
      if leading {
        out := out + [ZERO];
      }
    }
  }

  /** Printed so far, and still to come. */
  function Goal(n: nat, k: nat, size: nat): nat {
    n * Pow10(k) + Laddered(k, size)
  }

  lemma Starts(k: nat, value: nat)
    ensures Digits(0) == [] && Goal(0, k, value) == Laddered(k, value)
  {
  }

  lemma Finishes(n: nat, size: nat)
    ensures Goal(n, 0, size) == n
  {
    assert Pow10(0) == 1;
  }

  lemma NextPosition(n: nat, k: nat, digit: nat, size: nat)
    requires k > 0 && digit == TopDigit(k, size)
    ensures Goal(n, k, size) == Goal(10 * n + digit, k - 1, Carried(k, size)) && Carried(k, size) <= size
    ensures k == 1 ==> Goal(10 * n + digit, 0, size) == Goal(n, k, size)
  {
    hide TopDigit;
    var p := Pow10(k - 1);
    Distribute(10 * n, digit, p);
    assert n * (10 * p) == 10 * n * p;
  }

  lemma RungFails(digit: nat, p: nat, size: nat)
    requires p > 0 && digit < 9 && digit * p <= size && size - digit * p < p
    ensures Min(9, size / p) == digit
  {
    DivideUnique(size, p, digit);
  }

  lemma DivideUnique(size: nat, p: nat, q: nat)
    requires p > 0 && q * p <= size < (q + 1) * p
    ensures size / p == q
  {
    var r := size / p;
    assert size == r * p + size % p;
    Below(r, q, p);
    Below(q, r, p);
  }

  lemma Below(a: nat, b: nat, p: nat)
    ensures a < b ==> a * p + p <= b * p
  {
    if a < b {
      var c := b - a - 1;
      assert b == a + 1 + c;
      Distribute(a, 1 + c, p);
      Distribute(1, c, p);
    }
  }

  lemma Distribute(a: nat, b: nat, p: nat)
    ensures (a + b) * p == a * p + b * p
  {
  }

  lemma NineRungs(p: nat, size: nat)
    requires p > 0 && 9 * p <= size
    ensures Min(9, size / p) == 9
  {
    var r := size / p;
    assert size == r * p + size % p;
    Below(r, 9, p);
  }
}
