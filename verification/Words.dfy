/**
 Ten-trit words and the two ternary primitives of the machine: the tritwise
 "crazy" operation and the one-trit right rotation.  Everything tritwise is
 stated for an arbitrary width; the machine uses width 10.
 */
module Words {

  const WORD_MOD: nat := 59049
  const TRITS: nat := 10
  const POW3_9: nat := 19683

  type Trit = t: nat | t < 3
  type Word = w: nat | w < 59049

  datatype Option<+T> = None | Some(value: T)

  function ModWord(x: int): Word {
    x % WORD_MOD
  }

  function Pow3(w: nat): (p: nat)
    ensures p >= 1
  {
    if w == 0 then 1 else 3 * Pow3(w - 1)
  }

  lemma PowTen()
    ensures Pow3(TRITS) == WORD_MOD
  {
    assert Pow3(5) == 243;
    assert Pow3(TRITS) == 243 * Pow3(5);
  }

  /** Row D-trit, column A-trit. */
  function Table(d: Trit, a: Trit): Trit {
    if d == 0 then (if a == 0 then 1 else 0)
    else if d == 1 then (if a == 0 then 1 else if a == 1 then 0 else 2)
    else (if a == 2 then 1 else 2)
  }

  // ----- trit sequences, least significant trit first -----

  function ToTrits(value: nat, width: nat): (ts: seq<Trit>)
    ensures |ts| == width
  {
    if width == 0 then [] else [value % 3] + ToTrits(value / 3, width - 1)
  }

  function FromTrits(ts: seq<Trit>): nat {
    if ts == [] then 0 else ts[0] + 3 * FromTrits(ts[1..])
  }

  lemma {:induction false} FromTritsBound(ts: seq<Trit>)
    ensures FromTrits(ts) < Pow3(|ts|)
  {
    if ts != [] {
      FromTritsBound(ts[1..]);
    }
  }

  /** Reading off the trits of a value and reassembling them is the identity below 3^width. */
  lemma {:induction false} TritsRoundTrip(value: nat, width: nat)
    requires value < Pow3(width)
    ensures FromTrits(ToTrits(value, width)) == value
  {
    if width > 0 {
      TritsRoundTrip(value / 3, width - 1);
      assert ToTrits(value, width)[1..] == ToTrits(value / 3, width - 1);
    }
  }

  /** Conversely, every trit sequence is the expansion of the number it denotes. */
  lemma {:induction false} TritsRoundTripBack(ts: seq<Trit>)
    ensures ToTrits(FromTrits(ts), |ts|) == ts
  {
    if ts != [] {
      TritsRoundTripBack(ts[1..]);
      var v := FromTrits(ts);
      assert v % 3 == ts[0] && v / 3 == FromTrits(ts[1..]);
      assert ToTrits(v, |ts|) == [ts[0]] + ts[1..];
    }
  }

  // ----- the crazy operation -----

  function CrazyW(a: nat, d: nat, width: nat): nat {
    if width == 0 then 0
    else Table(d % 3, a % 3) + 3 * CrazyW(a / 3, d / 3, width - 1)
  }

  lemma {:induction false} CrazyBound(a: nat, d: nat, width: nat)
    ensures CrazyW(a, d, width) < Pow3(width)
  {
    if width > 0 {
      CrazyBound(a / 3, d / 3, width - 1);
    }
  }

  function Crazy(a: Word, d: Word): (r: Word) {
    CrazyBound(a, d, TRITS);
    PowTen();
    CrazyW(a, d, TRITS)
  }

  lemma TableIs(d: Trit, a: Trit)
    ensures Table(d, a) == [[1, 0, 0], [1, 0, 2], [2, 2, 1]][d][a]
  {
  }

  /** Trit i of the result depends on trit i of the operands only, through the table. */
  lemma {:induction false} CrazyTrits(a: nat, d: nat, width: nat, i: nat)
    requires i < width
    ensures ToTrits(CrazyW(a, d, width), width)[i]
         == [[1, 0, 0], [1, 0, 2], [2, 2, 1]][ToTrits(d, width)[i]][ToTrits(a, width)[i]]
  {
    TableIs(d % 3, a % 3);
    var r := CrazyW(a, d, width);
    assert r % 3 == Table(d % 3, a % 3) && r / 3 == CrazyW(a / 3, d / 3, width - 1);
    if i > 0 {
      CrazyTrits(a / 3, d / 3, width - 1, i - 1);
    }
  }

  /** The runtime's loop: peel trits off both operands, accumulate place by place. */
  method CrazyLoop(a0: Word, d0: Word) returns (out: nat)
    ensures out == Crazy(a0, d0)
  {
    var a: nat, d: nat, place := a0, d0, 1;
    out := 0;
    for i := 0 to TRITS
      invariant place == Pow3(i)
      invariant out + place * CrazyW(a, d, TRITS - i) == CrazyW(a0, d0, TRITS)
    {
      var t := Table(d % 3, a % 3);
      CrazyStep(place, t, CrazyW(a / 3, d / 3, TRITS - i - 1));
      out := out + t * place;
      a, d, place := a / 3, d / 3, place * 3;
    }
  }

  lemma CrazyStep(place: nat, t: nat, rest: nat)
    ensures place * (t + 3 * rest) == t * place + (place * 3) * rest
  {
  }

  // ----- rotation -----

  function RotateRight(x: Word): Word {
    x / 3 + (x % 3) * POW3_9
  }

  /** Rotation at an arbitrary width; the machine's is the one at width 10. */
  function RotateW(x: nat, width: nat): nat
    requires width > 0
  {
    x / 3 + (x % 3) * Pow3(width - 1)
  }

  lemma RotateIsWidthTen(x: Word)
    ensures RotateRight(x) == RotateW(x, TRITS)
  {
    assert Pow3(9) == POW3_9 by { assert Pow3(5) == 243; assert Pow3(9) == 81 * Pow3(5); }
  }

  lemma {:induction false} ToTritsAppend(low: nat, top: Trit, width: nat)
    requires low < Pow3(width)
    ensures ToTrits(low + top * Pow3(width), width + 1) == ToTrits(low, width) + [top]
  {
    if width == 0 {
      assert ToTrits(top, 1) == [top] + ToTrits(top / 3, 0);
    } else {
      var v := low + top * Pow3(width);
      var p := Pow3(width - 1);
      assert top * (3 * p) == 3 * (top * p);
      assert v == low + 3 * (top * p);
      assert v % 3 == low % 3 && v / 3 == low / 3 + top * p;
      ToTritsAppend(low / 3, top, width - 1);
      assert ToTrits(v, width + 1) == [low % 3] + (ToTrits(low / 3, width - 1) + [top]);
    }
  }

  lemma TimesTrit(t: Trit, p: nat)
    ensures t * p <= 2 * p
  {
  }

  /** Rotation moves the lowest trit to the top and shifts the others down by one. */
  lemma RotateTrits(x: nat, width: nat)
    requires width > 0 && x < Pow3(width)
    ensures RotateW(x, width) < Pow3(width)
    ensures ToTrits(RotateW(x, width), width) == ToTrits(x, width)[1..] + [x % 3]
  {
    var p, t: Trit := Pow3(width - 1), x % 3;
    TimesTrit(t, p);
    ToTritsAppend(x / 3, t, width - 1);
    assert ToTrits(x, width)[1..] == ToTrits(x / 3, width - 1);
  }

  function RotateTimes(x: nat, width: nat, n: nat): nat
    requires width > 0
  {
    if n == 0 then x else RotateW(RotateTimes(x, width, n - 1), width)
  }

  /** As many rotations as there are trits restore the word. */
  lemma RotateFullCircle(x: nat, width: nat)
    requires width > 0 && x < Pow3(width)
    ensures RotateTimes(x, width, width) == x
  {
    var ts := ToTrits(x, width);
    var y, i := x, 0;
    while i < width
      invariant i <= width && y == RotateTimes(x, width, i) && y < Pow3(width)
      invariant ToTrits(y, width) == ts[i..] + ts[..i]
    {
      RotateTrits(y, width);
      var zs := ToTrits(y, width);
      assert zs[0] == y % 3 == ts[i];
      assert zs[1..] + [zs[0]] == ts[i + 1..] + ts[..i + 1];
      y := RotateW(y, width);
      i := i + 1;
    }
    TritsRoundTrip(x, width);
    TritsRoundTrip(y, width);
    assert ts[width..] + ts[..width] == ts;
  }

  // ----- the machine's rotation -----

  /** The machine's rotation moves the lowest of ten trits to the top and keeps the others in order. */
  lemma MachineRotates(x: Word)
    ensures ToTrits(RotateRight(x), TRITS) == ToTrits(x, TRITS)[1..] + [x % 3]
  {
    hide ToTrits, RotateRight, RotateW;
    PowTen();
    RotateIsWidthTen(x);
    RotateTrits(x, TRITS);
  }

  function Rotations(x: Word, n: nat): Word {
    if n == 0 then x else RotateRight(Rotations(x, n - 1))
  }

  lemma {:induction false} RotationsAreWidthTen(x: Word, n: nat)
    ensures Rotations(x, n) == RotateTimes(x, TRITS, n)
  {
    hide RotateRight, RotateW;
    if n > 0 {
      RotationsAreWidthTen(x, n - 1);
      RotateIsWidthTen(Rotations(x, n - 1));
    }
  }

  /** Ten `*` on one cell restore it. */
  lemma TenRotations(x: Word)
    ensures Rotations(x, TRITS) == x
  {
    hide RotateRight, RotateW, Rotations, RotateTimes;
    PowTen();
    RotationsAreWidthTen(x, TRITS);
    RotateFullCircle(x, TRITS);
  }
}
