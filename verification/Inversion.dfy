/**
 Inverting the crazy operation: all masks that rewrite one word into another,
 the least seed that drives the accumulator to a target, and one- or two-step
 seed chains.  Stated for words of any width; the planner uses width 10.
 */
module Inversion {
  import opened Words

  // ----- masks: which A makes crazy(A, source) equal target -----

  /** The accumulator trits that turn data trit d into t, in increasing order. */
  function MaskOptions(d: Trit, t: Trit): (r: seq<Trit>)
    ensures forall a: Trit :: a in r <==> Table(d, a) == t
    ensures Distinct(r)
  {
    (if Table(d, 0) == t then [0] else []) + (if Table(d, 1) == t then [1] else [])
      + (if Table(d, 2) == t then [2] else [])
  }

  /** Per position, lowest first, the mask trits that turn the source trit into the target trit. */
  function Choices(source: nat, target: nat, width: nat): (r: seq<seq<Trit>>)
    ensures |r| == width
  {
    if width == 0 then []
    else [MaskOptions(source % 3, target % 3)] + Choices(source / 3, target / 3, width - 1)
  }

  predicate Possible(choices: seq<seq<Trit>>) {
    forall k :: 0 <= k < |choices| ==> choices[k] != []
  }

  function CountProduct(choices: seq<seq<Trit>>): nat {
    if choices == [] then 1 else |choices[0]| * CountProduct(choices[1..])
  }

  function MaskCount(source: nat, target: nat, width: nat): nat {
    var choices := Choices(source, target, width);
    if Possible(choices) then CountProduct(choices) else 0
  }

  function Prefixed(heads: seq<Trit>, tails: seq<seq<Trit>>): (r: seq<seq<Trit>>)
    ensures |r| == |heads| * |tails|
    ensures forall c :: c in r <==> c != [] && c[0] in heads && c[1..] in tails
  {
    if heads == [] then []
    else
      var first := seq(|tails|, i requires 0 <= i < |tails| => [heads[0]] + tails[i]);
      PrefixOne(heads[0], tails, first);
      var r := first + Prefixed(heads[1..], tails);
      r
  }

  lemma PrefixOne(h: Trit, tails: seq<seq<Trit>>, first: seq<seq<Trit>>)
    requires |first| == |tails| && forall i :: 0 <= i < |tails| ==> first[i] == [h] + tails[i]
    ensures forall c :: c in first <==> c != [] && c[0] == h && c[1..] in tails
  {
    forall c | c != [] && c[0] == h && c[1..] in tails
      ensures c in first
    {
      var i :| 0 <= i < |tails| && tails[i] == c[1..];
      assert first[i] == c;
    }
  }

  /** The cartesian product of the choices. */
  function Product(choices: seq<seq<Trit>>): seq<seq<Trit>> {
    if choices == [] then [[]] else Prefixed(choices[0], Product(choices[1..]))
  }

  function Insert(x: nat, s: seq<nat>): seq<nat> {
    if s == [] || x <= s[0] then [x] + s else [s[0]] + Insert(x, s[1..])
  }

  function Sort(s: seq<nat>): seq<nat> {
    if s == [] then [] else Insert(s[0], Sort(s[1..]))
  }

  function Values(combos: seq<seq<Trit>>): (r: seq<nat>)
    ensures |r| == |combos|
  {
    if combos == [] then [] else [FromTrits(combos[0])] + Values(combos[1..])
  }

  /** All masks in increasing order, or none when some position is blocked. */
  function Masks(source: nat, target: nat, width: nat): seq<nat> {
    var choices := Choices(source, target, width);
    if Possible(choices) then Sort(Values(Product(choices))) else []
  }

  predicate Increasing(s: seq<nat>) {
    forall i, j :: 0 <= i < j < |s| ==> s[i] < s[j]
  }

  predicate Sorted(s: seq<nat>) {
    forall i, j :: 0 <= i < j < |s| ==> s[i] <= s[j]
  }

  predicate Distinct<T(==)>(s: seq<T>) {
    forall i, j :: 0 <= i < j < |s| ==> s[i] != s[j]
  }

  // ----- sorting -----

  lemma {:induction false} InsertMultiset(x: nat, s: seq<nat>)
    ensures multiset(Insert(x, s)) == multiset(s) + multiset{x}
  {
    if s == [] || x <= s[0] {
      assert multiset([x] + s) == multiset{x} + multiset(s);
    } else {
      InsertMultiset(x, s[1..]);
      assert s == [s[0]] + s[1..];
    }
  }

  lemma {:induction false} InsertSorted(x: nat, s: seq<nat>)
    requires Sorted(s)
    ensures Sorted(Insert(x, s))
  {
    if s != [] && x > s[0] {
      var rest := Insert(x, s[1..]);
      InsertSorted(x, s[1..]);
      InsertMultiset(x, s[1..]);
      forall k | 0 <= k < |rest|
        ensures s[0] <= rest[k]
      {
        assert rest[k] in multiset(rest);
        assert rest[k] == x || rest[k] in s[1..];
      }
    }
  }

  lemma {:induction false} SortSorted(s: seq<nat>)
    ensures Sorted(Sort(s)) && multiset(Sort(s)) == multiset(s)
  {
    if s != [] {
      SortSorted(s[1..]);
      InsertSorted(s[0], Sort(s[1..]));
      InsertMultiset(s[0], Sort(s[1..]));
      assert s == [s[0]] + s[1..];
    }
  }

  lemma SortedDistinctIncreasing(s: seq<nat>, t: seq<nat>)
    requires Sorted(t) && multiset(t) == multiset(s) && Distinct(s)
    ensures Increasing(t)
  {
    forall i, j | 0 <= i < j < |t|
      ensures t[i] < t[j]
    {
      if t[i] == t[j] {
        assert t == t[..i] + [t[i]] + t[i + 1..j] + [t[j]] + t[j + 1..];
        assert multiset(t)[t[i]] >= 2;
        DistinctMultiplicity(s, t[i]);
      }
    }
  }

  lemma {:induction false} DistinctMultiplicity(s: seq<nat>, x: nat)
    requires Distinct(s)
    ensures multiset(s)[x] <= 1
  {
    if s != [] {
      assert s == [s[0]] + s[1..];
      DistinctMultiplicity(s[1..], x);
      if x == s[0] {
        assert x !in s[1..];
      }
    }
  }

  // ----- exactness -----

  lemma {:induction false} ProductCount(choices: seq<seq<Trit>>)
    ensures |Product(choices)| == CountProduct(choices)
  {
    if choices != [] {
      ProductCount(choices[1..]);
    }
  }

  lemma {:induction false} PrefixedDistinct(heads: seq<Trit>, tails: seq<seq<Trit>>)
    requires Distinct(heads) && Distinct(tails)
    ensures Distinct(Prefixed(heads, tails))
  {
    if heads != [] {
      PrefixedDistinct(heads[1..], tails);
      var first := seq(|tails|, i requires 0 <= i < |tails| => [heads[0]] + tails[i]);
      var rest := Prefixed(heads[1..], tails);
      forall i, j | 0 <= i < j < |first|
        ensures first[i] != first[j]
      {
        assert first[i][1..] == tails[i] && first[j][1..] == tails[j];
      }
      forall i, j | 0 <= i < |first| && 0 <= j < |rest|
        ensures first[i] != rest[j]
      {
        assert rest[j] in rest && rest[j][0] in heads[1..];
        assert first[i][0] == heads[0];
      }
      assert Prefixed(heads, tails) == first + rest;
    }
  }

  lemma {:induction false} ProductDistinct(source: nat, target: nat, width: nat)
    ensures Distinct(Product(Choices(source, target, width)))
  {
    if width > 0 {
      ProductDistinct(source / 3, target / 3, width - 1);
      var choices := Choices(source, target, width);
      assert choices[1..] == Choices(source / 3, target / 3, width - 1);
      PrefixedDistinct(choices[0], Product(choices[1..]));
    }
  }

  /** A result is fixed by its lowest trit and the result one width down. */
  lemma CrazySplit(a: nat, d: nat, width: nat, target: nat)
    requires width > 0
    ensures CrazyW(a, d, width) == target <==>
              Table(d % 3, a % 3) == target % 3 && CrazyW(a / 3, d / 3, width - 1) == target / 3
  {
    hide Table;
    var low, high := Table(d % 3, a % 3), CrazyW(a / 3, d / 3, width - 1);
    assert (low + 3 * high) % 3 == low && (low + 3 * high) / 3 == high;
  }

  lemma FromTritsSplit(ts: seq<Trit>)
    requires ts != []
    ensures FromTrits(ts) % 3 == ts[0] && FromTrits(ts) / 3 == FromTrits(ts[1..])
  {
  }

  lemma ThirdBelow(x: nat, width: nat)
    requires width > 0
    ensures x < Pow3(width) <==> x / 3 < Pow3(width - 1)
  {
  }

  /** A trit sequence is in the product exactly when, read as a mask, it rewrites source to target. */
  lemma {:induction false} ProductExact(source: nat, target: nat, width: nat, combo: seq<Trit>)
    requires target < Pow3(width)
    ensures combo in Product(Choices(source, target, width)) <==>
              |combo| == width && CrazyW(FromTrits(combo), source, width) == target
  {
    if width > 0 && combo != [] {
      ThirdBelow(target, width);
      ProductExact(source / 3, target / 3, width - 1, combo[1..]);
      FromTritsSplit(combo);
      CrazySplit(FromTrits(combo), source, width, target);
      ProductStep(source, target, width, combo);
    }
  }

  lemma ProductStep(source: nat, target: nat, width: nat, combo: seq<Trit>)
    requires width > 0 && combo != []
    ensures combo in Product(Choices(source, target, width)) <==>
              Table(source % 3, combo[0]) == target % 3
                && combo[1..] in Product(Choices(source / 3, target / 3, width - 1))
  {
    hide Table, MaskOptions;
    var choices := Choices(source, target, width);
    assert choices[0] == MaskOptions(source % 3, target % 3);
    assert choices[1..] == Choices(source / 3, target / 3, width - 1);
  }

  lemma {:induction false} ValueOfMember(combos: seq<seq<Trit>>, c: seq<Trit>)
    requires c in combos
    ensures FromTrits(c) in Values(combos)
  {
    if c != combos[0] {
      assert combos == [combos[0]] + combos[1..];
      ValueOfMember(combos[1..], c);
    }
  }

  lemma {:induction false} MemberOfValue(combos: seq<seq<Trit>>, v: nat) returns (c: seq<Trit>)
    requires v in Values(combos)
    ensures c in combos && FromTrits(c) == v
  {
    if v == FromTrits(combos[0]) {
      c := combos[0];
    } else {
      c := MemberOfValue(combos[1..], v);
    }
  }

  /** Reading trits as numbers confuses no two combinations of one width. */
  lemma ValueInside(combos: seq<seq<Trit>>, width: nat, c: seq<Trit>)
    requires |c| == width && forall d :: d in combos ==> |d| == width
    ensures FromTrits(c) in Values(combos) ==> c in combos
  {
    TritsRoundTripBack(c);
    if FromTrits(c) in Values(combos) {
      var d := MemberOfValue(combos, FromTrits(c));
      TritsRoundTripBack(d);
    }
  }

  lemma {:induction false} ValuesDistinct(combos: seq<seq<Trit>>, width: nat)
    requires Distinct(combos) && forall c :: c in combos ==> |c| == width
    ensures Distinct(Values(combos))
  {
    if combos != [] {
      ValuesDistinct(combos[1..], width);
      assert combos[0] in combos;
      ValueInside(combos[1..], width, combos[0]);
    }
  }

  lemma ValuesExact(source: nat, target: nat, width: nat, m: nat)
    requires target < Pow3(width)
    ensures m in Values(Product(Choices(source, target, width))) <==>
              m < Pow3(width) && CrazyW(m, source, width) == target
  {
    var combos := Product(Choices(source, target, width));
    if m in Values(combos) {
      var c := MemberOfValue(combos, m);
      ProductExact(source, target, width, c);
      FromTritsBound(c);
    } else if m < Pow3(width) && CrazyW(m, source, width) == target {
      TritsRoundTrip(m, width);
      ProductExact(source, target, width, ToTrits(m, width));
      ValueOfMember(combos, ToTrits(m, width));
    }
  }

  lemma SortKeeps(s: seq<nat>, x: nat)
    ensures x in Sort(s) <==> x in s
    ensures |Sort(s)| == |s|
  {
    SortSorted(s);
    assert x in Sort(s) <==> x in multiset(Sort(s));
    assert |multiset(Sort(s))| == |Sort(s)| && |multiset(s)| == |s|;
  }

  /**
   Exact inversion: the mask list is exactly the masks that rewrite `source`
   into `target`, in strictly increasing order, and the mask count is its length.
   */
  lemma MasksExact(source: nat, target: nat, width: nat)
    requires target < Pow3(width)
    ensures Increasing(Masks(source, target, width))
    ensures forall m: nat :: m in Masks(source, target, width) <==>
                               m < Pow3(width) && CrazyW(m, source, width) == target
    ensures |Masks(source, target, width)| == MaskCount(source, target, width)
  {
    hide Pow3, CrazyW, Product, Values, Sort, Choices;
    var choices := Choices(source, target, width);
    var combos := Product(choices);
    var values := Values(combos);
    ProductDistinct(source, target, width);
    forall c | c in combos
      ensures |c| == width
    {
      ProductExact(source, target, width, c);
    }
    ValuesDistinct(combos, width);
    ProductCount(choices);
    SortSorted(values);
    SortedDistinctIncreasing(values, Sort(values));
    SortKeeps(values, 0);
    if !Possible(choices) {
      BlockedProduct(choices);
    }
    forall m: nat
      ensures m in Masks(source, target, width) <==> m < Pow3(width) && CrazyW(m, source, width) == target
    {
      ValuesExact(source, target, width, m);
      SortKeeps(values, m);
    }
  }

  lemma {:induction false} BlockedProduct(choices: seq<seq<Trit>>)
    requires !Possible(choices)
    ensures Product(choices) == []
  {
    var k :| 0 <= k < |choices| && choices[k] == [];
    if k > 0 {
      assert choices[1..][k - 1] == [];
      BlockedProduct(choices[1..]);
    }
  }

  // ----- the increment -----

  function Pow2(n: nat): nat {
    if n == 0 then 1 else 2 * Pow2(n - 1)
  }

  function TritsOtherThanOne(x: nat, width: nat): nat {
    if width == 0 then 0 else (if x % 3 == 1 then 0 else 1) + TritsOtherThanOne(x / 3, width - 1)
  }

  lemma OptionsTable(d: Trit, t: Trit)
    ensures |MaskOptions(d, t)|
         == if d == t then (if d == 1 then 1 else 2)
            else if (d == 0 && t == 2) || (d == 2 && t == 0) then 0
            else 1
  {
  }

  lemma {:induction false} SameTritsCount(x: nat, width: nat)
    ensures Possible(Choices(x, x, width))
    ensures CountProduct(Choices(x, x, width)) == Pow2(TritsOtherThanOne(x, width))
  {
    if width > 0 {
      SameTritsCount(x / 3, width - 1);
      OptionsTable(x % 3, x % 3);
      assert Choices(x, x, width)[1..] == Choices(x / 3, x / 3, width - 1);
    }
  }

  /**
   The increment x to x+1 is one rewrite away exactly when the lowest trit of
   x is not 2, and then it has 2^k masks, k being the number of trits other
   than 1 above the lowest.
   */
  lemma IncrementMasks(x: nat, width: nat)
    requires width > 0 && x < Pow3(width)
    ensures Masks(x, (x + 1) % Pow3(width), width) != [] <==> x % 3 != 2
    ensures x % 3 != 2 ==>
              MaskCount(x, (x + 1) % Pow3(width), width) == Pow2(TritsOtherThanOne(x / 3, width - 1))
  {
    hide Table, MaskOptions, Masks;
    var target := (x + 1) % Pow3(width);
    IncrementTarget(x, width);
    MasksExact(x, target, width);
    var choices := Choices(x, target, width);
    OptionsTable(x % 3, target % 3);
    assert choices[1..] == Choices(x / 3, target / 3, width - 1);
    if x % 3 != 2 {
      SameTritsCount(x / 3, width - 1);
      forall k | 0 <= k < width
        ensures choices[k] != []
      {
        if k > 0 {
          assert choices[k] == choices[1..][k - 1];
        }
      }
      Pow2Positive(TritsOtherThanOne(x / 3, width - 1));
    }
  }

  lemma IncrementTarget(x: nat, width: nat)
    requires width > 0 && x < Pow3(width)
    ensures var t := (x + 1) % Pow3(width);
            t < Pow3(width)
            && if x % 3 == 2 then t % 3 == 0 else t % 3 == x % 3 + 1 && t / 3 == x / 3
  {
    var n, p := Pow3(width), Pow3(width - 1);
    assert n == 3 * p;
    if x + 1 == n {
      SelfMod(n);
      assert x == 3 * (p - 1) + 2;
    } else {
      SmallMod(x + 1, n);
    }
  }

  lemma SmallMod(x: nat, n: nat)
    requires x < n
    ensures x % n == x
  {
  }

  lemma SelfMod(n: nat)
    requires n > 0
    ensures n % n == 0
  {
  }

  lemma Pow2Positive(n: nat)
    ensures Pow2(n) >= 1
  {
  }

  // ----- seeds: which D makes crazy(a, D) equal target -----

  /** The data trits that take accumulator trit a to t, in increasing order. */
  function SeedOptions(a: Trit, t: Trit): (r: seq<Trit>)
    ensures forall d: Trit :: d in r <==> Table(d, a) == t
  {
    (if Table(0, a) == t then [0] else []) + (if Table(1, a) == t then [1] else [])
      + (if Table(2, a) == t then [2] else [])
  }

  function SeedChoices(a: nat, target: nat, width: nat): (r: seq<seq<Trit>>)
    ensures |r| == width
  {
    if width == 0 then []
    else [SeedOptions(a % 3, target % 3)] + SeedChoices(a / 3, target / 3, width - 1)
  }

  function Least(options: seq<Trit>): (m: Trit)
    requires options != []
    ensures m in options && forall t :: t in options ==> m <= t
  {
    assert options == [options[0]] + options[1..];
    if |options| == 1 then options[0]
    else
      var rest := Least(options[1..]);
      if options[0] <= rest then options[0] else rest
  }

  function LeastEach(choices: seq<seq<Trit>>): seq<Trit>
    requires Possible(choices)
  {
    if choices == [] then [] else [Least(choices[0])] + LeastEach(choices[1..])
  }

  function SmallestSeed(a: nat, target: nat, width: nat): Option<nat> {
    var choices := SeedChoices(a, target, width);
    if Possible(choices) then Some(FromTrits(LeastEach(choices))) else None
  }

  ghost predicate IsSeed(s: nat, a: nat, target: nat, width: nat) {
    s < Pow3(width) && CrazyW(a, s, width) == target
  }

  lemma SeedSplit(s: nat, a: nat, target: nat, width: nat)
    requires width > 0 && target < Pow3(width)
    ensures IsSeed(s, a, target, width) <==>
              (s % 3) in SeedOptions(a % 3, target % 3) && IsSeed(s / 3, a / 3, target / 3, width - 1)
  {
    ThirdBelow(s, width);
    CrazySplit(a, s, width, target);
  }

  /** The numerically least seed exists exactly when any seed does. */
  lemma {:induction false} SmallestSeedLeast(a: nat, target: nat, width: nat)
    requires target < Pow3(width)
    ensures var r := SmallestSeed(a, target, width);
            (r.None? ==> forall s: nat :: !IsSeed(s, a, target, width))
            && (r.Some? ==> IsSeed(r.value, a, target, width)
                            && forall s: nat :: IsSeed(s, a, target, width) ==> r.value <= s)
  {
    hide SeedOptions, CrazyW, IsSeed;
    if width == 0 {
      SeedAtWidthZero(a, target);
    } else {
      var choices, rest := SeedChoices(a, target, width), SeedChoices(a / 3, target / 3, width - 1);
      assert choices[0] == SeedOptions(a % 3, target % 3) && choices[1..] == rest;
      ThirdBelow(target, width);
      SmallestSeedLeast(a / 3, target / 3, width - 1);
      PossibleSplit(choices);
      forall s: nat
        ensures IsSeed(s, a, target, width) <==> (s % 3) in choices[0] && IsSeed(s / 3, a / 3, target / 3, width - 1)
      {
        SeedSplit(s, a, target, width);
      }
      if Possible(choices) {
        var low, high := Least(choices[0]), SmallestSeed(a / 3, target / 3, width - 1).value;
        FromTritsSplit(LeastEach(choices));
        assert LeastEach(choices)[0] == low && LeastEach(choices)[1..] == LeastEach(rest);
        assert SmallestSeed(a, target, width).value % 3 == low && SmallestSeed(a, target, width).value / 3 == high;
      }
    }
  }

  lemma SeedAtWidthZero(a: nat, target: nat)
    requires target < Pow3(0)
    ensures SmallestSeed(a, target, 0) == Some(0)
    ensures IsSeed(0, a, target, 0)
  {
  }

  lemma PossibleSplit(choices: seq<seq<Trit>>)
    requires choices != []
    ensures Possible(choices) <==> choices[0] != [] && Possible(choices[1..])
  {
    if choices[0] != [] && Possible(choices[1..]) {
      forall k | 0 <= k < |choices|
        ensures choices[k] != []
      {
        assert k > 0 ==> choices[k] == choices[1..][k - 1];
      }
    }
  }

  // ----- chains -----

  datatype ChainStep = ChainStep(seed: nat, result: nat)

  function AllTwos(width: nat): (r: nat)
    ensures r < Pow3(width)
  {
    Pow3(width) - 1
  }

  /** One seed when one suffices, otherwise two through the all-twos word; None stands for the error. */
  function ChainToTarget(start: nat, target: nat, width: nat): Option<seq<ChainStep>> {
    match SmallestSeed(start, target, width)
    case Some(seed) => Some([ChainStep(seed, target)])
    case None =>
      match (SmallestSeed(start, AllTwos(width), width), SmallestSeed(AllTwos(width), target, width))
      case (Some(first), Some(second)) => Some([ChainStep(first, AllTwos(width)), ChainStep(second, target)])
      case _ => None
  }

  /** Feeding the seeds to the crazy operation one after the other. */
  function Drive(a: nat, steps: seq<ChainStep>, width: nat): nat
    decreases |steps|
  {
    if steps == [] then a else Drive(CrazyW(a, steps[0].seed, width), steps[1..], width)
  }

  lemma {:induction false} ReachAllTwos(a: nat, width: nat)
    ensures exists s: nat :: IsSeed(s, a, AllTwos(width), width)
  {
    if width == 0 {
      assert IsSeed(0, a, AllTwos(0), 0);
    } else {
      ReachAllTwos(a / 3, width - 1);
      var s: nat :| IsSeed(s, a / 3, AllTwos(width - 1), width - 1);
      var d: Trit := if a % 3 == 2 then 1 else 2;
      var t := d + 3 * s;
      assert t % 3 == d && t / 3 == s;
      assert IsSeed(t, a, AllTwos(width), width);
    }
  }

  lemma {:induction false} LeaveAllTwos(target: nat, width: nat)
    requires target < Pow3(width)
    ensures exists s: nat :: IsSeed(s, AllTwos(width), target, width)
  {
    if width == 0 {
      assert IsSeed(0, AllTwos(0), target, 0);
    } else {
      LeaveAllTwos(target / 3, width - 1);
      var s: nat :| IsSeed(s, AllTwos(width - 1), target / 3, width - 1);
      var d: Trit := if target % 3 == 0 then 0 else if target % 3 == 2 then 1 else 2;
      var t := d + 3 * s;
      assert t % 3 == d && t / 3 == s;
      assert AllTwos(width) % 3 == 2 && AllTwos(width) / 3 == AllTwos(width - 1);
      assert IsSeed(t, AllTwos(width), target, width);
    }
  }

  /**
   Chain totality: a chain always exists, it has one or two steps, it has one
   step exactly when a single seed suffices, its seeds drive the accumulator
   from `start` to `target`, and the recorded results are the intermediate words.
   */
  lemma ChainTotal(start: nat, target: nat, width: nat)
    requires target < Pow3(width)
    ensures ChainToTarget(start, target, width).Some?
    ensures var steps := ChainToTarget(start, target, width).value;
            1 <= |steps| <= 2
            && (|steps| == 1 <==> exists s: nat :: IsSeed(s, start, target, width))
            && Drive(start, steps, width) == target
            && (forall k :: 0 <= k < |steps| ==> steps[k].seed < Pow3(width)
                                                 && steps[k].result == Drive(start, steps[..k + 1], width))
  {
    hide CrazyW, Pow3, SmallestSeed;
    SmallestSeedLeast(start, target, width);
    SmallestSeedLeast(start, AllTwos(width), width);
    SmallestSeedLeast(AllTwos(width), target, width);
    ReachAllTwos(start, width);
    LeaveAllTwos(target, width);
    var steps := ChainToTarget(start, target, width).value;
    DriveOne(start, steps[0], width);
    assert steps[..1] == [steps[0]];
    if |steps| == 2 {
      DriveTwo(start, steps[0], steps[1], width);
      assert steps[..2] == steps == [steps[0], steps[1]];
    } else {
      assert steps == [steps[0]];
    }
  }

  lemma DriveOne(a: nat, s: ChainStep, width: nat)
    ensures Drive(a, [s], width) == CrazyW(a, s.seed, width)
  {
    assert [s][1..] == [];
  }

  lemma DriveTwo(a: nat, s: ChainStep, t: ChainStep, width: nat)
    ensures Drive(a, [s, t], width) == CrazyW(CrazyW(a, s.seed, width), t.seed, width)
  {
    assert [s, t][1..] == [t];
    DriveOne(CrazyW(a, s.seed, width), t, width);
  }

  /**
   Which chain: the numerically least seeds, straight to the target or through
   the word of all twos, which for ten trits is 59048.
   */
  lemma ChainSeeds(start: nat, target: nat)
    requires target < 59049
    ensures var r := ChainToTarget(start, target, 10);
            r.Some? && |r.value| in {1, 2}
            && (|r.value| == 1 ==> LeastSeed(r.value[0], start, target))
            && (|r.value| == 2 ==> LeastSeed(r.value[0], start, 59048) && LeastSeed(r.value[1], 59048, target))
  {
    PowTen();
    hide CrazyW, Pow3, SmallestSeed;
    ChainTotal(start, target, 10);
    SmallestSeedLeast(start, target, 10);
    SmallestSeedLeast(start, 59048, 10);
    SmallestSeedLeast(59048, target, 10);
  }

  /** The step's seed drives A from one word to the other, no smaller word does, and the step records the result. */
  ghost predicate LeastSeed(step: ChainStep, a: nat, target: nat) {
    step.result == target && IsSeed(step.seed, a, target, 10)
      && forall s: nat :: IsSeed(s, a, target, 10) ==> step.seed <= s
  }
}
