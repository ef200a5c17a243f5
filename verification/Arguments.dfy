/**
 The argument block the loader installs behind the image: count, vector and
 strings at fixed addresses from 58000 on.
 */
module Arguments {
  import opened Words
  import opened Frames
  import opened Machine

  const ABI_ARGV: nat := 58001
  const ABI_ARGVEC: nat := 58016
  const ABI_STRINGS: nat := 58100
  const ABI_MAX_ARGS: nat := 32

  /** The program arguments, without their terminating NULs. */
  type CText = s: seq<Byte> | 0 !in s
  type Arguments = seq<CText>

  /** At most 32 arguments are passed on. */
  function Clipped(argv: Arguments): (r: Arguments)
    ensures |r| <= ABI_MAX_ARGS && r <= argv
  {
    if |argv| <= ABI_MAX_ARGS then argv else argv[..ABI_MAX_ARGS]
  }

  function PutString(mem: seq<Word>, at: nat, s: CText): (r: seq<Word>)
    requires at + |s| < |mem|
    ensures |r| == |mem| && HoldsString(r, at, s)
    ensures forall x :: 0 <= x < |mem| && !(at <= x <= at + |s|) ==> r[x] == mem[x]
  {
    seq(|mem|, x requires 0 <= x < |mem| =>
      if at <= x < at + |s| then s[x - at] else if x == at + |s| then 0 else mem[x])
  }

  /** Arguments i, i + 1, ... with their strings from the cursor on; the first that does not fit ends the block. */
  function PutStrings(mem: seq<Word>, argv: Arguments, i: nat, cursor: nat): (r: seq<Word>)
    requires |mem| == MEM_SIZE && |argv| <= ABI_MAX_ARGS && cursor >= ABI_STRINGS
    ensures |r| == MEM_SIZE
    decreases |argv| - i
  {
    if i >= |argv| || cursor + |argv[i]| + 1 >= MEM_SIZE then mem
    else PutStrings(PutString(mem[ABI_ARGVEC + i := cursor], cursor, argv[i]), argv, i + 1, cursor + |argv[i]| + 1)
  }

  lemma PutTurn(mem: seq<Word>, argv: Arguments, i: nat, cursor: nat)
    requires |mem| == MEM_SIZE && |argv| <= ABI_MAX_ARGS && cursor >= ABI_STRINGS
    ensures PutStrings(mem, argv, i, cursor)
         == if i >= |argv| || cursor + |argv[i]| + 1 >= MEM_SIZE then mem
            else PutStrings(PutString(mem[ABI_ARGVEC + i := cursor], cursor, argv[i]), argv, i + 1,
                            cursor + |argv[i]| + 1)
  {
  }

  function StringsEnd(argv: Arguments, i: nat, cursor: nat): (r: nat)
    requires cursor < MEM_SIZE
    ensures cursor <= r < MEM_SIZE
    decreases |argv| - i
  {
    if i >= |argv| || cursor + |argv[i]| + 1 >= MEM_SIZE then cursor
    else StringsEnd(argv, i + 1, cursor + |argv[i]| + 1)
  }

  /** Count, vector address and an all-zero vector. */
  function PutVector(mem: seq<Word>, count: nat): (r: seq<Word>)
    requires |mem| == MEM_SIZE && count <= ABI_MAX_ARGS
    ensures |r| == MEM_SIZE
  {
    seq(MEM_SIZE, x requires 0 <= x < MEM_SIZE =>
      if x == ABI_ARGC then count else if x == ABI_ARGV then ABI_ARGVEC
      else if ABI_ARGVEC <= x <= ABI_ARGVEC + ABI_MAX_ARGS then 0 else mem[x])
  }

  function Installed(mem: seq<Word>, argv: Arguments): (r: seq<Word>)
    requires |mem| == MEM_SIZE
    ensures |r| == MEM_SIZE
  {
    PutStrings(PutVector(mem, |Clipped(argv)|), Clipped(argv), 0, ABI_STRINGS)
  }

  /** A cell the installation writes. */
  predicate ArgumentCell(argv: Arguments, x: nat) {
    x == ABI_ARGC || x == ABI_ARGV || ABI_ARGVEC <= x <= ABI_ARGVEC + ABI_MAX_ARGS
    || ABI_STRINGS <= x < StringsEnd(Clipped(argv), 0, ABI_STRINGS)
  }

  ghost function ArgumentCells(argv: Arguments): set<Word> {
    set x: Word | ArgumentCell(argv, x)
  }

  lemma {:induction false} StringsFrame(mem: seq<Word>, argv: Arguments, i: nat, cursor: nat, x: nat)
    requires |mem| == MEM_SIZE && |argv| <= ABI_MAX_ARGS && ABI_STRINGS <= cursor < MEM_SIZE && x < MEM_SIZE
    requires !(ABI_ARGVEC + i <= x < ABI_ARGVEC + |argv|) && !(cursor <= x < StringsEnd(argv, i, cursor))
    ensures PutStrings(mem, argv, i, cursor)[x] == mem[x]
    decreases |argv| - i
  {
    hide PutString;
    if i < |argv| && cursor + |argv[i]| + 1 < MEM_SIZE {
      var next := PutString(mem[ABI_ARGVEC + i := cursor], cursor, argv[i]);
      StringsFrame(next, argv, i + 1, cursor + |argv[i]| + 1, x);
    }
  }

  /** Nothing but the argument cells changes; the count is at most 32; images below the block are untouched. */
  lemma InstalledFrame(mem: seq<Word>, argv: Arguments)
    requires |mem| == MEM_SIZE
    ensures forall x: Word :: x !in ArgumentCells(argv) ==> Installed(mem, argv)[x] == mem[x]
    ensures forall x: Word :: x in ArgumentCells(argv) ==> ABI_ARGC <= x
    ensures ABI_ARGC in ArgumentCells(argv) && Installed(mem, argv)[ABI_ARGC] == |Clipped(argv)| <= ABI_MAX_ARGS
  {
    hide PutStrings;
    var args := Clipped(argv);
    forall x: Word | x !in ArgumentCells(argv)
      ensures Installed(mem, argv)[x] == mem[x]
    {
      StringsFrame(PutVector(mem, |args|), args, 0, ABI_STRINGS, x);
    }
    StringsFrame(PutVector(mem, |args|), args, 0, ABI_STRINGS, ABI_ARGC);
  }

  /** The cursor when argument k is reached, if everything before it fits. */
  function CursorAt(argv: Arguments, k: nat): (c: nat)
    requires k <= |argv|
    ensures c >= ABI_STRINGS
  {
    if k == 0 then ABI_STRINGS else CursorAt(argv, k - 1) + |argv[k - 1]| + 1
  }

  /** Argument k gets a slot and a string exactly when the first k + 1 strings fit. */
  predicate Fits(argv: Arguments, k: nat) {
    k < |argv| && k < ABI_MAX_ARGS && CursorAt(argv, k) + |argv[k]| + 1 < MEM_SIZE
  }

  lemma {:induction false} CursorGrows(argv: Arguments, i: nat, k: nat)
    requires i < k <= |argv|
    ensures CursorAt(argv, i) + |argv[i]| + 1 <= CursorAt(argv, k)
    decreases k
  {
    if i < k - 1 {
      CursorGrows(argv, i, k - 1);
    }
  }

  lemma {:induction false} StringsAt(mem: seq<Word>, argv: Arguments, i: nat, k: nat)
    requires |mem| == MEM_SIZE && i <= k < |argv| <= ABI_MAX_ARGS && CursorAt(argv, i) < MEM_SIZE
    requires forall x :: ABI_ARGVEC + i <= x < ABI_ARGVEC + |argv| ==> mem[x] == 0
    ensures var r := PutStrings(mem, argv, i, CursorAt(argv, i));
            if Fits(argv, k) then r[ABI_ARGVEC + k] == CursorAt(argv, k) && HoldsString(r, CursorAt(argv, k), argv[k])
            else r[ABI_ARGVEC + k] == 0
    decreases k - i
  {
    hide PutString, HoldsString;
    var at := CursorAt(argv, i);
    if i < k {
      CursorGrows(argv, i, k);
    }
    if Fits(argv, i) {
      var next := PutString(mem[ABI_ARGVEC + i := at], at, argv[i]);
      if i < k {
        StringsAt(next, argv, i + 1, k);
      } else {
        LaterStrings(next, argv, i + 1, at, argv[i]);
      }
    }
  }

  /** Strings put later leave the string and the slot just written alone. */
  lemma LaterStrings(next: seq<Word>, argv: Arguments, i: nat, at: nat, s: CText)
    requires |next| == MEM_SIZE && |argv| <= ABI_MAX_ARGS && 0 < i <= |argv| && ABI_STRINGS <= at
             && at + |s| + 1 < MEM_SIZE
    requires HoldsString(next, at, s)
    ensures var r := PutStrings(next, argv, i, at + |s| + 1);
            HoldsString(r, at, s) && r[ABI_ARGVEC + i - 1] == next[ABI_ARGVEC + i - 1]
  {
    hide PutStrings, StringsEnd;
    var r := PutStrings(next, argv, i, at + |s| + 1);
    forall x | at <= x <= at + |s|
      ensures r[x] == next[x]
    {
      StringsFrame(next, argv, i, at + |s| + 1, x);
    }
    StringKept(next, r, at, s);
    StringsFrame(next, argv, i, at + |s| + 1, ABI_ARGVEC + i - 1);
  }

  /** What the program finds: slot k points at argument k if it fits, and is zero otherwise. */
  lemma ArgumentFound(mem: seq<Word>, argv: Arguments, k: nat)
    requires |mem| == MEM_SIZE && k < ABI_MAX_ARGS
    ensures var r, args := Installed(mem, argv), Clipped(argv);
            if Fits(args, k) then r[ABI_ARGVEC + k] == CursorAt(args, k) && HoldsString(r, CursorAt(args, k), args[k])
            else r[ABI_ARGVEC + k] == 0
  {
    hide PutStrings, HoldsString, PutString;
    var args := Clipped(argv);
    var cleared := PutVector(mem, |args|);
    if k < |args| {
      StringsAt(cleared, args, 0, k);
    } else {
      StringsFrame(cleared, args, 0, ABI_STRINGS, ABI_ARGVEC + k);
    }
  }

  // ----- the block in numbers -----

  /** Where string k goes: 58100, and one NUL behind each string before it. */
  function StringStart(argv: Arguments, k: nat): nat
    requires k <= |argv|
  {
    if k == 0 then 58100 else StringStart(argv, k - 1) + |argv[k - 1]| + 1
  }

  lemma {:induction false} CursorIsStart(argv: Arguments, k: nat)
    requires k <= |argv| && k <= 32
    ensures k <= |Clipped(argv)| && CursorAt(Clipped(argv), k) == StringStart(argv, k)
  {
    if k > 0 {
      CursorIsStart(argv, k - 1);
      assert Clipped(argv)[k - 1] == argv[k - 1];
    }
  }

  /** String k is there: among the first 32 and ending before the last cell. */
  predicate Arrives(argv: Arguments, k: nat) {
    k < |argv| && k < 32 && StringStart(argv, k) + |argv[k]| + 1 < 59049
  }

  /**
   The argument block cell by cell: the count at 58000, at 58001 the address
   58016 of a vector of 32 slots and a zero, the strings from 58100 on; cells
   below, between and unused slots are as stated.
   */
  lemma BlockInNumbers(mem: seq<Word>, argv: Arguments, k: nat)
    requires |mem| == 59049 && k < 32
    ensures var r := Installed(mem, argv);
            r[58000] == (if |argv| <= 32 then |argv| else 32) && r[58001] == 58016 && r[58048] == 0
            && r[58016 + k] == (if Arrives(argv, k) then StringStart(argv, k) else 0)
            && (Arrives(argv, k) ==> HoldsString(r, StringStart(argv, k), argv[k]))
            && forall x :: 0 <= x < 58000 || 58002 <= x < 58016 || 58049 <= x < 58100 ==> r[x] == mem[x]
  {
    hide PutStrings, HoldsString, CursorAt, StringStart, StringsEnd;
    var args := Clipped(argv);
    var r, cleared := Installed(mem, argv), PutVector(mem, |args|);
    ArgumentFound(mem, argv, k);
    if k < |argv| {
      CursorIsStart(argv, k);
      assert args[k] == argv[k];
    }
    StringsFrame(cleared, args, 0, ABI_STRINGS, 58000);
    StringsFrame(cleared, args, 0, ABI_STRINGS, 58001);
    StringsFrame(cleared, args, 0, ABI_STRINGS, 58048);
    forall x | 0 <= x < 58000 || 58002 <= x < 58016 || 58049 <= x < 58100
      ensures r[x] == mem[x]
    {
      StringsFrame(cleared, args, 0, ABI_STRINGS, x);
    }
  }
}
