/**
 The parser against its specification: for every line without NUL bytes, what
 is in the buffers when the line ends, and exactly when it is "drop CR, split
 on spaces".
 */
module ShellParse {
  import opened Words
  import opened Machine
  import opened OracleTree
  import opened ShellLine

  type Argv = seq<seq<Byte>>

  /** The arguments as they lie in the buffer, each followed by its NUL. */
  function Pack(args: Argv): seq<Byte> {
    if args == [] then [] else Pack(args[..|args| - 1]) + args[|args| - 1] + [0]
  }

  function Total(args: Argv): nat {
    if args == [] then 0 else Total(args[..|args| - 1]) + |args[|args| - 1]| + 1
  }

  lemma {:induction false} PackLength(args: Argv)
    ensures |Pack(args)| == Total(args)
  {
    if args != [] {
      PackLength(args[..|args| - 1]);
    }
  }

  function SlotsOf(base: nat, args: Argv): seq<Option<nat>> {
    if args == [] then [] else SlotsOf(base, args[..|args| - 1]) + [Some(base + |Pack(args[..|args| - 1])|)]
  }

  lemma {:induction false} SlotsAt(base: nat, args: Argv, i: nat)
    requires i < |args|
    ensures |SlotsOf(base, args)| == |args| && SlotsOf(base, args)[i] == Some(base + |Pack(args[..i])|)
  {
    if i < |args| - 1 {
      SlotsAt(base, args[..|args| - 1], i);
      assert args[..|args| - 1][..i] == args[..i];
    } else {
      SlotCount(base, args);
    }
  }

  lemma {:induction false} SlotCount(base: nat, args: Argv)
    ensures |SlotsOf(base, args)| == |args| && Live(SlotsOf(base, args)) == |args|
  {
    if args != [] {
      SlotCount(base, args[..|args| - 1]);
      LiveSnoc(SlotsOf(base, args[..|args| - 1]), base + |Pack(args[..|args| - 1])|);
    }
  }

  /** The argv slots execve sees: up to the first cleared one. */
  function Live(slots: seq<Option<nat>>): (n: nat)
    ensures n <= |slots|
  {
    if slots == [] || slots[0].None? then 0 else 1 + Live(slots[1..])
  }

  lemma {:induction false} LiveSnoc(slots: seq<Option<nat>>, x: nat)
    requires Live(slots) == |slots|
    ensures Live(slots + [Some(x)]) == |slots| + 1
  {
    if slots != [] {
      assert (slots + [Some(x)])[1..] == slots[1..] + [Some(x)];
      LiveSnoc(slots[1..], x);
    } else {
      assert ([] + [Some(x)])[1..] == [];
    }
  }

  lemma {:induction false} LiveCut(slots: seq<Option<nat>>)
    requires slots != [] && Live(slots) == |slots|
    ensures Live(slots[|slots| - 1 := None]) == |slots| - 1
  {
    if |slots| > 1 {
      assert slots[|slots| - 1 := None][1..] == slots[1..][|slots| - 2 := None];
      LiveCut(slots[1..]);
    }
  }

  // ----- the line while the words still fit -----

  function ClosedName(word: seq<Byte>): seq<Byte> {
    if |word| < NAME_CELLS then word + [0] else word
  }

  /** Cells the arguments need so far; the open one has no NUL yet. */
  function Need(words: Argv, open: bool): int
    requires words != []
  {
    Total(words[1..]) - (if open && |words| > 1 then 1 else 0)
  }

  predicate Fits(base: nat, words: Argv, open: bool) {
    words != [] ==> |words[0]| <= NAME_CELLS && |words| - 1 <= EXEC_SLOTS && base + Need(words, open) <= ARG_CELLS
  }

  predicate Track(l: Line, before: seq<Byte>, words: Argv, open: bool) {
    if words == [] then
      !open && l.mode == Between && !l.started && !l.done && l.name == [] == l.path && l.slots == [] && l.buf == before
    else
      l.active && l.started && l.path == words[0]
      && if open && |words| == 1 then
           l.mode == InCommand && !l.done && l.name == words[0] && l.slots == [] && l.buf == before
         else
           l.done && l.name == ClosedName(words[0]) && l.slots == SlotsOf(|before|, words[1..])
           && if open then l.mode == InArgument && l.buf + [0] == before + Pack(words[1..])
              else l.mode == Between && l.buf == before + Pack(words[1..])
  }

  /** Once the arguments no longer fit, the rest of the line is drained and at least one argument is missing. */
  predicate Short(l: Line, words: Argv) {
    words != [] && l.mode == Draining && Live(l.slots) < |words| - 1 && l.active && l.started
  }

  predicate Overlong(words: Argv) {
    words != [] && |words[0]| > NAME_CELLS
  }

  predicate Reached(l: Line, before: seq<Byte>, words: Argv, open: bool) {
    Overlong(words) || if Fits(|before|, words, open) then Track(l, before, words, open) else Short(l, words)
  }

  lemma TailSnoc(words: Argv, w: seq<Byte>)
    requires words != []
    ensures (words + [w])[1..] == words[1..] + [w]
    ensures Pack(words[1..] + [w]) == Pack(words[1..]) + w + [0]
            && Total(words[1..] + [w]) == Total(words[1..]) + |w| + 1
    ensures SlotsOf(0, words[1..] + [w]) == SlotsOf(0, words[1..]) + [Some(|Pack(words[1..])|)]
    ensures forall base: nat ::
              SlotsOf(base, words[1..] + [w])
              == SlotsOf(base, words[1..]) + [Some(base + |Pack(words[1..])|)]
  {
    assert (words[1..] + [w])[..|words| - 1] == words[1..];
  }

  lemma TailExtend(words: Argv, c: Byte)
    requires |words| > 1
    ensures var last, front := words[|words| - 1], words[1..|words| - 1];
            words[1..] == front + [last]
            && (words[..|words| - 1] + [last + [c]])[1..] == front + [last + [c]]
            && Pack(words[1..]) == Pack(front) + last + [0]
            && Pack(front + [last + [c]]) == Pack(front) + last + [c] + [0]
            && Total(words[1..]) + 1 == Total(front + [last + [c]])
            && forall base: nat :: SlotsOf(base, front + [last + [c]]) == SlotsOf(base, words[1..])
  {
    var last, front := words[|words| - 1], words[1..|words| - 1];
    assert words[1..] == front + [last];
    assert (front + [last])[..|front|] == front && (front + [last + [c]])[..|front|] == front;
    assert Pack(front) + last + [c] + [0] == Pack(front) + (last + [c]) + [0];
  }

  lemma StepFirst(l: Line, before: seq<Byte>, c: Byte)
    requires Roomy(l) && Track(l, before, [], false) && c != CR && c != SPACE && |before| < ARG_CELLS
    ensures Reached(Feed(l, c), before, [[c]], true)
  {
    var words: Argv := [[c]];
    assert words[1..] == [];
  }

  lemma StepCommand(l: Line, before: seq<Byte>, word: seq<Byte>, c: Byte)
    requires Roomy(l) && Track(l, before, [word], true) && Fits(|before|, [word], true) && c != CR
    ensures Reached(Feed(l, c), before, if c == SPACE then [word] else [word + [c]], c != SPACE)
  {
    var w, w': Argv := [word], [word + [c]];
    assert w[1..] == [] && w'[1..] == [];
  }

  lemma StepBetween(l: Line, before: seq<Byte>, words: Argv, c: Byte)
    requires Roomy(l) && words != [] && Track(l, before, words, false) && Fits(|before|, words, false) && c != CR
             && c != SPACE
    ensures Reached(Feed(l, c), before, words + [[c]], true)
  {
    hide Pack, Total, SlotsOf, Live;
    TailSnoc(words, [c]);
    PackLength(words[1..]);
    SlotCount(|before|, words[1..]);
    assert l.buf + [c] + [0] == before + (Pack(words[1..]) + [c] + [0]);
  }

  lemma StepArgument(l: Line, before: seq<Byte>, words: Argv, c: Byte)
    requires Roomy(l) && |words| > 1 && Track(l, before, words, true) && Fits(|before|, words, true) && c != CR
    ensures Reached(Feed(l, c), before,
                    if c == SPACE then words else words[..|words| - 1] + [words[|words| - 1] + [c]], c != SPACE)
  {
    hide Pack, Total, SlotsOf, Live;
    TailExtend(words, c);
    PackLength(words[1..]);
    SlotCount(|before|, words[1..]);
    LiveCut(l.slots);
    var last, front := words[|words| - 1], words[1..|words| - 1];
    BufferIs(l.buf, before, Pack(front), last);
  }

  lemma BufferIs(buf: seq<Byte>, before: seq<Byte>, packed: seq<Byte>, last: seq<Byte>)
    requires buf + [0] == before + (packed + last + [0])
    ensures buf == before + (packed + last)
    ensures forall c: Byte :: buf + [c] + [0] == before + (packed + last + [c] + [0])
  {
    assert before + (packed + last + [0]) == before + (packed + last) + [0];
    assert buf == (buf + [0])[..|buf|];
    assert before + (packed + last) == (before + (packed + last) + [0])[..|before + (packed + last)|];
    forall c: Byte
      ensures buf + [c] + [0] == before + (packed + last + [c] + [0])
    {
    }
  }

  lemma StepShort(l: Line, before: seq<Byte>, words: Argv, words': Argv, open: bool, c: Byte)
    requires Roomy(l) && Short(l, words) && !Fits(|before|, words, open) && !Overlong(words)
             && Grown(open, c, words, words')
    ensures Reached(Feed(l, c), before, words', c != SPACE)
  {
    hide Pack, SlotsOf, Live, Total;
    if c != SPACE {
      if open {
        if |words| > 1 {
          TailExtend(words, c);
        }
      } else {
        TailSnoc(words, [c]);
      }
      OneTotal(words);
    }
  }

  lemma OneTotal(words: Argv)
    ensures |words| == 1 ==> Total(words[1..]) == 0
  {
  }

  lemma StepOverlong(words: Argv, words': Argv, open: bool, c: Byte)
    requires Overlong(words) && Grown(open, c, words, words')
    ensures Overlong(words')
  {
  }

  lemma StepSpace(l: Line, before: seq<Byte>, words: Argv)
    requires Roomy(l) && Track(l, before, words, false) && Fits(|before|, words, false)
    ensures Reached(Feed(l, SPACE), before, words, false)
  {
  }

  /** One byte keeps the relation between the line and the words so far. */
  lemma StepWord(l: Line, before: seq<Byte>, words: Argv, words': Argv, open: bool, c: Byte)
    requires Roomy(l) && Reached(l, before, words, open) && Grown(open, c, words, words') && c != CR
             && |before| < ARG_CELLS
    requires words == [] ==> !open
    ensures Reached(Feed(l, c), before, words', c != SPACE)
  {
    if Overlong(words) {
      StepOverlong(words, words', open, c);
      return;
    }
    hide Feed, Track, Pack, SlotsOf, Total, Live, Need;
    if !Fits(|before|, words, open) {
      StepShort(l, before, words, words', open, c);
    } else if c == SPACE && !open {
      StepSpace(l, before, words);
    } else if words == [] {
      StepFirst(l, before, c);
      assert words' == [[c]];
    } else if !open {
      StepBetween(l, before, words, c);
    } else if |words| == 1 {
      assert words == [words[0]];
      assert words[..|words| - 1] + [words[|words| - 1] + [c]] == [words[0] + [c]];
      StepCommand(l, before, words[0], c);
    } else {
      StepArgument(l, before, words, c);
    }
  }

  /** The line after any bytes: it tracks "drop CR, split on spaces" as long as that fits. */
  lemma {:induction false} LineReached(buf: seq<Byte>, s: seq<Byte>)
    requires |buf| <= ARG_CELLS
    ensures var t := DropCR(s);
            Reached(Feeds(Start(buf), s), Start(buf).buf, WordsOf(t), Open(t)) && (WordsOf(t) == [] ==> !Open(t))
    decreases |s|
  {
    hide Feed, Track, Short, Pack, SlotsOf, Total, Live, Need, WordsOf, Grown;
    if s == [] {
      NoWords(buf);
    } else {
      var front, c := s[..|s| - 1], s[|s| - 1];
      LineReached(buf, front);
      if c == CR {
        FeedCR(Feeds(Start(buf), front));
      } else {
        var t := DropCR(front);
        WordsSnoc(t, c);
        StepWord(Feeds(Start(buf), front), Start(buf).buf, WordsOf(t), WordsOf(t + [c]), Open(t), c);
        WordsSnoc(t + [c], SPACE);
        OpenHasWord(t + [c]);
      }
    }
  }

  lemma NoWords(buf: seq<Byte>)
    requires |buf| <= ARG_CELLS
    ensures WordsOf([]) == [] && Reached(Start(buf), Start(buf).buf, [], false)
  {
  }

  lemma OpenHasWord(t: seq<Byte>)
    ensures WordsOf(t) == [] ==> !Open(t)
  {
    WordsSnoc(t, SPACE);
  }

  lemma FeedCR(l: Line)
    requires Roomy(l)
    ensures Feed(l, CR) == l
  {
  }

  // ----- what the finished line holds -----

  /** A NUL-terminated string in the written part of a buffer. */
  predicate StringIn(buf: seq<Byte>, at: nat, s: seq<Byte>) {
    at + |s| < |buf| && buf[at..at + |s|] == s && buf[at + |s|] == 0
  }

  predicate ArgumentIn(l: Line, i: nat, arg: seq<Byte>) {
    i < |l.slots| && l.slots[i].Some? && StringIn(l.buf, l.slots[i].value, arg)
  }

  /**
   Command word and arguments are in the buffers as NUL-terminated strings, the argv slots
   point at exactly the arguments.
   */
  predicate ParsedAs(l: Line, words: Argv) {
    words != [] && StringIn(l.name, 0, words[0]) && Live(l.slots) == |words| - 1
    && ArgumentsIn(l, words[1..])
  }

  predicate ArgumentsIn(l: Line, args: Argv) {
    forall i :: 0 <= i < |args| ==> ArgumentIn(l, i, args[i])
  }

  /** What a caller can check: 23 bytes of command, eight arguments, room for every argument and its NUL. */
  predicate Enough(free: int, words: Argv) {
    words != [] && |words[0]| < NAME_CELLS && |words| - 1 <= EXEC_SLOTS && Total(words[1..]) <= free
  }

  lemma {:induction false} PackAt(args: Argv, i: nat)
    requires i < |args|
    ensures StringIn(Pack(args), |Pack(args[..i])|, args[i])
  {
    var front := args[..|args| - 1];
    if i < |args| - 1 {
      PackAt(front, i);
      assert front[..i] == args[..i];
      StringStays(Pack(front), Pack(args), 0, |Pack(args[..i])|, args[i]);
    }
  }

  lemma StringStays(buf: seq<Byte>, bigger: seq<Byte>, shift: nat, at: nat, s: seq<Byte>)
    requires StringIn(buf, at, s) && shift + |buf| <= |bigger| && bigger[shift..shift + |buf|] == buf
    ensures StringIn(bigger, shift + at, s)
  {
    var part := bigger[shift..shift + |buf|];
    assert bigger[shift + at + |s|] == part[at + |s|];
    forall i | 0 <= i < |s|
      ensures bigger[shift + at..shift + at + |s|][i] == s[i]
    {
      assert bigger[shift + at + i] == part[at + i] == buf[at..at + |s|][i];
    }
  }

  lemma Behind(before: seq<Byte>, part: seq<Byte>, buf: seq<Byte>)
    requires before + part <= buf
    ensures |before| + |part| <= |buf| && buf[|before|..|before| + |part|] == part
  {
    var all := before + part;
    assert buf[..|all|] == all;
    assert buf[|before|..|all|] == all[|before|..];
  }

  predicate LiesIn(buf: seq<Byte>, before: seq<Byte>, args: Argv) {
    before + Pack(args) <= buf
  }

  lemma PackedString(buf: seq<Byte>, before: seq<Byte>, args: Argv, i: nat)
    requires LiesIn(buf, before, args) && i < |args|
    ensures StringIn(buf, |before| + |Pack(args[..i])|, args[i])
  {
    hide Pack, StringIn;
    PackAt(args, i);
    Behind(before, Pack(args), buf);
    StringStays(Pack(args), buf, |before|, |Pack(args[..i])|, args[i]);
  }

  lemma PackedLine(l: Line, before: seq<Byte>, args: Argv, i: nat)
    requires l.slots == SlotsOf(|before|, args) && LiesIn(l.buf, before, args) && i < |args|
    ensures ArgumentIn(l, i, args[i])
  {
    hide Pack, SlotsOf, StringIn, LiesIn;
    SlotsAt(|before|, args, i);
    PackedString(l.buf, before, args, i);
  }

  lemma FinishFits(l: Line, before: seq<Byte>, words: Argv, open: bool)
    requires Roomy(l) && words != [] && Track(l, before, words, open) && Enough(ARG_CELLS - |before|, words)
    ensures ParsedAs(Finish(l), words)
  {
    hide Pack, SlotsOf, Total, Live;
    var r, args := Finish(l), words[1..];
    PackLength(args);
    SlotCount(|before|, args);
    NoneYet(|before|);
    assert r.name == words[0] + [0];
    assert LiesIn(r.buf, before, args);
    forall i | 0 <= i < |args|
      ensures ArgumentIn(r, i, args[i])
    {
      PackedLine(r, before, args, i);
    }
  }

  lemma NoneYet(base: nat)
    ensures SlotsOf(base, []) == [] && Pack([]) == [] && Total([]) == 0
  {
  }

  /** The exact fill: the last argument takes the last cell, its NUL is skipped. */
  lemma FinishFull(l: Line, before: seq<Byte>, words: Argv)
    requires Roomy(l) && |words| > 1 && Track(l, before, words, true) && |before| + Total(words[1..]) == ARG_CELLS + 1
    ensures !ArgumentsIn(Finish(l), words[1..])
  {
    hide SlotsOf, Live;
    var args := words[1..];
    PackLength(args);
    SlotsAt(|before|, args, |args| - 1);
    assert |l.buf| == ARG_CELLS;
    assert !ArgumentIn(Finish(l), |args| - 1, args[|args| - 1]);
  }

  lemma NotParsed(l: Line, before: seq<Byte>, words: Argv, open: bool)
    requires Roomy(l) && words != [] && Reached(l, before, words, open) && !Enough(ARG_CELLS - |before|, words)
    ensures !ParsedAs(Finish(l), words)
  {
    hide Pack, SlotsOf, Total, Live;
    OneTotal(words);
    if |words[0]| < NAME_CELLS && Fits(|before|, words, open) {
      FinishFull(l, before, words);
    }
  }

  /**
   The parser refines "drop CR, split on spaces" exactly on the lines with a
   command of at most 23 bytes, at most eight arguments and room for every
   argument plus its NUL.  Room that is just one cell short (an argument that
   fills the buffer to its last cell, followed by LF) is not enough.
   */
  lemma ParsesExactly(buf: seq<Byte>, s: seq<Byte>)
    requires |buf| <= ARG_CELLS
    ensures var words := WordsOf(DropCR(s));
            var l := Finish(Feeds(Start(buf), s));
            words != [] ==> (ParsedAs(l, words) <==> Enough(ARG_CELLS - |Start(buf).buf|, words))
  {
    hide Track, Pack, SlotsOf, Total, Live, WordsOf, Feeds, ParsedAs, Short;
    LineReached(buf, s);
    var t := DropCR(s);
    var words := WordsOf(t);
    if words != [] {
      if Enough(ARG_CELLS - |Start(buf).buf|, words) {
        EnoughFits(|Start(buf).buf|, words, Open(t));
        FinishFits(Feeds(Start(buf), s), Start(buf).buf, words, Open(t));
      } else {
        NotParsed(Feeds(Start(buf), s), Start(buf).buf, words, Open(t));
      }
    }
  }

  lemma EnoughFits(base: nat, words: Argv, open: bool)
    requires Enough(ARG_CELLS - base, words)
    ensures Fits(base, words, open) && !Overlong(words)
  {
  }

  /** How a finished name region looks: full, or ended by its NUL. */
  predicate NameEnds(l: Line) {
    |l.name| == NAME_CELLS || (l.name != [] && l.name[|l.name| - 1] == 0)
  }

  /** The two copies of the command word grow together until it is closed. */
  predicate Sane(l: Line) {
    if l.done then NameEnds(l) && l.mode != InCommand else |l.path| == |l.name|
  }

  lemma {:induction false} LineSane(buf: seq<Byte>, s: seq<Byte>)
    requires |buf| <= ARG_CELLS
    ensures Sane(Feeds(Start(buf), s)) && NameEnds(Finish(Feeds(Start(buf), s)))
  {
    if s != [] {
      LineSane(buf, s[..|s| - 1]);
      FeedSane(Feeds(Start(buf), s[..|s| - 1]), s[|s| - 1]);
    }
    hide Feeds;
    FinishSane(Feeds(Start(buf), s));
  }

  lemma FeedSane(l: Line, b: Byte)
    requires Roomy(l) && Sane(l)
    ensures Sane(Feed(l, b))
  {
  }

  lemma FinishSane(l: Line)
    requires Roomy(l) && Sane(l)
    ensures NameEnds(Finish(l))
  {
  }

  /** Whatever the bytes, a line the reader finishes has its name region closed or full. */
  lemma {:induction false} ReadSane(l: Line, events: seq<Event>)
    requires Roomy(l) && Sane(l)
    ensures var r := ReadLine(l, events); r.outcome == Finished ==> NameEnds(r.line)
    decreases |events|
  {
    hide Feed, Finish, Sane, NameEnds;
    if l.mode == Draining || l.active {
      FinishSane(l);
    }
    if events != [] && events[0].Got? {
      FinishSane(l);
      if events[0].b != LF {
        FeedSane(l, events[0].b);
        ReadSane(Feed(l, events[0].b), events[1..]);
      }
    }
  }

  lemma StartSane(buf: seq<Byte>)
    requires |buf| <= ARG_CELLS
    ensures Sane(Start(buf))
  {
  }

  /** A line whose words fit leaves the path copy equal to the command word; a line without words starts no command. */
  lemma PathAndStart(buf: seq<Byte>, s: seq<Byte>)
    requires |buf| <= ARG_CELLS
    ensures var words := WordsOf(DropCR(s));
            var l := Finish(Feeds(Start(buf), s));
            (words == [] ==> !l.started)
            && (words != [] && Enough(ARG_CELLS - |Start(buf).buf|, words) ==> l.started && l.path == words[0])
  {
    hide Pack, SlotsOf, Total, Live, WordsOf, Feeds, ParsedAs, Short;
    LineReached(buf, s);
    var t := DropCR(s);
    if WordsOf(t) != [] && Enough(ARG_CELLS - |Start(buf).buf|, WordsOf(t)) {
      EnoughFits(|Start(buf).buf|, WordsOf(t), Open(t));
    } else if WordsOf(t) == [] {
      NothingNeeded(|Start(buf).buf|);
    }
  }

  lemma NothingNeeded(base: nat)
    ensures Fits(base, [], false)
  {
  }

  /** An overlong command: the first 24 bytes are kept, the next byte is lost, and what follows is read as arguments. */
  lemma OverlongCommand(buf: seq<Byte>, word: seq<Byte>, lost: Byte)
    requires |buf| <= ARG_CELLS && |word| == NAME_CELLS && SPACE !in word && CR !in word && lost != SPACE && lost != CR
    ensures var l := Feeds(Start(buf), word + [lost]);
            l.mode == Between && l.done && l.name == word && l.slots == []
  {
    hide Feed, Pack, SlotsOf, Total, Live, Need;
    LineReached(buf, word);
    NoCR(word);
    assert word == word[..|word| - 1] + [word[|word| - 1]];
    OneWord(word, SPACE);
    var l := Feeds(Start(buf), word);
    var words: Argv := [word];
    NothingNeeded(|Start(buf).buf|);
    assert words[1..] == [];
    NoneYet(0);
    LostByte(l, lost, words, Start(buf).buf);
    assert (word + [lost])[..|word|] == word;
  }

  lemma LostByte(l: Line, lost: Byte, words: Argv, before: seq<Byte>)
    requires Roomy(l) && |words| == 1 && |words[0]| == NAME_CELLS && Reached(l, before, words, true)
             && Fits(|before|, words, true)
    requires lost != SPACE && lost != CR
    ensures var r := Feed(l, lost);
            r.mode == Between && r.done && r.name == words[0] && r.slots == []
  {
  }

  lemma {:induction false} NoCR(s: seq<Byte>)
    requires CR !in s
    ensures DropCR(s) == s
  {
    if s != [] {
      NoCR(s[..|s| - 1]);
      assert s == s[..|s| - 1] + [s[|s| - 1]];
    }
  }

  /** The first line of a shell: the command c and an argument of 512 letters x fill the buffer, and no NUL follows. */
  lemma ExactFillFails(buf: seq<Byte>)
    requires |buf| == ARG_CELLS
    ensures var arg: seq<Byte> := seq(ARG_CELLS, _ => 120);
            var s := [99, SPACE] + arg;
            WordsOf(DropCR(s)) == [[99], arg] && !ParsedAs(Finish(Feeds(Start(buf), s)), [[99], arg])
  {
    hide Feed, Feeds, ParsedAs;
    var arg: seq<Byte> := seq(ARG_CELLS, _ => 120);
    var s := [99, SPACE] + arg;
    NoCR(s);
    TwoWords(99, arg);
    ParsesExactly(buf, s);
    var args: Argv := [arg];
    assert [[99], arg][1..] == args && args[..0] == [];
  }

  lemma TwoWords(c: Byte, arg: seq<Byte>)
    requires c != SPACE && arg != [] && SPACE !in arg
    ensures WordsOf([c, SPACE] + arg) == [[c], arg]
  {
    var s := [c, SPACE] + arg;
    assert s[..1] == [c] && s[1..] == [SPACE] + arg && s[1..][1..] == arg;
    WordEndIs(s, 1);
    OneWord(arg, SPACE);
  }

  /**
   The limits in numbers: a command of at most 23 bytes, at most eight
   arguments, and for them and a NUL each what a 512-byte buffer has left,
   all of it when it is full.
   */
  lemma LimitsAre(buf: seq<Byte>, words: Argv)
    requires |buf| <= 512
    ensures Enough(ARG_CELLS - |Start(buf).buf|, words) <==>
              words != [] && |words[0]| <= 23 && |words| <= 9
              && Total(words[1..]) <= (if |buf| == 512 then 512 else 512 - |buf|)
  {
  }
}
