/**
 One command line of msh, on values: what each byte does to the line being
 built, and how the result relates to splitting the line on spaces.
 */
module ShellLine {
  import opened Words
  import opened Machine
  import opened OracleTree

  const NAME_CELLS: nat := 24
  const ARG_CELLS: nat := 512
  const EXEC_SLOTS: nat := 8

  /** The four read loops; in the source the code location is the state. */
  datatype Mode = Between | InCommand | InArgument | Draining

  /**
   What has been written so far: the two copies of the command word, the argument bytes, the
   argv slots (None once cleared).
   */
  datatype Line = Line(mode: Mode, active: bool, started: bool, done: bool,
                       name: seq<Byte>, path: seq<Byte>, buf: seq<Byte>, slots: seq<Option<nat>>)

  predicate Roomy(l: Line) {
    |l.name| <= NAME_CELLS && |l.path| <= NAME_CELLS && |l.buf| <= ARG_CELLS && |l.slots| <= EXEC_SLOTS
    && (l.mode == InArgument ==> l.slots != [])
  }

  /** A new line; the argument buffer is only started over when it is full. */
  function Start(buf: seq<Byte>): (l: Line)
    requires |buf| <= ARG_CELLS
    ensures Roomy(l)
  {
    Line(Between, false, false, false, [], [], if |buf| == ARG_CELLS then [] else buf, [])
  }

  function WriteCommand(l: Line, b: Byte): (r: Line)
    requires Roomy(l)
    ensures Roomy(r)
  {
    if |l.name| == NAME_CELLS || |l.path| == NAME_CELLS then l.(done := true, mode := Between)
    else l.(name := l.name + [b], path := l.path + [b], mode := InCommand)
  }

  function EndCommand(l: Line): (r: Line)
    requires Roomy(l)
    ensures Roomy(r)
  {
    if |l.name| == NAME_CELLS then l.(done := true) else l.(name := l.name + [0], done := true)
  }

  function DropArgument(l: Line): (r: Line)
    requires Roomy(l) && l.slots != []
    ensures Roomy(r)
  {
    l.(slots := l.slots[|l.slots| - 1 := None], mode := Draining)
  }

  function WriteArgument(l: Line, b: Byte): (r: Line)
    requires Roomy(l) && l.slots != []
    ensures Roomy(r)
  {
    if |l.buf| == ARG_CELLS then DropArgument(l) else l.(buf := l.buf + [b], mode := InArgument)
  }

  function StartArgument(l: Line, b: Byte): (r: Line)
    requires Roomy(l)
    ensures Roomy(r)
  {
    if |l.slots| == EXEC_SLOTS || |l.buf| == ARG_CELLS then l.(mode := Draining)
    else WriteArgument(l.(slots := l.slots + [Some(|l.buf|)]), b)
  }

  function EndArgument(l: Line): (r: Line)
    requires Roomy(l) && l.slots != []
    ensures Roomy(r)
  {
    if |l.buf| == ARG_CELLS then DropArgument(l) else l.(buf := l.buf + [0], mode := Between)
  }

  /** A byte other than LF. */
  function Feed(l: Line, b: Byte): (r: Line)
    requires Roomy(l)
    ensures Roomy(r)
  {
    match l.mode
    case Between =>
      if b == CR then l
      else if b == SPACE then l.(active := true)
      else if l.done then StartArgument(l.(active := true), b)
      else WriteCommand(l.(active := true, started := true), b)
    case InCommand =>
      if b == CR then l else if b == SPACE then EndCommand(l).(mode := Between) else WriteCommand(l, b)
    case InArgument =>
      if b == CR then l else if b == SPACE then EndArgument(l) else WriteArgument(l, b)
    case Draining => l
  }

  function Feeds(l: Line, s: seq<Byte>): (r: Line)
    requires Roomy(l)
    ensures Roomy(r)
    decreases |s|
  {
    if s == [] then l else Feed(Feeds(l, s[..|s| - 1]), s[|s| - 1])
  }

  /** End of the line: close the command word, guard the open argument with a NUL if there is room. */
  function Finish(l: Line): (r: Line)
    requires Roomy(l)
    ensures Roomy(r)
  {
    var closed := if l.done then l else EndCommand(l);
    if |l.buf| == ARG_CELLS then closed else closed.(buf := closed.buf + [0])
  }

  // ----- reading -----

  datatype Event = Got(b: Byte) | End | Fault
  datatype Outcome = Finished | Closed | Failed
  datatype Parsed = Parsed(outcome: Outcome, line: Line, used: nat)

  function AtEnd(l: Line, used: nat): Parsed
    requires Roomy(l)
  {
    if l.mode != Draining && !l.active then Parsed(Closed, l, used) else Parsed(Finished, Finish(l), used)
  }

  /** The reader on the rest of the input; reading past the last event finds the end of input. */
  function ReadLine(l: Line, events: seq<Event>): (r: Parsed)
    requires Roomy(l)
    ensures Roomy(r.line)
    decreases |events|
  {
    if events == [] then AtEnd(l, 0)
    else
      match events[0]
      case Fault => Parsed(Failed, l, 1)
      case End => AtEnd(l, 1)
      case Got(b) =>
        if b == LF then Parsed(Finished, Finish(l), 1)
        else
          var r := ReadLine(Feed(l, b), events[1..]);
          r.(used := r.used + 1)
  }

  predicate EndsLine(e: Event) {
    e != Got(10) ==> e.End? || e.Fault?
  }

  /** Line sync: whatever the bytes, exactly the events through the first LF, end or fault are consumed. */
  lemma {:induction false} ConsumesOneLine(l: Line, events: seq<Event>)
    requires Roomy(l)
    ensures var used := ReadLine(l, events).used;
            used <= |events|
            && (forall i :: 0 <= i < used - 1 ==> !EndsLine(events[i]))
            && (used == 0 || !EndsLine(events[used - 1]) ==> used == |events|)
    decreases |events|
  {
    hide Feed;
    if events != [] && events[0].Got? && events[0].b != LF {
      ConsumesOneLine(Feed(l, events[0].b), events[1..]);
      var used := ReadLine(l, events).used;
      forall i | 0 <= i < used - 1
        ensures !EndsLine(events[i])
      {
        if i > 0 {
          assert events[i] == events[1..][i - 1];
        }
      }
    }
  }

  function Events(s: seq<Byte>): seq<Event> {
    seq(|s|, i requires 0 <= i < |s| => Got(s[i]))
  }

  lemma {:induction false} FeedsFront(l: Line, s: seq<Byte>)
    requires Roomy(l) && s != []
    ensures Feeds(l, s) == Feeds(Feed(l, s[0]), s[1..])
    decreases |s|
  {
    hide Feed;
    if |s| > 1 {
      FeedsFront(l, s[..|s| - 1]);
      assert s[..|s| - 1][1..] == s[1..][..|s| - 2];
    } else {
      assert s[..0] == [] && s[1..] == [];
    }
  }

  /** A line of bytes followed by LF is fed byte by byte and then finished. */
  lemma {:induction false} ReadWholeLine(l: Line, s: seq<Byte>, rest: seq<Event>)
    requires Roomy(l) && 10 !in s
    ensures ReadLine(l, Events(s) + [Got(10)] + rest) == Parsed(Finished, Finish(Feeds(l, s)), |s| + 1)
    decreases |s|
  {
    hide Feed, Finish;
    var all := Events(s) + [Got(LF)] + rest;
    if s == [] {
      assert all[0] == Got(LF);
    } else {
      assert all[0] == Got(s[0]);
      assert all[1..] == Events(s[1..]) + [Got(LF)] + rest;
      ReadWholeLine(Feed(l, s[0]), s[1..], rest);
      FeedsFront(l, s);
    }
  }

  // ----- splitting on spaces -----

  function DropCR(s: seq<Byte>): seq<Byte> {
    if s == [] then []
    else
      var front := DropCR(s[..|s| - 1]);
      if s[|s| - 1] == CR then front else front + [s[|s| - 1]]
  }

  /** Returns vanish, every other byte stays. */
  lemma DropSnoc(s: seq<Byte>, c: Byte)
    ensures DropCR([]) == [] && DropCR(s + [c]) == if c == 13 then DropCR(s) else DropCR(s) + [c]
  {
    assert (s + [c])[..|s|] == s;
  }

  function WordEnd(s: seq<Byte>): (n: nat)
    ensures n <= |s| && SPACE !in s[..n] && (n < |s| ==> s[n] == SPACE)
  {
    if s == [] || s[0] == SPACE then 0 else 1 + WordEnd(s[1..])
  }

  function WordsOf(s: seq<Byte>): seq<seq<Byte>>
    decreases |s|
  {
    if s == [] then []
    else if s[0] == SPACE then WordsOf(s[1..])
    else
      var n := WordEnd(s);
      [s[..n]] + WordsOf(s[n..])
  }

  predicate Open(s: seq<Byte>) {
    s != [] && s[|s| - 1] != 32
  }

  lemma {:induction false} WordEndIs(s: seq<Byte>, n: nat)
    requires n <= |s| && SPACE !in s[..n] && (n < |s| ==> s[n] == SPACE)
    ensures WordEnd(s) == n
  {
    if n > 0 {
      assert s[0] == s[..n][0] && s[1..][..n - 1] == s[..n][1..];
      WordEndIs(s[1..], n - 1);
    }
  }

  /** What one more byte does to a list of words: a space nothing, anything else extends the open word or starts one. */
  predicate Grown(open: bool, c: Byte, w: seq<seq<Byte>>, w': seq<seq<Byte>>) {
    (open ==> w != [] && w[|w| - 1] != [])
    && if c == 32 then w' == w
       else if open then w' == w[..|w| - 1] + [w[|w| - 1] + [c]]
       else w' == w + [[c]]
  }

  lemma GrownBehind(open: bool, c: Byte, w: seq<seq<Byte>>, w': seq<seq<Byte>>, first: seq<Byte>)
    requires Grown(open, c, w, w')
    ensures Grown(open, c, [first] + w, [first] + w')
  {
    if open {
      assert ([first] + w)[..|w|] == [first] + w[..|w| - 1];
    }
  }

  lemma {:induction false} WordsSnoc(s: seq<Byte>, c: Byte)
    ensures Grown(Open(s), c, WordsOf(s), WordsOf(s + [c])) && WordsOf([]) == []
    decreases |s|
  {
    hide Grown, WordEnd;
    var t := s + [c];
    if s == [] {
      FirstByte(c);
      assert t == [c];
    } else if s[0] == SPACE {
      assert t[1..] == s[1..] + [c];
      WordsSnoc(s[1..], c);
    } else {
      var n := WordEnd(s);
      if n < |s| {
        assert t[..n] == s[..n] && t[n] == s[n];
        WordEndIs(t, n);
        WordEndIs(s, n);
        assert t[n..] == s[n..] + [c];
        FirstIsWord(s);
        WordsSnoc(s[n..], c);
        GrownBehind(Open(s), c, WordsOf(s[n..]), WordsOf(t[n..]), s[..n]);
      } else {
        assert s[..n] == s && s[n..] == [];
        OneWord(s, c);
        OneWordGrown(s, c);
      }
    }
  }

  lemma FirstIsWord(s: seq<Byte>)
    requires s != [] && s[0] != SPACE
    ensures WordEnd(s) > 0
  {
  }

  lemma FirstByte(c: Byte)
    ensures Grown(false, c, WordsOf([]), WordsOf([c]))
  {
    if c == SPACE {
      assert [c][1..] == [];
    } else {
      WordEndIs([c], 1);
      assert [c][..1] == [c] && [c][1..] == [];
    }
  }

  lemma OneWordGrown(s: seq<Byte>, c: Byte)
    requires s != [] && s[|s| - 1] != SPACE
    ensures Grown(true, c, [s], if c == SPACE then [s] else [s + [c]])
  {
  }

  lemma OneWord(s: seq<Byte>, c: Byte)
    requires s != [] && SPACE !in s
    ensures WordsOf(s) == [s] && WordsOf(s + [c]) == (if c == SPACE then [s] else [s + [c]])
  {
    var t := s + [c];
    assert s[..|s|] == s && t[..|s|] == s && t[..|t|] == t;
    WordEndIs(s, |s|);
    assert s[|s|..] == [];
    if c == SPACE {
      WordEndIs(t, |s|);
      assert t[|s|..] == [SPACE];
      FirstByte(SPACE);
    } else {
      WordEndIs(t, |t|);
      assert t[|t|..] == [];
    }
  }
}
