/** Laws of `process_input`: every consumed line is accounted for exactly once and in order, and the way the lines are
    grouped is the only one that ends every statement at the first line where it can end. */
module StatementLaws {
  import opened CText
  import opened Statements
  import CStrings

  function LinesOf(e: Event): seq<string> {
    match e
    case Blank(line) => [line]
    case Meta(line) => [line]
    case Submitted(lines, _) => lines
    case Discarded(lines) => lines
  }

  function Flat(events: seq<Event>): seq<string> {
    if events == [] then [] else LinesOf(events[0]) + Flat(events[1..])
  }

  lemma {:induction false} FlatAppend(a: seq<Event>, e: Event)
    ensures Flat(a + [e]) == Flat(a) + LinesOf(e)
  {
    if a == [] {
      assert a + [e] == [e] && [e][1..] == [];
    } else {
      assert (a + [e])[1..] == a[1..] + [e];
      FlatAppend(a[1..], e);
    }
  }

  // ---- Conservation ------------------------------------------------------------------------

  /** The consumed lines, in order: those of the events, then those of the statement that is not finished. */
  function Accounted(s: State): seq<string> {
    Flat(s.events) + s.acc
  }

  lemma StepAccounts(cfg: Config, s: State, line: string)
    ensures Accounted(Step(cfg, s, line)) == Accounted(s) + [line]
    ensures Step(cfg, s, line).lineno == s.lineno + 1
  {
    StepCases(cfg, s, line);
    hide Step, Flat, LinesOf;
    var s' := Step(cfg, s, line);
    if s'.events != s.events {
      var e := s'.events[|s.events|];
      FlatAppend(s.events, e);
      assert Flat(s.events) + (s.acc + [line]) + [] == Flat(s.events) + s.acc + [line];
    }
  }

  /** A step adds the line to the current statement, or one event with the lines of the statement and this one. */
  lemma StepCases(cfg: Config, s: State, line: string)
    ensures var s' := Step(cfg, s, line);
            && s'.lineno == s.lineno + 1
            && if s'.events == s.events then s'.acc == s.acc + [line]
               else
                 && |s'.events| == |s.events| + 1 && s'.events == s.events + [s'.events[|s.events|]]
                 && s'.acc == [] && LinesOf(s'.events[|s.events|]) == s.acc + [line]
  {
    hide Appended, Ends, Sent, AllBlank;
  }

  /** Every consumed line is in exactly one event or in the unfinished statement, in input order; all lines are
      consumed unless an error or an exit stops the run. */
  lemma {:induction false} RunAccounts(cfg: Config, s: State, lines: seq<string>)
    ensures var s' := Run(cfg, s, lines);
            && s.lineno <= s'.lineno <= s.lineno + |lines|
            && Accounted(s') == Accounted(s) + lines[..s'.lineno - s.lineno]
            && (s'.lineno == s.lineno + |lines| || Halted(cfg, s'))
    decreases |lines|
  {
    hide Step, Accounted;
    if lines != [] && !Halted(cfg, s) {
      var s1 := Step(cfg, s, lines[0]);
      StepAccounts(cfg, s, lines[0]);
      RunAccounts(cfg, s1, lines[1..]);
      TakeNext(Accounted(s), lines, Run(cfg, s1, lines[1..]).lineno - s1.lineno);
    } else {
      assert Accounted(s) + lines[..0] == Accounted(s);
    }
  }

  lemma TakeNext(a: seq<string>, lines: seq<string>, n: nat)
    requires lines != [] && n < |lines|
    ensures a + [lines[0]] + lines[1..][..n] == a + lines[..n + 1]
  {
    assert lines[..n + 1] == [lines[0]] + lines[1..][..n];
  }

  /** What is executed: the text, or its decoding as documented, up to the first NUL in it. */
  lemma SentIs(cfg: Config, text: string)
    ensures !cfg.backslashOn ==> Sent(cfg, text) == text
    ensures cfg.backslashOn && !CStrings.EscapesS(text) ==>
              var t, d := Sent(cfg, text), CStrings.Documented(text);
              t <= d && NulFree(t) && (t == d || d[|t|] == NUL)
  {
    CStrings.DecodedAsDocumented(text);
  }

  // ---- Grouping ----------------------------------------------------------------------------

  /** The text of a statement: its lines joined by newlines, without the leading white space of the first, a terminator
      line standing for ";" where the text before it could end. */
  function TextOf(cfg: Config, alloc: bool, ls: seq<string>): string
    decreases |ls|
  {
    if ls == [] then []
    else
      var before := ls[..|ls| - 1];
      Appended(cfg, alloc || before != [], before, TextOf(cfg, alloc, before), ls[|ls| - 1])
  }

  function Joined(ls: seq<string>): string {
    if ls == [] then [] else if |ls| == 1 then ls[0] else ls[0] + "\n" + Joined(ls[1..])
  }

  /** Line `i` as it stands in the text: ";" for a terminator where the text before it could end; without its leading
      white space when it is the first. */
  function Kept(cfg: Config, alloc: bool, ls: seq<string>, i: nat): string
    requires i < |ls|
  {
    var l := if IsTerminator(ls[i]) && ((!alloc && i == 0) || cfg.complete(TextOf(cfg, alloc, ls[..i]) + ";")) then ";" else ls[i];
    if i == 0 then l[Blanks(l)..] else l
  }

  function AllKept(cfg: Config, alloc: bool, ls: seq<string>): (k: seq<string>)
    ensures |k| == |ls|
  {
    seq(|ls|, i requires 0 <= i < |ls| => Kept(cfg, alloc, ls, i))
  }

  lemma {:induction false} JoinedLast(ls: seq<string>, l: string)
    ensures Joined(ls + [l]) == if ls == [] then l else Joined(ls) + "\n" + l
  {
    if |ls| > 1 {
      JoinedLast(ls[1..], l);
      assert (ls + [l])[1..] == ls[1..] + [l];
      assert ls[0] + "\n" + (Joined(ls[1..]) + "\n" + l) == ls[0] + "\n" + Joined(ls[1..]) + "\n" + l;
    } else if |ls| == 1 {
      assert (ls + [l])[1..] == [l];
    }
  }

  /** The text of a statement is its lines, each as it is kept, joined by newlines. */
  lemma {:induction false} TextIsJoined(cfg: Config, alloc: bool, ls: seq<string>)
    ensures TextOf(cfg, alloc, ls) == Joined(AllKept(cfg, alloc, ls))
    decreases |ls|
  {
    if ls != [] {
      var n := |ls| - 1;
      var before := ls[..n];
      hide TextOf, Kept, AllKept, Joined;
      assert ls[..n + 1] == ls;
      TextLast(cfg, alloc, ls);
      TextIsJoined(cfg, alloc, before);
      JoinedLast(AllKept(cfg, alloc, before), Kept(cfg, alloc, ls, n));
      KeptSame(cfg, alloc, ls, n);
    }
  }

  lemma TextLast(cfg: Config, alloc: bool, ls: seq<string>)
    requires ls != []
    ensures var n := |ls| - 1;
            TextOf(cfg, alloc, ls) ==
              if n == 0 then Kept(cfg, alloc, ls, n) else TextOf(cfg, alloc, ls[..n]) + "\n" + Kept(cfg, alloc, ls, n)
  {
    hide IsTerminator, Blanks;
  }

  lemma KeptSame(cfg: Config, alloc: bool, ls: seq<string>, n: nat)
    requires n < |ls|
    ensures AllKept(cfg, alloc, ls[..n + 1]) == AllKept(cfg, alloc, ls[..n]) + [Kept(cfg, alloc, ls, n)]
  {
    assert ls[..n + 1][..n] == ls[..n];
    forall i | 0 <= i < n ensures Kept(cfg, alloc, ls[..n + 1], i) == Kept(cfg, alloc, ls[..n], i) {
      assert ls[..n + 1][..i] == ls[..n][..i];
    }
  }

  lemma NoSemicolon(a: string, b: string, c: string)
    requires c == a + "\n" + b
    ensures ';' in c[|a|..] <==> ';' in b
  {
    assert c[|a|..] == "\n" + b;
    assert forall i :: 0 <= i < |b| ==> ("\n" + b)[i + 1] == b[i];
  }

  /** The `k`-th line ends a statement when, as it is kept, it has a semicolon, and the text with it is complete. */
  lemma EndsWhen(cfg: Config, alloc: bool, ls: seq<string>, k: nat)
    requires 0 < k <= |ls|
    ensures Ends(cfg, TextOf(cfg, alloc, ls[..k - 1]), TextOf(cfg, alloc, ls[..k]))
       <==> ';' in Kept(cfg, alloc, ls, k - 1) && cfg.complete(Joined(AllKept(cfg, alloc, ls[..k])))
  {
    var now := ls[..k];
    assert now[..k - 1] == ls[..k - 1];
    TextIsJoined(cfg, alloc, now);
    TextLast(cfg, alloc, now);
    SameKept(cfg, alloc, ls, k);
    hide TextOf, Kept, AllKept, Joined;
    var before, after := TextOf(cfg, alloc, ls[..k - 1]), TextOf(cfg, alloc, now);
    if k == 1 {
      NothingYet(cfg, alloc, ls);
      assert after[0..] == after;
    } else {
      NoSemicolon(before, Kept(cfg, alloc, now, k - 1), after);
    }
  }

  lemma SameKept(cfg: Config, alloc: bool, ls: seq<string>, k: nat)
    requires 0 < k <= |ls|
    ensures Kept(cfg, alloc, ls[..k], k - 1) == Kept(cfg, alloc, ls, k - 1)
  {
    assert ls[..k][..k - 1] == ls[..k - 1];
  }

  lemma NothingYet(cfg: Config, alloc: bool, ls: seq<string>)
    ensures TextOf(cfg, alloc, ls[..0]) == ""
  {
  }

  /** A line that starts a statement. */
  predicate Opens(line: string) {
    !AllBlank(line, 0) && !(line != [] && line[0] == '.')
  }

  /** The first `k` lines make a statement to submit, or nothing but white space and comments. */
  predicate Stops(cfg: Config, alloc: bool, ls: seq<string>, k: nat)
    requires 0 < k <= |ls|
  {
    Ends(cfg, TextOf(cfg, alloc, ls[..k - 1]), TextOf(cfg, alloc, ls[..k])) || AllBlank(TextOf(cfg, alloc, ls[..k]), 0)
  }

  /** `ls` starts a statement that none of its first `n` lines finishes. */
  predicate Open(cfg: Config, alloc: bool, ls: seq<string>, n: nat)
    requires n <= |ls|
  {
    (ls != [] ==> Opens(ls[0])) && forall k :: 0 < k <= n ==> !Stops(cfg, alloc, ls, k)
  }

  /** An event says of its lines what the shell promises.  A statement ends at the first line that can end it. */
  predicate ValidEvent(cfg: Config, alloc: bool, e: Event) {
    match e
    case Blank(line) => AllBlank(line, 0)
    case Meta(line) => !AllBlank(line, 0) && line != [] && line[0] == '.'
    case Submitted(ls, sql) =>
      && ls != [] && Open(cfg, alloc, ls, |ls| - 1)
      && Ends(cfg, TextOf(cfg, alloc, ls[..|ls| - 1]), TextOf(cfg, alloc, ls))
      && sql == Sent(cfg, TextOf(cfg, alloc, ls))
    case Discarded(ls) =>
      && ls != [] && Open(cfg, alloc, ls, |ls| - 1)
      && !Ends(cfg, TextOf(cfg, alloc, ls[..|ls| - 1]), TextOf(cfg, alloc, ls))
      && AllBlank(TextOf(cfg, alloc, ls), 0)
  }

  predicate IsStatement(e: Event) {
    e.Submitted? || e.Discarded?
  }

  /** The buffer has been allocated, given that it was (`alloc`) before these events. */
  predicate AllocAfter(alloc: bool, events: seq<Event>) {
    alloc || exists i :: 0 <= i < |events| && IsStatement(events[i])
  }

  predicate ValidFrom(cfg: Config, alloc: bool, events: seq<Event>)
    decreases |events|
  {
    events == [] || (ValidEvent(cfg, alloc, events[0]) && ValidFrom(cfg, alloc || IsStatement(events[0]), events[1..]))
  }

  /** A grouping of lines into events and an unfinished statement `acc`. */
  predicate Grouping(cfg: Config, alloc: bool, events: seq<Event>, acc: seq<string>) {
    ValidFrom(cfg, alloc, events) && Open(cfg, AllocAfter(alloc, events), acc, |acc|)
  }

  lemma AllocNext(alloc: bool, events: seq<Event>)
    requires events != []
    ensures AllocAfter(alloc, events) == AllocAfter(alloc || IsStatement(events[0]), events[1..])
  {
    assert forall i :: 1 <= i < |events| ==> events[i] == events[1..][i - 1];
    if exists i :: 0 <= i < |events| && IsStatement(events[i]) {
      var i :| 0 <= i < |events| && IsStatement(events[i]);
      if i > 0 { assert IsStatement(events[1..][i - 1]); }
    }
    if exists i :: 0 <= i < |events[1..]| && IsStatement(events[1..][i]) {
      var i :| 0 <= i < |events[1..]| && IsStatement(events[1..][i]);
      assert IsStatement(events[i + 1]);
    }
  }

  lemma {:induction false} ValidAppend(cfg: Config, alloc: bool, events: seq<Event>, e: Event)
    requires ValidFrom(cfg, alloc, events) && ValidEvent(cfg, AllocAfter(alloc, events), e)
    ensures ValidFrom(cfg, alloc, events + [e])
    decreases |events|
  {
    hide ValidEvent;
    if events == [] {
      assert events + [e] == [e] && [e][1..] == [];
    } else {
      assert (events + [e])[1..] == events[1..] + [e] && (events + [e])[0] == events[0];
      AllocNext(alloc, events);
      ValidAppend(cfg, alloc || IsStatement(events[0]), events[1..], e);
    }
  }

  /** What every step keeps. */
  predicate Good(cfg: Config, s: State) {
    && Grouping(cfg, false, s.events, s.acc)
    && s.alloc == (AllocAfter(false, s.events) || s.acc != [])
    && s.text == TextOf(cfg, AllocAfter(false, s.events), s.acc)
  }

  lemma AllocAppend(alloc: bool, events: seq<Event>, e: Event)
    ensures AllocAfter(alloc, events + [e]) == (AllocAfter(alloc, events) || IsStatement(e))
  {
    var all := events + [e];
    assert all[|events|] == e;
    assert forall i :: 0 <= i < |events| ==> all[i] == events[i];
  }

  lemma TextOfNext(cfg: Config, alloc: bool, ls: seq<string>, line: string)
    ensures TextOf(cfg, alloc, ls + [line]) == Appended(cfg, alloc || ls != [], ls, TextOf(cfg, alloc, ls), line)
  {
    assert (ls + [line])[..|ls|] == ls;
  }

  lemma OpenNext(cfg: Config, alloc: bool, ls: seq<string>, line: string)
    requires Open(cfg, alloc, ls, |ls|) && (ls == [] ==> Opens(line))
    ensures Open(cfg, alloc, ls + [line], |ls|)
  {
    hide Ends, TextOf, AllBlank, Opens;
    var more := ls + [line];
    forall k | 0 < k <= |ls| ensures !Stops(cfg, alloc, more, k) {
      assert !Stops(cfg, alloc, ls, k);
      assert more[..k] == ls[..k] && more[..k - 1] == ls[..k - 1];
    }
  }

  lemma EventGood(cfg: Config, s: State, s': State, e: Event)
    requires Good(cfg, s) && ValidEvent(cfg, AllocAfter(false, s.events), e)
    requires s'.events == s.events + [e] && s'.acc == [] && s'.text == [] && s'.alloc == (s.alloc || IsStatement(e))
    requires s.acc != [] ==> IsStatement(e)
    ensures Good(cfg, s')
  {
    hide ValidEvent, ValidFrom, Stops;
    ValidAppend(cfg, false, s.events, e);
    AllocAppend(false, s.events, e);
  }

  lemma StatementGood(cfg: Config, s: State, line: string)
    requires Good(cfg, s) && (s.acc == [] ==> Opens(line))
    ensures Good(cfg, Step(cfg, s, line))
  {
    hide AllBlank, Ends, ValidFrom, Appended, Good, AllocAfter, Open, TextOf, Sent;
    var a := AllocAfter(false, s.events);
    var acc := s.acc + [line];
    GoodText(cfg, s, line);
    var text := TextOf(cfg, a, acc);
    var s' := Step(cfg, s, line);
    if Ends(cfg, s.text, text) {
      EventGood(cfg, s, s', Submitted(acc, Sent(cfg, text)));
    } else if AllBlank(text, 0) {
      EventGood(cfg, s, s', Discarded(acc));
    } else {
      OpenGood(cfg, s, s', line);
    }
  }

  /** The text that the step computes, and the statement that it would finish. */
  lemma GoodText(cfg: Config, s: State, line: string)
    requires Good(cfg, s) && (s.acc == [] ==> Opens(line))
    ensures var a, acc := AllocAfter(false, s.events), s.acc + [line];
            && TextOf(cfg, a, acc) == Appended(cfg, s.alloc, s.acc, s.text, line)
            && Open(cfg, a, acc, |s.acc|) && acc[..|acc| - 1] == s.acc && TextOf(cfg, a, s.acc) == s.text
  {
    hide AllBlank, Ends, ValidFrom, Appended, TextOf, Opens;
    var a, acc := AllocAfter(false, s.events), s.acc + [line];
    TextOfNext(cfg, a, s.acc, line);
    OpenNext(cfg, a, s.acc, line);
    assert acc[..|acc| - 1] == s.acc;
  }

  lemma OpenGood(cfg: Config, s: State, s': State, line: string)
    requires Good(cfg, s) && (s.acc == [] ==> Opens(line))
    requires var text := TextOf(cfg, AllocAfter(false, s.events), s.acc + [line]);
             !Ends(cfg, s.text, text) && !AllBlank(text, 0) && s'.text == text
    requires s'.events == s.events && s'.acc == s.acc + [line] && s'.alloc
    ensures Good(cfg, s')
  {
    hide AllBlank, Ends, ValidFrom, Appended, TextOf, Opens;
    var a, acc := AllocAfter(false, s.events), s.acc + [line];
    OpenNext(cfg, a, s.acc, line);
    assert acc[..|s.acc|] == s.acc && acc[..|acc|] == acc;
    assert !Stops(cfg, a, acc, |acc|);
  }

  lemma StepGood(cfg: Config, s: State, line: string)
    requires Good(cfg, s)
    ensures Good(cfg, Step(cfg, s, line))
  {
    hide Good, Appended, Ends, Sent;
    if s.acc == [] && !Opens(line) {
      var e := if AllBlank(line, 0) then Blank(line) else Meta(line);
      TextEmpty(cfg, s);
      EventGood(cfg, s, Step(cfg, s, line), e);
    } else {
      StatementGood(cfg, s, line);
    }
  }

  lemma TextEmpty(cfg: Config, s: State)
    requires Good(cfg, s) && s.acc == []
    ensures s.text == []
  {
  }

  lemma {:induction false} RunGood(cfg: Config, s: State, lines: seq<string>)
    requires Good(cfg, s)
    ensures Good(cfg, Run(cfg, s, lines))
    decreases |lines|
  {
    hide Good, Step;
    if lines != [] && !Halted(cfg, s) {
      StepGood(cfg, s, lines[0]);
      RunGood(cfg, Step(cfg, s, lines[0]), lines[1..]);
    }
  }

  /** `process_input` groups the lines it consumes: no line is lost, and every event is what the shell promises. */
  lemma RunGroups(cfg: Config, lines: seq<string>)
    ensures var s := Run(cfg, Start, lines);
            && s.lineno <= |lines| && (s.lineno == |lines| || Halted(cfg, s))
            && Flat(s.events) + s.acc == lines[..s.lineno]
            && Grouping(cfg, false, s.events, s.acc)
  {
    RunAccounts(cfg, Start, lines);
    RunGood(cfg, Start, lines);
    assert [] + lines[..Run(cfg, Start, lines).lineno] == lines[..Run(cfg, Start, lines).lineno];
  }

  // ---- The grouping is the only one --------------------------------------------------------

  lemma StopsPrefix(cfg: Config, alloc: bool, ls: seq<string>, all: seq<string>, k: nat)
    requires 0 < k <= |ls| && ls <= all
    ensures Stops(cfg, alloc, ls, k) == Stops(cfg, alloc, all, k)
  {
    hide Ends, TextOf, AllBlank;
    assert ls[..k] == all[..k] && ls[..k - 1] == all[..k - 1];
  }

  /** The lines of a statement event stop, for the first time, at its last line. */
  lemma StatementStops(cfg: Config, alloc: bool, e: Event)
    requires ValidEvent(cfg, alloc, e) && IsStatement(e)
    ensures var ls := LinesOf(e); ls != [] && Opens(ls[0]) && Open(cfg, alloc, ls, |ls| - 1) && Stops(cfg, alloc, ls, |ls|)
  {
    hide Ends, TextOf, AllBlank;
    var ls := LinesOf(e);
    assert ls[..|ls|] == ls;
  }

  /** Of two statements that are prefixes of the same lines, the first cannot stop before the second. */
  lemma SameStop(cfg: Config, alloc: bool, e: Event, ls: seq<string>, n: nat, all: seq<string>)
    requires ValidEvent(cfg, alloc, e) && IsStatement(e) && LinesOf(e) <= all && ls <= all
    requires n <= |ls| && Open(cfg, alloc, ls, n)
    ensures |LinesOf(e)| > n
  {
    hide ValidEvent, Stops, Opens;
    StatementStops(cfg, alloc, e);
    var k := |LinesOf(e)|;
    if k <= n {
      StopsPrefix(cfg, alloc, LinesOf(e), all, k);
      StopsPrefix(cfg, alloc, ls, all, k);
    }
  }

  lemma EventFirst(cfg: Config, alloc: bool, e: Event)
    requires ValidEvent(cfg, alloc, e)
    ensures LinesOf(e) != [] && (IsStatement(e) <==> Opens(LinesOf(e)[0]))
  {
    hide Ends, TextOf, Stops;
  }

  lemma SameEvent(cfg: Config, alloc: bool, x: Event, y: Event, all: seq<string>)
    requires ValidEvent(cfg, alloc, x) && ValidEvent(cfg, alloc, y) && LinesOf(x) <= all && LinesOf(y) <= all
    ensures x == y
  {
    hide AllBlank, Ends, TextOf, Sent, Stops;
    EventFirst(cfg, alloc, x);
    EventFirst(cfg, alloc, y);
    assert LinesOf(x)[0] == all[0] == LinesOf(y)[0];
    if IsStatement(x) {
      SameStop(cfg, alloc, x, LinesOf(y), |LinesOf(y)| - 1, all);
      SameStop(cfg, alloc, y, LinesOf(x), |LinesOf(x)| - 1, all);
      assert LinesOf(x) == LinesOf(y);
    }
  }

  /** Two groupings of the same lines are equal. */
  lemma {:induction false} GroupingUnique(cfg: Config, alloc: bool, es: seq<Event>, acc: seq<string>, es': seq<Event>, acc': seq<string>)
    requires Grouping(cfg, alloc, es, acc) && Grouping(cfg, alloc, es', acc')
    requires Flat(es) + acc == Flat(es') + acc'
    ensures es == es' && acc == acc'
    decreases |es| + |es'|
  {
    hide ValidEvent, Stops, Opens;
    if es == [] && es' == [] {
      assert [] + acc == acc && [] + acc' == acc';
    } else if es == [] {
      NotBoth(cfg, alloc, es', acc', acc);
    } else if es' == [] {
      NotBoth(cfg, alloc, es, acc, acc');
    } else {
      var all := Flat(es) + acc;
      FlatPrefix(es, acc);
      FlatPrefix(es', acc');
      SameEvent(cfg, alloc, es[0], es'[0], all);
      AllocNext(alloc, es);
      AllocNext(alloc, es');
      var n := |LinesOf(es[0])|;
      assert Flat(es[1..]) + acc == all[n..] == Flat(es'[1..]) + acc';
      GroupingUnique(cfg, alloc || IsStatement(es[0]), es[1..], acc, es'[1..], acc');
      assert es == [es[0]] + es[1..] && es' == [es'[0]] + es'[1..];
    }
  }

  lemma FlatPrefix(es: seq<Event>, acc: seq<string>)
    requires es != []
    ensures LinesOf(es[0]) <= Flat(es) + acc
    ensures (Flat(es) + acc)[|LinesOf(es[0])|..] == Flat(es[1..]) + acc
  {
    assert Flat(es) + acc == LinesOf(es[0]) + (Flat(es[1..]) + acc);
  }

  /** Lines that form one unfinished statement have no other grouping. */
  lemma NotBoth(cfg: Config, alloc: bool, es: seq<Event>, acc: seq<string>, open: seq<string>)
    requires es != [] && Grouping(cfg, alloc, es, acc) && Open(cfg, alloc, open, |open|)
    ensures open != Flat(es) + acc
  {
    hide ValidEvent, Stops, Opens;
    FlatPrefix(es, acc);
    EventFirst(cfg, alloc, es[0]);
    if open == Flat(es) + acc {
      assert LinesOf(es[0])[0] == open[0];
      SameStop(cfg, alloc, es[0], open, |open|, open);
    }
  }
}
