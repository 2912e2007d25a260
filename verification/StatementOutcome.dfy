/** What `process_input` returns and where it stops, read off its events alone. */
module StatementOutcome {
  import opened CText
  import opened Statements
  import opened StatementLaws

  /** The number of the last line of event `i`. */
  function EndLine(events: seq<Event>, i: nat): nat
    requires i < |events|
  {
    |Flat(events[..i + 1])|
  }

  /** Event `i` counts as an error: a statement that fails, or a meta-command that neither succeeds nor asks to exit. */
  predicate Fails(cfg: Config, events: seq<Event>, i: nat)
    requires i < |events|
  {
    var k := EndLine(events, i);
    match events[i]
    case Submitted(_, _) => cfg.fails(k)
    case Meta(_) => cfg.meta(k) != 0 && cfg.meta(k) != 2
    case _ => false
  }

  predicate AsksExit(cfg: Config, events: seq<Event>, i: nat)
    requires i < |events|
  {
    events[i].Meta? && cfg.meta(EndLine(events, i)) == 2
  }

  /** An error up to line `j`. */
  ghost predicate FailedBy(cfg: Config, events: seq<Event>, j: nat) {
    exists i :: 0 <= i < |events| && EndLine(events, i) <= j && Fails(cfg, events, i)
  }

  ghost predicate ExitAt(cfg: Config, events: seq<Event>, j: nat) {
    exists i :: 0 <= i < |events| && EndLine(events, i) == j && AsksExit(cfg, events, i)
  }

  /** No line is read after line `j`: its meta-command asks to exit, or there has been an error and the bail setting is
      on, unless the input is interactive. */
  ghost predicate StopsAfter(cfg: Config, events: seq<Event>, j: nat) {
    ExitAt(cfg, events, j) || (!cfg.interactive && cfg.bail(j) && FailedBy(cfg, events, j))
  }

  // ---- The counters of a state -------------------------------------------------------------

  /** The counters say what the events say. */
  ghost predicate Tally(cfg: Config, s: State) {
    && s.lineno == |Flat(s.events)| + |s.acc|
    && (s.errors > 0 <==> FailedBy(cfg, s.events, s.lineno))
    && (s.exit <==> ExitAt(cfg, s.events, s.lineno))
  }

  lemma {:induction false} FlatPrefixLength(events: seq<Event>, i: nat)
    requires i <= |events|
    ensures |Flat(events[..i])| <= |Flat(events)|
    decreases |events|
  {
    if i < |events| {
      var n := |events| - 1;
      assert events == events[..n] + [events[n]];
      FlatAppend(events[..n], events[n]);
      FlatPrefixLength(events[..n], i);
      assert events[..n][..i] == events[..i];
    } else {
      assert events[..i] == events;
    }
  }

  /** Events that are already there keep their line numbers. */
  lemma SameEvents(cfg: Config, events: seq<Event>, more: seq<Event>, i: nat)
    requires i < |events| && events <= more
    ensures EndLine(more, i) == EndLine(events, i) <= |Flat(events)|
    ensures Fails(cfg, more, i) == Fails(cfg, events, i) && AsksExit(cfg, more, i) == AsksExit(cfg, events, i)
  {
    assert more[..i + 1] == events[..i + 1];
    FlatPrefixLength(events, i + 1);
  }

  lemma SameFailures(cfg: Config, events: seq<Event>, more: seq<Event>, j: nat)
    requires events <= more && forall i :: |events| <= i < |more| ==> EndLine(more, i) > j
    ensures FailedBy(cfg, more, j) == FailedBy(cfg, events, j)
  {
    forall i | 0 <= i < |events|
      ensures EndLine(more, i) == EndLine(events, i) && Fails(cfg, more, i) == Fails(cfg, events, i)
    {
      SameEvents(cfg, events, more, i);
    }
    hide EndLine, Fails;
  }

  lemma SameExit(cfg: Config, events: seq<Event>, more: seq<Event>, j: nat)
    requires events <= more && forall i :: |events| <= i < |more| ==> EndLine(more, i) > j
    ensures ExitAt(cfg, more, j) == ExitAt(cfg, events, j)
  {
    forall i | 0 <= i < |events|
      ensures EndLine(more, i) == EndLine(events, i) && AsksExit(cfg, more, i) == AsksExit(cfg, events, i)
    {
      SameEvents(cfg, events, more, i);
    }
    hide EndLine, AsksExit;
  }

  /** Events that end after line `j` do not matter at line `j`. */
  lemma SameStops(cfg: Config, events: seq<Event>, more: seq<Event>, j: nat)
    requires events <= more && forall i :: |events| <= i < |more| ==> EndLine(more, i) > j
    ensures StopsAfter(cfg, more, j) == StopsAfter(cfg, events, j)
  {
    SameFailures(cfg, events, more, j);
    SameExit(cfg, events, more, j);
  }

  /** Every event ends at a line that has been read. */
  lemma EndsRead(cfg: Config, s: State, i: nat)
    requires Tally(cfg, s) && i < |s.events|
    ensures EndLine(s.events, i) <= |Flat(s.events)| <= s.lineno
  {
    SameEvents(cfg, s.events, s.events, i);
  }

  // ---- One line ----------------------------------------------------------------------------

  /** The event that a step adds ends at the line read. */
  lemma StepEnds(cfg: Config, s: State, line: string)
    requires s.lineno == |Flat(s.events)| + |s.acc|
    ensures var s' := Step(cfg, s, line);
            && s'.lineno == s.lineno + 1 == |Flat(s'.events)| + |s'.acc|
            && s.events <= s'.events && |s'.events| <= |s.events| + 1
            && (s'.events != s.events ==> |s'.events| == |s.events| + 1 && EndLine(s'.events, |s.events|) == s'.lineno)
  {
    StepAccounts(cfg, s, line);
    StepCases(cfg, s, line);
    hide Step;
    var s' := Step(cfg, s, line);
    assert |Accounted(s')| == |Accounted(s)| + 1;
    if s'.events != s.events { assert s'.events[..|s.events| + 1] == s'.events; }
  }

  /** The counters after a step, by the event that it adds. */
  lemma StepCounts(cfg: Config, s: State, line: string)
    ensures var s' := Step(cfg, s, line);
            var k := s.lineno + 1;
            if s'.events == s.events then s'.errors == s.errors && s'.exit == s.exit
            else
              && |s'.events| > |s.events|
              && match s'.events[|s.events|]
                 case Submitted(_, _) => s'.exit == s.exit && s'.errors == s.errors + if cfg.fails(k) then 1 else 0
                 case Meta(_) => s'.exit == (cfg.meta(k) == 2)
                                 && s'.errors == s.errors + if cfg.meta(k) != 0 && cfg.meta(k) != 2 then 1 else 0
                 case _ => s'.exit == s.exit && s'.errors == s.errors
  {
    hide Appended, Ends, Sent, AllBlank;
  }

  lemma StepTally(cfg: Config, s: State, line: string)
    requires Tally(cfg, s) && !s.exit
    ensures Tally(cfg, Step(cfg, s, line))
  {
    StepEnds(cfg, s, line);
    StepCounts(cfg, s, line);
    var s' := Step(cfg, s, line);
    hide Step;
    forall i | 0 <= i < |s.events|
      ensures EndLine(s'.events, i) <= s.lineno
      ensures Fails(cfg, s'.events, i) ==> FailedBy(cfg, s.events, s.lineno)
    {
      SameEvents(cfg, s.events, s'.events, i);
      EndsRead(cfg, s, i);
    }
    StepFailures(cfg, s, s');
    StepExit(cfg, s, s');
  }

  lemma StepFailures(cfg: Config, s: State, s': State)
    requires Tally(cfg, s) && s.events <= s'.events && |s'.events| <= |s.events| + 1 && s'.lineno == s.lineno + 1
    requires s'.events != s.events ==> |s'.events| == |s.events| + 1 && EndLine(s'.events, |s.events|) == s'.lineno
    requires s'.errors > 0 <==> s.errors > 0 || (s'.events != s.events && Fails(cfg, s'.events, |s.events|))
    ensures s'.errors > 0 <==> FailedBy(cfg, s'.events, s'.lineno)
  {
    forall i | 0 <= i < |s.events|
      ensures EndLine(s'.events, i) == EndLine(s.events, i) <= s.lineno && Fails(cfg, s'.events, i) == Fails(cfg, s.events, i)
    {
      SameEvents(cfg, s.events, s'.events, i);
      EndsRead(cfg, s, i);
    }
    hide EndLine, Fails;
    if s'.events != s.events && Fails(cfg, s'.events, |s.events|) { assert FailedBy(cfg, s'.events, s'.lineno); }
    if i :| 0 <= i < |s.events| && EndLine(s.events, i) <= s.lineno && Fails(cfg, s.events, i) {
      assert EndLine(s'.events, i) <= s'.lineno && Fails(cfg, s'.events, i);
    }
    if i :| 0 <= i < |s'.events| && EndLine(s'.events, i) <= s'.lineno && Fails(cfg, s'.events, i) {
      if i < |s.events| { assert Fails(cfg, s.events, i); }
    }
  }

  lemma StepExit(cfg: Config, s: State, s': State)
    requires Tally(cfg, s) && s.events <= s'.events && |s'.events| <= |s.events| + 1 && s'.lineno == s.lineno + 1
    requires s'.events != s.events ==> |s'.events| == |s.events| + 1 && EndLine(s'.events, |s.events|) == s'.lineno
    requires s'.exit <==> s'.events != s.events && AsksExit(cfg, s'.events, |s.events|)
    ensures s'.exit <==> ExitAt(cfg, s'.events, s'.lineno)
  {
    forall i | 0 <= i < |s.events| ensures EndLine(s'.events, i) <= s.lineno {
      SameEvents(cfg, s.events, s'.events, i);
      EndsRead(cfg, s, i);
    }
    hide EndLine, AsksExit;
  }

  // ---- Runs --------------------------------------------------------------------------------

  lemma StartTally(cfg: Config)
    ensures Tally(cfg, Start)
  {
  }

  lemma HaltedStops(cfg: Config, s: State)
    requires Tally(cfg, s)
    ensures Halted(cfg, s) <==> StopsAfter(cfg, s.events, s.lineno)
  {
  }

  /** Events of later lines end at later lines. */
  lemma {:induction false} RunEnds(cfg: Config, s: State, lines: seq<string>)
    requires Tally(cfg, s)
    ensures var s' := Run(cfg, s, lines);
            && Tally(cfg, s') && s.events <= s'.events && s.lineno <= s'.lineno <= s.lineno + |lines|
            && forall i :: |s.events| <= i < |s'.events| ==> EndLine(s'.events, i) > s.lineno
    decreases |lines|
  {
    hide Step, Tally, EndLine;
    if lines != [] && !Halted(cfg, s) {
      var s1 := Step(cfg, s, lines[0]);
      TallyLines(cfg, s);
      StepEnds(cfg, s, lines[0]);
      StepTally(cfg, s, lines[0]);
      RunEnds(cfg, s1, lines[1..]);
      if s1.events != s.events { SameEvents(cfg, s1.events, Run(cfg, s1, lines[1..]).events, |s.events|); }
    }
  }

  lemma TallyLines(cfg: Config, s: State)
    requires Tally(cfg, s)
    ensures s.lineno == |Flat(s.events)| + |s.acc|
  {
  }

  lemma NotExited(cfg: Config, s: State)
    requires !Halted(cfg, s)
    ensures !s.exit
  {
  }

  /** Lines are read up to the first one after which none is, or up to the end. */
  lemma {:induction false} RunStops(cfg: Config, s: State, lines: seq<string>)
    requires Tally(cfg, s)
    ensures var s' := Run(cfg, s, lines);
            && (forall j :: s.lineno <= j < s'.lineno ==> !StopsAfter(cfg, s'.events, j))
            && (s'.lineno == s.lineno + |lines| || StopsAfter(cfg, s'.events, s'.lineno))
    decreases |lines|
  {
    hide Step, Tally, EndLine, StopsAfter, Halted;
    RunEnds(cfg, s, lines);
    HaltedStops(cfg, s);
    if lines != [] && !Halted(cfg, s) {
      var s1 := Step(cfg, s, lines[0]);
      var s' := Run(cfg, s1, lines[1..]);
      TallyLines(cfg, s);
      NotExited(cfg, s);
      StepEnds(cfg, s, lines[0]);
      StepTally(cfg, s, lines[0]);
      SameStops(cfg, s.events, s'.events, s.lineno);
      RunStops(cfg, s1, lines[1..]);
    }
  }

  /** Over a whole input: where reading stops, and whether an error is reported, by the events alone. */
  lemma Outcome(cfg: Config, lines: seq<string>)
    ensures var s := Run(cfg, Start, lines);
            && s.lineno <= |lines| && s.lineno == |Flat(s.events)| + |s.acc|
            && (s.lineno == |lines| || StopsAfter(cfg, s.events, s.lineno))
            && (forall j :: 0 <= j < s.lineno ==> !StopsAfter(cfg, s.events, j))
            && (s.errors > 0 <==> exists i :: 0 <= i < |s.events| && Fails(cfg, s.events, i))
  {
    StartTally(cfg);
    RunEnds(cfg, Start, lines);
    RunStops(cfg, Start, lines);
    var s := Run(cfg, Start, lines);
    forall i | 0 <= i < |s.events| ensures EndLine(s.events, i) <= s.lineno { EndsRead(cfg, s, i); }
    hide EndLine, Fails, StopsAfter;
  }

  // ---- The only outcome --------------------------------------------------------------------

  /** What is read of `lines`, said without the counters of the loop: the lines up to the first one after which reading
      stops, cut into events and an unfinished statement. */
  ghost predicate Reads(cfg: Config, lines: seq<string>, events: seq<Event>, acc: seq<string>, lineno: nat) {
    && lineno <= |lines| && Flat(events) + acc == lines[..lineno] && Grouping(cfg, false, events, acc)
    && (lineno == |lines| || StopsAfter(cfg, events, lineno))
    && forall j :: 0 <= j < lineno ==> !StopsAfter(cfg, events, j)
  }

  lemma ReadsRun(cfg: Config, lines: seq<string>)
    ensures var s := Run(cfg, Start, lines);
            && Reads(cfg, lines, s.events, s.acc, s.lineno)
            && (s.errors > 0 <==> exists i :: 0 <= i < |s.events| && Fails(cfg, s.events, i))
  {
    hide Grouping, StopsAfter, Fails, Run;
    RunGroups(cfg, lines);
    Outcome(cfg, lines);
  }

  /** The steps for all of the lines, whether reading stops or not. */
  function Steps(cfg: Config, s: State, lines: seq<string>): State
    decreases |lines|
  {
    if lines == [] then s else Steps(cfg, Step(cfg, s, lines[0]), lines[1..])
  }

  predicate Lined(s: State) {
    s.lineno == |Flat(s.events)| + |s.acc|
  }

  lemma {:induction false} StepsEnd(cfg: Config, s: State, lines: seq<string>)
    requires Lined(s)
    ensures var s' := Steps(cfg, s, lines);
            && Lined(s') && s.events <= s'.events && s'.lineno == s.lineno + |lines|
            && forall i :: |s.events| <= i < |s'.events| ==> EndLine(s'.events, i) > s.lineno
    decreases |lines|
  {
    hide Step, EndLine;
    if lines != [] {
      var s1 := Step(cfg, s, lines[0]);
      StepEnds(cfg, s, lines[0]);
      StepsEnd(cfg, s1, lines[1..]);
      if s1.events != s.events { SameEvents(cfg, s1.events, Steps(cfg, s1, lines[1..]).events, |s.events|); }
    }
  }

  lemma {:induction false} StepsGood(cfg: Config, s: State, lines: seq<string>)
    requires Good(cfg, s)
    ensures Good(cfg, Steps(cfg, s, lines))
    decreases |lines|
  {
    hide Good, Step;
    if lines != [] {
      StepGood(cfg, s, lines[0]);
      StepsGood(cfg, Step(cfg, s, lines[0]), lines[1..]);
    }
  }

  lemma {:induction false} StepsAccount(cfg: Config, s: State, lines: seq<string>)
    ensures Accounted(Steps(cfg, s, lines)) == Accounted(s) + lines
    decreases |lines|
  {
    hide Step, Accounted;
    if lines == [] {
      assert Accounted(s) + [] == Accounted(s);
    } else {
      StepAccounts(cfg, s, lines[0]);
      StepsAccount(cfg, Step(cfg, s, lines[0]), lines[1..]);
      assert Accounted(s) + [lines[0]] + lines[1..] == Accounted(s) + lines;
    }
  }

  lemma {:induction false} StepsSplit(cfg: Config, s: State, a: seq<string>, b: seq<string>)
    ensures Steps(cfg, s, a + b) == Steps(cfg, Steps(cfg, s, a), b)
    decreases |a|
  {
    hide Step;
    if a == [] {
      assert a + b == b;
    } else {
      assert (a + b)[1..] == a[1..] + b;
      StepsSplit(cfg, Step(cfg, s, a[0]), a[1..], b);
    }
  }

  lemma Prefix(lines: seq<string>, j: nat, m: nat)
    requires j <= m <= |lines|
    ensures lines[..j] + lines[j..m] == lines[..m]
  {
  }

  lemma NothingBefore(lines: seq<string>)
    ensures [] + lines == lines
  {
  }

  lemma StartGroups(cfg: Config)
    ensures Good(cfg, Start) && Accounted(Start) == []
  {
  }

  lemma GoodGroups(cfg: Config, s: State)
    requires Good(cfg, s)
    ensures Grouping(cfg, false, s.events, s.acc)
  {
  }

  /** A grouping of the first `m` lines is the one that the steps give. */
  lemma GroupedBySteps(cfg: Config, lines: seq<string>, events: seq<Event>, acc: seq<string>)
    requires Grouping(cfg, false, events, acc) && Flat(events) + acc == lines
    ensures events == Steps(cfg, Start, lines).events && acc == Steps(cfg, Start, lines).acc
  {
    hide Step, Steps, Good, Grouping, Flat;
    var s := Steps(cfg, Start, lines);
    StartGroups(cfg);
    StepsGood(cfg, Start, lines);
    GoodGroups(cfg, s);
    StepsAccount(cfg, Start, lines);
    NothingBefore(lines);
    GroupingUnique(cfg, false, events, acc, s.events, s.acc);
  }

  /** Whether reading stops after line `j` does not depend on the lines after it. */
  lemma StopsByThen(cfg: Config, lines: seq<string>, j: nat, m: nat)
    requires j <= m <= |lines|
    ensures StopsAfter(cfg, Steps(cfg, Start, lines[..m]).events, j) == StopsAfter(cfg, Steps(cfg, Start, lines[..j]).events, j)
  {
    hide StopsAfter, EndLine, Step;
    var s := Steps(cfg, Start, lines[..j]);
    StepsEnd(cfg, Start, lines[..j]);
    StepsSplit(cfg, Start, lines[..j], lines[j..m]);
    Prefix(lines, j, m);
    StepsEnd(cfg, s, lines[j..m]);
    SameStops(cfg, s.events, Steps(cfg, Start, lines[..m]).events, j);
  }

  /** There is one way only to read the lines. */
  lemma ReadsOnce(cfg: Config, lines: seq<string>, events: seq<Event>, acc: seq<string>, m: nat,
                  events': seq<Event>, acc': seq<string>, m': nat)
    requires Reads(cfg, lines, events, acc, m) && Reads(cfg, lines, events', acc', m')
    ensures events == events' && acc == acc' && m == m'
  {
    hide Grouping, StopsAfter, Flat, Steps;
    GroupedBySteps(cfg, lines[..m], events, acc);
    GroupedBySteps(cfg, lines[..m'], events', acc');
    if m < m' { StopsByThen(cfg, lines, m, m'); }
    if m' < m { StopsByThen(cfg, lines, m', m); }
  }
}
