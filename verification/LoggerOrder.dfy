/** Order and hand-over in the logger: when what is printed follows the order of the log calls, and what a worker is
    handed. */
module LoggerOrder {
  import opened Options
  import opened LoggerProtocol

  /** Printed, then held by the worker, then waiting: the entries in the order of the log calls. */
  ghost predicate Ordered(s: State)
    requires JobsOk(s)
  {
    s.printed + ToPrint(s.work) + Waiting(s) == s.submitted
  }

  /** A forced flush prints an entry while the worker still has some to print. */
  predicate Overtakes(s: State, e: Event)
    requires JobsOk(s)
  {
    e.ForceStep? && s.force.Some? && s.force.value.printed < |s.force.value.entries| && ToPrint(s.work) != []
  }

  ghost predicate Overtaken(s: State, es: seq<Event>)
    requires Inv(s) && Runnable(s, es)
    decreases |es|
  {
    es != [] && (Overtakes(s, es[0]) || (StepKeeps(s, es[0]); Overtaken(Apply(s, es[0]), es[1..])))
  }

  /** The printed entries have left the order of the log calls. */
  ghost predicate Broken(s: State) {
    exists k :: 0 <= k < |s.printed| && k < |s.submitted| && s.printed[k] != s.submitted[k]
  }

  lemma WorkOrdered(s: State, e: Event)
    requires Inv(s) && Enabled(s, e) && Ordered(s) && e.WorkStep? && JobsOk(Apply(s, e))
    ensures Ordered(Apply(s, e))
  {
    OneJob(s.work);
    OneJob(Apply(s, e).work);
    AdvanceFlushes(s, s.work[0]);
  }

  lemma ForceOrdered(s: State, e: Event)
    requires JobsOk(s) && Enabled(s, e) && Ordered(s) && e.ForceStep? && !Overtakes(s, e) && JobsOk(Apply(s, e))
    ensures Ordered(Apply(s, e))
  {
    var s' := Apply(s, e);
    assert s'.work == s.work && s'.submitted == s.submitted;
    AdvanceFlushes(s, s.force.value);
    if s'.printed != s.printed {
      assert s.printed + [] == s.printed && s'.printed + [] == s'.printed;
    } else {
      assert Waiting(s') == Waiting(s);
    }
  }

  lemma EnqueueOrdered(s: State, s1: State, more: seq<Entry>)
    requires JobsOk(s) && Ordered(s) && s.force.None?
    requires s1 == s.(queue := Some(Queued(s.queue) + more), submitted := s.submitted + more)
    ensures JobsOk(s1) && Ordered(s1)
  {
    var held := s.printed + ToPrint(s.work);
    assert held + Queued(s.queue) + more == held + (Queued(s.queue) + more);
  }

  lemma ScheduleOrdered(s: State)
    requires JobsOk(s) && Ordered(s) && s.force.None? && s.work == []
    ensures JobsOk(Schedule(s)) && Ordered(Schedule(s))
  {
    var s' := Schedule(s);
    assert s'.work == [Job(Queued(s.queue), 0, 0)];
    OneJob(s'.work);
    assert s'.work[0].Unprinted() == Queued(s.queue);
    assert s.printed + [] == s.printed;
  }

  lemma LogOrdered(s: State, e: Event)
    requires Inv(s) && Enabled(s, e) && Ordered(s) && e.Log? && JobsOk(Apply(s, e))
    ensures Ordered(Apply(s, e))
  {
    if s.init { CallOrdered(s, e); }
  }

  lemma CallOrdered(s: State, e: Event)
    requires JobsOk(s) && (s.flushOngoing <==> s.work != []) && Enabled(s, e) && Ordered(s) && e.Log? && s.init
    ensures JobsOk(Apply(s, e)) && Ordered(Apply(s, e))
  {
    var more := NewEntries(|s.submitted|, e.level, e.msg);
    var s1 := s.(queue := Some(Queued(s.queue) + more), submitted := s.submitted + more);
    EnqueueOrdered(s, s1, more);
    if !s.flushOngoing { ScheduleOrdered(s1); }
  }

  lemma DoneOrdered(s: State, e: Event)
    requires Inv(s) && Enabled(s, e) && Ordered(s) && (e.Done? || e.ForceEnd? || e.ForceBegin?) && JobsOk(Apply(s, e))
    ensures Ordered(Apply(s, e))
  {
    if e.Done? {
      OneJob(s.work);
      assert s.work[0].Unprinted() == [];
    } else if e.ForceEnd? {
      assert s.force.value.Unprinted() == [];
    }
  }

  lemma InvJobs(s: State)
    requires Inv(s)
    ensures JobsOk(s)
  {
  }

  lemma InitOrdered(s: State, e: Event)
    requires Inv(s) && Enabled(s, e) && Ordered(s) && e.SetInit? && JobsOk(Apply(s, e))
    ensures Ordered(Apply(s, e))
  {
  }

  lemma StepOrdered(s: State, e: Event)
    requires Inv(s) && Enabled(s, e) && Ordered(s) && !Overtakes(s, e)
    ensures Inv(Apply(s, e)) && Ordered(Apply(s, e))
  {
    StepKeeps(s, e);
    InvJobs(s);
    InvJobs(Apply(s, e));
    hide Inv, Ordered, Apply, Overtakes, Enabled, JobsOk;
    match e
    case Log(_, _) => LogOrdered(s, e);
    case WorkStep(_) => WorkOrdered(s, e);
    case ForceStep => ForceOrdered(s, e);
    case SetInit(_) => InitOrdered(s, e);
    case _ => DoneOrdered(s, e);
  }

  lemma Ahead(all: seq<Entry>, a: seq<Entry>, b: seq<Entry>, c: seq<Entry>)
    requires all == a + b + c && Numbered(all) && b != [] && c != []
    ensures |a| < |all| && all[|a|] == b[0] != c[0]
  {
    assert all[|a|] == b[0] && all[|a| + |b|] == c[0];
  }

  /** An overtaking step puts a later entry where the worker's next one belongs. */
  lemma StepBreaks(s: State, e: Event)
    requires JobsOk(s) && Numbered(s.submitted) && Enabled(s, e) && Ordered(s) && Overtakes(s, e)
    ensures Broken(Apply(s, e))
  {
    var j := s.force.value;
    var c := Waiting(s);
    assert c[0] == j.entries[j.printed];
    Ahead(s.submitted, s.printed, ToPrint(s.work), c);
    var s' := Apply(s, e);
    assert s'.printed[|s.printed|] == c[0] && s'.submitted == s.submitted;
  }

  lemma StepBroken(s: State, e: Event)
    requires Enabled(s, e) && Broken(s)
    ensures Broken(Apply(s, e))
  {
    var k :| 0 <= k < |s.printed| && k < |s.submitted| && s.printed[k] != s.submitted[k];
    var s' := Apply(s, e);
    assert s'.printed[k] == s.printed[k] && s'.submitted[k] == s.submitted[k];
  }

  lemma {:induction false} RunBroken(s: State, es: seq<Event>)
    requires Runnable(s, es) && Broken(s)
    ensures Broken(Run(s, es))
    decreases |es|
  {
    if es != [] {
      StepBroken(s, es[0]);
      RunBroken(Apply(s, es[0]), es[1..]);
    }
  }

  lemma {:induction false} RunOrdered(s: State, es: seq<Event>)
    requires Inv(s) && Runnable(s, es) && Ordered(s)
    ensures Inv(Run(s, es))
    ensures if Overtaken(s, es) then Broken(Run(s, es)) else Ordered(Run(s, es))
    decreases |es|
  {
    RunKeeps(s, es);
    if es != [] {
      if Overtakes(s, es[0]) {
        StepBreaks(s, es[0]);
        RunBroken(Apply(s, es[0]), es[1..]);
      } else {
        StepOrdered(s, es[0]);
        RunOrdered(Apply(s, es[0]), es[1..]);
      }
    }
  }

  lemma OrderedIsPrefix(s: State)
    requires JobsOk(s)
    ensures Ordered(s) ==> s.printed <= s.submitted
    ensures Broken(s) ==> !(s.printed <= s.submitted)
  {
    if Ordered(s) {
      assert s.submitted == s.printed + (ToPrint(s.work) + Waiting(s));
    }
  }

  /** In a run from the start, entries are printed in the order of the log calls exactly when no forced flush prints
      an entry while the worker still has some to print. */
  lemma PrintedInOrder(es: seq<Event>)
    requires Runnable(Start, es)
    ensures Run(Start, es).printed <= Run(Start, es).submitted <==> !Overtaken(Start, es)
  {
    RunOrdered(Start, es);
    OrderedIsPrefix(Run(Start, es));
  }

  /** A run that leaves the order: the second entry is forced out while the worker still holds the first. */
  lemma OvertakingRun()
    ensures var es := [SetInit(true), Log(INFO, Some("a")), Log(INFO, Some("b")), ForceBegin, ForceStep];
            Runnable(Start, es) && Overtaken(Start, es) && !(Run(Start, es).printed <= Run(Start, es).submitted)
  {
    var a, b := Entry(0, INFO, "a"), Entry(1, INFO, "b");
    var es := [SetInit(true), Log(INFO, Some("a")), Log(INFO, Some("b")), ForceBegin, ForceStep];
    var s1 := Start.(init := true);
    var s2 := s1.(flushOngoing := true, work := [Job([a], 0, 0)], submitted := [a]);
    var s3 := s2.(queue := Some([b]), submitted := [a, b]);
    var s5 := s3.(force := Some(Job([b], 1, 0)), printed := [b]);
    FirstLog(s1, a);
    SecondLog(s2, a, b);
    ForcedOut(s3, b);
    assert Apply(Start, es[0]) == s1;
    hide Apply;
    RunNext(s2, s3, es[2], [ForceBegin, ForceStep], s5);
    RunNext(s1, s2, es[1], [es[2], ForceBegin, ForceStep], s5);
    RunNext(Start, s1, es[0], [es[1], es[2], ForceBegin, ForceStep], s5);
    assert es == [es[0]] + [es[1], es[2], ForceBegin, ForceStep];
    PrintedInOrder(es);
    assert s5.printed[0] != s5.submitted[0];
  }

  lemma SecondLog(s: State, a: Entry, b: Entry)
    requires s.init && s.flushOngoing && s.force.None? && s.queue.None? && s.submitted == [a]
    requires b == Entry(1, b.level, b.msg)
    ensures Apply(s, Log(b.level, Some(b.msg))) == s.(queue := Some([b]), submitted := [a, b])
  {
    assert [] + [b] == [b] && [a] + [b] == [a, b];
  }

  lemma ForcedOut(s: State, b: Entry)
    requires s.init && s.force.None? && s.queue == Some([b]) && s.printed == []
    ensures var es := [ForceBegin, ForceStep];
            Runnable(s, es) && Run(s, es) == s.(force := Some(Job([b], 1, 0)), printed := [b])
  {
    var s1 := s.(force := Some(Job([b], 0, 0)));
    var s2 := s1.(force := Some(Job([b], 1, 0)), printed := [b]);
    assert [] + [b] == [b];
    RunNext(s1, s2, ForceStep, [], s2);
    RunNext(s, s1, ForceBegin, [ForceStep], s2);
  }

  lemma FirstLog(s: State, a: Entry)
    requires s == Start.(init := true) && a == Entry(0, a.level, a.msg)
    ensures Apply(s, Log(a.level, Some(a.msg))) == s.(flushOngoing := true, work := [Job([a], 0, 0)], submitted := [a])
  {
    assert [] + [a] == [a] && [] + [Job([a], 0, 0)] == [Job([a], 0, 0)];
  }

  lemma RunNext(s: State, s': State, e: Event, es: seq<Event>, end: State)
    requires Enabled(s, e) && Apply(s, e) == s' && Runnable(s', es) && Run(s', es) == end
    ensures Runnable(s, [e] + es) && Run(s, [e] + es) == end
  {
    assert ([e] + es)[1..] == es;
  }

  /** A flush is forced while the worker has a list. */
  predicate ForcedWhileBusy(s: State, es: seq<Event>)
    requires Runnable(s, es)
    decreases |es|
  {
    es != [] && ((es[0].ForceBegin? && s.work != []) || ForcedWhileBusy(Apply(s, es[0]), es[1..]))
  }

  lemma {:induction false} NotOvertaken(s: State, es: seq<Event>)
    requires Inv(s) && Runnable(s, es) && (s.force.Some? ==> s.work == []) && !ForcedWhileBusy(s, es)
    ensures !Overtaken(s, es)
    decreases |es|
  {
    if es != [] {
      StepKeeps(s, es[0]);
      NotOvertaken(Apply(s, es[0]), es[1..]);
    }
  }

  /** Where no flush is forced while one is outstanding, printed, in-flight and queued entries, in this order, are
      the submitted ones. */
  lemma GlobalOrder(es: seq<Event>)
    requires Runnable(Start, es) && !ForcedWhileBusy(Start, es)
    ensures Inv(Run(Start, es)) && Ordered(Run(Start, es))
  {
    NotOvertaken(Start, es);
    RunOrdered(Start, es);
  }

  // ---- Hand-over ---------------------------------------------------------------------------

  /** Nothing in the run hands the queue over: the logger is switched on and off, and calls find it off. */
  predicate Quiet(s: State, es: seq<Event>)
    requires Runnable(s, es)
    decreases |es|
  {
    es == [] || ((es[0].SetInit? || (!s.init && (es[0].Log? || es[0].ForceBegin?))) && Quiet(Apply(s, es[0]), es[1..]))
  }

  lemma {:induction false} QuietKeeps(s: State, es: seq<Event>)
    requires Runnable(s, es) && Quiet(s, es)
    ensures Run(s, es) == s.(init := Run(s, es).init)
    decreases |es|
  {
    if es != [] { QuietKeeps(Apply(s, es[0]), es[1..]); }
  }

  /** With no flush outstanding or under way, a quiet run is all that can happen before a call finds the logger on. */
  lemma {:induction false} QuietUntil(s: State, es: seq<Event>)
    requires s.work == [] && s.force.None? && Runnable(s, es)
    ensures Quiet(s, es) || exists k :: 0 <= k < |es| && HandsOverAt(s, es, k)
    decreases |es|
  {
    if es != [] && (es[0].SetInit? || !s.init) {
      var s', rest := Apply(s, es[0]), es[1..];
      QuietUntil(s', rest);
      if k :| 0 <= k < |rest| && HandsOverAt(s', rest, k) {
        assert rest[..k] == es[..k + 1][1..] && rest[k] == es[k + 1];
        assert HandsOverAt(s, es, k + 1);
      }
    } else if es != [] {
      assert HandsOverAt(s, es, 0);
    }
  }

  /** After a quiet run of `k` events, event `k` is a call that finds the logger on. */
  predicate HandsOverAt(s: State, es: seq<Event>, k: nat)
    requires k < |es|
  {
    && Runnable(s, es[..k]) && Quiet(s, es[..k])
    && Run(s, es[..k]).init && (es[k].Log? || es[k].ForceBegin?)
  }

  lemma StrandedAt(s: State, k: nat, es: seq<Event>, e: Event)
    requires Inv(s) && Enabled(s, Done(k))
    requires var s1 := Apply(s, Done(k)); Runnable(s1, es) && Quiet(s1, es)
    ensures var s2 := Run(Apply(s, Done(k)), es);
            && s2.queue == s.queue && s2.submitted == s.submitted
            && (s2.init && (e.Log? || e.ForceBegin?) ==>
                  Enabled(s2, e) && HandedOver(Queued(s.queue), |s.submitted|, e, Apply(s2, e)))
  {
    QuietKeeps(Apply(s, Done(k)), es);
  }

  /** Entries left in the queue when a flush completes wait there, whatever happens next, until the first call that
      finds the logger on, which gives them in one list to its worker or to its forced flush. */
  lemma Stranded(s: State, k: nat, es: seq<Event>)
    requires Inv(s) && Enabled(s, Done(k)) && Runnable(Apply(s, Done(k)), es)
    ensures var s1 := Apply(s, Done(k));
            || (Quiet(s1, es) && Run(s1, es).queue == s.queue)
            || exists j :: 0 <= j < |es| && HandsOverAt(s1, es, j) && HandsOver(s.queue, s.submitted, Run(s1, es[..j]), es[j])
  {
    var s1 := Apply(s, Done(k));
    QuietUntil(s1, es);
    if Quiet(s1, es) {
      QuietKeeps(s1, es);
    } else {
      var j :| 0 <= j < |es| && HandsOverAt(s1, es, j);
      StrandedAt(s, k, es[..j], es[j]);
      assert HandsOver(s.queue, s.submitted, Run(s1, es[..j]), es[j]);
    }
  }

  /** In state `s` the queue is still `q`, and the event `e` hands it over. */
  predicate HandsOver(q: Option<seq<Entry>>, submitted: seq<Entry>, s: State, e: Event) {
    && s.queue == q && Enabled(s, e) && (e.Log? || e.ForceBegin?)
    && HandedOver(Queued(q), |submitted|, e, Apply(s, e))
  }

  /** The event has handed over the entries `q`, with the one it adds, in one list. */
  predicate HandedOver(q: seq<Entry>, id: nat, e: Event, s: State)
    requires e.Log? || e.ForceBegin?
  {
    if e.ForceBegin? then s.force == Some(Job(q, 0, 0))
    else s.queue == None && s.work == [Job(q + NewEntries(id, e.level, e.msg), 0, 0)]
  }

  predicate HoldsSome(s: State) {
    forall i :: 0 <= i < |s.work| ==> s.work[i].entries != []
  }

  /** The call that would hand over an empty list: a NULL message with nothing queued and no flush outstanding. */
  predicate HandsNothing(s: State, e: Event) {
    e.Log? && s.init && !s.flushOngoing && Queued(s.queue) == [] && e.msg.None?
  }

  lemma StepHoldsSome(s: State, e: Event)
    requires |s.work| <= 1 && (s.flushOngoing <==> s.work != []) && Enabled(s, e) && HoldsSome(s)
    ensures HoldsSome(Apply(s, e)) <==> !HandsNothing(s, e)
  {
    var s' := Apply(s, e);
    match e
    case Log(_, _) =>
      if s.init && !s.flushOngoing {
        var more := NewEntries(|s.submitted|, e.level, e.msg);
        assert s'.work == [Job(Queued(s.queue) + more, 0, 0)];
        assert s'.work[0].entries == Queued(s.queue) + more;
      }
    case WorkStep(k) => assert s'.work[0].entries == s.work[0].entries;
    case _ =>
  }

  predicate EverHandsNothing(s: State, es: seq<Event>)
    requires Runnable(s, es)
    decreases |es|
  {
    es != [] && (HandsNothing(s, es[0]) || EverHandsNothing(Apply(s, es[0]), es[1..]))
  }

  predicate AlwaysHoldsSome(s: State, es: seq<Event>)
    requires Runnable(s, es)
    decreases |es|
  {
    HoldsSome(s) && (es == [] || AlwaysHoldsSome(Apply(s, es[0]), es[1..]))
  }

  lemma {:induction false} HandOver(s: State, es: seq<Event>)
    requires Inv(s) && Runnable(s, es) && HoldsSome(s)
    ensures AlwaysHoldsSome(s, es) <==> !EverHandsNothing(s, es)
    decreases |es|
  {
    hide Inv, HandsNothing, HoldsSome;
    if es != [] {
      StepKeeps(s, es[0]);
      Outstanding(s);
      StepHoldsSome(s, es[0]);
      if !HandsNothing(s, es[0]) { HandOver(Apply(s, es[0]), es[1..]); }
    }
  }

  lemma Outstanding(s: State)
    requires Inv(s)
    ensures |s.work| <= 1 && (s.flushOngoing <==> s.work != [])
  {
  }

  /** In a run from the start, no worker is ever handed an empty list exactly when no such call is made. */
  lemma NoEmptyHandOver(es: seq<Event>)
    requires Runnable(Start, es)
    ensures AlwaysHoldsSome(Start, es) <==> !EverHandsNothing(Start, es)
  {
    HandOver(Start, es);
  }

  /** Such a call is possible: the first log call with a NULL message. */
  lemma NullMessageRun()
    ensures var es := [SetInit(true), Log(INFO, None)]; Runnable(Start, es) && EverHandsNothing(Start, es)
  {
    var es := [SetInit(true), Log(INFO, None)];
    var s1 := Start.(init := true);
    assert es[1..] == [Log(INFO, None)] && es[1..][1..] == [];
    assert Apply(Start, es[0]) == s1 && HandsNothing(s1, es[1]);
  }
}
