/** The logger from outside: what is submitted, what can happen, and that everything can be written. */
module LoggerLaws {
  import opened Options
  import opened LoggerProtocol

  // ---- What is submitted -------------------------------------------------------------------

  /** Level and text of the calls that find the logger on and have a message, in order. */
  function Calls(on: bool, es: seq<Event>): seq<(Level, string)>
    decreases |es|
  {
    if es == [] then []
    else
      match es[0]
      case SetInit(b) => Calls(b, es[1..])
      case Log(level, Some(text)) => (if on then [(level, text)] else []) + Calls(on, es[1..])
      case _ => Calls(on, es[1..])
  }

  function Contents(entries: seq<Entry>): seq<(Level, string)> {
    seq(|entries|, i requires 0 <= i < |entries| => (entries[i].level, entries[i].msg))
  }

  lemma ContentsAppend(a: seq<Entry>, b: seq<Entry>)
    ensures Contents(a + b) == Contents(a) + Contents(b)
  {
  }

  lemma StepSubmits(s: State, e: Event)
    requires Enabled(s, e)
    ensures var s' := Apply(s, e);
            && s'.init == (if e.SetInit? then e.on else s.init)
            && Contents(s'.submitted) == Contents(s.submitted) +
                 (if e.Log? && s.init && e.msg.Some? then [(e.level, e.msg.value)] else [])
  {
    if e.Log? && s.init {
      ContentsAppend(s.submitted, NewEntries(|s.submitted|, e.level, e.msg));
    } else {
      assert Contents(s.submitted) + [] == Contents(s.submitted);
    }
  }

  /** The submitted entries of a run are its calls, with their levels and texts. */
  lemma {:induction false} Submissions(s: State, es: seq<Event>)
    requires Runnable(s, es)
    ensures Contents(Run(s, es).submitted) == Contents(s.submitted) + Calls(s.init, es)
    decreases |es|
  {
    hide Apply, Enabled, Contents;
    if es == [] {
      assert Contents(s.submitted) + [] == Contents(s.submitted);
    } else {
      var e, s' := es[0], Apply(s, es[0]);
      StepSubmits(s, e);
      Submissions(s', es[1..]);
      CallsNext(s.init, es);
      var own := if e.Log? && s.init && e.msg.Some? then [(e.level, e.msg.value)] else [];
      assert Contents(s.submitted) + own + Calls(s'.init, es[1..]) == Contents(s.submitted) + (own + Calls(s'.init, es[1..]));
    }
  }

  lemma CallsNext(on: bool, es: seq<Event>)
    requires es != []
    ensures var e := es[0];
            Calls(on, es) == (if e.Log? && on && e.msg.Some? then [(e.level, e.msg.value)] else [])
                               + Calls(if e.SetInit? then e.on else on, es[1..])
  {
    var rest := Calls(on, es[1..]);
    assert [] + rest == rest;
    if es[0].SetInit? { assert [] + Calls(es[0].on, es[1..]) == Calls(es[0].on, es[1..]); }
  }

  // ---- Printed before released -------------------------------------------------------------

  lemma SuffixFewer(entries: seq<Entry>, i: nat, j: nat, x: Entry)
    requires i <= j <= |entries|
    ensures multiset(entries[j..])[x] <= multiset(entries[i..])[x]
  {
    assert entries[i..] == entries[i..j] + entries[j..];
    assert multiset(entries[i..]) == multiset(entries[i..j]) + multiset(entries[j..]);
  }

  lemma JobFewer(j: Job, x: Entry)
    requires j.Ok()
    ensures multiset(j.Unprinted())[x] <= multiset(j.Unfreed())[x]
  {
    SuffixFewer(j.entries, j.freed, j.printed, x);
  }

  lemma HeldFewer(s: State, x: Entry)
    requires Inv(s)
    ensures multiset(ToPrint(s.work))[x] <= multiset(ToFree(s.work))[x]
    ensures multiset(Waiting(s))[x] <= multiset(WaitingLive(s))[x]
  {
    if s.work != [] {
      OneJob(s.work);
      JobFewer(s.work[0], x);
    }
    if s.force.Some? { JobFewer(s.force.value, x); }
  }

  /** At no point of a run has an entry been released and not printed. */
  lemma ReleasedArePrinted(es: seq<Event>, x: Entry)
    requires Runnable(Start, es)
    ensures x in Run(Start, es).released ==> x in Run(Start, es).printed
  {
    RunKeeps(Start, es);
    var s := Run(Start, es);
    HeldFewer(s, x);
    hide Inv;
    Fewer(s, x);
  }

  lemma CountBalance(all: seq<Entry>, done: seq<Entry>, held: seq<Entry>, waiting: seq<Entry>, x: Entry)
    requires Balanced(all, done, held, waiting)
    ensures multiset(all)[x] == multiset(done)[x] + multiset(held)[x] + multiset(waiting)[x]
  {
  }

  lemma Fewer(s: State, x: Entry)
    requires Inv(s)
    requires multiset(ToPrint(s.work))[x] <= multiset(ToFree(s.work))[x]
    requires multiset(Waiting(s))[x] <= multiset(WaitingLive(s))[x]
    ensures x in s.released ==> x in s.printed
  {
    CountBalance(s.submitted, s.printed, ToPrint(s.work), Waiting(s), x);
    CountBalance(s.submitted, s.released, ToFree(s.work), WaitingLive(s), x);
    assert x in s.released <==> multiset(s.released)[x] > 0;
    assert x in s.printed <==> multiset(s.printed)[x] > 0;
  }

  // ---- What can happen ---------------------------------------------------------------------

  /** No step waits for another but for the lock: calls and the done callback wait for a forced flush, and the worker
      waits for nothing. */
  lemma WhatCanHappen(s: State)
    requires Inv(s)
    ensures s.work != [] ==> (Enabled(s, WorkStep(0)) <==> s.work[0].freed < |s.work[0].entries|)
    ensures s.work != [] ==> (Enabled(s, Done(0)) <==> s.force == None && s.work[0].freed == |s.work[0].entries|)
    ensures s.force.Some? ==> (Enabled(s, ForceStep) <==> s.force.value.freed < |s.force.value.entries|)
    ensures s.force.Some? ==> (Enabled(s, ForceEnd) <==> s.force.value.freed == |s.force.value.entries|)
    ensures forall e :: e == ForceBegin || e.Log? || e.SetInit? ==> (Enabled(s, e) <==> s.force == None)
  {
    if s.work != [] { assert s.work[0].Ok(); }
  }

  // ---- Everything can be written -----------------------------------------------------------

  lemma {:induction false} RunConcat(s: State, a: seq<Event>, b: seq<Event>)
    requires Runnable(s, a) && Runnable(Run(s, a), b)
    ensures Runnable(s, a + b) && Run(s, a + b) == Run(Run(s, a), b)
    decreases |a|
  {
    hide Apply, Enabled;
    if a == [] {
      assert a + b == b;
    } else {
      assert (a + b)[1..] == a[1..] + b;
      RunConcat(Apply(s, a[0]), a[1..], b);
    }
  }

  /** The forced flush that holds the lock ends. */
  lemma EndForce(s: State) returns (es: seq<Event>)
    requires Inv(s)
    ensures Runnable(s, es) && Inv(Run(s, es))
    ensures var s' := Run(s, es); s'.force == None && s'.init == s.init && s'.submitted == s.submitted
  {
    if s.force.None? {
      es := [];
    } else {
      ForceRuns(s);
      es := Repeat(ForceStep, StepsLeft(s.force.value)) + [ForceEnd];
      RunKeeps(s, es);
    }
  }

  /** The worker ends, and its callback runs. */
  lemma EndWork(s: State) returns (es: seq<Event>)
    requires Inv(s) && s.force.None?
    ensures Runnable(s, es) && Inv(Run(s, es))
    ensures var s' := Run(s, es); s'.work == [] && s'.force == None && s'.init == s.init && s'.submitted == s.submitted
  {
    if s.work == [] {
      es := [];
    } else {
      WorkRuns(s);
      var steps := Repeat(WorkStep(0), StepsLeft(s.work[0])) + [];
      var s1 := Run(s, steps);
      RunKeeps(s, steps);
      CallbackRuns(s1);
      RunConcat(s, steps, [Done(0)]);
      es := steps + [Done(0)];
      RunKeeps(s, es);
    }
  }

  lemma CallbackRuns(s: State)
    requires Inv(s) && s.force.None? && |s.work| == 1 && s.work[0].Finished()
    ensures Runnable(s, [Done(0)])
    ensures var s' := Run(s, [Done(0)]); s'.work == [] && s'.force == None && s'.init == s.init && s'.submitted == s.submitted
  {
    assert [Done(0)][1..] == [];
  }

  /** From every state of every run in which the logger is on, there is a way on after which exactly the submitted entries
      have been printed and released. */
  lemma CanDrain(s: State) returns (es: seq<Event>)
    requires Inv(s) && s.init
    ensures Runnable(s, es)
    ensures var s' := Run(s, es);
            s'.submitted == s.submitted && multiset(s'.printed) == multiset(s.submitted) == multiset(s'.released)
  {
    hide Inv, Runnable, Run;
    var a := EndForce(s);
    var s1 := Run(s, a);
    var b := EndWork(s1);
    var s2 := Run(s1, b);
    var c := ForcedFlush(|Queued(s2.queue)|);
    ForceIsRun(s2);
    RunConcat(s1, b, c);
    RunConcat(s, a, b + c);
    es := a + (b + c);
    RunKeeps(s2, c);
    Drained(Run(s2, c));
  }

  lemma Drained(s: State)
    requires Inv(s) && s.work == [] && s.force.None? && s.queue.None?
    ensures multiset(s.printed) == multiset(s.submitted) == multiset(s.released)
  {
  }
}
