/** The asynchronous logger of src/logger.c as a state machine: the loop thread queues entries, hands the whole
    queue to a worker and may force a flush under the lock, while the worker prints and releases one entry at a time. */
module LoggerProtocol {
  import opened Options

  datatype Level = DEBUG | INFO | WARN | ERROR | FATAL

  /** One `log_data_t`; `id` counts the entries allocated before it. */
  datatype Entry = Entry(id: nat, level: Level, msg: string)

  /** A run of `flush_log_data` over a list: all entries are printed, then all are released. */
  datatype Job = Job(entries: seq<Entry>, printed: nat, freed: nat) {
    predicate Ok() {
      printed <= |entries| && freed <= |entries| && (freed > 0 ==> printed == |entries|)
    }

    predicate Finished() {
      printed == |entries| && freed == |entries|
    }

    function Unprinted(): seq<Entry>
      requires Ok()
    {
      entries[printed..]
    }

    function Unfreed(): seq<Entry>
      requires Ok()
    {
      entries[freed..]
    }
  }

  /** `work` are the requests given to `uv_queue_work` whose done callback has not run; `force` is the forced flush
      that holds the lock.  The last three fields are histories. */
  datatype State = State(
    init: bool, queue: Option<seq<Entry>>, flushOngoing: bool, work: seq<Job>, force: Option<Job>,
    submitted: seq<Entry>, printed: seq<Entry>, released: seq<Entry>)

  const Start := State(false, None, false, [], None, [], [], [])

  /** `Log`, `ForceBegin` to `ForceEnd`, `Done` and `SetInit` run on the loop thread. */
  datatype Event =
    | Log(level: Level, msg: Option<string>)
    | WorkStep(k: nat)
    | Done(k: nat)
    | ForceBegin
    | ForceStep
    | ForceEnd
    | SetInit(on: bool)

  function Queued(q: Option<seq<Entry>>): seq<Entry> {
    if q.None? then [] else q.value
  }

  predicate Enabled(s: State, e: Event) {
    match e
    case WorkStep(k) => k < |s.work| && s.work[k].Ok() && !s.work[k].Finished()
    case Done(k) => s.force.None? && k < |s.work| && s.work[k].Finished()
    case ForceStep => s.force.Some? && s.force.value.Ok() && !s.force.value.Finished()
    case ForceEnd => s.force.Some? && s.force.value.Finished()
    case _ => s.force.None?
  }

  /** The next action of a flush: print an entry, or release one after all are printed. */
  function Advance(s: State, j: Job): (State, Job)
    requires j.Ok() && !j.Finished()
  {
    if j.printed < |j.entries|
    then (s.(printed := s.printed + [j.entries[j.printed]]), j.(printed := j.printed + 1))
    else (s.(released := s.released + [j.entries[j.freed]]), j.(freed := j.freed + 1))
  }

  /** The entry that a log call adds as number `id`: none for a NULL message. */
  function NewEntries(id: nat, level: Level, msg: Option<string>): seq<Entry> {
    if msg.None? then [] else [Entry(id, level, msg.value)]
  }

  /** `schedule_flush`. */
  function Schedule(s: State): State {
    s.(flushOngoing := true, work := s.work + [Job(Queued(s.queue), 0, 0)], queue := None)
  }

  function Apply(s: State, e: Event): State
    requires Enabled(s, e)
  {
    match e
    case Log(level, msg) =>
      if !s.init then s
      else
        var more := NewEntries(|s.submitted|, level, msg);
        var s1 := s.(queue := Some(Queued(s.queue) + more), submitted := s.submitted + more);
        if s.flushOngoing then s1 else Schedule(s1)
    case WorkStep(k) =>
      var (s1, j) := Advance(s, s.work[k]);
      s1.(work := s.work[k := j])
    case Done(k) => s.(flushOngoing := false, work := s.work[..k] + s.work[k + 1..])
    case ForceBegin =>
      if !s.init then s
      else s.(queue := Some(Queued(s.queue)), force := Some(Job(Queued(s.queue), 0, 0)))
    case ForceStep =>
      var (s1, j) := Advance(s, s.force.value);
      s1.(force := Some(j))
    case ForceEnd => s.(force := None, queue := None)
    case SetInit(on) => s.(init := on)
  }

  predicate Runnable(s: State, es: seq<Event>)
    decreases |es|
  {
    es == [] || (Enabled(s, es[0]) && Runnable(Apply(s, es[0]), es[1..]))
  }

  function Run(s: State, es: seq<Event>): State
    requires Runnable(s, es)
    decreases |es|
  {
    if es == [] then s else Run(Apply(s, es[0]), es[1..])
  }

  // ---- Conservation ------------------------------------------------------------------------

  /** What a sequence of flushes has still to print. */
  function ToPrint(work: seq<Job>): seq<Entry>
    requires forall i :: 0 <= i < |work| ==> work[i].Ok()
  {
    if work == [] then [] else work[0].Unprinted() + ToPrint(work[1..])
  }

  function ToFree(work: seq<Job>): seq<Entry>
    requires forall i :: 0 <= i < |work| ==> work[i].Ok()
  {
    if work == [] then [] else work[0].Unfreed() + ToFree(work[1..])
  }

  predicate JobsOk(s: State) {
    && (forall i :: 0 <= i < |s.work| ==> s.work[i].Ok())
    && (s.force.Some? ==> s.force.value.Ok() && s.queue == Some(s.force.value.entries))
  }

  /** Entries that no worker holds and that are not printed: the queue, or what a forced flush has left of it. */
  function Waiting(s: State): seq<Entry>
    requires JobsOk(s)
  {
    if s.force.Some? then s.force.value.Unprinted() else Queued(s.queue)
  }

  /** Entries that are allocated and that no worker holds. */
  function WaitingLive(s: State): seq<Entry>
    requires JobsOk(s)
  {
    if s.force.Some? then s.force.value.Unfreed() else Queued(s.queue)
  }

  predicate Numbered(es: seq<Entry>) {
    forall i :: 0 <= i < |es| ==> es[i].id == i
  }

  /** Every entry of `all` is in exactly one of the three lists, as often as it is in `all`. */
  ghost predicate Balanced(all: seq<Entry>, done: seq<Entry>, held: seq<Entry>, waiting: seq<Entry>) {
    multiset(all) == multiset(done) + multiset(held) + multiset(waiting)
  }

  /** What every step keeps. */
  ghost predicate Inv(s: State) {
    && JobsOk(s)
    && |s.work| <= 1
    && (s.flushOngoing <==> |s.work| == 1)
    && Numbered(s.submitted)
    && Balanced(s.submitted, s.printed, ToPrint(s.work), Waiting(s))
    && Balanced(s.submitted, s.released, ToFree(s.work), WaitingLive(s))
  }

  function StepsLeft(j: Job): nat
    requires j.Ok()
  {
    2 * |j.entries| - j.printed - j.freed
  }

  /** The head of a list moves to the end of another. */
  lemma Shift<T>(a: seq<T>, list: seq<T>, k: nat)
    requires k < |list|
    ensures a + [list[k]] + list[k + 1..] == a + list[k..]
  {
    assert list[k..] == [list[k]] + list[k + 1..];
  }

  lemma AdvanceFlushes(s: State, j: Job)
    requires j.Ok() && !j.Finished()
    ensures var (s', j') := Advance(s, j);
            && j'.Ok() && j'.entries == j.entries && StepsLeft(j') == StepsLeft(j) - 1
            && s'.printed + j'.Unprinted() == s.printed + j.Unprinted()
            && s'.released + j'.Unfreed() == s.released + j.Unfreed()
  {
    if j.printed < |j.entries| {
      Shift(s.printed, j.entries, j.printed);
    } else {
      Shift(s.released, j.entries, j.freed);
    }
  }

  lemma AdvanceKeeps(s: State, j: Job)
    requires j.Ok() && !j.Finished()
    ensures var (s', j') := Advance(s, j);
            && j'.Ok() && j'.entries == j.entries
            && multiset(s'.printed) + multiset(j'.Unprinted()) == multiset(s.printed) + multiset(j.Unprinted())
            && multiset(s'.released) + multiset(j'.Unfreed()) == multiset(s.released) + multiset(j.Unfreed())
  {
    AdvanceFlushes(s, j);
    var (s', j') := Advance(s, j);
    assert multiset(s'.printed + j'.Unprinted()) == multiset(s.printed + j.Unprinted());
    assert multiset(s'.released + j'.Unfreed()) == multiset(s.released + j.Unfreed());
  }

  lemma OneJob(work: seq<Job>)
    requires |work| == 1 && work[0].Ok()
    ensures ToPrint(work) == work[0].Unprinted() && ToFree(work) == work[0].Unfreed()
  {
    assert work[1..] == [];
  }

  lemma BalancedAppend(all: seq<Entry>, done: seq<Entry>, held: seq<Entry>, waiting: seq<Entry>, more: seq<Entry>)
    requires Balanced(all, done, held, waiting)
    ensures Balanced(all + more, done, held, waiting + more)
  {
  }

  /** `s` with the queue `q` instead of its own. */
  lemma EnqueueKeeps(s: State, more: seq<Entry>)
    requires Inv(s) && s.force.None? && Numbered(s.submitted + more)
    ensures Inv(s.(queue := Some(Queued(s.queue) + more), submitted := s.submitted + more))
  {
    var s' := s.(queue := Some(Queued(s.queue) + more), submitted := s.submitted + more);
    BalancedAppend(s.submitted, s.printed, ToPrint(s.work), Waiting(s), more);
    BalancedAppend(s.submitted, s.released, ToFree(s.work), WaitingLive(s), more);
    assert Waiting(s') == Waiting(s) + more && WaitingLive(s') == WaitingLive(s) + more;
  }

  lemma ScheduleKeeps(s: State)
    requires Inv(s) && s.force.None? && !s.flushOngoing
    ensures Inv(Schedule(s))
  {
    var s' := Schedule(s);
    assert s'.work == [Job(Queued(s.queue), 0, 0)];
    OneJob(s'.work);
    assert s'.work[0].Unprinted() == Queued(s.queue) == s'.work[0].Unfreed();
  }

  lemma LogKeeps(s: State, e: Event)
    requires Inv(s) && Enabled(s, e) && e.Log?
    ensures Inv(Apply(s, e))
  {
    if s.init {
      var more := NewEntries(|s.submitted|, e.level, e.msg);
      EnqueueKeeps(s, more);
      if !s.flushOngoing {
        ScheduleKeeps(s.(queue := Some(Queued(s.queue) + more), submitted := s.submitted + more));
      }
    }
  }

  lemma BalancedMove(all: seq<Entry>, done: seq<Entry>, held: seq<Entry>, waiting: seq<Entry>, done': seq<Entry>, held': seq<Entry>)
    requires Balanced(all, done, held, waiting)
    requires multiset(done') + multiset(held') == multiset(done) + multiset(held)
    ensures Balanced(all, done', held', waiting)
  {
    assert multiset(done') + multiset(held') + multiset(waiting) == multiset(done) + multiset(held) + multiset(waiting);
  }

  lemma WorkStepKeeps(s: State, e: Event)
    requires Inv(s) && Enabled(s, e) && e.WorkStep?
    ensures Inv(Apply(s, e))
  {
    var s' := Apply(s, e);
    AdvanceKeeps(s, s.work[0]);
    OneJob(s.work);
    OneJob(s'.work);
    BalancedMove(s.submitted, s.printed, ToPrint(s.work), Waiting(s), s'.printed, ToPrint(s'.work));
    BalancedMove(s.submitted, s.released, ToFree(s.work), WaitingLive(s), s'.released, ToFree(s'.work));
  }

  lemma DoneKeeps(s: State, e: Event)
    requires Inv(s) && Enabled(s, e) && e.Done?
    ensures Inv(Apply(s, e))
  {
    OneJob(s.work);
    assert s.work[0].Unprinted() == [] && s.work[0].Unfreed() == [];
  }

  lemma ForceStepKeeps(s: State, e: Event)
    requires Inv(s) && Enabled(s, e) && e.ForceStep?
    ensures Inv(Apply(s, e))
  {
    var s' := Apply(s, e);
    AdvanceKeeps(s, s.force.value);
    BalancedSwap(s.submitted, s.printed, ToPrint(s.work), Waiting(s), s'.printed, Waiting(s'));
    BalancedSwap(s.submitted, s.released, ToFree(s.work), WaitingLive(s), s'.released, WaitingLive(s'));
  }

  lemma BalancedSwap(all: seq<Entry>, done: seq<Entry>, held: seq<Entry>, waiting: seq<Entry>, done': seq<Entry>, waiting': seq<Entry>)
    requires Balanced(all, done, held, waiting)
    requires multiset(done') + multiset(waiting') == multiset(done) + multiset(waiting)
    ensures Balanced(all, done', held, waiting')
  {
    assert multiset(done') + multiset(held) + multiset(waiting') == multiset(done') + multiset(waiting') + multiset(held);
  }

  lemma ForceKeeps(s: State, e: Event)
    requires Inv(s) && Enabled(s, e) && (e.ForceBegin? || e.ForceEnd?)
    ensures Inv(Apply(s, e))
  {
    var s' := Apply(s, e);
    if e.ForceEnd? {
      assert Waiting(s) == [] && WaitingLive(s) == [] && Waiting(s') == [];
    } else if s.init {
      assert Waiting(s') == Waiting(s) && WaitingLive(s') == WaitingLive(s);
    }
  }

  lemma StepKeeps(s: State, e: Event)
    requires Inv(s) && Enabled(s, e)
    ensures Inv(Apply(s, e))
  {
    match e
    case Log(_, _) => LogKeeps(s, e);
    case WorkStep(_) => WorkStepKeeps(s, e);
    case Done(_) => DoneKeeps(s, e);
    case ForceStep => ForceStepKeeps(s, e);
    case SetInit(_) =>
    case _ => ForceKeeps(s, e);
  }

  /** Over every run, with every interleaving of the worker's steps. */
  lemma {:induction false} RunKeeps(s: State, es: seq<Event>)
    requires Inv(s) && Runnable(s, es)
    ensures Inv(Run(s, es))
    decreases |es|
  {
    if es != [] {
      StepKeeps(s, es[0]);
      RunKeeps(Apply(s, es[0]), es[1..]);
    }
  }

  // ---- What the invariant gives ------------------------------------------------------------

  lemma StartOk()
    ensures Inv(Start)
  {
  }

  /** An entry occurs at most once in a numbered list. */
  lemma {:induction false} NumberedOnce(es: seq<Entry>, x: Entry)
    requires Numbered(es)
    ensures multiset(es)[x] <= 1 && (multiset(es)[x] == 1 ==> x.id < |es|)
  {
    if es != [] {
      var init := es[..|es| - 1];
      assert es == init + [es[|es| - 1]];
      NumberedOnce(init, x);
    }
  }

  /** In a run from the start: no entry is printed twice, none is released twice, a printed or released entry was
      submitted, and the entry that a step prints or releases has not been released before. */
  lemma OnceEach(es: seq<Event>, x: Entry)
    requires Runnable(Start, es)
    ensures var s := Run(Start, es);
            && multiset(s.printed)[x] <= 1 && multiset(s.released)[x] <= 1
            && (x in s.printed || x in s.released ==> x in s.submitted)
            && |s.work| <= 1 && (s.flushOngoing <==> |s.work| == 1)
            && (|s.work| == 1 && s.work[0].Ok() && x in s.work[0].Unfreed() ==> x !in s.released)
            && (s.force.Some? && s.force.value.Ok() && x in s.force.value.Unfreed() ==> x !in s.released)
  {
    RunKeeps(Start, es);
    var s := Run(Start, es);
    NumberedOnce(s.submitted, x);
    InBalance(s.submitted, s.printed, ToPrint(s.work), Waiting(s), x);
    InBalance(s.submitted, s.released, ToFree(s.work), WaitingLive(s), x);
    if |s.work| == 1 { OneJob(s.work); }
  }

  lemma InBalance(all: seq<Entry>, done: seq<Entry>, held: seq<Entry>, waiting: seq<Entry>, x: Entry)
    requires Balanced(all, done, held, waiting) && multiset(all)[x] <= 1
    ensures multiset(done)[x] <= 1 && (x in done ==> x in all)
    ensures x in held || x in waiting ==> x !in done
  {
    assert x in done <==> multiset(done)[x] > 0;
    assert x in all <==> multiset(all)[x] > 0;
    assert x in held <==> multiset(held)[x] > 0;
    assert x in waiting <==> multiset(waiting)[x] > 0;
  }

  /** With no flush outstanding or under way and an empty queue, exactly the submitted entries have been printed,
      and all of them have been released. */
  lemma AllPrinted(es: seq<Event>)
    requires Runnable(Start, es)
    ensures var s := Run(Start, es);
            s.work == [] && s.force == None && Queued(s.queue) == [] ==>
              multiset(s.printed) == multiset(s.submitted) == multiset(s.released)
  {
    RunKeeps(Start, es);
  }

  // ---- Whole flushes -----------------------------------------------------------------------

  function Repeat(e: Event, n: nat): seq<Event> {
    if n == 0 then [] else [e] + Repeat(e, n - 1)
  }

  /** A forced flush of `n` entries. */
  function ForcedFlush(n: nat): seq<Event> {
    [ForceBegin] + (Repeat(ForceStep, 2 * n) + [ForceEnd])
  }

  function Ended(j: Job): Job {
    Job(j.entries, |j.entries|, |j.entries|)
  }

  /** `s` after the worker has run its only job to the end. */
  function Worked(s: State): State
    requires |s.work| == 1 && s.work[0].Ok()
  {
    s.(printed := s.printed + s.work[0].Unprinted(), released := s.released + s.work[0].Unfreed(), work := [Ended(s.work[0])])
  }

  /** `s` after a forced flush of everything that is waiting. */
  function Forced(s: State): State {
    s.(printed := s.printed + Queued(s.queue), released := s.released + Queued(s.queue), queue := None)
  }

  /** `s` after the forced flush that holds the lock has ended. */
  function ForceEnded(s: State): State
    requires s.force.Some? && s.force.value.Ok()
  {
    var j := s.force.value;
    s.(printed := s.printed + j.Unprinted(), released := s.released + j.Unfreed(), force := None, queue := None)
  }

  lemma WorkStepFlushes(s: State)
    requires |s.work| == 1 && s.work[0].Ok() && !s.work[0].Finished()
    ensures var s' := Apply(s, WorkStep(0));
            && |s'.work| == 1 && s'.work[0].Ok()
            && StepsLeft(s'.work[0]) == StepsLeft(s.work[0]) - 1 && Worked(s') == Worked(s)
  {
    AdvanceFlushes(s, s.work[0]);
  }

  lemma {:induction false} WorkRuns(s: State)
    requires |s.work| == 1 && s.work[0].Ok()
    ensures var es := Repeat(WorkStep(0), StepsLeft(s.work[0])) + []; Runnable(s, es) && Run(s, es) == Worked(s)
    decreases StepsLeft(s.work[0])
  {
    if s.work[0].Finished() {
      assert s.work[0].Unprinted() == [] && s.work[0].Unfreed() == [];
      assert Worked(s) == s;
    } else {
      hide Worked, Apply, Repeat, Run, Runnable;
      WorkStepFlushes(s);
      WorkRuns(Apply(s, WorkStep(0)));
      RepeatNext(s, WorkStep(0), StepsLeft(s.work[0]), []);
    }
  }

  lemma RepeatNext(s: State, e: Event, n: nat, more: seq<Event>)
    requires n > 0 && Enabled(s, e)
    requires Runnable(Apply(s, e), Repeat(e, n - 1) + more)
    ensures Runnable(s, Repeat(e, n) + more)
    ensures Run(s, Repeat(e, n) + more) == Run(Apply(s, e), Repeat(e, n - 1) + more)
  {
    assert Repeat(e, n) + more == [e] + (Repeat(e, n - 1) + more);
  }

  /** A worker that runs alone prints all entries in list order and then releases them. */
  lemma WorkIsRun(s: State)
    requires |s.work| == 1 && s.work[0] == Job(s.work[0].entries, 0, 0)
    ensures var es := Repeat(WorkStep(0), 2 * |s.work[0].entries|); Runnable(s, es) && Run(s, es) == Worked(s)
  {
    WorkRuns(s);
    hide Repeat, Run, Runnable, Worked;
    assert StepsLeft(s.work[0]) == 2 * |s.work[0].entries|;
    var es := Repeat(WorkStep(0), 2 * |s.work[0].entries|);
    assert es + [] == es;
  }

  lemma ForceStepFlushes(s: State)
    requires s.force.Some? && s.force.value.Ok() && !s.force.value.Finished()
    ensures var s' := Apply(s, ForceStep);
            && s'.force.Some? && s'.force.value.Ok()
            && StepsLeft(s'.force.value) == StepsLeft(s.force.value) - 1 && ForceEnded(s') == ForceEnded(s)
  {
    AdvanceFlushes(s, s.force.value);
  }

  lemma {:induction false} ForceRuns(s: State)
    requires s.force.Some? && s.force.value.Ok()
    ensures var es := Repeat(ForceStep, StepsLeft(s.force.value)) + [ForceEnd];
            Runnable(s, es) && Run(s, es) == ForceEnded(s)
    decreases StepsLeft(s.force.value)
  {
    var j := s.force.value;
    if j.Finished() {
      assert j.Unprinted() == [] && j.Unfreed() == [];
      assert Repeat(ForceStep, 0) + [ForceEnd] == [ForceEnd] && [ForceEnd][1..] == [];
      assert Apply(s, ForceEnd) == ForceEnded(s);
    } else {
      ForceStepFlushes(s);
      ForceRuns(Apply(s, ForceStep));
      RepeatNext(s, ForceStep, StepsLeft(j), [ForceEnd]);
    }
  }

  /** A forced flush without a worker step in between prints and releases the whole queue. */
  lemma ForceIsRun(s: State)
    requires s.force.None? && s.init
    ensures var es := ForcedFlush(|Queued(s.queue)|); Runnable(s, es) && Run(s, es) == Forced(s)
  {
    var q := Queued(s.queue);
    var s1 := Apply(s, ForceBegin);
    ForceRuns(s1);
    assert s1.force.value.Unprinted() == q == s1.force.value.Unfreed();
    assert ForcedFlush(|q|)[1..] == Repeat(ForceStep, 2 * |q|) + [ForceEnd];
  }
}
