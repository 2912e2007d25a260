/** src/logger.c over heap lists.  Each method is one or more steps of the state machine in LoggerProtocol. */
module Loggers {
  import opened Options
  import opened Lists
  import opened LoggerProtocol

  ghost predicate Live(l: List<Entry>, heap: Heap)
    reads l, l.nodes, heap
  {
    l.Valid() && l !in heap.freed && forall n | n in l.nodes :: n !in heap.freed
  }

  ghost predicate Apart(a: List<Entry>, b: List<Entry>)
    reads a, b
  {
    a != b && forall n | n in a.nodes :: n !in b.nodes
  }

  twostate lemma Untouched(l: List<Entry>)
    requires old(l.Valid()) && unchanged(l) && forall i :: 0 <= i < |l.nodes| ==> unchanged(l.nodes[i])
    ensures l.Valid()
  {
    assert forall i :: 0 <= i < |l.nodes| - 1 ==> l.nodes[i].next == old(l.nodes[i].next);
    assert forall i :: 0 <= i < |l.nodes| ==> l.nodes[i].data == old(l.nodes[i].data);
  }

  /** What happens to an entry, in the order in which it happens. */
  datatype Action = Print(e: Entry) | Release(e: Entry)

  function Prints(es: seq<Entry>): seq<Action> {
    seq(|es|, i requires 0 <= i < |es| => Print(es[i]))
  }

  function Releases(es: seq<Entry>): seq<Action> {
    seq(|es|, i requires 0 <= i < |es| => Release(es[i]))
  }

  function PrintedOf(trace: seq<Action>): seq<Entry> {
    if trace == [] then []
    else
      var n := |trace| - 1;
      PrintedOf(trace[..n]) + if trace[n].Print? then [trace[n].e] else []
  }

  function ReleasedOf(trace: seq<Action>): seq<Entry> {
    if trace == [] then []
    else
      var n := |trace| - 1;
      ReleasedOf(trace[..n]) + if trace[n].Release? then [trace[n].e] else []
  }

  lemma OneMore(trace: seq<Action>, a: Action)
    ensures PrintedOf(trace + [a]) == PrintedOf(trace) + if a.Print? then [a.e] else []
    ensures ReleasedOf(trace + [a]) == ReleasedOf(trace) + if a.Release? then [a.e] else []
  {
    assert (trace + [a])[..|trace|] == trace;
  }

  lemma Regroup<T>(a: seq<T>, b: seq<T>, c: seq<T>)
    ensures a + b + c == a + (b + c)
  {
  }

  lemma {:induction false} AfterPrints(trace: seq<Action>, es: seq<Entry>)
    ensures PrintedOf(trace + Prints(es)) == PrintedOf(trace) + es && ReleasedOf(trace + Prints(es)) == ReleasedOf(trace)
  {
    hide PrintedOf, ReleasedOf, Prints;
    PrintsLast(es);
    if es == [] {
      assert trace + [] == trace && PrintedOf(trace) + [] == PrintedOf(trace);
    } else {
      var n := |es| - 1;
      AfterPrints(trace, es[..n]);
      OneMore(trace + Prints(es[..n]), Print(es[n]));
      Regroup(trace, Prints(es[..n]), [Print(es[n])]);
      Regroup(PrintedOf(trace), es[..n], [es[n]]);
      assert es[..n] + [es[n]] == es && ReleasedOf(trace) + [] == ReleasedOf(trace);
    }
  }

  lemma PrintsLast(es: seq<Entry>)
    ensures Prints(es) == if es == [] then [] else Prints(es[..|es| - 1]) + [Print(es[|es| - 1])]
  {
  }

  lemma {:induction false} AfterReleases(trace: seq<Action>, es: seq<Entry>)
    ensures ReleasedOf(trace + Releases(es)) == ReleasedOf(trace) + es && PrintedOf(trace + Releases(es)) == PrintedOf(trace)
  {
    hide PrintedOf, ReleasedOf, Releases;
    ReleasesLast(es);
    if es == [] {
      assert trace + [] == trace && ReleasedOf(trace) + [] == ReleasedOf(trace);
    } else {
      var n := |es| - 1;
      AfterReleases(trace, es[..n]);
      OneMore(trace + Releases(es[..n]), Release(es[n]));
      Regroup(trace, Releases(es[..n]), [Release(es[n])]);
      Regroup(ReleasedOf(trace), es[..n], [es[n]]);
      assert es[..n] + [es[n]] == es && PrintedOf(trace) + [] == PrintedOf(trace);
    }
  }

  lemma ReleasesLast(es: seq<Entry>)
    ensures Releases(es) == if es == [] then [] else Releases(es[..|es| - 1]) + [Release(es[|es| - 1])]
  {
  }

  /** A flush in the trace: every entry printed, in order, and only then every entry released. */
  lemma FlushTrace(trace: seq<Action>, es: seq<Entry>)
    ensures var t := trace + Prints(es) + Releases(es);
            PrintedOf(t) == PrintedOf(trace) + es && ReleasedOf(t) == ReleasedOf(trace) + es
  {
    hide *;
    AfterPrints(trace, es);
    AfterReleases(trace + Prints(es), es);
  }

  lemma {:induction false} FoldPrints(es: seq<Entry>, trace: seq<Action>, f: (Entry, seq<Action>) -> seq<Action>)
    requires forall x, t :: f(x, t) == t + [Print(x)]
    ensures Fold(f, es, trace) == trace + Prints(es)
  {
    if es == [] {
      assert trace + Prints(es) == trace;
    } else {
      FoldPrints(es[1..], trace + [Print(es[0])], f);
      assert Prints(es) == [Print(es[0])] + Prints(es[1..]);
      assert trace + [Print(es[0])] + Prints(es[1..]) == trace + Prints(es);
    }
  }

  lemma {:induction false} FoldReleases(es: seq<Entry>, trace: seq<Action>, f: (Entry, seq<Action>) -> seq<Action>)
    requires forall x, t :: f(x, t) == t + [Release(x)]
    ensures Fold(f, es, trace) == trace + Releases(es)
  {
    if es == [] {
      assert trace + Releases(es) == trace;
    } else {
      FoldReleases(es[1..], trace + [Release(es[0])], f);
      assert Releases(es) == [Release(es[0])] + Releases(es[1..]);
      assert trace + [Release(es[0])] + Releases(es[1..]) == trace + Releases(es);
    }
  }

  class Logger {
    const heap: Heap
    var queuedLogs: List?<Entry>
    var flushOngoing: bool
    var initialized: bool
    /** What `log_single_entry_synchronous` and `free_log_details` have been called for, in order. */
    var trace: seq<Action>

    /** Entries allocated so far: the next one's identity. */
    var count: nat

    /** The list of the request given to `uv_queue_work`, until its done callback. */
    var request: List?<Entry>
    /** The worker has run the request. */
    var ran: bool
    /** The entries of the request. */
    ghost var handed: seq<Entry>
    ghost var submitted: seq<Entry>

    ghost predicate Valid()
      reads this, heap, queuedLogs, List.Spine(queuedLogs), request, List.Spine(request)
    {
      && (queuedLogs != null ==> Live(queuedLogs, heap))
      && count == |submitted| && (flushOngoing <==> request != null)
      && (request != null && !ran ==> Live(request, heap) && request.contents == handed)
      && (request != null && queuedLogs != null ==> Apart(queuedLogs, request))
    }

    ghost function Queue(): Option<seq<Entry>>
      reads this, queuedLogs
    {
      if queuedLogs == null then None else Some(queuedLogs.contents)
    }

    /** The state of the protocol, with no flush in the middle of its work. */
    ghost function Abs(): State
      reads this, queuedLogs
    {
      var n := if ran then |handed| else 0;
      State(initialized, Queue(), flushOngoing, if request == null then [] else [Job(handed, n, n)], None,
        submitted, PrintedOf(trace), ReleasedOf(trace))
    }

    constructor ()
      ensures Valid() && Abs() == Start && fresh(heap)
    {
      heap := new Heap();
      queuedLogs, request, flushOngoing, initialized, ran := null, null, false, false, false;
      trace, handed, submitted, count := [], [], [], 0;
    }

    /** `queue_log` behind `log_info`, `log_warn` and `log_error`. */
    method Log(level: Level, msg: Option<string>)
      requires Valid()
      modifies this, queuedLogs, List.Spine(queuedLogs)
      ensures Valid() && Abs() == Apply(old(Abs()), Event.Log(level, msg))
    {
      if !initialized { return; }
      hide List.Valid, Live, Valid;
      ghost var s := Abs();
      var list := GetQueuedLogs();
      QueueLogGeneric(list, level, msg);
      ghost var more := NewEntries(|s.submitted|, level, msg);
      ghost var s1 := s.(queue := Some(Queued(s.queue) + more), submitted := s.submitted + more);
      assert Abs() == s1 && s.flushOngoing == flushOngoing;
      assert Apply(s, Event.Log(level, msg)) == if s.flushOngoing then s1 else Schedule(s1);
      hide Abs;
      if !flushOngoing { ScheduleFlush(); }
    }

    method GetQueuedLogs() returns (list: List<Entry>)
      requires Valid()
      modifies this`queuedLogs
      ensures Valid() && list == queuedLogs && (old(queuedLogs) != null ==> queuedLogs == old(queuedLogs))
      ensures old(queuedLogs) == null ==> fresh(queuedLogs)
      ensures Abs() == old(Abs()).(queue := Some(Queued(old(Queue()))))
      ensures queuedLogs.nodes == if old(queuedLogs) == null then [] else old(queuedLogs.nodes)
    {
      if queuedLogs == null { queuedLogs := new List(); }
      list := queuedLogs;
    }

    /** `queue_log_generic`: appends a new entry unless the message is NULL. */
    method QueueLogGeneric(list: List<Entry>, level: Level, msg: Option<string>)
      requires Valid() && list == queuedLogs
      modifies list, list.nodes, this`submitted, this`count
      ensures Valid() && list.contents == old(list.contents) + NewEntries(|old(submitted)|, level, msg)
      ensures Abs() == old(Abs()).(queue := Some(list.contents),
                                   submitted := old(submitted) + NewEntries(|old(submitted)|, level, msg))
    {
      if msg.None? { return; }
      hide List.Valid, Live;
      AppendEntry(list, Entry(count, level, msg.value));
      count := count + 1;
      submitted := submitted + [Entry(count - 1, level, msg.value)];
    }

    /** The entry goes to the end of the queue; a list in the worker's hands is another one. */
    method AppendEntry(list: List<Entry>, entry: Entry)
      requires Valid() && list == queuedLogs
      modifies list, list.nodes
      ensures Valid() && list.contents == old(list.contents) + [entry]
    {
      hide List.Valid;
      List.Append(list, entry);
      if request != null && !ran {
        assert forall n | n in request.nodes :: n !in old(list.nodes);
        forall i | 0 <= i < |request.nodes| ensures unchanged(request.nodes[i]) {
          assert request.nodes[i] in request.nodes;
          assert request.nodes[i] !in old(list.nodes);
        }
        Untouched(request);
      }
    }

    method ScheduleFlush()
      requires Valid() && queuedLogs != null && !flushOngoing
      modifies this`flushOngoing, this`request, this`queuedLogs, this`ran, this`handed
      ensures Valid() && Abs() == Schedule(old(Abs()))
    {
      hide List.Valid, Live;
      flushOngoing := true;
      request, ran, handed := queuedLogs, false, queuedLogs.contents;
      queuedLogs := null;
    }

    /** `flush_log_data`: prints every entry in list order, then releases every entry, then the list. */
    method FlushLogData(data: List<Entry>)
      requires Live(data, heap)
      modifies heap, this`trace
      ensures trace == old(trace) + Prints(data.contents) + Releases(data.contents)
      ensures PrintedOf(trace) == PrintedOf(old(trace)) + data.contents
      ensures ReleasedOf(trace) == ReleasedOf(old(trace)) + data.contents
      ensures heap.freed == old(heap.freed) + data.nodes + [data]
    {
      hide PrintedOf, ReleasedOf, Prints, Releases;
      var record := (x: Entry, t: seq<Action>) => t + [Print(x)];
      var release := (x: Entry, t: seq<Action>) => t + [Release(x)];
      FoldPrints(data.contents, trace, record);
      trace := List.Foreach(data, record, trace);
      FoldReleases(data.contents, trace, release);
      trace := List.Foreach(data, release, trace);
      FlushTrace(old(trace), data.contents);
      data.Free(heap);
    }

    /** The worker runs the outstanding request. */
    method OnFlushingThread()
      requires Valid() && request != null && !ran
      modifies heap, this`trace, this`ran
      ensures Valid() && Abs() == Worked(old(Abs()))
    {
      hide PrintedOf, ReleasedOf, Prints, Releases;
      FlushLogData(request);
      ran := true;
    }

    /** The done callback, on the loop thread. */
    method OnFlushingThreadDone()
      requires Valid() && request != null && ran
      modifies this`flushOngoing, this`request
      ensures Valid() && Enabled(old(Abs()), Done(0)) && Abs() == Apply(old(Abs()), Done(0))
    {
      flushOngoing := false;
      request := null;
    }

    /** `force_log_flush`, with the lock held and no worker step in between. */
    method ForceLogFlush()
      requires Valid()
      modifies this`queuedLogs, this`trace, heap
      ensures Valid() && Abs() == if initialized then Forced(old(Abs())) else old(Abs())
    {
      hide List.Valid, PrintedOf, ReleasedOf, Prints, Releases;
      if !initialized { return; }
      var list := GetQueuedLogs();
      FlushLogData(list);
      queuedLogs := null;
    }

    method InitLogger()
      requires Valid()
      modifies this`initialized
      ensures Valid() && Abs() == Apply(old(Abs()), SetInit(true))
    {
      initialized := true;
    }

    method ShutdownLogger()
      requires Valid()
      modifies this`queuedLogs, this`trace, this`initialized, heap
      ensures Valid() && Abs() == (if old(initialized) then Forced(old(Abs())) else old(Abs())).(init := false)
    {
      hide PrintedOf, ReleasedOf;
      ForceLogFlush();
      initialized := false;
    }
  }
}
