/** The ring of the last ten reports broadcast to the websocket clients (producer side). */
module Ring {
  import opened Options

  // ---- The ring as a value -----------------------------------------------------------------

  /** Buffers are numbered in the order in which they are broadcast; `freed` lists the released ones. */
  datatype State = State(slots: seq<Option<nat>>, current: nat, made: nat, freed: seq<nat>)

  datatype Step = Broadcast | Cleanup

  function Empty(): (slots: seq<Option<nat>>)
    ensures |slots| == 10
  {
    seq(10, _ => None)
  }

  /** The buffers held by the slots, in slot order. */
  function Held(slots: seq<Option<nat>>): seq<nat> {
    if slots == [] then []
    else
      var rest := slots[..|slots| - 1];
      Held(rest) + Gone(slots[|slots| - 1])
  }

  /** What leaves the slot: the buffer it holds, if any. */
  function Gone(slot: Option<nat>): seq<nat> {
    match slot
    case Some(id) => [id]
    case None => []
  }

  function Next(current: nat): (next: nat)
    ensures next < 10
  {
    (current + 1) % 10
  }

  function Broadcasted(s: State): (r: State)
    requires |s.slots| == 10
    ensures |r.slots| == 10
  {
    var next := Next(s.current);
    State(s.slots[next := Some(s.made)], next, s.made + 1,
          s.freed + Gone(s.slots[next]))
  }

  function Cleaned(s: State): State {
    State(Empty(), 0, s.made, s.freed + Held(s.slots))
  }

  function Run(steps: seq<Step>): (s: State)
    ensures |s.slots| == 10
  {
    if steps == [] then State(Empty(), 0, 0, [])
    else
      var s := Run(steps[..|steps| - 1]);
      match steps[|steps| - 1]
      case Broadcast => Broadcasted(s)
      case Cleanup => Cleaned(s)
  }

  /** The number of broadcasts since the last cleanup. */
  function Since(steps: seq<Step>): nat {
    if steps == [] || steps[|steps| - 1] == Cleanup then 0 else 1 + Since(steps[..|steps| - 1])
  }

  // ---- Where the buffers are ---------------------------------------------------------------

  /** After `n` broadcasts: buffer number `k` of them is in slot `k % 10` exactly if it is one of the last ten. */
  ghost predicate LastTen(s: State, n: nat) {
    && |s.slots| == 10 && n <= s.made && s.current == n % 10
    && (forall k :: 1 <= k <= n && n - 10 < k ==> InSlot(s, n, k))
    && (forall i :: 0 <= i < 10 && s.slots[i].Some? ==> Recent(s.slots[i].value - (s.made - n) + 1, n, i))
  }

  ghost predicate InSlot(s: State, n: nat, k: nat)
    requires |s.slots| == 10
  {
    s.slots[k % 10] == Some(s.made - n + k - 1)
  }

  ghost predicate Recent(k: int, n: nat, i: nat) {
    1 <= k <= n && n - 10 < k && k % 10 == i
  }

  lemma BroadcastKeepsLastTen(s: State, n: nat)
    requires LastTen(s, n)
    ensures LastTen(Broadcasted(s), n + 1)
  {
    var r := Broadcasted(s);
    var next := Next(s.current);
    hide Recent, InSlot;
    NextSlot(s.current, n);
    var m := n + 1;
    forall k | 1 <= k <= m && m - 10 < k ensures InSlot(r, m, k) {
      if k <= n { StaysInSlot(s, n, k); } else { NewestInSlot(s, n); }
    }
    forall i | 0 <= i < 10 && r.slots[i].Some?
      ensures Recent(r.slots[i].value - (r.made - (n + 1)) + 1, n + 1, i)
    {
      if i == next { NewestRecent(n + 1); } else { StaysRecent(s.slots[i].value - (s.made - n) + 1, n, i); }
    }
  }

  lemma NextSlot(current: nat, n: nat)
    requires current == n % 10
    ensures Next(current) == (n + 1) % 10
  {
  }

  lemma Apart(k: nat, m: nat)
    requires 0 < m - k < 10
    ensures k % 10 != m % 10
  {
  }

  lemma StaysInSlot(s: State, n: nat, k: nat)
    requires |s.slots| == 10 && s.current == n % 10 && InSlot(s, n, k) && k <= n && n + 1 - 10 < k
    ensures InSlot(Broadcasted(s), n + 1, k)
  {
    Apart(k, n + 1);
  }

  lemma NewestInSlot(s: State, n: nat)
    requires |s.slots| == 10 && s.current == n % 10
    ensures InSlot(Broadcasted(s), n + 1, n + 1)
  {
  }

  lemma NewestRecent(n: nat)
    requires n > 0
    ensures Recent(n, n, n % 10)
  {
  }

  lemma StaysRecent(k: int, n: nat, i: nat)
    requires Recent(k, n, i) && i != (n + 1) % 10
    ensures Recent(k, n + 1, i)
  {
  }

  /** Over any run, with `n` broadcasts since the last cleanup. */
  lemma {:induction false} RingHoldsLastTen(steps: seq<Step>)
    ensures LastTen(Run(steps), Since(steps))
  {
    if steps != [] {
      var before := steps[..|steps| - 1];
      RingHoldsLastTen(before);
      if steps[|steps| - 1] == Broadcast { BroadcastKeepsLastTen(Run(before), Since(before)); }
    }
  }

  // ---- Every buffer live once or freed once ------------------------------------------------

  function Count<T(==)>(s: seq<T>, x: T): nat {
    if s == [] then 0 else Count(s[..|s| - 1], x) + if s[|s| - 1] == x then 1 else 0
  }

  lemma {:induction false} CountConcat<T>(a: seq<T>, b: seq<T>, x: T)
    ensures Count(a + b, x) == Count(a, x) + Count(b, x)
  {
    if b == [] {
      assert a + b == a;
    } else {
      CountConcat(a, b[..|b| - 1], x);
      assert (a + b)[..|a + b| - 1] == a + b[..|b| - 1];
    }
  }

  lemma {:induction false} CountUpdate<T>(s: seq<T>, i: nat, y: T, x: T)
    requires i < |s|
    ensures Count(s[i := y], x) == Count(s, x) - (if s[i] == x then 1 else 0) + if y == x then 1 else 0
  {
    var last := |s| - 1;
    if i < last {
      CountUpdate(s[..last], i, y, x);
      assert s[i := y][..last] == s[..last][i := y];
    } else {
      assert s[i := y][..last] == s[..last];
    }
  }

  lemma {:induction false} CountPositive<T>(s: seq<T>, x: T)
    ensures Count(s, x) > 0 <==> exists i :: 0 <= i < |s| && s[i] == x
  {
    if s != [] {
      var last := |s| - 1;
      CountPositive(s[..last], x);
      if Count(s[..last], x) > 0 {
        var i :| 0 <= i < last && s[..last][i] == x;
        assert s[i] == x;
      }
      if i :| 0 <= i < |s| && s[i] == x {
        if i < last { assert s[..last][i] == x; }
      }
    }
  }

  lemma CountTwice<T>(s: seq<T>, i: nat, j: nat)
    requires i < j < |s| && s[i] == s[j]
    ensures Count(s, s[i]) >= 2
  {
    var x := s[i];
    var front, back := s[..j], s[j..];
    assert s == front + back;
    CountConcat(front, back, x);
    assert front[i] == x;
    CountPositive(front, x);
    assert back[0] == x;
    CountPositive(back, x);
  }

  lemma {:induction false} HeldCount(slots: seq<Option<nat>>, id: nat)
    ensures Count(Held(slots), id) == Count(slots, Some(id))
  {
    if slots != [] {
      var rest := slots[..|slots| - 1];
      HeldCount(rest, id);
      CountConcat(Held(rest), Gone(slots[|slots| - 1]), id);
      CountGone(slots[|slots| - 1], id);
    }
  }

  lemma CountGone(slot: Option<nat>, id: nat)
    ensures Count<nat>(Gone(slot), id) == if slot == Some(id) then 1 else 0
  {
    match slot
    case Some(x) => assert [x][..0] == [];
    case None =>
  }

  /** A buffer made so far is in one slot or has been freed once; no other buffer is anywhere. */
  ghost predicate AccountedOnce(s: State, id: nat) {
    Count(s.slots, Some(id)) + Count<nat>(s.freed, id) == if id < s.made then 1 else 0
  }

  ghost predicate Accounted(s: State) {
    forall id: nat :: AccountedOnce(s, id)
  }

  lemma BroadcastAccounts(s: State, id: nat)
    requires |s.slots| == 10 && AccountedOnce(s, id)
    ensures AccountedOnce(Broadcasted(s), id)
  {
    hide Count, Gone, Next;
    var next := Next(s.current);
    CountUpdate(s.slots, next, Some(s.made), Some(id));
    CountConcat(s.freed, Gone(s.slots[next]), id);
    CountGone(s.slots[next], id);
  }

  lemma EmptyHolds(id: nat)
    ensures Count(Empty(), Some(id)) == 0
  {
    CountPositive(Empty(), Some(id));
  }

  lemma CleanupAccounts(s: State, id: nat)
    requires AccountedOnce(s, id)
    ensures AccountedOnce(Cleaned(s), id)
  {
    EmptyHolds(id);
    HeldCount(s.slots, id);
    CountConcat(s.freed, Held(s.slots), id);
  }

  lemma StepsAccount(s: State)
    requires |s.slots| == 10 && Accounted(s)
    ensures Accounted(Broadcasted(s)) && Accounted(Cleaned(s))
  {
    forall id: nat ensures AccountedOnce(Broadcasted(s), id) { BroadcastAccounts(s, id); }
    forall id: nat ensures AccountedOnce(Cleaned(s), id) { CleanupAccounts(s, id); }
  }

  lemma ReleaseStep(s: State, i: nat)
    requires i < |s.slots| && Accounted(s)
    ensures Accounted(Released(s, i))
  {
    forall id: nat ensures AccountedOnce(Released(s, i), id) { ReleaseAccounts(s, i, id); }
  }

  /** The buffer just made is in its slot, so it has not been freed. */
  lemma NewestIsAlive(s: State)
    requires |s.slots| == 10 && Accounted(s)
    ensures Count<nat>(Broadcasted(s).freed, s.made) == 0
  {
    BroadcastAccounts(s, s.made);
    HeldNotFreed(Broadcasted(s), Broadcasted(s).current, s.made);
  }

  lemma HeldNotFreed(s: State, i: nat, id: nat)
    requires i < |s.slots| && s.slots[i] == Some(id) && AccountedOnce(s, id)
    ensures Count<nat>(s.freed, id) == 0
  {
    CountPositive(s.slots, Some(id));
  }

  lemma {:induction false} RunAccounts(steps: seq<Step>, id: nat)
    ensures AccountedOnce(Run(steps), id)
  {
    if steps == [] {
      EmptyHolds(id);
    } else {
      var s := Run(steps[..|steps| - 1]);
      RunAccounts(steps[..|steps| - 1], id);
      if steps[|steps| - 1] == Broadcast { BroadcastAccounts(s, id); } else { CleanupAccounts(s, id); }
    }
  }

  // ---- Cleanup, slot by slot ---------------------------------------------------------------

  function Released(s: State, i: nat): (r: State)
    requires i < |s.slots|
    ensures |r.slots| == |s.slots|
  {
    s.(slots := s.slots[i := None],
       freed := s.freed + Gone(s.slots[i]))
  }

  /** The first `i` slots released. */
  function ReleasedTo(s: State, i: nat): (r: State)
    requires i <= |s.slots|
    ensures |r.slots| == |s.slots|
  {
    if i == 0 then s else Released(ReleasedTo(s, i - 1), i - 1)
  }

  lemma ReleaseAccounts(s: State, i: nat, id: nat)
    requires i < |s.slots| && AccountedOnce(s, id)
    ensures AccountedOnce(Released(s, i), id)
  {
    hide Count, Gone;
    CountUpdate(s.slots, i, None, Some(id));
    CountConcat(s.freed, Gone(s.slots[i]), id);
    CountGone(s.slots[i], id);
  }

  lemma {:induction false} ReleasedSoFar(s: State, i: nat)
    requires i <= |s.slots|
    ensures var r := ReleasedTo(s, i);
            && r.freed == s.freed + Held(s.slots[..i])
            && r.current == s.current && r.made == s.made
            && (forall x :: 0 <= x < |s.slots| ==> r.slots[x] == if x < i then None else s.slots[x])
  {
    if i > 0 {
      ReleasedSoFar(s, i - 1);
      assert s.slots[..i][..i - 1] == s.slots[..i - 1];
    }
  }

  /** Releasing the ten slots one after the other and resetting the index is the cleanup. */
  lemma ReleasedAll(s: State)
    requires |s.slots| == 10
    ensures ReleasedTo(s, 10).(current := 0) == Cleaned(s)
  {
    ReleasedSoFar(s, 10);
    assert s.slots[..10] == s.slots;
    assert ReleasedTo(s, 10).slots == Empty();
  }

  ghost predicate Live(s: State, id: nat) {
    exists i :: 0 <= i < |s.slots| && s.slots[i] == Some(id)
  }

  ghost predicate Freed(s: State, id: nat) {
    exists i :: 0 <= i < |s.freed| && s.freed[i] == id
  }

  /** Over any run, every buffer made so far is either live or freed, never both, in one slot or freed once. */
  lemma LiveOrFreedOnce(steps: seq<Step>, id: nat)
    ensures var s := Run(steps);
            && (id < s.made <==> Live(s, id) || Freed(s, id))
            && !(Live(s, id) && Freed(s, id))
            && (forall i, j :: 0 <= i < j < |s.slots| && s.slots[i] == Some(id) ==> s.slots[j] != Some(id))
            && (forall i, j :: 0 <= i < j < |s.freed| && s.freed[i] == id ==> s.freed[j] != id)
  {
    var s := Run(steps);
    RunAccounts(steps, id);
    CountPositive(s.slots, Some(id));
    CountPositive(s.freed, id);
    forall i, j | 0 <= i < j < |s.slots| && s.slots[i] == Some(id)
      ensures s.slots[j] != Some(id)
    {
      if s.slots[j] == Some(id) { CountTwice(s.slots, i, j); }
    }
    forall i, j | 0 <= i < j < |s.freed| && s.freed[i] == id
      ensures s.freed[j] != id
    {
      if s.freed[j] == id { CountTwice(s.freed, i, j); }
    }
  }
}
