/** `explain_data_prepare`: how far each instruction of an EXPLAIN listing is indented. */
module Explain {
  /** One row of the listing. */
  datatype Op = Op(addr: int, name: string, p1: int, p2: int)

  const NEXT_NAMES: seq<string> := ["Next", "Prev", "VPrev", "VNext", "SorterNext", "NextIfOpen", "PrevIfOpen"]
  const YIELD_NAMES: seq<string> := ["Yield", "SeekLT", "SeekGT", "RowSetRead", "Rewind"]
  const GOTO_NAMES: seq<string> := ["Goto"]

  // ---- What the indentation means ----------------------------------------------------------

  /** The row that instruction `i` jumps to; addresses start again in a sub-program. */
  function Target(ops: seq<Op>, i: nat): int
    requires i < |ops|
  {
    ops[i].p2 + (i - ops[i].addr)
  }

  /** Instruction `i` closes a loop: a "Next" of any kind, or a "Goto" back to the start of a loop, or one marked by P1. */
  predicate Selected(ops: seq<Op>, i: nat)
    requires i < |ops|
  {
    var t := Target(ops, i);
    || ops[i].name in NEXT_NAMES
    || (ops[i].name in GOTO_NAMES && 0 <= t <= i && (ops[t].name in YIELD_NAMES || ops[i].p1 != 0))
  }

  predicate Covers(ops: seq<Op>, i: nat, k: nat)
    requires i < |ops|
  {
    Selected(ops, i) && Target(ops, i) <= k < i
  }

  /** The number of loops among the first `n` instructions whose body holds row `k`. */
  function Depth(ops: seq<Op>, k: nat, n: nat): nat
    requires n <= |ops|
  {
    if n == 0 then 0 else Depth(ops, k, n - 1) + if Covers(ops, n - 1, k) then 1 else 0
  }

  /** No jump that is looked at leaves the listing at its front. */
  predicate InListing(ops: seq<Op>) {
    forall i :: 0 <= i < |ops| && (ops[i].name in NEXT_NAMES || ops[i].name in GOTO_NAMES) ==> Target(ops, i) >= 0
  }

  // ---- The loops ---------------------------------------------------------------------------

  method StrInArray(z: string, names: seq<string>) returns (r: bool)
    ensures r == (z in names)
  {
    for i := 0 to |names|
      invariant z !in names[..i]
    {
      if z == names[i] { return true; }
      assert names[..i + 1] == names[..i] + [names[i]];
    }
    assert names[..|names|] == names;
    return false;
  }

  /** `sqlite3_realloc64`: the first `n` entries stay. */
  method Realloc<T(0)>(a: array<T>, n: nat, size: nat) returns (b: array<T>)
    requires n <= a.Length && n <= size
    ensures fresh(b) && b.Length == size && forall i :: 0 <= i < n ==> b[i] == a[i]
  {
    b := new T[size];
    for i := 0 to n
      invariant forall x :: 0 <= x < i ==> b[x] == a[x]
    {
      b[i] := a[i];
    }
  }

  /** The rows from `from` up to `end` are indented by two more blanks. */
  method Indent(a: array<int>, from: nat, end: nat)
    requires end <= a.Length
    modifies a
    ensures forall i :: 0 <= i < a.Length ==> a[i] == old(a[i]) + if from <= i < end then 2 else 0
  {
    var i := from;
    while i < end
      invariant from <= i && (i <= end || i == from)
      invariant forall x :: 0 <= x < a.Length ==> a[x] == old(a[x]) + if from <= x < i then 2 else 0
      decreases end - i
    {
      a[i] := a[i] + 2;
      i := i + 1;
    }
  }

  /** What one instruction adds to the rows before it. */
  method IndentLoop(ops: seq<Op>, iOp: nat, aiIndent: array<int>, abYield: array<bool>)
    requires iOp < |ops| && iOp < aiIndent.Length && abYield.Length == aiIndent.Length && InListing(ops)
    requires forall i :: 0 <= i <= iOp ==> abYield[i] == (ops[i].name in YIELD_NAMES)
    modifies aiIndent
    ensures forall k :: 0 <= k < aiIndent.Length ==> aiIndent[k] == old(aiIndent[k]) + if Covers(ops, iOp, k) then 2 else 0
  {
    var op := ops[iOp];
    var p2op := op.p2 + (iOp - op.addr);
    var nIndent := iOp + 1;
    var isNext := StrInArray(op.name, NEXT_NAMES);
    if isNext { Indent(aiIndent, p2op, iOp); }
    var isGoto := StrInArray(op.name, GOTO_NAMES);
    if isGoto && p2op < nIndent {
      if abYield[p2op] || op.p1 != 0 { Indent(aiIndent, p2op, iOp); }
    }
  }

  /** `explain_data_prepare` on the rows of a verified EXPLAIN: twice the number of loops around each row.  Both
      arrays grow by 100 entries at a time. */
  method ExplainDataPrepare(ops: seq<Op>) returns (aiIndent: array<int>, nIndent: nat)
    requires InListing(ops)
    ensures nIndent == |ops| <= aiIndent.Length
    ensures forall k :: 0 <= k < |ops| ==> aiIndent[k] == 2 * Depth(ops, k, |ops|)
  {
    hide Depth, Covers;
    var nAlloc := 0;
    aiIndent := new int[0];
    var abYield := new bool[0];
    nIndent := 0;
    for iOp := 0 to |ops|
      invariant iOp == nIndent <= aiIndent.Length == abYield.Length == nAlloc
      invariant fresh(aiIndent) && fresh(abYield)
      invariant forall k :: 0 <= k < iOp ==> aiIndent[k] == 2 * Depth(ops, k, iOp)
      invariant forall i :: 0 <= i < iOp ==> abYield[i] == (ops[i].name in YIELD_NAMES)
    {
      if iOp >= nAlloc {
        nAlloc := nAlloc + 100;
        aiIndent := Realloc(aiIndent, iOp, nAlloc);
        abYield := Realloc(abYield, iOp, nAlloc);
      }
      var y := StrInArray(ops[iOp].name, YIELD_NAMES);
      abYield[iOp] := y;
      aiIndent[iOp] := 0;
      nIndent := iOp + 1;
      DepthAhead(ops, iOp, iOp);
      DepthNext(ops, iOp);
      IndentLoop(ops, iOp, aiIndent, abYield);
    }
  }

  lemma DepthNext(ops: seq<Op>, n: nat)
    requires n < |ops|
    ensures forall k: nat :: k <= n ==> Depth(ops, k, n + 1) == Depth(ops, k, n) + if Covers(ops, n, k) then 1 else 0
  {
  }

  /** Instructions up to `k` do not indent row `k`. */
  lemma {:induction false} DepthAhead(ops: seq<Op>, k: nat, n: nat)
    requires n <= |ops| && n <= k + 1
    ensures Depth(ops, k, n) == 0
  {
    if n > 0 { DepthAhead(ops, k, n - 1); }
  }

  // ---- Conservation ------------------------------------------------------------------------

  function BodyLength(ops: seq<Op>, i: nat): nat
    requires i < |ops|
  {
    if Selected(ops, i) && 0 <= Target(ops, i) <= i then i - Target(ops, i) else 0
  }

  function Bodies(ops: seq<Op>, n: nat): nat
    requires n <= |ops|
  {
    if n == 0 then 0 else Bodies(ops, n - 1) + BodyLength(ops, n - 1)
  }

  function Depths(ops: seq<Op>, k: nat, n: nat): nat
    requires n <= |ops|
  {
    if k == 0 then 0 else Depths(ops, k - 1, n) + Depth(ops, k - 1, n)
  }

  lemma {:induction false} AddLoop(ops: seq<Op>, k: nat, n: nat)
    requires n < |ops| && InListing(ops)
    ensures var t := Target(ops, n);
            Depths(ops, k, n + 1) == Depths(ops, k, n) +
              if !Selected(ops, n) || t >= n || k <= t then 0 else if k <= n then k - t else n - t
  {
    if k > 0 { AddLoop(ops, k - 1, n); }
  }

  /** All rows together are indented by the total length of the loop bodies. */
  lemma {:induction false} DepthsAreBodies(ops: seq<Op>, n: nat)
    requires n <= |ops| && InListing(ops)
    ensures Depths(ops, |ops|, n) == Bodies(ops, n)
  {
    if n == 0 {
      NoDepths(ops, |ops|);
    } else {
      DepthsAreBodies(ops, n - 1);
      AddLoop(ops, |ops|, n - 1);
    }
  }

  lemma {:induction false} NoDepths(ops: seq<Op>, k: nat)
    ensures Depths(ops, k, 0) == 0
  {
    if k > 0 { NoDepths(ops, k - 1); }
  }
}
