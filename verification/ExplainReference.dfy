/** The indentation of EXPLAIN listings, for programs made of loops: a row is indented by two for each loop around it. */
module ExplainReference {
  import opened Explain

  /** How a loop is closed: by an instruction that advances, or by a jump back that is marked by P1, or to an instruction
      that starts a loop. */
  datatype Closer = Advance(name: string, p1: int) | Marked(p1: int) | ToStart

  /** Instructions and loops, one after the other. */
  datatype Code =
    | End
    | Row(name: string, p1: int, p2: int, next: Code)
    | Loop(body: Code, closer: Closer, next: Code)

  predicate IsAdvance(name: string) {
    || name == "Next" || name == "Prev" || name == "VPrev" || name == "VNext" || name == "SorterNext"
    || name == "NextIfOpen" || name == "PrevIfOpen"
  }

  predicate StartsLoop(name: string) {
    name == "Yield" || name == "SeekLT" || name == "SeekGT" || name == "RowSetRead" || name == "Rewind"
  }

  function Length(code: Code): nat {
    match code
    case End => 0
    case Row(_, _, _, next) => 1 + Length(next)
    case Loop(body, _, next) => Length(body) + 1 + Length(next)
  }

  function CloserOp(c: Closer, addr: int, start: int): Op {
    match c
    case Advance(name, p1) => Op(addr, name, p1, start)
    case Marked(p1) => Op(addr, "Goto", p1, start)
    case ToStart => Op(addr, "Goto", 0, start)
  }

  /** The rows of a program whose first instruction has the address `a`. */
  function Rows(code: Code, a: int): (ops: seq<Op>)
    ensures |ops| == Length(code)
  {
    match code
    case End => []
    case Row(name, p1, p2, next) => [Op(a, name, p1, p2)] + Rows(next, a + 1)
    case Loop(body, closer, next) =>
      Rows(body, a) + [CloserOp(closer, a + Length(body), a)] + Rows(next, a + Length(body) + 1)
  }

  /** The first instruction of a program is one that starts a loop. */
  predicate FirstStarts(code: Code) {
    match code
    case End => false
    case Row(name, _, _, _) => StartsLoop(name)
    case Loop(body, closer, _) => if body == End then closer.Advance? && StartsLoop(closer.name) else FirstStarts(body)
  }

  /** Only loops jump back: another instruction is none of the closing ones, or a jump ahead. */
  predicate IsProgram(code: Code, a: int) {
    match code
    case End => true
    case Row(name, _, p2, next) => !IsAdvance(name) && (name == "Goto" ==> p2 > a) && IsProgram(next, a + 1)
    case Loop(body, closer, next) =>
      && IsProgram(body, a) && IsProgram(next, a + Length(body) + 1)
      && match closer
         case Advance(name, _) => IsAdvance(name)
         case Marked(p1) => p1 != 0
         case ToStart => FirstStarts(body)
  }

  /** The number of loops around row `j` of a program. */
  function Nesting(code: Code, j: nat): nat {
    match code
    case End => 0
    case Row(_, _, _, next) => if j == 0 then 0 else Nesting(next, j - 1)
    case Loop(body, _, next) =>
      if j < Length(body) then 1 + Nesting(body, j)
      else if j == Length(body) then 0
      else Nesting(next, j - Length(body) - 1)
  }

  // ---- Counting the loops around a row -----------------------------------------------------

  /** The rows from `lo` on that cover row `k`. */
  function Covering(ops: seq<Op>, k: nat, lo: nat, n: nat): nat
    requires lo + n <= |ops|
  {
    if n == 0 then 0 else Covering(ops, k, lo, n - 1) + if Covers(ops, lo + n - 1, k) then 1 else 0
  }

  lemma {:induction false} DepthIsCovering(ops: seq<Op>, k: nat, n: nat)
    requires n <= |ops|
    ensures Depth(ops, k, n) == Covering(ops, k, 0, n)
  {
    if n > 0 { DepthIsCovering(ops, k, n - 1); }
  }

  lemma {:induction false} CoveringSplit(ops: seq<Op>, k: nat, lo: nat, m: nat, n: nat)
    requires lo + m + n <= |ops|
    ensures Covering(ops, k, lo, m + n) == Covering(ops, k, lo, m) + Covering(ops, k, lo + m, n)
  {
    if n > 0 { CoveringSplit(ops, k, lo, m, n - 1); }
  }

  lemma CoveringOne(ops: seq<Op>, k: nat, lo: nat)
    requires lo < |ops|
    ensures Covering(ops, k, lo, 1) == if Covers(ops, lo, k) then 1 else 0
  {
    assert Covering(ops, k, lo, 0) == 0;
  }

  lemma AdvanceIs(name: string)
    ensures name in NEXT_NAMES <==> IsAdvance(name)
    ensures name in YIELD_NAMES <==> StartsLoop(name)
    ensures name in GOTO_NAMES <==> name == "Goto"
  {
  }

  /** The rows of `code` stand in the listing from row `o` on. */
  ghost predicate StandsAt(ops: seq<Op>, o: nat, code: Code, a: int) {
    o + Length(code) <= |ops| && ops[o..o + Length(code)] == Rows(code, a)
  }

  lemma RowStands(ops: seq<Op>, o: nat, code: Code, a: int)
    requires code.Row? && StandsAt(ops, o, code, a)
    ensures ops[o] == Op(a, code.name, code.p1, code.p2) && StandsAt(ops, o + 1, code.next, a + 1)
  {
    var part := ops[o..o + Length(code)];
    assert part[0] == ops[o];
    assert part[1..] == ops[o + 1..o + Length(code)] == Rows(code.next, a + 1);
  }

  lemma LoopStands(ops: seq<Op>, o: nat, code: Code, a: int)
    requires code.Loop? && StandsAt(ops, o, code, a)
    ensures var n := Length(code.body);
            && StandsAt(ops, o, code.body, a) && ops[o + n] == CloserOp(code.closer, a + n, a)
            && StandsAt(ops, o + n + 1, code.next, a + n + 1)
  {
    hide StandsAt, Rows, Length, CloserOp;
    var n := Length(code.body);
    StandsIs(ops, o, code, a);
    LoopRows(code, a);
    Cut(ops, o, Rows(code.body, a), CloserOp(code.closer, a + n, a), Rows(code.next, a + n + 1));
    StandsIs(ops, o, code.body, a);
    StandsIs(ops, o + n + 1, code.next, a + n + 1);
  }

  lemma StandsIs(ops: seq<Op>, o: nat, code: Code, a: int)
    ensures StandsAt(ops, o, code, a) <==> o + Length(code) <= |ops| && ops[o..o + Length(code)] == Rows(code, a)
  {
  }

  lemma LoopRows(code: Code, a: int)
    requires code.Loop?
    ensures var n := Length(code.body);
            && Length(code) == n + 1 + Length(code.next)
            && Rows(code, a) == Rows(code.body, a) + [CloserOp(code.closer, a + n, a)] + Rows(code.next, a + n + 1)
  {
  }

  /** A part of a listing in three. */
  lemma Cut(ops: seq<Op>, o: nat, u: seq<Op>, x: Op, v: seq<Op>)
    requires o + |u| + 1 + |v| <= |ops| && ops[o..o + |u| + 1 + |v|] == u + [x] + v
    ensures ops[o..o + |u|] == u && ops[o + |u|] == x && ops[o + |u| + 1..o + |u| + 1 + |v|] == v
  {
    var part := ops[o..o + |u| + 1 + |v|];
    assert part[..|u|] == ops[o..o + |u|];
    assert part[|u|] == ops[o + |u|];
    assert part[|u| + 1..] == ops[o + |u| + 1..o + |u| + 1 + |v|];
  }

  lemma {:induction false} FirstIs(ops: seq<Op>, o: nat, code: Code, a: int)
    requires FirstStarts(code) && StandsAt(ops, o, code, a)
    ensures Length(code) > 0 && o < |ops| && StartsLoop(ops[o].name)
    decreases code
  {
    if code.Row? {
      RowStands(ops, o, code, a);
    } else if code.Loop? {
      LoopStands(ops, o, code, a);
      if code.body != End { FirstIs(ops, o, code.body, a); }
    }
  }

  /** A row that is no closer covers nothing. */
  lemma RowCoversNone(ops: seq<Op>, o: nat, a: int, k: nat)
    requires o < |ops| && ops[o].addr == a && !IsAdvance(ops[o].name) && (ops[o].name == "Goto" ==> ops[o].p2 > a)
    ensures !Covers(ops, o, k)
  {
    AdvanceIs(ops[o].name);
  }

  /** The closer of a loop covers the rows of its body. */
  lemma CloserCovers(ops: seq<Op>, o: nat, code: Code, a: int, k: nat)
    requires code.Loop? && IsProgram(code, a) && StandsAt(ops, o, code, a)
    ensures var n := Length(code.body); o + n < |ops| && (Covers(ops, o + n, k) <==> o <= k < o + n)
  {
    LoopStands(ops, o, code, a);
    var n := Length(code.body);
    AdvanceIs(ops[o + n].name);
    assert Target(ops, o + n) == o;
    AdvanceIs(ops[o].name);
    if code.closer.ToStart? { FirstIs(ops, o, code.body, a); }
  }

  lemma {:induction false} CodeCovers(ops: seq<Op>, o: nat, code: Code, a: int, k: nat)
    requires IsProgram(code, a) && StandsAt(ops, o, code, a)
    ensures Covering(ops, k, o, Length(code)) == if o <= k < o + Length(code) then Nesting(code, k - o) else 0
    decreases code
  {
    hide Covering, Covers, StandsAt, Rows;
    StandsInside(ops, o, code, a);
    match code
    case End => NoCovering(ops, k, o);
    case Row(_, _, _, next) =>
      RowStands(ops, o, code, a);
      CodeCovers(ops, o + 1, next, a + 1, k);
      RowCase(ops, o, code, a, k);
    case Loop(body, _, next) =>
      LoopStands(ops, o, code, a);
      CodeCovers(ops, o, body, a, k);
      CodeCovers(ops, o + Length(body) + 1, next, a + Length(body) + 1, k);
      LoopCase(ops, o, code, a, k);
  }

  lemma RowCase(ops: seq<Op>, o: nat, code: Code, a: int, k: nat)
    requires code.Row? && IsProgram(code, a) && StandsAt(ops, o, code, a)
    requires o + Length(code) <= |ops|
    ensures Covering(ops, k, o, Length(code)) == Covering(ops, k, o + 1, Length(code.next))
  {
    hide Covering, Covers, StandsAt, Rows;
    RowStands(ops, o, code, a);
    RowCoversNone(ops, o, a, k);
    CoveringOne(ops, k, o);
    CoveringSplit(ops, k, o, 1, Length(code.next));
  }

  lemma LoopCase(ops: seq<Op>, o: nat, code: Code, a: int, k: nat)
    requires code.Loop? && IsProgram(code, a) && StandsAt(ops, o, code, a)
    requires o + Length(code) <= |ops|
    ensures var n := Length(code.body);
            Covering(ops, k, o, Length(code)) ==
              Covering(ops, k, o, n) + (if o <= k < o + n then 1 else 0) + Covering(ops, k, o + n + 1, Length(code.next))
  {
    hide Covering, Covers, StandsAt, Rows, IsProgram;
    var n := Length(code.body);
    CloserCovers(ops, o, code, a, k);
    CoveringOne(ops, k, o + n);
    CoveringSplit(ops, k, o, n, 1 + Length(code.next));
    CoveringSplit(ops, k, o + n, 1, Length(code.next));
  }

  lemma StandsInside(ops: seq<Op>, o: nat, code: Code, a: int)
    requires StandsAt(ops, o, code, a)
    ensures o + Length(code) <= |ops|
  {
  }

  lemma NoCovering(ops: seq<Op>, k: nat, lo: nat)
    requires lo <= |ops|
    ensures Covering(ops, k, lo, 0) == 0
  {
  }

  // ---- Whole listings ----------------------------------------------------------------------

  /** A program and the address that its instructions start at: sub-programs follow the main one in a listing. */
  datatype Program = Program(code: Code, base: int)

  function Listing(ps: seq<Program>): seq<Op> {
    if ps == [] then [] else Rows(ps[0].code, ps[0].base) + Listing(ps[1..])
  }

  function NestingIn(ps: seq<Program>, k: nat): nat {
    if ps == [] then 0
    else
      var n := Length(ps[0].code);
      if k < n then Nesting(ps[0].code, k) else NestingIn(ps[1..], k - n)
  }

  predicate ArePrograms(ps: seq<Program>) {
    forall i :: 0 <= i < |ps| ==> IsProgram(ps[i].code, ps[i].base)
  }

  lemma {:induction false} ListingFrom(all: seq<Op>, o: nat, ps: seq<Program>, k: nat)
    requires ArePrograms(ps) && o <= |all| && all[o..] == Listing(ps)
    ensures Covering(all, k, o, |all| - o) == if k >= o then NestingIn(ps, k - o) else 0
    decreases |ps|
  {
    hide Covering, Nesting;
    if ps == [] {
      NoCovering(all, k, o);
    } else {
      var p := ps[0];
      var n := Length(p.code);
      assert |all[o..]| == n + |Listing(ps[1..])|;
      assert all[o..][..n] == all[o..o + n] == Rows(p.code, p.base);
      assert all[o..][n..] == all[o + n..] == Listing(ps[1..]);
      CodeCovers(all, o, p.code, p.base, k);
      assert ArePrograms(ps[1..]) by { forall i | 0 <= i < |ps[1..]| ensures ps[1..][i] == ps[i + 1] { } }
      ListingFrom(all, o + n, ps[1..], k);
      CoveringSplit(all, k, o, n, |all| - o - n);
    }
  }

  /** Every row of a listing is indented by two blanks for each loop around it, in its own program. */
  lemma DepthIsNesting(ps: seq<Program>, k: nat)
    requires ArePrograms(ps)
    ensures var ops := Listing(ps); Depth(ops, k, |ops|) == NestingIn(ps, k)
  {
    var ops := Listing(ps);
    assert ops[0..] == ops;
    DepthIsCovering(ops, k, |ops|);
    ListingFrom(ops, 0, ps, k);
  }
}
