/** Where `testcase_glob` keeps the promises of its comment, and where it does not. */
module GlobComment {
  import opened CText
  import opened Glob

  /** Tokens `ts[i..j]` are a run of '*' and '?' that starts with '*', and `ts[j]` is white space or '#'. */
  predicate RunMeetsSpanAt(ts: seq<Tok>, i: nat, j: nat) {
    && i < j < |ts| && ts[i] == Star && (ts[j] == Space || ts[j] == Number)
    && forall x :: i < x < j ==> ts[x] == Star || ts[x] == Any
  }

  ghost predicate RunMeetsSpan(ts: seq<Tok>) {
    exists i: nat, j: nat :: RunMeetsSpanAt(ts, i, j)
  }

  lemma DropHead(t: Tok, ts: seq<Tok>)
    requires t != Star || (ts != [] && ts[0] != Star && ts[0] != Any && ts[0] != Space && ts[0] != Number)
    ensures RunMeetsSpan([t] + ts) <==> RunMeetsSpan(ts)
  {
    var all := [t] + ts;
    assert forall x :: 0 <= x < |ts| ==> all[x + 1] == ts[x];
    if i: nat, j: nat :| RunMeetsSpanAt(all, i, j) {
      assert all[1] == ts[0] && i > 0;
      assert RunMeetsSpanAt(ts, i - 1, j - 1);
    }
    if i: nat, j: nat :| RunMeetsSpanAt(ts, i, j) {
      assert forall x :: i + 1 < x < j + 1 ==> all[x] == ts[x - 1];
      assert RunMeetsSpanAt(all, i + 1, j + 1);
    }
  }

  lemma DropSecond(t: Tok, ts: seq<Tok>)
    requires t == Star || t == Any
    ensures RunMeetsSpan([Star] + ([t] + ts)) <==> RunMeetsSpan([Star] + ts)
  {
    if i: nat, j: nat :| RunMeetsSpanAt([Star] + ([t] + ts), i, j) {
      RunShrinks(t, ts, i, j);
    }
    if i: nat, j: nat :| RunMeetsSpanAt([Star] + ts, i, j) {
      RunGrows(t, ts, i, j);
    }
  }

  lemma RunShrinks(t: Tok, ts: seq<Tok>, i: nat, j: nat)
    requires (t == Star || t == Any) && RunMeetsSpanAt([Star] + ([t] + ts), i, j)
    ensures RunMeetsSpan([Star] + ts)
  {
    var long, short := [Star] + ([t] + ts), [Star] + ts;
    var i' := if i <= 1 then 0 else i - 1;
    assert long[1] == t && long[j] == short[j - 1];
    forall x | i' < x < j - 1 ensures short[x] == Star || short[x] == Any {
      assert short[x] == long[x + 1];
    }
    assert i > 1 ==> short[i - 1] == long[i];
    assert RunMeetsSpanAt(short, i', j - 1);
  }

  lemma RunGrows(t: Tok, ts: seq<Tok>, i: nat, j: nat)
    requires (t == Star || t == Any) && RunMeetsSpanAt([Star] + ts, i, j)
    ensures RunMeetsSpan([Star] + ([t] + ts))
  {
    var long, short := [Star] + ([t] + ts), [Star] + ts;
    var i' := if i == 0 then 0 else i + 1;
    forall x | i' < x < j + 1 ensures long[x] == Star || long[x] == Any {
      if x > 1 { assert long[x] == short[x - 1]; }
    }
    assert long[j + 1] == short[j];
    assert i > 0 ==> long[i + 1] == short[i];
    assert RunMeetsSpanAt(long, i', j + 1);
  }

  /** The code reads a pattern as its comment describes it exactly when no run of '*' and '?' that starts with
      '*' is followed by white space or '#'. */
  lemma CodedIsDescribed(p: string)
    ensures Coded(p) == Described(p) <==> !RunMeetsSpan(Described(p))
  {
    ReadingsAgree(p, false);
  }

  lemma {:induction false} ReadingsAgree(p: string, starred: bool)
    ensures var ts := Parse(p, starred, false);
            Parse(p, starred, true) == ts <==> !RunMeetsSpan(if starred then [Star] + ts else ts)
    decreases |p|
  {
    var ts := Parse(p, starred, false);
    if p == [] {
    } else if p[0] == '*' || p[0] == '?' {
      var st := starred || p[0] == '*';
      var us := Parse(p[1..], st, false);
      ReadingsAgree(p[1..], st);
      Cancel(ts[0], Parse(p[1..], st, true), us);
      if starred { DropSecond(ts[0], us); } else if p[0] == '?' { DropHead(Any, us); }
    } else if p[0] == '[' {
      var b := List(if Negated(p[1..]) then p[2..] else p[1..]);
      var us := if b.Open? then [] else Parse(b.rest, false, false);
      if b.Closed? {
        ReadingsAgree(b.rest, false);
        Cancel(ts[0], Parse(b.rest, false, true), us);
      }
      if starred { DropHead(Star, ts); }
      assert ts == [ts[0]] + us;
      DropHead(ts[0], us);
    } else {
      var spans := IsSpace(p[0]) || p[0] == '#';
      if starred && spans {
        assert RunMeetsSpanAt([Star] + ts, 0, 1);
        assert Parse(p, starred, true)[0] == Lit(p[0]);
      } else {
        var rest := if IsSpace(p[0]) then p[1 + Blanks(p[1..])..] else p[1..];
        var us := Parse(rest, false, false);
        ReadingsAgree(rest, false);
        Cancel(ts[0], Parse(rest, false, true), us);
        if starred { DropHead(Star, ts); }
        DropHead(ts[0], us);
      }
    }
  }

  lemma Cancel(t: Tok, a: seq<Tok>, b: seq<Tok>)
    ensures [t] + a == [t] + b <==> a == b
  {
    assert ([t] + a)[1..] == a && ([t] + b)[1..] == b;
  }

  /** A pattern with such a run holds a white-space character or '#' that the code wants literally: the texts without
      that character which the comment accepts are rejected. */
  lemma SpanTakenLiterally(p: string) returns (w: char)
    requires RunMeetsSpan(Described(p))
    ensures IsSpace(w) || w == '#'
    ensures forall z: string | w !in z :: !Matches(Coded(p), z)
  {
    w := LiteralSpan(p, false);
    forall z: string | w !in z ensures !Matches(Coded(p), z) {
      if Matches(Coded(p), z) { LitOccurs(Coded(p), z, w); }
    }
  }

  lemma {:induction false} LiteralSpan(p: string, starred: bool) returns (w: char)
    requires var ts := Parse(p, starred, false);
             RunMeetsSpan(if starred then [Star] + ts else ts)
    ensures (IsSpace(w) || w == '#') && Lit(w) in Parse(p, starred, true)
    decreases |p|
  {
    var ts := Parse(p, starred, false);
    if p == [] {
      assert false;
      w := '#';
    } else if p[0] == '*' || p[0] == '?' {
      var st := starred || p[0] == '*';
      var us := Parse(p[1..], st, false);
      if starred { DropSecond(ts[0], us); } else if p[0] == '?' { DropHead(Any, us); }
      w := LiteralSpan(p[1..], st);
    } else if starred && (IsSpace(p[0]) || p[0] == '#') {
      w := p[0];
    } else {
      var b := List(if Negated(p[1..]) then p[2..] else p[1..]);
      var rest := if p[0] == '[' then (if b.Open? then [] else b.rest)
                  else if IsSpace(p[0]) then p[1 + Blanks(p[1..])..] else p[1..];
      var us := Parse(rest, false, false);
      assert ts == [ts[0]] + us;
      if starred { DropHead(Star, ts); }
      DropHead(ts[0], us);
      w := LiteralSpan(rest, false);
    }
  }

  /** A literal of the pattern occurs in every text that matches. */
  lemma {:induction false} LitOccurs(ts: seq<Tok>, z: string, w: char)
    requires Lit(w) in ts && Matches(ts, z)
    ensures w in z
    decreases |ts|
  {
    var n: nat :| n <= |z| && Takes(ts[0], z, n) && Matches(ts[1..], z[n..]);
    if ts[0] != Lit(w) {
      LitOccurs(ts[1..], z[n..], w);
    }
  }

  /** Both kinds of disagreement: the pattern "*#" rejects a number and accepts a '#'. */
  lemma Disagreements()
    ensures Matches(Described("*#"), "5") && !Matches(Coded("*#"), "5")
    ensures !Matches(Described("*#"), "#") && Matches(Coded("*#"), "#")
  {
    assert "*#"[1..] == "#" && "#"[1..] == "";
    assert Described("*#") == [Star] + [Number];
    assert Coded("*#") == [Star] + [Lit('#')];
    StarNumber("5");
    StarNumber("#");
    StarHash("5");
    StarHash("#");
  }

  lemma StarNumber(z: string)
    requires |z| == 1 && !IsSpace(z[0])
    ensures Matches([Star] + [Number], z) <==> IsDigit(z[0])
  {
    StarStep([Number], z);
    StarStep([Number], z[1..]);
    MatchNot(Number, [], z[1..]);
    assert [Number] + [] == [Number];
    if IsDigit(z[0]) { MatchTok(Number, [], z, 1); } else { MatchNot(Number, [], z); }
  }

  lemma StarHash(z: string)
    requires |z| == 1 && !IsSpace(z[0])
    ensures Matches([Star] + [Lit('#')], z) <==> z[0] == '#'
  {
    StarStep([Lit('#')], z);
    StarStep([Lit('#')], z[1..]);
    MatchNot(Lit('#'), [], z[1..]);
    assert [Lit('#')] + [] == [Lit('#')];
    if z[0] == '#' { MatchTok(Lit('#'), [], z, 1); } else { MatchNot(Lit('#'), [], z); }
  }

  // ---- Exactly when the code meets its comment ---------------------------------------------

  predicate Accepts(t: Tok, c: char) {
    t.Class? && InItems(c, t.items) != t.negated
  }

  predicate IsPlain(c: char) {
    IsByte(c) && !IsSpace(c) && !IsDigit(c) && c != '#'
  }

  ghost predicate HasPlain(t: Tok) {
    exists c :: IsPlain(c) && Accepts(t, c)
  }

  ghost predicate OnlyDigits(t: Tok) {
    t.Class? && forall c | Accepts(t, c) :: IsByte(c) ==> IsDigit(c)
  }

  /** A list that accepts some character besides white space, digits and '#', or nothing but digits. */
  ghost predicate Tame(t: Tok) {
    t.Class? ==> HasPlain(t) || OnlyDigits(t)
  }

  ghost predicate AllTame(ts: seq<Tok>) {
    ts == [] || (Tame(ts[0]) && AllTame(ts[1..]))
  }

  ghost predicate Empty(t: Tok) {
    t.Unclosed? || (t.Class? && forall c | IsByte(c) :: !Accepts(t, c))
  }

  /** A token that can only stand for a digit. */
  ghost predicate NeedsDigit(t: Tok) {
    match t
    case Lit(c) => IsDigit(c)
    case _ => OnlyDigits(t)
  }

  /** An unclosed or empty list, or a number directly in front of what must be a digit. */
  ghost predicate Dead(ts: seq<Tok>) {
    ts != [] && (Empty(ts[0]) || (ts[0] == Number && |ts| > 1 && NeedsDigit(ts[1])) || Dead(ts[1..]))
  }

  lemma TakerNotEmpty(t: Tok, z: string, n: nat)
    requires n <= |z| && Takes(t, z, n) && Bytes(z)
    ensures !Empty(t)
  {
    if t.Class? { assert Accepts(t, z[0]); }
  }

  lemma AfterNumber(t: Tok, z: string, n: nat, m: nat)
    requires n <= |z| && Takes(Number, z, n) && m <= |z[n..]| && Takes(t, z[n..], m) && Bytes(z)
    ensures !NeedsDigit(t)
  {
    if t.Class? { assert z[n..][0] == z[n] && Accepts(t, z[n]); }
  }

  lemma MatchHead(ts: seq<Tok>, z: string) returns (n: nat)
    requires ts != [] && Matches(ts, z)
    ensures n <= |z| && Takes(ts[0], z, n) && Matches(ts[1..], z[n..])
  {
    n :| n <= |z| && Takes(ts[0], z, n) && Matches(ts[1..], z[n..]);
  }

  lemma {:induction false} MatchedAlive(ts: seq<Tok>, z: string)
    requires Matches(ts, z) && Bytes(z)
    ensures !Dead(ts)
    decreases |ts|
  {
    if ts != [] {
      hide Matches, Takes, Empty, NeedsDigit;
      var n := MatchHead(ts, z);
      TakerNotEmpty(ts[0], z, n);
      MatchedAlive(ts[1..], z[n..]);
      if ts[0] == Number && |ts| > 1 {
        var m := MatchHead(ts[1..], z[n..]);
        AfterNumber(ts[1], z, n, m);
      }
    }
  }

  lemma DeadMatchesNothing(ts: seq<Tok>, z: string)
    requires Dead(ts) && Bytes(z)
    ensures !Matches(ts, z)
  {
    if Matches(ts, z) { MatchedAlive(ts, z); }
  }

  // ---- A text for every other pattern ------------------------------------------------------

  predicate IsBlankTok(t: Tok) {
    t == Space || (t.Lit? && IsSpace(t.c))
  }

  /** What the tokens of a pattern satisfy in either reading. */
  ghost predicate Regular(ts: seq<Tok>) {
    ts == [] || (RegularTok(ts[0]) && (ts[0] == Space && |ts| > 1 ==> !IsBlankTok(ts[1])) && Regular(ts[1..]))
  }

  ghost predicate RegularTok(t: Tok) {
    (t.Lit? ==> IsByte(t.c)) && Tame(t)
  }

  ghost function Choice(t: Tok): (c: char)
    requires t.Class? && Tame(t) && !Empty(t)
    ensures IsByte(c) && Accepts(t, c) && !IsSpace(c) && c != '#' && (IsDigit(c) ==> OnlyDigits(t))
  {
    if HasPlain(t) then var c :| IsPlain(c) && Accepts(t, c); c
    else var c :| IsByte(c) && Accepts(t, c); c
  }

  /** A text that the token may stand for, with `b` for white space. */
  ghost function Piece(t: Tok, b: char): (w: string)
    requires RegularTok(t) && !Empty(t) && (b == ' ' || b == '\t')
    ensures w != [] && Bytes(w)
    ensures IsSpace(w[0]) ==> IsBlankTok(t)
    ensures IsDigit(w[0]) ==> NeedsDigit(t)
  {
    match t
    case Lit(c) => [c]
    case Space => [b]
    case Number => "+5"
    case Class(_, _) => [Choice(t)]
    case _ => "x"
  }

  ghost function Sample(ts: seq<Tok>, b: char): (z: string)
    requires Regular(ts) && !Dead(ts) && (b == ' ' || b == '\t')
    ensures Bytes(z)
  {
    if ts == [] then [] else Piece(ts[0], b) + Sample(ts[1..], b)
  }

  lemma PieceTaken(t: Tok, b: char, rest: string)
    requires RegularTok(t) && !Empty(t) && (b == ' ' || b == '\t')
    requires rest != [] ==> (t == Space ==> !IsSpace(rest[0])) && (t == Number ==> !IsDigit(rest[0]))
    ensures Takes(t, Piece(t, b) + rest, |Piece(t, b)|)
  {
    var w := Piece(t, b);
    var z := w + rest;
    assert z[0] == w[0] && (rest != [] ==> z[|w|] == rest[0]);
    if t == Number { assert z[1] == w[1]; }
  }

  lemma {:induction false} SampleMatches(ts: seq<Tok>, b: char)
    requires Regular(ts) && !Dead(ts) && (b == ' ' || b == '\t')
    ensures Matches(ts, Sample(ts, b))
    decreases |ts|
  {
    if ts != [] {
      var w, rest := Piece(ts[0], b), Sample(ts[1..], b);
      SampleMatches(ts[1..], b);
      if |ts| > 1 { assert rest[0] == Piece(ts[1], b)[0]; }
      PieceTaken(ts[0], b, rest);
      assert Sample(ts, b)[|w|..] == rest;
    }
  }

  /** No literal of the list is white space or '#'. */
  predicate NoSpanLits(ts: seq<Tok>) {
    ts == [] || ((ts[0].Lit? ==> !IsSpace(ts[0].c) && ts[0].c != '#') && NoSpanLits(ts[1..]))
  }

  lemma {:induction false} SampleAvoids(ts: seq<Tok>, b: char, w: char)
    requires Regular(ts) && !Dead(ts) && (b == ' ' || b == '\t') && NoSpanLits(ts)
    requires (IsSpace(w) || w == '#') && w != b
    ensures w !in Sample(ts, b)
    decreases |ts|
  {
    if ts != [] { SampleAvoids(ts[1..], b, w); }
  }

  // ---- The tokens of a pattern -------------------------------------------------------------

  lemma RegularNext(t: Tok, us: seq<Tok>)
    requires RegularTok(t) && Regular(us) && (t == Space && us != [] ==> !IsBlankTok(us[0]))
    ensures Regular([t] + us)
  {
    assert ([t] + us)[1..] == us;
  }

  lemma TailOf(t: Tok, us: seq<Tok>)
    ensures ([t] + us)[1..] == us
  {
  }

  /** The reading after one white-space character instead of all. */
  lemma AfterBlank(p: string, literal: bool)
    requires p != [] && IsSpace(p[0])
    ensures var rest := Parse(p[1 + Blanks(p[1..])..], false, literal);
            Parse(p[1..], false, literal) == if Blanks(p[1..]) == 0 then rest else [Space] + rest
  {
    var q, n := p[1..], Blanks(p[1..]);
    assert p[1 + n..] == q[n..];
    if n > 0 { assert Blanks(q) == 1 + Blanks(q[1..]) && q[1 + Blanks(q[1..])..] == q[n..]; }
  }

  /** Outside a run both readings start with the same token, which is no white space unless the pattern starts with it. */
  lemma FirstToken(p: string)
    requires p != []
    ensures Parse(p, false, true) != [] && Parse(p, false, false) != []
    ensures Parse(p, false, true)[0] == Parse(p, false, false)[0]
    ensures IsBlankTok(Parse(p, false, true)[0]) <==> IsSpace(p[0])
  {
  }

  /** The pattern after a list. */
  function AfterList(p: string): string
    requires p != [] && p[0] == '['
  {
    var b := List(if Negated(p[1..]) then p[2..] else p[1..]);
    if b.Open? then [] else b.rest
  }

  lemma {:induction false} ListText(p: string, prior: char)
    requires Bytes(p)
    ensures Items(p, prior).Closed? ==> Bytes(Items(p, prior).rest)
    decreases |p|
  {
    if p != [] && p[0] != ']' {
      ListText(p[1..], p[0]);
      if |p| > 1 { ListText(p[2..], NUL); }
    }
  }

  lemma AfterListText(p: string)
    requires p != [] && p[0] == '[' && Bytes(p)
    ensures Bytes(AfterList(p)) && |AfterList(p)| < |p|
  {
    var q := if Negated(p[1..]) then p[2..] else p[1..];
    ListText(q, NUL);
    if q != [] { ListText(q[1..], NUL); }
  }

  /** How a reading starts, and what follows. */
  lemma ListHead(p: string, starred: bool, literal: bool)
    requires p != [] && p[0] == '['
    ensures var ts := Parse(p, starred, literal);
            && ts == [ts[0]] + Parse(AfterList(p), false, literal)
            && (ts[0].Class? || ts[0].Unclosed?) && ts[0] == Parse(p, starred, !literal)[0]
  {
  }

  function RunTok(c: char): Tok {
    if c == '*' then Star else Any
  }

  lemma RunHead(p: string, starred: bool, literal: bool)
    requires p != [] && (p[0] == '*' || p[0] == '?')
    ensures Parse(p, starred, literal) == [RunTok(p[0])] + Parse(p[1..], starred || p[0] == '*', literal)
  {
  }

  predicate IsOther(p: string) {
    p != [] && p[0] !in "*?["
  }

  /** The token of a character that the comment gives no run or list. */
  function OtherTok(c: char): Tok {
    if IsSpace(c) then Space else if c == '#' then Number else Lit(c)
  }

  function AfterOther(p: string): (q: string)
    requires p != []
    ensures |q| < |p|
  {
    if IsSpace(p[0]) then p[1 + Blanks(p[1..])..] else p[1..]
  }

  lemma OtherHead(p: string, starred: bool, literal: bool)
    requires IsOther(p)
    ensures Parse(p, starred, literal) ==
              if starred && literal then [Lit(p[0])] + Parse(p[1..], false, literal)
              else [OtherTok(p[0])] + Parse(AfterOther(p), false, literal)
  {
  }

  lemma OtherFirst(p: string, literal: bool)
    requires IsOther(p) && IsSpace(p[0]) && AfterOther(p) != []
    ensures !IsBlankTok(Parse(AfterOther(p), false, literal)[0])
  {
    FirstToken(AfterOther(p));
  }

  lemma AfterOtherText(p: string)
    requires IsOther(p) && Bytes(p)
    ensures Bytes(AfterOther(p))
  {
  }

  lemma {:induction false} ParseRegular(p: string, starred: bool, literal: bool)
    requires Bytes(p) && AllTame(Parse(p, starred, false))
    ensures Regular(Parse(p, starred, literal))
    decreases |p|
  {
    hide Parse, AfterList, RegularTok;
    if p == [] {
      EmptyParse(starred);
    } else if p[0] == '*' || p[0] == '?' {
      var st := starred || p[0] == '*';
      RunHead(p, starred, false);
      RunHead(p, starred, literal);
      TailOf(RunTok(p[0]), Parse(p[1..], st, false));
      ParseRegular(p[1..], st, literal);
      PlainRegular(RunTok(p[0]));
      RegularNext(RunTok(p[0]), Parse(p[1..], st, literal));
    } else if p[0] == '[' {
      RegularList(p, starred, literal);
    } else {
      RegularOther(p, starred, literal);
    }
  }

  lemma EmptyParse(starred: bool)
    ensures Parse([], starred, true) == [] == Parse([], starred, false)
  {
  }

  lemma PlainRegular(t: Tok)
    requires t.Star? || t.Any? || t.Space? || t.Number? || (t.Lit? && IsByte(t.c))
    ensures RegularTok(t)
  {
  }

  lemma {:induction false} RegularList(p: string, starred: bool, literal: bool)
    requires p != [] && p[0] == '[' && Bytes(p) && AllTame(Parse(p, starred, false))
    ensures Regular(Parse(p, starred, literal))
    decreases |p|, 0
  {
    hide Parse, AfterList;
    ListHead(p, starred, literal);
    ListHead(p, starred, false);
    AfterListText(p);
    var t := Parse(p, starred, false)[0];
    TailOf(t, Parse(AfterList(p), false, false));
    ParseRegular(AfterList(p), false, literal);
    RegularNext(t, Parse(AfterList(p), false, literal));
  }

  lemma {:induction false} RegularOther(p: string, starred: bool, literal: bool)
    requires IsOther(p) && Bytes(p) && AllTame(Parse(p, starred, false))
    ensures Regular(Parse(p, starred, literal))
    decreases |p|, 0
  {
    hide Parse;
    var q := AfterOther(p);
    OtherHead(p, starred, false);
    OtherHead(p, starred, literal);
    AfterOtherText(p);
    TailOf(OtherTok(p[0]), Parse(q, false, false));
    if starred && literal {
      TameTail(p);
      ParseRegular(p[1..], false, true);
      PlainRegular(Lit(p[0]));
      RegularNext(Lit(p[0]), Parse(p[1..], false, true));
    } else {
      ParseRegular(q, false, literal);
      if IsSpace(p[0]) && q != [] { OtherFirst(p, literal); }
      if q == [] { EmptyParse(false); }
      PlainRegular(OtherTok(p[0]));
      RegularNext(OtherTok(p[0]), Parse(q, false, literal));
    }
  }

  lemma TameTail(p: string)
    requires IsOther(p) && AllTame(Parse(AfterOther(p), false, false))
    ensures AllTame(Parse(p[1..], false, false))
  {
    hide Parse;
    if IsSpace(p[0]) {
      AfterBlank(p, false);
      TailOf(Space, Parse(AfterOther(p), false, false));
    }
  }

  lemma {:induction false} DescribedSpanLits(p: string, starred: bool)
    ensures NoSpanLits(Parse(p, starred, false))
    decreases |p|
  {
    hide Parse, AfterList;
    if p == [] {
      EmptyParse(starred);
    } else if p[0] == '*' || p[0] == '?' {
      var st := starred || p[0] == '*';
      RunHead(p, starred, false);
      TailOf(RunTok(p[0]), Parse(p[1..], st, false));
      DescribedSpanLits(p[1..], st);
    } else if p[0] == '[' {
      ListHead(p, starred, false);
      AfterListShorter(p);
      TailOf(Parse(p, starred, false)[0], Parse(AfterList(p), false, false));
      DescribedSpanLits(AfterList(p), false);
    } else {
      OtherHead(p, starred, false);
      TailOf(OtherTok(p[0]), Parse(AfterOther(p), false, false));
      DescribedSpanLits(AfterOther(p), false);
    }
  }

  lemma AfterListShorter(p: string)
    requires p != [] && p[0] == '['
    ensures |AfterList(p)| < |p|
  {
  }

  lemma DeadNext(t: Tok, us: seq<Tok>)
    ensures Dead([t] + us) <==> Empty(t) || (t == Number && us != [] && NeedsDigit(us[0])) || Dead(us)
  {
    assert ([t] + us)[1..] == us;
  }

  /** What the code can never match, the comment does not describe either. */
  lemma {:induction false} DeadInBoth(p: string, starred: bool)
    requires Dead(Parse(p, starred, true))
    ensures Dead(Parse(p, starred, false))
    decreases |p|
  {
    hide Parse, AfterList, Empty, NeedsDigit;
    if p == [] {
      EmptyParse(starred);
    } else if p[0] == '*' || p[0] == '?' {
      var st := starred || p[0] == '*';
      RunHead(p, starred, true);
      RunHead(p, starred, false);
      DeadNext(RunTok(p[0]), Parse(p[1..], st, true));
      DeadNext(RunTok(p[0]), Parse(p[1..], st, false));
      RunNotEmpty(p[0]);
      DeadInBoth(p[1..], st);
    } else if p[0] == '[' {
      ListHead(p, starred, true);
      ListHead(p, starred, false);
      AfterListShorter(p);
      DeadNext(Parse(p, starred, true)[0], Parse(AfterList(p), false, true));
      DeadNext(Parse(p, starred, false)[0], Parse(AfterList(p), false, false));
      if Dead(Parse(AfterList(p), false, true)) { DeadInBoth(AfterList(p), false); }
    } else {
      DeadAfterChar(p, starred);
    }
  }

  lemma RunNotEmpty(c: char)
    ensures !Empty(RunTok(c)) && RunTok(c) != Number
  {
  }

  lemma OtherNotEmpty(c: char)
    ensures !Empty(OtherTok(c)) && !Empty(Lit(c))
  {
  }

  lemma {:induction false} DeadAfterChar(p: string, starred: bool)
    requires IsOther(p) && Dead(Parse(p, starred, true))
    ensures Dead(Parse(p, starred, false))
    decreases |p|, 0
  {
    hide Parse, Dead, Empty, NeedsDigit, IsBlankTok;
    var q := AfterOther(p);
    OtherHead(p, starred, true);
    OtherHead(p, starred, false);
    OtherNotEmpty(p[0]);
    DeadNext(OtherTok(p[0]), Parse(q, false, false));
    if starred {
      DeadNext(Lit(p[0]), Parse(p[1..], false, true));
      DeadInBoth(p[1..], false);
      DeadTail(p);
    } else {
      DeadNext(OtherTok(p[0]), Parse(q, false, true));
      if q != [] { FirstToken(q); } else { EmptyParse(false); }
      if Dead(Parse(q, false, true)) { DeadInBoth(q, false); }
    }
  }

  lemma DeadTail(p: string)
    requires IsOther(p) && Dead(Parse(p[1..], false, false))
    ensures Dead(Parse(AfterOther(p), false, false))
  {
    if IsSpace(p[0]) {
      AfterBlank(p, false);
      DeadNext(Space, Parse(AfterOther(p), false, false));
    }
  }

  // ---- The condition -----------------------------------------------------------------------

  ghost predicate Agree(p: string) {
    forall z | Bytes(z) :: Matches(Coded(p), z) <==> Matches(Described(p), z)
  }

  /** A text on which the function and its comment differ. */
  lemma Differ(p: string) returns (z: string)
    requires Bytes(p) && AllTame(Described(p)) && RunMeetsSpan(Described(p)) && !Dead(Coded(p))
    ensures Bytes(z) && Matches(Coded(p), z) != Matches(Described(p), z)
  {
    if Dead(Described(p)) {
      ParseRegular(p, false, true);
      z := Sample(Coded(p), ' ');
      SampleMatches(Coded(p), ' ');
      DeadMatchesNothing(Described(p), z);
    } else {
      var w := SpanTakenLiterally(p);
      var b := if w == ' ' then '\t' else ' ';
      ParseRegular(p, false, false);
      DescribedSpanLits(p, false);
      z := Sample(Described(p), b);
      SampleMatches(Described(p), b);
      SampleAvoids(Described(p), b, w);
    }
  }

  /** The function decides what its comment describes, for every text, exactly when no run of '*' and '?' that starts
      with '*' is followed by white space or '#', or when the pattern as the code reads it can match nothing: it holds
      an unclosed or empty list, or a number directly in front of a digit. */
  lemma CommentHolds(p: string)
    requires Bytes(p) && AllTame(Described(p))
    ensures Agree(p) <==> !RunMeetsSpan(Described(p)) || Dead(Coded(p))
  {
    CodedIsDescribed(p);
    if !RunMeetsSpan(Described(p)) {
    } else if Dead(Coded(p)) {
      DeadInBoth(p, false);
      forall z | Bytes(z) ensures Matches(Coded(p), z) <==> Matches(Described(p), z) {
        DeadMatchesNothing(Coded(p), z);
        DeadMatchesNothing(Described(p), z);
      }
    } else {
      var z := Differ(p);
    }
  }

  /** Patterns without bracket lists satisfy the precondition. */
  lemma {:induction false} NoListsTame(p: string, starred: bool)
    requires '[' !in p
    ensures AllTame(Parse(p, starred, false))
    decreases |p|
  {
    if p != [] {
      hide Parse;
      if p[0] == '*' || p[0] == '?' {
        RunHead(p, starred, false);
        TailOf(RunTok(p[0]), Parse(p[1..], starred || p[0] == '*', false));
        NoListsTame(p[1..], starred || p[0] == '*');
      } else {
        OtherHead(p, starred, false);
        TailOf(OtherTok(p[0]), Parse(AfterOther(p), false, false));
        NoListsTame(AfterOther(p), false);
      }
    }
  }

  /** Without `w`, what the comment accepts is rejected. */
  ghost predicate RejectsWithout(p: string, w: char) {
    forall z: string | w !in z && Matches(Described(p), z) :: !Matches(Coded(p), z)
  }

  /** A pattern with such a run, whatever its lists, rejects the texts without some character that its comment accepts. */
  lemma SpanRejects(p: string)
    requires RunMeetsSpan(Described(p))
    ensures exists w :: (IsSpace(w) || w == '#') && RejectsWithout(p, w)
  {
    var w := SpanTakenLiterally(p);
    assert RejectsWithout(p, w);
  }
}
