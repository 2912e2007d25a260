/** `testcase_glob`: a backtracking pattern matcher, against the relation its comment describes. */
module Glob {
  import opened CText

  /** One member of a bracket list. */
  datatype Item = One(c: char) | Range(lo: char, hi: char)

  /** A pattern element; `Unclosed` is a bracket list without its closing bracket. */
  datatype Tok = Lit(c: char) | Space | Star | Any | Class(negated: bool, items: seq<Item>) | Number | Unclosed

  datatype Bracket = Open | Closed(items: seq<Item>, rest: string)

  // ---- Patterns as token lists -------------------------------------------------------------

  /** The list up to the closing bracket.  `prior` is the character a '-' would extend into a range;
      only a character with a positive plain-char value can start one. */
  function Items(p: string, prior: char): (b: Bracket)
    ensures b.Closed? ==> |b.rest| < |p|
  {
    if p == [] then Open
    else if p[0] == ']' then Closed([], p[1..])
    else if p[0] == '-' && |p| > 1 && p[1] != ']' && Signed(prior) > 0 then
      Prepend(Range(prior, p[1]), Items(p[2..], NUL))
    else
      Prepend(One(p[0]), Items(p[1..], p[0]))
  }

  function Prepend(item: Item, b: Bracket): Bracket {
    if b.Open? then Open else Closed([item] + b.items, b.rest)
  }

  /** A bracket list after '[' and an optional '^': a leading ']' stands for itself. */
  function List(p: string): (b: Bracket)
    ensures b.Closed? ==> |b.rest| < |p|
  {
    if p != [] && p[0] == ']' then Prepend(One(']'), Items(p[1..], NUL)) else Items(p, NUL)
  }

  function Negated(p: string): bool {
    p != [] && p[0] == '^'
  }

  /** Tokens of a pattern.  With `literal` set, white space or '#' that follows a run of '*' and '?'
      containing a '*' (`starred`) stands for itself, which is how the code reads patterns. */
  function Parse(p: string, starred: bool, literal: bool): seq<Tok>
    decreases |p|
  {
    if p == [] then []
    else if p[0] == '*' then [Star] + Parse(p[1..], true, literal)
    else if p[0] == '?' then [Any] + Parse(p[1..], starred, literal)
    else if p[0] == '[' then
      var neg := Negated(p[1..]);
      var b := List(if neg then p[2..] else p[1..]);
      if b.Open? then [Unclosed] else [Class(neg, b.items)] + Parse(b.rest, false, literal)
    else if starred && literal then [Lit(p[0])] + Parse(p[1..], false, literal)
    else if IsSpace(p[0]) then [Space] + Parse(p[1 + Blanks(p[1..])..], false, literal)
    else if p[0] == '#' then [Number] + Parse(p[1..], false, literal)
    else [Lit(p[0])] + Parse(p[1..], false, literal)
  }

  /** The pattern as the comment above the function describes it. */
  function Described(p: string): seq<Tok> {
    Parse(p, false, false)
  }

  /** The pattern as the code reads it. */
  function Coded(p: string): seq<Tok> {
    Parse(p, false, true)
  }

  // ---- The matching relation ---------------------------------------------------------------

  predicate InItem(c: char, item: Item) {
    match item
    case One(x) => c == x
    case Range(lo, hi) => Signed(lo) <= Signed(c) <= Signed(hi)
  }

  predicate InItems(c: char, items: seq<Item>) {
    exists i :: 0 <= i < |items| && InItem(c, items[i])
  }

  predicate IsSign(c: char) {
    c == '-' || c == '+'
  }

  /** `z[..n]` is an optional sign and one or more digits, and no further digit follows. */
  predicate IsNumber(z: string, n: nat)
    requires n <= |z|
  {
    var d := if n > 0 && IsSign(z[0]) then 1 else 0;
    d < n && (forall i :: d <= i < n ==> IsDigit(z[i])) && (n < |z| ==> !IsDigit(z[n]))
  }

  /** Token `t` may stand for the first `n` characters of `z`.  White space and numbers take
      maximal runs. */
  predicate Takes(t: Tok, z: string, n: nat)
    requires n <= |z|
  {
    match t
    case Lit(c) => n == 1 && z[0] == c
    case Any => n == 1
    case Star => true
    case Class(negated, items) => n == 1 && InItems(z[0], items) != negated
    case Space => n > 0 && (forall i :: 0 <= i < n ==> IsSpace(z[i])) && (n < |z| ==> !IsSpace(z[n]))
    case Number => IsNumber(z, n)
    case Unclosed => false
  }

  /** The text splits into one piece for each token, followed by white space only. */
  ghost predicate Matches(ts: seq<Tok>, z: string)
    decreases |ts|
  {
    if ts == [] then AllSpace(z)
    else exists n: nat :: n <= |z| && Takes(ts[0], z, n) && Matches(ts[1..], z[n..])
  }

  // ---- Laws of the relation ----------------------------------------------------------------

  /** A token other than '*' can stand for at most one prefix of a text. */
  lemma TakesOnce(t: Tok, z: string, n: nat, m: nat)
    requires n <= |z| && m <= |z| && t != Star
    requires Takes(t, z, n) && Takes(t, z, m)
    ensures n == m
  {
  }

  lemma MatchTok(t: Tok, ts: seq<Tok>, z: string, n: nat)
    requires n <= |z| && t != Star && Takes(t, z, n)
    ensures Matches([t] + ts, z) <==> Matches(ts, z[n..])
  {
    assert ([t] + ts)[1..] == ts;
    if Matches([t] + ts, z) {
      var m: nat :| m <= |z| && Takes(t, z, m) && Matches(ts, z[m..]);
      TakesOnce(t, z, n, m);
    }
  }

  lemma MatchNot(t: Tok, ts: seq<Tok>, z: string)
    requires forall n: nat :: n <= |z| ==> !Takes(t, z, n)
    ensures !Matches([t] + ts, z)
  {
  }

  /** '*' either takes nothing or takes one character and stays. */
  lemma StarStep(ts: seq<Tok>, z: string)
    ensures Matches([Star] + ts, z) <==> Matches(ts, z) || (z != [] && Matches([Star] + ts, z[1..]))
  {
    assert ([Star] + ts)[1..] == ts;
    assert z[0..] == z;
    if Matches([Star] + ts, z) {
      var n: nat :| n <= |z| && Matches(ts, z[n..]);
      if n > 0 { assert z[1..][n - 1..] == z[n..]; }
    }
    if Matches(ts, z) { assert Takes(Star, z, 0); }
    if z != [] && Matches([Star] + ts, z[1..]) {
      var n: nat :| n <= |z[1..]| && Matches(ts, z[1..][n..]);
      assert z[1..][n..] == z[n + 1..];
      assert Takes(Star, z, n + 1);
    }
  }

  lemma {:induction false} StarStar(ts: seq<Tok>, z: string)
    ensures Matches([Star] + ([Star] + ts), z) <==> Matches([Star] + ts, z)
    decreases |z|
  {
    StarStep([Star] + ts, z);
    StarStep(ts, z);
    if z != [] { StarStar(ts, z[1..]); }
  }

  lemma {:induction false} StarAny(ts: seq<Tok>, z: string)
    ensures Matches([Star] + ([Any] + ts), z) <==> z != [] && Matches([Star] + ts, z[1..])
    decreases |z|
  {
    StarStep([Any] + ts, z);
    if z == [] {
      MatchNot(Any, ts, z);
    } else {
      MatchTok(Any, ts, z, 1);
      StarStep(ts, z[1..]);
      StarAny(ts, z[1..]);
    }
  }

  // ---- The matcher -------------------------------------------------------------------------

  /** What remains of a pattern read up to offset `g`. */
  function Rest(p: string, g: nat, starred: bool): seq<Tok>
    requires g <= |p|
  {
    Parse(p[g..], starred, true)
  }

  /** `left` is the unread part of the list `all`; `seen0` and `seen` say whether `c` was found before the list
      and before its unread part. */
  ghost predicate Scanned(all: Bracket, left: Bracket, c: char, seen0: bool, seen: bool) {
    if all.Open? then left.Open?
    else
      && left.Closed? && all.rest == left.rest
      && (seen0 || InItems(c, all.items) <==> seen || InItems(c, left.items))
  }

  lemma ScanItem(all: Bracket, item: Item, left: Bracket, c: char, seen0: bool, seen: bool)
    requires Scanned(all, Prepend(item, left), c, seen0, seen)
    ensures Scanned(all, left, c, seen0, seen || InItem(c, item))
  {
    if left.Closed? {
      var items := [item] + left.items;
      assert items[0] == item;
      assert forall i :: 0 <= i < |left.items| ==> items[i + 1] == left.items[i];
    }
  }

  /** `Scanned` with the list unread from `p[g]` on. */
  ghost predicate ScannedTo(all: Bracket, p: string, g: nat, prior: char, c: char, seen0: bool, seen: bool) {
    g <= |p| && Scanned(all, Items(p[g..], prior), c, seen0, seen)
  }

  lemma ScanRange(all: Bracket, p: string, g: nat, prior: char, c: char, seen0: bool, seen: bool)
    requires ScannedTo(all, p, g, prior, c, seen0, seen)
    requires g + 1 < |p| && p[g] == '-' && p[g + 1] != ']' && Signed(prior) > 0
    ensures ScannedTo(all, p, g + 2, NUL, c, seen0, seen || Signed(prior) <= Signed(c) <= Signed(p[g + 1]))
  {
    ScanItem(all, Range(prior, p[g + 1]), Items(p[g + 2..], NUL), c, seen0, seen);
  }

  lemma ScanOne(all: Bracket, p: string, g: nat, prior: char, c: char, seen0: bool, seen: bool)
    requires ScannedTo(all, p, g, prior, c, seen0, seen)
    requires g < |p| && p[g] != ']' && !(p[g] == '-' && g + 1 < |p| && p[g + 1] != ']' && Signed(prior) > 0)
    ensures ScannedTo(all, p, g + 1, p[g], c, seen0, seen || c == p[g])
  {
    ScanItem(all, One(p[g]), Items(p[g + 1..], p[g]), c, seen0, seen);
  }

  lemma ScanEnd(all: Bracket, p: string, g: nat, prior: char, c: char, seen0: bool, seen: bool)
    requires ScannedTo(all, p, g, prior, c, seen0, seen) && (g < |p| ==> p[g] == ']')
    ensures all.Closed? <==> g < |p|
    ensures g < |p| ==> all.rest == p[g + 1..] && (seen <==> seen0 || InItems(c, all.items))
  {
  }

  /** One round of the loop over a bracket list, at `p[g]`. */
  method ScanNext(p: string, g: nat, prior: char, c: char, seen: bool, ghost all: Bracket, ghost seen0: bool)
    returns (g': nat, prior': char, seen': bool)
    requires NulFree(p) && g < |p| && p[g] != ']' && ScannedTo(all, p, g, prior, c, seen0, seen)
    ensures g < g' <= |p| && ScannedTo(all, p, g', prior', c, seen0, seen')
  {
    g', seen' := g + 1, seen;
    if p[g] == '-' && At(p, g') != ']' && At(p, g') != NUL && Signed(prior) > 0 {
      ScanRange(all, p, g, prior, c, seen0, seen);
      if Signed(c) >= Signed(prior) && Signed(c) <= Signed(At(p, g')) { seen' := true; }
      prior' := NUL;
      g' := g' + 1;
    } else {
      ScanOne(all, p, g, prior, c, seen0, seen);
      if c == p[g] { seen' := true; }
      prior' := p[g];
    }
  }

  /** The loop over a bracket list whose first unread character is `p[g0]`. */
  method ScanItems(p: string, g0: nat, c: char, seen0: bool) returns (closed: bool, seen: bool, g: nat)
    requires NulFree(p) && g0 <= |p|
    ensures var all := Items(p[g0..], NUL);
            && closed == all.Closed?
            && (closed ==> g0 <= g <= |p| && all.rest == p[g..] && (seen <==> seen0 || InItems(c, all.items)))
  {
    g, seen := g0, seen0;
    var priorC := NUL;
    ghost var all := Items(p[g0..], NUL);
    while At(p, g) != NUL && At(p, g) != ']'
      invariant g0 <= g <= |p| && ScannedTo(all, p, g, priorC, c, seen0, seen)
      decreases |p| - g
    {
      g, priorC, seen := ScanNext(p, g, priorC, c, seen, all, seen0);
    }
    ScanEnd(all, p, g, priorC, c, seen0, seen);
    closed := At(p, g) != NUL;
    g := g + 1;
  }

  /** The bracket branch: character `c` against the list that starts at `p[g0]`, just after its '['.  On
      success `g` is the offset after the closing bracket. */
  method MatchBracket(p: string, g0: nat, c: char) returns (r: bool, g: nat)
    requires NulFree(p) && g0 <= |p|
    ensures var neg := Negated(p[g0..]);
            var b := List(if neg then p[g0 + 1..] else p[g0..]);
            && (r <==> b.Closed? && InItems(c, b.items) != neg)
            && (r ==> g0 <= g <= |p| && b.rest == p[g..])
  {
    g := g0;
    var seen, invert := false, false;
    if At(p, g) == '^' {
      invert := true;
      g := g + 1;
    }
    ghost var body := p[g..];
    if At(p, g) == ']' {
      ghost var left := Items(p[g + 1..], NUL);
      assert List(body) == Prepend(One(']'), left);
      ScanItem(List(body), One(']'), left, c, false, false);
      if c == ']' { seen := true; }
      g := g + 1;
    } else {
      assert List(body) == Items(body, NUL);
    }
    ghost var seen0 := seen;
    ghost var left := Items(p[g..], NUL);
    assert Scanned(List(body), left, c, false, seen);
    var closed;
    closed, seen, g := ScanItems(p, g, c, seen);
    r := closed && seen != invert;
  }

  /** What is left to match, with the pattern read up to `g` and the text up to `k`. */
  ghost predicate Left(p: string, g: nat, starred: bool, z: string, k: nat)
    requires g <= |p| && k <= |z|
  {
    Matches(Parse(p[g..], starred, true), z[k..])
  }

  ghost predicate LeftStar(p: string, g: nat, z: string, k: nat)
    requires g <= |p| && k <= |z|
  {
    Matches([Star] + Parse(p[g..], true, true), z[k..])
  }

  // ---- The first token of the rest of a pattern --------------------------------------------

  lemma ParseStar(p: string, g: nat, starred: bool)
    requires g < |p| && p[g] == '*'
    ensures Parse(p[g..], starred, true) == [Star] + Parse(p[g + 1..], true, true)
  {
    assert p[g..][1..] == p[g + 1..];
  }

  lemma ParseAny(p: string, g: nat, starred: bool)
    requires g < |p| && p[g] == '?'
    ensures Parse(p[g..], starred, true) == [Any] + Parse(p[g + 1..], starred, true)
  {
    assert p[g..][1..] == p[g + 1..];
  }

  lemma ParseChar(p: string, g: nat, starred: bool)
    requires g < |p| && p[g] !in "*?[" && (starred || (p[g] != '#' && !IsSpace(p[g])))
    ensures Parse(p[g..], starred, true) == [Lit(p[g])] + Parse(p[g + 1..], false, true)
  {
    assert p[g..][1..] == p[g + 1..];
  }

  lemma ParseNumber(p: string, g: nat)
    requires g < |p| && p[g] == '#'
    ensures Parse(p[g..], false, true) == [Number] + Parse(p[g + 1..], false, true)
  {
    assert p[g..][1..] == p[g + 1..];
  }

  lemma ParseSpace(p: string, g: nat, g': nat)
    requires g < g' <= |p| && IsSpace(p[g]) && (g' < |p| ==> !IsSpace(p[g']))
    requires forall x :: g < x < g' ==> IsSpace(p[x])
    ensures Parse(p[g..], false, true) == [Space] + Parse(p[g'..], false, true)
  {
    BlanksAt(p, g + 1, g');
    assert p[g..][1..] == p[g + 1..] && p[g..][g' - g..] == p[g'..];
  }

  lemma {:induction false} BlanksAt(s: string, i: nat, j: nat)
    requires i <= j <= |s| && (forall x :: i <= x < j ==> IsSpace(s[x])) && (j < |s| ==> !IsSpace(s[j]))
    ensures Blanks(s[i..]) == j - i
    decreases j - i
  {
    if i < j {
      BlanksAt(s, i + 1, j);
      assert s[i..][1..] == s[i + 1..];
    }
  }

  /** The token that `p[g..]` starts with takes `n` characters of `z[k..]`. */
  lemma TakeStep(p: string, g: nat, t: Tok, g': nat, z: string, k: nat, n: nat)
    requires g <= |p| && g' <= |p| && k + n <= |z| && t != Star && Parse(p[g..], false, true) == [t] + Parse(p[g'..], false, true)
    requires Takes(t, z[k..], n)
    ensures Left(p, g, false, z, k) <==> Left(p, g', false, z, k + n)
  {
    hide Parse, Matches, Takes;
    assert z[k..][n..] == z[k + n..];
    MatchTok(t, Parse(p[g'..], false, true), z[k..], n);
  }

  /** The token that `p[g..]` starts with takes nothing of `z[k..]`. */
  lemma FailStep(p: string, g: nat, t: Tok, ts: seq<Tok>, z: string, k: nat)
    requires g <= |p| && k <= |z| && Parse(p[g..], false, true) == [t] + ts
    requires forall n: nat :: n <= |z[k..]| ==> !Takes(t, z[k..], n)
    ensures !Left(p, g, false, z, k)
  {
    hide Parse, Matches, Takes;
    MatchNot(t, ts, z[k..]);
  }

  lemma AnyStep(p: string, g: nat, z: string, k: nat)
    requires g < |p| && k <= |z| && p[g] == '?'
    ensures Left(p, g, false, z, k) <==> k < |z| && Left(p, g + 1, false, z, k + 1)
  {
    hide Parse, Left;
    ParseAny(p, g, false);
    if k < |z| { TakeStep(p, g, Any, g + 1, z, k, 1); } else { FailStep(p, g, Any, Parse(p[g + 1..], false, true), z, k); }
  }

  lemma LitStep(p: string, g: nat, z: string, k: nat)
    requires g < |p| && k <= |z| && p[g] !in "*?[#" && !IsSpace(p[g])
    ensures Left(p, g, false, z, k) <==> k < |z| && z[k] == p[g] && Left(p, g + 1, false, z, k + 1)
  {
    hide Parse, Left;
    ParseChar(p, g, false);
    if k < |z| && z[k] == p[g] {
      TakeStep(p, g, Lit(p[g]), g + 1, z, k, 1);
    } else {
      FailStep(p, g, Lit(p[g]), Parse(p[g + 1..], false, true), z, k);
    }
  }

  lemma SpaceTaken(z: string, k: nat, k': nat)
    requires k < k' <= |z| && (forall x :: k <= x < k' ==> IsSpace(z[x])) && (k' < |z| ==> !IsSpace(z[k']))
    ensures Takes(Space, z[k..], k' - k)
  {
    assert k' < |z| ==> z[k..][k' - k] == z[k'];
  }

  lemma SpaceStep(p: string, g: nat, g': nat, z: string, k: nat, k': nat)
    requires g < g' <= |p| && k <= k' <= |z| && IsSpace(p[g])
    requires (forall x :: g < x < g' ==> IsSpace(p[x])) && (g' < |p| ==> !IsSpace(p[g']))
    requires (forall x :: k <= x < k' ==> IsSpace(z[x])) && (k' < |z| ==> !IsSpace(z[k']))
    ensures Left(p, g, false, z, k) <==> k < k' && Left(p, g', false, z, k')
  {
    hide Parse, Left;
    ParseSpace(p, g, g');
    if k < k' {
      SpaceTaken(z, k, k');
      TakeStep(p, g, Space, g', z, k, k' - k);
    } else {
      FailStep(p, g, Space, Parse(p[g'..], false, true), z, k);
    }
  }

  /** `d` is behind the sign, if there is one, and the digits end at `k'`. */
  lemma NumberTaken(z: string, k: nat, d: nat, k': nat)
    requires k <= d < k' <= |z| && d == if IsSign(z[k]) then k + 1 else k
    requires (forall x :: d <= x < k' ==> IsDigit(z[x])) && (k' < |z| ==> !IsDigit(z[k']))
    ensures IsNumber(z[k..], k' - k)
  {
    assert z[k..][0] == z[k];
    assert k' < |z| ==> z[k..][k' - k] == z[k'];
  }

  lemma NoNumber(z: string, k: nat, n: nat)
    requires k + n <= |z| && !IsDigit(At(z, k)) && !(IsSign(At(z, k)) && IsDigit(At(z, k + 1)))
    ensures !IsNumber(z[k..], n)
  {
    var t := z[k..];
    assert n > 0 ==> t[0] == At(z, k);
    assert n > 1 ==> t[1] == At(z, k + 1);
  }

  lemma NumberStep(p: string, g: nat, z: string, k: nat, d: nat, k': nat)
    requires g < |p| && p[g] == '#' && k <= d < k' <= |z| && d == if IsSign(z[k]) then k + 1 else k
    requires (forall x :: d <= x < k' ==> IsDigit(z[x])) && !IsDigit(At(z, k'))
    ensures Left(p, g, false, z, k) <==> Left(p, g + 1, false, z, k')
  {
    NumberTaken(z, k, d, k');
    hide Parse, Left, IsNumber;
    ParseNumber(p, g);
    TakeStep(p, g, Number, g + 1, z, k, k' - k);
  }

  lemma NumberFails(p: string, g: nat, z: string, k: nat)
    requires g < |p| && p[g] == '#' && k <= |z|
    requires !IsDigit(At(z, k)) && (k < |z| && IsSign(At(z, k)) ==> !IsDigit(At(z, k + 1)))
    ensures !Left(p, g, false, z, k)
  {
    hide Parse, Left, IsNumber;
    ParseNumber(p, g);
    forall n: nat | n <= |z[k..]| ensures !Takes(Number, z[k..], n) { NoNumber(z, k, n); }
    FailStep(p, g, Number, Parse(p[g + 1..], false, true), z, k);
  }

  // ---- The loops ---------------------------------------------------------------------------

  lemma RunAny(p: string, g: nat, z: string, k: nat)
    requires g < |p| && k <= |z| && p[g] == '?'
    ensures LeftStar(p, g, z, k) <==> k < |z| && LeftStar(p, g + 1, z, k + 1)
  {
    hide Parse, Matches;
    ParseAny(p, g, true);
    StarAny(Parse(p[g + 1..], true, true), z[k..]);
    assert k < |z| ==> z[k..][1..] == z[k + 1..];
  }

  lemma RunStar(p: string, g: nat, z: string, k: nat)
    requires g < |p| && k <= |z| && p[g] == '*'
    ensures LeftStar(p, g, z, k) <==> LeftStar(p, g + 1, z, k)
  {
    hide Parse, Matches;
    ParseStar(p, g, true);
    StarStar(Parse(p[g + 1..], true, true), z[k..]);
  }

  lemma RunBegins(p: string, g: nat, z: string, k: nat)
    requires g < |p| && k <= |z| && p[g] == '*'
    ensures Left(p, g, false, z, k) <==> LeftStar(p, g + 1, z, k)
  {
    hide Parse, Matches;
    ParseStar(p, g, false);
  }

  /** The run of '*' and '?' whose first '*' is at `p[g0 - 1]`: each '?' skips one character. */
  method SkipRun(p: string, g0: nat, z: string, k0: nat) returns (ok: bool, g: nat, k: nat)
    requires NulFree(p) && NulFree(z) && g0 <= |p| && k0 <= |z|
    ensures !ok ==> !LeftStar(p, g0, z, k0)
    ensures ok ==> g0 <= g <= |p| && k0 <= k <= |z| && At(p, g) != '*' && At(p, g) != '?'
    ensures ok ==> (LeftStar(p, g0, z, k0) <==> LeftStar(p, g, z, k))
  {
    hide LeftStar;
    g, k := g0, k0;
    while At(p, g) == '*' || At(p, g) == '?'
      invariant g0 <= g <= |p| && k0 <= k <= |z|
      invariant LeftStar(p, g0, z, k0) <==> LeftStar(p, g, z, k)
      decreases |p| - g
    {
      if At(p, g) == '?' {
        RunAny(p, g, z, k);
        if At(z, k) == NUL { return false, g, k; }
        k := k + 1;
      } else {
        RunStar(p, g, z, k);
      }
      g := g + 1;
    }
    ok := true;
  }

  /** End of the white space that starts at `i`. */
  method SkipBlanks(s: string, i: nat) returns (j: nat)
    requires NulFree(s) && i <= |s|
    ensures i <= j <= |s| && !IsSpace(At(s, j))
    ensures forall x :: i <= x < j ==> IsSpace(s[x])
  {
    j := i;
    while IsSpace(At(s, j))
      invariant i <= j <= |s| && forall x :: i <= x < j ==> IsSpace(s[x])
      decreases |s| - j
    {
      j := j + 1;
    }
  }

  /** The '#' branch. */
  method SkipNumber(ghost p: string, ghost g: nat, z: string, k: nat) returns (ok: bool, k': nat)
    requires NulFree(z) && g < |p| && k <= |z| && p[g] == '#'
    ensures ok ==> k < k' <= |z|
    ensures Left(p, g, false, z, k) <==> ok && Left(p, g + 1, false, z, k')
  {
    hide Left;
    var d := k;
    if IsSign(At(z, k)) && IsDigit(At(z, k + 1)) { d := d + 1; }
    if !IsDigit(At(z, d)) { NumberFails(p, g, z, k); return false, k; }
    k' := d + 1;
    while IsDigit(At(z, k'))
      invariant d < k' <= |z| && forall x :: d <= x < k' ==> IsDigit(z[x])
      decreases |z| - k'
    {
      k' := k' + 1;
    }
    NumberStep(p, g, z, k, d, k');
    ok := true;
  }

  /** The '[' branch. */
  method SkipBracket(p: string, g: nat, z: string, k: nat) returns (ok: bool, g': nat)
    requires NulFree(p) && NulFree(z) && g < |p| && k <= |z| && p[g] == '['
    ensures ok ==> g < g' <= |p| && k < |z|
    ensures Left(p, g, false, z, k) <==> ok && Left(p, g', false, z, k + 1)
  {
    hide Left, List, Negated, InItems;
    if At(z, k) == NUL {
      BracketStep(p, g, z, k, false, 0);
      return false, 0;
    }
    ok, g' := MatchBracket(p, g + 1, At(z, k));
    BracketStep(p, g, z, k, ok, g');
  }

  /** The white-space branch. */
  method SkipSpace(p: string, g: nat, z: string, k: nat) returns (ok: bool, g': nat, k': nat)
    requires NulFree(p) && NulFree(z) && g < |p| && k <= |z| && IsSpace(p[g])
    ensures ok ==> g < g' <= |p| && k < k' <= |z|
    ensures Left(p, g, false, z, k) <==> ok && Left(p, g', false, z, k')
  {
    hide Left;
    ok := IsSpace(At(z, k));
    g' := SkipBlanks(p, g + 1);
    k' := SkipBlanks(z, k);
    SpaceStep(p, g, g', z, k, k');
  }

  /** `testcase_glob` on the pattern from `g0` and the text from `z0`. */
  method TestcaseGlob(p: string, g0: nat, z: string, z0: nat) returns (r: bool)
    requires NulFree(p) && NulFree(z) && g0 <= |p| && z0 <= |z|
    ensures r <==> Left(p, g0, false, z, z0)
    decreases |p| - g0, |z| - z0, 0
  {
    hide Left, LeftStar;
    var g, k := g0, z0;
    while At(p, g) != NUL
      invariant g0 <= g <= |p| && z0 <= k <= |z|
      invariant Left(p, g0, false, z, z0) <==> Left(p, g, false, z, k)
      decreases |p| - g
    {
      var c := At(p, g);
      if IsSpace(c) {
        var ok, g', k' := SkipSpace(p, g, z, k);
        if !ok { return false; }
        g, k := g', k';
      } else if c == '*' {
        RunBegins(p, g, z, k);
        r := AfterStar(p, g + 1, z, k);
        return;
      } else if c == '?' {
        AnyStep(p, g, z, k);
        if At(z, k) == NUL { return false; }
        g, k := g + 1, k + 1;
      } else if c == '[' {
        var ok, g' := SkipBracket(p, g, z, k);
        if !ok { return false; }
        g, k := g', k + 1;
      } else if c == '#' {
        var ok, k' := SkipNumber(p, g, z, k);
        if !ok { return false; }
        g, k := g + 1, k';
      } else {
        LitStep(p, g, z, k);
        if c != At(z, k) { return false; }
        g, k := g + 1, k + 1;
      }
    }
    var e := SkipBlanks(z, k);
    EndStep(p, z, k, e);
    return At(z, e) == NUL;
  }

  lemma EndStep(p: string, z: string, k: nat, e: nat)
    requires NulFree(z) && k <= e <= |z| && !IsSpace(At(z, e)) && forall x :: k <= x < e ==> IsSpace(z[x])
    ensures Left(p, |p|, false, z, k) <==> At(z, e) == NUL
  {
    assert p[|p|..] == [];
    assert e < |z| ==> z[k..][e - k] == z[e];
  }

  /** A list, from `p[g]` on, and what follows it. */
  lemma ParseList(p: string, g: nat)
    requires g < |p| && p[g] == '['
    ensures var neg := Negated(p[g + 1..]);
            var b := List(if neg then p[g + 2..] else p[g + 1..]);
            Parse(p[g..], false, true) == if b.Open? then [Unclosed] else [Class(neg, b.items)] + Parse(b.rest, false, true)
  {
    hide List, Negated;
    var q := p[g..];
    assert q[1..] == p[g + 1..];
    assert g + 1 < |p| ==> q[2..] == p[g + 2..];
    NegatedLong(p[g + 1..]);
  }

  lemma NegatedLong(q: string)
    ensures Negated(q) ==> q != []
  {
  }

  lemma BracketStep(p: string, g: nat, z: string, k: nat, ok: bool, g': nat)
    requires g < |p| && k <= |z| && p[g] == '[' && (ok ==> g' <= |p| && k < |z|)
    requires var neg := Negated(p[g + 1..]);
             var b := List(if neg then p[g + 2..] else p[g + 1..]);
             && (ok <==> k < |z| && b.Closed? && InItems(z[k], b.items) != neg)
             && (ok ==> b.rest == p[g'..])
    ensures Left(p, g, false, z, k) <==> ok && Left(p, g', false, z, k + 1)
  {
    hide Parse, Left, List, InItems;
    ParseList(p, g);
    var neg := Negated(p[g + 1..]);
    var b := List(if neg then p[g + 2..] else p[g + 1..]);
    if ok {
      ClassTakes(neg, b.items, z, k, 1);
      TakeStep(p, g, Class(neg, b.items), g', z, k, 1);
    } else if b.Open? {
      assert [Unclosed] + [] == [Unclosed];
      FailStep(p, g, Unclosed, [], z, k);
    } else {
      forall n: nat | n <= |z[k..]| ensures !Takes(Class(neg, b.items), z[k..], n) { ClassTakes(neg, b.items, z, k, n); }
      FailStep(p, g, Class(neg, b.items), Parse(b.rest, false, true), z, k);
    }
  }

  lemma ClassTakes(neg: bool, items: seq<Item>, z: string, k: nat, n: nat)
    requires k <= |z| && n <= |z[k..]|
    ensures Takes(Class(neg, items), z[k..], n) <==> n == 1 && InItems(z[k], items) != neg
  {
    hide InItems;
    assert n > 0 ==> z[k..][0] == z[k];
  }

  /** The '*' branch: the run of '*' and '?' goes on at `p[g0]`, and the rest is tried at every offset. */
  method AfterStar(p: string, g0: nat, z: string, k0: nat) returns (r: bool)
    requires NulFree(p) && NulFree(z) && g0 <= |p| && k0 <= |z|
    ensures r <==> LeftStar(p, g0, z, k0)
    decreases |p| - g0, |z| - k0, 2
  {
    hide LeftStar;
    var ok, g, k := SkipRun(p, g0, z, k0);
    if !ok { return false; }
    var c := At(p, g);
    if c == NUL {
      StarLast(p, z, k);
      return true;
    } else if c == '[' {
      r := AfterStarBracket(p, g, z, k);
      return;
    }
    r := AfterStarLiteral(p, g, z, k);
  }

  lemma StarLast(p: string, z: string, k: nat)
    requires k <= |z|
    ensures LeftStar(p, |p|, z, k)
  {
    assert p[|p|..] == [] && [Star] + [] == [Star] && [Star][1..] == [];
    assert Takes(Star, z[k..], |z| - k) && Matches([], z[k..][|z| - k..]);
  }

  /** One offset is tried, then the next. */
  lemma StarNext(p: string, g: nat, z: string, k: nat)
    requires g < |p| && k <= |z| && p[g] == '['
    ensures LeftStar(p, g, z, k) <==> Left(p, g, false, z, k) || (k < |z| && LeftStar(p, g, z, k + 1))
  {
    ListAfterRun(p, g);
    hide Parse, Matches;
    StarStep(Parse(p[g..], true, true), z[k..]);
    assert k < |z| ==> z[k..][1..] == z[k + 1..];
  }

  lemma ListAfterRun(p: string, g: nat)
    requires g < |p| && p[g] == '['
    ensures Parse(p[g..], true, true) == Parse(p[g..], false, true)
  {
  }

  /** No list matches at the end of the text. */
  lemma ListAtEnd(p: string, g: nat, z: string)
    requires g < |p| && p[g] == '['
    ensures !Left(p, g, false, z, |z|)
  {
    hide Left, Parse, List, Negated;
    ParseList(p, g);
    var neg := Negated(p[g + 1..]);
    NegatedLong(p[g + 1..]);
    var b := List(if neg then p[g + 2..] else p[g + 1..]);
    if b.Open? {
      assert [Unclosed] + [] == [Unclosed];
      FailStep(p, g, Unclosed, [], z, |z|);
    } else {
      FailStep(p, g, Class(neg, b.items), Parse(b.rest, false, true), z, |z|);
    }
  }

  /** A bracket list after a run is tried at every offset. */
  method AfterStarBracket(p: string, g: nat, z: string, k0: nat) returns (r: bool)
    requires NulFree(p) && NulFree(z) && g < |p| && k0 <= |z| && p[g] == '['
    ensures r <==> LeftStar(p, g, z, k0)
    decreases |p| - g, |z| - k0, 1
  {
    hide Left, LeftStar;
    var k := k0;
    while At(z, k) != NUL
      invariant k0 <= k <= |z|
      invariant LeftStar(p, g, z, k0) <==> LeftStar(p, g, z, k)
      decreases |z| - k
    {
      StarNext(p, g, z, k);
      var sub := TestcaseGlob(p, g, z, k);
      if sub { return true; }
      k := k + 1;
    }
    StarNext(p, g, z, k);
    ListAtEnd(p, g, z);
    return false;
  }

  /** The search for `p[g]`, the first character after a run, taken literally. */
  method AfterStarLiteral(p: string, g: nat, z: string, k0: nat) returns (r: bool)
    requires NulFree(p) && NulFree(z) && g < |p| && k0 <= |z| && p[g] !in "*?["
    ensures r <==> LeftStar(p, g, z, k0)
    decreases |p| - g, |z| - k0, 0
  {
    hide Left, LeftStar;
    var c := At(p, g);
    var c2, k := At(z, k0), k0 + 1;
    while c2 != NUL
      invariant k0 < k <= |z| + 1 && c2 == At(z, k - 1)
      invariant LeftStar(p, g, z, k0) <==> LeftStar(p, g, z, k - 1)
      decreases |z| + 1 - k
    {
      while c2 != c
        invariant k0 < k <= |z| && c2 == At(z, k - 1)
        invariant LeftStar(p, g, z, k0) <==> LeftStar(p, g, z, k - 1)
        decreases |z| - k
      {
        StarLit(p, g, z, k - 1);
        c2 := At(z, k);
        k := k + 1;
        if c2 == NUL { StarLit(p, g, z, k - 1); return false; }
      }
      StarLit(p, g, z, k - 1);
      var sub := TestcaseGlob(p, g + 1, z, k);
      if sub { return true; }
      c2 := At(z, k);
      k := k + 1;
    }
    StarLit(p, g, z, k - 1);
    return false;
  }

  /** '*' in front of a character that the code takes literally. */
  lemma StarLit(p: string, g: nat, z: string, k: nat)
    requires g < |p| && k <= |z| && p[g] !in "*?["
    ensures LeftStar(p, g, z, k) <==> k < |z| && ((z[k] == p[g] && Left(p, g + 1, false, z, k + 1)) || LeftStar(p, g, z, k + 1))
  {
    ParseChar(p, g, true);
    hide Parse, Matches;
    var ts := Parse(p[g + 1..], false, true);
    StarStep([Lit(p[g])] + ts, z[k..]);
    if k < |z| {
      assert z[k..][0] == z[k] && z[k..][1..] == z[k + 1..];
      if z[k] == p[g] { MatchTok(Lit(p[g]), ts, z[k..], 1); } else { MatchNot(Lit(p[g]), ts, z[k..]); }
    } else {
      MatchNot(Lit(p[g]), ts, z[k..]);
    }
  }
}
