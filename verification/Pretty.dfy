/** MODE_Pretty of `shell_callback`: white space of a schema text is compacted and long texts are broken into lines,
    both in place. */
module Pretty {
  import opened CText
  import opened Options

  predicate IsParen(c: char) {
    c == '(' || c == ')'
  }

  /** The characters of a text that are not white space. */
  function Ink(s: string): string {
    if s == [] then [] else (if IsSpace(s[0]) then [] else [s[0]]) + Ink(s[1..])
  }

  lemma {:induction false} InkAppend(a: string, b: string)
    ensures Ink(a + b) == Ink(a) + Ink(b)
  {
    if a == [] {
      assert a + b == b;
    } else {
      assert (a + b)[1..] == a[1..] + b;
      InkAppend(a[1..], b);
    }
  }

  // ---- The first pass ----------------------------------------------------------------------

  /** What white space between `p` and `c` becomes: its first character, or nothing next to a parenthesis. */
  function Gap(p: char, blanks: string, c: char): string {
    if blanks == [] || p == '(' || IsParen(c) then [] else [blanks[0]]
  }

  /** The text `s`, which follows `p`, with its white space compacted; white space at the end is dropped. */
  function Compacted(p: char, s: string): string
    decreases |s|
  {
    var n := Blanks(s);
    if n == |s| then [] else Gap(p, s[..n], s[n]) + [s[n]] + Compacted(s[n], s[n + 1..])
  }

  /** The whole text: a leading '(' stands for the begin, where white space is dropped. */
  function Compact(s: string): string {
    Compacted('(', s)
  }

  lemma {:induction false} CompactedInk(p: char, s: string)
    ensures Ink(Compacted(p, s)) == Ink(s)
    decreases |s|
  {
    var n := Blanks(s);
    BlanksInk(s, n);
    if n < |s| {
      CompactedInk(s[n], s[n + 1..]);
      GapInk(Gap(p, s[..n], s[n]), s[n], Compacted(s[n], s[n + 1..]));
      assert s[n..][1..] == s[n + 1..];
    }
  }

  lemma GapInk(g: string, c: char, rest: string)
    requires !IsSpace(c) && (g == [] || (|g| == 1 && IsSpace(g[0])))
    ensures Ink(g + [c] + rest) == [c] + Ink(rest)
  {
    InkAppend(g + [c], rest);
    InkAppend(g, [c]);
    assert Ink(g) == [] && Ink([c]) == [c];
  }

  lemma {:induction false} BlanksInk(s: string, n: nat)
    requires n <= |s| && forall i :: 0 <= i < n ==> IsSpace(s[i])
    ensures Ink(s) == Ink(s[n..])
  {
    if n > 0 {
      BlanksInk(s[1..], n - 1);
      assert s[1..][n - 1..] == s[n..];
    }
  }

  /** In a text that follows `p`, white space stands alone, not next to a parenthesis' inside, and not at the end. */
  predicate Clean(p: char, s: string)
    decreases |s|
  {
    s == [] ||
    if IsSpace(s[0]) then
      p != '(' && |s| > 1 && !IsSpace(s[1]) && !IsParen(s[1]) && Clean(s[1], s[2..])
    else Clean(s[0], s[1..])
  }

  /** The same, said of every position: no two white-space characters are adjacent, none precedes a parenthesis,
      follows '(', begins or ends the text. */
  ghost predicate NoLooseBlank(s: string) {
    forall i :: 0 <= i < |s| && IsSpace(s[i]) ==>
      0 < i < |s| - 1 && s[i - 1] != '(' && !IsSpace(s[i - 1]) && !IsSpace(s[i + 1]) && !IsParen(s[i + 1])
  }

  lemma {:induction false} CleanAt(p: char, s: string, i: nat)
    requires Clean(p, s) && !IsSpace(p) && i < |s| && IsSpace(s[i])
    ensures i < |s| - 1 && !IsSpace(s[i + 1]) && !IsParen(s[i + 1])
    ensures if i == 0 then p != '(' else s[i - 1] != '(' && !IsSpace(s[i - 1])
    decreases |s|
  {
    if IsSpace(s[0]) {
      if i > 1 { CleanAt(s[1], s[2..], i - 2); }
    } else if i > 0 {
      CleanAt(s[0], s[1..], i - 1);
    }
  }

  lemma {:induction false} CompactedClean(p: char, s: string)
    ensures Clean(p, Compacted(p, s))
    decreases |s|
  {
    var n := Blanks(s);
    if n < |s| {
      CompactedClean(s[n], s[n + 1..]);
      CleanGap(p, Gap(p, s[..n], s[n]), s[n], Compacted(s[n], s[n + 1..]));
    }
  }

  lemma CleanGap(p: char, g: string, c: char, rest: string)
    requires !IsSpace(c) && Clean(c, rest)
    requires g == [] || (|g| == 1 && IsSpace(g[0]) && p != '(' && !IsParen(c))
    ensures Clean(p, g + [c] + rest)
  {
    var t := g + [c] + rest;
    assert t[|g| + 1..] == rest;
  }

  /** A clean text stays as it is. */
  lemma {:induction false} CleanStays(p: char, s: string)
    requires Clean(p, s)
    ensures Compacted(p, s) == s
    decreases |s|
  {
    if s != [] {
      var n := if IsSpace(s[0]) then 1 else 0;
      assert Blanks(s) == n by { assert IsSpace(s[0]) ==> Blanks(s[1..]) == 0; }
      CleanStays(s[n], s[n + 1..]);
      assert s == s[..n] + [s[n]] + s[n + 1..];
      assert Gap(p, s[..n], s[n]) == s[..n];
    }
  }

  /** The first pass keeps every character that is not white space, leaves no loose white space, and does nothing when
      it is run again. */
  lemma CompactLaws(s: string)
    ensures Ink(Compact(s)) == Ink(s)
    ensures NoLooseBlank(Compact(s))
    ensures Compact(Compact(s)) == Compact(s)
  {
    CompactedInk('(', s);
    CompactedClean('(', s);
    CleanStays('(', Compact(s));
    forall i | 0 <= i < |Compact(s)| && IsSpace(Compact(s)[i])
      ensures 0 < i < |Compact(s)| - 1 && Compact(s)[i - 1] != '(' && !IsSpace(Compact(s)[i - 1])
      ensures !IsSpace(Compact(s)[i + 1]) && !IsParen(Compact(s)[i + 1])
    {
      CleanAt('(', Compact(s), i);
    }
  }

  /** The first pass has written `w`, and `t` is left to read. */
  ghost predicate Written(goal: string, w: string, t: string) {
    if w == [] then goal == Compacted('(', t)
    else
      var last := w[|w| - 1];
      if !IsSpace(last) then goal == w + Compacted(last, t)
      else
        && |w| > 1 && !IsSpace(w[|w| - 2]) && w[|w| - 2] != '('
        && goal == w[..|w| - 1] + Compacted(w[|w| - 2], [last] + t)
  }

  lemma CompactedStep(p: char, c: char, t: string)
    requires !IsSpace(c)
    ensures Compacted(p, [c] + t) == [c] + Compacted(c, t)
  {
    assert Blanks([c] + t) == 0 && ([c] + t)[1..] == t;
  }

  lemma CompactedGap(p: char, g: char, c: char, t: string)
    requires IsSpace(g) && !IsSpace(c) && p != '('
    ensures Compacted(p, [g] + ([c] + t)) == (if IsParen(c) then [] else [g]) + [c] + Compacted(c, t)
  {
    var s := [g] + ([c] + t);
    assert s[1..] == [c] + t && Blanks([c] + t) == 0 && Blanks(s) == 1;
    assert s[2..] == t && s[..1] == [g];
  }

  lemma BlanksCons(c: char, t: string)
    requires IsSpace(c)
    ensures Blanks([c] + t) == 1 + Blanks(t)
    ensures Blanks(t) < |t| ==> ([c] + t)[Blanks(t) + 1] == t[Blanks(t)] && ([c] + t)[Blanks(t) + 2..] == t[Blanks(t) + 1..]
  {
    var u := [c] + t;
    assert u[1..] == t;
    assert Blanks(t) < |t| ==> u[Blanks(t) + 2..] == t[Blanks(t) + 1..];
  }

  /** A second white-space character of a run is dropped. */
  lemma CompactedRun(p: char, g: char, c: char, t: string)
    requires IsSpace(g) && IsSpace(c)
    ensures Compacted(p, [g] + ([c] + t)) == Compacted(p, [g] + t)
  {
    BlanksCons(c, t);
    BlanksCons(g, t);
    BlanksCons(g, [c] + t);
  }

  /** White space after '(' is dropped. */
  lemma CompactedOpen(c: char, t: string)
    requires IsSpace(c)
    ensures Compacted('(', [c] + t) == Compacted('(', t)
  {
    BlanksCons(c, t);
  }

  lemma WrittenSkip(goal: string, w: string, c: char, t: string)
    requires Written(goal, w, [c] + t) && w != [] && IsSpace(c) && (IsSpace(w[|w| - 1]) || w[|w| - 1] == '(')
    ensures Written(goal, w, t)
  {
    var last := w[|w| - 1];
    if IsSpace(last) { CompactedRun(w[|w| - 2], last, c, t); } else { CompactedOpen(c, t); }
  }

  lemma WrittenBlank(goal: string, w: string, c: char, t: string)
    requires Written(goal, w, [c] + t) && w != [] && IsSpace(c) && !IsSpace(w[|w| - 1]) && w[|w| - 1] != '('
    ensures Written(goal, w + [c], t)
  {
    assert (w + [c])[..|w|] == w;
  }

  lemma WrittenGap(goal: string, v: string, g: char, c: char, t: string)
    requires Written(goal, v + [g], [c] + t) && IsSpace(g) && !IsSpace(c)
    ensures Written(goal, (if IsParen(c) then v else v + [g]) + [c], t)
  {
    hide Compacted;
    var w := v + [g];
    assert w[..|w| - 1] == v && w[|w| - 2] == v[|v| - 1];
    CompactedGap(v[|v| - 1], g, c, t);
    var gap, rest := if IsParen(c) then [] else [g], Compacted(c, t);
    assert v + (gap + [c] + rest) == (v + gap) + [c] + rest;
    assert v + gap == if IsParen(c) then v else w;
  }

  lemma WrittenInk(goal: string, w: string, c: char, t: string)
    requires Written(goal, w, [c] + t) && !IsSpace(c)
    ensures var v := if IsParen(c) && w != [] && IsSpace(w[|w| - 1]) then w[..|w| - 1] else w;
            Written(goal, v + [c], t)
  {
    if w != [] && IsSpace(w[|w| - 1]) {
      hide Written;
      assert w == w[..|w| - 1] + [w[|w| - 1]];
      WrittenGap(goal, w[..|w| - 1], w[|w| - 1], c, t);
    } else {
      WrittenPlain(goal, w, c, t);
    }
  }

  lemma WrittenPlain(goal: string, w: string, c: char, t: string)
    requires Written(goal, w, [c] + t) && !IsSpace(c) && (w == [] || !IsSpace(w[|w| - 1]))
    ensures Written(goal, w + [c], t)
  {
    hide Compacted;
    CompactedStep(if w == [] then '(' else w[|w| - 1], c, t);
    assert w + ([c] + Compacted(c, t)) == w + [c] + Compacted(c, t);
  }

  lemma WrittenEnd(goal: string, w: string)
    requires Written(goal, w, [])
    ensures goal == if w != [] && IsSpace(w[|w| - 1]) then w[..|w| - 1] else w
    ensures goal != [] ==> !IsSpace(goal[|goal| - 1])
  {
    if w != [] && IsSpace(w[|w| - 1]) {
      var g := w[|w| - 1];
      assert [g] + [] == [g] && Blanks([g]) == 1 by { assert [g][1..] == []; }
    }
  }

  /** One round of the first pass, for `c = z[i]`: `j` characters are written, and `z[j - 1]` is read only when
      there is one. */
  method CompactChar(z: array<char>, i: nat, j0: nat, ghost w: string, ghost t: string, ghost goal: string)
    returns (j: nat, ghost w': string)
    requires j0 == |w| <= i < z.Length && Holds(z, 0, w) && Written(goal, w, [z[i]] + t)
    requires w == [] ==> !IsSpace(z[i])
    modifies z
    ensures j == |w'| <= i + 1 && w' != [] && Holds(z, 0, w') && Written(goal, w', t)
    ensures forall x :: i < x < z.Length ==> z[x] == old(z[x])
  {
    hide Written;
    var c := z[i];
    j, w' := j0, w;
    if IsSpace(c) {
      if IsSpace(z[j - 1]) || z[j - 1] == '(' {
        WrittenSkip(goal, w, c, t);
        return;
      }
      WrittenBlank(goal, w, c, t);
    } else {
      WrittenInk(goal, w, c, t);
      if IsParen(c) && j > 0 && IsSpace(z[j - 1]) {
        j := j - 1;
        w' := w[..|w| - 1];
      }
    }
    z[j] := c;
    j := j + 1;
    w' := w' + [c];
  }

  /** The white space at the begin. */
  method SkipLead(z: array<char>, ghost s: string) returns (i: nat)
    requires Unread(z, 0, s, 0)
    ensures i <= |s| && Compact(s) == Compacted('(', s[i..]) && !IsSpace(z[i])
  {
    i := 0;
    assert s[0..] == s;
    while IsSpace(z[i])
      invariant i <= |s| && Compact(s) == Compacted('(', s[i..])
      decreases |s| - i
    {
      hide Compacted;
      assert s[i..] == [s[i]] + s[i + 1..];
      CompactedOpen(s[i], s[i + 1..]);
      i := i + 1;
    }
  }

  /** The main loop of the first pass, from `z[i0]` on. */
  method CompactLoop(z: array<char>, i0: nat, ghost s: string) returns (j: nat, ghost w: string)
    requires i0 <= |s| && Unread(z, 0, s, 0) && Compact(s) == Compacted('(', s[i0..]) && !IsSpace(z[i0])
    modifies z
    ensures j == |w| <= |s| < z.Length && Holds(z, 0, w) && Written(Compact(s), w, [])
  {
    hide Compact, Compacted;
    var i := i0;
    j, w := 0, [];
    while z[i] != NUL
      invariant j == |w| <= i <= |s| && Unread(z, 0, s, i) && Holds(z, 0, w) && Written(Compact(s), w, s[i..])
      invariant w == [] ==> !IsSpace(z[i])
      decreases |s| - i
    {
      hide Written;
      assert z[i] == s[i];
      assert s[i..] == [z[i]] + s[i + 1..];
      j, w := CompactChar(z, i, j, w, s[i + 1..], Compact(s));
      i := i + 1;
    }
    assert s[i..] == [];
  }

  /** The white space at the end of the `|w|` characters written is dropped. */
  method TrimEnd(z: array<char>, j0: nat, ghost w: string, ghost goal: string) returns (n: nat)
    requires j0 == |w| < z.Length && Holds(z, 0, w) && Written(goal, w, [])
    modifies z
    ensures n == |goal| <= |w| && Holds(z, 0, goal) && z[n] == NUL
  {
    WrittenEnd(goal, w);
    hide Written;
    n := j0;
    while n > 0 && IsSpace(z[n - 1])
      invariant |goal| <= n <= |w| && (n == |w| || n == |goal|) && Holds(z, 0, w) && goal <= w
      decreases n
    {
      n := n - 1;
    }
    z[n] := NUL;
  }

  /** The first pass: the text `s` in the buffer is replaced by its compacted form, of length `n`. */
  method CompactInPlace(z: array<char>, ghost s: string) returns (n: nat)
    requires Unread(z, 0, s, 0)
    modifies z
    ensures n == |Compact(s)| <= |s| && Holds(z, 0, Compact(s)) && z[n] == NUL
  {
    var i := SkipLead(z, s);
    var j, w := CompactLoop(z, i, s);
    n := TrimEnd(z, j, w, Compact(s));
  }

  // ---- The second pass ---------------------------------------------------------------------

  /** The state between two characters: the quote that ends a quoted part (NUL outside one), the number of open
      parentheses and the number of lines printed. */
  datatype Mode = Mode(cEnd: char, nParen: int, nLine: nat)

  function Next(m: Mode, c: char): Mode {
    if c == m.cEnd then m.(cEnd := NUL)
    else if c == '"' || c == '\'' || c == '`' then m.(cEnd := c)
    else if c == '[' then m.(cEnd := ']')
    else if c == '(' then m.(nParen := m.nParen + 1)
    else if c == ')' then m.(nParen := m.nParen - 1)
    else m
  }

  /** Before the ')' that closes the outermost parenthesis, the line so far is printed. */
  predicate BreaksBefore(m: Mode, c: char, line: string) {
    c == ')' && c != m.cEnd && m.nLine > 0 && Next(m, c).nParen == 0 && line != []
  }

  /** After '(' or ',' or a newline inside the outermost parenthesis, the line so far is printed. */
  predicate BreaksAfter(m: Mode, c: char) {
    Next(m, c).nParen == 1 && (c == '(' || c == ',' || c == '\n')
  }

  /** What is printed for the rest `t` of the text, when `line` is the line so far. */
  function Layout(t: string, line: string, m: Mode): string
    decreases |t|
  {
    if t == [] then line
    else
      var c := t[0];
      var m1 := Next(m, c);
      var before := if BreaksBefore(m, c, line) then line + "\n" else [];
      var line1 := if BreaksBefore(m, c, line) then [] else line;
      if BreaksAfter(m, c) then
        before + (if c == '\n' then line1 else line1 + [c]) + "\n  "
        + Layout(t[1 + Blanks(t[1..])..], [], m1.(nLine := m.nLine + 1))
      else
        before + Layout(t[1..], line1 + [c], m1)
  }

  lemma LayoutNext(t: string, line: string, m: Mode)
    requires t != []
    ensures var c := t[0];
            var brk := BreaksBefore(m, c, line);
            var before, line1 := if brk then line + "\n" else [], if brk then [] else line;
            Layout(t, line, m) ==
            if BreaksAfter(m, c) then
              before + (if c == '\n' then line1 else line1 + [c]) + "\n  "
              + Layout(t[1 + Blanks(t[1..])..], [], Next(m, c).(nLine := m.nLine + 1))
            else before + Layout(t[1..], line1 + [c], Next(m, c))
  {
  }

  /** The characters that are not white space are printed, once and in order. */
  lemma {:induction false} LayoutInk(t: string, line: string, m: Mode)
    ensures Ink(Layout(t, line, m)) == Ink(line) + Ink(t)
    decreases |t|
  {
    hide BreaksBefore, BreaksAfter, Next, Ink, Layout;
    if t == [] {
      LayoutEnd(line, m);
      InkNone();
      assert Ink(line) + [] == Ink(line);
    } else {
      LayoutNext(t, line, m);
      var c := t[0];
      var m1 := Next(m, c);
      var brk := BreaksBefore(m, c, line);
      var before, line1 := if brk then line + "\n" else [], if brk then [] else line;
      InkHead(t);
      InkSplit(line, before, line1);
      if BreaksAfter(m, c) {
        var rest := t[1 + Blanks(t[1..])..];
        var own := if c == '\n' then line1 else line1 + [c];
        LayoutInk(rest, [], m1.(nLine := m.nLine + 1));
        InkRest(t);
        InkNone();
        InkBreak(before, line1, c, own, Layout(rest, [], m1.(nLine := m.nLine + 1)));
        assert [] + Ink(rest) == Ink(rest);
        Assoc(Ink(before), Ink(line1), Ink([c]), Ink(t[1..]));
      } else {
        LayoutInk(t[1..], line1 + [c], m1);
        InkGoOn(before, line1, c, Layout(t[1..], line1 + [c], m1));
        Assoc(Ink(before), Ink(line1), Ink([c]), Ink(t[1..]));
      }
    }
  }

  lemma Assoc(a: string, b: string, c: string, d: string)
    ensures a + b + c + d == (a + b) + (c + d) == a + (b + c + d)
  {
  }

  lemma InkNone()
    ensures Ink([]) == []
  {
  }

  lemma InkOne(c: char)
    ensures Ink([c]) == if IsSpace(c) then [] else [c]
  {
    assert [c][1..] == [];
  }

  /** The line so far is printed with a newline, or kept. */
  lemma InkSplit(line: string, before: string, line1: string)
    requires (before == line + "\n" && line1 == []) || (before == [] && line1 == line)
    ensures Ink(before) + Ink(line1) == Ink(line)
  {
    InkAppend(line, "\n");
    InkOne('\n');
    assert "\n" == ['\n'];
  }

  lemma InkRest(t: string)
    requires t != []
    ensures Ink(t[1 + Blanks(t[1..])..]) == Ink(t[1..])
  {
    BlanksInk(t[1..], Blanks(t[1..]));
    assert t[1..][Blanks(t[1..])..] == t[1 + Blanks(t[1..])..];
  }

  lemma IndentInk()
    ensures Ink("\n  ") == []
  {
    BlanksInk("\n  ", 3);
    assert "\n  "[3..] == [];
  }

  lemma InkBreak(before: string, line1: string, c: char, own: string, rest: string)
    requires own == if c == '\n' then line1 else line1 + [c]
    ensures Ink(before + own + "\n  " + rest) == Ink(before) + Ink(line1) + Ink([c]) + Ink(rest)
  {
    hide Ink;
    InkOne(c);
    IndentInk();
    InkAppend(line1, [c]);
    InkAppend(before + own + "\n  ", rest);
    InkAppend(before + own, "\n  ");
    InkAppend(before, own);
  }

  lemma InkGoOn(before: string, line1: string, c: char, rest: string)
    ensures Ink(before + rest) == Ink(before) + Ink(rest)
    ensures Ink(line1 + [c]) == Ink(line1) + Ink([c])
  {
    InkAppend(before, rest);
    InkAppend(line1, [c]);
  }

  lemma InkHead(t: string)
    requires t != []
    ensures Ink(t) == Ink([t[0]]) + Ink(t[1..])
  {
    InkOne(t[0]);
  }

  /** `out` is printed, `line` is the line so far, and `s[i..]` is left. */
  ghost predicate LaidOut(goal: string, out: string, line: string, s: string, i: nat, m: Mode) {
    i <= |s| && goal == out + Layout(s[i..], line, m)
  }

  lemma LaidOutNext(goal: string, out: string, line: string, s: string, i: nat, m: Mode)
    requires LaidOut(goal, out, line, s, i, m) && i < |s|
    ensures var c := s[i];
            var brk := BreaksBefore(m, c, line);
            var out1, line1 := if brk then out + (line + "\n") else out, if brk then [] else line;
            if BreaksAfter(m, c) then
              LaidOut(goal, out1 + ((if c == '\n' then line1 else line1 + [c]) + "\n  "), [], s,
                      i + 1 + Blanks(s[i + 1..]), Next(m, c).(nLine := m.nLine + 1))
            else LaidOut(goal, out1, line1 + [c], s, i + 1, Next(m, c))
  {
    hide Layout, Next, BreaksBefore, BreaksAfter;
    LayoutNext(s[i..], line, m);
    var c, t := s[i], s[i..];
    var brk := BreaksBefore(m, c, line);
    var before, line1 := if brk then line + "\n" else [], if brk then [] else line;
    assert t[1..] == s[i + 1..];
    if BreaksAfter(m, c) {
      var own := if c == '\n' then line1 else line1 + [c];
      var k := Blanks(s[i + 1..]);
      assert t[1 + k..] == s[i + 1 + k..];
      var rest := Layout(s[i + 1 + k..], [], Next(m, c).(nLine := m.nLine + 1));
      assert out + (before + own + "\n  " + rest) == out + before + (own + "\n  ") + rest;
      assert out + [] == out;
    } else {
      var rest := Layout(s[i + 1..], line1 + [c], Next(m, c));
      assert out + (before + rest) == out + before + rest;
      assert out + [] == out;
    }
  }

  /** The chain of tests on a character. */
  method NextMode(m: Mode, c: char) returns (m': Mode, closed: bool)
    ensures m' == Next(m, c) && (closed <==> c == ')' && c != m.cEnd)
  {
    m', closed := m, false;
    if c == m.cEnd {
      m' := m.(cEnd := NUL);
    } else if c == '"' || c == '\'' || c == '`' {
      m' := m.(cEnd := c);
    } else if c == '[' {
      m' := m.(cEnd := ']');
    } else if c == '(' {
      m' := m.(nParen := m.nParen + 1);
    } else if c == ')' {
      m' := m.(nParen := m.nParen - 1);
      closed := true;
    }
  }

  /** One round of the second pass: the line so far is `z[..j]`. */
  method LayoutChar(z: array<char>, i: nat, j: nat, out: string, m: Mode, ghost line: string, ghost s: string, ghost goal: string)
    returns (i': nat, j': nat, out': string, m': Mode, ghost line': string)
    requires j == |line| <= i < |s| && Unread(z, 0, s, i) && Holds(z, 0, line) && LaidOut(goal, out, line, s, i, m)
    modifies z
    ensures j' == |line'| <= i' <= |s| && i < i' && Unread(z, 0, s, i') && Holds(z, 0, line')
    ensures LaidOut(goal, out', line', s, i', m')
  {
    hide LaidOut, Layout, Blanks;
    LaidOutNext(goal, out, line, s, i, m);
    var c := z[i];
    var closed;
    j', out', line' := j, out, line;
    m', closed := NextMode(m, c);
    if closed && m'.nLine > 0 && m'.nParen == 0 && j' > 0 {
      assert z[..j'] == line';
      out' := out' + (z[..j'] + "\n");
      j', line' := 0, [];
    }
    z[j'] := c;
    j', i' := j' + 1, i + 1;
    ghost var line1 := line';
    line' := line' + [c];
    if m'.nParen == 1 && (c == '(' || c == ',' || c == '\n') {
      if c == '\n' { j' := j' - 1; }
      assert z[..j'] == if c == '\n' then line1 else line';
      out' := out' + (z[..j'] + "\n  ");
      j', line' := 0, [];
      m' := m'.(nLine := m'.nLine + 1);
      i' := SkipSpaces(z, i', s);
    }
  }

  /** White space behind a line break is skipped. */
  method SkipSpaces(z: array<char>, i0: nat, ghost s: string) returns (i: nat)
    requires i0 <= |s| && Unread(z, 0, s, i0)
    ensures i == i0 + Blanks(s[i0..]) <= |s|
  {
    i := i0;
    while IsSpace(z[i])
      invariant i0 <= i <= |s| && i + Blanks(s[i..]) == i0 + Blanks(s[i0..])
      decreases |s| - i
    {
      i := i + 1;
    }
  }

  /** The second pass over the text `s` in the buffer: lines are printed, and the last line is left in the buffer. */
  method LayoutInPlace(z: array<char>, ghost s: string) returns (out: string, n: nat)
    requires Unread(z, 0, s, 0)
    modifies z
    ensures n <= |s| && out + z[..n] == Layout(s, [], Mode(NUL, 0, 0)) && z[n] == NUL
  {
    hide Layout;
    var i, m := 0, Mode(NUL, 0, 0);
    out, n := [], 0;
    ghost var goal, line := Layout(s, [], m), [];
    assert s[0..] == s && [] + goal == goal;
    while z[i] != NUL
      invariant n == |line| <= i <= |s| && Unread(z, 0, s, i) && Holds(z, 0, line) && LaidOut(goal, out, line, s, i, m)
      decreases |s| - i
    {
      hide LaidOut;
      i, n, out, m, line := LayoutChar(z, i, n, out, m, line, s, goal);
    }
    assert s[i..] == [];
    LayoutEnd(line, m);
    z[n] := NUL;
    assert z[..n] == line;
  }

  lemma LayoutEnd(line: string, m: Mode)
    ensures Layout([], line, m) == line
  {
  }

  /** What MODE_Pretty prints for a schema text; views and triggers are printed as they are. */
  function Printed(arg: string, asIs: bool): string {
    (if asIs then arg
     else if |Compact(arg)| >= 79 then Layout(Compact(arg), [], Mode(NUL, 0, 0))
     else Compact(arg)) + ";\n"
  }

  /** The MODE_Pretty case; `asIs` is the outcome of the two `sqlite3_strlike` tests. */
  method PrettyPrint(arg: Option<string>, asIs: bool) returns (out: string)
    requires arg.Some? ==> NulFree(arg.value)
    ensures out == if arg.None? then [] else Printed(arg.value, asIs)
  {
    if arg.None? { return []; }
    hide Compact, Layout;
    var s := arg.value;
    if asIs { return s + ";\n"; }
    var z := new char[|s| + 1];
    for i := 0 to |s|
      invariant forall x :: 0 <= x < i ==> z[x] == s[x]
    {
      z[i] := s[i];
    }
    z[|s|] := NUL;
    var n := CompactInPlace(z, s);
    assert z[..n] == Compact(s);
    out := [];
    if n >= 79 {
      CompactedNulFree(s);
      out, n := LayoutInPlace(z, Compact(s));
    }
    out := out + z[..n] + ";\n";
  }

  lemma CompactedNulFree(s: string)
    requires NulFree(s)
    ensures NulFree(Compact(s))
  {
    CompactNulFree('(', s);
  }

  lemma {:induction false} CompactNulFree(p: char, s: string)
    requires NulFree(s)
    ensures NulFree(Compacted(p, s))
    decreases |s|
  {
    var n := Blanks(s);
    if n < |s| {
      assert NulFree(s[n + 1..]);
      CompactNulFree(s[n], s[n + 1..]);
    }
  }

  /** Whatever is printed holds the characters of the text that are not white space, once and in order, and the final
      semicolon. */
  lemma PrintedInk(arg: string, asIs: bool)
    ensures Ink(Printed(arg, asIs)) == Ink(arg) + ";"
  {
    hide Ink, Layout, Compact;
    CompactLaws(arg);
    LayoutInk(Compact(arg), [], Mode(NUL, 0, 0));
    InkNone();
    InkSemi(arg);
    InkSemi(Compact(arg));
    InkSemi(Layout(Compact(arg), [], Mode(NUL, 0, 0)));
    assert [] + Ink(Compact(arg)) == Ink(Compact(arg));
  }

  lemma InkSemi(s: string)
    ensures Ink(s + ";\n") == Ink(s) + ";"
  {
    InkAppend(s, ";\n");
    assert ";\n"[1..] == "\n" && "\n"[1..] == "";
  }
}
