/** Where MODE_Pretty keeps white space, and where it breaks lines. */
module PrettyReference {
  import opened CText
  import opened Pretty

  // ---- White space -------------------------------------------------------------------------

  predicate NoBlank(s: string) {
    forall i :: 0 <= i < |s| ==> !IsSpace(s[i])
  }

  /** A word behind `p`, and then nothing, or white space and more. */
  lemma {:induction false} WordKept(p: char, w: string, s: string)
    requires NoBlank(w)
    ensures Compacted(p, w + s) == w + Compacted(if w == "" then p else w[|w| - 1], s)
    decreases |w|
  {
    hide Compacted;
    if w == "" {
      assert w + s == s;
    } else {
      assert w + s == [w[0]] + (w[1..] + s);
      CompactedStep(p, w[0], w[1..] + s);
      WordKept(w[0], w[1..], s);
      assert [w[0]] + (w[1..] + Compacted(w[|w| - 1], s)) == w + Compacted(w[|w| - 1], s);
    }
  }

  lemma BlanksConcat(g: string, s: string)
    requires AllSpace(g) && (s == "" || !IsSpace(s[0]))
    ensures Blanks(g + s) == |g|
  {
    var t := g + s;
    assert forall i :: 0 <= i < |g| ==> t[i] == g[i];
    assert s != "" ==> t[|g|] == s[0];
    BlanksIs(t, |g|);
  }

  lemma BlanksIs(s: string, n: nat)
    requires n <= |s| && (forall i :: 0 <= i < n ==> IsSpace(s[i])) && (n < |s| ==> !IsSpace(s[n]))
    ensures Blanks(s) == n
  {
  }

  /** White space in front of a character becomes its own first character, or nothing behind '(' and in front of a
      parenthesis. */
  lemma GapKept(p: char, g: string, c: char, s: string)
    requires g != "" && AllSpace(g) && !IsSpace(c)
    ensures Compacted(p, g + ([c] + s)) == (if p == '(' || c == '(' || c == ')' then "" else [g[0]]) + [c] + Compacted(c, s)
  {
    var t := g + ([c] + s);
    BlanksConcat(g, [c] + s);
    assert t[|g|] == c && t[|g| + 1..] == s && t[..|g|] == g;
  }

  lemma BlanksDropped(p: char, g: string)
    requires AllSpace(g)
    ensures Compacted(p, g) == ""
  {
    assert g + "" == g;
    BlanksConcat(g, "");
  }

  /** A text as words with white space between, in front and behind. */
  function Spaced(words: seq<string>, gaps: seq<string>): string
    requires |gaps| == |words|
  {
    if words == [] then "" else gaps[0] + words[0] + Spaced(words[1..], gaps[1..])
  }

  predicate IsWord(w: string) {
    w != "" && NoBlank(w)
  }

  predicate IsSpaced(words: seq<string>, gaps: seq<string>) {
    && |gaps| == |words|
    && forall i :: 0 <= i < |words| ==> IsWord(words[i]) && gaps[i] != "" && AllSpace(gaps[i])
  }

  /** What is left between two words. */
  function Between(p: char, g: string, c: char): string
    requires g != ""
  {
    if p == '(' || c == '(' || c == ')' then "" else [g[0]]
  }

  /** The words behind `p`, with one white-space character or none in front of each. */
  function Tight(p: char, words: seq<string>, gaps: seq<string>): string
    requires IsSpaced(words, gaps)
    decreases |words|
  {
    if words == [] then ""
    else
      assert IsWord(words[0]) && gaps[0] != "";
      Tail(words, gaps);
      Between(p, gaps[0], words[0][0]) + words[0] + Tight(words[0][|words[0]| - 1], words[1..], gaps[1..])
  }

  lemma Tail(words: seq<string>, gaps: seq<string>)
    requires IsSpaced(words, gaps) && words != []
    ensures IsSpaced(words[1..], gaps[1..])
  {
    forall i | 0 <= i < |words| - 1 ensures IsWord(words[1..][i]) && gaps[1..][i] != "" && AllSpace(gaps[1..][i]) {
      assert words[1..][i] == words[i + 1] && gaps[1..][i] == gaps[i + 1];
    }
  }

  lemma HeadTail(b: string, w: string, rest: string)
    requires w != ""
    ensures b + [w[0]] + (w[1..] + rest) == b + w + rest
  {
  }

  lemma SpacedNext(words: seq<string>, gaps: seq<string>, end: string)
    requires |gaps| == |words| && words != [] && words[0] != ""
    ensures Spaced(words, gaps) + end
         == gaps[0] + ([words[0][0]] + (words[0][1..] + (Spaced(words[1..], gaps[1..]) + end)))
  {
    var w, more := words[0], Spaced(words[1..], gaps[1..]);
    assert w == [w[0]] + w[1..];
    assert gaps[0] + ([w[0]] + w[1..]) + more + end == gaps[0] + ([w[0]] + (w[1..] + (more + end)));
  }

  lemma {:induction false} SpacedKept(p: char, words: seq<string>, gaps: seq<string>, end: string)
    requires IsSpaced(words, gaps) && AllSpace(end)
    ensures Compacted(p, Spaced(words, gaps) + end) == Tight(p, words, gaps)
    decreases |words|
  {
    hide Compacted;
    if words == [] {
      assert Spaced(words, gaps) + end == end;
      BlanksDropped(p, end);
    } else {
      assert IsWord(words[0]) && gaps[0] != "" && AllSpace(gaps[0]);
      Tail(words, gaps);
      var w, g := words[0], gaps[0];
      var more := Spaced(words[1..], gaps[1..]) + end;
      SpacedNext(words, gaps, end);
      GapKept(p, g, w[0], w[1..] + more);
      WordKept(w[0], w[1..], more);
      LastOf(w);
      SpacedKept(w[|w| - 1], words[1..], gaps[1..], end);
      HeadTail(Between(p, g, w[0]), w, Tight(w[|w| - 1], words[1..], gaps[1..]));
    }
  }

  lemma LastOf(w: string)
    requires w != ""
    ensures w[|w| - 1] == if w[1..] == "" then w[0] else w[1..][|w[1..]| - 1]
  {
  }

  /** The first pass, on any text: its words stay, and between two of them stays the first of the white-space characters
      there, but none behind '(' and none in front of a parenthesis.  White space at the begin and at the end goes. */
  lemma CompactSpaced(first: string, words: seq<string>, gaps: seq<string>, begin: string, end: string)
    requires IsWord(first) && IsSpaced(words, gaps) && AllSpace(begin) && AllSpace(end)
    ensures Compact(begin + first + Spaced(words, gaps) + end) == first + Tight(first[|first| - 1], words, gaps)
  {
    hide Compacted, Spaced, Tight;
    var more := Spaced(words, gaps) + end;
    SpacedKept(first[|first| - 1], words, gaps, end);
    assert begin + first + Spaced(words, gaps) + end == begin + (first + more);
    FirstKept(begin, first, more);
  }

  lemma FirstKept(begin: string, first: string, more: string)
    requires IsWord(first) && AllSpace(begin)
    ensures Compact(begin + (first + more)) == first + Compacted(first[|first| - 1], more)
  {
    hide Compacted;
    if begin == "" {
      assert begin + (first + more) == first + more;
      WordKept('(', first, more);
    } else {
      assert first + more == [first[0]] + (first[1..] + more);
      GapKept('(', begin, first[0], first[1..] + more);
      WordKept(first[0], first[1..], more);
      LastOf(first);
      HeadTail("", first, Compacted(first[|first| - 1], more));
      assert "" + first == first;
    }
  }

  // ---- Quotes play no part -----------------------------------------------------------------

  /** The characters that the second pass keeps as the end of a quoted part. */
  predicate IsEnd(c: char) {
    c == NUL || c == '"' || c == '\'' || c == '`' || c == ']'
  }

  /** Lines are broken in the same places whatever quoted part the text starts in: quotes protect nothing. */
  lemma {:induction false} QuotesIgnored(t: string, line: string, m: Mode, q: char)
    requires IsEnd(m.cEnd) && IsEnd(q)
    ensures Layout(t, line, m) == Layout(t, line, m.(cEnd := q))
    decreases |t|
  {
    hide Layout, Blanks;
    if t == "" {
      LayoutEnd(line, m);
      LayoutEnd(line, m.(cEnd := q));
    } else {
      var c := t[0];
      LayoutNext(t, line, m);
      LayoutNext(t, line, m.(cEnd := q));
      SameBreaks(m, q, c, line);
      var m1, m2 := Next(m, c), Next(m.(cEnd := q), c);
      hide Next, BreaksBefore, BreaksAfter;
      var line1 := if BreaksBefore(m, c, line) then "" else line;
      if BreaksAfter(m, c) {
        QuotesIgnored(t[1 + Blanks(t[1..])..], "", m1.(nLine := m.nLine + 1), m2.cEnd);
      } else {
        QuotesIgnored(t[1..], line1 + [c], m1, m2.cEnd);
      }
    }
  }

  lemma SameBreaks(m: Mode, q: char, c: char, line: string)
    requires IsEnd(m.cEnd) && IsEnd(q)
    ensures var m' := m.(cEnd := q);
            && BreaksBefore(m, c, line) == BreaksBefore(m', c, line) && BreaksAfter(m, c) == BreaksAfter(m', c)
            && IsEnd(Next(m, c).cEnd) && IsEnd(Next(m', c).cEnd) && Next(m', c) == Next(m, c).(cEnd := Next(m', c).cEnd)
  {
  }

  /** The layout at depth `depth` after `nLine` line breaks. */
  function LayoutAt(t: string, line: string, depth: int, nLine: nat): string {
    Layout(t, line, Mode(NUL, depth, nLine))
  }

  predicate EndsLine(c: char) {
    c == '(' || c == ',' || c == '\n'
  }

  /** How a line ends behind `c`. */
  function Ended(c: char, line: string): string {
    (if c == '\n' then line else line + [c]) + "\n  "
  }

  function DepthBehind(c: char, depth: int): int {
    depth + if c == '(' then 1 else if c == ')' then -1 else 0
  }

  /** A character that leaves the depth at 1 and ends the line. */
  lemma StepBreaks(c: char, t: string, line: string, depth: int, nLine: nat)
    requires DepthBehind(c, depth) == 1 && EndsLine(c)
    ensures LayoutAt([c] + t, line, depth, nLine) == Ended(c, line) + LayoutAt(t[Blanks(t)..], "", 1, nLine + 1)
  {
    hide *;
    var m := Mode(NUL, depth, nLine);
    NextDepth(m, c, line);
    AtMode([c] + t, line, depth, nLine);
    var u := t[Blanks(t)..];
    HeadBreaks(c, t, u, line, m);
    NextAt(m, c, u, "", nLine + 1);
  }

  /** The parenthesis that closes the outermost one, with something on the line. */
  lemma StepCloses(t: string, line: string, nLine: nat)
    requires nLine > 0 && line != ""
    ensures LayoutAt([')'] + t, line, 1, nLine) == line + "\n" + LayoutAt(t, [')'], 0, nLine)
  {
    hide Layout, LayoutAt, Next, BreaksBefore, BreaksAfter;
    var m := Mode(NUL, 1, nLine);
    NextDepth(m, ')', line);
    AtMode([')'] + t, line, 1, nLine);
    HeadCloses(')', t, line, m);
    NextAt(m, ')', t, [')'], nLine);
  }

  /** Any other character. */
  lemma StepPlain(c: char, t: string, line: string, depth: int, nLine: nat)
    requires var d := DepthBehind(c, depth); (d == 0 && nLine > 0 && c == ')' ==> line == "") && (d == 1 ==> !EndsLine(c))
    ensures LayoutAt([c] + t, line, depth, nLine) == LayoutAt(t, line + [c], DepthBehind(c, depth), nLine)
  {
    hide *;
    var m := Mode(NUL, depth, nLine);
    NextDepth(m, c, line);
    AtMode([c] + t, line, depth, nLine);
    HeadPlain(c, t, line, m);
    NextAt(m, c, t, line + [c], nLine);
  }

  lemma AtMode(t: string, line: string, depth: int, nLine: nat)
    ensures LayoutAt(t, line, depth, nLine) == Layout(t, line, Mode(NUL, depth, nLine))
  {
  }

  /** Behind `c` the layout goes on by depth alone. */
  lemma NextAt(m: Mode, c: char, t: string, line: string, k: nat)
    requires m.cEnd == NUL
    ensures Layout(t, line, Next(m, c).(nLine := k))
         == LayoutAt(t, line, DepthBehind(c, m.nParen), k)
  {
    NextDepth(m, c, line);
    hide Layout, Next;
    QuotesIgnored(t, line, Next(m, c).(nLine := k), NUL);
  }

  lemma HeadBreaks(c: char, t: string, u: string, line: string, m: Mode)
    requires !BreaksBefore(m, c, line) && BreaksAfter(m, c) && u == t[Blanks(t)..]
    ensures Layout([c] + t, line, m) == Ended(c, line) + Layout(u, "", Next(m, c).(nLine := m.nLine + 1))
  {
    hide Layout, Next, BreaksBefore, BreaksAfter, Blanks;
    var s := [c] + t;
    assert s[0] == c && s[1..] == t && s[1 + Blanks(t)..] == t[Blanks(t)..];
    LayoutNext(s, line, m);
    var own := if c == '\n' then line else line + [c];
    assert "" + own == own;
  }

  lemma HeadCloses(c: char, t: string, line: string, m: Mode)
    requires BreaksBefore(m, c, line) && !BreaksAfter(m, c)
    ensures Layout([c] + t, line, m) == line + "\n" + Layout(t, [c], Next(m, c).(nLine := m.nLine))
  {
    NextLine(m, c);
    hide Layout, Next, BreaksBefore, BreaksAfter;
    assert ([c] + t)[1..] == t;
    LayoutNext([c] + t, line, m);
    assert [] + [c] == [c];
  }

  lemma HeadPlain(c: char, t: string, line: string, m: Mode)
    requires !BreaksBefore(m, c, line) && !BreaksAfter(m, c)
    ensures Layout([c] + t, line, m) == Layout(t, line + [c], Next(m, c).(nLine := m.nLine))
  {
    NextLine(m, c);
    hide Layout, Next, BreaksBefore, BreaksAfter;
    assert ([c] + t)[1..] == t;
    LayoutNext([c] + t, line, m);
    var more := Layout(t, line + [c], Next(m, c));
    assert "" + more == more;
  }

  lemma NextLine(m: Mode, c: char)
    ensures Next(m, c).nLine == m.nLine
  {
  }

  lemma NextDepth(m: Mode, c: char, line: string)
    requires m.cEnd == NUL
    ensures var d := DepthBehind(c, m.nParen);
            && IsEnd(Next(m, c).cEnd) && Next(m, c) == Mode(Next(m, c).cEnd, d, m.nLine)
            && (BreaksBefore(m, c, line) <==> c == ')' && m.nLine > 0 && d == 0 && line != "")
            && (BreaksAfter(m, c) <==> d == 1 && EndsLine(c))
  {
  }

  // ---- A list of items ---------------------------------------------------------------------

  /** Parentheses close what they open, and outside them is no comma and no newline; `depth` are open at the begin. */
  predicate IsItem(u: string, depth: nat) {
    if u == "" then depth == 0
    else if u[0] == '(' then IsItem(u[1..], depth + 1)
    else if u[0] == ')' then depth > 0 && IsItem(u[1..], depth - 1)
    else (depth > 0 || (u[0] != ',' && u[0] != '\n')) && IsItem(u[1..], depth)
  }

  /** An item inside the outermost parenthesis stays on its line. */
  lemma {:induction false} ItemStays(u: string, depth: nat, t: string, line: string, nLine: nat)
    requires IsItem(u, depth)
    ensures LayoutAt(u + t, line, depth + 1, nLine) == LayoutAt(t, line + u, 1, nLine)
    decreases |u|
  {
    hide LayoutAt;
    if u == "" {
      assert u + t == t && line + u == line;
    } else {
      var c := u[0];
      var d: nat := if c == '(' then depth + 1 else if c == ')' then depth - 1 else depth;
      assert u + t == [c] + (u[1..] + t);
      StepPlain(c, u[1..] + t, line, depth + 1, nLine);
      ItemStays(u[1..], d, t, line + [c], nLine);
      assert line + [c] + u[1..] == line + u;
    }
  }

  predicate NoParens(u: string) {
    '(' !in u && ')' !in u
  }

  /** Text without parentheses stays on its line outside of all. */
  lemma {:induction false} OutsideStays(u: string, t: string, line: string, nLine: nat)
    requires NoParens(u)
    ensures LayoutAt(u + t, line, 0, nLine) == LayoutAt(t, line + u, 0, nLine)
    decreases |u|
  {
    hide LayoutAt;
    if u == "" {
      assert u + t == t && line + u == line;
    } else {
      assert u + t == [u[0]] + (u[1..] + t);
      StepPlain(u[0], u[1..] + t, line, 0, nLine);
      OutsideStays(u[1..], t, line + [u[0]], nLine);
      assert line + [u[0]] + u[1..] == line + u;
    }
  }

  /** Text that opens no parenthesis stays on its line behind the last one. */
  lemma {:induction false} TailStays(u: string, line: string, depth: int, nLine: nat)
    requires '(' !in u && depth <= 0
    ensures LayoutAt(u, line, depth, nLine) == line + u
    decreases |u|
  {
    hide LayoutAt;
    if u == "" {
      NothingLeft(line, depth, nLine);
      assert line + u == line;
    } else {
      var d := DepthBehind(u[0], depth);
      assert u == [u[0]] + u[1..];
      StepPlain(u[0], u[1..], line, depth, nLine);
      TailStays(u[1..], line + [u[0]], d, nLine);
      assert line + [u[0]] + u[1..] == line + u;
    }
  }

  lemma NothingLeft(line: string, depth: int, nLine: nat)
    ensures LayoutAt("", line, depth, nLine) == line
  {
  }

  /** Items with a comma between them. */
  function Listed(items: seq<string>): string
    requires items != []
  {
    if |items| == 1 then items[0] else items[0] + "," + Listed(items[1..])
  }

  /** The same, each on a line of its own behind two blanks, without the white space in front of it. */
  function Lines(items: seq<string>): string
    requires items != []
  {
    "\n  " + items[0][Blanks(items[0])..] + if |items| == 1 then "" else "," + Lines(items[1..])
  }

  /** Items that hold something besides white space. */
  predicate AreItems(items: seq<string>) {
    forall i :: 0 <= i < |items| ==> IsItem(items[i], 0) && Blanks(items[i]) < |items[i]|
  }

  lemma {:induction false} ItemTail(u: string, depth: nat, k: nat)
    requires IsItem(u, depth) && k <= |u| && forall i :: 0 <= i < k ==> u[i] != '(' && u[i] != ')'
    ensures IsItem(u[k..], depth)
    decreases k
  {
    if k > 0 {
      ItemTail(u[1..], depth, k - 1);
      assert u[1..][k - 1..] == u[k..];
    }
  }

  lemma BlanksAreNoParens(u: string)
    ensures forall i :: 0 <= i < Blanks(u) ==> u[i] != '(' && u[i] != ')'
  {
  }

  lemma BlanksBefore(u: string, t: string)
    requires Blanks(u) < |u|
    ensures Blanks(u + t) == Blanks(u) && (u + t)[Blanks(u)..] == u[Blanks(u)..] + t
    decreases |u|
  {
    if IsSpace(u[0]) {
      assert (u + t)[1..] == u[1..] + t;
      BlanksBefore(u[1..], t);
    }
  }

  /** At depth 1, a '(' or ',' that has been put on the line ends it. */
  lemma BreakBehind(c: char, t: string, line: string, nLine: nat)
    requires c == '(' || c == ','
    ensures LayoutAt([c] + t, line, if c == '(' then 0 else 1, nLine)
         == line + [c] + "\n  " + LayoutAt(t[Blanks(t)..], "", 1, nLine + 1)
  {
    hide LayoutAt, Blanks;
    StepBreaks(c, t, line, if c == '(' then 0 else 1, nLine);
  }

  lemma BreakInFront(t: string, line: string, nLine: nat)
    requires line != "" && nLine > 0
    ensures LayoutAt(")" + t, line, 1, nLine) == line + "\n" + LayoutAt(t, ")", 0, nLine)
  {
    hide LayoutAt;
    assert ")" == [')'];
    StepCloses(t, line, nLine);
  }

  /** The items from the first on, up to the text behind the list: each begins a line. */
  lemma {:induction false} ItemsBroken(items: seq<string>, tail: string, nLine: nat)
    requires items != [] && AreItems(items) && '(' !in tail && nLine > 0
    ensures LineOf(Listed(items) + (")" + tail), nLine) == Lines(items) + ("\n)" + tail)
    decreases |items|
  {
    var u := items[0];
    if |items| == 1 {
      LastItem(u, tail, nLine);
      hide LineOf;
    } else {
      OtherItems(items);
      ListedNext(items, ")" + tail);
      hide Listed, IsItem, LineOf, Lines;
      var rest := Listed(items[1..]) + (")" + tail);
      FirstItem(u, rest, nLine);
      ItemsBroken(items[1..], tail, nLine + 1);
      LinesNext(items, "\n)" + tail);
    }
  }

  /** A new line with the text `t`, without the white space in front of it. */
  function LineOf(t: string, nLine: nat): string {
    "\n  " + LayoutAt(t[Blanks(t)..], "", 1, nLine)
  }

  lemma LinesNext(items: seq<string>, end: string)
    requires |items| > 1
    ensures Lines(items) + end == "\n  " + items[0][Blanks(items[0])..] + "," + (Lines(items[1..]) + end)
  {
    hide Blanks;
    var v, more := items[0][Blanks(items[0])..], Lines(items[1..]);
    assert Lines(items) == "\n  " + v + ("," + more);
    hide *;
    CommaGroup("\n  " + v, more, end);
  }

  lemma CommaGroup(v: string, more: string, end: string)
    ensures v + ("," + more) + end == v + "," + (more + end)
  {
  }

  lemma OtherItems(items: seq<string>)
    requires |items| > 1 && AreItems(items)
    ensures AreItems(items[1..]) && IsItem(items[0], 0) && Blanks(items[0]) < |items[0]|
  {
    forall i | 0 <= i < |items| - 1 ensures IsItem(items[1..][i], 0) && Blanks(items[1..][i]) < |items[1..][i]| {
      assert items[1..][i] == items[i + 1];
    }
  }

  lemma ListedNext(items: seq<string>, end: string)
    requires |items| > 1
    ensures Listed(items) + end == items[0] + ("," + (Listed(items[1..]) + end))
  {
    assert items[0] + "," + Listed(items[1..]) + end == items[0] + ("," + (Listed(items[1..]) + end));
  }

  lemma Begins(u: string, t: string, nLine: nat)
    requires IsItem(u, 0) && Blanks(u) < |u|
    ensures LineOf(u + t, nLine) == "\n  " + LayoutAt(t, u[Blanks(u)..], 1, nLine)
  {
    hide LayoutAt, Blanks, IsItem;
    var v := u[Blanks(u)..];
    ItemTrim(u);
    BlanksBefore(u, t);
    ItemStays(v, 0, t, "", nLine);
    assert "" + v == v;
  }

  lemma ItemTrim(u: string)
    requires IsItem(u, 0)
    ensures IsItem(u[Blanks(u)..], 0)
  {
    hide Blanks;
    BlanksAreNoParens(u);
    ItemTail(u, 0, Blanks(u));
  }

  /** An item that a comma follows. */
  lemma FirstItem(u: string, rest: string, nLine: nat)
    requires IsItem(u, 0) && Blanks(u) < |u|
    ensures LineOf(u + ("," + rest), nLine) == "\n  " + u[Blanks(u)..] + "," + LineOf(rest, nLine + 1)
  {
    hide LayoutAt, Blanks, IsItem;
    var v := u[Blanks(u)..];
    Begins(u, "," + rest, nLine);
    assert "," + rest == [','] + rest;
    BreakBehind(',', rest, v, nLine);
    var more := LayoutAt(rest[Blanks(rest)..], "", 1, nLine + 1);
    Regrouped(v, ",", more);
  }

  lemma Regrouped(v: string, c: string, more: string)
    ensures "\n  " + (v + c + "\n  " + more) == "\n  " + v + c + ("\n  " + more)
  {
  }

  /** The item that the closing parenthesis follows. */
  lemma LastItem(u: string, tail: string, nLine: nat)
    requires IsItem(u, 0) && Blanks(u) < |u| && '(' !in tail && nLine > 0
    ensures LineOf(u + (")" + tail), nLine) == "\n  " + u[Blanks(u)..] + "" + ("\n)" + tail)
  {
    hide LayoutAt, Blanks, IsItem, LineOf;
    var v := u[Blanks(u)..];
    Begins(u, ")" + tail, nLine);
    BreakInFront(tail, v, nLine);
    TailStays(tail, ")", 0, nLine);
    EndGroup(v, tail);
  }

  lemma EndGroup(v: string, tail: string)
    ensures "\n  " + (v + "\n" + (")" + tail)) == "\n  " + v + "" + ("\n)" + tail)
  {
  }

  /** A text with one list in parentheses: what is in front of it, each item on a line of its own, the rest on the last
      line. */
  lemma ListLayout(head: string, items: seq<string>, tail: string)
    requires NoParens(head) && items != [] && AreItems(items) && '(' !in tail
    ensures Layout(head + "(" + Listed(items) + ")" + tail, "", Mode(NUL, 0, 0))
         == head + "(" + Lines(items) + "\n)" + tail
  {
    hide LayoutAt, Blanks, Listed, Lines, IsItem;
    var t := Listed(items) + (")" + tail);
    assert head + "(" + Listed(items) + ")" + tail == head + (['('] + t);
    AtIs(head + (['('] + t));
    OutsideStays(head, ['('] + t, "", 0);
    assert "" + head == head;
    BreakBehind('(', t, head, 0);
    ItemsBroken(items, tail, 1);
    assert head + ['('] + "\n  " + LayoutAt(t[Blanks(t)..], "", 1, 1) == head + "(" + LineOf(t, 1);
    assert head + "(" + (Lines(items) + ("\n)" + tail)) == head + "(" + Lines(items) + "\n)" + tail;
  }

  lemma AtIs(t: string)
    ensures Layout(t, "", Mode(NUL, 0, 0)) == LayoutAt(t, "", 0, 0)
  {
  }

  // ---- Quoted parts ------------------------------------------------------------------------

  predicate Breaks(c: char) {
    c == ',' || c == '\n'
  }

  /** White space stands alone. */
  predicate Thin(u: string) {
    forall i :: 0 <= i < |u| - 1 ==> !(IsSpace(u[i]) && IsSpace(u[i + 1]))
  }

  /** Text at depth 1 with a comma or a newline in it grows: there is a line break in it. */
  lemma {:induction false} Grows(u: string, line: string, nLine: nat)
    requires NoParens(u) && Thin(u)
    ensures |LayoutAt(u, line, 1, nLine)| >= |line| + |u|
    ensures (exists i :: 0 <= i < |u| && Breaks(u[i])) ==> |LayoutAt(u, line, 1, nLine)| > |line| + |u|
    decreases |u|
  {
    hide LayoutAt;
    if u == "" {
      NothingLeft(line, 1, nLine);
    } else {
      var c, t := u[0], u[1..];
      assert u == [c] + t;
      if Breaks(c) {
        StepBreaks(c, t, line, 1, nLine);
        ThinBlanks(c, t);
        Grows(t[Blanks(t)..], "", nLine + 1);
      } else {
        StepPlain(c, t, line, 1, nLine);
        Grows(t, line + [c], nLine);
      }
    }
  }

  lemma ThinBlanks(c: char, t: string)
    requires Thin([c] + t)
    ensures Thin(t) && Blanks(t) <= 1 && (c == '\n' ==> Blanks(t) == 0)
  {
    var u := [c] + t;
    assert Thin(t) by {
      forall i | 0 <= i < |t| - 1 ensures !(IsSpace(t[i]) && IsSpace(t[i + 1])) {
        assert t[i] == u[i + 1] && t[i + 1] == u[i + 2];
      }
    }
    if t != "" { assert u[0] == c && u[1] == t[0]; }
    BlanksShort(t);
  }

  lemma BlanksShort(t: string)
    requires |t| > 1 ==> !(IsSpace(t[0]) && IsSpace(t[1]))
    ensures Blanks(t) == if t != "" && IsSpace(t[0]) then 1 else 0
  {
  }

  predicate IsQuote(q: char) {
    q == '"' || q == '\'' || q == '`'
  }

  /** A quoted part of a list item stays on its line exactly when it holds no comma and no newline: the quotes do not
      protect it. */
  lemma QuotedUnbroken(q: char, body: string, line: string, nLine: nat)
    requires IsQuote(q) && NoParens(body) && Thin([q] + body + [q])
    ensures LayoutAt([q] + body + [q], line, 1, nLine) == line + ([q] + body + [q]) <==> ',' !in body && '\n' !in body
  {
    hide LayoutAt;
    var u := [q] + body + [q];
    Grows(u, line, nLine);
    if ',' in body || '\n' in body {
      var i :| 0 <= i < |body| && Breaks(body[i]);
      assert u[i + 1] == body[i];
    } else {
      forall i | 0 <= i < |u| ensures !Breaks(u[i]) {
        assert u[i] == if 0 < i <= |body| then body[i - 1] else q;
      }
      PlainIsItem(u);
      ItemStays(u, 0, "", line, nLine);
      assert u + "" == u;
      NothingLeft(line + u, 1, nLine);
    }
  }

  lemma {:induction false} PlainIsItem(u: string)
    requires NoParens(u) && forall i :: 0 <= i < |u| ==> !Breaks(u[i])
    ensures IsItem(u, 0)
    decreases |u|
  {
    if u != "" { PlainIsItem(u[1..]); }
  }

  /** Such a part with a comma is broken in two. */
  lemma QuotedComma()
    ensures Layout("t(\"a,b\")", "", Mode(NUL, 0, 0)) == "t(\n  \"a,\n  b\"\n)"
  {
    var items := ["\"a", "b\""];
    Simple("\"a");
    Simple("b\"");
    ListLayout("t", items, "");
    TwoItems("\"a", "b\"");
    hide *;
    JoinedQuote();
    BrokenQuote();
  }

  lemma JoinedQuote()
    ensures "t" + "(" + ("\"a" + "," + "b\"") + ")" + "" == "t(\"a,b\")"
  {
    assert "\"a" + "," + "b\"" == "\"a,b\"";
    assert "t" + "(" == "t(" && "t(" + "\"a,b\"" == "t(\"a,b\"";
  }

  lemma BrokenQuote()
    ensures "t" + "(" + ("\n  " + "\"a" + "," + "\n  " + "b\"") + "\n)" + "" == "t(\n  \"a,\n  b\"\n)"
  {
    assert "\n  " + "\"a" == "\n  \"a" && "\n  \"a" + "," == "\n  \"a,";
    assert "\n  \"a," + "\n  " == "\n  \"a,\n  " && "\n  \"a,\n  " + "b\"" == "\n  \"a,\n  b\"";
    assert "t" + "(" == "t(" && "t(" + "\n  \"a,\n  b\"" == "t(\n  \"a,\n  b\"";
  }

  lemma TwoItems(u: string, v: string)
    requires u != "" && v != "" && !IsSpace(u[0]) && !IsSpace(v[0])
    ensures Listed([u, v]) == u + "," + v && Lines([u, v]) == "\n  " + u + "," + "\n  " + v
  {
    assert [u, v][1..] == [v];
    Unspaced(u);
    Unspaced(v);
    assert Lines([v]) == "\n  " + v + "" == "\n  " + v;
    assert "\n  " + u + ("," + ("\n  " + v)) == "\n  " + u + "," + "\n  " + v;
  }

  lemma Simple(u: string)
    requires u != "" && NoParens(u) && !IsSpace(u[0]) && forall i :: 0 <= i < |u| ==> !Breaks(u[i])
    ensures IsItem(u, 0) && Blanks(u) < |u|
  {
    PlainIsItem(u);
  }

  lemma Unspaced(u: string)
    requires u != "" && !IsSpace(u[0])
    ensures u[Blanks(u)..] == u
  {
  }

  // ---- Which texts are laid out ------------------------------------------------------------

  /** A schema text that fits in 78 characters stays on one line, and a longer one is laid out. */
  lemma PrintedWidth(arg: string)
    ensures |Compact(arg)| <= 78 ==> Printed(arg, false) == Compact(arg) + ";\n"
    ensures |Compact(arg)| > 78 ==> Printed(arg, false) == Layout(Compact(arg), "", Mode(NUL, 0, 0)) + ";\n"
    ensures Printed(arg, true) == arg + ";\n"
  {
  }
}
