/** What `testcase_glob` promises, said without the model's own reading of patterns: a pattern is built from elements, and
    a text fits it when it can be cut into one piece for each element, with white space left over. */
module GlobReference {
  import opened CText
  import opened Glob
  import opened GlobComment

  /** A member of a bracket list: a character, or a span of characters. */
  datatype Member = Single(c: char) | Span(lo: char, hi: char)

  /** An element of a pattern.  In a list, `bracket` puts a closing bracket first and `dash` a '-' last. */
  datatype Elem =
    | Char(c: char)
    | Blank(g: string)
    | AnyText
    | AnyChar
    | Digits
    | OneOf(negated: bool, bracket: bool, members: seq<Member>, dash: bool)

  // ---- How elements are written ------------------------------------------------------------

  function MembersText(ms: seq<Member>): string {
    if ms == [] then ""
    else (match ms[0] case Single(c) => [c] case Span(lo, hi) => [lo, '-', hi]) + MembersText(ms[1..])
  }

  function ListText(e: Elem): string
    requires e.OneOf?
  {
    (if e.bracket then "]" else "") + (MembersText(e.members) + ((if e.dash then "-" else "") + "]"))
  }

  function ElemText(e: Elem): string {
    match e
    case Char(c) => [c]
    case Blank(g) => g
    case AnyText => "*"
    case AnyChar => "?"
    case Digits => "#"
    case OneOf(negated, _, _, _) => "[" + ((if negated then "^" else "") + ListText(e))
  }

  function Text(es: seq<Elem>): string {
    if es == [] then "" else ElemText(es[0]) + Text(es[1..])
  }

  /** The white space of the C locale: tab, newline, vertical tab, form feed, carriage return and blank. */
  predicate White(c: char) {
    c as int in {9, 10, 11, 12, 13, 32}
  }

  predicate AllWhite(s: string) {
    forall i :: 0 <= i < |s| ==> White(s[i])
  }

  /** 7-bit characters that mean nothing in a list. */
  predicate PlainMember(c: char) {
    0 < c as int < 128 && c != ']' && c != '-' && c != '^'
  }

  predicate Writable(e: Elem) {
    match e
    case Char(c) => !White(c) && c !in "*?[#"
    case Blank(g) => g != "" && AllWhite(g)
    case OneOf(_, bracket, members, dash) =>
      PlainMembers(members) && (bracket || dash || members != [])
    case _ => true
  }

  predicate AllWritable(es: seq<Elem>) {
    es == [] || (Writable(es[0]) && (|es| > 1 ==> !(es[0].Blank? && es[1].Blank?)) && AllWritable(es[1..]))
  }

  // ---- What a text must be -----------------------------------------------------------------

  predicate IsDecimal(c: char) {
    c in "0123456789"
  }

  /** The span takes in its first character even when it ends before it starts. */
  predicate Among(c: char, ms: seq<Member>) {
    exists i :: 0 <= i < |ms| && match ms[i] case Single(x) => c == x case Span(lo, hi) => c == lo || lo <= c <= hi
  }

  predicate Listed(c: char, e: Elem)
    requires e.OneOf?
  {
    (e.bracket && c == ']') || Among(c, e.members) || (e.dash && c == '-')
  }

  /** A sign or none, and one digit or more. */
  predicate IsNumeral(w: string) {
    AllDecimal(w) || (w != "" && (w[0] == '+' || w[0] == '-') && AllDecimal(w[1..]))
  }

  predicate AllDecimal(d: string) {
    d != "" && forall i :: 0 <= i < |d| ==> IsDecimal(d[i])
  }

  /** The element may stand for `w` where `rest` follows; white space and numbers are taken whole. */
  predicate Stands(e: Elem, w: string, rest: string) {
    match e
    case Char(c) => w == [c]
    case Blank(_) => w != "" && AllWhite(w) && (rest == "" || !White(rest[0]))
    case AnyText => true
    case AnyChar => |w| == 1
    case Digits => IsNumeral(w) && (rest == "" || !IsDecimal(rest[0]))
    case OneOf(negated, _, _, _) => |w| == 1 && Listed(w[0], e) != negated
  }

  ghost predicate Fits(es: seq<Elem>, z: string)
    decreases |es|
  {
    if es == [] then AllWhite(z)
    else exists n: nat :: n <= |z| && Stands(es[0], z[..n], z[n..]) && Fits(es[1..], z[n..])
  }

  // ---- Bracket lists -----------------------------------------------------------------------

  predicate PlainMembers(ms: seq<Member>) {
    forall i :: 0 <= i < |ms| ==>
      match ms[i] case Single(c) => PlainMember(c) case Span(lo, hi) => PlainMember(lo) && PlainMember(hi)
  }

  function MemberItems(ms: seq<Member>): seq<Item> {
    if ms == [] then []
    else (match ms[0] case Single(c) => [One(c)] case Span(lo, hi) => [One(lo), Range(lo, hi)]) + MemberItems(ms[1..])
  }

  function ListItems(e: Elem): seq<Item>
    requires e.OneOf?
  {
    (if e.bracket then [One(']')] else []) + (MemberItems(e.members) + if e.dash then [One('-')] else [])
  }

  lemma PrependSeq(i: Item, items: seq<Item>, rest: string)
    ensures Prepend(i, Closed(items, rest)) == Closed([i] + items, rest)
  {
  }

  lemma SingleRead(c: char, p: string, prior: char)
    requires PlainMember(c)
    ensures Items([c] + p, prior) == Prepend(One(c), Items(p, c))
  {
    assert ([c] + p)[1..] == p;
  }

  lemma SpanRead(lo: char, hi: char, p: string, prior: char)
    requires PlainMember(lo) && PlainMember(hi)
    ensures Items([lo, '-', hi] + p, prior) == Prepend(One(lo), Prepend(Range(lo, hi), Items(p, NUL)))
  {
    var s := ['-', hi] + p;
    assert [lo, '-', hi] + p == [lo] + s;
    SingleRead(lo, s, prior);
    assert s[2..] == p;
  }

  lemma EndRead(dash: bool, rest: string, prior: char)
    ensures Items((if dash then "-" else "") + "]" + rest, prior) == Closed(if dash then [One('-')] else [], rest)
  {
    var s := (if dash then "-" else "") + "]" + rest;
    if dash {
      assert s[1..] == "]" + rest && ("]" + rest)[1..] == rest;
    } else {
      assert s == "]" + rest && s[1..] == rest;
    }
  }

  lemma Regroup<T>(a: seq<T>, b: seq<T>, c: seq<T>)
    ensures (a + b) + c == a + (b + c)
  {
  }

  lemma {:induction false} MembersRead(ms: seq<Member>, dash: bool, rest: string, prior: char)
    requires PlainMembers(ms)
    ensures Items(MembersText(ms) + ((if dash then "-" else "") + "]" + rest), prior)
         == Closed(MemberItems(ms) + (if dash then [One('-')] else []), rest)
    decreases |ms|
  {
    hide Items, PlainMember;
    var tail := (if dash then "-" else "") + "]" + rest;
    var end: seq<Item> := if dash then [One('-')] else [];
    if ms == [] {
      EndRead(dash, rest, prior);
      assert MembersText(ms) + tail == tail && MemberItems(ms) + end == end;
    } else {
      var more := MembersText(ms[1..]) + tail;
      var items := MemberItems(ms[1..]) + end;
      match ms[0]
      case Single(c) =>
        MembersRead(ms[1..], dash, rest, c);
        SingleRead(c, more, prior);
        Regroup([c], MembersText(ms[1..]), tail);
        Regroup([One(c)], MemberItems(ms[1..]), end);
      case Span(lo, hi) =>
        MembersRead(ms[1..], dash, rest, NUL);
        SpanRead(lo, hi, more, prior);
        Regroup([lo, '-', hi], MembersText(ms[1..]), tail);
        Regroup([One(lo), Range(lo, hi)], MemberItems(ms[1..]), end);
        assert [One(lo), Range(lo, hi)] + items == [One(lo)] + ([Range(lo, hi)] + items);
    }
  }

  /** A list is read as its members. */
  lemma ListRead(e: Elem, rest: string)
    requires e.OneOf? && Writable(e)
    ensures List(ListText(e) + rest) == Closed(ListItems(e), rest)
    ensures ListText(e)[0] != '^'
  {
    hide Items;
    var body := MembersText(e.members) + ((if e.dash then "-" else "") + "]" + rest);
    var items := MemberItems(e.members) + if e.dash then [One('-')] else [];
    MembersRead(e.members, e.dash, rest, NUL);
    if e.bracket {
      assert ListText(e) + rest == "]" + body && ("]" + body)[1..] == body;
      assert ListItems(e) == [One(']')] + items;
    } else {
      assert ListText(e) + rest == body && ListItems(e) == items;
      if e.members != [] { FirstOfMembers(e.members); }
    }
  }

  /** A byte of 128 or more cannot start a span: it, the '-' and what follows are three members. */
  lemma HighSpan(lo: char, hi: char, rest: string)
    requires 128 <= lo as int < 256 && PlainMember(hi)
    ensures List([lo, '-', hi] + "]" + rest) == Closed([One(lo), One('-'), One(hi)], rest)
  {
    var p2, p3 := [hi] + "]" + rest, "]" + rest;
    var p1 := ['-'] + p2;
    assert [lo, '-', hi] + "]" + rest == [lo] + p1;
    assert ([lo] + p1)[1..] == p1 && p1[1..] == p2 && p2[1..] == p3 && p3[1..] == rest;
    assert Items(p3, hi) == Closed([], rest);
    assert p2[0] == hi && p1[0] == '-' && Signed(lo) < 0;
    assert Items(p2, '-') == Prepend(One(hi), Items(p3, hi));
    assert Items(p1, lo) == Prepend(One('-'), Items(p2, '-'));
    assert List([lo] + p1) == Items([lo] + p1, NUL) == Prepend(One(lo), Items(p1, lo));
    PrependSeq(One(hi), [], rest);
    PrependSeq(One('-'), [One(hi)] + [], rest);
    PrependSeq(One(lo), [One('-')] + ([One(hi)] + []), rest);
    assert [One(lo)] + ([One('-')] + ([One(hi)] + [])) == [One(lo), One('-'), One(hi)];
  }

  lemma FirstOfMembers(ms: seq<Member>)
    requires PlainMembers(ms) && ms != []
    ensures MembersText(ms) != "" && MembersText(ms)[0] != ']' && MembersText(ms)[0] != '^'
  {
  }

  // ---- Elements and tokens -----------------------------------------------------------------

  function TokFor(e: Elem): Tok {
    match e
    case Char(c) => Lit(c)
    case Blank(_) => Space
    case AnyText => Star
    case AnyChar => Any
    case Digits => Number
    case OneOf(negated, _, _, _) => Class(negated, ListItems(e))
  }

  function Toks(es: seq<Elem>): (ts: seq<Tok>)
    ensures |ts| == |es| && forall i :: 0 <= i < |es| ==> ts[i] == TokFor(es[i])
  {
    if es == [] then [] else [TokFor(es[0])] + Toks(es[1..])
  }

  lemma WhiteIs(c: char)
    ensures White(c) <==> IsSpace(c)
  {
  }

  lemma DecimalIs(c: char)
    ensures IsDecimal(c) <==> IsDigit(c)
  {
  }

  lemma AllWhiteIs(s: string)
    ensures AllWhite(s) <==> AllSpace(s)
  {
    forall i | 0 <= i < |s| ensures White(s[i]) <==> IsSpace(s[i]) { WhiteIs(s[i]); }
  }

  /** No text of an element other than `Blank` starts with white space. */
  lemma FirstNotWhite(e: Elem, rest: string)
    requires Writable(e) && !e.Blank?
    ensures ElemText(e) != "" && !IsSpace((ElemText(e) + rest)[0])
  {
    if e.Char? { WhiteIs(e.c); }
  }

  lemma BlankRead(g: string, rest: string, starred: bool)
    requires g != "" && AllWhite(g) && (rest == "" || !IsSpace(rest[0]))
    ensures Parse(g + rest, starred, false) == [Space] + Parse(rest, false, false)
  {
    var p := g + rest;
    AllWhiteIs(g);
    assert IsSpace(g[0]) && p[0] == g[0];
    var tail := p[1..];
    assert forall i :: 0 <= i < |g| - 1 ==> tail[i] == g[i + 1];
    BlanksIs(tail, |g| - 1);
    assert p[1 + (|g| - 1)..] == rest;
  }

  lemma BlanksIs(s: string, n: nat)
    requires n <= |s| && (forall i :: 0 <= i < n ==> IsSpace(s[i])) && (n < |s| ==> !IsSpace(s[n]))
    ensures Blanks(s) == n
  {
  }

  lemma CharRead(e: Elem, rest: string, starred: bool)
    requires Writable(e) && !e.Blank? && !e.OneOf?
    ensures Parse(ElemText(e) + rest, starred, false) == [TokFor(e)] + Parse(rest, e == AnyText || (e == AnyChar && starred), false)
  {
    assert (ElemText(e) + rest)[1..] == rest;
    if e.Char? { WhiteIs(e.c); }
  }

  lemma OneOfRead(e: Elem, rest: string, starred: bool)
    requires Writable(e) && e.OneOf?
    ensures Parse(ElemText(e) + rest, starred, false) == [TokFor(e)] + Parse(rest, false, false)
  {
    hide List, ListText, ListItems, Parse;
    ListRead(e, rest);
    ListNotEmpty(e);
    var mark := if e.negated then "^" else "";
    var body := ListText(e) + rest;
    assert ElemText(e) + rest == "[" + (mark + body);
    assert body[0] == ListText(e)[0];
    ClosedParse(e.negated, body, ListItems(e), rest, starred);
  }

  lemma ClosedParse(negated: bool, body: string, items: seq<Item>, rest: string, starred: bool)
    requires body != "" && body[0] != '^' && List(body) == Closed(items, rest)
    ensures Parse("[" + ((if negated then "^" else "") + body), starred, false) == [Class(negated, items)] + Parse(rest, false, false)
  {
    hide List;
    var q := (if negated then "^" else "") + body;
    var p := "[" + q;
    assert p[1..] == q;
    if negated {
      assert q[0] == '^' && p[2..] == q[1..] == body;
    } else {
      assert q == body;
    }
  }

  lemma ListNotEmpty(e: Elem)
    requires e.OneOf?
    ensures ListText(e) != ""
  {
  }

  /** A pattern is read as its elements. */
  lemma {:induction false} TextRead(es: seq<Elem>, starred: bool)
    requires AllWritable(es)
    ensures Parse(Text(es), starred, false) == Toks(es)
    decreases |es|
  {
    hide Parse, ElemText, TokFor, Writable;
    if es == [] {
      NothingRead(starred);
    } else {
      var e, rest := es[0], Text(es[1..]);
      if e.Blank? {
        BlankWritable(e);
        if |es| > 1 { FirstNotWhite(es[1], Text(es[1..][1..])); }
        BlankRead(e.g, rest, starred);
        TextRead(es[1..], false);
      } else if e.OneOf? {
        OneOfRead(e, rest, starred);
        TextRead(es[1..], false);
      } else {
        CharRead(e, rest, starred);
        TextRead(es[1..], e == AnyText || (e == AnyChar && starred));
      }
    }
  }

  lemma NothingRead(starred: bool)
    ensures Parse("", starred, false) == []
  {
  }

  lemma BlankWritable(e: Elem)
    requires e.Blank? && Writable(e)
    ensures e.g != "" && AllWhite(e.g) && ElemText(e) == e.g && TokFor(e) == Space
  {
  }

  // ---- Tokens and pieces -------------------------------------------------------------------

  lemma InConcat(c: char, a: seq<Item>, b: seq<Item>)
    ensures InItems(c, a + b) <==> InItems(c, a) || InItems(c, b)
  {
    var s := a + b;
    assert forall i :: 0 <= i < |a| ==> s[i] == a[i];
    assert forall i :: 0 <= i < |b| ==> s[|a| + i] == b[i];
    if InItems(c, b) {
      var i :| 0 <= i < |b| && InItem(c, b[i]);
      assert InItem(c, s[|a| + i]);
    }
    if i :| 0 <= i < |s| && InItem(c, s[i]) {
      if i >= |a| { assert InItem(c, b[i - |a|]); }
    }
  }

  lemma InOne(c: char, x: char)
    ensures InItems(c, [One(x)]) <==> c == x
  {
    assert [One(x)][0] == One(x);
  }

  lemma InSpan(c: char, lo: char, hi: char)
    requires IsByte(c) && PlainMember(lo) && PlainMember(hi)
    ensures InItems(c, [One(lo), Range(lo, hi)]) <==> c == lo || lo <= c <= hi
  {
    var items := [One(lo), Range(lo, hi)];
    assert items[0] == One(lo) && items[1] == Range(lo, hi);
  }

  lemma {:induction false} InMembers(c: char, ms: seq<Member>)
    requires IsByte(c) && PlainMembers(ms)
    ensures InItems(c, MemberItems(ms)) <==> Among(c, ms)
    decreases |ms|
  {
    hide InItems;
    if ms == [] {
      InNone(c);
    } else {
      var m, more := ms[0], ms[1..];
      InMembers(c, more);
      AmongMore(c, ms);
      match m
      case Single(x) =>
        InConcat(c, [One(x)], MemberItems(more));
        InOne(c, x);
      case Span(lo, hi) =>
        InConcat(c, [One(lo), Range(lo, hi)], MemberItems(more));
        InSpan(c, lo, hi);
    }
  }

  lemma InNone(c: char)
    ensures !InItems(c, [])
  {
  }

  predicate InMember(c: char, m: Member) {
    match m case Single(x) => c == x case Span(lo, hi) => c == lo || lo <= c <= hi
  }

  lemma AmongMore(c: char, ms: seq<Member>)
    requires ms != []
    ensures Among(c, ms) <==> InMember(c, ms[0]) || Among(c, ms[1..])
  {
    assert forall i :: 0 <= i < |ms| - 1 ==> ms[1..][i] == ms[i + 1];
  }

  lemma InList(c: char, e: Elem)
    requires IsByte(c) && e.OneOf? && Writable(e)
    ensures InItems(c, ListItems(e)) <==> Listed(c, e)
  {
    hide InItems, Among;
    InMembers(c, e.members);
    InNone(c);
    InOne(c, ']');
    InOne(c, '-');
    var end := if e.dash then [One('-')] else [];
    InConcat(c, MemberItems(e.members), end);
    InConcat(c, if e.bracket then [One(']')] else [], MemberItems(e.members) + end);
  }

  lemma NumeralIs(z: string, n: nat)
    requires n <= |z|
    ensures IsNumber(z, n) <==> IsNumeral(z[..n]) && (n == |z| || !IsDecimal(z[n]))
  {
    forall i | 0 <= i < |z| ensures IsDecimal(z[i]) <==> IsDigit(z[i]) { DecimalIs(z[i]); }
    var w := z[..n];
    if n > 0 {
      assert w[0] == z[0];
      assert forall i :: 0 <= i < n - 1 ==> w[1..][i] == z[i + 1];
      if IsNumber(z, n) {
        var d := if IsSign(z[0]) then 1 else 0;
        assert forall i :: d <= i < n ==> IsDecimal(w[i]);
      }
      if AllDecimal(w) { assert IsDecimal(w[0]); }
    }
  }

  // ---- One token, whatever follows ---------------------------------------------------------

  /** A number takes a sign or none and one decimal digit or more, and no digit follows. */
  lemma NumberLaw(ts: seq<Tok>, z: string)
    ensures Matches([Number] + ts, z) <==>
            exists n: nat :: n <= |z| && IsNumeral(z[..n]) && (n == |z| || !IsDecimal(z[n])) && Matches(ts, z[n..])
  {
    hide IsNumber, IsNumeral, IsDecimal;
    assert ([Number] + ts)[1..] == ts;
    forall n: nat | n <= |z| ensures Takes(Number, z, n) <==> IsNumeral(z[..n]) && (n == |z| || !IsDecimal(z[n])) {
      NumeralIs(z, n);
    }
  }

  /** White space takes one character or more, and none follows. */
  lemma SpaceLaw(ts: seq<Tok>, z: string)
    ensures Matches([Space] + ts, z) <==>
            exists n: nat :: 0 < n <= |z| && AllWhite(z[..n]) && (n == |z| || !White(z[n])) && Matches(ts, z[n..])
  {
    assert ([Space] + ts)[1..] == ts;
    forall n: nat | n <= |z| ensures Takes(Space, z, n) <==> n > 0 && AllWhite(z[..n]) && (n == |z| || !White(z[n])) {
      AllWhiteIs(z[..n]);
      if n < |z| { WhiteIs(z[n]); }
    }
  }

  /** '?' takes one character, a list one that it accepts. */
  lemma OneCharLaw(t: Tok, ts: seq<Tok>, z: string)
    requires t.Any? || t.Class?
    ensures Matches([t] + ts, z) <==> z != "" && (t.Class? ==> Accepts(t, z[0])) && Matches(ts, z[1..])
  {
    assert ([t] + ts)[1..] == ts;
    if z != "" { assert Takes(t, z, 1) <==> (t.Class? ==> Accepts(t, z[0])); }
  }

  lemma TakesStands(e: Elem, z: string, n: nat)
    requires Writable(e) && Bytes(z) && n <= |z|
    ensures Takes(TokFor(e), z, n) <==> Stands(e, z[..n], z[n..])
  {
    match e
    case Blank(_) =>
      AllWhiteIs(z[..n]);
      if n < |z| { WhiteIs(z[n]); }
    case Digits => NumeralIs(z, n);
    case OneOf(_, _, _, _) => if n == 1 { InList(z[0], e); }
    case _ =>
  }

  lemma {:induction false} MatchesFits(es: seq<Elem>, z: string)
    requires AllWritable(es) && Bytes(z)
    ensures Matches(Toks(es), z) <==> Fits(es, z)
    decreases |es|
  {
    hide Takes, Stands, TokFor, Writable;
    if es == [] {
      AllWhiteIs(z);
    } else {
      forall n: nat | n <= |z|
        ensures Takes(Toks(es)[0], z, n) && Matches(Toks(es)[1..], z[n..]) <==> Stands(es[0], z[..n], z[n..]) && Fits(es[1..], z[n..])
      {
        TakesStands(es[0], z, n);
        MatchesFits(es[1..], z[n..]);
        assert Toks(es)[1..] == Toks(es[1..]);
      }
    }
  }

  // ---- The pattern as a whole --------------------------------------------------------------

  /** Elements `es[i..j]` are a run of '*' and '?' that starts with '*', and `es[j]` is white space or '#'. */
  predicate SpanAfterRunAt(es: seq<Elem>, i: nat, j: nat) {
    && i < j < |es| && es[i] == AnyText && (es[j].Blank? || es[j] == Digits)
    && forall x :: i < x < j ==> es[x] == AnyText || es[x] == AnyChar
  }

  ghost predicate SpanAfterRun(es: seq<Elem>) {
    exists i: nat, j: nat :: SpanAfterRunAt(es, i, j)
  }

  lemma SpanAfterRunIs(es: seq<Elem>)
    ensures RunMeetsSpan(Toks(es)) <==> SpanAfterRun(es)
  {
    hide TokFor;
    forall i: nat, j: nat ensures RunMeetsSpanAt(Toks(es), i, j) <==> SpanAfterRunAt(es, i, j) {
      if i < j < |es| {
        forall x | 0 <= x < |es|
          ensures (Toks(es)[x] == Star <==> es[x] == AnyText) && (Toks(es)[x] == Any <==> es[x] == AnyChar)
          ensures (Toks(es)[x] == Space || Toks(es)[x] == Number) <==> (es[x].Blank? || es[x] == Digits)
        {
          KindOf(es[x]);
        }
      }
    }
  }

  lemma KindOf(e: Elem)
    ensures (TokFor(e) == Star <==> e == AnyText) && (TokFor(e) == Any <==> e == AnyChar)
    ensures (TokFor(e) == Space || TokFor(e) == Number) <==> (e.Blank? || e == Digits)
  {
  }

  /** The comment's reading of a pattern means what its elements say. */
  lemma DescribedFits(es: seq<Elem>, z: string)
    requires AllWritable(es) && Bytes(z)
    ensures Matches(Described(Text(es)), z) <==> Fits(es, z)
  {
    TextRead(es, false);
    MatchesFits(es, z);
  }

  /** `testcase_glob` decides whether the text fits the pattern, unless a run is followed by white space or '#'. */
  lemma GlobDecides(es: seq<Elem>, z: string)
    requires AllWritable(es) && Bytes(z) && !SpanAfterRun(es)
    ensures Left(Text(es), 0, false, z, 0) <==> Fits(es, z)
  {
    hide Parse, Matches, Fits;
    DescribedFits(es, z);
    TextRead(es, false);
    SpanAfterRunIs(es);
    CodedIsDescribed(Text(es));
    assert Text(es)[0..] == Text(es) && z[0..] == z;
  }
}
