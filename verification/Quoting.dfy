/** Quoting by doubling (`output_quoted_string`, `appendText`, `set_table_name`) and HTML escaping (`output_html_string`). */
module Quoting {
  import opened CText
  import opened Options

  // ---- Doubled quotes ----------------------------------------------------------------------

  function Twice(c: char, q: char): string {
    if c == q then [q, q] else [c]
  }

  /** `s` with every `q` doubled. */
  function Doubled(s: string, q: char): string {
    if s == [] then [] else Twice(s[0], q) + Doubled(s[1..], q)
  }

  /** `s` as a literal between quotes `q`. */
  function Quoted(s: string, q: char): string {
    [q] + Doubled(s, q) + [q]
  }

  lemma {:induction false} DoubledAppend(a: string, b: string, q: char)
    ensures Doubled(a + b, q) == Doubled(a, q) + Doubled(b, q)
  {
    if a == [] {
      assert a + b == b;
    } else {
      assert (a + b)[1..] == a[1..] + b;
      DoubledAppend(a[1..], b, q);
    }
  }

  lemma DoubledNext(s: string, i: nat, q: char)
    requires i < |s|
    ensures Doubled(s[..i + 1], q) == Doubled(s[..i], q) + Twice(s[i], q)
  {
    assert s[..i + 1] == s[..i] + [s[i]];
    DoubledAppend(s[..i], [s[i]], q);
    assert [s[i]][1..] == [];
    assert Doubled([s[i]], q) == Twice(s[i], q);
  }

  lemma {:induction false} DoubledPlain(s: string, q: char)
    requires forall i :: 0 <= i < |s| ==> s[i] != q
    ensures Doubled(s, q) == s
  {
    if s != [] { DoubledPlain(s[1..], q); }
  }

  /** A reader of literals, after the opening quote: two quotes stand for one, a single one ends the literal.  The
      result is the text and what follows the literal. */
  function ReadLiteral(s: string, q: char): Option<(string, string)>
    decreases |s|
  {
    if s == [] then None
    else if s[0] != q then
      var r := ReadLiteral(s[1..], q);
      if r.None? then None else Some(([s[0]] + r.value.0, r.value.1))
    else if |s| > 1 && s[1] == q then
      var r := ReadLiteral(s[2..], q);
      if r.None? then None else Some(([q] + r.value.0, r.value.1))
    else Some(([], s[1..]))
  }

  /** The reader recovers the text from its literal, whatever follows that does not go on with a quote. */
  lemma {:induction false} QuotedReads(s: string, q: char, rest: string)
    requires rest == [] || rest[0] != q
    ensures ReadLiteral(Doubled(s, q) + [q] + rest, q) == Some((s, rest))
  {
    var t := Doubled(s, q) + [q] + rest;
    if s == [] {
      assert t == [q] + rest && t[1..] == rest;
    } else {
      var more := Doubled(s[1..], q) + [q] + rest;
      QuotedReads(s[1..], q, rest);
      assert t == Twice(s[0], q) + more;
      if s[0] == q { assert t[2..] == more; } else { assert t[1..] == more; }
      assert s == [s[0]] + s[1..];
    }
  }

  /** Literals are told apart. */
  lemma QuotedInjective(a: string, b: string, q: char)
    ensures Quoted(a, q) == Quoted(b, q) ==> a == b
  {
    QuotedReads(a, q, []);
    QuotedReads(b, q, []);
    assert Doubled(a, q) + [q] + [] == Quoted(a, q)[1..] && Doubled(b, q) + [q] + [] == Quoted(b, q)[1..];
  }

  // ---- output_quoted_string ----------------------------------------------------------------

  /** Offset of the first `q` from `k` on, or of the end. */
  method FindQuote(z: string, k: nat, q: char) returns (i: nat)
    requires NulFree(z) && k <= |z| && q != NUL
    ensures k <= i <= |z| && (i < |z| ==> z[i] == q) && forall x :: k <= x < i ==> z[x] != q
  {
    i := k;
    while At(z, i) != NUL && At(z, i) != q
      invariant k <= i <= |z| && forall x :: k <= x < i ==> z[x] != q
      decreases |z| - i
    {
      i := i + 1;
    }
  }

  method OutputQuotedString(z: string) returns (out: string)
    requires NulFree(z)
    ensures out == Quoted(z, '\'')
  {
    var nSingle := CountQuotes(z, '\'');
    if nSingle == 0 {
      DoubledPlain(z, '\'');
      return "'" + z + "'";
    }
    hide Doubled;
    DoubledEmpty('\'');
    out := "'";
    var k := 0;
    while At(z, k) != NUL
      invariant k <= |z| && out == ['\''] + Doubled(z[..k], '\'')
      decreases |z| - k
    {
      var chunk;
      chunk, k := PutChunk(z, k);
      out := out + chunk;
    }
    assert z[..k] == z;
    out := out + "'";
  }

  /** One round of the loop: the characters in front of the next quote, and the quote, twice. */
  method PutChunk(z: string, k: nat) returns (chunk: string, k': nat)
    requires NulFree(z) && k < |z|
    ensures k < k' <= |z| && Doubled(z[..k'], '\'') == Doubled(z[..k], '\'') + chunk
  {
    hide Doubled;
    var i := FindQuote(z, k, '\'');
    DoubledChunk(z, k, i);
    if i == k {
      chunk, k' := "''", k + 1;
      assert z[k..i] + "''" == "''";
    } else if At(z, i) == '\'' {
      chunk, k' := z[k..i] + "''", i + 1;
    } else {
      chunk, k' := z[k..], |z|;
      assert z[..k'] == z;
    }
  }

  lemma DoubledChunk(z: string, k: nat, i: nat)
    requires k <= i <= |z| && (i < |z| ==> z[i] == '\'') && forall x :: k <= x < i ==> z[x] != '\''
    ensures i < |z| ==> Doubled(z[..i + 1], '\'') == Doubled(z[..k], '\'') + (z[k..i] + "''")
    ensures i == |z| ==> Doubled(z, '\'') == Doubled(z[..k], '\'') + z[k..]
  {
    hide Doubled;
    DoubledPlain(z[k..i], '\'');
    assert z[..i] == z[..k] + z[k..i];
    DoubledAppend(z[..k], z[k..i], '\'');
    if i < |z| { DoubledNext(z, i, '\''); } else { assert z[..i] == z && z[k..i] == z[k..]; }
  }

  /** The counting loops: how much longer the doubled text is. */
  method CountQuotes(z: string, q: char) returns (n: nat)
    ensures n == |Doubled(z, q)| - |z|
    ensures n == 0 ==> forall i :: 0 <= i < |z| ==> z[i] != q
  {
    n := 0;
    var i := 0;
    while i < |z|
      invariant i <= |z| && n == |Doubled(z[..i], q)| - i
      invariant n == 0 ==> forall x :: 0 <= x < i ==> z[x] != q
    {
      DoubledNext(z, i, q);
      if z[i] == q { n := n + 1; }
      i := i + 1;
    }
    assert z[..i] == z;
  }

  // ---- appendText and set_table_name -------------------------------------------------------

  /** Writes `s` with every `q` doubled at `z[at..]`; the buffer must have room for it. */
  method PutDoubled(z: array<char>, at: nat, s: string, q: char) returns (csr: nat)
    requires at + |Doubled(s, q)| <= z.Length
    modifies z
    ensures csr == at + |Doubled(s, q)| && z[..csr] == old(z[..at]) + Doubled(s, q)
  {
    hide Doubled;
    csr := at;
    var i := 0;
    assert z[..at] + [] == z[..at];
    DoubledEmpty(q);
    while i < |s|
      invariant i <= |s| && csr == at + |Doubled(s[..i], q)| <= z.Length
      invariant z[..csr] == old(z[..at]) + Doubled(s[..i], q)
    {
      DoubledNext(s, i, q);
      DoubledGrows(s, i + 1, q);
      csr := PutTwice(z, csr, s[i], q, old(z[..at]), Doubled(s[..i], q));
      i := i + 1;
    }
    assert s[..i] == s;
  }

  lemma DoubledEmpty(q: char)
    ensures Doubled([], q) == []
  {
  }

  lemma DoubledGrows(s: string, i: nat, q: char)
    requires i <= |s|
    ensures |Doubled(s[..i], q)| <= |Doubled(s, q)|
  {
    DoubledAppend(s[..i], s[i..], q);
    assert s == s[..i] + s[i..];
  }

  /** Writes one character, twice if it is the quote. */
  method PutTwice(z: array<char>, csr0: nat, c: char, q: char, ghost head: string, ghost text: string) returns (csr: nat)
    requires csr0 + |Twice(c, q)| <= z.Length && z[..csr0] == head + text
    modifies z
    ensures csr == csr0 + |Twice(c, q)| && z[..csr] == head + (text + Twice(c, q))
  {
    csr := csr0;
    z[csr] := c;
    csr := csr + 1;
    assert z[..csr] == head + text + [c];
    if c == q {
      z[csr] := q;
      csr := csr + 1;
      assert z[..csr] == head + text + [c, q];
    }
  }

  /** A new buffer of `n` characters that starts with `s`. */
  method Realloc(s: string, n: nat) returns (z: array<char>)
    requires |s| <= n
    ensures fresh(z) && z.Length == n && z[..|s|] == s
  {
    z := new char[n];
    for i := 0 to |s|
      invariant forall x :: 0 <= x < i ==> z[x] == s[x]
    {
      z[i] := s[i];
    }
  }

  /** The text that `appendText` adds. */
  function Appended(zAppend: string, quote: char): string {
    if quote == NUL then zAppend else Quoted(zAppend, quote)
  }

  function Given(zIn: Option<string>): string {
    if zIn.None? then [] else zIn.value
  }

  /** `appendText`: the buffer is exactly as long as the result and its terminator. */
  method AppendText(zIn: Option<string>, zAppend: string, quote: char) returns (z: array<char>)
    requires NulFree(Given(zIn)) && NulFree(zAppend)
    ensures fresh(z) && z[..] == Given(zIn) + Appended(zAppend, quote) + [NUL]
  {
    var nIn := |Given(zIn)|;
    var len := |zAppend| + nIn + 1;
    if quote != NUL {
      len := len + 2;
      var n := CountQuotes(zAppend, quote);
      len := len + n;
    }
    z := Realloc(Given(zIn), len);
    if quote != NUL {
      var zCsr := PutQuoted(z, nIn, zAppend, quote, Given(zIn));
      assert zCsr == len;
    } else {
      CopyText(z, nIn, zAppend, Given(zIn));
      z[len - 1] := NUL;
      assert z[..] == z[..len - 1] + [NUL];
    }
  }

  /** The literal and its terminator, in the rest of a buffer of exactly that size. */
  method PutQuoted(z: array<char>, at: nat, s: string, q: char, ghost head: string) returns (csr: nat)
    requires z.Length == at + |Quoted(s, q)| + 1 && z[..at] == head
    modifies z
    ensures csr == z.Length && z[..] == head + Quoted(s, q) + [NUL]
  {
    hide Doubled;
    z[at] := q;
    assert z[..at + 1] == head + [q];
    csr := PutDoubled(z, at + 1, s, q);
    ghost var body := z[..csr];
    z[csr] := q;
    csr := csr + 1;
    assert z[..csr] == body + [q];
    z[csr] := NUL;
    csr := csr + 1;
    assert z[..] == body + [q] + [NUL];
    assert head + [q] + Doubled(s, q) + [q] == head + Quoted(s, q);
  }

  /** `memcpy` */
  method CopyText(z: array<char>, at: nat, s: string, ghost head: string)
    requires at + |s| <= z.Length && z[..at] == head
    modifies z
    ensures z[..at + |s|] == head + s
  {
    for i := 0 to |s|
      invariant z[..at + i] == head + s[..i]
    {
      z[at + i] := s[i];
      assert z[..at + i + 1] == z[..at + i] + [s[i]] && s[..i + 1] == s[..i] + [s[i]];
    }
    assert s[..|s|] == s;
  }

  predicate IsNameChar(c: char) {
    IsAlpha(c) || IsDigit(c) || c == '_'
  }

  /** A name that is not an identifier is quoted. */
  predicate NeedsQuote(name: string) {
    name == [] || !(IsAlpha(name[0]) || name[0] == '_') || exists i :: 0 <= i < |name| && !IsNameChar(name[i])
  }

  ghost function TableName(name: string): string {
    if NeedsQuote(name) then Quoted(name, '\'') else name
  }

  /** The first loop of `set_table_name`. */
  method CountName(name: string) returns (needQuote: bool, n: nat)
    ensures needQuote <==> NeedsQuote(name)
    ensures n == |Doubled(name, '\'')|
  {
    needQuote := !IsAlpha(At(name, 0)) && At(name, 0) != '_';
    n := 0;
    var i := 0;
    while i < |name|
      invariant i <= |name| && n == |Doubled(name[..i], '\'')|
      invariant needQuote <==> name == [] || !(IsAlpha(name[0]) || name[0] == '_') || exists x :: 0 <= x < i && !IsNameChar(name[x])
    {
      DoubledNext(name, i, '\'');
      if !IsNameChar(name[i]) {
        needQuote := true;
        if name[i] == '\'' { n := n + 1; }
      }
      i, n := i + 1, n + 1;
    }
    assert name[..i] == name;
  }

  /** `set_table_name`: the new `zDestTable`, NULL for a NULL name. */
  method SetTableName(zName: Option<string>) returns (z: array?<char>)
    requires zName.Some? ==> NulFree(zName.value)
    ensures zName.None? ==> z == null
    ensures zName.Some? ==> z != null && fresh(z) && z[..] == TableName(zName.value) + [NUL]
  {
    if zName.None? { return null; }
    var name := zName.value;
    var needQuote, n := CountName(name);
    if !needQuote { NoQuotes(name); }
    if needQuote { n := n + 2; }
    var dest := Realloc([], n + 1);
    n := 0;
    if needQuote {
      dest[n] := '\'';
      n := n + 1;
    }
    ghost var open := dest[..n];
    n := PutDoubled(dest, n, name, '\'');
    assert dest[..n] == open + Doubled(name, '\'');
    if needQuote {
      dest[n] := '\'';
      n := n + 1;
      assert dest[..n] == Quoted(name, '\'');
    }
    dest[n] := NUL;
    assert n + 1 == dest.Length && dest[..] == dest[..n] + [NUL];
    z := dest;
  }

  lemma NoQuotes(name: string)
    requires !NeedsQuote(name)
    ensures Doubled(name, '\'') == name
  {
    forall i | 0 <= i < |name| ensures name[i] != '\'' { assert IsNameChar(name[i]); }
    DoubledPlain(name, '\'');
  }

  /** A reader of names: a literal, or the text itself. */
  function ReadName(s: string): Option<string> {
    if s != [] && s[0] == '\'' then
      var r := ReadLiteral(s[1..], '\'');
      if r.Some? && r.value.1 == [] then Some(r.value.0) else None
    else Some(s)
  }

  /** The name that was set can be read back: quoted names are recovered, others do not look quoted. */
  lemma TableNameReads(name: string)
    ensures ReadName(TableName(name)) == Some(name)
  {
    hide Doubled, ReadLiteral, NeedsQuote;
    if NeedsQuote(name) {
      QuotedReads(name, '\'', []);
      assert TableName(name)[1..] == Doubled(name, '\'') + ['\''] + [];
    } else {
      PlainName(name);
    }
  }

  lemma PlainName(name: string)
    requires !NeedsQuote(name)
    ensures name != [] && name[0] != '\''
  {
  }

  /** An identifier of ASCII letters, digits and underscores is set as it is, and no other name. */
  lemma BareName(name: string)
    ensures TableName(name) == name <==>
            && name != "" && !(48 <= name[0] as int <= 57)
            && forall i :: 0 <= i < |name| ==>
                 var c := name[i] as int; 65 <= c <= 90 || 97 <= c <= 122 || 48 <= c <= 57 || c == 95
  {
    if NeedsQuote(name) {
      assert |TableName(name)| > |name| by { DoubledLonger(name, '\''); }
    }
    if i :| 0 <= i < |name| && !IsNameChar(name[i]) { assert NeedsQuote(name); }
  }

  lemma {:induction false} DoubledLonger(s: string, q: char)
    ensures |Doubled(s, q)| >= |s|
  {
    if s != "" { DoubledLonger(s[1..], q); }
  }

  /** Text that is appended with a quote character reads as one literal, and as it is without. */
  lemma AppendedReads(s: string, quote: char)
    ensures quote == NUL ==> Appended(s, quote) == s
    ensures quote != NUL ==>
              Appended(s, quote) != "" && Appended(s, quote)[0] == quote && ReadLiteral(Appended(s, quote)[1..], quote) == Some((s, ""))
  {
    QuotedReads(s, quote, "");
    assert Doubled(s, quote) + [quote] + "" == Quoted(s, quote)[1..];
  }

  // ---- output_html_string ------------------------------------------------------------------

  predicate IsSpecial(c: char) {
    c in "<&>\"'"
  }

  function Entity(c: char): string {
    match c
    case '<' => "&lt;"
    case '&' => "&amp;"
    case '>' => "&gt;"
    case '"' => "&quot;"
    case '\'' => "&#39;"
    case _ => [c]
  }

  function Html(s: string): string {
    if s == [] then [] else Entity(s[0]) + Html(s[1..])
  }

  lemma {:induction false} HtmlAppend(a: string, b: string)
    ensures Html(a + b) == Html(a) + Html(b)
  {
    if a == [] {
      assert a + b == b;
    } else {
      assert (a + b)[1..] == a[1..] + b;
      HtmlAppend(a[1..], b);
    }
  }

  lemma {:induction false} HtmlPlain(s: string)
    requires forall i :: 0 <= i < |s| ==> !IsSpecial(s[i])
    ensures Html(s) == s
  {
    if s != [] {
      assert !IsSpecial(s[0]);
      HtmlPlain(s[1..]);
    }
  }

  /** The characters before the next special one. */
  method FindSpecial(z: string, k: nat) returns (i: nat)
    requires NulFree(z) && k <= |z|
    ensures k <= i <= |z| && (i < |z| ==> IsSpecial(z[i])) && forall x :: k <= x < i ==> !IsSpecial(z[x])
  {
    i := k;
    while At(z, i) != NUL && !IsSpecial(At(z, i))
      invariant k <= i <= |z| && forall x :: k <= x < i ==> !IsSpecial(z[x])
      decreases |z| - i
    {
      i := i + 1;
    }
  }

  method OutputHtmlString(zIn: Option<string>) returns (out: string)
    requires zIn.Some? ==> NulFree(zIn.value)
    ensures out == Html(Given(zIn))
  {
    var z := Given(zIn);
    out := "";
    var k := 0;
    while At(z, k) != NUL
      invariant k <= |z| && out == Html(z[..k])
      decreases |z| - k
    {
      hide Html;
      var i := FindSpecial(z, k);
      HtmlChunk(z, k, i);
      if i > k { out := out + z[k..i]; }
      if At(z, i) == NUL {
        assert z[..i] == z && z[..k] + z[k..] == z;
        k := i;
        break;
      }
      out := out + PutEntity(z[i]);
      k := i + 1;
    }
    assert z[..k] == z;
  }

  /** The chain of tests on the character that ends a chunk. */
  function PutEntity(c: char): (e: string)
    ensures IsSpecial(c) ==> e == Entity(c)
  {
    if c == '<' then "&lt;"
    else if c == '&' then "&amp;"
    else if c == '>' then "&gt;"
    else if c == '"' then "&quot;"
    else if c == '\'' then "&#39;"
    else ""
  }

  lemma HtmlChunk(z: string, k: nat, i: nat)
    requires k <= i <= |z| && forall x :: k <= x < i ==> !IsSpecial(z[x])
    ensures Html(z[..i]) == Html(z[..k]) + z[k..i]
    ensures i < |z| ==> Html(z[..i + 1]) == Html(z[..i]) + Entity(z[i])
  {
    hide Html, Entity;
    HtmlPlain(z[k..i]);
    assert z[..i] == z[..k] + z[k..i];
    HtmlAppend(z[..k], z[k..i]);
    if i < |z| {
      assert z[..i + 1] == z[..i] + [z[i]];
      HtmlAppend(z[..i], [z[i]]);
      HtmlOne(z[i]);
    }
  }

  lemma HtmlOne(c: char)
    ensures Html([c]) == Entity(c)
  {
    assert [c][1..] == [] && Entity(c) + [] == Entity(c);
  }

  /** A reader of the five entities: the character that a text starts with, and the length of its entity. */
  function FirstRead(s: string): (char, nat)
    requires s != []
  {
    if "&lt;" <= s then ('<', 4)
    else if "&amp;" <= s then ('&', 5)
    else if "&gt;" <= s then ('>', 4)
    else if "&quot;" <= s then ('"', 6)
    else if "&#39;" <= s then ('\'', 5)
    else (s[0], 1)
  }

  function ReadHtml(s: string): string
    decreases |s|
  {
    if s == [] then [] else [FirstRead(s).0] + ReadHtml(s[FirstRead(s).1..])
  }

  /** The entities are told apart by their second character. */
  lemma FirstReadIs(c: char, t: string)
    ensures FirstRead(Entity(c) + t) == (c, |Entity(c)|)
  {
    var s := Entity(c) + t;
    assert s[..|Entity(c)|] == Entity(c);
    if IsSpecial(c) {
      assert Entity(c)[1] == s[1] == if c == '<' then 'l' else if c == '&' then 'a' else if c == '>' then 'g' else if c == '"' then 'q' else '#';
    } else {
      assert s[0] == c;
    }
  }

  lemma ReadEntity(c: char, t: string)
    ensures ReadHtml(Entity(c) + t) == [c] + ReadHtml(t)
  {
    hide FirstRead, Entity;
    FirstReadIs(c, t);
    EntityNotEmpty(c);
    assert (Entity(c) + t)[|Entity(c)|..] == t;
  }

  lemma EntityNotEmpty(c: char)
    ensures Entity(c) != []
  {
  }

  /** The reader recovers every text from its escaped form. */
  lemma {:induction false} HtmlReads(s: string)
    ensures ReadHtml(Html(s)) == s
  {
    if s != [] {
      ReadEntity(s[0], Html(s[1..]));
      HtmlReads(s[1..]);
    }
  }

  /** Nothing that means something in HTML text or in an attribute is left but the begins of entities. */
  lemma {:induction false} HtmlSafe(s: string, i: nat)
    requires i < |Html(s)|
    ensures Html(s)[i] != '<' && Html(s)[i] != '>' && Html(s)[i] != '"' && Html(s)[i] != '\''
    ensures Html(s)[i] == '&' ==> EntityAt(Html(s)[i..])
  {
    var e, rest := Entity(s[0]), Html(s[1..]);
    if i < |e| {
      EntitySafe(s[0], i);
      assert Html(s)[i..] == e[i..] + rest;
      if e[i] == '&' { EntityBegins(s[0], rest); }
    } else {
      HtmlSafe(s[1..], i - |e|);
      assert Html(s)[i..] == rest[i - |e|..];
    }
  }

  predicate EntityAt(t: string) {
    "&lt;" <= t || "&gt;" <= t || "&amp;" <= t || "&quot;" <= t || "&#39;" <= t
  }

  lemma EntitySafe(c: char, i: nat)
    requires i < |Entity(c)|
    ensures var x := Entity(c)[i]; x != '<' && x != '>' && x != '"' && x != '\'' && (x == '&' ==> i == 0 && IsSpecial(c))
  {
  }

  lemma EntityBegins(c: char, rest: string)
    requires IsSpecial(c)
    ensures EntityAt(Entity(c)[0..] + rest)
  {
    assert Entity(c)[0..] == Entity(c);
  }

  /** Text without these characters is left as it is. */
  lemma HtmlUnchanged(s: string)
    requires '<' !in s && '>' !in s && '&' !in s && '"' !in s && '\'' !in s
    ensures Html(s) == s
  {
    forall i | 0 <= i < |s| ensures !IsSpecial(s[i]) { assert s[i] in s; }
    HtmlPlain(s);
  }
}
