/** The tokenizer of `do_meta_command`, kind of token by kind of token. */
module TokenLaws {
  import opened CText
  import opened CStrings
  import opened CStringRoundTrip

  /** How a byte is written in a literal: a backslash in front of quote and backslash, letters for tab and line ends,
      itself when it can be printed, three octal digits of its code otherwise. */
  predicate IsWritten(c: char, e: string) {
    var n := c as int;
    if n == 34 || n == 92 then e == ['\\', c]
    else if n == 9 then e == ['\\', 't']
    else if n == 10 then e == ['\\', 'n']
    else if n == 13 then e == ['\\', 'r']
    else if 32 <= n <= 126 then e == [c]
    else
      && |e| == 4 && e[0] == '\\' && (forall i :: 1 <= i < 4 ==> '0' <= e[i] <= '7')
      && 64 * (e[1] as int - 48) + 8 * (e[2] as int - 48) + (e[3] as int - 48) == n
  }

  lemma EscapedAs(c: char)
    requires IsByte(c)
    ensures IsWritten(c, EscapeChar(c))
  {
    hide OctalEscape;
    OctalWritten(c);
  }

  lemma OctalWritten(c: char)
    requires IsByte(c)
    ensures var e := OctalEscape(c);
            && |e| == 4 && e[0] == '\\' && (forall i :: 1 <= i < 4 ==> '0' <= e[i] <= '7')
            && 64 * (e[1] as int - 48) + 8 * (e[2] as int - 48) + (e[3] as int - 48) == c as int
  {
    var n := c as int;
    OctalSplit(n);
    DigitIs(n / 64);
    DigitIs(n / 8 % 8);
    DigitIs(n % 8);
    hide Digit;
    var e := OctalEscape(c);
    assert e[1] == Digit(n / 64) && e[2] == Digit(n / 8 % 8) && e[3] == Digit(n % 8);
  }

  lemma DigitIs(d: nat)
    requires d < 8
    ensures '0' <= Digit(d) <= '7' && Digit(d) as int - 48 == d
  {
  }

  lemma {:induction false} QuotedLenPlain(s: string, delim: char, tail: string)
    requires delim == '\'' && delim !in s && (tail == "" || tail[0] == delim)
    ensures QuotedLen(s + tail, delim) == |s|
  {
    if s == "" {
      assert s + tail == tail;
    } else {
      assert (s + tail)[1..] == s[1..] + tail;
      QuotedLenPlain(s[1..], delim, tail);
    }
  }

  /** Text in single quotes is taken as it is, backslashes included. */
  lemma SingleQuoted(s: string, rest: string)
    requires '\'' !in s
    ensures Token("'" + s + "'" + rest) == s && AfterToken("'" + s + "'" + rest) == rest
  {
    var t := "'" + s + "'" + rest;
    var tail := "'" + rest;
    assert t[1..] == s + tail;
    QuotedLenPlain(s, '\'', tail);
    assert t[1..1 + |s|] == s && t[1 + |s| + 1..] == rest;
  }

  /** A quote that is not closed reaches to the end of the line. */
  lemma SingleOpen(s: string)
    requires '\'' !in s
    ensures Token("'" + s) == s && AfterToken("'" + s) == ""
  {
    var t := "'" + s;
    assert t[1..] == s + "" == s;
    QuotedLenPlain(s, '\'', "");
    assert t[1..1 + |s|] == s;
  }

  lemma {:induction false} LiteralOpen(s: string)
    ensures QuotedLen(Escaped(s), '"') == |Escaped(s)|
  {
    if s != [] {
      LiteralChar(s[0], Escaped(s[1..]));
      LiteralOpen(s[1..]);
    }
  }

  lemma DoubleOpen(s: string)
    requires Bytes(s)
    ensures Token("\"" + Escaped(s)) == s && AfterToken("\"" + Escaped(s)) == ""
  {
    var t := "\"" + Escaped(s);
    assert t[1..] == Escaped(s);
    LiteralOpen(s);
    assert t[1..|t|] == Escaped(s);
    DecodeEscaped(s);
  }

  /** A word without quotes in front ends at white space, and its escapes are resolved as documented. */
  lemma BareWord(w: string, rest: string)
    requires w != "" && w[0] != '"' && w[0] != '\'' && (forall i :: 0 <= i < |w| ==> !IsSpace(w[i])) && !EscapesS(w)
    requires rest == "" || IsSpace(rest[0])
    ensures Token(w + rest) == Documented(w) && AfterToken(w + rest) == if rest == "" then "" else rest[1..]
  {
    hide Decode, Documented, EscapesS;
    BareStop(w, rest);
    DecodedAsDocumented(w);
    BareCut(w, rest);
  }

  lemma BareStop(w: string, rest: string)
    requires w != "" && w[0] != '"' && w[0] != '\'' && forall i :: 0 <= i < |w| ==> !IsSpace(w[i])
    requires rest == "" || IsSpace(rest[0])
    ensures TokenStart(w + rest) == 0 && TokenStop(w + rest) == |w|
  {
    WordLenIs(w, rest);
    hide WordLen, QuotedLen;
    assert (w + rest)[0] == w[0];
  }

  lemma BareCut(w: string, rest: string)
    requires w != "" && w[0] != '\'' && TokenStart(w + rest) == 0 && TokenStop(w + rest) == |w|
    ensures Token(w + rest) == Decode(w) && AfterToken(w + rest) == if rest == "" then "" else rest[1..]
  {
    hide Decode, TokenStart, TokenStop;
    var t := w + rest;
    assert t[0] == w[0] && t[0..|w|] == w;
    if rest != "" { assert t[|w| + 1..] == rest[1..]; }
  }

  /** White space in front of a token does not matter. */
  lemma BlanksSkipped(b: string, s: string, room: nat)
    requires AllSpace(b)
    ensures Tokens(b + s, room) == Tokens(s, room)
  {
    hide Token, AfterToken;
    BlanksConcat(b, s);
    assert (b + s)[|b| + Blanks(s)..] == s[Blanks(s)..];
  }

  lemma {:induction false} BlanksConcat(b: string, s: string)
    requires AllSpace(b)
    ensures Blanks(b + s) == |b| + Blanks(s)
  {
    if b == "" {
      assert b + s == s;
    } else {
      assert (b + s)[1..] == b[1..] + s;
      BlanksConcat(b[1..], s);
    }
  }

  /** Where there is no room left, the rest of the line is not looked at; more room changes nothing else. */
  lemma {:induction false} TokensFit(s: string, room: nat, more: nat)
    requires room <= more
    ensures |Tokens(s, room)| <= room && Tokens(s, room) <= Tokens(s, more)
    ensures |Tokens(s, room)| < room ==> Tokens(s, more) == Tokens(s, room)
    decreases room
  {
    hide Tokens, Token, AfterToken;
    TokensStep(s, room);
    TokensStep(s, more);
    var t := s[Blanks(s)..];
    if room > 0 && t != [] { TokensFit(AfterToken(t), room - 1, more - 1); }
  }
}
