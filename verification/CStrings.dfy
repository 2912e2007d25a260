/** Backslash quoting: `output_c_string` writes it, the tokenizer of `do_meta_command` and `resolve_backslashes` read it,
    both in place. */
module CStrings {
  import opened CText

  // ---- Writing -----------------------------------------------------------------------------

  function Digit(d: nat): char
    requires d < 10
  {
    ('0' as int + d) as char
  }

  /** A byte as a backslash and three octal digits. */
  function OctalEscape(c: char): string {
    var v := c as int % 256;
    ['\\', Digit(v / 64), Digit(v / 8 % 8), Digit(v % 8)]
  }

  function EscapeChar(c: char): string {
    if c == '\\' || c == '"' then ['\\', c]
    else if c == '\t' then "\\t"
    else if c == '\n' then "\\n"
    else if c == '\r' then "\\r"
    else if !IsPrint(c) then OctalEscape(c)
    else [c]
  }

  function Escaped(s: string): string {
    if s == [] then [] else EscapeChar(s[0]) + Escaped(s[1..])
  }

  /** `s` as a C or TCL string literal. */
  function CString(s: string): string {
    "\"" + Escaped(s) + "\""
  }

  method OutputCString(z: string) returns (out: string)
    requires NulFree(z)
    ensures out == CString(z)
  {
    out := "\"";
    var i := 0;
    while At(z, i) != NUL
      invariant i <= |z| && out + Escaped(z[i..]) == "\"" + Escaped(z)
      decreases |z| - i
    {
      var t := PutEscaped(z[i]);
      assert out + (t + Escaped(z[i + 1..])) == (out + t) + Escaped(z[i + 1..]);
      out := out + t;
      i := i + 1;
    }
    out := out + "\"";
  }

  /** The body of the loop: what is put for one character. */
  method PutEscaped(c: char) returns (t: string)
    ensures t == EscapeChar(c)
  {
    if c == '\\' {
      t := [c] + [c];
    } else if c == '"' {
      t := "\\" + "\"";
    } else if c == '\t' {
      t := "\\" + "t";
    } else if c == '\n' {
      t := "\\" + "n";
    } else if c == '\r' {
      t := "\\" + "r";
    } else if !IsPrint(c) {
      t := OctalEscape(c);
    } else {
      t := [c];
    }
  }

  // ---- Decoding ----------------------------------------------------------------------------

  predicate IsOctal(c: char) {
    '0' <= c <= '7'
  }

  /** The number of octal digits, at most three, that start `s`. */
  function OctalRun(s: string): (n: nat)
    ensures n <= |s| && n <= 3
  {
    if |s| < 1 || !IsOctal(s[0]) then 0
    else if |s| < 2 || !IsOctal(s[1]) then 1
    else if |s| < 3 || !IsOctal(s[2]) then 2
    else 3
  }

  function OctalDigit(c: char): nat
    requires IsOctal(c)
  {
    c as int - '0' as int
  }

  /** The value of the first `n` octal digits, as the greedy decoder accumulates it in a `char`. */
  function OctalValue(s: string, n: nat): char
    requires 1 <= n <= OctalRun(s)
  {
    var v := if n == 1 then OctalDigit(s[0])
             else if n == 2 then 8 * OctalDigit(s[0]) + OctalDigit(s[1])
             else 8 * (8 * OctalDigit(s[0]) + OctalDigit(s[1])) + OctalDigit(s[2]);
    (v % 256) as char
  }

  function EscapeValue(c: char): char {
    match c
    case 'a' => '\U{7}'
    case 'b' => '\U{8}'
    case 't' => '\t'
    case 'n' => '\n'
    case 'v' => '\U{b}'
    case 'f' => '\U{c}'
    case 'r' => '\r'
    case _ => c
  }

  /** A text with its backslash sequences replaced; a backslash at the end stays. */
  function Decode(z: string): (d: string)
    ensures |d| <= |z|
  {
    if z == [] then []
    else if z[0] != '\\' || |z| == 1 then [z[0]] + Decode(z[1..])
    else
      var n := OctalRun(z[1..]);
      if n == 0 then [EscapeValue(z[1])] + Decode(z[2..])
      else [OctalValue(z[1..], n)] + Decode(z[1 + n..])
  }

  lemma OctalSplit(v: nat)
    requires v < 256
    ensures v / 64 < 4 && 8 * (8 * (v / 64) + v / 8 % 8) + v % 8 == v
  {
  }

  lemma OctalThree(digits: string, c: char)
    requires IsByte(c) && |digits| >= 3 && digits[0] == Digit(c as int / 64)
    requires digits[1] == Digit(c as int / 8 % 8) && digits[2] == Digit(c as int % 8)
    ensures OctalRun(digits) == 3 && OctalValue(digits, 3) == c
  {
    OctalSplit(c as int);
    assert OctalDigit(digits[0]) == c as int / 64;
    assert OctalDigit(digits[1]) == c as int / 8 % 8;
    assert OctalDigit(digits[2]) == c as int % 8;
  }

  lemma DecodeOctal(c: char, t: string)
    requires IsByte(c)
    ensures Decode(OctalEscape(c) + t) == [c] + Decode(t)
  {
    hide Decode, OctalValue, OctalRun, Digit;
    var e := OctalEscape(c);
    var z := e + t;
    var digits := z[1..];
    assert digits[0] == e[1] && digits[1] == e[2] && digits[2] == e[3];
    OctalThree(digits, c);
    DecodeOctalHead(z, 3);
    assert z[4..] == t;
  }

  lemma DecodePair(e: char, t: string)
    requires !IsOctal(e)
    ensures Decode(['\\', e] + t) == [EscapeValue(e)] + Decode(t)
  {
    var z := ['\\', e] + t;
    assert z[1..][0] == e && z[2..] == t;
  }

  lemma DecodeChar(c: char, t: string)
    requires IsByte(c)
    ensures Decode(EscapeChar(c) + t) == [c] + Decode(t)
  {
    if EscapeChar(c) == [c] {
      assert ([c] + t)[1..] == t;
    } else if |EscapeChar(c)| == 4 {
      DecodeOctal(c, t);
    } else {
      DecodePair(EscapeChar(c)[1], t);
      assert EscapeChar(c) == ['\\', EscapeChar(c)[1]];
    }
  }

  /** Decoding undoes the quoting of every byte string, whatever follows an octal sequence. */
  lemma {:induction false} DecodeEscaped(s: string)
    requires Bytes(s)
    ensures Decode(Escaped(s)) == s
  {
    if s != [] {
      DecodeChar(s[0], Escaped(s[1..]));
      DecodeEscaped(s[1..]);
    }
  }

  // ---- Decoding as documented --------------------------------------------------------------

  /** The comment's list of escapes.  Characters that it does not list stand for themselves. */
  function DocumentedChar(c: char): char {
    if c == 'a' then 7 as char
    else if c == 'b' then 8 as char
    else if c == 't' then 9 as char
    else if c == 'n' then 10 as char
    else if c == 'v' then 11 as char
    else if c == 'f' then 12 as char
    else if c == 'r' then 13 as char
    else if c == 's' then 32 as char
    else if c == '"' then 34 as char
    else if c == '\'' then 39 as char
    else if c == '\\' then 92 as char
    else c
  }

  /** What the text behind a backslash starts with: the character meant, and the length of its name.  A number has up to
      three octal digits. */
  function DocumentedEscape(s: string): (r: (char, nat))
    requires s != []
    ensures 1 <= r.1 <= |s|
  {
    if !('0' <= s[0] <= '7') then (DocumentedChar(s[0]), 1)
    else if |s| == 1 || !('0' <= s[1] <= '7') then ((s[0] as int - 48) as char, 1)
    else if |s| == 2 || !('0' <= s[2] <= '7') then ((8 * (s[0] as int - 48) + (s[1] as int - 48)) as char, 2)
    else (((64 * (s[0] as int - 48) + 8 * (s[1] as int - 48) + (s[2] as int - 48)) % 256) as char, 3)
  }

  /** A text with its backslash sequences replaced as the comment above the function describes. */
  function Documented(z: string): string {
    if z == [] then []
    else if z[0] != '\\' || |z| == 1 then [z[0]] + Documented(z[1..])
    else
      var (c, n) := DocumentedEscape(z[1..]);
      [c] + Documented(z[1 + n..])
  }

  lemma OctalSame(s: string)
    requires OctalRun(s) > 0
    ensures DocumentedEscape(s) == (OctalValue(s, OctalRun(s)), OctalRun(s)) && s[0] != 's'
  {
    hide DocumentedChar;
  }

  lemma OctalNone(s: string)
    requires OctalRun(s) == 0 && s != []
    ensures DocumentedEscape(s) == (DocumentedChar(s[0]), 1)
  {
  }

  /** Some backslash that is read as the begin of an escape is followed by 's'. */
  predicate EscapesS(z: string) {
    if |z| < 2 then false
    else if z[0] != '\\' then EscapesS(z[1..])
    else
      var n := OctalRun(z[1..]);
      z[1] == 's' || EscapesS(if n == 0 then z[2..] else z[1 + n..])
  }

  lemma SameHead(a: char, b: char, s: string, t: string)
    ensures [a] + s == [b] + t <==> a == b && s == t
  {
    assert ([a] + s)[0] == a && ([a] + s)[1..] == s;
    assert ([b] + t)[0] == b && ([b] + t)[1..] == t;
  }

  /** The code decodes a text as its comment describes exactly when no escape in it is `\s`. */
  lemma {:induction false} DecodedAsDocumented(z: string)
    ensures Decode(z) == Documented(z) <==> !EscapesS(z)
  {
    hide Decode, Documented, EscapesS, OctalValue, OctalRun, EscapeValue, DocumentedChar, DocumentedEscape;
    DecodeStep(z);
    DocumentedStep(z);
    EscapesSStep(z);
    if z == [] {
    } else if z[0] != '\\' || |z| == 1 {
      DecodedAsDocumented(z[1..]);
      SameHead(z[0], z[0], Decode(z[1..]), Documented(z[1..]));
    } else if OctalRun(z[1..]) == 0 {
      DecodedAsDocumented(z[2..]);
      OnlySDiffers(z[1]);
      SameHead(EscapeValue(z[1]), DocumentedChar(z[1]), Decode(z[2..]), Documented(z[2..]));
    } else {
      var n := OctalRun(z[1..]);
      DecodedAsDocumented(z[1 + n..]);
      SameHead(OctalValue(z[1..], n), OctalValue(z[1..], n), Decode(z[1 + n..]), Documented(z[1 + n..]));
    }
  }

  /** One step of each decoder, and of the search for `\s`. */
  lemma DecodeStep(z: string)
    ensures z == [] ==> Decode(z) == []
    ensures z != [] && (z[0] != '\\' || |z| == 1) ==> Decode(z) == [z[0]] + Decode(z[1..])
    ensures |z| > 1 && z[0] == '\\' ==>
              var n := OctalRun(z[1..]);
              Decode(z) == if n == 0 then [EscapeValue(z[1])] + Decode(z[2..]) else [OctalValue(z[1..], n)] + Decode(z[1 + n..])
  {
    hide OctalValue, OctalRun, EscapeValue;
  }

  lemma DocumentedStep(z: string)
    ensures z == [] ==> Documented(z) == []
    ensures z != [] && (z[0] != '\\' || |z| == 1) ==> Documented(z) == [z[0]] + Documented(z[1..])
    ensures |z| > 1 && z[0] == '\\' ==>
              var n := OctalRun(z[1..]);
              Documented(z) ==
                if n == 0 then [DocumentedChar(z[1])] + Documented(z[2..]) else [OctalValue(z[1..], n)] + Documented(z[1 + n..])
  {
    hide Documented, OctalValue, OctalRun, DocumentedChar, DocumentedEscape;
    DocumentedHead(z);
    if |z| > 1 && z[0] == '\\' {
      if OctalRun(z[1..]) == 0 { OctalNone(z[1..]); } else { OctalSame(z[1..]); }
    }
  }

  lemma DocumentedHead(z: string)
    ensures z == [] ==> Documented(z) == []
    ensures z != [] && (z[0] != '\\' || |z| == 1) ==> Documented(z) == [z[0]] + Documented(z[1..])
    ensures |z| > 1 && z[0] == '\\' ==>
              var (c, n) := DocumentedEscape(z[1..]); Documented(z) == [c] + Documented(z[1 + n..])
  {
    hide DocumentedEscape;
  }

  lemma EscapesSStep(z: string)
    ensures z == [] ==> !EscapesS(z)
    ensures z != [] && (z[0] != '\\' || |z| == 1) ==> EscapesS(z) == EscapesS(z[1..])
    ensures |z| > 1 && z[0] == '\\' ==>
              var n := OctalRun(z[1..]);
              EscapesS(z) == if n == 0 then z[1] == 's' || EscapesS(z[2..]) else EscapesS(z[1 + n..])
  {
    if |z| > 1 && z[0] == '\\' && OctalRun(z[1..]) > 0 { OctalSame(z[1..]); }
    hide OctalRun;
  }

  lemma OnlySDiffers(c: char)
    ensures EscapeValue(c) == DocumentedChar(c) <==> c != 's'
  {
  }

  lemma BackslashS()
    ensures Decode("\\s") == "s" && Documented("\\s") == " "
  {
    assert "\\s"[1..] == "s" && "\\s"[2..] == "";
  }

  // ---- Decoding in place -------------------------------------------------------------------

  /** The octal branch: `z[i0]` is the first digit and `z[i]` the last. */
  method DecodeDigits(z: array<char>, i0: nat, ghost from: nat, ghost s: string) returns (i: nat, c: char)
    requires from <= i0 < from + |s| && Unread(z, from, s, i0 - from) && IsOctal(z[i0])
    ensures i0 <= i == i0 + OctalRun(s[i0 - from..]) - 1 && c == OctalValue(s[i0 - from..], i - i0 + 1)
  {
    i := i0;
    ghost var t := s[i0 - from..];
    assert z[i] == t[0];
    var v := OctalDigit(z[i]);
    if IsOctal(z[i + 1]) {
      assert z[i0 + 1] == t[1];
      i := i + 1;
      v := v * 8 + OctalDigit(z[i]);
      if IsOctal(z[i + 1]) {
        assert z[i0 + 2] == t[2];
        i := i + 1;
        v := v * 8 + OctalDigit(z[i]);
      }
    }
    c := (v % 256) as char;
  }

  lemma DecodePlainAt(s: string, k: nat)
    requires k < |s| && (s[k] != '\\' || k + 1 == |s|)
    ensures Decode(s[k..]) == [s[k]] + Decode(s[k + 1..])
  {
  }

  lemma DecodeEscapeAt(s: string, k: nat)
    requires k + 1 < |s| && s[k] == '\\' && !IsOctal(s[k + 1])
    ensures Decode(s[k..]) == [EscapeValue(s[k + 1])] + Decode(s[k + 2..])
  {
    hide EscapeValue;
    assert s[k..][1..] == s[k + 1..] && s[k..][2..] == s[k + 2..];
  }

  lemma DecodeOctalAt(s: string, k: nat, n: nat)
    requires k + 1 < |s| && s[k] == '\\' && n == OctalRun(s[k + 1..]) && n > 0
    ensures Decode(s[k..]) == [OctalValue(s[k + 1..], n)] + Decode(s[k + 1 + n..])
  {
    hide Decode, OctalRun, OctalValue;
    assert s[k..][1..] == s[k + 1..] && s[k..][1 + n..] == s[k + 1 + n..];
    DecodeOctalHead(s[k..], n);
  }

  lemma DecodeOctalHead(z: string, n: nat)
    requires |z| > 1 && z[0] == '\\' && n == OctalRun(z[1..]) && n > 0
    ensures Decode(z) == [OctalValue(z[1..], n)] + Decode(z[1 + n..])
  {
    hide OctalRun, OctalValue;
  }

  /** `w` is the decoding of the first `k` characters of `s`, and decoding goes on at `s[k]`. */
  ghost predicate Decoded(s: string, w: string, k: nat) {
    k <= |s| && Decode(s) == w + Decode(s[k..])
  }

  lemma DecodedNext(s: string, w: string, k: nat, n: nat, c: char)
    requires Decoded(s, w, k) && n <= |s| && Decode(s[k..]) == [c] + Decode(s[n..])
    ensures Decoded(s, w + [c], n)
  {
    assert w + ([c] + Decode(s[n..])) == w + [c] + Decode(s[n..]);
  }

  lemma DecodedPlain(s: string, k: nat)
    requires k < |s| && s[k] != '\\' && Decoded(s, s[..k], k)
    ensures Decoded(s, s[..k + 1], k + 1)
  {
    DecodePlainAt(s, k);
    DecodedNext(s, s[..k], k, k + 1, s[k]);
    assert s[..k + 1] == s[..k] + [s[k]];
  }

  lemma DecodedAll(s: string, w: string)
    requires Decoded(s, w, |s|)
    ensures w == Decode(s)
  {
  }

  /** The character that `z[i]` and what follows it, up to `z[n]`, stand for. */
  method DecodeOne(z: array<char>, i: nat, ghost from: nat, ghost s: string, ghost k: nat) returns (n: nat, c: char)
    requires i == from + k && k < |s| && Unread(z, from, s, k)
    ensures i <= n < from + |s| && Decode(s[k..]) == [c] + Decode(s[n + 1 - from..])
  {
    hide Decode, OctalRun, OctalValue, EscapeValue;
    n, c := i, z[i];
    if c == '\\' && z[i + 1] != NUL {
      n := i + 1;
      c := z[n];
      if IsOctal(c) {
        n, c := DecodeDigits(z, n, from, s);
        DecodeOctalAt(s, k, n - i);
      } else {
        c := EscapeValue(c);
        DecodeEscapeAt(s, k);
      }
    } else {
      assert k + 1 < |s| ==> s[k + 1] != NUL;
      DecodePlainAt(s, k);
    }
  }

  method DecodeAt(z: array<char>, i: nat, ghost from: nat, ghost s: string, ghost k: nat, ghost w: string)
    returns (n: nat, c: char, ghost k': nat)
    requires i == from + k && k < |s| && Unread(z, from, s, k) && Decoded(s, w, k)
    ensures i <= n && n + 1 == from + k' && k' <= |s| && Decoded(s, w + [c], k')
  {
    hide Decode, Decoded;
    n, c := DecodeOne(z, i, from, s, k);
    k' := n + 1 - from;
    DecodedNext(s, w, k, k', c);
  }

  /** `resolve_backslashes` on the text `s` at `z[from..]`: the decoded text and a terminator replace it. */
  method ResolveBackslashes(z: array<char>, from: nat, ghost s: string)
    requires Unread(z, from, s, 0)
    modifies z
    ensures Holds(z, from, Decode(s)) && z[from + |Decode(s)|] == NUL
    ensures forall x :: 0 <= x < from || from + |s| <= x < z.Length ==> z[x] == old(z[x])
  {
    var i := SkipPlain(z, from, s);
    var i', j, w := DecodeLoop(z, i, from, s, i - from);
    DecodedAll(s, w);
    if j < i' { z[j] := NUL; }
  }

  /** The loop from `z[i0]` on; `j` is the offset after the decoded text `w`. */
  method DecodeLoop(z: array<char>, i0: nat, ghost from: nat, ghost s: string, ghost k0: nat)
    returns (i: nat, j: nat, ghost w: string)
    requires i0 == from + k0 && k0 <= |s| && Unread(z, from, s, 0) && Decoded(s, s[..k0], k0)
    modifies z
    ensures j == from + |w| <= i == from + |s| && Holds(z, from, w) && Decoded(s, w, |s|) && z[i] == NUL
    ensures forall x :: 0 <= x < from || from + |s| <= x < z.Length ==> z[x] == old(z[x])
  {
    hide Decoded;
    i, j, w := i0, i0, s[..k0];
    ghost var k := k0;
    while z[i] != NUL
      invariant j == from + |w| <= i == from + k && k <= |s| && Unread(z, from, s, k)
      invariant Holds(z, from, w) && Decoded(s, w, k)
      invariant forall x :: 0 <= x < from || from + |s| <= x < z.Length ==> z[x] == old(z[x])
      decreases |s| - k
    {
      var n, c;
      n, c, k := DecodeAt(z, i, from, s, k, w);
      z[j] := c;
      w := w + [c];
      i, j := n + 1, j + 1;
    }
  }

  /** Everything in front of the first backslash stays as it is. */
  method SkipPlain(z: array<char>, from: nat, ghost s: string) returns (i: nat)
    requires Unread(z, from, s, 0)
    ensures from <= i <= from + |s| && Decoded(s, s[..i - from], i - from)
  {
    i := from;
    ghost var k := 0;
    while z[i] != NUL && z[i] != '\\'
      invariant i == from + k && k <= |s| && Decoded(s, s[..k], k)
      decreases |s| - k
    {
      DecodedPlain(s, k);
      i, k := i + 1, k + 1;
    }
  }

  // ---- Tokens of a command line ------------------------------------------------------------

  /** The number of characters in front of the closing delimiter; in double quotes a backslash protects the next one. */
  function QuotedLen(s: string, delim: char): (n: nat)
    ensures n <= |s| && (n < |s| ==> s[n] == delim)
  {
    if s == [] || s[0] == delim then 0
    else if s[0] == '\\' && delim == '"' && |s| > 1 then 2 + QuotedLen(s[2..], delim)
    else 1 + QuotedLen(s[1..], delim)
  }

  function WordLen(s: string): (n: nat)
    ensures n <= |s| && (n < |s| ==> IsSpace(s[n])) && forall x :: 0 <= x < n ==> !IsSpace(s[x])
  {
    if s == [] || IsSpace(s[0]) then 0 else 1 + WordLen(s[1..])
  }

  predicate IsQuote(c: char) {
    c == '\'' || c == '"'
  }

  /** The first token of `t`, which does not start with white space: its text, and where it starts and stops. */
  function TokenStart(t: string): nat
    requires t != []
  {
    if IsQuote(t[0]) then 1 else 0
  }

  function TokenStop(t: string): (n: nat)
    requires t != []
    ensures TokenStart(t) <= n <= |t|
  {
    if IsQuote(t[0]) then 1 + QuotedLen(t[1..], t[0]) else WordLen(t)
  }

  function Token(t: string): string
    requires t != []
  {
    var raw := t[TokenStart(t)..TokenStop(t)];
    if t[0] == '\'' then raw else Decode(raw)
  }

  /** What follows the token: its delimiter is dropped. */
  function AfterToken(t: string): string
    requires t != []
  {
    if TokenStop(t) < |t| then t[TokenStop(t) + 1..] else []
  }

  /** At most `room` tokens of a line. */
  function Tokens(s: string, room: nat): seq<string>
    decreases room
  {
    var t := s[Blanks(s)..];
    if room == 0 || t == [] then [] else [Token(t)] + Tokens(AfterToken(t), room - 1)
  }

  /** An argument: a terminated text that lies before `h`, or ends at the end `n` of the line. */
  ghost predicate ArgAt(z: array<char>, at: nat, text: string, h: nat, n: nat)
    reads z
  {
    && at + |text| < z.Length && Holds(z, at, text) && z[at + |text|] == NUL
    && (at + |text| < h || h == n) && at + |text| <= n
  }

  lemma QuotedLenAt(s: string, h: nat, delim: char)
    requires h < |s| && s[h] != delim
    ensures QuotedLen(s[h..], delim)
         == if s[h] == '\\' && delim == '"' && h + 1 < |s| then 2 + QuotedLen(s[h + 2..], delim)
            else 1 + QuotedLen(s[h + 1..], delim)
  {
  }

  method ScanQuoted(z: array<char>, h0: nat, delim: char, ghost s: string) returns (h: nat)
    requires h0 <= |s| && Unread(z, 0, s, h0) && IsQuote(delim)
    ensures h == h0 + QuotedLen(s[h0..], delim)
  {
    h := h0;
    ghost var stop := h0 + QuotedLen(s[h0..], delim);
    while z[h] != NUL && z[h] != delim
      invariant h0 <= h <= |s| && h + QuotedLen(s[h..], delim) == stop
      decreases |s| - h
    {
      QuotedLenAt(s, h, delim);
      assert h + 1 < |s| ==> s[h + 1] != NUL;
      if z[h] == '\\' && delim == '"' && z[h + 1] != NUL { h := h + 1; }
      h := h + 1;
    }
  }

  method ScanWord(z: array<char>, h0: nat, ghost s: string) returns (h: nat)
    requires h0 <= |s| && Unread(z, 0, s, h0)
    ensures h == h0 + WordLen(s[h0..])
  {
    h := h0;
    while z[h] != NUL && !IsSpace(z[h])
      invariant h0 <= h <= |s| && h + WordLen(s[h..]) == h0 + WordLen(s[h0..])
      decreases |s| - h
    {
      h := h + 1;
    }
  }

  method ScanBlanks(z: array<char>, h0: nat, ghost s: string) returns (h: nat)
    requires h0 <= |s| && Unread(z, 0, s, h0)
    ensures h == h0 + Blanks(s[h0..]) <= |s|
    ensures z[h] != NUL <==> h < |s|
    ensures h < |s| ==> !IsSpace(s[h])
  {
    h := h0;
    while IsSpace(z[h])
      invariant h0 <= h <= |s| && h + Blanks(s[h..]) == h0 + Blanks(s[h0..])
      decreases |s| - h
    {
      h := h + 1;
    }
  }

  /** The extent of the token that starts at `z[h0]`. */
  method ScanToken(z: array<char>, h0: nat, ghost s: string) returns (arg: nat, stop: nat)
    requires h0 < |s| && Unread(z, 0, s, h0)
    ensures arg == h0 + TokenStart(s[h0..]) && stop == h0 + TokenStop(s[h0..])
  {
    if IsQuote(z[h0]) {
      arg := h0 + 1;
      stop := ScanQuoted(z, arg, z[h0], s);
      assert s[h0..][1..] == s[arg..];
    } else {
      arg := h0;
      stop := ScanWord(z, arg, s);
    }
  }

  /** Terminates the text at `z[arg..stop]`. */
  method EndToken(z: array<char>, arg: nat, stop: nat, ghost s: string) returns (h: nat)
    requires arg <= stop <= |s| && Unread(z, 0, s, arg)
    modifies z
    ensures h == (if stop < |s| then stop + 1 else stop) && Unread(z, 0, s, h) && Unread(z, arg, s[arg..stop], 0)
    ensures forall x :: 0 <= x < arg ==> z[x] == old(z[x])
  {
    h := stop;
    assert stop < |s| ==> s[stop] != NUL;
    if z[h] != NUL {
      z[h] := NUL;
      h := h + 1;
    }
  }

  lemma TokenIs(s: string, h0: nat, arg: nat, stop: nat, h: nat)
    requires h0 < |s| && !IsSpace(s[h0]) && arg == h0 + TokenStart(s[h0..]) && stop == h0 + TokenStop(s[h0..])
    requires h == if stop < |s| then stop + 1 else stop
    ensures h0 < h && s[h..] == AfterToken(s[h0..])
    ensures Token(s[h0..]) == if s[h0] == '\'' then s[arg..stop] else Decode(s[arg..stop])
  {
    assert s[h0..][TokenStart(s[h0..])..TokenStop(s[h0..])] == s[arg..stop];
  }

  /** One token, which starts at `z[h0]`: it is terminated and decoded in place. */
  method TakeToken(z: array<char>, h0: nat, ghost s: string) returns (arg: nat, h: nat)
    requires h0 < |s| && Unread(z, 0, s, h0) && !IsSpace(s[h0])
    modifies z
    ensures h0 <= arg && h0 < h <= |s| && Unread(z, 0, s, h) && ArgAt(z, arg, Token(s[h0..]), h, |s|)
    ensures s[h..] == AfterToken(s[h0..])
    ensures forall x :: 0 <= x < h0 ==> z[x] == old(z[x])
  {
    hide Decode, QuotedLen, WordLen;
    var delim := z[h0];
    var stop;
    arg, stop := ScanToken(z, h0, s);
    h := EndToken(z, arg, stop, s);
    TokenIs(s, h0, arg, stop, h);
    if delim != '\'' { ResolveBackslashes(z, arg, s[arg..stop]); }
  }

  /** The arguments taken so far are the first of `goal`. */
  ghost predicate ArgsAt(z: array<char>, args: seq<nat>, goal: seq<string>, h: nat, n: nat)
    reads z
  {
    |args| <= |goal| && forall k :: 0 <= k < |args| ==> ArgAt(z, args[k], goal[k], h, n)
  }

  /** The tokens from number `m` on are read from `s[h..]`. */
  ghost predicate Left(goal: seq<string>, m: nat, s: string, h: nat, room: nat) {
    m <= |goal| && h <= |s| && goal[m..] == Tokens(s[h..], room)
  }

  lemma LeftNext(goal: seq<string>, m: nat, s: string, h: nat, start: nat, h': nat, room: nat)
    requires Left(goal, m, s, h, room) && start == h + Blanks(s[h..]) && start < |s| && room > 0
    requires h' <= |s| && s[h'..] == AfterToken(s[start..])
    ensures m < |goal| && goal[m] == Token(s[start..]) && Left(goal, m + 1, s, h', room - 1)
  {
    hide Tokens, Token, AfterToken, Blanks;
    assert s[h..][Blanks(s[h..])..] == s[start..];
    TokensStep(s[h..], room);
    var rest := Tokens(s[h'..], room - 1);
    assert goal[m..] == [Token(s[start..])] + rest;
    assert goal[m + 1..] == goal[m..][1..];
    assert ([Token(s[start..])] + rest)[1..] == rest;
  }

  lemma TokensStep(s: string, room: nat)
    ensures var t := s[Blanks(s)..];
            Tokens(s, room) == if room == 0 || t == [] then [] else [Token(t)] + Tokens(AfterToken(t), room - 1)
  {
    hide Token, AfterToken;
  }

  lemma LeftNone(goal: seq<string>, m: nat, s: string, h: nat, room: nat)
    requires Left(goal, m, s, h, room) && (room == 0 || h + Blanks(s[h..]) == |s|)
    ensures m == |goal|
  {
    hide Tokens, Token, AfterToken, Blanks;
    TokensStep(s[h..], room);
    assert s[h..][Blanks(s[h..])..] == s[h + Blanks(s[h..])..];
    assert goal[m..] == [];
  }

  method AddToken(z: array<char>, args: seq<nat>, h1: nat, start: nat, ghost s: string, ghost goal: seq<string>)
    returns (args': seq<nat>, h: nat)
    requires h1 <= start < |s| && Unread(z, 0, s, h1) && !IsSpace(s[start]) && ArgsAt(z, args, goal, h1, |s|)
    requires |args| < |goal| && goal[|args|] == Token(s[start..])
    modifies z
    ensures start < h <= |s| && Unread(z, 0, s, h) && s[h..] == AfterToken(s[start..])
    ensures |args'| == |args| + 1 && ArgsAt(z, args', goal, h, |s|)
  {
    var arg;
    arg, h := TakeToken(z, start, s);
    forall k | 0 <= k < |args| ensures ArgAt(z, args[k], goal[k], h, |s|) {
      assert old(ArgAt(z, args[k], goal[k], h1, |s|));
    }
    args' := args + [arg];
  }

  /** The loop test and one round of the tokenizer: false when no token is left to take. */
  method TakeNext(z: array<char>, args: seq<nat>, h1: nat, room: nat, ghost s: string, ghost goal: seq<string>)
    returns (more: bool, args': seq<nat>, h: nat)
    requires Unread(z, 0, s, h1) && ArgsAt(z, args, goal, h1, |s|) && Left(goal, |args|, s, h1, room)
    modifies z
    ensures !more ==> |args'| == |goal| && ArgsAt(z, args', goal, |s|, |s|)
    ensures more ==>
              && h1 < h <= |s| && Unread(z, 0, s, h) && |args'| == |args| + 1 && ArgsAt(z, args', goal, h, |s|)
              && room > 0 && Left(goal, |args'|, s, h, room - 1)
  {
    hide Left, Tokens, Token, AfterToken, Blanks;
    args', h := args, h1;
    if !(z[h] != NUL && room > 0) {
      if room > 0 { BlanksAtEnd(z, s, h); }
      LeftNone(goal, |args|, s, h, room);
      return false, args', h;
    }
    h := ScanBlanks(z, h, s);
    if z[h] == NUL {
      LeftNone(goal, |args|, s, h1, room);
      return false, args', h;
    }
    ghost var start := h;
    more := true;
    LeftHead(goal, |args|, s, h1, start, room);
    args', h := AddToken(z, args, h1, h, s, goal);
    LeftNext(goal, |args|, s, h1, start, h, room);
  }

  lemma LeftHead(goal: seq<string>, m: nat, s: string, h: nat, start: nat, room: nat)
    requires Left(goal, m, s, h, room) && start == h + Blanks(s[h..]) && start < |s| && room > 0
    ensures m < |goal| && goal[m] == Token(s[start..])
  {
    hide Tokens, Token, AfterToken, Blanks;
    TokensStep(s[h..], room);
    assert s[h..][Blanks(s[h..])..] == s[start..];
    assert goal[m..][0] == goal[m];
  }

  lemma BlanksAtEnd(z: array<char>, s: string, h: nat)
    requires Unread(z, 0, s, h) && z[h] == NUL
    ensures h + Blanks(s[h..]) == |s|
  {
  }

  /** The tokens of the text `s` in the buffer, from `z[h0]` on, with room for `max` (50 in the shell): the offsets of
      the terminated arguments. */
  method Tokenize(z: array<char>, h0: nat, max: nat, ghost s: string) returns (args: seq<nat>)
    requires h0 <= |s| && Unread(z, 0, s, h0)
    modifies z
    ensures |args| == |Tokens(s[h0..], max)| && ArgsAt(z, args, Tokens(s[h0..], max), |s|, |s|)
  {
    args := [];
    var h, more, room: nat := h0, true, max;
    ghost var goal := Tokens(s[h0..], max);
    assert goal[0..] == goal;
    while more
      invariant more ==> h <= |s| && Unread(z, 0, s, h) && ArgsAt(z, args, goal, h, |s|)
      invariant more ==> room + |args| == max && Left(goal, |args|, s, h, room)
      invariant !more ==> |args| == |goal| && ArgsAt(z, args, goal, |s|, |s|)
      decreases more, |s| - h
    {
      more, args, h := TakeNext(z, args, h, room, s, goal);
      if more { room := room - 1; }
    }
  }
}
