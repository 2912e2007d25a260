/** A command line built with `output_c_string` is split into the arguments it was built from. */
module CStringRoundTrip {
  import opened CText
  import opened CStrings

  predicate AllBytes(args: seq<string>) {
    args == [] || (Bytes(args[0]) && AllBytes(args[1..]))
  }

  /** Arguments as string literals, with a blank between them. */
  function Literals(args: seq<string>): string {
    if args == [] then [] else CString(args[0]) + ArgLine(args[1..], Literals(args[1..]))
  }

  /** The literals `text` of `args`, with a blank in front. */
  function ArgLine(args: seq<string>, text: string): string {
    if args == [] then [] else [' '] + text
  }

  lemma LiteralPair(e: string, tail: string)
    requires |e| == 2 && e[0] == '\\'
    ensures QuotedLen(e + tail, '"') == 2 + QuotedLen(tail, '"')
  {
    assert (e + tail)[2..] == tail;
  }

  lemma LiteralPlain(c: char, tail: string)
    requires c != '\\' && c != '"'
    ensures QuotedLen([c] + tail, '"') == 1 + QuotedLen(tail, '"')
  {
    assert ([c] + tail)[1..] == tail;
  }

  /** A quoted character does not end the literal. */
  lemma LiteralChar(c: char, tail: string)
    ensures QuotedLen(EscapeChar(c) + tail, '"') == |EscapeChar(c)| + QuotedLen(tail, '"')
  {
    var e := EscapeChar(c);
    if |e| == 1 {
      LiteralPlain(c, tail);
    } else if |e| == 2 {
      LiteralPair(e, tail);
    } else {
      assert e + tail == e[..2] + ([e[2]] + ([e[3]] + tail));
      LiteralPair(e[..2], [e[2]] + ([e[3]] + tail));
      LiteralPlain(e[2], [e[3]] + tail);
      LiteralPlain(e[3], tail);
    }
  }

  lemma {:induction false} LiteralEnds(s: string, tail: string)
    requires tail != [] && tail[0] == '"'
    ensures QuotedLen(Escaped(s) + tail, '"') == |Escaped(s)|
  {
    if s == [] {
      assert Escaped(s) + tail == tail;
    } else {
      var more := Escaped(s[1..]) + tail;
      assert Escaped(s) + tail == EscapeChar(s[0]) + more;
      LiteralChar(s[0], more);
      LiteralEnds(s[1..], tail);
    }
  }

  /** One literal is one token, and decodes to the text it was made from. */
  lemma LiteralToken(s: string, rest: string)
    requires Bytes(s)
    ensures Token(CString(s) + rest) == s && AfterToken(CString(s) + rest) == rest
  {
    var t := CString(s) + rest;
    var tail := "\"" + rest;
    assert t[1..] == Escaped(s) + tail;
    LiteralEnds(s, tail);
    var stop := 1 + |Escaped(s)|;
    assert TokenStop(t) == stop && t[1..stop] == Escaped(s) && t[stop + 1..] == rest;
    DecodeEscaped(s);
  }

  /** The tokenizer splits `line` into `toks`. */
  ghost predicate Splits(line: string, room: nat, toks: seq<string>) {
    Tokens(line, room) == toks
  }

  lemma SplitsBlank(s: string, room: nat, toks: seq<string>)
    requires (s == [] || !IsSpace(s[0])) && Splits(s, room, toks)
    ensures Splits([' '] + s, room, toks)
  {
    var line := [' '] + s;
    assert line[1..] == s && Blanks(line) == 1;
    assert s[Blanks(s)..] == s;
  }

  /** `t` starts with the token `tok`, which `after` follows. */
  predicate Heads(t: string, tok: string, after: string) {
    t != [] && !IsSpace(t[0]) && Token(t) == tok && AfterToken(t) == after
  }

  lemma SplitsHead(t: string, tok: string, after: string, room: nat, toks: seq<string>)
    requires Heads(t, tok, after) && room > 0 && Splits(after, room - 1, toks)
    ensures Splits(t, room, [tok] + toks)
  {
    assert t[Blanks(t)..] == t;
  }

  lemma LiteralHeads(s: string, rest: string)
    requires Bytes(s)
    ensures Heads(CString(s) + rest, s, rest)
  {
    LiteralToken(s, rest);
  }

  /** The text that follows a token splits into `args`. */
  lemma ArgLineSplits(args: seq<string>, text: string, room: nat)
    requires |args| <= room && (args != [] ==> text != [] && text[0] == '"' && Splits(text, room, args))
    ensures Splits(ArgLine(args, text), room, args)
  {
    if args != [] { SplitsBlank(text, room, args); }
  }

  /** `text` holds the literals of `args`. */
  ghost predicate Holds(text: string, room: nat, args: seq<string>) {
    Splits(text, room, args) && (args != [] ==> text != [] && text[0] == '"')
  }

  lemma EmptyHolds(room: nat)
    ensures Holds([], room, [])
  {
  }

  lemma LiteralStep(a: string, more: seq<string>, text: string, room: nat)
    requires Bytes(a) && |more| < room && Holds(text, room - 1, more)
    ensures Holds(CString(a) + ArgLine(more, text), room, [a] + more)
  {
    hide Splits, Heads, ArgLine, Escaped;
    var rest := ArgLine(more, text);
    ArgLineSplits(more, text, room - 1);
    LiteralHeads(a, rest);
    SplitsHead(CString(a) + rest, a, rest, room, more);
  }

  lemma {:induction false} LiteralTokens(args: seq<string>, room: nat)
    requires |args| <= room && AllBytes(args)
    ensures Holds(Literals(args), room, args)
  {
    hide Holds, ArgLine, CString;
    if args == [] {
      EmptyHolds(room);
    } else {
      LiteralTokens(args[1..], room - 1);
      LiteralStep(args[0], args[1..], Literals(args[1..]), room);
      assert [args[0]] + args[1..] == args;
    }
  }

  predicate IsWord(w: string) {
    w != [] && !IsQuote(w[0]) && forall i :: 0 <= i < |w| ==> !IsSpace(w[i]) && w[i] != '\\' && w[i] != NUL
  }

  lemma {:induction false} DecodePlainText(w: string)
    requires forall i :: 0 <= i < |w| ==> w[i] != '\\'
    ensures Decode(w) == w
  {
    if w != [] { DecodePlainText(w[1..]); }
  }

  lemma WordLenIs(w: string, rest: string)
    requires (forall i :: 0 <= i < |w| ==> !IsSpace(w[i])) && (rest == [] || IsSpace(rest[0]))
    ensures WordLen(w + rest) == |w|
  {
    var t := w + rest;
    assert forall i :: 0 <= i < |w| ==> t[i] == w[i];
    assert rest == [] || t[|w|] == rest[0];
  }

  lemma WordToken(word: string, rest: string)
    requires IsWord(word) && (rest == [] || IsSpace(rest[0]))
    ensures Heads(word + rest, word, if rest == [] then [] else rest[1..])
  {
    var t := word + rest;
    WordLenIs(word, rest);
    DecodePlainText(word);
    assert t[0..|word|] == word;
    if rest != [] { assert t[|word| + 1..] == rest[1..]; }
  }

  lemma {:induction false} EscapedNulFree(s: string)
    requires Bytes(s)
    ensures NulFree(Escaped(s))
  {
    if s != [] { EscapedNulFree(s[1..]); }
  }

  /** The line is a C string: what is written holds no NUL. */
  lemma {:induction false} LiteralsNulFree(args: seq<string>)
    requires AllBytes(args)
    ensures NulFree(Literals(args))
  {
    if args != [] {
      EscapedNulFree(args[0]);
      LiteralsNulFree(args[1..]);
    }
  }

  /** The command line below is a C string too. */
  lemma LineNulFree(word: string, args: seq<string>)
    requires IsWord(word) && AllBytes(args)
    ensures NulFree(word + ArgLine(args, Literals(args)))
  {
    LiteralsNulFree(args);
  }

  lemma CommandHead(word: string, args: seq<string>)
    requires IsWord(word)
    ensures Heads(word + ArgLine(args, Literals(args)), word, Literals(args))
  {
    hide CString;
    var text := Literals(args);
    WordToken(word, ArgLine(args, text));
    assert args != [] ==> ([' '] + text)[1..] == text;
  }

  /** A command word followed by any byte strings, each written by `output_c_string`: the tokenizer returns the word
      and the strings, as long as there is room for them. */
  lemma CommandLine(word: string, args: seq<string>, room: nat)
    requires IsWord(word) && |args| < room && AllBytes(args)
    ensures Splits(word + ArgLine(args, Literals(args)), room, [word] + args)
  {
    hide Splits, Heads, ArgLine, Literals, AllBytes, IsWord;
    LiteralTokens(args, room - 1);
    CommandHead(word, args);
    SplitsHead(word + ArgLine(args, Literals(args)), word, Literals(args), room, args);
  }
}
