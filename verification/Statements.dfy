/** `process_input`: input lines are accumulated into SQL statements.  What the lines mean, as a function. */
module Statements {
  import opened CText
  import CStrings

  /** `complete` is `sqlite3_complete`; `meta` and `fails` are the outcomes of the meta-command and of the statement at
      a line number, and `bail` is the setting after that line, which a meta-command can change. */
  datatype Config = Config(
    complete: string -> bool, meta: nat -> int, fails: nat -> bool, bail: nat -> bool, interactive: bool, backslashOn: bool)

  // ---- White space and comments ------------------------------------------------------------

  /** Offset of the first end of a block comment from `k` on, or the length. */
  function CommentEnd(z: string, k: nat): (n: nat)
    requires k <= |z|
    decreases |z| - k
    ensures k <= n <= |z| && (n < |z| ==> n + 1 < |z| && z[n] == '*' && z[n + 1] == '/')
  {
    if k == |z| then k
    else if z[k] == '*' && k + 1 < |z| && z[k + 1] == '/' then k
    else CommentEnd(z, k + 1)
  }

  function LineEnd(z: string, k: nat): (n: nat)
    requires k <= |z|
    decreases |z| - k
    ensures k <= n <= |z| && (n < |z| ==> z[n] == '\n')
  {
    if k == |z| || z[k] == '\n' then k else LineEnd(z, k + 1)
  }

  predicate Starts(z: string, k: nat, a: char, b: char)
    requires k <= |z|
  {
    k + 1 < |z| && z[k] == a && z[k + 1] == b
  }

  /** From `k` on there are only white space and comments; a block comment must be closed. */
  predicate AllBlank(z: string, k: nat)
    requires k <= |z|
    decreases |z| - k
  {
    if k == |z| then true
    else if IsSpace(z[k]) then AllBlank(z, k + 1)
    else if Starts(z, k, '/', '*') then
      var e := CommentEnd(z, k + 2);
      e < |z| && AllBlank(z, e + 2)
    else if Starts(z, k, '-', '-') then
      var e := LineEnd(z, k + 2);
      e == |z| || AllBlank(z, e + 1)
    else false
  }

  function ToLower(c: char): char {
    if 'A' <= c <= 'Z' then (c as int + 32) as char else c
  }

  /** A line that holds only '/' or "go" (in any case), besides white space and comments. */
  predicate IsTerminator(line: string) {
    var k := Blanks(line);
    || (k < |line| && line[k] == '/' && AllBlank(line, k + 1))
    || (k + 1 < |line| && ToLower(line[k]) == 'g' && ToLower(line[k + 1]) == 'o' && AllBlank(line, k + 2))
  }

  method SkipBlock(z: string, k: nat) returns (e: nat)
    requires NulFree(z) && k <= |z|
    ensures e == CommentEnd(z, k)
  {
    e := k;
    while At(z, e) != NUL && (z[e] != '*' || At(z, e + 1) != '/')
      invariant k <= e <= |z| && CommentEnd(z, e) == CommentEnd(z, k)
      decreases |z| - e
    {
      e := e + 1;
    }
  }

  method SkipLine(z: string, k: nat) returns (e: nat)
    requires NulFree(z) && k <= |z|
    ensures e == LineEnd(z, k)
  {
    e := k;
    while At(z, e) != NUL && z[e] != '\n'
      invariant k <= e <= |z| && LineEnd(z, e) == LineEnd(z, k)
      decreases |z| - e
    {
      e := e + 1;
    }
  }

  method AllWhitespace(z: string, k0: nat) returns (r: bool)
    requires NulFree(z) && k0 <= |z|
    ensures r == AllBlank(z, k0)
  {
    hide CommentEnd, LineEnd;
    var k := k0;
    while At(z, k) != NUL
      invariant k0 <= k <= |z| && AllBlank(z, k) == AllBlank(z, k0)
      decreases |z| - k
    {
      if IsSpace(z[k]) {
        k := k + 1;
        continue;
      }
      if z[k] == '/' && At(z, k + 1) == '*' {
        var e := SkipBlock(z, k + 2);
        if At(z, e) == NUL { return false; }
        k := e + 2;
        continue;
      }
      if z[k] == '-' && At(z, k + 1) == '-' {
        var e := SkipLine(z, k + 2);
        if At(z, e) == NUL { return true; }
        k := e + 1;
        continue;
      }
      return false;
    }
    return true;
  }

  method LineIsCommandTerminator(line: string) returns (r: bool)
    requires NulFree(line)
    ensures r == IsTerminator(line)
  {
    var k := 0;
    while IsSpace(At(line, k))
      invariant k <= |line| && k + Blanks(line[k..]) == Blanks(line)
      decreases |line| - k
    {
      k := k + 1;
    }
    assert k == Blanks(line);
    if At(line, k) == '/' {
      var blank := AllWhitespace(line, k + 1);
      if blank { return true; }
    }
    if ToLower(At(line, k)) == 'g' && ToLower(At(line, k + 1)) == 'o' {
      var blank := AllWhitespace(line, k + 2);
      if blank { return true; }
    }
    return false;
  }

  // ---- Accumulation ------------------------------------------------------------------------

  /** What became of consumed lines.  `sql` is the text given to `shell_exec`. */
  datatype Event =
    | Blank(line: string)
    | Meta(line: string)
    | Submitted(lines: seq<string>, sql: string)
    | Discarded(lines: seq<string>)

  /** Between two lines: the events so far, the lines of the current statement and their text, whether the buffer has
      been allocated, the line number and the error count. */
  datatype State = State(events: seq<Event>, acc: seq<string>, text: string, alloc: bool, lineno: nat, errors: nat, exit: bool)

  const Start := State([], [], "", false, 0, 0, false)

  /** A line as it is appended to the text `text`: a terminator counts as ";" where the text could end. */
  function Effective(cfg: Config, alloc: bool, text: string, line: string): string {
    if IsTerminator(line) && (!alloc || cfg.complete(text + ";")) then ";" else line
  }

  /** The text with one more line; the leading white space of the first line is dropped. */
  function Appended(cfg: Config, alloc: bool, acc: seq<string>, text: string, line: string): string {
    var l := Effective(cfg, alloc, text, line);
    if acc == [] then l[Blanks(l)..] else text + "\n" + l
  }

  /** The statement ends with the line that turned `before` into `after`. */
  predicate Ends(cfg: Config, before: string, after: string) {
    |before| <= |after| && ';' in after[|before|..] && cfg.complete(after)
  }

  /** The characters before the first NUL. */
  function CStr(s: string): (t: string)
    ensures t <= s && NulFree(t) && (|t| < |s| ==> s[|t|] == NUL)
  {
    if s == [] || s[0] == NUL then [] else [s[0]] + CStr(s[1..])
  }

  function Sent(cfg: Config, text: string): string {
    if cfg.backslashOn then CStr(CStrings.Decode(text)) else text
  }

  function Step(cfg: Config, s0: State, line: string): State {
    var s := s0.(lineno := s0.lineno + 1);
    if s.acc == [] && AllBlank(line, 0) then s.(events := s.events + [Blank(line)])
    else if s.acc == [] && line != [] && line[0] == '.' then
      var rc := cfg.meta(s.lineno);
      s.(events := s.events + [Meta(line)], exit := rc == 2, errors := s.errors + if rc != 2 && rc != 0 then 1 else 0)
    else
      var text := Appended(cfg, s.alloc, s.acc, s.text, line);
      var acc := s.acc + [line];
      var t := s.(alloc := true);
      if Ends(cfg, s.text, text) then
        t.(events := s.events + [Submitted(acc, Sent(cfg, text))], acc := [], text := "",
           errors := s.errors + if cfg.fails(s.lineno) then 1 else 0)
      else if AllBlank(text, 0) then t.(events := s.events + [Discarded(acc)], acc := [], text := "")
      else t.(acc := acc, text := text)
  }

  predicate Halted(cfg: Config, s: State) {
    s.exit || (s.errors > 0 && cfg.bail(s.lineno) && !cfg.interactive)
  }

  function Run(cfg: Config, s: State, lines: seq<string>): State
    decreases |lines|
  {
    if lines == [] || Halted(cfg, s) then s else Run(cfg, Step(cfg, s, lines[0]), lines[1..])
  }
}
