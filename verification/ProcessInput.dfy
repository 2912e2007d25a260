/** `process_input` over its growable buffer, with `local_getline` for its lines. */
module ProcessInput {
  import opened CText
  import opened Statements
  import opened StatementLaws
  import opened StatementOutcome
  import opened GetLine
  import opened Options
  import CStrings

  /** The accumulated SQL text: `zSql`, `nSql` and `nAlloc`.  `zSql` is the allocated space, empty while NULL. */
  class Accumulator {
    var zSql: seq<char>
    var nSql: nat
    var nAlloc: nat

    /** Once allocated, there is room for the two characters that `line_is_complete` writes behind the text. */
    ghost predicate Valid()
      reads this
    {
      && |zSql| == nAlloc
      && (if nAlloc == 0 then nSql == 0 else nSql + 1 < nAlloc)
      && (nSql > 0 ==> zSql[nSql] == NUL) && NulFree(zSql[..nSql])
    }

    ghost function Text(): string
      requires Valid()
      reads this
    {
      zSql[..nSql]
    }

    constructor ()
      ensures Valid() && nAlloc == 0 && Text() == []
    {
      zSql, nSql, nAlloc := [], 0, 0;
    }

    /** `line_is_complete`: the text is the same afterwards. */
    method LineIsComplete(complete: string -> bool) returns (rc: bool)
      requires Valid()
      modifies this`zSql
      ensures Valid() && Text() == old(Text()) && rc == (nAlloc == 0 || complete(Text() + ";"))
    {
      if nAlloc == 0 { return true; }
      ghost var text := Text();
      zSql := zSql[nSql := ';'];
      zSql := zSql[nSql + 1 := NUL];
      assert zSql[..nSql + 1] == text + ";";
      rc := complete(zSql[..nSql + 1]);
      zSql := zSql[nSql := NUL];
      assert zSql[..nSql] == text;
    }

    /** `memcpy` of a string and its terminator to offset `at`, within the allocated space. */
    method Copy(at: nat, text: string)
      requires |zSql| == nAlloc && at + |text| + 1 <= nAlloc
      modifies this`zSql
      ensures |zSql| == nAlloc && zSql[..at + |text|] == old(zSql[..at]) + text && zSql[at + |text|] == NUL
    {
      zSql := zSql[..at] + text + [NUL] + zSql[at + |text| + 1..];
    }

    method Grow(nLine: nat)
      requires Valid()
      modifies this`zSql, this`nAlloc
      ensures Valid() && Text() == old(Text()) && nSql + nLine + 2 < nAlloc
    {
      if nSql + nLine + 2 >= nAlloc {
        nAlloc := nSql + nLine + 100;
        zSql := zSql + seq(nAlloc - |zSql|, _ => NUL);
        assert zSql[..nSql] == old(zSql[..nSql]);
      }
    }

    /** Adds a line; `prior` is where the part that it adds starts. */
    method Append(line: string) returns (prior: nat)
      requires Valid() && NulFree(line) && (nSql == 0 ==> Blanks(line) < |line|)
      modifies this
      ensures Valid() && nAlloc > 0 && prior == old(nSql) < nSql
      ensures Text() == if prior == 0 then line[Blanks(line)..] else old(Text()) + "\n" + line
    {
      Grow(|line|);
      prior := nSql;
      if nSql == 0 { AppendFirst(line); } else { AppendNext(line); }
    }

    /** The first line goes to the begin of the buffer, without its leading white space. */
    method AppendFirst(line: string)
      requires Valid() && NulFree(line) && nSql == 0 && Blanks(line) < |line| && |line| + 2 < nAlloc
      modifies this`zSql, this`nSql
      ensures Valid() && nSql > 0 && Text() == line[Blanks(line)..]
    {
      var i := 0;
      while At(line, i) != NUL && IsSpace(line[i])
        invariant i <= |line| && i + Blanks(line[i..]) == Blanks(line)
        decreases |line| - i
      {
        i := i + 1;
      }
      hide Blanks;
      Copy(0, line[i..]);
      nSql := |line| - i;
      assert zSql[..nSql] == line[i..];
    }

    /** Any other line goes behind the text and a newline. */
    method AppendNext(line: string)
      requires Valid() && NulFree(line) && nSql > 0 && nSql + |line| + 2 < nAlloc
      modifies this`zSql, this`nSql
      ensures Valid() && nSql == old(nSql) + 1 + |line| && Text() == old(Text()) + "\n" + line
    {
      ghost var text := Text();
      zSql := zSql[nSql := '\n'];
      nSql := nSql + 1;
      assert zSql[..nSql] == text + "\n";
      Copy(nSql, line);
      nSql := nSql + |line|;
      assert zSql[..nSql] == text + "\n" + line;
      JoinedNulFree(text, line);
    }

    /** The text that is given to `shell_exec`, after `resolve_backslashes` where that is on. */
    method Send(backslashOn: bool) returns (sql: string)
      requires Valid() && nSql > 0
      modifies this`zSql, this`nSql
      ensures Valid() && nSql == 0
      ensures sql == if backslashOn then CStr(CStrings.Decode(old(Text()))) else old(Text())
    {
      sql := zSql[..nSql];
      if backslashOn {
        var d := CStrings.Decode(sql);
        zSql := d + [NUL] + zSql[|d| + 1..];
        sql := CStr(d);
      }
      nSql := 0;
    }
  }

  lemma JoinedNulFree(a: string, b: string)
    requires NulFree(a) && NulFree(b)
    ensures NulFree(a + "\n" + b)
  {
  }

  lemma {:induction false} SpaceIsBlank(line: string, k: nat)
    requires k <= |line| && forall i :: k <= i < |line| ==> IsSpace(line[i])
    ensures AllBlank(line, k)
    decreases |line| - k
  {
    if k < |line| { SpaceIsBlank(line, k + 1); }
  }

  /** The buffer holds the text of the state. */
  ghost predicate Matches(buf: Accumulator, s: State)
    reads buf
  {
    buf.Valid() && buf.Text() == s.text && s.alloc == (buf.nAlloc > 0)
  }

  /** A statement under way has some text. */
  lemma TextStarted(cfg: Config, s: State)
    requires Good(cfg, s)
    ensures s.text == [] <==> s.acc == []
  {
    hide Ends, Appended;
    if s.acc != [] {
      assert !Stops(cfg, AllocAfter(false, s.events), s.acc, |s.acc|);
      assert s.acc[..|s.acc|] == s.acc;
    }
  }

  /** The part of a round that adds a line to the text. */
  method AddLine(cfg: Config, buf: Accumulator, line: string, ghost s: State) returns (prior: nat)
    requires Matches(buf, s) && (s.text == [] <==> s.acc == []) && NulFree(line) && (s.acc == [] ==> Opens(line))
    modifies buf
    ensures buf.Valid() && buf.nAlloc > 0 && prior == |s.text| < |buf.Text()|
    ensures buf.Text() == Appended(cfg, s.alloc, s.acc, s.text, line)
  {
    var zLine := line;
    var term := LineIsCommandTerminator(line);
    if term {
      var rc := buf.LineIsComplete(cfg.complete);
      if rc { zLine := ";"; }
    }
    assert zLine == Effective(cfg, s.alloc, s.text, line);
    if buf.nSql == 0 && Blanks(zLine) == |zLine| {
      SpaceIsBlank(line, 0);
      assert false;
    }
    prior := buf.Append(zLine);
  }

  method Contains(z: string, from: nat, c: char) returns (r: bool)
    requires from <= |z|
    ensures r == (c in z[from..])
  {
    for i := from to |z|
      invariant c !in z[from..i]
    {
      if z[i] == c { assert z[from..][i - from] == c; return true; }
      assert z[from..i + 1] == z[from..i] + [z[i]];
    }
    assert z[from..|z|] == z[from..];
    return false;
  }

  /** The part of a round that looks for the end of the statement; `acc` are its lines. */
  method FinishLine(cfg: Config, buf: Accumulator, prior: nat, acc: seq<string>, lineno: nat) returns (e: seq<Event>, failed: bool)
    requires buf.Valid() && buf.nAlloc > 0 && prior < |buf.Text()|
    modifies buf
    ensures buf.Valid() && buf.nAlloc > 0
    ensures var text := old(buf.Text());
            if Ends(cfg, text[..prior], text) then
              e == [Submitted(acc, Sent(cfg, text))] && failed == cfg.fails(lineno) && buf.Text() == []
            else if AllBlank(text, 0) then e == [Discarded(acc)] && !failed && buf.Text() == []
            else e == [] && !failed && buf.Text() == text
  {
    hide AllBlank;
    var text := buf.zSql[..buf.nSql];
    e, failed := [], false;
    var semicolon := Contains(text, prior, ';');
    if buf.nSql > 0 && semicolon && cfg.complete(text) {
      var sql := buf.Send(cfg.backslashOn);
      e, failed := [Submitted(acc, sql)], cfg.fails(lineno);
    } else {
      var blank := AllWhitespace(text, 0);
      if buf.nSql > 0 && blank {
        e := [Discarded(acc)];
        buf.nSql := 0;
      }
    }
  }

  /** The state as `process_input` keeps it: the buffer, the events and lines so far, and the counters. */
  ghost predicate Reached(cfg: Config, buf: Accumulator, s: State, events: seq<Event>, acc: seq<string>, lineno: nat, errCnt: nat)
    reads buf
  {
    && Matches(buf, s) && Good(cfg, s)
    && events == s.events && acc == s.acc && lineno == s.lineno && errCnt == s.errors
  }

  /** One round of the loop, for one line of input. */
  method TakeLine(cfg: Config, buf: Accumulator, line: string, events: seq<Event>, acc: seq<string>, lineno: nat, errCnt: nat,
                  ghost s: State)
    returns (events': seq<Event>, acc': seq<string>, errCnt': nat, exit: bool)
    requires Reached(cfg, buf, s, events, acc, lineno, errCnt) && NulFree(line) && !s.exit
    modifies buf
    ensures Reached(cfg, buf, Step(cfg, s, line), events', acc', lineno + 1, errCnt') && exit == Step(cfg, s, line).exit
  {
    hide Good, AllBlank, Appended, Ends, Sent;
    StepGood(cfg, s, line);
    TextStarted(cfg, s);
    events', acc', errCnt', exit := events, acc, errCnt, false;
    var blank := AllWhitespace(line, 0);
    if buf.nSql == 0 && blank {
      events' := events + [Blank(line)];
      return;
    }
    if At(line, 0) == '.' && buf.nSql == 0 {
      var rc := cfg.meta(lineno + 1);
      events' := events + [Meta(line)];
      if rc == 2 { exit := true; } else if rc != 0 { errCnt' := errCnt + 1; }
      return;
    }
    var prior := AddLine(cfg, buf, line, s);
    ghost var text := buf.Text();
    PrefixKept(cfg, s, line, text);
    acc' := acc + [line];
    var e, failed := FinishLine(cfg, buf, prior, acc', lineno + 1);
    if e != [] { acc' := []; }
    events' := events + e;
    if failed { errCnt' := errCnt + 1; }
  }

  /** The text only grows at its end. */
  lemma PrefixKept(cfg: Config, s: State, line: string, text: string)
    requires text == Appended(cfg, s.alloc, s.acc, s.text, line) && (s.text == [] <==> s.acc == []) && |s.text| <= |text|
    ensures text[..|s.text|] == s.text
  {
  }

  /** `process_input` on a stream: what became of the lines it took, the lines of the statement that is not finished,
      the number of lines taken, and the return value. */
  method ProcessInput(cfg: Config, input: Stream)
    returns (events: seq<Event>, acc: seq<string>, lineno: nat, rc: bool)
    requires input.Valid() && input.pos == 0
    modifies input
    ensures var s := Run(cfg, Start, Lines(input.data, 0));
            && events == s.events && acc == s.acc && lineno == s.lineno
            && (rc <==> s.errors > 0 || s.acc != [])
    ensures Reads(cfg, Lines(input.data, 0), events, acc, lineno)
    ensures rc <==> acc != [] || exists i :: 0 <= i < |events| && Fails(cfg, events, i)
  {
    hide Step, Good, LineAt, AfterLine;
    var buf := new Accumulator();
    var errCnt, exit := 0, false;
    events, acc, lineno := [], [], 0;
    var zLine := None;
    ghost var s := Start;
    StartGood(cfg);
    while !exit && (errCnt == 0 || !cfg.bail(lineno) || cfg.interactive)
      invariant exit == s.exit && errCnt >= 0 && input.Valid()
      invariant zLine.Some? ==> |zLine.value| >= 100
      invariant Reached(cfg, buf, s, events, acc, lineno, errCnt)
      invariant fresh(buf) && Run(cfg, Start, Lines(input.data, 0)) == Run(cfg, s, Lines(input.data, input.pos))
      decreases |input.data| - input.pos
    {
      ghost var k := input.pos;
      ghost var line;
      zLine, line := LocalGetline(zLine, input);
      if zLine.None? { break; }
      var text := Text(zLine.value, |line|);
      LinesFrom(input.data, k);
      RunNext(cfg, s, Lines(input.data, k));
      ghost var s1 := Step(cfg, s, text);
      events, acc, errCnt, exit := TakeLine(cfg, buf, text, events, acc, lineno, errCnt, s);
      s := s1;
      lineno := lineno + 1;
    }
    ReadsRun(cfg, Lines(input.data, 0));
    TextStarted(cfg, s);
    if buf.nSql > 0 {
      var blank := AllWhitespace(buf.zSql[..buf.nSql], 0);
      LeftoverNotBlank(cfg, s);
      if !blank { errCnt := errCnt + 1; }
    }
    rc := errCnt > 0;
  }

  lemma LinesFrom(s: string, k: nat)
    requires k < |s|
    ensures Lines(s, k) == [LineAt(s, k)] + Lines(s, AfterLine(s, k))
  {
  }

  lemma StartGood(cfg: Config)
    ensures Good(cfg, Start)
  {
  }

  lemma RunNext(cfg: Config, s: State, lines: seq<string>)
    requires lines != [] && !Halted(cfg, s)
    ensures Run(cfg, s, lines) == Run(cfg, Step(cfg, s, lines[0]), lines[1..])
  {
    hide Step;
  }

  /** What is left at the end of the input is never blank: the final check always reports it. */
  lemma LeftoverNotBlank(cfg: Config, s: State)
    requires Good(cfg, s) && s.acc != []
    ensures !AllBlank(s.text, 0)
  {
    hide Ends, Appended;
    assert !Stops(cfg, AllocAfter(false, s.events), s.acc, |s.acc|);
    assert s.acc[..|s.acc|] == s.acc;
  }
}
