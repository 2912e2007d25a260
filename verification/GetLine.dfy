/** `local_getline`: lines of a text stream, read in chunks into a growing buffer. */
module GetLine {
  import opened CText
  import opened Options

  /** Offset of the first newline from `k` on, or the end. */
  function Newline(s: string, k: nat): (n: nat)
    requires k <= |s|
    decreases |s| - k
    ensures k <= n <= |s| && (n < |s| ==> s[n] == '\n') && forall i :: k <= i < n ==> s[i] != '\n'
  {
    if k == |s| || s[k] == '\n' then k else Newline(s, k + 1)
  }

  function DropCr(s: string): string {
    if s != [] && s[|s| - 1] == '\r' then s[..|s| - 1] else s
  }

  /** The line that starts at `k`: a newline is dropped, with one carriage return in front of it. */
  function LineAt(s: string, k: nat): string
    requires k <= |s|
  {
    var e := Newline(s, k);
    if e < |s| then DropCr(s[k..e]) else s[k..]
  }

  function AfterLine(s: string, k: nat): (n: nat)
    requires k <= |s|
    ensures k <= n <= |s| && (k < |s| ==> k < n)
  {
    var e := Newline(s, k);
    if e < |s| then e + 1 else e
  }

  /** All lines of a text. */
  function Lines(s: string, k: nat): seq<string>
    requires k <= |s|
    decreases |s| - k
  {
    if k == |s| then [] else [LineAt(s, k)] + Lines(s, AfterLine(s, k))
  }

  class Stream {
    const data: string
    var pos: nat

    ghost predicate Valid()
      reads this
    {
      pos <= |data| && NulFree(data)
    }

    constructor (data: string)
      requires NulFree(data)
      ensures Valid() && this.data == data && pos == 0
    {
      this.data, pos := data, 0;
    }

    /** `fgets(&z[n], size, in)`: at most `size - 1` characters, up to and including a newline, and a terminator; `m`
        is 0 at the end of the stream, where the buffer is left alone. */
    method Fgets(z: seq<char>, n: nat, size: nat) returns (z': seq<char>, m: nat)
      requires Valid() && size > 1 && n + size <= |z|
      modifies this
      ensures Valid() && pos == old(pos) + m && m < size && (m == 0 <==> old(pos) == |data|)
      ensures m == 0 ==> z' == z
      ensures m > 0 ==>
                && |z'| == |z| && z'[..n + m] == z[..n] + data[old(pos)..pos] && z'[n + m] == NUL
                && (forall i :: old(pos) <= i < pos - 1 ==> data[i] != '\n')
                && (pos < |data| && data[pos - 1] != '\n' ==> m == size - 1)
    {
      m := 0;
      z' := z;
      if pos == |data| { return; }
      var go := true;
      while go && m < size - 1 && pos < |data|
        invariant Valid() && m < size && pos == old(pos) + m && |z'| == |z|
        invariant z'[..n + m] == z[..n] + data[old(pos)..pos]
        invariant forall i :: old(pos) <= i < pos - 1 ==> data[i] != '\n'
        invariant go <==> m == 0 || data[pos - 1] != '\n'
        decreases size - m
      {
        var c := data[pos];
        z' := z'[n + m := c];
        pos, m := pos + 1, m + 1;
        assert z'[..n + m] == z'[..n + m - 1] + [c];
        assert data[old(pos)..pos] == data[old(pos)..pos - 1] + [c];
        go := c != '\n';
      }
      ghost var text := z'[..n + m];
      z' := z'[n + m := NUL];
      assert z'[..n + m] == text;
    }
  }

  /** `realloc`: the first characters stay. */
  function Resized(z: seq<char>, n: nat): (r: seq<char>)
    ensures |r| == n && forall i :: 0 <= i < n && i < |z| ==> r[i] == z[i]
  {
    if n <= |z| then z[..n] else z + seq(n - |z|, _ => NUL)
  }

  /** `n` characters of the line that starts at `start` are in the buffer. */
  ghost predicate Reading(input: Stream, start: nat, z: seq<char>, n: nat)
    reads input
  {
    && input.Valid() && start + n == input.pos && n <= |z| && z[..n] == input.data[start..input.pos]
    && forall i :: start <= i < input.pos ==> input.data[i] != '\n'
  }

  /** `local_getline`: the next line of the stream, in a buffer that may be used again. */
  method LocalGetline(prior: Option<seq<char>>, input: Stream) returns (zLine: Option<seq<char>>, ghost line: string)
    requires input.Valid() && (prior.Some? ==> |prior.value| >= 100)
    modifies input
    ensures input.Valid()
    ensures zLine.None? <==> old(input.pos) == |input.data|
    ensures zLine.None? ==> input.pos == old(input.pos)
    ensures zLine.Some? ==>
              && line == LineAt(input.data, old(input.pos)) && input.pos == AfterLine(input.data, old(input.pos))
              && |line| < |zLine.value| && |zLine.value| >= 100
              && zLine.value[..|line|] == line && zLine.value[|line|] == NUL && NulFree(line)
  {
    var nLine: nat := if prior.None? then 0 else 100;
    var z := if prior.None? then [] else prior.value;
    var n: nat := 0;
    ghost var start := input.pos;
    while true
      invariant Reading(input, start, z, n) && n <= nLine <= |z|
      invariant nLine == 0 || nLine >= 100
      decreases |input.data| - input.pos
    {
      if n + 100 > nLine {
        ghost var text := z[..n];
        nLine := nLine * 2 + 100;
        z := Resized(z, nLine);
        assert z[..n] == text;
      }
      assert nLine - n >= 100;
      ghost var n0 := n;
      var more;
      z, n, more := ReadChunk(z, n, nLine - n, input, start);
      if !more {
        if n == 0 { return None, []; }
        z := z[n := NUL];
        AtEnd(input.data, start);
        LineNulFree(input.data, start);
        line := z[..n];
        return Some(z), line;
      }
      if z[n - 1] == '\n' {
        z, line := EndLine(z, n, input, start);
        LineNulFree(input.data, start);
        return Some(z), line;
      }
      StillReading(input, start, z, n);
    }
  }

  /** `fgets` and the loop that looks for the new end; `more` is false at the end of the stream. */
  method ReadChunk(z0: seq<char>, n0: nat, size: nat, input: Stream, ghost start: nat) returns (z: seq<char>, n: nat, more: bool)
    requires Reading(input, start, z0, n0) && size > 1 && n0 + size <= |z0|
    modifies input
    ensures |z| == |z0| && input.Valid() && start + n == input.pos && old(input.pos) <= input.pos
    ensures n < |z| && z[..n] == input.data[start..input.pos]
    ensures forall i :: start <= i < input.pos - 1 ==> input.data[i] != '\n'
    ensures n < n0 + size && (more <==> n > n0)
    ensures !more ==> input.pos == |input.data| && Reading(input, start, z, n)
    ensures more ==> z[n] == NUL
  {
    var m;
    z, m := input.Fgets(z0, n0, size);
    assert input.data[start..input.pos] == input.data[start..old(input.pos)] + input.data[old(input.pos)..input.pos];
    more := m > 0;
    n := n0;
    if more {
      ChunkText(z, n0 + m, input.data, start);
      while z[n] != NUL
        invariant n0 <= n <= n0 + m
        decreases n0 + m - n
      {
        n := n + 1;
      }
    }
  }

  lemma ChunkText(z: seq<char>, k: nat, data: string, start: nat)
    requires k <= |z| && NulFree(data) && start + k <= |data| && z[..k] == data[start..start + k]
    ensures forall i :: 0 <= i < k ==> z[i] != NUL
  {
    forall i | 0 <= i < k ensures z[i] != NUL {
      assert z[..k][i] == data[start + i];
    }
  }

  lemma StillReading(input: Stream, start: nat, z: seq<char>, n: nat)
    requires input.Valid() && start + n == input.pos && 0 < n <= |z| && z[..n] == input.data[start..input.pos] && z[n - 1] != '\n'
    requires forall i :: start <= i < input.pos - 1 ==> input.data[i] != '\n'
    ensures Reading(input, start, z, n)
  {
    assert z[..n][n - 1] == input.data[input.pos - 1];
  }

  /** The newline, and a carriage return in front of it, are cut off. */
  method EndLine(z0: seq<char>, n0: nat, input: Stream, ghost start: nat) returns (z: seq<char>, ghost line: string)
    requires input.Valid() && start + n0 == input.pos && 0 < n0 < |z0| && z0[..n0] == input.data[start..input.pos]
    requires z0[n0 - 1] == '\n' && forall i :: start <= i < input.pos - 1 ==> input.data[i] != '\n'
    ensures |z| == |z0| && |line| < |z| && z[..|line|] == line && z[|line|] == NUL
    ensures line == LineAt(input.data, start) && input.pos == AfterLine(input.data, start)
  {
    var n := n0 - 1;
    assert z0[..n0][n] == input.data[input.pos - 1];
    AtNewline(input.data, start, input.pos - 1);
    assert z0[..n] == input.data[start..input.pos - 1] by { assert z0[..n0][..n] == z0[..n]; }
    assert n > 0 ==> z0[n - 1] == input.data[start..input.pos - 1][n - 1];
    if n > 0 && z0[n - 1] == '\r' { n := n - 1; }
    line := z0[..n];
    z := z0[n := NUL];
  }

  lemma LineNulFree(s: string, k: nat)
    requires k <= |s| && NulFree(s)
    ensures NulFree(LineAt(s, k))
  {
  }

  lemma AtEnd(s: string, start: nat)
    requires start <= |s| && forall i :: start <= i < |s| ==> s[i] != '\n'
    ensures LineAt(s, start) == s[start..] && AfterLine(s, start) == |s|
  {
  }

  lemma AtNewline(s: string, start: nat, e: nat)
    requires start <= e < |s| && s[e] == '\n' && forall i :: start <= i < e ==> s[i] != '\n'
    ensures LineAt(s, start) == DropCr(s[start..e]) && AfterLine(s, start) == e + 1
  {
  }

  /** Reads lines until there are none, each into the buffer of the one before. */
  method ReadAll(input: Stream) returns (lines: seq<string>)
    requires input.Valid() && input.pos == 0
    modifies input
    ensures lines == Lines(input.data, 0)
  {
    hide LineAt, AfterLine, NulFree;
    lines := [];
    var zLine := None;
    while true
      invariant input.Valid() && (zLine.Some? ==> |zLine.value| >= 100)
      invariant lines + Lines(input.data, input.pos) == Lines(input.data, 0)
      decreases |input.data| - input.pos
    {
      ghost var line;
      var got;
      ghost var k := input.pos;
      got, line := LocalGetline(zLine, input);
      if got.None? { return; }
      zLine := got;
      var text := Text(got.value, |line|);
      assert Lines(input.data, k) == [line] + Lines(input.data, input.pos);
      assert lines + ([line] + Lines(input.data, input.pos)) == (lines + [line]) + Lines(input.data, input.pos);
      lines := lines + [text];
    }
  }

  /** The C string at the start of a buffer. */
  method Text(z: seq<char>, ghost n: nat) returns (s: string)
    requires n < |z| && z[n] == NUL && NulFree(z[..n])
    ensures s == z[..n]
  {
    var i := 0;
    while z[i] != NUL
      invariant i <= n
      decreases n - i
    {
      i := i + 1;
    }
    s := z[..i];
  }

  // ---- Writing lines and reading them back -------------------------------------------------

  function Joined(lines: seq<string>, eol: string): string {
    if lines == [] then [] else lines[0] + eol + Joined(lines[1..], eol)
  }

  predicate IsEol(eol: string) {
    eol == "\n" || eol == "\r\n"
  }

  /** A line that can be written with `eol`: no newline in it and, before a bare newline, no carriage return at its end. */
  predicate IsLine(line: string, eol: string) {
    '\n' !in line && (eol == "\n" ==> DropCr(line) == line)
  }

  lemma LineReads(pre: string, line: string, eol: string, rest: string)
    requires IsEol(eol) && IsLine(line, eol)
    ensures var s := pre + (line + eol + rest);
            LineAt(s, |pre|) == line && AfterLine(s, |pre|) == |pre| + |line| + |eol|
  {
    var s := pre + (line + eol + rest);
    var e := |pre| + |line| + |eol| - 1;
    forall i | |pre| <= i < e ensures s[i] != '\n' {
      if i < |pre| + |line| { assert s[i] == line[i - |pre|]; }
    }
    AtNewline(s, |pre|, e);
    assert s[|pre|..e] == line + eol[..|eol| - 1];
    if eol == "\n" { assert line + eol[..0] == line; } else { assert eol[..1] == "\r" && (line + "\r")[..|line|] == line; }
  }

  lemma {:induction false} JoinedReads(pre: string, lines: seq<string>, eol: string)
    requires IsEol(eol) && forall l :: l in lines ==> IsLine(l, eol)
    ensures Lines(pre + Joined(lines, eol), |pre|) == lines
    decreases |lines|
  {
    hide LineAt, AfterLine, IsLine, DropCr;
    if lines == [] {
      assert pre + [] == pre;
    } else {
      var l, rest := lines[0], Joined(lines[1..], eol);
      var s := pre + (l + eol + rest);
      LineReads(pre, l, eol, rest);
      JoinedReads(pre + (l + eol), lines[1..], eol);
      assert pre + (l + eol) + rest == s;
      LinesNext(s, |pre|, lines);
    }
  }

  lemma LinesNext(s: string, k: nat, lines: seq<string>)
    requires k < |s| && lines != [] && LineAt(s, k) == lines[0] && Lines(s, AfterLine(s, k)) == lines[1..]
    ensures Lines(s, k) == lines
  {
    hide LineAt, AfterLine;
    assert lines == [lines[0]] + lines[1..];
  }

  lemma LastReads(pre: string, last: string)
    requires last != "" && '\n' !in last
    ensures Lines(pre + last, |pre|) == [last]
  {
    var s := pre + last;
    forall i | |pre| <= i < |s| ensures s[i] != '\n' { assert s[i] == last[i - |pre|]; }
    AtEnd(s, |pre|);
    assert s[|pre|..] == last;
  }

  lemma {:induction false} OpenReads(pre: string, lines: seq<string>, eol: string, last: string)
    requires IsEol(eol) && (forall l :: l in lines ==> IsLine(l, eol)) && last != "" && '\n' !in last
    ensures Lines(pre + (Joined(lines, eol) + last), |pre|) == lines + [last]
    decreases |lines|
  {
    hide LineAt, AfterLine, IsLine, DropCr;
    if lines == [] {
      assert pre + ([] + last) == pre + last;
      LastReads(pre, last);
    } else {
      var l, rest := lines[0], Joined(lines[1..], eol) + last;
      var s := pre + (l + eol + rest);
      assert Joined(lines, eol) + last == l + eol + rest;
      LineReads(pre, l, eol, rest);
      OpenReads(pre + (l + eol), lines[1..], eol, last);
      assert pre + (l + eol) + rest == s;
      assert (lines + [last])[1..] == lines[1..] + [last];
      LinesNext(s, |pre|, lines + [last]);
    }
  }

  /** A last line without its line end is read as it is, with a carriage return at its end if it has one. */
  lemma LastLineReads(lines: seq<string>, eol: string, last: string)
    requires IsEol(eol) && (forall l :: l in lines ==> IsLine(l, eol)) && last != "" && '\n' !in last
    ensures Lines(Joined(lines, eol) + last, 0) == lines + [last]
  {
    OpenReads([], lines, eol, last);
    assert [] + (Joined(lines, eol) + last) == Joined(lines, eol) + last;
  }

  /** Lines written with LF or CRLF line ends are read back as they were. */
  lemma LinesRoundTrip(lines: seq<string>, eol: string)
    requires IsEol(eol) && forall l :: l in lines ==> IsLine(l, eol)
    ensures Lines(Joined(lines, eol), 0) == lines
  {
    JoinedReads([], lines, eol);
    assert [] + Joined(lines, eol) == Joined(lines, eol);
  }
}
