/** The texts that `_all_whitespace` accepts. */
module BlankText {
  import opened CText
  import opened Statements

  /** A block comment with its end, which is the first one in it. */
  predicate IsBlock(w: string) {
    && |w| >= 4 && w[0] == '/' && w[1] == '*' && EndAt(w, |w| - 2)
    && forall i :: 2 <= i < |w| - 2 ==> !EndAt(w, i)
  }

  predicate EndAt(w: string, i: nat) {
    i + 1 < |w| && w[i] == '*' && w[i + 1] == '/'
  }

  /** A line comment with its newline, which only the last one of a text may lack. */
  predicate IsLine(w: string, last: bool) {
    && |w| >= 2 && w[0] == '-' && w[1] == '-'
    && (forall i :: 2 <= i < |w| - 1 ==> w[i] != '\n')
    && ((|w| > 2 && w[|w| - 1] == '\n') || last)
  }

  predicate IsPiece(w: string, last: bool) {
    (|w| == 1 && IsSpace(w[0])) || IsBlock(w) || IsLine(w, last)
  }

  function Concat(pieces: seq<string>): string {
    if pieces == [] then [] else pieces[0] + Concat(pieces[1..])
  }

  /** The text is made of white-space characters, block comments and line comments. */
  predicate Splits(pieces: seq<string>, s: string) {
    Concat(pieces) == s && forall i :: 0 <= i < |pieces| ==> IsPiece(pieces[i], i == |pieces| - 1)
  }

  lemma SplitsMore(w: string, pieces: seq<string>, s: string)
    requires Splits(pieces, s) && IsPiece(w, pieces == [])
    ensures Splits([w] + pieces, w + s)
  {
    var all := [w] + pieces;
    assert all[1..] == pieces;
    assert forall i :: 0 < i < |all| ==> all[i] == pieces[i - 1];
  }

  lemma SplitsFirst(pieces: seq<string>, s: string)
    requires Splits(pieces, s) && pieces != []
    ensures s == pieces[0] + Concat(pieces[1..]) && Splits(pieces[1..], Concat(pieces[1..]))
    ensures IsPiece(pieces[0], pieces[1..] == [])
  {
    assert forall i :: 0 <= i < |pieces| - 1 ==> pieces[1..][i] == pieces[i + 1];
  }

  lemma {:induction false} CommentEndIs(z: string, k: nat, e: nat)
    requires k <= e && EndAt(z, e) && forall i :: k <= i < e ==> !EndAt(z, i)
    ensures CommentEnd(z, k) == e
    decreases e - k
  {
    assert EndAt(z, k) <==> k == e;
    if k < e { CommentEndIs(z, k + 1, e); }
  }

  lemma {:induction false} CommentEndFirst(z: string, k: nat, i: nat)
    requires k <= |z| && k <= i < CommentEnd(z, k)
    ensures !EndAt(z, i)
    decreases i - k
  {
    if k < i { CommentEndFirst(z, k + 1, i); }
  }

  lemma {:induction false} LineEndIs(z: string, k: nat, e: nat)
    requires k <= e <= |z| && (e < |z| ==> z[e] == '\n') && forall i :: k <= i < e ==> z[i] != '\n'
    ensures LineEnd(z, k) == e
    decreases e - k
  {
    if k < e { LineEndIs(z, k + 1, e); }
  }

  lemma {:induction false} LineEndFirst(z: string, k: nat, i: nat)
    requires k <= |z| && k <= i < LineEnd(z, k)
    ensures z[i] != '\n'
    decreases i - k
  {
    if k < i { LineEndFirst(z, k + 1, i); }
  }

  /** The comment at `k` up to `n` is a piece. */
  lemma BlockAt(z: string, k: nat)
    requires k <= |z| && Starts(z, k, '/', '*') && CommentEnd(z, k + 2) < |z|
    ensures IsBlock(z[k..CommentEnd(z, k + 2) + 2])
  {
    var e := CommentEnd(z, k + 2);
    var w := z[k..e + 2];
    forall i | 2 <= i < |w| - 2 ensures !EndAt(w, i) {
      CommentEndFirst(z, k + 2, k + i);
      assert w[i] == z[k + i] && w[i + 1] == z[k + i + 1];
    }
  }

  lemma LineAt(z: string, k: nat, last: bool)
    requires k <= |z| && Starts(z, k, '-', '-')
    requires LineEnd(z, k + 2) == |z| ==> last
    ensures var e := LineEnd(z, k + 2); IsLine(z[k..if e < |z| then e + 1 else e], last)
  {
    var e := LineEnd(z, k + 2);
    var w := z[k..if e < |z| then e + 1 else e];
    forall i | 2 <= i < |w| - 1 ensures w[i] != '\n' { LineEndFirst(z, k + 2, k + i); }
  }

  /** Where the piece at `k` ends. */
  function PieceEnd(z: string, k: nat): (n: nat)
    requires k < |z| && AllBlank(z, k)
    ensures k < n <= |z|
  {
    if IsSpace(z[k]) then k + 1
    else if Starts(z, k, '/', '*') then CommentEnd(z, k + 2) + 2
    else if LineEnd(z, k + 2) < |z| then LineEnd(z, k + 2) + 1
    else |z|
  }

  lemma PieceAt(z: string, k: nat)
    requires k < |z| && AllBlank(z, k)
    ensures var n := PieceEnd(z, k); AllBlank(z, n) && IsPiece(z[k..n], n == |z|)
  {
    if IsSpace(z[k]) {
    } else if Starts(z, k, '/', '*') {
      BlockAt(z, k);
    } else {
      LineAt(z, k, PieceEnd(z, k) == |z|);
    }
  }

  lemma {:induction false} BlankSplits(z: string, k: nat) returns (pieces: seq<string>)
    requires k <= |z| && AllBlank(z, k)
    ensures Splits(pieces, z[k..])
    decreases |z| - k
  {
    if k == |z| {
      pieces := [];
    } else {
      hide AllBlank, IsPiece;
      PieceAt(z, k);
      var n := PieceEnd(z, k);
      var more := BlankSplits(z, n);
      NoneLeft(more, z[n..]);
      SplitsMore(z[k..n], more, z[n..]);
      pieces := [z[k..n]] + more;
      assert z[k..] == z[k..n] + z[n..];
    }
  }

  /** Only the empty text has no pieces. */
  lemma NoneLeft(pieces: seq<string>, s: string)
    requires Splits(pieces, s)
    ensures pieces == [] <==> s == []
  {
  }

  lemma BlankBlock(z: string, k: nat, n: nat)
    requires k <= n <= |z| && IsBlock(z[k..n]) && AllBlank(z, n)
    ensures AllBlank(z, k)
  {
    var w := z[k..n];
    assert EndAt(w, |w| - 2);
    forall i | k + 2 <= i < n - 2 ensures !EndAt(z, i) {
      assert !EndAt(w, i - k) && w[i - k] == z[i] && w[i - k + 1] == z[i + 1];
    }
    CommentEndIs(z, k + 2, n - 2);
  }

  lemma BlankLine(z: string, k: nat, n: nat)
    requires k <= n <= |z| && IsLine(z[k..n], n == |z|) && AllBlank(z, n)
    ensures AllBlank(z, k)
  {
    var w := z[k..n];
    forall i | k + 2 <= i < n - 1 ensures z[i] != '\n' { assert w[i - k] == z[i]; }
    var e := if w[|w| - 1] == '\n' then n - 1 else n;
    LineEndIs(z, k + 2, e);
  }

  lemma {:induction false} SplitsBlank(z: string, k: nat, pieces: seq<string>)
    requires k <= |z| && Splits(pieces, z[k..])
    ensures AllBlank(z, k)
    decreases |pieces|
  {
    NoneLeft(pieces, z[k..]);
    if pieces != [] {
      SplitsFirst(pieces, z[k..]);
      var w, rest := pieces[0], Concat(pieces[1..]);
      var n := k + |w|;
      assert z[k..n] == w && z[n..] == rest;
      NoneLeft(pieces[1..], rest);
      SplitsBlank(z, n, pieces[1..]);
      if IsBlock(w) {
        BlankBlock(z, k, n);
      } else if IsLine(w, pieces[1..] == []) {
        BlankLine(z, k, n);
      }
    }
  }

  /** Only white space and comments, every block comment closed. */
  lemma AllBlankIs(z: string)
    ensures AllBlank(z, 0) <==> exists pieces :: Splits(pieces, z)
  {
    assert z[0..] == z;
    if AllBlank(z, 0) { var pieces := BlankSplits(z, 0); }
    if pieces :| Splits(pieces, z) { SplitsBlank(z, 0, pieces); }
  }

  // ---- Terminator lines --------------------------------------------------------------------

  lemma {:induction false} AllBlankFrom(z: string, k: nat)
    requires k <= |z|
    ensures AllBlank(z, k) <==> AllBlank(z[k..], 0)
  {
    assert z[k..][0..] == z[k..];
    if AllBlank(z, k) {
      var pieces := BlankSplits(z, k);
      SplitsBlank(z[k..], 0, pieces);
    }
    if AllBlank(z[k..], 0) {
      var pieces := BlankSplits(z[k..], 0);
      SplitsBlank(z, k, pieces);
    }
  }

  predicate IsCommand(w: string) {
    w == "/" || w == "go" || w == "Go" || w == "gO" || w == "GO"
  }

  /** The length of the command at `k`, 0 for none. */
  function CommandAt(line: string, k: nat): (n: nat)
    requires k <= |line|
    ensures k + n <= |line|
  {
    if k < |line| && line[k] == '/' then 1
    else if k + 1 < |line| && (line[k] == 'g' || line[k] == 'G') && (line[k + 1] == 'o' || line[k + 1] == 'O') then 2
    else 0
  }

  lemma CommandIs(line: string, k: nat)
    requires k <= |line| && CommandAt(line, k) > 0
    ensures IsCommand(line[k..k + CommandAt(line, k)])
  {
    var n := CommandAt(line, k);
    var w := line[k..k + n];
    assert w == if n == 1 then [line[k]] else [line[k], line[k + 1]];
  }

  lemma CommandStays(line: string, k: nat, w: string)
    requires IsCommand(w) && k + |w| <= |line| && line[k..k + |w|] == w
    ensures CommandAt(line, k) == |w| && !IsSpace(line[k])
  {
    assert line[k] == w[0];
    if |w| == 2 { assert line[k + 1] == w[1]; }
  }

  lemma LowerIs(c: char)
    ensures (ToLower(c) == 'g' <==> c == 'g' || c == 'G') && (ToLower(c) == 'o' <==> c == 'o' || c == 'O')
  {
  }

  lemma TerminatorAt(line: string)
    ensures var k := Blanks(line); var n := CommandAt(line, k); IsTerminator(line) <==> n > 0 && AllBlank(line, k + n)
  {
    hide AllBlank, Blanks, ToLower;
    var k := Blanks(line);
    if k < |line| { LowerIs(line[k]); }
    if k + 1 < |line| { LowerIs(line[k + 1]); }
  }

  /** White space, the command, and nothing but white space and comments. */
  ghost predicate CommandLine(line: string, b: string, w: string, rest: string, pieces: seq<string>) {
    line == b + w + rest && AllSpace(b) && IsCommand(w) && Splits(pieces, rest)
  }

  lemma LineParts(line: string, b: string, w: string, rest: string)
    requires line == b + w + rest && AllSpace(b) && IsCommand(w)
    ensures Blanks(line) == |b| && CommandAt(line, |b|) == |w| && line[|b| + |w|..] == rest
  {
    hide Blanks, CommandAt, IsCommand;
    assert line[|b|..|b| + |w|] == w && line[..|b|] == b;
    CommandStays(line, |b|, w);
    NotEmpty(w);
    assert forall i :: 0 <= i < |b| ==> line[i] == b[i];
    BlanksAre(line, |b|);
  }

  lemma NotEmpty(w: string)
    requires IsCommand(w)
    ensures w != ""
  {
  }

  lemma BlanksAre(s: string, n: nat)
    requires n < |s| && (forall i :: 0 <= i < n ==> IsSpace(s[i])) && !IsSpace(s[n])
    ensures Blanks(s) == n
  {
  }

  lemma Cut<T>(s: seq<T>, k: nat, m: nat)
    requires k <= m <= |s|
    ensures s == s[..k] + s[k..m] + s[m..]
  {
  }

  lemma BlanksCut(s: string)
    ensures AllSpace(s[..Blanks(s)])
  {
  }

  lemma TerminatorSplits(line: string)
    requires IsTerminator(line)
    ensures exists b, w, rest, pieces :: CommandLine(line, b, w, rest, pieces)
  {
    hide IsTerminator, AllBlank, CommandAt, IsCommand, Splits, AllSpace, Blanks;
    TerminatorAt(line);
    var k := Blanks(line);
    var n := CommandAt(line, k);
    CommandIs(line, k);
    AllBlankFrom(line, k + n);
    AllBlankIs(line[k + n..]);
    var pieces :| Splits(pieces, line[k + n..]);
    Cut(line, k, k + n);
    BlanksCut(line);
    assert CommandLine(line, line[..k], line[k..k + n], line[k + n..], pieces);
  }

  /** A terminator line is a slash or the word go, in any case, with white space and comments around it. */
  lemma TerminatorIs(line: string)
    ensures IsTerminator(line) <==> exists b, w, rest, pieces :: CommandLine(line, b, w, rest, pieces)
  {
    hide IsTerminator, AllBlank, CommandAt, IsCommand, Splits;
    if IsTerminator(line) { TerminatorSplits(line); }
    if b, w, rest, pieces :| CommandLine(line, b, w, rest, pieces) {
      TerminatorAt(line);
      LineParts(line, b, w, rest);
      NotEmpty(w);
      AllBlankFrom(line, |b| + |w|);
      AllBlankIs(rest);
    }
  }
}
