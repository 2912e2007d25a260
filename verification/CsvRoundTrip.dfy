/** What the shell writes in CSV mode, `.import` reads back: for which separators, and for no others. */
module CsvRoundTrip {
  import opened Csv
  import opened CsvTermination
  import opened Options

  const CRLF: seq<Byte> := [CR, LF]

  predicate IsRow(row: seq<seq<Byte>>, n: nat) {
    |row| == n && forall i :: 0 <= i < n ==> 0 !in row[i]
  }

  predicate IsTable(table: seq<seq<seq<Byte>>>, n: nat) {
    forall i :: 0 <= i < |table| ==> IsRow(table[i], n)
  }

  function Cellify(row: seq<seq<Byte>>): Row {
    seq(|row|, i requires 0 <= i < |row| => Some(row[i]))
  }

  function CellifyAll(table: seq<seq<seq<Byte>>>): seq<Row> {
    seq(|table|, i requires 0 <= i < |table| => Cellify(table[i]))
  }

  /** The file that CSV mode writes: one line for each row, with CRLF row ends. */
  ghost function File(table: seq<seq<seq<Byte>>>, sep: Byte): seq<Byte> {
    if table == [] then [] else Line(Cellify(table[0]), [sep], CRLF, []) + File(table[1..], sep)
  }

  /** `.import` reads with LF as its row separator, and takes the column separator from a signed `char`. */
  ghost function ReadBack(file: seq<Byte>, n: nat, sep: Byte): seq<Row>
    requires n > 0 && sep != 255
  {
    Rows(file, n, Signed(sep), LF)
  }

  /** The separators that work for `n` columns. */
  predicate Separates(sep: Byte, n: nat) {
    sep != LF && sep != 255 && (n == 1 || (sep != QUOTE && sep < 128))
  }

  // ---- One field ---------------------------------------------------------------------------

  /** The second character of look-back matters only behind a carriage return. */
  lemma {:induction false} LookBackOnce(s: seq<Byte>, buf: seq<Byte>, pc: int, p: int, q: int, cs: int)
    requires pc != CR
    ensures Quoted(s, buf, pc, p, cs, LF) == Quoted(s, buf, pc, q, cs, LF)
    decreases |s|
  {
    if First(s) == QUOTE && pc == QUOTE { LookBackOnce(s[1..], buf, 0, p, q, cs); }
  }

  /** A text with doubled quotes, up to the quote that closes it. */
  lemma {:induction false} ReadDoubled(v: seq<Byte>, tail: seq<Byte>, buf: seq<Byte>, pc: int, ppc: int, cs: int)
    requires pc != QUOTE && !(pc == CR && ppc == QUOTE)
    ensures Quoted(Doubled(v) + [QUOTE] + tail, buf, pc, ppc, cs, LF) == Quoted(tail, buf + v + [QUOTE], QUOTE, 0, cs, LF)
  {
    var s := Doubled(v) + [QUOTE] + tail;
    if v == [] {
      assert s == [QUOTE] + tail && buf + v + [QUOTE] == buf + [QUOTE];
      LookBackOnce(tail, buf + [QUOTE], QUOTE, pc, 0, cs);
    } else {
      var rest := Doubled(v[1..]) + [QUOTE] + tail;
      assert buf + [v[0]] + v[1..] == buf + v;
      if v[0] == QUOTE {
        assert s == [QUOTE, QUOTE] + rest;
        assert s[1..] == [QUOTE] + rest && s[1..][1..] == rest;
        assert Quoted(s, buf, pc, ppc, cs, LF) == Quoted(s[1..], buf + [QUOTE], QUOTE, pc, cs, LF);
        ReadDoubled(v[1..], tail, buf + [v[0]], 0, pc, cs);
      } else {
        assert s == [v[0]] + rest;
        ReadDoubled(v[1..], tail, buf + [v[0]], v[0], pc, cs);
      }
    }
  }

  lemma ReadPlainText(v: seq<Byte>, tail: seq<Byte>, buf: seq<Byte>, cs: int)
    requires forall i :: 0 <= i < |v| ==> v[i] != cs && v[i] != LF
    ensures Plain(v + tail, buf, cs, LF) == Plain(tail, buf + v, cs, LF)
    decreases |v|
  {
    if v == [] {
      assert v + tail == tail && buf + v == buf;
    } else {
      assert (v + tail)[1..] == v[1..] + tail;
      assert buf + [v[0]] + v[1..] == buf + v;
      ReadPlainText(v[1..], tail, buf + [v[0]], cs);
    }
  }

  ghost predicate InQuotes(v: seq<Byte>, sep: Byte) {
    v == [] || exists i :: 0 <= i < |v| && ForcesQuotes(v, [sep], i)
  }

  /** A field in quotes, up to what follows the closing quote. */
  lemma OpenQuoted(v: seq<Byte>, sep: Byte, tail: seq<Byte>, cs: int)
    requires InQuotes(v, sep)
    ensures ReadField(Term(v, [sep]) + tail, cs, LF) == Quoted(tail, v + [QUOTE], QUOTE, 0, cs, LF)
  {
    var s := Term(v, [sep]) + tail;
    hide Doubled, Quoted;
    assert s[0] == QUOTE && s[1..] == Doubled(v) + [QUOTE] + tail;
    ReadDoubled(v, tail, [], 0, 0, cs);
    assert [] + v + [QUOTE] == v + [QUOTE];
  }

  /** A field without quotes, up to what follows it. */
  lemma OpenPlain(v: seq<Byte>, sep: Byte, tail: seq<Byte>, cs: int)
    requires !InQuotes(v, sep) && (cs == Signed(sep) || cs == sep)
    ensures Term(v, [sep]) == v && v[|v| - 1] != CR
    ensures ReadField(v + tail, cs, LF) == Plain(tail, v, cs, LF)
  {
    forall i | 0 <= i < |v| ensures !NeedsQuote(v[i]) && v[i] != sep {
      assert !ForcesQuotes(v, [sep], i);
    }
    ReadPlainText(v, tail, [], cs);
    assert [] + v == v;
    assert (v + tail)[0] == v[0];
  }

  /** A field followed by the separator. */
  lemma ReadInner(v: seq<Byte>, sep: Byte, rest: seq<Byte>)
    requires sep != LF && sep != QUOTE && sep < 128
    ensures ReadField(Term(v, [sep]) + ([sep] + rest), Signed(sep), LF) == Field(v, sep, rest)
  {
    var tail := [sep] + rest;
    assert tail[0] == sep && tail[1..] == rest;
    if InQuotes(v, sep) {
      OpenQuoted(v, sep, tail, sep);
      CutLast(v);
    } else {
      OpenPlain(v, sep, tail, sep);
    }
  }

  /** A field at the end of a row.  A separator CR ends it one character early. */
  lemma ReadLast(v: seq<Byte>, sep: Byte, rest: seq<Byte>)
    requires sep != LF
    ensures ReadField(Term(v, [sep]) + (CRLF + rest), Signed(sep), LF)
         == if sep == CR then Field(v, CR, [LF] + rest) else Field(v, LF, rest)
  {
    var tail := CRLF + rest;
    assert tail[0] == CR && tail[1..] == [LF] + rest;
    assert tail[1..][0] == LF && tail[1..][1..] == rest;
    if InQuotes(v, sep) {
      OpenQuoted(v, sep, tail, Signed(sep));
      CutLast(v);
      CloseQuoted(v, tail, Signed(sep));
    } else {
      OpenPlain(v, sep, tail, Signed(sep));
      ClosePlain(v, tail, Signed(sep));
    }
  }

  /** A field at the end of the file. */
  lemma ReadEnd(v: seq<Byte>, sep: Byte)
    requires sep != LF
    ensures Term(v, [sep]) != [] && ReadField(Term(v, [sep]), Signed(sep), LF) == Field(v, EOF, [])
  {
    assert Term(v, [sep]) + [] == Term(v, [sep]);
    if InQuotes(v, sep) {
      OpenQuoted(v, sep, [], Signed(sep));
      CutLast(v);
    } else {
      OpenPlain(v, sep, [], Signed(sep));
    }
  }

  lemma ClosePlain(v: seq<Byte>, tail: seq<Byte>, cs: int)
    requires |tail| > 1 && tail[0] == CR && tail[1] == LF && cs != LF
    requires v != [] && v[|v| - 1] != CR
    ensures Plain(tail, v, cs, LF) == if cs == CR then Field(v, CR, tail[1..]) else Field(v, LF, tail[1..][1..])
  {
    assert (v + [CR])[..|v|] == v;
    assert tail[1..][0] == LF;
  }

  lemma CloseQuoted(v: seq<Byte>, tail: seq<Byte>, cs: int)
    requires |tail| > 1 && tail[0] == CR && tail[1] == LF && cs != LF
    ensures Quoted(tail, v + [QUOTE], QUOTE, 0, cs, LF)
         == if cs == CR then Field(v, CR, tail[1..]) else Field(v, LF, tail[1..][1..])
  {
    CutLast(v);
    assert tail[1..][0] == LF;
  }

  lemma CutLast(v: seq<Byte>)
    ensures BeforeQuote(v + [QUOTE]) == v && BeforeQuote(v + [QUOTE] + [CR]) == v
  {
    assert (v + [QUOTE])[..|v|] == v;
    assert (v + [QUOTE] + [CR])[..|v| + 1] == v + [QUOTE];
  }

  // ---- One row -----------------------------------------------------------------------------

  lemma {:induction false} CStrWhole(v: seq<Byte>)
    requires 0 !in v
    ensures CStr(v) == v
  {
    if v != [] { CStrWhole(v[1..]); }
  }

  /** What the column loop leaves after a row: with a separator CR, the LF of the row end. */
  function RowLeft(row: seq<seq<Byte>>, sep: Byte, rest: seq<Byte>): RowRead {
    if sep == CR then RowRead(Cellify(row), CR, [LF] + rest) else RowRead(Cellify(row), LF, rest)
  }

  lemma {:induction false} ReadCells(row: seq<seq<Byte>>, sep: Byte, rest: seq<Byte>)
    requires row != [] && IsRow(row, |row|) && Separates(sep, |row|)
    ensures Cells(Line(Cellify(row), [sep], CRLF, []) + rest, |row|, Signed(sep), LF) == RowLeft(row, sep, rest)
  {
    hide Term, ReadField, CStr;
    var v := row[0];
    CStrWhole(v);
    var s := Line(Cellify(row), [sep], CRLF, []) + rest;
    assert Cellify(row) == [Some(v)] + Cellify(row[1..]);
    assert Cellify(row)[1..] == Cellify(row[1..]);
    if |row| == 1 {
      ReadLast(v, sep, rest);
      assert s == Term(v, [sep]) + (CRLF + rest);
      assert Cellify(row) == [Some(v)] + Nulls(0);
    } else {
      var more := Line(Cellify(row[1..]), [sep], CRLF, []) + rest;
      assert s == Term(v, [sep]) + ([sep] + more);
      ReadInner(v, sep, more);
      forall i | 0 <= i < |row[1..]| ensures 0 !in row[1..][i] { assert row[1..][i] == row[i + 1]; }
      ReadCells(row[1..], sep, rest);
    }
  }

  lemma ReadLine(row: seq<seq<Byte>>, sep: Byte, rest: seq<Byte>)
    requires row != [] && IsRow(row, |row|) && Separates(sep, |row|)
    ensures ReadRow(Line(Cellify(row), [sep], CRLF, []) + rest, |row|, Signed(sep), LF) == RowRead(Cellify(row), LF, rest)
  {
    ReadCells(row, sep, rest);
    if sep == CR {
      var s: seq<Byte> := [LF] + rest;
      assert ReadField(s, CR, LF) == Field([], LF, rest) by { assert s[1..] == rest; }
      var cells := Cellify(row);
      assert SkipExtras(RowRead(cells, CR, s), CR, LF) == SkipExtras(RowRead(cells, LF, rest), CR, LF);
    }
  }

  // ---- Whole files -------------------------------------------------------------------------

  lemma LineNotEmpty(row: seq<seq<Byte>>, sep: Byte)
    requires row != []
    ensures Line(Cellify(row), [sep], CRLF, []) != []
  {
    var rest := Line(Cellify(row)[1..], [sep], CRLF, []);
    assert |[sep] + rest| > 0;
  }

  lemma {:induction false} FileReadsBack(table: seq<seq<seq<Byte>>>, n: nat, sep: Byte)
    requires n > 0 && IsTable(table, n) && Separates(sep, n)
    ensures ReadBack(File(table, sep), n, sep) == CellifyAll(table)
  {
    if table != [] {
      var row := table[0];
      var s := File(table, sep);
      assert IsRow(row, n);
      LineNotEmpty(row, sep);
      ReadLine(row, sep, File(table[1..], sep));
      forall i | 0 <= i < |table[1..]| ensures IsRow(table[1..][i], n) { assert table[1..][i] == table[i + 1]; }
      FileReadsBack(table[1..], n, sep);
      assert CellifyAll(table) == [Cellify(row)] + CellifyAll(table[1..]);
    }
  }

  // ---- Files without the last row end ------------------------------------------------------

  ghost function OpenFile(table: seq<seq<seq<Byte>>>, sep: Byte): seq<Byte>
    requires table != []
  {
    if |table| == 1 then Line(Cellify(table[0]), [sep], [], [])
    else Line(Cellify(table[0]), [sep], CRLF, []) + OpenFile(table[1..], sep)
  }

  lemma {:induction false} LineEnd(row: seq<seq<Byte>>, sep: Byte)
    requires row != []
    ensures Line(Cellify(row), [sep], [], []) + CRLF == Line(Cellify(row), [sep], CRLF, [])
    decreases |row|
  {
    hide Cell;
    assert Cellify(row)[1..] == Cellify(row[1..]);
    var first := Cell(Cellify(row)[0], [sep], []);
    if |row| == 1 {
      assert first + [] + CRLF == first + CRLF;
    } else {
      LineEnd(row[1..], sep);
      var more := Line(Cellify(row[1..]), [sep], [], []);
      assert first + ([sep] + more) + CRLF == first + ([sep] + (more + CRLF));
    }
  }

  /** It is the file, but for the last row end. */
  lemma {:induction false} OpenFileIs(table: seq<seq<seq<Byte>>>, n: nat, sep: Byte)
    requires table != [] && n > 0 && IsTable(table, n)
    ensures OpenFile(table, sep) + CRLF == File(table, sep)
    decreases |table|
  {
    hide Line;
    assert IsRow(table[0], n);
    if |table| == 1 {
      LineEnd(table[0], sep);
      assert table[1..] == [] && File([], sep) == [];
      assert Line(Cellify(table[0]), [sep], CRLF, []) + [] == Line(Cellify(table[0]), [sep], CRLF, []);
    } else {
      forall i | 0 <= i < |table[1..]| ensures IsRow(table[1..][i], n) { assert table[1..][i] == table[i + 1]; }
      OpenFileIs(table[1..], n, sep);
      var line := Line(Cellify(table[0]), [sep], CRLF, []);
      assert line + OpenFile(table[1..], sep) + CRLF == line + (OpenFile(table[1..], sep) + CRLF);
    }
  }

  lemma {:induction false} ReadCellsEnd(row: seq<seq<Byte>>, sep: Byte)
    requires row != [] && IsRow(row, |row|) && Separates(sep, |row|)
    ensures Line(Cellify(row), [sep], [], []) != []
    ensures Cells(Line(Cellify(row), [sep], [], []), |row|, Signed(sep), LF) == RowRead(Cellify(row), EOF, [])
    decreases |row|
  {
    hide Term, ReadField, CStr;
    var v := row[0];
    CStrWhole(v);
    assert Cellify(row) == [Some(v)] + Cellify(row[1..]);
    assert Cellify(row)[1..] == Cellify(row[1..]);
    if |row| == 1 {
      ReadEnd(v, sep);
      assert Line(Cellify(row), [sep], [], []) == Term(v, [sep]) + [] == Term(v, [sep]);
      assert Cellify(row) == [Some(v)] + Nulls(0);
    } else {
      var more := Line(Cellify(row[1..]), [sep], [], []);
      ReadInner(v, sep, more);
      forall i | 0 <= i < |row[1..]| ensures 0 !in row[1..][i] { assert row[1..][i] == row[i + 1]; }
      ReadCellsEnd(row[1..], sep);
    }
  }

  /** A file whose last row end is missing imports as the same rows, with none added. */
  lemma {:induction false} OpenFileReadsBack(table: seq<seq<seq<Byte>>>, n: nat, sep: Byte)
    requires table != [] && n > 0 && IsTable(table, n) && Separates(sep, n)
    ensures ReadBack(OpenFile(table, sep), n, sep) == CellifyAll(table)
    decreases |table|
  {
    hide Line, Cells;
    var row := table[0];
    assert IsRow(row, n);
    if |table| == 1 {
      ReadCellsEnd(row, sep);
      assert SkipExtras(RowRead(Cellify(row), EOF, []), Signed(sep), LF) == RowRead(Cellify(row), EOF, []);
      assert Rows([], n, Signed(sep), LF) == [] && CellifyAll(table) == [Cellify(row)];
      assert [Cellify(row)] + [] == [Cellify(row)];
    } else {
      LineNotEmpty(row, sep);
      ReadLine(row, sep, OpenFile(table[1..], sep));
      forall i | 0 <= i < |table[1..]| ensures IsRow(table[1..][i], n) { assert table[1..][i] == table[i + 1]; }
      OpenFileReadsBack(table[1..], n, sep);
      assert CellifyAll(table) == [Cellify(row)] + CellifyAll(table[1..]);
    }
  }

  // ---- The other separators ----------------------------------------------------------------

  /** With LF between the columns too, every row end reads as one more column: at most one row comes back. */
  lemma {:induction false} AllExtras(r: RowRead)
    requires r.term == LF || (r.term == EOF && r.rest == [])
    ensures SkipExtras(r, LF, LF).rest == []
    decreases |r.rest|
  {
    if r.term == LF && r.rest != [] {
      var f := ReadField(r.rest, LF, LF);
      FieldEnds(r.rest, LF, LF);
      AllExtras(RowRead(r.cells, f.term, f.rest));
    }
  }

  /** A field ends at one of the separators or at the end of the input. */
  lemma FieldEnds(s: seq<Byte>, cs: int, rs: int)
    requires s != []
    ensures ReadField(s, cs, rs).term in {cs, rs, EOF}
  {
    if s[0] == QUOTE { QuotedEnds(s[1..], [], 0, 0, cs, rs); } else { PlainEnds(s, [], cs, rs); }
  }

  lemma {:induction false} QuotedEnds(s: seq<Byte>, buf: seq<Byte>, pc: int, ppc: int, cs: int, rs: int)
    ensures Quoted(s, buf, pc, ppc, cs, rs).term in {cs, rs, EOF}
    decreases |s|
  {
    if s != [] {
      QuotedEnds(s[1..], buf, 0, ppc, cs, rs);
      QuotedEnds(s[1..], buf + [s[0]], s[0], pc, cs, rs);
    }
  }

  lemma {:induction false} PlainEnds(s: seq<Byte>, buf: seq<Byte>, cs: int, rs: int)
    ensures Plain(s, buf, cs, rs).term in {cs, rs, EOF}
    decreases |s|
  {
    if s != [] { PlainEnds(s[1..], buf + [s[0]], cs, rs); }
  }

  lemma {:induction false} CellsEnd(s: seq<Byte>, n: nat, cs: int, rs: int)
    requires n > 0
    ensures Cells(s, n, cs, rs).term in {cs, rs, EOF}
    decreases n
  {
    if s != [] {
      FieldEnds(s, cs, rs);
      var f := ReadField(s, cs, rs);
      if n > 1 { CellsEnd(f.rest, n - 1, cs, rs); }
    }
  }

  lemma OneRowOnly(s: seq<Byte>, n: nat)
    requires n > 0
    ensures |Rows(s, n, LF, LF)| <= 1
  {
    if s != [] {
      CellsEnd(s, n, LF, LF);
      AllExtras(Cells(s, n, LF, LF));
    }
  }

  /** A byte of 128 or more is negative as a `char`, so it never ends a field: only the first cell is filled. */
  lemma SecondIsNull(s: seq<Byte>, n: nat, cs: int)
    requires s != [] && n > 1 && cs < EOF
    ensures Rows(s, n, cs, LF) != [] && Rows(s, n, cs, LF)[0][1] == None
  {
    FieldEnds(s, cs, LF);
    var f := ReadField(s, cs, LF);
    NegativeNeverEnds(s, cs);
    assert Cells(s, n, cs, LF).cells == [Some(CStr(f.text))] + Nulls(n - 1);
  }

  lemma NegativeNeverEnds(s: seq<Byte>, cs: int)
    requires s != [] && cs < EOF
    ensures ReadField(s, cs, LF).term != cs
  {
    if s[0] == QUOTE { QuotedBytes(s[1..], [], 0, 0, cs); } else { PlainBytes(s, [], cs); }
  }

  lemma {:induction false} QuotedBytes(s: seq<Byte>, buf: seq<Byte>, pc: int, ppc: int, cs: int)
    requires cs < EOF
    ensures Quoted(s, buf, pc, ppc, cs, LF).term >= EOF
    decreases |s|
  {
    if s != [] {
      QuotedBytes(s[1..], buf, 0, ppc, cs);
      QuotedBytes(s[1..], buf + [s[0]], s[0], pc, cs);
    }
  }

  lemma {:induction false} PlainBytes(s: seq<Byte>, buf: seq<Byte>, cs: int)
    requires cs < EOF
    ensures Plain(s, buf, cs, LF).term >= EOF
    decreases |s|
  {
    if s != [] { PlainBytes(s[1..], buf + [s[0]], cs); }
  }

  /** The buffer starts with a character that the closing scan will not reach. */
  predicate KeepsFirst(buf: seq<Byte>, pc: int, ppc: int) {
    && buf != []
    && (pc == QUOTE ==> |buf| > 1 && buf[|buf| - 1] == QUOTE)
    && (pc == CR && ppc == QUOTE ==> |buf| > 2 && buf[|buf| - 2] == QUOTE && buf[|buf| - 1] == CR)
  }

  lemma {:induction false} FirstKept(s: seq<Byte>, buf: seq<Byte>, pc: int, ppc: int, cs: int)
    requires KeepsFirst(buf, pc, ppc)
    ensures var t := Quoted(s, buf, pc, ppc, cs, LF).text; t != [] && t[0] == buf[0]
    decreases |s|
  {
    var c := First(s);
    if c == QUOTE && pc == QUOTE {
      FirstKept(s[1..], buf, 0, ppc, cs);
    } else if Closes(c, pc, ppc, cs, LF) {
      if pc == CR {
        var shorter := buf[..|buf| - 1];
        assert BeforeQuote(buf) == BeforeQuote(shorter) == shorter[..|shorter| - 1];
      }
    } else if s != [] {
      FirstKept(s[1..], buf + [s[0]], s[0], pc, cs);
    }
  }

  /** With quotes between the columns, an empty first field runs into its separator. */
  lemma EmptyFirstLost(s: seq<Byte>, n: nat)
    requires n > 1 && |s| > 2 && s[0] == s[1] == s[2] == QUOTE
    ensures Rows(s, n, QUOTE, LF) != [] && Rows(s, n, QUOTE, LF)[0][0] != Some([])
  {
    var t := s[1..];
    assert t[0] == QUOTE && t[1..][0] == QUOTE;
    FirstKept(t[1..][1..], [QUOTE], 0, 0, QUOTE);
    var f := ReadField(s, QUOTE, LF);
    assert [] + [t[0]] == [QUOTE];
    assert Quoted(t, [], 0, 0, QUOTE, LF) == Quoted(t[1..], [QUOTE], QUOTE, 0, QUOTE, LF);
    assert f == Quoted(t[1..][1..], [QUOTE], 0, 0, QUOTE, LF);
    assert CStr(f.text)[0] == QUOTE;
  }

  /** For every other separator, some table of `n` columns does not come back. */
  lemma FileLost(n: nat, sep: Byte) returns (table: seq<seq<seq<Byte>>>)
    requires n > 0 && !Separates(sep, n) && sep != 255
    ensures IsTable(table, n) && ReadBack(File(table, sep), n, sep) != CellifyAll(table)
  {
    var row := seq(n, _ => []);
    if sep == LF {
      table := [row, row];
      OneRowOnly(File(table, sep), n);
    } else {
      table := [row];
      LineNotEmpty(row, sep);
      var s := File(table, sep);
      assert CellifyAll(table) == [Cellify(row)];
      if sep >= 128 {
        SecondIsNull(s, n, Signed(sep));
      } else {
        assert Term([], [sep]) == [QUOTE, QUOTE];
        var more := Line(Cellify(row)[1..], [sep], CRLF, []);
        assert table[1..] == [];
        assert File(table[1..], sep) == [];
        assert s == Line(Cellify(row), [sep], CRLF, []);
        assert Cell(Cellify(row)[0], [sep], []) == [QUOTE, QUOTE];
        assert s == [QUOTE, QUOTE] + ([sep] + more);
        EmptyFirstLost(s, n);
      }
    }
  }

  /** The import of the file ends, with the table that was written. */
  ghost predicate ComesBack(table: seq<seq<seq<Byte>>>, n: nat, sep: Byte)
    requires n > 0
  {
    exists fuel: nat :: ImportWithin(File(table, sep), n, Signed(sep), LF, fuel) == Some(CellifyAll(table))
  }

  lemma ComesBackIff(table: seq<seq<seq<Byte>>>, n: nat, sep: Byte)
    requires n > 0
    ensures ComesBack(table, n, sep) <==> sep != 255 && ReadBack(File(table, sep), n, sep) == CellifyAll(table)
  {
    var s := File(table, sep);
    EndsExactly(s, n, Signed(sep), LF);
    if sep != 255 {
      ImportEnds(s, n, Signed(sep), LF, |s| + 1);
      forall fuel: nat | ImportWithin(s, n, Signed(sep), LF, fuel).Some?
        ensures ImportWithin(s, n, Signed(sep), LF, fuel) == Some(ReadBack(s, n, sep))
      {
        EndsWithRows(s, n, Signed(sep), LF, fuel);
      }
    }
  }

  /** Every table of `n` columns of NUL-free text is read back as it was, exactly when the separator is neither LF nor
      byte 255 and, for two columns or more, is a 7-bit character other than the quote.  (The import refuses an empty
      separator.) */
  lemma RoundTrip(n: nat, sep: Byte)
    requires n > 0 && sep != 0
    ensures (forall table :: IsTable(table, n) ==> ComesBack(table, n, sep)) <==> Separates(sep, n)
  {
    if Separates(sep, n) {
      forall table | IsTable(table, n) ensures ComesBack(table, n, sep) {
        FileReadsBack(table, n, sep);
        ComesBackIff(table, n, sep);
      }
    } else if sep == 255 {
      assert IsTable([], n);
      ComesBackIff([], n, sep);
    } else {
      var table := FileLost(n, sep);
      ComesBackIff(table, n, sep);
    }
  }
}
