/** What a CSV file imports as: rows of any length, NULLs, LF or CRLF line ends, and a last row with or without one. */
module CsvFiles {
  import opened Csv
  import opened CsvRoundTrip
  import opened Options

  // ---- Files -------------------------------------------------------------------------------

  /** The fields of a row with separators between them, and what follows. */
  ghost function RowText(row: Row, sep: Byte, nv: seq<Byte>, tail: seq<Byte>): seq<Byte>
    requires row != []
  {
    Cell(row[0], [sep], nv) + if |row| == 1 then tail else [sep] + RowText(row[1..], sep, nv, tail)
  }

  ghost predicate IsTable(rows: seq<Row>) {
    forall i :: 0 <= i < |rows| ==> IsRow(rows[i])
  }

  predicate IsRow(row: Row) {
    row != [] && forall i :: 0 <= i < |row| && row[i].Some? ==> 0 !in row[i].value
  }

  /** The rows with their line ends; the last one without it when not `ended`. */
  ghost function FileText(rows: seq<Row>, sep: Byte, eol: seq<Byte>, nv: seq<Byte>, ended: bool): seq<Byte>
    requires IsTable(rows)
  {
    if rows == [] then []
    else if |rows| == 1 && !ended then RowText(rows[0], sep, nv, [])
    else RowText(rows[0], sep, nv, eol + FileText(rows[1..], sep, eol, nv, ended))
  }

  /** A row as it is written in CSV mode is such a row. */
  lemma {:induction false} LineIsRow(row: Row, sep: Byte, eol: seq<Byte>, nv: seq<Byte>, rest: seq<Byte>)
    requires row != []
    ensures Line(row, [sep], eol, nv) + rest == RowText(row, sep, nv, eol + rest)
  {
    hide Cell;
    if |row| > 1 {
      LineIsRow(row[1..], sep, eol, nv, rest);
      assert Cell(row[0], [sep], nv) + ([sep] + Line(row[1..], [sep], eol, nv)) + rest
          == Cell(row[0], [sep], nv) + ([sep] + (Line(row[1..], [sep], eol, nv) + rest));
    } else {
      assert Cell(row[0], [sep], nv) + eol + rest == Cell(row[0], [sep], nv) + (eol + rest);
    }
  }

  // ---- What comes back ---------------------------------------------------------------------

  predicate IsSep(sep: Byte) {
    0 < sep < 128 && sep != 10 && sep != 13 && sep != 34
  }

  predicate IsEol(eol: seq<Byte>) {
    eol == [10] || eol == [13, 10]
  }

  /** A text for NULL that is read as one bare field: the empty text is one. */
  predicate IsNullText(nv: seq<Byte>, sep: Byte) {
    0 !in nv && sep !in nv && 10 !in nv && (nv != [] ==> nv[0] != 34 && nv[|nv| - 1] != 13)
  }

  function TextOf(z: Option<seq<Byte>>, nv: seq<Byte>): seq<Byte> {
    if z.None? then nv else z.value
  }

  /** A row for `n` columns: NULLs come back as their text, missing fields as NULL, and fields too many are dropped. */
  function Fitted(row: Row, n: nat, nv: seq<Byte>): Row {
    seq(n, i requires 0 <= i < n => if i < |row| then Some(TextOf(row[i], nv)) else None)
  }

  function AllFitted(rows: seq<Row>, n: nat, nv: seq<Byte>): seq<Row> {
    seq(|rows|, i requires 0 <= i < |rows| => Fitted(rows[i], n, nv))
  }

  // ---- One field ---------------------------------------------------------------------------

  /** What may follow a field. */
  predicate IsTail(tail: seq<Byte>, sep: Byte) {
    tail == [] || tail[0] == sep || tail[0] == 10 || (|tail| > 1 && tail[0] == 13 && tail[1] == 10)
  }

  /** The character that ends the field, and what is left. */
  function TailTerm(tail: seq<Byte>): (int, seq<Byte>) {
    if tail == [] then (-1, [])
    else if tail[0] == 13 && |tail| > 1 then (10, tail[2..])
    else (tail[0], tail[1..])
  }

  lemma CloseAtTail(v: seq<Byte>, tail: seq<Byte>, sep: Byte)
    requires IsSep(sep) && IsTail(tail, sep)
    ensures Quoted(tail, v + [QUOTE], QUOTE, 0, sep, LF) == Field(v, TailTerm(tail).0, TailTerm(tail).1)
  {
    CutLast(v);
    if tail != [] && tail[0] == 13 { assert tail[1..][0] == 10 && tail[1..][1..] == tail[2..]; }
  }

  lemma StopAtTail(v: seq<Byte>, tail: seq<Byte>, sep: Byte)
    requires IsSep(sep) && IsTail(tail, sep) && (v != [] ==> v[|v| - 1] != CR)
    ensures Plain(tail, v, sep, LF) == Field(v, TailTerm(tail).0, TailTerm(tail).1)
  {
    if tail != [] && tail[0] == 13 {
      assert tail[1..][0] == 10 && tail[1..][1..] == tail[2..];
      assert (v + [CR])[..|v|] == v;
    }
  }

  /** The text for NULL is read as one field. */
  lemma NullRead(nv: seq<Byte>, sep: Byte, tail: seq<Byte>)
    requires IsSep(sep) && IsNullText(nv, sep) && IsTail(tail, sep) && nv + tail != []
    ensures ReadField(nv + tail, sep, LF) == Field(nv, TailTerm(tail).0, TailTerm(tail).1)
  {
    ReadPlainText(nv, tail, [], sep);
    assert [] + nv == nv;
    StopAtTail(nv, tail, sep);
    assert (nv + tail)[0] == if nv != [] then nv[0] else tail[0];
  }

  /** Every field, written and read, whatever follows it: a separator, a line end, or the end of the file. */
  lemma CellRead(z: Option<seq<Byte>>, sep: Byte, nv: seq<Byte>, tail: seq<Byte>)
    requires IsSep(sep) && IsNullText(nv, sep) && IsTail(tail, sep) && (z.Some? || nv + tail != [])
    ensures var s := Cell(z, [sep], nv) + tail;
            s != [] && ReadField(s, sep, LF) == Field(TextOf(z, nv), TailTerm(tail).0, TailTerm(tail).1)
  {
    if z.None? {
      NullRead(nv, sep, tail);
    } else if InQuotes(z.value, sep) {
      OpenQuoted(z.value, sep, tail, sep);
      CloseAtTail(z.value, tail, sep);
    } else {
      OpenPlain(z.value, sep, tail, sep);
      StopAtTail(z.value, tail, sep);
    }
  }

  // ---- One row -----------------------------------------------------------------------------

  /** What follows a row: a line end, or the end of the file. */
  predicate IsRowTail(tail: seq<Byte>) {
    tail == [] || tail[0] == 10 || (|tail| > 1 && tail[0] == 13 && tail[1] == 10)
  }

  /** The last field leaves something to read: at the end of the file it is not an empty text for NULL. */
  predicate Visible(row: Row, nv: seq<Byte>, tail: seq<Byte>)
    requires row != []
  {
    row[|row| - 1].Some? || nv + tail != []
  }

  lemma RowTextNext(row: Row, sep: Byte, nv: seq<Byte>, tail: seq<Byte>)
    requires |row| > 1
    ensures RowText(row, sep, nv, tail) == Cell(row[0], [sep], nv) + ([sep] + RowText(row[1..], sep, nv, tail))
  {
  }

  /** The first field of a row, and where reading goes on. */
  lemma FirstRead(row: Row, sep: Byte, nv: seq<Byte>, tail: seq<Byte>)
    requires IsRow(row) && IsSep(sep) && IsNullText(nv, sep) && IsRowTail(tail) && Visible(row, nv, tail)
    ensures var s := RowText(row, sep, nv, tail);
            s != [] && ReadField(s, sep, LF) ==
              if |row| == 1 then Field(TextOf(row[0], nv), TailTerm(tail).0, TailTerm(tail).1)
              else Field(TextOf(row[0], nv), sep, RowText(row[1..], sep, nv, tail))
  {
    hide Cell, ReadField;
    if |row| == 1 {
      CellRead(row[0], sep, nv, tail);
    } else {
      var more := [sep] + RowText(row[1..], sep, nv, tail);
      assert more[1..] == RowText(row[1..], sep, nv, tail);
      CellRead(row[0], sep, nv, more);
    }
  }

  lemma FittedNext(row: Row, n: nat, nv: seq<Byte>)
    requires row != [] && n > 0
    ensures Fitted(row, n, nv) == [Some(TextOf(row[0], nv))] + if |row| == 1 then Nulls(n - 1) else Fitted(row[1..], n - 1, nv)
  {
  }

  lemma TailOfRow(row: Row, nv: seq<Byte>, tail: seq<Byte>)
    requires IsRow(row) && |row| > 1 && Visible(row, nv, tail)
    ensures IsRow(row[1..]) && Visible(row[1..], nv, tail)
  {
    forall i | 0 <= i < |row[1..]| ensures row[1..][i] == row[i + 1] { }
  }

  lemma TextNulFree(row: Row, nv: seq<Byte>)
    requires IsRow(row) && 0 !in nv
    ensures CStr(TextOf(row[0], nv)) == TextOf(row[0], nv)
  {
    CStrWhole(TextOf(row[0], nv));
  }

  /** What is left of a row after its first `n` fields. */
  function Dropped(row: Row, n: nat): Row {
    if n < |row| then row[n..] else []
  }

  lemma {:induction false} RowRead1(row: Row, n: nat, sep: Byte, nv: seq<Byte>, tail: seq<Byte>)
    requires IsRow(row) && IsSep(sep) && IsNullText(nv, sep) && IsRowTail(tail) && Visible(row, nv, tail) && n > 0
    ensures Cells(RowText(row, sep, nv, tail), n, sep, LF) ==
              if |row| <= n then RowRead(Fitted(row, n, nv), TailTerm(tail).0, TailTerm(tail).1)
              else RowRead(Fitted(row, n, nv), sep, RowText(row[n..], sep, nv, tail))
    decreases |row|
  {
    hide ReadField, RowText, Fitted, CStr;
    FirstRead(row, sep, nv, tail);
    FittedNext(row, n, nv);
    TextNulFree(row, nv);
    if |row| > 1 && n > 1 {
      TailOfRow(row, nv, tail);
      RowRead1(row[1..], n - 1, sep, nv, tail);
      assert |row| > n ==> row[1..][n - 1..] == row[n..];
    } else if |row| > 1 {
      FittedNone(row[1..], nv);
    }
  }

  lemma FittedNone(row: Row, nv: seq<Byte>)
    ensures Fitted(row, 0, nv) == []
  {
  }

  /** The fields too many are dropped one by one. */
  lemma {:induction false} ExtrasRead(row: Row, cells: Row, sep: Byte, nv: seq<Byte>, tail: seq<Byte>)
    requires IsRow(row) && IsSep(sep) && IsNullText(nv, sep) && IsRowTail(tail) && Visible(row, nv, tail)
    ensures SkipExtras(RowRead(cells, sep, RowText(row, sep, nv, tail)), sep, LF)
         == RowRead(cells, TailTerm(tail).0, TailTerm(tail).1)
    decreases |row|
  {
    hide ReadField, RowText;
    FirstRead(row, sep, nv, tail);
    if |row| > 1 {
      TailOfRow(row, nv, tail);
      ExtrasRead(row[1..], cells, sep, nv, tail);
    }
  }

  /** A whole row. */
  lemma RowReads(row: Row, n: nat, sep: Byte, nv: seq<Byte>, tail: seq<Byte>)
    requires IsRow(row) && IsSep(sep) && IsNullText(nv, sep) && IsRowTail(tail) && Visible(row, nv, tail) && n > 0
    ensures ReadRow(RowText(row, sep, nv, tail), n, sep, LF) == RowRead(Fitted(row, n, nv), TailTerm(tail).0, TailTerm(tail).1)
  {
    hide RowText, Fitted, Cells;
    RowRead1(row, n, sep, nv, tail);
    if |row| > n {
      RestOfRow(row, n, nv, tail);
      ExtrasRead(row[n..], Fitted(row, n, nv), sep, nv, tail);
    }
  }

  lemma RestOfRow(row: Row, n: nat, nv: seq<Byte>, tail: seq<Byte>)
    requires IsRow(row) && n < |row| && Visible(row, nv, tail)
    ensures IsRow(row[n..]) && Visible(row[n..], nv, tail)
  {
    forall i | 0 <= i < |row[n..]| ensures row[n..][i] == row[n + i] { }
  }

  // ---- Whole files -------------------------------------------------------------------------

  /** The last row can be seen although nothing ends it. */
  predicate LastVisible(rows: seq<Row>, nv: seq<Byte>, ended: bool) {
    !ended && rows != [] ==> var row := rows[|rows| - 1]; row != [] && Visible(row, nv, [])
  }

  /** A file imports as its rows, each fitted to the table: quotes, separators and line ends inside fields survive, and no
      row is added at the end of the file, whether its last row has a line end or not. */
  lemma {:induction false} FileImports(rows: seq<Row>, n: nat, sep: Byte, eol: seq<Byte>, nv: seq<Byte>, ended: bool)
    requires IsTable(rows) && n > 0 && IsSep(sep) && IsEol(eol) && IsNullText(nv, sep) && LastVisible(rows, nv, ended)
    ensures Rows(FileText(rows, sep, eol, nv, ended), n, sep, LF) == AllFitted(rows, n, nv)
    decreases |rows|
  {
    hide RowText, Fitted, ReadRow, AllFitted, TailTerm, Visible, IsRow;
    if rows == [] {
      NoneFitted(n, nv);
    } else {
      var row, rest := rows[0], rows[1..];
      assert forall i :: 0 <= i < |rest| ==> rest[i] == rows[i + 1];
      assert IsRow(row);
      LastOfRest(rows, nv, ended);
      var last := |rows| == 1 && !ended;
      var more := if last then [] else FileText(rest, sep, eol, nv, ended);
      var tail := if last then [] else eol + more;
      EolTail(eol, more);
      SomethingThere(row, sep, nv, tail);
      RowReads(row, n, sep, nv, tail);
      FittedRows(rows, n, nv);
      if last {
        assert rest == [];
        NoneFitted(n, nv);
        EndTail();
        assert Rows([], n, sep, LF) == [];
      } else {
        FileImports(rest, n, sep, eol, nv, ended);
      }
    }
  }

  lemma NoneFitted(n: nat, nv: seq<Byte>)
    ensures AllFitted([], n, nv) == []
  {
  }

  lemma FittedRows(rows: seq<Row>, n: nat, nv: seq<Byte>)
    requires rows != []
    ensures AllFitted(rows, n, nv) == [Fitted(rows[0], n, nv)] + AllFitted(rows[1..], n, nv)
  {
    hide Fitted;
  }

  lemma EndTail()
    ensures TailTerm([]) == (-1, [])
  {
  }

  /** A row with a line end can be seen, and what holds of the last row holds when the first is taken away. */
  lemma LastOfRest(rows: seq<Row>, nv: seq<Byte>, ended: bool)
    requires IsTable(rows) && rows != [] && LastVisible(rows, nv, ended)
    ensures LastVisible(rows[1..], nv, ended)
    ensures if |rows| == 1 && !ended then Visible(rows[0], nv, [])
            else forall tail: seq<Byte> :: tail != [] ==> Visible(rows[0], nv, tail)
  {
    assert IsRow(rows[0]);
    if |rows| > 1 { assert rows[1..][|rows| - 2] == rows[|rows| - 1]; }
  }

  lemma EolTail(eol: seq<Byte>, more: seq<Byte>)
    requires IsEol(eol)
    ensures IsRowTail(eol + more) && TailTerm(eol + more) == (10, more) && eol + more != []
  {
    assert eol == [10] ==> (eol + more)[1..] == more;
    assert eol == [13, 10] ==> (eol + more)[2..] == more;
  }

  lemma SomethingThere(row: Row, sep: Byte, nv: seq<Byte>, tail: seq<Byte>)
    requires IsRow(row) && IsSep(sep) && IsNullText(nv, sep) && IsRowTail(tail) && Visible(row, nv, tail)
    ensures RowText(row, sep, nv, tail) != []
  {
    FirstRead(row, sep, nv, tail);
  }
}
