/** The column layout of the `.tables` command. */
module Tables {
  function Max(a: nat, b: nat): nat {
    if a > b then a else b
  }

  function MaxLen(names: seq<string>): nat {
    if names == [] then 0 else Max(MaxLen(names[..|names| - 1]), |names[|names| - 1]|)
  }

  lemma {:induction false} MaxLenBounds(names: seq<string>, j: nat)
    requires j < |names|
    ensures |names[j]| <= MaxLen(names)
  {
    if j < |names| - 1 { MaxLenBounds(names[..|names| - 1], j); }
  }

  /** The number of columns that fit in 80 characters, with two blanks between them; at least one. */
  function PrintCols(maxlen: nat): (n: nat)
    ensures n >= 1
  {
    Max(80 / (maxlen + 2), 1)
  }

  function PrintRows(n: nat, cols: nat): nat
    requires cols > 0
  {
    (n + cols - 1) / cols
  }

  /** The number of names in row `i` of `rows`. */
  function RowCells(n: nat, i: nat, rows: nat): nat
    requires rows > 0
    decreases if n > i then n - i else 0
  {
    if i >= n then 0 else 1 + RowCells(n, i + rows, rows)
  }

  /** The index of the name in column `c` of row `i`. */
  function Place(i: nat, c: nat, rows: nat): nat {
    assert c * rows >= 0;
    i + c * rows
  }

  /** The character at which column `c` starts. */
  function Start(c: nat, maxlen: nat): nat {
    c * (maxlen + 2)
  }

  /** `%-*s`: blanks on the right up to `w` characters. */
  function Padded(s: string, w: nat): (t: string)
    ensures |t| == Max(|s|, w) && s <= t
  {
    s + seq(if |s| < w then w - |s| else 0, _ => ' ')
  }

  /** The text of a row, from name `j` on. */
  function RowText(names: seq<string>, j: nat, rows: nat, maxlen: nat): string
    requires rows > 0
    decreases if |names| > j then |names| - j else 0
  {
    if j >= |names| then []
    else (if j < rows then "" else "  ") + Padded(names[j], maxlen) + RowText(names, j + rows, rows, maxlen)
  }

  /** The printing loops: `rows[i]` are the names of row `i` in the order in which they are printed. */
  method PrintTables(names: seq<string>) returns (rows: seq<seq<string>>, out: seq<string>)
    ensures names == [] ==> rows == [] && out == []
    ensures names != [] ==>
              var maxlen := MaxLen(names);
              var nPrintRow := PrintRows(|names|, PrintCols(maxlen));
              && |rows| == |out| == nPrintRow > 0
              && forall i :: 0 <= i < nPrintRow ==> IsRow(names, rows[i], i, nPrintRow) && out[i] == RowText(names, i, nPrintRow, maxlen)
  {
    rows, out := [], [];
    var nRow := |names|;
    if nRow == 0 { return; }
    var maxlen := 0;
    for i := 0 to nRow
      invariant maxlen == MaxLen(names[..i])
    {
      assert names[..i + 1][..i] == names[..i];
      if |names[i]| > maxlen { maxlen := |names[i]|; }
    }
    assert names[..nRow] == names;
    var nPrintCol := 80 / (maxlen + 2);
    if nPrintCol < 1 { nPrintCol := 1; }
    var nPrintRow := (nRow + nPrintCol - 1) / nPrintCol;
    SomeRow(nRow, nPrintCol);
    for i := 0 to nPrintRow
      invariant |rows| == |out| == i
      invariant forall x :: 0 <= x < i ==> IsRow(names, rows[x], x, nPrintRow) && out[x] == RowText(names, x, nPrintRow, maxlen)
    {
      var row, text := PrintRow(names, i, nPrintRow, maxlen);
      rows, out := rows + [row], out + [text];
    }
  }

  lemma SomeRow(n: nat, cols: nat)
    requires n > 0 && cols > 0
    ensures PrintRows(n, cols) > 0
  {
    Ceiling(n, cols);
    if PrintRows(n, cols) < 1 { assert false; }
  }

  /** Column `c` of row `i` holds name `i + c * rows`: columns are filled from top to bottom. */
  ghost predicate IsRow(names: seq<string>, row: seq<string>, i: nat, rows: nat)
    requires rows > 0
  {
    && |row| == RowCells(|names|, i, rows)
    && Column(names, row, i, rows)
  }

  ghost predicate Column(names: seq<string>, row: seq<string>, i: nat, rows: nat) {
    forall c :: 0 <= c < |row| ==> Place(i, c, rows) < |names| && row[c] == names[Place(i, c, rows)]
  }

  method PrintRow(names: seq<string>, i: nat, rows: nat, maxlen: nat) returns (row: seq<string>, text: string)
    requires rows > 0
    ensures IsRow(names, row, i, rows) && text == RowText(names, i, rows, maxlen)
  {
    hide Place, RowText, RowCells;
    row, text := [], [];
    var j := i;
    NextPlace(i, 0, rows);
    while j < |names|
      invariant j == Place(i, |row|, rows)
      invariant |row| + RowCells(|names|, j, rows) == RowCells(|names|, i, rows)
      invariant Column(names, row, i, rows)
      invariant text + RowText(names, j, rows, maxlen) == RowText(names, i, rows, maxlen)
      decreases if |names| > j then |names| - j else 0
    {
      RowNext(names, j, rows, maxlen);
      var zSp := if j < rows then "" else "  ";
      var cell := zSp + Padded(names[j], maxlen);
      TextNext(text, cell, RowText(names, j + rows, rows, maxlen));
      text := text + cell;
      row := row + [names[j]];
      NextPlace(i, |row| - 1, rows);
      j := j + rows;
    }
    RowEnd(names, j, rows, maxlen);
    assert text + [] == text;
  }

  lemma TextNext(text: string, cell: string, rest: string)
    ensures text + (cell + rest) == (text + cell) + rest
  {
  }

  lemma NextPlace(i: nat, c: nat, rows: nat)
    ensures Place(i, 0, rows) == i && Place(i, c + 1, rows) == Place(i, c, rows) + rows
  {
    Times(c, rows);
  }

  lemma RowNext(names: seq<string>, j: nat, rows: nat, maxlen: nat)
    requires rows > 0 && j < |names|
    ensures RowCells(|names|, j, rows) == 1 + RowCells(|names|, j + rows, rows)
    ensures RowText(names, j, rows, maxlen)
         == (if j < rows then "" else "  ") + Padded(names[j], maxlen) + RowText(names, j + rows, rows, maxlen)
  {
    hide Padded;
  }

  lemma RowEnd(names: seq<string>, j: nat, rows: nat, maxlen: nat)
    requires rows > 0 && j >= |names|
    ensures RowCells(|names|, j, rows) == 0 && RowText(names, j, rows, maxlen) == []
  {
  }

  lemma Times(c: nat, rows: nat)
    ensures (c + 1) * rows == c * rows + rows
  {
  }

  /** Every character of a row belongs to a name, in its place, or is a blank. */
  lemma {:induction false} RowBlanks(names: seq<string>, j: nat, rows: nat, maxlen: nat, p: nat)
    requires rows > 0 && p < |RowText(names, j, rows, maxlen)|
    ensures RowText(names, j, rows, maxlen)[p] == ' ' || OfName(names, j, rows, maxlen, p)
    decreases if |names| > j then |names| - j else 0
  {
    if j >= |names| {
      RowEnd(names, j, rows, maxlen);
    } else {
      RowNext(names, j, rows, maxlen);
      var lead := if j < rows then "" else "  ";
      var cell := Padded(names[j], maxlen);
      var rest := RowText(names, j + rows, rows, maxlen);
      PaddedBlanks(names[j], maxlen);
      var k := |lead| + |cell|;
      assert RowText(names, j, rows, maxlen)[p]
          == if p < |lead| then lead[p] else if p < k then cell[p - |lead|] else rest[p - k];
      if p >= k { RowBlanks(names, j + rows, rows, maxlen, p - k); }
    }
  }

  /** The character at `p` is one of a name whose cell it stands in. */
  predicate OfName(names: seq<string>, j: nat, rows: nat, maxlen: nat, p: nat)
    requires rows > 0
    decreases if |names| > j then |names| - j else 0
  {
    if j >= |names| then false
    else
      var lead := if j < rows then 0 else 2;
      var k := lead + Max(|names[j]|, maxlen);
      if p < k then lead <= p < lead + |names[j]| else OfName(names, j + rows, rows, maxlen, p - k)
  }

  lemma PaddedBlanks(s: string, w: nat)
    ensures forall i :: |s| <= i < |Padded(s, w)| ==> Padded(s, w)[i] == ' '
  {
  }

  // ---- Every name once, rows that fit ------------------------------------------------------

  lemma {:induction false} CellsAre(n: nat, i: nat, rows: nat, c: nat)
    requires rows > 0
    ensures c < RowCells(n, i, rows) <==> Place(i, c, rows) < n
    decreases c
  {
    hide Place;
    NextColumn(i, c, rows, 0);
    if c > 0 { CellsAre(n, i + rows, rows, c - 1); }
  }

  /** Name `j` is printed once: in column `c` of row `i` if and only if these are `j / rows` and `j % rows`. */
  lemma EveryNameOnce(n: nat, rows: nat, j: nat, i: nat, c: nat)
    requires rows > 0 && j < n && i < rows
    ensures c < RowCells(n, i, rows) && Place(i, c, rows) == j <==> i == j % rows && c == j / rows
  {
    CellsAre(n, i, rows, c);
    hide RowCells;
    DivMod(i, c, rows);
    if i == j % rows && c == j / rows { Whole(j, rows); }
  }

  lemma DivMod(i: nat, c: nat, rows: nat)
    requires i < rows
    ensures Place(i, c, rows) % rows == i && Place(i, c, rows) / rows == c
  {
    var x := Place(i, c, rows);
    Whole(x, rows);
    Unique(rows, x / rows, x % rows, c, i);
  }

  lemma Unique(m: nat, q: int, r: nat, c: int, i: nat)
    requires r < m && i < m && q * m + r == c * m + i
    ensures q == c && r == i
  {
    if q > c {
      Mono(c + 1, q, m);
      assert false;
    } else if q < c {
      Mono(q + 1, c, m);
      assert false;
    }
  }

  /** No row has more names than there are columns. */
  lemma RowsFit(n: nat, cols: nat, i: nat)
    requires n > 0 && cols > 0
    ensures PrintRows(n, cols) > 0 && RowCells(n, i, PrintRows(n, cols)) <= cols
  {
    SomeRow(n, cols);
    var rows := PrintRows(n, cols);
    CellsAre(n, i, rows, cols);
    assert cols * rows >= n by { Ceiling(n, cols); }
  }

  lemma Ceiling(n: nat, cols: nat)
    requires cols > 0
    ensures cols * PrintRows(n, cols) >= n
  {
    var x := n + cols - 1;
    assert x == cols * (x / cols) + x % cols;
  }

  lemma {:induction false} RowWidth(names: seq<string>, j: nat, rows: nat, maxlen: nat)
    requires rows > 0 && forall x :: 0 <= x < |names| ==> |names[x]| <= maxlen
    ensures var c := RowCells(|names|, j, rows);
            |RowText(names, j, rows, maxlen)| == Start(c, maxlen) - if j < rows && c > 0 then 2 else 0
    decreases if |names| > j then |names| - j else 0
  {
    hide RowText, RowCells, Start;
    if j < |names| {
      RowNext(names, j, rows, maxlen);
      RowWidth(names, j + rows, rows, maxlen);
      NextColumn(j, RowCells(|names|, j, rows), rows, maxlen);
    } else {
      RowEnd(names, j, rows, maxlen);
      NextColumn(j, 0, rows, maxlen);
    }
  }

  /** Every printed row has at most `nPrintCol` names and fits in 80 columns, unless a single name does not. */
  lemma LinesFit(names: seq<string>, i: nat)
    requires names != []
    ensures var maxlen := MaxLen(names);
            var cols := PrintCols(maxlen);
            var rows := PrintRows(|names|, cols);
            && rows > 0 && RowCells(|names|, i, rows) <= cols
            && (maxlen <= 78 && i < rows ==> |RowText(names, i, rows, maxlen)| <= 80)
  {
    var maxlen := MaxLen(names);
    var cols := PrintCols(maxlen);
    RowsFit(|names|, cols, i);
    var rows := PrintRows(|names|, cols);
    var c := RowCells(|names|, i, rows);
    hide RowText, PrintRows, PrintCols, MaxLen, RowCells;
    forall x | 0 <= x < |names| ensures |names[x]| <= maxlen { MaxLenBounds(names, x); }
    RowWidth(names, i, rows, maxlen);
    if maxlen <= 78 {
      ColumnsFit(maxlen);
      Mono(c, cols, maxlen + 2);
    }
  }

  /** As many columns as fit in 80 characters when each takes two more than the longest name, but one at least; and as few
      rows as these columns allow. */
  lemma ColumnsAndRows(maxlen: nat, n: nat)
    ensures var cols := PrintCols(maxlen);
            && (cols * (maxlen + 2) <= 80 || cols == 1) && (cols + 1) * (maxlen + 2) > 80
            && (n > 0 ==> var rows := PrintRows(n, cols); rows > 0 && (rows - 1) * cols < n <= rows * cols)
  {
    var cols, w := PrintCols(maxlen), maxlen + 2;
    Whole(80, w);
    Commute(w, 80 / w);
    Times(80 / w, w);
    if 80 / w == 0 { Mono(1, 1, w); }
    if n > 0 {
      var x := n + cols - 1;
      Whole(x, cols);
      Commute(cols, x / cols);
      SomeRow(n, cols);
      Times(x / cols - 1, cols);
    }
  }

  lemma Commute(a: int, b: int)
    ensures a * b == b * a
  {
  }

  lemma ColumnsFit(maxlen: nat)
    requires maxlen <= 78
    ensures PrintCols(maxlen) * (maxlen + 2) <= 80
  {
    Mono(1, PrintCols(maxlen), maxlen + 2);
    Whole(80, maxlen + 2);
  }

  lemma Whole(x: nat, m: nat)
    requires m > 0
    ensures x == m * (x / m) + x % m
  {
  }

  lemma NextColumn(i: nat, c: nat, rows: nat, maxlen: nat)
    ensures Place(i, 0, rows) == i <= Place(i, c, rows) && Start(0, maxlen) == 0
    ensures c > 0 ==> Place(i, c, rows) == Place(i + rows, c - 1, rows)
    ensures c > 0 ==> Start(c, maxlen) == Start(c - 1, maxlen) + maxlen + 2
  {
    if c > 0 {
      Times(c - 1, rows);
      Times(c - 1, maxlen + 2);
    }
  }

  /** The columns line up: column `c` of every row starts at the same character. */
  lemma {:induction false} ColumnsLineUp(names: seq<string>, i: nat, c: nat, rows: nat, maxlen: nat)
    requires i < rows && Place(i, c, rows) < |names| && forall x :: 0 <= x < |names| ==> |names[x]| <= maxlen
    ensures StandsAt(names[Place(i, c, rows)], RowText(names, i, rows, maxlen), Start(c, maxlen))
  {
    hide Place, Start;
    NextColumn(i, c, rows, maxlen);
    var cell := Padded(names[i], maxlen);
    if c == 0 {
      assert RowText(names, i, rows, maxlen)[0..] == cell + RowText(names, i + rows, rows, maxlen);
    } else {
      CellAt(names, i + rows, c - 1, rows, maxlen);
      After(names[Place(i, c, rows)], cell, RowText(names, i + rows, rows, maxlen), Start(c - 1, maxlen) + 2);
    }
  }

  ghost predicate StandsAt(s: string, text: string, k: nat) {
    k <= |text| && s <= text[k..]
  }

  lemma After(s: string, cell: string, rest: string, k: nat)
    requires StandsAt(s, rest, k)
    ensures StandsAt(s, cell + rest, |cell| + k)
  {
    assert (cell + rest)[|cell| + k..] == rest[k..];
  }

  /** From a later column on, whose text starts with the two blanks that separate columns. */
  lemma {:induction false} CellAt(names: seq<string>, j: nat, c: nat, rows: nat, maxlen: nat)
    requires 0 < rows <= j && Place(j, c, rows) < |names| && forall x :: 0 <= x < |names| ==> |names[x]| <= maxlen
    ensures StandsAt(names[Place(j, c, rows)], RowText(names, j, rows, maxlen), Start(c, maxlen) + 2)
    decreases c
  {
    hide Place, Start;
    NextColumn(j, c, rows, maxlen);
    var cell := "  " + Padded(names[j], maxlen);
    if c == 0 {
      After(names[j], "  ", Padded(names[j], maxlen) + RowText(names, j + rows, rows, maxlen), 0);
      assert "  " + (Padded(names[j], maxlen) + RowText(names, j + rows, rows, maxlen))
          == RowText(names, j, rows, maxlen);
    } else {
      hide StandsAt;
      CellAt(names, j + rows, c - 1, rows, maxlen);
      After(names[Place(j, c, rows)], cell, RowText(names, j + rows, rows, maxlen), Start(c - 1, maxlen) + 2);
    }
  }

  lemma Mono(a: int, b: int, m: nat)
    requires a <= b
    ensures a * m <= b * m
  {
  }
}
