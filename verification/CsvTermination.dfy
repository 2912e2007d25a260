/** The `.import` loops with their rounds counted: they end exactly when the column separator is not EOF, and then with
    the rows that `Csv.Rows` says. */
module CsvTermination {
  import opened Csv
  import opened Options

  /** The loop over extra fields, given `fuel` rounds; none when it has not ended by then. */
  function SkipWithin(r: RowRead, colSep: int, rowSep: int, fuel: nat): Option<RowRead>
    decreases fuel
  {
    if r.term != colSep then Some(r)
    else if fuel == 0 then None
    else SkipWithin(ExtraRound(r, colSep, rowSep), colSep, rowSep, fuel - 1)
  }

  /** The loop over rows, given `fuel` rounds for itself and for each loop over extra fields. */
  function ImportWithin(s: seq<Byte>, n: nat, colSep: int, rowSep: int, fuel: nat): Option<seq<Row>>
    requires n > 0
    decreases fuel
  {
    if fuel == 0 then None
    else
      match SkipWithin(Cells(s, n, colSep, rowSep), colSep, rowSep, fuel)
      case None => None
      case Some(r) =>
        var row := if s == [] then [] else [r.cells];
        if r.term == EOF then Some(row)
        else
          match ImportWithin(r.rest, n, colSep, rowSep, fuel - 1)
          case None => None
          case Some(more) => Some(row + more)
  }

  ghost predicate Ends(s: seq<Byte>, n: nat, colSep: int, rowSep: int)
    requires n > 0
  {
    exists fuel: nat :: ImportWithin(s, n, colSep, rowSep, fuel).Some?
  }

  // ---- A column separator that equals EOF --------------------------------------------------

  /** At the end of the input every round leaves the loop where it was. */
  lemma {:induction false} SkipNever(r: RowRead, rowSep: int, fuel: nat)
    requires r.term == EOF && r.rest == []
    ensures SkipWithin(r, EOF, rowSep, fuel) == None
    decreases fuel
  {
    if fuel > 0 { SkipNever(ExtraRound(r, EOF, rowSep), rowSep, fuel - 1); }
  }

  lemma {:induction false} ImportNever(s: seq<Byte>, n: nat, rowSep: int, fuel: nat)
    requires n > 0
    ensures ImportWithin(s, n, EOF, rowSep, fuel) == None
    decreases fuel
  {
    if fuel > 0 {
      var r := Cells(s, n, EOF, rowSep);
      if r.term == EOF { SkipNever(r, rowSep, fuel); } else { ImportNever(r.rest, n, rowSep, fuel - 1); }
    }
  }

  // ---- Every other separator ---------------------------------------------------------------

  lemma {:induction false} SkipEnds(r: RowRead, colSep: int, rowSep: int, fuel: nat)
    requires colSep != EOF && fuel > |r.rest|
    ensures SkipWithin(r, colSep, rowSep, fuel) == Some(SkipExtras(r, colSep, rowSep))
    decreases fuel
  {
    if r.term == colSep {
      var r' := ExtraRound(r, colSep, rowSep);
      if r.rest == [] {
        assert SkipWithin(r', colSep, rowSep, fuel - 1) == Some(r');
      } else {
        SkipEnds(r', colSep, rowSep, fuel - 1);
      }
    }
  }

  lemma {:induction false} ImportEnds(s: seq<Byte>, n: nat, colSep: int, rowSep: int, fuel: nat)
    requires n > 0 && colSep != EOF && fuel > |s|
    ensures ImportWithin(s, n, colSep, rowSep, fuel) == Some(Rows(s, n, colSep, rowSep))
    decreases fuel
  {
    var r := ReadRow(s, n, colSep, rowSep);
    SkipEnds(Cells(s, n, colSep, rowSep), colSep, rowSep, fuel);
    if s != [] && r.term != EOF {
      ImportEnds(r.rest, n, colSep, rowSep, fuel - 1);
    } else if s != [] {
      assert r.rest == [] && [r.cells] + Rows(r.rest, n, colSep, rowSep) == [r.cells];
    } else {
      assert Cells(s, n, colSep, rowSep).term == EOF && r.term == EOF;
    }
  }

  /** More rounds do not change the outcome. */
  lemma {:induction false} SkipSame(r: RowRead, colSep: int, rowSep: int, fuel: nat, more: nat)
    requires SkipWithin(r, colSep, rowSep, fuel).Some? && more >= fuel
    ensures SkipWithin(r, colSep, rowSep, more) == SkipWithin(r, colSep, rowSep, fuel)
    decreases fuel
  {
    if r.term == colSep { SkipSame(ExtraRound(r, colSep, rowSep), colSep, rowSep, fuel - 1, more - 1); }
  }

  lemma {:induction false} ImportSame(s: seq<Byte>, n: nat, colSep: int, rowSep: int, fuel: nat, more: nat)
    requires n > 0 && ImportWithin(s, n, colSep, rowSep, fuel).Some? && more >= fuel
    ensures ImportWithin(s, n, colSep, rowSep, more) == ImportWithin(s, n, colSep, rowSep, fuel)
    decreases fuel
  {
    SkipSame(Cells(s, n, colSep, rowSep), colSep, rowSep, fuel, more);
    var r := SkipWithin(Cells(s, n, colSep, rowSep), colSep, rowSep, fuel).value;
    if r.term != EOF { ImportSame(r.rest, n, colSep, rowSep, fuel - 1, more - 1); }
  }

  /** Whatever the input, the import ends exactly when the column separator is not EOF. */
  lemma EndsExactly(s: seq<Byte>, n: nat, colSep: int, rowSep: int)
    requires n > 0
    ensures Ends(s, n, colSep, rowSep) <==> colSep != EOF
  {
    if colSep == EOF {
      forall fuel: nat ensures ImportWithin(s, n, colSep, rowSep, fuel) == None { ImportNever(s, n, rowSep, fuel); }
    } else {
      ImportEnds(s, n, colSep, rowSep, |s| + 1);
    }
  }

  /** An import that ends gives the rows of the file, and no other outcome. */
  lemma EndsWithRows(s: seq<Byte>, n: nat, colSep: int, rowSep: int, fuel: nat)
    requires n > 0 && colSep != EOF && ImportWithin(s, n, colSep, rowSep, fuel).Some?
    ensures ImportWithin(s, n, colSep, rowSep, fuel) == Some(Rows(s, n, colSep, rowSep))
  {
    var more := fuel + |s| + 1;
    ImportEnds(s, n, colSep, rowSep, more);
    ImportSame(s, n, colSep, rowSep, fuel, more);
  }
}
