/** CSV output (`output_csv`, the CSV part of `shell_callback`) and CSV input (`csv_read_one_field`, the
    `.import` loop).  Bytes are numbers, as `fgetc` delivers them. */
module Csv {
  import opened Options

  const EOF: int := -1
  const QUOTE: int := 34
  const LF: int := 10
  const CR: int := 13

  type Byte = x: int | 0 <= x < 256

  /** A byte stored in a plain (signed) `char` and read back as an `int`. */
  function Signed(b: Byte): int {
    if b < 128 then b else b - 256
  }

  // ---- Writing -----------------------------------------------------------------------------

  /** The table `needCsvQuote`. */
  predicate NeedsQuote(b: Byte) {
    b <= 32 || b == QUOTE || b == 39 || b >= 127
  }

  predicate ForcesQuotes(z: seq<Byte>, sep: seq<Byte>, i: nat)
    requires i < |z|
  {
    NeedsQuote(z[i]) || (sep != [] && z[i] == sep[0] && (|sep| == 1 || sep <= z))
  }

  function Doubled(z: seq<Byte>): seq<Byte> {
    if z == [] then [] else (if z[0] == QUOTE then [QUOTE, QUOTE] else [z[0]]) + Doubled(z[1..])
  }

  /** A field as it is written: in quotes when empty or when some character asks for it. */
  ghost function Term(z: seq<Byte>, sep: seq<Byte>): seq<Byte> {
    if z == [] || exists i :: 0 <= i < |z| && ForcesQuotes(z, sep, i) then [QUOTE] + Doubled(z) + [QUOTE] else z
  }

  ghost function Cell(z: Option<seq<Byte>>, sep: seq<Byte>, nullValue: seq<Byte>): seq<Byte> {
    if z.None? then nullValue else Term(z.value, sep)
  }

  ghost function Line(row: seq<Option<seq<Byte>>>, sep: seq<Byte>, rowSep: seq<Byte>, nullValue: seq<Byte>): seq<Byte> {
    if row == [] then []
    else Cell(row[0], sep, nullValue) +
         (if |row| == 1 then rowSep else sep + Line(row[1..], sep, rowSep, nullValue))
  }

  /** The loop that looks for a character that needs quotes: `i == 0` asks for them. */
  method ScanQuoting(t: seq<Byte>, sep: seq<Byte>) returns (i: nat)
    ensures i == 0 <==> t == [] || exists x :: 0 <= x < |t| && ForcesQuotes(t, sep, x)
  {
    i := 0;
    while i < |t|
      invariant i <= |t| && forall x :: 0 <= x < i ==> !ForcesQuotes(t, sep, x)
    {
      if NeedsQuote(t[i]) || (sep != [] && t[i] == sep[0] && (|sep| == 1 || sep <= t)) {
        assert ForcesQuotes(t, sep, i);
        return 0;
      }
      i := i + 1;
    }
  }

  /** A C string. */
  predicate NulFree(z: seq<Byte>) {
    0 !in z
  }

  predicate NulFreeRow(row: seq<Option<seq<Byte>>>) {
    forall i :: 0 <= i < |row| && row[i].Some? ==> NulFree(row[i].value)
  }

  method OutputCsv(z: Option<seq<Byte>>, sep: seq<Byte>, nullValue: seq<Byte>, bSep: bool) returns (out: seq<Byte>)
    requires (z.Some? ==> NulFree(z.value)) && NulFree(sep) && NulFree(nullValue)
    ensures out == Cell(z, sep, nullValue) + if bSep then sep else []
  {
    if z.None? {
      out := nullValue;
    } else {
      var t := z.value;
      var i := ScanQuoting(t, sep);
      if i == 0 {
        out := [QUOTE];
        while i < |t|
          invariant i <= |t| && out == [QUOTE] + Doubled(t[..i])
        {
          DoubledNext(t, i);
          if t[i] == QUOTE { out := out + [QUOTE]; }
          out := out + [t[i]];
          i := i + 1;
        }
        assert t[..i] == t;
        out := out + [QUOTE];
      } else {
        out := t;
      }
    }
    if bSep { out := out + sep; }
  }

  lemma {:induction false} DoubledNext(t: seq<Byte>, i: nat)
    requires i < |t|
    ensures Doubled(t[..i + 1]) == Doubled(t[..i]) + if t[i] == QUOTE then [QUOTE, QUOTE] else [t[i]]
  {
    if i == 0 {
      assert t[..1] == [t[0]];
    } else {
      assert t[..i + 1][1..] == t[1..][..i] && t[..i][1..] == t[1..][..i - 1];
      DoubledNext(t[1..], i - 1);
    }
  }

  lemma FieldNulFree(row: seq<Option<seq<Byte>>>, i: nat)
    requires NulFreeRow(row) && i < |row|
    ensures row[i].Some? ==> NulFree(row[i].value)
  {
  }

  /** One result row in CSV mode. */
  method OutputRow(row: seq<Option<seq<Byte>>>, sep: seq<Byte>, rowSep: seq<Byte>, nullValue: seq<Byte>)
    returns (out: seq<Byte>)
    requires NulFreeRow(row) && NulFree(sep) && NulFree(rowSep) && NulFree(nullValue)
    ensures out == Line(row, sep, rowSep, nullValue)
  {
    out := [];
    if |row| > 0 {
      hide Cell, Line, NulFree, NulFreeRow;
      var i := 0;
      while i < |row|
        invariant i <= |row|
        invariant Line(row, sep, rowSep, nullValue) == out + if i < |row| then Line(row[i..], sep, rowSep, nullValue) else rowSep
      {
        FieldNulFree(row, i);
        var field := OutputCsv(row[i], sep, nullValue, i < |row| - 1);
        LineNext(row, i, sep, rowSep, nullValue, out);
        out := out + field;
        i := i + 1;
      }
      out := out + rowSep;
    }
  }

  lemma LineNext(row: seq<Option<seq<Byte>>>, i: nat, sep: seq<Byte>, rowSep: seq<Byte>, nullValue: seq<Byte>, out: seq<Byte>)
    requires i < |row|
    ensures out + Line(row[i..], sep, rowSep, nullValue)
         == out + (Cell(row[i], sep, nullValue) + if i < |row| - 1 then sep else [])
                + if i + 1 < |row| then Line(row[i + 1..], sep, rowSep, nullValue) else rowSep
  {
    assert row[i..][1..] == row[i + 1..];
  }

  // ---- Reading one field: what is read -----------------------------------------------------

  /** A field, the character that ended it, and the input after that character. */
  datatype Field = Field(text: seq<Byte>, term: int, rest: seq<Byte>)

  function First(s: seq<Byte>): int {
    if s == [] then EOF else s[0]
  }

  function Rest(s: seq<Byte>): seq<Byte> {
    if s == [] then [] else s[1..]
  }

  function Plain(s: seq<Byte>, buf: seq<Byte>, colSep: int, rowSep: int): (f: Field)
    decreases |s|
    ensures |f.rest| <= |s| && (s != [] ==> |f.rest| < |s|) && (f.term == EOF ==> f.rest == [])
  {
    if s == [] || s[0] == colSep || s[0] == rowSep then
      Field(if First(s) == rowSep && buf != [] && buf[|buf| - 1] == CR then buf[..|buf| - 1] else buf, First(s), Rest(s))
    else
      Plain(s[1..], buf + [s[0]], colSep, rowSep)
  }

  lemma PlainNext(s: seq<Byte>, at: nat, buf: seq<Byte>, colSep: int, rowSep: int)
    requires at < |s| && s[at] != colSep && s[at] != rowSep
    ensures Plain(s[at..], buf, colSep, rowSep) == Plain(s[at + 1..], buf + [s[at]], colSep, rowSep)
  {
    assert s[at..][1..] == s[at + 1..];
  }

  lemma FirstAt(s: seq<Byte>, at: nat)
    requires at <= |s|
    ensures First(s[at..]) == if at < |s| then s[at] else EOF
  {
  }

  /** The text before the last quote. */
  function BeforeQuote(buf: seq<Byte>): seq<Byte> {
    if buf == [] then []
    else if buf[|buf| - 1] == QUOTE then buf[..|buf| - 1]
    else BeforeQuote(buf[..|buf| - 1])
  }

  /** The closing test, with the previous two characters. */
  predicate Closes(c: int, pc: int, ppc: int, colSep: int, rowSep: int) {
    || (c == colSep && pc == QUOTE)
    || (c == rowSep && pc == QUOTE)
    || (c == rowSep && pc == CR && ppc == QUOTE)
    || (c == EOF && pc == QUOTE)
  }

  function Quoted(s: seq<Byte>, buf: seq<Byte>, pc: int, ppc: int, colSep: int, rowSep: int): (f: Field)
    decreases |s|
    ensures |f.rest| <= |s| && (f.term == EOF ==> f.rest == [])
  {
    var c := First(s);
    if c == QUOTE && pc == QUOTE then Quoted(s[1..], buf, 0, ppc, colSep, rowSep)
    else if Closes(c, pc, ppc, colSep, rowSep) then Field(BeforeQuote(buf), c, Rest(s))
    else if s == [] then Field(buf, EOF, [])
    else Quoted(s[1..], buf + [s[0]], s[0], pc, colSep, rowSep)
  }

  function ReadField(s: seq<Byte>, colSep: int, rowSep: int): (f: Field)
    requires s != []
    ensures |f.rest| < |s| && (f.term == EOF ==> f.rest == [])
  {
    if s[0] == QUOTE then Quoted(s[1..], [], 0, 0, colSep, rowSep)
    else Plain(s, [], colSep, rowSep)
  }

  function Count(s: seq<Byte>, c: int): nat {
    if s == [] then 0 else Count(s[..|s| - 1], c) + if s[|s| - 1] == c then 1 else 0
  }

  lemma CountNone(s: seq<Byte>, a: nat, c: int)
    requires a <= |s|
    ensures Count(s[a..a], c) == 0
  {
  }

  lemma CountNext(s: seq<Byte>, a: nat, p: nat, c: int)
    requires a <= p < |s|
    ensures Count(s[a..p + 1], c) == Count(s[a..p], c) + if s[p] == c then 1 else 0
  {
    assert s[a..p + 1][..p - a] == s[a..p];
  }

  lemma CountFirst(s: seq<Byte>, a: nat, p: nat, c: int)
    requires a < p <= |s|
    ensures Count(s[a..p], c) == Count(s[a + 1..p], c) + if s[a] == c then 1 else 0
  {
    CountNext(s, a, p - 1, c);
    if a + 1 < p {
      CountNext(s, a + 1, p - 1, c);
      CountFirst(s, a, p - 1, c);
    }
  }

  lemma {:induction false} CountSplit(s: seq<Byte>, a: nat, p: nat, c: int)
    requires a <= p <= |s|
    ensures Count(s[..p], c) == Count(s[..a], c) + Count(s[a..p], c)
  {
    if a < p {
      assert s[..p][..p - 1] == s[..p - 1] && s[a..p][..p - 1 - a] == s[a..p - 1];
      CountSplit(s, a, p - 1, c);
    }
  }

  /** What the line counter grows by when `s` is read as one field: its row separators.  An opening quote is
      not counted even where the row separator is a quote. */
  function Lines(s: seq<Byte>, rowSep: int): int {
    Count(s, rowSep) - if s != [] && s[0] == QUOTE == rowSep then 1 else 0
  }

  /** The number of fields, one after the other, that start with a quote. */
  function QuotedFields(s: seq<Byte>, colSep: int, rowSep: int): nat
    decreases |s|
  {
    if s == [] then 0
    else (if s[0] == QUOTE then 1 else 0) + QuotedFields(ReadField(s, colSep, rowSep).rest, colSep, rowSep)
  }

  /** The number of fields, one after the other, that the end of the input ends. */
  function EndedFields(s: seq<Byte>, colSep: int, rowSep: int): nat
    decreases |s|
  {
    if s == [] then 0
    else
      var f := ReadField(s, colSep, rowSep);
      (if f.term == EOF then 1 else 0) + EndedFields(f.rest, colSep, rowSep)
  }

  predicate NoneEnded(s: seq<Byte>, colSep: int, rowSep: int)
    decreases |s|
  {
    s == [] || (ReadField(s, colSep, rowSep).term != EOF && NoneEnded(ReadField(s, colSep, rowSep).rest, colSep, rowSep))
  }

  predicate NoneQuoted(s: seq<Byte>, colSep: int, rowSep: int)
    decreases |s|
  {
    s == [] || (s[0] != QUOTE && NoneQuoted(ReadField(s, colSep, rowSep).rest, colSep, rowSep))
  }

  /** How far the line counter is off: opening quotes are not counted where they are row separators, and the end of
      the input is where EOF is the row separator. */
  function Miscount(s: seq<Byte>, colSep: int, rowSep: int): int {
    if rowSep == QUOTE then 0 - QuotedFields(s, colSep, rowSep)
    else if rowSep == EOF then EndedFields(s, colSep, rowSep)
    else 0
  }

  lemma MiscountNext(s: seq<Byte>, colSep: int, rowSep: int)
    requires s != []
    ensures var f := ReadField(s, colSep, rowSep);
            Miscount(s, colSep, rowSep) == Miscount(f.rest, colSep, rowSep)
              - (if s[0] == QUOTE == rowSep then 1 else 0) + (if f.term == EOF == rowSep then 1 else 0)
  {
    hide ReadField;
  }

  lemma FirstByte(s: seq<Byte>, a: nat, p: nat)
    requires a < p <= |s|
    ensures s[a..p][0] == s[a..][0] == s[a]
  {
  }

  /** What one field adds to both sides. */
  lemma LineStep(s: seq<Byte>, a: nat, p: nat, colSep: int, rowSep: int, term: int)
    requires a < p <= |s| && var f := ReadField(s[a..], colSep, rowSep); f.rest == s[p..] && f.term == term
    ensures Count(s[..p], rowSep) - Miscount(s[p..], colSep, rowSep)
         == Count(s[..a], rowSep) - Miscount(s[a..], colSep, rowSep)
              + Lines(s[a..p], rowSep) + if term == EOF == rowSep then 1 else 0
  {
    hide Miscount, Count, ReadField;
    CountSplit(s, a, p, rowSep);
    MiscountNext(s[a..], colSep, rowSep);
    FirstByte(s, a, p);
  }

  /** The line counter of a whole file. */
  function LineCount(s: seq<Byte>, colSep: int, rowSep: int): int {
    1 + Count(s, rowSep) + Miscount(s, colSep, rowSep)
  }

  lemma {:induction false} EndedFieldsNone(s: seq<Byte>, colSep: int, rowSep: int)
    ensures EndedFields(s, colSep, rowSep) == 0 <==> NoneEnded(s, colSep, rowSep)
    decreases |s|
  {
    if s != [] { EndedFieldsNone(ReadField(s, colSep, rowSep).rest, colSep, rowSep); }
  }

  lemma {:induction false} QuotedFieldsNone(s: seq<Byte>, colSep: int, rowSep: int)
    ensures QuotedFields(s, colSep, rowSep) == 0 <==> NoneQuoted(s, colSep, rowSep)
    decreases |s|
  {
    if s != [] { QuotedFieldsNone(ReadField(s, colSep, rowSep).rest, colSep, rowSep); }
  }

  /** The line counter is 1 plus the row separators exactly when these are no quotes, or no field starts with one, and
      they do not equal EOF, or the end of the file ends no field. */
  lemma LineCountExact(s: seq<Byte>, colSep: int, rowSep: int)
    ensures LineCount(s, colSep, rowSep) == 1 + Count(s, rowSep)
       <==> (rowSep == QUOTE ==> NoneQuoted(s, colSep, rowSep)) && (rowSep == EOF ==> NoneEnded(s, colSep, rowSep))
  {
    QuotedFieldsNone(s, colSep, rowSep);
    EndedFieldsNone(s, colSep, rowSep);
  }

  /** A quoted field between two quotes as row separators: three bytes, two separators, line 2. */
  lemma LineCountMisses()
    ensures Count([34, 65, 34], QUOTE) == 2 && LineCount([34, 65, 34], 44, QUOTE) == 2
  {
    var s: seq<Byte> := [34, 65, 34];
    assert s[..2] == [34, 65] && s[..2][..1] == [34] && s[..2][..1][..0] == [];
    assert s[1..] == [65, 34] && s[1..][1..] == [34] && s[1..][1..][1..] == [];
    var u, v: seq<Byte> := s[1..], s[1..][1..];
    assert First(u) == 65 && First(v) == QUOTE && First(v[1..]) == EOF;
    assert [] + [u[0]] == [65] && [65] + [v[0]] == [65, QUOTE];
    assert Quoted(v[1..], [65, QUOTE], QUOTE, 65, 44, QUOTE).rest == [];
    assert Quoted(v, [65], 65, 0, 44, QUOTE) == Quoted(v[1..], [65, QUOTE], QUOTE, 65, 44, QUOTE);
    assert Quoted(u, [], 0, 0, 44, QUOTE) == Quoted(v, [65], 65, 0, 44, QUOTE);
    assert QuotedFields(s, 44, QUOTE) == 1 + QuotedFields([], 44, QUOTE);
  }

  // ---- The reader --------------------------------------------------------------------------

  class ImportCtx {
    const input: seq<Byte>
    const cColSep: int
    const cRowSep: int
    var pos: nat
    var z: seq<Byte>  // the allocated space; empty before the first allocation (NULL)
    var n: nat
    var nAlloc: nat
    var nLine: int
    var cTerm: int

    ghost predicate Valid()
      reads this
    {
      && pos <= |input|
      && |z| == nAlloc && (if nAlloc == 0 then n == 0 else n < nAlloc)
    }

    ghost function Text(): seq<Byte>
      requires Valid()
      reads this
    {
      z[..n]
    }

    /** The line counter is 1 plus the number of row separators read, but for what the fields read so far are
        miscounted. */
    ghost predicate LineOk()
      requires Valid()
      reads this
    {
      nLine == 1 + Count(input[..pos], cRowSep)
               + Miscount(input, cColSep, cRowSep) - Miscount(input[pos..], cColSep, cRowSep)
    }

    constructor (input: seq<Byte>, cColSep: int, cRowSep: int)
      ensures Valid() && LineOk() && this.input == input && this.cColSep == cColSep && this.cRowSep == cRowSep
      ensures pos == 0 && nLine == 1 && z == []
    {
      this.input, this.cColSep, this.cRowSep := input, cColSep, cRowSep;
      pos, z, n, nAlloc, nLine, cTerm := 0, [], 0, 0, 1, 0;
      new;
      assert input[0..] == input;
    }

    ghost function At(i: nat): int
      reads this
    {
      if i < |input| then input[i] else EOF
    }

    method Fgetc() returns (c: int)
      requires Valid()
      modifies this`pos
      ensures Valid() && c == First(input[old(pos)..]) && input[pos..] == Rest(input[old(pos)..])
      ensures pos == if c == EOF then old(pos) else old(pos) + 1
      ensures c == At(old(pos))
    {
      if pos < |input| {
        c := input[pos];
        pos := pos + 1;
      } else {
        c := EOF;
      }
    }

    /** Appends one byte; one byte always stays free for the terminator. */
    method AppendChar(c: Byte)
      requires Valid()
      modifies this`z, this`n, this`nAlloc
      ensures Valid() && nAlloc > 0 && old(nAlloc) <= nAlloc && Text() == old(Text()) + [c]
    {
      if n + 1 >= nAlloc {
        nAlloc := nAlloc + nAlloc + 100;
        z := z + seq(nAlloc - |z|, _ => 0);
      }
      z := z[n := c];
      n := n + 1;
      assert z[..n] == z[..n - 1] + [c];
    }

    /** The scan back to the closing quote: it stops inside the buffer because there is one. */
    method CutAtQuote()
      requires Valid() && n > 0
      requires exists i :: 0 <= i < n && z[i] == QUOTE
      modifies this`n
      ensures Valid() && Text() == BeforeQuote(old(Text()))
    {
      ghost var all := Text();
      n := n - 1;
      while z[n] != QUOTE
        invariant Valid() && n < old(n)
        invariant BeforeQuote(all) == BeforeQuote(z[..n + 1])
        invariant exists i :: 0 <= i <= n && z[i] == QUOTE
        decreases n
      {
        assert z[..n + 1][..n] == z[..n];
        n := n - 1;
      }
      assert z[..n + 1][..n] == z[..n];
    }

    /** The look-back of the quoted branch agrees with the end of the buffer. */
    ghost predicate LookBack(pc: int, ppc: int)
      requires Valid()
      reads this
    {
      && (pc == QUOTE ==> n > 0 && z[n - 1] == QUOTE)
      && (pc == CR && ppc == QUOTE ==> n > 1 && z[n - 2] == QUOTE)
    }

    /** The counter in the field that starts at offset `a`, when it was `n0` there; `ended` after its terminator. */
    ghost predicate Counted(a: nat, n0: int, ended: bool)
      reads this
    {
      && a <= pos <= |input|
      && nLine == n0 + Count(input[a..pos], cRowSep) + if ended then AtEof(cTerm) else 0
    }

    /** The end of the input counts where it equals the row separator. */
    ghost function AtEof(c: int): int
      reads this
    {
      if c == EOF == cRowSep then 1 else 0
    }

    lemma AtEofIs(c: int)
      ensures AtEof(c) == if c == EOF == cRowSep then 1 else 0
    {
    }

    /** Reads a character and counts it if it is the row separator. */
    method FgetcCounting(ghost a: nat) returns (c: int)
      requires Valid() && a <= pos
      modifies this`pos, this`nLine
      ensures Valid() && c == First(input[old(pos)..]) && input[pos..] == Rest(input[old(pos)..])
      ensures pos == if c == EOF then old(pos) else old(pos) + 1
      ensures nLine == old(nLine) + Count(input[a..pos], cRowSep) - Count(input[a..old(pos)], cRowSep) + AtEof(c)
    {
      c := Fgetc();
      if c == cRowSep { nLine := nLine + 1; }
      if c != EOF { CountNext(input, a, old(pos), cRowSep); }
    }

    /** The closing test of the quoted branch, and what follows it, for the character `c` in front of `input[pos..]`. */
    method QuotedChar(c: int, pc: int, ppc: int, ghost s: seq<Byte>) returns (go: bool)
      requires Valid() && LookBack(pc, ppc) && !(c == QUOTE && pc == QUOTE)
      requires c == First(s) && input[pos..] == Rest(s)
      modifies this`z, this`n, this`nAlloc, this`cTerm
      ensures Valid() && old(nAlloc) <= nAlloc
      ensures (go ==> s != [] && LookBack(c, pc)) && (!go ==> cTerm == c)
      ensures Quoted(s, old(Text()), pc, ppc, cColSep, cRowSep)
           == if go then Quoted(input[pos..], Text(), c, pc, cColSep, cRowSep) else Field(Text(), cTerm, input[pos..])
    {
      if (c == cColSep && pc == QUOTE) || (c == cRowSep && pc == QUOTE)
         || (c == cRowSep && pc == CR && ppc == QUOTE) || (c == EOF && pc == QUOTE) {
        CutAtQuote();
        cTerm := c;
        return false;
      }
      if c == EOF {
        cTerm := c;
        return false;
      }
      AppendChar(c);
      return true;
    }

    /** One round of the quoted branch. */
    method QuotedStep(pc: int, ppc: int, ghost a: nat) returns (go: bool, pc': int, ppc': int)
      requires Valid() && LookBack(pc, ppc) && a <= pos
      modifies this`pos, this`z, this`n, this`nAlloc, this`nLine, this`cTerm
      ensures Valid() && old(nAlloc) <= nAlloc
      ensures old(pos) <= pos
      ensures nLine == old(nLine) + Count(input[a..pos], cRowSep) - Count(input[a..old(pos)], cRowSep)
                       + if go then 0 else AtEof(cTerm)
      ensures go ==> old(pos) < pos && LookBack(pc', ppc')
      ensures Quoted(input[old(pos)..], old(Text()), pc, ppc, cColSep, cRowSep)
           == if go then Quoted(input[pos..], Text(), pc', ppc', cColSep, cRowSep) else Field(Text(), cTerm, input[pos..])
    {
      ghost var s := input[pos..];
      var c := FgetcCounting(a);
      if c == QUOTE {
        if pc == QUOTE {
          return true, 0, ppc;
        }
      }
      go := QuotedChar(c, pc, ppc, s);
      pc', ppc' := c, pc;
    }

    method ReadQuoted()
      requires Valid() && n == 0
      modifies this`pos, this`z, this`n, this`nAlloc, this`nLine, this`cTerm
      ensures Valid() && old(nAlloc) <= nAlloc
      ensures Field(Text(), cTerm, input[pos..]) == Quoted(input[old(pos)..], [], 0, 0, cColSep, cRowSep)
      ensures Counted(old(pos), old(nLine), true)
    {
      var pc, ppc, go := 0, 0, true;
      ghost var goal := Quoted(input[pos..], [], 0, 0, cColSep, cRowSep);
      while go
        invariant Valid() && old(nAlloc) <= nAlloc
        invariant Counted(old(pos), old(nLine), !go)
        invariant goal == if go then Quoted(input[pos..], Text(), pc, ppc, cColSep, cRowSep)
                          else Field(Text(), cTerm, input[pos..])
        invariant go ==> LookBack(pc, ppc)
        decreases go, |input| - pos
      {
        go, pc, ppc := QuotedStep(pc, ppc, old(pos));
      }
    }

    method ReadPlain(first: int)
      requires Valid() && n == 0 && first != QUOTE
      requires pos > 0 && first == input[pos - 1]
      modifies this`pos, this`z, this`n, this`nAlloc, this`nLine, this`cTerm
      ensures Valid() && old(nAlloc) <= nAlloc
      ensures Field(Text(), cTerm, input[pos..]) == Plain(input[old(pos) - 1..], [], cColSep, cRowSep)
      ensures old(pos) <= pos && Counted(old(pos) - 1, old(nLine), true)
    {
      hide Plain, Count, First;
      var c := first;
      ghost var a, at := pos - 1, pos - 1;
      CountNone(input, a, cRowSep);
      while c != EOF && c != cColSep && c != cRowSep
        invariant Valid() && old(nAlloc) <= nAlloc
        invariant a <= at <= |input| && pos == (if c == EOF then at else at + 1) && c == At(at)
        invariant nLine == old(nLine) && Count(input[a..at], cRowSep) == 0
        invariant Plain(input[a..], [], cColSep, cRowSep) == Plain(input[at..], Text(), cColSep, cRowSep)
        decreases |input| - at
      {
        ghost var text := Text();
        AppendChar(c);
        CountNext(input, a, at, cRowSep);
        PlainNext(input, at, text, cColSep, cRowSep);
        at := at + 1;
        c := Fgetc();
      }
      if c != EOF { CountNext(input, a, at, cRowSep); }
      FirstAt(input, at);
      EndPlain(c, at);
    }

    /** The end of the unquoted branch: a carriage return in front of the row separator is dropped. */
    method EndPlain(c: int, ghost at: nat)
      requires Valid() && at <= |input| && c == First(input[at..]) && pos == (if c == EOF then at else at + 1)
      requires c == EOF || c == cColSep || c == cRowSep
      modifies this`n, this`nLine, this`cTerm
      ensures Valid() && cTerm == c && nLine == old(nLine) + if c == cRowSep then 1 else 0
      ensures Field(Text(), cTerm, input[pos..]) == Plain(input[at..], old(Text()), cColSep, cRowSep)
    {
      if c == cRowSep {
        nLine := nLine + 1;
        if n > 0 && z[n - 1] == CR {
          assert z[..n][..n - 1] == z[..n - 1];
          n := n - 1;
        }
      }
      cTerm := c;
    }

    /** The two branches, after the first character `c`. */
    method ReadBranches(c: int)
      requires Valid() && n == 0 && pos > 0 && c == input[pos - 1]
      modifies this`pos, this`z, this`n, this`nAlloc, this`nLine, this`cTerm
      ensures Valid() && old(nAlloc) <= nAlloc && old(pos) <= pos
      ensures Field(Text(), cTerm, input[pos..]) == ReadField(input[old(pos) - 1..], cColSep, cRowSep)
      ensures nLine == old(nLine) + Lines(input[old(pos) - 1..pos], cRowSep) + AtEof(cTerm)
    {
      if c == QUOTE {
        ReadQuoted();
        CountFirst(input, old(pos) - 1, pos, cRowSep);
      } else {
        ReadPlain(c);
      }
    }

    /** `csv_read_one_field`; `found` is false when the C function returns NULL. */
    method ReadOneField() returns (found: bool)
      requires Valid()
      modifies this`pos, this`z, this`n, this`nAlloc, this`nLine, this`cTerm
      ensures Valid() && old(nAlloc) <= nAlloc
      ensures old(pos) == |input| ==> !found && cTerm == EOF && pos == old(pos) && nLine == old(nLine)
      ensures old(pos) < |input| ==>
                && Field(Text(), cTerm, input[pos..]) == ReadField(input[old(pos)..], cColSep, cRowSep)
                && old(pos) < pos && nLine == old(nLine) + Lines(input[old(pos)..pos], cRowSep) + AtEof(cTerm)
                && (found <==> nAlloc > 0) && (found ==> z[n] == 0)
      ensures old(LineOk()) ==> LineOk()
    {
      n := 0;
      var c := Fgetc();
      if c == EOF {
        cTerm := EOF;
        return false;
      }
      hide Miscount, Count, ReadField, Lines, AtEof;
      ghost var at := pos - 1;
      ReadBranches(c);
      LineStep(input, at, pos, cColSep, cRowSep, cTerm);
      AtEofIs(cTerm);
      if nAlloc > 0 { z := z[n := 0]; }
      found := nAlloc > 0;
    }
  }

  // ---- The import loop ---------------------------------------------------------------------

  type Row = seq<Option<seq<Byte>>>

  /** What `sqlite3_bind_text` takes: the bytes before the first zero. */
  function CStr(t: seq<Byte>): seq<Byte> {
    if t == [] || t[0] == 0 then [] else [t[0]] + CStr(t[1..])
  }

  function Nulls(n: nat): Row {
    seq(n, _ => None)
  }

  datatype RowRead = RowRead(cells: Row, term: int, rest: seq<Byte>)

  /** `n` cells; a row that ends early is filled with nulls. */
  function Cells(s: seq<Byte>, n: nat, colSep: int, rowSep: int): (r: RowRead)
    requires n > 0
    decreases n
    ensures |r.cells| == n && |r.rest| <= |s| && (s != [] ==> |r.rest| < |s|) && (r.term == EOF ==> r.rest == [])
  {
    if s == [] then RowRead(Nulls(n), EOF, [])
    else
      var f := ReadField(s, colSep, rowSep);
      var cell := Some(CStr(f.text));
      if n == 1 || f.term != colSep then RowRead([cell] + Nulls(n - 1), f.term, f.rest)
      else
        var r := Cells(f.rest, n - 1, colSep, rowSep);
        RowRead([cell] + r.cells, r.term, r.rest)
  }

  /** Fields beyond the last column are read and dropped. */
  function SkipExtras(r: RowRead, colSep: int, rowSep: int): (r': RowRead)
    requires colSep != EOF
    decreases |r.rest|, if r.term == colSep then 1 else 0
    ensures r'.cells == r.cells && |r'.rest| <= |r.rest|
    ensures (r.term == EOF ==> r.rest == []) ==> (r'.term == EOF ==> r'.rest == [])
  {
    if r.term != colSep then r else SkipExtras(ExtraRound(r, colSep, rowSep), colSep, rowSep)
  }

  /** One field more is read and dropped. */
  function ExtraRound(r: RowRead, colSep: int, rowSep: int): (r': RowRead)
    ensures r'.cells == r.cells && |r'.rest| <= |r.rest| && (r'.term == EOF ==> r'.rest == [])
  {
    if r.rest == [] then r.(term := EOF)
    else
      var f := ReadField(r.rest, colSep, rowSep);
      RowRead(r.cells, f.term, f.rest)
  }

  function ReadRow(s: seq<Byte>, n: nat, colSep: int, rowSep: int): (r: RowRead)
    requires n > 0 && colSep != EOF
    ensures s != [] ==> |r.rest| < |s|
    ensures r.term == EOF ==> r.rest == []
  {
    SkipExtras(Cells(s, n, colSep, rowSep), colSep, rowSep)
  }

  /** All rows of a file, for a table of `n` columns. */
  function Rows(s: seq<Byte>, n: nat, colSep: int, rowSep: int): seq<Row>
    requires n > 0 && colSep != EOF
    decreases |s|
  {
    if s == [] then []
    else
      var r := ReadRow(s, n, colSep, rowSep);
      [r.cells] + Rows(r.rest, n, colSep, rowSep)
  }

  /** The row `start` is what is bound to the first `i` columns and what the rest `s` of the input will give. */
  ghost predicate Bound(start: RowRead, bound: Row, i: nat, s: seq<Byte>, term: int, colSep: int, rowSep: int) {
    if i < |bound| then
      var r := Cells(s, |bound| - i, colSep, rowSep);
      start == RowRead(bound[..i] + r.cells, r.term, r.rest)
    else
      start == RowRead(bound, term, s)
  }

  lemma NextCell(start: RowRead, bound: Row, i: nat, s: seq<Byte>, colSep: int, rowSep: int)
    requires i < |bound| && Bound(start, bound, i, s, 0, colSep, rowSep)
    ensures var f := if s == [] then Field([], EOF, []) else ReadField(s, colSep, rowSep);
            var row := bound[i := if s == [] then None else Some(CStr(f.text))];
            if i < |bound| - 1 && f.term != colSep then
              start == RowRead(row[..i + 1] + Nulls(|bound| - i - 1), f.term, f.rest)
            else Bound(start, row, i + 1, f.rest, f.term, colSep, rowSep)
  {
    var f := if s == [] then Field([], EOF, []) else ReadField(s, colSep, rowSep);
    var cell := if s == [] then None else Some(CStr(f.text));
    var row := bound[i := cell];
    assert row[..i + 1] == bound[..i] + [cell];
    var r := Cells(s, |bound| - i, colSep, rowSep);
    assert s == [] ==> r.cells == [None] + Nulls(|bound| - i - 1);
    assert i == |bound| - 1 ==> row == bound[..i] + r.cells;
  }

  /** One round of the loop over the columns. */
  method BindNext(ctx: ImportCtx, bound: Row, i: nat, ghost start: RowRead) returns (row: Row, next: nat)
    requires ctx.Valid() && ctx.nAlloc > 0 && ctx.LineOk() && i < |bound|
    requires Bound(start, bound, i, ctx.input[ctx.pos..], 0, ctx.cColSep, ctx.cRowSep)
    modifies ctx
    ensures ctx.Valid() && ctx.nAlloc > 0 && ctx.LineOk() && |row| == |bound| && i <= next
    ensures if old(ctx.pos) == |ctx.input| then ctx.pos == old(ctx.pos) else old(ctx.pos) < ctx.pos
    ensures next == i <==> i == 0 && old(ctx.pos) == |ctx.input|
    ensures next == i ==> ctx.cTerm == EOF
    ensures next > i ==> Bound(start, row, next, ctx.input[ctx.pos..], ctx.cTerm, ctx.cColSep, ctx.cRowSep)
  {
    NextCell(start, bound, i, ctx.input[ctx.pos..], ctx.cColSep, ctx.cRowSep);
    var found := ctx.ReadOneField();
    if !found && i == 0 { return bound, i; }
    row := bound[i := if found then Some(CStr(ctx.z[..ctx.n])) else None];
    next := i;
    if i < |bound| - 1 && ctx.cTerm != ctx.cColSep {
      row := FillNulls(row, i + 1);
      next := |bound| + 1;
    }
    next := next + 1;
  }

  /** The `for` loop over the columns of one row: `i` is its final counter.  The statement keeps the values `prev`
      of the row before, so a row that ends early must set the remaining columns to null. */
  method BindColumns(ctx: ImportCtx, nCol: nat, prev: Row) returns (i: nat, bound: Row)
    requires ctx.Valid() && ctx.nAlloc > 0 && 0 < nCol == |prev| && ctx.LineOk()
    modifies ctx
    ensures ctx.Valid() && ctx.nAlloc > 0 && |bound| == nCol && ctx.LineOk()
    ensures old(ctx.pos) == |ctx.input| ==> i == 0 && ctx.cTerm == EOF && ctx.pos == old(ctx.pos)
    ensures old(ctx.pos) < |ctx.input| ==>
              && i >= nCol && old(ctx.pos) < ctx.pos
              && RowRead(bound, ctx.cTerm, ctx.input[ctx.pos..]) == Cells(ctx.input[old(ctx.pos)..], nCol, ctx.cColSep, ctx.cRowSep)
  {
    i, bound := 0, prev;
    ghost var goal := Cells(ctx.input[ctx.pos..], nCol, ctx.cColSep, ctx.cRowSep);
    assert bound[..0] + goal.cells == goal.cells;
    while i < nCol
      invariant ctx.Valid() && ctx.nAlloc > 0 && |bound| == nCol && ctx.LineOk()
      invariant if i == 0 then ctx.pos == old(ctx.pos) else old(ctx.pos) < |ctx.input| && old(ctx.pos) < ctx.pos
      invariant Bound(goal, bound, i, ctx.input[ctx.pos..], ctx.cTerm, ctx.cColSep, ctx.cRowSep)
      decreases nCol - i
    {
      var i0 := i;
      bound, i := BindNext(ctx, bound, i, goal);
      if i == i0 { break; }
    }
  }

  /** Binds the columns from `from` on to null. */
  method FillNulls(row: Row, from: nat) returns (bound: Row)
    requires from <= |row|
    ensures bound == row[..from] + Nulls(|row| - from)
  {
    bound := row;
    var k := from + 1;
    while k <= |row|
      invariant from < k <= |row| + 1 && bound == row[..from] + Nulls(k - 1 - from) + row[k - 1..]
    {
      bound := bound[k - 1 := None];
      k := k + 1;
    }
  }

  /** One round of the `.import` loop: a row to insert, unless the input was at its end. */
  method ImportRow(ctx: ImportCtx, nCol: nat, prev: Row) returns (insert: bool, bound: Row)
    requires ctx.Valid() && ctx.cColSep != EOF && ctx.nAlloc > 0 && 0 < nCol == |prev| && ctx.LineOk()
    modifies ctx
    ensures ctx.Valid() && ctx.nAlloc > 0 && |bound| == nCol && ctx.LineOk() && old(ctx.pos) <= ctx.pos
    ensures insert <==> old(ctx.pos) < |ctx.input|
    ensures insert ==>
              && old(ctx.pos) < ctx.pos
              && RowRead(bound, ctx.cTerm, ctx.input[ctx.pos..]) == ReadRow(ctx.input[old(ctx.pos)..], nCol, ctx.cColSep, ctx.cRowSep)
    ensures !insert ==> ctx.cTerm == EOF
  {
    var i;
    i, bound := BindColumns(ctx, nCol, prev);
    if ctx.cTerm == ctx.cColSep { i := DropExtras(ctx, i, bound); }
    insert := i >= nCol;
  }

  /** One round of that loop.  At the end of the input it sets `cTerm` to EOF and changes nothing else that counts: a
      column separator that equals EOF keeps the loop going. */
  method DropOne(ctx: ImportCtx, ghost bound: Row)
    requires ctx.Valid() && ctx.nAlloc > 0 && ctx.LineOk()
    modifies ctx
    ensures ctx.Valid() && ctx.nAlloc > 0 && ctx.LineOk()
    ensures if old(ctx.pos) == |ctx.input| then ctx.pos == old(ctx.pos) && ctx.cTerm == EOF && ctx.nLine == old(ctx.nLine)
            else old(ctx.pos) < ctx.pos
    ensures RowRead(bound, ctx.cTerm, ctx.input[ctx.pos..])
         == ExtraRound(RowRead(bound, old(ctx.cTerm), ctx.input[old(ctx.pos)..]), ctx.cColSep, ctx.cRowSep)
  {
    var _ := ctx.ReadOneField();
  }

  ghost predicate Imported(goal: seq<Row>, table: seq<Row>, s: seq<Byte>, n: nat, colSep: int, rowSep: int)
    requires n > 0 && colSep != EOF
  {
    goal == table + Rows(s, n, colSep, rowSep)
  }

  lemma ImportedNext(goal: seq<Row>, table: seq<Row>, s: seq<Byte>, n: nat, colSep: int, rowSep: int)
    requires n > 0 && colSep != EOF && Imported(goal, table, s, n, colSep, rowSep)
    ensures s != [] ==> var r := ReadRow(s, n, colSep, rowSep); Imported(goal, table + [r.cells], r.rest, n, colSep, rowSep)
    ensures s == [] ==> goal == table
  {
    if s != [] {
      var r := ReadRow(s, n, colSep, rowSep);
      assert table + ([r.cells] + Rows(r.rest, n, colSep, rowSep)) == table + [r.cells] + Rows(r.rest, n, colSep, rowSep);
    }
  }

  /** The `.import` loop: every row that it inserts. */
  method ImportRows(ctx: ImportCtx, nCol: nat) returns (table: seq<Row>)
    requires ctx.Valid() && ctx.cColSep != EOF && ctx.nAlloc > 0 && nCol > 0 && ctx.LineOk()
    modifies ctx
    ensures table == Rows(ctx.input[old(ctx.pos)..], nCol, ctx.cColSep, ctx.cRowSep)
    ensures ctx.Valid() && ctx.pos == |ctx.input| && ctx.nLine == LineCount(ctx.input, ctx.cColSep, ctx.cRowSep)
  {
    table := [];
    var more := true;
    var bound := Nulls(nCol);
    ghost var goal := Rows(ctx.input[ctx.pos..], nCol, ctx.cColSep, ctx.cRowSep);
    assert [] + goal == goal;
    while more
      invariant ctx.Valid() && ctx.nAlloc > 0 && |bound| == nCol && ctx.LineOk()
      invariant Imported(goal, table, ctx.input[ctx.pos..], nCol, ctx.cColSep, ctx.cRowSep)
      invariant !more ==> ctx.pos == |ctx.input|
      decreases |ctx.input| - ctx.pos, more
    {
      ImportedNext(goal, table, ctx.input[ctx.pos..], nCol, ctx.cColSep, ctx.cRowSep);
      var insert;
      insert, bound := ImportRow(ctx, nCol, bound);
      if insert { table := table + [bound]; }
      more := ctx.cTerm != EOF;
    }
    assert ctx.input[..ctx.pos] == ctx.input;
  }

  /** Reads and drops fields while each is followed by another. */
  method DropExtras(ctx: ImportCtx, i0: nat, ghost bound: Row) returns (i: nat)
    requires ctx.Valid() && ctx.cColSep != EOF && ctx.nAlloc > 0 && ctx.LineOk() && ctx.cTerm == ctx.cColSep
    modifies ctx
    ensures ctx.Valid() && ctx.nAlloc > 0 && ctx.LineOk() && old(ctx.pos) <= ctx.pos && i > i0
    ensures RowRead(bound, ctx.cTerm, ctx.input[ctx.pos..])
         == SkipExtras(RowRead(bound, old(ctx.cTerm), ctx.input[old(ctx.pos)..]), ctx.cColSep, ctx.cRowSep)
  {
    i := i0;
    ghost var goal := SkipExtras(RowRead(bound, ctx.cTerm, ctx.input[ctx.pos..]), ctx.cColSep, ctx.cRowSep);
    while true
      invariant ctx.Valid() && ctx.nAlloc > 0 && ctx.LineOk() && old(ctx.pos) <= ctx.pos && i >= i0
      invariant ctx.cTerm == ctx.cColSep
      invariant goal == SkipExtras(RowRead(bound, ctx.cTerm, ctx.input[ctx.pos..]), ctx.cColSep, ctx.cRowSep)
      decreases |ctx.input| - ctx.pos
    {
      DropOne(ctx, bound);
      i := i + 1;
      if ctx.cTerm != ctx.cColSep { break; }
    }
  }
}
