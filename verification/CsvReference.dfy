/** What a CSV field is, on every input, and what files import as: rows of any length, NULLs, either line end, and a last
    row without one. */
module CsvReference {
  import opened Csv
  import opened CsvRoundTrip
  import opened Options

  // ---- Fields in quotes --------------------------------------------------------------------

  /** An odd number of quotes stands right before `k`. */
  predicate Odd(t: seq<Byte>, k: nat)
    requires k <= |t|
  {
    k > 0 && t[k - 1] == 34 && !Odd(t, k - 1)
  }

  /** The text without every second quote of a run. */
  function Undoubled(t: seq<Byte>): seq<Byte> {
    if t == [] then []
    else
      var n := |t| - 1;
      if t[n] == 34 && Odd(t, n) then Undoubled(t[..n]) else Undoubled(t[..n]) + [t[n]]
  }

  /** Behind an odd number of quotes, a separator or the end of the input ends the field; a carriage return may stand
      between the quotes and the row separator. */
  predicate EndsAt(t: seq<Byte>, k: nat, colSep: int, rowSep: int)
    requires k <= |t|
  {
    var c: int := if k < |t| then t[k] else -1;
    || (c != 34 && (c == colSep || c == rowSep || c == -1) && Odd(t, k))
    || (c == rowSep && k > 0 && t[k - 1] == 13 && Odd(t, k - 1))
  }

  /** The first end from `k` on, or past the text. */
  function FirstEnd(t: seq<Byte>, k: nat, colSep: int, rowSep: int): (p: nat)
    requires k <= |t| + 1
    decreases |t| + 1 - k
    ensures k <= p <= |t| + 1 && (p <= |t| ==> EndsAt(t, p, colSep, rowSep))
    ensures forall j :: k <= j < p ==> !EndsAt(t, j, colSep, rowSep)
  {
    if k > |t| || EndsAt(t, k, colSep, rowSep) then k else FirstEnd(t, k + 1, colSep, rowSep)
  }

  /** The field whose opening quote stands before `t`. */
  function QuotedField(t: seq<Byte>, colSep: int, rowSep: int): Field {
    var p := FirstEnd(t, 0, colSep, rowSep);
    if p > |t| then Field(Undoubled(t), -1, [])
    else
      var quote: nat := if Odd(t, p) then p - 1 else p - 2;
      Field(Undoubled(t[..quote]), if p < |t| then t[p] else -1, if p < |t| then t[p + 1..] else [])
  }

  /** The state of the reader after `k` bytes: its buffer and its two bytes of look-back. */
  ghost predicate ReadTo(t: seq<Byte>, k: nat, buf: seq<Byte>, pc: int, ppc: int) {
    && k <= |t| && buf == Undoubled(t[..k])
    && (pc == 34 <==> Odd(t, k)) && (pc == 13 <==> k > 0 && t[k - 1] == 13)
    && (pc == 13 ==> (ppc == 34 <==> Odd(t, k - 1)))
  }

  lemma OddSame(t: seq<Byte>, k: nat, n: nat)
    requires k <= n <= |t|
    ensures Odd(t[..n], k) == Odd(t, k)
  {
    if k > 0 { OddSame(t, k - 1, n); }
  }

  lemma UndoubledNext(t: seq<Byte>, k: nat)
    requires k < |t|
    ensures Undoubled(t[..k + 1]) == if t[k] == 34 && Odd(t, k) then Undoubled(t[..k]) else Undoubled(t[..k]) + [t[k]]
  {
    assert t[..k + 1][..k] == t[..k];
    OddSame(t, k, k + 1);
  }

  lemma CloseIs(t: seq<Byte>, k: nat, buf: seq<Byte>, pc: int, ppc: int, colSep: int, rowSep: int)
    requires ReadTo(t, k, buf, pc, ppc)
    ensures var c := First(t[k..]);
            EndsAt(t, k, colSep, rowSep) <==> !(c == QUOTE && pc == QUOTE) && Closes(c, pc, ppc, colSep, rowSep)
  {
  }

  /** What is in front of the closing quote. */
  lemma TextIs(t: seq<Byte>, k: nat, colSep: int, rowSep: int)
    requires k <= |t| && EndsAt(t, k, colSep, rowSep)
    ensures if Odd(t, k) then k > 0 && BeforeQuote(Undoubled(t[..k])) == Undoubled(t[..k - 1])
            else k > 1 && BeforeQuote(Undoubled(t[..k])) == Undoubled(t[..k - 2])
  {
    hide Undoubled, BeforeQuote;
    UndoubledNext(t, k - 1);
    if Odd(t, k) {
      CutQuote(Undoubled(t[..k - 1]));
    } else {
      UndoubledNext(t, k - 2);
      CutQuote(Undoubled(t[..k - 2]));
    }
  }

  lemma CutQuote(v: seq<Byte>)
    ensures BeforeQuote(v + [34]) == v && BeforeQuote(v + [34] + [13]) == v
  {
    CutLast(v);
  }

  lemma {:induction false} QuotedFrom(t: seq<Byte>, k: nat, buf: seq<Byte>, pc: int, ppc: int, colSep: int, rowSep: int)
    requires ReadTo(t, k, buf, pc, ppc) && FirstEnd(t, 0, colSep, rowSep) == FirstEnd(t, k, colSep, rowSep)
    ensures Quoted(t[k..], buf, pc, ppc, colSep, rowSep) == QuotedField(t, colSep, rowSep)
    decreases |t| - k
  {
    CloseIs(t, k, buf, pc, ppc, colSep, rowSep);
    if EndsAt(t, k, colSep, rowSep) {
      TextIs(t, k, colSep, rowSep);
    } else if k == |t| {
      assert t[..k] == t;
    } else {
      UndoubledNext(t, k);
      QuotedOn(t, k, buf, pc, ppc, colSep, rowSep);
      if t[k] == 34 && pc == 34 {
        QuotedFrom(t, k + 1, buf, 0, ppc, colSep, rowSep);
      } else {
        QuotedFrom(t, k + 1, buf + [t[k]], t[k], pc, colSep, rowSep);
      }
    }
  }

  lemma QuotedOn(t: seq<Byte>, k: nat, buf: seq<Byte>, pc: int, ppc: int, colSep: int, rowSep: int)
    requires k < |t| && ((t[k] == 34 && pc == 34) || !Closes(t[k], pc, ppc, colSep, rowSep))
    ensures Quoted(t[k..], buf, pc, ppc, colSep, rowSep)
         == if t[k] == 34 && pc == 34 then Quoted(t[k + 1..], buf, 0, ppc, colSep, rowSep)
            else Quoted(t[k + 1..], buf + [t[k]], t[k], pc, colSep, rowSep)
  {
    assert t[k..][1..] == t[k + 1..];
  }

  // ---- Fields without quotes ---------------------------------------------------------------

  function FirstSep(s: seq<Byte>, k: nat, colSep: int, rowSep: int): (p: nat)
    requires k <= |s|
    decreases |s| - k
    ensures k <= p <= |s| && (p < |s| ==> s[p] == colSep || s[p] == rowSep)
    ensures forall j :: k <= j < p ==> s[j] != colSep && s[j] != rowSep
  {
    if k == |s| || s[k] == colSep || s[k] == rowSep then k else FirstSep(s, k + 1, colSep, rowSep)
  }

  /** Up to the first separator or the end; a carriage return in front of the row separator is dropped. */
  function PlainField(s: seq<Byte>, colSep: int, rowSep: int): Field {
    var p := FirstSep(s, 0, colSep, rowSep);
    var term: int := if p < |s| then s[p] else -1;
    var n := if term == rowSep && p > 0 && s[p - 1] == 13 then p - 1 else p;
    Field(s[..n], term, if p < |s| then s[p + 1..] else [])
  }

  lemma {:induction false} PlainFrom(s: seq<Byte>, k: nat, colSep: int, rowSep: int)
    requires k <= |s| && FirstSep(s, 0, colSep, rowSep) == FirstSep(s, k, colSep, rowSep)
    ensures Plain(s[k..], s[..k], colSep, rowSep) == PlainField(s, colSep, rowSep)
    decreases |s| - k
  {
    if k < |s| && s[k] != colSep && s[k] != rowSep {
      PlainNext(s, k, s[..k], colSep, rowSep);
      assert s[..k + 1] == s[..k] + [s[k]];
      PlainFrom(s, k + 1, colSep, rowSep);
    } else {
      PlainEnd(s, k, colSep, rowSep);
    }
  }

  lemma PlainEnd(s: seq<Byte>, k: nat, colSep: int, rowSep: int)
    requires k <= |s| && (k < |s| ==> s[k] == colSep || s[k] == rowSep) && FirstSep(s, 0, colSep, rowSep) == k
    ensures Plain(s[k..], s[..k], colSep, rowSep) == PlainField(s, colSep, rowSep)
  {
    assert k < |s| ==> s[k..][1..] == s[k + 1..];
    assert k > 0 ==> s[..k][..k - 1] == s[..k - 1];
  }

  /** Every field, of every input: what is read, what ended it, and what is left. */
  lemma FieldIs(s: seq<Byte>, colSep: int, rowSep: int)
    requires s != []
    ensures ReadField(s, colSep, rowSep)
         == if s[0] == 34 then QuotedField(s[1..], colSep, rowSep) else PlainField(s, colSep, rowSep)
  {
    if s[0] == 34 {
      assert s[1..][0..] == s[1..] && s[1..][..0] == [];
      QuotedFrom(s[1..], 0, [], 0, 0, colSep, rowSep);
    } else {
      assert s[0..] == s && s[..0] == [];
      PlainFrom(s, 0, colSep, rowSep);
    }
  }

  // ---- Which fields are written bare -------------------------------------------------------

  /** A byte that never asks for quotes: '!', '#' to '&', '(' to '~'. */
  predicate NeverQuoted(b: Byte) {
    b == 33 || 35 <= b <= 38 || 40 <= b <= 126
  }

  /** A field is written as it is exactly when it is not empty, all its bytes are such, and it does not hold a separator
      of one byte or start with a longer one; otherwise it is written in quotes. */
  lemma BareWhen(z: seq<Byte>, sep: seq<Byte>)
    requires sep != []
    ensures Term(z, sep) == z <==>
            && z != [] && (forall i :: 0 <= i < |z| ==> NeverQuoted(z[i]))
            && if |sep| == 1 then sep[0] !in z else !(sep <= z)
    ensures Term(z, sep) != z ==> Term(z, sep) == [34] + Doubled(z) + [34]
  {
    var forced := exists i :: 0 <= i < |z| && ForcesQuotes(z, sep, i);
    forall i | 0 <= i < |z| ensures NeedsQuote(z[i]) <==> !NeverQuoted(z[i]) { }
    if z == [] || forced {
      assert |Term(z, sep)| > |z| by { DoubledLonger(z); }
    }
    if |sep| > 1 && sep <= z { assert ForcesQuotes(z, sep, 0); }
    if i :| 0 <= i < |z| && !NeverQuoted(z[i]) { assert ForcesQuotes(z, sep, i); }
    if |sep| == 1 && sep[0] in z {
      var i :| 0 <= i < |z| && z[i] == sep[0];
      assert ForcesQuotes(z, sep, i);
    }
  }

  lemma {:induction false} DoubledLonger(z: seq<Byte>)
    ensures |Doubled(z)| >= |z|
  {
    if z != [] { DoubledLonger(z[1..]); }
  }
}
