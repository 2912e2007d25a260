/** C strings and the character classes of the C locale.  A NUL-terminated string is a `string`
    without NUL; reading it goes through `At`, whose precondition lets a pointer reach the
    terminator and no further. */
module CText {
  const NUL: char := '\0'

  predicate NulFree(s: string) {
    forall i :: 0 <= i < |s| ==> s[i] != NUL
  }

  /** The characters that a C string can hold. */
  predicate IsByte(c: char) {
    0 < c as int < 256
  }

  predicate Bytes(s: string) {
    forall i :: 0 <= i < |s| ==> IsByte(s[i])
  }

  /** The character a C pointer sees at offset `i`: a character of `s`, or the terminator. */
  function At(s: string, i: nat): char
    requires i <= |s|
  {
    if i < |s| then s[i] else NUL
  }

  predicate IsSpace(c: char) {
    c == ' ' || '\t' <= c <= '\r'
  }

  predicate IsDigit(c: char) {
    '0' <= c <= '9'
  }

  predicate IsAlpha(c: char) {
    'a' <= c <= 'z' || 'A' <= c <= 'Z'
  }

  predicate IsPrint(c: char) {
    ' ' <= c <= '~'
  }

  /** The classes by their codes, as the C locale has them. */
  lemma CharClasses(c: char)
    ensures IsSpace(c) <==> c as int in {9, 10, 11, 12, 13, 32}
    ensures IsDigit(c) <==> c in "0123456789"
    ensures IsAlpha(c) <==> 65 <= c as int <= 90 || 97 <= c as int <= 122
    ensures IsPrint(c) <==> 32 <= c as int <= 126
  {
  }

  predicate AllSpace(s: string) {
    forall i :: 0 <= i < |s| ==> IsSpace(s[i])
  }

  /** Number of leading white-space characters. */
  function Blanks(s: string): (n: nat)
    ensures n <= |s| && forall i :: 0 <= i < n ==> IsSpace(s[i])
    ensures n < |s| ==> !IsSpace(s[n])
  {
    if s == [] || !IsSpace(s[0]) then 0 else 1 + Blanks(s[1..])
  }

  /** The value of a plain `char` as an `int`, where plain `char` is signed. */
  function Signed(c: char): int {
    if c as int < 128 then c as int else c as int - 256
  }

  /** A byte keeps its bits: its value as a `char` is the one from -128 to 127 with the same remainder. */
  lemma SignedByte(c: char)
    requires c as int < 256
    ensures -128 <= Signed(c) <= 127 && (Signed(c) - c as int) % 256 == 0
  {
  }

  /** `z[from..]` holds the text `w`. */
  ghost predicate Holds(z: array<char>, from: nat, w: string)
    reads z
  {
    from + |w| <= z.Length && forall x :: from <= x < from + |w| ==> z[x] == w[x - from]
  }

  /** From `z[from + k]` on, the buffer holds what is left of the NUL-free text `s`, and its terminator. */
  ghost predicate Unread(z: array<char>, from: nat, s: string, k: nat)
    reads z
  {
    && NulFree(s) && k <= |s| && from + |s| < z.Length && z[from + |s|] == NUL
    && forall x :: from + k <= x < from + |s| ==> z[x] == s[x - from]
  }
}
