// The Python string operations the scripts are built from, on sequences of code points.
module Text {

  // str.isspace for one character.
  predicate IsSpace(c: char) {
    '\t' <= c <= '\r' || '\U{1c}' <= c <= ' ' || c == '\U{85}' || c == '\U{a0}' || c == '\U{1680}'
    || '\U{2000}' <= c <= '\U{200a}' || c == '\U{2028}' || c == '\U{2029}' || c == '\U{202f}'
    || c == '\U{205f}' || c == '\U{3000}'
  }

  // The line boundaries of str.splitlines; "\r\n" cannot occur once text-mode reading has
  // translated newlines.
  predicate IsLineBreak(c: char) {
    '\n' <= c <= '\r' || '\U{1c}' <= c <= '\U{1e}' || c == '\U{85}' || c == '\U{2028}' || c == '\U{2029}'
  }

  // These are all of them: ten boundaries of lines, and 29 spaces.
  lemma LineBreaks(c: char)
    ensures IsLineBreak(c) <==>
            c in {'\n', '\U{b}', '\U{c}', '\r', '\U{1c}', '\U{1d}', '\U{1e}', '\U{85}', '\U{2028}', '\U{2029}'}
  {
  }

  lemma Spaces(c: char)
    ensures IsSpace(c) <==>
            c in {'\t', '\n', '\U{b}', '\U{c}', '\r', '\U{1c}', '\U{1d}', '\U{1e}', '\U{1f}', ' ', '\U{85}', '\U{a0}', '\U{1680}',
                  '\U{2000}', '\U{2001}', '\U{2002}', '\U{2003}', '\U{2004}', '\U{2005}', '\U{2006}', '\U{2007}', '\U{2008}',
                  '\U{2009}', '\U{200a}', '\U{2028}', '\U{2029}', '\U{202f}', '\U{205f}', '\U{3000}'}
  {
  }

  predicate NoLineBreak(s: string) {
    forall i :: 0 <= i < |s| ==> !IsLineBreak(s[i])
  }

  // ----- trimming, over any alphabet and notion of blank -----

  function LStripBy<T>(s: seq<T>, blank: T -> bool): (r: seq<T>)
    ensures |r| <= |s| && r == s[|s| - |r|..]
    ensures r == [] || !blank(r[0])
  {
    if s != [] && blank(s[0]) then LStripBy(s[1..], blank) else s
  }

  function RStripBy<T>(s: seq<T>, blank: T -> bool): (r: seq<T>)
    ensures |r| <= |s| && r == s[..|r|]
    ensures r == [] || !blank(r[|r| - 1])
    ensures forall i :: |r| <= i < |s| ==> blank(s[i])
  {
    if s != [] && blank(s[|s| - 1]) then RStripBy(s[..|s| - 1], blank) else s
  }

  // No blank at either end.
  predicate TrimmedBy<T>(s: seq<T>, blank: T -> bool) {
    s == [] || (!blank(s[0]) && !blank(s[|s| - 1]))
  }

  function StripBy<T>(s: seq<T>, blank: T -> bool): (r: seq<T>)
    ensures TrimmedBy(r, blank)
    ensures TrimmedBy(s, blank) ==> r == s
  {
    LStripBy(RStripBy(s, blank), blank)
  }

  // Left-stripping stops at an element that is not blank.
  lemma {:induction false} LStripKeeps<T>(s: seq<T>, blank: T -> bool, i: nat)
    requires i < |s| && !blank(s[i])
    ensures |s| - |LStripBy(s, blank)| <= i
  {
    if blank(s[0]) {
      LStripKeeps(s[1..], blank, i - 1);
    }
  }

  // str.find for one element, from an index on: -1 when absent.
  function FindElement<T(==)>(s: seq<T>, c: T, from: nat): (r: int)
    requires from <= |s|
    ensures r == -1 || from <= r < |s|
    ensures r == -1 ==> forall i :: from <= i < |s| ==> s[i] != c
    ensures r != -1 ==> s[r] == c && forall i :: from <= i < r ==> s[i] != c
    decreases |s| - from
  {
    if from == |s| then -1 else if s[from] == c then from else FindElement(s, c, from + 1)
  }

  // ----- the same for text -----

  predicate Trimmed(s: string) { TrimmedBy(s, IsSpace) }

  function LStrip(s: string): string { LStripBy(s, IsSpace) }

  function RStrip(s: string): string { RStripBy(s, IsSpace) }

  function Strip(s: string): string { StripBy(s, IsSpace) }

  predicate OccursAt(s: string, sub: string, i: int) {
    0 <= i && i + |sub| <= |s| && s[i..i + |sub|] == sub
  }

  predicate Contains(s: string, sub: string) {
    exists i :: 0 <= i <= |s| && OccursAt(s, sub, i)
  }

  // str.find(sub, from): the first index at which sub occurs, -1 when there is none.
  function Find(s: string, sub: string, from: nat): (r: int)
    requires from <= |s|
    ensures r == -1 || (from <= r && OccursAt(s, sub, r))
    ensures forall i :: from <= i && (r == -1 || i < r) ==> !OccursAt(s, sub, i)
    decreases |s| - from
  {
    if OccursAt(s, sub, from) then from
    else if from == |s| then -1
    else Find(s, sub, from + 1)
  }

  predicate IsHexDigit(c: char) { '0' <= c <= '9' || 'a' <= c <= 'f' }

  predicate AllHex(s: string) { forall i :: 0 <= i < |s| ==> IsHexDigit(s[i]) }

  predicate AllDigits(s: string) { forall i :: 0 <= i < |s| ==> '0' <= s[i] <= '9' }

  // int() of a string of decimal digits.
  function DecimalValue(s: string): nat
    requires AllDigits(s)
  {
    if s == "" then 0
    else 10 * DecimalValue(s[..|s| - 1]) + (s[|s| - 1] as int - '0' as int)
  }

  // str() of a natural number.
  function Decimal(n: nat): string {
    (if n < 10 then "" else Decimal(n / 10)) + [('0' as int + n % 10) as char]
  }

  // A pattern ending in "$" also accepts one trailing newline.
  function DropOneNewline(s: string): string {
    if s != "" && s[|s| - 1] == '\n' then s[..|s| - 1] else s
  }
}
