/** Character classes of the header-line pattern `/^(\w+)\s+(\S+)/` and the
    longest-run scan the pattern's greedy quantifiers perform. `\s` is taken
    as ASCII white space only. */
module Chars {

  /** `\w`: `[A-Za-z0-9_]`. */
  predicate IsWord(c: char)
  {
    ('A' <= c <= 'Z') || ('a' <= c <= 'z') || ('0' <= c <= '9') || c == '_'
  }

  /** `\s`: space, tab, line feed, vertical tab, form feed, carriage return. */
  predicate IsSpace(c: char)
  {
    c == ' ' || c == '\t' || c == '\n' || c == '\r' || c as int == 11 || c as int == 12
  }

  /** `\S`. */
  predicate NotSpace(c: char)
  {
    !IsSpace(c)
  }

  /** Any character but the line feed that `split(/\n/)` cuts at. */
  predicate NotNewline(c: char)
  {
    c != '\n'
  }

  predicate IsDigit(c: char)
  {
    '0' <= c <= '9'
  }

  /** White space is never a word character, so a run of word characters
      always ends where white space begins. */
  lemma SpaceIsNotWord(c: char)
    ensures IsSpace(c) ==> !IsWord(c)
  {
  }

  /** The length of the longest prefix of `s` made of characters satisfying
      `p`: the stretch a greedy `p+` or `p*` consumes. */
  function Span(s: string, p: char -> bool): (n: int)
    ensures 0 <= n <= |s|
    ensures forall i :: 0 <= i < n ==> p(s[i])
    ensures n == |s| || !p(s[n])
  {
    if |s| == 0 || !p(s[0]) then 0 else 1 + Span(s[1..], p)
  }

  /** A prefix all of whose characters satisfy `p` is no longer than the
      span, and the span stops at the first character that fails `p`. */
  lemma SpanIsLongestRun(s: string, p: char -> bool, n: int)
    requires 0 <= n <= |s|
    ensures (forall i :: 0 <= i < n ==> p(s[i])) ==> n <= Span(s, p)
    ensures (forall i :: 0 <= i < n ==> p(s[i])) && (n == |s| || !p(s[n])) ==> Span(s, p) == n
  {
  }
}
