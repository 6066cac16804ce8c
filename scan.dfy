/**
  Character classes of Go's regexp syntax (RE2's ASCII Perl classes) and of
  package unicode, and the greedy scan that a repetition `c+` or `c*` performs
  over them.
*/
module Scan {

  /** `\s` in Go's regexp syntax: `[\t\n\f\r ]` (no vertical tab). */
  predicate IsRegexpSpace(c: char) {
    c == ' ' || c == '\t' || c == '\n' || c == '\U{000C}' || c == '\r'
  }

  /** `\d` in Go's regexp syntax. */
  predicate IsDigit(c: char) {
    '0' <= c <= '9'
  }

  /** `\w` in Go's regexp syntax: `[0-9A-Za-z_]`. */
  predicate IsWordChar(c: char) {
    IsDigit(c) || 'a' <= c <= 'z' || 'A' <= c <= 'Z' || c == '_'
  }

  /** unicode.IsSpace, which strings.Fields splits on. */
  predicate IsUnicodeSpace(c: char) {
    || IsRegexpSpace(c)
    || c == '\U{000B}' || c == '\U{0085}' || c == '\U{00A0}' || c == '\U{1680}'
    || ('\U{2000}' <= c <= '\U{200A}')
    || c == '\U{2028}' || c == '\U{2029}' || c == '\U{202F}' || c == '\U{205F}' || c == '\U{3000}'
  }

  datatype Class = Space | Digit | Word | NonSpace | UnicodeSpace | NonUnicodeSpace

  predicate In(c: char, k: Class) {
    match k
    case Space => IsRegexpSpace(c)
    case Digit => IsDigit(c)
    case Word => IsWordChar(c)
    case NonSpace => !IsRegexpSpace(c)
    case UnicodeSpace => IsUnicodeSpace(c)
    case NonUnicodeSpace => !IsUnicodeSpace(c)
  }

  /** Every character of `s` is in class `k`. */
  predicate AllIn(s: string, k: Class) {
    forall i | 0 <= i < |s| :: In(s[i], k)
  }

  /** `s` matches `k+`: one or more characters of class `k`. */
  predicate Run1(s: string, k: Class) {
    |s| > 0 && AllIn(s, k)
  }

  /**
    End of the longest run of characters of class `k` that starts at `i`:
    where a greedy `k*` starting at `i` stops.
  */
  function Span(s: string, i: nat, k: Class): (j: nat)
    requires i <= |s|
    ensures i <= j <= |s|
    decreases |s| - i
  {
    if i < |s| && In(s[i], k) then Span(s, i + 1, k) else i
  }

  /** The run Span finds is all of class `k` and cannot be extended. */
  lemma {:induction false} SpanMaximal(s: string, i: nat, k: Class)
    requires i <= |s|
    ensures forall t | i <= t < Span(s, i, k) :: In(s[t], k)
    ensures Span(s, i, k) < |s| ==> !In(s[Span(s, i, k)], k)
    decreases |s| - i
  {
    if i < |s| && In(s[i], k) {
      SpanMaximal(s, i + 1, k);
    }
  }

  /** A run of class `k` that is followed by a character outside `k` (or by the end) is exactly what Span finds. */
  lemma SpanOver(s: string, i: nat, part: string, tail: string, k: Class)
    requires i <= |s| && s[i..] == part + tail
    requires AllIn(part, k)
    requires tail == [] || !In(tail[0], k)
    ensures Span(s, i, k) == i + |part|
  {
    SpanMaximal(s, i, k);
    assert forall t | 0 <= t < |part| :: s[i + t] == part[t] by {
      forall t | 0 <= t < |part| ensures s[i + t] == part[t] {
        assert s[i + t] == s[i..][t];
      }
    }
    assert i + |part| < |s| ==> s[i + |part|] == tail[0] by {
      if i + |part| < |s| {
        assert s[i + |part|] == s[i..][|part|];
      }
    }
  }

  /** A run of class `k` from `i` to `j`, followed by a character outside `k` (or by the end), is exactly what Span finds. */
  lemma SpanTo(s: string, i: nat, j: nat, k: Class)
    requires i <= j <= |s|
    requires forall t | i <= t < j :: In(s[t], k)
    requires j == |s| || !In(s[j], k)
    ensures Span(s, i, k) == j
  {
    SpanMaximal(s, i, k);
  }

  /** Dropping a known prefix from a suffix of `s`. */
  lemma DropPrefix(s: string, i: nat, part: string, tail: string)
    requires i <= |s| && s[i..] == part + tail
    ensures i + |part| <= |s| && s[i + |part|..] == tail
  {
    assert s[i + |part|..] == s[i..][|part|..];
  }

  /** Cutting a slice of `s` in two at `j`. */
  lemma SplitAt(s: string, i: nat, j: nat, k: nat)
    requires i <= j <= k <= |s|
    ensures s[i..k] == s[i..j] + s[j..k]
  {
  }
}
