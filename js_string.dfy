/** The two pieces of the JavaScript string library the course controller relies on:
    `String.prototype.trim` (which strips WhiteSpace and LineTerminator code points
    from both ends) and the decimal text a non-negative integer gets inside a
    template literal (`${n}`). */
module JsString {

  /** The code points ECMAScript classes as WhiteSpace (tab, vertical tab, form feed,
      space, no-break space, byte-order mark and the Unicode "Zs" separators) or as
      LineTerminator (LF, CR, LS, PS): exactly what `trim` removes. */
  predicate IsWhitespace(c: char) {
    c == '\t' || c == '\n' || c == '\U{000B}' || c == '\U{000C}' || c == '\r' ||
    c == ' ' || c == '\U{00A0}' || c == '\U{1680}' ||
    ('\U{2000}' <= c <= '\U{200A}') ||
    c == '\U{2028}' || c == '\U{2029}' || c == '\U{202F}' || c == '\U{205F}' ||
    c == '\U{3000}' || c == '\U{FEFF}'
  }

  predicate AllWhitespace(s: string) {
    forall i :: 0 <= i < |s| ==> IsWhitespace(s[i])
  }

  /** A string `trim` leaves as it is: empty, or neither end is whitespace. */
  predicate IsTrimmed(s: string) {
    s == [] || (!IsWhitespace(s[0]) && !IsWhitespace(s[|s| - 1]))
  }

  /** How many whitespace code points `s` starts with. */
  function LeadingWhitespace(s: string): (n: nat)
    ensures n <= |s|
    ensures n < |s| ==> !IsWhitespace(s[n])
  {
    if s != [] && IsWhitespace(s[0]) then 1 + LeadingWhitespace(s[1..]) else 0
  }

  /** The length of `s` without the whitespace it ends with. */
  function ContentEnd(s: string): (n: nat)
    ensures n <= |s|
    ensures n > 0 ==> !IsWhitespace(s[n - 1])
  {
    if s != [] && IsWhitespace(s[|s| - 1]) then ContentEnd(s[..|s| - 1]) else |s|
  }

  /** `trimStart`: what is left after the leading whitespace. */
  function TrimStart(s: string): (r: string)
    ensures r != [] ==> !IsWhitespace(r[0])
  {
    s[LeadingWhitespace(s)..]
  }

  /** `trimEnd`: what is left before the trailing whitespace. */
  function TrimEnd(s: string): (r: string)
    ensures r != [] ==> !IsWhitespace(r[|r| - 1])
  {
    s[..ContentEnd(s)]
  }

  /** `String.prototype.trim`. */
  function Trim(s: string): (r: string)
    ensures |r| <= |s|
    ensures IsTrimmed(r)
  {
    TrimEnd(TrimStart(s))
  }

  /** What `trimStart` drops is whitespace. */
  lemma {:induction false} LeadingWhitespaceIsWhitespace(s: string)
    ensures forall k :: 0 <= k < LeadingWhitespace(s) ==> IsWhitespace(s[k])
  {
    if s != [] && IsWhitespace(s[0]) {
      LeadingWhitespaceIsWhitespace(s[1..]);
      forall k | 0 < k < LeadingWhitespace(s) ensures IsWhitespace(s[k]) {
        assert s[k] == s[1..][k - 1];
      }
    }
  }

  /** What `trimEnd` drops is whitespace. */
  lemma {:induction false} TrailingWhitespaceIsWhitespace(s: string)
    ensures forall k :: ContentEnd(s) <= k < |s| ==> IsWhitespace(s[k])
  {
    if s != [] && IsWhitespace(s[|s| - 1]) {
      var s' := s[..|s| - 1];
      TrailingWhitespaceIsWhitespace(s');
      forall k | ContentEnd(s) <= k < |s| - 1 ensures IsWhitespace(s[k]) {
        assert s[k] == s'[k];
      }
    }
  }

  /** Leading whitespace added in front is counted and nothing else changes. */
  lemma {:induction false} LeadingWhitespaceOfPadded(p: string, t: string)
    requires AllWhitespace(p)
    ensures LeadingWhitespace(p + t) == |p| + LeadingWhitespace(t)
  {
    if p == [] {
      assert p + t == t;
    } else {
      var s := p + t;
      assert s[0] == p[0];
      assert s[1..] == p[1..] + t;
      LeadingWhitespaceOfPadded(p[1..], t);
    }
  }

  /** Trailing whitespace added at the end does not move the end of the content. */
  lemma {:induction false} ContentEndOfPadded(t: string, q: string)
    requires AllWhitespace(q)
    ensures ContentEnd(t + q) == ContentEnd(t)
  {
    if q == [] {
      assert t + q == t;
    } else {
      var s := t + q;
      var q' := q[..|q| - 1];
      assert s[|s| - 1] == q[|q| - 1];
      assert s[..|s| - 1] == t + q';
      ContentEndOfPadded(t, q');
    }
  }

  /** An independent characterisation of `trim`: surrounding a trimmed string with
      whitespace on either side and trimming gives the string back. */
  lemma TrimOfPadded(p: string, m: string, q: string)
    requires AllWhitespace(p) && AllWhitespace(q) && IsTrimmed(m)
    ensures Trim(p + m + q) == m
  {
    var s := p + m + q;
    assert s == p + (m + q);
    LeadingWhitespaceOfPadded(p, m + q);
    if m == [] {
      assert m + q == q + [];
      LeadingWhitespaceOfPadded(q, []);
      assert TrimStart(s) == [];
    } else {
      assert (m + q)[0] == m[0];
      assert TrimStart(s) == m + q;
      ContentEndOfPadded(m, q);
      assert (m + q)[..|m|] == m;
    }
  }

  /** Every string splits into leading whitespace, its trimmed core and trailing
      whitespace; together with TrimOfPadded this pins `trim` down exactly. */
  lemma TrimSplits(s: string)
    ensures var i := LeadingWhitespace(s);
      i + |Trim(s)| <= |s| &&
      s[i..i + |Trim(s)|] == Trim(s) &&
      AllWhitespace(s[..i]) && AllWhitespace(s[i + |Trim(s)|..])
  {
    var i := LeadingWhitespace(s);
    var t := s[i..];
    var j := ContentEnd(t);
    assert Trim(s) == t[..j];
    assert t[..j] == s[i..i + j];
    LeadingWhitespaceIsWhitespace(s);
    TrailingWhitespaceIsWhitespace(t);
    var rest := s[i + j..];
    forall k | 0 <= k < |rest| ensures IsWhitespace(rest[k]) {
      assert rest[k] == t[j + k];
    }
  }

  /** Trimming twice is trimming once. */
  lemma TrimIdempotent(s: string)
    ensures Trim(Trim(s)) == Trim(s)
  {
    TrimOfPadded([], Trim(s), []);
    assert [] + Trim(s) + [] == Trim(s);
  }

  /** `trim` yields "" exactly for the strings made only of whitespace. */
  lemma TrimEmptyIffWhitespace(s: string)
    ensures Trim(s) == [] <==> AllWhitespace(s)
  {
    if AllWhitespace(s) {
      TrimOfPadded(s, [], []);
      assert s + [] + [] == s;
    }
    if Trim(s) == [] {
      TrimSplits(s);
      var i := LeadingWhitespace(s);
      assert i == |s|;
      forall k | 0 <= k < |s| ensures IsWhitespace(s[k]) {
        assert s[k] == s[..i][k];
      }
    }
  }

  predicate IsDigit(c: char) {
    '0' <= c <= '9'
  }

  predicate AllDigits(s: string) {
    forall i :: 0 <= i < |s| ==> IsDigit(s[i])
  }

  function DigitChar(d: nat): (c: char)
    requires d < 10
    ensures IsDigit(c) && c as int - '0' as int == d
  {
    ('0' as int + d) as char
  }

  /** The number a string of decimal digits denotes, most significant digit first. */
  function DecimalValue(s: string): nat
    requires AllDigits(s)
  {
    if s == [] then 0
    else DecimalValue(s[..|s| - 1]) * 10 + (s[|s| - 1] as int - '0' as int)
  }

  /** The text JavaScript produces for a non-negative integer in a template literal. */
  function Decimal(n: nat): (s: string)
    ensures |s| >= 1 && AllDigits(s)
    decreases n
  {
    if n < 10 then [DigitChar(n)] else Decimal(n / 10) + [DigitChar(n % 10)]
  }

  /** The decimal text reads back as the number, and has no leading zero. */
  lemma {:induction false} DecimalRoundTrip(n: nat)
    ensures DecimalValue(Decimal(n)) == n
    ensures Decimal(n)[0] == '0' ==> n == 0
    decreases n
  {
    if n >= 10 {
      DecimalRoundTrip(n / 10);
      var init := Decimal(n / 10);
      var s := Decimal(n);
      assert s == init + [DigitChar(n % 10)];
      assert s[..|s| - 1] == init;
      assert s[0] == init[0];
    }
  }

  /** Distinct numbers are written differently. */
  lemma DecimalInjective(m: nat, n: nat)
    requires Decimal(m) == Decimal(n)
    ensures m == n
  {
    DecimalRoundTrip(m);
    DecimalRoundTrip(n);
  }
}
