/** Character classes and string helpers with JavaScript's meaning: the
    white space that the regular-expression escape \s matches and that
    String.prototype.trim removes, the ASCII digits that \d matches, and the
    base-10 value that parseInt(_, 10) gives a string of digits. */
module Text {

  /** JavaScript WhiteSpace and LineTerminator code points: TAB, LF, VT, FF,
      CR, SPACE, NBSP, the other Unicode space separators, LS, PS, NNBSP,
      MMSP, the ideographic space and the byte order mark. */
  predicate IsSpace(c: char) {
    c == '\t' || c == '\n' || c == '\U{0B}' || c == '\U{0C}' || c == '\r' || c == ' '
    || c == '\U{A0}' || c == '\U{1680}' || ('\U{2000}' <= c <= '\U{200A}')
    || c == '\U{2028}' || c == '\U{2029}' || c == '\U{202F}' || c == '\U{205F}'
    || c == '\U{3000}' || c == '\U{FEFF}'
  }

  predicate IsDigit(c: char) {
    '0' <= c <= '9'
  }

  /** Every character of s in [from, to) is white space. */
  predicate AllSpace(s: string, from: nat, to: nat)
    requires from <= to <= |s|
  {
    forall k :: from <= k < to ==> IsSpace(s[k])
  }

  /** Every character of s in [from, to) is a digit. */
  predicate AllDigit(s: string, from: nat, to: nat)
    requires from <= to <= |s|
  {
    forall k :: from <= k < to ==> IsDigit(s[k])
  }

  predicate AllDigits(s: string) {
    forall k :: 0 <= k < |s| ==> IsDigit(s[k])
  }

  /** Length of the longest run of white space that starts at index i: what
      the greedy quantifier \s+ consumes there. */
  function SpaceRun(s: string, i: nat): (n: nat)
    requires i <= |s|
    ensures i + n <= |s|
    decreases |s| - i
  {
    if i < |s| && IsSpace(s[i]) then 1 + SpaceRun(s, i + 1) else 0
  }

  /** The run is all white space and stops at the end of s or at a character
      that is not white space. */
  lemma {:induction false} SpaceRunMaximal(s: string, i: nat)
    requires i <= |s|
    ensures AllSpace(s, i, i + SpaceRun(s, i))
    ensures i + SpaceRun(s, i) == |s| || !IsSpace(s[i + SpaceRun(s, i)])
    decreases |s| - i
  {
    if i < |s| && IsSpace(s[i]) {
      SpaceRunMaximal(s, i + 1);
    }
  }

  /** Length of the longest run of digits that starts at index i: what the
      greedy quantifier \d+ consumes there. */
  function DigitRun(s: string, i: nat): (n: nat)
    requires i <= |s|
    ensures i + n <= |s|
    decreases |s| - i
  {
    if i < |s| && IsDigit(s[i]) then 1 + DigitRun(s, i + 1) else 0
  }

  /** The run is all digits and stops at the end of s or at a non-digit. */
  lemma {:induction false} DigitRunMaximal(s: string, i: nat)
    requires i <= |s|
    ensures AllDigit(s, i, i + DigitRun(s, i))
    ensures i + DigitRun(s, i) == |s| || !IsDigit(s[i + DigitRun(s, i)])
    decreases |s| - i
  {
    if i < |s| && IsDigit(s[i]) {
      DigitRunMaximal(s, i + 1);
    }
  }

  /** A run of white space that ends where the white space ends is the greedy
      run: nothing else can follow \s+ at i. */
  lemma SpaceRunIs(s: string, i: nat, j: nat)
    requires i <= j <= |s|
    requires AllSpace(s, i, j)
    requires j == |s| || !IsSpace(s[j])
    ensures SpaceRun(s, i) == j - i
  {
    var n := SpaceRun(s, i);
    SpaceRunMaximal(s, i);
    if i + n < j {
      assert false;
    } else if i + n > j {
      assert false;
    }
  }

  /** A run of digits that ends where the digits end is the greedy run. */
  lemma DigitRunIs(s: string, i: nat, j: nat)
    requires i <= j <= |s|
    requires AllDigit(s, i, j)
    requires j == |s| || !IsDigit(s[j])
    ensures DigitRun(s, i) == j - i
  {
    var n := DigitRun(s, i);
    DigitRunMaximal(s, i);
    if i + n < j {
      assert false;
    } else if i + n > j {
      assert false;
    }
  }

  /** Number of trailing characters of s that are white space. */
  function TrailingSpace(s: string): (n: nat)
    ensures n <= |s|
  {
    if |s| > 0 && IsSpace(s[|s| - 1]) then 1 + TrailingSpace(s[..|s| - 1]) else 0
  }

  lemma {:induction false} TrailingSpaceMaximal(s: string)
    ensures AllSpace(s, |s| - TrailingSpace(s), |s|)
    ensures TrailingSpace(s) == |s| || !IsSpace(s[|s| - TrailingSpace(s) - 1])
  {
    if |s| > 0 && IsSpace(s[|s| - 1]) {
      var t := s[..|s| - 1];
      TrailingSpaceMaximal(t);
      assert forall k :: |t| - TrailingSpace(t) <= k < |t| ==> s[k] == t[k];
    }
  }

  /** String.prototype.trim: s without its leading and trailing white space. */
  function Trim(s: string): (r: string)
    ensures |r| <= |s|
  {
    var rest := s[SpaceRun(s, 0)..];
    rest[..|rest| - TrailingSpace(rest)]
  }

  /** The trim of s is the part of s between its leading and its trailing
      white space: it starts at the end of the leading run, everything
      around it is white space, and it neither starts nor ends with white
      space. */
  lemma TrimSpec(s: string)
    ensures SpaceRun(s, 0) + |Trim(s)| <= |s|
    ensures Trim(s) == s[SpaceRun(s, 0)..SpaceRun(s, 0) + |Trim(s)|]
    ensures AllSpace(s, 0, SpaceRun(s, 0))
    ensures AllSpace(s, SpaceRun(s, 0) + |Trim(s)|, |s|)
    ensures Trim(s) == [] || (!IsSpace(Trim(s)[0]) && !IsSpace(Trim(s)[|Trim(s)| - 1]))
  {
    SpaceRunMaximal(s, 0);
    TrimTrailing(s);
    TrimEdges(s);
  }

  lemma TrimTrailing(s: string)
    ensures SpaceRun(s, 0) + |Trim(s)| <= |s|
    ensures Trim(s) == s[SpaceRun(s, 0)..SpaceRun(s, 0) + |Trim(s)|]
    ensures AllSpace(s, SpaceRun(s, 0) + |Trim(s)|, |s|)
  {
    var lead := SpaceRun(s, 0);
    var rest := s[lead..];
    var r := Trim(s);
    TrailingSpaceMaximal(rest);
    assert forall k :: lead + |r| <= k < |s| ==> s[k] == rest[k - lead];
  }

  lemma TrimEdges(s: string)
    ensures Trim(s) == [] || (!IsSpace(Trim(s)[0]) && !IsSpace(Trim(s)[|Trim(s)| - 1]))
  {
    var lead := SpaceRun(s, 0);
    var rest := s[lead..];
    var r := Trim(s);
    if r != [] {
      SpaceRunMaximal(s, 0);
      TrailingSpaceMaximal(rest);
      assert r[0] == rest[0] == s[lead];
      assert r[|r| - 1] == rest[|rest| - TrailingSpace(rest) - 1];
    }
  }

  /** A string that neither starts nor ends with white space is its own trim. */
  lemma TrimmedIsTrim(s: string)
    requires s == [] || (!IsSpace(s[0]) && !IsSpace(s[|s| - 1]))
    ensures Trim(s) == s
  {
    TrimSpec(s);
    var lead := SpaceRun(s, 0);
    if s != [] {
      SpaceRunIs(s, 0, 0);
      var r := Trim(s);
      if |r| < |s| {
        assert false;
      }
    }
  }

  function DigitValue(c: char): (d: nat)
    requires IsDigit(c)
    ensures d < 10
  {
    c as int - '0' as int
  }

  function DigitChar(d: nat): (c: char)
    requires d < 10
    ensures IsDigit(c) && DigitValue(c) == d
  {
    ('0' as int + d) as char
  }

  /** parseInt(ds, 10) for a non-empty string of ASCII digits (leading zeros
      allowed): the base-10 value, most significant digit first. */
  function DecimalValue(ds: string): nat
    requires AllDigits(ds)
    decreases |ds|
  {
    if ds == [] then 0
    else 10 * DecimalValue(ds[..|ds| - 1]) + DigitValue(ds[|ds| - 1])
  }

  /** The base-10 numeral of n without leading zeros, as a template literal
      `${n}` renders a non-negative integer. */
  function Decimal(n: nat): (ds: string)
    ensures |ds| >= 1 && AllDigits(ds)
    ensures n >= 10 ==> ds[0] != '0'
  {
    if n < 10 then [DigitChar(n)] else Decimal(n / 10) + [DigitChar(n % 10)]
  }

  /** parseInt reads back what the template literal wrote. */
  lemma {:induction false} DecimalRoundTrip(n: nat)
    ensures DecimalValue(Decimal(n)) == n
  {
    if n >= 10 {
      DecimalRoundTrip(n / 10);
      var ds := Decimal(n);
      assert ds[..|ds| - 1] == Decimal(n / 10);
    }
  }
}
