/**
 * Number reading as the crawler does it: the first `(\d+)<sep>(\d+)` match of a
 * regular expression, the product of its two groups, Python's `float(...)` on an
 * attribute string, and the truncation `int(...)` applies to the product.
 */
module Numbers {
  import opened Wrappers
  import opened Strings

  /** The regular expression class `\d`, restricted to ASCII digits. */
  predicate IsDigit(c: char) {
    '0' <= c <= '9'
  }

  predicate AllDigits(s: string) {
    forall i :: 0 <= i < |s| ==> IsDigit(s[i])
  }

  /** Separator sets of the two dimension patterns: `[x-]` and `x`. */
  predicate DigitFree(seps: set<char>) {
    forall c :: c in seps ==> !IsDigit(c)
  }

  /** Decimal value of a digit string (`int(s)`; the empty string reads as 0). */
  function DigitsValue(s: string): nat
    requires AllDigits(s)
  {
    if s == [] then 0 else DigitsValue(s[..|s| - 1]) * 10 + (s[|s| - 1] as int - '0' as int)
  }

  /** The end of the run of digits that starts at `i`. */
  function RunEnd(s: string, i: nat): (r: nat)
    requires i <= |s|
    ensures i <= r <= |s|
    ensures AllDigits(s[i..r])
    ensures r == |s| || !IsDigit(s[r])
    decreases |s| - i
  {
    if i < |s| && IsDigit(s[i]) then RunEnd(s, i + 1) else i
  }

  /**
   * The pattern `(\d+)[seps](\d+)` can match at position `p` of `s`, read directly
   * from the pattern: some non-empty digit run from `p` is followed by a separator
   * and a digit.
   */
  ghost predicate PatternAt(s: string, p: nat, seps: set<char>) {
    exists j :: p < j < |s| - 1 && AllDigits(s[p..j]) && s[j] in seps && IsDigit(s[j + 1])
  }

  /** The same test as a scanner performs it: the maximal digit run from `p` is followed by a separator and a digit. */
  predicate RunMatch(s: string, p: nat, seps: set<char>) {
    p < |s| && IsDigit(s[p]) && var j := RunEnd(s, p); j + 1 < |s| && s[j] in seps && IsDigit(s[j + 1])
  }

  lemma RunMatchIsPattern(s: string, p: nat, seps: set<char>)
    requires p <= |s| && DigitFree(seps)
    ensures RunMatch(s, p, seps) <==> PatternAt(s, p, seps)
  {
    if PatternAt(s, p, seps) {
      var j :| p < j < |s| - 1 && AllDigits(s[p..j]) && s[j] in seps && IsDigit(s[j + 1]);
      assert s[p..j][0] == s[p];
    }
  }

  /** Positions of one match: group 1 is `s[start..sep]`, the separator `s[sep]`, group 2 `s[sep + 1..end]`. */
  datatype Span = Span(start: nat, sep: nat, end: nat)

  /** A greedy match of `(\d+)[seps](\d+)`: both groups are digit runs and group 2 cannot be extended. */
  predicate GreedyMatch(s: string, m: Span, seps: set<char>) {
    m.start < m.sep && m.sep + 1 < m.end <= |s|
    && AllDigits(s[m.start..m.sep]) && s[m.sep] in seps && AllDigits(s[m.sep + 1..m.end])
    && (m.end == |s| || !IsDigit(s[m.end]))
  }

  /** Where the scanner finds a match, the two maximal digit runs form a greedy match. */
  lemma RunMatchGreedy(s: string, p: nat, seps: set<char>)
    requires RunMatch(s, p, seps)
    ensures var j := RunEnd(s, p); GreedyMatch(s, Span(p, j, RunEnd(s, j + 1)), seps)
  {
  }

  function FirstMatchFrom(s: string, p: nat, seps: set<char>): (m: Option<Span>)
    requires p <= |s| && DigitFree(seps)
    ensures m.None? <==> forall q :: p <= q < |s| ==> !PatternAt(s, q, seps)
    ensures m.Some? ==> p <= m.value.start && GreedyMatch(s, m.value, seps)
    ensures m.Some? ==> forall q :: p <= q < m.value.start ==> !PatternAt(s, q, seps)
    decreases |s| - p
  {
    RunMatchIsPattern(s, p, seps);
    if p == |s| then None
    else if RunMatch(s, p, seps) then
      RunMatchGreedy(s, p, seps);
      var j := RunEnd(s, p);
      Some(Span(p, j, RunEnd(s, j + 1)))
    else FirstMatchFrom(s, p + 1, seps)
  }

  /**
   * The first match `re.findall` reports: the leftmost position where the pattern
   * matches, with greedy groups; None when the pattern matches nowhere.
   */
  function FirstMatch(s: string, seps: set<char>): (m: Option<Span>)
    requires DigitFree(seps)
    ensures m.None? <==> forall q :: 0 <= q < |s| ==> !PatternAt(s, q, seps)
    ensures m.Some? ==> GreedyMatch(s, m.value, seps)
    ensures m.Some? ==> forall q :: 0 <= q < m.value.start ==> !PatternAt(s, q, seps)
  {
    FirstMatchFrom(s, 0, seps)
  }

  /** A greedy match preceded by a digit could have started one position earlier. */
  lemma PatternExtendsLeft(s: string, m: Span, seps: set<char>)
    requires GreedyMatch(s, m, seps)
    ensures m.start > 0 && IsDigit(s[m.start - 1]) ==> PatternAt(s, m.start - 1, seps)
  {
    if m.start > 0 && IsDigit(s[m.start - 1]) {
      var q := m.start - 1;
      assert AllDigits(s[q..m.sep]) by {
        forall i | 0 <= i < m.sep - q ensures IsDigit(s[q..m.sep][i]) {
          if i > 0 { assert s[q..m.sep][i] == s[m.start..m.sep][i - 1]; }
        }
      }
      assert s[m.sep + 1..m.end][0] == s[m.sep + 1];
    }
  }

  /** The leftmost match is never preceded by a digit, so group 1 is a whole digit run. */
  lemma FirstMatchStartsRun(s: string, seps: set<char>)
    requires DigitFree(seps) && FirstMatch(s, seps).Some?
    ensures var m := FirstMatch(s, seps).value; m.start == 0 || !IsDigit(s[m.start - 1])
  {
    PatternExtendsLeft(s, FirstMatch(s, seps).value, seps);
  }

  /**
   * `findall(pattern, s) or [(1, 1)]`, first pair, `int(float(a) * float(b))`:
   * the product of the two groups of the first match, 1 when there is none.
   * The product is exact; the source multiplies doubles.
   */
  function PairProduct(s: string, seps: set<char>): nat
    requires DigitFree(seps)
  {
    match FirstMatch(s, seps)
    case None => 1
    case Some(m) => DigitsValue(s[m.start..m.sep]) * DigitsValue(s[m.sep + 1..m.end])
  }

  // ---------------------------------------------------------------------------
  // Python's float() on an attribute string
  // ---------------------------------------------------------------------------

  function Pow10(n: nat): (r: nat)
    ensures r >= 1
  {
    if n == 0 then 1 else 10 * Pow10(n - 1)
  }

  /** 10 to an integer power, as a real. */
  function Scale(e: int): (r: real)
    ensures r > 0.0
  {
    if e >= 0 then Pow10(e) as real else 1.0 / Pow10(-e) as real
  }

  /** First index of a character of `cs`, or `|s|`. */
  function IndexOfAny(s: string, cs: set<char>): (r: nat)
    ensures r <= |s|
    ensures forall i :: 0 <= i < r ==> s[i] !in cs
    ensures r < |s| ==> s[r] in cs
  {
    if s == [] || s[0] in cs then 0 else 1 + IndexOfAny(s[1..], cs)
  }

  /** `digits [ "." digits ]` with at least one digit in all. */
  function ParseMantissa(t: string): Option<real> {
    var d := IndexOfAny(t, {'.'});
    var whole := t[..d];
    var frac := if d < |t| then t[d + 1..] else [];
    if AllDigits(whole) && AllDigits(frac) && |whole| + |frac| > 0 then
      Some(DigitsValue(whole) as real + DigitsValue(frac) as real / Pow10(|frac|) as real)
    else None
  }

  /** `[+-] digits`, the exponent after `e`/`E`. */
  function ParseExponent(t: string): Option<int> {
    if t != [] && (t[0] == '+' || t[0] == '-') then
      if t[1..] != [] && AllDigits(t[1..]) then
        Some(if t[0] == '-' then -(DigitsValue(t[1..]) as int) else DigitsValue(t[1..]))
      else None
    else if t != [] && AllDigits(t) then Some(DigitsValue(t))
    else None
  }

  function ParseUnsigned(t: string): Option<real> {
    var e := IndexOfAny(t, {'e', 'E'});
    if e == |t| then ParseMantissa(t)
    else
      match (ParseMantissa(t[..e]), ParseExponent(t[e + 1..]))
      case (Some(m), Some(x)) => Some(m * Scale(x))
      case _ => None
  }

  /**
   * `float(s)` for decimal notation: surrounding whitespace, an optional sign,
   * digits with an optional fraction, an optional exponent. None stands for the
   * ValueError Python raises on anything else.
   */
  function ParseFloat(s: string): Option<real> {
    var t := Strip(s);
    if t != [] && (t[0] == '+' || t[0] == '-') then
      match ParseUnsigned(t[1..])
      case Some(v) => Some(if t[0] == '-' then -v else v)
      case None => None
    else ParseUnsigned(t)
  }

  lemma IndexOfAnyAbsent(s: string, cs: set<char>)
    requires forall i :: 0 <= i < |s| ==> s[i] !in cs
    ensures IndexOfAny(s, cs) == |s|
  {
  }

  lemma DigitsHaveNoSpace(s: string)
    requires AllDigits(s)
    ensures NoSpace(s)
  {
    forall i | 0 <= i < |s| ensures !IsSpace(s[i]) { assert IsDigit(s[i]); }
  }

  /** Digits without a point read as their decimal value. */
  lemma ParseMantissaDigits(s: string)
    requires s != [] && AllDigits(s)
    ensures ParseMantissa(s) == Some(DigitsValue(s) as real)
  {
    IndexOfAnyAbsent(s, {'.'});
    assert s[..|s|] == s;
  }

  /** Digits without a point or an exponent read as their decimal value. */
  lemma ParseUnsignedDigits(s: string)
    requires s != [] && AllDigits(s)
    ensures ParseUnsigned(s) == Some(DigitsValue(s) as real)
  {
    IndexOfAnyAbsent(s, {'e', 'E'});
    ParseMantissaDigits(s);
  }

  /** A plain digit string reads as its decimal value: `float("32")` is 32. */
  lemma ParseFloatDigits(s: string)
    requires s != [] && AllDigits(s)
    ensures ParseFloat(s) == Some(DigitsValue(s) as real)
  {
    DigitsHaveNoSpace(s);
    StripNoSpace(s);
    ParseUnsignedDigits(s);
  }

  /** Without surrounding whitespace, a leading minus negates what follows. */
  lemma ParseFloatMinus(t: string, v: real)
    requires t != [] && t[0] == '-' && Strip(t) == t && ParseUnsigned(t[1..]) == Some(v)
    ensures ParseFloat(t) == Some(-v)
  {
  }

  /** A minus sign followed by digits has no whitespace to strip. */
  lemma StripMinusDigits(t: string)
    requires t != [] && t[0] == '-' && AllDigits(t[1..])
    ensures Strip(t) == t
  {
    forall i | 0 <= i < |t| ensures !IsSpace(t[i]) {
      if i > 0 { assert t[i] == t[1..][i - 1]; }
    }
    StripNoSpace(t);
  }

  /** A minus sign in front of digits negates the value: `float("-5")` is -5. */
  lemma ParseFloatNegative(t: string)
    requires |t| >= 2 && t[0] == '-' && AllDigits(t[1..])
    ensures ParseFloat(t) == Some(-(DigitsValue(t[1..]) as real))
  {
    ParseUnsignedDigits(t[1..]);
    StripMinusDigits(t);
    ParseFloatMinus(t, DigitsValue(t[1..]) as real);
  }

  /** `int(x)` on a float: truncation toward zero. */
  function Trunc(x: real): (r: int)
    ensures x >= 0.0 ==> r as real <= x < r as real + 1.0
    ensures x < 0.0 ==> r as real - 1.0 < x <= r as real
  {
    if x >= 0.0 then x.Floor else -((-x).Floor)
  }
}
