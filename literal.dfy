/**
 * The literal validator, `evaluate_unsigned_number`: one unsigned decimal
 * literal after leading white space, under the no-leading-zero and
 * no-bare-point rules.
 */
module Literal {
  import opened Scanner
  import opened Syntax

  /**
   * `l` is written at `p` and the input cannot extend it: no digit follows,
   * and no point follows unless `l` already has one.
   */
  predicate LiteralAt(s: string, p: nat, l: string) {
    && p + |l| <= |s|
    && s[p..p + |l|] == l
    && ValidLiteral(l)
    && (p + |l| == |s| || (!IsDigit(s[p + |l|]) && (s[p + |l|] == '.' ==> '.' in l)))
  }

  function UnsignedNumber(s: string, i: nat): (r: Parse)
    requires i <= |s|
    ensures r.Failed? ==> r == Failed(InvalidNumber, ConsumeWhitespace(s, i))
    ensures r.Parsed? ==>
      var start := ConsumeWhitespace(s, i);
      && start < start + |r.canon| <= |s|
      && r.tree == Num(r.canon)
      && r.pos == ConsumeWhitespace(s, start + |r.canon|)
  {
    var ii := ConsumeWhitespace(s, i);
    var jj := ConsumeDigits(s, ii);
    if jj - ii > 1 && !('1' <= s[ii] <= '9') then
      Failed(InvalidNumber, ii)
    else
      var point := IsAt(s, jj, '.');
      var end := if point then ConsumeDigits(s, jj + 1) else jj;
      if point && end == jj + 1 && jj == ii then
        Failed(InvalidNumber, ii)
      else if end == ii then
        Failed(InvalidNumber, ii)
      else
        Parsed(Num(s[ii..end]), s[ii..end], ConsumeWhitespace(s, end))
  }

  /** What UnsignedNumber accepts is a valid literal, written where it starts, that the input does not extend. */
  lemma UnsignedNumberLiteral(s: string, i: nat)
    requires i <= |s|
    ensures UnsignedNumber(s, i).Parsed? ==> LiteralAt(s, ConsumeWhitespace(s, i), UnsignedNumber(s, i).canon)
  {
    var ii := ConsumeWhitespace(s, i);
    var jj := ConsumeDigits(s, ii);
    var end := if IsAt(s, jj, '.') then ConsumeDigits(s, jj + 1) else jj;
    if UnsignedNumber(s, i).Parsed? {
      ScannedLiteral(s, ii, jj, end);
    }
  }

  /** What the scans of UnsignedNumber found is a literal the input does not extend. */
  lemma ScannedLiteral(s: string, ii: nat, jj: nat, end: nat)
    requires ii <= jj <= end <= |s|
    requires jj == ConsumeDigits(s, ii)
    requires jj - ii > 1 ==> '1' <= s[ii] <= '9'
    requires IsAt(s, jj, '.') ==> end == ConsumeDigits(s, jj + 1) && (end > jj + 1 || jj > ii)
    requires !IsAt(s, jj, '.') ==> end == jj && end > ii
    ensures LiteralAt(s, ii, s[ii..end])
  {
    var l := s[ii..end];
    ScannedDigits(s, ii, jj);
    assert ValidIntegerPart(s[ii..jj]);
    if IsAt(s, jj, '.') {
      ScannedDigits(s, jj + 1, end);
      var k := jj - ii;
      assert l[..k] == s[ii..jj];
      assert l[k + 1..] == s[jj + 1..end];
      assert l[k] == '.';
    } else {
      assert l == s[ii..jj];
    }
  }

  /** A prefix of a scanned run of digits is made of digits. */
  lemma ScannedDigits(s: string, a: nat, b: nat)
    requires a <= b <= |s| && b <= ConsumeDigits(s, a)
    ensures IsDigitRun(s[a..b])
  {
    ScanEndRun(s, a, Digit);
    assert forall m :: 0 <= m < b - a ==> s[a..b][m] == s[a + m];
  }

  /**
   * Conversely, a valid literal written at the cursor, that the input does
   * not extend, is accepted, and as exactly that literal.
   */
  lemma UnsignedNumberAccepts(s: string, i: nat, l: string)
    requires i <= |s|
    requires LiteralAt(s, ConsumeWhitespace(s, i), l)
    ensures UnsignedNumber(s, i) == Parsed(Num(l), l, ConsumeWhitespace(s, ConsumeWhitespace(s, i) + |l|))
  {
    if |l| > 0 && ValidIntegerPart(l) {
      AcceptsWithoutPoint(s, ConsumeWhitespace(s, i), l);
      AcceptsInteger(s, i, l);
    } else {
      AcceptsFraction(s, i, l);
    }
  }

  lemma AcceptsFraction(s: string, i: nat, l: string)
    requires i <= |s|
    requires LiteralAt(s, ConsumeWhitespace(s, i), l)
    requires !(|l| > 0 && ValidIntegerPart(l))
    ensures UnsignedNumber(s, i) == Parsed(Num(l), l, ConsumeWhitespace(s, ConsumeWhitespace(s, i) + |l|))
  {
    var k :| 0 <= k < |l| && l[k] == '.' && ValidIntegerPart(l[..k]) && IsDigitRun(l[k + 1..]) && |l| > 1;
    AcceptsWithPoint(s, ConsumeWhitespace(s, i), l, k);
    AcceptsDecimal(s, i, l, k);
  }

  /** The scans find a run of digits with nothing after it: the run is the literal. */
  lemma AcceptsInteger(s: string, i: nat, l: string)
    requires i <= |s| && ConsumeWhitespace(s, i) + |l| <= |s| && |l| > 0
    requires ConsumeDigits(s, ConsumeWhitespace(s, i)) == ConsumeWhitespace(s, i) + |l|
    requires !IsAt(s, ConsumeWhitespace(s, i) + |l|, '.')
    requires |l| > 1 ==> '1' <= s[ConsumeWhitespace(s, i)] <= '9'
    requires s[ConsumeWhitespace(s, i)..ConsumeWhitespace(s, i) + |l|] == l
    ensures UnsignedNumber(s, i) == Parsed(Num(l), l, ConsumeWhitespace(s, ConsumeWhitespace(s, i) + |l|))
  {
  }

  /** The scans find digits, the point at `k` and digits up to the end of the literal. */
  lemma AcceptsDecimal(s: string, i: nat, l: string, k: nat)
    requires i <= |s| && ConsumeWhitespace(s, i) + |l| <= |s| && k < |l| && |l| > 1
    requires ConsumeDigits(s, ConsumeWhitespace(s, i)) == ConsumeWhitespace(s, i) + k
    requires IsAt(s, ConsumeWhitespace(s, i) + k, '.')
    requires ConsumeDigits(s, ConsumeWhitespace(s, i) + k + 1) == ConsumeWhitespace(s, i) + |l|
    requires k > 1 ==> '1' <= s[ConsumeWhitespace(s, i)] <= '9'
    requires s[ConsumeWhitespace(s, i)..ConsumeWhitespace(s, i) + |l|] == l
    ensures UnsignedNumber(s, i) == Parsed(Num(l), l, ConsumeWhitespace(s, ConsumeWhitespace(s, i) + |l|))
  {
  }

  lemma AcceptsWithoutPoint(s: string, ii: nat, l: string)
    requires LiteralAt(s, ii, l)
    requires |l| > 0 && ValidIntegerPart(l)
    ensures ConsumeDigits(s, ii) == ii + |l|
    ensures !IsAt(s, ii + |l|, '.')
    ensures |l| > 1 ==> '1' <= s[ii] <= '9'
    ensures s[ii..ii + |l|] == l
  {
    var e := ii + |l|;
    assert s[ii..e] == l;
    assert forall m :: ii <= m < e ==> s[m] == l[m - ii];
    ScanEndUnique(s, ii, Digit, e);
  }

  lemma AcceptsWithPoint(s: string, ii: nat, l: string, k: nat)
    requires LiteralAt(s, ii, l)
    requires k < |l| && l[k] == '.' && ValidIntegerPart(l[..k]) && IsDigitRun(l[k + 1..]) && |l| > 1
    ensures ConsumeDigits(s, ii) == ii + k
    ensures ConsumeDigits(s, ii + k + 1) == ii + |l|
    ensures IsAt(s, ii + k, '.')
    ensures k > 1 ==> '1' <= s[ii] <= '9'
    ensures s[ii..ii + |l|] == l
  {
    var e := ii + |l|;
    assert s[ii..e] == l;
    assert forall m :: ii <= m < e ==> s[m] == l[m - ii];
    assert forall m :: ii <= m < ii + k ==> s[m] == l[..k][m - ii];
    ScanEndUnique(s, ii, Digit, ii + k);
    assert forall m :: ii + k + 1 <= m < e ==> s[m] == l[k + 1..][m - ii - k - 1];
    ScanEndUnique(s, ii + k + 1, Digit, e);
  }

  // The cases listed in the comment above `evaluate_unsigned_number`.

  lemma AcceptedIntegers()
    ensures UnsignedNumber("0", 0) == Parsed(Num("0"), "0", 1)
    ensures UnsignedNumber("1", 0) == Parsed(Num("1"), "1", 1)
    ensures UnsignedNumber("0.", 0) == Parsed(Num("0."), "0.", 2)
  {
  }

  lemma AcceptedFractions()
    ensures UnsignedNumber(".0", 0) == Parsed(Num(".0"), ".0", 2)
    ensures UnsignedNumber("1.2", 0) == Parsed(Num("1.2"), "1.2", 3)
  {
  }

  lemma AcceptedZeroFractions()
    ensures UnsignedNumber(".0000", 0) == Parsed(Num(".0000"), ".0000", 5)
    ensures UnsignedNumber("0.0000", 0) == Parsed(Num("0.0000"), "0.0000", 6)
  {
    var a, b := ".0000", "0.0000";
    ScanEndUnique(a, 0, Whitespace, 0);
    ScanEndUnique(b, 0, Whitespace, 0);
    assert ValidLiteral(a) by {
      assert a[..0] == "" && a[1..] == "0000" && a[0] == '.';
    }
    assert ValidLiteral(b) by {
      assert b[..1] == "0" && b[2..] == "0000" && b[1] == '.';
    }
    assert a[0..|a|] == a && b[0..|b|] == b;
    UnsignedNumberAccepts(a, 0, a);
    UnsignedNumberAccepts(b, 0, b);
  }

  lemma RefusedLeadingZeros()
    ensures UnsignedNumber("00", 0) == Failed(InvalidNumber, 0)
    ensures UnsignedNumber("01", 0) == Failed(InvalidNumber, 0)
    ensures UnsignedNumber("01.", 0) == Failed(InvalidNumber, 0)
    ensures UnsignedNumber("01.0", 0) == Failed(InvalidNumber, 0)
  {
  }

  lemma RefusedEmpty()
    ensures UnsignedNumber(".", 0) == Failed(InvalidNumber, 0)
    ensures UnsignedNumber("", 0) == Failed(InvalidNumber, 0)
    ensures UnsignedNumber(" ", 0) == Failed(InvalidNumber, 1)
  {
  }
}
