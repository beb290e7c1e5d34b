/**
 * The cursor scanner of the calculator: advancing a read position over
 * the input while the character under it belongs to a character class.
 * An index at or past the end of the input stands for JavaScript's
 * out-of-range `charAt`, which matches nothing.
 */
module Scanner {

  /** The two classes the calculator scans for: `/\s/` and `/\d/`. */
  datatype CharClass = Whitespace | Digit

  /** A small stand-in for JavaScript's `/\s/`: ASCII white space and the common Unicode spaces. */
  predicate IsWhitespace(c: char) {
    c == ' ' || c == '\t' || c == '\n' || c == '\r' || c == '\U{000B}' || c == '\U{000C}'
    || c == '\U{00A0}' || c == '\U{FEFF}' || c == '\U{2028}' || c == '\U{2029}'
  }

  /** JavaScript's `/\d/`: the ASCII digits. */
  predicate IsDigit(c: char) {
    '0' <= c <= '9'
  }

  predicate Matches(c: char, cls: CharClass) {
    match cls
    case Whitespace => IsWhitespace(c)
    case Digit => IsDigit(c)
  }

  /** `s.charAt(i) == c`; an index outside the input matches no character. */
  predicate IsAt(s: string, i: int, c: char) {
    0 <= i < |s| && s[i] == c
  }

  /**
   * The end of the run of `cls` characters that starts at `i`: the run
   * cannot be extended (ScanEndRun: every character in it is in the class).
   */
  function ScanEnd(s: string, i: nat, cls: CharClass): (j: nat)
    requires i <= |s|
    ensures i <= j <= |s|
    ensures j == |s| || !Matches(s[j], cls)
    decreases |s| - i
  {
    if i < |s| && Matches(s[i], cls) then ScanEnd(s, i + 1, cls) else i
  }

  /** Every character between the start and the end of a scan is in the class. */
  lemma {:induction false} ScanEndRun(s: string, i: nat, cls: CharClass)
    requires i <= |s|
    ensures forall k :: i <= k < ScanEnd(s, i, cls) ==> Matches(s[k], cls)
    decreases |s| - i
  {
    if i < |s| && Matches(s[i], cls) {
      ScanEndRun(s, i + 1, cls);
    }
  }

  /** The postcondition of ScanEnd determines its result. */
  lemma {:induction false} ScanEndUnique(s: string, i: nat, cls: CharClass, e: nat)
    requires i <= e <= |s|
    requires forall k :: i <= k < e ==> Matches(s[k], cls)
    requires e == |s| || !Matches(s[e], cls)
    ensures ScanEnd(s, i, cls) == e
    decreases e - i
  {
    if i < e {
      ScanEndUnique(s, i + 1, cls, e);
    }
  }

  /** Scanning again from the end of a run stays where it is. */
  lemma ScanEndIdempotent(s: string, i: nat, cls: CharClass)
    requires i <= |s|
    ensures ScanEnd(s, ScanEnd(s, i, cls), cls) == ScanEnd(s, i, cls)
  {
  }

  /**
   * The loop of the source's scanner: `jj` walks right while the character
   * under it is in the class. Returns the run itself and its end.
   */
  method ConsumeRegexp(s: string, i: nat, cls: CharClass) returns (value: string, position: nat)
    requires i <= |s|
    ensures position == ScanEnd(s, i, cls)
    ensures value == s[i..position]
  {
    var jj := i;
    while jj < |s| && Matches(s[jj], cls)
      invariant i <= jj <= |s|
      invariant ScanEnd(s, jj, cls) == ScanEnd(s, i, cls)
      decreases |s| - jj
    {
      jj := jj + 1;
    }
    value, position := s[i..jj], jj;
  }

  /** `consumeWhitespace`: the first position at or after `i` that is not white space. */
  function ConsumeWhitespace(s: string, i: nat): (j: nat)
    requires i <= |s|
    ensures i <= j <= |s|
    ensures j == |s| || !IsWhitespace(s[j])
  {
    ScanEnd(s, i, Whitespace)
  }

  /** `consumeDigits`: the first position at or after `i` that is not a digit. */
  function ConsumeDigits(s: string, i: nat): (j: nat)
    requires i <= |s|
    ensures i <= j <= |s|
    ensures j == |s| || !IsDigit(s[j])
  {
    ScanEnd(s, i, Digit)
  }

  /** A position where white-space skipping has nothing left to do. */
  predicate Stops(s: string, p: nat)
    requires p <= |s|
  {
    p == |s| || !IsWhitespace(s[p])
  }

  lemma ConsumeWhitespaceStops(s: string, i: nat)
    requires i <= |s|
    ensures Stops(s, ConsumeWhitespace(s, i))
    ensures Stops(s, i) ==> ConsumeWhitespace(s, i) == i
  {
  }
}
