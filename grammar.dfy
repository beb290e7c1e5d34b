/**
 * The five mutually recursive grammar levels of the calculator. Each
 * takes the input and an offset, skips white space, and returns the
 * parse tree, the canonical string and the next offset, or the failure
 * the source throws. The `while` loops of the mult/div and add/sub levels
 * are the tail-recursive folds MultDivFold and AddSubFold here (the
 * methods in module Loops run them as loops).
 *
 * Termination: every recursive call either moves the offset right, or
 * stays at the same offset and descends to a lower level. The measure is
 * the pair (|s| - offset, rank of the level).
 */
module Grammar {
  import opened Scanner
  import opened Syntax
  import opened Literal

  /**
   * What every level guarantees about where its result lies: a success ends
   * at the end of the input or at a character that is not white space; a
   * failure is one of the two thrown inside the grammar, and a missing
   * closing parenthesis points at the `(` that opened the group.
   */
  predicate Valid(s: string, r: Parse) {
    && (r.Parsed? ==> r.pos <= |s| && Stops(s, r.pos))
    && (r.Failed? ==> r.at <= |s| && r.kind != InvalidExpression)
    && (r.Failed? && r.kind == MissingClosingParen ==> IsAt(s, r.at, '('))
  }

  /** A success's canonical string renders its tree, and its literals are valid. */
  predicate Sound(r: Parse) {
    r.Parsed? ==> r.canon == Render(r.tree) && WellFormed(r.tree)
  }

  /** A success consumed at least one character from `i`; a failure lies at or after `i`. */
  predicate Advances(i: nat, r: Parse) {
    && (r.Parsed? ==> i < r.pos)
    && (r.Failed? ==> i <= r.at)
  }

  /** `( ADDSUB )` or an unsigned number. */
  function ParenExpr(s: string, i: nat): (r: Parse)
    requires i <= |s|
    ensures Valid(s, r) && Advances(i, r)
    decreases |s| - i, 1
  {
    var ii := ConsumeWhitespace(s, i);
    if !IsAt(s, ii, '(') then
      UnsignedNumber(s, ii)
    else
      var inner := AddSubExpr(s, ii + 1);
      if inner.Failed? then inner
      else if !IsAt(s, inner.pos, ')') then Failed(MissingClosingParen, ii)
      else Parsed(Group(inner.tree), "(" + inner.canon + ")", ConsumeWhitespace(s, inner.pos + 1))
  }

  /** `PAREN [ ^ SIGNED ]`: the exponent is a signed operand, so `^` nests to the right. */
  function ExponentExpr(s: string, i: nat): (r: Parse)
    requires i <= |s|
    ensures Valid(s, r) && Advances(i, r)
    decreases |s| - i, 2
  {
    var ii := ConsumeWhitespace(s, i);
    var base := ParenExpr(s, ii);
    if base.Failed? then base
    else
      var p := ConsumeWhitespace(s, base.pos);
      if !IsAt(s, p, '^') then base.(pos := p)
      else
        var exponent := SignedExpr(s, p + 1);
        if exponent.Failed? then exponent
        else Parsed(Pow(base.tree, exponent.tree), "(" + base.canon + " ^ " + exponent.canon + ")", exponent.pos)
  }

  /** `[ - ] EXPONENT`: a leading minus negates the whole exponent expression. */
  function SignedExpr(s: string, i: nat): (r: Parse)
    requires i <= |s|
    ensures Valid(s, r) && Advances(i, r)
    decreases |s| - i, 3
  {
    var ii := ConsumeWhitespace(s, i);
    var negated := IsAt(s, ii, '-');
    var start := if negated then ConsumeWhitespace(s, ii + 1) else ii;
    var operand := ExponentExpr(s, start);
    if operand.Failed? then operand
    else
      var p := ConsumeWhitespace(s, operand.pos);
      if negated then Parsed(Neg(operand.tree), "(-" + operand.canon + ")", p)
      else operand.(pos := p)
  }

  /** `SIGNED [ (* | /) SIGNED ]*` */
  function MultDivExpr(s: string, i: nat): (r: Parse)
    requires i <= |s|
    ensures Valid(s, r) && Advances(i, r)
    decreases |s| - i, 4
  {
    var ii := ConsumeWhitespace(s, i);
    var first := SignedExpr(s, ii);
    if first.Failed? then first
    else MultDivFold(s, first.(pos := ConsumeWhitespace(s, first.pos)))
  }

  /** One turn of the mult/div loop per `*` or `/`, folding to the left. */
  function MultDivFold(s: string, acc: Parse): (r: Parse)
    requires acc.Parsed? && Valid(s, acc)
    ensures Valid(s, r) && (r.Failed? ==> acc.pos < r.at)
    ensures r.Parsed? ==> acc.pos <= r.pos
    decreases |s| - acc.pos, 4
  {
    if IsAt(s, acc.pos, '*') || IsAt(s, acc.pos, '/') then
      var c := s[acc.pos];
      var next := SignedExpr(s, acc.pos + 1);
      if next.Failed? then next
      else
        var op := if c == '*' then Mul else Div;
        MultDivFold(s, Parsed(Bin(op, acc.tree, next.tree), "(" + acc.canon + " " + [c] + " " + next.canon + ")", next.pos))
    else acc
  }

  /** `MULTDIV [ (+ | -) MULTDIV ]*`, the top of the grammar. */
  function AddSubExpr(s: string, i: nat): (r: Parse)
    requires i <= |s|
    ensures Valid(s, r) && Advances(i, r)
    decreases |s| - i, 5
  {
    var ii := ConsumeWhitespace(s, i);
    var first := MultDivExpr(s, ii);
    if first.Failed? then first
    else AddSubFold(s, first.(pos := ConsumeWhitespace(s, first.pos)))
  }

  /** One turn of the add/sub loop per `+` or `-`, folding to the left. */
  function AddSubFold(s: string, acc: Parse): (r: Parse)
    requires acc.Parsed? && Valid(s, acc)
    ensures Valid(s, r) && (r.Failed? ==> acc.pos < r.at)
    ensures r.Parsed? ==> acc.pos <= r.pos
    decreases |s| - acc.pos, 5
  {
    if IsAt(s, acc.pos, '+') || IsAt(s, acc.pos, '-') then
      var c := s[acc.pos];
      var next := MultDivExpr(s, acc.pos + 1);
      if next.Failed? then next
      else
        var op := if c == '+' then Add else Sub;
        AddSubFold(s, Parsed(Bin(op, acc.tree, next.tree), "(" + acc.canon + " " + [c] + " " + next.canon + ")", next.pos))
    else acc
  }

  // ---------------------------------------------------------------------
  // What each level builds: the canonical string is the rendering of the
  // tree, the literals are valid, and the tree has the shape of its level
  // (precedence and associativity). By induction along the recursion of
  // the grammar itself.

  lemma {:induction false} ParenBuilds(s: string, i: nat)
    requires i <= |s|
    ensures Sound(ParenExpr(s, i))
    ensures ParenExpr(s, i).Parsed? ==> IsAtom(ParenExpr(s, i).tree)
    decreases |s| - i, 1
  {
    var ii := ConsumeWhitespace(s, i);
    if !IsAt(s, ii, '(') {
      UnsignedNumberLiteral(s, ii);
    } else {
      AddSubBuilds(s, ii + 1);
    }
  }

  lemma {:induction false} ExponentBuilds(s: string, i: nat)
    requires i <= |s|
    ensures Sound(ExponentExpr(s, i))
    ensures ExponentExpr(s, i).Parsed? ==> IsExponentLevel(ExponentExpr(s, i).tree)
    decreases |s| - i, 2
  {
    var ii := ConsumeWhitespace(s, i);
    ParenBuilds(s, ii);
    var base := ParenExpr(s, ii);
    if base.Parsed? {
      var p := ConsumeWhitespace(s, base.pos);
      if IsAt(s, p, '^') {
        SignedBuilds(s, p + 1);
      }
    }
  }

  lemma {:induction false} SignedBuilds(s: string, i: nat)
    requires i <= |s|
    ensures Sound(SignedExpr(s, i))
    ensures SignedExpr(s, i).Parsed? ==> IsSignedLevel(SignedExpr(s, i).tree)
    decreases |s| - i, 3
  {
    var ii := ConsumeWhitespace(s, i);
    var start := if IsAt(s, ii, '-') then ConsumeWhitespace(s, ii + 1) else ii;
    ExponentBuilds(s, start);
  }

  lemma {:induction false} MultDivBuilds(s: string, i: nat)
    requires i <= |s|
    ensures Sound(MultDivExpr(s, i))
    ensures MultDivExpr(s, i).Parsed? ==> IsMultDivLevel(MultDivExpr(s, i).tree)
    decreases |s| - i, 4
  {
    var ii := ConsumeWhitespace(s, i);
    SignedBuilds(s, ii);
    var first := SignedExpr(s, ii);
    if first.Parsed? {
      MultDivFoldBuilds(s, first.(pos := ConsumeWhitespace(s, first.pos)));
    }
  }

  lemma {:induction false} MultDivFoldBuilds(s: string, acc: Parse)
    requires acc.Parsed? && Valid(s, acc) && Sound(acc) && IsMultDivLevel(acc.tree)
    ensures Sound(MultDivFold(s, acc))
    ensures MultDivFold(s, acc).Parsed? ==> IsMultDivLevel(MultDivFold(s, acc).tree)
    decreases |s| - acc.pos, 4
  {
    if IsAt(s, acc.pos, '*') || IsAt(s, acc.pos, '/') {
      var c := s[acc.pos];
      SignedBuilds(s, acc.pos + 1);
      var next := SignedExpr(s, acc.pos + 1);
      if next.Parsed? {
        var op := if c == '*' then Mul else Div;
        MultDivFoldBuilds(s, Parsed(Bin(op, acc.tree, next.tree), "(" + acc.canon + " " + [c] + " " + next.canon + ")", next.pos));
      }
    }
  }

  lemma {:induction false} AddSubBuilds(s: string, i: nat)
    requires i <= |s|
    ensures Sound(AddSubExpr(s, i))
    ensures AddSubExpr(s, i).Parsed? ==> IsAddSubLevel(AddSubExpr(s, i).tree)
    decreases |s| - i, 5
  {
    var ii := ConsumeWhitespace(s, i);
    MultDivBuilds(s, ii);
    var first := MultDivExpr(s, ii);
    if first.Parsed? {
      AddSubFoldBuilds(s, first.(pos := ConsumeWhitespace(s, first.pos)));
    }
  }

  lemma {:induction false} AddSubFoldBuilds(s: string, acc: Parse)
    requires acc.Parsed? && Valid(s, acc) && Sound(acc) && IsAddSubLevel(acc.tree)
    ensures Sound(AddSubFold(s, acc))
    ensures AddSubFold(s, acc).Parsed? ==> IsAddSubLevel(AddSubFold(s, acc).tree)
    decreases |s| - acc.pos, 5
  {
    if IsAt(s, acc.pos, '+') || IsAt(s, acc.pos, '-') {
      var c := s[acc.pos];
      MultDivBuilds(s, acc.pos + 1);
      var next := MultDivExpr(s, acc.pos + 1);
      if next.Parsed? {
        var op := if c == '+' then Add else Sub;
        AddSubFoldBuilds(s, Parsed(Bin(op, acc.tree, next.tree), "(" + acc.canon + " " + [c] + " " + next.canon + ")", next.pos));
      }
    }
  }

  // ---------------------------------------------------------------------
  // Every level skips white space first, so starting before or after a run
  // of white space makes no difference.

  lemma ParenSkips(s: string, i: nat)
    requires i <= |s|
    ensures ParenExpr(s, ConsumeWhitespace(s, i)) == ParenExpr(s, i)
  {
    ScanEndIdempotent(s, i, Whitespace);
  }

  lemma ExponentSkips(s: string, i: nat)
    requires i <= |s|
    ensures ExponentExpr(s, ConsumeWhitespace(s, i)) == ExponentExpr(s, i)
  {
    ScanEndIdempotent(s, i, Whitespace);
  }

  lemma SignedSkips(s: string, i: nat)
    requires i <= |s|
    ensures SignedExpr(s, ConsumeWhitespace(s, i)) == SignedExpr(s, i)
  {
    ScanEndIdempotent(s, i, Whitespace);
  }

  lemma MultDivSkips(s: string, i: nat)
    requires i <= |s|
    ensures MultDivExpr(s, ConsumeWhitespace(s, i)) == MultDivExpr(s, i)
  {
    ScanEndIdempotent(s, i, Whitespace);
  }

  // ---------------------------------------------------------------------
  // A level hands its operand up unchanged when none of its own operators
  // follows it.

  lemma ExponentOfAtom(s: string, i: nat)
    requires i <= |s|
    requires ParenExpr(s, i).Parsed? && !IsAt(s, ParenExpr(s, i).pos, '^')
    ensures ExponentExpr(s, i) == ParenExpr(s, i)
  {
    ParenSkips(s, i);
  }

  lemma SignedOfExponent(s: string, i: nat)
    requires i <= |s|
    requires ExponentExpr(s, i).Parsed? && !IsAt(s, ConsumeWhitespace(s, i), '-')
    ensures SignedExpr(s, i) == ExponentExpr(s, i)
  {
    ExponentSkips(s, i);
  }

  lemma MultDivOfSigned(s: string, i: nat)
    requires i <= |s|
    requires SignedExpr(s, i).Parsed?
    requires !IsAt(s, SignedExpr(s, i).pos, '*') && !IsAt(s, SignedExpr(s, i).pos, '/')
    ensures MultDivExpr(s, i) == SignedExpr(s, i)
  {
    SignedSkips(s, i);
  }

  lemma AddSubOfMultDiv(s: string, i: nat)
    requires i <= |s|
    requires MultDivExpr(s, i).Parsed?
    requires !IsAt(s, MultDivExpr(s, i).pos, '+') && !IsAt(s, MultDivExpr(s, i).pos, '-')
    ensures AddSubExpr(s, i) == MultDivExpr(s, i)
  {
    MultDivSkips(s, i);
  }

  /** No operator of any level at `p`. */
  predicate NoOperatorAt(s: string, p: int) {
    !IsAt(s, p, '^') && !IsAt(s, p, '*') && !IsAt(s, p, '/') && !IsAt(s, p, '+') && !IsAt(s, p, '-')
  }

  /** An operand with no operator after it is a whole expression, at every level. */
  lemma AddSubOfAtom(s: string, i: nat)
    requires i <= |s|
    requires ParenExpr(s, i).Parsed? && NoOperatorAt(s, ParenExpr(s, i).pos)
    requires !IsAt(s, ConsumeWhitespace(s, i), '-')
    ensures AddSubExpr(s, i) == ParenExpr(s, i)
  {
    ExponentOfAtom(s, i);
    SignedOfExponent(s, i);
    MultDivOfSigned(s, i);
    AddSubOfMultDiv(s, i);
  }
}
