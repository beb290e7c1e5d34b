/**
 * Worked inputs for the precedence and associativity rules and for the
 * driver's trailing-text and error reports, each stated on the whole
 * result of Evaluate. Each input is a parameter fixed by `requires`, and
 * is built up one grammar step at a time by the helper lemmas, which hold
 * for any digits in the same places.
 */
module Examples {
  import opened Scanner
  import opened Syntax
  import opened Literal
  import opened Grammar
  import opened Steps
  import opened Driver
  import opened Canonical

  // ---------------------------------------------------------------------
  // Steps over single-digit operands

  /** A single digit at `p` that nothing extends, followed by no white space, is a literal. */
  lemma DigitAt(s: string, p: nat)
    requires p < |s| && IsDigit(s[p])
    requires p + 1 == |s| || (!IsDigit(s[p + 1]) && s[p + 1] != '.' && !IsWhitespace(s[p + 1]))
    ensures ConsumeWhitespace(s, p) == p
    ensures ParenExpr(s, p) == Parsed(Num([s[p]]), [s[p]], p + 1)
  {
    ScanEndUnique(s, p, Whitespace, p);
    ScanEndUnique(s, p + 1, Whitespace, p + 1);
    assert s[p..p + 1] == [s[p]];
    UnsignedNumberAccepts(s, p, [s[p]]);
  }

  /** A single digit at `p`, followed by no `^`, is a whole signed operand. */
  lemma DigitOperandAt(s: string, p: nat)
    requires p < |s| && IsDigit(s[p])
    requires p + 1 == |s| || (!IsDigit(s[p + 1]) && s[p + 1] != '.' && !IsWhitespace(s[p + 1]) && s[p + 1] != '^')
    ensures ConsumeWhitespace(s, p) == p
    ensures Yields(SignedExpr(s, p), Num([s[p]]), p + 1)
  {
    DigitAt(s, p);
    ExponentOfAtom(s, p);
    SignedOfExponent(s, p);
  }

  /** A single digit at `p`, followed by `+`, `-` or the end, is a whole mult/div operand. */
  lemma DigitTermAt(s: string, p: nat)
    requires p < |s| && IsDigit(s[p]) && (p + 1 == |s| || s[p + 1] == '+' || s[p + 1] == '-')
    ensures ConsumeWhitespace(s, p) == p
    ensures Yields(MultDivExpr(s, p), Num([s[p]]), p + 1)
  {
    DigitOperandAt(s, p);
    MultDivOfSigned(s, p);
  }

  /** A digit, `^`, then a signed operand: a power, at the exponent and the signed level. */
  lemma DigitPowerAt(s: string, i: nat, tx: Expr, z: nat)
    requires i + 1 < |s| && IsDigit(s[i]) && s[i + 1] == '^'
    requires Yields(SignedExpr(s, i + 2), tx, z)
    ensures ConsumeWhitespace(s, i) == i
    ensures Yields(ExponentExpr(s, i), Pow(Num([s[i]]), tx), z)
    ensures Yields(SignedExpr(s, i), Pow(Num([s[i]]), tx), z)
  {
    DigitAt(s, i);
    PowerAt(s, i, Num([s[i]]), [s[i]], i + 1, tx, SignedExpr(s, i + 2).canon, z);
    SignedOfExponent(s, i);
  }

  /** A signed operand that is the whole input is the whole expression. */
  lemma WholeOfSigned(s: string, t: Expr)
    requires Yields(SignedExpr(s, 0), t, |s|)
    ensures Yields(AddSubExpr(s, 0), t, |s|)
  {
    MultDivOfSigned(s, 0);
    AddSubOfMultDiv(s, 0);
  }

  /** Evaluate's report on a parse that consumes the whole input. */
  lemma EvaluatesWhole(s: string, t: Expr)
    requires Yields(AddSubExpr(s, 0), t, |s|) && |s| > 0
    ensures Evaluate(s) == Success(Report(ValueOf(t), Render(t), s, None))
  {
    AddSubBuilds(s, 0);
    assert s[..|s|] == s;
  }

  // ---------------------------------------------------------------------
  // `2^3^2` is `2^(3^2)`: the exponent is a signed operand, so `^` nests to the right.

  lemma PowerNestsRight(s: string)
    requires s == "2^3^2"
    ensures Evaluate(s) == Success(Report(
      Power(Float("2"), Power(Float("3"), Float("2"))), "(2 ^ (3 ^ 2))", s, None))
  {
    var t := Pow(Num("2"), Pow(Num("3"), Num("2")));
    PowerNestsRightParse(s);
    assert [s[0]] == "2" && [s[2]] == "3" && [s[4]] == "2";
    EvaluatesWhole(s, t);
    PowerNestsRightReading(t);
  }

  lemma PowerNestsRightReading(t: Expr)
    requires t == Pow(Num("2"), Pow(Num("3"), Num("2")))
    ensures ValueOf(t) == Power(Float("2"), Power(Float("3"), Float("2")))
    ensures Render(t) == "(2 ^ (3 ^ 2))"
  {
    assert Render(t.exponent) == "(3 ^ 2)";
  }

  lemma PowerNestsRightParse(s: string)
    requires |s| == 5 && IsDigit(s[0]) && s[1] == '^' && IsDigit(s[2]) && s[3] == '^' && IsDigit(s[4])
    ensures Yields(AddSubExpr(s, 0), Pow(Num([s[0]]), Pow(Num([s[2]]), Num([s[4]]))), 5)
  {
    DigitOperandAt(s, 4);
    DigitPowerAt(s, 2, Num([s[4]]), 5);
    DigitPowerAt(s, 0, Pow(Num([s[2]]), Num([s[4]])), 5);
    WholeOfSigned(s, Pow(Num([s[0]]), Pow(Num([s[2]]), Num([s[4]]))));
  }

  // ---------------------------------------------------------------------
  // `-2^2` is `-(2^2)`: unary minus wraps the whole exponent expression.

  lemma MinusWrapsPower(s: string)
    requires s == "-2^2"
    ensures Evaluate(s) == Success(Report(
      Negate(Power(Float("2"), Float("2"))), "(-(2 ^ 2))", s, None))
  {
    var t := Neg(Pow(Num("2"), Num("2")));
    MinusWrapsPowerParse(s);
    assert [s[1]] == "2" && [s[3]] == "2";
    EvaluatesWhole(s, t);
    MinusWrapsPowerReading(t);
  }

  lemma MinusWrapsPowerReading(t: Expr)
    requires t == Neg(Pow(Num("2"), Num("2")))
    ensures ValueOf(t) == Negate(Power(Float("2"), Float("2")))
    ensures Render(t) == "(-(2 ^ 2))"
  {
    assert Render(t.operand) == "(2 ^ 2)";
  }

  lemma MinusWrapsPowerParse(s: string)
    requires |s| == 4 && s[0] == '-' && IsDigit(s[1]) && s[2] == '^' && IsDigit(s[3])
    ensures Yields(AddSubExpr(s, 0), Neg(Pow(Num([s[1]]), Num([s[3]]))), 4)
  {
    DigitOperandAt(s, 3);
    DigitPowerAt(s, 1, Num([s[3]]), 4);
    ScanEndUnique(s, 0, Whitespace, 0);
    NegatedAt(s, 0, Pow(Num([s[1]]), Num([s[3]])), ExponentExpr(s, 1).canon, 4);
    WholeOfSigned(s, Neg(Pow(Num([s[1]]), Num([s[3]]))));
  }

  // ---------------------------------------------------------------------
  // `2+3*4` is `2+(3*4)`: `*` binds tighter than `+`.

  lemma ProductBindsTighter(s: string)
    requires s == "2+3*4"
    ensures Evaluate(s) == Success(Report(
      Arith(Add, Float("2"), Arith(Mul, Float("3"), Float("4"))), "(2 + (3 * 4))", s, None))
  {
    var t := Bin(Add, Num("2"), Bin(Mul, Num("3"), Num("4")));
    ProductBindsTighterParse(s);
    assert [s[0]] == "2" && [s[2]] == "3" && [s[4]] == "4";
    EvaluatesWhole(s, t);
    ProductBindsTighterReading(t);
  }

  lemma ProductBindsTighterReading(t: Expr)
    requires t == Bin(Add, Num("2"), Bin(Mul, Num("3"), Num("4")))
    ensures ValueOf(t) == Arith(Add, Float("2"), Arith(Mul, Float("3"), Float("4")))
    ensures Render(t) == "(2 + (3 * 4))"
  {
    assert Render(t.right) == "(3 * 4)";
  }

  lemma ProductBindsTighterParse(s: string)
    requires |s| == 5 && IsDigit(s[0]) && s[1] == '+' && IsDigit(s[2]) && s[3] == '*' && IsDigit(s[4])
    ensures Yields(AddSubExpr(s, 0), Bin(Add, Num([s[0]]), Bin(Mul, Num([s[2]]), Num([s[4]]))), 5)
  {
    DigitOperandAt(s, 2);
    DigitOperandAt(s, 4);
    ProductAt(s, 2, Mul, Num([s[2]]), SignedExpr(s, 2).canon, 3, Num([s[4]]), SignedExpr(s, 4).canon, 5);
    DigitTermAt(s, 0);
    SumAt(s, 0, Add, Num([s[0]]), MultDivExpr(s, 0).canon, 1, Bin(Mul, Num([s[2]]), Num([s[4]])), MultDivExpr(s, 2).canon, 5);
  }

  // ---------------------------------------------------------------------
  // `1-2-3` is `(1-2)-3`: the add/sub loop folds to the left.

  lemma DifferenceFoldsLeft(s: string)
    requires s == "1-2-3"
    ensures Evaluate(s) == Success(Report(
      Arith(Sub, Arith(Sub, Float("1"), Float("2")), Float("3")), "((1 - 2) - 3)", s, None))
  {
    var t := Bin(Sub, Bin(Sub, Num("1"), Num("2")), Num("3"));
    DifferenceFoldsLeftParse(s);
    assert [s[0]] == "1" && [s[2]] == "2" && [s[4]] == "3";
    EvaluatesWhole(s, t);
    DifferenceFoldsLeftReading(t);
  }

  lemma DifferenceFoldsLeftReading(t: Expr)
    requires t == Bin(Sub, Bin(Sub, Num("1"), Num("2")), Num("3"))
    ensures ValueOf(t) == Arith(Sub, Arith(Sub, Float("1"), Float("2")), Float("3"))
    ensures Render(t) == "((1 - 2) - 3)"
  {
    assert Render(t.left) == "(1 - 2)";
  }

  lemma DifferenceFoldsLeftParse(s: string)
    requires |s| == 5 && IsDigit(s[0]) && s[1] == '-' && IsDigit(s[2]) && s[3] == '-' && IsDigit(s[4])
    ensures Yields(AddSubExpr(s, 0), Bin(Sub, Bin(Sub, Num([s[0]]), Num([s[2]])), Num([s[4]])), 5)
  {
    DigitTermAt(s, 0);
    DigitTermAt(s, 2);
    DigitTermAt(s, 4);
    ConsumeWhitespaceStops(s, 1);
    var a, b, c := MultDivExpr(s, 0), MultDivExpr(s, 2), MultDivExpr(s, 4);
    var ab := Parsed(Bin(Sub, a.tree, b.tree), "(" + a.canon + " " + [s[1]] + " " + b.canon + ")", 3);
    var abc := Parsed(Bin(Sub, ab.tree, c.tree), "(" + ab.canon + " " + [s[3]] + " " + c.canon + ")", 5);
    assert AddSubFold(s, abc) == abc;
    assert AddSubFold(s, ab) == abc;
    assert AddSubFold(s, a) == abc;
  }

  // ---------------------------------------------------------------------
  // Trailing text and errors

  /** Unparsed text after the expression is reported, not refused; the space before it is consumed. */
  lemma TrailingTextReported(s: string)
    requires s == "1 x"
    ensures Evaluate(s) == Success(Report(Float("1"), "1", "1 ", Some("x")))
  {
    ScanEndUnique(s, 0, Whitespace, 0);
    ScanEndUnique(s, 1, Whitespace, 2);
    assert s[0..1] == "1";
    UnsignedNumberAccepts(s, 0, "1");
    AddSubOfAtom(s, 0);
    assert s[..2] == "1 " && s[2..] == "x";
  }

  /** A group left open fails at its `(`. */
  lemma UnclosedGroupRefused(s: string)
    requires s == "(1"
    ensures Evaluate(s) == Failure(MissingClosingParen, 0)
  {
    DigitAt(s, 1);
    ScanEndUnique(s, 0, Whitespace, 0);
    AddSubOfAtom(s, 1);
    var open := Failed(MissingClosingParen, 0);
    assert ParenExpr(s, 0) == open;
    assert ExponentExpr(s, 0) == open;
    assert SignedExpr(s, 0) == open;
    assert MultDivExpr(s, 0) == open;
    assert AddSubExpr(s, 0) == open;
  }

  /**
   * Input with no literal fails as an invalid number, never as an invalid
   * expression: the `position == 0` check of `evaluate` is unreachable.
   */
  lemma EmptyInputRefused()
    ensures Evaluate("") == Failure(InvalidNumber, 0)
    ensures Evaluate("  ") == Failure(InvalidNumber, 2)
  {
  }
}
