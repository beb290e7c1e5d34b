/**
 * Single steps of the grammar at positions where the input is known: each
 * lemma says what one level returns, given what the level below returned
 * and which character follows. They are stated on values (tree, canonical
 * string, next offset) so that chaining them needs no unfolding of the
 * grammar beyond one level.
 */
module Steps {
  import opened Scanner
  import opened Syntax
  import opened Grammar

  /** One space, then a character that is not white space: skipping stops after the space. */
  lemma SkipOneSpace(s: string, q: nat)
    requires q + 1 < |s| && s[q] == ' ' && !IsWhitespace(s[q + 1])
    ensures ConsumeWhitespace(s, q) == q + 1
  {
    ScanEndUnique(s, q, Whitespace, q + 1);
  }

  /** A closing parenthesis: white-space skipping stops there and no operator is there. */
  lemma ClosesAt(s: string, z: nat)
    requires IsAt(s, z, ')')
    ensures ConsumeWhitespace(s, z) == z && NoOperatorAt(s, z)
  {
    ScanEndUnique(s, z, Whitespace, z);
  }

  // ---------------------------------------------------------------------
  // Groups

  /** `(`, then an expression that stops at a `)`: a group. */
  lemma GroupedAt(s: string, i: nat, t: Expr, c: string, z: nat)
    requires IsAt(s, i, '(')
    requires AddSubExpr(s, i + 1) == Parsed(t, c, z) && IsAt(s, z, ')')
    ensures ParenExpr(s, i) == Parsed(Group(t), "(" + c + ")", ConsumeWhitespace(s, z + 1))
  {
    ScanEndUnique(s, i, Whitespace, i);
  }

  /**
   * `(`, then an expression that parses: the parenthesis level fails
   * exactly when no `)` follows it, and then as a missing closing
   * parenthesis at the `(`.
   */
  lemma UnclosedAt(s: string, i: nat)
    requires i <= |s| && IsAt(s, ConsumeWhitespace(s, i), '(')
    requires AddSubExpr(s, ConsumeWhitespace(s, i) + 1).Parsed?
    ensures ParenExpr(s, i).Failed? <==> !IsAt(s, AddSubExpr(s, ConsumeWhitespace(s, i) + 1).pos, ')')
    ensures ParenExpr(s, i).Failed? ==> ParenExpr(s, i) == Failed(MissingClosingParen, ConsumeWhitespace(s, i))
  {
  }

  /** `(`, then a mult/div expression that stops at a `)`: a group. */
  lemma GroupOfMultDiv(s: string, i: nat, t: Expr, c: string, z: nat)
    requires IsAt(s, i, '(')
    requires MultDivExpr(s, i + 1) == Parsed(t, c, z) && IsAt(s, z, ')')
    ensures ParenExpr(s, i) == Parsed(Group(t), "(" + c + ")", ConsumeWhitespace(s, z + 1))
  {
    ClosesAt(s, z);
    AddSubOfMultDiv(s, i + 1);
    GroupedAt(s, i, t, c, z);
  }

  /** A signed expression that stops at a `)` is a whole mult/div expression. */
  lemma MultDivOfSignedAt(s: string, i: nat, t: Expr, c: string, z: nat)
    requires i <= |s| && SignedExpr(s, i) == Parsed(t, c, z) && IsAt(s, z, ')')
    ensures MultDivExpr(s, i) == Parsed(t, c, z)
  {
    ClosesAt(s, z);
    MultDivOfSigned(s, i);
  }

  /** `(`, then a signed expression that stops at a `)`: a group. */
  lemma GroupOfSigned(s: string, i: nat, t: Expr, c: string, z: nat)
    requires IsAt(s, i, '(')
    requires SignedExpr(s, i + 1) == Parsed(t, c, z) && IsAt(s, z, ')')
    ensures ParenExpr(s, i) == Parsed(Group(t), "(" + c + ")", ConsumeWhitespace(s, z + 1))
  {
    MultDivOfSignedAt(s, i + 1, t, c, z);
    GroupOfMultDiv(s, i, t, c, z);
  }

  /** `(`, then an exponent expression, not after a minus, that stops at a `)`: a group. */
  lemma GroupOfExponent(s: string, i: nat, t: Expr, c: string, z: nat)
    requires IsAt(s, i, '(')
    requires ConsumeWhitespace(s, i + 1) == i + 1 && !IsAt(s, i + 1, '-')
    requires ExponentExpr(s, i + 1) == Parsed(t, c, z) && IsAt(s, z, ')')
    ensures ParenExpr(s, i) == Parsed(Group(t), "(" + c + ")", ConsumeWhitespace(s, z + 1))
  {
    SignedOfExponent(s, i + 1);
    GroupOfSigned(s, i, t, c, z);
  }

  // ---------------------------------------------------------------------
  // Operators

  /** `-`, then an exponent expression: a negation. */
  lemma NegatedAt(s: string, i: nat, t: Expr, c: string, p: nat)
    requires i < |s| && ConsumeWhitespace(s, i) == i && IsAt(s, i, '-')
    requires ConsumeWhitespace(s, i + 1) == i + 1 && ExponentExpr(s, i + 1) == Parsed(t, c, p)
    ensures SignedExpr(s, i) == Parsed(Neg(t), "(-" + c + ")", ConsumeWhitespace(s, p))
  {
  }

  /** An atom that stops at `^`, then a signed operand: a power. */
  lemma PowerAt(s: string, i: nat, tb: Expr, cb: string, p: nat, tx: Expr, cx: string, z: nat)
    requires i <= |s| && ConsumeWhitespace(s, i) == i
    requires ParenExpr(s, i) == Parsed(tb, cb, p) && IsAt(s, p, '^')
    requires SignedExpr(s, p + 1) == Parsed(tx, cx, z)
    ensures ExponentExpr(s, i) == Parsed(Pow(tb, tx), "(" + cb + " ^ " + cx + ")", z)
  {
    assert Stops(s, p);
    ConsumeWhitespaceStops(s, p);
  }

  /** A signed operand that stops at `*` or `/`, then one more and no further operator. */
  lemma ProductAt(s: string, i: nat, op: Op, tl: Expr, cl: string, p: nat, tr: Expr, cr: string, z: nat)
    requires i <= |s| && ConsumeWhitespace(s, i) == i && (op == Mul || op == Div)
    requires SignedExpr(s, i) == Parsed(tl, cl, p) && IsAt(s, p, Symbol(op))
    requires SignedExpr(s, p + 1) == Parsed(tr, cr, z) && NoOperatorAt(s, z)
    ensures MultDivExpr(s, i) == Parsed(Bin(op, tl, tr), "(" + cl + " " + [Symbol(op)] + " " + cr + ")", z)
  {
    ConsumeWhitespaceStops(s, p);
    var acc := Parsed(Bin(op, tl, tr), "(" + cl + " " + [Symbol(op)] + " " + cr + ")", z);
    assert MultDivFold(s, acc) == acc;
    assert MultDivFold(s, Parsed(tl, cl, p)) == MultDivFold(s, acc);
  }

  /** A mult/div operand that stops at `+` or `-`, then one more and no further operator. */
  lemma SumAt(s: string, i: nat, op: Op, tl: Expr, cl: string, p: nat, tr: Expr, cr: string, z: nat)
    requires i <= |s| && ConsumeWhitespace(s, i) == i && (op == Add || op == Sub)
    requires MultDivExpr(s, i) == Parsed(tl, cl, p) && IsAt(s, p, Symbol(op))
    requires MultDivExpr(s, p + 1) == Parsed(tr, cr, z) && NoOperatorAt(s, z)
    ensures AddSubExpr(s, i) == Parsed(Bin(op, tl, tr), "(" + cl + " " + [Symbol(op)] + " " + cr + ")", z)
  {
    ConsumeWhitespaceStops(s, p);
    var acc := Parsed(Bin(op, tl, tr), "(" + cl + " " + [Symbol(op)] + " " + cr + ")", z);
    assert AddSubFold(s, acc) == acc;
    assert AddSubFold(s, Parsed(tl, cl, p)) == AddSubFold(s, acc);
  }

  // ---------------------------------------------------------------------
  // Operands next to an operator

  /** After a space, an exponent expression not after a minus is the signed operand. */
  lemma OperandAfterSpace(s: string, q: nat, t: Expr, c: string, z: nat)
    requires q < |s| && s[q] == ' '
    requires ConsumeWhitespace(s, q + 1) == q + 1 && !IsAt(s, q + 1, '-')
    requires ExponentExpr(s, q + 1) == Parsed(t, c, z)
    ensures SignedExpr(s, q) == Parsed(t, c, z)
  {
    SignedSkips(s, q);
    SignedOfExponent(s, q + 1);
  }

  /**
   * An atom followed by a space and a binary operator is the first operand
   * at the signed level and, for `+` and `-`, at the mult/div level.
   */
  lemma LeftOperandAt(s: string, a: nat, t: Expr, c: string, q: nat, op: Op)
    requires a <= |s| && ConsumeWhitespace(s, a) == a && !IsAt(s, a, '-')
    requires IsAt(s, q, ' ') && IsAt(s, q + 1, Symbol(op))
    requires ParenExpr(s, a) == Parsed(t, c, ConsumeWhitespace(s, q))
    ensures SignedExpr(s, a) == Parsed(t, c, q + 1)
    ensures op == Add || op == Sub ==> MultDivExpr(s, a) == Parsed(t, c, q + 1)
  {
    SkipOneSpace(s, q);
    ExponentOfAtom(s, a);
    SignedOfExponent(s, a);
    if op == Add || op == Sub {
      MultDivOfSigned(s, a);
    }
  }
}
