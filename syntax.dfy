/**
 * What a parse produces: the parse tree (with the parentheses the input
 * wrote), the symbolic value it denotes, its fully parenthesised
 * canonical rendering, and the grammar-level shapes that encode
 * precedence and associativity.
 */
module Syntax {
  import opened Scanner

  datatype Op = Add | Sub | Mul | Div

  function Symbol(op: Op): (c: char) {
    match op
    case Add => '+'
    case Sub => '-'
    case Mul => '*'
    case Div => '/'
  }

  /** A parse tree. `Group` records a pair of parentheses written in the input. */
  datatype Expr =
    | Num(literal: string)
    | Group(inner: Expr)
    | Neg(operand: Expr)
    | Pow(base: Expr, exponent: Expr)
    | Bin(op: Op, left: Expr, right: Expr)

  /**
   * The value the source computes, kept symbolic: `Float(l)` is `parseFloat(l)`,
   * `Power` is `Math.pow`, `Arith` is the double-precision `+ - * /`.
   * Two equal values are the same sequence of floating-point operations.
   */
  datatype Value =
    | Float(literal: string)
    | Negate(operand: Value)
    | Power(base: Value, exponent: Value)
    | Arith(op: Op, left: Value, right: Value)

  /** Parentheses group but do not compute. */
  function ValueOf(e: Expr): (v: Value) {
    match e
    case Num(l) => Float(l)
    case Group(x) => ValueOf(x)
    case Neg(x) => Negate(ValueOf(x))
    case Pow(b, x) => Power(ValueOf(b), ValueOf(x))
    case Bin(op, l, r) => Arith(op, ValueOf(l), ValueOf(r))
  }

  /** The tree with the parentheses written in the input removed. */
  function Ungrouped(e: Expr): (u: Expr) {
    match e
    case Num(_) => e
    case Group(x) => Ungrouped(x)
    case Neg(x) => Neg(Ungrouped(x))
    case Pow(b, x) => Pow(Ungrouped(b), Ungrouped(x))
    case Bin(op, l, r) => Bin(op, Ungrouped(l), Ungrouped(r))
  }

  /** Parentheses written in the input change the canonical string, never the value. */
  lemma {:induction false} ValueOfUngrouped(e: Expr)
    ensures ValueOf(Ungrouped(e)) == ValueOf(e)
  {
    match e
    case Num(_) =>
    case Group(x) => ValueOfUngrouped(x);
    case Neg(x) => ValueOfUngrouped(x);
    case Pow(b, x) => ValueOfUngrouped(b); ValueOfUngrouped(x);
    case Bin(_, l, r) => ValueOfUngrouped(l); ValueOfUngrouped(r);
  }

  /** The fully parenthesised rendering the source builds alongside the value. */
  function Render(e: Expr): (r: string) {
    match e
    case Num(l) => l
    case Group(x) => "(" + Render(x) + ")"
    case Neg(x) => "(-" + Render(x) + ")"
    case Pow(b, x) => "(" + Render(b) + " ^ " + Render(x) + ")"
    case Bin(op, l, r) => "(" + Render(l) + " " + [Symbol(op)] + " " + Render(r) + ")"
  }

  // ---------------------------------------------------------------------
  // Literals

  predicate IsDigitRun(d: string) {
    forall k :: 0 <= k < |d| ==> IsDigit(d[k])
  }

  /** Digits before the point: a run longer than one digit may not start with `0`. */
  predicate ValidIntegerPart(d: string) {
    IsDigitRun(d) && (|d| > 1 ==> d[0] != '0')
  }

  /**
   * An unsigned literal as the calculator accepts it: digits without a
   * leading zero, optionally followed by a point and more digits, where
   * either side of the point may be empty but not both.
   */
  predicate ValidLiteral(l: string) {
    || (|l| > 0 && ValidIntegerPart(l))
    || (exists k :: 0 <= k < |l| && l[k] == '.' && ValidIntegerPart(l[..k]) && IsDigitRun(l[k + 1..]) && |l| > 1)
  }

  predicate WellFormed(e: Expr) {
    match e
    case Num(l) => ValidLiteral(l)
    case Group(x) => WellFormed(x)
    case Neg(x) => WellFormed(x)
    case Pow(b, x) => WellFormed(b) && WellFormed(x)
    case Bin(_, l, r) => WellFormed(l) && WellFormed(r)
  }

  // ---------------------------------------------------------------------
  // Grammar-level shapes: which trees each level of the grammar can build.
  // Together they state precedence (`*` `/` under `+` `-`, `^` under unary
  // minus, unary minus under `*` `/`) and associativity (`+ - * /` fold to
  // the left, `^` nests to the right).

  predicate IsAtom(e: Expr)
    decreases e, 0
  {
    e.Num? || (e.Group? && IsAddSubLevel(e.inner))
  }

  predicate IsExponentLevel(e: Expr)
    decreases e, 1
  {
    IsAtom(e) || (e.Pow? && IsAtom(e.base) && IsSignedLevel(e.exponent))
  }

  predicate IsSignedLevel(e: Expr)
    decreases e, 2
  {
    IsExponentLevel(e) || (e.Neg? && IsExponentLevel(e.operand))
  }

  predicate IsMultDivLevel(e: Expr)
    decreases e, 3
  {
    IsSignedLevel(e) || (e.Bin? && (e.op == Mul || e.op == Div) && IsMultDivLevel(e.left) && IsSignedLevel(e.right))
  }

  predicate IsAddSubLevel(e: Expr)
    decreases e, 4
  {
    IsMultDivLevel(e) || (e.Bin? && (e.op == Add || e.op == Sub) && IsAddSubLevel(e.left) && IsMultDivLevel(e.right))
  }

  // ---------------------------------------------------------------------
  // Results

  /** The three kinds of failure the source throws. */
  datatype ErrorKind = InvalidNumber | MissingClosingParen | InvalidExpression

  /**
   * What every grammar level returns: the parse tree, the canonical string
   * and the next unread offset; or the kind of failure and the offset of
   * the text the source's message quotes.
   */
  datatype Parse =
    | Parsed(tree: Expr, canon: string, pos: nat)
    | Failed(kind: ErrorKind, at: nat)
}
