/**
 * The canonical rendering can be evaluated again: reading `Render(e)` back
 * builds the same tree with a group around every compound node (the
 * parentheses the rendering wrote), and so the same value. Hence
 * evaluating the canonical string of a successful evaluation gives the
 * same value, consuming the whole string.
 */
module Canonical {
  import opened Scanner
  import opened Syntax
  import opened Literal
  import opened Grammar
  import opened Steps
  import opened Driver

  /** The tree the grammar builds when it reads `Render(e)`. */
  function Reparsed(e: Expr): (r: Expr)
    ensures ValueOf(r) == ValueOf(e)
    ensures IsAtom(r)
  {
    match e
    case Num(_) => e
    case Group(x) =>
      AtomAtEveryLevel(Reparsed(x));
      Group(Reparsed(x))
    case Neg(x) =>
      AtomAtEveryLevel(Reparsed(x));
      assert IsSignedLevel(Neg(Reparsed(x)));
      assert IsMultDivLevel(Neg(Reparsed(x)));
      Group(Neg(Reparsed(x)))
    case Pow(b, x) =>
      AtomAtEveryLevel(Reparsed(x));
      assert IsExponentLevel(Pow(Reparsed(b), Reparsed(x)));
      assert IsSignedLevel(Pow(Reparsed(b), Reparsed(x)));
      assert IsMultDivLevel(Pow(Reparsed(b), Reparsed(x)));
      Group(Pow(Reparsed(b), Reparsed(x)))
    case Bin(op, l, r) =>
      AtomAtEveryLevel(Reparsed(l));
      AtomAtEveryLevel(Reparsed(r));
      assert IsMultDivLevel(Bin(op, Reparsed(l), Reparsed(r))) || IsAddSubLevel(Bin(op, Reparsed(l), Reparsed(r)));
      Group(Bin(op, Reparsed(l), Reparsed(r)))
  }

  lemma AtomAtEveryLevel(e: Expr)
    requires IsAtom(e)
    ensures IsExponentLevel(e) && IsSignedLevel(e) && IsMultDivLevel(e) && IsAddSubLevel(e)
  {
  }

  // ---------------------------------------------------------------------
  // Text written at a position of the input

  predicate Occurs(s: string, i: nat, w: string) {
    i + |w| <= |s| && forall k :: 0 <= k < |w| ==> w[k] == s[i + k]
  }

  lemma OccursSplit(s: string, i: nat, u: string, v: string)
    requires Occurs(s, i, u + v)
    ensures Occurs(s, i, u) && Occurs(s, i + |u|, v)
  {
    forall k | 0 <= k < |u| ensures u[k] == s[i + k] {
      assert (u + v)[k] == u[k];
    }
    forall k | 0 <= k < |v| ensures v[k] == s[i + |u| + k] {
      assert (u + v)[|u| + k] == v[k];
    }
  }

  lemma OccursAt(s: string, i: nat, w: string, k: nat)
    requires Occurs(s, i, w) && k < |w|
    ensures s[i + k] == w[k]
  {
  }

  /** A character that may begin a rendering: `(`, a digit or a point. */
  predicate OpensOperand(c: char) {
    c == '(' || IsDigit(c) || c == '.'
  }

  lemma RenderOpens(e: Expr)
    requires WellFormed(e)
    ensures |Render(e)| > 0 && OpensOperand(Render(e)[0])
  {
    match e
    case Num(l) =>
      if !(|l| > 0 && ValidIntegerPart(l)) {
        var k :| 0 <= k < |l| && l[k] == '.' && ValidIntegerPart(l[..k]) && IsDigitRun(l[k + 1..]) && |l| > 1;
        if k > 0 {
          assert l[..k][0] == l[0];
        }
      }
    case Group(x) =>
    case Neg(x) =>
    case Pow(b, x) =>
    case Bin(op, l, r) =>
  }

  /** The input cannot extend a rendering that ends just before `p`. */
  predicate Boundary(s: string, p: nat)
    requires p <= |s|
  {
    p == |s| || (!IsDigit(s[p]) && s[p] != '.')
  }

  /** A rendering starts where white-space skipping stops, and not with a minus. */
  lemma RenderStartsAt(s: string, i: nat, e: Expr)
    requires WellFormed(e) && Occurs(s, i, Render(e))
    ensures i < |s| && OpensOperand(s[i])
    ensures ConsumeWhitespace(s, i) == i && !IsAt(s, i, '-') && !IsAt(s, i, '(') == e.Num?
  {
    RenderOpens(e);
    OccursAt(s, i, Render(e), 0);
    ScanEndUnique(s, i, Whitespace, i);
  }

  // ---------------------------------------------------------------------
  // Where the pieces of a rendering sit in the input

  lemma GroupLayout(s: string, i: nat, x: Expr)
    requires Occurs(s, i, Render(Group(x)))
    ensures IsAt(s, i, '(') && Occurs(s, i + 1, Render(x)) && IsAt(s, i + 1 + |Render(x)|, ')')
    ensures |Render(Group(x))| == |Render(x)| + 2
  {
    var rx := Render(x);
    OccursSplit(s, i, "(" + rx, ")");
    OccursSplit(s, i, "(", rx);
    OccursAt(s, i, "(", 0);
    OccursAt(s, i + 1 + |rx|, ")", 0);
  }

  lemma NegLayout(s: string, i: nat, x: Expr)
    requires Occurs(s, i, Render(Neg(x)))
    ensures IsAt(s, i, '(') && IsAt(s, i + 1, '-') && Occurs(s, i + 2, Render(x))
    ensures IsAt(s, i + 2 + |Render(x)|, ')')
    ensures |Render(Neg(x))| == |Render(x)| + 3
  {
    var rx := Render(x);
    OccursSplit(s, i, "(-" + rx, ")");
    OccursSplit(s, i, "(-", rx);
    OccursAt(s, i, "(-", 0);
    OccursAt(s, i, "(-", 1);
    OccursAt(s, i + 2 + |rx|, ")", 0);
  }

  /** `(B c X)`: the opening parenthesis, B, a space, `c`, a space, X, the closing one. */
  lemma InfixLayout(s: string, i: nat, rb: string, c: char, rx: string)
    requires Occurs(s, i, "(" + rb + " " + [c] + " " + rx + ")")
    ensures IsAt(s, i, '(') && Occurs(s, i + 1, rb)
    ensures IsAt(s, i + 1 + |rb|, ' ') && IsAt(s, i + 2 + |rb|, c) && IsAt(s, i + 3 + |rb|, ' ')
    ensures Occurs(s, i + 4 + |rb|, rx) && IsAt(s, i + 4 + |rb| + |rx|, ')')
  {
    var h := "(" + rb + " " + [c] + " ";
    OccursSplit(s, i, h + rx, ")");
    OccursSplit(s, i, h, rx);
    OccursAt(s, i + |h| + |rx|, ")", 0);
    InfixHead(s, i, rb, c);
  }

  lemma InfixHead(s: string, i: nat, rb: string, c: char)
    requires Occurs(s, i, "(" + rb + " " + [c] + " ")
    ensures IsAt(s, i, '(') && Occurs(s, i + 1, rb)
    ensures IsAt(s, i + 1 + |rb|, ' ') && IsAt(s, i + 2 + |rb|, c) && IsAt(s, i + 3 + |rb|, ' ')
  {
    var q := i + 1 + |rb|;
    OccursSplit(s, i, "(" + rb + " " + [c], " ");
    OccursSplit(s, i, "(" + rb + " ", [c]);
    OccursSplit(s, i, "(" + rb, " ");
    OccursSplit(s, i, "(", rb);
    OccursAt(s, i, "(", 0);
    OccursAt(s, q, " ", 0);
    OccursAt(s, q + 1, [c], 0);
    OccursAt(s, q + 2, " ", 0);
  }

  /** `(B ^ X)`, as text, with the space before `^` at `q` and the `)` at `z`. */
  lemma PowText(s: string, i: nat, q: nat, z: nat, rb: string, rx: string)
    requires Occurs(s, i, "(" + rb + " ^ " + rx + ")")
    requires q == i + 1 + |rb| && z == q + 3 + |rx|
    ensures IsAt(s, i, '(') && Occurs(s, i + 1, rb)
    ensures IsAt(s, q, ' ') && IsAt(s, q + 1, '^') && IsAt(s, q + 2, ' ')
    ensures Occurs(s, q + 3, rx) && IsAt(s, z, ')')
  {
    var h := "(" + rb + " ^ ";
    OccursSplit(s, i, h + rx, ")");
    OccursSplit(s, i, h, rx);
    OccursAt(s, z, ")", 0);
    PowHead(s, i, rb);
  }

  lemma PowHead(s: string, i: nat, rb: string)
    requires Occurs(s, i, "(" + rb + " ^ ")
    ensures IsAt(s, i, '(') && Occurs(s, i + 1, rb)
    ensures IsAt(s, i + 1 + |rb|, ' ') && IsAt(s, i + 2 + |rb|, '^') && IsAt(s, i + 3 + |rb|, ' ')
  {
    var q := i + 1 + |rb|;
    OccursSplit(s, i, "(" + rb, " ^ ");
    OccursSplit(s, i, "(", rb);
    OccursAt(s, i, "(", 0);
    OccursAt(s, q, " ^ ", 0);
    OccursAt(s, q, " ^ ", 1);
    OccursAt(s, q, " ^ ", 2);
  }

  lemma PowLayout(s: string, i: nat, q: nat, z: nat, b: Expr, x: Expr)
    requires Occurs(s, i, Render(Pow(b, x)))
    requires q == i + 1 + |Render(b)| && z == q + 3 + |Render(x)|
    ensures IsAt(s, i, '(') && Occurs(s, i + 1, Render(b))
    ensures IsAt(s, q, ' ') && IsAt(s, q + 1, '^') && IsAt(s, q + 2, ' ')
    ensures Occurs(s, q + 3, Render(x)) && IsAt(s, z, ')')
    ensures z + 1 == i + |Render(Pow(b, x))|
  {
    PowText(s, i, q, z, Render(b), Render(x));
  }

  lemma BinLayout(s: string, i: nat, q: nat, z: nat, op: Op, l: Expr, r: Expr)
    requires Occurs(s, i, Render(Bin(op, l, r)))
    requires q == i + 1 + |Render(l)| && z == q + 3 + |Render(r)|
    ensures IsAt(s, i, '(') && Occurs(s, i + 1, Render(l))
    ensures IsAt(s, q, ' ') && IsAt(s, q + 1, Symbol(op)) && IsAt(s, q + 2, ' ')
    ensures Occurs(s, q + 3, Render(r)) && IsAt(s, z, ')')
    ensures z + 1 == i + |Render(Bin(op, l, r))|
  {
    InfixLayout(s, i, Render(l), Symbol(op), Render(r));
  }

  /** The regrouping of a power and of an infix expression, one level down. */
  lemma ReparsedPow(b: Expr, x: Expr)
    ensures Reparsed(Pow(b, x)) == Group(Pow(Reparsed(b), Reparsed(x)))
  {
  }

  lemma ReparsedBin(op: Op, l: Expr, r: Expr)
    ensures Reparsed(Bin(op, l, r)) == Group(Bin(op, Reparsed(l), Reparsed(r)))
  {
  }

  // ---------------------------------------------------------------------
  // Each kind of group, once its parts have been read back

  /**
   * `r` is a success with tree `t` that stops at `p`. Its canonical string
   * is then the rendering of `t`, as every level guarantees.
   */
  predicate Yields(r: Parse, t: Expr, p: nat) {
    r.Parsed? && r.tree == t && r.pos == p
  }

  /** `(-X)` at `i` with the `)` at `z`, where X reads back as `t`. */
  lemma NegGroupAt(s: string, i: nat, z: nat, t: Expr)
    requires i + 2 < z < |s|
    requires IsAt(s, i, '(') && IsAt(s, i + 1, '-') && IsAt(s, z, ')')
    requires ConsumeWhitespace(s, i + 2) == i + 2
    requires Yields(ExponentExpr(s, i + 2), t, z)
    ensures Yields(ParenExpr(s, i), Group(Neg(t)), ConsumeWhitespace(s, z + 1))
  {
    var c := ExponentExpr(s, i + 2).canon;
    ClosesAt(s, z);
    ScanEndUnique(s, i + 1, Whitespace, i + 1);
    NegatedAt(s, i + 1, t, c, z);
    GroupOfSigned(s, i, Neg(t), "(-" + c + ")", z);
  }

  /** `(B ^ X)` at `i`, the space before `^` at `q`, the `)` at `z`; B reads back as `tb`, X as `tx`. */
  lemma PowGroupAt(s: string, i: nat, q: nat, z: nat, tb: Expr, tx: Expr)
    requires i < q && q + 3 < z < |s|
    requires IsAt(s, i, '(') && IsAt(s, q, ' ') && IsAt(s, q + 1, '^') && IsAt(s, q + 2, ' ') && IsAt(s, z, ')')
    requires ConsumeWhitespace(s, i + 1) == i + 1 && !IsAt(s, i + 1, '-')
    requires Yields(ParenExpr(s, i + 1), tb, ConsumeWhitespace(s, q))
    requires ConsumeWhitespace(s, q + 3) == q + 3 && !IsAt(s, q + 3, '-')
    requires Yields(ExponentExpr(s, q + 3), tx, z)
    ensures Yields(ParenExpr(s, i), Group(Pow(tb, tx)), ConsumeWhitespace(s, z + 1))
  {
    var cb := ParenExpr(s, i + 1).canon;
    var cx := ExponentExpr(s, q + 3).canon;
    PowerAfterSpaceAt(s, i + 1, q, z, tb, cb, tx, cx);
    GroupOfExponent(s, i, Pow(tb, tx), "(" + cb + " ^ " + cx + ")", z);
  }

  /** B at `a`, then ` ^ ` at `q` and X up to `z`: a power. */
  lemma PowerAfterSpaceAt(s: string, a: nat, q: nat, z: nat, tb: Expr, cb: string, tx: Expr, cx: string)
    requires a <= q && q + 3 <= z <= |s|
    requires IsAt(s, q, ' ') && IsAt(s, q + 1, '^') && IsAt(s, q + 2, ' ')
    requires ConsumeWhitespace(s, a) == a
    requires ParenExpr(s, a) == Parsed(tb, cb, ConsumeWhitespace(s, q))
    requires ConsumeWhitespace(s, q + 3) == q + 3 && !IsAt(s, q + 3, '-')
    requires ExponentExpr(s, q + 3) == Parsed(tx, cx, z)
    ensures ExponentExpr(s, a) == Parsed(Pow(tb, tx), "(" + cb + " ^ " + cx + ")", z)
  {
    SkipOneSpace(s, q);
    OperandAfterSpace(s, q + 2, tx, cx, z);
    PowerAt(s, a, tb, cb, q + 1, tx, cx, z);
  }

  /** `(L c R)` at `i`, the space before `c` at `q`, the `)` at `z`; L reads back as `tl`, R as `tr`. */
  lemma BinGroupAt(s: string, i: nat, q: nat, z: nat, op: Op, tl: Expr, tr: Expr)
    requires i < q && q + 3 < z < |s|
    requires IsAt(s, i, '(') && IsAt(s, q, ' ') && IsAt(s, q + 1, Symbol(op)) && IsAt(s, q + 2, ' ') && IsAt(s, z, ')')
    requires ConsumeWhitespace(s, i + 1) == i + 1 && !IsAt(s, i + 1, '-')
    requires Yields(ParenExpr(s, i + 1), tl, ConsumeWhitespace(s, q))
    requires ConsumeWhitespace(s, q + 3) == q + 3 && !IsAt(s, q + 3, '-')
    requires Yields(ExponentExpr(s, q + 3), tr, z)
    ensures Yields(ParenExpr(s, i), Group(Bin(op, tl, tr)), ConsumeWhitespace(s, z + 1))
  {
    if op == Add || op == Sub {
      SumOperandsAt(s, i, q, z, op, tl, tr);
    } else {
      ProductOperandsAt(s, i, q, z, op, tl, tr);
    }
  }

  lemma SumOperandsAt(s: string, i: nat, q: nat, z: nat, op: Op, tl: Expr, tr: Expr)
    requires i < q && q + 3 < z < |s| && (op == Add || op == Sub)
    requires IsAt(s, i, '(') && IsAt(s, q, ' ') && IsAt(s, q + 1, Symbol(op)) && IsAt(s, q + 2, ' ') && IsAt(s, z, ')')
    requires ConsumeWhitespace(s, i + 1) == i + 1 && !IsAt(s, i + 1, '-')
    requires Yields(ParenExpr(s, i + 1), tl, ConsumeWhitespace(s, q))
    requires ConsumeWhitespace(s, q + 3) == q + 3 && !IsAt(s, q + 3, '-')
    requires Yields(ExponentExpr(s, q + 3), tr, z)
    ensures Yields(ParenExpr(s, i), Group(Bin(op, tl, tr)), ConsumeWhitespace(s, z + 1))
  {
    var cl := ParenExpr(s, i + 1).canon;
    var cr := ExponentExpr(s, q + 3).canon;
    LeftOperandAt(s, i + 1, tl, cl, q, op);
    OperandAfterSpace(s, q + 2, tr, cr, z);
    SumGroupAt(s, i, q, z, op, tl, cl, tr, cr);
  }

  lemma ProductOperandsAt(s: string, i: nat, q: nat, z: nat, op: Op, tl: Expr, tr: Expr)
    requires i < q && q + 3 < z < |s| && (op == Mul || op == Div)
    requires IsAt(s, i, '(') && IsAt(s, q, ' ') && IsAt(s, q + 1, Symbol(op)) && IsAt(s, q + 2, ' ') && IsAt(s, z, ')')
    requires ConsumeWhitespace(s, i + 1) == i + 1 && !IsAt(s, i + 1, '-')
    requires Yields(ParenExpr(s, i + 1), tl, ConsumeWhitespace(s, q))
    requires ConsumeWhitespace(s, q + 3) == q + 3 && !IsAt(s, q + 3, '-')
    requires Yields(ExponentExpr(s, q + 3), tr, z)
    ensures Yields(ParenExpr(s, i), Group(Bin(op, tl, tr)), ConsumeWhitespace(s, z + 1))
  {
    var cl := ParenExpr(s, i + 1).canon;
    var cr := ExponentExpr(s, q + 3).canon;
    LeftOperandAt(s, i + 1, tl, cl, q, op);
    OperandAfterSpace(s, q + 2, tr, cr, z);
    ProductGroupAt(s, i, q, z, op, tl, cl, tr, cr);
  }

  lemma SumGroupAt(s: string, i: nat, q: nat, z: nat, op: Op, tl: Expr, cl: string, tr: Expr, cr: string)
    requires i < q && q + 2 < z < |s| && (op == Add || op == Sub)
    requires IsAt(s, i, '(') && IsAt(s, q + 1, Symbol(op)) && IsAt(s, z, ')')
    requires ConsumeWhitespace(s, i + 1) == i + 1
    requires MultDivExpr(s, i + 1) == Parsed(tl, cl, q + 1)
    requires SignedExpr(s, q + 2) == Parsed(tr, cr, z)
    ensures Yields(ParenExpr(s, i), Group(Bin(op, tl, tr)), ConsumeWhitespace(s, z + 1))
  {
    ClosesAt(s, z);
    MultDivOfSignedAt(s, q + 2, tr, cr, z);
    SumAt(s, i + 1, op, tl, cl, q + 1, tr, cr, z);
    GroupedAt(s, i, Bin(op, tl, tr), "(" + cl + " " + [Symbol(op)] + " " + cr + ")", z);
  }

  lemma ProductGroupAt(s: string, i: nat, q: nat, z: nat, op: Op, tl: Expr, cl: string, tr: Expr, cr: string)
    requires i < q && q + 2 < z < |s| && (op == Mul || op == Div)
    requires IsAt(s, i, '(') && IsAt(s, q + 1, Symbol(op)) && IsAt(s, z, ')')
    requires ConsumeWhitespace(s, i + 1) == i + 1
    requires SignedExpr(s, i + 1) == Parsed(tl, cl, q + 1)
    requires SignedExpr(s, q + 2) == Parsed(tr, cr, z)
    ensures Yields(ParenExpr(s, i), Group(Bin(op, tl, tr)), ConsumeWhitespace(s, z + 1))
  {
    ClosesAt(s, z);
    ProductAt(s, i + 1, op, tl, cl, q + 1, tr, cr, z);
    GroupOfMultDiv(s, i, Bin(op, tl, tr), "(" + cl + " " + [Symbol(op)] + " " + cr + ")", z);
  }

  // ---------------------------------------------------------------------
  // Reading a rendering back, by induction on the tree

  /**
   * A well-formed tree rendered at `i`, that the input does not extend, is
   * read back by the atom level as its regrouped tree, up to the next
   * non-blank character.
   */
  lemma {:induction false} ReadBack(s: string, i: nat, e: Expr)
    requires WellFormed(e) && Occurs(s, i, Render(e))
    requires Boundary(s, i + |Render(e)|)
    ensures Yields(ParenExpr(s, i), Reparsed(e), ConsumeWhitespace(s, i + |Render(e)|))
    decreases e, 2
  {
    RenderStartsAt(s, i, e);
    match e
    case Num(l) =>
      UnsignedNumberAccepts(s, i, l);
    case Group(x) =>
      ReadBackGroup(s, i, x);
    case Neg(x) =>
      ReadBackNeg(s, i, x);
    case Pow(b, x) =>
      ReadBackPow(s, i, b, x);
    case Bin(op, l, r) =>
      ReadBackBin(s, i, op, l, r);
  }

  /** An operand rendered at `i` and closed by the `)` at `z` is a whole exponent expression. */
  lemma {:induction false} ReadBackOperand(s: string, i: nat, e: Expr, z: nat)
    requires WellFormed(e) && Occurs(s, i, Render(e)) && z == i + |Render(e)| && IsAt(s, z, ')')
    ensures Yields(ExponentExpr(s, i), Reparsed(e), z)
    ensures ConsumeWhitespace(s, i) == i && !IsAt(s, i, '-')
    decreases e, 3
  {
    RenderStartsAt(s, i, e);
    ClosesAt(s, z);
    ReadBack(s, i, e);
    ExponentOfAtom(s, i);
  }

  /** The left operand of an infix group, rendered after the `(` at `i` and followed by the space at `q`. */
  lemma {:induction false} ReadBackLeft(s: string, i: nat, q: nat, e: Expr)
    requires WellFormed(e) && Occurs(s, i + 1, Render(e)) && q == i + 1 + |Render(e)| && IsAt(s, q, ' ')
    ensures ConsumeWhitespace(s, i + 1) == i + 1 && !IsAt(s, i + 1, '-')
    ensures Yields(ParenExpr(s, i + 1), Reparsed(e), ConsumeWhitespace(s, q))
    decreases e, 3
  {
    RenderStartsAt(s, i + 1, e);
    ReadBack(s, i + 1, e);
  }

  lemma {:induction false} ReadBackGroup(s: string, i: nat, x: Expr)
    requires WellFormed(x) && Occurs(s, i, Render(Group(x)))
    ensures Yields(ParenExpr(s, i), Reparsed(Group(x)), ConsumeWhitespace(s, i + |Render(Group(x))|))
    decreases Group(x), 1
  {
    var z := i + 1 + |Render(x)|;
    GroupLayout(s, i, x);
    ReadBackOperand(s, i + 1, x, z);
    GroupOfExponent(s, i, Reparsed(x), ExponentExpr(s, i + 1).canon, z);
  }

  lemma {:induction false} ReadBackNeg(s: string, i: nat, x: Expr)
    requires WellFormed(x) && Occurs(s, i, Render(Neg(x)))
    ensures Yields(ParenExpr(s, i), Reparsed(Neg(x)), ConsumeWhitespace(s, i + |Render(Neg(x))|))
    decreases Neg(x), 1
  {
    var z := i + 2 + |Render(x)|;
    NegLayout(s, i, x);
    ReadBackOperand(s, i + 2, x, z);
    NegGroupAt(s, i, z, Reparsed(x));
  }

  lemma {:induction false} ReadBackPow(s: string, i: nat, b: Expr, x: Expr)
    requires WellFormed(b) && WellFormed(x) && Occurs(s, i, Render(Pow(b, x)))
    ensures Yields(ParenExpr(s, i), Reparsed(Pow(b, x)), ConsumeWhitespace(s, i + |Render(Pow(b, x))|))
    decreases Pow(b, x), 1
  {
    var q := i + 1 + |Render(b)|;
    var z := q + 3 + |Render(x)|;
    PowLayout(s, i, q, z, b, x);
    ReadBackPowParts(s, i, q, z, b, x);
    ReparsedPow(b, x);
  }

  lemma {:induction false} ReadBackPowParts(s: string, i: nat, q: nat, z: nat, b: Expr, x: Expr)
    requires WellFormed(b) && WellFormed(x)
    requires q == i + 1 + |Render(b)| && z == q + 3 + |Render(x)|
    requires IsAt(s, i, '(') && Occurs(s, i + 1, Render(b))
    requires IsAt(s, q, ' ') && IsAt(s, q + 1, '^') && IsAt(s, q + 2, ' ')
    requires Occurs(s, q + 3, Render(x)) && IsAt(s, z, ')')
    ensures Yields(ParenExpr(s, i), Group(Pow(Reparsed(b), Reparsed(x))), ConsumeWhitespace(s, z + 1))
    decreases Pow(b, x), 0
  {
    ReadBackLeft(s, i, q, b);
    ReadBackOperand(s, q + 3, x, z);
    PowGroupAt(s, i, q, z, Reparsed(b), Reparsed(x));
  }

  lemma {:induction false} ReadBackBin(s: string, i: nat, op: Op, l: Expr, r: Expr)
    requires WellFormed(l) && WellFormed(r) && Occurs(s, i, Render(Bin(op, l, r)))
    ensures Yields(ParenExpr(s, i), Reparsed(Bin(op, l, r)), ConsumeWhitespace(s, i + |Render(Bin(op, l, r))|))
    decreases Bin(op, l, r), 1
  {
    var q := i + 1 + |Render(l)|;
    var z := q + 3 + |Render(r)|;
    BinLayout(s, i, q, z, op, l, r);
    ReadBackBinParts(s, i, q, z, op, l, r);
    ReparsedBin(op, l, r);
  }

  lemma {:induction false} ReadBackBinParts(s: string, i: nat, q: nat, z: nat, op: Op, l: Expr, r: Expr)
    requires WellFormed(l) && WellFormed(r)
    requires q == i + 1 + |Render(l)| && z == q + 3 + |Render(r)|
    requires IsAt(s, i, '(') && Occurs(s, i + 1, Render(l))
    requires IsAt(s, q, ' ') && IsAt(s, q + 1, Symbol(op)) && IsAt(s, q + 2, ' ')
    requires Occurs(s, q + 3, Render(r)) && IsAt(s, z, ')')
    ensures Yields(ParenExpr(s, i), Group(Bin(op, Reparsed(l), Reparsed(r))), ConsumeWhitespace(s, z + 1))
    decreases Bin(op, l, r), 0
  {
    ReadBackLeft(s, i, q, l);
    ReadBackOperand(s, q + 3, r, z);
    BinGroupAt(s, i, q, z, op, Reparsed(l), Reparsed(r));
  }

  // ---------------------------------------------------------------------
  // Evaluating the canonical string again

  /** A rendering on its own is read back whole, at the top of the grammar. */
  lemma ReadBackWhole(e: Expr)
    requires WellFormed(e)
    ensures Yields(AddSubExpr(Render(e), 0), Reparsed(e), |Render(e)|)
  {
    var w := Render(e);
    RenderStartsAt(w, 0, e);
    ReadBack(w, 0, e);
    ScanEndUnique(w, |w|, Whitespace, |w|);
    WholeOfAtom(w, Reparsed(e), ParenExpr(w, 0).canon);
  }

  /** An atom that spans the whole input is the whole expression. */
  lemma WholeOfAtom(s: string, t: Expr, c: string)
    requires ConsumeWhitespace(s, 0) == 0 && !IsAt(s, 0, '-')
    requires ParenExpr(s, 0) == Parsed(t, c, |s|)
    ensures AddSubExpr(s, 0) == Parsed(t, c, |s|)
  {
    AddSubOfAtom(s, 0);
  }

  /**
   * Re-evaluating the canonical string of a successful evaluation yields
   * the same value, consumes the whole string and leaves no trailing text.
   */
  lemma CanonicalReevaluates(s: string)
    requires Evaluate(s).Success?
    ensures Evaluate(Evaluate(s).report.canon).Success?
    ensures Evaluate(Evaluate(s).report.canon).report.value == Evaluate(s).report.value
    ensures Evaluate(Evaluate(s).report.canon).report.consumed == Evaluate(s).report.canon
    ensures Evaluate(Evaluate(s).report.canon).report.trailing.None?
  {
    AddSubBuilds(s, 0);
    var t := AddSubExpr(s, 0).tree;
    ReadBackWhole(t);
    assert Render(t)[..|Render(t)|] == Render(t);
  }
}
