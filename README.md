# calculator.js parser and evaluator, modelled in Dafny

The calculator reads an arithmetic expression typed into a web page and
answers with its value, a fully parenthesised canonical form of the
expression, and a note about any text it could not parse. Its core is a
hand-written recursive-descent parser over the input string and an
integer offset:

- a character-class scanner (`consumeRegexp`, `consumeWhitespace`,
  `consumeDigits`);
- a strict validator for unsigned decimal literals
  (`evaluate_unsigned_number`): no leading zeros, an optional point with
  digits on either side, but not a point alone;
- five mutually recursive grammar levels (parenthesis, exponent, unary
  minus, `*` `/`, `+` `-`), each returning a value, a canonical string and
  the next offset, or throwing;
- the driver `evaluate`, which parses from offset 0 and reports trailing
  text as an advisory.

The model keeps the input as a `string` (`seq<char>`). An offset past the
end stands for JavaScript's out-of-range `charAt`, which matches nothing.
A thrown error becomes `Failed(kind, at)`, whose kind is an invalid number,
a missing closing parenthesis or an invalid expression. The offset `at` is
where the text quoted by the source's message starts. A success is
`Parsed(tree, canon, pos)`. The tree records every operator and every
parenthesis written in the input, and the value is computed from it
symbolically (`ValueOf`): `parseFloat`, `Math.pow` and the double
arithmetic are kept as uninterpreted constructors of `Value`.

Modules:

- `Scanner` — the scan, its loop and its postcondition.
- `Syntax` — trees, values, the rendering, valid literals, and the shape
  each grammar level can build.
- `Literal` — the literal validator and its acceptance/refusal table.
- `Grammar` — the five levels as mutually recursive functions, with the
  operator loops as left folds.
- `Loops` — the two operator loops as `while` loops proved equal to the
  folds.
- `Driver` — `evaluate`.
- `Steps` — single grammar steps at known positions.
- `Canonical` — re-evaluating the canonical string.
- `Examples` — worked inputs for precedence, associativity, trailing text
  and errors.

Main results:

- The scan stops at the first character outside its class, and everything
  before that is in the class.
- The literal validator accepts exactly the valid literals that the input
  does not extend, and refuses everything else at the start of the
  literal.
- Every successful level consumes input and stops at a non-blank character
  or at the end, so the `position == 0` branch of `evaluate` is
  unreachable. Empty or blank input fails as an invalid number.
- Every level's canonical string is the rendering of its tree. The tree
  has the shape of its level:
  - `^` takes an atom on the left and a signed operand on the right, so it
    nests to the right;
  - unary minus wraps a whole exponent expression;
  - `*` and `/` fold to the left over signed operands;
  - `+` and `-` fold to the left over `*`/`/` expressions.
- Evaluating the canonical string of any successful evaluation gives the
  same value, consumes the whole string and leaves no trailing text.

Where the source's comments and its code disagree, the model follows the
code:

- The grammar comment at `calculator.js:5` makes `^` compulsory; the code
  makes it optional.
- The comment at `calculator.js:7` requires a digit before the point; the
  code accepts `.5`.
- The comment at `calculator.js:46` lists the empty string as refused. It
  is refused, but as an invalid number (`calculator.js:68-70`), not by the
  invalid-expression check of `evaluate` (`calculator.js:160-162`), which
  no input reaches.

## Model

| member | source | states |
|---|---|---|
| Scanner.ScanEnd | calculator.js:13-20 | the scan from `i` ends between `i` and the end of the input, and it ends at the end or at a character outside the class |
| Scanner.ScanEndRun | calculator.js:14-18 | every character between the start and the end of the scan is in the class |
| Scanner.ScanEndUnique | calculator.js:14-18 | any end point with an in-class run before it and no in-class character at it is the scan's end |
| Scanner.ScanEndIdempotent | calculator.js:22-24 | scanning again from the end of a scan does not move |
| Scanner.ConsumeRegexp | calculator.js:13-20 | the `for` loop returns the end of the run and the run itself, `s[i..position]` |
| Scanner.ConsumeWhitespace | calculator.js:22-24 | skipping white space from `i` ends between `i` and the end of the input, at the end or at a non-blank character |
| Scanner.ConsumeDigits | calculator.js:26-28 | scanning digits from `i` ends between `i` and the end of the input, at the end or at a character that is not a digit |
| Scanner.ConsumeWhitespaceStops | calculator.js:22-24 | skipping white space ends at the end of the input or at a non-blank character, and does not move from such a position |
| Syntax.ValueOf | calculator.js:72-149 | the value the source computes: `parseFloat` of each literal, negation, `Math.pow` and the four operations, applied as the tree nests them, with parentheses computing nothing |
| Syntax.ValueOfUngrouped | calculator.js:82-88 | the parentheses written in the input change only the canonical string: removing every group leaves the value unchanged |
| Literal.UnsignedNumber | calculator.js:47-75 | a failure is an invalid number at the first non-blank offset; a success is a non-empty literal starting there, whose tree is that literal and whose next offset is after the literal and the blanks that follow it |
| Literal.UnsignedNumberLiteral | calculator.js:48-74 | what is accepted is a valid literal (no leading zero, at most one point, at least one digit), written where it starts, and the input does not extend it with a digit or a second point |
| Literal.ScannedLiteral | calculator.js:49-71 | the text between the digit scans, with the leading-zero and bare-point checks passed, is a valid literal that the input does not extend |
| Literal.ScannedDigits | calculator.js:26-28 | a prefix of a digit scan is made of digits |
| Literal.UnsignedNumberAccepts | calculator.js:47-75 | conversely, every valid literal written at the first non-blank offset, that the input does not extend, is accepted as exactly that literal |
| Literal.AcceptsFraction | calculator.js:55-66 | a valid literal with a point is accepted |
| Literal.AcceptsInteger | calculator.js:49-53 | a digit run with no point after it and no leading zero is accepted as that run |
| Literal.AcceptsDecimal | calculator.js:55-71 | digits, a point and more digits, with no leading zero and not a point alone, are accepted as that text |
| Literal.AcceptsWithoutPoint | calculator.js:49-55 | a valid literal without a point is exactly what the digit scan finds, and no point follows it |
| Literal.AcceptsWithPoint | calculator.js:49-56 | for a valid literal with a point, the first digit scan stops at the point and the second at the end of the literal |
| Literal.AcceptedIntegers | calculator.js:33-38 | `0`, `1` and `0.` are accepted whole |
| Literal.AcceptedFractions | calculator.js:35-39 | `.0` and `1.2` are accepted whole |
| Literal.AcceptedZeroFractions | calculator.js:36-37 | `.0000` and `0.0000` are accepted whole |
| Literal.RefusedLeadingZeros | calculator.js:42-45 | `00`, `01`, `01.` and `01.0` are refused as invalid numbers at their start |
| Literal.RefusedEmpty | calculator.js:41-46 | `.`, the empty string and a blank string are refused as invalid numbers |
| Grammar.ParenExpr | calculator.js:77-89 | a success consumes input and stops at a non-blank character or the end; a failure lies at or after the start; a missing closing parenthesis points at its `(` (the converse, that an unclosed `(` fails that way, is Steps.UnclosedAt) |
| Grammar.ExponentExpr | calculator.js:91-102 | the same guarantees for the exponent level |
| Grammar.SignedExpr | calculator.js:104-117 | the same guarantees for the unary-minus level |
| Grammar.MultDivExpr | calculator.js:119-136 | the same guarantees for the `*` `/` level |
| Grammar.MultDivFold | calculator.js:123-134 | each turn of the `*` `/` loop keeps the result within the input, never moves back, and fails only after the operator |
| Grammar.AddSubExpr | calculator.js:138-155 | the same guarantees for the `+` `-` level |
| Grammar.AddSubFold | calculator.js:142-153 | each turn of the `+` `-` loop keeps the result within the input, never moves back, and fails only after the operator |
| Grammar.ParenBuilds | calculator.js:77-89 | the parenthesis level's canonical string renders its tree, its literals are valid, and the tree is a literal or a parenthesised add/sub expression |
| Grammar.ExponentBuilds | calculator.js:91-102 | the exponent level builds an atom, or a power of an atom to a signed operand, so `^` nests to the right |
| Grammar.SignedBuilds | calculator.js:104-117 | the unary-minus level builds an exponent expression, or a negation of a whole exponent expression |
| Grammar.MultDivBuilds | calculator.js:119-136 | the `*` `/` level builds a left-nested chain of signed operands |
| Grammar.MultDivFoldBuilds | calculator.js:123-134 | each turn of the `*` `/` loop puts the running result on the left of the new node |
| Grammar.AddSubBuilds | calculator.js:138-155 | the `+` `-` level builds a left-nested chain of `*` `/` expressions |
| Grammar.AddSubFoldBuilds | calculator.js:142-153 | each turn of the `+` `-` loop puts the running result on the left of the new node |
| Grammar.ParenSkips | calculator.js:78 | starting the parenthesis level before or after leading white space gives the same result |
| Grammar.ExponentSkips | calculator.js:92 | the same for the exponent level |
| Grammar.SignedSkips | calculator.js:105 | the same for the unary-minus level |
| Grammar.MultDivSkips | calculator.js:120 | the same for the `*` `/` level |
| Grammar.ExponentOfAtom | calculator.js:93-101 | an atom with no `^` after it is the whole exponent expression |
| Grammar.SignedOfExponent | calculator.js:105-116 | without a leading `-`, the unary-minus level returns the exponent level's result |
| Grammar.MultDivOfSigned | calculator.js:120-135 | a signed operand with no `*` or `/` after it is the whole `*` `/` expression |
| Grammar.AddSubOfMultDiv | calculator.js:139-154 | a `*` `/` expression with no `+` or `-` after it is the whole `+` `-` expression |
| Grammar.AddSubOfAtom | calculator.js:77-155 | an atom with no operator after it and no leading minus is the whole expression |
| Loops.EvaluateMultDiv | calculator.js:119-136 | the `while` loop over `*` and `/` computes exactly the mult/div level |
| Loops.EvaluateAddSub | calculator.js:138-155 | the `while` loop over `+` and `-` computes exactly the add/sub level |
| Driver.Evaluate | calculator.js:157-167 | the outcome fails exactly when the top-level parse fails, with its kind and offset, and never as the unreachable invalid-expression case; a success reports the parse's value and the rendering of its tree, consumes the non-empty prefix up to where the parse stopped, and reports trailing text exactly when that is before the end of the input; the prefix and the trailing text make up the input, and the trailing text starts with a non-blank character |
| Steps.SkipOneSpace | calculator.js:22-24 | one space before a non-blank character is skipped |
| Steps.ClosesAt | calculator.js:83 | a `)` is neither white space nor an operator |
| Steps.GroupedAt | calculator.js:79-88 | `(`, an expression, then `)`: a group whose canonical string is the inner one in parentheses, ending after the `)` and the blanks after it |
| Steps.UnclosedAt | calculator.js:79-85 | after a `(` whose inner expression parses, the parenthesis level fails exactly when no `)` follows, and then as a missing closing parenthesis at the `(` |
| Steps.GroupOfMultDiv | calculator.js:82-88 | the same when the inner expression is a `*` `/` expression closed by `)` |
| Steps.MultDivOfSignedAt | calculator.js:121-135 | a signed operand closed by `)` is the whole `*` `/` expression |
| Steps.GroupOfSigned | calculator.js:82-88 | `(`, a signed operand, then `)`: a group |
| Steps.GroupOfExponent | calculator.js:82-88 | `(`, an exponent expression not after a minus, then `)`: a group |
| Steps.NegatedAt | calculator.js:106-115 | `-` then an exponent expression gives its negation, with canonical string `(-X)` |
| Steps.PowerAt | calculator.js:93-99 | an atom, `^`, then a signed operand gives the power, with canonical string `(B ^ X)` |
| Steps.ProductAt | calculator.js:121-135 | two signed operands around `*` or `/` give the product or quotient, with canonical string `(L op R)` |
| Steps.SumAt | calculator.js:140-154 | two `*` `/` expressions around `+` or `-` give the sum or difference, with canonical string `(L op R)` |
| Steps.OperandAfterSpace | calculator.js:105-110 | after a space, an exponent expression not after a minus is the signed operand |
| Steps.LeftOperandAt | calculator.js:93-122 | an atom followed by a space and an operator is the first operand of the signed level and, for `+` `-`, of the mult/div level |
| Canonical.Reparsed | calculator.js:87-151 | reading a rendering back yields a tree with the same value that is an atom (every compound node inside a group) |
| Canonical.NegGroupAt | calculator.js:82-115 | `(-X)` reads back as a group around the negation of X |
| Canonical.PowGroupAt | calculator.js:82-99 | `(B ^ X)` reads back as a group around the power |
| Canonical.PowerAfterSpaceAt | calculator.js:93-99 | an atom, ` ^ `, then an exponent expression gives the power |
| Canonical.BinGroupAt | calculator.js:82-152 | `(L op R)` reads back as a group around the operation |
| Canonical.SumOperandsAt | calculator.js:140-152 | the `+` `-` case of `(L op R)` |
| Canonical.ProductOperandsAt | calculator.js:121-133 | the `*` `/` case of `(L op R)` |
| Canonical.SumGroupAt | calculator.js:82-88 | a parenthesised sum or difference reads back as a group |
| Canonical.ProductGroupAt | calculator.js:82-88 | a parenthesised product or quotient reads back as a group |
| Canonical.ReadBack | calculator.js:77-89 | the rendering of any well-formed tree, written in the input and not extended by it, is read back by the parenthesis level as the regrouped tree, up to the next non-blank character |
| Canonical.ReadBackOperand | calculator.js:91-102 | a rendering closed by `)` is a whole exponent expression |
| Canonical.ReadBackLeft | calculator.js:77-89 | the left operand of an infix rendering reads back up to the space before the operator |
| Canonical.ReadBackGroup | calculator.js:79-88 | a rendered group reads back as a group |
| Canonical.ReadBackNeg | calculator.js:104-117 | a rendered negation reads back as a group around the negation |
| Canonical.ReadBackPow | calculator.js:91-102 | a rendered power reads back as a group around the power |
| Canonical.ReadBackPowParts | calculator.js:93-99 | the same, from the layout of `(B ^ X)` |
| Canonical.ReadBackBin | calculator.js:119-155 | a rendered binary operation reads back as a group around the operation |
| Canonical.ReadBackBinParts | calculator.js:123-153 | the same, from the layout of `(L op R)` |
| Canonical.ReadBackWhole | calculator.js:138-155 | the rendering of a well-formed tree, on its own, is read back whole by the top level |
| Canonical.WholeOfAtom | calculator.js:138-155 | an atom spanning the whole input is the whole expression |
| Canonical.CanonicalReevaluates | calculator.js:157-168 | evaluating the canonical string of a successful evaluation succeeds with the same value, consumes the whole string and reports no trailing text |
| Examples.DigitAt | calculator.js:47-75 | a single digit not extended by the input is a literal |
| Examples.PowerNestsRight | calculator.js:93-99 | `2^3^2` evaluates to `2^(3^2)` and renders `(2 ^ (3 ^ 2))` |
| Examples.PowerNestsRightParse | calculator.js:91-117 | any `d^d^d` parses as the first digit to the power of the other two |
| Examples.MinusWrapsPower | calculator.js:106-115 | `-2^2` evaluates to `-(2^2)` and renders `(-(2 ^ 2))` |
| Examples.MinusWrapsPowerParse | calculator.js:104-117 | any `-d^d` parses as the negation of the power |
| Examples.ProductBindsTighter | calculator.js:119-155 | `2+3*4` evaluates to `2+(3*4)` and renders `(2 + (3 * 4))` |
| Examples.ProductBindsTighterParse | calculator.js:119-155 | any `d+d*d` parses with the product as the right operand of the sum |
| Examples.DifferenceFoldsLeft | calculator.js:142-153 | `1-2-3` evaluates to `(1-2)-3` and renders `((1 - 2) - 3)` |
| Examples.DifferenceFoldsLeftParse | calculator.js:142-153 | any `d-d-d` parses as the left-nested difference |
| Examples.TrailingTextReported | calculator.js:163-167 | `1 x` succeeds with value 1, consumes `1 ` and reports the trailing `x` |
| Examples.UnclosedGroupRefused | calculator.js:83-85 | `(1` fails with a missing closing parenthesis at its `(` |
| Examples.EmptyInputRefused | calculator.js:68-70 | the empty and the blank input fail as invalid numbers, not as invalid expressions |

## Left out

- Floating point: `parseFloat`, `Math.pow`, the double `+ - * /` (division by zero, NaN, rounding) and the conversion of the value to text are kept symbolic as the `Value` datatype. The model tracks which operations are applied to which literals, not the number they produce.
- The result string of `evaluate`: its line layout, the `encodeURIComponent` call and the HTML anchor (`calculator.js:168-171`) are display formatting and a foreign call. The model returns their ingredients in a `Report`.
- The wording of the thrown messages (`calculator.js:52, 62, 69, 84, 161`): errors are a kind and the offset where the quoted text starts.
- `addEventListener`, `display` and `main` (`calculator.js:176-204`): DOM and event wiring.
- Scanner.IsWhitespace: covers ASCII white space and the common Unicode spaces, not the whole of JavaScript's `/\s/`.
- Call-stack depth: deeply nested input that would overflow the JavaScript stack is parsed by the model.
- In-place updates of the result object inside the parenthesis, exponent and unary-minus levels (`calculator.js:86-87, 94, 97-99, 111-114`): none of these levels updates the result inside a loop, so they are functions returning a new result. The two loops that update it once per operator are methods in `Loops`.
- Insensitivity to inserted white space: the model proves that blanks before the start of a level change nothing (the `*Skips` lemmas), and that the canonical string, which has a blank around each operator, reads back to the same value. It does not prove that inserting blanks between any two tokens of an arbitrary input (after `(`, before `)`, around an operator) leaves the tree and the canonical string unchanged; that would need a second induction over the grammar relating two different inputs.
- Scanner.ScanEnd: its contract gives the bounds and the stopping character; that every character of the run is in the class is the separate lemma `ScanEndRun`.
- Grammar.ParenExpr: like the other level functions, its contract gives positions and error kinds; that the canonical string renders the tree and the tree's shape are the separate `*Builds` lemmas.
