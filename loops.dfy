/**
 * The mult/div and add/sub levels as the source writes them: a first
 * operand, then a `while` loop that folds each further operand into the
 * running result in place. Each method computes exactly what the
 * corresponding grammar function does.
 */
module Loops {
  import opened Scanner
  import opened Syntax
  import opened Grammar

  method EvaluateMultDiv(s: string, i: nat) returns (result: Parse)
    requires i <= |s|
    ensures result == MultDivExpr(s, i)
  {
    var _, ii := ConsumeRegexp(s, i, Whitespace);
    result := SignedExpr(s, ii);
    if result.Failed? {
      return;
    }
    var _, p := ConsumeRegexp(s, result.pos, Whitespace);
    result := result.(pos := p);
    while IsAt(s, result.pos, '*') || IsAt(s, result.pos, '/')
      invariant result.Parsed? && Valid(s, result)
      invariant MultDivFold(s, result) == MultDivExpr(s, i)
      decreases |s| - result.pos
    {
      var op := s[result.pos];
      var next := SignedExpr(s, result.pos + 1);
      if next.Failed? {
        return next;
      }
      var kind := if op == '*' then Mul else Div;
      result := Parsed(Bin(kind, result.tree, next.tree), "(" + result.canon + " " + [op] + " " + next.canon + ")", next.pos);
    }
  }

  method EvaluateAddSub(s: string, i: nat) returns (result: Parse)
    requires i <= |s|
    ensures result == AddSubExpr(s, i)
  {
    var _, ii := ConsumeRegexp(s, i, Whitespace);
    result := EvaluateMultDiv(s, ii);
    if result.Failed? {
      return;
    }
    var _, p := ConsumeRegexp(s, result.pos, Whitespace);
    result := result.(pos := p);
    while IsAt(s, result.pos, '+') || IsAt(s, result.pos, '-')
      invariant result.Parsed? && Valid(s, result)
      invariant AddSubFold(s, result) == AddSubExpr(s, i)
      decreases |s| - result.pos
    {
      ghost var before := result;
      var op := s[result.pos];
      var next := EvaluateMultDiv(s, result.pos + 1);
      if next.Failed? {
        assert AddSubFold(s, before) == next;
        return next;
      }
      var kind := if op == '+' then Add else Sub;
      result := Parsed(Bin(kind, result.tree, next.tree), "(" + result.canon + " " + [op] + " " + next.canon + ")", next.pos);
    }
  }
}
