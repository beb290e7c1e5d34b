/**
 * The top-level driver, `evaluate`: run the add/sub level once from offset
 * 0, fail if nothing was consumed, and report the value, the canonical
 * string, the consumed prefix and any unparsed trailing text (which is an
 * advisory, not an error).
 */
module Driver {
  import opened Scanner
  import opened Syntax
  import opened Grammar

  datatype Option<T> = None | Some(value: T)

  datatype Report = Report(value: Value, canon: string, consumed: string, trailing: Option<string>)

  datatype Outcome =
    | Success(report: Report)
    | Failure(kind: ErrorKind, at: nat)

  /**
   * The outcome is the top-level parse's: its failure, or its value and
   * canonical string with the input split where the parse stopped.
   */
  function Evaluate(s: string): (o: Outcome)
    ensures o.Failure? <==> AddSubExpr(s, 0).Failed?
    ensures o.Failure? ==> o.kind == AddSubExpr(s, 0).kind && o.at == AddSubExpr(s, 0).at
    ensures o.Failure? ==> o.kind != InvalidExpression && o.at <= |s|
    ensures o.Success? ==>
      var r, rep := AddSubExpr(s, 0), o.report;
      && rep.value == ValueOf(r.tree)
      && rep.canon == Render(r.tree)
      && |rep.consumed| == r.pos
      && (rep.trailing.Some? <==> r.pos < |s|)
    ensures o.Success? ==>
      var rep := o.report;
      && 0 < |rep.consumed| <= |s|
      && (rep.trailing.None? <==> rep.consumed == s)
      && (rep.trailing.Some? ==> rep.consumed + rep.trailing.value == s && !IsWhitespace(rep.trailing.value[0]))
  {
    AddSubBuilds(s, 0);
    var r := AddSubExpr(s, 0);
    if r.Failed? then Failure(r.kind, r.at)
    else
      var position := r.pos;
      if position == 0 then Failure(InvalidExpression, position)
      else
        var trailing := if position < |s| then Some(s[position..]) else None;
        Success(Report(ValueOf(r.tree), r.canon, s[..position], trailing))
  }
}
