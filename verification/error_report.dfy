/**
 * The validation-error report: every stored error message, with each double-quoted span
 * rewritten to a bracketed one.
 */
module ErrorReport {
  import opened Text
  import opened Records
  import opened Db

  /** `validation_report`: one entry per row of the error table, in table order. */
  function ValidationReport(db: Store): (r: seq<string>)
    reads db
    ensures |r| == |db.errors|
    ensures forall i :: 0 <= i < |r| ==> |r[i]| == |db.errors[i].message|
  {
    seq(|db.errors|, i requires 0 <= i < |db.errors| reads db => QuoteToBracket(db.errors[i].message))
  }

  /**
   * Entry i is stored message i with the same length, every character other than a double
   * quote kept, each quote turned into a bracket or kept, and no two quotes left; a message
   * without a double quote comes back unchanged, and rewriting an entry again changes nothing.
   */
  lemma ReportEntry(db: Store, i: nat)
    requires i < |db.errors|
    ensures |ValidationReport(db)| == |db.errors|
    ensures var m, e := db.errors[i].message, ValidationReport(db)[i];
      && |e| == |m|
      && (forall j :: 0 <= j < |m| && m[j] != '"' ==> e[j] == m[j])
      && (forall j :: 0 <= j < |m| && m[j] == '"' ==> e[j] in "[]\"")
      && (forall j, k :: 0 <= j < k < |m| && e[j] == '"' ==> e[k] != '"')
      && (Lacks(m, '"') ==> e == m)
      && QuoteToBracket(e) == e
  {
    var m := db.errors[i].message;
    QuoteToBracketShape(m);
    QuoteToBracketIdempotent(m);
    if Lacks(m, '"') {
      QuoteToBracketNoQuote(m);
    }
  }

  /**
   * In entry i, the first double-quoted span of the stored message is bracketed: `[` where the
   * opening quote was, `]` where the closing one was, and the rest rewritten the same way.
   */
  lemma ReportQuotedSpan(db: Store, i: nat, x: string, y: string, z: string)
    requires i < |db.errors| && db.errors[i].message == x + "\"" + y + "\"" + z
    requires Lacks(x, '"') && Lacks(y, '"')
    ensures ValidationReport(db)[i] == x + "[" + y + "]" + QuoteToBracket(z)
  {
    QuotedSpan(x, y, z);
  }

  /** In entry i, a last double quote that nothing closes stays a double quote. */
  lemma ReportUnmatchedQuote(db: Store, i: nat, x: string, y: string)
    requires i < |db.errors| && db.errors[i].message == x + "\"" + y
    requires Lacks(x, '"') && Lacks(y, '"')
    ensures ValidationReport(db)[i] == db.errors[i].message
  {
    UnmatchedQuote(x, y);
  }
}
