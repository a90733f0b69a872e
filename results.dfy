/** Error codes returned by every operation of the value core (OPS_RESULT). */
module Results {

  /** The codes of enum OPS_RESULT_errors, in declaration order. */
  datatype Error = Ok | False | Unimplemented | InvalidType | InvalidInteger

  /** result_ok: a result is a success exactly when its code is Ok. */
  predicate ResultOk(e: Error) {
    e == Ok
  }

  /** result_error_str: the diagnostic text of an error code. */
  function ResultErrorStr(e: Error): (text: string)
    ensures |text| > 0
  {
    match e
    case Ok => "OK"
    case False => "false"
    case Unimplemented => "unimplemented"
    case InvalidType => "invalid type"
    case InvalidInteger => "invalid integer"
  }

  /** A result is a success exactly when its diagnostic text reads "OK". */
  lemma ResultOkText(e: Error)
    ensures ResultOk(e) <==> ResultErrorStr(e) == "OK"
  {
  }

  /** Distinct codes have distinct diagnostic texts, so the text identifies the code. */
  lemma ErrorStrInjective(e1: Error, e2: Error)
    requires ResultErrorStr(e1) == ResultErrorStr(e2)
    ensures e1 == e2
  {
  }

  /** The fixed text result_print writes before the diagnostic text of the code. */
  const ErrorPrefix: string := "{error: \""

  /**
   * result_print with the val member absent: the text written before a
   * fail-fast abort, the code's diagnostic text between a fixed opening and
   * a closing quote and brace.
   */
  function ResultPrintNoVal(e: Error): (t: string)
    ensures |t| == |ErrorPrefix| + |ResultErrorStr(e)| + 2
    ensures t[..|ErrorPrefix|] == ErrorPrefix && t[|t| - 2..] == "\"}"
    ensures t[|ErrorPrefix|..|t| - 2] == ResultErrorStr(e)
  {
    ErrorPrefix + ResultErrorStr(e) + "\"}"
  }

  /** The printed diagnostic determines the code it reports. */
  lemma ResultPrintNoValInjective(e1: Error, e2: Error)
    requires ResultPrintNoVal(e1) == ResultPrintNoVal(e2)
    ensures e1 == e2
  {
    var t := ResultPrintNoVal(e1);
    assert ResultErrorStr(e1) == t[|ErrorPrefix|..|t| - 2] == ResultErrorStr(e2);
    ErrorStrInjective(e1, e2);
  }
}
