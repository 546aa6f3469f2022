/** `execute_python_code`: run the assembled program and turn every failure
    the `try` block catches into a `ValueError` whose message names the kind
    of failure. `exec` itself is not modelled: the caller supplies what it
    did with the program as the function `run`.
 */
module Execution {
  import opened Strings
  import Program

  /** The exception raised while the program ran, as the `except` clauses
      tell them apart. `SyntaxError` covers its subclasses too
      (`IndentationError`, `TabError`); `OtherException` is any other
      subclass of `Exception`; `NotAnException` is a `BaseException` outside
      `Exception` (`SystemExit`, `KeyboardInterrupt`, `GeneratorExit`),
      which `except Exception` does not catch. */
  datatype ExcKind = SyntaxError | KeyError | OtherException | NotAnException

  /** What `exec` did with the program: finished with these local
      bindings, or raised an exception whose `str()` is `text`. */
  datatype RunOutcome<V> = Finished(locals: map<string, V>) | Raised(kind: ExcKind, text: string)

  /** How a failure leaves `execute_python_code`: as a `ValueError` with a
      message, or as the original exception, untouched. */
  datatype Failure =
    | ValueError(message: string)
    | Propagated(kind: ExcKind, text: string)

  /** What `execute_python_code` gives its caller: the value bound to
      `result`, or a failure. */
  datatype Outcome<V> = Filtered(value: V) | Failed(failure: Failure)

  const SyntaxPrefix := "Syntax error in the generated code: "
  const KeyPrefix := "KeyError in the generated code: "
  const OtherPrefix := "Error executing the code: "

  const ResultName := "result"
  /** `str(KeyError('result'))`: a `KeyError` prints the repr of its key. */
  const MissingResultText := "'result'"

  /** The three prefixes start with different characters, so no message
      can carry two of them. */
  lemma PrefixesDiffer(text: string)
    ensures !StartsWith(SyntaxPrefix + text, KeyPrefix) && !StartsWith(SyntaxPrefix + text, OtherPrefix)
    ensures !StartsWith(KeyPrefix + text, SyntaxPrefix) && !StartsWith(KeyPrefix + text, OtherPrefix)
    ensures !StartsWith(OtherPrefix + text, SyntaxPrefix) && !StartsWith(OtherPrefix + text, KeyPrefix)
  {
    assert (SyntaxPrefix + text)[0] == 'S';
    assert (KeyPrefix + text)[0] == 'K';
    assert (OtherPrefix + text)[0] == 'E';
    assert SyntaxPrefix[0] == 'S' && KeyPrefix[0] == 'K' && OtherPrefix[0] == 'E';
  }

  /** The `except` chain: `SyntaxError` first, then `KeyError`, then any
      other `Exception`, each re-raised as a `ValueError` whose message is
      its own prefix followed by the exception's text; anything that is not
      an `Exception` passes through. */
  function ReportFailure(kind: ExcKind, text: string): (r: Failure)
    ensures r.Propagated? <==> kind == NotAnException
    ensures r.Propagated? ==> r.kind == kind && r.text == text
    ensures r.ValueError? ==> EndsWith(r.message, text)
    ensures r.ValueError? ==> (StartsWith(r.message, SyntaxPrefix) <==> kind == SyntaxError)
    ensures r.ValueError? ==> (StartsWith(r.message, KeyPrefix) <==> kind == KeyError)
    ensures r.ValueError? ==> (StartsWith(r.message, OtherPrefix) <==> kind == OtherException)
  {
    PrefixesDiffer(text);
    match kind
    case SyntaxError => ValueError(SyntaxPrefix + text)
    case KeyError => ValueError(KeyPrefix + text)
    case OtherException => ValueError(OtherPrefix + text)
    case NotAnException => Propagated(kind, text)
  }

  /** Reads a `ValueError` message back into the failure it reports. */
  function ParseReport(message: string): Option<(ExcKind, string)>
  {
    if StartsWith(message, SyntaxPrefix) then Some((SyntaxError, message[|SyntaxPrefix|..]))
    else if StartsWith(message, KeyPrefix) then Some((KeyError, message[|KeyPrefix|..]))
    else if StartsWith(message, OtherPrefix) then Some((OtherException, message[|OtherPrefix|..]))
    else None
  }

  /** The message loses nothing: the kind and the exception's text can both
      be read back from it. */
  lemma ReportRoundTrip(kind: ExcKind, text: string)
    requires kind != NotAnException
    ensures var r := ReportFailure(kind, text);
      r.ValueError? && ParseReport(r.message) == Some((kind, text))
  {
    match kind
    case SyntaxError => assert (SyntaxPrefix + text)[|SyntaxPrefix|..] == text;
    case KeyError => assert (KeyPrefix + text)[|KeyPrefix|..] == text;
    case OtherException => assert (OtherPrefix + text)[|OtherPrefix|..] == text;
  }

  /** Different failures give different reports. */
  lemma ReportInjective(k1: ExcKind, t1: string, k2: ExcKind, t2: string)
    requires ReportFailure(k1, t1) == ReportFailure(k2, t2)
    ensures k1 == k2 && t1 == t2
  {
    if k1 != NotAnException {
      ReportRoundTrip(k1, t1);
      ReportRoundTrip(k2, t2);
    }
  }

  /** `execute_python_code(code, df)` with `exec` supplied as `run`. The
      program run is exactly `result = ` followed by the code without its
      comment lines. The caller gets the value bound to `result` when the
      run finished with one; a finished run without `result` fails on the
      lookup with `KeyError('result')`, inside the same `try`; every
      `Exception` becomes a `ValueError` with one of the three prefixes;
      only a non-`Exception` escapes unchanged. */
  function ExecutePythonCode<V>(code: string, run: string -> RunOutcome<V>): (r: Outcome<V>)
    ensures var ran := run(Program.AssembleProgram(code));
      r.Filtered? <==> ran.Finished? && ResultName in ran.locals
    ensures var ran := run(Program.AssembleProgram(code));
      r.Filtered? ==> r.value == ran.locals[ResultName]
    ensures var ran := run(Program.AssembleProgram(code));
      r.Failed? && r.failure.Propagated? <==> ran.Raised? && ran.kind == NotAnException
    ensures var ran := run(Program.AssembleProgram(code));
      ran.Raised? ==> r == Failed(ReportFailure(ran.kind, ran.text))
    ensures r.Failed? && r.failure.ValueError? ==>
      var m := r.failure.message;
      StartsWith(m, SyntaxPrefix) || StartsWith(m, KeyPrefix) || StartsWith(m, OtherPrefix)
    ensures var ran := run(Program.AssembleProgram(code));
      ran.Finished? && ResultName !in ran.locals ==> r == Failed(ValueError(KeyPrefix + MissingResultText))
  {
    match run(Program.AssembleProgram(code))
    case Raised(kind, text) => Failed(ReportFailure(kind, text))
    case Finished(locals) =>
      if ResultName in locals then Filtered(locals[ResultName])
      else Failed(ReportFailure(KeyError, MissingResultText))
  }
}
