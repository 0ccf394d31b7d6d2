/// The statement orchestrator of src/api/public_api.ts: cut a text into
/// statements, one per non-blank line, then parse and validate each one,
/// turning a thrown error into data on that statement's result.
module PublicApi {
  import opened Wrappers
  import opened Text
  import opened StatementSplit
  import opened Types
  import Errors
  import Parser
  import ParserProps
  import Validation
  import RuleEngine
  import ActorRule
  import AtomicityRule

  /** The `error` of a failed statement: the thrown error's `name` and `message`. */
  datatype ErrorInfo = ErrorInfo(name: string, message: string)

  /** Lines 35-40: `atom`, `validation` and `error` are optional. */
  datatype StatementValidation = StatementValidation(
    input: string,
    atom: Option<RequirementAtom>,
    validation: Option<Validation.ValidationResult>,
    error: Option<ErrorInfo>)

  /** Lines 42-45. */
  datatype FileValidation = FileValidation(path: string, statements: seq<StatementValidation>)

  /** A result carries an atom and its validation, or an error: exactly one of the two. */
  predicate ExactlyOne(r: StatementValidation) {
    || (r.atom.Some? && r.validation.Some? && r.error.None?)
    || (r.atom.None? && r.validation.None? && r.error.Some?)
  }

  // ---------------------------------------------------------------------------
  // Lines 56-72, `validateText`.

  /** Lines 63-70: parse then validate one statement; a thrown error becomes its `name` and `message`. */
  function ValidateStatement(stmt: string): (r: StatementValidation)
    ensures r.input == stmt
    ensures ExactlyOne(r)
    ensures r.error.None? <==> Parser.Parse(stmt).Success?
  {
    match Parser.Parse(stmt)
    case Success(atom) => StatementValidation(stmt, Some(atom), Some(Validation.ValidateRequirement(atom)), None)
    case Failure(e) => StatementValidation(stmt, None, None, Some(ErrorInfo(Errors.Name(e), Errors.Message(e))))
  }

  /** Line 62, `statements.map(f)`. */
  function Map<T, U>(f: T -> U, xs: seq<T>): (ys: seq<U>)
    ensures |ys| == |xs|
    ensures forall i :: 0 <= i < |xs| ==> ys[i] == f(xs[i])
  {
    seq(|xs|, i requires 0 <= i < |xs| => f(xs[i]))
  }

  lemma MapAppend<T, U>(f: T -> U, x: seq<T>, y: seq<T>)
    ensures Map(f, x + y) == Map(f, x) + Map(f, y)
  {
  }

  /**
   * Lines 56-72. The fallback of line 60 never contributes: when no line is
   * a statement the whole text is white space, so its trimmed form is
   * filtered out as well. The `source` parameter is unused by the code.
   */
  function ValidateText(input: string): (rs: seq<StatementValidation>)
    ensures rs == Map(ValidateStatement, SplitStatements(input))
  {
    var lines := SplitStatements(input);
    var statements := if |lines| > 0 then lines else NonEmpty([Trim(input)]);
    FallbackEmpty(input);
    Map(ValidateStatement, statements)
  }

  /** Line 60: when no line is a statement, neither is the trimmed whole text. */
  lemma FallbackEmpty(input: string)
    ensures SplitStatements(input) == [] ==> NonEmpty([Trim(input)]) == []
  {
    StatementsBlank(input);
    assert NonEmpty([Trim(input)]) == (if Trim(input) == [] then [] else [Trim(input)]) + NonEmpty([]);
  }

  /** Every result has exactly one outcome, and its input is a trimmed non-blank line. */
  lemma ValidateTextOutcomes(input: string)
    ensures |ValidateText(input)| == |SplitStatements(input)|
    ensures forall i :: 0 <= i < |ValidateText(input)| ==>
      && ValidateText(input)[i].input == SplitStatements(input)[i]
      && Trimmed(ValidateText(input)[i].input)
      && ExactlyOne(ValidateText(input)[i])
  {
  }

  /** A successful statement carries the parsed atom and that atom's validation; a failed one the error's name and message. */
  lemma StatementOutcome(stmt: string)
    ensures Parser.Parse(stmt).Success? ==>
      && ValidateStatement(stmt).atom == Some(Parser.Parse(stmt).value)
      && ValidateStatement(stmt).validation == Some(Validation.ValidateRequirement(Parser.Parse(stmt).value))
    ensures Parser.Parse(stmt).Failure? ==>
      ValidateStatement(stmt).error == Some(ErrorInfo(Errors.Name(Parser.Parse(stmt).error), Errors.Message(Parser.Parse(stmt).error)))
  {
  }

  /**
   * A statement that parses is judged by the rule engine, and it is valid
   * exactly when its actor is no placeholder and its action holds no
   * standalone `and` or `or`.
   */
  lemma StatementVerdict(stmt: string)
    ensures ValidateStatement(stmt).validation.Some? <==> Parser.Parse(stmt).Success?
    ensures ValidateStatement(stmt).validation.Some? ==>
      var atom := Parser.Parse(stmt).value;
      && ValidateStatement(stmt).validation.value.errors == RuleEngine.ApplyRules(atom)
      && (ValidateStatement(stmt).validation.value.valid <==>
            atom.actor.value !in ActorRule.InvalidActors && !AtomicityRule.HasConjunction(atom.action.value))
  {
    if Parser.Parse(stmt).Success? {
      RuleEngine.ParsedAtomValid(Parser.Parse(stmt).value);
    }
  }

  /** A captured error is always a NormalizationError or a MissingActorError. */
  lemma StatementErrorNames(stmt: string)
    ensures ValidateStatement(stmt).error.Some? ==>
      ValidateStatement(stmt).error.value.name == "NormalizationError"
      || ValidateStatement(stmt).error.value.name == "MissingActorError"
  {
    match Parser.Parse(stmt)
    case Success(_) =>
    case Failure(e) =>
      ParserProps.ParseErrorKinds(stmt);
      assert e.NormalizationError? || e == Errors.MissingActorError;
  }

  /** Lines are validated independently: the results for `a + "\n" + b` are those for `a`, then those for `b`. */
  lemma ValidateTextAppend(a: string, b: string)
    ensures ValidateText(a + "\n" + b) == ValidateText(a) + ValidateText(b)
  {
    StatementsAppend(a, b);
    MapAppend(ValidateStatement, SplitStatements(a), SplitStatements(b));
  }

  /** A blank text yields no result at all. */
  lemma ValidateTextBlank(input: string)
    ensures ValidateText(input) == [] <==> AllSpace(input)
  {
    StatementsBlank(input);
    assert |ValidateText(input)| == |SplitStatements(input)|;
  }
}
