/// The `validate` command (cli/src/commands/validate.ts): the per-file
/// `OK / INVALID / PARSE_ERR` figures and the process exit code, computed from
/// the results of validating a path. Reading the files and printing are not
/// modelled; the exit code is returned instead of passed to `Deno.exit`.
module ValidateCommand {
  import opened PublicApi
  import opened Report

  /** `files.some(f => f.statements.some(p))`, as a scan over files and statements. */
  function SomeStatement(p: StatementValidation -> bool, files: seq<FileValidation>): (b: bool)
    ensures b <==> exists i, j :: 0 <= i < |files| && 0 <= j < |files[i].statements| && p(files[i].statements[j])
  {
    if files == [] then false
    else if Count(p, files[0].statements) > 0 then true
    else
      var rest := SomeStatement(p, files[1..]);
      assert rest ==> exists i, j :: 0 <= i < |files| && 0 <= j < |files[i].statements| && p(files[i].statements[j]) by {
        if rest {
          var i, j :| 0 <= i < |files[1..]| && 0 <= j < |files[1..][i].statements| && p(files[1..][i].statements[j]);
          assert files[1..][i] == files[i + 1];
        }
      }
      rest
  }

  /** Lines 9-11: some statement carries an error. */
  predicate HasParserErrors(files: seq<FileValidation>) { SomeStatement(HasError, files) }

  /** Lines 12-14: some statement was validated and found invalid. */
  predicate HasInvalid(files: seq<FileValidation>) { SomeStatement(IsInvalid, files) }

  /** Line 31: 2 when a statement failed to parse, else 1 when one is invalid, else 0. */
  function ExitCode(files: seq<FileValidation>): (code: int)
    ensures code == 2 <==> exists i, j :: 0 <= i < |files| && 0 <= j < |files[i].statements| && files[i].statements[j].error.Some?
    ensures code == 1 <==>
      && (forall i, j :: 0 <= i < |files| && 0 <= j < |files[i].statements| ==> files[i].statements[j].error.None?)
      && (exists i, j :: 0 <= i < |files| && 0 <= j < |files[i].statements| && IsInvalid(files[i].statements[j]))
    ensures code == 0 <==>
      forall i, j :: 0 <= i < |files| && 0 <= j < |files[i].statements| ==>
        files[i].statements[j].error.None? && !IsInvalid(files[i].statements[j])
  {
    if HasParserErrors(files) then 2 else if HasInvalid(files) then 1 else 0
  }

  /** The figures printed for one file (lines 20-27). */
  datatype FileLine = FileLine(path: string, ok: int, invalid: nat, parseErr: nat)

  function FileLineOf(f: FileValidation): FileLine {
    var invalid := Count(IsInvalid, f.statements);
    var parseErr := Count(HasError, f.statements);
    FileLine(f.path, |f.statements| - invalid - parseErr, invalid, parseErr)
  }

  /**
   * The printed figures agree with the report's counts, and when every result
   * is an atom with its validation or an error, `OK` is the number of valid
   * statements and so is never negative.
   */
  lemma FileLineCounts(f: FileValidation)
    ensures var l, c := FileLineOf(f), CountStatements(f.statements);
      l.path == f.path && l.invalid == c.invalid && l.parseErr == c.parseErrors
    ensures (forall j :: 0 <= j < |f.statements| ==> ExactlyOne(f.statements[j])) ==>
      FileLineOf(f).ok == CountStatements(f.statements).valid
  {
    if forall j :: 0 <= j < |f.statements| ==> ExactlyOne(f.statements[j]) {
      CountsPartition(f.statements);
    }
  }

  /** A summary field is positive exactly when some file's count is. */
  lemma {:induction false} TotalParseErrorsPositive(fs: seq<ReportFile>)
    ensures Total(fs).parseErrors > 0 <==> exists i :: 0 <= i < |fs| && fs[i].counts.parseErrors > 0
    decreases |fs|
  {
    if fs != [] {
      var init := fs[..|fs| - 1];
      TotalParseErrorsPositive(init);
      assert forall i :: 0 <= i < |init| ==> init[i] == fs[i];
    }
  }

  lemma {:induction false} TotalInvalidPositive(fs: seq<ReportFile>)
    ensures Total(fs).invalid > 0 <==> exists i :: 0 <= i < |fs| && fs[i].counts.invalid > 0
    decreases |fs|
  {
    if fs != [] {
      var init := fs[..|fs| - 1];
      TotalInvalidPositive(init);
      assert forall i :: 0 <= i < |init| ==> init[i] == fs[i];
    }
  }

  /**
   * The exit code can be read off the report built from the same results:
   * 2 when its summary counts parse errors, else 1 when it counts invalid
   * statements, else 0.
   */
  lemma ExitCodeFromSummary(files: seq<FileValidation>)
    ensures var t := Total(ReportFiles(files));
      ExitCode(files) == if t.parseErrors > 0 then 2 else if t.invalid > 0 then 1 else 0
  {
    var rf := ReportFiles(files);
    ReportCounts(files);
    ParseErrorsAgree(files, rf);
    InvalidAgree(files, rf);
  }

  lemma ReportCounts(files: seq<FileValidation>)
    ensures |ReportFiles(files)| == |files|
    ensures forall i :: 0 <= i < |files| ==> ReportFiles(files)[i].counts == CountStatements(files[i].statements)
  {
  }

  /** Some statement failed exactly when the files' counts add up to a parse error. */
  lemma ParseErrorsAgree(files: seq<FileValidation>, rf: seq<ReportFile>)
    requires |rf| == |files|
    requires forall i :: 0 <= i < |files| ==> rf[i].counts == CountStatements(files[i].statements)
    ensures HasParserErrors(files) <==> Total(rf).parseErrors > 0
  {
    TotalParseErrorsPositive(rf);
  }

  /** Some statement is invalid exactly when the files' counts add up to an invalid one. */
  lemma InvalidAgree(files: seq<FileValidation>, rf: seq<ReportFile>)
    requires |rf| == |files|
    requires forall i :: 0 <= i < |files| ==> rf[i].counts == CountStatements(files[i].statements)
    ensures HasInvalid(files) <==> Total(rf).invalid > 0
  {
    TotalInvalidPositive(rf);
  }
}
