/// `buildReport` (src/report/buildReport.ts): turns the per-file validation
/// results into the canonical report. The clock is an injected `generatedAt`
/// string; everything else is computed from the results and the options.
module Report {
  import opened Wrappers
  import opened Types
  import opened PublicApi

  datatype TargetKind = File | Dir | Stdin

  const StdinPath: string := "<stdin>"
  const DslSuffix: string := ".dsl"
  const ContractName: string := "dsl-core.report"
  const ContractSchema: string := "schemas/report.schema.json"
  const DefaultContractVersion: string := "1.0.0"
  const EngineName: string := "dsl-core"

  predicate EndsWith(s: string, suffix: string) {
    |suffix| <= |s| && s[|s| - |suffix|..] == suffix
  }

  /** Lines 77-81: the standard-input marker, a `.dsl` file, or otherwise a directory. */
  function InferTargetKind(path: string): (k: TargetKind)
    ensures k == Stdin <==> path == StdinPath
    ensures k == File <==> path != StdinPath && EndsWith(path, DslSuffix)
    ensures k == Dir <==> path != StdinPath && !EndsWith(path, DslSuffix)
  {
    if path == StdinPath then Stdin
    else if EndsWith(path, DslSuffix) then File
    else Dir
  }

  // ---------------------------------------------------------------------------
  // Counting (lines 83-96)
  // ---------------------------------------------------------------------------

  datatype Counts = Counts(statements: nat, valid: nat, invalid: nat, parseErrors: nat)

  /** `!!s.error`: an error object is always truthy. */
  predicate HasError(s: StatementValidation) { s.error.Some? }

  /** `s.validation && !s.validation.valid`. */
  predicate IsInvalid(s: StatementValidation) { s.validation.Some? && !s.validation.value.valid }

  /** `s.validation && s.validation.valid`. */
  predicate IsValid(s: StatementValidation) { s.validation.Some? && s.validation.value.valid }

  /** `statements.filter(p).length`. */
  function Count(p: StatementValidation -> bool, ss: seq<StatementValidation>): (n: nat)
    ensures n <= |ss|
    ensures n == 0 <==> forall i :: 0 <= i < |ss| ==> !p(ss[i])
  {
    if ss == [] then 0 else (if p(ss[0]) then 1 else 0) + Count(p, ss[1..])
  }

  function CountStatements(ss: seq<StatementValidation>): Counts {
    Counts(|ss|, Count(IsValid, ss), Count(IsInvalid, ss), Count(HasError, ss))
  }

  /**
   * When every result carries either a validation or an error, never both,
   * the three counts partition the statements.
   */
  lemma {:induction false} CountsPartition(ss: seq<StatementValidation>)
    requires forall i :: 0 <= i < |ss| ==> ExactlyOne(ss[i])
    ensures var c := CountStatements(ss); c.statements == c.valid + c.invalid + c.parseErrors
  {
    if ss != [] {
      assert forall i :: 0 <= i < |ss[1..]| ==> ExactlyOne(ss[1..][i]) by {
        forall i | 0 <= i < |ss[1..]| ensures ExactlyOne(ss[1..][i]) {
          assert ss[1..][i] == ss[i + 1];
        }
      }
      CountsPartition(ss[1..]);
      assert ExactlyOne(ss[0]);
    }
  }

  // ---------------------------------------------------------------------------
  // Files and statements (lines 113-135)
  // ---------------------------------------------------------------------------

  /**
   * A statement of the report. With typed results the `!!valid` and
   * `Array.isArray` coercions of lines 121-124 return their argument, so the
   * validation is carried over unchanged.
   */
  datatype ReportStatement = ReportStatement(
    source: string,
    input: string,
    atom: Option<RequirementAtom>,
    validation: Option<Validation.ValidationResult>,
    error: Option<ErrorInfo>)

  datatype ReportFile = ReportFile(path: string, counts: Counts, statements: seq<ReportStatement>)

  function ToReportStatement(path: string, s: StatementValidation): ReportStatement {
    ReportStatement(path, s.input, s.atom, s.validation, s.error)
  }

  function ToReportFile(f: FileValidation): ReportFile {
    ReportFile(f.path, CountStatements(f.statements), Map(s => ToReportStatement(f.path, s), f.statements))
  }

  function ReportFiles(files: seq<FileValidation>): seq<ReportFile> {
    Map(ToReportFile, files)
  }

  /**
   * The report keeps the files and, inside each, the statements in their
   * order; every statement names its file as `source` and carries the
   * result's input, atom, validation and error unchanged.
   */
  lemma ReportFilesShape(files: seq<FileValidation>)
    ensures var rf := ReportFiles(files);
      && |rf| == |files|
      && forall i :: 0 <= i < |files| ==>
        && rf[i].path == files[i].path
        && rf[i].counts == CountStatements(files[i].statements)
        && |rf[i].statements| == |files[i].statements|
        && forall j :: 0 <= j < |files[i].statements| ==>
          var r, s := rf[i].statements[j], files[i].statements[j];
          r.source == files[i].path && r.input == s.input && r.atom == s.atom
          && r.validation == s.validation && r.error == s.error
  {
  }

  // ---------------------------------------------------------------------------
  // Summary (lines 137-147)
  // ---------------------------------------------------------------------------

  datatype Summary = Summary(files: nat, statements: nat, valid: nat, invalid: nat, parseErrors: nat)

  const Zero := Summary(0, 0, 0, 0, 0)

  /** One step of the reduce: count the file and add its counts. */
  function AddFile(acc: Summary, f: ReportFile): Summary {
    Summary(
      acc.files + 1,
      acc.statements + f.counts.statements,
      acc.valid + f.counts.valid,
      acc.invalid + f.counts.invalid,
      acc.parseErrors + f.counts.parseErrors)
  }

  /** The reduce from the left over `fs`, starting from all zeros. */
  function Total(fs: seq<ReportFile>): Summary
    decreases |fs|
  {
    if fs == [] then Zero else AddFile(Total(fs[..|fs| - 1]), fs[|fs| - 1])
  }

  /** Lines 137-147, as the loop the reduce performs on its accumulator. */
  method Summarize(fs: seq<ReportFile>) returns (acc: Summary)
    ensures acc == Total(fs)
  {
    acc := Zero;
    for i := 0 to |fs|
      invariant acc == Total(fs[..i])
    {
      assert fs[..i + 1][..i] == fs[..i];
      acc := acc.(
        files := acc.files + 1,
        statements := acc.statements + fs[i].counts.statements,
        valid := acc.valid + fs[i].counts.valid,
        invalid := acc.invalid + fs[i].counts.invalid,
        parseErrors := acc.parseErrors + fs[i].counts.parseErrors);
    }
    assert fs[..|fs|] == fs;
  }

  /** Each file adds one to `files`, so it counts the files. */
  lemma {:induction false} TotalFiles(fs: seq<ReportFile>)
    ensures Total(fs).files == |fs|
    decreases |fs|
  {
    if fs != [] {
      TotalFiles(fs[..|fs| - 1]);
    }
  }

  /** The summary of two lists of files is the field-wise sum of their summaries. */
  lemma {:induction false} TotalAppend(fs: seq<ReportFile>, gs: seq<ReportFile>)
    ensures var t, a, b := Total(fs + gs), Total(fs), Total(gs);
      && t.files == a.files + b.files
      && t.statements == a.statements + b.statements
      && t.valid == a.valid + b.valid
      && t.invalid == a.invalid + b.invalid
      && t.parseErrors == a.parseErrors + b.parseErrors
    decreases |gs|
  {
    if gs == [] {
      assert fs + gs == fs;
    } else {
      assert (fs + gs)[..|fs + gs| - 1] == fs + gs[..|gs| - 1];
      TotalAppend(fs, gs[..|gs| - 1]);
    }
  }

  /** Files whose counts partition their statements give a summary that does too. */
  lemma {:induction false} TotalPartition(fs: seq<ReportFile>)
    requires forall i :: 0 <= i < |fs| ==>
      fs[i].counts.statements == fs[i].counts.valid + fs[i].counts.invalid + fs[i].counts.parseErrors
    ensures var t := Total(fs); t.statements == t.valid + t.invalid + t.parseErrors
    decreases |fs|
  {
    if fs != [] {
      TotalPartition(fs[..|fs| - 1]);
    }
  }

  /**
   * For well-formed results (each an atom with its validation, or an error)
   * the report's summary counts every statement exactly once as valid,
   * invalid or a parse error.
   */
  lemma SummaryPartition(files: seq<FileValidation>)
    requires forall i, j :: 0 <= i < |files| && 0 <= j < |files[i].statements| ==> ExactlyOne(files[i].statements[j])
    ensures var t := Total(ReportFiles(files));
      t.files == |files| && t.statements == t.valid + t.invalid + t.parseErrors
  {
    var rf := ReportFiles(files);
    forall i | 0 <= i < |rf|
      ensures rf[i].counts.statements == rf[i].counts.valid + rf[i].counts.invalid + rf[i].counts.parseErrors
    {
      CountsPartition(files[i].statements);
    }
    TotalPartition(rf);
    TotalFiles(rf);
  }

  // ---------------------------------------------------------------------------
  // The report (lines 106-176)
  // ---------------------------------------------------------------------------

  datatype BuildReportOptions = BuildReportOptions(
    targetPath: string,
    targetKind: Option<TargetKind>,
    engineVersion: string,
    gitSha: Option<string>,
    gitRef: Option<string>,
    contractVersion: Option<string>)

  datatype Contract = Contract(name: string, version: string, schema: string)
  datatype Git = Git(sha: string, ref: Option<string>)
  datatype Engine = Engine(name: string, version: string, git: Option<Git>)
  datatype Target = Target(path: string, kind: TargetKind)

  datatype DslCoreReport = DslCoreReport(
    contract: Contract,
    engine: Engine,
    generatedAt: string,
    target: Target,
    summary: Summary,
    files: seq<ReportFile>)

  /** Lines 111 and 152-156: `??` replaces only a missing version, not an empty one. */
  function ContractOf(opts: BuildReportOptions): (c: Contract)
    ensures c.name == ContractName && c.schema == ContractSchema
    ensures opts.contractVersion.Some? ==> c.version == opts.contractVersion.value
    ensures opts.contractVersion.None? ==> c.version == DefaultContractVersion
  {
    Contract(ContractName, opts.contractVersion.GetOr(DefaultContractVersion), ContractSchema)
  }

  /**
   * Lines 157-168: `git` is present exactly when the SHA is a non-empty
   * string, and `ref` inside it exactly when the ref is one too.
   */
  function EngineOf(opts: BuildReportOptions): (e: Engine)
    ensures e.name == EngineName && e.version == opts.engineVersion
    ensures e.git.Some? <==> Truthy(opts.gitSha)
    ensures e.git.Some? ==> e.git.value.sha == opts.gitSha.value
    ensures e.git.Some? ==> (e.git.value.ref.Some? <==> Truthy(opts.gitRef))
    ensures e.git.Some? && e.git.value.ref.Some? ==> e.git.value.ref == opts.gitRef
  {
    var git :=
      if Truthy(opts.gitSha) then
        Some(Git(opts.gitSha.value, if Truthy(opts.gitRef) then opts.gitRef else None))
      else None;
    Engine(EngineName, opts.engineVersion, git)
  }

  /** Line 149: an explicit kind wins; otherwise it is inferred from the path. */
  function TargetOf(opts: BuildReportOptions): (t: Target)
    ensures t.path == opts.targetPath
    ensures opts.targetKind.Some? ==> t.kind == opts.targetKind.value
    ensures opts.targetKind.None? ==> t.kind == InferTargetKind(opts.targetPath)
  {
    Target(opts.targetPath, opts.targetKind.GetOr(InferTargetKind(opts.targetPath)))
  }

  /** Lines 106-176, with `now.toISOString()` given as `generatedAt`. */
  method BuildReport(files: seq<FileValidation>, opts: BuildReportOptions, generatedAt: string)
    returns (report: DslCoreReport)
    ensures report.files == ReportFiles(files)
    ensures report.summary == Total(report.files)
    ensures report.contract == ContractOf(opts)
    ensures report.engine == EngineOf(opts)
    ensures report.generatedAt == generatedAt
    ensures report.target == TargetOf(opts)
  {
    var reportFiles := ReportFiles(files);
    var summary := Summarize(reportFiles);
    report := DslCoreReport(ContractOf(opts), EngineOf(opts), generatedAt, TargetOf(opts), summary, reportFiles);
  }
}
