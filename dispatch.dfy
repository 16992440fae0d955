/** The manifest loop of the three programs: every entry of the manifest
    is handed to a processor in turn. The audit tool (index.js) sends every
    entry to its one `processFile`; the log processors pick a processor by
    `scriptType` (logtool.ts knows `AM` and `AM2`, its compiled form
    logtool.js only `AM`) and skip every other type with a message. An
    exception inside `forEach` is not caught: it ends the run. */
module Dispatch {
  import opened Base
  import opened Fields
  import AuditTool
  import LegacyAM
  import GroupedAM

  /** Which of the two log processor builds runs. */
  datatype Build = TypeScript | CompiledJs

  /** The program that reads the manifest; the audit tool's `-timestamp`
      flag is its `epochs`. */
  datatype Tool = Audit(epochs: bool) | LogTool(build: Build)

  /** What happens to one manifest entry: skipped with a message, or a CSV
      file with these columns and rows. */
  datatype Outcome = Skipped | Written(headers: seq<Header>, rows: seq<Record>)

  /** One manifest entry together with the lines of the file it names. */
  datatype Entry = Entry(spec: FileSpec, lines: seq<string>)

  /** How far a run got: the outcomes of the entries handled, and the
      exception that ended it early, if any. */
  datatype Report = Report(outcomes: seq<Outcome>, error: Option<ProcessError>)

  /** `argv[3] == '-timestamp'`, checked only when there are more than three
      arguments. */
  function TimestampFlag(argv: seq<string>): (flag: bool)
    ensures flag <==> |argv| >= 4 && argv[3] == "-timestamp"
  {
    if |argv| > 3 then argv[3] == "-timestamp" else false
  }

  function Output(headers: seq<Header>, rows: Result<seq<Record>, ProcessError>): Result<Outcome, ProcessError> {
    match rows
    case Failure(e) => Failure(e)
    case Success(rs) => Success(Outcome.Written(headers, rs))
  }

  /** The processor one entry goes to, and what it produces. */
  function Handle(tool: Tool, e: Entry): Result<Outcome, ProcessError> {
    match tool
    case Audit(epochs) =>
      Output(AuditTool.Headers(e.spec.keywords, epochs), AuditTool.Extract(e.spec, epochs, e.lines))
    case LogTool(TypeScript) =>
      if e.spec.scriptType == "AM" then Output(LegacyAM.Headers(e.spec.keywords), LegacyAM.Extract(e.spec, e.lines))
      else if e.spec.scriptType == "AM2" then Output(LegacyAM.Headers(e.spec.keywords), GroupedAM.Extract(e.spec, e.lines))
      else Success(Skipped)
    case LogTool(CompiledJs) =>
      if e.spec.scriptType == "AM" then Output(LegacyAM.Headers(e.spec.keywords), LegacyAM.Extract(e.spec, e.lines))
      else Success(Skipped)
  }

  /** The `forEach` over the manifest, from the report so far. */
  function RunFrom(tool: Tool, done: seq<Outcome>, entries: seq<Entry>): Report
    decreases |entries|
  {
    if entries == [] then Report(done, None)
    else match Handle(tool, entries[0])
      case Failure(e) => Report(done, Some(e))
      case Success(o) => RunFrom(tool, done + [o], entries[1..])
  }

  function Run(tool: Tool, entries: seq<Entry>): Report {
    RunFrom(tool, [], entries)
  }

  /** What a run reports: the entries are handled in manifest order; each
      handled entry has the outcome its processor gives; the run stops at
      the first exception, which the next entry raised; without one every
      entry is handled. */
  predicate Reports(tool: Tool, entries: seq<Entry>, r: Report) {
    && |r.outcomes| <= |entries|
    && (forall k :: 0 <= k < |r.outcomes| ==> Handle(tool, entries[k]) == Success(r.outcomes[k]))
    && (r.error.None? <==> |r.outcomes| == |entries|)
    && (r.error.Some? ==> Handle(tool, entries[|r.outcomes|]) == Failure(r.error.value))
  }

  lemma {:induction false} RunFromReports(tool: Tool, done: seq<Outcome>, entries: seq<Entry>, all: seq<Entry>)
    requires |done| + |entries| == |all| && entries == all[|done|..]
    requires forall k :: 0 <= k < |done| ==> Handle(tool, all[k]) == Success(done[k])
    ensures Reports(tool, all, RunFrom(tool, done, entries))
    decreases |entries|
  {
    if entries != [] {
      var h := Handle(tool, entries[0]);
      if h.Success? {
        assert all[|done| + 1..] == entries[1..];
        RunFromReports(tool, done + [h.value], entries[1..], all);
      }
    }
  }

  /** The run's report is the one the manifest calls for. */
  lemma RunReports(tool: Tool, entries: seq<Entry>)
    ensures Reports(tool, entries, Run(tool, entries))
  {
    RunFromReports(tool, [], entries, entries);
  }

  /** A report is determined by the manifest: the characterisation has
      only one solution. */
  lemma ReportsUnique(tool: Tool, entries: seq<Entry>, r1: Report, r2: Report)
    requires Reports(tool, entries, r1) && Reports(tool, entries, r2)
    ensures r1 == r2
  {
    assert |r1.outcomes| == |r2.outcomes| by {
      if |r1.outcomes| < |r2.outcomes| {
        assert false;
      } else if |r2.outcomes| < |r1.outcomes| {
        assert false;
      }
    }
    assert r1.outcomes == r2.outcomes;
  }

  /** An entry whose type the build does not support is skipped and never
      stops the run: the run goes on to the next entry. */
  lemma UnsupportedSkipped(build: Build, entries: seq<Entry>, k: int)
    requires 0 <= k < |entries|
    requires entries[k].spec.scriptType != "AM"
    requires build == CompiledJs || entries[k].spec.scriptType != "AM2"
    ensures Handle(LogTool(build), entries[k]) == Success(Skipped)
    ensures var r := Run(LogTool(build), entries);
            |r.outcomes| > k ==> r.outcomes[k] == Skipped
    ensures var r := Run(LogTool(build), entries);
            r.error.Some? ==> |r.outcomes| != k
  {
    RunReports(LogTool(build), entries);
  }

  /** The two builds agree on every entry except `AM2`, which only the
      TypeScript build processes. */
  lemma BuildsAgree(e: Entry)
    ensures e.spec.scriptType != "AM2" ==> Handle(LogTool(TypeScript), e) == Handle(LogTool(CompiledJs), e)
    ensures e.spec.scriptType == "AM2" ==> Handle(LogTool(CompiledJs), e) == Success(Skipped)
    ensures e.spec.scriptType == "AM2" ==> Handle(LogTool(TypeScript), e) == Output(LegacyAM.Headers(e.spec.keywords), GroupedAM.Extract(e.spec, e.lines))
  {
  }

  /** Without `-timestamp` the audit tool handles every entry of the
      manifest. */
  lemma AuditWithoutFlagCompletes(entries: seq<Entry>)
    ensures Run(Audit(false), entries).error.None?
    ensures |Run(Audit(false), entries).outcomes| == |entries|
  {
    RunReports(Audit(false), entries);
    if Run(Audit(false), entries).error.Some? {
      var k := |Run(Audit(false), entries).outcomes|;
      AuditTool.NoFlagNeverFails(entries[k].spec, entries[k].lines);
    }
  }

  /** The run from the `i`-th entry: that entry's outcome, then the rest. */
  lemma RunFromAt(tool: Tool, done: seq<Outcome>, entries: seq<Entry>, i: int)
    requires 0 <= i < |entries|
    ensures var h := Handle(tool, entries[i]);
            RunFrom(tool, done, entries[i..])
            == if h.Failure? then Report(done, Some(h.error)) else RunFrom(tool, done + [h.value], entries[i + 1..])
  {
    assert entries[i..][0] == entries[i];
    assert entries[i..][1..] == entries[i + 1..];
  }

  /** `main` / the top-level `forEach`: the entries in order, each through
      its processor. */
  method RunManifest(tool: Tool, entries: seq<Entry>) returns (report: Report)
    ensures report == Run(tool, entries)
    ensures Reports(tool, entries, report)
  {
    var outcomes: seq<Outcome> := [];
    var i := 0;
    while i < |entries|
      invariant 0 <= i <= |entries| && |outcomes| == i
      invariant RunFrom(tool, outcomes, entries[i..]) == Run(tool, entries)
    {
      var e := entries[i];
      RunFromAt(tool, outcomes, entries, i);
      var outcome := HandleEntry(tool, e);
      if outcome.Failure? {
        report := Report(outcomes, Some(outcome.error));
        RunReports(tool, entries);
        return;
      }
      outcomes := outcomes + [outcome.value];
      i := i + 1;
    }
    report := Report(outcomes, None);
    RunReports(tool, entries);
  }

  /** The `switch` on `scriptType` (or, in the audit tool, the one call). */
  method HandleEntry(tool: Tool, e: Entry) returns (outcome: Result<Outcome, ProcessError>)
    ensures outcome == Handle(tool, e)
  {
    var headers: seq<Header>;
    var rows: Result<seq<Record>, ProcessError>;
    match tool {
      case Audit(epochs) =>
        headers, rows := AuditTool.ProcessFile(e.spec, epochs, e.lines);
      case LogTool(build) =>
        if e.spec.scriptType == "AM" {
          headers, rows := LegacyAM.ProcessFile(e.spec, e.lines);
        } else if e.spec.scriptType == "AM2" && build == TypeScript {
          headers, rows := GroupedAM.ProcessFile(e.spec, e.lines);
        } else {
          return Success(Skipped);
        }
    }
    outcome := Output(headers, rows);
  }
}
