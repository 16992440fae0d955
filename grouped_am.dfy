/** The `AM2` processor of logtool.ts: the lines are first grouped by
    transaction id and flattened, then run through the same segmenting
    loop as the legacy processor. The flattened array can hold `undefined`
    (the successor of a marker on the last line), on which `line.includes`
    throws. */
module GroupedAM {
  import opened Base
  import opened JsString
  import opened Fields
  import opened Transactions
  import Timestamp
  import LegacyAM

  /** The segmenting loop over the flattened array: an `undefined` entry
      throws, a defined one is one step of the legacy loop. */
  function RunLines(spec: FileSpec, st: LegacyAM.Scan, xs: seq<Option<string>>): Result<LegacyAM.Scan, ProcessError>
    decreases |xs|
  {
    if xs == [] then Success(st)
    else if xs[0].None? then Failure(UndefinedLine)
    else match LegacyAM.Step(spec, st, xs[0].value)
      case Failure(e) => Failure(e)
      case Success(next) => RunLines(spec, next, xs[1..])
  }

  /** The array of defined lines `lines`. */
  function Lift(lines: seq<string>): (xs: seq<Option<string>>)
    ensures |xs| == |lines| && None !in xs
  {
    seq(|lines|, i requires 0 <= i < |lines| => Some(lines[i]))
  }

  /** The lines of an array without `undefined` entries. */
  function Unlift(xs: seq<Option<string>>): (lines: seq<string>)
    requires None !in xs
    ensures |lines| == |xs|
  {
    seq(|xs|, i requires 0 <= i < |xs| => assert xs[i] in xs; xs[i].value)
  }

  /** The flattened line array of a file, or the exception raised while
      grouping it. */
  function Grouped(lines: seq<string>): Result<seq<Option<string>>, ProcessError> {
    match Group(lines)
    case Failure(e) => Failure(e)
    case Success(t) => GroupShape(lines); Success(Flatten(t))
  }

  /** The rows of an `AM2` file, or the exception that stops it. */
  function Extract(spec: FileSpec, lines: seq<string>): Result<seq<Record>, ProcessError> {
    match Grouped(lines)
    case Failure(e) => Failure(e)
    case Success(xs) =>
      match RunLines(spec, LegacyAM.Initial, xs)
      case Failure(e) => Failure(e)
      case Success(st) => Success(LegacyAM.Resolve(st.rows, st.working))
  }

  /** Over defined lines the loop is the legacy loop. */
  lemma {:induction false} RunLift(spec: FileSpec, st: LegacyAM.Scan, lines: seq<string>)
    ensures RunLines(spec, st, Lift(lines)) == LegacyAM.Run(spec, st, lines)
    decreases |lines|
  {
    if lines != [] {
      assert Lift(lines)[1..] == Lift(lines[1..]);
      var step := LegacyAM.Step(spec, st, lines[0]);
      if step.Success? {
        RunLift(spec, step.value, lines[1..]);
      }
    }
  }

  /** An `undefined` entry anywhere makes the loop throw: it throws there
      unless an earlier line already has. */
  lemma {:induction false} UndefinedFails(spec: FileSpec, st: LegacyAM.Scan, xs: seq<Option<string>>)
    requires None in xs
    ensures RunLines(spec, st, xs).Failure?
    decreases |xs|
  {
    if xs[0].Some? {
      assert xs == [xs[0]] + xs[1..];
      var step := LegacyAM.Step(spec, st, xs[0].value);
      if step.Success? {
        UndefinedFails(spec, step.value, xs[1..]);
      }
    }
  }

  lemma LiftUnlift(xs: seq<Option<string>>)
    requires None !in xs
    ensures Lift(Unlift(xs)) == xs
  {
    forall i | 0 <= i < |xs| ensures Lift(Unlift(xs))[i] == xs[i] {
      assert xs[i] in xs;
    }
  }

  /** A file that goes through is processed exactly as the legacy
      processor would process its flattened array, which holds no
      `undefined` entry. */
  lemma ExtractIsLegacy(spec: FileSpec, lines: seq<string>)
    requires Extract(spec, lines).Success?
    ensures Grouped(lines).Success? && None !in Grouped(lines).value
    ensures Extract(spec, lines) == LegacyAM.Extract(spec, Unlift(Grouped(lines).value))
  {
    var xs := Grouped(lines).value;
    if None in xs {
      UndefinedFails(spec, LegacyAM.Initial, xs);
    }
    LiftUnlift(xs);
    RunLift(spec, LegacyAM.Initial, Unlift(xs));
  }

  /** Row count: with N start lines and M tested lines in the flattened
      array, max(0, N - 1) + M rows. */
  lemma GroupedRowCount(spec: FileSpec, lines: seq<string>)
    requires Extract(spec, lines).Success?
    ensures Grouped(lines).Success? && None !in Grouped(lines).value
    ensures var flat := Unlift(Grouped(lines).value);
            var n := StartCount(spec, flat);
            |Extract(spec, lines).value| == (if n == 0 then 0 else n - 1) + TestedCount(spec, flat)
  {
    ExtractIsLegacy(spec, lines);
    LegacyAM.RowCount(spec, Unlift(Grouped(lines).value));
  }

  /** The flattened array holds `undefined` exactly when the scan takes
      the last line as a marker, which then has no successor. */
  lemma GroupedUndefinedIff(lines: seq<string>)
    requires Grouped(lines).Success?
    ensures None in Grouped(lines).value <==> |lines| > 0 && ScanTakes(lines, 0, |lines| - 1)
  {
    GroupShape(lines);
    LastLineUndefined(lines);
    var xs := Grouped(lines).value;
    var rows := Rows(PairsFrom(lines, 0).value);
    assert multiset(xs) == multiset(rows);
    assert None in xs <==> None in multiset(xs);
    assert None in rows <==> None in multiset(rows);
  }

  /** A file whose last line the scan takes as a marker cannot go through:
      grouping throws, or the loop throws at `line.includes` on the
      `undefined` successor, if nothing threw before. */
  lemma LastMarkerFails(spec: FileSpec, lines: seq<string>)
    requires |lines| > 0 && ScanTakes(lines, 0, |lines| - 1)
    ensures Extract(spec, lines).Failure?
  {
    if Grouped(lines).Success? {
      GroupedUndefinedIff(lines);
      UndefinedFails(spec, LegacyAM.Initial, Grouped(lines).value);
    }
  }

  /** The plainest such file: a marker on the last line, right after a
      line that is not one. */
  lemma LastMarkerAlone(lines: seq<string>)
    requires |lines| > 0 && Includes(lines[|lines| - 1], Marker)
    requires |lines| == 1 || !Includes(lines[|lines| - 2], Marker)
    ensures ScanTakes(lines, 0, |lines| - 1)
  {
    assert RunStart(lines, |lines| - 1) == |lines| - 1;
  }

  /** The run from the `i`-th entry: `undefined` throws, a line is one
      step and then the run from the entry after it. */
  lemma RunLinesAt(spec: FileSpec, st: LegacyAM.Scan, xs: seq<Option<string>>, i: int)
    requires 0 <= i < |xs|
    ensures RunLines(spec, st, xs[i..])
         == if xs[i].None? then Failure(UndefinedLine)
            else match LegacyAM.Step(spec, st, xs[i].value)
              case Failure(e) => Failure(e)
              case Success(next) => RunLines(spec, next, xs[i + 1..])
  {
    assert xs[i..][0] == xs[i];
    assert xs[i..][1..] == xs[i + 1..];
  }

  /** The AM2 loop as written: the legacy loop over the flattened array,
      where `line.includes(start)` throws on `undefined`. */
  method ScanLineArray(spec: FileSpec, lineArray: seq<Option<string>>)
    returns (result: Result<LegacyAM.Scan, ProcessError>)
    ensures result == RunLines(spec, LegacyAM.Initial, lineArray)
  {
    var lineWithTimestamp := "";
    var record: Record := map[];
    var records: seq<LegacyAM.Row> := [];
    var started := false;
    var i := 0;
    while i < |lineArray|
      invariant 0 <= i <= |lineArray|
      invariant RunLines(spec, LegacyAM.Initial, lineArray)
             == RunLines(spec, LegacyAM.Scan(started, lineWithTimestamp, record, records), lineArray[i..])
    {
      ghost var st := LegacyAM.Scan(started, lineWithTimestamp, record, records);
      RunLinesAt(spec, st, lineArray, i);
      if lineArray[i].None? {
        return Failure(UndefinedLine);
      }
      var line := lineArray[i].value;
      if Includes(line, spec.start) {
        if started {
          records := records + [LegacyAM.Live];
          record := record["filename" := Text(spec.nickname)];
          started := false;
        }
        started := true;
      } else if Includes(line, spec.filename) {
        lineWithTimestamp := line;
      } else {
        var matched := LegacyAM.MatchKeywords(spec, line, lineWithTimestamp, record);
        if matched.Failure? {
          assert LegacyAM.Step(spec, st, line) == Failure(matched.error);
          return Failure(matched.error);
        }
        record := matched.value;
        records := records + [LegacyAM.Snapshot(record)];
      }
      assert LegacyAM.Step(spec, st, line) == Success(LegacyAM.Scan(started, lineWithTimestamp, record, records));
      assert RunLines(spec, st, lineArray[i..])
          == RunLines(spec, LegacyAM.Scan(started, lineWithTimestamp, record, records), lineArray[i + 1..]);
      i := i + 1;
    }
    result := Success(LegacyAM.Scan(started, lineWithTimestamp, record, records));
  }

  /** `processFile` of the AM2 class: the header list, then grouping,
      flattening and the loop. */
  method ProcessFile(spec: FileSpec, lines: seq<string>)
    returns (headers: seq<Header>, result: Result<seq<Record>, ProcessError>)
    ensures headers == LegacyAM.Headers(spec.keywords)
    ensures result == Extract(spec, lines)
  {
    headers := LegacyAM.BuildHeaders(spec.keywords);
    var sorted := SortByTransactionId(lines);
    if sorted.Failure? {
      result := Failure(sorted.error);
      return;
    }
    GroupShape(lines);
    var lineArray := FlattenBlocks(sorted.value);
    var scan := ScanLineArray(spec, lineArray);
    if scan.Failure? {
      result := Failure(scan.error);
      return;
    }
    result := Success(LegacyAM.Resolve(scan.value.rows, scan.value.working));
  }
}
