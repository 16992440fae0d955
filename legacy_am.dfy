/** The log processors' `processFile` for `AM` files: the legacy class of
    logtool.ts and its compiled twin `AMLogProcessor` in logtool.js, which
    run the same loop. One working `Map` lives for the whole file and is
    never cleared; a start line that closes a record pushes the `Map`
    object itself, every tested line pushes a snapshot of it, nothing is
    pushed after the loop, and every keyword hit parses its value. */
module LegacyAM {
  import opened Base
  import opened JsString
  import opened Timestamp
  import opened Fields

  /** A row of `records`: the working `Map` itself, whose contents are
      whatever it holds when the rows are written, or a copy made by
      `Object.fromEntries`. */
  datatype Row = Live | Snapshot(fields: Record)

  /** The loop state: `started`, `lineWithTimestamp`, the working `Map`
      and the rows pushed so far. */
  datatype Scan = Scan(started: bool, context: string, working: Record, rows: seq<Row>)

  const Initial: Scan := Scan(false, "", map[], [])

  /** One keyword test: a hit stores the value under `searchString`, then
      the parsed instant under `searchString + '-epoch'` (the parse may
      throw). */
  function ApplyKeyword(rec: Record, kw: Keyword, line: string, value: string): Result<Record, ProcessError> {
    if !Includes(line, kw.pattern) then Success(rec)
    else match Parse(value)
      case Failure(e) => Failure(BadTimestamp(e))
      case Success(iso) => Success(rec[kw.pattern := Text(value)][kw.pattern + "-epoch" := EpochOf(iso)])
  }

  function ApplyKeywords(rec: Record, kws: seq<Keyword>, line: string, value: string): Result<Record, ProcessError>
    decreases |kws|
  {
    if kws == [] then Success(rec)
    else match ApplyKeyword(rec, kws[0], line, value)
      case Failure(e) => Failure(e)
      case Success(r) => ApplyKeywords(r, kws[1..], line, value)
  }

  /** One iteration of the loop. */
  function Step(spec: FileSpec, st: Scan, line: string): Result<Scan, ProcessError> {
    if IsStartLine(spec, line) then
      if st.started then Success(Scan(true, st.context, st.working["filename" := Text(spec.nickname)], st.rows + [Live]))
      else Success(st.(started := true))
    else if Includes(line, spec.filename) then Success(st.(context := line))
    else match ApplyKeywords(st.working, spec.keywords, line, KeywordValue(st.context, spec.filename))
      case Failure(e) => Failure(e)
      case Success(r) => Success(st.(working := r, rows := st.rows + [Snapshot(r)]))
  }

  function Run(spec: FileSpec, st: Scan, lines: seq<string>): Result<Scan, ProcessError>
    decreases |lines|
  {
    if lines == [] then Success(st)
    else match Step(spec, st, lines[0])
      case Failure(e) => Failure(e)
      case Success(next) => Run(spec, next, lines[1..])
  }

  /** The rows as the CSV writer receives them once the loop is over: a
      live row shows the final contents of the working `Map`. */
  function Resolve(rows: seq<Row>, working: Record): (out: seq<Record>)
    ensures |out| == |rows|
    ensures forall i :: 0 <= i < |rows| ==> out[i] == if rows[i].Live? then working else rows[i].fields
  {
    seq(|rows|, i requires 0 <= i < |rows| => if rows[i].Live? then working else rows[i].fields)
  }

  /** The rows of a file, or the exception that stops it. */
  function Extract(spec: FileSpec, lines: seq<string>): Result<seq<Record>, ProcessError> {
    match Run(spec, Initial, lines)
    case Failure(e) => Failure(e)
    case Success(st) => Success(Resolve(st.rows, st.working))
  }

  /** The header list: for each keyword its search string, then its epoch
      column; there is no `filename` column. */
  function Headers(kws: seq<Keyword>): seq<Header>
    decreases |kws|
  {
    if kws == [] then []
    else Headers(kws[..|kws| - 1])
         + [Header(kws[|kws| - 1].pattern, kws[|kws| - 1].pattern),
            Header(kws[|kws| - 1].pattern + "-epoch", kws[|kws| - 1].pattern + "-epoch")]
  }

  /** Two columns per keyword, in declaration order. */
  lemma {:induction false} HeadersLayout(kws: seq<Keyword>)
    ensures |Headers(kws)| == 2 * |kws|
    ensures forall i :: 0 <= i < |kws| ==>
              Headers(kws)[2 * i] == Header(kws[i].pattern, kws[i].pattern)
              && Headers(kws)[2 * i + 1] == Header(kws[i].pattern + "-epoch", kws[i].pattern + "-epoch")
    decreases |kws|
  {
    if kws != [] {
      var n := |kws| - 1;
      HeadersLayout(kws[..n]);
      forall i | 0 <= i < n
        ensures Headers(kws)[2 * i] == Header(kws[i].pattern, kws[i].pattern)
        ensures Headers(kws)[2 * i + 1] == Header(kws[i].pattern + "-epoch", kws[i].pattern + "-epoch")
      {
        assert kws[..n][i] == kws[i];
      }
    }
  }

  method BuildHeaders(kws: seq<Keyword>) returns (headers: seq<Header>)
    ensures headers == Headers(kws)
  {
    headers := [];
    var i := 0;
    while i < |kws|
      invariant 0 <= i <= |kws|
      invariant headers == Headers(kws[..i])
    {
      assert kws[..i + 1][..i] == kws[..i];
      headers := headers + [Header(kws[i].pattern, kws[i].pattern)];
      headers := headers + [Header(kws[i].pattern + "-epoch", kws[i].pattern + "-epoch")];
      i := i + 1;
    }
    assert kws[..|kws|] == kws;
  }

  /** The loop of `processFile`, from the line array to the rows and the
      final working `Map`, or the exception that stops it. */
  method ScanLines(spec: FileSpec, lines: seq<string>) returns (result: Result<Scan, ProcessError>)
    ensures result == Run(spec, Initial, lines)
  {
    var lineWithTimestamp := "";
    var record: Record := map[];
    var records: seq<Row> := [];
    var started := false;
    var i := 0;
    while i < |lines|
      invariant 0 <= i <= |lines|
      invariant Run(spec, Initial, lines) == Run(spec, Scan(started, lineWithTimestamp, record, records), lines[i..])
    {
      var line := lines[i];
      ghost var st := Scan(started, lineWithTimestamp, record, records);
      RunAt(spec, st, lines, i);
      if Includes(line, spec.start) {
        if started {
          records := records + [Live];
          record := record["filename" := Text(spec.nickname)];
          started := false;
        }
        started := true;
        assert Step(spec, st, line) == Success(Scan(started, lineWithTimestamp, record, records));
      } else if Includes(line, spec.filename) {
        lineWithTimestamp := line;
        assert Step(spec, st, line) == Success(Scan(started, lineWithTimestamp, record, records));
      } else {
        var matched := MatchKeywords(spec, line, lineWithTimestamp, record);
        if matched.Failure? {
          assert Step(spec, st, line) == Failure(matched.error);
          return Failure(matched.error);
        }
        record := matched.value;
        records := records + [Snapshot(record)];
        assert Step(spec, st, line) == Success(Scan(started, lineWithTimestamp, record, records));
      }
      assert Run(spec, st, lines[i..]) == Run(spec, Scan(started, lineWithTimestamp, record, records), lines[i + 1..]);
      i := i + 1;
    }
    result := Success(Scan(started, lineWithTimestamp, record, records));
  }

  /** The inner keyword loop of a tested line: each matching keyword stores
      the value derived from the timestamp line, then its parse. */
  method MatchKeywords(spec: FileSpec, line: string, lineWithTimestamp: string, working: Record)
    returns (result: Result<Record, ProcessError>)
    ensures result == ApplyKeywords(working, spec.keywords, line, KeywordValue(lineWithTimestamp, spec.filename))
  {
    ghost var value := KeywordValue(lineWithTimestamp, spec.filename);
    var record := working;
    var j := 0;
    while j < |spec.keywords|
      invariant 0 <= j <= |spec.keywords|
      invariant ApplyKeywords(working, spec.keywords, line, value)
             == ApplyKeywords(record, spec.keywords[j..], line, value)
    {
      var kw := spec.keywords[j];
      assert spec.keywords[j..] == [kw] + spec.keywords[j + 1..];
      if Includes(line, kw.pattern) {
        var ts := RemoveFirst(lineWithTimestamp, spec.filename + ":");
        ts := Trim(ts);
        ts := Substring(ts, 0, IndexOf(ts, "UTC"));
        record := record[kw.pattern := Text(ts)];
        var epoch := Parse(ts);
        if epoch.Failure? {
          return Failure(BadTimestamp(epoch.error));
        }
        record := record[kw.pattern + "-epoch" := EpochOf(epoch.value)];
      }
      j := j + 1;
    }
    result := Success(record);
  }

  /** `processFile`: the header list and the rows handed to the writer. */
  method ProcessFile(spec: FileSpec, lines: seq<string>)
    returns (headers: seq<Header>, result: Result<seq<Record>, ProcessError>)
    ensures headers == Headers(spec.keywords)
    ensures result == Extract(spec, lines)
  {
    headers := BuildHeaders(spec.keywords);
    var scan := ScanLines(spec, lines);
    if scan.Failure? {
      return headers, Failure(scan.error);
    }
    result := Success(Resolve(scan.value.rows, scan.value.working));
  }

  // ---------------------------------------------------------------------
  // Properties of the loop

  /** What one line does: a closing start line pushes a live row and sets
      `filename` on the working `Map`; a timestamp line only moves the
      timestamp line; a tested line pushes a snapshot of the updated
      `Map`. */
  lemma StepShape(spec: FileSpec, st: Scan, line: string)
    requires Step(spec, st, line).Success?
    ensures var next := Step(spec, st, line).value;
            && next.started == (st.started || IsStartLine(spec, line))
            && next.context == ContextAfter(spec, line, st.context)
            && (IsStartLine(spec, line) && st.started ==>
                  next.rows == st.rows + [Live] && next.working == st.working["filename" := Text(spec.nickname)])
            && (IsStartLine(spec, line) && !st.started ==> next.rows == st.rows && next.working == st.working)
            && (IsTimestampLine(spec, line) ==> next.rows == st.rows && next.working == st.working)
            && (IsTestedLine(spec, line) ==>
                  ApplyKeywords(st.working, spec.keywords, line, KeywordValue(st.context, spec.filename))
                  == Success(next.working)
                  && next.rows == st.rows + [Snapshot(next.working)])
  {
  }

  /** The number of live rows. */
  function LiveCount(rows: seq<Row>): nat
    decreases |rows|
  {
    if rows == [] then 0
    else LiveCount(rows[..|rows| - 1]) + (if rows[|rows| - 1].Live? then 1 else 0)
  }

  lemma {:induction false} LiveCountAppend(rows: seq<Row>, more: seq<Row>)
    ensures LiveCount(rows + more) == LiveCount(rows) + LiveCount(more)
    decreases |more|
  {
    if more == [] {
      assert rows + more == rows;
    } else {
      var n := |more| - 1;
      assert (rows + more)[..|rows + more| - 1] == rows + more[..n];
      LiveCountAppend(rows, more[..n]);
    }
  }

  /** Row accounting: every closing start line pushes one live row, every
      tested line one snapshot, and nothing else pushes. */
  lemma {:induction false} RunCounts(spec: FileSpec, st: Scan, lines: seq<string>)
    requires Run(spec, st, lines).Success?
    ensures var n := StartCount(spec, lines);
            var closes := if st.started || n == 0 then n else n - 1;
            var end := Run(spec, st, lines).value;
            && end.started == (st.started || n > 0)
            && |end.rows| == |st.rows| + closes + TestedCount(spec, lines)
            && end.rows[..|st.rows|] == st.rows
            && LiveCount(end.rows) == LiveCount(st.rows) + closes
    decreases |lines|
  {
    if lines != [] {
      var line := lines[0];
      var next := Step(spec, st, line).value;
      StepCounts(spec, st, line);
      RunCounts(spec, next, lines[1..]);
      var end := Run(spec, st, lines).value;
      assert end == Run(spec, next, lines[1..]).value;
      assert StartCount(spec, lines) == (if IsStartLine(spec, line) then 1 else 0) + StartCount(spec, lines[1..]);
      assert TestedCount(spec, lines) == (if IsTestedLine(spec, line) then 1 else 0) + TestedCount(spec, lines[1..]);
      assert end.rows[..|next.rows|][..|st.rows|] == end.rows[..|st.rows|];
    }
  }

  lemma StepCounts(spec: FileSpec, st: Scan, line: string)
    requires Step(spec, st, line).Success?
    ensures var next := Step(spec, st, line).value;
            var closes := if IsStartLine(spec, line) && st.started then 1 else 0;
            && next.started == (st.started || IsStartLine(spec, line))
            && |next.rows| == |st.rows| + closes + (if IsTestedLine(spec, line) then 1 else 0)
            && next.rows[..|st.rows|] == st.rows
            && LiveCount(next.rows) == LiveCount(st.rows) + closes
  {
    var next := Step(spec, st, line).value;
    StepShape(spec, st, line);
    if next.rows != st.rows {
      assert next.rows == st.rows + [next.rows[|st.rows|]];
      LiveCountAppend(st.rows, [next.rows[|st.rows|]]);
      assert [next.rows[|st.rows|]][..0] == [];
    }
  }

  /** For N start lines and M tested lines the writer receives
      max(0, N - 1) + M rows, of which max(0, N - 1) are the live `Map`. */
  lemma RowCount(spec: FileSpec, lines: seq<string>)
    requires Extract(spec, lines).Success?
    ensures var n := StartCount(spec, lines);
            && |Extract(spec, lines).value| == (if n == 0 then 0 else n - 1) + TestedCount(spec, lines)
            && LiveCount(Run(spec, Initial, lines).value.rows) == if n == 0 then 0 else n - 1
  {
    RunCounts(spec, Initial, lines);
  }

  /** The keyword loop throws exactly when some keyword matches and the
      value does not parse. */
  lemma {:induction false} ApplyKeywordsFails(rec: Record, kws: seq<Keyword>, line: string, value: string)
    ensures ApplyKeywords(rec, kws, line, value).Failure?
        <==> (exists k :: 0 <= k < |kws| && Includes(line, kws[k].pattern)) && Parse(value).Failure?
    decreases |kws|
  {
    if kws != [] {
      var first := ApplyKeyword(rec, kws[0], line, value);
      if first.Success? {
        ApplyKeywordsFails(first.value, kws[1..], line, value);
        if exists k :: 0 <= k < |kws[1..]| && Includes(line, kws[1..][k].pattern) {
          var k :| 0 <= k < |kws[1..]| && Includes(line, kws[1..][k].pattern);
          assert Includes(line, kws[k + 1].pattern);
        }
        if exists k :: 0 <= k < |kws| && Includes(line, kws[k].pattern) {
          var k :| 0 <= k < |kws| && Includes(line, kws[k].pattern);
          if k > 0 {
            assert Includes(line, kws[1..][k - 1].pattern);
          }
        }
      }
    }
  }

  lemma StepFails(spec: FileSpec, st: Scan, line: string)
    ensures Step(spec, st, line).Failure? <==> Crashes(spec, st.context, line)
  {
    ApplyKeywordsFails(st.working, spec.keywords, line, KeywordValue(st.context, spec.filename));
  }

  /** The run from the `i`-th line is one step, then the run from the
      line after it. */
  lemma RunAt(spec: FileSpec, st: Scan, lines: seq<string>, i: int)
    requires 0 <= i < |lines|
    ensures Run(spec, st, lines[i..])
         == match Step(spec, st, lines[i])
            case Failure(e) => Failure(e)
            case Success(next) => Run(spec, next, lines[i + 1..])
  {
    assert lines[i..][0] == lines[i];
    assert lines[i..][1..] == lines[i + 1..];
  }

  lemma RunCons(spec: FileSpec, st: Scan, lines: seq<string>) returns (next: Scan)
    requires lines != [] && Step(spec, st, lines[0]).Success?
    ensures next == Step(spec, st, lines[0]).value
    ensures next.context == ContextAfter(spec, lines[0], st.context)
    ensures Run(spec, st, lines) == Run(spec, next, lines[1..])
  {
    next := Step(spec, st, lines[0]).value;
    StepShape(spec, st, lines[0]);
  }

  /** The loop throws exactly when some line is a keyword hit whose last
      timestamp line before it yields an unparsable value. */
  lemma {:induction false} RunFailsIff(spec: FileSpec, st: Scan, lines: seq<string>)
    ensures Run(spec, st, lines).Failure?
        <==> exists i :: 0 <= i < |lines| && CrashesAt(spec, lines, st.context, i)
    decreases |lines|
  {
    if lines != [] {
      StepFails(spec, st, lines[0]);
      if Crashes(spec, st.context, lines[0]) {
        assert lines[..0] == [];
        assert CrashesAt(spec, lines, st.context, 0);
      } else {
        var next := RunCons(spec, st, lines);
        RunFailsIff(spec, next, lines[1..]);
        ShiftCrash(spec, lines, st.context);
      }
    }
  }

  /** Unlike the audit tool, every hit is parsed: a file whose first
      keyword hit comes before any timestamp line always throws. */
  lemma ExtractFailsIff(spec: FileSpec, lines: seq<string>)
    ensures Extract(spec, lines).Failure?
        <==> exists i :: 0 <= i < |lines| && CrashesAt(spec, lines, "", i)
  {
    RunFailsIff(spec, Initial, lines);
  }

  // ---------------------------------------------------------------------
  // Fields of the working Map

  /** `key` is written by the keyword loop on `line`: the search string of
      a matching keyword or its epoch column. */
  predicate Written(kws: seq<Keyword>, line: string, key: string) {
    exists k :: 0 <= k < |kws| && HitAt(kws, line, k) && (key == kws[k].pattern || key == kws[k].pattern + "-epoch")
  }

  /** No search string is another's epoch column. */
  predicate NoEpochCollision(kws: seq<Keyword>) {
    forall a, b :: 0 <= a < |kws| && 0 <= b < |kws| ==> kws[a].pattern != kws[b].pattern + "-epoch"
  }

  lemma {:induction false} ApplyKeywordsSnoc(rec: Record, kws: seq<Keyword>, kw: Keyword, line: string, value: string)
    ensures ApplyKeywords(rec, kws + [kw], line, value)
         == match ApplyKeywords(rec, kws, line, value)
            case Failure(e) => Failure(e)
            case Success(r) => ApplyKeyword(r, kw, line, value)
    decreases |kws|
  {
    if kws == [] {
      assert [kw][1..] == [];
    } else {
      assert (kws + [kw])[1..] == kws[1..] + [kw];
      var first := ApplyKeyword(rec, kws[0], line, value);
      if first.Success? {
        ApplyKeywordsSnoc(first.value, kws[1..], kw, line, value);
      }
    }
  }

  /** The keyword loop adds the written keys and changes nothing else. */
  lemma {:induction false} ApplyKeywordsKeys(rec: Record, kws: seq<Keyword>, line: string, value: string)
    requires ApplyKeywords(rec, kws, line, value).Success?
    ensures var r := ApplyKeywords(rec, kws, line, value).value;
            forall key :: key in r <==> key in rec || Written(kws, line, key)
    ensures var r := ApplyKeywords(rec, kws, line, value).value;
            forall key :: key in rec && !Written(kws, line, key) ==> r[key] == rec[key]
    decreases |kws|
  {
    if kws != [] {
      var n := |kws| - 1;
      assert kws == kws[..n] + [kws[n]];
      ApplyKeywordsSnoc(rec, kws[..n], kws[n], line, value);
      ApplyKeywordsKeys(rec, kws[..n], line, value);
      forall key
        ensures Written(kws, line, key)
            <==> (Written(kws[..n], line, key)
                  || (HitAt(kws, line, n) && (key == kws[n].pattern || key == kws[n].pattern + "-epoch")))
      {
        WrittenSnoc(kws, line, key);
      }
    }
  }

  lemma WrittenSnoc(kws: seq<Keyword>, line: string, key: string)
    requires kws != []
    ensures var n := |kws| - 1;
            Written(kws, line, key)
            <==> (Written(kws[..n], line, key)
                  || (HitAt(kws, line, n) && (key == kws[n].pattern || key == kws[n].pattern + "-epoch")))
  {
    var n := |kws| - 1;
    if Written(kws, line, key) {
      var k :| 0 <= k < |kws| && HitAt(kws, line, k) && (key == kws[k].pattern || key == kws[k].pattern + "-epoch");
      if k < n {
        assert HitAt(kws[..n], line, k);
      }
    }
    if Written(kws[..n], line, key) {
      var k :| 0 <= k < n && HitAt(kws[..n], line, k) && (key == kws[..n][k].pattern || key == kws[..n][k].pattern + "-epoch");
      assert HitAt(kws, line, k);
    }
  }

  /** Every matching keyword leaves the value under its search string and
      the parsed instant under its epoch column (when no search string is
      another's epoch column). */
  lemma {:induction false} ApplyKeywordsValues(rec: Record, kws: seq<Keyword>, line: string, value: string)
    requires ApplyKeywords(rec, kws, line, value).Success?
    requires NoEpochCollision(kws)
    ensures var r := ApplyKeywords(rec, kws, line, value).value;
            forall k :: HitAt(kws, line, k) ==>
              && Parse(value).Success?
              && kws[k].pattern in r && r[kws[k].pattern] == Text(value)
              && kws[k].pattern + "-epoch" in r && r[kws[k].pattern + "-epoch"] == EpochOf(Parse(value).value)
    decreases |kws|
  {
    if kws != [] {
      var n := |kws| - 1;
      assert kws == kws[..n] + [kws[n]];
      ApplyKeywordsSnoc(rec, kws[..n], kws[n], line, value);
      assert NoEpochCollision(kws[..n]) by {
        forall a, b | 0 <= a < n && 0 <= b < n ensures kws[..n][a].pattern != kws[..n][b].pattern + "-epoch" {
          assert kws[..n][a] == kws[a] && kws[..n][b] == kws[b];
        }
      }
      ApplyKeywordsValues(rec, kws[..n], line, value);
      var r := ApplyKeywords(rec, kws, line, value).value;
      forall k | HitAt(kws, line, k)
        ensures && Parse(value).Success?
                && kws[k].pattern in r && r[kws[k].pattern] == Text(value)
                && kws[k].pattern + "-epoch" in r && r[kws[k].pattern + "-epoch"] == EpochOf(Parse(value).value)
      {
        if k < n {
          assert HitAt(kws[..n], line, k);
          assert kws[k].pattern != kws[n].pattern + "-epoch";
          assert kws[k].pattern + "-epoch" != kws[n].pattern;
        }
      }
    }
  }

  /** The loop over `lines + [line]` is the loop over `lines` followed by
      one more step. */
  lemma {:induction false} RunSnoc(spec: FileSpec, st: Scan, lines: seq<string>, line: string)
    ensures Run(spec, st, lines + [line])
         == match Run(spec, st, lines)
            case Failure(e) => Failure(e)
            case Success(s) => Step(spec, s, line)
    decreases |lines|
  {
    if lines == [] {
      assert [line][1..] == [];
    } else {
      assert (lines + [line])[1..] == lines[1..] + [line];
      var step := Step(spec, st, lines[0]);
      if step.Success? {
        RunSnoc(spec, step.value, lines[1..], line);
      }
    }
  }

  lemma {:induction false} RunTimestampLine(spec: FileSpec, st: Scan, lines: seq<string>)
    requires Run(spec, st, lines).Success?
    ensures Run(spec, st, lines).value.context == LastTimestampLine(spec, lines, st.context)
    decreases |lines|
  {
    if lines != [] {
      assert Step(spec, st, lines[0]).Success?;
      var next := RunCons(spec, st, lines);
      RunTimestampLine(spec, next, lines[1..]);
      LastTimestampLineCons(spec, lines[0], lines[1..], st.context);
      assert [lines[0]] + lines[1..] == lines;
    }
  }

  /** A keyword matching a tested line stores both the value derived from
      the last timestamp line and its parsed instant, and the snapshot
      pushed for that line shows them. */
  lemma HitStoresBoth(spec: FileSpec, st: Scan, lines: seq<string>, line: string, k: int)
    requires IsTestedLine(spec, line) && HitAt(spec.keywords, line, k)
    requires NoEpochCollision(spec.keywords)
    requires Run(spec, st, lines + [line]).Success?
    ensures var end := Run(spec, st, lines + [line]).value;
            var p := spec.keywords[k].pattern;
            var v := KeywordValue(LastTimestampLine(spec, lines, st.context), spec.filename);
            && |end.rows| > 0 && end.rows[|end.rows| - 1] == Snapshot(end.working)
            && p in end.working && end.working[p] == Text(v)
            && Parse(v).Success?
            && p + "-epoch" in end.working && end.working[p + "-epoch"] == EpochOf(Parse(v).value)
  {
    RunSnoc(spec, st, lines, line);
    var mid := Run(spec, st, lines).value;
    RunTimestampLine(spec, st, lines);
    StepShape(spec, mid, line);
    ApplyKeywordsValues(mid.working, spec.keywords, line, KeywordValue(mid.context, spec.filename));
  }

  /** Fields accumulate: snapshots never lose a key, and every snapshot's
      keys are still in the working `Map`. */
  predicate Accumulated(rows: seq<Row>, working: Record) {
    && (forall i, j :: 0 <= i < j < |rows| && rows[i].Snapshot? && rows[j].Snapshot? ==>
          rows[i].fields.Keys <= rows[j].fields.Keys)
    && (forall i :: 0 <= i < |rows| && rows[i].Snapshot? ==> rows[i].fields.Keys <= working.Keys)
  }

  lemma StepAccumulates(spec: FileSpec, st: Scan, line: string)
    requires Step(spec, st, line).Success?
    requires Accumulated(st.rows, st.working)
    ensures var next := Step(spec, st, line).value;
            Accumulated(next.rows, next.working) && st.working.Keys <= next.working.Keys
  {
    var next := Step(spec, st, line).value;
    StepShape(spec, st, line);
    if IsTestedLine(spec, line) {
      ApplyKeywordsKeys(st.working, spec.keywords, line, KeywordValue(st.context, spec.filename));
    }
    assert st.working.Keys <= next.working.Keys;
    assert next.rows[..|st.rows|] == st.rows;
    assert |next.rows| == |st.rows| || (|next.rows| == |st.rows| + 1
             && (next.rows[|st.rows|].Live? || next.rows[|st.rows|] == Snapshot(next.working)));
    forall i, j | 0 <= i < j < |next.rows| && next.rows[i].Snapshot? && next.rows[j].Snapshot?
      ensures next.rows[i].fields.Keys <= next.rows[j].fields.Keys
    {
      assert next.rows[i] == st.rows[i];
      if j < |st.rows| {
        assert next.rows[j] == st.rows[j];
      }
    }
    forall i | 0 <= i < |next.rows| && next.rows[i].Snapshot?
      ensures next.rows[i].fields.Keys <= next.working.Keys
    {
      if i < |st.rows| {
        assert next.rows[i] == st.rows[i];
      }
    }
  }

  lemma {:induction false} RunAccumulates(spec: FileSpec, st: Scan, lines: seq<string>)
    requires Run(spec, st, lines).Success?
    requires Accumulated(st.rows, st.working)
    ensures var end := Run(spec, st, lines).value;
            Accumulated(end.rows, end.working) && st.working.Keys <= end.working.Keys
    decreases |lines|
  {
    if lines != [] {
      StepAccumulates(spec, st, lines[0]);
      var next := RunCons(spec, st, lines);
      RunAccumulates(spec, next, lines[1..]);
    }
  }

  /** The working `Map` is never cleared: along the rows the writer
      receives, the snapshot keys only grow, and a live row shows every key
      any row has. */
  lemma FieldsAccumulate(spec: FileSpec, lines: seq<string>)
    requires Extract(spec, lines).Success?
    ensures var end := Run(spec, Initial, lines).value;
            var recs := Extract(spec, lines).value;
            && (forall i, j :: 0 <= i < j < |recs| && end.rows[i].Snapshot? && end.rows[j].Snapshot? ==>
                  recs[i].Keys <= recs[j].Keys)
            && (forall i, j :: 0 <= i < |recs| && 0 <= j < |recs| && end.rows[j].Live? ==>
                  recs[i].Keys <= recs[j].Keys)
  {
    RunAccumulates(spec, Initial, lines);
  }

  /** No keyword writes the `filename` field. */
  predicate KeepsFilename(kws: seq<Keyword>) {
    forall k :: 0 <= k < |kws| ==> kws[k].pattern != "filename" && kws[k].pattern + "-epoch" != "filename"
  }

  /** `filename` appears in the working `Map` at the first closing start
      line, with the nickname, and stays. */
  lemma {:induction false} RunFilename(spec: FileSpec, st: Scan, lines: seq<string>)
    requires KeepsFilename(spec.keywords)
    requires Run(spec, st, lines).Success?
    requires "filename" in st.working ==> st.working["filename"] == Text(spec.nickname)
    ensures var n := StartCount(spec, lines);
            var closes := if st.started || n == 0 then n else n - 1;
            var end := Run(spec, st, lines).value;
            && ("filename" in end.working <==> "filename" in st.working || closes > 0)
            && ("filename" in end.working ==> end.working["filename"] == Text(spec.nickname))
    decreases |lines|
  {
    if lines != [] {
      var line := lines[0];
      StepShape(spec, st, line);
      if IsTestedLine(spec, line) {
        ApplyKeywordsKeys(st.working, spec.keywords, line, KeywordValue(st.context, spec.filename));
        assert !Written(spec.keywords, line, "filename");
      }
      var next := RunCons(spec, st, lines);
      RunFilename(spec, next, lines[1..]);
      assert StartCount(spec, lines) == (if IsStartLine(spec, line) then 1 else 0) + StartCount(spec, lines[1..]);
    }
  }

  /** `filename` is set only after the first close: the working `Map` has
      it exactly when there are at least two start lines, and then every
      live row shows the nickname. */
  lemma FilenameAfterFirstClose(spec: FileSpec, lines: seq<string>)
    requires KeepsFilename(spec.keywords)
    requires Extract(spec, lines).Success?
    ensures var end := Run(spec, Initial, lines).value;
            var recs := Extract(spec, lines).value;
            && ("filename" in end.working <==> StartCount(spec, lines) >= 2)
            && forall i :: 0 <= i < |recs| && end.rows[i].Live? ==>
                 "filename" in recs[i] && recs[i]["filename"] == Text(spec.nickname)
  {
    RunFilename(spec, Initial, lines);
    RunCounts(spec, Initial, lines);
    var end := Run(spec, Initial, lines).value;
    forall i | 0 <= i < |end.rows| && end.rows[i].Live?
      ensures StartCount(spec, lines) >= 2
    {
      LiveCountPositive(end.rows, i);
    }
  }

  lemma {:induction false} LiveCountPositive(rows: seq<Row>, i: int)
    requires 0 <= i < |rows| && rows[i].Live?
    ensures LiveCount(rows) > 0
    decreases |rows|
  {
    if i < |rows| - 1 {
      assert rows[..|rows| - 1][i] == rows[i];
      LiveCountPositive(rows[..|rows| - 1], i);
    }
  }
}
