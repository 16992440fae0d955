/** The audit tool's `processFile` (index.js): one fresh record object per
    segment of the line sequence, flushed once more after the loop; with
    the `-timestamp` flag (`epochs`) each keyword hit also stores the
    parsed epoch under `tag + '-epoch'`. */
module AuditTool {
  import opened Base
  import opened JsString
  import opened Timestamp
  import opened Fields

  /** The loop state: `started`, `lineWithTimestamp`, the current `record`
      and the `records` pushed so far. */
  datatype Scan = Scan(started: bool, context: string, record: Record, records: seq<Record>)

  /** The object literal `{ filename: nickname }`. */
  function Fresh(nickname: string): Record {
    map["filename" := Text(nickname)]
  }

  function Initial(spec: FileSpec): Scan {
    Scan(false, "", Fresh(spec.nickname), [])
  }

  /** One test of the inner keyword loop. With the flag the epoch is stored
      first (its parse may throw), then the value under the tag. */
  function ApplyKeyword(rec: Record, kw: Keyword, line: string, value: string, epochs: bool)
    : Result<Record, ProcessError>
  {
    if !Includes(line, kw.pattern) then Success(rec)
    else if !epochs then Success(rec[kw.tag := Text(value)])
    else match Parse(value)
      case Failure(e) => Failure(BadTimestamp(e))
      case Success(iso) => Success(rec[kw.tag + "-epoch" := EpochOf(iso)][kw.tag := Text(value)])
  }

  /** The inner loop over the keywords, in declaration order. */
  function ApplyKeywords(rec: Record, kws: seq<Keyword>, line: string, value: string, epochs: bool)
    : Result<Record, ProcessError>
    decreases |kws|
  {
    if kws == [] then Success(rec)
    else match ApplyKeyword(rec, kws[0], line, value, epochs)
      case Failure(e) => Failure(e)
      case Success(r) => ApplyKeywords(r, kws[1..], line, value, epochs)
  }

  /** One iteration of the outer loop. */
  function Step(spec: FileSpec, epochs: bool, st: Scan, line: string): Result<Scan, ProcessError> {
    if IsStartLine(spec, line) then
      if st.started then Success(Scan(true, st.context, Fresh(spec.nickname), st.records + [st.record]))
      else Success(st.(started := true))
    else if Includes(line, spec.filename) then Success(st.(context := line))
    else match ApplyKeywords(st.record, spec.keywords, line, KeywordValue(st.context, spec.filename), epochs)
      case Failure(e) => Failure(e)
      case Success(r) => Success(st.(record := r))
  }

  /** The outer loop from state `st` over `lines`; the first exception
      ends it. */
  function Run(spec: FileSpec, epochs: bool, st: Scan, lines: seq<string>): Result<Scan, ProcessError>
    decreases |lines|
  {
    if lines == [] then Success(st)
    else match Step(spec, epochs, st, lines[0])
      case Failure(e) => Failure(e)
      case Success(next) => Run(spec, epochs, next, lines[1..])
  }

  /** The records handed to the CSV writer: those pushed in the loop and
      the one pushed after it. */
  function Extract(spec: FileSpec, epochs: bool, lines: seq<string>): Result<seq<Record>, ProcessError> {
    match Run(spec, epochs, Initial(spec), lines)
    case Failure(e) => Failure(e)
    case Success(st) => Success(st.records + [st.record])
  }

  /** The columns of one keyword. */
  function KeywordColumns(kw: Keyword, epochs: bool): seq<Header> {
    [Header(kw.tag, kw.tag)] + (if epochs then [Header(kw.tag + "-epoch", kw.tag + "-epoch")] else [])
  }

  /** The CSV header list: `filename` first, then per keyword its tag and,
      under the flag, its epoch column. */
  function Headers(kws: seq<Keyword>, epochs: bool): seq<Header>
    decreases |kws|
  {
    if kws == [] then [Header("filename", "Filename")]
    else Headers(kws[..|kws| - 1], epochs) + KeywordColumns(kws[|kws| - 1], epochs)
  }

  /** The header layout: one leading `filename` column, then the columns of
      keyword `i` at a fixed offset, in declaration order. */
  lemma {:induction false} HeadersLayout(kws: seq<Keyword>, epochs: bool)
    ensures var w := if epochs then 2 else 1;
            var h := Headers(kws, epochs);
            && |h| == 1 + w * |kws|
            && h[0] == Header("filename", "Filename")
            && (forall i :: 0 <= i < |kws| ==> h[1 + w * i] == Header(kws[i].tag, kws[i].tag))
            && (forall i :: 0 <= i < |kws| && epochs ==>
                  h[2 + w * i] == Header(kws[i].tag + "-epoch", kws[i].tag + "-epoch"))
    decreases |kws|
  {
    if kws != [] {
      var n := |kws| - 1;
      HeadersLayout(kws[..n], epochs);
      var w := if epochs then 2 else 1;
      var h := Headers(kws, epochs);
      var p := Headers(kws[..n], epochs);
      assert h == p + KeywordColumns(kws[n], epochs);
      assert |p| == 1 + w * n;
      forall i | 0 <= i < |kws|
        ensures h[1 + w * i] == Header(kws[i].tag, kws[i].tag)
        ensures epochs ==> h[2 + w * i] == Header(kws[i].tag + "-epoch", kws[i].tag + "-epoch")
      {
        if i < n {
          assert kws[..n][i] == kws[i];
        }
      }
    }
  }

  /** The header loop of `processFile`. */
  method BuildHeaders(kws: seq<Keyword>, epochs: bool) returns (headers: seq<Header>)
    ensures headers == Headers(kws, epochs)
  {
    headers := [Header("filename", "Filename")];
    var i := 0;
    while i < |kws|
      invariant 0 <= i <= |kws|
      invariant headers == Headers(kws[..i], epochs)
    {
      assert kws[..i + 1][..i] == kws[..i];
      headers := headers + [Header(kws[i].tag, kws[i].tag)];
      if epochs {
        headers := headers + [Header(kws[i].tag + "-epoch", kws[i].tag + "-epoch")];
      }
      i := i + 1;
    }
    assert kws[..|kws|] == kws;
  }

  /** `processFile` on the lines of the file: the header list and the
      records, or the exception that stops it. */
  method ProcessFile(spec: FileSpec, epochs: bool, lines: seq<string>)
    returns (headers: seq<Header>, result: Result<seq<Record>, ProcessError>)
    ensures headers == Headers(spec.keywords, epochs)
    ensures result == Extract(spec, epochs, lines)
  {
    headers := BuildHeaders(spec.keywords, epochs);
    var lineWithTimestamp := "";
    var record := Fresh(spec.nickname);
    var records: seq<Record> := [];
    var started := false;
    var i := 0;
    while i < |lines|
      invariant 0 <= i <= |lines|
      invariant Run(spec, epochs, Initial(spec), lines)
             == Run(spec, epochs, Scan(started, lineWithTimestamp, record, records), lines[i..])
    {
      var line := lines[i];
      ghost var st := Scan(started, lineWithTimestamp, record, records);
      RunAt(spec, epochs, st, lines, i);
      if Includes(line, spec.start) {
        if started {
          records := records + [record];
          record := Fresh(spec.nickname);
          started := false;
        }
        started := true;
      } else if Includes(line, spec.filename) {
        lineWithTimestamp := line;
      } else {
        var matched := MatchKeywords(spec, epochs, line, lineWithTimestamp, record);
        if matched.Failure? {
          assert Step(spec, epochs, st, line) == Failure(matched.error);
          result := Failure(matched.error);
          return;
        }
        record := matched.value;
      }
      assert Step(spec, epochs, st, line) == Success(Scan(started, lineWithTimestamp, record, records));
      assert Run(spec, epochs, st, lines[i..]) == Run(spec, epochs, Scan(started, lineWithTimestamp, record, records), lines[i + 1..]);
      i := i + 1;
    }
    records := records + [record];
    result := Success(records);
  }

  /** The inner keyword loop of a tested line: every matching keyword
      stores the value derived from the timestamp line and, under the
      flag, its parse (which may throw). */
  method MatchKeywords(spec: FileSpec, epochs: bool, line: string, lineWithTimestamp: string, working: Record)
    returns (result: Result<Record, ProcessError>)
    ensures result == ApplyKeywords(working, spec.keywords, line, KeywordValue(lineWithTimestamp, spec.filename), epochs)
  {
    ghost var value := KeywordValue(lineWithTimestamp, spec.filename);
    var record := working;
    var j := 0;
    while j < |spec.keywords|
      invariant 0 <= j <= |spec.keywords|
      invariant ApplyKeywords(working, spec.keywords, line, value, epochs)
             == ApplyKeywords(record, spec.keywords[j..], line, value, epochs)
    {
      var kw := spec.keywords[j];
      assert spec.keywords[j..][1..] == spec.keywords[j + 1..];
      if Includes(line, kw.pattern) {
        var ts := RemoveFirst(lineWithTimestamp, spec.filename + ":");
        ts := Trim(ts);
        ts := Substring(ts, 0, IndexOf(ts, "UTC"));
        if epochs {
          var epoch := Parse(ts);
          if epoch.Failure? {
            return Failure(BadTimestamp(epoch.error));
          }
          record := record[kw.tag + "-epoch" := EpochOf(epoch.value)];
        }
        record := record[kw.tag := Text(ts)];
      }
      j := j + 1;
    }
    result := Success(record);
  }

  /** The run from the `i`-th line is one step, then the run from the
      line after it. */
  lemma RunAt(spec: FileSpec, epochs: bool, st: Scan, lines: seq<string>, i: int)
    requires 0 <= i < |lines|
    ensures Run(spec, epochs, st, lines[i..])
         == match Step(spec, epochs, st, lines[i])
            case Failure(e) => Failure(e)
            case Success(next) => Run(spec, epochs, next, lines[i + 1..])
  {
    assert lines[i..][0] == lines[i];
    assert lines[i..][1..] == lines[i + 1..];
  }

  // ---------------------------------------------------------------------
  // Properties of the segmentation

  /** What one line does to the flag, the pushed records and the timestamp
      line: a start line never updates the timestamp line, a timestamp line
      is never tested against the keywords. */
  lemma StepShape(spec: FileSpec, epochs: bool, st: Scan, line: string)
    requires Step(spec, epochs, st, line).Success?
    ensures var next := Step(spec, epochs, st, line).value;
            && next.started == (st.started || IsStartLine(spec, line))
            && next.records == (if IsStartLine(spec, line) && st.started then st.records + [st.record]
                                else st.records)
            && next.context == (if IsTimestampLine(spec, line) then line else st.context)
            && (IsStartLine(spec, line) && st.started ==> next.record == Fresh(spec.nickname))
            && (!IsTestedLine(spec, line) && !(IsStartLine(spec, line) && st.started) ==> next.record == st.record)
            && (IsTestedLine(spec, line) ==>
                  ApplyKeywords(st.record, spec.keywords, line, KeywordValue(st.context, spec.filename), epochs)
                  == Success(next.record))
  {
  }

  /** With the flag, one line throws exactly when it crashes. */
  lemma StepFails(spec: FileSpec, st: Scan, line: string)
    ensures Step(spec, true, st, line).Failure? <==> Crashes(spec, st.context, line)
  {
    ApplyKeywordsFails(st.record, spec.keywords, line, KeywordValue(st.context, spec.filename));
  }

  /** Record boundaries: the first start line only sets `started`, every
      later one pushes the current record. */
  lemma {:induction false} RunCounts(spec: FileSpec, epochs: bool, st: Scan, lines: seq<string>)
    requires Run(spec, epochs, st, lines).Success?
    ensures var n := StartCount(spec, lines);
            var end := Run(spec, epochs, st, lines).value;
            && end.started == (st.started || n > 0)
            && |end.records| == |st.records| + (if st.started || n == 0 then n else n - 1)
            && end.records[..|st.records|] == st.records
    decreases |lines|
  {
    if lines != [] {
      var next := Step(spec, epochs, st, lines[0]).value;
      StepShape(spec, epochs, st, lines[0]);
      RunCounts(spec, epochs, next, lines[1..]);
      var end := Run(spec, epochs, st, lines).value;
      assert end == Run(spec, epochs, next, lines[1..]).value;
      assert StartCount(spec, lines) == (if IsStartLine(spec, lines[0]) then 1 else 0) + StartCount(spec, lines[1..]);
      assert end.records[..|next.records|][..|st.records|] == end.records[..|st.records|];
    }
  }

  /** `processFile` emits max(1, N) records for N start lines. */
  lemma RecordCount(spec: FileSpec, epochs: bool, lines: seq<string>)
    requires Extract(spec, epochs, lines).Success?
    ensures var n := StartCount(spec, lines);
            |Extract(spec, epochs, lines).value| == if n == 0 then 1 else n
  {
    RunCounts(spec, epochs, Initial(spec), lines);
  }

  lemma {:induction false} ApplyKeywordsTotal(rec: Record, kws: seq<Keyword>, line: string, value: string)
    ensures ApplyKeywords(rec, kws, line, value, false).Success?
    decreases |kws|
  {
    if kws != [] {
      ApplyKeywordsTotal(ApplyKeyword(rec, kws[0], line, value, false).value, kws[1..], line, value);
    }
  }

  lemma {:induction false} RunTotal(spec: FileSpec, st: Scan, lines: seq<string>)
    ensures Run(spec, false, st, lines).Success?
    decreases |lines|
  {
    if lines != [] {
      ApplyKeywordsTotal(st.record, spec.keywords, lines[0], KeywordValue(st.context, spec.filename));
      RunTotal(spec, Step(spec, false, st, lines[0]).value, lines[1..]);
    }
  }

  /** Without the `-timestamp` flag nothing is parsed and nothing throws. */
  lemma NoFlagNeverFails(spec: FileSpec, lines: seq<string>)
    ensures Extract(spec, false, lines).Success?
  {
    RunTotal(spec, Initial(spec), lines);
  }

  /** The timestamp line is the last timestamp line read so far; start
      lines do not reset it. */
  lemma {:induction false} RunTimestampLine(spec: FileSpec, epochs: bool, st: Scan, lines: seq<string>)
    requires Run(spec, epochs, st, lines).Success?
    ensures Run(spec, epochs, st, lines).value.context == LastTimestampLine(spec, lines, st.context)
    decreases |lines|
  {
    if lines != [] {
      assert Step(spec, epochs, st, lines[0]).Success?;
      var next := RunCons(spec, epochs, st, lines);
      RunTimestampLine(spec, epochs, next, lines[1..]);
      LastTimestampLineCons(spec, lines[0], lines[1..], st.context);
      assert [lines[0]] + lines[1..] == lines;
    }
  }

  /** With the flag, the keyword loop throws exactly when some keyword
      matches and the value does not parse. */
  lemma {:induction false} ApplyKeywordsFails(rec: Record, kws: seq<Keyword>, line: string, value: string)
    ensures ApplyKeywords(rec, kws, line, value, true).Failure?
        <==> (exists k :: 0 <= k < |kws| && Includes(line, kws[k].pattern)) && Parse(value).Failure?
    decreases |kws|
  {
    if kws != [] {
      var first := ApplyKeyword(rec, kws[0], line, value, true);
      if first.Success? {
        ApplyKeywordsFails(first.value, kws[1..], line, value);
        if exists k :: 0 <= k < |kws[1..]| && Includes(line, kws[1..][k].pattern) {
          var k :| 0 <= k < |kws[1..]| && Includes(line, kws[1..][k].pattern);
          assert Includes(line, kws[k + 1].pattern);
        }
        if exists k :: 0 <= k < |kws| && Includes(line, kws[k].pattern) {
          var k :| 0 <= k < |kws| && Includes(line, kws[k].pattern);
          if k > 0 {
            assert Includes(line, kws[1..][k - 1].pattern);
          }
        }
      }
    }
  }

  /** With the flag, the loop throws exactly when some line is a keyword hit
      whose last timestamp line before it yields no parsable value (no
      timestamp line yet, no "UTC", too few fields). */
  lemma {:induction false} RunFailsIff(spec: FileSpec, st: Scan, lines: seq<string>)
    ensures Run(spec, true, st, lines).Failure?
        <==> exists i :: 0 <= i < |lines| && CrashesAt(spec, lines, st.context, i)
    decreases |lines|
  {
    if lines != [] {
      StepFails(spec, st, lines[0]);
      if Crashes(spec, st.context, lines[0]) {
        assert lines[..0] == [];
        assert CrashesAt(spec, lines, st.context, 0);
      } else {
        var next := RunCons(spec, true, st, lines);
        RunFailsIff(spec, next, lines[1..]);
        ShiftCrash(spec, lines, st.context);
      }
    }
  }

  /** A line that does not throw hands its successor state, with the
      updated timestamp line, to the rest of the loop. */
  lemma RunCons(spec: FileSpec, epochs: bool, st: Scan, lines: seq<string>) returns (next: Scan)
    requires lines != [] && Step(spec, epochs, st, lines[0]).Success?
    ensures next == Step(spec, epochs, st, lines[0]).value
    ensures next.context == ContextAfter(spec, lines[0], st.context)
    ensures Run(spec, epochs, st, lines) == Run(spec, epochs, next, lines[1..])
  {
    next := Step(spec, epochs, st, lines[0]).value;
    StepShape(spec, epochs, st, lines[0]);
  }

  /** `processFile` with the flag throws exactly at a keyword hit whose
      timestamp value does not parse. */
  lemma ExtractFailsIff(spec: FileSpec, lines: seq<string>)
    ensures Extract(spec, true, lines).Failure?
        <==> exists i :: 0 <= i < |lines| && CrashesAt(spec, lines, "", i)
  {
    RunFailsIff(spec, Initial(spec), lines);
  }

  // ---------------------------------------------------------------------
  // Field provenance

  /** `key` is written by the keyword loop on `line`: the tag of a matching
      keyword or, under the flag, its epoch column. */
  predicate Written(kws: seq<Keyword>, line: string, epochs: bool, key: string) {
    exists k :: 0 <= k < |kws| && HitAt(kws, line, k) && (key == kws[k].tag || (epochs && key == kws[k].tag + "-epoch"))
  }

  /** No tag is another tag's epoch column, so an epoch never overwrites a
      value. */
  predicate NoEpochCollision(kws: seq<Keyword>) {
    forall a, b :: 0 <= a < |kws| && 0 <= b < |kws| ==> kws[a].tag != kws[b].tag + "-epoch"
  }

  /** The keyword loop is a left fold: the last keyword is applied last. */
  lemma {:induction false} ApplyKeywordsSnoc(rec: Record, kws: seq<Keyword>, kw: Keyword, line: string,
                                             value: string, epochs: bool)
    ensures ApplyKeywords(rec, kws + [kw], line, value, epochs)
         == match ApplyKeywords(rec, kws, line, value, epochs)
            case Failure(e) => Failure(e)
            case Success(r) => ApplyKeyword(r, kw, line, value, epochs)
    decreases |kws|
  {
    if kws == [] {
      assert [kw][1..] == [];
    } else {
      assert (kws + [kw])[1..] == kws[1..] + [kw];
      var first := ApplyKeyword(rec, kws[0], line, value, epochs);
      if first.Success? {
        ApplyKeywordsSnoc(first.value, kws[1..], kw, line, value, epochs);
      }
    }
  }

  /** The keys after the keyword loop are the keys before it plus the
      written ones. */
  lemma {:induction false} ApplyKeywordsKeys(rec: Record, kws: seq<Keyword>, line: string, value: string, epochs: bool)
    requires ApplyKeywords(rec, kws, line, value, epochs).Success?
    ensures var r := ApplyKeywords(rec, kws, line, value, epochs).value;
            forall key :: key in r <==> key in rec || Written(kws, line, epochs, key)
    ensures var r := ApplyKeywords(rec, kws, line, value, epochs).value;
            forall key :: key in rec && !Written(kws, line, epochs, key) ==> r[key] == rec[key]
    decreases |kws|
  {
    if kws != [] {
      var n := |kws| - 1;
      assert kws == kws[..n] + [kws[n]];
      ApplyKeywordsSnoc(rec, kws[..n], kws[n], line, value, epochs);
      ApplyKeywordsKeys(rec, kws[..n], line, value, epochs);
      forall key
        ensures Written(kws, line, epochs, key)
            <==> (Written(kws[..n], line, epochs, key)
                  || (HitAt(kws, line, n) && (key == kws[n].tag || (epochs && key == kws[n].tag + "-epoch"))))
      {
        WrittenSnoc(kws, line, epochs, key);
      }
    }
  }

  lemma WrittenSnoc(kws: seq<Keyword>, line: string, epochs: bool, key: string)
    requires kws != []
    ensures var n := |kws| - 1;
            Written(kws, line, epochs, key)
            <==> (Written(kws[..n], line, epochs, key)
                  || (HitAt(kws, line, n) && (key == kws[n].tag || (epochs && key == kws[n].tag + "-epoch"))))
  {
    var n := |kws| - 1;
    if Written(kws, line, epochs, key) {
      var k :| 0 <= k < |kws| && HitAt(kws, line, k) && (key == kws[k].tag || (epochs && key == kws[k].tag + "-epoch"));
      if k < n {
        assert HitAt(kws[..n], line, k);
      }
    }
    if Written(kws[..n], line, epochs, key) {
      var k :| 0 <= k < n && HitAt(kws[..n], line, k) && (key == kws[..n][k].tag || (epochs && key == kws[..n][k].tag + "-epoch"));
      assert HitAt(kws, line, k);
    }
  }

  /** Every matching keyword leaves the derived value under its tag and,
      under the flag, the parsed instant under its epoch column (when no
      tag is another's epoch column). */
  lemma {:induction false} ApplyKeywordsValues(rec: Record, kws: seq<Keyword>, line: string, value: string, epochs: bool)
    requires ApplyKeywords(rec, kws, line, value, epochs).Success?
    requires epochs ==> NoEpochCollision(kws)
    ensures var r := ApplyKeywords(rec, kws, line, value, epochs).value;
            forall k :: HitAt(kws, line, k) ==> kws[k].tag in r && r[kws[k].tag] == Text(value)
    ensures var r := ApplyKeywords(rec, kws, line, value, epochs).value;
            forall k :: HitAt(kws, line, k) && epochs ==>
              Parse(value).Success? && kws[k].tag + "-epoch" in r
              && r[kws[k].tag + "-epoch"] == EpochOf(Parse(value).value)
    decreases |kws|
  {
    if kws != [] {
      var n := |kws| - 1;
      assert kws == kws[..n] + [kws[n]];
      ApplyKeywordsSnoc(rec, kws[..n], kws[n], line, value, epochs);
      assert epochs ==> NoEpochCollision(kws[..n]) by {
        if epochs {
          forall a, b | 0 <= a < n && 0 <= b < n ensures kws[..n][a].tag != kws[..n][b].tag + "-epoch" {
            assert kws[..n][a] == kws[a] && kws[..n][b] == kws[b];
          }
        }
      }
      ApplyKeywordsValues(rec, kws[..n], line, value, epochs);
      var r := ApplyKeywords(rec, kws, line, value, epochs).value;
      forall k | HitAt(kws, line, k)
        ensures kws[k].tag in r && r[kws[k].tag] == Text(value)
        ensures epochs ==> Parse(value).Success? && kws[k].tag + "-epoch" in r
                           && r[kws[k].tag + "-epoch"] == EpochOf(Parse(value).value)
      {
        if k < n {
          assert HitAt(kws[..n], line, k);
          assert epochs ==> kws[k].tag != kws[n].tag + "-epoch";
          assert epochs ==> kws[k].tag + "-epoch" != kws[n].tag;
        }
      }
    }
  }

  // ---------------------------------------------------------------------
  // Columns, seeding and record independence

  /** `key` is a column of the header list: `filename`, a tag or, under the
      flag, a tag's epoch column. */
  predicate Column(kws: seq<Keyword>, epochs: bool, key: string) {
    key == "filename"
    || exists k :: 0 <= k < |kws| && (key == kws[k].tag || (epochs && key == kws[k].tag + "-epoch"))
  }

  predicate InColumns(kws: seq<Keyword>, epochs: bool, rec: Record) {
    forall key :: key in rec ==> Column(kws, epochs, key)
  }

  predicate AllInColumns(kws: seq<Keyword>, epochs: bool, recs: seq<Record>) {
    forall i :: 0 <= i < |recs| ==> InColumns(kws, epochs, recs[i])
  }

  /** Some header of `hs` has the id `key`. */
  predicate HasColumn(hs: seq<Header>, key: string) {
    exists h :: 0 <= h < |hs| && hs[h].id == key
  }

  /** The columns are exactly the ids of the header list. */
  lemma ColumnsAreHeaders(kws: seq<Keyword>, epochs: bool, key: string)
    ensures Column(kws, epochs, key) <==> HasColumn(Headers(kws, epochs), key)
  {
    if Column(kws, epochs, key) {
      var h := ColumnIsHeader(kws, epochs, key);
    }
    if exists h :: 0 <= h < |Headers(kws, epochs)| && Headers(kws, epochs)[h].id == key {
      var h :| 0 <= h < |Headers(kws, epochs)| && Headers(kws, epochs)[h].id == key;
      HeaderIsColumn(kws, epochs, h);
    }
  }

  lemma ColumnIsHeader(kws: seq<Keyword>, epochs: bool, key: string) returns (h: nat)
    requires Column(kws, epochs, key)
    ensures h < |Headers(kws, epochs)| && Headers(kws, epochs)[h].id == key
  {
    HeadersLayout(kws, epochs);
    if key == "filename" {
      h := 0;
    } else {
      var k :| 0 <= k < |kws| && (key == kws[k].tag || (epochs && key == kws[k].tag + "-epoch"));
      if !epochs {
        h := 1 + k;
      } else if key == kws[k].tag {
        h := 1 + 2 * k;
      } else {
        h := 2 + 2 * k;
      }
    }
  }

  lemma HeaderIsColumn(kws: seq<Keyword>, epochs: bool, h: nat)
    requires h < |Headers(kws, epochs)|
    ensures Column(kws, epochs, Headers(kws, epochs)[h].id)
  {
    HeadersLayout(kws, epochs);
    if h > 0 {
      if !epochs {
        assert h == 1 + 1 * (h - 1);
      } else {
        var k := (h - 1) / 2;
        if (h - 1) % 2 == 1 {
          assert h == 2 + 2 * k;
        } else {
          assert h == 1 + 2 * k;
        }
      }
    }
  }

  /** One line keeps every record, pushed or current, within the columns. */
  /** The keywords of a tested line only write header columns. */
  lemma ApplyInColumns(kws: seq<Keyword>, line: string, value: string, epochs: bool, rec: Record)
    requires ApplyKeywords(rec, kws, line, value, epochs).Success? && InColumns(kws, epochs, rec)
    ensures InColumns(kws, epochs, ApplyKeywords(rec, kws, line, value, epochs).value)
  {
    ApplyKeywordsKeys(rec, kws, line, value, epochs);
    var r := ApplyKeywords(rec, kws, line, value, epochs).value;
    forall key | key in r ensures Column(kws, epochs, key) {
      if !(key in rec) {
        assert Written(kws, line, epochs, key);
      }
    }
  }

  lemma StepInColumns(spec: FileSpec, epochs: bool, st: Scan, line: string)
    requires Step(spec, epochs, st, line).Success?
    requires InColumns(spec.keywords, epochs, st.record) && AllInColumns(spec.keywords, epochs, st.records)
    ensures var next := Step(spec, epochs, st, line).value;
            InColumns(spec.keywords, epochs, next.record) && AllInColumns(spec.keywords, epochs, next.records)
  {
    StepShape(spec, epochs, st, line);
    if IsTestedLine(spec, line) {
      ApplyInColumns(spec.keywords, line, KeywordValue(st.context, spec.filename), epochs, st.record);
    } else if IsStartLine(spec, line) && st.started {
      var recs := st.records + [st.record];
      assert forall i :: 0 <= i < |recs| ==> recs[i] == if i < |st.records| then st.records[i] else st.record;
      assert InColumns(spec.keywords, epochs, Fresh(spec.nickname));
    }
  }

  lemma {:induction false} RunInColumns(spec: FileSpec, epochs: bool, st: Scan, lines: seq<string>)
    requires Run(spec, epochs, st, lines).Success?
    requires InColumns(spec.keywords, epochs, st.record) && AllInColumns(spec.keywords, epochs, st.records)
    ensures var end := Run(spec, epochs, st, lines).value;
            InColumns(spec.keywords, epochs, end.record) && AllInColumns(spec.keywords, epochs, end.records)
    decreases |lines|
  {
    if lines != [] {
      StepInColumns(spec, epochs, st, lines[0]);
      RunInColumns(spec, epochs, Step(spec, epochs, st, lines[0]).value, lines[1..]);
    }
  }

  /** The CSV writer receives no field outside its header list. */
  lemma RecordsWithinHeaders(spec: FileSpec, epochs: bool, lines: seq<string>)
    requires Extract(spec, epochs, lines).Success?
    ensures forall rec, key :: rec in Extract(spec, epochs, lines).value && key in rec ==>
              HasColumn(Headers(spec.keywords, epochs), key)
  {
    var st := Initial(spec);
    assert InColumns(spec.keywords, epochs, st.record);
    RunInColumns(spec, epochs, st, lines);
    var end := Run(spec, epochs, st, lines).value;
    var recs := Extract(spec, epochs, lines).value;
    assert recs == end.records + [end.record];
    forall rec, key | rec in recs && key in rec
      ensures HasColumn(Headers(spec.keywords, epochs), key)
    {
      var i :| 0 <= i < |recs| && recs[i] == rec;
      assert InColumns(spec.keywords, epochs, recs[i]);
      assert Column(spec.keywords, epochs, key);
      ColumnsAreHeaders(spec.keywords, epochs, key);
    }
  }

  /** No keyword writes the `filename` field. */
  predicate KeepsFilename(kws: seq<Keyword>, epochs: bool) {
    forall k :: 0 <= k < |kws| ==> kws[k].tag != "filename" && (epochs ==> kws[k].tag + "-epoch" != "filename")
  }

  predicate Seeded(nickname: string, rec: Record) {
    "filename" in rec && rec["filename"] == Text(nickname)
  }

  /** The keywords of a tested line never overwrite `filename`. */
  lemma ApplySeeded(kws: seq<Keyword>, line: string, value: string, epochs: bool, rec: Record, nickname: string)
    requires KeepsFilename(kws, epochs)
    requires ApplyKeywords(rec, kws, line, value, epochs).Success? && Seeded(nickname, rec)
    ensures Seeded(nickname, ApplyKeywords(rec, kws, line, value, epochs).value)
  {
    ApplyKeywordsKeys(rec, kws, line, value, epochs);
    assert !Written(kws, line, epochs, "filename");
  }

  /** One line keeps `filename = nickname` in the current and the pushed
      records. */
  lemma StepSeeded(spec: FileSpec, epochs: bool, st: Scan, line: string)
    requires KeepsFilename(spec.keywords, epochs)
    requires Step(spec, epochs, st, line).Success?
    requires Seeded(spec.nickname, st.record)
    requires forall i :: 0 <= i < |st.records| ==> Seeded(spec.nickname, st.records[i])
    ensures var next := Step(spec, epochs, st, line).value;
            && Seeded(spec.nickname, next.record)
            && forall i :: 0 <= i < |next.records| ==> Seeded(spec.nickname, next.records[i])
  {
    StepShape(spec, epochs, st, line);
    if IsTestedLine(spec, line) {
      ApplySeeded(spec.keywords, line, KeywordValue(st.context, spec.filename), epochs, st.record, spec.nickname);
    } else if IsStartLine(spec, line) && st.started {
      var recs := st.records + [st.record];
      assert forall i :: 0 <= i < |recs| ==> recs[i] == if i < |st.records| then st.records[i] else st.record;
      assert Seeded(spec.nickname, Fresh(spec.nickname));
    }
  }

  lemma {:induction false} RunSeeded(spec: FileSpec, epochs: bool, st: Scan, lines: seq<string>)
    requires KeepsFilename(spec.keywords, epochs)
    requires Run(spec, epochs, st, lines).Success?
    requires Seeded(spec.nickname, st.record)
    requires forall i :: 0 <= i < |st.records| ==> Seeded(spec.nickname, st.records[i])
    ensures var end := Run(spec, epochs, st, lines).value;
            && Seeded(spec.nickname, end.record)
            && forall i :: 0 <= i < |end.records| ==> Seeded(spec.nickname, end.records[i])
    decreases |lines|
  {
    if lines != [] {
      assert Step(spec, epochs, st, lines[0]).Success?;
      StepSeeded(spec, epochs, st, lines[0]);
      var next := RunCons(spec, epochs, st, lines);
      RunSeeded(spec, epochs, next, lines[1..]);
    }
  }

  /** Every emitted record carries `filename = nickname` unless a keyword
      overwrites that field. */
  lemma RecordsSeeded(spec: FileSpec, epochs: bool, lines: seq<string>)
    requires KeepsFilename(spec.keywords, epochs)
    requires Extract(spec, epochs, lines).Success?
    ensures var recs := Extract(spec, epochs, lines).value;
            forall i :: 0 <= i < |recs| ==> "filename" in recs[i] && recs[i]["filename"] == Text(spec.nickname)
  {
    RunSeeded(spec, epochs, Initial(spec), lines);
  }

  /** The records `pre` pushed before a run stay in front of its outcome. */
  function Pushed(pre: seq<Record>, r: Result<Scan, ProcessError>): Result<Scan, ProcessError> {
    match r
    case Failure(e) => Failure(e)
    case Success(s) => Success(s.(records := pre + s.records))
  }

  /** One line does not look at the records already pushed. */
  lemma StepRecordsFrame(spec: FileSpec, epochs: bool, st: Scan, line: string)
    ensures Step(spec, epochs, st, line) == Pushed(st.records, Step(spec, epochs, st.(records := []), line))
  {
    assert [] + [st.record] == [st.record];
    assert st.records + [] == st.records;
  }

  lemma PushedTwice(a: seq<Record>, b: seq<Record>, r: Result<Scan, ProcessError>)
    ensures Pushed(a + b, r) == Pushed(a, Pushed(b, r))
  {
    if r.Success? {
      assert (a + b) + r.value.records == a + (b + r.value.records);
    }
  }

  /** The records already pushed do not influence the rest of the loop. */
  lemma {:induction false} RunRecordsFrame(spec: FileSpec, epochs: bool, st: Scan, lines: seq<string>)
    ensures Run(spec, epochs, st, lines) == Pushed(st.records, Run(spec, epochs, st.(records := []), lines))
    decreases |lines|
  {
    if lines == [] {
      assert st.records + [] == st.records;
    } else {
      StepRecordsFrame(spec, epochs, st, lines[0]);
      var step' := Step(spec, epochs, st.(records := []), lines[0]);
      if step'.Success? {
        var next' := step'.value;
        var next := next'.(records := st.records + next'.records);
        RunRecordsFrame(spec, epochs, next, lines[1..]);
        RunRecordsFrame(spec, epochs, next', lines[1..]);
        assert next.(records := []) == next'.(records := []);
        PushedTwice(st.records, next'.records, Run(spec, epochs, next'.(records := []), lines[1..]));
      }
    }
  }

  /** Fields never carry over: after a closing start line the loop goes on
      from a fresh record, and what it emits from there depends only on the
      timestamp line and the remaining lines. */
  lemma RunAfterClose(spec: FileSpec, epochs: bool, st: Scan, s: string, rest: seq<string>)
    requires st.started && IsStartLine(spec, s)
    ensures Run(spec, epochs, st, [s] + rest)
         == Pushed(st.records + [st.record], Run(spec, epochs, Scan(true, st.context, Fresh(spec.nickname), []), rest))
  {
    assert ([s] + rest)[1..] == rest;
    var next := Step(spec, epochs, st, s).value;
    assert next == Scan(true, st.context, Fresh(spec.nickname), st.records + [st.record]);
    RunRecordsFrame(spec, epochs, next, rest);
  }

  /** The loop over `lines + [line]` is the loop over `lines` followed by
      one more step. */
  lemma {:induction false} RunSnoc(spec: FileSpec, epochs: bool, st: Scan, lines: seq<string>, line: string)
    ensures Run(spec, epochs, st, lines + [line])
         == match Run(spec, epochs, st, lines)
            case Failure(e) => Failure(e)
            case Success(s) => Step(spec, epochs, s, line)
    decreases |lines|
  {
    if lines == [] {
      assert [line][1..] == [];
    } else {
      assert (lines + [line])[1..] == lines[1..] + [line];
      var step := Step(spec, epochs, st, lines[0]);
      if step.Success? {
        RunSnoc(spec, epochs, step.value, lines[1..], line);
      }
    }
  }

  /** A keyword matching a tested line leaves, in the current record, the
      value derived from the last timestamp line read before it. */
  lemma HitStoresValue(spec: FileSpec, epochs: bool, st: Scan, lines: seq<string>, line: string, k: int)
    requires IsTestedLine(spec, line) && HitAt(spec.keywords, line, k)
    requires epochs ==> NoEpochCollision(spec.keywords)
    requires Run(spec, epochs, st, lines + [line]).Success?
    ensures var rec := Run(spec, epochs, st, lines + [line]).value.record;
            var tag := spec.keywords[k].tag;
            tag in rec && rec[tag] == Text(KeywordValue(LastTimestampLine(spec, lines, st.context), spec.filename))
  {
    RunSnoc(spec, epochs, st, lines, line);
    var mid := Run(spec, epochs, st, lines).value;
    RunTimestampLine(spec, epochs, st, lines);
    StepShape(spec, epochs, mid, line);
    var value := KeywordValue(mid.context, spec.filename);
    ApplyKeywordsValues(mid.record, spec.keywords, line, value, epochs);
  }
}
