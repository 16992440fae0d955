/** What the three revisions of the record segmenter share: the manifest
    entry, the field values a record holds, the classification of a line,
    and the derivation of a keyword's value from the last timestamp line. */
module Fields {
  import opened Base
  import opened JsString
  import opened Timestamp

  /** A keyword of the manifest: the text searched for in a line and the
      name of the field it fills. In the audit tool these are `string` and
      `tag`; the log processors use `searchString` both as the pattern and
      as the field name and never read `symbol`. */
  datatype Keyword = Keyword(pattern: string, tag: string)

  /** One manifest entry. `filename` also identifies the lines that carry a
      timestamp; `nickname` is the audit tool's `nickname` and the log
      processors' `friendlyName`; `scriptType` is read by the dispatch only. */
  datatype FileSpec = FileSpec(filename: string, nickname: string, scriptType: string,
                               start: string, keywords: seq<Keyword>)

  /** A field value: extracted text, or the number `Date.parse` gives for
      the canonical ISO string `iso` (the model keeps the string). */
  datatype Value = Text(text: string) | EpochOf(iso: string)

  /** A record object or `Map`: field name to value. */
  type Record = map<string, Value>

  /** The exceptions that abort the processing of a file. */
  datatype ProcessError =
    | BadTimestamp(reason: ParseError)  // the timestamp parser indexed past its fields
    | UndefinedLine                     // `line.includes` on an undefined line
    | MissingTransactionId              // `.replace` on an undefined sixth token

  /** A CSV column: `id` is the record key, `title` the header text. */
  datatype Header = Header(id: string, title: string)

  /** A line holding the start string opens or closes a record. */
  predicate IsStartLine(spec: FileSpec, line: string) {
    Includes(line, spec.start)
  }

  /** Any other line holding the source filename is a timestamp line. */
  predicate IsTimestampLine(spec: FileSpec, line: string) {
    !IsStartLine(spec, line) && Includes(line, spec.filename)
  }

  /** Every remaining line is tested against the keywords. */
  predicate IsTestedLine(spec: FileSpec, line: string) {
    !IsStartLine(spec, line) && !Includes(line, spec.filename)
  }

  /** Some keyword matches `line`. */
  predicate HitsKeyword(spec: FileSpec, line: string) {
    exists k :: 0 <= k < |spec.keywords| && Includes(line, spec.keywords[k].pattern)
  }

  /** Keyword `k` matches `line`. */
  predicate HitAt(kws: seq<Keyword>, line: string, k: int) {
    0 <= k < |kws| && Includes(line, kws[k].pattern)
  }

  function StartCount(spec: FileSpec, lines: seq<string>): nat
    decreases |lines|
  {
    if lines == [] then 0
    else (if IsStartLine(spec, lines[0]) then 1 else 0) + StartCount(spec, lines[1..])
  }

  function TestedCount(spec: FileSpec, lines: seq<string>): nat
    decreases |lines|
  {
    if lines == [] then 0
    else (if IsTestedLine(spec, lines[0]) then 1 else 0) + TestedCount(spec, lines[1..])
  }

  /** The timestamp line in force after reading `line`. */
  function ContextAfter(spec: FileSpec, line: string, context: string): string {
    if IsTimestampLine(spec, line) then line else context
  }

  /** The last timestamp line of `lines`, or `initial` when there is none. */
  function LastTimestampLine(spec: FileSpec, lines: seq<string>, initial: string): string
    decreases |lines|
  {
    if lines == [] then initial
    else if IsTimestampLine(spec, lines[|lines| - 1]) then lines[|lines| - 1]
    else LastTimestampLine(spec, lines[..|lines| - 1], initial)
  }

  /** Reading one more line first only changes the starting point. */
  lemma {:induction false} LastTimestampLineCons(spec: FileSpec, a: string, rest: seq<string>, initial: string)
    ensures LastTimestampLine(spec, [a] + rest, initial)
         == LastTimestampLine(spec, rest, if IsTimestampLine(spec, a) then a else initial)
    decreases |rest|
  {
    var lines := [a] + rest;
    if rest == [] {
      assert lines[..0] == [];
    } else {
      assert lines[|lines| - 1] == rest[|rest| - 1];
      assert lines[..|lines| - 1] == [a] + rest[..|rest| - 1];
      LastTimestampLineCons(spec, a, rest[..|rest| - 1], initial);
    }
  }

  /** A tested line on which some keyword matches while the timestamp value
      `context` gives does not parse: the line that throws. */
  predicate Crashes(spec: FileSpec, context: string, line: string) {
    IsTestedLine(spec, line) && HitsKeyword(spec, line)
    && Parse(KeywordValue(context, spec.filename)).Failure?
  }

  /** Line `i` of `lines` crashes, read after the timestamp line `initial`. */
  predicate CrashesAt(spec: FileSpec, lines: seq<string>, initial: string, i: int)
    requires 0 <= i < |lines|
  {
    Crashes(spec, LastTimestampLine(spec, lines[..i], initial), lines[i])
  }

  /** Moving the first line into the starting timestamp line shifts the
      crashing index by one: line `i + 1` of `lines` crashes exactly when
      line `i` of the rest does, so when the first line does not crash,
      some line crashes on both sides or on neither. */
  lemma ShiftCrash(spec: FileSpec, lines: seq<string>, initial: string)
    requires lines != []
    ensures CrashesAt(spec, lines, initial, 0) <==> Crashes(spec, initial, lines[0])
    ensures forall i :: 0 <= i < |lines| - 1 ==>
              (CrashesAt(spec, lines, initial, i + 1)
               <==> CrashesAt(spec, lines[1..], ContextAfter(spec, lines[0], initial), i))
    ensures !Crashes(spec, initial, lines[0]) ==>
              ((exists i :: 0 <= i < |lines| && CrashesAt(spec, lines, initial, i))
               <==> (exists i :: 0 <= i < |lines| - 1
                       && CrashesAt(spec, lines[1..], ContextAfter(spec, lines[0], initial), i)))
  {
    var a := lines[0];
    var rest := lines[1..];
    var next := ContextAfter(spec, a, initial);
    forall i | 0 <= i < |rest|
      ensures CrashesAt(spec, lines, initial, i + 1) == CrashesAt(spec, rest, next, i)
    {
      assert lines[..i + 1] == [a] + rest[..i];
      LastTimestampLineCons(spec, a, rest[..i], initial);
    }
    assert lines[..0] == [];
    if !Crashes(spec, initial, a) {
      if exists i :: 0 <= i < |lines| && CrashesAt(spec, lines, initial, i) {
        var i :| 0 <= i < |lines| && CrashesAt(spec, lines, initial, i);
        assert CrashesAt(spec, rest, next, i - 1);
      }
      if exists i :: 0 <= i < |rest| && CrashesAt(spec, rest, next, i) {
        var i :| 0 <= i < |rest| && CrashesAt(spec, rest, next, i);
        assert CrashesAt(spec, lines, initial, i + 1);
      }
    }
  }

  /** The value a keyword hit stores (the `ts` of the source). */
  function KeywordValue(context: string, filename: string): string {
    var t := Trim(RemoveFirst(context, filename + ":"));
    Substring(t, 0, IndexOf(t, "UTC"))
  }

  /** The value is the timestamp line with its first `filename + ':'`
      removed and trimmed, cut before its first "UTC"; it is "" when the
      trimmed text holds no "UTC". */
  lemma KeywordValueMeaning(context: string, filename: string)
    ensures var t := Trim(RemoveFirst(context, filename + ":"));
            var v := KeywordValue(context, filename);
            && |v| <= |t| && v == t[..|v|]
            && !Includes(v, "UTC")
            && (Includes(t, "UTC") ==> OccursAt(t, "UTC", |v|))
            && (!Includes(t, "UTC") ==> v == [])
  {
    var t := Trim(RemoveFirst(context, filename + ":"));
    var v := KeywordValue(context, filename);
    assert forall j :: OccursAt(v, "UTC", j) ==> OccursAt(t, "UTC", j);
  }

  /** Before any timestamp line the value is "". */
  lemma KeywordValueWithoutTimestamp(filename: string)
    ensures KeywordValue("", filename) == ""
  {
  }

  /** The value of a timestamp line `filename:` + blanks + `v` + "UTC" + ...
      is exactly `v`, including any space between `v` and "UTC": trimming
      happens before the cut. */
  lemma KeywordValueOfTimestampLine(filename: string, pad: string, v: string, rest: string)
    requires AllWhitespace(pad)
    requires v == [] || !IsWhitespace(v[0])
    requires !Includes(v, "UTC")
    ensures KeywordValue(filename + ":" + pad + v + "UTC" + rest, filename) == v
  {
    var line := filename + ":" + pad + v + "UTC" + rest;
    assert line == (filename + ":") + (pad + v + "UTC" + rest);
    RemoveFirstPrefix(filename + ":", pad + v + "UTC" + rest);
    var t := RemoveFirst(line, filename + ":");
    assert t == pad + v + "UTC" + rest;
    TrimAroundUtc(pad, v, rest);
    var body := v + "UTC" + TrimEnd(rest);
    assert Trim(t) == body;
    FirstUtc(v, TrimEnd(rest));
    assert Substring(body, 0, IndexOf(body, "UTC")) == body[..|v|] == v;
  }

  lemma TrimAroundUtc(pad: string, v: string, rest: string)
    requires AllWhitespace(pad)
    requires v == [] || !IsWhitespace(v[0])
    ensures Trim(pad + v + "UTC" + rest) == v + "UTC" + TrimEnd(rest)
  {
    assert pad + v + "UTC" + rest == pad + (v + "UTC" + rest);
    TrimStartPadded(pad, v + "UTC" + rest);
    TrimEndKeeps(v + "UTC", rest);
  }

  /** "UTC" cannot overlap itself, so after a UTC-free prefix the first
      occurrence is the one that follows it. */
  lemma FirstUtc(v: string, rest: string)
    requires !Includes(v, "UTC")
    ensures IndexOf(v + "UTC" + rest, "UTC") == |v|
  {
    var body := v + "UTC" + rest;
    assert OccursAt(body, "UTC", |v|);
    forall j | 0 <= j < |v|
      ensures !OccursAt(body, "UTC", j)
    {
      if j + 3 <= |v| {
        assert v[j..j + 3] == body[j..j + 3];
        assert !OccursAt(v, "UTC", j);
      } else {
        var w := body[j..j + 3];
        assert w[|v| - j] == 'U';
        assert "UTC"[|v| - j] != 'U';
      }
    }
  }

  /** Trailing whitespace is removed only after the last non-blank
      character. */
  lemma {:induction false} TrimEndKeeps(x: string, rest: string)
    requires x != [] && !IsWhitespace(x[|x| - 1])
    ensures TrimEnd(x + rest) == x + TrimEnd(rest)
    decreases |rest|
  {
    if rest != [] && IsWhitespace(rest[|rest| - 1]) {
      assert (x + rest)[..|x + rest| - 1] == x + rest[..|rest| - 1];
      TrimEndKeeps(x, rest[..|rest| - 1]);
    } else if rest == [] {
      assert x + rest == x;
    }
  }
}
