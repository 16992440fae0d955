/** The timestamp assembler shared, as identical copies, by the audit tool
    (`parseTimestamp`) and by every log processor class
    (`parseDateTimeString`): a `MM/DD/YYYY HH:mm:ss:SSS` string is cut on
    spaces, slashes and colons and reassembled as the ISO string
    `YYYY-MM-DDTHH:mm:ss.SSSZ` that `Date.parse` receives. */
module Timestamp {
  import opened Base
  import opened JsString

  /** The TypeError the source raises, by the statement that raises it:
      no second space-separated token (`time.split` on undefined), no third
      colon field, no fourth colon field. */
  datatype ParseError = MissingTime | MissingSecond | MissingMillisecond

  /** `parts[i]` as string concatenation sees it: a missing element is
      `undefined`, rendered as the text "undefined". */
  function Element(parts: seq<string>, i: nat): string {
    if i < |parts| then parts[i] else "undefined"
  }

  /** `s.split('.')[0]`: the text before the first dot, or all of `s`
      when it has none. */
  function BeforeDot(s: string): (r: string)
    ensures '.' !in r
    ensures |r| <= |s| && r == s[..|r|]
    ensures |r| == |s| || s[|r|] == '.'
  {
    var parts := Split(s, '.');
    JoinSplit(s, '.');
    JoinHead(parts, '.');
    parts[0]
  }

  /** A field followed by nothing or by a dot and anything keeps the
      field. */
  lemma BeforeDotOf(field: string, suffix: string)
    requires '.' !in field
    requires suffix == [] || suffix[0] == '.'
    ensures BeforeDot(field + suffix) == field
  {
    FirstPiece(field, suffix, '.');
  }

  lemma JoinHead(parts: seq<string>, c: char)
    requires |parts| >= 1
    ensures |parts[0]| <= |Join(parts, c)| && Join(parts, c)[..|parts[0]|] == parts[0]
    ensures |parts[0]| == |Join(parts, c)| || Join(parts, c)[|parts[0]|] == c
  {
    if |parts| > 1 {
      assert Join(parts, c) == parts[0] + ([c] + Join(parts[1..], c));
    }
  }

  lemma {:induction false} CountCharIn(s: string, c: char)
    ensures c in s <==> CountChar(s, c) > 0
    decreases |s|
  {
    if s != [] {
      CountCharIn(s[1..], c);
      assert s == [s[0]] + s[1..];
    }
  }

  /** The canonical string built from the time token's four colon fields
      and the date token's month-first slash fields. */
  function Assemble(dateFields: seq<string>, timeFields: seq<string>): string
    requires |timeFields| >= 4
  {
    Element(dateFields, 2) + "-" + Element(dateFields, 0) + "-" + Element(dateFields, 1)
    + "T" + timeFields[0] + ":" + timeFields[1] + ":" + BeforeDot(timeFields[2])
    + "." + BeforeDot(timeFields[3]) + "Z"
  }

  /** `parseTimestamp` / `parseDateTimeString` up to the `Date.parse` call.
      A missing date field does not throw but is rendered as "undefined". */
  function Parse(s: string): Result<string, ParseError> {
    var tokens := Split(s, ' ');
    if |tokens| < 2 then Failure(MissingTime)
    else
      var timeFields := Split(tokens[1], ':');
      if |timeFields| < 3 then Failure(MissingSecond)
      else if |timeFields| < 4 then Failure(MissingMillisecond)
      else Success(Assemble(Split(tokens[0], '/'), timeFields))
  }

  /** When the parser throws: without a space it fails on the missing time
      token; otherwise it succeeds exactly when the token after the first
      space holds at least three colons. */
  lemma ParseFailures(s: string)
    ensures Parse(s) == Failure(MissingTime) <==> ' ' !in s
    ensures Parse(s).Success? <==> ' ' in s && CountChar(Element(Split(s, ' '), 1), ':') >= 3
  {
    CountCharIn(s, ' ');
    JoinSplit(s, ' ');
    var tokens := Split(s, ' ');
    if |tokens| >= 2 {
      JoinSplit(tokens[1], ':');
    }
  }

  /** A date field: no space and no slash. */
  predicate DateField(field: string) {
    ' ' !in field && '/' !in field
  }

  /** A time field: no space and no colon. */
  predicate TimeField(field: string) {
    ' ' !in field && ':' !in field
  }

  /** What may follow the seconds or the milliseconds inside their colon
      field: nothing, or a dot and anything but a space or a colon. */
  predicate DotSuffix(suffix: string) {
    TimeField(suffix) && (suffix == [] || suffix[0] == '.')
  }

  /** Round trip: a well-formed `MM/DD/YYYY HH:mm:ss:SSS` string becomes
      `YYYY-MM-DDTHH:mm:ss.SSSZ` with every field carried over unchanged.
      Seconds and milliseconds may each be followed by a dot and more
      digits, which are cut off; the string may go on after a space (a
      zone label, say). */
  lemma {:induction false} ParseFormatted(month: string, day: string, year: string, hour: string, minute: string,
                                          second: string, secondRest: string, ms: string, msRest: string,
                                          tail: string)
    requires DateField(month) && DateField(day) && DateField(year)
    requires TimeField(hour) && TimeField(minute)
    requires TimeField(second) && '.' !in second && DotSuffix(secondRest)
    requires TimeField(ms) && '.' !in ms && DotSuffix(msRest)
    requires tail == [] || tail[0] == ' '
    ensures Parse(month + "/" + day + "/" + year + " "
                  + hour + ":" + minute + ":" + second + secondRest + ":" + ms + msRest + tail)
         == Success(year + "-" + month + "-" + day + "T" + hour + ":" + minute + ":" + second + "." + ms + "Z")
  {
    var date := month + "/" + day + "/" + year;
    var s2 := second + secondRest;
    var s3 := ms + msRest;
    var time := hour + ":" + minute + ":" + s2 + ":" + s3;
    assert month + "/" + day + "/" + year + " "
           + hour + ":" + minute + ":" + second + secondRest + ":" + ms + msRest + tail
        == date + " " + time + tail;
    DateTokens(month, day, year);
    TimeTokens(hour, minute, s2, s3);
    TimeToken(date, time, tail);
    BeforeDotOf(second, secondRest);
    BeforeDotOf(ms, msRest);
    assert Parse(date + " " + time + tail) == Success(Assemble([month, day, year], [hour, minute, s2, s3]));
  }

  lemma DateTokens(month: string, day: string, year: string)
    requires DateField(month) && DateField(day) && DateField(year)
    ensures ' ' !in month + "/" + day + "/" + year
    ensures Split(month + "/" + day + "/" + year, '/') == [month, day, year]
  {
    JoinThree(month, day, year, '/');
    SplitJoin([month, day, year], '/');
  }

  lemma TimeTokens(hour: string, minute: string, second: string, ms: string)
    requires TimeField(hour) && TimeField(minute) && TimeField(second) && TimeField(ms)
    ensures ' ' !in hour + ":" + minute + ":" + second + ":" + ms
    ensures Split(hour + ":" + minute + ":" + second + ":" + ms, ':') == [hour, minute, second, ms]
  {
    JoinFour(hour, minute, second, ms, ':');
    SplitJoin([hour, minute, second, ms], ':');
  }

  lemma JoinThree(a: string, b: string, d: string, c: char)
    ensures Join([a, b, d], c) == a + [c] + b + [c] + d
  {
    assert [a, b, d][1..] == [b, d];
    assert [b, d][1..] == [d];
    assert Join([b, d], c) == b + [c] + d;
  }

  lemma JoinFour(a: string, b: string, d: string, e: string, c: char)
    ensures Join([a, b, d, e], c) == a + [c] + b + [c] + d + [c] + e
  {
    assert [a, b, d, e][1..] == [b, d, e];
    JoinThree(b, d, e, c);
  }

  /** The time token is the text between the first and the second space. */
  lemma TimeToken(date: string, time: string, tail: string)
    requires ' ' !in date && ' ' !in time
    requires tail == [] || tail[0] == ' '
    ensures |Split(date + " " + time + tail, ' ')| >= 2
    ensures Split(date + " " + time + tail, ' ')[0] == date
    ensures Split(date + " " + time + tail, ' ')[1] == time
  {
    if tail == [] {
      assert date + " " + time + tail == date + [' '] + time;
      SplitCons(date, time, ' ');
      SplitNoSeparator(time, ' ');
    } else {
      assert tail == [' '] + tail[1..];
      assert date + " " + time + tail == date + [' '] + (time + [' '] + tail[1..]);
      SplitCons(date, time + [' '] + tail[1..], ' ');
      SplitCons(time, tail[1..], ' ');
    }
  }

  /** A time token with only three colon fields throws at the fourth,
      whatever follows it after a space. */
  lemma ThreeFieldsRefused(date: string, hour: string, minute: string, second: string, tail: string)
    requires ' ' !in date
    requires ' ' !in hour && ' ' !in minute && ' ' !in second
    requires ':' !in hour && ':' !in minute && ':' !in second
    requires tail == [] || tail[0] == ' '
    ensures Parse(date + " " + hour + ":" + minute + ":" + second + tail) == Failure(MissingMillisecond)
  {
    var time := hour + ":" + minute + ":" + second;
    assert date + " " + hour + ":" + minute + ":" + second + tail == date + " " + time + tail;
    JoinThree(hour, minute, second, ':');
    SplitJoin([hour, minute, second], ':');
    TimeToken(date, time, tail);
  }

  /** A time with a dot before the milliseconds, as in
      "10/10/2023 01:02:03.345", has three colon fields and is refused. */
  lemma DotMillisecondsRefused()
    ensures Parse("10/10/2023 01:02:03.345") == Failure(MissingMillisecond)
  {
    ThreeFieldsRefused("10/10/2023", "01", "02", "03.345", "");
    assert "10/10/2023" + " " + "01" + ":" + "02" + ":" + "03.345" + "" == "10/10/2023 01:02:03.345";
  }

  /** The value a keyword derives from the timestamp line
      "file: 10/10/2023 01:02:03.345 UTC" keeps the blank before "UTC"; it
      is refused because of its `ss.SSS` time, the blank alone is
      harmless (see `ParseFormatted`, whose `tail` may be a blank). */
  lemma TrailingBlankRefused()
    ensures Parse("10/10/2023 01:02:03.345 ") == Failure(MissingMillisecond)
  {
    ThreeFieldsRefused("10/10/2023", "01", "02", "03.345", " ");
    assert "10/10/2023" + " " + "01" + ":" + "02" + ":" + "03.345" + " " == "10/10/2023 01:02:03.345 ";
  }

  /** The empty value a keyword gets before any timestamp line is refused. */
  lemma EmptyRefused()
    ensures Parse("") == Failure(MissingTime)
  {
  }
}
