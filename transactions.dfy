/** `sortRecordsByTransactionId` of the `AM2` processor (logtool.ts) and the
    flattening that follows it: every line holding "TransactionId" is taken
    together with the line after it (JS `undefined` past the end) and
    appended to the block of its transaction id; the blocks keep the order
    in which their ids were first seen and are then concatenated. */
module Transactions {
  import opened Base
  import opened JsString
  import opened Fields

  const Marker: string := "TransactionId"

  /** `line.split(' ')[5].replace('TransactionId[', '').replace(']', '')`;
      with fewer than six tokens `replace` is called on `undefined`. */
  function MarkerId(line: string): Result<string, ProcessError> {
    var tokens := Split(line, ' ');
    if |tokens| < 6 then Failure(MissingTransactionId)
    else Success(RemoveFirst(RemoveFirst(tokens[5], "TransactionId["), "]"))
  }

  /** `lnes[i]`: the line, or `undefined` past the end. */
  function At(lines: seq<string>, i: nat): Option<string> {
    if i < |lines| then Some(lines[i]) else None
  }

  /** The `Map<string, Array<string>>`: `ids` is its key order (insertion
      order), `blocks` its contents. */
  datatype Table = Table(ids: seq<string>, blocks: map<string, seq<Option<string>>>)

  const Empty: Table := Table([], map[])

  /** Every id is stored once, and exactly the ids in `ids` have a block. */
  predicate Valid(t: Table) {
    && (forall i, j :: 0 <= i < j < |t.ids| ==> t.ids[i] != t.ids[j])
    && t.blocks.Keys == set id | id in t.ids
  }

  /** Appending to an existing block keeps the key order; a new id goes
      last. */
  function Append(t: Table, id: string, rows: seq<Option<string>>): Table {
    if id in t.blocks then Table(t.ids, t.blocks[id := t.blocks[id] + rows])
    else Table(t.ids + [id], t.blocks[id := rows])
  }

  /** The grouping loop from index `i`. A marker consumes the next line, so
      the scan resumes two lines further on. */
  function GroupFrom(t: Table, lines: seq<string>, i: nat): Result<Table, ProcessError>
    decreases |lines| + 1 - i
  {
    if i >= |lines| then Success(t)
    else if !Includes(lines[i], Marker) then GroupFrom(t, lines, i + 1)
    else match MarkerId(lines[i])
      case Failure(e) => Failure(e)
      case Success(id) => GroupFrom(Append(t, id, [Some(lines[i]), At(lines, i + 1)]), lines, i + 2)
  }

  function Group(lines: seq<string>): Result<Table, ProcessError> {
    GroupFrom(Empty, lines, 0)
  }

  /** The blocks of `ids`, concatenated in that order. */
  function FlattenIds(ids: seq<string>, blocks: map<string, seq<Option<string>>>): seq<Option<string>>
    requires forall id :: id in ids ==> id in blocks
    decreases |ids|
  {
    if ids == [] then []
    else FlattenIds(ids[..|ids| - 1], blocks) + blocks[ids[|ids| - 1]]
  }

  /** `sortedRecords.forEach((value, _) => lineArray.push(...value))`. */
  function Flatten(t: Table): seq<Option<string>>
    requires Valid(t)
  {
    FlattenIds(t.ids, t.blocks)
  }

  /** The grouping loop as written: `i` is advanced once more inside the
      loop body when a marker is found. */
  method SortByTransactionId(lines: seq<string>) returns (result: Result<Table, ProcessError>)
    ensures result == Group(lines)
  {
    var ids: seq<string> := [];
    var blocks: map<string, seq<Option<string>>> := map[];
    var i := 0;
    while i < |lines|
      invariant 0 <= i <= |lines| + 1
      invariant GroupFrom(Table(ids, blocks), lines, i) == Group(lines)
      decreases |lines| + 1 - i
    {
      var line := lines[i];
      if Includes(line, Marker) {
        var tokens := Split(line, ' ');
        if |tokens| < 6 {
          return Failure(MissingTransactionId);
        }
        var id := RemoveFirst(RemoveFirst(tokens[5], "TransactionId["), "]");
        i := i + 1;
        var nextLine := if i < |lines| then Some(lines[i]) else None;
        if id !in blocks {
          ids := ids + [id];
          blocks := blocks[id := [Some(line), nextLine]];
        } else {
          blocks := blocks[id := blocks[id] + [Some(line), nextLine]];
        }
      }
      i := i + 1;
    }
    result := Success(Table(ids, blocks));
  }

  /** The flattening loop. */
  method FlattenBlocks(t: Table) returns (lineArray: seq<Option<string>>)
    requires Valid(t)
    ensures lineArray == Flatten(t)
  {
    lineArray := [];
    var k := 0;
    while k < |t.ids|
      invariant 0 <= k <= |t.ids|
      invariant lineArray == FlattenIds(t.ids[..k], t.blocks)
    {
      assert t.ids[..k + 1][..k] == t.ids[..k];
      lineArray := lineArray + t.blocks[t.ids[k]];
      k := k + 1;
    }
    assert t.ids[..|t.ids|] == t.ids;
  }

  // ---------------------------------------------------------------------
  // The transaction id

  /** The id of a marker line whose sixth token is `TransactionId[id]`. */
  lemma MarkerIdOf(pre: seq<string>, id: string, tail: string)
    requires |pre| == 5 && forall k :: 0 <= k < 5 ==> ' ' !in pre[k]
    requires ' ' !in id && ']' !in id
    requires tail == [] || tail[0] == ' '
    ensures MarkerId(Join(pre, ' ') + " " + MarkerToken(id) + tail) == Success(id)
  {
    StripMarker(id);
    SixthToken(pre, MarkerToken(id), tail);
  }

  /** The sixth token a marker line carries. */
  function MarkerToken(id: string): string {
    "TransactionId[" + id + "]"
  }

  lemma SixthToken(pre: seq<string>, tok: string, tail: string)
    requires |pre| == 5 && forall k :: 0 <= k < 5 ==> ' ' !in pre[k]
    requires ' ' !in tok
    requires tail == [] || tail[0] == ' '
    ensures |Split(Join(pre, ' ') + " " + tok + tail, ' ')| >= 6
    ensures Split(Join(pre, ' ') + " " + tok + tail, ' ')[5] == tok
  {
    var line := Join(pre, ' ') + " " + tok + tail;
    assert line == Join(pre, ' ') + [' '] + (tok + tail);
    SplitAfterJoin(pre, tok + tail, ' ');
    FirstPiece(tok, tail, ' ');
  }

  lemma StripMarker(id: string)
    requires ']' !in id
    ensures ' ' !in id ==> ' ' !in MarkerToken(id)
    ensures RemoveFirst(RemoveFirst(MarkerToken(id), "TransactionId["), "]") == id
  {
    StripPrefix(id);
    StripBracket(id);
  }

  lemma StripPrefix(id: string)
    ensures RemoveFirst(MarkerToken(id), "TransactionId[") == id + "]"
  {
    assert "TransactionId[" + id + "]" == "TransactionId[" + (id + "]");
    RemoveFirstPrefix("TransactionId[", id + "]");
  }

  lemma StripBracket(id: string)
    requires ']' !in id
    ensures RemoveFirst(id + "]", "]") == id
  {
    RemoveFirstChar(id, ']', "");
    assert id + [']'] + "" == id + "]";
    assert id + "" == id;
  }

  // ---------------------------------------------------------------------
  // The pairs the scan takes

  /** A marker line taken at index `at`, its id and the line after it. */
  datatype Pair = Pair(at: nat, id: string, line: string, next: Option<string>)

  function PairRows(p: Pair): seq<Option<string>> {
    [Some(p.line), p.next]
  }

  /** The pairs the grouping loop takes from index `i` on, in scan order. */
  function PairsFrom(lines: seq<string>, i: nat): Result<seq<Pair>, ProcessError>
    decreases |lines| + 1 - i
  {
    if i >= |lines| then Success([])
    else if !Includes(lines[i], Marker) then PairsFrom(lines, i + 1)
    else match MarkerId(lines[i])
      case Failure(e) => Failure(e)
      case Success(id) =>
        match PairsFrom(lines, i + 2)
        case Failure(e) => Failure(e)
        case Success(rest) => Success([Pair(i, id, lines[i], At(lines, i + 1))] + rest)
  }

  /** Appending the pairs one by one, in order. */
  function InsertAll(t: Table, ps: seq<Pair>): Table
    decreases |ps|
  {
    if ps == [] then t else InsertAll(Append(t, ps[0].id, PairRows(ps[0])), ps[1..])
  }

  /** The grouping loop appends exactly the pairs the scan takes. */
  lemma {:induction false} GroupPairs(t: Table, lines: seq<string>, i: nat)
    ensures GroupFrom(t, lines, i)
         == match PairsFrom(lines, i)
            case Failure(e) => Failure(e)
            case Success(ps) => Success(InsertAll(t, ps))
    decreases |lines| + 1 - i
  {
    if i < |lines| {
      if !Includes(lines[i], Marker) {
        GroupPairs(t, lines, i + 1);
      } else if MarkerId(lines[i]).Success? {
        var id := MarkerId(lines[i]).value;
        var p := Pair(i, id, lines[i], At(lines, i + 1));
        GroupPairs(Append(t, id, PairRows(p)), lines, i + 2);
        var rest := PairsFrom(lines, i + 2);
        if rest.Success? {
          assert ([p] + rest.value)[1..] == rest.value;
        }
      }
    }
  }

  /** A pair the scan takes: a marker line at its index, with its id and
      the line after it (`None` past the end). */
  predicate Taken(lines: seq<string>, p: Pair) {
    && p.at < |lines|
    && p.line == lines[p.at]
    && Includes(p.line, Marker)
    && MarkerId(p.line) == Success(p.id)
    && p.next == At(lines, p.at + 1)
  }

  /** Every pair is a marker line at or after `i`, with its id and the line
      after it. */
  lemma {:induction false} PairsSound(lines: seq<string>, i: nat)
    requires PairsFrom(lines, i).Success?
    ensures forall p :: p in PairsFrom(lines, i).value ==> i <= p.at && Taken(lines, p)
    decreases |lines| + 1 - i
  {
    if i < |lines| {
      if !Includes(lines[i], Marker) {
        PairsSound(lines, i + 1);
      } else {
        PairsSound(lines, i + 2);
        var ps := PairsFrom(lines, i).value;
        assert ps == [ps[0]] + PairsFrom(lines, i + 2).value;
      }
    }
  }

  /** Pairs are taken in increasing order, at least two lines apart: a
      taken successor is never itself tested. */
  lemma {:induction false} PairsOrdered(lines: seq<string>, i: nat)
    requires PairsFrom(lines, i).Success?
    ensures var ps := PairsFrom(lines, i).value;
            (forall k :: 0 <= k < |ps| ==> i <= ps[k].at)
            && (forall k :: 0 <= k < |ps| - 1 ==> ps[k].at + 2 <= ps[k + 1].at)
    decreases |lines| + 1 - i
  {
    if i < |lines| {
      if !Includes(lines[i], Marker) {
        PairsOrdered(lines, i + 1);
      } else {
        PairsOrdered(lines, i + 2);
        var ps := PairsFrom(lines, i).value;
        var rest := PairsFrom(lines, i + 2).value;
        assert ps == [ps[0]] + rest;
        forall k | 0 <= k < |ps| - 1 ensures ps[k].at + 2 <= ps[k + 1].at {
          if k > 0 {
            assert ps[k] == rest[k - 1] && ps[k + 1] == rest[k];
          }
        }
      }
    }
  }

  /** No marker line escapes the scan: each is taken, or is the successor
      of a taken one. */
  lemma {:induction false} PairsComplete(lines: seq<string>, i: nat)
    requires PairsFrom(lines, i).Success?
    ensures var ps := PairsFrom(lines, i).value;
            forall j :: i <= j < |lines| && Includes(lines[j], Marker) ==>
              exists k :: 0 <= k < |ps| && (ps[k].at == j || ps[k].at + 1 == j)
    decreases |lines| + 1 - i
  {
    if i < |lines| {
      var ps := PairsFrom(lines, i).value;
      if !Includes(lines[i], Marker) {
        PairsComplete(lines, i + 1);
      } else {
        PairsComplete(lines, i + 2);
        var rest := PairsFrom(lines, i + 2).value;
        assert ps == [ps[0]] + rest;
        forall j | i <= j < |lines| && Includes(lines[j], Marker)
          ensures exists k :: 0 <= k < |ps| && (ps[k].at == j || ps[k].at + 1 == j)
        {
          if j <= i + 1 {
            assert ps[0].at == i;
          } else {
            var k :| 0 <= k < |rest| && (rest[k].at == j || rest[k].at + 1 == j);
            assert ps[k + 1] == rest[k];
          }
        }
      }
    }
  }

  /** When every marker line has six tokens the scan cannot throw. */
  lemma {:induction false} PairsTotal(lines: seq<string>, i: nat)
    requires forall j :: i <= j < |lines| && Includes(lines[j], Marker) ==> |Split(lines[j], ' ')| >= 6
    ensures PairsFrom(lines, i).Success?
    decreases |lines| + 1 - i
  {
    if i < |lines| {
      if !Includes(lines[i], Marker) {
        PairsTotal(lines, i + 1);
      } else {
        PairsTotal(lines, i + 2);
      }
    }
  }

  /** The first line of the run of consecutive marker lines that ends at
      line `j`, or `j + 1` when line `j` is not a marker line. */
  function RunStart(lines: seq<string>, j: nat): (s: nat)
    requires j < |lines|
    ensures s <= j + 1
    ensures s == j + 1 <==> !Includes(lines[j], Marker)
    ensures forall m :: s <= m <= j ==> Includes(lines[m], Marker)
    ensures s > 0 ==> !Includes(lines[s - 1], Marker)
    decreases j
  {
    if !Includes(lines[j], Marker) then j + 1
    else if j == 0 then 0
    else RunStart(lines, j - 1)
  }

  /** The scan started at line `i` takes line `j` as a marker: `j` is a
      marker line at an even distance from where the scan entered the run
      of marker lines holding it (the run's first line, or `i` itself).
      Every other marker line of a run is consumed as a successor. */
  predicate ScanTakes(lines: seq<string>, i: nat, j: nat) {
    && i <= j < |lines|
    && Includes(lines[j], Marker)
    && (j - (if RunStart(lines, j) < i then i else RunStart(lines, j))) % 2 == 0
  }

  /** The scan takes its first line exactly when it is a marker, and then
      skips the successor. */
  lemma ScanTakesFirst(lines: seq<string>, i: nat)
    requires i < |lines|
    ensures ScanTakes(lines, i, i) <==> Includes(lines[i], Marker)
    ensures Includes(lines[i], Marker) ==> !ScanTakes(lines, i, i + 1)
  {
    if i + 1 < |lines| && Includes(lines[i], Marker) && Includes(lines[i + 1], Marker) {
      assert RunStart(lines, i + 1) <= i;
    }
  }

  /** Past a line that is not a marker the scan takes the same lines as
      the scan started after it. */
  lemma ScanTakesSkip(lines: seq<string>, i: nat, j: nat)
    requires i < j < |lines| && !Includes(lines[i], Marker)
    ensures ScanTakes(lines, i, j) <==> ScanTakes(lines, i + 1, j)
  {
    if Includes(lines[j], Marker) {
      assert RunStart(lines, j) > i;
    }
  }

  /** Past a taken marker and its successor the scan takes the same lines
      as the scan resumed two lines on. */
  lemma ScanTakesResume(lines: seq<string>, i: nat, j: nat)
    requires i + 2 <= j < |lines| && Includes(lines[i], Marker)
    ensures ScanTakes(lines, i, j) <==> ScanTakes(lines, i + 2, j)
  {
    if Includes(lines[j], Marker) {
      var s := RunStart(lines, j);
      assert s != i + 1;
      if s <= i {
        assert (j - i) % 2 == (j - (i + 2)) % 2;
      }
    }
  }

  lemma ScanTakesShift(lines: seq<string>, i: nat, j: nat)
    requires i < |lines|
    ensures ScanTakes(lines, i, i) <==> Includes(lines[i], Marker)
    ensures Includes(lines[i], Marker) ==> !ScanTakes(lines, i, i + 1)
    ensures !Includes(lines[i], Marker) && i + 1 <= j ==> (ScanTakes(lines, i, j) <==> ScanTakes(lines, i + 1, j))
    ensures Includes(lines[i], Marker) && i + 2 <= j ==> (ScanTakes(lines, i, j) <==> ScanTakes(lines, i + 2, j))
  {
    ScanTakesFirst(lines, i);
    if i < j < |lines| {
      if Includes(lines[i], Marker) {
        if i + 2 <= j {
          ScanTakesResume(lines, i, j);
        }
      } else {
        ScanTakesSkip(lines, i, j);
      }
    }
  }

  /** Some pair of `ps` was taken at line `j`. */
  predicate TakesAt(ps: seq<Pair>, j: int) {
    exists k :: 0 <= k < |ps| && ps[k].at == j
  }

  lemma TakesAtCons(p: Pair, ps: seq<Pair>, j: int)
    ensures TakesAt([p] + ps, j) <==> p.at == j || TakesAt(ps, j)
  {
    var q := [p] + ps;
    if TakesAt(ps, j) {
      var k :| 0 <= k < |ps| && ps[k].at == j;
      assert q[k + 1] == ps[k];
    }
    if TakesAt(q, j) && p.at != j {
      var k :| 0 <= k < |q| && q[k].at == j;
      assert ps[k - 1] == q[k];
    }
    if p.at == j {
      assert q[0] == p;
    }
  }

  /** The pairs the scan takes from line `i` sit exactly at the lines
      `ScanTakes` names. */
  lemma {:induction false} PairsAtTaken(lines: seq<string>, i: nat)
    requires PairsFrom(lines, i).Success?
    ensures forall j :: i <= j < |lines| ==> (TakesAt(PairsFrom(lines, i).value, j) <==> ScanTakes(lines, i, j))
    decreases |lines| + 1 - i
  {
    if i < |lines| {
      var ps := PairsFrom(lines, i).value;
      var resume := if Includes(lines[i], Marker) then i + 2 else i + 1;
      var rest := PairsFrom(lines, resume).value;
      PairsAtTaken(lines, resume);
      PairsSound(lines, resume);
      if Includes(lines[i], Marker) {
        assert ps == [ps[0]] + rest && ps[0].at == i;
      }
      forall j | i <= j < |lines| ensures TakesAt(ps, j) <==> ScanTakes(lines, i, j) {
        ScanTakesShift(lines, i, j);
        if Includes(lines[i], Marker) {
          TakesAtCons(ps[0], rest, j);
        }
        if j < resume {
          assert forall k :: 0 <= k < |rest| ==> rest[k] in rest;
          assert !TakesAt(rest, j);
        }
      }
    }
  }

  /** The scan from line `i` takes line `j`, a marker line with fewer than
      six tokens: `split(' ')[5]` is `undefined` there. */
  predicate TakesShort(lines: seq<string>, i: nat, j: nat) {
    j < |lines| && ScanTakes(lines, i, j) && |Split(lines[j], ' ')| < 6
  }

  /** One step of the scan: it throws at line `i` or later. */
  lemma PairsFromStep(lines: seq<string>, i: nat)
    requires i < |lines|
    ensures var resume := if Includes(lines[i], Marker) then i + 2 else i + 1;
            PairsFrom(lines, i).Failure?
            <==> (Includes(lines[i], Marker) && |Split(lines[i], ' ')| < 6) || PairsFrom(lines, resume).Failure?
  {
  }

  /** A short marker line the scan takes makes it throw. */
  lemma {:induction false} ShortTakenFails(lines: seq<string>, i: nat, j: nat)
    requires TakesShort(lines, i, j)
    ensures PairsFrom(lines, i).Failure?
    decreases j - i
  {
    PairsFromStep(lines, i);
    ScanTakesShift(lines, i, j);
    if j != i {
      var resume := if Includes(lines[i], Marker) then i + 2 else i + 1;
      ShortTakenFails(lines, resume, j);
    }
  }

  /** A scan that throws does so at a short marker line it takes. */
  lemma {:induction false} FailsAtShort(lines: seq<string>, i: nat) returns (j: nat)
    requires PairsFrom(lines, i).Failure?
    ensures TakesShort(lines, i, j)
    decreases |lines| + 1 - i
  {
    PairsFromStep(lines, i);
    ScanTakesShift(lines, i, i);
    if Includes(lines[i], Marker) && |Split(lines[i], ' ')| < 6 {
      j := i;
    } else {
      var resume := if Includes(lines[i], Marker) then i + 2 else i + 1;
      j := FailsAtShort(lines, resume);
      ScanTakesShift(lines, i, j);
    }
  }

  /** The scan from line `i` throws exactly when it takes a marker line
      with fewer than six tokens (the converse of `PairsTotal`, for the
      lines the scan reaches). */
  lemma PairsFailIff(lines: seq<string>, i: nat)
    ensures PairsFrom(lines, i).Failure? <==> exists j: nat :: TakesShort(lines, i, j)
  {
    if PairsFrom(lines, i).Failure? {
      var j := FailsAtShort(lines, i);
    }
    if exists j: nat :: TakesShort(lines, i, j) {
      var j: nat :| TakesShort(lines, i, j);
      ShortTakenFails(lines, i, j);
    }
  }

  /** Grouping throws exactly when the scan takes a marker line with fewer
      than six tokens. */
  lemma GroupFailsIff(lines: seq<string>)
    ensures Group(lines).Failure? <==> exists j: nat :: TakesShort(lines, 0, j)
  {
    GroupPairs(Empty, lines, 0);
    PairsFailIff(lines, 0);
  }

  /** The successors the pairs contribute include `undefined` exactly when
      some pair has none. */
  lemma {:induction false} RowsUndefined(ps: seq<Pair>)
    ensures None in Rows(ps) <==> exists k :: 0 <= k < |ps| && ps[k].next == None
    decreases |ps|
  {
    if ps != [] {
      var n := |ps| - 1;
      RowsUndefined(ps[..n]);
      assert Rows(ps) == Rows(ps[..n]) + [Some(ps[n].line), ps[n].next];
      if exists k :: 0 <= k < n && ps[..n][k].next == None {
        var k :| 0 <= k < n && ps[..n][k].next == None;
        assert ps[k].next == None;
      }
      if exists k :: 0 <= k < |ps| && ps[k].next == None {
        var k :| 0 <= k < |ps| && ps[k].next == None;
        if k < n {
          assert ps[..n][k].next == None;
        }
      }
    }
  }

  /** A taken pair lacks a successor exactly when the scan takes the last
      line. */
  lemma LastLineUndefined(lines: seq<string>)
    requires PairsFrom(lines, 0).Success?
    ensures None in Rows(PairsFrom(lines, 0).value) <==> |lines| > 0 && ScanTakes(lines, 0, |lines| - 1)
  {
    var ps := PairsFrom(lines, 0).value;
    RowsUndefined(ps);
    PairsSound(lines, 0);
    PairsAtTaken(lines, 0);
    if exists k :: 0 <= k < |ps| && ps[k].next == None {
      var k :| 0 <= k < |ps| && ps[k].next == None;
      assert ps[k] in ps;
      assert TakesAt(ps, |lines| - 1);
    }
    if |lines| > 0 && ScanTakes(lines, 0, |lines| - 1) {
      assert TakesAt(ps, |lines| - 1);
      var k :| 0 <= k < |ps| && ps[k].at == |lines| - 1;
      assert ps[k] in ps;
    }
  }

  // ---------------------------------------------------------------------
  // What grouping the pairs produces

  function Ids(ps: seq<Pair>): seq<string>
    decreases |ps|
  {
    if ps == [] then [] else Ids(ps[..|ps| - 1]) + [ps[|ps| - 1].id]
  }

  /** The ids in order of first appearance, each once. */
  function Dedup(xs: seq<string>): seq<string>
    decreases |xs|
  {
    if xs == [] then []
    else
      var d := Dedup(xs[..|xs| - 1]);
      if xs[|xs| - 1] in d then d else d + [xs[|xs| - 1]]
  }

  /** The pairs with id `id`, in scan order. */
  function Select(ps: seq<Pair>, id: string): seq<Pair>
    decreases |ps|
  {
    if ps == [] then []
    else Select(ps[..|ps| - 1], id) + (if ps[|ps| - 1].id == id then [ps[|ps| - 1]] else [])
  }

  /** The lines the pairs contribute, in order. */
  function Rows(ps: seq<Pair>): seq<Option<string>>
    decreases |ps|
  {
    if ps == [] then [] else Rows(ps[..|ps| - 1]) + PairRows(ps[|ps| - 1])
  }

  /** For each id of `ids` in turn, the lines of its pairs. */
  function GroupedRows(ids: seq<string>, ps: seq<Pair>): seq<Option<string>>
    decreases |ids|
  {
    if ids == [] then [] else GroupedRows(ids[..|ids| - 1], ps) + Rows(Select(ps, ids[|ids| - 1]))
  }

  lemma {:induction false} DedupFacts(xs: seq<string>)
    ensures forall i, j :: 0 <= i < j < |Dedup(xs)| ==> Dedup(xs)[i] != Dedup(xs)[j]
    ensures forall x :: x in Dedup(xs) <==> x in xs
    decreases |xs|
  {
    if xs != [] {
      var n := |xs| - 1;
      DedupFacts(xs[..n]);
      assert xs == xs[..n] + [xs[n]];
    }
  }

  lemma IdsLength(ps: seq<Pair>)
    ensures |Ids(ps)| == |ps|
    ensures forall k :: 0 <= k < |ps| ==> Ids(ps)[k] == ps[k].id
  {
    if ps != [] {
      var n := |ps| - 1;
      IdsLength(ps[..n]);
    }
  }

  lemma InsertAllSnoc(t: Table, ps: seq<Pair>, p: Pair)
    ensures InsertAll(t, ps + [p]) == Append(InsertAll(t, ps), p.id, PairRows(p))
    decreases |ps|
  {
    if ps == [] {
      assert [p][1..] == [];
    } else {
      assert (ps + [p])[1..] == ps[1..] + [p];
      InsertAllSnoc(Append(t, ps[0].id, PairRows(ps[0])), ps[1..], p);
    }
  }

  lemma SelectAbsent(ps: seq<Pair>, id: string)
    requires id !in Ids(ps)
    ensures Select(ps, id) == []
  {
    if ps != [] {
      var n := |ps| - 1;
      SelectAbsent(ps[..n], id);
    }
  }

  /** `t` is the table grouping `ps`: ids in first-seen order, each once,
      and each block holding exactly the lines of that id's pairs, in scan
      order. */
  predicate Groups(t: Table, ps: seq<Pair>) {
    && Valid(t)
    && t.ids == Dedup(Ids(ps))
    && forall id :: id in t.blocks ==> t.blocks[id] == Rows(Select(ps, id))
  }

  /** The table built from the pairs groups them. */
  lemma {:induction false} InsertAllShape(ps: seq<Pair>)
    ensures Groups(InsertAll(Empty, ps), ps)
    decreases |ps|
  {
    if ps != [] {
      var n := |ps| - 1;
      assert ps == ps[..n] + [ps[n]];
      InsertAllShape(ps[..n]);
      InsertAllSnoc(Empty, ps[..n], ps[n]);
      AppendGroups(InsertAll(Empty, ps[..n]), ps[..n], ps[n]);
    }
  }

  /** Appending one more pair keeps the table a grouping. */
  lemma AppendGroups(t: Table, ps: seq<Pair>, p: Pair)
    requires Groups(t, ps)
    ensures Groups(Append(t, p.id, PairRows(p)), ps + [p])
  {
    AppendIds(ps, p);
    AppendValid(t, p.id, PairRows(p));
    AppendBlocks(t, ps, p);
  }

  lemma AppendBlocks(t: Table, ps: seq<Pair>, p: Pair)
    requires Groups(t, ps)
    ensures var r := Append(t, p.id, PairRows(p));
            forall id :: id in r.blocks ==> r.blocks[id] == Rows(Select(ps + [p], id))
  {
    var r := Append(t, p.id, PairRows(p));
    if p.id !in t.blocks {
      DedupFacts(Ids(ps));
      SelectAbsent(ps, p.id);
    }
    forall id | id in r.blocks ensures r.blocks[id] == Rows(Select(ps + [p], id)) {
      SelectSnoc(ps, p, id);
    }
  }

  lemma AppendIds(ps: seq<Pair>, p: Pair)
    ensures Dedup(Ids(ps + [p]))
         == if p.id in Dedup(Ids(ps)) then Dedup(Ids(ps)) else Dedup(Ids(ps)) + [p.id]
  {
    var q := ps + [p];
    assert q[..|ps|] == ps;
    IdsLength(ps);
    assert Ids(q) == Ids(ps) + [p.id];
    assert Ids(q)[..|Ids(ps)|] == Ids(ps);
  }

  lemma AppendValid(t: Table, id: string, rows: seq<Option<string>>)
    requires Valid(t)
    ensures Valid(Append(t, id, rows))
    ensures Append(t, id, rows).ids == if id in t.ids then t.ids else t.ids + [id]
  {
    assert id in t.blocks <==> id in t.ids;
  }

  lemma SelectSnoc(ps: seq<Pair>, p: Pair, id: string)
    ensures Rows(Select(ps + [p], id))
         == Rows(Select(ps, id)) + (if p.id == id then PairRows(p) else [])
  {
    var q := ps + [p];
    assert q[..|q| - 1] == ps;
    if p.id == id {
      var sel := Select(ps, id);
      assert (sel + [p])[..|sel|] == sel;
    } else {
      assert Select(q, id) == Select(ps, id) + [];
      assert Select(ps, id) + [] == Select(ps, id);
    }
  }

  lemma {:induction false} FlattenIdsFrame(ids: seq<string>, blocks: map<string, seq<Option<string>>>,
                                           id: string, b: seq<Option<string>>)
    requires forall x :: x in ids ==> x in blocks
    requires id !in ids
    ensures FlattenIds(ids, blocks[id := b]) == FlattenIds(ids, blocks)
    decreases |ids|
  {
    if ids != [] {
      FlattenIdsFrame(ids[..|ids| - 1], blocks, id, b);
    }
  }

  /** The flattened table lists, for each id in first-seen order, the
      lines of its pairs in scan order. */
  lemma {:induction false} FlattenIdsGrouped(ids: seq<string>, blocks: map<string, seq<Option<string>>>, ps: seq<Pair>)
    requires forall x :: x in ids ==> x in blocks && blocks[x] == Rows(Select(ps, x))
    ensures FlattenIds(ids, blocks) == GroupedRows(ids, ps)
    decreases |ids|
  {
    if ids != [] {
      FlattenIdsGrouped(ids[..|ids| - 1], blocks, ps);
    }
  }

  lemma FlattenGrouped(ps: seq<Pair>)
    ensures var t := InsertAll(Empty, ps);
            Valid(t) && Flatten(t) == GroupedRows(Dedup(Ids(ps)), ps)
  {
    InsertAllShape(ps);
    var t := InsertAll(Empty, ps);
    FlattenIdsGrouped(t.ids, t.blocks, ps);
  }

  /** Appending to a block adds exactly the appended lines to the
      flattened sequence. */
  lemma {:induction false} FlattenIdsGrow(ids: seq<string>, blocks: map<string, seq<Option<string>>>,
                                          id: string, extra: seq<Option<string>>)
    requires forall x :: x in ids ==> x in blocks
    requires forall i, j :: 0 <= i < j < |ids| ==> ids[i] != ids[j]
    requires id in ids
    ensures multiset(FlattenIds(ids, blocks[id := blocks[id] + extra]))
         == multiset(FlattenIds(ids, blocks)) + multiset(extra)
    decreases |ids|
  {
    var n := |ids| - 1;
    var blocks' := blocks[id := blocks[id] + extra];
    if ids[n] == id {
      assert id !in ids[..n] by {
        forall i | 0 <= i < n ensures ids[..n][i] != id {
          assert ids[i] != ids[n];
        }
      }
      FlattenIdsFrame(ids[..n], blocks, id, blocks[id] + extra);
    } else {
      assert id in ids[..n] by {
        var i :| 0 <= i < |ids| && ids[i] == id;
        assert ids[..n][i] == id;
      }
      FlattenIdsGrow(ids[..n], blocks, id, extra);
    }
  }

  lemma FlattenAppend(t: Table, id: string, rows: seq<Option<string>>)
    requires Valid(t)
    ensures Valid(Append(t, id, rows))
    ensures multiset(Flatten(Append(t, id, rows))) == multiset(Flatten(t)) + multiset(rows)
  {
    var r := Append(t, id, rows);
    if id in t.blocks {
      FlattenIdsGrow(t.ids, t.blocks, id, rows);
    } else {
      FlattenIdsFrame(t.ids, t.blocks, id, rows);
      assert (t.ids + [id])[..|t.ids|] == t.ids;
    }
  }

  /** Grouping only reorders: the flattened sequence holds exactly the
      lines of the pairs, two per pair. */
  lemma {:induction false} FlattenPermutes(ps: seq<Pair>)
    ensures var t := InsertAll(Empty, ps);
            && Valid(t)
            && multiset(Flatten(t)) == multiset(Rows(ps))
            && |Flatten(t)| == 2 * |ps|
    decreases |ps|
  {
    InsertAllShape(ps);
    if ps != [] {
      var n := |ps| - 1;
      assert ps == ps[..n] + [ps[n]];
      FlattenPermutes(ps[..n]);
      InsertAllSnoc(Empty, ps[..n], ps[n]);
      InsertAllShape(ps[..n]);
      FlattenAppend(InsertAll(Empty, ps[..n]), ps[n].id, PairRows(ps[n]));
    }
    var t := InsertAll(Empty, ps);
    assert |multiset(Flatten(t))| == |Flatten(t)|;
    RowsLength(ps);
  }

  lemma RowsLength(ps: seq<Pair>)
    ensures |Rows(ps)| == 2 * |ps|
  {
    if ps != [] {
      RowsLength(ps[..|ps| - 1]);
    }
  }

  /** The grouping of a line array: its valid table, with ids in first-seen
      order and each block the lines of that id's pairs. */
  lemma GroupShape(lines: seq<string>)
    requires Group(lines).Success?
    ensures PairsFrom(lines, 0).Success?
    ensures var ps := PairsFrom(lines, 0).value;
            var t := Group(lines).value;
            && t == InsertAll(Empty, ps)
            && Valid(t)
            && t.ids == Dedup(Ids(ps))
            && (forall id :: id in t.blocks ==> t.blocks[id] == Rows(Select(ps, id)))
            && Flatten(t) == GroupedRows(t.ids, ps)
            && multiset(Flatten(t)) == multiset(Rows(ps))
            && |Flatten(t)| == 2 * |ps|
  {
    GroupPairs(Empty, lines, 0);
    var ps := PairsFrom(lines, 0).value;
    InsertAllShape(ps);
    FlattenGrouped(ps);
    FlattenPermutes(ps);
  }
}
