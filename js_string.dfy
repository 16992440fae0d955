/** The JavaScript string operations the extraction code relies on:
    `includes`, `indexOf`, first-occurrence `replace` with an empty
    replacement, `substring`, `trim` and `split` on a one-character
    separator (which keeps empty pieces). */
module JsString {

  /** `p` occurs in `s` at index `i`. */
  predicate OccursAt(s: string, p: string, i: int) {
    0 <= i && i + |p| <= |s| && s[i..i + |p|] == p
  }

  /** `s.indexOf(p, k)`: the first occurrence at or after `k`, or -1. */
  function IndexOfFrom(s: string, p: string, k: nat): (r: int)
    requires k <= |s|
    ensures r == -1 || (k <= r && OccursAt(s, p, r))
    ensures forall i :: k <= i && (r == -1 || i < r) ==> !OccursAt(s, p, i)
    decreases |s| - k
  {
    if k + |p| > |s| then -1
    else if s[k..k + |p|] == p then k
    else
      assert |p| > 0;
      IndexOfFrom(s, p, k + 1)
  }

  /** `s.indexOf(p)`. */
  function IndexOf(s: string, p: string): (r: int)
    ensures r == -1 || OccursAt(s, p, r)
    ensures forall i :: 0 <= i && (r == -1 || i < r) ==> !OccursAt(s, p, i)
  {
    IndexOfFrom(s, p, 0)
  }

  /** `s.includes(p)`. */
  predicate Includes(s: string, p: string) {
    IndexOf(s, p) >= 0
  }

  /** An occurrence at the very start is the first one. */
  lemma IndexOfPrefix(s: string, p: string)
    requires |p| <= |s| && s[..|p|] == p
    ensures IndexOf(s, p) == 0
  {
    assert OccursAt(s, p, 0);
  }

  /** `s.replace(p, '')` for a string pattern: only the first occurrence
      is removed, and `s` is returned unchanged when `p` does not occur. */
  function RemoveFirst(s: string, p: string): (r: string)
    ensures !Includes(s, p) ==> r == s
    ensures Includes(s, p) ==>
              exists i :: OccursAt(s, p, i) && (forall j :: 0 <= j < i ==> !OccursAt(s, p, j))
                          && r == s[..i] + s[i + |p|..]
  {
    var i := IndexOf(s, p);
    if i < 0 then s else s[..i] + s[i + |p|..]
  }

  lemma RemoveFirstPrefix(p: string, t: string)
    ensures RemoveFirst(p + t, p) == t
  {
    IndexOfPrefix(p + t, p);
    assert (p + t)[|p|..] == t;
  }

  /** Removing a one-character pattern cuts its first occurrence. */
  lemma RemoveFirstChar(x: string, c: char, t: string)
    requires c !in x
    ensures RemoveFirst(x + [c] + t, [c]) == x + t
  {
    var s := x + [c] + t;
    assert OccursAt(s, [c], |x|);
    forall j | 0 <= j < |x| ensures !OccursAt(s, [c], j) {
      assert s[j..j + 1] == [x[j]];
    }
    assert IndexOf(s, [c]) == |x|;
    assert s[..|x|] == x && s[|x| + 1..] == t;
  }

  /** `s.substring(from, to)`: both bounds are clamped to `[0, |s|]` and
      swapped when out of order, so `substring(0, -1)` is "". */
  function Substring(s: string, from: int, to: int): (r: string)
    ensures |r| <= |s|
    ensures 0 <= from <= to <= |s| ==> r == s[from..to]
    ensures to <= 0 && from <= 0 ==> r == []
  {
    var a := if from < 0 then 0 else if from > |s| then |s| else from;
    var b := if to < 0 then 0 else if to > |s| then |s| else to;
    if a <= b then s[a..b] else s[b..a]
  }

  /** ECMAScript WhiteSpace and LineTerminator code points, the set `trim`
      removes. */
  predicate IsWhitespace(c: char) {
    var n := c as int;
    n == 0x09 || n == 0x0A || n == 0x0B || n == 0x0C || n == 0x0D || n == 0x20
    || n == 0xA0 || n == 0x1680 || (0x2000 <= n <= 0x200A) || n == 0x2028
    || n == 0x2029 || n == 0x202F || n == 0x205F || n == 0x3000 || n == 0xFEFF
  }

  predicate AllWhitespace(s: string) {
    forall i :: 0 <= i < |s| ==> IsWhitespace(s[i])
  }

  function TrimStart(s: string): (r: string)
    ensures |r| <= |s| && r == s[|s| - |r|..]
    ensures r == [] || !IsWhitespace(r[0])
    ensures AllWhitespace(s[..|s| - |r|])
    decreases |s|
  {
    if s != [] && IsWhitespace(s[0]) then
      var r := TrimStart(s[1..]);
      assert s[..|s| - |r|] == [s[0]] + s[1..][..|s| - 1 - |r|];
      r
    else s
  }

  function TrimEnd(s: string): (r: string)
    ensures |r| <= |s| && r == s[..|r|]
    ensures r == [] || !IsWhitespace(r[|r| - 1])
    ensures AllWhitespace(s[|r|..])
    decreases |s|
  {
    if s != [] && IsWhitespace(s[|s| - 1]) then
      var r := TrimEnd(s[..|s| - 1]);
      assert s[|r|..] == s[..|s| - 1][|r|..] + [s[|s| - 1]];
      r
    else s
  }

  /** `s.trim()`. */
  function Trim(s: string): (r: string)
    ensures |r| <= |s|
    ensures r == [] || (!IsWhitespace(r[0]) && !IsWhitespace(r[|r| - 1]))
  {
    TrimEnd(TrimStart(s))
  }

  /** `trim` keeps the infix of `s` starting at `a` and removes only
      whitespace around it. */
  lemma TrimInfix(s: string) returns (a: nat)
    ensures a + |Trim(s)| <= |s| && Trim(s) == s[a..a + |Trim(s)|]
    ensures AllWhitespace(s[..a]) && AllWhitespace(s[a + |Trim(s)|..])
  {
    var t := TrimStart(s);
    var r := TrimEnd(t);
    a := |s| - |t|;
    InfixOfSuffix(s, t, r, a);
  }

  lemma InfixOfSuffix(s: string, t: string, r: string, a: nat)
    requires a <= |s| && t == s[a..]
    requires |r| <= |t| && r == t[..|r|] && AllWhitespace(t[|r|..])
    ensures a + |r| <= |s| && r == s[a..a + |r|] && AllWhitespace(s[a + |r|..])
  {
    assert s[a + |r|..] == t[|r|..];
  }

  lemma {:induction false} TrimStartPadded(pad: string, x: string)
    requires AllWhitespace(pad)
    requires x == [] || !IsWhitespace(x[0])
    ensures TrimStart(pad + x) == x
    decreases |pad|
  {
    if pad != [] {
      assert (pad + x)[1..] == pad[1..] + x;
      TrimStartPadded(pad[1..], x);
    } else {
      assert pad + x == x;
    }
  }

  /** `parts.join(c)`. */
  function Join(parts: seq<string>, c: char): string
    requires |parts| >= 1
    decreases |parts|
  {
    if |parts| == 1 then parts[0] else parts[0] + [c] + Join(parts[1..], c)
  }

  function CountChar(s: string, c: char): nat
    decreases |s|
  {
    if s == [] then 0 else (if s[0] == c then 1 else 0) + CountChar(s[1..], c)
  }

  /** `s.split(c)` for a one-character separator: the pieces between
      separators, empty pieces included. */
  function Split(s: string, c: char): (parts: seq<string>)
    ensures |parts| >= 1
    ensures forall k :: 0 <= k < |parts| ==> c !in parts[k]
    decreases |s|
  {
    if s == [] then [[]]
    else
      var rest := Split(s[1..], c);
      if s[0] == c then [[]] + rest
      else [[s[0]] + rest[0]] + rest[1..]
  }

  /** `join` undoes `split`, and there is one more piece than there are
      separators. */
  lemma {:induction false} JoinSplit(s: string, c: char)
    ensures Join(Split(s, c), c) == s
    ensures |Split(s, c)| == CountChar(s, c) + 1
    decreases |s|
  {
    if s != [] {
      JoinSplit(s[1..], c);
      var rest := Split(s[1..], c);
      if s[0] == c {
        assert ([[]] + rest)[1..] == rest;
      } else {
        var parts := [[s[0]] + rest[0]] + rest[1..];
        assert |rest| > 1 ==> parts[1..] == rest[1..];
        if |rest| > 1 {
          assert Join(rest, c) == rest[0] + [c] + Join(rest[1..], c);
        }
      }
      assert s == [s[0]] + s[1..];
    }
  }

  /** A separator-free prefix becomes the first piece. */
  lemma {:induction false} SplitCons(a: string, b: string, c: char)
    requires c !in a
    ensures Split(a + [c] + b, c) == [a] + Split(b, c)
    decreases |a|
  {
    if a == [] {
      assert a + [c] + b == [c] + b;
      assert ([c] + b)[1..] == b;
    } else {
      assert (a + [c] + b)[1..] == a[1..] + [c] + b;
      SplitCons(a[1..], b, c);
      assert [a[0]] + a[1..] == a;
    }
  }

  lemma {:induction false} SplitNoSeparator(a: string, c: char)
    requires c !in a
    ensures Split(a, c) == [a]
    decreases |a|
  {
    if a != [] {
      SplitNoSeparator(a[1..], c);
      assert [a[0]] + a[1..] == a;
    }
  }

  /** Pieces joined in front of a separator come out first. */
  lemma {:induction false} SplitAfterJoin(pre: seq<string>, rest: string, c: char)
    requires |pre| >= 1
    requires forall k :: 0 <= k < |pre| ==> c !in pre[k]
    ensures Split(Join(pre, c) + [c] + rest, c) == pre + Split(rest, c)
    decreases |pre|
  {
    if |pre| == 1 {
      SplitCons(pre[0], rest, c);
    } else {
      var tail := JoinRest(pre, rest, c);
      SplitCons(pre[0], tail, c);
      SplitAfterJoin(pre[1..], rest, c);
      ConsAppend(pre, Split(rest, c));
    }
  }

  lemma ConsAppend<T>(xs: seq<T>, ys: seq<T>)
    requires |xs| >= 1
    ensures [xs[0]] + (xs[1..] + ys) == xs + ys
  {
    assert [xs[0]] + xs[1..] == xs;
  }

  lemma JoinRest(pre: seq<string>, rest: string, c: char) returns (tail: string)
    requires |pre| >= 2
    requires forall k :: 0 <= k < |pre| ==> c !in pre[k]
    ensures tail == Join(pre[1..], c) + [c] + rest
    ensures Join(pre, c) + [c] + rest == pre[0] + [c] + tail
    ensures c !in pre[0] && forall k :: 0 <= k < |pre[1..]| ==> c !in pre[1..][k]
  {
    tail := Join(pre[1..], c) + [c] + rest;
    assert Join(pre, c) == pre[0] + [c] + Join(pre[1..], c);
  }

  /** The first piece is the text before the first separator. */
  lemma FirstPiece(tok: string, tail: string, c: char)
    requires c !in tok
    requires tail == [] || tail[0] == c
    ensures Split(tok + tail, c)[0] == tok
  {
    if tail == [] {
      assert tok + tail == tok;
      SplitNoSeparator(tok, c);
    } else {
      assert tok + tail == tok + [c] + tail[1..];
      SplitCons(tok, tail[1..], c);
    }
  }

  /** `split` undoes `join` when no piece holds the separator. */
  lemma {:induction false} SplitJoin(parts: seq<string>, c: char)
    requires |parts| >= 1
    requires forall k :: 0 <= k < |parts| ==> c !in parts[k]
    ensures Split(Join(parts, c), c) == parts
    decreases |parts|
  {
    if |parts| == 1 {
      SplitNoSeparator(parts[0], c);
    } else {
      SplitJoin(parts[1..], c);
      SplitCons(parts[0], Join(parts[1..], c), c);
      assert [parts[0]] + parts[1..] == parts;
    }
  }
}
