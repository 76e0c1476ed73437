/**
  String and path-string helpers with the JavaScript meaning the blueprint code relies on:
  `indexOf`, `lastIndexOf`, `replace` with a literal (first occurrence) and a global literal
  pattern, `split`/`join` on one separator character, and POSIX `basename`/`dirname`.
*/
module Text {
  import opened Wrappers

  predicate StartsWith(s: string, prefix: string) {
    |prefix| <= |s| && s[..|prefix|] == prefix
  }

  predicate EndsWith(s: string, suffix: string) {
    |suffix| <= |s| && s[|s| - |suffix|..] == suffix
  }

  /** `pat` occurs in `s` starting at index `i`. */
  predicate OccursAt(pat: string, s: string, i: nat) {
    i + |pat| <= |s| && s[i..i + |pat|] == pat
  }

  /** `s` contains `pat` as a substring, like JavaScript's `s.indexOf(pat) > -1`. */
  predicate Contains(s: string, pat: string) {
    exists i: nat | i <= |s| :: OccursAt(pat, s, i)
  }

  /** The first index of character `c` in `s`, like `s.indexOf(c)`; `None` stands for -1. */
  function IndexOfChar(s: string, c: char): (r: Option<nat>)
    ensures r.None? <==> c !in s
    ensures r.Some? ==> r.value < |s| && s[r.value] == c && c !in s[..r.value]
    ensures r.Some? ==> forall j :: 0 <= j < r.value ==> s[j] != c
  {
    if |s| == 0 then None
    else if s[0] == c then Some(0)
    else
      match IndexOfChar(s[1..], c)
      case None => None
      case Some(i) =>
        assert s[..i + 1] == [s[0]] + s[1..][..i];
        Some(i + 1)
  }

  /** The last index of character `c` in `s`, like `s.lastIndexOf(c)`; `None` stands for -1. */
  function LastIndexOfChar(s: string, c: char): (r: Option<nat>)
    ensures r.None? <==> c !in s
    ensures r.Some? ==> r.value < |s| && s[r.value] == c && c !in s[r.value + 1..]
    ensures r.Some? ==> forall j :: r.value < j < |s| ==> s[j] != c
  {
    if |s| == 0 then None
    else if s[|s| - 1] == c then Some(|s| - 1)
    else
      match LastIndexOfChar(s[..|s| - 1], c)
      case None =>
        assert s == s[..|s| - 1] + [s[|s| - 1]];
        None
      case Some(i) =>
        assert s[i + 1..] == s[..|s| - 1][i + 1..] + [s[|s| - 1]];
        Some(i)
  }

  /** The first index at or after `from` where `pat` occurs in `s`. */
  function IndexFrom(s: string, pat: string, from: nat): (r: Option<nat>)
    requires from <= |s|
    requires forall j: nat :: j < from ==> !OccursAt(pat, s, j)
    ensures r.Some? ==> OccursAt(pat, s, r.value) && forall j: nat :: j < r.value ==> !OccursAt(pat, s, j)
    ensures r.None? ==> forall j: nat :: !OccursAt(pat, s, j)
    decreases |s| - from
  {
    if from + |pat| > |s| then None
    else if s[from..from + |pat|] == pat then Some(from)
    else IndexFrom(s, pat, from + 1)
  }

  /** The first index of substring `pat` in `s`, like `s.indexOf(pat)`; `None` stands for -1. */
  function IndexOf(s: string, pat: string): (r: Option<nat>)
    ensures r.Some? ==> OccursAt(pat, s, r.value) && forall j: nat :: j < r.value ==> !OccursAt(pat, s, j)
    ensures r.None? <==> !Contains(s, pat)
  {
    IndexFrom(s, pat, 0)
  }

  /**
    The text `replace` inserts for one match of a string pattern: in the replacement `$$`
    stands for `$`, `$&` for the matched text, `` $` `` for the text before the match and
    `$'` for the text after it. A string pattern has no capture groups, so every other `$`
    is kept as written.
  */
  function Substitution(rep: string, matched: string, before: string, after: string): (r: string)
    ensures '$' !in rep ==> r == rep
    decreases |rep|
  {
    if |rep| == 0 then ""
    else if |rep| >= 2 && rep[0] == '$' && IsDollarPattern(rep[1]) then
      DollarInsert(rep[1], matched, before, after) + Substitution(rep[2..], matched, before, after)
    else
      assert rep == [rep[0]] + rep[1..];
      [rep[0]] + Substitution(rep[1..], matched, before, after)
  }

  /** The characters that may follow `$` in a pattern a string-pattern `replace` expands. */
  predicate IsDollarPattern(c: char) {
    c == '$' || c == '&' || c == '`' || c == '\''
  }

  /** What `$c` expands to. */
  function DollarInsert(c: char, matched: string, before: string, after: string): string
    requires IsDollarPattern(c)
  {
    if c == '$' then "$" else if c == '&' then matched else if c == '`' then before else after
  }

  /** A replacement that starts without `$` keeps that start as it is. */
  lemma {:induction false} SubstitutionPlainPrefix(x: string, y: string, matched: string, before: string, after: string)
    requires '$' !in x
    ensures Substitution(x + y, matched, before, after) == x + Substitution(y, matched, before, after)
    decreases |x|
  {
    if |x| > 0 {
      var xy := x + y;
      assert x[0] in x;
      assert xy[0] == x[0] && xy[1..] == x[1..] + y;
      assert '$' !in x[1..] by {
        forall i | 0 <= i < |x[1..]| ensures x[1..][i] != '$' {
          assert x[1..][i] == x[i + 1];
        }
      }
      assert Substitution(xy, matched, before, after) == [x[0]] + Substitution(xy[1..], matched, before, after);
      SubstitutionPlainPrefix(x[1..], y, matched, before, after);
      var rest := Substitution(y, matched, before, after);
      assert [x[0]] + (x[1..] + rest) == ([x[0]] + x[1..]) + rest;
      assert x == [x[0]] + x[1..];
    } else {
      assert x + y == y;
    }
  }

  /** A two-character replacement `$c` is expanded when `c` is one of `$&`'` and kept otherwise. */
  lemma DollarPair(pair: string, matched: string, before: string, after: string)
    requires |pair| == 2 && pair[0] == '$'
    ensures IsDollarPattern(pair[1]) ==> Substitution(pair, matched, before, after) == DollarInsert(pair[1], matched, before, after)
    ensures !IsDollarPattern(pair[1]) ==> Substitution(pair, matched, before, after) == pair
  {
    assert pair[2..] == [];
    if !IsDollarPattern(pair[1]) {
      assert pair[1..][1..] == [];
      assert pair == [pair[0]] + [pair[1]];
    }
  }

  /** `s.replace(pat, rep)` with a literal string pattern: only the first occurrence is
      replaced, by the replacement with its `$` patterns expanded. */
  function ReplaceFirst(s: string, pat: string, rep: string): string {
    match IndexOf(s, pat)
    case None => s
    case Some(i) => s[..i] + Substitution(rep, pat, s[..i], s[i + |pat|..]) + s[i + |pat|..]
  }

  /** `s.replace(new RegExp(pat, 'g'), rep)` for a pattern without regular-expression
      metacharacters: every occurrence, scanned left to right without overlap, is replaced. */
  function ReplaceAll(s: string, pat: string, rep: string): string
    requires |pat| > 0
    decreases |s|
  {
    if |s| < |pat| then s
    else if s[..|pat|] == pat then rep + ReplaceAll(s[|pat|..], pat, rep)
    else [s[0]] + ReplaceAll(s[1..], pat, rep)
  }

  /** `s.replace(/c/g, d)` for a single character. */
  function ReplaceChar(s: string, c: char, d: char): (r: string)
    ensures |r| == |s|
    ensures forall i :: 0 <= i < |s| ==> r[i] == (if s[i] == c then d else s[i])
  {
    if |s| == 0 then ""
    else [if s[0] == c then d else s[0]] + ReplaceChar(s[1..], c, d)
  }

  /** `s.split(sep)` for a one-character separator. */
  function Split(s: string, sep: char): (parts: seq<string>)
    ensures |parts| >= 1
    ensures forall i :: 0 <= i < |parts| ==> sep !in parts[i]
    decreases |s|
  {
    match IndexOfChar(s, sep)
    case None => [s]
    case Some(i) => [s[..i]] + Split(s[i + 1..], sep)
  }

  /** `parts.join(sep)` for a one-character separator. */
  function Join(parts: seq<string>, sep: char): string {
    if |parts| == 0 then ""
    else if |parts| == 1 then parts[0]
    else parts[0] + [sep] + Join(parts[1..], sep)
  }

  /** Joining a part in front of at least one more puts the separator between them. */
  lemma JoinCons(head: string, rest: seq<string>, sep: char)
    requires |rest| >= 1
    ensures Join([head] + rest, sep) == head + [sep] + Join(rest, sep)
  {
    assert ([head] + rest)[1..] == rest;
  }

  /** A separator-free part followed by the separator is split off first. */
  lemma SplitAfterSeparator(a: string, sep: char, b: string)
    requires sep !in a
    ensures Split(a + [sep] + b, sep) == [a] + Split(b, sep)
  {
    var s := a + [sep] + b;
    FirstCharAfter(a, sep, b);
    assert s[..|a|] == a;
    assert s[|a| + 1..] == b;
  }

  /** Splitting and joining back on the same separator gives the original string. */
  lemma {:induction false} JoinSplit(s: string, sep: char)
    ensures Join(Split(s, sep), sep) == s
    decreases |s|
  {
    match IndexOfChar(s, sep)
    case None =>
    case Some(i) =>
      var rest := Split(s[i + 1..], sep);
      JoinCons(s[..i], rest, sep);
      JoinSplit(s[i + 1..], sep);
      assert s == s[..i] + [sep] + s[i + 1..];
  }

  /** Joining separator-free parts and splitting again gives the parts back. */
  lemma {:induction false} SplitJoin(parts: seq<string>, sep: char)
    requires |parts| >= 1
    requires forall i :: 0 <= i < |parts| ==> sep !in parts[i]
    ensures Split(Join(parts, sep), sep) == parts
    decreases |parts|
  {
    if |parts| > 1 {
      var p0, tail := parts[0], Join(parts[1..], sep);
      assert Join(parts, sep) == p0 + [sep] + tail;
      assert Split(p0 + [sep] + tail, sep) == [p0] + Split(tail, sep) by {
        SplitAfterSeparator(p0, sep, tail);
      }
      assert Split(tail, sep) == parts[1..] by {
        SplitJoin(parts[1..], sep);
      }
      assert parts == [p0] + parts[1..];
    }
  }

  /** `path.basename(p)` for POSIX paths without a trailing separator. */
  function Basename(p: string): (r: string)
    ensures '/' !in r
    ensures EndsWith(p, r)
  {
    match LastIndexOfChar(p, '/')
    case None => p
    case Some(i) => p[i + 1..]
  }

  /** `path.dirname(p)` for POSIX paths without a trailing separator. */
  function Dirname(p: string): string {
    match LastIndexOfChar(p, '/')
    case None => "."
    case Some(i) => if i == 0 then "/" else p[..i]
  }

  // ---------------------------------------------------------------- trim

  /** A character `String.prototype.trim` removes: JavaScript white space or a line
      terminator. */
  predicate IsSpace(c: char) {
    IsLineTerminator(c) || c == ' ' || c == '\t' || c == '\U{000B}' || c == '\U{000C}' || c == '\U{00A0}'
    || c == '\U{1680}' || ('\U{2000}' <= c <= '\U{200A}') || c == '\U{202F}'
    || c == '\U{205F}' || c == '\U{3000}' || c == '\U{FEFF}'
  }

  /** A LineTerminator of ECMA-262: the characters a regular expression's `.` does not match
      (without the `s` flag). */
  predicate IsLineTerminator(c: char) {
    c == '\n' || c == '\r' || c == '\U{2028}' || c == '\U{2029}'
  }

  /** Neither end of `s` is white space. */
  predicate Trimmed(s: string) {
    |s| == 0 || (!IsSpace(s[0]) && !IsSpace(s[|s| - 1]))
  }

  /** `s.trim()`: white space removed from both ends; a string without any at its ends is
      returned unchanged. */
  function Trim(s: string): (r: string)
    ensures Trimmed(r)
    ensures Trimmed(s) ==> r == s
    ensures |r| <= |s|
  {
    if |s| > 0 && IsSpace(s[0]) then Trim(s[1..])
    else if |s| > 0 && IsSpace(s[|s| - 1]) then Trim(s[..|s| - 1])
    else s
  }

  /** `trim` is idempotent. */
  lemma TrimIdempotent(s: string)
    ensures Trim(Trim(s)) == Trim(s)
  {
  }

  /** A string of white space only trims to nothing. */
  lemma {:induction false} BlankTrimsToEmpty(s: string)
    requires forall i :: 0 <= i < |s| ==> IsSpace(s[i])
    ensures Trim(s) == ""
  {
    if |s| > 0 {
      assert forall i :: 0 <= i < |s| - 1 ==> s[1..][i] == s[i + 1];
      BlankTrimsToEmpty(s[1..]);
    }
  }

  /** What `trim` keeps is a run of characters of `s`. */
  lemma {:induction false} TrimInside(s: string, c: char)
    requires c in Trim(s)
    ensures c in s
  {
    if |s| > 0 && IsSpace(s[0]) {
      TrimInside(s[1..], c);
    } else if |s| > 0 && IsSpace(s[|s| - 1]) {
      TrimInside(s[..|s| - 1], c);
    }
  }

  // ---------------------------------------------------------------- path.resolve

  /** A segment `path.resolve` keeps as it is: not empty, not `.` or `..`, no separator. */
  predicate NormalSegment(s: string) {
    s != "" && s != "." && s != ".." && '/' !in s
  }

  /** A relative path of normal segments only, such as `blueprints/basic`. */
  predicate NormalRelative(p: string) {
    forall s :: s in Split(p, '/') ==> NormalSegment(s)
  }

  /** An absolute path in the form `path.resolve` returns: `/`, or `/` followed by a normal
      relative path. */
  predicate NormalAbsolute(p: string) {
    p == "/" || (|p| > 1 && p[0] == '/' && NormalRelative(p[1..]))
  }

  /** `p` placed under the absolute directory `dir`. */
  function Under(dir: string, p: string): string {
    if dir == "/" then "/" + p else dir + "/" + p
  }

  /** One segment of `path.resolve`'s walk: empty and `.` segments are skipped, `..` goes up a
      level (and stays at the root), any other segment is entered. */
  function Enter(segs: seq<string>, seg: string): seq<string> {
    if seg == "" || seg == "." then segs
    else if seg == ".." then (if |segs| == 0 then segs else segs[..|segs| - 1])
    else segs + [seg]
  }

  /** The walk over `steps` in order, starting in the directory `segs`. */
  function Walk(segs: seq<string>, steps: seq<string>): seq<string>
    decreases |steps|
  {
    if |steps| == 0 then segs
    else Enter(Walk(segs, steps[..|steps| - 1]), steps[|steps| - 1])
  }

  /** The segments `path.resolve(dir, p)` walks: from the root for an absolute `p`, after
      those of `dir` otherwise. */
  function ResolveSteps(dir: string, p: string): seq<string> {
    if StartsWith(p, "/") then Split(p, '/') else Split(dir, '/') + Split(p, '/')
  }

  /**
    `path.resolve(dir, p)` for an absolute `dir`: the segments of `dir` and then of `p` (of
    `p` alone when it is absolute) are walked from the root, so the result is normalised.
  */
  function Resolve(dir: string, p: string): (r: string)
    ensures NormalAbsolute(r)
  {
    var segs := Walk([], ResolveSteps(dir, p));
    WalkStaysNormal([], ResolveSteps(dir, p));
    JoinNormal(segs);
    "/" + Join(segs, '/')
  }

  /** Walking separator-free steps from normal segments only ever reaches normal segments. */
  lemma {:induction false} WalkStaysNormal(segs: seq<string>, steps: seq<string>)
    requires forall i :: 0 <= i < |segs| ==> NormalSegment(segs[i])
    requires forall i :: 0 <= i < |steps| ==> '/' !in steps[i]
    ensures forall i :: 0 <= i < |Walk(segs, steps)| ==> NormalSegment(Walk(segs, steps)[i])
    decreases |steps|
  {
    if |steps| > 0 {
      WalkStaysNormal(segs, steps[..|steps| - 1]);
    }
  }

  /** `/` followed by normal segments is a normal absolute path. */
  lemma {:induction false} JoinNormal(segs: seq<string>)
    requires forall i :: 0 <= i < |segs| ==> NormalSegment(segs[i])
    ensures NormalAbsolute("/" + Join(segs, '/'))
  {
    if |segs| > 0 {
      SplitJoin(segs, '/');
      assert ("/" + Join(segs, '/'))[1..] == Join(segs, '/');
    }
  }

  /** Walking two lists of steps is walking the first, then the second. */
  lemma {:induction false} WalkConcat(segs: seq<string>, a: seq<string>, b: seq<string>)
    ensures Walk(segs, a + b) == Walk(Walk(segs, a), b)
    decreases |b|
  {
    if |b| == 0 {
      assert a + b == a;
    } else {
      var n := |b| - 1;
      WalkConcat(segs, a, b[..n]);
      assert (a + b)[..|a| + n] == a + b[..n];
    }
  }

  /** Normal steps are entered one after the other. */
  lemma {:induction false} WalkEntersNormal(segs: seq<string>, steps: seq<string>)
    requires forall i :: 0 <= i < |steps| ==> NormalSegment(steps[i])
    ensures Walk(segs, steps) == segs + steps
    decreases |steps|
  {
    if |steps| > 0 {
      var n := |steps| - 1;
      WalkEntersNormal(segs, steps[..n]);
      assert steps == steps[..n] + [steps[n]];
    }
  }

  /** Joining two non-empty lists puts the separator between their joins. */
  lemma {:induction false} JoinAppend(xs: seq<string>, ys: seq<string>, sep: char)
    requires |xs| >= 1 && |ys| >= 1
    ensures Join(xs + ys, sep) == Join(xs, sep) + [sep] + Join(ys, sep)
    decreases |xs|
  {
    if |xs| == 1 {
      JoinCons(xs[0], ys, sep);
      assert xs + ys == [xs[0]] + ys;
    } else {
      JoinAppend(xs[1..], ys, sep);
      JoinCons(xs[0], xs[1..] + ys, sep);
      JoinCons(xs[0], xs[1..], sep);
      assert xs + ys == [xs[0]] + (xs[1..] + ys);
      assert xs == [xs[0]] + xs[1..];
    }
  }

  /** A leading separator splits off an empty first part. */
  lemma SplitAbsolute(rest: string, sep: char)
    ensures Split([sep] + rest, sep) == [""] + Split(rest, sep)
  {
    assert IndexOfChar([sep] + rest, sep) == Some(0);
    assert ([sep] + rest)[1..] == rest;
  }

  /** A separator-free string splits into itself. */
  lemma SplitSingle(s: string, sep: char)
    requires sep !in s
    ensures Split(s, sep) == [s]
  {
  }

  /** A path starting with the separator splits off an empty first part. */
  lemma LeadingEmptyPart(p: string)
    ensures StartsWith(p, "/") ==> Split(p, '/')[0] == ""
  {
    if StartsWith(p, "/") {
      assert p[0] == '/';
      assert IndexOfChar(p, '/') == Some(0);
    }
  }

  /** A normal relative path does not start with the separator. */
  lemma NormalRelativeIsRelative(p: string)
    requires NormalRelative(p)
    ensures !StartsWith(p, "/")
  {
    LeadingEmptyPart(p);
    assert Split(p, '/')[0] in Split(p, '/');
  }

  /** No path is both a normal absolute and a normal relative one. */
  lemma AbsoluteNotRelative(p: string)
    ensures !(NormalAbsolute(p) && NormalRelative(p))
  {
    if NormalRelative(p) && |p| > 0 {
      NormalRelativeIsRelative(p);
      assert p[..1] == [p[0]];
    }
  }

  /** Walking a normal absolute path from the root gives its segments, which join back to
      it. */
  lemma {:induction false} WalkAbsolute(d: string)
    requires NormalAbsolute(d)
    ensures d == "/" ==> Walk([], Split(d, '/')) == []
    ensures d != "/" ==> Walk([], Split(d, '/')) == Split(d[1..], '/') && "/" + Join(Split(d[1..], '/'), '/') == d
  {
    assert d == ['/'] + d[1..];
    SplitAbsolute(d[1..], '/');
    WalkConcat([], [""], Split(d[1..], '/'));
    if d == "/" {
      assert Split(d[1..], '/') == [""];
    } else {
      var parts := Split(d[1..], '/');
      assert forall i :: 0 <= i < |parts| ==> parts[i] in parts;
      WalkEntersNormal([], parts);
      JoinSplit(d[1..], '/');
    }
  }

  /** The walk of a normal relative path under a normal absolute directory enters each of
      its segments. */
  lemma {:induction false} ResolveWalk(dir: string, p: string)
    requires NormalAbsolute(dir) && NormalRelative(p)
    ensures Walk([], ResolveSteps(dir, p)) == Walk([], Split(dir, '/')) + Split(p, '/')
  {
    NormalRelativeIsRelative(p);
    var ps := Split(p, '/');
    assert ResolveSteps(dir, p) == Split(dir, '/') + ps;
    WalkConcat([], Split(dir, '/'), ps);
    assert forall i :: 0 <= i < |ps| ==> ps[i] in ps;
    WalkEntersNormal(Walk([], Split(dir, '/')), ps);
  }

  /** On a normal absolute directory and a normal relative path, `path.resolve` just puts the
      path under the directory. */
  lemma {:induction false} ResolveNormal(dir: string, p: string)
    requires NormalAbsolute(dir) && NormalRelative(p)
    ensures Resolve(dir, p) == Under(dir, p)
  {
    var d := Walk([], Split(dir, '/'));
    var ps := Split(p, '/');
    ResolveWalk(dir, p);
    JoinSplit(p, '/');
    WalkAbsolute(dir);
    UnderJoin(dir, d, ps, p);
  }

  /** Parts joining to `p`, appended to the parts of an absolute directory, join to `p`
      under that directory. */
  lemma UnderJoin(dir: string, d: seq<string>, ps: seq<string>, p: string)
    requires |ps| >= 1 && Join(ps, '/') == p
    requires dir == "/" ==> d == []
    requires dir != "/" ==> |d| >= 1 && "/" + Join(d, '/') == dir
    ensures "/" + Join(d + ps, '/') == Under(dir, p)
  {
    if dir != "/" {
      JoinAppend(d, ps, '/');
      assert "/" + (Join(d, '/') + "/" + p) == dir + "/" + p;
    } else {
      assert d + ps == ps;
    }
  }

  /** A normal absolute path resolves to itself, whatever the directory. */
  lemma {:induction false} ResolveNormalAbsolute(dir: string, p: string)
    requires NormalAbsolute(p)
    ensures Resolve(dir, p) == p
  {
    assert StartsWith(p, "/") by {
      assert p[..1] == [p[0]];
    }
    WalkAbsolute(p);
  }

  /** A `./` in front of a relative path changes nothing: `.` segments are skipped. */
  lemma {:induction false} ResolveDropsDot(dir: string, p: string)
    requires !StartsWith(p, "/")
    ensures Resolve(dir, "./" + p) == Resolve(dir, p)
  {
    var q := "./" + p;
    assert !StartsWith(q, "/") by {
      assert q[0] == '.';
    }
    assert Split(q, '/') == ["."] + Split(p, '/') by {
      assert q == "." + ['/'] + p;
      SplitAfterSeparator(".", '/', p);
    }
    var ds, ps := Split(dir, '/'), Split(p, '/');
    assert ResolveSteps(dir, q) == (ds + ["."]) + ps;
    var w := Walk([], ds);
    assert Walk([], ds + ["."]) == w by {
      WalkConcat([], ds, ["."]);
      assert Walk(w, ["."]) == Walk(w, []);
    }
    assert Walk([], (ds + ["."]) + ps) == Walk(w, ps) by {
      WalkConcat([], ds + ["."], ps);
    }
    assert Walk([], ds + ps) == Walk(w, ps) by {
      WalkConcat([], ds, ps);
    }
  }

  /** Resolving `.` against a normal absolute directory gives the directory back. */
  lemma {:induction false} ResolveDotIsDir(dir: string)
    requires NormalAbsolute(dir)
    ensures Resolve(dir, ".") == dir
  {
    DotIsRelative();
    SplitSingle(".", '/');
    WalkConcat([], Split(dir, '/'), ["."]);
    assert Walk(Walk([], Split(dir, '/')), ["."]) == Walk(Walk([], Split(dir, '/')), []);
    WalkAbsolute(dir);
  }

  /** A normal segment is entered after the walk of the directory, and `.` adds nothing to
      it. */
  lemma {:induction false} ChildWalk(dir: string, name: string)
    requires NormalSegment(name)
    ensures Walk([], ResolveSteps(dir, name)) == Walk([], Split(dir, '/')) + [name]
    ensures Walk([], ResolveSteps(dir, ".")) == Walk([], Split(dir, '/'))
  {
    assert !StartsWith(name, "/") by {
      assert name[0] != '/' by { assert name[0] in name; }
    }
    DotIsRelative();
    SplitSingle(name, '/');
    SplitSingle(".", '/');
    var ds := Split(dir, '/');
    WalkConcat([], ds, [name]);
    WalkConcat([], ds, ["."]);
    var w := Walk([], ds);
    assert Walk(w, ["."]) == Enter(Walk(w, []), ".");
    assert Walk(w, [name]) == Enter(Walk(w, []), name);
  }

  /** A normal segment resolves to a child of the resolved directory, for any directory. */
  lemma {:induction false} ResolveChild(dir: string, name: string)
    requires NormalSegment(name)
    ensures Resolve(dir, name) == Under(Resolve(dir, "."), name)
  {
    ChildWalk(dir, name);
    var ds := Split(dir, '/');
    var w := Walk([], ds);
    assert Resolve(dir, ".") == "/" + Join(w, '/');
    assert Resolve(dir, name) == "/" + Join(w + [name], '/');
    if |w| > 0 {
      assert w[0] != "" by {
        WalkStaysNormal([], ds);
      }
      JoinUnder(w, name);
    } else {
      assert w + [name] == [name];
    }
  }

  /** Appending a segment to a non-empty walk puts it under the joined directory. */
  lemma JoinUnder(w: seq<string>, name: string)
    requires |w| > 0 && w[0] != ""
    ensures "/" + Join(w + [name], '/') == Under("/" + Join(w, '/'), name)
  {
    var j := Join(w, '/');
    JoinNonEmpty(w, '/');
    JoinAppend(w, [name], '/');
    SlashAfter(j, name);
  }

  /** `/j` followed by `/name` is `/` followed by `j/name`, and it is not the root. */
  lemma SlashAfter(j: string, name: string)
    requires j != ""
    ensures "/" + (j + ['/'] + Join([name], '/')) == Under("/" + j, name)
  {
    assert "/" + j != "/" by {
      assert |"/" + j| > 1;
    }
    assert Join([name], '/') == name;
    assert "/" + (j + ['/'] + name) == ("/" + j) + "/" + name;
  }

  /** Parts whose first one is not empty join to a non-empty string. */
  lemma JoinNonEmpty(parts: seq<string>, sep: char)
    requires |parts| >= 1 && parts[0] != ""
    ensures Join(parts, sep) != ""
  {
    if |parts| > 1 {
      JoinCons(parts[0], parts[1..], sep);
      assert parts == [parts[0]] + parts[1..];
    }
  }

  /** `.` is a relative path. */
  lemma DotIsRelative()
    ensures !StartsWith(".", "/")
  {
    assert "."[..1][0] == '.';
  }

  /** A separator-free name placed under an absolute directory is its basename, and the
      directory is its dirname. */
  lemma {:induction false} UnderParts(dir: string, name: string)
    requires NormalAbsolute(dir) && name != "" && '/' !in name
    ensures Basename(Under(dir, name)) == name
    ensures Dirname(Under(dir, name)) == dir
  {
    var d := if dir == "/" then "" else dir;
    assert Under(dir, name) == d + "/" + name;
    LastSlashBefore(d, name);
  }

  /** In `d/name`, with no `/` in `name`, the last `/` is the one after `d`. */
  lemma LastSlashBefore(d: string, name: string)
    requires '/' !in name
    ensures LastIndexOfChar(d + "/" + name, '/') == Some(|d|)
    ensures (d + "/" + name)[..|d|] == d && (d + "/" + name)[|d| + 1..] == name
  {
    var p := d + "/" + name;
    assert p[|d|] == '/';
    assert p[|d| + 1..] == name;
    assert p[..|d|] == d;
    forall j | |d| < j < |p| ensures p[j] != '/' {
      assert p[j] == name[j - |d| - 1];
      assert name[j - |d| - 1] in name;
    }
    LastIndexAt(p, '/', |d|);
  }

  /** An occurrence with none after it is the last one. */
  lemma LastIndexAt(s: string, c: char, i: nat)
    requires i < |s| && s[i] == c
    requires forall j :: i < j < |s| ==> s[j] != c
    ensures LastIndexOfChar(s, c) == Some(i)
  {
    assert s[i] in s;
  }

  /** `path.join(a, b)` for two relative segments (an empty side is dropped). */
  function JoinPath(a: string, b: string): string {
    if a == "" then b else if b == "" then a else a + "/" + b
  }

  /** A separator-free name appended to a directory has that name as its basename. */
  lemma BasenameOfChild(dir: string, name: string)
    requires '/' !in name
    ensures Basename(dir + "/" + name) == name
  {
    LastSlashBefore(dir, name);
  }

  /** Replacing a pattern in a string that does not contain it leaves the string alone. */
  lemma {:induction false} ReplaceAllAbsent(s: string, pat: string, rep: string)
    requires |pat| > 0
    requires !Contains(s, pat)
    ensures ReplaceAll(s, pat, rep) == s
    decreases |s|
  {
    if |s| >= |pat| {
      assert !OccursAt(pat, s, 0);
      assert !Contains(s[1..], pat) by {
        forall i: nat | OccursAt(pat, s[1..], i)
          ensures false
        {
          assert s[1..][i..i + |pat|] == s[i + 1..i + 1 + |pat|];
          assert OccursAt(pat, s, i + 1);
        }
      }
      ReplaceAllAbsent(s[1..], pat, rep);
      assert s == [s[0]] + s[1..];
    }
  }

  /** When the pattern's first character does not occur before it, replacing the first
      occurrence in `a + pat + b` yields `a + rep + b`. */
  lemma ReplaceFirstAfter(a: string, pat: string, b: string, rep: string)
    requires |pat| > 0 && pat[0] !in a
    ensures ReplaceFirst(a + pat + b, pat, rep) == a + Substitution(rep, pat, a, b) + b
  {
    var s := a + pat + b;
    assert OccursAt(pat, s, |a|) by {
      assert s[|a|..|a| + |pat|] == pat;
    }
    forall j: nat | j < |a|
      ensures !OccursAt(pat, s, j)
    {
      assert s[j] == a[j];
      if j + |pat| <= |s| {
        assert s[j..j + |pat|][0] == s[j];
      }
    }
    var r := IndexOf(s, pat);
    assert r.value == |a|;
    assert s[..|a|] == a;
    assert s[|a| + |pat|..] == b;
  }

  /** No occurrence in `s` at positions `1..k` means none in `s[1..]` at positions `0..k-1`. */
  lemma NoOccurrenceShift(pat: string, s: string, k: nat)
    requires |s| > 0
    requires forall j: nat :: j < k ==> !OccursAt(pat, s, j)
    ensures forall j: nat :: j + 1 < k ==> !OccursAt(pat, s[1..], j)
  {
    forall j: nat | j + 1 < k ensures !OccursAt(pat, s[1..], j) {
      assert !OccursAt(pat, s, j + 1);
      if j + |pat| <= |s[1..]| {
        assert s[1..][j..j + |pat|] == s[j + 1..j + 1 + |pat|];
      }
    }
  }

  /** A replacement preceded by a stretch where the pattern does not start is copied through:
      `ReplaceAll(a + pat + b)` is `a + rep + ReplaceAll(b)`. */
  lemma {:induction false} ReplaceAllAfter(a: string, pat: string, b: string, rep: string)
    requires |pat| > 0
    requires forall j: nat :: j < |a| ==> !OccursAt(pat, a + pat + b, j)
    ensures ReplaceAll(a + pat + b, pat, rep) == a + rep + ReplaceAll(b, pat, rep)
    decreases |a|
  {
    var s := a + pat + b;
    if |a| == 0 {
      assert s == pat + b;
      assert s[..|pat|] == pat;
      assert s[|pat|..] == b;
    } else {
      assert !OccursAt(pat, s, 0);
      assert ReplaceAll(s, pat, rep) == [s[0]] + ReplaceAll(s[1..], pat, rep);
      assert s[1..] == a[1..] + pat + b;
      NoOccurrenceShift(pat, s, |a|);
      ReplaceAllAfter(a[1..], pat, b, rep);
      assert a == [s[0]] + a[1..];
    }
  }

  /** The first occurrence of `c` in `a + [c] + b` is right after `a` when `a` lacks `c`. */
  lemma FirstCharAfter(a: string, c: char, b: string)
    requires c !in a
    ensures IndexOfChar(a + [c] + b, c) == Some(|a|)
  {
    var s := a + [c] + b;
    assert s[|a|] == c;
    assert forall j :: 0 <= j < |a| ==> s[j] == a[j];
  }
}
