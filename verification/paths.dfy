/**
 * The pure path functions of file_system.cpp: separators, absolute paths,
 * file names and extensions, the strict name checks, parents, `combine`,
 * `splitPath`, `getRelativePath` and `getSimplePath`.
 *
 * Paths are strings; `/` and `\` are both separators. A path's
 * components are its maximal runs of non-separator characters
 * (`Components`), which is what `splitPath` is meant to return; the code
 * as written drops the last component in two cases (`SplitPathAsWritten`).
 */
module Paths {
  import opened Maybe

  /** `isPathSeparator` (file_system.cpp:549). */
  predicate IsSep(c: char)
  {
    c == '/' || c == '\\'
  }

  /** `s` contains no separator. */
  predicate NoSep(s: string)
  {
    forall k :: 0 <= k < |s| ==> !IsSep(s[k])
  }

  /**
   * `isAbsolutePath` (file_system.cpp:535-547): a leading `/`, or a drive
   * such as `C:\`. A leading backslash alone does not make a path absolute.
   */
  predicate IsAbsolute(p: string)
  {
    |p| > 0 && (p[0] == '/' || (|p| >= 3 && p[1] == ':' && p[2] == '\\'))
  }

  /** The number of occurrences of `ch` in `s`. */
  function Count(s: string, ch: char): nat
  {
    if s == [] then 0 else (if s[0] == ch then 1 else 0) + Count(s[1..], ch)
  }

  /**
   * `sumBSandS` (file_system.cpp:191-199), over both operands at once: the
   * backslashes and the slashes of `a + b`.
   */
  function SumBSandS(a: string, b: string): (r: (nat, nat))
    ensures r.0 == Count(a + b, '\\') && r.1 == Count(a + b, '/')
  {
    CountAppend(a, b, '\\');
    CountAppend(a, b, '/');
    (Count(a, '\\') + Count(b, '\\'), Count(a, '/') + Count(b, '/'))
  }

  lemma {:induction false} CountAppend(a: string, b: string, ch: char)
    ensures Count(a + b, ch) == Count(a, ch) + Count(b, ch)
  {
    if a != [] {
      assert (a + b)[1..] == a[1..] + b;
      CountAppend(a[1..], b, ch);
    } else {
      assert a + b == b;
    }
  }

  lemma {:induction false} CountZero(s: string, ch: char)
    ensures Count(s, ch) == 0 <==> forall k :: 0 <= k < |s| ==> s[k] != ch
  {
    if s != [] {
      CountZero(s[1..], ch);
      assert forall k :: 1 <= k < |s| ==> s[k] == s[1..][k - 1];
    }
  }

  /**
   * The separator a path uses when it uses exactly one kind (the test in
   * file_system.cpp:440 and 490), and `None` when it uses none or both.
   */
  function OneKind(a: string, b: string): (r: Option<char>)
    ensures r.Some? ==> IsSep(r.value)
    ensures r == Some('\\') <==> Count(a + b, '\\') > 0 && Count(a + b, '/') == 0
    ensures r == Some('/') <==> Count(a + b, '/') > 0 && Count(a + b, '\\') == 0
  {
    var (nBS, nS) := SumBSandS(a, b);
    if (nBS == 0 && nS != 0) || (nBS != 0 && nS == 0) then
      Some(if nBS > 0 then '\\' else '/')
    else None
  }

  // ---------------------------------------------------------------------------
  // Components
  // ---------------------------------------------------------------------------

  /** The index of the first separator in `s`, or `|s|`. */
  function RunLength(s: string): (k: nat)
    ensures k <= |s| && NoSep(s[..k]) && (k < |s| ==> IsSep(s[k]))
  {
    if s == [] || IsSep(s[0]) then 0
    else
      var k := RunLength(s[1..]);
      assert s[..k + 1] == [s[0]] + s[1..][..k];
      1 + k
  }

  /** The maximal non-empty runs of non-separators in `s`, in order. */
  function Components(s: string): (r: seq<string>)
    decreases |s|
  {
    if s == [] then []
    else if IsSep(s[0]) then Components(s[1..])
    else
      var k := RunLength(s);
      [s[..k]] + Components(s[k..])
  }

  /** A component is non-empty and holds no separator. */
  predicate IsComponent(x: string)
  {
    x != [] && NoSep(x)
  }

  /** Every component is non-empty and separator-free. */
  lemma {:induction false} ComponentsAreComponents(s: string)
    ensures forall k :: 0 <= k < |Components(s)| ==> IsComponent(Components(s)[k])
    decreases |s|
  {
    if s != [] {
      if IsSep(s[0]) {
        ComponentsAreComponents(s[1..]);
      } else {
        ComponentsAreComponents(s[RunLength(s)..]);
      }
    }
  }

  /** A separator-free string is its own one component, or none when empty. */
  lemma ComponentsOfRun(x: string)
    requires NoSep(x)
    ensures Components(x) == if x == [] then [] else [x]
  {
    if x != [] {
      RunLengthIs(x, |x|);
      assert x[..|x|] == x;
      assert x[|x|..] == [];
    }
  }

  /** `RunLength` is the one index that ends a separator-free prefix at a separator or the end. */
  lemma RunLengthIs(s: string, m: nat)
    requires m <= |s| && (forall j :: 0 <= j < m ==> !IsSep(s[j])) && (m < |s| ==> IsSep(s[m]))
    ensures RunLength(s) == m
  {
    var k := RunLength(s);
    assert forall j :: 0 <= j < k ==> s[..k][j] == s[j];
  }

  /** A run of separators contributes nothing. */
  lemma {:induction false} ComponentsOfSeps(s: string, t: string)
    requires forall k :: 0 <= k < |s| ==> IsSep(s[k])
    ensures Components(s + t) == Components(t)
    decreases |s|
  {
    if s != [] {
      assert (s + t)[1..] == s[1..] + t;
      ComponentsOfSeps(s[1..], t);
    } else {
      assert s + t == t;
    }
  }

  /**
   * The components of a concatenation are those of the parts, when a
   * separator stands at the seam or a part is empty.
   */
  lemma {:induction false} ComponentsAppend(x: string, y: string)
    requires x == [] || y == [] || IsSep(x[|x| - 1]) || IsSep(y[0])
    ensures Components(x + y) == Components(x) + Components(y)
    decreases |x|, 1
  {
    if x == [] {
      assert x + y == y;
    } else if y == [] {
      assert x + y == x;
    } else if IsSep(x[0]) {
      assert (x + y)[1..] == x[1..] + y;
      ComponentsAppend(x[1..], y);
    } else {
      ComponentsAppendRun(x, y);
    }
  }

  /** The seam case of `ComponentsAppend` when `x` starts with a component. */
  lemma {:induction false} ComponentsAppendRun(x: string, y: string)
    requires x != [] && y != [] && !IsSep(x[0]) && (IsSep(x[|x| - 1]) || IsSep(y[0]))
    ensures Components(x + y) == Components(x) + Components(y)
    decreases |x|, 0
  {
    var k := RunLength(x);
    assert forall j :: 0 <= j < k ==> x[..k][j] == x[j];
    if k < |x| {
      assert Components(x + y) == [x[..k]] + Components(x[k..] + y) by {
        RunLengthIs(x + y, k);
        assert (x + y)[..k] == x[..k];
        assert (x + y)[k..] == x[k..] + y;
      }
      ComponentsAppend(x[k..], y);
    } else {
      assert Components(x + y) == [x] + Components(y) by {
        RunLengthIs(x + y, |x|);
        assert (x + y)[..|x|] == x;
        assert (x + y)[|x|..] == y;
      }
      assert x[..k] == x && x[k..] == [];
    }
  }

  /** `parts` joined by the separator `sep`, with none before or after. */
  function JoinWith(parts: seq<string>, sep: char): string
  {
    if parts == [] then []
    else if |parts| == 1 then parts[0]
    else parts[0] + [sep] + JoinWith(parts[1..], sep)
  }

  /** Splitting a joined path gives back the parts: `splitPath` inverts joining. */
  lemma {:induction false} ComponentsOfJoin(parts: seq<string>, sep: char)
    requires IsSep(sep)
    requires forall k :: 0 <= k < |parts| ==> IsComponent(parts[k])
    ensures Components(JoinWith(parts, sep)) == parts
  {
    if |parts| == 1 {
      ComponentsOfRun(parts[0]);
    } else if |parts| > 1 {
      var rest := JoinWith(parts[1..], sep);
      ComponentsOfJoin(parts[1..], sep);
      ComponentsCons(parts[0], sep, rest);
      assert parts[0] + [sep] + rest == parts[0] + ([sep] + rest);
      assert [parts[0]] + parts[1..] == parts;
    }
  }

  /** The components of `s` from index `i` on (a helper for the scans below). */
  lemma ComponentsAtRun(s: string, i: nat, e: nat)
    requires i < e <= |s| && NoSep(s[i..e]) && (e < |s| ==> IsSep(s[e]))
    ensures Components(s[i..]) == [s[i..e]] + Components(s[e..])
  {
    var t := s[i..];
    assert forall j :: 0 <= j < e - i ==> t[j] == s[i..e][j];
    RunLengthIs(t, e - i);
    assert t[..e - i] == s[i..e];
    assert t[e - i..] == s[e..];
  }

  /** Separators from `i` to `j` contribute nothing. */
  lemma ComponentsSkip(s: string, i: nat, j: nat)
    requires i <= j <= |s| && forall k :: i <= k < j ==> IsSep(s[k])
    ensures Components(s[i..]) == Components(s[j..])
  {
    assert s[i..] == s[i..j] + s[j..];
    ComponentsOfSeps(s[i..j], s[j..]);
  }

  // ---------------------------------------------------------------------------
  // splitPath
  // ---------------------------------------------------------------------------

  /**
   * What `splitPath` returns as written: the components, except that the
   * last one is lost when the path does not end in a separator and that
   * component is either the only one or a single character (the final test
   * `start > end && start < n - 1`, file_system.cpp:423).
   */
  function SplitPathAsWrittenResult(p: string): seq<string>
  {
    var cs := Components(p);
    if |cs| > 0 && p != [] && !IsSep(p[|p| - 1]) && (|cs| == 1 || |cs[|cs| - 1]| == 1) then cs[..|cs| - 1]
    else cs
  }

  /**
   * `splitPath` (file_system.cpp:388-427) with its loops as written: skip
   * the leading separators; at each separator after a component, emit it
   * and skip the run of separators; at the end emit the tail when a
   * component was emitted before it and it starts before `n - 1`.
   */
  method SplitPathAsWritten(p: string) returns (parts: seq<string>)
    ensures parts == SplitPathAsWrittenResult(p)
  {
    var start, end;
    parts, start, end := SplitScan(p);
    ScanEnd(p, parts, start);
    var n := |p|;
    if start > end && start < n - 1 {
      parts := parts + [p[start..]];
    }
    if start < n {
      assert p[n - 1] == p[start..][n - 1 - start];
    }
  }

  /** `splitPath` with the final test `start < n`: every component, in order. */
  method SplitPath(p: string) returns (parts: seq<string>)
    ensures parts == Components(p)
  {
    var start, end;
    parts, start, end := SplitScan(p);
    ScanEnd(p, parts, start);
    if start < |p| {
      parts := parts + [p[start..]];
    }
  }

  /**
   * The two loops of `splitPath` (file_system.cpp:393-421): the components
   * before the last one, and `start`, where the unfinished last component
   * begins (`|p|` when the path ends in separators).
   */
  method SplitScan(p: string) returns (parts: seq<string>, start: nat, end: nat)
    ensures end <= start <= |p| && (|parts| > 0 <==> end < start)
    ensures Emitted(p, parts, start) && NoSep(p[start..])
    ensures start > 0 ==> IsSep(p[start - 1])
  {
    var i := SkipSeps(p, 0);
    ComponentsSkip(p, 0, i);
    assert p[0..] == p;
    parts, start, end := ScanFrom(p, i);
  }

  /** The second loop of `splitPath`, from the first component at `i0` (file_system.cpp:404-421). */
  method ScanFrom(p: string, i0: nat) returns (parts: seq<string>, start: nat, end: nat)
    requires i0 <= |p| && (i0 > 0 ==> IsSep(p[i0 - 1])) && (i0 < |p| ==> !IsSep(p[i0]))
    requires Components(p[i0..]) == Components(p)
    ensures end <= start <= |p| && (|parts| > 0 <==> end < start)
    ensures Emitted(p, parts, start) && NoSep(p[start..])
    ensures start > 0 ==> IsSep(p[start - 1])
  {
    var n := |p|;
    parts := [];
    var i := i0;
    start, end := i, i;
    assert [] + Components(p[i..]) == Components(p);
    while i < n
      invariant Scanning(p, parts, start, end, i)
    {
      if IsSep(p[i]) {
        end := i;
        parts, start := EmitRun(p, parts, start, i);
        i := start;
      } else {
        i := i + 1;
      }
    }
    NoSepFrom(p, start);
  }

  /**
   * The state of the second loop of `splitPath` at `i`: `parts` emitted,
   * the unfinished component starting at `start` and running to `i`, and
   * `end` behind `start` once something was emitted.
   */
  ghost predicate Scanning(p: string, parts: seq<string>, start: nat, end: nat, i: nat)
  {
    && end <= start <= i <= |p| && (|parts| > 0 <==> end < start)
    && Emitted(p, parts, start)
    && (forall k :: start <= k < i ==> !IsSep(p[k]))
    && (start > 0 ==> IsSep(p[start - 1]))
    && (start < |p| ==> !IsSep(p[start]))
  }

  /**
   * The body of the second loop at the separator `p[i]` after a component:
   * emit the component from `start`, skip the separators, and start the
   * next component after them.
   */
  method EmitRun(p: string, parts: seq<string>, start: nat, i: nat) returns (parts2: seq<string>, start2: nat)
    requires start <= i < |p| && IsSep(p[i]) && !IsSep(p[start])
    requires Emitted(p, parts, start)
    requires forall k :: start <= k < i ==> !IsSep(p[k])
    ensures parts2 == parts + [p[start..i]]
    ensures i < start2 <= |p| && IsSep(p[start2 - 1]) && (start2 < |p| ==> !IsSep(p[start2]))
    ensures Emitted(p, parts2, start2)
  {
    start2 := SkipSeps(p, i + 1);
    ScanStep(p, parts, start, i, start2);
    parts2 := parts + [p[start..i]];
  }

  lemma NoSepFrom(p: string, start: nat)
    requires start <= |p| && forall k :: start <= k < |p| ==> !IsSep(p[k])
    ensures NoSep(p[start..])
  {
    assert forall k :: 0 <= k < |p[start..]| ==> p[start..][k] == p[start + k];
  }

  /** `parts` followed by the components from `start` on are all the components of `p`. */
  ghost predicate Emitted(p: string, parts: seq<string>, start: nat)
    requires start <= |p|
  {
    parts + Components(p[start..]) == Components(p)
  }

  /** The loops over a run of separators (file_system.cpp:396-402, 410-415): the first index from `i` that is not one. */
  method SkipSeps(p: string, i: nat) returns (j: nat)
    requires i <= |p|
    ensures i <= j <= |p| && (j < |p| ==> !IsSep(p[j]))
    ensures forall k :: i <= k < j ==> IsSep(p[k])
  {
    j := i;
    while j < |p| && IsSep(p[j])
      invariant i <= j <= |p|
      invariant forall k :: i <= k < j ==> IsSep(p[k])
    {
      j := j + 1;
    }
  }

  /** One separator run in the scan: the component before it is emitted, the run skipped. */
  lemma ScanStep(p: string, parts: seq<string>, start: nat, end: nat, j: nat)
    requires start < end < j <= |p|
    requires Emitted(p, parts, start)
    requires forall k :: start <= k < end ==> !IsSep(p[k])
    requires forall k :: end <= k < j ==> IsSep(p[k])
    ensures Emitted(p, parts + [p[start..end]], j)
  {
    assert forall k :: 0 <= k < end - start ==> p[start..end][k] == p[start + k];
    ComponentsAtRun(p, start, end);
    ComponentsSkip(p, end, j);
  }

  /** The scan's end: what is left from `start` is one component or nothing. */
  lemma ScanEnd(p: string, parts: seq<string>, start: nat)
    requires start <= |p| && Emitted(p, parts, start) && NoSep(p[start..])
    ensures start < |p| ==> parts + [p[start..]] == Components(p)
    ensures start == |p| ==> parts == Components(p)
  {
    ComponentsOfRun(p[start..]);
    if start == |p| {
      assert parts + [] == parts;
    }
  }

  lemma SplitPathExamplesDir()
    ensures SplitPathAsWrittenResult("dir") == [] && Components("dir") == ["dir"]
    ensures SplitPathAsWrittenResult("/dir") == [] && Components("/dir") == ["dir"]
  {
    ComponentsOfRun("dir");
    assert "/dir"[1..] == "dir";
  }

  lemma SplitPathExampleShortTail()
    ensures SplitPathAsWrittenResult("a/b") == ["a"] && Components("a/b") == ["a", "b"]
  {
    ComponentsAppend("a", "/b");
    assert "a" + "/b" == "a/b";
    ComponentsOfSeps("/", "b");
    assert "/" + "b" == "/b";
    ComponentsOfRun("a");
    ComponentsOfRun("b");
  }

  /**
   * A one-component path comes back empty, with or without a leading
   * separator, where the test suite expects `["dir"]`; a one-character
   * last component is lost too.
   */
  lemma SplitPathDropsLast()
    ensures SplitPathAsWrittenResult("dir") != Components("dir")
    ensures SplitPathAsWrittenResult("/dir") != Components("/dir")
    ensures SplitPathAsWrittenResult("a/b") != Components("a/b")
  {
    SplitPathExamplesDir();
    SplitPathExampleShortTail();
  }

  // ---------------------------------------------------------------------------
  // File names, extensions and parents
  // ---------------------------------------------------------------------------

  /** The largest separator index in `[lo, hi)` of `p`, if any. */
  function LastSepIn(p: string, lo: nat, hi: nat): (r: Option<nat>)
    requires hi <= |p|
    decreases hi
    ensures r.Some? ==> lo <= r.value < hi && IsSep(p[r.value]) && forall k :: r.value < k < hi ==> !IsSep(p[k])
    ensures r.None? ==> forall k :: lo <= k < hi ==> !IsSep(p[k])
  {
    if hi <= lo then None
    else if IsSep(p[hi - 1]) then Some(hi - 1)
    else LastSepIn(p, lo, hi - 1)
  }

  /**
   * `getFilename` (file_system.cpp:272-282): what follows the last
   * separator, looking down to index 1 only; the whole path when there is
   * none there.
   */
  function GetFilename(p: string): (r: string)
    ensures r == p <==> forall k :: 1 <= k < |p| ==> !IsSep(p[k])
    ensures r != p ==> exists k :: 1 <= k < |p| && IsSep(p[k]) && r == p[k + 1..]
    ensures forall k :: 1 <= k < |r| ==> !IsSep(r[k])
    ensures r != p && r != [] ==> !IsSep(r[0])
  {
    match LastSepIn(p, 1, |p|)
    case None => p
    case Some(k) =>
      assert |p[k + 1..]| < |p|;
      p[k + 1..]
  }

  /** `s` as a C string: up to its first NUL. */
  function CString(s: string): (r: string)
    ensures r <= s && '\0' !in r && (|r| < |s| ==> s[|r|] == '\0')
  {
    if s == [] || s[0] == '\0' then [] else [s[0]] + CString(s[1..])
  }

  /** The largest index of `ch` in `s`, if any. */
  function LastIndexOf(s: string, ch: char): (r: Option<nat>)
    ensures r.Some? ==> r.value < |s| && s[r.value] == ch && forall k :: r.value < k < |s| ==> s[k] != ch
    ensures r.None? ==> ch !in s
  {
    if s == [] then None
    else if s[|s| - 1] == ch then Some(|s| - 1)
    else
      var r := LastIndexOf(s[..|s| - 1], ch);
      assert s == s[..|s| - 1] + [s[|s| - 1]];
      r
  }

  /**
   * `getFileExtension(const char *)` (file_system.cpp:239-262): null for a
   * null path; otherwise the text after the last `.` of the C string,
   * unless there is no `.` or it is the last character.
   */
  function FileExtensionPtr(path: Option<string>): (r: Option<string>)
    ensures path.None? ==> r.None?
    ensures path.Some? ==> var s := CString(path.value);
      && (r.None? <==> '.' !in s || s[|s| - 1] == '.')
      && (r.Some? ==> r.value != [] && '.' !in r.value && exists k :: 0 <= k < |s| && s[k] == '.' && r.value == s[k + 1..])
  {
    match path
    case None => None
    case Some(p) =>
      var s := CString(p);
      match LastIndexOf(s, '.')
      case None => None
      case Some(k) =>
        if k + 1 == |s| then None
        else
          AfterLastDot(s, k);
          Some(s[k + 1..])
  }

  /** What follows the last `.` holds no `.`, and a `.` that is not last leaves a non-empty tail. */
  lemma AfterLastDot(s: string, k: nat)
    requires LastIndexOf(s, '.') == Some(k) && k + 1 < |s|
    ensures s[k] == '.' && s[|s| - 1] != '.'
    ensures s[k + 1..] != [] && '.' !in s[k + 1..]
  {
    var t := s[k + 1..];
    assert forall m :: 0 <= m < |t| ==> t[m] == s[k + 1 + m];
  }

  /** `getFileExtension(const std::string &)` (file_system.cpp:264-270): the extension, or "". */
  function FileExtension(p: string): (r: string)
    ensures var s := CString(p);
      && (r == [] <==> '.' !in s || s[|s| - 1] == '.')
      && '.' !in r
      && (r != [] ==> exists k :: 0 <= k < |s| && s[k] == '.' && r == s[k + 1..])
  {
    match FileExtensionPtr(Some(p))
    case None => []
    case Some(e) => e
  }

  /** The first separator index at or after `i`, or `|p|`. */
  function NextSep(p: string, i: nat): (r: nat)
    requires i <= |p|
    decreases |p| - i
    ensures i <= r <= |p| && (r < |p| ==> IsSep(p[r])) && forall k :: i <= k < r ==> !IsSep(p[k])
  {
    if i == |p| || IsSep(p[i]) then i else NextSep(p, i + 1)
  }

  /**
   * The separator at `i` ends the parent of `p`: the text up to the next
   * separator (or the end) is a component other than `.`.
   */
  predicate Qualifies(p: string, i: nat)
    requires i < |p|
  {
    IsSep(p[i]) && var e := NextSep(p, i + 1); e - i >= 2 && !(e - i == 2 && p[i + 1] == '.')
  }

  /**
   * The backward scan of `getParent` (file_system.cpp:346-357) from index
   * `i - 1` down, with `lastPS` the separator last skipped (or `|p|`).
   */
  function ParentScan(p: string, i: nat, lastPS: nat): (r: Option<nat>)
    requires i <= lastPS <= |p| && lastPS == NextSep(p, i)
    decreases i
    ensures r.Some? ==> r.value < i && Qualifies(p, r.value) && forall k :: r.value < k < i ==> !Qualifies(p, k)
    ensures r.None? ==> forall k :: 0 <= k < i ==> !Qualifies(p, k)
  {
    if i == 0 then None
    else
      var j := i - 1;
      if IsSep(p[j]) then
        var d := lastPS - j;
        assert NextSep(p, j + 1) == lastPS;
        if d < 2 || (d == 2 && p[j + 1] == '.') then ParentScan(p, j, j)
        else Some(j)
      else
        assert NextSep(p, j) == lastPS;
        ParentScan(p, j, lastPS)
  }

  /**
   * `getParent` (file_system.cpp:342-359): the prefix through the last
   * separator that is followed by a real component, skipping trailing
   * separators and `.` components; "" when there is none.
   */
  function GetParent(p: string): (r: string)
    ensures |r| <= |p|
    ensures r == [] <==> forall k :: 0 <= k < |p| ==> !Qualifies(p, k)
    ensures r != [] ==> var k := |r| - 1;
      && r == p[..k + 1] && Qualifies(p, k)
      && forall m :: k < m < |p| ==> !Qualifies(p, m)
  {
    match ParentScan(p, |p|, |p|)
    case None => []
    case Some(k) => p[..k + 1]
  }

  // ---------------------------------------------------------------------------
  // Strict names
  // ---------------------------------------------------------------------------

  /** `std::isalnum` in the C locale: an ASCII letter or digit. */
  predicate IsAlnum(c: char)
  {
    ('a' <= c <= 'z') || ('A' <= c <= 'Z') || ('0' <= c <= '9')
  }

  /**
   * The scan of `isStrictFilename` / `isStrictNormalizedUrl`
   * (file_system.cpp:290-310, 319-339): letters, digits, `-` and `_` reset
   * the flag; a special character fails when the flag is set and sets it;
   * anything else fails.
   */
  function StrictScan(s: string, special: char -> bool, flag: bool): bool
  {
    if s == [] then true
    else if IsAlnum(s[0]) || s[0] == '-' || s[0] == '_' then StrictScan(s[1..], special, false)
    else if special(s[0]) then !flag && StrictScan(s[1..], special, true)
    else false
  }

  /** Every character is allowed, and no two specials are adjacent. */
  ghost predicate StrictChars(s: string, special: char -> bool)
  {
    && (forall k :: 0 <= k < |s| ==> IsAlnum(s[k]) || s[k] == '-' || s[k] == '_' || special(s[k]))
    && (forall k :: 0 <= k < |s| - 1 ==> !(special(s[k]) && special(s[k + 1])))
  }

  /** The scan accepts exactly the strings `StrictChars` describes. */
  lemma {:induction false} StrictScanIff(s: string, special: char -> bool, flag: bool)
    requires forall c :: special(c) ==> !IsAlnum(c) && c != '-' && c != '_'
    ensures StrictScan(s, special, flag) <==> StrictChars(s, special) && !(flag && s != [] && special(s[0]))
  {
    if s != [] {
      StrictScanIff(s[1..], special, special(s[0]));
      assert forall k :: 1 <= k < |s| ==> s[k] == s[1..][k - 1];
      if StrictChars(s, special) {
        assert StrictChars(s[1..], special);
      }
    }
  }

  /** `isStrictFilename` (file_system.cpp:284-311): 1 to 1024 characters, the special being `.`. */
  function IsStrictFilename(s: string): (r: bool)
    ensures r <==> 0 < |s| <= 1024 && StrictChars(s, c => c == '.')
  {
    StrictScanIff(s, c => c == '.', false);
    0 < |s| <= 1024 && StrictScan(s, c => c == '.', false)
  }

  /** `isStrictNormalizedUrl` (file_system.cpp:313-340): the same, the specials being `/`, `\` and `.`. */
  function IsStrictNormalizedUrl(s: string): (r: bool)
    ensures r <==> 0 < |s| <= 1024 && StrictChars(s, c => c == '/' || c == '\\' || c == '.')
  {
    StrictScanIff(s, c => c == '/' || c == '\\' || c == '.', false);
    0 < |s| <= 1024 && StrictScan(s, c => c == '/' || c == '\\' || c == '.', false)
  }

  // ---------------------------------------------------------------------------
  // combine
  // ---------------------------------------------------------------------------

  /**
   * `combine` (file_system.cpp:361-386): join two paths with exactly one
   * separator at the seam; a separator inserted between them is `\` when
   * either operand holds a backslash, else `/`.
   */
  function Combine(a: string, b: string): (r: string)
    ensures a == [] || b == [] ==> r == a + b
    ensures a != [] && b != [] && IsSep(a[|a| - 1]) && IsSep(b[0]) ==> r == a + b[1..]
    ensures a != [] && b != [] && IsSep(a[|a| - 1]) != IsSep(b[0]) ==> r == a + b
    ensures a != [] && b != [] && !IsSep(a[|a| - 1]) && !IsSep(b[0]) ==>
      r == a + [if Count(a + b, '\\') > 0 then '\\' else '/'] + b
  {
    if |a| != 0 && |b| != 0 then
      var aPS := IsSep(a[|a| - 1]);
      var bPS := IsSep(b[0]);
      if aPS && bPS then a + b[1..]
      else if !aPS && !bPS then
        var (nBS, nS) := SumBSandS(a, b);
        a + [if nBS > 0 then '\\' else '/'] + b
      else a + b
    else a + b
  }

  /** The components of `combine(a, b)` are those of `a` followed by those of `b`. */
  lemma CombineComponents(a: string, b: string)
    ensures Components(Combine(a, b)) == Components(a) + Components(b)
  {
    if a != [] && b != [] {
      if IsSep(a[|a| - 1]) && IsSep(b[0]) {
        ComponentsAppend(a, b[1..]);
        assert b == [b[0]] + b[1..];
        ComponentsOfSeps([b[0]], b[1..]);
      } else if !IsSep(a[|a| - 1]) && !IsSep(b[0]) {
        var s := if Count(a + b, '\\') > 0 then '\\' else '/';
        assert a + [s] + b == a + ([s] + b);
        ComponentsAppend(a, [s] + b);
        ComponentsOfSeps([s], b);
      } else {
        ComponentsAppend(a, b);
      }
    } else {
      ComponentsAppend(a, b);
    }
  }

  lemma CombineExamples()
    ensures Combine("a", "b") == "a/b"
    ensures Combine("a/b", "/c") == "a/b/c"
    ensures Combine("a/b/c/", "/d") == "a/b/c/d"
  {
    assert Count("ab", '\\') == 0;
  }

  // ---------------------------------------------------------------------------
  // getRelativePath
  // ---------------------------------------------------------------------------

  /** The length of the longest common prefix of `xs` and `ys` (file_system.cpp:444-452). */
  function CommonLength(xs: seq<string>, ys: seq<string>): (r: nat)
    ensures r <= |xs| && r <= |ys| && forall m :: 0 <= m < r ==> xs[m] == ys[m]
    ensures r < |xs| && r < |ys| ==> xs[r] != ys[r]
  {
    if xs == [] || ys == [] || xs[0] != ys[0] then 0
    else 1 + CommonLength(xs[1..], ys[1..])
  }

  /** `k` copies of `x`. */
  function Repeat(x: string, k: nat): (r: seq<string>)
    ensures |r| == k && forall m :: 0 <= m < k ==> r[m] == x
  {
    if k == 0 then [] else [x] + Repeat(x, k - 1)
  }

  /** `..` followed by `sep`, `k` times (file_system.cpp:454-457). */
  function Ups(k: nat, sep: char): string
  {
    if k == 0 then [] else ['.', '.', sep] + Ups(k - 1, sep)
  }

  /** Each part followed by `sep` (file_system.cpp:462-465). */
  function Terminated(parts: seq<string>, sep: char): string
  {
    if parts == [] then [] else parts[0] + [sep] + Terminated(parts[1..], sep)
  }

  /**
   * The parts `splitPath` gives for `p`: as written, or with the corrected
   * final test. `getRelativePath` and `getSimplePath` call it.
   */
  function PathParts(p: string, asWritten: bool): seq<string>
  {
    if asWritten then SplitPathAsWrittenResult(p) else Components(p)
  }

  /**
   * `getRelativePath` (file_system.cpp:429-481) over `PathParts(_, asWritten)`:
   * `None` (false, with `out` set to "") unless both paths are absolute and
   * together use one kind of separator; then the way up from `from` past the
   * common parts and down the rest of `to`, ending in a separator when `to`
   * does.
   */
  function GetRelativePathOver(from: string, to: string, asWritten: bool): (r: Option<string>)
    ensures r.None? <==> !(IsAbsolute(from) && IsAbsolute(to)) || OneKind(from, to).None?
  {
    if IsAbsolute(from) && IsAbsolute(to) then
      match OneKind(from, to)
      case None => None
      case Some(sep) => Some(Relative(PathParts(from, asWritten), PathParts(to, asWritten), sep, to[|to| - 1] == sep))
    else None
  }

  /** `getRelativePath` on the corrected split. */
  function GetRelativePath(from: string, to: string): (r: Option<string>)
  {
    GetRelativePathOver(from, to, false)
  }

  /** `getRelativePath` on `splitPath` as written. */
  function GetRelativePathAsWritten(from: string, to: string): (r: Option<string>)
    ensures r.None? <==> GetRelativePath(from, to).None?
  {
    GetRelativePathOver(from, to, true)
  }

  /**
   * The success case of `getRelativePath` (file_system.cpp:444-473) on the
   * two paths' components: `..` and `sep` for each component of `from` past
   * the common prefix, then the rest of `to` separated by `sep`, with `sep`
   * after the last when `trailing`.
   */
  function Relative(fromParts: seq<string>, toParts: seq<string>, sep: char, trailing: bool): string
  {
    var common := CommonLength(fromParts, toParts);
    var up := Ups(|fromParts| - common, sep);
    if |toParts| > 0 && common <= |toParts| - 1 then up + Down(toParts[common..], sep, trailing)
    else up
  }

  /** The way down: each of `parts` but the last followed by `sep`, then the last, then `sep` when `trailing`. */
  function Down(parts: seq<string>, sep: char, trailing: bool): string
    requires |parts| > 0
  {
    var n := |parts| - 1;
    Terminated(parts[..n], sep) + (parts[n] + (if trailing then [sep] else []))
  }

  /** A component, a separator, then the rest: the component and the rest's components. */
  lemma ComponentsCons(x: string, sep: char, rest: string)
    requires IsComponent(x) && IsSep(sep)
    ensures Components(x + ([sep] + rest)) == [x] + Components(rest)
  {
    ComponentsAppend(x, [sep] + rest);
    ComponentsOfRun(x);
    ComponentsOfSeps([sep], rest);
  }

  lemma DotDotIsComponent()
    ensures IsComponent("..")
  {
    assert ".."[0] == '.' && ".."[1] == '.';
  }

  /** The climbs are `k` components `..`, each followed by `sep`. */
  lemma {:induction false} UpsIsTerminated(k: nat, sep: char)
    ensures Ups(k, sep) == Terminated(Repeat("..", k), sep)
  {
    if k > 0 {
      UpsIsTerminated(k - 1, sep);
      var r := Repeat("..", k);
      assert r[0] == ".." && r[1..] == Repeat("..", k - 1);
    }
  }

  lemma UpsComponents(k: nat, sep: char, rest: string)
    requires IsSep(sep)
    ensures Components(Ups(k, sep) + rest) == Repeat("..", k) + Components(rest)
  {
    UpsIsTerminated(k, sep);
    DotDotIsComponent();
    TerminatedComponents(Repeat("..", k), sep, rest);
  }

  lemma {:induction false} UpsEnd(k: nat, sep: char)
    requires k > 0
    ensures |Ups(k, sep)| > 0 && Ups(k, sep)[|Ups(k, sep)| - 1] == sep
  {
    if k > 1 {
      UpsEnd(k - 1, sep);
    }
  }

  lemma {:induction false} TerminatedComponents(parts: seq<string>, sep: char, rest: string)
    requires IsSep(sep)
    requires forall k :: 0 <= k < |parts| ==> IsComponent(parts[k])
    ensures Components(Terminated(parts, sep) + rest) == parts + Components(rest)
  {
    if parts != [] {
      var t := Terminated(parts[1..], sep);
      var cs := Components(rest);
      assert Components(t + rest) == parts[1..] + cs by {
        TerminatedComponents(parts[1..], sep, rest);
      }
      assert Terminated(parts, sep) + rest == parts[0] + ([sep] + (t + rest));
      assert Components(parts[0] + ([sep] + (t + rest))) == [parts[0]] + Components(t + rest) by {
        ComponentsCons(parts[0], sep, t + rest);
      }
      assert [parts[0]] + (parts[1..] + cs) == ([parts[0]] + parts[1..]) + cs;
      assert [parts[0]] + parts[1..] == parts;
    } else {
      assert Terminated(parts, sep) + rest == rest;
    }
  }

  /** `getRelativePath` fails exactly when a path is not absolute or the two mix or lack separators. */
  lemma RelativePathFails(from: string, to: string)
    ensures GetRelativePath(from, to).None? <==> !IsAbsolute(from) || !IsAbsolute(to) || OneKind(from, to).None?
  {
  }

  /** A component followed by at most one separator is that one component. */
  lemma ComponentThenSep(x: string, tail: string)
    requires IsComponent(x) && NoSep(x) && forall k :: 0 <= k < |tail| ==> IsSep(tail[k])
    ensures Components(x + tail) == [x]
  {
    ComponentsAppend(x, tail);
    ComponentsOfRun(x);
    ComponentsOfSeps(tail, []);
    assert tail + [] == tail;
  }

  /**
   * The components of the relative path climb `..` once per component of
   * `from` past the common prefix and then name the rest of `to`.
   */
  lemma RelativeComponents(fromParts: seq<string>, toParts: seq<string>, sep: char, trailing: bool)
    requires IsSep(sep)
    requires forall k :: 0 <= k < |toParts| ==> IsComponent(toParts[k])
    ensures var common := CommonLength(fromParts, toParts);
      Components(Relative(fromParts, toParts, sep, trailing)) == Repeat("..", |fromParts| - common) + toParts[common..]
  {
    var common := CommonLength(fromParts, toParts);
    var k := |fromParts| - common;
    var down := toParts[common..];
    var ups := Repeat("..", k);
    if |toParts| > 0 && common <= |toParts| - 1 {
      var d := Down(down, sep, trailing);
      assert Components(d) == down by {
        DownComponents(down, sep, trailing);
      }
      assert Components(Ups(k, sep) + d) == ups + Components(d) by {
        UpsComponents(k, sep, d);
      }
    } else {
      assert Components(Ups(k, sep)) == ups by {
        UpsComponents(k, sep, []);
        assert Ups(k, sep) + [] == Ups(k, sep);
        assert ups + [] == ups;
      }
      assert down == [];
      assert ups + [] == ups;
    }
  }

  lemma SliceSnoc<T>(s: seq<T>)
    requires |s| > 0
    ensures s[..|s| - 1] + [s[|s| - 1]] == s
  {
  }

  /** The way down names exactly its parts. */
  lemma DownComponents(parts: seq<string>, sep: char, trailing: bool)
    requires IsSep(sep) && |parts| > 0
    requires forall m :: 0 <= m < |parts| ==> IsComponent(parts[m])
    ensures Components(Down(parts, sep, trailing)) == parts
  {
    var n := |parts| - 1;
    var x := parts[n];
    var tail: string := if trailing then [sep] else [];
    assert Components(x + tail) == [x] by {
      ComponentThenSep(x, tail);
    }
    TerminatedComponents(parts[..n], sep, x + tail);
    SliceSnoc(parts);
  }

  /** The way down ends in a separator exactly when `trailing`. */
  lemma DownEnd(parts: seq<string>, sep: char, trailing: bool)
    requires IsSep(sep) && |parts| > 0 && IsComponent(parts[|parts| - 1])
    ensures var d := Down(parts, sep, trailing);
      |d| > 0 && (IsSep(d[|d| - 1]) <==> trailing)
  {
    var n := |parts| - 1;
    var x := parts[n];
    var tail: string := if trailing then [sep] else [];
    var t := Terminated(parts[..n], sep);
    var d := Down(parts, sep, trailing);
    assert d == t + (x + tail);
    assert d[|d| - 1] == (x + tail)[|x + tail| - 1];
    assert x[|x| - 1] == (x + tail)[|x| - 1];
  }

  /** When the relative path names a component of `to`, it ends in a separator exactly when asked to. */
  lemma RelativeTrailing(fromParts: seq<string>, toParts: seq<string>, sep: char, trailing: bool)
    requires IsSep(sep)
    requires forall k :: 0 <= k < |toParts| ==> IsComponent(toParts[k])
    requires CommonLength(fromParts, toParts) < |toParts|
    ensures var out := Relative(fromParts, toParts, sep, trailing);
      |out| > 0 && (IsSep(out[|out| - 1]) <==> trailing)
  {
    var common := CommonLength(fromParts, toParts);
    var down := toParts[common..];
    var up := Ups(|fromParts| - common, sep);
    var d := Down(down, sep, trailing);
    assert |d| > 0 && (IsSep(d[|d| - 1]) <==> trailing) by {
      DownEnd(down, sep, trailing);
    }
    LastOfAppend(up, d);
  }

  lemma LastOfAppend(a: string, b: string)
    requires |b| > 0
    ensures (a + b)[|a + b| - 1] == b[|b| - 1]
  {
  }

  /**
   * What `getRelativePath` promises on success, on the corrected split of
   * the two paths and the separator they share.
   */
  lemma RelativePathMeaning(from: string, to: string)
    requires GetRelativePath(from, to).Some?
    ensures var fromParts := Components(from);
      var toParts := Components(to);
      var common := CommonLength(fromParts, toParts);
      var out := GetRelativePath(from, to).value;
      && Components(out) == Repeat("..", |fromParts| - common) + toParts[common..]
      && (common < |toParts| ==> (IsSep(out[|out| - 1]) <==> IsSep(to[|to| - 1])))
  {
    RelativePathClimbs(from, to);
    RelativePathEnds(from, to);
  }

  /** On the corrected split: the climbs out of `from`, then the rest of `to`. */
  lemma RelativePathClimbs(from: string, to: string)
    requires GetRelativePath(from, to).Some?
    ensures var fromParts := Components(from);
      var toParts := Components(to);
      var common := CommonLength(fromParts, toParts);
      Components(GetRelativePath(from, to).value) == Repeat("..", |fromParts| - common) + toParts[common..]
  {
    var sep := OneKind(from, to).value;
    var fromParts, toParts := Components(from), Components(to);
    var trailing := to[|to| - 1] == sep;
    assert GetRelativePath(from, to).value == Relative(fromParts, toParts, sep, trailing);
    ComponentsAreComponents(to);
    RelativeComponents(fromParts, toParts, sep, trailing);
  }

  lemma RelativePathEnds(from: string, to: string)
    requires GetRelativePath(from, to).Some?
    ensures var toParts := Components(to);
      var out := GetRelativePath(from, to).value;
      CommonLength(Components(from), toParts) < |toParts| ==> |out| > 0 && (IsSep(out[|out| - 1]) <==> IsSep(to[|to| - 1]))
  {
    var sep := OneKind(from, to).value;
    var fromParts, toParts := Components(from), Components(to);
    var trailing := to[|to| - 1] == sep;
    var out := Relative(fromParts, toParts, sep, trailing);
    assert GetRelativePath(from, to).value == out;
    if CommonLength(fromParts, toParts) < |toParts| {
      assert |out| > 0 && (IsSep(out[|out| - 1]) <==> trailing) by {
        ComponentsAreComponents(to);
        RelativeTrailing(fromParts, toParts, sep, trailing);
      }
      assert IsSep(to[|to| - 1]) ==> to[|to| - 1] == sep by {
        CountAppend(from, to, '/');
        CountAppend(from, to, '\\');
        CountZero(to, '/');
        CountZero(to, '\\');
      }
    }
  }

  /** An absolute path written as a leading separator and its parts joined. */
  lemma ComponentsOfAbsolute(parts: seq<string>, sep: char)
    requires IsSep(sep)
    requires forall k :: 0 <= k < |parts| ==> IsComponent(parts[k])
    ensures Components([sep] + JoinWith(parts, sep)) == parts
  {
    ComponentsOfSeps([sep], JoinWith(parts, sep));
    ComponentsOfJoin(parts, sep);
  }

  lemma ExampleFromComponents()
    ensures Components("/root/abc/def") == ["root", "abc", "def"]
  {
    var parts := ["root", "abc", "def"];
    assert IsComponent(parts[0]) && IsComponent(parts[1]) && IsComponent(parts[2]);
    assert "/root/abc/def" == ['/'] + JoinWith(parts, '/');
    ComponentsOfAbsolute(parts, '/');
  }

  lemma ExampleToComponents()
    ensures Components("/root/abc/file.txt") == ["root", "abc", "file.txt"]
  {
    var parts := ["root", "abc", "file.txt"];
    assert IsComponent(parts[0]) && IsComponent(parts[1]) && IsComponent(parts[2]);
    assert "/root/abc/file.txt" == ['/'] + JoinWith(parts, '/');
    ComponentsOfAbsolute(parts, '/');
  }

  lemma NoBackslash(s: string)
    requires forall k :: 0 <= k < |s| ==> s[k] != '\\'
    ensures Count(s, '\\') == 0
  {
    CountZero(s, '\\');
  }

  /** The two paths of the first test case use slashes only. */
  lemma ExampleCounts(f: string, t: string)
    requires f == "/root/abc/def" && t == "/root/abc/file.txt"
    ensures Count(f + t, '\\') == 0 && Count(f + t, '/') > 0
  {
    NoBackslash(f);
    NoBackslash(t);
    CountAppend(f, t, '\\');
    CountZero(f + t, '/');
    assert (f + t)[0] == '/';
  }

  lemma ExampleRelative()
    ensures Relative(["root", "abc", "def"], ["root", "abc", "file.txt"], '/', false) == "../file.txt"
  {
    var xs := ["root", "abc", "def"];
    var ys := ["root", "abc", "file.txt"];
    assert CommonLength(xs, ys) == 2;
    assert Ups(1, '/') == "../";
    assert Terminated(ys[2..2], '/') == [];
    assert "../" + ([] + ("file.txt" + [])) == "../file.txt";
  }

  /** The first case of the test suite: from "/root/abc/def" to "/root/abc/file.txt". */
  lemma RelativePathExample(f: string, t: string, g: string)
    requires f == "/root/abc/def" && t == "/root/abc/file.txt" && g == "root/abc/def"
    ensures GetRelativePath(f, t) == Some("../file.txt")
    ensures GetRelativePath(g, t) == None
  {
    ExampleFromComponents();
    ExampleToComponents();
    ExampleRelative();
    ExampleCounts(f, t);
  }

  // ---------------------------------------------------------------------------
  // getSimplePath
  // ---------------------------------------------------------------------------

  /** What the simplification has kept so far, and how many of its last parts are normal. */
  datatype Stack = Stack(kept: seq<string>, normals: nat)

  /**
   * One part through the loop of `getSimplePath` (file_system.cpp:497-514):
   * `.` is dropped; `..` cancels the last normal part when more than
   * `nFixed` are kept, else is dropped from an absolute path and kept in a
   * relative one; any other part is kept as normal.
   *
   * The source erases in place and remembers the normal parts' positions in
   * a deque; the positions it pops are always those of the last kept
   * parts, so the kept parts behave as this stack.
   */
  function Step(st: Stack, x: string, isAbs: bool, nFixed: nat): Stack
  {
    if x == "." then st
    else if x == ".." then
      if st.normals > nFixed && |st.kept| > 0 then Stack(st.kept[..|st.kept| - 1], st.normals - 1)
      else if isAbs then st
      else Stack(st.kept + [x], st.normals)
    else Stack(st.kept + [x], st.normals + 1)
  }

  function Simplify(parts: seq<string>, isAbs: bool, nFixed: nat): Stack
  {
    if parts == [] then Stack([], 0)
    else Step(Simplify(parts[..|parts| - 1], isAbs, nFixed), parts[|parts| - 1], isAbs, nFixed)
  }

  /** A part other than `.` and `..`. */
  predicate Normal(x: string)
  {
    x != "." && x != ".."
  }

  /** The kept parts: `..`s (only in a relative path) then `normals` normal parts. */
  ghost predicate StackShape(st: Stack, isAbs: bool)
  {
    && st.normals <= |st.kept|
    && (forall k :: 0 <= k < |st.kept| ==> st.kept[k] != ".")
    && (forall k :: |st.kept| - st.normals <= k < |st.kept| ==> Normal(st.kept[k]))
    && (forall k :: 0 <= k < |st.kept| - st.normals ==> st.kept[k] == ".." && !isAbs)
  }

  /** One step keeps the shape of the kept parts. */
  lemma StepShape(st: Stack, x: string, isAbs: bool, nFixed: nat)
    requires StackShape(st, isAbs) && (isAbs || nFixed == 0)
    ensures StackShape(Step(st, x, isAbs, nFixed), isAbs)
  {
    var r := Step(st, x, isAbs, nFixed);
    if |st.kept| > st.normals {
      assert st.kept[0] == "..";
    }
    if x == "." {
    } else if x == ".." && st.normals > nFixed && |st.kept| > 0 {
      assert r.kept == st.kept[..|st.kept| - 1] && r.normals == st.normals - 1;
      forall k | 0 <= k < |r.kept| - r.normals
        ensures r.kept[k] == ".." && !isAbs
      {
        assert r.kept[k] == st.kept[k];
      }
      forall k | |r.kept| - r.normals <= k < |r.kept|
        ensures Normal(r.kept[k])
      {
        assert r.kept[k] == st.kept[k];
      }
      forall k | 0 <= k < |r.kept|
        ensures r.kept[k] != "."
      {
        assert r.kept[k] == st.kept[k];
      }
    } else if x == ".." && isAbs {
    } else if x == ".." {
      assert st.normals == 0;
      assert r.kept == st.kept + [x] && r.normals == 0;
      forall k | 0 <= k < |r.kept|
        ensures r.kept[k] == ".." && !isAbs && r.kept[k] != "."
      {
        if k < |st.kept| {
          assert r.kept[k] == st.kept[k];
        }
      }
    } else {
      assert Normal(x);
      assert r.kept == st.kept + [x] && r.normals == st.normals + 1;
      forall k | 0 <= k < |r.kept| - r.normals
        ensures r.kept[k] == ".." && !isAbs
      {
        assert r.kept[k] == st.kept[k];
      }
      forall k | |r.kept| - r.normals <= k < |r.kept|
        ensures Normal(r.kept[k])
      {
        if k < |st.kept| {
          assert r.kept[k] == st.kept[k];
        }
      }
      forall k | 0 <= k < |r.kept|
        ensures r.kept[k] != "."
      {
        if k < |st.kept| {
          assert r.kept[k] == st.kept[k];
        }
      }
    }
    assert StackShape(r, isAbs);
  }

  lemma {:induction false} SimplifyShape(parts: seq<string>, isAbs: bool, nFixed: nat)
    requires isAbs || nFixed == 0
    ensures StackShape(Simplify(parts, isAbs, nFixed), isAbs)
  {
    if parts != [] {
      SimplifyShape(parts[..|parts| - 1], isAbs, nFixed);
      StepShape(Simplify(parts[..|parts| - 1], isAbs, nFixed), parts[|parts| - 1], isAbs, nFixed);
    }
  }

  /** A normal part followed by `..` cancels out, when no fixed prefix is kept. */
  lemma DotDotCancels(parts: seq<string>, x: string, isAbs: bool)
    requires Normal(x)
    ensures Simplify(parts + [x, ".."], isAbs, 0) == Simplify(parts, isAbs, 0)
  {
    var ps := parts + [x, ".."];
    assert ps[..|ps| - 1] == parts + [x];
    assert (parts + [x])[..|parts|] == parts;
  }

  /**
   * `getSimplePath` (file_system.cpp:483-533) over `PathParts(_, asWritten)`:
   * `None` (false, `out` untouched) unless the path uses exactly one kind of
   * separator; then the simplified parts joined by that separator, after a
   * leading separator for an absolute path without a drive.
   */
  function GetSimplePathOver(p: string, asWritten: bool): (r: Option<string>)
    ensures r.None? <==> OneKind(p, []).None?
  {
    match OneKind(p, [])
    case None => None
    case Some(sep) =>
      var isAbs := IsAbsolute(p);
      var nFixed := if isAbs && p[0] != sep then 1 else 0;
      var kept := Simplify(PathParts(p, asWritten), isAbs, nFixed).kept;
      if |kept| > 0 then
        Some((if isAbs && nFixed == 0 then [sep] else []) + JoinWith(kept, sep))
      else Some([])
  }

  /** `getSimplePath` on the corrected split. */
  function GetSimplePath(p: string): (r: Option<string>)
    ensures r.None? <==> OneKind(p, []).None?
  {
    GetSimplePathOver(p, false)
  }

  /** `getSimplePath` on `splitPath` as written. */
  function GetSimplePathAsWritten(p: string): (r: Option<string>)
    ensures r.None? <==> GetSimplePath(p).None?
  {
    GetSimplePathOver(p, true)
  }

  /**
   * On the corrected split, the simplified path's components are the kept
   * parts: none is `.`, an absolute path keeps no `..`, and a relative one
   * keeps `..` only before every normal part.
   */
  lemma SimplePathMeaning(p: string)
    requires GetSimplePath(p).Some?
    ensures var cs := Components(GetSimplePath(p).value);
      && (forall k :: 0 <= k < |cs| ==> cs[k] != ".")
      && (IsAbsolute(p) ==> forall k :: 0 <= k < |cs| ==> cs[k] != "..")
      && (forall k, m :: 0 <= k < m < |cs| && cs[m] == ".." ==> cs[k] == "..")
  {
    var sep := OneKind(p, []).value;
    var isAbs := IsAbsolute(p);
    var nFixed := if isAbs && p[0] != sep then 1 else 0;
    var st := Simplify(Components(p), isAbs, nFixed);
    SimplifyShape(Components(p), isAbs, nFixed);
    var kept := st.kept;
    if |kept| > 0 {
      ComponentsAreComponents(p);
      KeptAreComponents(Components(p), isAbs, nFixed);
      ComponentsOfJoin(kept, sep);
      var lead: string := if isAbs && nFixed == 0 then [sep] else [];
      ComponentsOfSeps(lead, JoinWith(kept, sep));
      assert Components(GetSimplePath(p).value) == kept;
    }
  }

  /** The kept parts are parts, hence components. */
  lemma {:induction false} KeptAreComponents(parts: seq<string>, isAbs: bool, nFixed: nat)
    requires forall k :: 0 <= k < |parts| ==> IsComponent(parts[k])
    ensures forall k :: 0 <= k < |Simplify(parts, isAbs, nFixed).kept| ==> IsComponent(Simplify(parts, isAbs, nFixed).kept[k])
  {
    if parts != [] {
      KeptAreComponents(parts[..|parts| - 1], isAbs, nFixed);
      assert IsComponent(parts[|parts| - 1]);
      assert IsComponent("..") by { assert ".."[0] == '.' && ".."[1] == '.'; }
    }
  }

  // ---------------------------------------------------------------------------
  // getRelativePath and getSimplePath on splitPath as written
  // ---------------------------------------------------------------------------

  /** A path with slashes and no backslash uses `/`. */
  lemma SlashesOnly(a: string, b: string)
    requires |a| > 0 && a[0] == '/'
    requires forall k :: 0 <= k < |a + b| ==> (a + b)[k] != '\\'
    ensures OneKind(a, b) == Some('/')
  {
    CountZero(a + b, '\\');
    CountZero(a + b, '/');
    assert (a + b)[0] == '/';
  }

  lemma ExampleComponentsAB(p: string, x: string)
    requires p == "/a/" + x && |x| == 1 && !IsSep(x[0])
    ensures Components(p) == ["a", x]
    ensures SplitPathAsWrittenResult(p) == ["a"]
  {
    var parts := ["a", x];
    assert IsComponent(parts[0]) && IsComponent(parts[1]);
    assert p == ['/'] + JoinWith(parts, '/');
    ComponentsOfAbsolute(parts, '/');
  }

  lemma ExampleComponentsRoot(f: string, t: string)
    requires f == "/root" && t == "/root/abc"
    ensures Components(f) == ["root"] && SplitPathAsWrittenResult(f) == []
    ensures Components(t) == ["root", "abc"] && SplitPathAsWrittenResult(t) == ["root", "abc"]
  {
    var one := ["root"];
    var two := ["root", "abc"];
    assert IsComponent(two[0]) && IsComponent(two[1]);
    assert f == ['/'] + JoinWith(one, '/');
    assert t == ['/'] + JoinWith(two, '/');
    ComponentsOfAbsolute(one, '/');
    ComponentsOfAbsolute(two, '/');
  }

  /** An absolute path with slashes only: `/` then the kept parts, or "" when none is kept. */
  lemma SimpleOverSlashes(p: string, asWritten: bool)
    requires |p| > 0 && p[0] == '/' && OneKind(p, []) == Some('/')
    ensures var kept := Simplify(PathParts(p, asWritten), true, 0).kept;
      GetSimplePathOver(p, asWritten) == Some(if |kept| > 0 then ['/'] + JoinWith(kept, '/') else [])
  {
  }

  lemma SimplifyAB()
    ensures Simplify(["a"], true, 0).kept == ["a"]
    ensures Simplify(["a", "b"], true, 0).kept == ["a", "b"]
  {
    assert ["a"][..0] == [];
    assert ["a", "b"][..1] == ["a"];
  }

  lemma SimplePathOfAB(p: string, asWritten: bool)
    requires p == "/a/b"
    ensures GetSimplePathOver(p, asWritten) == Some(['/'] + JoinWith(Simplify(PathParts(p, asWritten), true, 0).kept, '/'))
  {
    ExampleComponentsAB(p, "b");
    SlashesOnly(p, []);
    assert p + [] == p;
    SimplifyAB();
    assert |Simplify(PathParts(p, asWritten), true, 0).kept| > 0;
    SimpleOverSlashes(p, asWritten);
  }

  /**
   * Through `splitPath` as written, "/a/b" simplifies to "/a": the last,
   * one-character component is lost before the simplification sees it.
   */
  lemma SimplePathAsWrittenExample(p: string)
    requires p == "/a/b"
    ensures GetSimplePathAsWritten(p) == Some("/a")
    ensures GetSimplePath(p) == Some("/a/b")
  {
    ExampleComponentsAB(p, "b");
    SimplifyAB();
    SimplePathOfAB(p, true);
    SimplePathOfAB(p, false);
    assert ['/'] + JoinWith(["a"], '/') == "/a";
    assert JoinWith(["a", "b"], '/') == "a/b" by {
      assert ["a", "b"][1..] == ["b"];
    }
    assert ['/'] + "a/b" == "/a/b";
  }

  /** Both paths absolute, slashes only, `to` without a trailing one: the relative path of their parts. */
  lemma RelativeOverSlashes(f: string, t: string, asWritten: bool)
    requires IsAbsolute(f) && IsAbsolute(t) && OneKind(f, t) == Some('/') && t[|t| - 1] != '/'
    ensures GetRelativePathOver(f, t, asWritten) == Some(Relative(PathParts(f, asWritten), PathParts(t, asWritten), '/', false))
  {
  }

  lemma RelativeSiblingParts()
    ensures Relative(["a"], ["a"], '/', false) == ""
    ensures Relative(["a", "b"], ["a", "c"], '/', false) == "../c"
  {
    assert CommonLength(["a"], ["a"]) == 1;
    assert CommonLength(["a", "b"], ["a", "c"]) == 1 by {
      assert ["a", "b"][1..] == ["b"] && ["a", "c"][1..] == ["c"];
    }
    assert Ups(1, '/') == "../";
    assert ["a", "c"][1..] == ["c"];
    assert Down(["c"], '/', false) == "c" by { assert ["c"][..0] == []; }
    assert "../" + "c" == "../c";
  }

  lemma RelativeRootParts()
    ensures Relative([], ["root", "abc"], '/', false) == "root/abc"
    ensures Relative(["root"], ["root", "abc"], '/', false) == "abc"
  {
    var two := ["root", "abc"];
    assert CommonLength([], two) == 0;
    assert two[0..] == two;
    assert Down(two, '/', false) == "root/abc" by {
      assert two[..1] == ["root"];
      assert ["root"][1..] == [];
      assert Terminated(["root"], '/') == "root/";
    }
    assert CommonLength(["root"], two) == 1 by {
      assert ["root"][1..] == [] && two[1..] == ["abc"];
    }
    assert two[1..] == ["abc"];
    assert Down(["abc"], '/', false) == "abc" by { assert ["abc"][..0] == []; }
  }

  /**
   * Through `splitPath` as written, `getRelativePath` from "/a/b" to
   * "/a/c" is "": both lose their last component and look equal.
   */
  lemma RelativePathAsWrittenSiblings(f: string, t: string)
    requires f == "/a/b" && t == "/a/c"
    ensures GetRelativePathAsWritten(f, t) == Some("")
    ensures GetRelativePath(f, t) == Some("../c")
  {
    ExampleComponentsAB(f, "b");
    ExampleComponentsAB(t, "c");
    SlashesOnly(f, t);
    RelativeOverSlashes(f, t, true);
    RelativeOverSlashes(f, t, false);
    RelativeSiblingParts();
  }

  /**
   * Through `splitPath` as written, `getRelativePath` from "/root" to
   * "/root/abc" is "root/abc": `from` splits to nothing.
   */
  lemma RelativePathAsWrittenFromRoot(f: string, t: string)
    requires f == "/root" && t == "/root/abc"
    ensures GetRelativePathAsWritten(f, t) == Some("root/abc")
    ensures GetRelativePath(f, t) == Some("abc")
  {
    ExampleComponentsRoot(f, t);
    SlashesOnly(f, t);
    assert PathParts(f, true) == [] && PathParts(t, true) == ["root", "abc"];
    assert PathParts(f, false) == ["root"] && PathParts(t, false) == ["root", "abc"];
    RelativeOverSlashes(f, t, true);
    RelativeOverSlashes(f, t, false);
    RelativeRootParts();
  }

  /**
   * On paths that end in a separator, `splitPath` as written loses nothing,
   * so both operations give what the corrected split gives.
   */
  lemma AsWrittenAgreesOnDirectories(from: string, to: string)
    requires |from| > 0 && IsSep(from[|from| - 1]) && |to| > 0 && IsSep(to[|to| - 1])
    ensures GetRelativePathAsWritten(from, to) == GetRelativePath(from, to)
    ensures GetSimplePathAsWritten(from) == GetSimplePath(from)
  {
    assert PathParts(from, true) == PathParts(from, false);
    assert PathParts(to, true) == PathParts(to, false);
  }
}
