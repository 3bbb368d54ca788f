/**
 * The string helpers of the CMaker tool (tools/cmaker/CMaker.cpp):
 * `split`, `join`, `replaceAll`, `cleanPathSeparators` and the rewriting of
 * a `;`-separated list of Code::Blocks virtual folders,
 * `addPrefixToVirtualFolder(std::string&)`.
 *
 * Searching is `std::string::find(pattern, from)`: the first index at or
 * after `from` where the pattern occurs, or nothing (`npos`).
 */
module CMaker {
  import opened Maybe
  import Paths

  /** `pat` occurs in `s` at index `i`. */
  predicate IsAt(s: string, pat: string, i: nat)
  {
    i + |pat| <= |s| && s[i..i + |pat|] == pat
  }

  /** `pat` occurs nowhere in `s`. */
  predicate Free(s: string, pat: string)
  {
    forall i: nat :: i <= |s| ==> !IsAt(s, pat, i)
  }

  /** `s` begins with `pre` (`s.find(pre) == 0`). */
  predicate StartsWith(s: string, pre: string)
  {
    |pre| <= |s| && s[..|pre|] == pre
  }

  /** `s.find(pat, from)`: the first occurrence at or after `from`. */
  function Find(s: string, pat: string, from: nat): (r: Option<nat>)
    ensures r.Some? ==> from <= r.value && r.value + |pat| <= |s|
    decreases |s| - from
  {
    if from + |pat| > |s| then None
    else if IsAt(s, pat, from) then Some(from)
    else Find(s, pat, from + 1)
  }

  /** `find` answers the first occurrence at or after `from`, and nothing exactly when there is none. */
  lemma {:induction false} FindSpec(s: string, pat: string, from: nat)
    ensures var r := Find(s, pat, from);
      && (r.Some? ==> IsAt(s, pat, r.value))
      && (r.Some? ==> forall j :: from <= j < r.value ==> !IsAt(s, pat, j))
      && (r.None? ==> forall j: nat :: from <= j ==> !IsAt(s, pat, j))
    decreases |s| - from
  {
    if from + |pat| <= |s| && !IsAt(s, pat, from) {
      FindSpec(s, pat, from + 1);
    }
  }

  /** An occurrence in `b` is one in `a + b`, shifted by `|a|`. */
  lemma IsAtShift(a: string, b: string, pat: string, j: nat)
    ensures IsAt(a + b, pat, |a| + j) <==> IsAt(b, pat, j)
  {
    if j + |pat| <= |b| {
      assert (a + b)[|a| + j..|a| + j + |pat|] == b[j..j + |pat|];
    }
  }

  /** A position found, moved right by `d`. */
  function Shifted(o: Option<nat>, d: nat): Option<nat>
  {
    match o
    case None => None
    case Some(i) => Some(i + d)
  }

  /** Searching `a + b` past `a` is searching `b`, shifted by `|a|`. */
  lemma {:induction false} FindShift(a: string, b: string, pat: string, j: nat)
    ensures Find(a + b, pat, |a| + j) == Shifted(Find(b, pat, j), |a|)
    decreases |b| - j
  {
    if j + |pat| <= |b| {
      IsAtShift(a, b, pat, j);
      if !IsAt(b, pat, j) {
        FindShift(a, b, pat, j + 1);
      }
    }
  }

  /** Two searches that agree on every index agree. */
  lemma FindUnique(s: string, pat: string, from: nat, r: Option<nat>)
    requires r.Some? ==> from <= r.value && IsAt(s, pat, r.value)
    requires r.Some? ==> forall j :: from <= j < r.value ==> !IsAt(s, pat, j)
    requires r.None? ==> forall j: nat :: from <= j ==> !IsAt(s, pat, j)
    ensures Find(s, pat, from) == r
  {
    FindSpec(s, pat, from);
  }

  /** An occurrence inside a slice is an occurrence in the whole. */
  lemma IsAtSlice(s: string, pat: string, lo: nat, hi: nat, i: nat)
    requires lo <= hi <= |s|
    requires IsAt(s[lo..hi], pat, i)
    ensures IsAt(s, pat, lo + i) && lo + i + |pat| <= hi
  {
    var t := s[lo..hi];
    assert t[i..i + |pat|] == pat;
    forall k | 0 <= k < |pat|
      ensures s[lo + i + k] == pat[k]
    {
      assert t[i + k] == s[lo + i + k];
    }
    assert s[lo + i..lo + i + |pat|] == pat;
  }

  /** A slice that ends before the first occurrence at or after its start is free of it. */
  lemma SliceFree(s: string, pat: string, lo: nat, hi: nat)
    requires lo <= hi <= |s|
    requires forall j :: lo <= j && j + |pat| <= hi ==> !IsAt(s, pat, j)
    ensures Free(s[lo..hi], pat)
  {
    forall i: nat | IsAt(s[lo..hi], pat, i)
      ensures false
    {
      IsAtSlice(s, pat, lo, hi, i);
    }
  }

  // ---------------------------------------------------------------------------
  // split and join
  // ---------------------------------------------------------------------------

  /**
   * Splitting on a non-empty separator: the text before its first
   * occurrence, then the split of the text after it; the last piece, empty
   * or not, is always kept.
   */
  function Split(s: string, sep: string): (r: seq<string>)
    requires |sep| > 0
    ensures |r| > 0
    decreases |s|
  {
    match Find(s, sep, 0)
    case None => [s]
    case Some(e) => [s[..e]] + Split(s[e + |sep|..], sep)
  }

  /** No piece holds the separator. */
  lemma {:induction false} SplitFree(s: string, sep: string)
    requires |sep| > 0
    ensures forall k :: 0 <= k < |Split(s, sep)| ==> Free(Split(s, sep)[k], sep)
    decreases |s|
  {
    FindSpec(s, sep, 0);
    match Find(s, sep, 0)
    case None =>
      SliceFree(s, sep, 0, |s|);
      assert s[0..|s|] == s;
    case Some(e) =>
      SliceFree(s, sep, 0, e);
      assert s[0..e] == s[..e];
      SplitFree(s[e + |sep|..], sep);
  }

  /** Splitting the text from `start` when no separator follows: one piece. */
  lemma SplitFromLast(s: string, sep: string, start: nat)
    requires |sep| > 0 && start <= |s| && Find(s, sep, start).None?
    ensures Split(s[start..], sep) == [s[start..]]
  {
    FindShift(s[..start], s[start..], sep, 0);
    assert s[..start] + s[start..] == s;
  }

  /** Splitting the text from `start`: the piece up to the next separator at `e`, then the rest. */
  lemma SplitFromNext(s: string, sep: string, start: nat, e: nat)
    requires |sep| > 0 && start <= |s| && Find(s, sep, start) == Some(e)
    ensures Split(s[start..], sep) == [s[start..e]] + Split(s[e + |sep|..], sep)
  {
    var t := s[start..];
    FindShift(s[..start], t, sep, 0);
    assert s[..start] + t == s;
    var i := e - start;
    assert Find(t, sep, 0) == Some(i);
    assert t[..i] == s[start..e];
    assert t[i + |sep|..] == s[e + |sep|..];
  }

  /**
   * The loop of `split` (CMaker.cpp:75-80) from `start`: the pieces before
   * each occurrence of the separator, and where the last piece starts.
   */
  function Scan(s: string, sep: string, start: nat): (r: (seq<string>, nat))
    requires |sep| > 0 && start <= |s|
    ensures start <= r.1 <= |s|
    decreases |s| - start
  {
    match Find(s, sep, start)
    case None => ([], start)
    case Some(e) =>
      var rest := Scan(s, sep, e + |sep|);
      ([s[start..e]] + rest.0, rest.1)
  }

  /** One pass of the loop: the piece up to the separator at `e`, then the scan past it. */
  lemma ScanNext(s: string, sep: string, start: nat, e: nat, next: nat)
    requires |sep| > 0 && start <= |s| && Find(s, sep, start) == Some(e) && next == e + |sep|
    ensures next <= |s|
    ensures Scan(s, sep, start) == ([s[start..e]] + Scan(s, sep, next).0, Scan(s, sep, next).1)
  {
  }

  /** The loop's pieces and the last piece are the split of the text from `start`. */
  lemma {:induction false} ScanSplits(s: string, sep: string, start: nat)
    requires |sep| > 0 && start <= |s|
    ensures Scan(s, sep, start).0 + [s[Scan(s, sep, start).1..]] == Split(s[start..], sep)
    decreases |s| - start
  {
    match Find(s, sep, start)
    case None =>
      SplitFromLast(s, sep, start);
    case Some(e) =>
      var next := e + |sep|;
      ScanNext(s, sep, start, e, next);
      var rest := Scan(s, sep, next);
      var split := Split(s[start..], sep);
      var splitRest := Split(s[next..], sep);
      assert split == [s[start..e]] + splitRest by {
        SplitFromNext(s, sep, start, e);
      }
      assert rest.0 + [s[rest.1..]] == splitRest by {
        ScanSplits(s, sep, next);
      }
      PrependPiece(s[start..e], rest.0, s[rest.1..], splitRest, split);
  }

  /** A piece put in front of the pieces before `last`. */
  lemma PrependPiece(piece: string, pieces: seq<string>, last: string, tail: seq<string>, whole: seq<string>)
    requires pieces + [last] == tail && whole == [piece] + tail
    ensures ([piece] + pieces) + [last] == whole
  {
    assert ([piece] + pieces) + [last] == [piece] + (pieces + [last]);
  }

  /** The greatest value of `size_t`, which `input.size() - 1` wraps to on empty input. */
  const SizeMax: nat := 0xFFFF_FFFF_FFFF_FFFF

  /**
   * `split` as written (CMaker.cpp:74-85): the last piece is kept only
   * when it starts before `size - 1`, computed in `size_t`, so a piece of
   * length 0 or 1 at the end is dropped, and an empty input, where
   * `size - 1` wraps, gives one empty piece.
   */
  function SplitAsWritten(s: string, sep: string): (r: seq<string>)
    requires |sep| > 0
  {
    var scanned := Scan(s, sep, 0);
    var limit := if |s| == 0 then SizeMax else |s| - 1;
    if scanned.1 < limit then scanned.0 + [s[scanned.1..]] else scanned.0
  }

  /**
   * `split` as written agrees with the full split unless the input is
   * non-empty and its last piece is shorter than two characters, in which
   * case that piece is missing.
   */
  lemma SplitAsWrittenDropsShortTail(s: string, sep: string)
    requires |sep| > 0
    ensures var full := Split(s, sep);
      SplitAsWritten(s, sep) == if s != [] && |full[|full| - 1]| < 2 then full[..|full| - 1] else full
  {
    ScanSplits(s, sep, 0);
    assert s[0..] == s;
    var scanned := Scan(s, sep, 0);
    assert (scanned.0 + [s[scanned.1..]])[..|scanned.0|] == scanned.0;
  }

  /** A single trailing character is lost: "a;b" splits as ["a"]; "" splits as [""]. */
  lemma SplitAsWrittenExamples()
    ensures SplitAsWritten("a;b", ";") == ["a"]
    ensures Split("a;b", ";") == ["a", "b"]
    ensures SplitAsWritten("", ";") == [""]
    ensures SplitAsWritten("ab;cd", ";") == ["ab", "cd"]
  {
    var s := "a;b";
    assert s[0] == 'a' && s[1] == ';' && s[2] == 'b';
    assert !IsAt(s, ";", 0) by { assert s[0 + 0] != ";"[0]; }
    assert !IsAt(s, ";", 2) by { assert s[2 + 0] != ";"[0]; }
    assert IsAt(s, ";", 1);
    FindUnique(s, ";", 0, Some(1));
    FindUnique(s, ";", 2, None);
    assert s[0..1] == s[..1] == "a" && s[2..] == "b";
    FindUnique("b", ";", 0, None) by {
      assert !IsAt("b", ";", 0) by { assert "b"[0 + 0] != ";"[0]; }
    }
    var t := "ab;cd";
    assert t[0] == 'a' && t[1] == 'b' && t[2] == ';' && t[3] == 'c' && t[4] == 'd';
    assert !IsAt(t, ";", 0) by { assert t[0 + 0] != ";"[0]; }
    assert !IsAt(t, ";", 1) by { assert t[1 + 0] != ";"[0]; }
    assert !IsAt(t, ";", 3) by { assert t[3 + 0] != ";"[0]; }
    assert !IsAt(t, ";", 4) by { assert t[4 + 0] != ";"[0]; }
    assert IsAt(t, ";", 2);
    FindUnique(t, ";", 0, Some(2));
    FindUnique(t, ";", 3, None);
    assert t[0..2] == "ab" && t[3..] == "cd";
    FindUnique("", ";", 0, None);
  }

  /** `join`: the parts with the separator between neighbours. */
  function Join(parts: seq<string>, sep: string): string
  {
    if parts == [] then []
    else if |parts| == 1 then parts[0]
    else parts[0] + sep + Join(parts[1..], sep)
  }

  lemma {:induction false} JoinSnoc(parts: seq<string>, x: string, sep: string)
    requires parts != []
    ensures Join(parts + [x], sep) == Join(parts, sep) + sep + x
    decreases |parts|
  {
    if |parts| == 1 {
      assert parts + [x] == [parts[0], x];
    } else {
      assert (parts + [x])[1..] == parts[1..] + [x];
      JoinSnoc(parts[1..], x, sep);
    }
  }

  /** The stream loop of `join` (CMaker.cpp:87-98). */
  method JoinParts(content: seq<string>, sep: string) returns (r: string)
    ensures r == Join(content, sep)
    ensures content == [] ==> r == []
    ensures |content| == 1 ==> r == content[0]
  {
    r := [];
    if |content| > 0 {
      r := content[0];
      assert content[..1] == [content[0]];
      for i := 1 to |content|
        invariant r == Join(content[..i], sep)
      {
        JoinSnoc(content[..i], content[i], sep);
        assert content[..i + 1] == content[..i] + [content[i]];
        r := r + sep + content[i];
      }
      assert content[..|content|] == content;
    }
  }

  /** The first `c` in `p + [c] + rest` is the one after `p`, when `p` has none. */
  lemma FirstSeparator(p: string, c: char, rest: string)
    requires c !in p
    ensures Find(p + [c] + rest, [c], 0) == Some(|p|)
  {
    var s := p + [c] + rest;
    assert IsAt(s, [c], |p|);
    forall j | 0 <= j < |p|
      ensures !IsAt(s, [c], j)
    {
      assert s[j] == p[j];
      assert p[j] in p;
      assert s[j + 0] != [c][0];
    }
    FindUnique(s, [c], 0, Some(|p|));
  }

  /** A string without `c` splits on `c` as itself. */
  lemma SplitOne(p: string, c: char)
    requires c !in p
    ensures Split(p, [c]) == [p]
  {
    forall j: nat
      ensures !IsAt(p, [c], j)
    {
      if j < |p| {
        assert p[j] in p;
        assert p[j + 0] != [c][0];
      }
    }
    FindUnique(p, [c], 0, None);
  }

  /** With a one-character separator, splitting a join of separator-free parts gives the parts back. */
  lemma {:induction false} SplitJoin(parts: seq<string>, c: char)
    requires parts != [] && forall k :: 0 <= k < |parts| ==> c !in parts[k]
    ensures Split(Join(parts, [c]), [c]) == parts
    decreases |parts|
  {
    if |parts| == 1 {
      SplitOne(parts[0], c);
    } else {
      var p := parts[0];
      var rest := Join(parts[1..], [c]);
      SplitJoin(parts[1..], c);
      FirstSeparator(p, c, rest);
      var s := p + [c] + rest;
      assert s[..|p|] == p;
      assert s[|p| + 1..] == rest;
      assert [p] + parts[1..] == parts;
    }
  }

  // ---------------------------------------------------------------------------
  // replaceAll
  // ---------------------------------------------------------------------------

  /**
   * Left-to-right, non-overlapping replacement of `from` by `to` in
   * `s[start..]`, each search continuing after the occurrence replaced.
   */
  function ReplacedFrom(s: string, from: string, to: string, start: nat): string
    requires |from| > 0 && start <= |s|
    decreases |s| - start
  {
    match Find(s, from, start)
    case None => s[start..]
    case Some(i) => s[start..i] + to + ReplacedFrom(s, from, to, i + |from|)
  }

  /** Replacing on the whole original string. */
  function Replaced(s: string, from: string, to: string): string
    requires |from| > 0
  {
    ReplacedFrom(s, from, to, 0)
  }

  /**
   * `replaceAll` (CMaker.cpp:100-109): a no-op for an empty `from`;
   * otherwise each search resumes after the text just inserted, so the
   * result is the replacement on the original string and inserted text is
   * never searched again.
   */
  method ReplaceAll(from: string, to: string, str: string) returns (r: string)
    ensures from == [] ==> r == str
    ensures from != [] ==> r == Replaced(str, from, to)
  {
    r := str;
    if from == [] {
      return;
    }
    var pos: nat := 0;
    ghost var k: nat := 0;
    var f := Find(r, from, pos);
    while f.Some?
      invariant k <= |str| && pos <= |r|
      invariant r[pos..] == str[k..]
      invariant r[..pos] + ReplacedFrom(str, from, to, k) == Replaced(str, from, to)
      invariant f == Find(r, from, pos)
      decreases |str| - k
    {
      var i := f.value;
      ghost var j := k + (i - pos);
      ResumeSearch(r, str, from, pos, k, i, j);
      var r2 := r[..i] + to + r[i + |from|..];
      var pos2: nat := i + |to|;
      ghost var k2: nat := j + |from|;
      ReplaceSpliced(str, from, to, r, pos, k, i, j, r2, pos2, k2);
      r, pos, k := r2, pos2, k2;
      f := Find(r, from, pos);
    }
    ReplaceFinish(str, from, to, r, pos, k);
  }

  /** Searching from `p` is searching the suffix from `p`, shifted by `p`. */
  lemma FindSuffix(s: string, pat: string, p: nat)
    requires p <= |s|
    ensures Find(s, pat, p) == Shifted(Find(s[p..], pat, 0), p)
  {
    FindShift(s[..p], s[p..], pat, 0);
    assert s[..p] + s[p..] == s;
  }

  /** The searches in `r` from `pos` and in `str` from `k` see the same text, so they find the same occurrence. */
  lemma ResumeSearch(r: string, str: string, from: string, pos: nat, k: nat, i: nat, j: nat)
    requires pos <= |r| && k <= |str| && r[pos..] == str[k..]
    requires Find(r, from, pos) == Some(i) && j == k + (i - pos)
    ensures Find(str, from, k) == Some(j)
  {
    FindSuffix(r, from, pos);
    FindSuffix(str, from, k);
  }

  /** Text of `r` at and after `pos` is text of `str` at and after `k`, index for index. */
  lemma SuffixSlices(r: string, str: string, pos: nat, k: nat, i: nat, j: nat, e: nat)
    requires pos <= |r| && k <= |str| && r[pos..] == str[k..]
    requires pos <= i && j == k + (i - pos) && i <= e <= |r| && j + (e - i) <= |str|
    ensures r[pos..i] == str[k..j] && r[e..] == str[j + (e - i)..]
  {
    assert r[pos..i] == r[pos..][..i - pos];
    assert str[k..j] == str[k..][..j - k];
    assert r[e..] == r[pos..][e - pos..];
    assert str[j + (e - i)..] == str[k..][e - pos..];
  }

  /**
   * One pass of the loop of `ReplaceAll`. Before it, `r` is the replaced
   * text before `pos` followed by the original from `k`, and the search
   * finds `from` at `i`, which is `j` in the original. After the splice of
   * `to` over the occurrence, `r2` is the
   * replaced text before `pos2`, just past the inserted text, followed by
   * the original from `k2`, just past the occurrence.
   */
  lemma ReplaceSpliced(str: string, from: string, to: string, r: string, pos: nat, k: nat, i: nat, j: nat,
                       r2: string, pos2: nat, k2: nat)
    requires |from| > 0 && k <= |str| && pos <= |r| && r[pos..] == str[k..]
    requires r[..pos] + ReplacedFrom(str, from, to, k) == Replaced(str, from, to)
    requires Find(r, from, pos) == Some(i) && j == k + (i - pos)
    requires i + |from| <= |r| && r2 == r[..i] + to + r[i + |from|..]
    requires pos2 == i + |to| && k2 == j + |from|
    ensures k2 <= |str| && pos2 <= |r2| && r2[pos2..] == str[k2..]
    ensures r2[..pos2] + ReplacedFrom(str, from, to, k2) == Replaced(str, from, to)
  {
    var e := i + |from|;
    assert r2[pos2..] == str[k2..] && r2[..pos2] == (r[..pos] + str[k..j]) + to by {
      ResumeSearch(r, str, from, pos, k, i, j);
      SuffixSlices(r, str, pos, k, i, j, e);
      SpliceParts(r, to, pos, i, e, r2, pos2);
    }
    var rest := ReplacedFrom(str, from, to, k);
    var tail := ReplacedFrom(str, from, to, k2);
    assert rest == (str[k..j] + to) + tail by {
      ResumeSearch(r, str, from, pos, k, i, j);
      ReplacedNext(str, from, to, k, j);
    }
    Regroup(r[..pos], str[k..j], to, tail, rest, Replaced(str, from, to), r2[..pos2]);
  }

  /** The spliced text ends with what followed the occurrence and starts with what preceded it and `to`. */
  lemma SpliceParts(r: string, to: string, pos: nat, i: nat, e: nat, r2: string, pos2: nat)
    requires pos <= i <= e <= |r| && r2 == r[..i] + to + r[e..] && pos2 == i + |to|
    ensures pos2 <= |r2| && r2[pos2..] == r[e..] && r2[..pos2] == (r[..pos] + r[pos..i]) + to
  {
    assert r[..i] == r[..pos] + r[pos..i];
  }

  /** Text before the splice and the replacement after it still make up `whole`. */
  lemma Regroup(head: string, mid: string, to: string, tail: string, rest: string, whole: string, pre: string)
    requires head + rest == whole && rest == (mid + to) + tail && pre == (head + mid) + to
    ensures pre + tail == whole
  {
    assert ((head + mid) + to) + tail == head + ((mid + to) + tail);
  }

  /** When the search fails, `r` is the replaced text before `pos` and the untouched rest. */
  lemma ReplaceFinish(str: string, from: string, to: string, r: string, pos: nat, k: nat)
    requires |from| > 0 && k <= |str| && pos <= |r| && r[pos..] == str[k..]
    requires r[..pos] + ReplacedFrom(str, from, to, k) == Replaced(str, from, to)
    requires Find(r, from, pos).None?
    ensures r == Replaced(str, from, to)
  {
    FindSuffix(r, from, pos);
    FindSuffix(str, from, k);
    ReplacedLast(str, from, to, k);
    assert r == r[..pos] + r[pos..];
  }

  lemma ReplacedLast(s: string, from: string, to: string, start: nat)
    requires |from| > 0 && start <= |s| && Find(s, from, start).None?
    ensures ReplacedFrom(s, from, to, start) == s[start..]
  {
  }

  lemma ReplacedNext(s: string, from: string, to: string, start: nat, i: nat)
    requires |from| > 0 && start <= |s| && Find(s, from, start) == Some(i)
    ensures ReplacedFrom(s, from, to, start) == s[start..i] + to + ReplacedFrom(s, from, to, i + |from|)
  {
  }

  /** Replacing with the same text changes nothing. */
  lemma {:induction false} ReplacedSame(s: string, x: string, start: nat)
    requires |x| > 0 && start <= |s|
    ensures ReplacedFrom(s, x, x, start) == s[start..]
    decreases |s| - start
  {
    match Find(s, x, start)
    case None =>
    case Some(i) =>
      FindSpec(s, x, start);
      ReplacedSame(s, x, i + |x|);
      assert s[i..i + |x|] == x;
      assert s[start..] == s[start..i] + s[i..i + |x|] + s[i + |x|..];
  }

  /** Replacement from `start` is the split of the rest joined with `to`. */
  lemma {:induction false} ReplacedIsJoinedSplit(s: string, from: string, to: string, start: nat)
    requires |from| > 0 && start <= |s|
    ensures ReplacedFrom(s, from, to, start) == Join(Split(s[start..], from), to)
    decreases |s| - start
  {
    match Find(s, from, start)
    case None =>
      SplitFromLast(s, from, start);
    case Some(e) =>
      SplitFromNext(s, from, start, e);
      ReplacedIsJoinedSplit(s, from, to, e + |from|);
      var rest := Split(s[e + |from|..], from);
      assert ([s[start..e]] + rest)[1..] == rest;
  }

  /** `replaceAll(from, to)` equals `join(split(s, from), to)`. */
  lemma ReplacedIsJoinSplit(s: string, from: string, to: string)
    requires |from| > 0
    ensures Replaced(s, from, to) == Join(Split(s, from), to)
  {
    ReplacedIsJoinedSplit(s, from, to, 0);
    assert s[0..] == s;
  }

  /** Joining the pieces of `split` with the same separator gives the input back. */
  lemma JoinSplit(s: string, sep: string)
    requires |sep| > 0
    ensures Join(Split(s, sep), sep) == s
  {
    ReplacedIsJoinSplit(s, sep, sep);
    ReplacedSame(s, sep, 0);
    assert s[0..] == s;
  }

  // ---------------------------------------------------------------------------
  // cleanPathSeparators
  // ---------------------------------------------------------------------------

  /** `cleanPathSeparators` (CMaker.cpp:111-117): every separator becomes `sep`. */
  function CleanPathSeparators(path: string, sep: char): (r: string)
    ensures |r| == |path|
    ensures forall i :: 0 <= i < |path| ==> r[i] == if Paths.IsSep(path[i]) then sep else path[i]
  {
    seq(|path|, i requires 0 <= i < |path| => if Paths.IsSep(path[i]) then sep else path[i])
  }

  /** Cleaning with a separator keeps the components: only the separators' spelling changes. */
  lemma {:induction false} CleanComponents(path: string, sep: char)
    requires Paths.IsSep(sep)
    ensures Paths.Components(CleanPathSeparators(path, sep)) == Paths.Components(path)
    decreases |path|
  {
    var r := CleanPathSeparators(path, sep);
    if path != [] {
      if Paths.IsSep(path[0]) {
        assert r[1..] == CleanPathSeparators(path[1..], sep);
        CleanComponents(path[1..], sep);
      } else {
        var k := Paths.RunLength(path);
        assert forall j :: 0 <= j < k ==> path[..k][j] == path[j];
        Paths.RunLengthIs(r, k);
        assert r[..k] == path[..k];
        assert r[k..] == CleanPathSeparators(path[k..], sep);
        CleanComponents(path[k..], sep);
      }
    }
  }

  /** After cleaning with `sep`, the other separator no longer occurs. */
  lemma CleanUsesOneSeparator(path: string, sep: char)
    requires Paths.IsSep(sep)
    ensures forall i :: 0 <= i < |path| ==> Paths.IsSep(CleanPathSeparators(path, sep)[i]) ==> CleanPathSeparators(path, sep)[i] == sep
  {
  }

  // ---------------------------------------------------------------------------
  // addPrefixToVirtualFolder
  // ---------------------------------------------------------------------------

  /** The settings `addPrefixToVirtualFolder` reads from the tool's input. */
  datatype Settings = Settings(buildDir: string, virtualFolderPrefix: string, oldVirtualFolderPrefix: string)

  /** The prefix every virtual folder entry starts with. */
  const CMakeFiles: string := "CMake Files\\"

  /** `getSimplePath(p, p)`: the simplified path, or `p` untouched when it fails. */
  function Simplified(p: string): string
  {
    match Paths.GetSimplePath(p)
    case Some(q) => q
    case None => p
  }

  /**
   * One piece through the loop of `addPrefixToVirtualFolder`
   * (CMaker.cpp:156-178): a piece that does not start with
   * `CMake Files\` is left alone; one whose folder starts with the old
   * prefix gets the new prefix instead; otherwise the build directory
   * combined with the piece is simplified with `/`, and a path under
   * `/usr/` is moved under the new prefix with backslashes.
   */
  function Rewrite(part: string, cfg: Settings): (r: string)
    ensures StartsWith(part, CMakeFiles) <==> StartsWith(r, CMakeFiles)
  {
    if !StartsWith(part, CMakeFiles) then part
    else
      var virtualPath := part[|CMakeFiles|..];
      var oldPrefix := cfg.oldVirtualFolderPrefix;
      var folder :=
        if |oldPrefix| > 0 && StartsWith(virtualPath, oldPrefix) then
          cfg.virtualFolderPrefix + virtualPath[|oldPrefix|..]
        else
          var simple := Simplified(CleanPathSeparators(Paths.Combine(cfg.buildDir, part), '/'));
          if StartsWith(simple, "/usr/") then
            CleanPathSeparators(Paths.Combine(cfg.virtualFolderPrefix, simple), '\\')
          else virtualPath;
      assert (CMakeFiles + folder)[..|CMakeFiles|] == CMakeFiles;
      CMakeFiles + folder
  }

  /** `parts` with `Rewrite` applied to each. */
  function RewriteAll(parts: seq<string>, cfg: Settings): (r: seq<string>)
    ensures |r| == |parts| && forall k :: 0 <= k < |parts| ==> r[k] == Rewrite(parts[k], cfg)
  {
    if parts == [] then [] else [Rewrite(parts[0], cfg)] + RewriteAll(parts[1..], cfg)
  }

  /**
   * `addPrefixToVirtualFolder(std::string&)` as written
   * (CMaker.cpp:147-185): split on `;` with the `split` above, rewrite each
   * piece, and join again; when there are no pieces the value is left as
   * it is.
   */
  function AddPrefixToVirtualFolderAsWritten(value: string, cfg: Settings): string
  {
    var parts := SplitAsWritten(value, ";");
    if |parts| > 0 then Join(RewriteAll(parts, cfg), ";") else value
  }

  /** `addPrefixToVirtualFolder` over the full split. */
  function AddPrefixToVirtualFolder(value: string, cfg: Settings): string
  {
    Join(RewriteAll(Split(value, ";"), cfg), ";")
  }

  /** A piece that is not a `CMake Files\` entry is left alone. */
  lemma RewriteKeepsOthers(part: string, cfg: Settings)
    requires !StartsWith(part, CMakeFiles)
    ensures Rewrite(part, cfg) == part
  {
  }

  /** A folder under the old prefix is moved under the new one, the rest of it kept. */
  lemma RewriteReplacesOldPrefix(part: string, cfg: Settings)
    requires |cfg.oldVirtualFolderPrefix| > 0 && StartsWith(part, CMakeFiles + cfg.oldVirtualFolderPrefix)
    ensures Rewrite(part, cfg) == CMakeFiles + cfg.virtualFolderPrefix + part[|CMakeFiles| + |cfg.oldVirtualFolderPrefix|..]
  {
    var oldPrefix := cfg.oldVirtualFolderPrefix;
    var vp := part[|CMakeFiles|..];
    assert part[..|CMakeFiles|] == (CMakeFiles + oldPrefix)[..|CMakeFiles|] == CMakeFiles;
    assert vp[..|oldPrefix|] == part[|CMakeFiles|..|CMakeFiles| + |oldPrefix|] == oldPrefix;
    assert vp[|oldPrefix|..] == part[|CMakeFiles| + |oldPrefix|..];
  }

  /**
   * A folder moved out of `/usr/` lies under the new prefix: its
   * components are the prefix's then the simplified path's, and it uses
   * backslashes only.
   */
  lemma RewriteMovesUsr(part: string, cfg: Settings)
    requires StartsWith(part, CMakeFiles)
    requires !(|cfg.oldVirtualFolderPrefix| > 0 && StartsWith(part[|CMakeFiles|..], cfg.oldVirtualFolderPrefix))
    requires StartsWith(Simplified(CleanPathSeparators(Paths.Combine(cfg.buildDir, part), '/')), "/usr/")
    ensures var folder := Rewrite(part, cfg)[|CMakeFiles|..];
      var simple := Simplified(CleanPathSeparators(Paths.Combine(cfg.buildDir, part), '/'));
      && Paths.Components(folder) == Paths.Components(cfg.virtualFolderPrefix) + Paths.Components(simple)
      && forall i :: 0 <= i < |folder| ==> folder[i] != '/'
  {
    var simple := Simplified(CleanPathSeparators(Paths.Combine(cfg.buildDir, part), '/'));
    var moved := CleanPathSeparators(Paths.Combine(cfg.virtualFolderPrefix, simple), '\\');
    assert Rewrite(part, cfg) == CMakeFiles + moved;
    assert Rewrite(part, cfg)[|CMakeFiles|..] == moved;
    CleanComponents(Paths.Combine(cfg.virtualFolderPrefix, simple), '\\');
    Paths.CombineComponents(cfg.virtualFolderPrefix, simple);
  }

  /** A value with no `CMake Files\` entry comes back unchanged. */
  lemma AddPrefixKeepsPlainValue(value: string, cfg: Settings)
    requires forall k :: 0 <= k < |Split(value, ";")| ==> !StartsWith(Split(value, ";")[k], CMakeFiles)
    ensures AddPrefixToVirtualFolder(value, cfg) == value
  {
    assert RewriteAll(Split(value, ";"), cfg) == Split(value, ";");
    JoinSplit(value, ";");
  }

  /**
   * When no rewritten piece contains `;`, the pieces of the result are
   * exactly the rewritten pieces of the value, in order.
   */
  lemma AddPrefixPieces(value: string, cfg: Settings)
    requires forall k :: 0 <= k < |Split(value, ";")| ==> ';' !in Rewrite(Split(value, ";")[k], cfg)
    ensures Split(AddPrefixToVirtualFolder(value, cfg), ";") == RewriteAll(Split(value, ";"), cfg)
  {
    SplitJoin(RewriteAll(Split(value, ";"), cfg), ';');
  }

  /**
   * As written, a one-character last entry disappears from the list: the
   * value `"a;b"` becomes `"a"`, where the full split keeps it.
   */
  lemma AddPrefixAsWrittenDropsEntry(cfg: Settings)
    ensures AddPrefixToVirtualFolderAsWritten("a;b", cfg) == "a"
    ensures AddPrefixToVirtualFolder("a;b", cfg) == "a;b"
  {
    SplitAsWrittenExamples();
    assert !StartsWith("a", CMakeFiles) && !StartsWith("b", CMakeFiles);
    assert RewriteAll(["a"], cfg) == ["a"];
    assert RewriteAll(["a", "b"], cfg) == ["a", "b"];
    assert Join(["a", "b"], ";") == "a" + ";" + "b";
  }
}
