/** The string operations of Python that the parser relies on: `str.strip()`,
    `str.replace(old, new)`, runs of one character class, and the whitespace-run
    substitutions `re.sub(r'\s+', ...)` and `re.sub(r'\s{2,}', ...)`. */
module Strings {
  import opened Chars

  /** End of the longest run of `cls` characters starting at `k` (a greedy `cls*`). */
  function RunEnd(s: string, k: nat, cls: char -> bool): (r: nat)
    requires k <= |s|
    ensures k <= r <= |s|
    ensures forall m :: k <= m < r ==> cls(s[m])
    ensures r == |s| || !cls(s[r])
    decreases |s| - k
  {
    if k == |s| || !cls(s[k]) then k else RunEnd(s, k + 1, cls)
  }

  /** A run of `cls` characters from `k` to `e` ends no later than `RunEnd`. */
  lemma RunEndMax(s: string, k: nat, e: nat, cls: char -> bool)
    requires k <= e <= |s|
    requires forall m :: k <= m < e ==> cls(s[m])
    ensures e <= RunEnd(s, k, cls)
  {
  }

  predicate AllSpace(s: string) {
    forall k :: 0 <= k < |s| ==> IsSpace(s[k])
  }

  /** No leading and no trailing whitespace. */
  predicate IsStripped(s: string) {
    |s| == 0 || (!IsSpace(s[0]) && !IsSpace(s[|s| - 1]))
  }

  /** Start of the text that `str.strip()` keeps. */
  function StripLo(s: string): (a: nat)
    ensures a <= |s|
    ensures AllSpace(s[..a])
    ensures a == |s| || !IsSpace(s[a])
  {
    RunEnd(s, 0, IsSpace)
  }

  /** End of the text that `str.strip()` keeps, searched down to `lo`. */
  function StripHi(s: string, lo: nat, hi: nat): (b: nat)
    requires lo <= hi <= |s|
    ensures lo <= b <= hi
    ensures forall k :: b <= k < hi ==> IsSpace(s[k])
    ensures b == lo || !IsSpace(s[b - 1])
    decreases hi
  {
    if hi == lo || !IsSpace(s[hi - 1]) then hi else StripHi(s, lo, hi - 1)
  }

  /** `str.strip()`: drop leading and trailing whitespace. */
  function Strip(s: string): (r: string)
    ensures IsStripped(r)
    ensures |r| <= |s|
    ensures r == [] <==> AllSpace(s)
  {
    var a := StripLo(s);
    var b := StripHi(s, a, |s|);
    s[a..b]
  }

  /** Stripping keeps exactly the text between whitespace margins. */
  lemma {:induction false} StripBounds(s: string)
    ensures var a := StripLo(s); var b := StripHi(s, a, |s|);
      && Strip(s) == s[a..b]
      && AllSpace(s[..a]) && AllSpace(s[b..])
  {
    var a := StripLo(s);
    var b := StripHi(s, a, |s|);
    forall k | 0 <= k < |s[b..]| ensures IsSpace(s[b..][k]) {
      assert s[b..][k] == s[b + k];
    }
  }

  /** A string without surrounding whitespace is its own strip. */
  lemma StripStripped(s: string)
    requires IsStripped(s)
    ensures Strip(s) == s
  {
    var a := StripLo(s);
    if |s| > 0 {
      assert a == 0;
      assert StripHi(s, 0, |s|) == |s|;
    }
  }

  /** A character of `s` that is not whitespace survives `str.strip()` at a
      shifted position. */
  lemma StripKeeps(s: string, k: nat)
    requires k < |s| && !IsSpace(s[k])
    ensures StripLo(s) <= k < StripHi(s, StripLo(s), |s|)
  {
  }

  /** Stripping keeps a stretch that begins and ends with non-whitespace, at the
      returned position. */
  lemma StripWindow(s: string, x: nat, y: nat) returns (k: nat)
    requires x <= y < |s| && !IsSpace(s[x]) && !IsSpace(s[y])
    ensures k + (y + 1 - x) <= |Strip(s)| && Strip(s)[k..k + (y + 1 - x)] == s[x..y + 1]
  {
    var lo := StripLo(s);
    var hi := StripHi(s, lo, |s|);
    StripKeeps(s, x);
    StripKeeps(s, y);
    StripBounds(s);
    k := x - lo;
    assert Strip(s) == s[lo..hi];
    assert lo <= x && y < hi;
    assert k + (y + 1 - x) <= hi - lo;
    SliceOfSlice(s, lo, hi, k, k + (y + 1 - x));
    assert lo + k == x && lo + k + (y + 1 - x) == y + 1;
  }

  /** A slice of a slice is a slice. */
  lemma SliceOfSlice(s: string, a: nat, e: nat, x: nat, y: nat)
    requires a <= e <= |s| && x <= y <= e - a
    ensures s[a..e][x..y] == s[a + x..a + y]
  {
    forall j | 0 <= j < y - x ensures s[a..e][x..y][j] == s[a + x..a + y][j] {
      assert s[a..e][x..y][j] == s[a + x + j];
    }
  }

  /** The literal `lit` matches at `i` under `re.IGNORECASE`. */
  predicate FoldMatch(s: string, i: nat, lit: string) {
    i + |lit| <= |s| && forall k :: 0 <= k < |lit| ==> FoldEq(s[i + k], lit[k])
  }

  lemma FoldMatchPair(s: string, i: nat, lit: string)
    requires i + 2 <= |s| && |lit| == 2
    ensures FoldMatch(s, i, lit) <==> FoldEq(s[i], lit[0]) && FoldEq(s[i + 1], lit[1])
  {
  }

  lemma FoldMatchTriple(s: string, i: nat, lit: string)
    requires i + 3 <= |s| && |lit| == 3
    ensures FoldMatch(s, i, lit) <==> FoldEq(s[i], lit[0]) && FoldEq(s[i + 1], lit[1]) && FoldEq(s[i + 2], lit[2])
  {
  }

  /** `t` occurs in `s` at position `i`. */
  predicate OccursAt(s: string, t: string, i: nat) {
    i + |t| <= |s| && s[i..i + |t|] == t
  }

  ghost predicate Occurs(s: string, t: string) {
    exists i: nat :: OccursAt(s, t, i)
  }

  /** `s.replace(pat, rep)`: every non-overlapping occurrence of `pat`, found left to
      right, is replaced by `rep` (for an empty `pat`, `rep` goes between all characters
      and at both ends). */
  function ReplaceAll(s: string, pat: string, rep: string): string
    decreases |s|
  {
    if |pat| == 0 then
      if s == [] then rep else rep + [s[0]] + ReplaceAll(s[1..], pat, rep)
    else if s == [] then []
    else if OccursAt(s, pat, 0) then rep + ReplaceAll(s[|pat|..], pat, rep)
    else [s[0]] + ReplaceAll(s[1..], pat, rep)
  }

  /** A replacement no longer than a non-empty pattern never lengthens the text, and
      one of the same length as the pattern keeps the length. */
  lemma {:induction false} ReplaceAllLength(s: string, pat: string, rep: string)
    ensures 0 < |pat| && |rep| <= |pat| ==> |ReplaceAll(s, pat, rep)| <= |s|
    ensures |rep| == |pat| ==> |ReplaceAll(s, pat, rep)| == |s|
    decreases |s|
  {
    if s == [] {
    } else if |pat| == 0 || !OccursAt(s, pat, 0) {
      ReplaceAllLength(s[1..], pat, rep);
    } else {
      ReplaceAllLength(s[|pat|..], pat, rep);
    }
  }

  /** An occurrence after a prefix `x` is an occurrence in the rest. */
  lemma OccursAfter(x: string, y: string, pat: string, j: nat)
    ensures OccursAt(x + y, pat, |x| + j) <==> OccursAt(y, pat, j)
  {
    if j + |pat| <= |y| {
      assert (x + y)[|x| + j..|x| + j + |pat|] == y[j..j + |pat|];
    }
  }

  /** When `pat` does not occur, `str.replace` changes nothing. */
  lemma {:induction false} ReplaceAllAbsent(s: string, pat: string, rep: string)
    requires |pat| > 0
    requires forall i: nat :: !OccursAt(s, pat, i)
    ensures ReplaceAll(s, pat, rep) == s
  {
    if s != [] {
      assert s == [s[0]] + s[1..];
      forall i: nat ensures !OccursAt(s[1..], pat, i) {
        OccursAfter([s[0]], s[1..], pat, i);
      }
      ReplaceAllAbsent(s[1..], pat, rep);
    }
  }

  /** Where `pat` does not begin at the front, `str.replace` keeps the first character. */
  lemma ReplaceAllSkip(s: string, pat: string, rep: string)
    requires |pat| > 0 && s != [] && !OccursAt(s, pat, 0)
    ensures ReplaceAll(s, pat, rep) == [s[0]] + ReplaceAll(s[1..], pat, rep)
  {
  }

  /** Where `pat` begins at the front, `str.replace` writes `rep` in its place. */
  lemma ReplaceAllHit(s: string, pat: string, rep: string)
    requires |pat| > 0 && OccursAt(s, pat, 0)
    ensures ReplaceAll(s, pat, rep) == rep + ReplaceAll(s[|pat|..], pat, rep)
  {
    assert s != [];
  }

  /** Occurrences in `s[1..]` are those in `s`, one place earlier. */
  lemma OccurrencesShift(s: string, pat: string, i: nat)
    requires 0 < i && OccursAt(s, pat, i)
    requires forall j: nat :: j < i ==> !OccursAt(s, pat, j)
    ensures OccursAt(s[1..], pat, i - 1)
    ensures forall j: nat :: j < i - 1 ==> !OccursAt(s[1..], pat, j)
  {
    assert s == [s[0]] + s[1..];
    forall j: nat | j < i - 1 ensures !OccursAt(s[1..], pat, j) {
      OccursAfter([s[0]], s[1..], pat, j);
    }
    OccursAfter([s[0]], s[1..], pat, i - 1);
  }

  lemma PrefixShift(s: string, whole: string, tail: string, r: string, y: string, i: nat)
    requires 0 < i <= |s|
    requires whole == [s[0]] + tail && tail == s[1..][..i - 1] + r + y
    ensures whole == s[..i] + r + y
  {
    assert s[..i] == [s[0]] + s[1..][..i - 1];
  }

  /** The text before the first occurrence of `pat` is kept, the occurrence becomes
      `rep`, and the replacement goes on after it. */
  lemma {:induction false} ReplaceAllFirst(s: string, pat: string, rep: string, i: nat)
    requires |pat| > 0 && OccursAt(s, pat, i)
    requires forall j: nat :: j < i ==> !OccursAt(s, pat, j)
    ensures ReplaceAll(s, pat, rep) == s[..i] + rep + ReplaceAll(s[i + |pat|..], pat, rep)
    decreases i, 1
  {
    if i > 0 {
      ReplaceAllFirstLater(s, pat, rep, i);
    } else {
      ReplaceAllHit(s, pat, rep);
      assert s[..i] + rep == rep;
    }
  }

  lemma {:induction false} ReplaceAllFirstLater(s: string, pat: string, rep: string, i: nat)
    requires |pat| > 0 && 0 < i && OccursAt(s, pat, i)
    requires forall j: nat :: j < i ==> !OccursAt(s, pat, j)
    ensures ReplaceAll(s, pat, rep) == s[..i] + rep + ReplaceAll(s[i + |pat|..], pat, rep)
    decreases i, 0
  {
    var t := s[1..];
    OccurrencesShift(s, pat, i);
    ReplaceAllFirst(t, pat, rep, i - 1);
    ReplaceAllSkip(s, pat, rep);
    assert t[i - 1 + |pat|..] == s[i + |pat|..];
    PrefixShift(s, ReplaceAll(s, pat, rep), ReplaceAll(t, pat, rep), rep, ReplaceAll(s[i + |pat|..], pat, rep), i);
  }

  /** Up to the first space that `replace(pat, " ")` may have written, its result
      copies the input. */
  lemma {:induction false} ReplaceSpacePrefix(s: string, pat: string, m: nat)
    requires |pat| > 0
    requires m <= |ReplaceAll(s, pat, " ")|
    requires forall j :: 0 <= j < m ==> ReplaceAll(s, pat, " ")[j] != ' '
    ensures m <= |s| && ReplaceAll(s, pat, " ")[..m] == s[..m]
    decreases |s|
  {
    var r := ReplaceAll(s, pat, " ");
    if m > 0 {
      assert r[0] == if OccursAt(s, pat, 0) then ' ' else s[0];
      var r' := ReplaceAll(s[1..], pat, " ");
      assert r == [s[0]] + r';
      forall j | 0 <= j < m - 1 ensures r'[j] != ' ' {
        assert r'[j] == r[j + 1];
      }
      ReplaceSpacePrefix(s[1..], pat, m - 1);
      assert r[..m] == [s[0]] + r'[..m - 1];
      assert s[..m] == [s[0]] + s[1..][..m - 1];
    }
  }

  /** An occurrence at the front of a `replace(pat, " ")` result was one in the input. */
  lemma ReplaceSpaceFront(s: string, pat: string)
    requires |pat| > 0 && ' ' !in pat
    ensures OccursAt(ReplaceAll(s, pat, " "), pat, 0) ==> OccursAt(s, pat, 0)
  {
    var r := ReplaceAll(s, pat, " ");
    if OccursAt(r, pat, 0) {
      forall j | 0 <= j < |pat| ensures r[j] != ' ' {
        assert r[j] == pat[j];
      }
      ReplaceSpacePrefix(s, pat, |pat|);
    }
  }

  /** When the replaced text holds no space, `replace(pat, " ")` leaves no occurrence of it. */
  lemma {:induction false} ReplaceSpaceRemovesAll(s: string, pat: string)
    requires |pat| > 0 && ' ' !in pat
    ensures !Occurs(ReplaceAll(s, pat, " "), pat)
    decreases |s|
  {
    var r := ReplaceAll(s, pat, " ");
    if s == [] {
    } else if OccursAt(s, pat, 0) {
      var r' := ReplaceAll(s[|pat|..], pat, " ");
      ReplaceSpaceRemovesAll(s[|pat|..], pat);
      assert r == " " + r';
      assert pat[0] != ' ';
      forall i: nat ensures !OccursAt(r, pat, i) {
        if i > 0 {
          OccursAfter(" ", r', pat, i - 1);
        }
      }
    } else {
      var r' := ReplaceAll(s[1..], pat, " ");
      ReplaceSpaceRemovesAll(s[1..], pat);
      assert r == [s[0]] + r';
      ReplaceSpaceFront(s, pat);
      forall i: nat ensures !OccursAt(r, pat, i) {
        if i > 0 {
          OccursAfter([s[0]], r', pat, i - 1);
        }
      }
    }
  }

  /** `re.sub(r'\s{min,}', [rep], s)` for `min >= 1`: every maximal whitespace run of
      at least `min` characters becomes the single character `rep`. The result is
      never longer, and empty only for empty text. */
  function ReplaceSpaceRuns(s: string, min: nat, rep: char): (r: string)
    requires min >= 1
    ensures |r| <= |s|
    ensures r == [] <==> s == []
    decreases |s|
  {
    if s == [] then []
    else if IsSpace(s[0]) then
      var e := RunEnd(s, 0, IsSpace);
      (if e >= min then [rep] else s[..e]) + ReplaceSpaceRuns(s[e..], min, rep)
    else [s[0]] + ReplaceSpaceRuns(s[1..], min, rep)
  }

  /** Whitespace runs of length one. */
  predicate NoDoubleSpace(s: string) {
    forall k :: 0 <= k < |s| - 1 ==> !(IsSpace(s[k]) && IsSpace(s[k + 1]))
  }

  /** `re.sub(r'\s{2,}', ' ', s)` leaves no two whitespace characters side by side,
      and starts with whitespace exactly when `s` does. */
  lemma {:induction false} CollapseNoDoubleSpace(s: string)
    ensures NoDoubleSpace(ReplaceSpaceRuns(s, 2, ' '))
    ensures |ReplaceSpaceRuns(s, 2, ' ')| > 0 <==> |s| > 0
    ensures |s| > 0 ==> (IsSpace(ReplaceSpaceRuns(s, 2, ' ')[0]) <==> IsSpace(s[0]))
    decreases |s|
  {
    var r := ReplaceSpaceRuns(s, 2, ' ');
    if s == [] {
    } else if IsSpace(s[0]) {
      var e := RunEnd(s, 0, IsSpace);
      var head: string := if e >= 2 then [' '] else s[..e];
      var r' := ReplaceSpaceRuns(s[e..], 2, ' ');
      CollapseNoDoubleSpace(s[e..]);
      assert r == head + r';
      assert |head| == 1;
      assert r[0] == head[0];
      if |r'| > 0 {
        assert !IsSpace(s[e..][0]);
        assert !IsSpace(r'[0]);
      }
      forall k | 0 <= k < |r| - 1 ensures !(IsSpace(r[k]) && IsSpace(r[k + 1])) {
        if k > 0 {
          assert r[k] == r'[k - 1] && r[k + 1] == r'[k];
        } else {
          assert r[1] == r'[0];
        }
      }
    } else {
      var r' := ReplaceSpaceRuns(s[1..], 2, ' ');
      CollapseNoDoubleSpace(s[1..]);
      assert r == [s[0]] + r';
      forall k | 0 <= k < |r| - 1 ensures !(IsSpace(r[k]) && IsSpace(r[k + 1])) {
        if k > 0 {
          assert r[k] == r'[k - 1] && r[k + 1] == r'[k];
        }
      }
    }
  }

  /** `re.sub(r'\s+', rep, s)` with a non-space `rep` leaves no whitespace, keeps every
      other character, and changes nothing in a string that has no whitespace. */
  lemma {:induction false} UnderscoreRunsNoSpace(s: string, rep: char)
    requires !IsSpace(rep)
    ensures forall k :: 0 <= k < |ReplaceSpaceRuns(s, 1, rep)| ==>
      var c := ReplaceSpaceRuns(s, 1, rep)[k]; c == rep || (c in s && !IsSpace(c))
    ensures (forall k :: 0 <= k < |s| ==> !IsSpace(s[k])) ==> ReplaceSpaceRuns(s, 1, rep) == s
    ensures |ReplaceSpaceRuns(s, 1, rep)| <= |s|
    ensures |ReplaceSpaceRuns(s, 1, rep)| == 0 <==> |s| == 0
    decreases |s|
  {
    if s == [] {
    } else if IsSpace(s[0]) {
      var e := RunEnd(s, 0, IsSpace);
      var r' := ReplaceSpaceRuns(s[e..], 1, rep);
      UnderscoreRunsNoSpace(s[e..], rep);
      assert ReplaceSpaceRuns(s, 1, rep) == [rep] + r';
      forall k | 0 <= k < |r'| ensures r'[k] == rep || (r'[k] in s && !IsSpace(r'[k])) {
        if r'[k] != rep {
          assert r'[k] in s[e..];
        }
      }
    } else {
      var r' := ReplaceSpaceRuns(s[1..], 1, rep);
      UnderscoreRunsNoSpace(s[1..], rep);
      assert ReplaceSpaceRuns(s, 1, rep) == [s[0]] + r';
      forall k | 0 <= k < |r'| ensures r'[k] == rep || (r'[k] in s && !IsSpace(r'[k])) {
        if r'[k] != rep {
          assert r'[k] in s[1..];
        }
      }
    }
  }

  /** The characters of `s` that satisfy `keep`, in order (`re.sub('[^...]', '', s)`). */
  function Filter(s: string, keep: char -> bool): (r: string)
    ensures |r| <= |s|
    ensures forall k :: 0 <= k < |r| ==> keep(r[k]) && r[k] in s
    ensures (forall k :: 0 <= k < |s| ==> keep(s[k])) ==> r == s
    decreases |s|
  {
    if s == [] then []
    else if keep(s[0]) then [s[0]] + Filter(s[1..], keep)
    else Filter(s[1..], keep)
  }

  /** Filtering distributes over concatenation. */
  lemma {:induction false} FilterAppend(x: string, y: string, keep: char -> bool)
    ensures Filter(x + y, keep) == Filter(x, keep) + Filter(y, keep)
    decreases |x|
  {
    if x == [] {
      assert x + y == y;
    } else {
      assert (x + y)[0] == x[0] && (x + y)[1..] == x[1..] + y;
      FilterAppend(x[1..], y, keep);
    }
  }

  /** A single character is kept exactly when `keep` holds for it. */
  lemma FilterSingle(c: char, keep: char -> bool)
    ensures Filter([c], keep) == if keep(c) then [c] else []
  {
    assert [c][1..] == [];
  }

  /** Nothing is kept from text that `keep` rejects throughout. */
  lemma {:induction false} FilterNone(s: string, keep: char -> bool)
    requires forall k :: 0 <= k < |s| ==> !keep(s[k])
    ensures Filter(s, keep) == []
    decreases |s|
  {
    if s != [] {
      FilterNone(s[1..], keep);
    }
  }

  /** Filtering by a stricter test after a looser one is filtering by the stricter. */
  lemma {:induction false} FilterFilter(s: string, loose: char -> bool, strict: char -> bool)
    requires forall c :: strict(c) ==> loose(c)
    ensures Filter(Filter(s, loose), strict) == Filter(s, strict)
    decreases |s|
  {
    if s != [] {
      FilterFilter(s[1..], loose, strict);
      if loose(s[0]) {
        FilterAppend([s[0]], Filter(s[1..], loose), strict);
        FilterSingle(s[0], strict);
      }
    }
  }

  /** A character that is not whitespace. */
  predicate NotSpace(c: char) {
    !IsSpace(c)
  }

  /** Stripping removes only whitespace: a filter that drops whitespace sees the same
      text before and after. */
  lemma StripKeepsText(s: string, keep: char -> bool)
    requires forall c :: keep(c) ==> !IsSpace(c)
    ensures Filter(Strip(s), keep) == Filter(s, keep)
  {
    StripBounds(s);
    var a := StripLo(s);
    var b := StripHi(s, a, |s|);
    var x, m, y := s[..a], s[a..b], s[b..];
    assert s == x + m + y;
    calc {
      Filter(s, keep);
      Filter(x + m + y, keep);
      { FilterAppend(x + m, y, keep); FilterAppend(x, m, keep); }
      Filter(x, keep) + Filter(m, keep) + Filter(y, keep);
      { FilterNone(x, keep); FilterNone(y, keep); }
      Filter(m, keep);
    }
  }

  /** Replacing whitespace runs changes nothing but whitespace and `rep`: a filter
      that drops both sees the same text before and after, so every other character
      survives, in order. */
  lemma {:induction false} ReplaceSpaceRunsKeepsText(s: string, min: nat, rep: char, keep: char -> bool)
    requires min >= 1
    requires forall c :: keep(c) ==> !IsSpace(c) && c != rep
    ensures Filter(ReplaceSpaceRuns(s, min, rep), keep) == Filter(s, keep)
    decreases |s|
  {
    if s != [] {
      var r := ReplaceSpaceRuns(s, min, rep);
      if IsSpace(s[0]) {
        var e := RunEnd(s, 0, IsSpace);
        var head: string := if e >= min then [rep] else s[..e];
        var r' := ReplaceSpaceRuns(s[e..], min, rep);
        ReplaceSpaceRunsKeepsText(s[e..], min, rep, keep);
        assert r == head + r';
        FilterAppend(head, r', keep);
        FilterNone(head, keep);
        FilterNone(s[..e], keep);
        assert s == s[..e] + s[e..];
        FilterAppend(s[..e], s[e..], keep);
      } else {
        var r' := ReplaceSpaceRuns(s[1..], min, rep);
        ReplaceSpaceRunsKeepsText(s[1..], min, rep, keep);
        assert r == [s[0]] + r';
        FilterAppend([s[0]], r', keep);
        assert s == [s[0]] + s[1..];
        FilterAppend([s[0]], s[1..], keep);
      }
    }
  }

  /** A run that is known to stop at `e` ends there. */
  lemma RunEndExact(s: string, k: nat, e: nat, cls: char -> bool)
    requires k <= e <= |s|
    requires forall m :: k <= m < e ==> cls(s[m])
    requires e == |s| || !cls(s[e])
    ensures RunEnd(s, k, cls) == e
  {
    RunEndMax(s, k, e, cls);
  }

  /** Text without whitespace in front is copied as it is, and the substitution goes
      on after it. */
  lemma {:induction false} ReplaceSpaceRunsWord(a: string, y: string, min: nat, rep: char)
    requires min >= 1
    requires forall k :: 0 <= k < |a| ==> !IsSpace(a[k])
    ensures ReplaceSpaceRuns(a + y, min, rep) == a + ReplaceSpaceRuns(y, min, rep)
    decreases |a|
  {
    if a == [] {
      assert a + y == y;
    } else {
      assert (a + y)[0] == a[0] && (a + y)[1..] == a[1..] + y;
      ReplaceSpaceRunsWord(a[1..], y, min, rep);
      assert a == [a[0]] + a[1..];
    }
  }

  /** Text without whitespace passes through the substitution unchanged, whatever
      `min` and `rep` are. */
  lemma {:induction false} ReplaceSpaceRunsNoSpace(s: string, min: nat, rep: char)
    requires min >= 1
    requires forall k :: 0 <= k < |s| ==> !IsSpace(s[k])
    ensures ReplaceSpaceRuns(s, min, rep) == s
  {
    ReplaceSpaceRunsWord(s, [], min, rep);
    assert s + [] == s;
  }

  /** A whole whitespace run in front becomes one `rep` when it has at least `min`
      characters and stays as it is when it is shorter. */
  lemma ReplaceSpaceRunsRun(w: string, b: string, min: nat, rep: char)
    requires min >= 1
    requires w != [] && AllSpace(w)
    requires b == [] || !IsSpace(b[0])
    ensures ReplaceSpaceRuns(w + b, min, rep) ==
      (if |w| >= min then [rep] else w) + ReplaceSpaceRuns(b, min, rep)
  {
    var s := w + b;
    assert s[0] == w[0];
    RunEndExact(s, 0, |w|, IsSpace);
    assert s[..|w|] == w && s[|w|..] == b;
  }

  /** Concatenation regrouped. */
  lemma Regroup(p: string, q: string, x: string, y: string)
    ensures p + (q + x + y) == (p + q) + x + y
  {
  }

  /** The inductive step of `ReplaceSpaceRunsSplit` when `a` starts with a
      whitespace run `a1`. */
  lemma SplitSpaceStep(a1: string, a2: string, h: string, w: string, b: string, min: nat, rep: char)
    requires min >= 1
    requires a1 != [] && AllSpace(a1) && a2 != [] && !IsSpace(a2[0])
    requires ReplaceSpaceRuns(a2 + w + b, min, rep) ==
      ReplaceSpaceRuns(a2, min, rep) + h + ReplaceSpaceRuns(b, min, rep)
    ensures ReplaceSpaceRuns(a1 + a2 + w + b, min, rep) ==
      ReplaceSpaceRuns(a1 + a2, min, rep) + h + ReplaceSpaceRuns(b, min, rep)
  {
    var h1: string := if |a1| >= min then [rep] else a1;
    var x, y := ReplaceSpaceRuns(a2, min, rep), ReplaceSpaceRuns(b, min, rep);
    assert a1 + a2 + w + b == a1 + (a2 + w + b);
    ReplaceSpaceRunsRun(a1, a2, min, rep);
    ReplaceSpaceRunsRun(a1, a2 + w + b, min, rep);
    Regroup(h1, x, h, y);
  }

  /** The inductive step of `ReplaceSpaceRunsSplit` when `a` starts with a character
      `c` that is not whitespace. */
  lemma SplitWordStep(c: char, t: string, h: string, w: string, b: string, min: nat, rep: char)
    requires min >= 1 && !IsSpace(c)
    requires ReplaceSpaceRuns(t + w + b, min, rep) ==
      ReplaceSpaceRuns(t, min, rep) + h + ReplaceSpaceRuns(b, min, rep)
    ensures ReplaceSpaceRuns([c] + t + w + b, min, rep) ==
      ReplaceSpaceRuns([c] + t, min, rep) + h + ReplaceSpaceRuns(b, min, rep)
  {
    var x, y := ReplaceSpaceRuns(t, min, rep), ReplaceSpaceRuns(b, min, rep);
    assert [c] + t + w + b == [c] + (t + w + b);
    ReplaceSpaceRunsWord([c], t + w + b, min, rep);
    ReplaceSpaceRunsWord([c], t, min, rep);
    Regroup([c], x, h, y);
  }

  /** The substitution works run by run: a maximal whitespace run `w` between `a` and
      `b` becomes one `rep` when it has at least `min` characters and stays as it is
      otherwise, and the text on either side is substituted on its own. */
  lemma {:induction false} ReplaceSpaceRunsSplit(a: string, w: string, b: string, min: nat, rep: char)
    requires min >= 1
    requires a == [] || !IsSpace(a[|a| - 1])
    requires w != [] && AllSpace(w)
    requires b == [] || !IsSpace(b[0])
    ensures ReplaceSpaceRuns(a + w + b, min, rep) ==
      ReplaceSpaceRuns(a, min, rep) + (if |w| >= min then [rep] else w) + ReplaceSpaceRuns(b, min, rep)
    decreases |a|, 1
  {
    if a == [] {
      assert a + w + b == w + b;
      ReplaceSpaceRunsRun(w, b, min, rep);
    } else if IsSpace(a[0]) {
      SplitSpaceFront(a, w, b, min, rep);
    } else {
      SplitWordFront(a, w, b, min, rep);
    }
  }

  /** `ReplaceSpaceRunsSplit` for an `a` that starts with whitespace. */
  lemma SplitSpaceFront(a: string, w: string, b: string, min: nat, rep: char)
    requires min >= 1
    requires a != [] && IsSpace(a[0]) && !IsSpace(a[|a| - 1])
    requires w != [] && AllSpace(w)
    requires b == [] || !IsSpace(b[0])
    ensures ReplaceSpaceRuns(a + w + b, min, rep) ==
      ReplaceSpaceRuns(a, min, rep) + (if |w| >= min then [rep] else w) + ReplaceSpaceRuns(b, min, rep)
    decreases |a|, 0
  {
    var e := RunEnd(a, 0, IsSpace);
    var a1, a2 := a[..e], a[e..];
    assert a == a1 + a2 && a2 != [] && a2[|a2| - 1] == a[|a| - 1];
    ReplaceSpaceRunsSplit(a2, w, b, min, rep);
    SplitSpaceStep(a1, a2, if |w| >= min then [rep] else w, w, b, min, rep);
  }

  /** `ReplaceSpaceRunsSplit` for an `a` that starts with a character that is not
      whitespace. */
  lemma SplitWordFront(a: string, w: string, b: string, min: nat, rep: char)
    requires min >= 1
    requires a != [] && !IsSpace(a[0]) && !IsSpace(a[|a| - 1])
    requires w != [] && AllSpace(w)
    requires b == [] || !IsSpace(b[0])
    ensures ReplaceSpaceRuns(a + w + b, min, rep) ==
      ReplaceSpaceRuns(a, min, rep) + (if |w| >= min then [rep] else w) + ReplaceSpaceRuns(b, min, rep)
    decreases |a|, 0
  {
    var t := a[1..];
    assert a == [a[0]] + t && (t == [] || t[|t| - 1] == a[|a| - 1]);
    ReplaceSpaceRunsSplit(t, w, b, min, rep);
    SplitWordStep(a[0], t, if |w| >= min then [rep] else w, w, b, min, rep);
  }

  /** With a whitespace `rep` the result starts with whitespace exactly when the
      text does. */
  lemma ReplaceSpaceRunsFront(s: string, min: nat, rep: char)
    requires min >= 1 && IsSpace(rep) && s != []
    ensures ReplaceSpaceRuns(s, min, rep) != []
    ensures IsSpace(ReplaceSpaceRuns(s, min, rep)[0]) <==> IsSpace(s[0])
  {
    if IsSpace(s[0]) {
      var e := RunEnd(s, 0, IsSpace);
      var h: string := if e >= min then [rep] else s[..e];
      assert ReplaceSpaceRuns(s, min, rep)[0] == h[0];
    }
  }

  /** The words of a text: its maximal runs of non-whitespace characters, in order,
      as `str.split()` gives them. */
  function Words(s: string): (ws: seq<string>)
    ensures forall j :: 0 <= j < |ws| ==> ws[j] != [] && !IsSpace(ws[j][0])
    decreases |s|
  {
    if s == [] then []
    else if IsSpace(s[0]) then Words(s[RunEnd(s, 0, IsSpace)..])
    else
      var e := RunEnd(s, 0, NotSpace);
      [s[..e]] + Words(s[e..])
  }

  /** Whitespace alone holds no word. */
  lemma WordsAllSpace(s: string)
    requires AllSpace(s)
    ensures Words(s) == []
  {
    if s != [] {
      RunEndExact(s, 0, |s|, IsSpace);
      assert s[|s|..] == [];
    }
  }

  /** Whitespace in front of a word, or of nothing, adds no word. */
  lemma WordsSpaceFront(w: string, y: string)
    requires AllSpace(w)
    requires y == [] || !IsSpace(y[0])
    ensures Words(w + y) == Words(y)
  {
    if w == [] {
      assert w + y == y;
    } else {
      var s := w + y;
      assert s[0] == w[0];
      RunEndExact(s, 0, |w|, IsSpace);
      assert s[|w|..] == y;
    }
  }

  /** A word followed by whitespace, or by nothing, is the first word. */
  lemma WordsWordFront(a: string, y: string)
    requires a != [] && forall k :: 0 <= k < |a| ==> !IsSpace(a[k])
    requires y == [] || IsSpace(y[0])
    ensures Words(a + y) == [a] + Words(y)
  {
    var s := a + y;
    assert s[0] == a[0];
    RunEndExact(s, 0, |a|, NotSpace);
    assert s[..|a|] == a && s[|a|..] == y;
  }

  /** Trailing whitespace adds no word. */
  lemma {:induction false} WordsSpaceBack(m: string, post: string)
    requires AllSpace(post)
    ensures Words(m + post) == Words(m)
    decreases |m|
  {
    var s := m + post;
    if m == [] {
      assert s == post;
      WordsAllSpace(post);
    } else if IsSpace(m[0]) {
      var e := RunEnd(m, 0, IsSpace);
      if e == |m| {
        assert AllSpace(s);
        WordsAllSpace(s);
        WordsAllSpace(m);
      } else {
        assert s[0] == m[0];
        RunEndExact(s, 0, e, IsSpace);
        assert s[e..] == m[e..] + post;
        WordsSpaceBack(m[e..], post);
      }
    } else {
      var e := RunEnd(m, 0, NotSpace);
      if e == |m| {
        WordsWordFront(m, post);
        WordsAllSpace(post);
        assert m[..e] == m && m[e..] == [];
      } else {
        assert s[0] == m[0];
        RunEndExact(s, 0, e, NotSpace);
        assert s[..e] == m[..e] && s[e..] == m[e..] + post;
        WordsSpaceBack(m[e..], post);
      }
    }
  }

  /** Stripping keeps every word. */
  lemma WordsStrip(s: string)
    ensures Words(Strip(s)) == Words(s)
  {
    StripBounds(s);
    var a := StripLo(s);
    var b := StripHi(s, a, |s|);
    assert s == s[..a] + s[a..];
    assert s[a..] == s[a..b] + s[b..];
    WordsSpaceFront(s[..a], s[a..]);
    WordsSpaceBack(s[a..b], s[b..]);
  }

  /** Replacing whitespace runs by a whitespace character keeps every word and every
      word break: the words before and after are the same, in order. */
  lemma {:induction false} WordsCollapse(s: string, min: nat, rep: char)
    requires min >= 1 && IsSpace(rep)
    ensures Words(ReplaceSpaceRuns(s, min, rep)) == Words(s)
    decreases |s|
  {
    if s == [] {
    } else if IsSpace(s[0]) {
      var e := RunEnd(s, 0, IsSpace);
      var w, b := s[..e], s[e..];
      var h: string := if e >= min then [rep] else w;
      assert s == w + b;
      ReplaceSpaceRunsRun(w, b, min, rep);
      if b != [] {
        ReplaceSpaceRunsFront(b, min, rep);
      }
      WordsSpaceFront(h, ReplaceSpaceRuns(b, min, rep));
      WordsCollapse(b, min, rep);
    } else {
      var e := RunEnd(s, 0, NotSpace);
      var a, y := s[..e], s[e..];
      assert s == a + y;
      ReplaceSpaceRunsWord(a, y, min, rep);
      if y != [] {
        ReplaceSpaceRunsFront(y, min, rep);
      }
      WordsWordFront(a, ReplaceSpaceRuns(y, min, rep));
      WordsCollapse(y, min, rep);
    }
  }

  /** The `in` operator on strings: `t` is a substring of `s`. */
  function Contains(s: string, t: string): (b: bool)
    ensures b <==> Occurs(s, t)
  {
    exists i: nat | i <= |s| :: OccursAt(s, t, i)
  }
}
