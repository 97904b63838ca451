/** The fallback address (index.py, lines 183-188), used when the keyword pass found
    none: the leading date is dropped, the noise words are deleted, whitespace runs of
    two or more collapse to one space, and the ends are stripped. */
module Fallback {
  import opened Chars
  import opened Strings
  import opened Segmenter

  /** `re.sub(r'^\d{2}\.\d{2}\.\d{4}\s*', '', s)`: without MULTILINE the anchor only
      matches at position 0. */
  function DropLeadingDate(s: string): (r: string)
    ensures !DateAt(s, 0) ==> r == s
    ensures DateAt(s, 0) ==> |r| <= |s| - 10 && (r == [] || !IsSpace(r[0]))
  {
    if DateAt(s, 0) then s[RunEnd(s, 10, IsSpace)..] else s
  }

  /** The alternatives of `(SHOWROOM|TESLİMAT|FATURA|İRSALİYE|irsaliye|KARGO|UP)`, in
      the order the engine tries them. */
  const NoiseWords: seq<string> := ["SHOWROOM", "TESLİMAT", "FATURA", "İRSALİYE", "irsaliye", "KARGO", "UP"]

  /** Length of the first alternative from `k` on that matches at `i`, ignoring case
      (0 when none does). */
  function NoiseFrom(s: string, i: nat, k: nat): (l: nat)
    requires k <= |NoiseWords|
    ensures l > 0 ==> i + l <= |s|
    ensures l == 0 ==> forall j :: k <= j < |NoiseWords| ==> !FoldMatch(s, i, NoiseWords[j])
    decreases |NoiseWords| - k
  {
    if k == |NoiseWords| then 0
    else if FoldMatch(s, i, NoiseWords[k]) then |NoiseWords[k]|
    else NoiseFrom(s, i, k + 1)
  }

  /** `re.sub(r'(SHOWROOM|...|UP)', '', s, flags=re.IGNORECASE)`: scanning from the
      left, each match is deleted and the scan resumes after it; words are removed
      wherever they occur, inside other words too. */
  function RemoveNoise(s: string): (r: string)
    ensures |r| <= |s|
    ensures forall k :: 0 <= k < |r| ==> r[k] in s
    decreases |s|
  {
    if s == [] then []
    else
      var l := NoiseFrom(s, 0, 0);
      if l > 0 then
        var r := RemoveNoise(s[l..]);
        assert forall k :: 0 <= k < |r| ==> r[k] in s[l..];
        r
      else
        var r := RemoveNoise(s[1..]);
        assert forall k :: 0 < k < |r| + 1 ==> ([s[0]] + r)[k] == r[k - 1];
        [s[0]] + r
  }

  /** A noise match at `i` is the first alternative, in `NoiseWords` order, that
      matches there; its length is what the deletion removes. */
  lemma {:induction false} NoiseFromFirst(s: string, i: nat, k: nat) returns (j: nat)
    requires k <= |NoiseWords| && NoiseFrom(s, i, k) > 0
    ensures k <= j < |NoiseWords| && NoiseFrom(s, i, k) == |NoiseWords[j]|
    ensures FoldMatch(s, i, NoiseWords[j])
    ensures forall j' :: k <= j' < j ==> !FoldMatch(s, i, NoiseWords[j'])
    decreases |NoiseWords| - k
  {
    if FoldMatch(s, i, NoiseWords[k]) {
      j := k;
    } else {
      j := NoiseFromFirst(s, i, k + 1);
    }
  }

  /** Matching after the first character is matching one place further on. */
  lemma FoldMatchShift(s: string, i: nat, lit: string)
    requires |s| > 0
    ensures FoldMatch(s[1..], i, lit) <==> FoldMatch(s, i + 1, lit)
  {
    FoldMatchTail(s, i, lit);
    if FoldMatch(s, i + 1, lit) {
      forall k | 0 <= k < |lit| ensures FoldEq(s[1..][i + k], lit[k]) {
        assert s[1..][i + k] == s[i + 1 + k];
      }
    }
  }

  lemma {:induction false} NoiseFromShift(s: string, i: nat, k: nat)
    requires |s| > 0 && k <= |NoiseWords|
    ensures NoiseFrom(s[1..], i, k) == NoiseFrom(s, i + 1, k)
    decreases |NoiseWords| - k
  {
    if k < |NoiseWords| {
      FoldMatchShift(s, i, NoiseWords[k]);
      NoiseFromShift(s, i, k + 1);
    }
  }

  /** No noise word at the front: the first character is kept. */
  lemma RemoveNoiseKeep(s: string)
    requires s != [] && NoiseFrom(s, 0, 0) == 0
    ensures RemoveNoise(s) == [s[0]] + RemoveNoise(s[1..])
  {
  }

  /** A noise word at the front is dropped. */
  lemma RemoveNoiseDrop(s: string)
    requires s != [] && NoiseFrom(s, 0, 0) > 0
    ensures RemoveNoise(s) == RemoveNoise(s[NoiseFrom(s, 0, 0)..])
  {
  }

  /** Keeping the first character in front of a result that keeps the next `i - 1`
      keeps the first `i`. */
  lemma PrefixKept(s: string, t: string, i: nat, j: nat, x: string, r: string, y: string)
    requires i == j + 1 && i <= |s| && t == s[1..]
    requires x == [s[0]] + r && r == t[..j] + y
    ensures x == s[..i] + y
  {
    assert s[..i] == [s[0]] + t[..j];
  }

  /** Positions free of noise in `s` stay free of noise in `s[1..]`, one place earlier. */
  lemma NoiseFreeShift(s: string, i: nat)
    requires 0 < i <= |s|
    requires NoiseFreeBefore(s, i)
    ensures NoiseFreeBefore(s[1..], i - 1)
  {
    forall j | 0 <= j < i - 1 ensures NoiseFrom(s[1..], j, 0) == 0 {
      NoiseFromShift(s, j, 0);
    }
  }

  /** No alternative of the noise pattern matches before position `i`. */
  predicate NoiseFreeBefore(s: string, i: nat)
  {
    forall j :: 0 <= j < i ==> NoiseFrom(s, j, 0) == 0
  }

  /** The step of `RemoveNoiseFirst`: the first character is kept, and the rest `t`
      is handled one place earlier, at `j = i - 1`. */
  lemma {:induction false} RemoveNoiseStep(s: string, t: string, i: nat, j: nat, l: nat)
    requires i == j + 1 && i + l <= |s| && NoiseFrom(s, 0, 0) == 0 && t == s[1..]
    requires j < |t| && NoiseFreeBefore(t, j) && l == NoiseFrom(t, j, 0) > 0
    ensures RemoveNoise(s) == s[..i] + RemoveNoise(s[i + l..])
    decreases i, 0
  {
    RemoveNoiseFirst(t, j, l);
    RemoveNoiseJoin(s, t, i, j, l);
  }

  /** When no noise matches at position 0, the first match of `s` at `i` is the first
      match of `s[1..]` at `i - 1`. */
  lemma ShiftFacts(s: string, t: string, i: nat, j: nat, l: nat)
    requires i == j + 1 && i < |s| && NoiseFreeBefore(s, i) && l == NoiseFrom(s, i, 0) > 0
    requires t == s[1..]
    ensures NoiseFrom(s, 0, 0) == 0 && i + l <= |s|
    ensures j < |t| && NoiseFreeBefore(t, j) && l == NoiseFrom(t, j, 0)
  {
    assert NoiseFrom(s, 0, 0) == 0;
    NoiseFreeShift(s, i);
    NoiseFromShift(s, j, 0);
  }

  /** The result for `t = s[1..]` at `j` gives the result for `s` at `i = j + 1` when no
      noise word matches at position 0. */
  lemma RemoveNoiseJoin(s: string, t: string, i: nat, j: nat, l: nat)
    requires i == j + 1 && i + l <= |s| && NoiseFrom(s, 0, 0) == 0 && t == s[1..]
    requires RemoveNoise(t) == t[..j] + RemoveNoise(t[j + l..])
    ensures RemoveNoise(s) == s[..i] + RemoveNoise(s[i + l..])
  {
    assert t[j + l..] == s[i + l..];
    RemoveNoiseKeep(s);
    PrefixKept(s, t, i, j, RemoveNoise(s), RemoveNoise(t), RemoveNoise(t[j + l..]));
  }

  /** The deletion keeps the text before the first noise match, drops the matched
      word of length `l`, and goes on after it. */
  lemma {:induction false} RemoveNoiseFirst(s: string, i: nat, l: nat)
    requires i < |s| && NoiseFreeBefore(s, i) && l == NoiseFrom(s, i, 0) > 0
    ensures RemoveNoise(s) == s[..i] + RemoveNoise(s[i + l..])
    decreases i, 1
  {
    if i == 0 {
      RemoveNoiseDrop(s);
    } else {
      var t, j := s[1..], i - 1;
      ShiftFacts(s, t, i, j, l);
      RemoveNoiseStep(s, t, i, j, l);
    }
  }

  /** A slice keeps single spacing. */
  lemma NoDoubleSpaceSlice(s: string, a: nat, b: nat)
    requires a <= b <= |s| && NoDoubleSpace(s)
    ensures NoDoubleSpace(s[a..b])
  {
    forall k | 0 <= k < b - a - 1 ensures !(IsSpace(s[a..b][k]) && IsSpace(s[a..b][k + 1])) {
      assert s[a..b][k] == s[a + k] && s[a..b][k + 1] == s[a + k + 1];
    }
  }

  /** The fallback address. It has no whitespace at either end and never two
      whitespace characters side by side, and it holds exactly the words of the text
      left once the date and the noise words are gone, in order and with every word
      break kept. */
  function FallbackAddress(rest: string): (r: string)
    ensures IsStripped(r)
    ensures NoDoubleSpace(r)
    ensures Filter(r, NotSpace) == Filter(RemoveNoise(DropLeadingDate(rest)), NotSpace)
    ensures Words(r) == Words(RemoveNoise(DropLeadingDate(rest)))
  {
    var c := ReplaceSpaceRuns(RemoveNoise(DropLeadingDate(rest)), 2, ' ');
    CollapseNoDoubleSpace(RemoveNoise(DropLeadingDate(rest)));
    ReplaceSpaceRunsKeepsText(RemoveNoise(DropLeadingDate(rest)), 2, ' ', NotSpace);
    StripKeepsText(c, NotSpace);
    WordsCollapse(RemoveNoise(DropLeadingDate(rest)), 2, ' ');
    WordsStrip(c);
    StripBounds(c);
    NoDoubleSpaceSlice(c, StripLo(c), StripHi(c, StripLo(c), |c|));
    Strip(c)
  }

  /** Without noise words the deletion step changes nothing. */
  lemma {:induction false} RemoveNoiseNone(s: string)
    requires forall i: nat, j :: 0 <= j < |NoiseWords| ==> !FoldMatch(s, i, NoiseWords[j])
    ensures RemoveNoise(s) == s
    decreases |s|
  {
    if s != [] {
      assert NoiseFrom(s, 0, 0) == 0 by {
        NoNoiseFrom(s, 0, 0);
      }
      forall i: nat, j | 0 <= j < |NoiseWords| ensures !FoldMatch(s[1..], i, NoiseWords[j]) {
        FoldMatchTail(s, i, NoiseWords[j]);
      }
      RemoveNoiseNone(s[1..]);
    }
  }

  lemma {:induction false} NoNoiseFrom(s: string, i: nat, k: nat)
    requires k <= |NoiseWords|
    requires forall j :: k <= j < |NoiseWords| ==> !FoldMatch(s, i, NoiseWords[j])
    ensures NoiseFrom(s, i, k) == 0
    decreases |NoiseWords| - k
  {
    if k < |NoiseWords| {
      NoNoiseFrom(s, i, k + 1);
    }
  }

  lemma FoldMatchTail(s: string, i: nat, lit: string)
    requires |s| > 0
    ensures FoldMatch(s[1..], i, lit) ==> FoldMatch(s, i + 1, lit)
  {
    if FoldMatch(s[1..], i, lit) {
      forall k | 0 <= k < |lit| ensures FoldEq(s[i + 1 + k], lit[k]) {
        assert s[1..][i + k] == s[i + 1 + k];
      }
    }
  }

  /** Only a date at position 0 is removed, together with all the whitespace that
      follows it (`\s*` is greedy); text that does not begin with a date is kept. */
  lemma DropLeadingDateOnlyAtStart(s: string)
    ensures !DateAt(s, 0) ==> DropLeadingDate(s) == s
    ensures DateAt(s, 0) ==> exists e: nat ::
      && 10 <= e <= |s| && AllSpace(s[10..e]) && (e == |s| || !IsSpace(s[e]))
      && DropLeadingDate(s) == s[e..]
  {
    if DateAt(s, 0) {
      var e := RunEnd(s, 10, IsSpace);
      assert AllSpace(s[10..e]) by {
        forall k | 0 <= k < e - 10 ensures IsSpace(s[10..e][k]) {
          assert s[10..e][k] == s[10 + k];
        }
      }
    }
  }
}
