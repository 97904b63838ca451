/** The name pass (index.py, lines 171-181): the text before the first case-sensitive
    FATURA/İRSALİYE/irsaliye marker, the last capitalised run found in it by
    `re.findall(r'([A-ZĞÜŞİÖÇ][a-zA-ZĞÜŞİÖÇ\s\."]+)', before)`, stripped, and every
    occurrence of it replaced by a space. */
module Name {
  import opened Chars
  import opened Strings
  import opened Extraction
  import opened Wrappers

  /** One of the markers `FATURA`, `İRSALİYE`, `irsaliye` at `m` (case-sensitive). */
  predicate MarkerAt(s: string, m: nat) {
    OccursAt(s, "FATURA", m) || OccursAt(s, "İRSALİYE", m) || OccursAt(s, "irsaliye", m)
  }

  /** The first marker at or after `m`. */
  function FirstMarker(s: string, m: nat): (r: Option<nat>)
    requires m <= |s|
    ensures r.Some? ==> m <= r.value < |s| && MarkerAt(s, r.value)
    ensures r.Some? ==> forall x: nat :: m <= x < r.value ==> !MarkerAt(s, x)
    ensures r.None? ==> forall x: nat :: m <= x ==> !MarkerAt(s, x)
    decreases |s| - m
  {
    if m == |s| then None
    else if MarkerAt(s, m) then Some(m)
    else FirstMarker(s, m + 1)
  }

  /** `group(1)` of `re.search(r'(.+?)(FATURA|İRSALİYE|irsaliye)', s, re.DOTALL)`: the
      lazy group takes at least one character, so the match begins at 0 and the group
      ends at the first marker after position 0. There is a group exactly when a
      marker begins past position 0, and it is the text before the first such marker. */
  function BeforeMarker(s: string): (r: Option<string>)
    ensures r.Some? <==> exists m: nat :: 1 <= m && MarkerAt(s, m)
    ensures r.Some? ==> var m := |r.value|;
      && 1 <= m < |s| && r.value == s[..m] && MarkerAt(s, m)
      && forall x: nat :: 1 <= x < m ==> !MarkerAt(s, x)
  {
    if |s| == 0 then None
    else match FirstMarker(s, 1)
      case None => None
      case Some(m) => Some(s[..m])
  }

  /** `[a-zA-ZĞÜŞİÖÇ\s\."]`. */
  predicate NameBody(c: char) {
    IsAsciiLetter(c) || c == 'Ğ' || c == 'Ü' || c == 'Ş' || c == 'İ' || c == 'Ö' || c == 'Ç'
    || IsSpace(c) || c == '.' || c == '"'
  }

  /** A candidate run can begin at `p`: a capital, then at least one body character. */
  predicate NameStartAt(s: string, p: nat) {
    p + 1 < |s| && IsNameUpper(s[p]) && NameBody(s[p + 1])
  }

  /** No candidate run begins in `[lo, hi)`. */
  predicate StartFree(s: string, lo: nat, hi: nat) {
    forall x: nat :: lo <= x < hi ==> !NameStartAt(s, x)
  }

  /** The spans of `re.findall` from `p` on: each run is as long as it can be, and the
      scan resumes where the run ended. */
  function FindAll(s: string, p: nat): (sp: seq<(nat, nat)>)
    requires p <= |s|
    ensures forall k :: 0 <= k < |sp| ==> p <= sp[k].0 < sp[k].1 <= |s|
    decreases |s| - p
  {
    if p == |s| then []
    else if NameStartAt(s, p) then
      var e := RunEnd(s, p + 1, NameBody);
      [(p, e)] + FindAll(s, e)
    else FindAll(s, p + 1)
  }

  /** A span as `findall` reports it: a run start and the end of its greedy body. */
  predicate RunSpan(s: string, sp: (nat, nat)) {
    NameStartAt(s, sp.0) && sp.1 == RunEnd(s, sp.0 + 1, NameBody)
  }

  /** Every span is a greedy run starting at or after `p`. */
  lemma {:induction false} FindAllRuns(s: string, p: nat)
    requires p <= |s|
    ensures forall k :: 0 <= k < |FindAll(s, p)| ==> p <= FindAll(s, p)[k].0 && RunSpan(s, FindAll(s, p)[k])
    decreases |s| - p
  {
    if p < |s| {
      if NameStartAt(s, p) {
        var e := RunEnd(s, p + 1, NameBody);
        FindAllRuns(s, e);
        assert forall k :: 0 < k < |FindAll(s, p)| ==> FindAll(s, p)[k] == FindAll(s, e)[k - 1];
      } else {
        FindAllRuns(s, p + 1);
      }
    }
  }

  /** Each span begins where the previous one ended or later, and no run begins in
      between. */
  predicate Ordered(s: string, sp: seq<(nat, nat)>) {
    forall k :: 0 < k < |sp| ==> sp[k - 1].1 <= sp[k].0 && StartFree(s, sp[k - 1].1, sp[k].0)
  }

  lemma OrderedCons(s: string, x: (nat, nat), rest: seq<(nat, nat)>)
    requires Ordered(s, rest)
    requires rest != [] ==> x.1 <= rest[0].0 && StartFree(s, x.1, rest[0].0)
    ensures Ordered(s, [x] + rest)
  {
    var sp := [x] + rest;
    forall k | 0 < k < |sp| ensures sp[k - 1].1 <= sp[k].0 && StartFree(s, sp[k - 1].1, sp[k].0) {
      if k > 1 {
        assert sp[k - 1] == rest[k - 2] && sp[k] == rest[k - 1];
      } else {
        assert sp[0] == x && sp[1] == rest[0];
      }
    }
  }

  /** The spans `findall` reports are ordered. */
  lemma {:induction false} FindAllOrdered(s: string, p: nat)
    requires p <= |s|
    ensures Ordered(s, FindAll(s, p))
    decreases |s| - p
  {
    if p < |s| {
      if NameStartAt(s, p) {
        var e := RunEnd(s, p + 1, NameBody);
        FindAllOrdered(s, e);
        FindAllFirst(s, e);
        OrderedCons(s, (p, e), FindAll(s, e));
        FindAllStep(s, p);
      } else {
        FindAllOrdered(s, p + 1);
        FindAllSkip(s, p);
      }
    }
  }

  lemma FindAllStep(s: string, p: nat)
    requires p < |s| && NameStartAt(s, p)
    ensures FindAll(s, p) == [(p, RunEnd(s, p + 1, NameBody))] + FindAll(s, RunEnd(s, p + 1, NameBody))
  {
  }

  lemma FindAllSkip(s: string, p: nat)
    requires p < |s| && !NameStartAt(s, p)
    ensures FindAll(s, p) == FindAll(s, p + 1)
  {
  }

  /** No run begins before the first span, nor anywhere when there is none. */
  lemma {:induction false} FindAllFirst(s: string, p: nat)
    requires p <= |s|
    ensures |FindAll(s, p)| == 0 ==> StartFree(s, p, |s|)
    ensures |FindAll(s, p)| > 0 ==> p <= FindAll(s, p)[0].0 && StartFree(s, p, FindAll(s, p)[0].0)
    decreases |s| - p
  {
    if p < |s| {
      if NameStartAt(s, p) {
        FindAllStep(s, p);
      } else {
        FindAllFirst(s, p + 1);
        FindAllSkip(s, p);
      }
    }
  }

  /** No run begins after the last span. */
  lemma {:induction false} FindAllLast(s: string, p: nat)
    requires p <= |s|
    ensures |FindAll(s, p)| > 0 ==>
      var last := FindAll(s, p)[|FindAll(s, p)| - 1];
      last.1 <= |s| && StartFree(s, last.1, |s|)
    decreases |s| - p
  {
    if p < |s| {
      if NameStartAt(s, p) {
        var e := RunEnd(s, p + 1, NameBody);
        FindAllLast(s, e);
        FindAllFirst(s, e);
        FindAllStep(s, p);
      } else {
        FindAllLast(s, p + 1);
        FindAllSkip(s, p);
      }
    }
  }

  /** No run begins before the first span or after the last one. */
  lemma FindAllEdges(s: string, p: nat)
    requires p <= |s|
    ensures |FindAll(s, p)| == 0 ==> StartFree(s, p, |s|)
    ensures |FindAll(s, p)| > 0 ==> p <= FindAll(s, p)[0].0 && StartFree(s, p, FindAll(s, p)[0].0)
    ensures |FindAll(s, p)| > 0 ==>
      var last := FindAll(s, p)[|FindAll(s, p)| - 1];
      last.1 <= |s| && StartFree(s, last.1, |s|)
  {
    FindAllFirst(s, p);
    FindAllLast(s, p);
  }

  /** The name taken from the text `before` the marker; the copy is `block`. */
  function NameIn(before: string, block: string): Taken {
    var sp := FindAll(before, 0);
    if sp == [] then Taken("", block)
    else
      var last := sp[|sp| - 1];
      var name := Strip(before[last.0..last.1]);
      Taken(name, ReplaceAll(block, name, " "))
  }

  /** The name pass. What it takes is a stripped run that begins with a capital and
      holds only name characters, or is "", and then the copy is the block itself. */
  function NamePass(block: string): (t: Taken)
    ensures t.value == "" ==> t.rest == block
    ensures t.value != "" ==> IsStripped(t.value) && IsNameUpper(t.value[0])
    ensures t.value != "" ==> forall k :: 0 <= k < |t.value| ==> NameBody(t.value[k])
  {
    match BeforeMarker(block)
    case None => Taken("", block)
    case Some(before) =>
      var t := NameIn(before, block);
      NameInNone(before, block);
      if t.value == "" then t
      else
        NameInShape(before, block);
        t
  }

  /** The first character of a string that does not begin with whitespace survives
      stripping, and so does every character's membership in a class that holds all
      whitespace. */
  lemma StripFirst(t: string)
    requires |t| > 0 && !IsSpace(t[0])
    ensures |Strip(t)| > 0 && Strip(t)[0] == t[0]
  {
    StripBounds(t);
    StripKeeps(t, 0);
  }

  /** A run stripped: non-empty, stripped, a capital first, name characters only. */
  lemma StrippedRun(run: string)
    requires |run| > 0 && IsNameUpper(run[0]) && forall k :: 0 <= k < |run| ==> NameBody(run[k])
    ensures Strip(run) != [] && IsStripped(Strip(run)) && IsNameUpper(Strip(run)[0])
    ensures forall k :: 0 <= k < |Strip(run)| ==> NameBody(Strip(run)[k])
  {
    StripFirst(run);
    StripBounds(run);
    var lo := StripLo(run);
    forall k | 0 <= k < |Strip(run)| ensures NameBody(Strip(run)[k]) {
      assert Strip(run)[k] == run[lo + k];
    }
  }

  /** The characters of a span are name characters with a capital first. */
  lemma SpanChars(s: string, a: nat, e: nat)
    requires RunSpan(s, (a, e))
    ensures a < e <= |s| && IsNameUpper(s[a..e][0]) && forall k :: 0 <= k < e - a ==> NameBody(s[a..e][k])
  {
    forall k | 0 <= k < e - a ensures NameBody(s[a..e][k]) {
      assert s[a..e][k] == s[a + k];
    }
  }

  /** A name taken from `before` is the stripped last span `findall` reports: no run
      begins after it, and the run is as long as it can be. */
  lemma NameInFound(before: string, block: string) returns (a: nat, e: nat)
    requires NameIn(before, block).value != ""
    ensures FindAll(before, 0) != [] && FindAll(before, 0)[|FindAll(before, 0)| - 1] == (a, e)
    ensures a < e <= |before| && RunSpan(before, (a, e)) && StartFree(before, e, |before|)
    ensures NameIn(before, block).value == Strip(before[a..e])
    ensures NameIn(before, block).rest == ReplaceAll(block, NameIn(before, block).value, " ")
  {
    assert FindAll(before, 0) != [];
    a, e := LastSpan(before);
    NameInLast(before, block, a, e);
  }

  lemma NameInLast(before: string, block: string, a: nat, e: nat)
    requires FindAll(before, 0) != [] && FindAll(before, 0)[|FindAll(before, 0)| - 1] == (a, e)
    ensures a <= e <= |before|
    ensures NameIn(before, block) == Taken(Strip(before[a..e]), ReplaceAll(block, Strip(before[a..e]), " "))
  {
  }

  /** Such a name is non-empty, stripped, starts with a capital from A-Z or ĞÜŞİÖÇ and
      holds only name characters. */
  lemma NameInShape(before: string, block: string)
    requires NameIn(before, block).value != ""
    ensures IsStripped(NameIn(before, block).value) && IsNameUpper(NameIn(before, block).value[0])
    ensures forall k :: 0 <= k < |NameIn(before, block).value| ==> NameBody(NameIn(before, block).value[k])
  {
    var a, e := NameInFound(before, block);
    SpanChars(before, a, e);
    StrippedRun(before[a..e]);
  }

  /** The last span `findall` reports. */
  lemma LastSpan(before: string) returns (a: nat, e: nat)
    requires FindAll(before, 0) != []
    ensures FindAll(before, 0)[|FindAll(before, 0)| - 1] == (a, e)
    ensures a < e <= |before| && RunSpan(before, (a, e)) && StartFree(before, e, |before|)
  {
    var sp := FindAll(before, 0);
    FindAllRuns(before, 0);
    FindAllEdges(before, 0);
    a, e := sp[|sp| - 1].0, sp[|sp| - 1].1;
    assert RunSpan(before, sp[|sp| - 1]);
  }

  /** A name found is taken, as `NameInFound` and `NameInShape` describe, from the
      text before the first marker that lies past position 0. */
  lemma NamePassFound(block: string) returns (m: nat)
    requires NamePass(block).value != ""
    ensures 1 <= m < |block| && MarkerAt(block, m) && forall x: nat :: 1 <= x < m ==> !MarkerAt(block, x)
    ensures BeforeMarker(block) == Some(block[..m]) && NamePass(block) == NameIn(block[..m], block)
  {
    m := FirstMarker(block, 1).value;
  }

  /** Without a marker past position 0, or without a run before it, no name is found
      and the copy is unchanged. */
  lemma NamePassNone(block: string)
    ensures NamePass(block).value == "" <==>
      (BeforeMarker(block).None? || StartFree(BeforeMarker(block).value, 0, |BeforeMarker(block).value|))
    ensures NamePass(block).value == "" ==> NamePass(block).rest == block
  {
    if BeforeMarker(block).Some? {
      NameInNone(BeforeMarker(block).value, block);
    }
  }

  /** No name is taken from `before` exactly when no run begins in it. */
  lemma NameInNone(before: string, block: string)
    ensures NameIn(before, block).value == "" <==> StartFree(before, 0, |before|)
    ensures NameIn(before, block).value == "" ==> NameIn(before, block).rest == block
  {
    FindAllFirst(before, 0);
    if FindAll(before, 0) != [] {
      var a, e := LastSpan(before);
      NameInLast(before, block, a, e);
      SpanChars(before, a, e);
      StripFirst(before[a..e]);
      assert NameStartAt(before, a);
    }
  }
}
