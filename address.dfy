/** The keyword address pass (index.py, lines 165-169):
    `re.search(r'([A-Za-z0-9\s\.,:/\\-]+(?:Mah|Sok|Cad|No)[\w\s\./:;-]+)', block,
    re.IGNORECASE)`, the match stripped, and every occurrence of it replaced by a space. */
module Address {
  import opened Chars
  import opened Strings
  import opened Extraction
  import opened Wrappers

  /** `[A-Za-z0-9\s\.,:/\\-]`. */
  predicate PrefixChar(c: char) {
    IsAsciiLetter(c) || IsDigit(c) || IsSpace(c) || c == '.' || c == ',' || c == ':' || c == '/' || c == '\\' || c == '-'
  }

  /** `[\w\s\./:;-]`. */
  predicate SuffixChar(c: char) {
    IsWordChar(c) || IsSpace(c) || c == '.' || c == '/' || c == ':' || c == ';' || c == '-'
  }

  /** `c` is `up` or `low`: how `re.IGNORECASE` compares with a letter of a
      keyword (see `KeywordsIgnoreCase`). */
  predicate Either(c: char, up: char, low: char) {
    c == up || c == low
  }

  /** `Mah`, `Sok` or `Cad` at `q`, ignoring case. */
  predicate Keyword3At(s: string, q: nat) {
    && q + 3 <= |s|
    && (|| (Either(s[q], 'M', 'm') && Either(s[q + 1], 'A', 'a') && Either(s[q + 2], 'H', 'h'))
        || (Either(s[q], 'S', 's') && Either(s[q + 1], 'O', 'o') && Either(s[q + 2], 'K', 'k'))
        || (Either(s[q], 'C', 'c') && Either(s[q + 1], 'A', 'a') && Either(s[q + 2], 'D', 'd')))
  }

  /** `No` at `q`, ignoring case. */
  predicate Keyword2At(s: string, q: nat) {
    q + 2 <= |s| && Either(s[q], 'N', 'n') && Either(s[q + 1], 'O', 'o')
  }

  /** The keyword tests are the case-insensitive comparisons with `Mah`, `Sok`, `Cad`
      and `No`. */
  lemma KeywordsIgnoreCase(s: string, q: nat)
    ensures Keyword3At(s, q) <==> FoldMatch(s, q, "Mah") || FoldMatch(s, q, "Sok") || FoldMatch(s, q, "Cad")
    ensures Keyword2At(s, q) <==> FoldMatch(s, q, "No")
  {
    if q + 3 <= |s| {
      FoldLetter(s[q], 'M', 'm');
      FoldLetter(s[q], 'S', 's');
      FoldLetter(s[q], 'C', 'c');
      FoldLetter(s[q + 1], 'A', 'a');
      FoldLetter(s[q + 1], 'O', 'o');
      FoldLetter(s[q + 2], 'H', 'h');
      FoldLetter(s[q + 2], 'K', 'k');
      FoldLetter(s[q + 2], 'D', 'd');
      FoldMatchTriple(s, q, "Mah");
      assert FoldMatch(s, q, "Mah") <==> FoldEq(s[q], 'M') && FoldEq(s[q + 1], 'a') && FoldEq(s[q + 2], 'h');
      FoldMatchTriple(s, q, "Sok");
      assert FoldMatch(s, q, "Sok") <==> FoldEq(s[q], 'S') && FoldEq(s[q + 1], 'o') && FoldEq(s[q + 2], 'k');
      FoldMatchTriple(s, q, "Cad");
      assert FoldMatch(s, q, "Cad") <==> FoldEq(s[q], 'C') && FoldEq(s[q + 1], 'a') && FoldEq(s[q + 2], 'd');
    }
    if q + 2 <= |s| {
      FoldLetter(s[q], 'N', 'n');
      FoldLetter(s[q + 1], 'O', 'o');
      FoldMatchPair(s, q, "No");
      assert FoldMatch(s, q, "No") <==> FoldEq(s[q], 'N') && FoldEq(s[q + 1], 'o');
    }
  }

  /** Only the two cases of an ASCII letter other than `i` fold to its lower case. */
  lemma FoldLetter(c: char, up: char, low: char)
    requires IsAsciiUpper(up) && low as int == up as int + 32 && low != 'i'
    ensures FoldEq(c, up) <==> Either(c, up, low)
    ensures FoldEq(c, low) <==> Either(c, up, low)
  {
  }

  /** Length of the keyword `Mah`, `Sok`, `Cad` or `No` at `q` (0 when none). The four
      begin with different letters, so at most one of them matches. */
  function KeywordLen(s: string, q: nat): (l: nat)
    ensures l == 0 || l == 2 || l == 3
    ensures l > 0 ==> q + l <= |s|
  {
    if Keyword3At(s, q) then 3 else if Keyword2At(s, q) then 2 else 0
  }

  /** The keyword at `q` is made of ASCII letters. */
  lemma KeywordLetters(s: string, q: nat, k: nat)
    requires KeywordLen(s, q) > 0 && q <= k < q + KeywordLen(s, q)
    ensures IsAsciiLetter(s[k]) && !IsSpace(s[k]) && SuffixChar(s[k]) && PrefixChar(s[k])
  {
  }

  /** A keyword is recognised wherever its characters are. */
  lemma KeywordShift(s: string, q: nat, u: string, k: nat)
    requires KeywordLen(s, q) > 0 && k + KeywordLen(s, q) <= |u|
    requires u[k..k + KeywordLen(s, q)] == s[q..q + KeywordLen(s, q)]
    ensures KeywordLen(u, k) > 0
  {
    var l := KeywordLen(s, q);
    assert u[k] == u[k..k + l][0] == s[q];
    assert u[k + 1] == u[k..k + l][1] == s[q + 1];
    if l == 3 {
      assert u[k + 2] == u[k..k + l][2] == s[q + 2];
    }
  }

  /** A keyword at `q` followed by at least one suffix character. */
  predicate KeywordTail(s: string, q: nat) {
    KeywordLen(s, q) > 0 && q + KeywordLen(s, q) < |s| && SuffixChar(s[q + KeywordLen(s, q)])
  }

  /** `s[i..e]` is matched with the keyword at `q`: prefix characters before `q`, the
      keyword, and one or more suffix characters up to `e`. */
  predicate AddressSpan(s: string, i: nat, q: nat, e: nat) {
    && i < q
    && KeywordLen(s, q) > 0
    && q + KeywordLen(s, q) < e <= |s|
    && (forall m :: i <= m < q ==> PrefixChar(s[m]))
    && (forall m :: q + KeywordLen(s, q) <= m < e ==> SuffixChar(s[m]))
  }

  /** The last keyword with a tail in `[lo, hi]`. */
  function LastKeyword(s: string, lo: nat, hi: nat): (r: Option<nat>)
    requires lo <= hi + 1
    ensures r.Some? ==> lo <= r.value <= hi && KeywordTail(s, r.value)
    decreases hi + 1 - lo
  {
    if hi < lo then None
    else if KeywordTail(s, hi) then Some(hi)
    else if hi == lo then None
    else LastKeyword(s, lo, hi - 1)
  }

  /** No keyword with a tail lies after the one `LastKeyword` finds, nor anywhere in
      the range when it finds none. */
  lemma {:induction false} LastKeywordSpec(s: string, lo: nat, hi: nat)
    requires lo <= hi + 1
    ensures LastKeyword(s, lo, hi).Some? ==> forall q :: LastKeyword(s, lo, hi).value < q <= hi ==> !KeywordTail(s, q)
    ensures LastKeyword(s, lo, hi).None? ==> forall q :: lo <= q <= hi ==> !KeywordTail(s, q)
    decreases hi + 1 - lo
  {
    if lo <= hi && !KeywordTail(s, hi) && hi != lo {
      LastKeywordSpec(s, lo, hi - 1);
    }
  }

  /** The end of the match at `i`, with its keyword position. The greedy prefix runs as
      far as it can and gives characters back until a keyword with a tail follows;
      the suffix is then greedy. */
  function AddressAt(s: string, i: nat): (r: Option<(nat, nat)>)
    requires i <= |s|
    ensures r.Some? ==> i < r.value.1 <= |s|
  {
    if i == |s| || !PrefixChar(s[i]) then None
    else
      var r := RunEnd(s, i, PrefixChar);
      match LastKeyword(s, i + 1, r)
      case None => None
      case Some(q) => Some((q, RunEnd(s, q + KeywordLen(s, q), SuffixChar)))
  }

  /** Every match at `i` puts its keyword inside the greedy prefix run. */
  lemma SpanKeyword(s: string, i: nat, q: nat, e: nat)
    requires i < |s| && AddressSpan(s, i, q, e)
    ensures i + 1 <= q <= RunEnd(s, i, PrefixChar) && KeywordTail(s, q)
  {
    RunEndMax(s, i, q, PrefixChar);
  }

  /** A match at `i` whose keyword sits no later than the last keyword `q` ends no
      later than the greedy suffix after `q`. */
  lemma SpanEnd(s: string, i: nat, q: nat, q': nat, e: nat)
    requires KeywordTail(s, q) && AddressSpan(s, i, q', e) && q' <= q
    ensures e <= RunEnd(s, q + KeywordLen(s, q), SuffixChar)
  {
    var l := KeywordLen(s, q);
    if e > q + l {
      assert q' + KeywordLen(s, q') <= q + l;
      RunEndMax(s, q + l, e, SuffixChar);
    }
  }

  /** What `AddressAt` finds is a match, and the longest match at `i`; it finds
      nothing when no match starts at `i`. */
  lemma AddressAtSpec(s: string, i: nat)
    requires i <= |s|
    ensures AddressAt(s, i).Some? ==> AddressSpan(s, i, AddressAt(s, i).value.0, AddressAt(s, i).value.1)
    ensures AddressAt(s, i).Some? ==> forall q: nat, e: nat :: AddressSpan(s, i, q, e) ==> e <= AddressAt(s, i).value.1
    ensures AddressAt(s, i).None? ==> forall q: nat, e: nat :: !AddressSpan(s, i, q, e)
  {
    if i < |s| && PrefixChar(s[i]) {
      var r := RunEnd(s, i, PrefixChar);
      forall q: nat, e: nat | AddressSpan(s, i, q, e) ensures i + 1 <= q <= r && KeywordTail(s, q) {
        SpanKeyword(s, i, q, e);
      }
      var lk := LastKeyword(s, i + 1, r);
      LastKeywordSpec(s, i + 1, r);
      if lk.Some? {
        var q := lk.value;
        forall q': nat, e: nat | AddressSpan(s, i, q', e) ensures e <= RunEnd(s, q + KeywordLen(s, q), SuffixChar) {
          SpanKeyword(s, i, q', e);
          SpanEnd(s, i, q, q', e);
        }
      }
    }
  }

  /** The leftmost match at or after `i`: its start, keyword position and end. */
  function AddressSearch(s: string, i: nat): (m: Option<(nat, nat, nat)>)
    requires i <= |s|
    ensures m.Some? ==> i <= m.value.0 < m.value.2 <= |s|
    decreases |s| - i
  {
    match AddressAt(s, i)
    case Some((q, e)) => Some((i, q, e))
    case None => if i == |s| then None else AddressSearch(s, i + 1)
  }

  /** No match starts at `a`. */
  ghost predicate NoAddressAt(s: string, a: nat) {
    forall q: nat, e: nat :: !AddressSpan(s, a, q, e)
  }

  /** When nothing matches at `i`, the search moves on to `i + 1`. */
  lemma SearchStep(s: string, i: nat)
    requires i < |s| && AddressAt(s, i).None?
    ensures AddressSearch(s, i) == AddressSearch(s, i + 1)
  {
  }

  /** What the search returns is what `AddressAt` finds there. */
  lemma {:induction false} AddressSearchHit(s: string, i: nat)
    requires i <= |s|
    ensures AddressSearch(s, i).Some? ==>
      var m := AddressSearch(s, i).value;
      AddressAt(s, m.0) == Some((m.1, m.2))
    decreases |s| - i
  {
    if AddressAt(s, i).Some? {
      SearchHere(s, i);
    } else if i < |s| {
      SearchStep(s, i);
      AddressSearchHit(s, i + 1);
    }
  }

  /** When something matches at `i`, the search stops there. */
  lemma SearchHere(s: string, i: nat)
    requires i <= |s| && AddressAt(s, i).Some?
    ensures AddressSearch(s, i) == Some((i, AddressAt(s, i).value.0, AddressAt(s, i).value.1))
  {
  }

  /** `AddressAt` finds nothing where the search skipped. */
  lemma {:induction false} AddressSearchSkipped(s: string, i: nat)
    requires i <= |s|
    ensures AddressSearch(s, i).Some? ==> forall a: nat :: i <= a < AddressSearch(s, i).value.0 ==> AddressAt(s, a).None?
    decreases |s| - i
  {
    if i < |s| && AddressAt(s, i).None? {
      SearchStep(s, i);
      AddressSearchSkipped(s, i + 1);
      var m := AddressSearch(s, i + 1);
      if m.Some? {
        forall a: nat | i <= a < m.value.0 ensures AddressAt(s, a).None? {
          if a != i {
            assert i + 1 <= a < AddressSearch(s, i + 1).value.0;
          }
        }
      }
    }
  }

  /** `AddressAt` finds nothing anywhere when the search finds nothing. */
  lemma {:induction false} AddressSearchMiss(s: string, i: nat)
    requires i <= |s|
    ensures AddressSearch(s, i).None? ==> forall a: nat :: i <= a <= |s| ==> AddressAt(s, a).None?
    decreases |s| - i
  {
    if i < |s| && AddressAt(s, i).None? {
      SearchStep(s, i);
      AddressSearchMiss(s, i + 1);
      if AddressSearch(s, i + 1).None? {
        forall a: nat | i <= a <= |s| ensures AddressAt(s, a).None? {
          if a != i {
            assert i + 1 <= a <= |s|;
          }
        }
      }
    }
  }

  lemma NoAddressPastEnd(s: string, a: nat)
    requires |s| <= a
    ensures NoAddressAt(s, a)
  {
  }

  /** The search returns the leftmost start of any match and the longest match
      there, or nothing when there is no match at or after `i`. */
  lemma AddressSearchSpec(s: string, i: nat)
    requires i <= |s|
    ensures AddressSearch(s, i).Some? ==>
      var m := AddressSearch(s, i).value;
      i <= m.0 <= |s| && AddressAt(s, m.0) == Some((m.1, m.2))
    ensures AddressSearch(s, i).Some? ==>
      forall a: nat :: i <= a < AddressSearch(s, i).value.0 ==> NoAddressAt(s, a)
    ensures AddressSearch(s, i).None? ==> forall a: nat :: i <= a ==> NoAddressAt(s, a)
  {
    AddressSearchHit(s, i);
    AddressSearchSkipped(s, i);
    AddressSearchMiss(s, i);
    forall a: nat | i <= a <= |s| ensures AddressAt(s, a).None? ==> NoAddressAt(s, a) {
      AddressAtSpec(s, a);
    }
    forall a: nat | |s| < a ensures NoAddressAt(s, a) {
      NoAddressPastEnd(s, a);
    }
  }

  /** The keyword address pass. What it takes holds Mah, Sok, Cad or No ignoring
      case, or is "", and then the copy is the block itself. */
  function AddressPass(block: string): (t: Taken)
    ensures t.value == "" ==> t.rest == block
    ensures t.value != "" ==> ContainsKeyword(t.value) && IsStripped(t.value)
  {
    match AddressSearch(block, 0)
    case None => Taken("", block)
    case Some((a, q, e)) =>
      AddressSearchSpec(block, 0);
      AddressAtSpec(block, a);
      KeywordSurvivesStrip(block, a, q, e);
      var address := Strip(block[a..e]);
      Taken(address, ReplaceAll(block, address, " "))
  }

  /** `t` holds Mah, Sok, Cad or No, ignoring case. */
  ghost predicate ContainsKeyword(t: string) {
    exists k: nat :: KeywordLen(t, k) > 0
  }

  /** A match found makes the address the stripped text of the leftmost, longest
      match; it is non-empty and holds Mah, Sok, Cad or No ignoring case. */
  lemma AddressPassFound(block: string) returns (a: nat, q: nat, e: nat)
    requires AddressSearch(block, 0).Some?
    ensures a < e <= |block| && PrefixChar(block[a]) && AddressSpan(block, a, q, e)
    ensures forall a': nat :: a' < a ==> NoAddressAt(block, a')
    ensures forall q': nat, e': nat :: AddressSpan(block, a, q', e') ==> e' <= e
    ensures PAddress(block) == Strip(block[a..e]) && PAddress(block) != []
    ensures ContainsKeyword(PAddress(block))
    ensures AddressPass(block).rest == ReplaceAll(block, PAddress(block), " ")
  {
    a, q, e := AddressMatch(block);
    KeywordSurvivesStrip(block, a, q, e);
  }

  /** The match the pass takes. */
  lemma AddressMatch(block: string) returns (a: nat, q: nat, e: nat)
    requires AddressSearch(block, 0).Some?
    ensures a < e <= |block| && AddressSpan(block, a, q, e)
    ensures forall a': nat :: a' < a ==> NoAddressAt(block, a')
    ensures forall q': nat, e': nat :: AddressSpan(block, a, q', e') ==> e' <= e
    ensures AddressPass(block) == Taken(Strip(block[a..e]), ReplaceAll(block, Strip(block[a..e]), " "))
  {
    AddressSearchSpec(block, 0);
    var m := AddressSearch(block, 0).value;
    a, q, e := m.0, m.1, m.2;
    AddressAtSpec(block, a);
  }

  /** The address the pass found. */
  function PAddress(block: string): string {
    AddressPass(block).value
  }

  /** The keyword of a match lies inside the stripped match. */
  lemma KeywordSurvivesStrip(s: string, a: nat, q: nat, e: nat)
    requires AddressSpan(s, a, q, e)
    ensures Strip(s[a..e]) != []
    ensures ContainsKeyword(Strip(s[a..e]))
  {
    var l := KeywordLen(s, q);
    SliceOfSlice(s, a, e, q - a, q - a + l);
    KeywordShift(s, q, s[a..e], q - a);
    KeywordStrip(s[a..e], q - a);
  }

  /** Stripping keeps a keyword, whose letters are not whitespace. */
  lemma KeywordStrip(t: string, x: nat)
    requires KeywordLen(t, x) > 0
    ensures Strip(t) != [] && ContainsKeyword(Strip(t))
  {
    var l := KeywordLen(t, x);
    KeywordLetters(t, x, x);
    KeywordLetters(t, x, x + l - 1);
    var k := StripWindow(t, x, x + l - 1);
    KeywordShift(t, x, Strip(t), k);
  }

  /** No match: the address is empty and the copy is unchanged. */
  lemma AddressPassNone(block: string)
    ensures AddressPass(block).value == [] <==> forall a: nat :: NoAddressAt(block, a)
    ensures AddressPass(block).value == [] ==> AddressPass(block).rest == block
  {
    AddressSearchSpec(block, 0);
    if AddressSearch(block, 0).Some? {
      var a, q, e := AddressPassFound(block);
      assert !NoAddressAt(block, a);
    }
  }
}
