/** The phone pass (index.py, lines 152-156):
    `re.search(r'(\+?\d[\d\s\-\(\)]{8,}\d)', block)`, then every occurrence of the
    match is replaced by a space. */
module Phone {
  import opened Chars
  import opened Strings
  import opened Extraction
  import opened Wrappers

  /** `[\d\s\-\(\)]`. */
  predicate PhoneBody(c: char) {
    IsDigit(c) || IsSpace(c) || c == '-' || c == '(' || c == ')'
  }

  /** Where the mandatory first digit sits in a candidate starting at `i`. */
  function DigitPos(s: string, i: nat): nat {
    if i < |s| && s[i] == '+' then i + 1 else i
  }

  /** `s[i..e]` is matched by `\+?\d[\d\s\-\(\)]{8,}\d`. */
  predicate PhoneSpan(s: string, i: nat, e: nat) {
    var j := DigitPos(s, i);
    && j + 10 <= e <= |s|
    && IsDigit(s[j]) && IsDigit(s[e - 1])
    && forall m :: j < m < e - 1 ==> PhoneBody(s[m])
  }

  /** A phone number as the pattern defines one: an optional `+`, a digit, at least
      eight digits, whitespace, `-`, `(` or `)`, and a final digit. */
  predicate IsPhone(t: string) {
    PhoneSpan(t, 0, |t|)
  }

  /** The last digit in `s[lo..hi]`, if any. */
  function LastDigit(s: string, lo: nat, hi: nat): (r: Option<nat>)
    requires lo <= hi <= |s|
    ensures r.None? ==> forall p :: lo <= p < hi ==> !IsDigit(s[p])
    ensures r.Some? ==> lo <= r.value < hi && IsDigit(s[r.value])
    ensures r.Some? ==> forall p :: r.value < p < hi ==> !IsDigit(s[p])
    decreases hi
  {
    if hi == lo then None
    else if IsDigit(s[hi - 1]) then Some(hi - 1)
    else LastDigit(s, lo, hi - 1)
  }

  /** The end of the match at `i`: the body class is greedy, so the engine backtracks
      from the end of the body run to the last digit at least nine places on. */
  function PhoneEnd(s: string, i: nat): (r: Option<nat>)
    requires i <= |s|
    ensures r.Some? ==> i < r.value <= |s|
  {
    var j := DigitPos(s, i);
    if j >= |s| || !IsDigit(s[j]) then None
    else
      var r := RunEnd(s, j + 1, PhoneBody);
      if r < j + 9 then None
      else match LastDigit(s, j + 9, r)
        case None => None
        case Some(p) => Some(p + 1)
  }

  /** `PhoneEnd` finds the longest phone span starting at `i`, and none exists when
      it finds nothing. */
  lemma PhoneEndSpec(s: string, i: nat)
    requires i <= |s|
    ensures PhoneEnd(s, i).Some? ==> PhoneSpan(s, i, PhoneEnd(s, i).value)
    ensures PhoneEnd(s, i).Some? ==> forall e: nat :: PhoneEnd(s, i).value < e ==> !PhoneSpan(s, i, e)
    ensures PhoneEnd(s, i).None? ==> forall e: nat :: !PhoneSpan(s, i, e)
  {
    var j := DigitPos(s, i);
    if j < |s| && IsDigit(s[j]) {
      var r := RunEnd(s, j + 1, PhoneBody);
      forall e: nat | PhoneSpan(s, i, e)
        ensures j + 9 <= e - 1 < r && IsDigit(s[e - 1])
      {
        assert PhoneBody(s[e - 1]);
        RunEndMax(s, j + 1, e, PhoneBody);
      }
      if r >= j + 9 {
        var ld := LastDigit(s, j + 9, r);
        if ld.Some? {
          var p := ld.value;
          assert forall m :: j < m < p ==> PhoneBody(s[m]);
        }
      }
    }
  }

  /** The leftmost match at or after `i`: its start and end. */
  function PhoneSearch(s: string, i: nat): (m: Option<(nat, nat)>)
    requires i <= |s|
    ensures m.Some? ==> i <= m.value.0 < m.value.1 <= |s|
    decreases |s| - i
  {
    match PhoneEnd(s, i)
    case Some(e) => Some((i, e))
    case None => if i == |s| then None else PhoneSearch(s, i + 1)
  }

  /** No phone span starts at `a`. */
  ghost predicate NoPhoneAt(s: string, a: nat) {
    forall e: nat :: !PhoneSpan(s, a, e)
  }

  /** When `PhoneEnd` fails at `i`, the search moves on to `i + 1`. */
  lemma SearchStep(s: string, i: nat)
    requires i < |s| && PhoneEnd(s, i).None?
    ensures PhoneSearch(s, i) == PhoneSearch(s, i + 1)
  {
  }

  /** What the search returns is where `PhoneEnd` succeeds. */
  lemma {:induction false} PhoneSearchHit(s: string, i: nat)
    requires i <= |s|
    ensures PhoneSearch(s, i).Some? ==> PhoneEnd(s, PhoneSearch(s, i).value.0) == Some(PhoneSearch(s, i).value.1)
    decreases |s| - i
  {
    if i < |s| && PhoneEnd(s, i).None? {
      SearchStep(s, i);
      PhoneSearchHit(s, i + 1);
    }
  }

  /** `PhoneEnd` fails everywhere the search skipped. */
  lemma {:induction false} PhoneSearchSkipped(s: string, i: nat)
    requires i <= |s|
    ensures PhoneSearch(s, i).Some? ==> forall a: nat :: i <= a < PhoneSearch(s, i).value.0 ==> PhoneEnd(s, a).None?
    decreases |s| - i
  {
    if i < |s| && PhoneEnd(s, i).None? {
      SearchStep(s, i);
      PhoneSearchSkipped(s, i + 1);
      var m := PhoneSearch(s, i + 1);
      if m.Some? {
        forall a: nat | i <= a < m.value.0 ensures PhoneEnd(s, a).None? {
          if a != i {
            assert i + 1 <= a < PhoneSearch(s, i + 1).value.0;
          }
        }
      }
    }
  }

  /** `PhoneEnd` fails everywhere when the search finds nothing. */
  lemma {:induction false} PhoneSearchMiss(s: string, i: nat)
    requires i <= |s|
    ensures PhoneSearch(s, i).None? ==> forall a: nat :: i <= a <= |s| ==> PhoneEnd(s, a).None?
    decreases |s| - i
  {
    if i < |s| && PhoneEnd(s, i).None? {
      SearchStep(s, i);
      PhoneSearchMiss(s, i + 1);
      if PhoneSearch(s, i + 1).None? {
        forall a: nat | i <= a <= |s| ensures PhoneEnd(s, a).None? {
          if a != i {
            assert i + 1 <= a <= |s|;
          }
        }
      }
    }
  }

  /** The search returns the leftmost start at which a phone span exists, with the
      longest span there; it returns nothing when no span starts at or after `i`. */
  lemma PhoneSearchSpec(s: string, i: nat)
    requires i <= |s|
    ensures PhoneSearch(s, i).Some? ==> PhoneSpan(s, PhoneSearch(s, i).value.0, PhoneSearch(s, i).value.1)
    ensures PhoneSearch(s, i).Some? ==> PhoneEnd(s, PhoneSearch(s, i).value.0) == Some(PhoneSearch(s, i).value.1)
    ensures PhoneSearch(s, i).Some? ==> forall a: nat :: i <= a < PhoneSearch(s, i).value.0 ==> NoPhoneAt(s, a)
    ensures PhoneSearch(s, i).None? ==> forall a: nat :: i <= a ==> NoPhoneAt(s, a)
  {
    PhoneSearchHit(s, i);
    PhoneSearchSkipped(s, i);
    PhoneSearchMiss(s, i);
    forall a: nat | i <= a <= |s| ensures PhoneEnd(s, a).None? ==> NoPhoneAt(s, a) {
      PhoneEndSpec(s, a);
    }
    forall a: nat | |s| < a ensures NoPhoneAt(s, a) {
      NoSpanPastEnd(s, a);
    }
    if PhoneSearch(s, i).Some? {
      PhoneEndSpec(s, PhoneSearch(s, i).value.0);
    }
  }

  lemma NoSpanPastEnd(s: string, a: nat)
    requires |s| < a
    ensures NoPhoneAt(s, a)
  {
    assert DigitPos(s, a) == a;
  }

  /** The text of a span is a phone number in its own right. */
  lemma SpanIsPhone(s: string, a: nat, e: nat)
    requires PhoneSpan(s, a, e)
    ensures a <= e && IsPhone(s[a..e])
  {
    var t := s[a..e];
    assert DigitPos(t, 0) == DigitPos(s, a) - a;
    forall m | DigitPos(t, 0) < m < |t| - 1 ensures PhoneBody(t[m]) {
      assert t[m] == s[a + m];
    }
  }

  /** An occurrence of a phone number is itself a phone span. */
  lemma OccurrenceIsSpan(s: string, t: string, a: nat)
    requires IsPhone(t)
    ensures OccursAt(s, t, a) ==> PhoneSpan(s, a, a + |t|)
  {
    if OccursAt(s, t, a) {
      OccurrenceSpan(s, t, a);
    }
  }

  lemma OccurrenceSpan(s: string, t: string, a: nat)
    requires IsPhone(t) && OccursAt(s, t, a)
    ensures PhoneSpan(s, a, a + |t|)
  {
    assert s[a..a + |t|] == t;
    assert t[0] == s[a];
    assert DigitPos(s, a) == a + DigitPos(t, 0);
    forall m | DigitPos(s, a) < m < a + |t| - 1 ensures PhoneBody(s[m]) {
      assert s[m] == t[m - a];
    }
  }

  /** The phone pass. `strip()` leaves the match unchanged, since it begins with `+`
      or a digit and ends with a digit. What it takes is a phone number that occurs in
      the block, or nothing, and then the copy is the block itself. */
  function PhonePass(block: string): (t: Taken)
    ensures t.value == "" ==> t.rest == block
    ensures t.value != "" ==> IsPhone(t.value) && Occurs(block, t.value)
  {
    PhoneSearchSpec(block, 0);
    match PhoneSearch(block, 0)
    case None => Taken("", block)
    case Some((a, e)) =>
      SpanIsPhone(block, a, e);
      var phone := block[a..e];
      assert OccursAt(block, phone, a);
      Taken(phone, ReplaceAll(block, phone, " "))
  }

  /** What a phone number looks like: at least ten characters, an optional `+`, a
      digit first and a digit last, and only digits, whitespace, `-`, `(` and `)`
      in between. */
  lemma PhoneShape(phone: string)
    requires IsPhone(phone)
    ensures |phone| >= 10
    ensures phone[0] == '+' || IsDigit(phone[0])
    ensures IsDigit(phone[|phone| - 1])
    ensures forall k :: 0 < k < |phone| - 1 ==> PhoneBody(phone[k])
  {
  }

  /** `strip()` leaves a phone number as it is: it neither begins nor ends with
      whitespace. */
  lemma PhoneStripped(phone: string)
    requires IsPhone(phone)
    ensures Strip(phone) == phone
  {
    StripStripped(phone);
  }

  /** The phone found starts at `a`, the leftmost start of any phone in the block, and
      is the longest there. The copy keeps the text before it, puts a space in its
      place, and goes on replacing every later occurrence. */
  lemma PhonePassFound(block: string) returns (a: nat)
    requires PhonePass(block).value != ""
    ensures IsPhone(PhonePass(block).value)
    ensures OccursAt(block, PhonePass(block).value, a)
    ensures PhoneLeftmostLongest(block, a, a + |PhonePass(block).value|)
    ensures PhonePass(block).rest == block[..a] + " " + ReplaceAll(block[a + |PhonePass(block).value|..], PhonePass(block).value, " ")
  {
    var m := PhoneMatch(block);
    a := m.0;
    var phone := block[m.0..m.1];
    assert PhonePass(block).value == phone;
    MatchFacts(block, phone, m.0, m.1);
    assert a + |phone| == m.1;
  }

  /** What the leftmost, longest span gives the pass. */
  lemma MatchFacts(block: string, phone: string, a: nat, e: nat)
    requires a <= e <= |block| && PhoneLeftmostLongest(block, a, e) && phone == block[a..e]
    ensures IsPhone(phone) && OccursAt(block, phone, a) && a + |phone| == e
    ensures ReplaceAll(block, phone, " ") == block[..a] + " " + ReplaceAll(block[a + |phone|..], phone, " ")
  {
    SpanIsPhone(block, a, e);
    NoEarlierOccurrence(block, phone, a);
    ReplaceAllFirst(block, phone, " ", a);
  }

  /** The match the pass takes, as a span. */
  lemma PhoneMatch(block: string) returns (m: (nat, nat))
    requires PhonePass(block).value != ""
    ensures m.0 <= m.1 <= |block| && PhoneLeftmostLongest(block, m.0, m.1)
    ensures PhonePass(block) == Taken(block[m.0..m.1], ReplaceAll(block, block[m.0..m.1], " "))
  {
    PhoneSearchSpec(block, 0);
    m := PhoneSearch(block, 0).value;
    PhoneEndSpec(block, m.0);
  }

  /** A phone number cannot occur before the leftmost phone span. */
  lemma NoEarlierOccurrence(s: string, t: string, a: nat)
    requires IsPhone(t)
    requires forall a': nat :: a' < a ==> NoPhoneAt(s, a')
    ensures forall a': nat :: a' < a ==> !OccursAt(s, t, a')
  {
    forall a': nat | a' < a ensures !OccursAt(s, t, a') {
      OccurrenceIsSpan(s, t, a');
      assert NoPhoneAt(s, a');
    }
  }

  /** A span starting at `a` and ending at `e` is the match: nothing starts earlier
      and nothing starting at `a` is longer. */
  ghost predicate PhoneLeftmostLongest(s: string, a: nat, e: nat) {
    && PhoneSpan(s, a, e)
    && (forall e': nat :: e < e' ==> !PhoneSpan(s, a, e'))
    && (forall a': nat :: a' < a ==> NoPhoneAt(s, a'))
  }

  /** With no phone in the block the pass finds nothing and leaves the copy as it was. */
  lemma PhonePassNone(block: string)
    ensures PhonePass(block).value == "" <==> forall a: nat :: NoPhoneAt(block, a)
    ensures PhonePass(block).value == "" ==> PhonePass(block).rest == block
  {
    PhoneSearchSpec(block, 0);
    var m := PhoneSearch(block, 0);
    if m.Some? {
      assert PhoneSpan(block, m.value.0, m.value.1);
      assert !NoPhoneAt(block, m.value.0);
      assert PhonePass(block).value == block[m.value.0..m.value.1];
    }
  }
}
