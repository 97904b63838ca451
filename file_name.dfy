/** `sanitize_filename` (index.py, lines 49-51): the label's file stem. */
module FileName {
  import opened Chars
  import opened Strings

  const MaxStem := 60
  const DefaultStem := "etiket"

  /** The characters `re.sub(r"[^\w\s-]", "", s)` keeps. */
  predicate Keep(c: char) {
    IsWordChar(c) || IsSpace(c) || c == '-'
  }

  /** A character that may appear in a file stem. */
  predicate StemChar(c: char) {
    IsWordChar(c) || c == '-'
  }

  /** The name with disallowed characters dropped and the ends stripped. */
  function Cleaned(s: string): (t: string)
    ensures forall k :: 0 <= k < |t| ==> Keep(t[k])
  {
    Strip(Filter(s, Keep))
  }

  /** What is left before the fallback: the underscored text cut to 60 characters. */
  function StemOf(s: string): (v: string)
    ensures |v| <= MaxStem
    ensures v == [] <==> Cleaned(s) == []
    ensures forall k :: 0 <= k < |v| ==> StemChar(v[k]) && !IsSpace(v[k])
  {
    var u := ReplaceSpaceRuns(Cleaned(s), 1, '_');
    UnderscoreRunsNoSpace(Cleaned(s), '_');
    if |u| <= MaxStem then u else u[..MaxStem]
  }

  /** `sanitize_filename`: drop disallowed characters, strip, turn each whitespace run
      into `_`, keep the first 60 characters, and fall back to "etiket". */
  function SanitizeFilename(s: string): (r: string)
    ensures 1 <= |r| <= MaxStem
    ensures forall k :: 0 <= k < |r| ==> StemChar(r[k]) && !IsSpace(r[k])
    ensures Cleaned(s) == [] ==> r == DefaultStem
  {
    var v := StemOf(s);
    if v == [] then DefaultStem else v
  }

  /** When something survives the clean-up, the stem begins with the first surviving
      character of the name, and every character of it is `_` or comes from the name. */
  lemma SanitizeKeepsName(s: string)
    requires Cleaned(s) != []
    ensures SanitizeFilename(s)[0] == Cleaned(s)[0]
    ensures forall k :: 0 <= k < |SanitizeFilename(s)| ==> SanitizeFilename(s)[k] == '_' || SanitizeFilename(s)[k] in s
  {
    var t := Cleaned(s);
    var u := ReplaceSpaceRuns(t, 1, '_');
    UnderscoreRunsNoSpace(t, '_');
    assert !IsSpace(t[0]);
    assert u[0] == t[0];
    assert SanitizeFilename(s) == StemOf(s);
    forall k | 0 <= k < |SanitizeFilename(s)| ensures SanitizeFilename(s)[k] == '_' || SanitizeFilename(s)[k] in s {
      var c := SanitizeFilename(s)[k];
      assert c == u[k];
      if c != '_' {
        assert c in t;
        FilterSubset(s, Keep, c);
      }
    }
  }

  /** A character the clean-up neither drops nor rewrites: a kept character other than
      whitespace and `_`. */
  predicate NameLetter(c: char) {
    Keep(c) && !IsSpace(c) && c != '_'
  }

  /** The name's letters survive: apart from `_`, the stem is a prefix of the name's
      kept characters, and all of them when the cleaned name fits in 60 characters
      (so "Ali Veli" keeps "Veli"). */
  lemma SanitizeKeepsText(s: string)
    requires Cleaned(s) != []
    ensures Filter(SanitizeFilename(s), NameLetter) <= Filter(s, NameLetter)
    ensures |Cleaned(s)| <= MaxStem ==> Filter(SanitizeFilename(s), NameLetter) == Filter(s, NameLetter)
  {
    var t := Cleaned(s);
    var u := ReplaceSpaceRuns(t, 1, '_');
    FilterFilter(s, Keep, NameLetter);
    StripKeepsText(Filter(s, Keep), NameLetter);
    ReplaceSpaceRunsKeepsText(t, 1, '_', NameLetter);
    assert Filter(u, NameLetter) == Filter(s, NameLetter);
    assert SanitizeFilename(s) == StemOf(s);
    if |u| > MaxStem {
      assert u == u[..MaxStem] + u[MaxStem..];
      FilterAppend(u[..MaxStem], u[MaxStem..], NameLetter);
    }
  }

  /** A non-space character is copied by the underscore substitution. */
  lemma UnderscoreLetter(c: char, t: string)
    requires !IsSpace(c)
    ensures ReplaceSpaceRuns([c] + t, 1, '_') == [c] + ReplaceSpaceRuns(t, 1, '_')
  {
    assert ([c] + t)[1..] == t;
  }

  /** A lone whitespace character before a non-space one becomes `_`. */
  lemma UnderscoreSpace(c: char, t: string)
    requires IsSpace(c) && t != [] && !IsSpace(t[0])
    ensures ReplaceSpaceRuns([c] + t, 1, '_') == ['_'] + ReplaceSpaceRuns(t, 1, '_')
  {
    var s := [c] + t;
    assert RunEnd(s, 1, IsSpace) == 1;
    assert RunEnd(s, 0, IsSpace) == 1;
    assert s[1..] == t;
  }

  /** Space-free text in front is copied by the underscore substitution. */
  lemma {:induction false} UnderscoreWord(a: string, t: string)
    requires forall k :: 0 <= k < |a| ==> !IsSpace(a[k])
    ensures ReplaceSpaceRuns(a + t, 1, '_') == a + ReplaceSpaceRuns(t, 1, '_')
    decreases |a|
  {
    if a == [] {
      assert a + t == t;
    } else {
      UnderscoreWord(a[1..], t);
      assert a + t == [a[0]] + (a[1..] + t);
      UnderscoreLetter(a[0], a[1..] + t);
      assert a == [a[0]] + a[1..];
    }
  }

  /** Text of stem characters and spaces with no whitespace at its ends is its own
      cleaned name. */
  lemma CleanedKeeps(s: string)
    requires IsStripped(s)
    requires forall k :: 0 <= k < |s| ==> Keep(s[k])
    ensures Cleaned(s) == s
  {
    StripStripped(s);
  }

  /** Two space-free words joined by one space become the words joined by `_`. */
  lemma UnderscoreTwo(a: string, b: string)
    requires b != [] && forall k :: 0 <= k < |a| ==> !IsSpace(a[k])
    requires forall k :: 0 <= k < |b| ==> !IsSpace(b[k])
    ensures ReplaceSpaceRuns(a + [' '] + b, 1, '_') == a + ['_'] + b
  {
    var t := [' '] + b;
    calc {
      ReplaceSpaceRuns(a + [' '] + b, 1, '_');
      { assert a + [' '] + b == a + t; }
      ReplaceSpaceRuns(a + t, 1, '_');
      { UnderscoreWord(a, t); }
      a + ReplaceSpaceRuns(t, 1, '_');
      { UnderscoreSpace(' ', b); }
      a + (['_'] + ReplaceSpaceRuns(b, 1, '_'));
      { UnderscoreWord(b, []); assert b + [] == b; }
      a + (['_'] + b);
      a + ['_'] + b;
    }
  }

  /** Stem characters are never whitespace. */
  lemma StemWordNoSpace(w: string)
    requires forall k :: 0 <= k < |w| ==> StemChar(w[k])
    ensures forall k :: 0 <= k < |w| ==> !IsSpace(w[k])
  {
    forall k | 0 <= k < |w| ensures !IsSpace(w[k]) {
      var c := w[k];
      assert StemChar(c);
    }
  }

  /** Two words of stem characters joined by one space, 60 characters at most in all,
      become the two words joined by `_` (so "Ali Veli" becomes "Ali_Veli"). */
  lemma SanitizeTwoWords(a: string, b: string)
    requires a != [] && b != [] && |a| + 1 + |b| <= MaxStem
    requires forall k :: 0 <= k < |a| ==> StemChar(a[k])
    requires forall k :: 0 <= k < |b| ==> StemChar(b[k])
    ensures SanitizeFilename(a + " " + b) == a + "_" + b
  {
    var s := a + [' '] + b;
    forall k | 0 <= k < |s| ensures Keep(s[k]) {
      if k < |a| { assert s[k] == a[k]; }
      else if k > |a| { assert s[k] == b[k - |a| - 1]; }
    }
    assert s[0] == a[0] && s[|s| - 1] == b[|b| - 1];
    CleanedKeeps(s);
    StemWordNoSpace(a);
    StemWordNoSpace(b);
    UnderscoreTwo(a, b);
  }

  lemma FilterSubset(s: string, keep: char -> bool, c: char)
    requires c in Strip(Filter(s, keep))
    ensures c in s
  {
    StripBounds(Filter(s, keep));
  }

  /** A valid stem of at most 60 characters is its own file name. */
  lemma SanitizeValidStem(s: string)
    requires 1 <= |s| <= MaxStem
    requires forall k :: 0 <= k < |s| ==> StemChar(s[k])
    ensures SanitizeFilename(s) == s
  {
    assert forall k :: 0 <= k < |s| ==> Keep(s[k]) && !IsSpace(s[k]);
    assert Filter(s, Keep) == s;
    assert IsStripped(s);
    StripStripped(s);
    assert Cleaned(s) == s;
    UnderscoreRunsNoSpace(s, '_');
    assert ReplaceSpaceRuns(s, 1, '_') == s;
    assert StemOf(s) == s;
  }

  /** Sanitising a file name again changes nothing. */
  lemma SanitizeIdempotent(s: string)
    ensures SanitizeFilename(SanitizeFilename(s)) == SanitizeFilename(s)
  {
    SanitizeValidStem(SanitizeFilename(s));
  }
}
