/** The payer code and `normalize_pay_token` (index.py, lines 42-47). */
module PayToken {
  import opened Chars
  import opened Strings
  import opened Wrappers

  /** The cash-on-delivery payer: "ÜA" (Ücret Alıcı, the recipient pays) or
      "ÜG" (Ücret Gönderici, the sender pays). */
  datatype Payer = ReceiverPays | SenderPays {
    function Code(): (c: string)
      ensures |c| == 2 && c[0] == 'Ü'
    {
      match this
      case ReceiverPays => "ÜA"
      case SenderPays => "ÜG"
    }
  }

  /** A Python value handed to `normalize_pay_token`: a string, or anything else. */
  datatype Token = Str(s: string) | NotAString

  /** `str.lower()`. */
  function Lower(s: string): (r: string)
    ensures |r| >= |s|
    decreases |s|
  {
    if s == [] then [] else LowerChar(s[0]) + Lower(s[1..])
  }

  /** `str.replace(" ", "")`. */
  function DropSpaces(s: string): string {
    ReplaceAll(s, " ", "")
  }

  /** `normalize_pay_token`: NFKC (identity on precomposed text), strip, lower-case,
      drop spaces, then fold "üa"/"ua" to ÜA and "üg"/"ug" to ÜG. ÜA comes out exactly
      when the stripped token is Ü/ü/U/u, then only spaces, then A/a; ÜG exactly when
      it ends in G/g instead; every other value, non-strings included, gives None. */
  function NormalizePayToken(token: Token): (r: Option<Payer>)
    ensures r == Some(ReceiverPays) <==> token.Str? && SpacedPair(Strip(token.s), ReceiverFirst, ReceiverSecond)
    ensures r == Some(SenderPays) <==> token.Str? && SpacedPair(Strip(token.s), ReceiverFirst, SenderSecond)
    ensures r == None <==> (token.Str? ==>
      !SpacedPair(Strip(token.s), ReceiverFirst, ReceiverSecond) && !SpacedPair(Strip(token.s), ReceiverFirst, SenderSecond))
  {
    match token
    case NotAString => None
    case Str(s) =>
      NormalizedPair(s, 'u', 'a');
      NormalizedPair(s, 'ü', 'a');
      NormalizedPair(s, 'u', 'g');
      NormalizedPair(s, 'ü', 'g');
      PairFolds(Strip(s));
      var t := DropSpaces(Lower(Strip(s)));
      if t == "üa" || t == "ua" then Some(ReceiverPays)
      else if t == "üg" || t == "ug" then Some(SenderPays)
      else None
  }

  /** `r` is a letter from `first`, then only spaces, then a letter from `second`. */
  predicate SpacedPair(r: string, first: set<char>, second: set<char>) {
    && |r| >= 2 && r[0] in first && r[|r| - 1] in second
    && forall k :: 0 < k < |r| - 1 ==> r[k] == ' '
  }

  const ReceiverFirst: set<char> := {'Ü', 'ü', 'U', 'u'}
  const ReceiverSecond: set<char> := {'A', 'a'}
  const SenderSecond: set<char> := {'G', 'g'}

  lemma DropSpacesCons(c: char, s: string)
    ensures DropSpaces([c] + s) == (if c == ' ' then [] else [c]) + DropSpaces(s)
  {
    assert ([c] + s)[1..] == s;
    assert OccursAt([c] + s, " ", 0) <==> c == ' ';
  }

  /** Lower-casing and dropping spaces commute, since only a space lower-cases to a space. */
  lemma {:induction false} LowerDropSpaces(s: string)
    ensures DropSpaces(Lower(s)) == Lower(DropSpaces(s))
    decreases |s|
  {
    if s != [] {
      var c, t := s[0], s[1..];
      var keep: string := if c == ' ' then [] else [c];
      LowerDropSpaces(t);
      assert s == [c] + t;
      DropSpacesCons(c, t);
      assert DropSpaces(s) == keep + DropSpaces(t);
      LowerAppend(keep, DropSpaces(t));
      assert Lower(s) == LowerChar(c) + Lower(t);
      DropSpacesAppend(LowerChar(c), Lower(t));
      LowerCharDropSpaces(c);
      assert DropSpaces(LowerChar(c)) == Lower(keep);
    }
  }

  lemma LowerCharDropSpaces(c: char)
    ensures DropSpaces(LowerChar(c)) == Lower(if c == ' ' then [] else [c])
  {
    assert Lower([c]) == LowerChar(c) + Lower([]);
    if c == 'İ' {
      DropSpacesCons('\U{307}', "");
      DropSpacesCons('i', "\U{307}");
      assert DropSpaces("") == "";
    } else if c == ' ' {
      DropSpacesCons(' ', "");
      assert DropSpaces("") == "";
    } else {
      assert LowerChar(c) == [Fold(c)] && Fold(c) != ' ';
      DropSpacesCons(Fold(c), "");
      assert [Fold(c)] + "" == [Fold(c)];
      assert DropSpaces("") == "";
    }
  }

  lemma {:induction false} DropSpacesAppend(a: string, b: string)
    ensures DropSpaces(a + b) == DropSpaces(a) + DropSpaces(b)
    decreases |a|
  {
    if a == [] {
      assert a + b == b;
    } else {
      DropSpacesCons(a[0], a[1..] + b);
      DropSpacesCons(a[0], a[1..]);
      assert a + b == [a[0]] + (a[1..] + b);
      assert a == [a[0]] + a[1..];
      DropSpacesAppend(a[1..], b);
    }
  }

  lemma {:induction false} LowerAppend(a: string, b: string)
    ensures Lower(a + b) == Lower(a) + Lower(b)
    decreases |a|
  {
    if a == [] {
      assert a + b == b;
    } else {
      assert (a + b)[1..] == a[1..] + b;
      LowerAppend(a[1..], b);
    }
  }

  /** A one- or two-character string whose lower case is `[x, y]` with plain ASCII/Turkish
      letters `x`, `y`, is two characters that fold to them. */
  lemma LowerIsPair(q: string, x: char, y: char)
    requires Lower(q) == [x, y] && x != 'i'
    ensures |q| == 2 && Fold(q[0]) == x && Fold(q[1]) == y
  {
    assert q != [];
    var t := q[1..];
    assert Lower(q) == LowerChar(q[0]) + Lower(t);
    assert q[0] != 'İ';
    assert LowerChar(q[0]) == [Fold(q[0])];
    assert Lower(t) == [y];
    assert t != [];
    assert Lower(t) == LowerChar(t[0]) + Lower(t[1..]);
    assert |t[1..]| <= |Lower(t[1..])| == 0;
  }

  /** Only these characters fold to the letters of the payer codes. */
  lemma FoldInverse(c: char)
    ensures Fold(c) == 'u' <==> c == 'U' || c == 'u'
    ensures Fold(c) == 'ü' <==> c == 'Ü' || c == 'ü'
    ensures Fold(c) == 'a' <==> c == 'A' || c == 'a'
    ensures Fold(c) == 'g' <==> c == 'G' || c == 'g'
  {
  }

  /** A stripped string that loses all but two characters to `replace(" ", "")` is
      those two characters with spaces between them. */
  lemma {:induction false} DropSpacesPair(r: string, x: char, y: char)
    requires DropSpaces(r) == [x, y] && |r| > 0 && r[0] != ' ' && r[|r| - 1] != ' '
    ensures |r| >= 2 && r[0] == x && r[|r| - 1] == y
    ensures forall k :: 0 < k < |r| - 1 ==> r[k] == ' '
  {
    DropSpacesCons(r[0], r[1..]);
    assert r == [r[0]] + r[1..];
    assert [r[0]] + DropSpaces(r[1..]) == [x, y];
    assert DropSpaces(r[1..]) == [x, y][1..] == [y];
    assert DropSpaces([]) == [];
    assert r[1..] != [];
    DropSpacesSingle(r[1..], y);
    assert forall k :: 0 < k < |r| - 1 ==> r[k] == r[1..][k - 1];
  }

  lemma {:induction false} DropSpacesSingle(t: string, y: char)
    requires DropSpaces(t) == [y] && |t| > 0 && t[|t| - 1] != ' '
    ensures t[|t| - 1] == y
    ensures forall k :: 0 <= k < |t| - 1 ==> t[k] == ' '
    decreases |t|
  {
    DropSpacesCons(t[0], t[1..]);
    assert t == [t[0]] + t[1..];
    if t[0] == ' ' {
      assert |t| > 1;
      DropSpacesSingle(t[1..], y);
      assert forall k :: 1 <= k < |t| - 1 ==> t[k] == t[1..][k - 1];
    } else {
      assert DropSpaces(t[1..]) == [];
      DropSpacesEmpty(t[1..]);
      assert |t| == 1;
    }
  }

  lemma {:induction false} DropSpacesEmpty(t: string)
    requires DropSpaces(t) == []
    ensures forall k :: 0 <= k < |t| ==> t[k] == ' '
    decreases |t|
  {
    if t != [] {
      DropSpacesCons(t[0], t[1..]);
      assert t == [t[0]] + t[1..];
      DropSpacesEmpty(t[1..]);
      assert forall k :: 1 <= k < |t| ==> t[k] == t[1..][k - 1];
    }
  }

  /** A letter, spaces, a letter: `replace(" ", "")` keeps the two letters. */
  lemma {:induction false} DropSpacesOfPair(r: string)
    requires |r| >= 2 && r[0] != ' ' && r[|r| - 1] != ' '
    requires forall k :: 0 < k < |r| - 1 ==> r[k] == ' '
    ensures DropSpaces(r) == [r[0], r[|r| - 1]]
  {
    DropSpacesCons(r[0], r[1..]);
    assert r == [r[0]] + r[1..];
    var m := r[1..|r| - 1];
    assert r[1..] == m + [r[|r| - 1]];
    DropSpacesAppend(m, [r[|r| - 1]]);
    DropSpacesCons(r[|r| - 1], []);
    assert [r[|r| - 1]] + [] == [r[|r| - 1]];
    assert DropSpaces([]) == [];
    AllSpacesDrop(m);
    assert DropSpaces(r[1..]) == [r[|r| - 1]];
  }

  lemma {:induction false} AllSpacesDrop(m: string)
    requires forall k :: 0 <= k < |m| ==> m[k] == ' '
    ensures DropSpaces(m) == []
    decreases |m|
  {
    if m != [] {
      DropSpacesCons(m[0], m[1..]);
      assert m == [m[0]] + m[1..];
      AllSpacesDrop(m[1..]);
    }
  }

  /** The folded, despaced token equals the two-letter code `[x, y]` exactly when the
      stripped token is a letter folding to `x`, spaces, and a letter folding to `y`. */
  lemma NormalizedPair(s: string, x: char, y: char)
    requires x == 'u' || x == 'ü'
    requires y == 'a' || y == 'g'
    ensures DropSpaces(Lower(Strip(s))) == [x, y] <==>
      && |Strip(s)| >= 2 && Fold(Strip(s)[0]) == x && Fold(Strip(s)[|Strip(s)| - 1]) == y
      && forall k :: 0 < k < |Strip(s)| - 1 ==> Strip(s)[k] == ' '
  {
    PairFromNormalized(Strip(s), x, y);
    NormalizedFromPair(Strip(s), x, y);
  }

  lemma PairFromNormalized(r: string, x: char, y: char)
    requires IsStripped(r)
    requires x == 'u' || x == 'ü'
    requires y == 'a' || y == 'g'
    ensures DropSpaces(Lower(r)) == [x, y] ==>
      && |r| >= 2 && Fold(r[0]) == x && Fold(r[|r| - 1]) == y
      && forall k :: 0 < k < |r| - 1 ==> r[k] == ' '
  {
    LowerDropSpaces(r);
    FoldInverse(x);
    if DropSpaces(Lower(r)) == [x, y] {
      LowerIsPair(DropSpaces(r), x, y);
      var q := DropSpaces(r);
      assert r != [] by {
        assert Lower(DropSpaces([])) == [];
      }
      DropSpacesPair(r, q[0], q[1]);
    }
  }

  lemma NormalizedFromPair(r: string, x: char, y: char)
    requires x == 'u' || x == 'ü'
    requires y == 'a' || y == 'g'
    ensures (&& |r| >= 2 && Fold(r[0]) == x && Fold(r[|r| - 1]) == y
             && forall k :: 0 < k < |r| - 1 ==> r[k] == ' ') ==> DropSpaces(Lower(r)) == [x, y]
  {
    if |r| >= 2 && Fold(r[0]) == x && Fold(r[|r| - 1]) == y && forall k :: 0 < k < |r| - 1 ==> r[k] == ' ' {
      LowerDropSpaces(r);
      FoldInverse(r[0]);
      FoldInverse(r[|r| - 1]);
      DropSpacesOfPair(r);
      LowerOfPair(r[0], r[|r| - 1]);
    }
  }

  /** Two characters other than `İ` lower-case one by one. */
  lemma LowerOfPair(a: char, b: char)
    requires a != 'İ' && b != 'İ'
    ensures Lower([a, b]) == [Fold(a), Fold(b)]
  {
    assert [a, b][1..] == [b];
    assert [b][1..] == [];
    assert Lower([b]) == [Fold(b)] + Lower([]);
  }

  lemma PairFolds(r: string)
    ensures |r| >= 2 ==> (Fold(r[0]) == 'u' || Fold(r[0]) == 'ü' <==> r[0] in ReceiverFirst)
    ensures |r| >= 2 ==> (Fold(r[|r| - 1]) == 'a' <==> r[|r| - 1] in ReceiverSecond)
    ensures |r| >= 2 ==> (Fold(r[|r| - 1]) == 'g' <==> r[|r| - 1] in SenderSecond)
  {
    if |r| >= 2 {
      FoldInverse(r[0]);
      FoldInverse(r[|r| - 1]);
    }
  }

  /** The canonical codes normalise to themselves. */
  lemma NormalizeCode(p: Payer)
    ensures NormalizePayToken(Str(p.Code())) == Some(p)
  {
    var c := p.Code();
    StripStripped(c);
  }

  /** The normalisation table: the eight spellings of the two codes, and three values
      that are neither. */
  lemma NormalizeTable()
    ensures forall t :: t in ["ÜA", "üa", "UA", "ua"] ==> NormalizePayToken(Str(t)) == Some(ReceiverPays)
    ensures forall t :: t in ["ÜG", "üg", "UG", "ug"] ==> NormalizePayToken(Str(t)) == Some(SenderPays)
    ensures NormalizePayToken(Str("")) == None
    ensures NormalizePayToken(Str("xyz")) == None
    ensures NormalizePayToken(NotAString) == None
  {
    forall t | t in ["ÜA", "üa", "UA", "ua"] ensures NormalizePayToken(Str(t)) == Some(ReceiverPays) {
      NormalizeTwoLetters(t);
    }
    forall t | t in ["ÜG", "üg", "UG", "ug"] ensures NormalizePayToken(Str(t)) == Some(SenderPays) {
      NormalizeTwoLetters(t);
    }
    NormalizeOther("");
    NormalizeOther("xyz");
  }

  /** A bare two-letter code normalises by its letters. */
  lemma NormalizeTwoLetters(t: string)
    requires |t| == 2 && t[0] in ReceiverFirst && t[1] in ReceiverSecond + SenderSecond
    ensures NormalizePayToken(Str(t)) == Some(if t[1] in ReceiverSecond then ReceiverPays else SenderPays)
  {
    assert IsStripped(t);
    StripStripped(t);
  }

  /** A stripped token that does not start with a letter of the codes gives None. */
  lemma NormalizeOther(t: string)
    requires IsStripped(t) && (t == [] || t[0] !in ReceiverFirst)
    ensures NormalizePayToken(Str(t)) == None
  {
    StripStripped(t);
  }
}
