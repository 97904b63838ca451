/** The shipment segmenter: `re.split(r'(?=\d{2}\.\d{2}\.\d{4})', raw)` followed by
    `[s.strip() for s in shipments if s.strip()]` (index.py, lines 145-146). */
module Segmenter {
  import opened Chars
  import opened Strings
  import opened Seqs

  /** `\d{2}\.\d{2}\.\d{4}` matches at position `p` (anywhere, not only at a line start). */
  predicate DateAt(s: string, p: nat) {
    && p + 10 <= |s|
    && IsDigit(s[p]) && IsDigit(s[p + 1]) && s[p + 2] == '.'
    && IsDigit(s[p + 3]) && IsDigit(s[p + 4]) && s[p + 5] == '.'
    && IsDigit(s[p + 6]) && IsDigit(s[p + 7]) && IsDigit(s[p + 8]) && IsDigit(s[p + 9])
  }

  /** The scan of `re.split` with a zero-width look-ahead: the current piece began at
      `start`, position `i` is examined next, and every position where a date begins
      closes the current piece (a date at position 0 yields an empty first piece). */
  function SplitFrom(s: string, start: nat, i: nat): (ps: seq<string>)
    requires start <= i <= |s|
    ensures |ps| >= 1
    decreases |s| - i
  {
    if i == |s| then [s[start..]]
    else if DateAt(s, i) then [s[start..i]] + SplitFrom(s, i, i + 1)
    else SplitFrom(s, start, i + 1)
  }

  /** The pieces of `re.split(r'(?=\d{2}\.\d{2}\.\d{4})', s)`: nothing is lost
      (the pieces put `s` back together) and there is one piece more than there are
      positions where a date begins. */
  function SplitBeforeDates(s: string): (ps: seq<string>)
    ensures Concat(ps) == s
    ensures |ps| == 1 + CountDates(s, 0)
  {
    SplitFromConcat(s, 0, 0);
    SplitFrom(s, 0, 0)
  }

  function Concat(ps: seq<string>): string
    decreases |ps|
  {
    if ps == [] then [] else ps[0] + Concat(ps[1..])
  }

  predicate NonEmpty(s: string) {
    s != []
  }

  /** The shipment blocks: the stripped pieces that are not blank. Each block is
      non-empty and stripped, and there are at most as many as there are pieces. */
  function Blocks(s: string): (bs: seq<string>)
    ensures |bs| <= 1 + CountDates(s, 0)
    ensures forall k :: 0 <= k < |bs| ==> bs[k] != [] && IsStripped(bs[k])
  {
    var ps := SplitBeforeDates(s);
    FilterMapImages(ps, Strip, NonEmpty, 0);
    FilterMap(ps, Strip, NonEmpty)
  }

  /** Number of positions at or after `i` where a date begins. */
  function CountDates(s: string, i: nat): nat
    requires i <= |s|
    decreases |s| - i
  {
    if i == |s| then 0 else (if DateAt(s, i) then 1 else 0) + CountDates(s, i + 1)
  }

  /** Where piece `k` begins in the concatenation of `ps`. */
  function Offset(ps: seq<string>, k: nat): nat
    requires k <= |ps|
  {
    |Concat(ps[..k])|
  }

  /** No date begins strictly between `lo` and `hi`. */
  predicate NoDateBetween(s: string, lo: nat, hi: nat) {
    forall p :: lo < p < hi ==> !DateAt(s, p)
  }

  /** No date begins strictly inside piece `k` of `ps`, which is placed at `base` in `s`. */
  predicate InnerDateFree(s: string, base: nat, ps: seq<string>, k: nat)
    requires k < |ps|
  {
    NoDateBetween(s, base + Offset(ps, k), base + Offset(ps, k) + |ps[k]|)
  }

  lemma OffsetCons(x: string, ps: seq<string>, k: nat)
    requires 1 <= k <= |ps| + 1
    ensures Offset([x] + ps, k) == |x| + Offset(ps, k - 1)
  {
    assert ([x] + ps)[..k] == [x] + ps[..k - 1];
    assert ([x] + ps[..k - 1])[1..] == ps[..k - 1];
  }

  /** The scan's pieces put the input back together, and there is one more piece than
      there are dates ahead of the scan. */
  lemma {:induction false} SplitFromConcat(s: string, start: nat, i: nat)
    requires start <= i <= |s|
    ensures var ps := SplitFrom(s, start, i);
      && Concat(ps) == s[start..]
      && i - start <= |ps[0]| && ps[0] == s[start..start + |ps[0]|]
      && |ps| == 1 + CountDates(s, i)
    decreases |s| - i
  {
    var ps := SplitFrom(s, start, i);
    if i == |s| {
      assert ps == [s[start..]];
      assert Concat(ps) == s[start..] + Concat([]);
    } else if DateAt(s, i) {
      var qs := SplitFrom(s, i, i + 1);
      SplitFromConcat(s, i, i + 1);
      assert ps == [s[start..i]] + qs;
      assert Concat(ps) == s[start..i] + Concat(qs);
      assert s[start..] == s[start..i] + s[i..];
    } else {
      SplitFromConcat(s, start, i + 1);
    }
  }

  /** Every piece after the first begins where a date begins. */
  lemma {:induction false} SplitFromStarts(s: string, start: nat, i: nat)
    requires start <= i <= |s|
    ensures forall k :: 1 <= k < |SplitFrom(s, start, i)| ==>
      var ps := SplitFrom(s, start, i);
      |ps[k]| > 0 && DateAt(s, start + Offset(ps, k)) && IsDigit(ps[k][0])
    decreases |s| - i
  {
    var ps := SplitFrom(s, start, i);
    if i < |s| && DateAt(s, i) {
      var qs := SplitFrom(s, i, i + 1);
      SplitFromStarts(s, i, i + 1);
      SplitFromConcat(s, i, i + 1);
      var x := s[start..i];
      assert ps == [x] + qs;
      assert qs[0][0] == s[i];
      assert Offset(qs, 0) == 0;
      forall k | 1 <= k < |ps|
        ensures start + Offset(ps, k) == i + Offset(qs, k - 1) && ps[k] == qs[k - 1]
      {
        OffsetCons(x, qs, k);
      }
    } else if i < |s| {
      assert ps == SplitFrom(s, start, i + 1);
      SplitFromStarts(s, start, i + 1);
    }
  }

  /** No date begins strictly inside a piece. */
  lemma {:induction false} SplitFromInside(s: string, start: nat, i: nat)
    requires start <= i <= |s|
    requires NoDateBetween(s, start, i)
    ensures forall k :: 0 <= k < |SplitFrom(s, start, i)| ==> InnerDateFree(s, start, SplitFrom(s, start, i), k)
    decreases |s| - i
  {
    var ps := SplitFrom(s, start, i);
    assert Offset(ps, 0) == 0;
    if i == |s| {
      assert ps == [s[start..]];
    } else if DateAt(s, i) {
      var qs := SplitFrom(s, i, i + 1);
      SplitFromInside(s, i, i + 1);
      assert forall k :: 0 <= k < |qs| ==> InnerDateFree(s, i, qs, k);
      var x := s[start..i];
      assert ps == [x] + qs;
      assert |ps[0]| == i - start;
      forall k | 0 <= k < |ps|
        ensures InnerDateFree(s, start, ps, k)
      {
        if k > 0 {
          OffsetCons(x, qs, k);
          assert ps[k] == qs[k - 1];
          assert 0 <= k - 1 < |qs|;
          assert InnerDateFree(s, i, qs, k - 1);
        }
      }
    } else {
      assert ps == SplitFrom(s, start, i + 1);
      assert NoDateBetween(s, start, i + 1);
      SplitFromInside(s, start, i + 1);
    }
  }

  /** Properties of the split pieces of the whole input. */
  lemma SplitSpec(s: string)
    ensures Concat(SplitBeforeDates(s)) == s
    ensures |SplitBeforeDates(s)| == 1 + CountDates(s, 0)
    ensures |SplitBeforeDates(s)[0]| > 0 ==> !DateAt(s, 0)
    ensures forall k :: 1 <= k < |SplitBeforeDates(s)| ==>
      var ps := SplitBeforeDates(s);
      |ps[k]| > 0 && DateAt(s, Offset(ps, k)) && IsDigit(ps[k][0])
    ensures forall k :: 0 <= k < |SplitBeforeDates(s)| ==> InnerDateFree(s, 0, SplitBeforeDates(s), k)
  {
    SplitFromConcat(s, 0, 0);
    SplitFromStarts(s, 0, 0);
    SplitFromInside(s, 0, 0);
  }

  /** Each position of the concatenation falls inside exactly one piece. */
  lemma {:induction false} PieceContaining(ps: seq<string>, p: nat) returns (k: nat, j: nat)
    requires p < |Concat(ps)|
    ensures k < |ps| && j < |ps[k]| && Offset(ps, k) + j == p
    decreases |ps|
  {
    assert ps != [];
    assert Concat(ps) == ps[0] + Concat(ps[1..]);
    assert Offset(ps, 0) == 0;
    if p < |ps[0]| {
      k, j := 0, p;
    } else {
      var k', j' := PieceContaining(ps[1..], p - |ps[0]|);
      OffsetCons(ps[0], ps[1..], k' + 1);
      assert [ps[0]] + ps[1..] == ps;
      k, j := k' + 1, j';
    }
  }

  /** Every date position is where a piece begins, so the split points are exactly the
      positions where a date begins. */
  lemma EveryDateStartsAPiece(s: string, p: nat) returns (k: nat)
    requires DateAt(s, p)
    ensures k < |SplitBeforeDates(s)| && Offset(SplitBeforeDates(s), k) == p
  {
    var ps := SplitBeforeDates(s);
    SplitSpec(s);
    var j;
    k, j := PieceContaining(ps, p);
    assert InnerDateFree(s, 0, ps, k);
    assert NoDateBetween(s, Offset(ps, k), Offset(ps, k) + |ps[k]|);
  }

  /** The blocks are non-empty and stripped, each is the stripped form of one piece,
      they keep the pieces' order, and a piece is dropped exactly when it is blank. */
  lemma BlocksSpec(s: string)
    ensures var ps := SplitBeforeDates(s); var bs := Blocks(s);
      var idx := KeptIndices(ps, Strip, NonEmpty, 0);
      && |idx| == |bs|
      && StrictlyIncreasing(idx)
      && (forall k :: 0 <= k < |bs| ==> bs[k] != [] && IsStripped(bs[k]) && idx[k] < |ps| && bs[k] == Strip(ps[idx[k]]))
      && (forall j :: 0 <= j < |ps| ==> (Strip(ps[j]) != [] <==> j in idx))
  {
    var ps := SplitBeforeDates(s);
    FilterMapImages(ps, Strip, NonEmpty, 0);
    KeptIndicesOrdered(ps, Strip, NonEmpty, 0);
    KeptIndicesComplete(ps, Strip, NonEmpty, 0);
  }

  /** The number of blocks is the number of date positions, plus one when the text
      before the first date is not blank. */
  lemma {:induction false} BlockCount(s: string)
    ensures |Blocks(s)| == CountDates(s, 0) + (if Strip(SplitBeforeDates(s)[0]) == [] then 0 else 1)
  {
    var ps := SplitBeforeDates(s);
    SplitSpec(s);
    forall k | 0 <= k < |ps[1..]| ensures NonEmpty(Strip(ps[1..][k])) {
      assert ps[1..][k] == ps[k + 1];
      StripKeeps(ps[k + 1], 0);
    }
    FilterMapAllKept(ps[1..], Strip, NonEmpty);
    assert ps == [ps[0]] + ps[1..];
  }

  /** Empty input yields no blocks. */
  lemma BlocksEmpty()
    ensures Blocks("") == []
  {
    assert SplitBeforeDates("") == [""];
    assert Strip("") == [];
  }

  /** Input without any date yields at most one block. */
  lemma NoDateAtMostOneBlock(s: string)
    requires forall p: nat :: !DateAt(s, p)
    ensures |Blocks(s)| <= 1
  {
    BlockCount(s);
    NoDatesCount(s, 0);
  }

  lemma {:induction false} NoDatesCount(s: string, i: nat)
    requires i <= |s|
    requires forall p: nat :: !DateAt(s, p)
    ensures CountDates(s, i) == 0
    decreases |s| - i
  {
    if i < |s| {
      NoDatesCount(s, i + 1);
    }
  }
}
