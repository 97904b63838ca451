/** The payer pass (index.py, lines 158-163):
    `re.search(r'\b(ÜA|UA|ÜG|UG)\b', block, re.IGNORECASE)`, the token upper-cased with
    `U` turned into `Ü`, and every occurrence of the token replaced by a space. */
module Payment {
  import opened Chars
  import opened Strings
  import opened Extraction
  import opened Wrappers
  import opened PayToken

  /** `\b` at position `p`: a word character on exactly one side. */
  predicate WordBoundary(s: string, p: nat)
    requires p <= |s|
  {
    (p > 0 && IsWordChar(s[p - 1])) != (p < |s| && IsWordChar(s[p]))
  }

  /** `\b(ÜA|UA|ÜG|UG)\b` matches at `i`. */
  predicate PayTokenAt(s: string, i: nat) {
    && i + 2 <= |s|
    && WordBoundary(s, i)
    && (FoldMatch(s, i, "ÜA") || FoldMatch(s, i, "UA") || FoldMatch(s, i, "ÜG") || FoldMatch(s, i, "UG"))
    && WordBoundary(s, i + 2)
  }

  /** The same match, spelled out: one of Ü ü U u, then one of A a G g, with no word
      character right before or right after. */
  lemma PayTokenAtIff(s: string, i: nat)
    requires i + 2 <= |s|
    ensures PayTokenAt(s, i) <==>
      && s[i] in ReceiverFirst && s[i + 1] in {'A', 'a', 'G', 'g'}
      && (i == 0 || !IsWordChar(s[i - 1]))
      && (i + 2 == |s| || !IsWordChar(s[i + 2]))
  {
    FoldInverse(s[i]);
    FoldInverse(s[i + 1]);
    FoldMatchPair(s, i, "ÜA");
    FoldMatchPair(s, i, "UA");
    FoldMatchPair(s, i, "ÜG");
    FoldMatchPair(s, i, "UG");
  }

  /** The leftmost token at or after `i`. */
  function PaySearch(s: string, i: nat): (r: Option<nat>)
    requires i <= |s|
    ensures r.Some? ==> i <= r.value && PayTokenAt(s, r.value)
    ensures r.Some? ==> forall j: nat :: i <= j < r.value ==> !PayTokenAt(s, j)
    ensures r.None? ==> forall j: nat :: i <= j ==> !PayTokenAt(s, j)
    decreases |s| - i
  {
    if PayTokenAt(s, i) then Some(i)
    else if i == |s| then None
    else PaySearch(s, i + 1)
  }

  /** `str.upper()`. */
  function Upper(s: string): (r: string)
    ensures |r| == |s|
    decreases |s|
  {
    if s == [] then [] else [UpperChar(s[0])] + Upper(s[1..])
  }

  /** `group(1).upper().replace('U', 'Ü')`. */
  function PaymentCode(token: string): string {
    ReplaceAll(Upper(token), "U", "Ü")
  }

  /** The payer pass. What it takes is "ÜA" or "ÜG" when the block holds a token, and
      "" when it holds none, and then the copy is the block itself. */
  function PaymentPass(block: string): (t: Taken)
    ensures t.value == "" || t.value == "ÜA" || t.value == "ÜG"
    ensures t.value == "" <==> forall j: nat :: !PayTokenAt(block, j)
    ensures t.value == "" ==> t.rest == block
  {
    match PaySearch(block, 0)
    case None => Taken("", block)
    case Some(i) =>
      var token := block[i..i + 2];
      PayTokenAtIff(block, i);
      PaymentCodeOf(token);
      Taken(PaymentCode(token), ReplaceAll(block, token, " "))
  }

  /** Nothing but ÜA or ÜG comes out of a matched token, by its second letter. */
  lemma PaymentCodeOf(token: string)
    requires |token| == 2 && token[0] in ReceiverFirst && token[1] in {'A', 'a', 'G', 'g'}
    ensures PaymentCode(token) == (if token[1] in ReceiverSecond then "ÜA" else "ÜG")
  {
    var u := Upper(token);
    assert Upper(token[1..]) == [UpperChar(token[1])] + Upper([]);
    assert u == [UpperChar(token[0]), UpperChar(token[1])];
    assert u[1..] == [u[1]];
    assert [u[1]][1..] == [];
    assert OccursAt(u, "U", 0) <==> u[0] == 'U';
    assert !OccursAt([u[1]], "U", 0);
    assert ReplaceAll([u[1]], "U", "Ü") == [u[1]] + ReplaceAll([], "U", "Ü") == [u[1]];
    assert ReplaceAll(u, "U", "Ü") == (if u[0] == 'U' then "Ü" else [u[0]]) + ReplaceAll(u[1..], "U", "Ü");
  }

  /** The payment is "ÜA" or "ÜG" exactly when a token is present, "ÜA" for a token
      ending in A or a and "ÜG" for one ending in G or g; the copy loses every
      occurrence of the token, inside other words too. */
  lemma PaymentPassFound(block: string) returns (i: nat)
    requires exists j: nat :: PayTokenAt(block, j)
    ensures PayTokenAt(block, i) && forall j: nat :: j < i ==> !PayTokenAt(block, j)
    ensures PaymentPass(block).value == (if block[i + 1] in ReceiverSecond then "ÜA" else "ÜG")
    ensures PaymentPass(block).rest == ReplaceAll(block, block[i..i + 2], " ")
    ensures !Occurs(PaymentPass(block).rest, block[i..i + 2])
  {
    i := PaySearch(block, 0).value;
    PayTokenAtIff(block, i);
    PaymentCodeOf(block[i..i + 2]);
    ReplaceSpaceRemovesAll(block, block[i..i + 2]);
  }

  /** No token: the payment is empty and the copy is unchanged. */
  lemma PaymentPassNone(block: string)
    requires forall j: nat :: !PayTokenAt(block, j)
    ensures PaymentPass(block) == Taken("", block)
  {
  }

  /** The payment is always "", "ÜA" or "ÜG", and `normalize_pay_token` of it gives the
      matching payer, or nothing for "". */
  lemma PaymentParsed(block: string)
    ensures var p := PaymentPass(block).value;
      && (p == "" || p == "ÜA" || p == "ÜG")
      && NormalizePayToken(Str(p)) == (if p == "ÜA" then Some(ReceiverPays) else if p == "ÜG" then Some(SenderPays) else None)
    ensures PaymentPass(block).value == "" <==> forall j: nat :: !PayTokenAt(block, j)
  {
    var p := PaymentPass(block).value;
    if PaySearch(block, 0).Some? {
      var i := PaymentPassFound(block);
      if p == "ÜA" {
        NormalizeCode(ReceiverPays);
      } else {
        NormalizeCode(SenderPays);
      }
    } else {
      StripStripped("");
      assert Lower("") == "";
      assert DropSpaces("") == "";
    }
  }
}
