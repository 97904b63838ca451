/** The payer chosen for each row (index.py, lines 208-216): the radio button starts
    on ÜG exactly when the parsed payer is ÜG, the user may pick the other option,
    and the row's `final_pay` is "ÜA" when the picked label contains "ÜA" and "ÜG"
    otherwise. The user's pick is a parameter of the model. */
module FinalPay {
  import opened Strings
  import opened Wrappers
  import opened PayToken
  import opened Parser

  /** The labels of the radio button, in their order on screen. */
  const PayOptions: seq<string> := ["ÜA (Ücret Alıcı)", "ÜG (Ücret Gönderici)"]

  /** `default_index`: the ÜG label when the parsed payer is ÜG, the ÜA label otherwise,
      including when no payer was parsed. */
  function DefaultIndex(parsed: Option<Payer>): (i: nat)
    ensures i < |PayOptions|
    ensures i == 1 <==> parsed == Some(SenderPays)
  {
    if parsed == Some(SenderPays) then 1 else 0
  }

  /** `"ÜA" if "ÜA" in pay_opt else "ÜG"`. */
  function PayOfLabel(opt: string): (p: Payer)
    ensures p == ReceiverPays <==> Occurs(opt, "ÜA")
  {
    if Contains(opt, "ÜA") then ReceiverPays else SenderPays
  }

  /** A label without the letter `A` cannot contain "ÜA". */
  lemma NoAMeansNoReceiver(opt: string)
    requires 'A' !in opt
    ensures !Occurs(opt, "ÜA")
  {
    forall i: nat ensures !OccursAt(opt, "ÜA", i) {
      if i + 2 <= |opt| {
        assert opt[i..i + 2][1] == opt[i + 1];
      }
    }
  }

  /** The first label gives ÜA and the second ÜG: each label stands for its payer. */
  lemma LabelsNamePayers()
    ensures PayOfLabel(PayOptions[0]) == ReceiverPays
    ensures PayOfLabel(PayOptions[1]) == SenderPays
  {
    assert OccursAt(PayOptions[0], "ÜA", 0);
    NoAMeansNoReceiver(PayOptions[1]);
  }

  /** The payer of the label at index `i`. */
  lemma PayOfOption(i: nat)
    requires i < |PayOptions|
    ensures PayOfLabel(PayOptions[i]) == (if i == 0 then ReceiverPays else SenderPays)
  {
    LabelsNamePayers();
  }

  /** The label the radio button returns: the user's pick, or the default one when the
      user leaves it alone. */
  function Selected(parsed: Option<Payer>, pick: Option<nat>): (i: nat)
    requires pick.Some? ==> pick.value < |PayOptions|
    ensures i < |PayOptions|
    ensures pick.Some? ==> i == pick.value
  {
    match pick
    case Some(k) => k
    case None => DefaultIndex(parsed)
  }

  /** `final_pay` of a row. Left alone, it is the parsed payer, and ÜA when none was
      parsed; so it is ÜG exactly when the parsed payer is ÜG. A pick of the first
      label gives ÜA and of the second ÜG. */
  function FinalPayOf(parsed: Option<Payer>, pick: Option<nat>): (p: Payer)
    requires pick.Some? ==> pick.value < |PayOptions|
    ensures pick.None? ==> (p == SenderPays <==> parsed == Some(SenderPays))
    ensures pick.None? && parsed.Some? ==> p == parsed.value
    ensures pick.None? && parsed.None? ==> p == ReceiverPays
    ensures pick.Some? ==> p == (if pick.value == 0 then ReceiverPays else SenderPays)
  {
    var i := Selected(parsed, pick);
    PayOfOption(i);
    PayOfLabel(PayOptions[i])
  }

  /** A row with its `final_pay` set and its other fields as they were. */
  function Chosen(r: Row, pick: Option<nat>): (c: Row)
    requires pick.Some? ==> pick.value < |PayOptions|
    ensures c.finalPay.Some? && c.(finalPay := r.finalPay) == r
  {
    r.(finalPay := Some(FinalPayOf(r.parsedPay, pick)))
  }

  /** The loop over the rows, writing `final_pay` into each row in place; `picks[k]`
      is what the user did with the radio button of row `k`. Nothing but `finalPay`
      changes, and after the loop every row has one. */
  method AssignFinalPay(rows: array<Row>, picks: seq<Option<nat>>)
    requires |picks| == rows.Length
    requires forall k :: 0 <= k < |picks| && picks[k].Some? ==> picks[k].value < |PayOptions|
    modifies rows
    ensures forall k :: 0 <= k < rows.Length ==> rows[k] == Chosen(old(rows[k]), picks[k])
    ensures forall k :: 0 <= k < rows.Length ==> rows[k].finalPay.Some?
  {
    var i := 0;
    while i < rows.Length
      invariant 0 <= i <= rows.Length
      invariant forall k :: 0 <= k < i ==> rows[k] == Chosen(old(rows[k]), picks[k])
      invariant forall k :: i <= k < rows.Length ==> rows[k] == old(rows[k])
    {
      rows[i] := Chosen(rows[i], picks[i]);
      i := i + 1;
    }
  }
}
