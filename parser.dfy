/** The shipment parser (index.py, lines 142-197): the pasted text is cut into blocks,
    five passes run over a working copy of each block, and a row is kept for every
    block in which a name was found. */
module Parser {
  import opened Chars
  import opened Strings
  import opened Seqs
  import opened Wrappers
  import opened Segmenter
  import opened PayToken
  import opened Phone
  import opened Payment
  import opened Address
  import opened Name
  import opened Fallback

  /** What the passes extract from one block. */
  datatype Fields = Fields(name: string, address: string, phone: string, payment: string)

  /** One parsed recipient; `finalPay` is set once the payer is chosen. */
  datatype Row = Row(name: string, address: string, phone: string, parsedPay: Option<Payer>, finalPay: Option<Payer>)

  /** The five passes over one block, each working on the copy the previous one left.
      The name is empty or a stripped run starting with a capital, the phone empty or a
      phone number, the payment "", "ÜA" or "ÜG", and the address stripped. */
  function Extract(block: string): (f: Fields)
    ensures f.name == "" || (IsStripped(f.name) && IsNameUpper(f.name[0]))
    ensures f.phone == "" || IsPhone(f.phone)
    ensures f.payment == "" || f.payment == "ÜA" || f.payment == "ÜG"
    ensures IsStripped(f.address)
  {
    var p := PhonePass(block);
    var q := PaymentPass(p.rest);
    var a := AddressPass(q.rest);
    var n := NamePass(a.rest);
    Fields(n.value, if a.value == "" then FallbackAddress(n.rest) else a.value, p.value, q.value)
  }

  /** The row of a block, before the payer is chosen: the parsed payer is ÜA or ÜG
      as the payment says, and none when the block holds no payer token. */
  function RowOf(block: string): (r: Row)
    ensures r.finalPay == None
    ensures r.parsedPay == None <==> Extract(block).payment == ""
    ensures r.parsedPay == Some(ReceiverPays) <==> Extract(block).payment == "ÜA"
  {
    var f := Extract(block);
    PaymentParsed(PhonePass(block).rest);
    Row(f.name, f.address, f.phone, NormalizePayToken(Str(f.payment)), None)
  }

  predicate HasName(r: Row) {
    r.name != ""
  }

  /** The rows parsed from the pasted text. Every row has a name and no final payer
      yet, and there is at most one row per block. */
  function Rows(raw: string): (rs: seq<Row>)
    ensures |rs| <= |Blocks(raw)|
    ensures forall k :: 0 <= k < |rs| ==> rs[k].name != "" && rs[k].finalPay == None
  {
    if raw == "" then []
    else
      FilterMapImages(Blocks(raw), RowOf, HasName, 0);
      FilterMap(Blocks(raw), RowOf, HasName)
  }

  /** One iteration of the parsing loop: the passes rewrite `temp` one after another,
      the fallback address is used when the keyword pass found none, and the row is
      to be kept when a name was found. */
  method ParseBlock(block: string) returns (row: Row, keep: bool)
    ensures row == RowOf(block)
    ensures keep <==> row.name != ""
  {
    var temp := block;
    var name, address, phone, payment := "", "", "", "";
    var found := PhonePass(temp);
    phone, temp := found.value, found.rest;
    found := PaymentPass(temp);
    payment, temp := found.value, found.rest;
    found := AddressPass(temp);
    address, temp := found.value, found.rest;
    found := NamePass(temp);
    name, temp := found.value, found.rest;
    if address == "" {
      address := FallbackAddress(temp);
    }
    row := Row(name, address, phone, NormalizePayToken(Str(payment)), None);
    keep := name != "";
  }

  /** The parsing loop over the blocks, appending a row for each block with a name. */
  method ParseShipments(shipments: seq<string>) returns (rows: seq<Row>)
    ensures rows == FilterMap(shipments, RowOf, HasName)
  {
    rows := [];
    var i := 0;
    while i < |shipments|
      invariant 0 <= i <= |shipments|
      invariant rows == FilterMap(shipments[..i], RowOf, HasName)
    {
      var row, keep := ParseBlock(shipments[i]);
      KeepStep(shipments, i, rows, row, keep);
      if keep {
        rows := rows + [row];
      }
      i := i + 1;
    }
    assert shipments[..i] == shipments;
  }

  /** Appending the row of block `i` when it is kept extends the rows of the first
      `i` blocks to those of the first `i + 1`. */
  lemma KeepStep(shipments: seq<string>, i: nat, rows: seq<Row>, row: Row, keep: bool)
    requires i < |shipments| && rows == FilterMap(shipments[..i], RowOf, HasName)
    requires row == RowOf(shipments[i]) && (keep <==> row.name != "")
    ensures (if keep then rows + [row] else rows) == FilterMap(shipments[..i + 1], RowOf, HasName)
  {
    FilterMapPrefix(shipments, i, RowOf, HasName);
  }

  /** The parser: nothing for empty input, otherwise the blocks run through the loop. */
  method ParseRows(raw: string) returns (rows: seq<Row>)
    ensures rows == Rows(raw)
  {
    rows := [];
    if raw != "" {
      var shipments := Blocks(raw);
      rows := ParseShipments(shipments);
    }
  }

  /** A row is kept for a block exactly when a name was found in it, and the rows
      follow the order of the blocks. */
  lemma RowsFollowBlocks(raw: string)
    ensures |KeptIndices(Blocks(raw), RowOf, HasName, 0)| == |Rows(raw)|
    ensures StrictlyIncreasing(KeptIndices(Blocks(raw), RowOf, HasName, 0))
    ensures forall k :: 0 <= k < |Rows(raw)| ==>
      KeptIndices(Blocks(raw), RowOf, HasName, 0)[k] < |Blocks(raw)|
      && Rows(raw)[k] == RowOf(Blocks(raw)[KeptIndices(Blocks(raw), RowOf, HasName, 0)[k]])
    ensures forall j :: 0 <= j < |Blocks(raw)| ==>
      (RowOf(Blocks(raw)[j]).name != "" <==> j in KeptIndices(Blocks(raw), RowOf, HasName, 0))
  {
    var bs := Blocks(raw);
    if raw == "" {
      BlocksEmpty();
      assert bs == [] && Rows(raw) == [];
      assert KeptIndices(bs, RowOf, HasName, 0) == [];
    } else {
      assert Rows(raw) == FilterMap(bs, RowOf, HasName);
      FilterMapImages(bs, RowOf, HasName, 0);
      KeptIndicesOrdered(bs, RowOf, HasName, 0);
      KeptIndicesComplete(bs, RowOf, HasName, 0);
    }
  }

  /** Empty input yields no rows. */
  lemma RowsEmpty()
    ensures Rows("") == []
  {
  }

  /** Every row has a name: non-empty, stripped, starting with a capital from A-Z or
      ĞÜŞİÖÇ. Its phone is empty or a phone number, its payer comes from the payer
      pass, and its address is stripped: the keyword address when one was found, and
      otherwise the single-spaced fallback text. */
  lemma RowFields(block: string)
    ensures var r := RowOf(block);
      r.name != "" ==> IsStripped(r.name) && IsNameUpper(r.name[0])
    ensures RowOf(block).phone == "" || IsPhone(RowOf(block).phone)
    ensures RowOf(block).parsedPay == None <==> forall j: nat :: !PayTokenAt(PhonePass(block).rest, j)
    ensures IsStripped(RowOf(block).address)
    ensures AddressPass(PaymentPass(PhonePass(block).rest).rest).value != "" ==>
      ContainsKeyword(RowOf(block).address)
    ensures AddressPass(PaymentPass(PhonePass(block).rest).rest).value == "" ==>
      NoDoubleSpace(RowOf(block).address)
  {
    var p := PhonePass(block);
    var q := PaymentPass(p.rest);
    var a := AddressPass(q.rest);
    var n := NamePass(a.rest);
    if n.value != "" {
      var m := NamePassFound(a.rest);
      NameInShape(a.rest[..m], a.rest);
    }
    if p.value != "" {
      var i := PhonePassFound(block);
    }
    PaymentParsed(p.rest);
    if a.value != "" {
      var x, k, y := AddressPassFound(q.rest);
    }
  }
}
