/**
 * The two record shapes the engine reads (bank transactions and invoice or
 * receipt attachments) and the two field extractors of src/match.py.
 */
module Records {
  import opened Wrappers

  /** A bank transaction; `amount` is in cents and a missing one reads as 0. */
  datatype Transaction = Transaction(
    reference: Option<string>,
    amount: Option<int>,
    date: Option<string>,
    contact: Option<string>)

  /** The `data` record of an attachment; a missing `total_amount` reads as 0. */
  datatype AttachmentData = AttachmentData(
    reference: Option<string>,
    totalAmount: Option<int>,
    dueDate: Option<string>,
    invoicingDate: Option<string>,
    receivingDate: Option<string>,
    recipient: Option<string>,
    issuer: Option<string>,
    supplier: Option<string>)

  /** An attachment wraps an optional `data` record. */
  datatype Attachment = Attachment(data: Option<AttachmentData>)

  const NoData := AttachmentData(None, None, None, None, None, None, None, None)

  /** `attachment.get("data", {})`: a missing record has every field absent. */
  function Fields(attachment: Attachment): AttachmentData {
    attachment.data.GetOr(NoData)
  }

  function Abs(x: int): (r: nat)
    ensures r == x || r == -x
  {
    if x < 0 then -x else x
  }

  /** `abs(transaction.get("amount", 0))` */
  function TransactionAmount(transaction: Transaction): (r: nat)
    ensures r == 0 <==> transaction.amount.None? || transaction.amount.value == 0
    ensures transaction.amount.Some? ==> r == transaction.amount.value || r == -transaction.amount.value
  {
    Abs(transaction.amount.GetOr(0))
  }

  /** `abs(data.get("total_amount", 0))` */
  function AttachmentAmount(attachment: Attachment): (r: nat)
    ensures var total := Fields(attachment).totalAmount;
      && (r == 0 <==> total.None? || total.value == 0)
      && (total.Some? ==> r == total.value || r == -total.value)
  {
    Abs(Fields(attachment).totalAmount.GetOr(0))
  }

  /** A field that is there and is not the empty string (Python truthiness). */
  predicate Present(field: Option<string>) {
    field.Some? && field.value != ""
  }

  /** The values of the present fields, in field order. */
  function PresentValues(fields: seq<Option<string>>): (r: seq<string>)
    ensures |r| <= |fields|
    ensures forall i :: 0 <= i < |r| ==> r[i] != ""
  {
    if fields == [] then []
    else Kept(fields[0]) + PresentValues(fields[1..])
  }

  function Kept(field: Option<string>): seq<string> {
    if Present(field) then [field.value] else []
  }

  /** The counterparty roles in the order they are tried. */
  function NameFields(attachment: Attachment): seq<Option<string>> {
    var data := Fields(attachment);
    [data.recipient, data.issuer, data.supplier]
  }

  /** The attachment dates in the order they are tried. */
  function DateFields(attachment: Attachment): seq<Option<string>> {
    var data := Fields(attachment);
    [data.dueDate, data.invoicingDate, data.receivingDate]
  }

  /**
   * `get_counterparty_info`: recipient, issuer and supplier, each appended
   * when present and non-empty.
   */
  method GetCounterpartyInfo(attachment: Attachment) returns (names: seq<string>)
    ensures names == PresentValues(NameFields(attachment))
    ensures |names| <= 3 && forall i :: 0 <= i < |names| ==> names[i] != ""
  {
    var data := Fields(attachment);
    names := [];
    if data.recipient.Some? && data.recipient.value != "" {
      names := names + [data.recipient.value];
    }
    if data.issuer.Some? && data.issuer.value != "" {
      names := names + [data.issuer.value];
    }
    if data.supplier.Some? && data.supplier.value != "" {
      names := names + [data.supplier.value];
    }
    PresentValuesOfThree(data.recipient, data.issuer, data.supplier);
  }

  /**
   * `get_attachment_dates`: due, invoicing and receiving date, each appended
   * when present and non-empty.
   */
  method GetAttachmentDates(attachment: Attachment) returns (dates: seq<string>)
    ensures dates == PresentValues(DateFields(attachment))
    ensures |dates| <= 3 && forall i :: 0 <= i < |dates| ==> dates[i] != ""
  {
    var data := Fields(attachment);
    dates := [];
    if data.dueDate.Some? && data.dueDate.value != "" {
      dates := dates + [data.dueDate.value];
    }
    if data.invoicingDate.Some? && data.invoicingDate.value != "" {
      dates := dates + [data.invoicingDate.value];
    }
    if data.receivingDate.Some? && data.receivingDate.value != "" {
      dates := dates + [data.receivingDate.value];
    }
    PresentValuesOfThree(data.dueDate, data.invoicingDate, data.receivingDate);
  }

  // ---------------------------------------------------------------------
  // Lemmas

  /** Filtering a concatenation filters each part and keeps their order. */
  lemma {:induction false} PresentValuesAppend(a: seq<Option<string>>, b: seq<Option<string>>)
    ensures PresentValues(a + b) == PresentValues(a) + PresentValues(b)
  {
    if a == [] {
      assert a + b == b;
    } else {
      assert (a + b)[1..] == a[1..] + b;
      PresentValuesAppend(a[1..], b);
    }
  }

  lemma PresentValuesOfThree(a: Option<string>, b: Option<string>, c: Option<string>)
    ensures PresentValues([a, b, c]) == Kept(a) + Kept(b) + Kept(c)
  {
    assert [a, b, c][1..] == [b, c] && [b, c][1..] == [c] && [c][1..] == [];
    assert PresentValues([c]) == Kept(c) + [];
    assert PresentValues([b, c]) == Kept(b) + Kept(c);
  }

  /** Exactly the values of the present fields are kept. */
  lemma {:induction false} PresentValuesMembers(fields: seq<Option<string>>, v: string)
    ensures v in PresentValues(fields) <==> Some(v) in fields && v != ""
  {
    if fields != [] {
      PresentValuesMembers(fields[1..], v);
      assert fields == [fields[0]] + fields[1..];
    }
  }

  /** A record without `data` yields no names and no dates. */
  lemma MissingDataHasNoFields(attachment: Attachment)
    requires attachment.data.None?
    ensures PresentValues(NameFields(attachment)) == []
    ensures PresentValues(DateFields(attachment)) == []
  {
    assert NameFields(attachment) == [None, None, None];
    assert DateFields(attachment) == [None, None, None];
    PresentValuesOfThree(None, None, None);
  }
}
