/** `dnd.server.endpoints.GetPrescriptionPaymentStatusEndpoint`
    (`GET /api/prescriptions/:id/payment-status`): a prescription is paid when
    a bank transaction carries the ref "medcard <id>" exactly. It reads the
    `prescriptions` and `transactions` tables and writes nothing. A SELECT
    that fails reads as no row: `lookupFails` for the prescription,
    `readFails` for the transaction. */
module PaymentStatus {
  import opened Wrappers
  import opened Database
  import opened Json
  import opened Responses
  import Text
  import Paths
  import TransactionEndpoint

  const Suffix: string := "payment-status"

  /** The ref a payment for prescription `id` carries: "medcard <id>". */
  function PaymentRef(id: int): string {
    TransactionEndpoint.MedcardPrefix + Text.DecimalOf(id)
  }

  /** Some transaction carries exactly this ref. */
  predicate HasRef(ts: seq<TransactionRow>, ref: string) {
    exists i :: 0 <= i < |ts| && ts[i].ref == ref
  }

  /** `SELECT ... FROM transactions WHERE ref = ? ORDER BY created_at DESC
      LIMIT 1`: a row with this ref and the latest `created_at`, or none.
      Among rows with the same `created_at` the first in table order is taken. */
  function Latest(ts: seq<TransactionRow>, ref: string): (r: Option<TransactionRow>)
    ensures r.Some? <==> HasRef(ts, ref)
    ensures r.Some? ==> r.value in ts && r.value.ref == ref
    ensures r.Some? ==> forall i :: 0 <= i < |ts| && ts[i].ref == ref ==> ts[i].createdAt <= r.value.createdAt
  {
    if ts == [] then None
    else
      assert forall i :: 1 <= i < |ts| ==> ts[i] == ts[1..][i - 1];
      var rest := Latest(ts[1..], ref);
      if ts[0].ref != ref then rest
      else if rest.Some? && rest.value.createdAt > ts[0].createdAt then rest
      else Some(ts[0])
  }

  /** The payload: "paid" with the transaction's id, amount and time, or
      "pending". */
  function StatusData(id: int, payment: Option<TransactionRow>): Value {
    match payment
    case None => VObj(map["prescriptionId" := VInt(id), "status" := VStr("pending")])
    case Some(t) =>
      VObj(map["prescriptionId" := VInt(id), "status" := VStr("paid"), "transactionId" := VInt(t.id),
               "amount" := VInt(t.amount), "paidAt" := VInt(t.createdAt)])
  }

  /** The `status` a 200 payload reports. */
  function ReportedStatus(r: Response): Option<string> {
    if r.data.VObj? && "status" in r.data.fields && r.data.fields["status"].VStr? then Some(r.data.fields["status"].s)
    else None
  }

  /** `handle(request)`. A 200 reports "paid" or "pending", never the
      "not_found" the endpoint's documentation lists: an unknown
      prescription, or one whose SELECT fails, is a 404. */
  function Handle(prescriptions: map<int, Prescription>, transactions: seq<TransactionRow>, request: Request,
                  lookupFails: bool, readFails: bool)
    : (r: Response)
    ensures Paths.IdBefore(request.path, 4, Suffix).BadFormat? ==> r == BadRequest("Invalid path format")
    ensures Paths.IdBefore(request.path, 4, Suffix).BadNumber? ==> r == BadRequest("Invalid prescription ID")
    ensures Paths.IdBefore(request.path, 4, Suffix).Id? &&
            (Paths.IdBefore(request.path, 4, Suffix).value !in prescriptions || lookupFails) ==>
              r == NotFound("Prescription not found")
    ensures r.statusCode == 200 <==>
              Paths.IdBefore(request.path, 4, Suffix).Id? && Paths.IdBefore(request.path, 4, Suffix).value in prescriptions
              && !lookupFails
    ensures r.statusCode == 200 ==> ReportedStatus(r) == Some("paid") || ReportedStatus(r) == Some("pending")
  {
    match Paths.IdBefore(request.path, 4, Suffix)
    case BadFormat => BadRequest("Invalid path format")
    case BadNumber(_) => BadRequest("Invalid prescription ID")
    case Id(id) =>
      if id !in prescriptions || lookupFails then NotFound("Prescription not found")
      else Responses.Success(StatusData(id, if readFails then None else Latest(transactions, PaymentRef(id))))
  }

  // ---------------------------------------------------------------------------
  // Laws

  /** The request path `/api/prescriptions/<id>/payment-status`. */
  function StatusPath(base: Request, id: int): Request {
    base.(path := Paths.Join(["api", "prescriptions", Text.DecimalOf(id), Suffix]))
  }

  lemma StatusPathReadsBack(base: Request, id: int)
    requires Text.LongMin <= id <= Text.LongMax
    ensures Paths.IdBefore(StatusPath(base, id).path, 4, Suffix) == Paths.Id(id)
  {
    assert ["api", "prescriptions", Text.DecimalOf(id), Suffix] == ["api", "prescriptions"] + [Text.DecimalOf(id), Suffix];
    Paths.IdBeforeOfJoin(["api", "prescriptions"], id, Suffix, 4);
  }

  /** A stored prescription whose SELECT succeeds is reported "paid" exactly
      when some transaction's ref is "medcard <id>" and the transactions
      SELECT succeeds, and then with the id of a matching transaction no
      older than any other match; otherwise "pending", so a failed
      transactions SELECT reports a paid prescription as pending. */
  lemma PaidIffPaymentRef(prescriptions: map<int, Prescription>, ts: seq<TransactionRow>, base: Request, id: int,
                          readFails: bool)
    requires id in prescriptions && Text.LongMin <= id <= Text.LongMax
    ensures var r := Handle(prescriptions, ts, StatusPath(base, id), false, readFails);
            && r.statusCode == 200
            && (ReportedStatus(r) == Some("paid") <==> !readFails && HasRef(ts, PaymentRef(id)))
            && (ReportedStatus(r) == Some("pending") <==> readFails || !HasRef(ts, PaymentRef(id)))
            && (!readFails && HasRef(ts, PaymentRef(id)) ==>
                  exists i :: 0 <= i < |ts| && ts[i].ref == PaymentRef(id) && r.data.fields["transactionId"] == VInt(ts[i].id)
                              && forall j :: 0 <= j < |ts| && ts[j].ref == PaymentRef(id) ==> ts[j].createdAt <= ts[i].createdAt)
  {
    StatusPathReadsBack(base, id);
    var r := Handle(prescriptions, ts, StatusPath(base, id), false, readFails);
    var latest := if readFails then None else Latest(ts, PaymentRef(id));
    assert r == Responses.Success(StatusData(id, latest));
    if latest.Some? {
      var i :| 0 <= i < |ts| && ts[i] == latest.value;
      assert r.data.fields["transactionId"] == VInt(ts[i].id);
    }
  }

  /** A stored prescription is "pending" while no transaction carries its
      ref, whether or not the transactions SELECT fails. */
  lemma OtherRefPending(prescriptions: map<int, Prescription>, ts: seq<TransactionRow>, base: Request, id: int,
                        readFails: bool)
    requires id in prescriptions && Text.LongMin <= id <= Text.LongMax
    requires forall i :: 0 <= i < |ts| ==> ts[i].ref != PaymentRef(id)
    ensures ReportedStatus(Handle(prescriptions, ts, StatusPath(base, id), false, readFails)) == Some("pending")
  {
    PaidIffPaymentRef(prescriptions, ts, base, id, readFails);
  }

  /** A stored prescription whose SELECT fails is reported as not found,
      whatever the transactions hold. */
  lemma FailedLookupIsNotFound(prescriptions: map<int, Prescription>, ts: seq<TransactionRow>, base: Request, id: int,
                               readFails: bool)
    requires Text.LongMin <= id <= Text.LongMax
    ensures Handle(prescriptions, ts, StatusPath(base, id), true, readFails) == NotFound("Prescription not found")
  {
    StatusPathReadsBack(base, id);
  }

  /** The callback's parser reads "medcard 007" as prescription 7. */
  lemma PaddedRefParses()
    ensures TransactionEndpoint.RefPrescriptionId("medcard 007") == Some(7)
  {
    var ref := "medcard 007";
    assert Text.StartsWith(ref, TransactionEndpoint.MedcardPrefix);
    assert ref[|TransactionEndpoint.MedcardPrefix|..] == "007";
    Text.TrimOfTrimmed("007");
    assert Text.DigitsValue("007") == 7 by {
      assert "007"[..2] == "00" && "00"[..1] == "0";
    }
    assert Text.ParseLong("007") == Some(7);
  }

  /** The payment ref of prescription 7 is "medcard 7", two characters
      shorter than "medcard 007". */
  lemma PaddedRefIsNotPaymentRef()
    ensures PaymentRef(7) != "medcard 007"
  {
    assert Text.DecimalOf(7) == "7";
    assert |PaymentRef(7)| == 9;
  }

  /** "medcard 007" names prescription 7 for the bank callback, but does not
      make prescription 7 paid: the match here is on the exact text. */
  lemma PaddedRefNotPaid(prescriptions: map<int, Prescription>, t: TransactionRow, base: Request)
    requires 7 in prescriptions && t.ref == "medcard 007"
    ensures TransactionEndpoint.RefPrescriptionId(t.ref) == Some(7)
    ensures ReportedStatus(Handle(prescriptions, [t], StatusPath(base, 7), false, false)) == Some("pending")
  {
    PaddedRefParses();
    PaddedRefIsNotPaymentRef();
    OtherRefPending(prescriptions, [t], base, 7, false);
  }

  /** A bank callback recorded with the ref "medcard <id>" makes the
      prescription paid, as long as the status query's transactions SELECT
      succeeds; when it fails the prescription is still reported pending. */
  lemma RecordedCallbackPays(prescriptions: map<int, Prescription>, st: TransactionEndpoint.State,
                             c: TransactionEndpoint.Callback, now: int, readFails: bool, auditLost: bool, logLost: bool,
                             base: Request, id: int, statusReadFails: bool)
    requires id in prescriptions && Text.LongMin <= id <= Text.LongMax && c.ref == PaymentRef(id)
    requires TransactionEndpoint.FindByKey(st.transactions, c.idempotencyKey).None?
    ensures var after := TransactionEndpoint.Record(st, c, now, readFails, false, auditLost, logLost).1;
            ReportedStatus(Handle(prescriptions, after.transactions, StatusPath(base, id), false, statusReadFails))
            == Some(if statusReadFails then "pending" else "paid")
  {
    var after := TransactionEndpoint.Record(st, c, now, readFails, false, auditLost, logLost).1;
    assert after.transactions[|st.transactions|].ref == PaymentRef(id);
    PaidIffPaymentRef(prescriptions, after.transactions, base, id, statusReadFails);
  }
}
