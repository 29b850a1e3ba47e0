/** `dnd.server.endpoints.CancelPrescriptionPaymentEndpoint`
    (`POST /api/prescriptions/:id/cancel-payment`): moves a prescription to
    status 3 (cancelled) unless it is paid, already cancelled or completed
    (status 2), then appends a `system_logs` row. What the database does on
    each statement is the parameter `Faults`. */
module CancelPayment {
  import opened Wrappers
  import opened Database
  import opened Json
  import opened Responses
  import Text
  import Paths
  import PaymentStatus

  const Suffix: string := "cancel-payment"
  const Cancelled: int := 3
  const Completed: int := 2

  const BadPath: string := "Invalid path format. Expected: /api/prescriptions/:id/cancel-payment"
  const AlreadyPaid: string := "Cannot cancel payment: payment has already been processed"
  const AlreadyCancelled: string := "Prescription is already cancelled"
  const AlreadyCompleted: string := "Cannot cancel payment: prescription is already completed"

  /** The tables the endpoint writes. */
  datatype State = State(prescriptions: map<int, Prescription>, systemLogs: seq<LogRow>)

  function CancelledData(id: int, p: Prescription): Value {
    VObj(map["prescriptionId" := VInt(id), "prescriptionCode" := VStr(p.code), "status" := VInt(Cancelled)])
  }

  function CancelLog(id: int, p: Prescription): LogRow {
    LogRow("CANCEL_PAYMENT", "Payment cancelled for prescription: ID=" + Text.DecimalOf(id) + ", Code=" + p.code, None)
  }

  /** What the database does on each statement of one request. A SELECT
      that fails reads as no row: `lookupFails` for the prescription,
      `paymentReadFails` for the transaction, `rereadFails` for the
      prescription read back after the UPDATE. `updateMisses` is an UPDATE
      that changes no row and `logLost` a lost `system_logs` insert. */
  datatype Faults = Faults(lookupFails: bool, paymentReadFails: bool, updateMisses: bool, rereadFails: bool, logLost: bool)

  /** The prescription after the UPDATE. */
  function CancelledPrescriptions(st: State, id: int): map<int, Prescription>
    requires id in st.prescriptions
  {
    st.prescriptions[id := st.prescriptions[id].(status := Cancelled)]
  }

  /** `handle(request)` on the tables `st`, reading `transactions`: the
      response (or exception) and the tables afterwards. Only the UPDATE
      changes them, and it changes the one prescription's status to 3 and
      nothing else; when the prescription cannot be read back afterwards the
      request ends in a NullPointerException with the UPDATE done and no log
      row. */
  function Outcome(st: State, transactions: seq<TransactionRow>, path: string, f: Faults)
    : (r: (Throws<Response>, State))
    ensures Paths.IdBefore(path, 5, Suffix).BadFormat? ==> r == (Success(BadRequest(BadPath)), st)
    ensures Paths.IdBefore(path, 5, Suffix).BadNumber? ==>
              r == (Success(BadRequest("Invalid prescription ID: " + Paths.IdBefore(path, 5, Suffix).text)), st)
    ensures Paths.IdBefore(path, 5, Suffix).Id? && (Paths.IdBefore(path, 5, Suffix).value !in st.prescriptions || f.lookupFails) ==>
              r == (Success(NotFound("Prescription not found: " + Text.DecimalOf(Paths.IdBefore(path, 5, Suffix).value))), st)
    ensures Paths.IdBefore(path, 5, Suffix).Id? && Paths.IdBefore(path, 5, Suffix).value in st.prescriptions && !f.lookupFails
            && !f.paymentReadFails && PaymentStatus.HasRef(transactions, PaymentStatus.PaymentRef(Paths.IdBefore(path, 5, Suffix).value)) ==>
              r == (Success(Error(400, AlreadyPaid)), st)
    ensures r.0.Success? && r.0.value.statusCode != 200 ==> r.1 == st
    ensures r.0.Failure? || r.0.value.statusCode == 200 ==>
              && Paths.IdBefore(path, 5, Suffix).Id?
              && var id := Paths.IdBefore(path, 5, Suffix).value;
              && id in st.prescriptions && !f.lookupFails
              && (f.paymentReadFails || !PaymentStatus.HasRef(transactions, PaymentStatus.PaymentRef(id)))
              && st.prescriptions[id].status != Cancelled && st.prescriptions[id].status != Completed
              && !f.updateMisses
              && r.1.prescriptions == CancelledPrescriptions(st, id)
              && (r.0.Failure? <==> f.rereadFails)
              && (r.0.Failure? ==> r.0.error == NullPointer && r.1.systemLogs == st.systemLogs)
              && (r.0.Success? ==> r.0.value == SuccessWith("Payment cancelled successfully", CancelledData(id, st.prescriptions[id])))
  {
    match Paths.IdBefore(path, 5, Suffix)
    case BadFormat => (Success(BadRequest(BadPath)), st)
    case BadNumber(text) => (Success(BadRequest("Invalid prescription ID: " + text)), st)
    case Id(id) =>
      if id !in st.prescriptions || f.lookupFails then (Success(NotFound("Prescription not found: " + Text.DecimalOf(id))), st)
      else
        var p := st.prescriptions[id];
        var paid := !f.paymentReadFails && PaymentStatus.HasRef(transactions, PaymentStatus.PaymentRef(id));
        if paid then (Success(Error(400, AlreadyPaid)), st)
        else if p.status == Cancelled then (Success(Error(400, AlreadyCancelled)), st)
        else if p.status == Completed then (Success(Error(400, AlreadyCompleted)), st)
        else if f.updateMisses then (Success(InternalError("Failed to cancel payment")), st)
        else if f.rereadFails then (Failure(NullPointer), State(CancelledPrescriptions(st, id), st.systemLogs))
        else
          (Success(SuccessWith("Payment cancelled successfully", CancelledData(id, p))),
           State(CancelledPrescriptions(st, id), st.systemLogs + if f.logLost then [] else [CancelLog(id, p)]))
  }

  /** `SELECT id FROM transactions WHERE ref = ? LIMIT 1` when it succeeds. */
  method FindPayment(transactions: seq<TransactionRow>, ref: string) returns (found: bool)
    ensures found <==> PaymentStatus.HasRef(transactions, ref)
  {
    found := false;
    var i := 0;
    while i < |transactions| && !found
      invariant 0 <= i <= |transactions|
      invariant found <==> exists k :: 0 <= k < i && transactions[k].ref == ref
    {
      found := transactions[i].ref == ref;
      i := i + 1;
    }
  }

  /** `handle(request)` on the database `db`. */
  method Handle(db: Db, request: Request, f: Faults) returns (r: Throws<Response>)
    modifies db`prescriptions, db`systemLogs
    ensures (r, State(db.prescriptions, db.systemLogs))
            == Outcome(State(old(db.prescriptions), old(db.systemLogs)), db.transactions, request.path, f)
  {
    var parsed := Paths.IdBefore(request.path, 5, Suffix);
    if parsed.BadFormat? {
      return Success(BadRequest(BadPath));
    }
    if parsed.BadNumber? {
      return Success(BadRequest("Invalid prescription ID: " + parsed.text));
    }
    var id := parsed.value;
    if id !in db.prescriptions || f.lookupFails {
      return Success(NotFound("Prescription not found: " + Text.DecimalOf(id)));
    }
    var p := db.prescriptions[id];
    var paid := false;
    if !f.paymentReadFails {
      paid := FindPayment(db.transactions, PaymentStatus.PaymentRef(id));
    }
    if paid {
      return Success(Error(400, AlreadyPaid));
    }
    if p.status == Cancelled {
      return Success(Error(400, AlreadyCancelled));
    }
    if p.status == Completed {
      return Success(Error(400, AlreadyCompleted));
    }
    if f.updateMisses {
      return Success(InternalError("Failed to cancel payment"));
    }
    db.prescriptions := db.prescriptions[id := p.(status := Cancelled)];
    if f.rereadFails {
      return Failure(NullPointer);
    }
    r := Success(SuccessWith("Payment cancelled successfully", CancelledData(id, p)));
    if !f.logLost {
      db.systemLogs := db.systemLogs + [CancelLog(id, p)];
    }
    assert db.systemLogs == old(db.systemLogs) + if f.logLost then [] else [CancelLog(id, p)];
  }

  // ---------------------------------------------------------------------------
  // Laws

  /** A paid prescription cannot be cancelled, whatever its status: the
      payment check comes before the status checks. When the transactions
      SELECT fails the payment goes unseen, and a paid prescription that is
      neither cancelled nor completed is cancelled. */
  lemma PaymentBlocksCancel(st: State, transactions: seq<TransactionRow>, path: string, f: Faults)
    requires Paths.IdBefore(path, 5, Suffix).Id? && Paths.IdBefore(path, 5, Suffix).value in st.prescriptions
    requires PaymentStatus.HasRef(transactions, PaymentStatus.PaymentRef(Paths.IdBefore(path, 5, Suffix).value))
    ensures !f.lookupFails && !f.paymentReadFails ==> Outcome(st, transactions, path, f) == (Success(Error(400, AlreadyPaid)), st)
    ensures var id := Paths.IdBefore(path, 5, Suffix).value;
            !f.lookupFails && f.paymentReadFails && !f.updateMisses
            && st.prescriptions[id].status != Cancelled && st.prescriptions[id].status != Completed ==>
              Outcome(st, transactions, path, f).1.prescriptions == CancelledPrescriptions(st, id)
  {
  }

  /** The status machine once the prescription is read and no payment is
      seen: 3 and 2 are final, any other status becomes 3 unless the UPDATE
      misses the row. */
  lemma StatusMachine(st: State, transactions: seq<TransactionRow>, path: string, f: Faults)
    requires Paths.IdBefore(path, 5, Suffix).Id? && Paths.IdBefore(path, 5, Suffix).value in st.prescriptions
    requires !f.lookupFails
    requires f.paymentReadFails || !PaymentStatus.HasRef(transactions, PaymentStatus.PaymentRef(Paths.IdBefore(path, 5, Suffix).value))
    ensures var id := Paths.IdBefore(path, 5, Suffix).value;
            var p := st.prescriptions[id];
            var r := Outcome(st, transactions, path, f);
            && (p.status == Cancelled ==> r == (Success(Error(400, AlreadyCancelled)), st))
            && (p.status == Completed ==> r == (Success(Error(400, AlreadyCompleted)), st))
            && (p.status != Cancelled && p.status != Completed ==>
                  && (f.updateMisses ==> r == (Success(InternalError("Failed to cancel payment")), st))
                  && (!f.updateMisses ==> r.1.prescriptions == CancelledPrescriptions(st, id) && (r.0.Failure? <==> f.rereadFails)))
  {
  }

  /** Cancelling twice: once a request has cancelled the prescription, a
      second one is refused with a 400 (a 404 when the prescription SELECT
      fails) and changes nothing; it is "already
      cancelled" unless the prescription is not found or a payment is seen. */
  lemma CancelTwice(st: State, transactions: seq<TransactionRow>, path: string, f1: Faults, f2: Faults)
    requires Outcome(st, transactions, path, f1).1 != st
    ensures Paths.IdBefore(path, 5, Suffix).Id?
    ensures var st1 := Outcome(st, transactions, path, f1).1;
            var r2 := Outcome(st1, transactions, path, f2);
            var id := Paths.IdBefore(path, 5, Suffix).value;
            && r2.1 == st1 && r2.0.Success? && r2.0.value.statusCode == (if f2.lookupFails then 404 else 400)
            && (!f2.lookupFails && (f2.paymentReadFails || !PaymentStatus.HasRef(transactions, PaymentStatus.PaymentRef(id))) ==>
                  r2.0 == Success(Error(400, AlreadyCancelled)))
  {
  }

  /** The request path `/api/prescriptions/<id>/cancel-payment` has the five
      segments the endpoint requires and names `id`. */
  lemma CancelPathReadsBack(id: int)
    requires Text.LongMin <= id <= Text.LongMax
    ensures Paths.IdBefore(Paths.Join(["api", "prescriptions", Text.DecimalOf(id), Suffix]), 5, Suffix) == Paths.Id(id)
  {
    assert ["api", "prescriptions", Text.DecimalOf(id), Suffix] == ["api", "prescriptions"] + [Text.DecimalOf(id), Suffix];
    Paths.IdBeforeOfJoin(["api", "prescriptions"], id, Suffix, 5);
  }
}
