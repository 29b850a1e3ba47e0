/** `dnd.server.endpoints.TransactionEndpoint` (`POST /api/transactions`):
    the bank's payment callback. A chain of guards (signature header, server
    secret, body, HMAC, fields) precedes an idempotent insert keyed by
    `idempotencyKey`, followed by two best-effort log writes. Gson's
    rendering of the body is the parameter `serialize`; the database's
    failures are the booleans `readFails` (the idempotency SELECT fails and
    reads as no row), `insertFails`, `auditLost` and `logLost`. */
module TransactionEndpoint {
  import opened Wrappers
  import opened Primitives
  import opened Database
  import opened Json
  import opened Responses
  import opened Numeric
  import Text
  import HmacUtils

  const SignatureHeader: string := "X-Signature"
  const MedcardPrefix: string := "medcard "

  /** The fields of a callback once validated. `amount` is the `(long)` cast
      of the JSON number. */
  datatype Callback = Callback(
    bankId: string,
    amount: int,
    ref: string,
    timestamp: int,
    idempotencyKey: string,
    content: Option<string>,
    playerId: Option<string>)

  /** Field validation ends in a 400 with its message or in a callback. */
  datatype Checked = Invalid(message: string) | Valid(callback: Callback)

  /** The tables the endpoint writes. */
  datatype State = State(transactions: seq<TransactionRow>, auditHistory: seq<LogRow>, systemLogs: seq<LogRow>)

  /** Field validation in source order; a `getAsString`, `getAsDouble` or
      `getAsLong` that throws ends it with that exception. */
  function ReadCallback(body: Body): (r: Throws<Checked>)
    ensures r.Success? && r.value.Valid? ==>
              var c := r.value.callback;
              && c.bankId != "" && c.ref != "" && c.idempotencyKey != ""
              && c.timestamp > 0 && 0 <= c.amount <= Text.LongMax
              && "amount" in body && AsDouble(body["amount"]).Success?
              && c.amount == DoubleToLong(AsDouble(body["amount"]).value)
              && "idempotencyKey" in body && AsString(body["idempotencyKey"]) == Success(c.idempotencyKey)
  {
    var bankId :- StringField(body, "bankId");
    if bankId.None? || bankId.value == "" then Success(Invalid("bankId is required"))
    else if "amount" !in body || !IsPrimitive(body["amount"]) then Success(Invalid("amount must be a number"))
    else
      var amount :- AsDouble(body["amount"]);
      if !amount.Finite? || amount.value <= 0.0 then Success(Invalid("amount must be positive number"))
      else
        var ref :- StringField(body, "ref");
        if ref.None? || ref.value == "" then Success(Invalid("ref is required"))
        else if "timestamp" !in body || !IsPrimitive(body["timestamp"]) then Success(Invalid("timestamp is required"))
        else
          var timestamp :- AsLong(body["timestamp"]);
          if timestamp <= 0 then Success(Invalid("timestamp invalid"))
          else
            var key :- StringField(body, "idempotencyKey");
            if key.None? || key.value == "" then Success(Invalid("idempotencyKey is required"))
            else
              var content :- NonNullStringField(body, "content");
              var playerId :- NonNullStringField(body, "playerId");
              CastOfPositive(amount);
              Success(Valid(Callback(bankId.value, DoubleToLong(amount), ref.value, timestamp, key.value, content, playerId)))
  }

  /** The row with this idempotency key, if any (`SELECT id ... WHERE idempotency_key = ?`). */
  function FindByKey(ts: seq<TransactionRow>, key: string): (r: Option<TransactionRow>)
    ensures r.Some? <==> exists i :: 0 <= i < |ts| && ts[i].idempotencyKey == key
    ensures r.Some? ==> r.value in ts && r.value.idempotencyKey == key
  {
    if ts == [] then None
    else if ts[0].idempotencyKey == key then Some(ts[0])
    else
      assert forall i :: 1 <= i < |ts| ==> ts[i] == ts[1..][i - 1];
      FindByKey(ts[1..], key)
  }

  /** The UNIQUE index on `idempotency_key`. */
  predicate UniqueKeys(ts: seq<TransactionRow>) {
    forall i, j :: 0 <= i < j < |ts| ==> ts[i].idempotencyKey != ts[j].idempotencyKey
  }

  /** The prescription a ref names: "medcard " followed by a `long` once
      trimmed; any other ref names none. */
  function RefPrescriptionId(ref: string): (r: Option<int>)
    ensures r.Some? ==> Text.StartsWith(ref, MedcardPrefix) && Text.LongMin <= r.value <= Text.LongMax
    ensures r.Some? <==> Text.StartsWith(ref, MedcardPrefix) && Text.ParseLong(Text.Trim(ref[|MedcardPrefix|..])).Some?
  {
    if Text.StartsWith(ref, MedcardPrefix) then Text.ParseLong(Text.Trim(ref[|MedcardPrefix|..])) else None
  }

  /** The `result` text of the `audit_history` row. */
  function AuditText(c: Callback, prescriptionId: Option<int>): string {
    "Bank transaction: " + c.bankId + " - Amount: " + Text.DecimalOf(c.amount) + " - Ref: " + c.ref
    + (if c.content.Some? && c.content.value != "" then " - Content: " + c.content.value else "")
    + (if c.playerId.Some? && c.playerId.value != "" then " - Player: " + c.playerId.value else "")
    + (if prescriptionId.Some? then " - Prescription: " + Text.DecimalOf(prescriptionId.value) else "")
  }

  /** The `description` of the `system_logs` row. */
  function LogText(id: int, c: Callback): string {
    "Bank transaction processed: ID=" + Text.DecimalOf(id) + ", Bank=" + c.bankId
    + ", Amount=" + Text.DecimalOf(c.amount) + ", Ref=" + c.ref
  }

  /** The `audit_history` row of the transaction `id`: its `staff_id` is the
      callback's `playerId`. */
  function AuditRow(id: int, c: Callback): LogRow {
    LogRow("BANK_TXN_" + Text.DecimalOf(id), AuditText(c, RefPrescriptionId(c.ref)), c.playerId)
  }

  /** The `system_logs` row of the transaction `id`: its `admin_staff_id` is
      the callback's `playerId`. */
  function BankLogRow(id: int, c: Callback): LogRow {
    LogRow("BANK_TRANSACTION", LogText(id, c), c.playerId)
  }

  function ResultData(status: string, id: int): Value {
    VObj(map["status" := VStr(status), "transactionId" := VInt(id)])
  }

  /** The header passes the first guard: present and not blank. */
  predicate HasSignature(request: Request) {
    Header(request, SignatureHeader).Some? && Text.Trim(Header(request, SignatureHeader).value) != ""
  }

  /** The trimmed header equals the Base64 HMAC of the serialized body. */
  predicate Authentic(mac: Mac, serialize: Body -> string, secret: string, request: Request)
    requires HasSignature(request) && secret != "" && request.body.Some?
  {
    HmacUtils.HmacSha256Base64(mac, secret, serialize(request.body.value))
      == Success(Text.Trim(Header(request, SignatureHeader).value))
  }

  /** The `transactions` row a validated callback becomes. */
  function RowOf(id: int, c: Callback, now: int): TransactionRow {
    TransactionRow(id, c.bankId, c.amount, c.ref, c.content, c.playerId, c.timestamp, c.idempotencyKey, now)
  }

  /** What happens to a validated callback: a duplicate of the row the
      idempotency SELECT finds, a 500 when the insert fails, or one new row
      under the next id followed by the audit and system-log rows (each
      possibly lost). A failed SELECT reads as no row, and the UNIQUE index
      then refuses the insert of a key that is already stored. */
  function Record(st: State, c: Callback, now: int, readFails: bool, insertFails: bool, auditLost: bool, logLost: bool)
    : (r: (Response, State))
    ensures FindByKey(st.transactions, c.idempotencyKey).Some? && !readFails ==>
              r == (SuccessWith("Duplicate", ResultData("duplicate", FindByKey(st.transactions, c.idempotencyKey).value.id)), st)
    ensures FindByKey(st.transactions, c.idempotencyKey).Some? && readFails ==>
              r == (InternalError("Failed to insert transaction"), st)
    ensures FindByKey(st.transactions, c.idempotencyKey).None? && insertFails ==>
              r == (InternalError("Failed to insert transaction"), st)
    ensures FindByKey(st.transactions, c.idempotencyKey).None? && !insertFails ==>
              && r.0 == SuccessWith("OK", ResultData("processed", NextTransactionId(st.transactions)))
              && r.1.transactions == st.transactions + [RowOf(NextTransactionId(st.transactions), c, now)]
              && r.1.auditHistory == st.auditHistory + (if auditLost then [] else [AuditRow(NextTransactionId(st.transactions), c)])
              && r.1.systemLogs == st.systemLogs + (if logLost then [] else [BankLogRow(NextTransactionId(st.transactions), c)])
    ensures UniqueKeys(st.transactions) ==> UniqueKeys(r.1.transactions)
  {
    match (if readFails then None else FindByKey(st.transactions, c.idempotencyKey))
    case Some(existing) => (SuccessWith("Duplicate", ResultData("duplicate", existing.id)), st)
    case None =>
      if insertFails || FindByKey(st.transactions, c.idempotencyKey).Some? then
        (InternalError("Failed to insert transaction"), st)
      else
        var id := NextTransactionId(st.transactions);
        var audit := AuditRow(id, c);
        var log := BankLogRow(id, c);
        (SuccessWith("OK", ResultData("processed", id)),
         State(st.transactions + [RowOf(id, c, now)],
               st.auditHistory + (if auditLost then [] else [audit]),
               st.systemLogs + (if logLost then [] else [log])))
  }

  /** `handle(request)` with HMAC secret `secret` on the tables `st` at time
      `now`: the response (or exception) and the tables afterwards. Nothing
      is written unless the signature is authentic and the fields valid. */
  function Outcome(mac: Mac, serialize: Body -> string, secret: string, st: State, request: Request, now: int,
                   readFails: bool, insertFails: bool, auditLost: bool, logLost: bool)
    : (r: (Throws<Response>, State))
    ensures r.1 != st ==>
              && HasSignature(request) && secret != "" && request.body.Some?
              && Authentic(mac, serialize, secret, request)
              && ReadCallback(request.body.value).Success? && ReadCallback(request.body.value).value.Valid?
    ensures r.0.Success? && r.0.value.statusCode == 200 ==>
              && HasSignature(request) && secret != "" && request.body.Some?
              && Authentic(mac, serialize, secret, request)
    ensures UniqueKeys(st.transactions) ==> UniqueKeys(r.1.transactions)
  {
    if !HasSignature(request) then (Success(Error(401, "X-Signature header is required")), st)
    else if secret == "" then (Success(Error(500, "Server HMAC secret missing")), st)
    else if request.body.None? then (Success(BadRequest("Request body is required")), st)
    else if !Authentic(mac, serialize, secret, request) then (Success(Error(401, "Invalid signature")), st)
    else match ReadCallback(request.body.value)
      case Failure(e) => (Failure(e), st)
      case Success(Invalid(message)) => (Success(BadRequest(message)), st)
      case Success(Valid(c)) =>
        var (response, st') := Record(st, c, now, readFails, insertFails, auditLost, logLost);
        (Success(response), st')
  }

  /** The idempotency check, the insert and the two log writes on `db`. */
  method RecordCallback(db: Db, c: Callback, now: int, readFails: bool, insertFails: bool, auditLost: bool, logLost: bool)
    returns (r: Response)
    modifies db`transactions, db`auditHistory, db`systemLogs
    ensures (r, State(db.transactions, db.auditHistory, db.systemLogs))
            == Record(State(old(db.transactions), old(db.auditHistory), old(db.systemLogs)), c, now,
                      readFails, insertFails, auditLost, logLost)
  {
    var existing := if readFails then None else FindByKey(db.transactions, c.idempotencyKey);
    if existing.Some? {
      return SuccessWith("Duplicate", ResultData("duplicate", existing.value.id));
    }
    if insertFails || FindByKey(db.transactions, c.idempotencyKey).Some? {
      return InternalError("Failed to insert transaction");
    }
    var id := NextTransactionId(db.transactions);
    db.transactions := db.transactions + [RowOf(id, c, now)];
    var prescriptionId := RefPrescriptionId(c.ref);
    if !auditLost {
      db.auditHistory := db.auditHistory + [LogRow("BANK_TXN_" + Text.DecimalOf(id), AuditText(c, prescriptionId), c.playerId)];
    }
    if !logLost {
      db.systemLogs := db.systemLogs + [LogRow("BANK_TRANSACTION", LogText(id, c), c.playerId)];
    }
    r := SuccessWith("OK", ResultData("processed", id));
    assert db.auditHistory == old(db.auditHistory) + if auditLost then [] else [LogRow("BANK_TXN_" + Text.DecimalOf(id), AuditText(c, prescriptionId), c.playerId)];
    assert db.systemLogs == old(db.systemLogs) + if logLost then [] else [LogRow("BANK_TRANSACTION", LogText(id, c), c.playerId)];
  }

  /** `handle(request)` on the database `db`. */
  method Handle(mac: Mac, serialize: Body -> string, secret: string, db: Db, request: Request, now: int,
                readFails: bool, insertFails: bool, auditLost: bool, logLost: bool)
    returns (r: Throws<Response>)
    modifies db`transactions, db`auditHistory, db`systemLogs
    ensures (r, State(db.transactions, db.auditHistory, db.systemLogs))
            == Outcome(mac, serialize, secret, State(old(db.transactions), old(db.auditHistory), old(db.systemLogs)),
                       request, now, readFails, insertFails, auditLost, logLost)
  {
    var signature := Header(request, SignatureHeader);
    if signature.None? || Text.Trim(signature.value) == "" {
      return Success(Error(401, "X-Signature header is required"));
    }
    if secret == "" {
      return Success(Error(500, "Server HMAC secret missing"));
    }
    if request.body.None? {
      return Success(BadRequest("Request body is required"));
    }
    var body := request.body.value;
    var expected := HmacUtils.HmacSha256Base64(mac, secret, serialize(body));
    var same := HmacUtils.TimingSafeEqual(Some(Text.Trim(signature.value)), if expected.Success? then Some(expected.value) else None);
    if !same {
      return Success(Error(401, "Invalid signature"));
    }
    var checked := ReadCallback(body);
    if checked.Failure? {
      return Failure(checked.error);
    }
    if checked.value.Invalid? {
      return Success(BadRequest(checked.value.message));
    }
    var response := RecordCallback(db, checked.value.callback, now, readFails, insertFails, auditLost, logLost);
    r := Success(response);
  }

  // ---------------------------------------------------------------------------
  // Laws

  /** The guards run in order, each before any field is read or any table
      touched: missing or blank signature 401, empty secret 500, no body 400,
      wrong signature 401. */
  lemma GuardOrder(mac: Mac, serialize: Body -> string, secret: string, st: State, request: Request, now: int,
                   readFails: bool, insertFails: bool, auditLost: bool, logLost: bool)
    ensures var r := Outcome(mac, serialize, secret, st, request, now, readFails, insertFails, auditLost, logLost);
            && (!HasSignature(request) ==> r == (Success(Error(401, "X-Signature header is required")), st))
            && (HasSignature(request) && secret == "" ==> r == (Success(Error(500, "Server HMAC secret missing")), st))
            && (HasSignature(request) && secret != "" && request.body.None? ==>
                  r == (Success(BadRequest("Request body is required")), st))
            && (HasSignature(request) && secret != "" && request.body.Some? && !Authentic(mac, serialize, secret, request) ==>
                  r == (Success(Error(401, "Invalid signature")), st))
  {
  }

  /** Delivering the same callback twice stores it once: the first delivery
      of a new key is processed under the next id. The second reports
      "duplicate" with that id and writes nothing; when its idempotency
      SELECT fails it is instead refused with a 500 by the UNIQUE index, and
      still writes nothing. */
  lemma ReplayIsDuplicate(mac: Mac, serialize: Body -> string, secret: string, st: State, request: Request,
                          now: int, now2: int, readFails: bool, auditLost: bool, logLost: bool,
                          readFails2: bool, insertFails2: bool, auditLost2: bool, logLost2: bool)
    requires HasSignature(request) && secret != "" && request.body.Some? && Authentic(mac, serialize, secret, request)
    requires ReadCallback(request.body.value).Success? && ReadCallback(request.body.value).value.Valid?
    requires FindByKey(st.transactions, ReadCallback(request.body.value).value.callback.idempotencyKey).None?
    ensures var first := Outcome(mac, serialize, secret, st, request, now, readFails, false, auditLost, logLost);
            && first.0 == Success(SuccessWith("OK", ResultData("processed", NextTransactionId(st.transactions))))
            && Outcome(mac, serialize, secret, first.1, request, now2, readFails2, insertFails2, auditLost2, logLost2)
               == (if readFails2 then (Success(InternalError("Failed to insert transaction")), first.1)
                   else (Success(SuccessWith("Duplicate", ResultData("duplicate", NextTransactionId(st.transactions)))), first.1))
  {
    var c := ReadCallback(request.body.value).value.callback;
    PassedGuards(mac, serialize, secret, st, request, now, readFails, false, auditLost, logLost);
    var st1 := Record(st, c, now, readFails, false, auditLost, logLost).1;
    PassedGuards(mac, serialize, secret, st1, request, now2, readFails2, insertFails2, auditLost2, logLost2);
    FindAfterAppend(st.transactions, RowOf(NextTransactionId(st.transactions), c, now), c.idempotencyKey);
  }

  /** Looking a key up after an append finds the old row if there was one,
      else the appended row if it carries the key. */
  lemma {:induction false} FindAfterAppend(ts: seq<TransactionRow>, row: TransactionRow, key: string)
    ensures FindByKey(ts + [row], key)
            == if FindByKey(ts, key).Some? then FindByKey(ts, key)
               else if row.idempotencyKey == key then Some(row) else None
  {
    if ts != [] {
      assert (ts + [row])[1..] == ts[1..] + [row];
      FindAfterAppend(ts[1..], row, key);
    }
  }

  /** A callback whose key is already stored is a duplicate of that row even
      when its bank id, amount or ref differ, unless the idempotency SELECT
      fails: then the insert hits the UNIQUE index and the answer is a 500.
      A failing insert is a 500, never a duplicate. None of these writes
      anything. */
  lemma ExistingKeyWins(mac: Mac, serialize: Body -> string, secret: string, st: State, request: Request, now: int,
                        readFails: bool, insertFails: bool, auditLost: bool, logLost: bool)
    requires HasSignature(request) && secret != "" && request.body.Some? && Authentic(mac, serialize, secret, request)
    requires ReadCallback(request.body.value).Success? && ReadCallback(request.body.value).value.Valid?
    ensures var key := ReadCallback(request.body.value).value.callback.idempotencyKey;
            var r := Outcome(mac, serialize, secret, st, request, now, readFails, insertFails, auditLost, logLost);
            && (FindByKey(st.transactions, key).Some? && !readFails ==>
                  r == (Success(SuccessWith("Duplicate", ResultData("duplicate", FindByKey(st.transactions, key).value.id))), st))
            && (FindByKey(st.transactions, key).Some? && readFails ==>
                  r == (Success(InternalError("Failed to insert transaction")), st))
            && (FindByKey(st.transactions, key).None? && insertFails ==>
                  r == (Success(InternalError("Failed to insert transaction")), st))
  {
    PassedGuards(mac, serialize, secret, st, request, now, readFails, insertFails, auditLost, logLost);
  }

  /** A request that passes every guard is answered by `Record`. */
  lemma PassedGuards(mac: Mac, serialize: Body -> string, secret: string, st: State, request: Request, now: int,
                     readFails: bool, insertFails: bool, auditLost: bool, logLost: bool)
    requires HasSignature(request) && secret != "" && request.body.Some? && Authentic(mac, serialize, secret, request)
    requires ReadCallback(request.body.value).Success? && ReadCallback(request.body.value).value.Valid?
    ensures var rec := Record(st, ReadCallback(request.body.value).value.callback, now, readFails, insertFails, auditLost, logLost);
            Outcome(mac, serialize, secret, st, request, now, readFails, insertFails, auditLost, logLost) == (Success(rec.0), rec.1)
  {
  }

  /** A request stopped by a guard is answered without the database, so the
      database's behaviour does not matter. */
  lemma StoppedByGuards(mac: Mac, serialize: Body -> string, secret: string, st: State, request: Request, now: int,
                        f1: bool, i1: bool, a1: bool, l1: bool, f2: bool, i2: bool, a2: bool, l2: bool)
    requires !(HasSignature(request) && secret != "" && request.body.Some? && Authentic(mac, serialize, secret, request)
               && ReadCallback(request.body.value).Success? && ReadCallback(request.body.value).value.Valid?)
    ensures Outcome(mac, serialize, secret, st, request, now, f1, i1, a1, l1)
            == Outcome(mac, serialize, secret, st, request, now, f2, i2, a2, l2)
    ensures Outcome(mac, serialize, secret, st, request, now, f1, i1, a1, l1).1 == st
  {
  }

  /** The log writes are best effort: whether they are lost changes neither
      the response nor the transactions table. */
  lemma SideWritesDoNotMatter(mac: Mac, serialize: Body -> string, secret: string, st: State, request: Request, now: int,
                              readFails: bool, insertFails: bool, a1: bool, l1: bool, a2: bool, l2: bool)
    ensures var r1 := Outcome(mac, serialize, secret, st, request, now, readFails, insertFails, a1, l1);
            var r2 := Outcome(mac, serialize, secret, st, request, now, readFails, insertFails, a2, l2);
            r1.0 == r2.0 && r1.1.transactions == r2.1.transactions
  {
    if HasSignature(request) && secret != "" && request.body.Some? && Authentic(mac, serialize, secret, request)
       && ReadCallback(request.body.value).Success? && ReadCallback(request.body.value).value.Valid? {
      RecordSideWrites(st, ReadCallback(request.body.value).value.callback, now, readFails, insertFails, a1, l1, a2, l2);
      PassedGuards(mac, serialize, secret, st, request, now, readFails, insertFails, a1, l1);
      PassedGuards(mac, serialize, secret, st, request, now, readFails, insertFails, a2, l2);
    } else {
      StoppedByGuards(mac, serialize, secret, st, request, now, readFails, insertFails, a1, l1, readFails, insertFails, a2, l2);
    }
  }

  lemma RecordSideWrites(st: State, c: Callback, now: int, readFails: bool, insertFails: bool,
                         a1: bool, l1: bool, a2: bool, l2: bool)
    ensures var r1 := Record(st, c, now, readFails, insertFails, a1, l1);
            var r2 := Record(st, c, now, readFails, insertFails, a2, l2);
            r1.0 == r2.0 && r1.1.transactions == r2.1.transactions
  {
  }

  /** A positive amount below one passes validation and is stored as 0. */
  lemma SubUnitAmountStoredAsZero(v: real)
    requires 0.0 < v < 1.0
    ensures DoubleToLong(Finite(v)) == 0
  {
  }

  /** The ref the QR code carries, "medcard " + id, names that id. */
  lemma MedcardRefRoundTrip(id: int)
    requires Text.LongMin <= id <= Text.LongMax
    ensures RefPrescriptionId(MedcardPrefix + Text.DecimalOf(id)) == Some(id)
  {
    var ref := MedcardPrefix + Text.DecimalOf(id);
    assert ref[|MedcardPrefix|..] == Text.DecimalOf(id);
    assert ref[..|MedcardPrefix|] == MedcardPrefix;
    Text.ParseLongOfDecimal(id);
    DecimalHasNoBlanks(id);
    Text.TrimOfTrimmed(Text.DecimalOf(id));
  }

  /** A decimal starts and ends with a visible character. */
  lemma DecimalHasNoBlanks(n: int)
    ensures var d := Text.DecimalOf(n); !Text.IsTrimmable(d[0]) && !Text.IsTrimmable(d[|d| - 1])
  {
    var d := Text.DecimalOf(n);
    assert Text.IsDigit(d[|d| - 1]) by {
      if n < 0 {
        assert d[|d| - 1] == Text.NatDecimal(-n)[|Text.NatDecimal(-n)| - 1];
      }
    }
  }
}
