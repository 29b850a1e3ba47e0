/** `dnd.server.endpoints.ImportInventoryEndpoint` (`POST /api/inventory/import`)
    and `dnd.server.endpoints.ExportInventoryEndpoint`
    (`POST /api/inventory/export`): goods in and goods out on the `medicines`
    totals, the `medicine_batches` rows and the `inventory_logs` journal. */
module Inventory {
  import opened Wrappers
  import opened Database
  import opened Json
  import opened Responses
  import Text

  const Required: string := "medicine_code, quantity, and staff_id are required"
  const ImportKind: int := 0
  const ExportKind: int := 1
  const Imported: string := "Inventory imported successfully"
  const Exported: string := "Inventory exported successfully"

  /** The tables both endpoints write. */
  datatype Stock = Stock(medicines: map<string, int>, batches: seq<Batch>, logs: seq<InventoryLog>)

  /** No medicine total is negative. */
  predicate NonNegative(medicines: map<string, int>) {
    forall code :: code in medicines ==> medicines[code] >= 0
  }

  /** `UPDATE medicines SET quantity = quantity + ? WHERE code = ?`: an
      unknown code matches no row. */
  function AddToMedicine(medicines: map<string, int>, code: string, delta: int): (r: map<string, int>)
    ensures r.Keys == medicines.Keys
    ensures forall c :: c in medicines && c != code ==> r[c] == medicines[c]
    ensures code in medicines ==> r[code] == medicines[code] + delta
  {
    if code in medicines then medicines[code := medicines[code] + delta] else medicines
  }

  /** `UPDATE medicine_batches SET quantity = quantity + ? WHERE id = ?`. */
  function AddToBatch(batches: seq<Batch>, id: int, delta: int): (r: seq<Batch>)
    ensures |r| == |batches|
    ensures forall i :: 0 <= i < |batches| && batches[i].id != id ==> r[i] == batches[i]
    ensures forall i :: 0 <= i < |batches| && batches[i].id == id ==>
              r[i] == batches[i].(quantity := batches[i].quantity + delta)
  {
    if batches == [] then []
    else
      var b := batches[0];
      [if b.id == id then b.(quantity := b.quantity + delta) else b] + AddToBatch(batches[1..], id, delta)
  }

  /** `SELECT * FROM medicine_batches WHERE medicine_code = ? AND
      batch_number = ?`, first row. SQL's `= NULL` is never true, so no batch
      number finds nothing, and a batch stored without one is never found. */
  function FindBatch(batches: seq<Batch>, code: string, number: Option<string>): (r: Option<Batch>)
    ensures r.Some? <==>
              number.Some? && exists i :: 0 <= i < |batches| && batches[i].medicineCode == code && batches[i].batchNumber == number
    ensures r.Some? ==> r.value in batches && r.value.medicineCode == code && r.value.batchNumber == number
  {
    if number.None? || batches == [] then None
    else if batches[0].medicineCode == code && batches[0].batchNumber == number then Some(batches[0])
    else
      assert forall i :: 1 <= i < |batches| ==> batches[i] == batches[1..][i - 1];
      FindBatch(batches[1..], code, number)
  }

  // ---------------------------------------------------------------------------
  // Import

  datatype ImportRequest = ImportRequest(
    code: Option<string>, batchNumber: Option<string>, quantity: int, staffId: Option<string>, note: Option<string>)

  /** The five fields in source order; a `getAsString`/`getAsInt` that throws
      ends the request with that exception. */
  function ReadImport(body: Body): Throws<ImportRequest> {
    var code :- StringField(body, "medicine_code");
    var number :- StringField(body, "batch_number");
    var quantity :- IntFieldOrZero(body, "quantity");
    var staff :- StringField(body, "staff_id");
    var note :- StringField(body, "note");
    Success(ImportRequest(code, number, quantity, staff, note))
  }

  predicate ImportValid(q: ImportRequest) {
    q.code.Some? && q.quantity > 0 && q.staffId.Some?
  }

  /** The batch an import adds to: the one `FindBatch` finds, or none when
      that SELECT fails (a failed query reads as no row). */
  function BatchFound(st: Stock, q: ImportRequest, batchReadFails: bool): (r: Option<Batch>)
    requires ImportValid(q)
    ensures batchReadFails ==> r == None
    ensures !batchReadFails ==> r == FindBatch(st.batches, q.code.value, q.batchNumber)
  {
    if batchReadFails then None else FindBatch(st.batches, q.code.value, q.batchNumber)
  }

  /** An accepted import on `st`: the matching batch gains the quantity (or a
      new batch holds it), the medicine total gains it, one type-0 log row
      naming that batch. */
  function Receive(st: Stock, q: ImportRequest, batchReadFails: bool): (r: Stock)
    requires ImportValid(q)
    ensures r.medicines == AddToMedicine(st.medicines, q.code.value, q.quantity)
    ensures var found := BatchFound(st, q, batchReadFails);
            && (found.Some? ==> r.batches == AddToBatch(st.batches, found.value.id, q.quantity))
            && (found.None? ==> r.batches == st.batches + [Batch(NextBatchId(st.batches), q.code.value, q.batchNumber, q.quantity)])
            && r.logs == st.logs + [InventoryLog(ImportKind, q.code.value,
                                                 Some(if found.Some? then found.value.id else NextBatchId(st.batches)),
                                                 q.quantity, q.staffId.value, None, q.note)]
  {
    var code := q.code.value;
    var (batches, batchId) :=
      match BatchFound(st, q, batchReadFails)
      case Some(b) => (AddToBatch(st.batches, b.id, q.quantity), b.id)
      case None =>
        var id := NextBatchId(st.batches);
        (st.batches + [Batch(id, code, q.batchNumber, q.quantity)], id);
    Stock(AddToMedicine(st.medicines, code, q.quantity), batches,
          st.logs + [InventoryLog(ImportKind, code, Some(batchId), q.quantity, q.staffId.value, None, q.note)])
  }

  /** `ImportInventoryEndpoint.handle(request)` on `st`; `batchReadFails`
      is a failed batch SELECT. */
  function ImportOutcome(st: Stock, request: Request, batchReadFails: bool): (r: (Throws<Response>, Stock))
    ensures request.body.None? ==> r == (Success(BadRequest("Request body is required")), st)
    ensures r.0 == Success(SuccessWith(Imported, VNull)) <==>
              request.body.Some? && ReadImport(request.body.value).Success? && ImportValid(ReadImport(request.body.value).value)
    ensures r.0 == Success(SuccessWith(Imported, VNull)) ==> r.1 == Receive(st, ReadImport(request.body.value).value, batchReadFails)
    ensures r.0 != Success(SuccessWith(Imported, VNull)) ==> r.1 == st
  {
    if request.body.None? then (Success(BadRequest("Request body is required")), st)
    else match ReadImport(request.body.value)
      case Failure(e) => (Failure(e), st)
      case Success(q) =>
        if !ImportValid(q) then (Success(BadRequest(Required)), st)
        else (Success(SuccessWith(Imported, VNull)), Receive(st, q, batchReadFails))
  }

  /** `ImportInventoryEndpoint.handle(request)` on the database `db`. */
  method Import(db: Db, request: Request, batchReadFails: bool) returns (r: Throws<Response>)
    modifies db`medicines, db`batches, db`inventoryLogs
    ensures (r, Stock(db.medicines, db.batches, db.inventoryLogs))
            == ImportOutcome(Stock(old(db.medicines), old(db.batches), old(db.inventoryLogs)), request, batchReadFails)
  {
    if request.body.None? {
      return Success(BadRequest("Request body is required"));
    }
    var read := ReadImport(request.body.value);
    if read.Failure? {
      return Failure(read.error);
    }
    var q := read.value;
    if !ImportValid(q) {
      return Success(BadRequest(Required));
    }
    var code := q.code.value;
    var batch: Option<Batch> := None;
    if !batchReadFails {
      batch := FindBatch(db.batches, code, q.batchNumber);
    }
    var batchId: int;
    if batch.None? {
      batchId := NextBatchId(db.batches);
      db.batches := db.batches + [Batch(batchId, code, q.batchNumber, q.quantity)];
    } else {
      batchId := batch.value.id;
      db.batches := AddToBatch(db.batches, batchId, q.quantity);
    }
    db.medicines := AddToMedicine(db.medicines, code, q.quantity);
    db.inventoryLogs := db.inventoryLogs + [InventoryLog(ImportKind, code, Some(batchId), q.quantity, q.staffId.value, None, q.note)];
    r := Success(SuccessWith(Imported, VNull));
  }

  // ---------------------------------------------------------------------------
  // Export

  datatype ExportRequest = ExportRequest(
    code: Option<string>, batchId: Option<int>, quantity: int, staffId: Option<string>,
    prescriptionId: Option<int>, note: Option<string>)

  /** The six fields in source order. */
  function ReadExport(body: Body): Throws<ExportRequest> {
    var code :- StringField(body, "medicine_code");
    var batchId :- NonNullLongField(body, "batch_id");
    var quantity :- IntFieldOrZero(body, "quantity");
    var staff :- StringField(body, "staff_id");
    var prescriptionId :- NonNullLongField(body, "prescription_id");
    var note :- StringField(body, "note");
    Success(ExportRequest(code, batchId, quantity, staff, prescriptionId, note))
  }

  predicate ExportValid(q: ExportRequest) {
    q.code.Some? && q.quantity > 0 && q.staffId.Some?
  }

  /** An accepted export on `st`: the medicine total loses the quantity, the
      named batch (if any) loses it without any check, one type-1 log row. */
  function Issue(st: Stock, q: ExportRequest): (r: Stock)
    requires ExportValid(q)
    ensures r.medicines == AddToMedicine(st.medicines, q.code.value, -q.quantity)
    ensures r.batches == if q.batchId.Some? then AddToBatch(st.batches, q.batchId.value, -q.quantity) else st.batches
    ensures r.logs == st.logs + [InventoryLog(ExportKind, q.code.value, q.batchId, -q.quantity, q.staffId.value, q.prescriptionId, q.note)]
  {
    Stock(AddToMedicine(st.medicines, q.code.value, -q.quantity),
          if q.batchId.Some? then AddToBatch(st.batches, q.batchId.value, -q.quantity) else st.batches,
          st.logs + [InventoryLog(ExportKind, q.code.value, q.batchId, -q.quantity, q.staffId.value, q.prescriptionId, q.note)])
  }

  /** `ExportInventoryEndpoint.handle(request)` on `st`: an unknown medicine
      or a total below the quantity is a 400 that changes nothing. */
  function ExportOutcome(st: Stock, request: Request): (r: (Throws<Response>, Stock))
    ensures request.body.None? ==> r == (Success(BadRequest("Request body is required")), st)
    ensures r.0 == Success(SuccessWith(Exported, VNull)) <==>
              && request.body.Some? && ReadExport(request.body.value).Success?
              && var q := ReadExport(request.body.value).value;
              && ExportValid(q) && q.code.value in st.medicines && st.medicines[q.code.value] >= q.quantity
    ensures r.0 == Success(SuccessWith(Exported, VNull)) ==> r.1 == Issue(st, ReadExport(request.body.value).value)
    ensures r.0 != Success(SuccessWith(Exported, VNull)) ==> r.1 == st
  {
    if request.body.None? then (Success(BadRequest("Request body is required")), st)
    else match ReadExport(request.body.value)
      case Failure(e) => (Failure(e), st)
      case Success(q) =>
        if !ExportValid(q) then (Success(BadRequest(Required)), st)
        else
          var code := q.code.value;
          if code !in st.medicines then (Success(BadRequest("Medicine not found: " + code)), st)
          else if st.medicines[code] < q.quantity then
            (Success(BadRequest("Insufficient inventory. Available: " + Text.DecimalOf(st.medicines[code])
                                + ", Requested: " + Text.DecimalOf(q.quantity))), st)
          else (Success(SuccessWith(Exported, VNull)), Issue(st, q))
  }

  /** `ExportInventoryEndpoint.handle(request)` on the database `db`. */
  method Export(db: Db, request: Request) returns (r: Throws<Response>)
    modifies db`medicines, db`batches, db`inventoryLogs
    ensures (r, Stock(db.medicines, db.batches, db.inventoryLogs))
            == ExportOutcome(Stock(old(db.medicines), old(db.batches), old(db.inventoryLogs)), request)
  {
    if request.body.None? {
      return Success(BadRequest("Request body is required"));
    }
    var read := ReadExport(request.body.value);
    if read.Failure? {
      return Failure(read.error);
    }
    var q := read.value;
    if !ExportValid(q) {
      return Success(BadRequest(Required));
    }
    var code := q.code.value;
    if code !in db.medicines {
      return Success(BadRequest("Medicine not found: " + code));
    }
    var current := db.medicines[code];
    if current < q.quantity {
      return Success(BadRequest("Insufficient inventory. Available: " + Text.DecimalOf(current)
                                + ", Requested: " + Text.DecimalOf(q.quantity)));
    }
    db.medicines := AddToMedicine(db.medicines, code, -q.quantity);
    if q.batchId.Some? {
      db.batches := AddToBatch(db.batches, q.batchId.value, -q.quantity);
    }
    db.inventoryLogs := db.inventoryLogs + [InventoryLog(ExportKind, code, q.batchId, -q.quantity, q.staffId.value, q.prescriptionId, q.note)];
    r := Success(SuccessWith(Exported, VNull));
  }

  // ---------------------------------------------------------------------------
  // Laws

  /** Neither endpoint makes a medicine total negative. */
  lemma TotalsStayNonNegative(st: Stock, request: Request, batchReadFails: bool)
    requires NonNegative(st.medicines)
    ensures NonNegative(ImportOutcome(st, request, batchReadFails).1.medicines)
    ensures NonNegative(ExportOutcome(st, request).1.medicines)
  {
    var after := ExportOutcome(st, request).1;
    if after != st {
      var q := ReadExport(request.body.value).value;
      assert after == Issue(st, q);
      forall c | c in after.medicines ensures after.medicines[c] >= 0 {
        if c == q.code.value {
          assert after.medicines[c] == st.medicines[c] - q.quantity;
        }
      }
    }
  }

  /** Importing a quantity of a stocked medicine and then exporting the same
      quantity of it restores its total; the export cannot be refused for
      lack of stock. */
  lemma ImportThenExportRestores(st: Stock, imp: Request, exp: Request, batchReadFails: bool)
    requires imp.body.Some? && ReadImport(imp.body.value).Success? && ImportValid(ReadImport(imp.body.value).value)
    requires exp.body.Some? && ReadExport(exp.body.value).Success? && ExportValid(ReadExport(exp.body.value).value)
    requires ReadExport(exp.body.value).value.code == ReadImport(imp.body.value).value.code
    requires ReadExport(exp.body.value).value.quantity == ReadImport(imp.body.value).value.quantity
    requires var code := ReadImport(imp.body.value).value.code.value; code in st.medicines && st.medicines[code] >= 0
    ensures var mid := ImportOutcome(st, imp, batchReadFails).1;
            var end := ExportOutcome(mid, exp);
            && end.0 == Success(SuccessWith(Exported, VNull))
            && end.1.medicines == st.medicines
  {
    var q := ReadImport(imp.body.value).value;
    var e := ReadExport(exp.body.value).value;
    var mid := ImportOutcome(st, imp, batchReadFails).1;
    assert mid == Receive(st, q, batchReadFails);
    ReceiveThenIssue(st, q, e, batchReadFails);
  }

  lemma ReceiveThenIssue(st: Stock, q: ImportRequest, e: ExportRequest, batchReadFails: bool)
    requires ImportValid(q) && ExportValid(e) && e.code == q.code && e.quantity == q.quantity
    requires q.code.value in st.medicines
    ensures var mid := Receive(st, q, batchReadFails);
            && q.code.value in mid.medicines && mid.medicines[q.code.value] >= e.quantity + st.medicines[q.code.value]
            && Issue(mid, e).medicines == st.medicines
  {
    var code := q.code.value;
    var m := Receive(st, q, batchReadFails).medicines;
    assert m == st.medicines[code := st.medicines[code] + q.quantity];
    assert Issue(Receive(st, q, batchReadFails), e).medicines == m[code := m[code] - q.quantity];
  }

  /** An import without a batch number always opens a new batch, even when the
      same import was just made: SQL's `batch_number = NULL` never matches. */
  lemma NoBatchNumberOpensNewBatch(st: Stock, q: ImportRequest, f1: bool, f2: bool)
    requires ImportValid(q) && q.batchNumber.None?
    ensures Receive(st, q, f1).batches == st.batches + [Batch(NextBatchId(st.batches), q.code.value, None, q.quantity)]
    ensures Receive(Receive(st, q, f1), q, f2).batches
            == st.batches + [Batch(NextBatchId(st.batches), q.code.value, None, q.quantity),
                             Batch(NextBatchId(Receive(st, q, f1).batches), q.code.value, None, q.quantity)]
  {
    var once := Receive(st, q, f1);
    assert Receive(once, q, f2).batches == once.batches + [Batch(NextBatchId(once.batches), q.code.value, None, q.quantity)];
  }

  /** When the batch SELECT fails, an import whose batch already exists opens
      a second batch with the same medicine code and batch number, and the
      existing batch is left as it was. */
  lemma FailedBatchReadOpensSecondBatch(st: Stock, q: ImportRequest)
    requires ImportValid(q) && FindBatch(st.batches, q.code.value, q.batchNumber).Some?
    ensures var after := Receive(st, q, true).batches;
            && after == st.batches + [Batch(NextBatchId(st.batches), q.code.value, q.batchNumber, q.quantity)]
            && exists i, j :: 0 <= i < j < |after| && after[i].medicineCode == after[j].medicineCode == q.code.value
                                                 && after[i].batchNumber == after[j].batchNumber == q.batchNumber
  {
    var after := Receive(st, q, true).batches;
    var i :| 0 <= i < |st.batches| && st.batches[i].medicineCode == q.code.value && st.batches[i].batchNumber == q.batchNumber;
    assert after[i] == st.batches[i];
    assert after[|st.batches|].batchNumber == q.batchNumber;
  }

  /** The batch of an export is debited without a stock check: a batch can go
      negative while the medicine total stays within bounds. */
  lemma BatchCanGoNegative(staff: string)
    ensures var st := Stock(map["PARA" := 5], [Batch(1, "PARA", Some("B1"), 0)], []);
            var q := ExportRequest(Some("PARA"), Some(1), 5, Some(staff), None, None);
            && ExportValid(q) && st.medicines["PARA"] >= q.quantity
            && Issue(st, q).batches[0].quantity == -5
            && Issue(st, q).medicines["PARA"] == 0
  {
  }
}
