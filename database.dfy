/** The MySQL tables the core reads and writes, held in memory. Each table is a
    field of `Db` that the endpoint methods reassign. The model assumes an
    auto-increment id is one more than the largest id in its table: ids that
    MySQL consumes on failed inserts are not modelled. What the SQL text does
    is stated by the functions of the module that issues it. */
module Database {
  import opened Wrappers
  import opened Bytes

  /** A `card_keys` row. Columns that may hold SQL NULL are `Option`s. */
  datatype CardRow = CardRow(
    cardId: string,
    status: int,
    publicKey: Option<Bytes>,
    encryptedKey: Option<Bytes>,
    keyIv: Option<Bytes>,
    lastAuthAt: Option<int>)

  /** A `card_sessions` row, written by `CardSessionDao.insertSession`. */
  datatype CardSessionRow = CardSessionRow(
    cardId: string,
    sessionId: string,
    challengeServer: Bytes,
    challengeCard: Bytes,
    expiresAt: int)

  /** A `transactions` row; `idempotencyKey` carries a UNIQUE index. */
  datatype TransactionRow = TransactionRow(
    id: int,
    bankId: string,
    amount: int,
    ref: string,
    content: Option<string>,
    playerId: Option<string>,
    timestampMs: int,
    idempotencyKey: string,
    createdAt: int)

  /** The columns of a `prescriptions` row the core reads: its code and its
      status (2 completed, 3 cancelled). */
  datatype Prescription = Prescription(code: string, status: int)

  /** A `medicine_batches` row. */
  datatype Batch = Batch(id: int, medicineCode: string, batchNumber: Option<string>, quantity: int)

  /** An `inventory_logs` row: `kind` 0 is an import, 1 an export. */
  datatype InventoryLog = InventoryLog(
    kind: int,
    medicineCode: string,
    batchId: Option<int>,
    change: int,
    staffId: string,
    prescriptionId: Option<int>,
    note: Option<string>)

  /** An `audit_history` or `system_logs` row: the action (`session_id` in
      `audit_history`), its description (`result`), and the staff id
      (`staff_id` or `admin_staff_id`), which may be NULL. */
  datatype LogRow = LogRow(action: string, description: string, staff: Option<string>)

  class Db {
    var cards: seq<CardRow>
    var cardSessions: seq<CardSessionRow>
    var transactions: seq<TransactionRow>
    /** `prescriptions`, keyed by id. */
    var prescriptions: map<int, Prescription>
    /** `medicines`: the total quantity of each medicine code. */
    var medicines: map<string, int>
    var batches: seq<Batch>
    var inventoryLogs: seq<InventoryLog>
    var auditHistory: seq<LogRow>
    var systemLogs: seq<LogRow>
    /** `staff_info`: the `avatar_url` of each staff id. */
    var staffAvatars: map<string, Option<string>>

    constructor()
      ensures cards == [] && cardSessions == [] && transactions == [] && batches == []
      ensures prescriptions == map[] && medicines == map[] && staffAvatars == map[]
      ensures inventoryLogs == [] && auditHistory == [] && systemLogs == []
    {
      cards, cardSessions, transactions, batches := [], [], [], [];
      prescriptions, medicines, staffAvatars := map[], map[], map[];
      inventoryLogs, auditHistory, systemLogs := [], [], [];
    }
  }

  /** The id an auto-increment column hands out next, given the ids already
      in the table: at least 1 and larger than each of them, so it names the
      new row only. */
  function NextId(ids: seq<int>): (id: int)
    ensures id >= 1
    ensures forall i :: 0 <= i < |ids| ==> ids[i] < id
  {
    if ids == [] then 1
    else
      var rest := NextId(ids[..|ids| - 1]);
      var last := ids[|ids| - 1] + 1;
      if last > rest then last else rest
  }

  /** The id the next `transactions` insert receives. */
  function NextTransactionId(ts: seq<TransactionRow>): (id: int)
    ensures id >= 1
    ensures forall i :: 0 <= i < |ts| ==> ts[i].id < id
  {
    var ids := seq(|ts|, i requires 0 <= i < |ts| => ts[i].id);
    assert forall i :: 0 <= i < |ts| ==> ts[i].id == ids[i];
    NextId(ids)
  }

  /** The id the next `medicine_batches` insert receives. */
  function NextBatchId(bs: seq<Batch>): (id: int)
    ensures id >= 1
    ensures forall i :: 0 <= i < |bs| ==> bs[i].id < id
  {
    var ids := seq(|bs|, i requires 0 <= i < |bs| => bs[i].id);
    assert forall i :: 0 <= i < |bs| ==> bs[i].id == ids[i];
    NextId(ids)
  }
}
