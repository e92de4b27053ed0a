/**
 * Session transactions of the executor: row operations on slotted table pages, the undo log they
 * write, and ROLLBACK, which replays the log backwards and then aborts the transaction.
 */
module RollbackModel {

  type PageId = nat
  type RowId = nat
  type TxnId = nat

  const INVALID_TXN_ID: TxnId := 0

  datatype Cell = Null | Int(value: int) | Text(chars: string)
  type Row = seq<Cell>

  /** The bytes a record takes in its page: a 26-byte header, then a null flag and the value. */
  function CellSize(c: Cell): nat {
    match c
    case Null => 1
    case Int(_) => 1 + 4
    case Text(chars) => 1 + 4 + 2 * |chars|
  }

  function RecordSize(row: Row): nat {
    if row == [] then 26 else CellSize(row[0]) + RecordSize(row[1..])
  }

  /** A slot of a table page: vacuumed, or a record with its header, values and byte length. */
  datatype Slot = Free | Record(rowId: RowId, xmin: TxnId, xmax: TxnId, row: Row, length: nat)

  datatype TxnState = Active | Committed | Aborted

  datatype Undo =
    | UndoInsert(page: PageId, slot: nat)
    | UndoUpdate(page: PageId, slot: nat, oldRow: Row)
    | UndoDelete(page: PageId, slot: nat)

  datatype Database = Database(
    pages: map<PageId, seq<Slot>>,
    txns: map<TxnId, TxnState>,
    nextTxn: TxnId,
    current: TxnId,
    undo: seq<Undo>)

  // ---------- Visibility ----------

  /** A transaction the manager no longer knows counts as committed; id 0 as neither. */
  predicate IsCommitted(txns: map<TxnId, TxnState>, t: TxnId) {
    t != INVALID_TXN_ID && (t !in txns || txns[t] == Committed)
  }

  predicate IsAborted(txns: map<TxnId, TxnState>, t: TxnId) {
    t != INVALID_TXN_ID && t in txns && txns[t] == Aborted
  }

  /** The six visibility rules, in the order the checker applies them. */
  predicate IsVisible(txns: map<TxnId, TxnState>, s: Slot, reader: TxnId): (visible: bool)
    ensures visible ==> s.Record?
  {
    s.Record? &&
    if !IsCommitted(txns, s.xmin) && s.xmin != reader then false
    else if IsAborted(txns, s.xmin) then false
    else if s.xmax == INVALID_TXN_ID then true
    else if s.xmax == reader then false
    else !IsCommitted(txns, s.xmax)
  }

  /** Reader `c` sees `row` in slot `i` of page `p`. */
  ghost predicate Sees(db: Database, c: TxnId, p: PageId, i: nat, row: Row) {
    p in db.pages && i < |db.pages[p]| && IsVisible(db.txns, db.pages[p][i], c) && db.pages[p][i].row == row
  }

  // ---------- The record operations of a table page ----------

  function DeleteSlot(s: Slot, t: TxnId): (r: (bool, Slot)) {
    if s.Free? || s.xmax != INVALID_TXN_ID then (false, s) else (true, s.(xmax := t))
  }

  /** In-place update: refused for a deleted record and for one that would grow; a record that gets
      shorter gives up the bytes it no longer needs. */
  function UpdateSlot(s: Slot, row: Row): (r: (bool, Slot)) {
    if s.Free? || s.xmax != INVALID_TXN_ID || RecordSize(row) > s.length then (false, s)
    else (true, s.(row := row, length := RecordSize(row)))
  }

  function InsertSlot(rowId: RowId, t: TxnId, row: Row): Slot {
    Record(rowId, t, INVALID_TXN_ID, row, RecordSize(row))
  }

  /** A page scan numbers the records it returns and skips free slots: the slot of the i-th record. */
  function Scanned(slots: seq<Slot>, i: nat): (r: int)
    ensures -1 <= r < |slots|
  {
    if slots == [] then -1
    else if slots[0].Free? then
      var r := Scanned(slots[1..], i); if r < 0 then -1 else r + 1
    else if i == 0 then 0
    else var r := Scanned(slots[1..], i - 1); if r < 0 then -1 else r + 1
  }

  // ---------- Statements, row by row ----------

  /** One row operation.  An update that does not fit in place deletes the record and inserts the new
      one on page `spill`, if that page has room. */
  datatype Op =
    | Insert(page: PageId, rowId: RowId, row: Row)
    | Update(page: PageId, index: nat, row: Row, spill: PageId, newRowId: RowId)
    | Delete(page: PageId, index: nat)

  predicate InTxn(db: Database) {
    db.current != INVALID_TXN_ID && db.current in db.txns && db.txns[db.current] == Active
  }

  /** The row operation reads record `index` of the scan of `p`, if the transaction sees it, and then
      writes to slot `index`. */
  predicate Targets(db: Database, p: PageId, index: nat) {
    p in db.pages && index < |db.pages[p]| && Scanned(db.pages[p], index) >= 0 &&
    IsVisible(db.txns, db.pages[p][Scanned(db.pages[p], index)], db.current)
  }

  function WithSlot(pages: map<PageId, seq<Slot>>, p: PageId, i: nat, s: Slot): map<PageId, seq<Slot>>
    requires p in pages && i < |pages[p]|
  {
    pages[p := pages[p][i := s]]
  }

  function Append(pages: map<PageId, seq<Slot>>, p: PageId, s: Slot): map<PageId, seq<Slot>> {
    pages[p := (if p in pages then pages[p] else []) + [s]]
  }

  function ApplyInsert(db: Database, p: PageId, rowId: RowId, row: Row): Database {
    var at := if p in db.pages then |db.pages[p]| else 0;
    db.(pages := Append(db.pages, p, InsertSlot(rowId, db.current, row)), undo := db.undo + [UndoInsert(p, at)])
  }

  function ApplyUpdate(db: Database, p: PageId, i: nat, row: Row, spill: PageId, newRowId: RowId): Database {
    if !Targets(db, p, i) then db
    else
      var oldRow := db.pages[p][Scanned(db.pages[p], i)].row;
      var (ok, s) := UpdateSlot(db.pages[p][i], row);
      if ok then db.(pages := WithSlot(db.pages, p, i, s), undo := db.undo + [UndoUpdate(p, i, oldRow)])
      else
        var (gone, d) := DeleteSlot(db.pages[p][i], db.current);
        if !gone then db
        else
          var deleted := WithSlot(db.pages, p, i, d);
          db.(pages := if spill in deleted then Append(deleted, spill, InsertSlot(newRowId, db.current, row)) else deleted)
  }

  function ApplyDelete(db: Database, p: PageId, i: nat): Database {
    if !Targets(db, p, i) then db
    else
      var (ok, d) := DeleteSlot(db.pages[p][i], db.current);
      if ok then db.(pages := WithSlot(db.pages, p, i, d), undo := db.undo + [UndoDelete(p, i)]) else db
  }

  function Apply(db: Database, op: Op): Database {
    match op
    case Insert(p, rowId, row) => ApplyInsert(db, p, rowId, row)
    case Update(p, i, row, spill, newRowId) => ApplyUpdate(db, p, i, row, spill, newRowId)
    case Delete(p, i) => ApplyDelete(db, p, i)
  }

  function Run(db: Database, ops: seq<Op>): Database {
    if ops == [] then db else Apply(Run(db, ops[..|ops| - 1]), ops[|ops| - 1])
  }

  // ---------- BEGIN, COMMIT, ROLLBACK ----------

  function Begin(db: Database): Database {
    db.(txns := db.txns[db.nextTxn := Active], current := db.nextTxn, nextTxn := db.nextTxn + 1, undo := [])
  }

  function Commit(db: Database): Database {
    db.(txns := db.txns[db.current := Committed], current := INVALID_TXN_ID)
  }

  function UndoSlot(s: Slot, t: TxnId, u: Undo): Slot {
    match u
    case UndoInsert(_, _) => DeleteSlot(s, t).1
    case UndoUpdate(_, _, oldRow) => UpdateSlot(s, oldRow).1
    case UndoDelete(_, _) => if s.Free? then s else s.(xmax := INVALID_TXN_ID)
  }

  function UndoOne(pages: map<PageId, seq<Slot>>, t: TxnId, u: Undo): map<PageId, seq<Slot>> {
    if u.page in pages && u.slot < |pages[u.page]|
    then WithSlot(pages, u.page, u.slot, UndoSlot(pages[u.page][u.slot], t, u))
    else pages
  }

  /** Replaying the log from its end to its beginning. */
  function UndoAll(pages: map<PageId, seq<Slot>>, t: TxnId, undo: seq<Undo>): map<PageId, seq<Slot>> {
    if undo == [] then pages else UndoAll(UndoOne(pages, t, undo[|undo| - 1]), t, undo[..|undo| - 1])
  }

  function Rollback(db: Database): Database {
    db.(pages := UndoAll(db.pages, db.current, db.undo), txns := db.txns[db.current := Aborted], current := INVALID_TXN_ID)
  }
}
