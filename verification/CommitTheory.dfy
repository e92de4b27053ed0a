/**
 * What the transaction itself sees, what other readers see of it while it runs, and what COMMIT gives
 * them.
 */
module CommitTheory {
  import opened RollbackModel
  import opened RollbackTheory

  // ---------- Readers that wrote nothing ----------

  /** A record was created or deleted under the number. */
  predicate Names(s: Slot, c: TxnId) {
    s.Record? && (s.xmin == c || (s.xmax == c && c != INVALID_TXN_ID))
  }

  ghost predicate Unnamed(db: Database, c: TxnId) {
    forall p, i {:trigger db.pages[p][i]} :: p in db.pages && 0 <= i < |db.pages[p]| ==> !Names(db.pages[p][i], c)
  }

  /** Reader `y` of `b` sees just what reader `x` of `a` sees. */
  ghost predicate SameReading(a: Database, x: TxnId, b: Database, y: TxnId) {
    forall p: PageId, i: nat, row: Row :: Sees(a, x, p, i, row) <==> Sees(b, y, p, i, row)
  }

  /** COMMIT: every reader that wrote nothing sees exactly what the transaction saw, its own inserts,
      updates and deletes included. */
  lemma CommitTheorem(db: Database, c: TxnId)
    requires InTxn(db) && Unnamed(db, c)
    ensures SameReading(db, db.current, Commit(db), c)
  {
    forall p: PageId, i: nat, row: Row ensures Sees(db, db.current, p, i, row) <==> Sees(Commit(db), c, p, i, row) {
      if Existed(db, p, i) { CommittedSlot(db.txns, db.current, db.pages[p][i], c); }
    }
  }

  lemma CommittedSlot(txns: map<TxnId, TxnState>, t: TxnId, s: Slot, c: TxnId)
    requires t != INVALID_TXN_ID && t in txns && txns[t] == Active && !Names(s, c)
    ensures IsVisible(txns, s, t) <==> IsVisible(txns[t := Committed], s, c)
  {
  }

  /** BEGIN: a transaction under a fresh number starts with what any reader saw that wrote nothing. */
  lemma BeginTheorem(db: Database, c: TxnId)
    requires Unnamed(db, c) && Unnamed(db, db.nextTxn) && db.nextTxn != INVALID_TXN_ID
    ensures SameReading(db, c, Begin(db), db.nextTxn)
  {
    forall p: PageId, i: nat, row: Row ensures Sees(db, c, p, i, row) <==> Sees(Begin(db), db.nextTxn, p, i, row) {
      if Existed(db, p, i) { FreshSlot(db.txns, db.nextTxn, db.pages[p][i], c); }
    }
  }

  lemma FreshSlot(txns: map<TxnId, TxnState>, t: TxnId, s: Slot, c: TxnId)
    requires t != INVALID_TXN_ID && !Names(s, t) && !Names(s, c)
    ensures IsVisible(txns, s, c) <==> IsVisible(txns[t := Active], s, t)
  {
  }

  // ---------- Numbers ----------

  /** Every number in a record is below the next one to be given out. */
  ghost predicate Numbered(db: Database) {
    forall p, i {:trigger db.pages[p][i]} :: p in db.pages && 0 <= i < |db.pages[p]| ==> SlotNumbered(db.pages[p][i], db.nextTxn)
  }

  predicate SlotNumbered(s: Slot, next: TxnId) {
    s.Record? ==> s.xmin < next && s.xmax < next
  }

  /** Then the next transaction's number is in no record. */
  lemma NumberedIsFresh(db: Database)
    requires Numbered(db) && db.nextTxn != INVALID_TXN_ID
    ensures Unnamed(db, db.nextTxn) && NumberUnclaimed(db)
  {
  }

  lemma ApplyNumbered(s: Database, op: Op)
    requires Numbered(s) && s.current < s.nextTxn
    ensures Numbered(Apply(s, op))
  {
    hide RecordSize, Scanned, IsVisible;
    var s' := Apply(s, op);
    forall p, i | p in s'.pages && 0 <= i < |s'.pages[p]| ensures SlotNumbered(s'.pages[p][i], s'.nextTxn) {
      if p in s.pages && i < |s.pages[p]| { assert SlotNumbered(s.pages[p][i], s.nextTxn); }
    }
  }

  lemma {:induction false} RunNumbered(db: Database, ops: seq<Op>)
    requires Numbered(db) && db.current < db.nextTxn
    ensures Numbered(Run(db, ops))
  {
    RunNumbers(db, ops);
    if ops != [] {
      RunNumbers(db, ops[..|ops| - 1]);
      RunNumbered(db, ops[..|ops| - 1]);
      ApplyNumbered(Run(db, ops[..|ops| - 1]), ops[|ops| - 1]);
    }
  }

  lemma {:induction false} UndoNumbered(s: Slot, t: TxnId, log: seq<Undo>, next: TxnId)
    requires SlotNumbered(s, next) && t < next
    ensures SlotNumbered(UndoLog(s, t, log), next)
    decreases |log|
  {
    hide RecordSize;
    if log != [] { UndoNumbered(UndoSlot(s, t, log[|log| - 1]), t, log[..|log| - 1], next); }
  }

  /** Transactions that give out numbers upwards never meet a record that names the next one: without a
      restart, runs, commits and rollbacks keep it so. */
  lemma StaysNumbered(db: Database, ops: seq<Op>)
    requires Numbered(db) && db.nextTxn != INVALID_TXN_ID
    ensures var s := Run(Begin(db), ops); Numbered(s) && Numbered(Commit(s)) && Numbered(Rollback(s))
  {
    hide Run, UndoAll, UndoLog, SlotNumbered;
    var b := Begin(db);
    var s := Run(b, ops);
    forall p, i | p in b.pages && 0 <= i < |b.pages[p]| ensures SlotNumbered(b.pages[p][i], b.nextTxn) {
      HigherNext(db.pages[p][i], db.nextTxn);
    }
    RunNumbered(b, ops);
    RunNumbers(b, ops);
    UndoAllKeys(s.pages, s.current, s.undo);
    var r := UndoAll(s.pages, s.current, s.undo);
    forall p, i | p in r && 0 <= i < |r[p]| ensures SlotNumbered(r[p][i], s.nextTxn) {
      UndoAllAt(s.pages, s.current, s.undo, p, i);
      UndoNumbered(s.pages[p][i], s.current, LogAt(s.undo, p, i), s.nextTxn);
    }
  }

  lemma HigherNext(s: Slot, next: TxnId)
    requires SlotNumbered(s, next)
    ensures SlotNumbered(s, next + 1)
  {
  }

  // ---------- The transaction's own view, operation by operation ----------

  /** Reader `t` sees `row` there and nothing else. */
  ghost predicate Shows(db: Database, t: TxnId, p: PageId, i: nat, row: Row) {
    forall r: Row :: Sees(db, t, p, i, r) <==> r == row
  }

  ghost predicate Hides(db: Database, t: TxnId, p: PageId, i: nat) {
    forall r: Row :: !Sees(db, t, p, i, r)
  }

  /** Slot `at` of page `p`, and no other, may look different. */
  ghost predicate SameBut(db: Database, db': Database, t: TxnId, p: PageId, at: nat) {
    forall q: PageId, j: nat, r: Row :: !(q == p && j == at) ==> (Sees(db, t, q, j, r) <==> Sees(db', t, q, j, r))
  }

  function Length(db: Database, p: PageId): nat {
    if p in db.pages then |db.pages[p]| else 0
  }

  /** An insert adds its row in a new slot. */
  ghost predicate InsertSeen(db: Database, db': Database, p: PageId, row: Row) {
    Hides(db, db.current, p, Length(db, p)) && Shows(db', db.current, p, Length(db, p), row) &&
    SameBut(db, db', db.current, p, Length(db, p))
  }

  /** A record that is not deleted can be written. */
  predicate Writable(s: Slot) {
    s.Record? && s.xmax == INVALID_TXN_ID
  }

  /** A delete takes away what is in the slot and nothing else, or changes nothing. */
  ghost predicate DeleteSeen(db: Database, db': Database, p: PageId, i: nat) {
    if Targets(db, p, i) && Writable(db.pages[p][i]) then
      Hides(db', db.current, p, i) && SameBut(db, db', db.current, p, i)
    else db' == db
  }

  /** An update that fits shows the new row in the slot it writes, if anything was to be seen there, as there
      is in the slot it read; one that does not fit takes the slot away and shows the new row in a new slot of
      the spill page. */
  ghost predicate UpdateSeen(db: Database, db': Database, p: PageId, i: nat, row: Row, spill: PageId) {
    if !(Targets(db, p, i) && Writable(db.pages[p][i])) then db' == db
    else if RecordSize(row) <= db.pages[p][i].length then
      SameBut(db, db', db.current, p, i) && (Scanned(db.pages[p], i) == i ==> Shows(db', db.current, p, i, row)) &&
      if IsVisible(db.txns, db.pages[p][i], db.current) then Shows(db', db.current, p, i, row) else Hides(db', db.current, p, i)
    else
      Hides(db', db.current, p, i) &&
      if spill !in db.pages then SameBut(db, db', db.current, p, i)
      else
        Shows(db', db.current, spill, Length(db, spill), row) && Hides(db, db.current, spill, Length(db, spill)) &&
        forall q: PageId, j: nat, r: Row :: !(q == p && j == i) && !(q == spill && j == Length(db, spill)) ==>
          (Sees(db, db.current, q, j, r) <==> Sees(db', db.current, q, j, r))
  }

  lemma InsertView(db: Database, p: PageId, rowId: RowId, row: Row)
    requires InTxn(db)
    ensures InsertSeen(db, ApplyInsert(db, p, rowId, row), p, row)
  {
    hide RecordSize;
    var db' := ApplyInsert(db, p, rowId, row);
    assert Sees(db', db.current, p, Length(db, p), row);
  }

  lemma DeleteView(db: Database, p: PageId, i: nat)
    requires InTxn(db)
    ensures DeleteSeen(db, ApplyDelete(db, p, i), p, i)
  {
    hide RecordSize, Scanned;
  }

  lemma UpdateView(db: Database, p: PageId, i: nat, row: Row, spill: PageId, newRowId: RowId)
    requires InTxn(db)
    ensures UpdateSeen(db, ApplyUpdate(db, p, i, row, spill, newRowId), p, i, row, spill)
  {
    hide RecordSize, Scanned;
  }

  // ---------- What other readers see while the transaction runs ----------

  /** A record another reader saw still holds its row. */
  ghost predicate RowThere(db: Database, s: Database, p: PageId, i: nat) {
    Existed(db, p, i) && Existed(s, p, i) && s.pages[p][i].Record? && Exposed(db, db.pages[p][i]) ==>
      s.pages[p][i].row == db.pages[p][i].row
  }

  ghost predicate AllRowsThere(db: Database, s: Database) {
    forall p, i {:trigger RowThere(db, s, p, i)} :: 0 <= i ==> RowThere(db, s, p, i)
  }

  /** For every run, before it commits: other readers see nothing of it if and only if the number was
      unclaimed and every record they saw still holds its row.  Inserts, deletes and moves stay hidden;
      in-place updates do not. */
  lemma IsolationTheorem(db: Database, ops: seq<Op>)
    requires Ready(db)
    ensures var s := Run(Begin(db), ops);
            SameView(db, s, db.nextTxn) <==> NumberUnclaimed(db) && AllRowsThere(db, s)
  {
    RunFollows(db, ops);
    RunningView(db, Run(Begin(db), ops));
  }

  lemma RunningView(db: Database, s: Database)
    requires Ready(db) && Follows(db, s)
    ensures SameView(db, s, db.nextTxn) <==> NumberUnclaimed(db) && AllRowsThere(db, s)
  {
    hide IsVisible, RowThere, Unclaimed, SameSlot, SlotFollows, LengthOk;
    if NumberUnclaimed(db) && AllRowsThere(db, s) {
      forall c: TxnId, p: PageId, i: nat, row: Row | c != db.nextTxn ensures Sees(db, c, p, i, row) <==> Sees(s, c, p, i, row) {
        if Existed(s, p, i) {
          RunningSlot(db, s, p, i);
          if Existed(db, p, i) {
            assert RowThere(db, s, p, i) && Unclaimed(db, db.pages[p][i]);
            SeesAtSlot(db, s, db.nextTxn, p, i);
          }
        }
      }
    }
    if SameView(db, s, db.nextTxn) {
      forall p, i: nat | Existed(db, p, i) ensures Unclaimed(db, db.pages[p][i]) && RowThere(db, s, p, i) {
        RunningSlot(db, s, p, i);
        SeesAtSlot(db, s, db.nextTxn, p, i);
      }
      forall p, i | 0 <= i ensures RowThere(db, s, p, i) {
        NoRowThere(db, s, p, i);
      }
    }
  }

  lemma NoRowThere(db: Database, s: Database, p: PageId, i: nat)
    ensures !Existed(db, p, i) ==> RowThere(db, s, p, i)
  {
  }

  lemma RunningSlot(db: Database, s: Database, p: PageId, i: nat)
    requires Ready(db) && Follows(db, s) && Existed(s, p, i)
    ensures Existed(db, p, i) ==>
              (SameSlot(db.txns, db.pages[p][i], s.txns, s.pages[p][i], db.nextTxn) <==>
               Unclaimed(db, db.pages[p][i]) && RowThere(db, s, p, i))
    ensures !Existed(db, p, i) ==> forall c: TxnId :: c != db.nextTxn ==> !IsVisible(s.txns, s.pages[p][i], c)
  {
    hide SameSlot, Unclaimed, RecordSize;
    assert SlotFollows(db, s, p, i);
    if Existed(db, p, i) {
      if s.pages[p][i] == db.pages[p][i] && LogAt(s.undo, p, i) == [] {
        UntouchedRecord(db, db.pages[p][i], Active);
      } else {
        TouchedRecord(db, db.pages[p][i], s.pages[p][i], Active);
      }
    }
  }

  /** An in-place update is read by others before it commits. */
  lemma DirtyRead()
    ensures Ready(ONE_NUMBER) && NumberUnclaimed(ONE_NUMBER)
    ensures Sees(ONE_NUMBER, 7, 1, 0, ROW_A) && Sees(Run(Begin(ONE_NUMBER), [Update(1, 0, ROW_B, 1, 2)]), 7, 1, 0, ROW_B)
  {
    hide RecordSize;
    RowSize(ROW_A);
    RowSize(ROW_B);
    assert ROW_A[0] != ROW_B[0];
    var db, op := ONE_NUMBER, Update(1, 0, ROW_B, 1, 2);
    SingleRun(Begin(db), op);
    assert Scanned(db.pages[1], 0) == 0;
    assert Targets(Begin(db), 1, 0);
  }
}
