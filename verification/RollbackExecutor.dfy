/**
 * The executor of a session: BEGIN, row operations, COMMIT and ROLLBACK as methods, with the theorems
 * about what readers see as their contracts.
 */
module RollbackExecutor {
  import opened RollbackModel
  import opened RollbackTheory
  import opened CommitTheory

  class Executor {
    var db: Database
    // The database when the session transaction began, and the row operations since.
    ghost var start: Database
    ghost var ops: seq<Op>

    ghost predicate Valid()
      reads this
    {
      Ready(db) && (InTxn(db) ==> Ready(start) && db == Run(Begin(start), ops))
    }

    constructor (initial: Database)
      requires Ready(initial) && !InTxn(initial)
      ensures Valid() && db == initial
    {
      db, start, ops := initial, initial, [];
    }

    method ExecuteBegin() returns (ok: bool)
      requires Valid()
      modifies this
      ensures Valid() && (ok <==> !old(InTxn(db)))
      ensures db == if ok then Begin(old(db)) else old(db)
      ensures if ok then start == old(db) && ops == [] else start == old(start) && ops == old(ops)
      ensures ok && Unnamed(start, start.nextTxn) ==>
                db.current == start.nextTxn && forall c :: Unnamed(start, c) ==> SameReading(start, c, db, db.current)
    {
      forall c | Unnamed(db, c) && Unnamed(db, db.nextTxn) ensures SameReading(db, c, Begin(db), db.nextTxn) {
        BeginTheorem(db, c);
      }
      hide Unnamed, SameReading;
      if db.current != INVALID_TXN_ID && db.current in db.txns && db.txns[db.current] == Active {
        return false;
      }
      start, ops := db, [];
      var t := db.nextTxn;
      db := db.(txns := db.txns[t := Active], nextTxn := t + 1, undo := []);
      db := db.(current := t);
      ok := true;
    }

    /** Every reader that wrote nothing sees from now on what the transaction saw. */
    method ExecuteCommit() returns (ok: bool)
      requires Valid()
      modifies this`db
      ensures Valid() && (ok <==> old(InTxn(db)))
      ensures db == if ok then Commit(old(db)) else old(db)
      ensures ok ==> !InTxn(db) && forall c :: Unnamed(old(db), c) ==> SameReading(old(db), old(db.current), db, c)
    {
      forall c | InTxn(db) && Unnamed(db, c) ensures SameReading(db, db.current, Commit(db), c) {
        CommitTheorem(db, c);
      }
      hide Unnamed, SameReading;
      if !InTxn(db) {
        return false;
      }
      db := db.(txns := db.txns[db.current := Committed]);
      db := db.(current := INVALID_TXN_ID);
      ok := true;
    }

    /** One more row operation. */
    ghost method Logged(op: Op)
      requires Valid() && InTxn(db)
      modifies this`ops
      ensures ops == old(ops) + [op] && Apply(db, op) == Run(Begin(start), ops) && Ready(Apply(db, op)) && InTxn(Apply(db, op))
    {
      hide Apply;
      RunSnoc(Begin(start), ops, op);
      ops := ops + [op];
      StaysReady(start, ops);
      RunNumbers(Begin(start), ops);
    }

    method InsertRow(p: PageId, rowId: RowId, row: Row)
      requires Valid() && InTxn(db)
      modifies this
      ensures Valid() && InTxn(db) && db == Apply(old(db), Insert(p, rowId, row))
      ensures start == old(start) && ops == old(ops) + [Insert(p, rowId, row)] && InsertSeen(old(db), db, p, row)
    {
      InsertView(db, p, rowId, row);
      hide InsertSeen;
      Logged(Insert(p, rowId, row));
      var slots := if p in db.pages then db.pages[p] else [];
      slots := slots + [InsertSlot(rowId, db.current, row)];
      db := db.(pages := db.pages[p := slots]);
      db := db.(undo := db.undo + [UndoInsert(p, |slots| - 1)]);
    }

    method UpdateRow(p: PageId, index: nat, row: Row, spill: PageId, newRowId: RowId)
      requires Valid() && InTxn(db)
      modifies this
      ensures Valid() && InTxn(db) && db == Apply(old(db), Update(p, index, row, spill, newRowId))
      ensures start == old(start) && ops == old(ops) + [Update(p, index, row, spill, newRowId)]
      ensures UpdateSeen(old(db), db, p, index, row, spill)
    {
      UpdateView(db, p, index, row, spill, newRowId);
      hide UpdateSeen;
      Logged(Update(p, index, row, spill, newRowId));
      if !Targets(db, p, index) {
        return;
      }
      var oldRow := db.pages[p][Scanned(db.pages[p], index)].row;
      var (updated, s) := UpdateSlot(db.pages[p][index], row);
      if updated {
        db := db.(pages := db.pages[p := db.pages[p][index := s]]);
        db := db.(undo := db.undo + [UndoUpdate(p, index, oldRow)]);
        return;
      }
      var (deleted, d) := DeleteSlot(db.pages[p][index], db.current);
      if deleted {
        db := db.(pages := db.pages[p := db.pages[p][index := d]]);
        if spill in db.pages {
          db := db.(pages := db.pages[spill := db.pages[spill] + [InsertSlot(newRowId, db.current, row)]]);
        }
      }
    }

    method DeleteRow(p: PageId, index: nat)
      requires Valid() && InTxn(db)
      modifies this
      ensures Valid() && InTxn(db) && db == Apply(old(db), Delete(p, index))
      ensures start == old(start) && ops == old(ops) + [Delete(p, index)] && DeleteSeen(old(db), db, p, index)
    {
      DeleteView(db, p, index);
      hide DeleteSeen;
      Logged(Delete(p, index));
      if !Targets(db, p, index) {
        return;
      }
      var (deleted, d) := DeleteSlot(db.pages[p][index], db.current);
      if deleted {
        db := db.(pages := db.pages[p := db.pages[p][index := d]]);
        db := db.(undo := db.undo + [UndoDelete(p, index)]);
      }
    }

    /** The other readers see again what they saw before BEGIN exactly when the number was unclaimed and each
        record they saw is left with its row; for updates that wrote what they read, when all operations were
        reversible. */
    method ExecuteRollback() returns (ok: bool)
      requires Valid()
      modifies this`db
      ensures Valid() && (ok <==> old(InTxn(db)))
      ensures db == if ok then Rollback(old(db)) else old(db)
      ensures ok ==> (SameView(start, db, start.nextTxn) <==> NumberUnclaimed(start) && AllKept(start, old(db)))
      ensures ok && AllDirect(start, ops) ==>
                (SameView(start, db, start.nextTxn) <==> NumberUnclaimed(start) && AllReversible(start, ops))
    {
      hide RecordSize, SameView, NumberUnclaimed, AllKept, AllReversible, AllDirect, Ready, UndoSlot, Run;
      if !InTxn(db) {
        return false;
      }
      RollbackTheorem(start, ops);
      StaysReady(start, ops);
      if AllDirect(start, ops) { DirectRollback(start, ops); }
      var i := |db.undo|;
      assert db.undo[..i] == db.undo;
      while i > 0
        invariant 0 <= i <= |db.undo|
        invariant db == old(db).(pages := db.pages)
        invariant UndoAll(db.pages, db.current, db.undo[..i]) == UndoAll(old(db).pages, db.current, db.undo)
      {
        i := i - 1;
        var u := db.undo[i];
        assert db.undo[..i + 1][..i] == db.undo[..i];
        if u.page in db.pages && u.slot < |db.pages[u.page]| {
          var s := UndoSlot(db.pages[u.page][u.slot], db.current, u);
          db := db.(pages := db.pages[u.page := db.pages[u.page][u.slot := s]]);
        }
      }
      db := db.(txns := db.txns[db.current := Aborted]);
      db := db.(current := INVALID_TXN_ID);
      ok := true;
    }
  }
}
