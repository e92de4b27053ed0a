/**
 * What ROLLBACK leaves behind, for every run of row operations: the exact condition under which every
 * other reader sees again what it saw before BEGIN.  It may fail because an in-place update shrank a
 * record, because a growing update moved a record it had changed, because a scan over a vacuumed slot
 * made an update write to another record than it read, or because the transaction number was in use.
 */
module RollbackTheory {
  import opened Sequences
  import opened RollbackModel

  // ---------- What is asked of the database before BEGIN ----------

  ghost predicate LengthOk(s: Slot) {
    s.Record? ==> s.length == RecordSize(s.row)
  }

  ghost predicate LengthsOk(pages: map<PageId, seq<Slot>>) {
    forall p, i {:trigger pages[p][i]} :: p in pages && 0 <= i < |pages[p]| ==> LengthOk(pages[p][i])
  }

  ghost predicate Ready(db: Database) {
    db.nextTxn != INVALID_TXN_ID && LengthsOk(db.pages)
  }

  /** Every other reader sees the same rows in the same places. */
  ghost predicate SameView(a: Database, b: Database, t: TxnId) {
    forall c: TxnId, p: PageId, i: nat, row: Row :: c != t ==> (Sees(a, c, p, i, row) <==> Sees(b, c, p, i, row))
  }

  ghost predicate Existed(db: Database, p: PageId, i: nat) {
    p in db.pages && i < |db.pages[p]|
  }

  // ---------- The exact condition ----------

  /** The first of the rows that take the fewest bytes. */
  function FirstShortest(rows: seq<Row>): Row
    requires rows != []
  {
    if |rows| == 1 then rows[0]
    else
      var rest := FirstShortest(rows[1..]);
      if RecordSize(rows[0]) <= RecordSize(rest) then rows[0] else rest
  }

  lemma {:induction false} FirstShortestIs(rows: seq<Row>) returns (k: nat)
    requires rows != []
    ensures k < |rows| && FirstShortest(rows) == rows[k]
    ensures forall j :: 0 <= j < k ==> RecordSize(rows[k]) < RecordSize(rows[j])
    ensures forall j :: k < j < |rows| ==> RecordSize(rows[k]) <= RecordSize(rows[j])
  {
    hide RecordSize;
    k := 0;
    if |rows| > 1 {
      var rest := FirstShortestIs(rows[1..]);
      assert forall j :: 0 < j < |rows| ==> rows[j] == rows[1..][j - 1];
      if RecordSize(rows[0]) > RecordSize(FirstShortest(rows[1..])) { k := rest + 1; }
    }
  }

  /** The undo records of one slot. */
  function LogAt(undo: seq<Undo>, p: PageId, i: nat): seq<Undo> {
    if undo == [] then []
    else
      var last := undo[|undo| - 1];
      LogAt(undo[..|undo| - 1], p, i) + if last.page == p && last.slot == i then [last] else []
  }

  /** The rows the logged updates read before they wrote. */
  function OldRows(log: seq<Undo>): seq<Row> {
    if log == [] then []
    else OldRows(log[..|log| - 1]) + if log[|log| - 1].UndoUpdate? then [log[|log| - 1].oldRow] else []
  }

  predicate EndsInDelete(log: seq<Undo>) {
    log != [] && log[|log| - 1].UndoDelete?
  }

  /** Deleted by an update that did not fit in place, which logs nothing. */
  predicate Moved(s: Slot, log: seq<Undo>, t: TxnId) {
    s.Record? && s.xmax == t && !EndsInDelete(log)
  }

  /** The row a rollback leaves in a record: undoing is refused for a moved record, and otherwise for every
      logged row that is longer than what is there. */
  function Left(s: Slot, log: seq<Undo>, t: TxnId): Row
    requires s.Record?
  {
    if Moved(s, log, t) then s.row else FirstShortest(OldRows(log) + [s.row])
  }

  /** A record that was not deleted, that another reader saw, and that was not written under the number
      the transaction gets. */
  ghost predicate Exposed(db: Database, s: Slot) {
    s.Record? && s.xmin != db.nextTxn && s.xmax == INVALID_TXN_ID && !IsAborted(db.txns, s.xmin)
  }

  ghost predicate Kept(db: Database, s: Database, p: PageId, i: nat) {
    Existed(db, p, i) && Existed(s, p, i) && s.pages[p][i].Record? && Exposed(db, db.pages[p][i]) ==>
      Left(s.pages[p][i], LogAt(s.undo, p, i), db.nextTxn) == db.pages[p][i].row
  }

  ghost predicate AllKept(db: Database, s: Database) {
    forall p, i {:trigger Kept(db, s, p, i)} :: 0 <= i ==> Kept(db, s, p, i)
  }

  /** Aborting transaction `nextTxn` does not touch a record that an earlier transaction of the same number,
      if it counted as committed, created or deleted. */
  ghost predicate Unclaimed(db: Database, s: Slot) {
    IsCommitted(db.txns, db.nextTxn) && s.Record? ==>
      if s.xmin == db.nextTxn then s.xmax != INVALID_TXN_ID && IsCommitted(db.txns, s.xmax)
      else s.xmax == db.nextTxn ==> IsAborted(db.txns, s.xmin)
  }

  ghost predicate NumberUnclaimed(db: Database) {
    forall p, i {:trigger db.pages[p][i]} :: p in db.pages && 0 <= i < |db.pages[p]| ==> Unclaimed(db, db.pages[p][i])
  }

  // ---------- The undo log, slot by slot ----------

  function UndoLog(s: Slot, t: TxnId, log: seq<Undo>): Slot
    decreases |log|
  {
    if log == [] then s else UndoLog(UndoSlot(s, t, log[|log| - 1]), t, log[..|log| - 1])
  }

  /** Replaying the whole log acts on each slot as replaying the records of that slot. */
  lemma {:induction false} UndoAllAt(pages: map<PageId, seq<Slot>>, t: TxnId, undo: seq<Undo>, p: PageId, i: nat)
    requires p in pages && i < |pages[p]|
    ensures p in UndoAll(pages, t, undo) && |UndoAll(pages, t, undo)[p]| == |pages[p]|
    ensures UndoAll(pages, t, undo)[p][i] == UndoLog(pages[p][i], t, LogAt(undo, p, i))
    decreases |undo|
  {
    hide UndoSlot, UndoOne, UndoLog;
    if undo == [] {
      UndoNothing(pages[p][i], t);
    } else {
      var last, rest := undo[|undo| - 1], undo[..|undo| - 1];
      UndoOneAt(pages, t, last, p, i);
      UndoAllAt(UndoOne(pages, t, last), t, rest, p, i);
      var log := LogAt(rest, p, i);
      NothingAfter(log);
      UndoLogLast(pages[p][i], t, log, last);
    }
  }

  lemma UndoOneAt(pages: map<PageId, seq<Slot>>, t: TxnId, u: Undo, p: PageId, i: nat)
    requires p in pages && i < |pages[p]|
    ensures p in UndoOne(pages, t, u) && |UndoOne(pages, t, u)[p]| == |pages[p]|
    ensures UndoOne(pages, t, u)[p][i] == if u.page == p && u.slot == i then UndoSlot(pages[p][i], t, u) else pages[p][i]
  {
  }

  lemma UndoNothing(s: Slot, t: TxnId)
    ensures UndoLog(s, t, []) == s
  {
  }

  lemma UndoLogLast(s: Slot, t: TxnId, log: seq<Undo>, last: Undo)
    ensures UndoLog(s, t, log + [last]) == UndoLog(UndoSlot(s, t, last), t, log)
  {
    assert (log + [last])[..|log|] == log;
  }

  lemma {:induction false} UndoAllKeys(pages: map<PageId, seq<Slot>>, t: TxnId, undo: seq<Undo>)
    ensures UndoAll(pages, t, undo).Keys == pages.Keys
    ensures forall p :: p in pages ==> |UndoAll(pages, t, undo)[p]| == |pages[p]|
    decreases |undo|
  {
    if undo != [] {
      UndoAllKeys(UndoOne(pages, t, undo[|undo| - 1]), t, undo[..|undo| - 1]);
    }
  }

  // ---------- One record through a transaction ----------

  ghost predicate OnlyUpdates(log: seq<Undo>) {
    forall j :: 0 <= j < |log| ==> log[j].UndoUpdate?
  }

  function UpdatesOf(log: seq<Undo>): seq<Undo> {
    if EndsInDelete(log) then log[..|log| - 1] else log
  }

  /** Record `s0` has become `s` by in-place updates, perhaps ended by a delete (logged) or by a move (not
      logged). */
  ghost predicate Touched(s0: Slot, s: Slot, log: seq<Undo>, t: TxnId) {
    s0.Record? && s.Record? && s0.xmax == INVALID_TXN_ID &&
    s.xmin == s0.xmin && s.length == RecordSize(s.row) && OnlyUpdates(UpdatesOf(log)) &&
    (if EndsInDelete(log) then s.xmax == t else s.xmax == INVALID_TXN_ID || s.xmax == t)
  }

  ghost predicate Tracks(s0: Slot, s: Slot, log: seq<Undo>, t: TxnId) {
    (s == s0 && log == []) || Touched(s0, s, log, t)
  }

  lemma {:induction false} UndoRefused(s: Slot, t: TxnId, log: seq<Undo>)
    requires s.Record? && s.xmax != INVALID_TXN_ID && OnlyUpdates(log)
    ensures UndoLog(s, t, log) == s
  {
    if log != [] {
      UndoRefused(s, t, log[..|log| - 1]);
    }
  }

  /** Of the last two rows only the shorter can win, and the earlier of equals. */
  lemma {:induction false} LastTwo(rows: seq<Row>, x: Row, y: Row)
    ensures FirstShortest(rows + [x] + [y]) == FirstShortest(rows + [if RecordSize(x) <= RecordSize(y) then x else y])
  {
    hide RecordSize;
    var z := if RecordSize(x) <= RecordSize(y) then x else y;
    if rows == [] {
      assert rows + [x] + [y] == [x, y] && rows + [z] == [z] && [x, y][1..] == [y];
    } else {
      LastTwo(rows[1..], x, y);
      assert (rows + [x] + [y])[1..] == rows[1..] + [x] + [y];
      assert (rows + [z])[1..] == rows[1..] + [z];
    }
  }

  /** Undoing updates, last first, leaves the first shortest of the rows that were read and the row that
      is there. */
  lemma {:induction false} UndoneRow(s: Slot, t: TxnId, log: seq<Undo>)
    requires s.Record? && s.length == RecordSize(s.row) && s.xmax == INVALID_TXN_ID && OnlyUpdates(log)
    ensures var r := UndoLog(s, t, log);
            r.Record? && r.xmin == s.xmin && r.xmax == INVALID_TXN_ID && r.row == FirstShortest(OldRows(log) + [s.row])
    decreases |log|
  {
    hide RecordSize, FirstShortest;
    if log == [] {
      Alone(s.row);
      assert [] + [s.row] == [s.row];
    } else {
      var n := |log| - 1;
      UndoneRow(UndoSlot(s, t, log[n]), t, log[..n]);
      LastTwo(OldRows(log[..n]), log[n].oldRow, s.row);
    }
  }

  lemma Alone(row: Row)
    ensures FirstShortest([row]) == row
  {
  }

  lemma OldRowsOfUpdates(log: seq<Undo>)
    ensures OldRows(UpdatesOf(log)) == OldRows(log)
  {
    if EndsInDelete(log) { assert OldRows(log[..|log| - 1]) + [] == OldRows(log[..|log| - 1]); }
  }

  /** The record a rollback leaves. */
  lemma UndoneRecord(s0: Slot, s: Slot, log: seq<Undo>, t: TxnId)
    requires Touched(s0, s, log, t) && t != INVALID_TXN_ID
    ensures var r := UndoLog(s, t, log);
            r.Record? && r.xmin == s0.xmin && (r.xmax == INVALID_TXN_ID || r.xmax == t) && r.row == Left(s, log, t)
  {
    hide RecordSize, FirstShortest, OldRows;
    OldRowsOfUpdates(log);
    if Moved(s, log, t) {
      UndoRefused(s, t, log);
    } else if EndsInDelete(log) {
      assert UndoLog(s, t, log) == UndoLog(s.(xmax := INVALID_TXN_ID), t, log[..|log| - 1]);
      UndoneRow(s.(xmax := INVALID_TXN_ID), t, log[..|log| - 1]);
    } else {
      UndoneRow(s, t, log);
    }
  }

  // ---------- The whole database through a transaction ----------

  /** A record the transaction inserted, and perhaps deleted again. */
  predicate Own(s: Slot, t: TxnId) {
    s.Record? && s.xmin == t && (s.xmax == INVALID_TXN_ID || s.xmax == t)
  }

  ghost predicate SlotFollows(db: Database, s: Database, p: PageId, i: nat)
    requires p in s.pages && i < |s.pages[p]|
  {
    if Existed(db, p, i) then Tracks(db.pages[p][i], s.pages[p][i], LogAt(s.undo, p, i), db.nextTxn)
    else Own(s.pages[p][i], db.nextTxn) && LengthOk(s.pages[p][i])
  }

  ghost predicate Follows(db: Database, s: Database) {
    s.current == db.nextTxn && s.txns == db.txns[db.nextTxn := Active] &&
    (forall p :: p in db.pages ==> p in s.pages && |db.pages[p]| <= |s.pages[p]|) &&
    (forall p, i {:trigger SlotFollows(db, s, p, i)} :: p in s.pages && 0 <= i < |s.pages[p]| ==> SlotFollows(db, s, p, i))
  }

  /** A step that changes slot (p, i) at most keeps this of every other slot. */
  ghost predicate SameAt(s: Database, s': Database, q: PageId, j: nat) {
    Existed(s, q, j) ==> Existed(s', q, j) && s'.pages[q][j] == s.pages[q][j] && LogAt(s'.undo, q, j) == LogAt(s.undo, q, j)
  }

  ghost predicate SameElsewhere(s: Database, s': Database, p: PageId, i: nat) {
    forall q, j: nat {:trigger SameAt(s, s', q, j)} :: !(q == p && j == i) ==> SameAt(s, s', q, j)
  }

  lemma LogAtSnoc(undo: seq<Undo>, u: Undo, p: PageId, i: nat)
    ensures LogAt(undo + [u], p, i) == if u.page == p && u.slot == i then LogAt(undo, p, i) + [u] else LogAt(undo, p, i)
  {
    assert (undo + [u])[..|undo|] == undo;
    assert LogAt(undo, p, i) + [] == LogAt(undo, p, i);
  }

  /** A step that changes one slot and logs at most one record for it. */
  ghost predicate OneSlot(s: Database, s': Database, p: PageId, i: nat, extra: seq<Undo>) {
    p in s.pages && i < |s.pages[p]| && s'.pages.Keys == s.pages.Keys &&
    s'.txns == s.txns && s'.current == s.current && s'.undo == s.undo + extra &&
    (extra == [] || (|extra| == 1 && extra[0].page == p && extra[0].slot == i)) &&
    i < |s'.pages[p]| && s'.pages == WithSlot(s.pages, p, i, s'.pages[p][i])
  }

  lemma LogAtExtra(s: Database, s': Database, p: PageId, i: nat, extra: seq<Undo>, q: PageId, j: nat)
    requires OneSlot(s, s', p, i, extra)
    ensures LogAt(s'.undo, q, j) == if q == p && j == i then LogAt(s.undo, q, j) + extra else LogAt(s.undo, q, j)
  {
    if extra == [] {
      assert s.undo + [] == s.undo;
      assert LogAt(s.undo, q, j) + [] == LogAt(s.undo, q, j);
    } else {
      assert extra == [extra[0]];
      LogAtSnoc(s.undo, extra[0], q, j);
    }
  }

  /** The three ways a record changes keep it tracked, whatever row was read. */
  lemma SlotStep(s0: Slot, s: Slot, log: seq<Undo>, t: TxnId, s': Slot, extra: seq<Undo>)
    requires LengthOk(s0) && Tracks(s0, s, log, t) && t != INVALID_TXN_ID
    requires s.Record? && s.xmax == INVALID_TXN_ID && s'.Record? && s'.xmin == s.xmin && s'.length == RecordSize(s'.row)
    requires (s'.xmax == INVALID_TXN_ID && |extra| == 1 && extra[0].UndoUpdate?) ||
             (s'.xmax == t && |extra| == 1 && extra[0].UndoDelete?) ||
             (s'.xmax == t && extra == [])
    ensures Touched(s0, s', log + extra, t)
  {
    hide RecordSize;
    if extra == [] {
      assert log + [] == log;
    } else {
      assert (log + extra)[..|log|] == log;
    }
  }

  /** What one slot does decides what the database does. */
  lemma OneSlotStep(db: Database, s: Database, s': Database, p: PageId, i: nat, extra: seq<Undo>)
    requires Follows(db, s) && OneSlot(s, s', p, i, extra)
    requires s'.pages[p][i].Record? && s.pages[p][i].Record? && s'.pages[p][i].xmin == s.pages[p][i].xmin && LengthOk(s'.pages[p][i])
    requires s'.pages[p][i].xmax == INVALID_TXN_ID || s'.pages[p][i].xmax == db.nextTxn
    requires Existed(db, p, i) ==> Tracks(db.pages[p][i], s'.pages[p][i], LogAt(s.undo, p, i) + extra, db.nextTxn)
    ensures Follows(db, s') && SameElsewhere(s, s', p, i)
  {
    hide RecordSize, Tracks;
    forall q, j | q in s'.pages && 0 <= j < |s'.pages[q]| ensures SlotFollows(db, s', q, j) {
      assert SlotFollows(db, s, q, j);
      LogAtExtra(s, s', p, i, extra, q, j);
    }
    forall q, j: nat | !(q == p && j == i) ensures SameAt(s, s', q, j) {
      LogAtExtra(s, s', p, i, extra, q, j);
    }
  }

  /** Appending records of the transaction itself concerns no record that existed before. */
  lemma AppendStep(db: Database, s: Database, p: PageId, slot: Slot, extra: seq<Undo>)
    requires Follows(db, s) && Own(slot, db.nextTxn) && LengthOk(slot)
    requires forall j :: 0 <= j < |extra| ==> extra[j].page == p && extra[j].slot == if p in s.pages then |s.pages[p]| else 0
    requires |extra| <= 1
    ensures var s' := s.(pages := Append(s.pages, p, slot), undo := s.undo + extra);
            Follows(db, s') && forall q, j: nat :: SameAt(s, s', q, j)
  {
    hide RecordSize, Tracks;
    var s' := s.(pages := Append(s.pages, p, slot), undo := s.undo + extra);
    forall q, j: nat ensures SameAt(s, s', q, j) {
      if extra == [] {
        assert s.undo + [] == s.undo;
      } else {
        assert extra == [extra[0]];
        LogAtSnoc(s.undo, extra[0], q, j);
      }
    }
    forall q, j | q in s'.pages && 0 <= j < |s'.pages[q]| ensures SlotFollows(db, s', q, j) {
      if q in s.pages && j < |s.pages[q]| {
        assert SlotFollows(db, s, q, j);
        assert SameAt(s, s', q, j);
      }
    }
  }

  /** Every operation keeps every slot tracked, wherever it reads. */
  lemma ApplyFollows(db: Database, s: Database, op: Op)
    requires Ready(db) && Follows(db, s)
    ensures Follows(db, Apply(s, op))
  {
    hide RecordSize, Follows, LengthOk;
    match op
    case Insert(p, rowId, row) => InsertFollows(db, s, p, rowId, row);
    case Delete(p, i) => DeleteFollows(db, s, p, i);
    case Update(p, i, row, spill, newRowId) => UpdateFollows(db, s, p, i, row, spill, newRowId);
  }

  lemma InsertFollows(db: Database, s: Database, p: PageId, rowId: RowId, row: Row)
    requires Follows(db, s)
    ensures var s' := ApplyInsert(s, p, rowId, row);
            Follows(db, s') && forall q, j: nat :: SameAt(s, s', q, j)
  {
    hide RecordSize, SlotFollows;
    AppendStep(db, s, p, InsertSlot(rowId, s.current, row), [UndoInsert(p, if p in s.pages then |s.pages[p]| else 0)]);
  }

  lemma DeleteFollows(db: Database, s: Database, p: PageId, i: nat)
    requires Ready(db) && Follows(db, s)
    ensures Follows(db, ApplyDelete(s, p, i)) && SameElsewhere(s, ApplyDelete(s, p, i), p, i)
    ensures var s' := ApplyDelete(s, p, i);
            Targets(s, p, i) && DeleteSlot(s.pages[p][i], s.current).0 ==>
              Existed(s', p, i) && s'.pages[p][i] == DeleteSlot(s.pages[p][i], s.current).1 &&
              LogAt(s'.undo, p, i) == LogAt(s.undo, p, i) + [UndoDelete(p, i)]
  {
    hide RecordSize, IsVisible, Scanned;
    if Targets(s, p, i) && DeleteSlot(s.pages[p][i], s.current).0 {
      LogAtSnoc(s.undo, UndoDelete(p, i), p, i);
      assert SlotFollows(db, s, p, i);
      var s' := ApplyDelete(s, p, i);
      LengthFollows(db, s, p, i);
      if Existed(db, p, i) {
        SlotStep(db.pages[p][i], s.pages[p][i], LogAt(s.undo, p, i), db.nextTxn, s'.pages[p][i], [UndoDelete(p, i)]);
      }
      OneSlotStep(db, s, s', p, i, [UndoDelete(p, i)]);
    }
  }

  lemma LengthFollows(db: Database, s: Database, p: PageId, i: nat)
    requires Ready(db) && Follows(db, s) && p in s.pages && i < |s.pages[p]|
    ensures LengthOk(s.pages[p][i]) && (Existed(db, p, i) ==> LengthOk(db.pages[p][i]))
  {
    hide RecordSize;
    assert SlotFollows(db, s, p, i);
    if Existed(db, p, i) { assert LengthOk(db.pages[p][i]); }
  }

  lemma UpdateFollows(db: Database, s: Database, p: PageId, i: nat, row: Row, spill: PageId, newRowId: RowId)
    requires Ready(db) && Follows(db, s)
    ensures Follows(db, ApplyUpdate(s, p, i, row, spill, newRowId))
  {
    hide RecordSize, IsVisible, Scanned, Follows, SlotFollows;
    if Targets(s, p, i) {
      if UpdateSlot(s.pages[p][i], row).0 {
        InPlaceFollows(db, s, p, i, row, spill, newRowId);
      } else if DeleteSlot(s.pages[p][i], s.current).0 {
        MoveFollows(db, s, p, i, row, spill, newRowId);
      }
    }
  }

  lemma InPlaceFollows(db: Database, s: Database, p: PageId, i: nat, row: Row, spill: PageId, newRowId: RowId)
    requires Ready(db) && Follows(db, s) && Targets(s, p, i) && UpdateSlot(s.pages[p][i], row).0
    ensures var s' := ApplyUpdate(s, p, i, row, spill, newRowId);
            Follows(db, s') && Existed(s', p, i) && s'.pages[p][i] == UpdateSlot(s.pages[p][i], row).1 &&
            LogAt(s'.undo, p, i) == LogAt(s.undo, p, i) + [UndoUpdate(p, i, s.pages[p][Scanned(s.pages[p], i)].row)] &&
            SameElsewhere(s, s', p, i)
  {
    hide RecordSize, IsVisible, Scanned;
    assert SlotFollows(db, s, p, i);
    LengthFollows(db, s, p, i);
    var s', u := ApplyUpdate(s, p, i, row, spill, newRowId), UndoUpdate(p, i, s.pages[p][Scanned(s.pages[p], i)].row);
    if Existed(db, p, i) {
      SlotStep(db.pages[p][i], s.pages[p][i], LogAt(s.undo, p, i), db.nextTxn, s'.pages[p][i], [u]);
    }
    OneSlotStep(db, s, s', p, i, [u]);
    LogAtSnoc(s.undo, u, p, i);
  }

  lemma MoveFollows(db: Database, s: Database, p: PageId, i: nat, row: Row, spill: PageId, newRowId: RowId)
    requires Ready(db) && Follows(db, s) && Targets(s, p, i)
    requires !UpdateSlot(s.pages[p][i], row).0 && DeleteSlot(s.pages[p][i], s.current).0
    ensures var s' := ApplyUpdate(s, p, i, row, spill, newRowId);
            Follows(db, s') && Existed(s', p, i) && s'.pages[p][i] == DeleteSlot(s.pages[p][i], s.current).1 && s'.undo == s.undo &&
            SameElsewhere(s, s', p, i)
  {
    hide RecordSize, IsVisible, Scanned;
    assert SlotFollows(db, s, p, i);
    LengthFollows(db, s, p, i);
    var mid := s.(pages := WithSlot(s.pages, p, i, DeleteSlot(s.pages[p][i], s.current).1));
    assert s.undo + [] == s.undo;
    if Existed(db, p, i) {
      SlotStep(db.pages[p][i], s.pages[p][i], LogAt(s.undo, p, i), db.nextTxn, mid.pages[p][i], []);
    }
    OneSlotStep(db, s, mid, p, i, []);
    if spill in mid.pages {
      AppendStep(db, mid, spill, InsertSlot(newRowId, s.current, row), []);
      assert mid.undo + [] == mid.undo;
      SameTwice(s, mid, ApplyUpdate(s, p, i, row, spill, newRowId), p, i);
    }
  }

  lemma SameTwice(s: Database, mid: Database, s': Database, p: PageId, i: nat)
    requires SameElsewhere(s, mid, p, i) && forall q, j: nat :: SameAt(mid, s', q, j)
    ensures SameElsewhere(s, s', p, i)
  {
    forall q, j: nat | !(q == p && j == i) ensures SameAt(s, s', q, j) {
      assert SameAt(s, mid, q, j) && SameAt(mid, s', q, j);
    }
  }

  lemma {:induction false} RunFollows(db: Database, ops: seq<Op>)
    requires Ready(db)
    ensures Follows(db, Run(Begin(db), ops))
  {
    if ops != [] {
      RunFollows(db, ops[..|ops| - 1]);
      ApplyFollows(db, Run(Begin(db), ops[..|ops| - 1]), ops[|ops| - 1]);
    }
  }

  // ---------- The theorem ----------

  lemma {:induction false} UndoKeepsCreator(s: Slot, t: TxnId, log: seq<Undo>)
    requires s.Record?
    ensures UndoLog(s, t, log).Record? && UndoLog(s, t, log).xmin == s.xmin
    decreases |log|
  {
    if log != [] {
      UndoKeepsCreator(UndoSlot(s, t, log[|log| - 1]), t, log[..|log| - 1]);
    }
  }

  /** Readers other than `t` find the same in the two slots. */
  ghost predicate SameSlot(before: map<TxnId, TxnState>, s: Slot, after: map<TxnId, TxnState>, r: Slot, t: TxnId) {
    forall c: TxnId :: c != t ==>
      (IsVisible(before, s, c) <==> IsVisible(after, r, c)) && (IsVisible(before, s, c) ==> s.row == r.row)
  }

  /** A record the transaction left alone, while it runs or after its abort. */
  lemma UntouchedRecord(db: Database, s: Slot, state: TxnState)
    requires db.nextTxn != INVALID_TXN_ID && state != Committed
    ensures SameSlot(db.txns, s, db.txns[db.nextTxn := state], s, db.nextTxn) <==> Unclaimed(db, s)
  {
    var t, after := db.nextTxn, db.txns[db.nextTxn := state];
    if s.Record? && !Unclaimed(db, s) {
      if s.xmin == t {
        var c := t + s.xmax + 1;
        assert IsVisible(db.txns, s, c) && !IsVisible(after, s, c);
      } else {
        assert !IsVisible(db.txns, s, s.xmin) && IsVisible(after, s, s.xmin);
      }
    }
  }

  /** A record the transaction changed. */
  lemma TouchedRecord(db: Database, s0: Slot, r: Slot, state: TxnState)
    requires db.nextTxn != INVALID_TXN_ID && state != Committed && s0.Record? && s0.xmax == INVALID_TXN_ID && r.Record? && r.xmin == s0.xmin
    requires r.xmax == INVALID_TXN_ID || r.xmax == db.nextTxn
    ensures SameSlot(db.txns, s0, db.txns[db.nextTxn := state], r, db.nextTxn) <==>
            Unclaimed(db, s0) && (Exposed(db, s0) ==> r.row == s0.row)
  {
    var t, after := db.nextTxn, db.txns[db.nextTxn := state];
    if s0.xmin == t && IsCommitted(db.txns, t) {
      assert IsVisible(db.txns, s0, t + 1) && !IsVisible(after, r, t + 1);
    } else if Exposed(db, s0) {
      assert IsVisible(db.txns, s0, s0.xmin) && IsVisible(after, r, s0.xmin);
    }
  }

  /** What other readers find in one slot after the rollback. */
  lemma RolledBackSlot(db: Database, s: Database, p: PageId, i: nat)
    requires Ready(db) && Follows(db, s) && p in s.pages && i < |s.pages[p]|
    ensures Existed(Rollback(s), p, i)
    ensures Existed(db, p, i) ==>
              (SameSlot(db.txns, db.pages[p][i], Rollback(s).txns, Rollback(s).pages[p][i], db.nextTxn) <==>
               Unclaimed(db, db.pages[p][i]) && Kept(db, s, p, i))
    ensures !Existed(db, p, i) ==> forall c: TxnId :: c != db.nextTxn ==> !IsVisible(Rollback(s).txns, Rollback(s).pages[p][i], c)
  {
    var t, log := db.nextTxn, LogAt(s.undo, p, i);
    UndoAllAt(s.pages, t, s.undo, p, i);
    assert SlotFollows(db, s, p, i);
    assert Rollback(s).txns == db.txns[t := Aborted];
    hide UndoLog, SameSlot, Unclaimed, RecordSize, OldRows, Left;
    if !Existed(db, p, i) {
      UndoKeepsCreator(s.pages[p][i], t, log);
    } else if s.pages[p][i] == db.pages[p][i] && log == [] {
      UntouchedIsKept(db, s, p, i);
      UntouchedRecord(db, db.pages[p][i], Aborted);
    } else {
      UndoneRecord(db.pages[p][i], s.pages[p][i], log, t);
      TouchedRecord(db, db.pages[p][i], UndoLog(s.pages[p][i], t, log), Aborted);
    }
  }

  lemma UntouchedIsKept(db: Database, s: Database, p: PageId, i: nat)
    requires db.nextTxn != INVALID_TXN_ID && Existed(db, p, i) && Existed(s, p, i)
    requires s.pages[p][i] == db.pages[p][i] && LogAt(s.undo, p, i) == []
    ensures UndoLog(s.pages[p][i], db.nextTxn, []) == s.pages[p][i] && Kept(db, s, p, i)
  {
    hide RecordSize, LogAt;
    var row := s.pages[p][i];
    if row.Record? { assert OldRows([]) + [row.row] == [row.row]; }
  }

  /** SameView, slot by slot. */
  lemma SeesAtSlot(a: Database, b: Database, t: TxnId, p: PageId, i: nat)
    requires Existed(a, p, i) && Existed(b, p, i)
    ensures SameSlot(a.txns, a.pages[p][i], b.txns, b.pages[p][i], t) <==>
            forall c: TxnId, row: Row :: c != t ==> (Sees(a, c, p, i, row) <==> Sees(b, c, p, i, row))
  {
    hide IsVisible;
    var s, r := a.pages[p][i], b.pages[p][i];
    if forall c: TxnId, row: Row :: c != t ==> (Sees(a, c, p, i, row) <==> Sees(b, c, p, i, row)) {
      forall c: TxnId | c != t
        ensures (IsVisible(a.txns, s, c) <==> IsVisible(b.txns, r, c)) && (IsVisible(a.txns, s, c) ==> s.row == r.row)
      {
        if IsVisible(a.txns, s, c) { assert Sees(a, c, p, i, s.row) && Sees(b, c, p, i, s.row); }
        if IsVisible(b.txns, r, c) { assert Sees(b, c, p, i, r.row) && Sees(a, c, p, i, r.row); }
      }
    }
  }

  /** For every database and every run: ROLLBACK gives every other reader the view from before BEGIN if
      and only if the number was unclaimed and each record another reader saw is left with its row. */
  lemma RollbackTheorem(db: Database, ops: seq<Op>)
    requires Ready(db)
    ensures SameView(db, Rollback(Run(Begin(db), ops)), db.nextTxn) <==>
            NumberUnclaimed(db) && AllKept(db, Run(Begin(db), ops))
  {
    var s := Run(Begin(db), ops);
    RunFollows(db, ops);
    RolledBack(db, s);
  }

  lemma RolledBack(db: Database, s: Database)
    requires Ready(db) && Follows(db, s)
    ensures SameView(db, Rollback(s), db.nextTxn) <==> NumberUnclaimed(db) && AllKept(db, s)
  {
    hide IsVisible, UndoAll, Kept, Unclaimed, SameSlot, SlotFollows, LengthOk;
    var r := Rollback(s);
    UndoAllKeys(s.pages, s.current, s.undo);
    if NumberUnclaimed(db) && AllKept(db, s) {
      forall c: TxnId, p: PageId, i: nat, row: Row | c != db.nextTxn ensures Sees(db, c, p, i, row) <==> Sees(r, c, p, i, row) {
        if Existed(s, p, i) {
          RolledBackSlot(db, s, p, i);
          if Existed(db, p, i) {
            assert Kept(db, s, p, i) && Unclaimed(db, db.pages[p][i]);
            SeesAtSlot(db, r, db.nextTxn, p, i);
          }
        }
      }
    }
    if SameView(db, r, db.nextTxn) {
      forall p, i: nat | Existed(db, p, i) ensures Unclaimed(db, db.pages[p][i]) && Kept(db, s, p, i) {
        RolledBackSlot(db, s, p, i);
        SeesAtSlot(db, r, db.nextTxn, p, i);
      }
      forall p, i | 0 <= i ensures Kept(db, s, p, i) {
        NotThere(db, s, p, i);
      }
    }
  }

  lemma NotThere(db: Database, s: Database, p: PageId, i: nat)
    ensures !Existed(db, p, i) ==> Kept(db, s, p, i)
  {
  }

  // ---------- Updates that write what they read ----------

  /** The operation loses nothing the rollback needs: it keeps the length of a record that another reader
      saw before the transaction, or moves one whose values are still the original ones. */
  ghost predicate Reversible(db: Database, s: Database, op: Op) {
    op.Update? && Targets(s, op.page, op.index) && Existed(db, op.page, op.index) && Exposed(db, db.pages[op.page][op.index]) ==>
      var slot := s.pages[op.page][op.index];
      if UpdateSlot(slot, op.row).0 then RecordSize(op.row) == slot.length
      else DeleteSlot(slot, s.current).0 ==> slot.row == db.pages[op.page][op.index].row
  }

  ghost predicate AllReversible(db: Database, ops: seq<Op>) {
    ops == [] ||
    (AllReversible(db, ops[..|ops| - 1]) &&
     Reversible(db, Run(Begin(db), ops[..|ops| - 1]), ops[|ops| - 1]))
  }

  /** An update that hits a record has read that record. */
  ghost predicate Direct(s: Database, op: Op) {
    op.Update? && Targets(s, op.page, op.index) ==> Scanned(s.pages[op.page], op.index) == op.index
  }

  ghost predicate AllDirect(db: Database, ops: seq<Op>) {
    ops == [] ||
    (AllDirect(db, ops[..|ops| - 1]) && Direct(Run(Begin(db), ops[..|ops| - 1]), ops[|ops| - 1]))
  }

  /** The rows logged for a record start with its original row, and neither they nor the row that is there
      ever get longer. */
  ghost predicate Chain(s0: Slot, s: Slot, log: seq<Undo>) {
    s0.Record? && s.Record? &&
    var rows := OldRows(log) + [s.row];
    rows[0] == s0.row && forall k :: 0 <= k < |rows| ==> RecordSize(s.row) <= RecordSize(rows[k])
  }

  ghost predicate ChainAt(db: Database, s: Database, p: PageId, i: nat) {
    Existed(db, p, i) && Existed(s, p, i) && s.pages[p][i].Record? ==> Chain(db.pages[p][i], s.pages[p][i], LogAt(s.undo, p, i))
  }

  ghost predicate AllChains(db: Database, s: Database) {
    forall p, i {:trigger ChainAt(db, s, p, i)} :: 0 <= i ==> ChainAt(db, s, p, i)
  }

  /** Nothing has been lost: the record is as long as it was, or it was moved with its original row. */
  lemma ChainLeft(s0: Slot, s: Slot, log: seq<Undo>, t: TxnId)
    requires Chain(s0, s, log)
    ensures Left(s, log, t) == s0.row <==> if Moved(s, log, t) then s.row == s0.row else RecordSize(s.row) == RecordSize(s0.row)
  {
    hide RecordSize, FirstShortest, OldRows;
    var rows := OldRows(log) + [s.row];
    var k := FirstShortestIs(rows);
    assert rows[|rows| - 1] == s.row;
  }

  lemma ChainUpdate(s0: Slot, s: Slot, log: seq<Undo>, u: Undo, row: Row)
    requires Chain(s0, s, log) && UpdateSlot(s, row).0 && s.length == RecordSize(s.row) && u.UndoUpdate? && u.oldRow == s.row
    ensures Chain(s0, UpdateSlot(s, row).1, log + [u])
  {
    hide RecordSize;
    assert (log + [u])[..|log|] == log;
    var rows, next := OldRows(log) + [s.row], OldRows(log + [u]) + [row];
    assert next == rows + [row];
  }

  lemma ChainDelete(s0: Slot, s: Slot, log: seq<Undo>, u: Undo, t: TxnId)
    requires Chain(s0, s, log) && u.UndoDelete?
    ensures Chain(s0, s.(xmax := t), log + [u]) && Chain(s0, s.(xmax := t), log)
  {
    hide RecordSize;
    assert (log + [u])[..|log|] == log;
    assert OldRows(log + [u]) == OldRows(log) + [] == OldRows(log);
  }

  lemma KeptAtChain(db: Database, s: Database, p: PageId, i: nat)
    requires Existed(db, p, i) && Existed(s, p, i) && s.pages[p][i].Record? && ChainAt(db, s, p, i)
    ensures var s0, log := db.pages[p][i], LogAt(s.undo, p, i);
            s0.Record? &&
            (Kept(db, s, p, i) <==>
             (Exposed(db, s0) ==>
               if Moved(s.pages[p][i], log, db.nextTxn) then s.pages[p][i].row == s0.row
               else RecordSize(s.pages[p][i].row) == RecordSize(s0.row)))
  {
    hide RecordSize, Left;
    ChainLeft(db.pages[p][i], s.pages[p][i], LogAt(s.undo, p, i), db.nextTxn);
  }

  /** A step at one slot, seen from the conditions on all slots. */
  lemma OneSlotKept(db: Database, s: Database, s': Database, p: PageId, i: nat, kept: bool)
    requires Follows(db, s) && AllChains(db, s) && SameElsewhere(s, s', p, i)
    requires ChainAt(db, s', p, i) && (Kept(db, s', p, i) <==> Kept(db, s, p, i) && kept)
    ensures AllChains(db, s') && (AllKept(db, s') <==> AllKept(db, s) && kept)
  {
    hide Left, Chain, Exposed, SlotFollows, LogAt;
    forall q, j: nat | !(q == p && j == i)
      ensures ChainAt(db, s', q, j) && (Kept(db, s', q, j) <==> Kept(db, s, q, j))
    {
      assert SameAt(s, s', q, j) && ChainAt(db, s, q, j);
    }
    if AllKept(db, s') {
      assert Kept(db, s', p, i);
      forall q, j | 0 <= j ensures Kept(db, s, q, j) { assert Kept(db, s', q, j); }
    }
    if AllKept(db, s) && kept {
      forall q, j | 0 <= j ensures Kept(db, s', q, j) { assert Kept(db, s, q, j); }
    }
  }

  /** Every direct operation keeps the chains, and loses nothing exactly when it is reversible. */
  lemma ApplyDirect(db: Database, s: Database, op: Op)
    requires Ready(db) && Follows(db, s) && AllChains(db, s) && Direct(s, op)
    ensures AllChains(db, Apply(s, op))
    ensures AllKept(db, Apply(s, op)) <==> AllKept(db, s) && Reversible(db, s, op)
  {
    hide RecordSize, Follows, AllChains, AllKept, Ready, IsVisible, Scanned;
    match op
    case Insert(p, rowId, row) => InsertDirect(db, s, p, rowId, row);
    case Delete(p, i) => DeleteDirect(db, s, p, i);
    case Update(p, i, row, spill, newRowId) =>
      if Targets(s, p, i) {
        if UpdateSlot(s.pages[p][i], row).0 {
          InPlaceDirect(db, s, p, i, row, spill, newRowId);
        } else if DeleteSlot(s.pages[p][i], s.current).0 {
          MoveDirect(db, s, p, i, row, spill, newRowId);
        }
      }
  }

  lemma InsertDirect(db: Database, s: Database, p: PageId, rowId: RowId, row: Row)
    requires Follows(db, s) && AllChains(db, s)
    ensures var s' := ApplyInsert(s, p, rowId, row); AllChains(db, s') && (AllKept(db, s') <==> AllKept(db, s))
  {
    hide RecordSize, SlotFollows, SameAt, Chain, Left;
    var s' := ApplyInsert(s, p, rowId, row);
    InsertFollows(db, s, p, rowId, row);
    var far := |if p in s.pages then s.pages[p] else []| + 1;
    assert SameElsewhere(s, s', p, far);
    assert ChainAt(db, s', p, far) && Kept(db, s', p, far) && Kept(db, s, p, far);
    OneSlotKept(db, s, s', p, far, true);
  }

  lemma DeleteDirect(db: Database, s: Database, p: PageId, i: nat)
    requires Ready(db) && Follows(db, s) && AllChains(db, s)
    ensures var s' := ApplyDelete(s, p, i); AllChains(db, s') && (AllKept(db, s') <==> AllKept(db, s))
  {
    hide RecordSize, IsVisible, Scanned, SameAt, Left, Chain, LogAt, Exposed;
    if Targets(s, p, i) && DeleteSlot(s.pages[p][i], s.current).0 {
      var s' := ApplyDelete(s, p, i);
      DeleteFollows(db, s, p, i);
      assert ChainAt(db, s, p, i) && SlotFollows(db, s, p, i);
      if Existed(db, p, i) {
        ChainDelete(db.pages[p][i], s.pages[p][i], LogAt(s.undo, p, i), UndoDelete(p, i), s.current);
        KeptAtChain(db, s, p, i);
        KeptAtChain(db, s', p, i);
      }
      OneSlotKept(db, s, s', p, i, true);
    }
  }

  lemma InPlaceDirect(db: Database, s: Database, p: PageId, i: nat, row: Row, spill: PageId, newRowId: RowId)
    requires Ready(db) && Follows(db, s) && AllChains(db, s) && Targets(s, p, i) && Scanned(s.pages[p], i) == i
    requires UpdateSlot(s.pages[p][i], row).0
    ensures var s', op := ApplyUpdate(s, p, i, row, spill, newRowId), Update(p, i, row, spill, newRowId);
            AllChains(db, s') && (AllKept(db, s') <==> AllKept(db, s) && Reversible(db, s, op))
  {
    hide RecordSize, IsVisible, Scanned, SameAt, Left, Chain, LogAt, Exposed;
    var s', slot := ApplyUpdate(s, p, i, row, spill, newRowId), s.pages[p][i];
    InPlaceFollows(db, s, p, i, row, spill, newRowId);
    LengthFollows(db, s, p, i);
    assert ChainAt(db, s, p, i) && SlotFollows(db, s, p, i) && SlotFollows(db, s', p, i);
    var kept := Existed(db, p, i) && Exposed(db, db.pages[p][i]) ==> RecordSize(row) == slot.length;
    if Existed(db, p, i) {
      ChainUpdate(db.pages[p][i], slot, LogAt(s.undo, p, i), UndoUpdate(p, i, slot.row), row);
      KeptAtChain(db, s, p, i);
      KeptAtChain(db, s', p, i);
      ChainEnds(db.pages[p][i], slot, LogAt(s.undo, p, i));
    }
    OneSlotKept(db, s, s', p, i, kept);
  }

  lemma ChainEnds(s0: Slot, s: Slot, log: seq<Undo>)
    requires Chain(s0, s, log)
    ensures RecordSize(s.row) <= RecordSize(s0.row)
  {
  }

  lemma MoveDirect(db: Database, s: Database, p: PageId, i: nat, row: Row, spill: PageId, newRowId: RowId)
    requires Ready(db) && Follows(db, s) && AllChains(db, s) && Targets(s, p, i)
    requires !UpdateSlot(s.pages[p][i], row).0 && DeleteSlot(s.pages[p][i], s.current).0
    ensures var s', op := ApplyUpdate(s, p, i, row, spill, newRowId), Update(p, i, row, spill, newRowId);
            AllChains(db, s') && (AllKept(db, s') <==> AllKept(db, s) && Reversible(db, s, op))
  {
    hide RecordSize, IsVisible, Scanned, SameAt, Left, Chain, LogAt, Exposed;
    var s', slot := ApplyUpdate(s, p, i, row, spill, newRowId), s.pages[p][i];
    MoveFollows(db, s, p, i, row, spill, newRowId);
    assert ChainAt(db, s, p, i) && SlotFollows(db, s, p, i);
    var kept := Existed(db, p, i) && Exposed(db, db.pages[p][i]) ==> slot.row == db.pages[p][i].row;
    if Existed(db, p, i) {
      ChainDelete(db.pages[p][i], slot, LogAt(s.undo, p, i), UndoDelete(p, i), s.current);
      KeptAtChain(db, s, p, i);
      KeptAtChain(db, s', p, i);
    }
    OneSlotKept(db, s, s', p, i, kept);
  }

  lemma {:induction false} RunDirect(db: Database, ops: seq<Op>)
    requires Ready(db) && AllDirect(db, ops)
    ensures AllChains(db, Run(Begin(db), ops))
    ensures AllKept(db, Run(Begin(db), ops)) <==> AllReversible(db, ops)
  {
    hide RecordSize, Apply, Reversible, Direct;
    if ops == [] {
      BeginDirect(db);
    } else {
      RunDirect(db, ops[..|ops| - 1]);
      RunFollows(db, ops[..|ops| - 1]);
      ApplyDirect(db, Run(Begin(db), ops[..|ops| - 1]), ops[|ops| - 1]);
    }
  }

  lemma BeginDirect(db: Database)
    requires Ready(db)
    ensures AllChains(db, Begin(db)) && AllKept(db, Begin(db))
  {
    hide RecordSize;
    forall p, i | 0 <= i ensures ChainAt(db, Begin(db), p, i) && Kept(db, Begin(db), p, i) {
      if Existed(db, p, i) { UntouchedIsKept(db, Begin(db), p, i); }
    }
  }

  /** For every run whose updates write what they read: ROLLBACK restores the view of every other reader if
      and only if the number was unclaimed and every operation was reversible. */
  lemma DirectRollback(db: Database, ops: seq<Op>)
    requires Ready(db) && AllDirect(db, ops)
    ensures SameView(db, Rollback(Run(Begin(db), ops)), db.nextTxn) <==> NumberUnclaimed(db) && AllReversible(db, ops)
  {
    RollbackTheorem(db, ops);
    RunDirect(db, ops);
  }

  lemma {:induction false} ScannedDense(slots: seq<Slot>, i: nat)
    requires i < |slots| && forall j :: 0 <= j < |slots| ==> slots[j].Record?
    ensures Scanned(slots, i) == i
  {
    if i > 0 {
      ScannedDense(slots[1..], i - 1);
    }
  }

  function Records(slots: seq<Slot>): nat {
    if slots == [] then 0 else Records(slots[..|slots| - 1]) + if slots[|slots| - 1].Record? then 1 else 0
  }

  /** Record `i` of a scan is the one with `i` records before it; beyond the last there is none. */
  lemma {:induction false} ScannedIs(slots: seq<Slot>, i: nat)
    ensures Scanned(slots, i) >= 0 <==> i < Records(slots)
    ensures Scanned(slots, i) >= 0 ==> slots[Scanned(slots, i)].Record? && Records(slots[..Scanned(slots, i)]) == i
  {
    if slots != [] {
      var tail := slots[1..];
      RecordsFirst(slots);
      var j := if slots[0].Free? then i else i - 1;
      if j >= 0 {
        ScannedIs(tail, j);
        var r := Scanned(tail, j);
        if r >= 0 {
          RecordsFirst(slots[..r + 1]);
          assert slots[..r + 1][1..] == tail[..r];
        }
      } else {
        assert slots[..0] == [];
      }
    }
  }

  lemma {:induction false} RecordsFirst(slots: seq<Slot>)
    requires slots != []
    ensures Records(slots) == Records(slots[1..]) + if slots[0].Record? then 1 else 0
  {
    var n := |slots| - 1;
    if n > 0 {
      RecordsFirst(slots[..n]);
      assert slots[..n][1..] == slots[1..][..n - 1];
    } else {
      assert slots[..0] == [] && slots[1..] == [];
    }
  }

  /** Without vacuumed slots every run is one of those. */
  lemma {:induction false} NoHolesDirect(db: Database, ops: seq<Op>)
    requires Ready(db) && forall p, i {:trigger db.pages[p][i]} :: p in db.pages && 0 <= i < |db.pages[p]| ==> db.pages[p][i].Record?
    ensures AllDirect(db, ops)
  {
    hide RecordSize, Apply, Scanned, IsVisible;
    if ops != [] {
      NoHolesDirect(db, ops[..|ops| - 1]);
      RunFollows(db, ops[..|ops| - 1]);
      var s, op := Run(Begin(db), ops[..|ops| - 1]), ops[|ops| - 1];
      if op.Update? && Targets(s, op.page, op.index) {
        forall j | 0 <= j < |s.pages[op.page]| ensures s.pages[op.page][j].Record? {
          assert SlotFollows(db, s, op.page, j);
          if Existed(db, op.page, j) { assert db.pages[op.page][j].Record?; }
        }
        ScannedDense(s.pages[op.page], op.index);
      }
    }
  }

  // ---------- Inserted records ----------

  lemma {:induction false} UndoMarks(s: Slot, t: TxnId, log: seq<Undo>)
    requires s.Record? && t != INVALID_TXN_ID && (s.xmax == INVALID_TXN_ID || s.xmax == t)
    ensures var r := UndoLog(s, t, log); r.Record? && (r.xmax == INVALID_TXN_ID || r.xmax == t)
    ensures log != [] && log[0].UndoInsert? ==> UndoLog(s, t, log).xmax == t
    decreases |log|
  {
    hide RecordSize;
    if log != [] {
      var n := |log| - 1;
      var u := UndoSlot(s, t, log[n]);
      UndoMarks(u, t, log[..n]);
      if n == 0 { assert log[..0] == []; }
    }
  }

  /** Undoing a logged insert marks its record deleted, whatever was done to the record after. */
  lemma InsertsUndone(db: Database, ops: seq<Op>, p: PageId, i: nat)
    requires Ready(db)
    requires var s := Run(Begin(db), ops);
             Existed(s, p, i) && !Existed(db, p, i) && LogAt(s.undo, p, i) != [] && LogAt(s.undo, p, i)[0].UndoInsert?
    ensures var r := Rollback(Run(Begin(db), ops));
            Existed(r, p, i) && r.pages[p][i].Record? && r.pages[p][i].xmin == r.pages[p][i].xmax == db.nextTxn
  {
    hide RecordSize, Run, UndoAll, UndoLog, LogAt;
    var s := Run(Begin(db), ops);
    RunFollows(db, ops);
    assert SlotFollows(db, s, p, i);
    UndoAllAt(s.pages, s.current, s.undo, p, i);
    UndoMarks(s.pages[p][i], s.current, LogAt(s.undo, p, i));
    UndoKeepsCreator(s.pages[p][i], s.current, LogAt(s.undo, p, i));
  }

  // ---------- What holds before the next BEGIN ----------

  lemma {:induction false} UndoKeepsLength(s: Slot, t: TxnId, log: seq<Undo>)
    requires LengthOk(s)
    ensures LengthOk(UndoLog(s, t, log))
    decreases |log|
  {
    hide RecordSize;
    if log != [] {
      UndoKeepsLength(UndoSlot(s, t, log[|log| - 1]), t, log[..|log| - 1]);
    }
  }

  /** A run and its rollback leave record lengths right and the next number valid. */
  lemma StaysReady(db: Database, ops: seq<Op>)
    requires Ready(db)
    ensures Ready(Run(Begin(db), ops)) && Ready(Rollback(Run(Begin(db), ops)))
  {
    hide RecordSize, Run, UndoAll, UndoLog;
    var s := Run(Begin(db), ops);
    RunFollows(db, ops);
    RunNumbers(Begin(db), ops);
    forall p, i | p in s.pages && 0 <= i < |s.pages[p]| ensures LengthOk(s.pages[p][i]) {
      LengthFollows(db, s, p, i);
    }
    UndoAllKeys(s.pages, s.current, s.undo);
    var r := UndoAll(s.pages, s.current, s.undo);
    forall p, i | p in r && 0 <= i < |r[p]| ensures LengthOk(r[p][i]) {
      UndoAllAt(s.pages, s.current, s.undo, p, i);
      UndoKeepsLength(s.pages[p][i], s.current, LogAt(s.undo, p, i));
    }
  }

  lemma {:induction false} RunNumbers(db: Database, ops: seq<Op>)
    ensures Run(db, ops).nextTxn == db.nextTxn && Run(db, ops).txns == db.txns && Run(db, ops).current == db.current
  {
    if ops != [] { RunNumbers(db, ops[..|ops| - 1]); }
  }

  lemma RunSnoc(db: Database, ops: seq<Op>, op: Op)
    ensures Run(db, ops + [op]) == Apply(Run(db, ops), op)
  {
    assert (ops + [op])[..|ops|] == ops;
  }

  // ---------- Each way to lose something, with its exact condition ----------

  lemma {:induction false} SingleRun(db: Database, op: Op)
    ensures Run(db, [op]) == Apply(db, op)
  {
    assert [op][..0] == [];
    assert Run(db, []) == db;
  }

  /** A lone in-place update: rolling it back writes the row that was read, if that is not longer than the
      row that was written, so the view is restored exactly if that happens to be the row that was there,
      or if no other reader saw the record. */
  lemma LoneUpdate(db: Database, op: Op)
    requires Ready(db) && op.Update? && Targets(Begin(db), op.page, op.index)
    requires UpdateSlot(db.pages[op.page][op.index], op.row).0
    ensures var read, slot := db.pages[op.page][Scanned(db.pages[op.page], op.index)].row, db.pages[op.page][op.index];
            SameView(db, Rollback(Run(Begin(db), [op])), db.nextTxn) <==>
            NumberUnclaimed(db) && (Exposed(db, slot) ==> (if RecordSize(read) <= RecordSize(op.row) then read else op.row) == slot.row)
  {
    hide RecordSize, Scanned, UndoAll, SameView, NumberUnclaimed, IsVisible;
    var p, i := op.page, op.index;
    var b := Begin(db);
    var s := Apply(b, op);
    var read := db.pages[p][Scanned(db.pages[p], i)].row;
    SingleRun(b, op);
    RollbackTheorem(db, [op]);
    BeginFollows(db);
    InPlaceFollows(db, b, p, i, op.row, op.spill, op.newRowId);
    assert LogAt(s.undo, p, i) == [] + [UndoUpdate(p, i, read)] == [UndoUpdate(p, i, read)];
    assert OldRows([UndoUpdate(p, i, read)]) == [read] by { assert [UndoUpdate(p, i, read)][..0] == []; assert [] + [read] == [read]; }
    assert [read] + [op.row] == [] + [read] + [op.row];
    LastTwo([], read, op.row);
    assert [] + [read] == [read] && [] + [op.row] == [op.row];
    Alone(read);
    Alone(op.row);
    BeginDirect(db);
    OnlyOneMatters(db, b, s, p, i);
  }

  lemma BeginFollows(db: Database)
    requires Ready(db)
    ensures Follows(db, Begin(db)) && forall p, i :: 0 <= i ==> LogAt(Begin(db).undo, p, i) == []
  {
  }

  lemma OnlyOneMatters(db: Database, s: Database, s': Database, p: PageId, i: nat)
    requires Follows(db, s) && AllKept(db, s) && SameElsewhere(s, s', p, i)
    ensures AllKept(db, s') <==> Kept(db, s', p, i)
  {
    hide Left, Exposed, SlotFollows, LogAt;
    forall q, j: nat | !(q == p && j == i) ensures Kept(db, s', q, j) {
      assert SameAt(s, s', q, j) && Kept(db, s, q, j);
    }
    if AllKept(db, s') { assert Kept(db, s', p, i); }
    if Kept(db, s', p, i) { forall q, j | 0 <= j ensures Kept(db, s', q, j) { } }
  }

  /** BEGIN and ROLLBACK with nothing between: the view survives exactly when the number was unclaimed. */
  lemma EmptyTransaction(db: Database)
    requires Ready(db)
    ensures SameView(db, Rollback(Run(Begin(db), [])), db.nextTxn) <==> NumberUnclaimed(db)
  {
    hide SameView, NumberUnclaimed, Rollback;
    RollbackTheorem(db, []);
    BeginDirect(db);
  }

  const LONG: Row := [Text("ab")]
  const SHORT: Row := [Text("a")]
  const ONE_ROW := Database(map[1 := [Record(1, 1, INVALID_TXN_ID, LONG, 35)]], map[1 := Committed], 2, INVALID_TXN_ID, [])

  lemma Sizes()
    ensures RecordSize(LONG) == 35 && RecordSize(SHORT) == 33 && LONG != SHORT
  {
    assert RecordSize([]) == 26;
    assert LONG[1..] == [] && SHORT[1..] == [];
    assert |LONG[0].chars| != |SHORT[0].chars|;
  }

  /** Shrink a committed row in place and roll back: the view is not restored. */
  lemma ShrunkRowStays()
    ensures Ready(ONE_ROW) && NumberUnclaimed(ONE_ROW)
    ensures !SameView(ONE_ROW, Rollback(Run(Begin(ONE_ROW), [Update(1, 0, SHORT, 1, 2)])), 2)
  {
    hide RecordSize, UndoAll, Apply, Run, SameView;
    Sizes();
    assert Scanned(ONE_ROW.pages[1], 0) == 0;
    LoneUpdate(ONE_ROW, Update(1, 0, SHORT, 1, 2));
  }

  lemma NullSize()
    ensures RecordSize([Null]) == 27
  {
    assert RecordSize([]) == 26 && [Null][1..] == [];
  }

  const ROW_A: Row := [Int(10)]
  const ROW_B: Row := [Int(20)]
  const HOLED := Database(
    map[1 := [Free, Record(1, 1, INVALID_TXN_ID, ROW_A, 31), Record(2, 1, INVALID_TXN_ID, ROW_B, 31)]],
    map[1 := Committed], 2, INVALID_TXN_ID, [])

  lemma RowSize(row: Row)
    requires |row| == 1 && row[0].Int?
    ensures RecordSize(row) == 31
  {
    assert row[1..] == [];
    assert RecordSize([]) == 26;
  }

  lemma HoledScan()
    ensures Scanned(HOLED.pages[1], 1) == 2
  {
    var page := HOLED.pages[1];
    assert page[1..] == [page[1], page[2]];
    assert page[1..][1..] == [page[2]];
    assert Scanned(page[1..][1..], 0) == 0;
    assert Scanned(page[1..], 1) == 1;
  }

  const ONE_NUMBER := Database(map[1 := [Record(1, 1, INVALID_TXN_ID, ROW_A, 31)]], map[1 := Committed], 2, INVALID_TXN_ID, [])

  /** Update a committed row in place without shrinking it, then make it grow, and roll back: the moved
      record keeps the row of the first update. */
  lemma MovedRowStays()
    ensures var ops := [Update(1, 0, ROW_B, 1, 2), Update(1, 0, LONG, 1, 3)];
            Ready(ONE_NUMBER) && NumberUnclaimed(ONE_NUMBER) &&
            !SameView(ONE_NUMBER, Rollback(Run(Begin(ONE_NUMBER), ops)), 2)
  {
    hide RecordSize, UndoAll, SameView;
    Sizes();
    RowSize(ROW_A);
    RowSize(ROW_B);
    assert ROW_A[0] != ROW_B[0];
    var db, first, second := ONE_NUMBER, Update(1, 0, ROW_B, 1, 2), Update(1, 0, LONG, 1, 3);
    var ops := [first, second];
    var s := Apply(Begin(db), first);
    assert ops[..1] == [first];
    SingleRun(Begin(db), first);
    assert Scanned(db.pages[1], 0) == 0;
    assert s.pages[1] == [Record(1, 1, INVALID_TXN_ID, ROW_B, 31)];
    assert Scanned(s.pages[1], 0) == 0 && Targets(s, 1, 0) && !Reversible(db, s, second);
    assert !AllReversible(db, ops);
    NoHolesDirect(db, ops);
    DirectRollback(db, ops);
  }

  /** Below a vacuumed slot even an update that keeps the record length is not undone. */
  lemma VacuumedSlotMisdirects()
    ensures Ready(HOLED) && NumberUnclaimed(HOLED)
    ensures !SameView(HOLED, Rollback(Run(Begin(HOLED), [Update(1, 1, ROW_B, 1, 3)])), 2)
  {
    hide RecordSize, Scanned, UndoAll, Apply, Run, SameView;
    HoledScan();
    RowSize(ROW_A);
    RowSize(ROW_B);
    assert ROW_A[0] != ROW_B[0];
    LoneUpdate(HOLED, Update(1, 1, ROW_B, 1, 3));
  }

  /** Numbers start again at 1 after a restart.  A row that transaction 1 committed before it disappears
      when the new transaction 1 is rolled back, although it wrote nothing. */
  lemma ReusedIdHidesRows()
    ensures var db := Database(map[1 := [Record(1, 1, INVALID_TXN_ID, ROW_A, 31)]], map[], 1, INVALID_TXN_ID, []);
            Ready(db) && !SameView(db, Rollback(Run(Begin(db), [])), 1)
  {
    hide RecordSize, UndoAll, Run, SameView;
    RowSize(ROW_A);
    var db := Database(map[1 := [Record(1, 1, INVALID_TXN_ID, ROW_A, 31)]], map[], 1, INVALID_TXN_ID, []);
    EmptyTransaction(db);
    assert !Unclaimed(db, db.pages[1][0]);
  }
}
