/**
 * Sequences of controller commands and what they leave behind: the undo
 * round trip, the single snapshot slot, the timer's expiry, the snapshot a
 * rejected DELETE overwrites, and the idempotence of clearUndo.
 */
module Scenarios {
  import opened Ledger
  import opened App

  /**
   * Deleting a stored row and undoing at once restores the store, the list,
   * the summary and the categories exactly, and disarms undo.
   */
  method DeleteThenUndo(app: AppController, id: int)
    requires app.Valid() && app.db.open && id in app.db.rows
    modifies app, app.db, app.model
    ensures app.Valid()
    ensures app.db.rows == old(app.db.rows) && app.db.lastId == old(app.db.lastId)
    ensures app.model.items == old(app.model.items)
    ensures app.summaryIncome == old(app.summaryIncome) && app.summaryExpenses == old(app.summaryExpenses)
    ensures app.categories == old(app.categories)
    ensures !app.undoAvailable
  {
    var deleted := app.DeleteTransaction(id, false);
    assert deleted;
    var restored := app.UndoDelete(false);
    assert restored;
    DeleteThenReinsert(old(app.db.rows), id);
  }

  /**
   * The snapshot slot holds one row: after deleting `a` and then `b`, undo
   * brings back only `b`, and a second undo is refused.
   */
  method OnlyLastDeletionRestored(app: AppController, a: int, b: int) returns (restored: bool, again: bool)
    requires app.Valid() && app.db.open && a in app.db.rows && b in app.db.rows && a != b
    modifies app, app.db, app.model
    ensures app.Valid()
    ensures app.db.rows == old(app.db.rows) - {a}
    ensures restored && !again && !app.undoAvailable
  {
    var first := app.DeleteTransaction(a, false);
    var second := app.DeleteTransaction(b, false);
    assert second;
    restored := app.UndoDelete(false);
    again := app.UndoDelete(false);
    assert (old(app.db.rows) - {a} - {b})[b := old(app.db.rows)[b]] == old(app.db.rows) - {a};
  }

  /** Once the undo timer has fired, undo is refused and the row stays deleted. */
  method UndoAfterExpiryFails(app: AppController, id: int) returns (restored: bool)
    requires app.Valid() && app.db.open && id in app.db.rows
    modifies app, app.db, app.model
    ensures app.Valid()
    ensures app.db.rows == old(app.db.rows) - {id}
    ensures app.lastDeleted == old(app.db.rows)[id]
    ensures !restored
  {
    var deleted := app.DeleteTransaction(id, false);
    app.Expire();
    restored := app.UndoDelete(false);
  }

  /**
   * A DELETE the store rejects still overwrites the snapshot while undo
   * stays armed: undo then tries to re-insert the row that was never
   * removed, is refused, and the earlier deletion of `a` can no longer be
   * undone.
   */
  method RejectedDeleteLosesUndo(app: AppController, a: int, b: int)
    requires app.Valid() && app.db.open && a in app.db.rows && b in app.db.rows && a != b
    modifies app, app.db, app.model
    ensures app.Valid()
    ensures app.undoAvailable
    ensures app.lastDeleted == old(app.db.rows)[b]
    ensures app.db.rows == old(app.db.rows) - {a}
  {
    var first := app.DeleteTransaction(a, false);
    var second := app.DeleteTransaction(b, true);
    assert !second;
    var restored := app.UndoDelete(false);
    assert !restored;
  }

  /** clearUndo reports a change only the first time. */
  method ClearUndoTwice(app: AppController) returns (first: bool, second: bool)
    modifies app
    ensures first == old(app.undoAvailable)
    ensures !second && !app.undoAvailable
  {
    first := app.ClearUndo();
    second := app.ClearUndo();
  }
}
