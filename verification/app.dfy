/**
 * The application controller: the month being viewed, that month's income
 * and expense totals, the category vocabulary and a single-slot undo for
 * the last deletion (src/AppController.h:66-90, src/AppController.cpp).
 * The undo timer is single-shot and runs exactly while undo is armed, so
 * its firing is the explicit Expire method. Every write the store may
 * reject takes a `fault` flag standing for that outcome; the creation time
 * of a new row is passed in as `createdAt`.
 */
module App {
  import opened Dates
  import opened Text
  import opened Ledger
  import opened Projection
  import opened Transactions

  /** A default-constructed DeletedTransaction. */
  const EmptySnapshot := Record(0, Expense, 0, NullDate, "", "", "")

  /**
   * The value refreshSummary is left holding for one side after reading the
   * GROUP BY rows in order: each row overwrites the side its type selects
   * (type 1 is income, any other type expenses), and a side no row selects
   * stays 0.
   */
  function LastTotal(g: seq<GroupRow>, k: Kind): int {
    if g == [] then 0
    else if g[|g| - 1].kind == k then g[|g| - 1].total
    else LastTotal(g[..|g| - 1], k)
  }

  /**
   * Because GROUP BY yields at most one row per type, overwriting gives the
   * same result as summing: each side ends up with its type's total.
   */
  lemma GroupTotalsAreKindTotals(rs: seq<Record>, k: Kind)
    ensures LastTotal(GroupByKind(rs), k) == KindTotal(rs, k)
  {
    var g := GroupByKind(rs);
    GroupByKindSpec(rs);
    if !HasKind(rs, k) {
      KindTotalWithoutKind(rs, k);
    }
    if |g| == 2 {
      assert g[..1] == [g[0]];
      assert [g[0]][..0] == [];
    } else if |g| == 1 {
      assert g[..0] == [];
    }
  }

  /**
   * The loop over the GROUP BY rows: a row of type 1 sets income, any other
   * row sets expenses; a side no row sets stays 0.
   */
  method ReadGroups(groups: seq<GroupRow>) returns (income: int, expenses: int)
    ensures income == LastTotal(groups, Income)
    ensures expenses == LastTotal(groups, Expense)
  {
    income, expenses := 0, 0;
    var i := 0;
    while i < |groups|
      invariant 0 <= i <= |groups|
      invariant income == LastTotal(groups[..i], Income)
      invariant expenses == LastTotal(groups[..i], Expense)
    {
      assert groups[..i + 1][..i] == groups[..i];
      if groups[i].kind == 1 {
        income := groups[i].total;
      } else {
        expenses := groups[i].total;
      }
      i := i + 1;
    }
    assert groups[..i] == groups;
  }

  /**
   * The loop over the store's distinct categories in ascending order: starting
   * from the builtins, each category not yet in the list is appended.
   */
  method MergeCategories(distinct: seq<string>) returns (list: seq<string>)
    requires StrictlySorted(distinct)
    ensures list == Builtins + Without(distinct, Builtins)
  {
    list := Builtins;
    var i := 0;
    while i < |distinct|
      invariant 0 <= i <= |distinct|
      invariant list == Builtins + Without(distinct[..i], Builtins)
    {
      var c := distinct[i];
      assert c !in distinct[..i] by {
        forall j | 0 <= j < i ensures distinct[j] != c {
          assert Less(distinct[j], c);
          LessIrreflexive(c);
        }
      }
      assert distinct[..i + 1] == distinct[..i] + [c];
      WithoutAppend(distinct[..i], c, Builtins);
      WithoutSpec(distinct[..i], Builtins);
      if c !in list {
        list := list + [c];
      }
      i := i + 1;
    }
    assert distinct[..i] == distinct;
  }

  class AppController {
    const db: Database
    const model: TransactionsModel
    var currentMonth: Date
    var summaryIncome: int
    var summaryExpenses: int
    var categories: seq<string>
    var lastDeleted: Record
    var undoAvailable: bool

    /**
     * The view state agrees with the store: the month is a first day, the
     * list shows it, the summary holds its totals (left at 0 when the store
     * is closed) and the categories are the vocabulary of the store.
     */
    ghost predicate Valid()
      reads this, db, model
    {
      && db.Valid() && model.db == db && model.Synced()
      && ValidDate(currentMonth) && currentMonth.day == 1
      && model.month == currentMonth
      && categories == Vocabulary(db.rows, db.open)
      && (db.open ==> summaryIncome == MonthTotal(db.rows, currentMonth, Income)
                      && summaryExpenses == MonthTotal(db.rows, currentMonth, Expense))
      && (!db.open ==> summaryIncome == 0 && summaryExpenses == 0 && model.items == [])
    }

    /** Starts on the first day of today's month with no filters and undo empty. */
    constructor (db: Database, today: Date)
      requires db.Valid() && ValidDate(today)
      ensures Valid() && this.db == db && fresh(model)
      ensures currentMonth == FirstOfMonth(today)
      ensures model.CurrentFilters() == NoFilters
      ensures lastDeleted == EmptySnapshot && !undoAvailable
    {
      this.db := db;
      model := new TransactionsModel(db);
      currentMonth := FirstOfMonth(today);
      summaryIncome := 0;
      summaryExpenses := 0;
      categories := [];
      lastDeleted := EmptySnapshot;
      undoAvailable := false;
      new;
      model.SetMonth(currentMonth);
      var _ := RefreshSummary();
      var _ := RefreshCategories();
    }

    /**
     * Recomputes the month's totals. With the store closed nothing changes.
     * The fields are written, and `changed` (summaryChanged) raised, only
     * when a total differs from what was shown.
     */
    method RefreshSummary() returns (changed: bool)
      requires db.Valid()
      modifies this`summaryIncome, this`summaryExpenses
      ensures db.open ==> summaryIncome == MonthTotal(db.rows, currentMonth, Income)
                          && summaryExpenses == MonthTotal(db.rows, currentMonth, Expense)
      ensures !db.open ==> summaryIncome == old(summaryIncome) && summaryExpenses == old(summaryExpenses)
      ensures changed <==> summaryIncome != old(summaryIncome) || summaryExpenses != old(summaryExpenses)
    {
      if !db.open {
        return false;
      }
      var mr := MonthRows(db.rows, currentMonth);
      var income, expenses := ReadGroups(GroupByKind(mr));
      GroupTotalsAreKindTotals(mr, Income);
      GroupTotalsAreKindTotals(mr, Expense);
      changed := income != summaryIncome || expenses != summaryExpenses;
      if changed {
        summaryIncome := income;
        summaryExpenses := expenses;
      }
    }

    /**
     * Rebuilds the category list: the builtins, then each distinct store
     * category in ascending order that is not already listed. The field is
     * written, and `changed` (categoriesChanged) raised, only when the list
     * differs.
     */
    method RefreshCategories() returns (changed: bool)
      requires db.Valid()
      modifies this`categories
      ensures categories == Vocabulary(db.rows, db.open)
      ensures changed <==> categories != old(categories)
    {
      var list := Builtins;
      if db.open {
        DistinctCategoriesAreStoreCategories(db.rows);
        list := MergeCategories(DistinctCategories(db.rows));
      }
      changed := list != categories;
      if changed {
        categories := list;
      }
    }

    /**
     * Disarms undo; `changed` (undoAvailableChanged) tells whether it was
     * armed. The undo flag is not part of Valid(), so this needs no
     * invariant and can run while a command is midway through.
     */
    method ClearUndo() returns (changed: bool)
      modifies this`undoAvailable
      ensures !undoAvailable
      ensures changed == old(undoAvailable)
    {
      if !undoAvailable {
        return false;
      }
      undoAvailable := false;
      changed := true;
    }

    /** The undo timer fires: undo is disarmed and the snapshot kept. */
    method Expire()
      requires Valid()
      modifies this`undoAvailable
      ensures Valid() && !undoAvailable
    {
      var _ := ClearUndo();
    }

    /** Income minus expenses of the month shown. */
    function SummaryNetCents(): (net: int)
      reads this, db, model
      requires Valid()
      ensures db.open ==> net == MonthTotal(db.rows, currentMonth, Income) - MonthTotal(db.rows, currentMonth, Expense)
      ensures !db.open ==> net == 0
    {
      summaryIncome - summaryExpenses
    }

    /**
     * Shows the month of `m`, normalised to its first day. Asking for the
     * month already shown changes nothing; `changed` is currentMonthChanged.
     */
    method SetMonth(m: Date) returns (changed: bool)
      requires Valid() && ValidDate(m)
      modifies this`currentMonth, this`summaryIncome, this`summaryExpenses, model`month, model`items
      ensures Valid()
      ensures currentMonth == FirstOfMonth(m)
      ensures changed <==> FirstOfMonth(m) != old(currentMonth)
      ensures !changed ==> summaryIncome == old(summaryIncome) && summaryExpenses == old(summaryExpenses)
                           && model.items == old(model.items)
    {
      var normalized := FirstOfMonth(m);
      if normalized == currentMonth {
        return false;
      }
      currentMonth := normalized;
      changed := true;
      model.SetMonth(currentMonth);
      var _ := RefreshSummary();
    }

    /** One calendar month forward, December wrapping to January of the next year. */
    method NextMonth()
      requires Valid()
      modifies this`currentMonth, this`summaryIncome, this`summaryExpenses, model`month, model`items
      ensures Valid()
      ensures currentMonth == if old(currentMonth).month == 12 then Date(old(currentMonth).year + 1, 1, 1)
                              else Date(old(currentMonth).year, old(currentMonth).month + 1, 1)
    {
      NextMonthWraps(currentMonth);
      var _ := SetMonth(AddMonths(currentMonth, 1));
    }

    /** One calendar month back, January wrapping to December of the previous year. */
    method PrevMonth()
      requires Valid()
      modifies this`currentMonth, this`summaryIncome, this`summaryExpenses, model`month, model`items
      ensures Valid()
      ensures currentMonth == if old(currentMonth).month == 1 then Date(old(currentMonth).year - 1, 12, 1)
                              else Date(old(currentMonth).year, old(currentMonth).month - 1, 1)
    {
      PrevMonthWraps(currentMonth);
      var _ := SetMonth(AddMonths(currentMonth, -1));
    }

    /** Passes new filters to the list; the summary is not affected by them. */
    method SetFilters(typeFilter: int, categoryFilter: string, textFilter: string)
      requires Valid()
      modifies model`typeFilter, model`categoryFilter, model`textFilter, model`items
      ensures Valid()
      ensures model.CurrentFilters() == Filters(typeFilter, categoryFilter, textFilter)
    {
      model.SetFilters(typeFilter, categoryFilter, textFilter);
    }

    /**
     * Adds a transaction under the next AUTOINCREMENT id. On success the
     * list, summary and categories are refreshed: the total of its type
     * grows by its amount when it falls in the month shown, and its
     * category is offered. On failure nothing changes.
     */
    method AddTransaction(kind: Kind, amountCents: int, date: Date, category: string, note: string,
                          createdAt: string, fault: bool) returns (ok: bool)
      requires Valid()
      modifies db, this`summaryIncome, this`summaryExpenses, this`categories, model`items
      ensures Valid()
      ensures ok == (db.open && !fault)
      ensures ok ==> old(db.lastId) + 1 !in old(db.rows) && db.lastId == old(db.lastId) + 1
                     && db.rows == old(db.rows)[old(db.lastId) + 1 :=
                                    Record(old(db.lastId) + 1, kind, amountCents, date, category, note, createdAt)]
      ensures ok ==> summaryIncome == old(summaryIncome) + (if kind == Income && InMonth(date, currentMonth) then amountCents else 0)
      ensures ok ==> summaryExpenses == old(summaryExpenses) + (if kind == Expense && InMonth(date, currentMonth) then amountCents else 0)
      ensures ok ==> category in categories
      ensures !ok ==> db.rows == old(db.rows) && db.lastId == old(db.lastId)
                      && summaryIncome == old(summaryIncome) && summaryExpenses == old(summaryExpenses)
                      && categories == old(categories) && model.items == old(model.items)
    {
      if !db.open {
        return false;
      }
      var id;
      ok, id := db.Insert(kind, amountCents, date, category, note, createdAt, fault);
      if ok {
        var r := Record(id, kind, amountCents, date, category, note, createdAt);
        MonthTotalAfterAdd(old(db.rows), r, currentMonth, Income);
        MonthTotalAfterAdd(old(db.rows), r, currentMonth, Expense);
        model.Reload();
        var _ := RefreshSummary();
        var _ := RefreshCategories();
        StoredCategoryOffered(db.rows, r);
      }
    }

    /**
     * Replaces type, amount, date, category and note of the row with `id`,
     * keeping its id and creation time. An id no row has is still a
     * success, with the store unchanged.
     */
    method UpdateTransaction(id: int, kind: Kind, amountCents: int, date: Date, category: string, note: string,
                             fault: bool) returns (ok: bool)
      requires Valid()
      modifies db`rows, this`summaryIncome, this`summaryExpenses, this`categories, model`items
      ensures Valid()
      ensures ok == (db.open && !fault)
      ensures ok && id in old(db.rows) ==>
                db.rows == old(db.rows)[id := WithFields(old(db.rows)[id], kind, amountCents, date, category, note)]
      ensures !ok || id !in old(db.rows) ==> db.rows == old(db.rows)
      ensures !ok ==> summaryIncome == old(summaryIncome) && summaryExpenses == old(summaryExpenses)
                      && categories == old(categories) && model.items == old(model.items)
    {
      if !db.open {
        return false;
      }
      ok := db.Update(id, kind, amountCents, date, category, note, fault);
      if ok {
        model.Reload();
        var _ := RefreshSummary();
        var _ := RefreshCategories();
      }
    }

    /**
     * Deletes the row with `id` after taking a snapshot of it. An id no row
     * has changes nothing. The snapshot is taken before the DELETE runs, so
     * it replaces the previous one even when the DELETE is then rejected;
     * only a successful DELETE arms undo.
     */
    method DeleteTransaction(id: int, fault: bool) returns (ok: bool)
      requires Valid()
      modifies db`rows, this`summaryIncome, this`summaryExpenses, this`categories, model`items,
               this`lastDeleted, this`undoAvailable
      ensures Valid()
      ensures ok == (db.open && id in old(db.rows) && !fault)
      ensures db.open && id in old(db.rows) ==> lastDeleted == old(db.rows)[id]
      ensures !(db.open && id in old(db.rows)) ==> lastDeleted == old(lastDeleted)
      ensures ok ==> db.rows == old(db.rows) - {id} && undoAvailable
      ensures !ok ==> db.rows == old(db.rows) && undoAvailable == old(undoAvailable)
                      && summaryIncome == old(summaryIncome) && summaryExpenses == old(summaryExpenses)
                      && categories == old(categories) && model.items == old(model.items)
    {
      if !db.open {
        return false;
      }
      var found := db.Find(id);
      if found.None? {
        return false;
      }
      lastDeleted := found.value;
      ok := db.Delete(id, fault);
      if ok {
        model.Reload();
        var _ := RefreshSummary();
        var _ := RefreshCategories();
        undoAvailable := true;
      }
    }

    /**
     * Re-inserts the snapshot under its own id. Only possible while undo is
     * armed; success disarms it, failure leaves it armed. The store refuses
     * the row when its id is in use again.
     */
    method UndoDelete(fault: bool) returns (ok: bool)
      requires Valid()
      modifies db, this`summaryIncome, this`summaryExpenses, this`categories, model`items, this`undoAvailable
      ensures Valid()
      ensures ok == (db.open && old(undoAvailable) && !fault && lastDeleted.id !in old(db.rows))
      ensures ok ==> db.rows == old(db.rows)[lastDeleted.id := lastDeleted] && !undoAvailable
      ensures ok ==> db.lastId == (if lastDeleted.id > old(db.lastId) then lastDeleted.id else old(db.lastId))
      ensures !ok ==> db.lastId == old(db.lastId)
      ensures !ok ==> db.rows == old(db.rows) && undoAvailable == old(undoAvailable)
                      && summaryIncome == old(summaryIncome) && summaryExpenses == old(summaryExpenses)
                      && categories == old(categories) && model.items == old(model.items)
    {
      if !db.open || !undoAvailable {
        return false;
      }
      ok := db.InsertWithId(lastDeleted, fault);
      if ok {
        var _ := ClearUndo();
        model.Reload();
        var _ := RefreshSummary();
        var _ := RefreshCategories();
      }
    }
  }
}
