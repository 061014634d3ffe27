/**
 * The list model behind the transactions view: the month and the three
 * filters it shows, and the items of its last reload
 * (src/models/TransactionsModel.h:35-50, src/models/TransactionsModel.cpp).
 */
module Transactions {
  import opened Dates
  import opened DateText
  import opened Ledger
  import opened Projection
  import opened Wrappers

  /** Qt::UserRole is 0x0100; the model's roles follow it in declaration order. */
  const UserRole := 0x0100
  const IdRole := UserRole + 1
  const TypeRole := UserRole + 2
  const AmountFormattedRole := UserRole + 3
  const AmountCentsRole := UserRole + 4
  const DateRole := UserRole + 5
  const CategoryRole := UserRole + 6
  const NoteRole := UserRole + 7

  /**
   * What `data` hands to the view: nothing (an invalid QVariant), a number,
   * a text, or the locale-formatted text of an amount in cents.
   */
  datatype Value = Null | Number(n: int) | Str(s: string) | FormattedAmount(cents: int)

  /** The value of one role of one item. */
  function RoleValue(it: Item, role: int): (v: Value)
    ensures v.Null? <==> !(IdRole <= role <= NoteRole)
    ensures role == DateRole ==> v.Str? && |v.s| == 10
    ensures role == IdRole ==> v == Number(it.id)
  {
    if role == IdRole then Number(it.id)
    else if role == TypeRole then Number(it.kind)
    else if role == AmountFormattedRole then FormattedAmount(it.amountCents)
    else if role == AmountCentsRole then Number(it.amountCents)
    else if role == DateRole then Str(FormatDate(it.date))
    else if role == CategoryRole then Str(it.category)
    else if role == NoteRole then Str(it.note)
    else Null
  }

  /** The date text a row shows reads back as the item's date. */
  lemma DateRoleReadsBack(it: Item)
    requires Printable(it.date)
    ensures ParseDate(RoleValue(it, DateRole).s) == Some(it.date)
  {
    DateRoundTrip(it.date);
  }

  lemma ToItemsAppend(rs: seq<Record>, r: Record)
    ensures ToItems(rs + [r]) == ToItems(rs) + [ToItem(r)]
  {
  }

  class TransactionsModel {
    const db: Database
    var items: seq<Item>
    var month: Date
    var typeFilter: int
    var categoryFilter: string
    var textFilter: string

    /** A fresh model: null month, no filters (type -1), nothing listed. */
    constructor (db: Database)
      ensures this.db == db
      ensures items == [] && month == NullDate
      ensures typeFilter == -1 && categoryFilter == "" && textFilter == ""
    {
      this.db := db;
      items := [];
      month := NullDate;
      typeFilter := -1;
      categoryFilter := "";
      textFilter := "";
    }

    function CurrentFilters(): Filters
      reads this
    {
      Filters(typeFilter, categoryFilter, textFilter)
    }

    /** The items are the store's listing for the model's month and filters. */
    ghost predicate Synced()
      reads this, db
    {
      db.open ==> items == Listing(db.rows, month, CurrentFilters())
    }

    /**
     * Re-runs the list query. With the store open the items become the
     * listing of the month under the filters; with it closed nothing changes.
     */
    method Reload()
      requires db.Valid()
      modifies this`items
      ensures db.open ==> items == Listing(db.rows, month, CurrentFilters())
      ensures !db.open ==> items == old(items)
      ensures Synced()
    {
      if !db.open {
        return;
      }
      var rows := Query(db.rows, month, CurrentFilters());
      var fetched: seq<Item> := [];
      var i := 0;
      while i < |rows|
        invariant 0 <= i <= |rows|
        invariant fetched == ToItems(rows[..i])
      {
        assert rows[..i + 1] == rows[..i] + [rows[i]];
        ToItemsAppend(rows[..i], rows[i]);
        fetched := fetched + [ToItem(rows[i])];
        i := i + 1;
      }
      assert rows[..i] == rows;
      items := fetched;
    }

    /** Shows another month; asking for the month already shown does nothing. */
    method SetMonth(m: Date)
      requires db.Valid()
      modifies this`month, this`items
      ensures month == m
      ensures old(month) == m ==> items == old(items)
      ensures old(month) != m && db.open ==> items == Listing(db.rows, m, CurrentFilters())
      ensures !db.open ==> items == old(items)
      ensures old(Synced()) ==> Synced()
    {
      if month == m {
        return;
      }
      month := m;
      Reload();
    }

    /** Replaces all three filters and reloads, even when they are unchanged. */
    method SetFilters(typeFilter: int, categoryFilter: string, textFilter: string)
      requires db.Valid()
      modifies this`typeFilter, this`categoryFilter, this`textFilter, this`items
      ensures CurrentFilters() == Filters(typeFilter, categoryFilter, textFilter)
      ensures db.open ==> items == Listing(db.rows, month, Filters(typeFilter, categoryFilter, textFilter))
      ensures !db.open ==> items == old(items)
      ensures Synced()
    {
      this.typeFilter := typeFilter;
      this.categoryFilter := categoryFilter;
      this.textFilter := textFilter;
      Reload();
    }

    /** A flat list: no children under a valid parent, otherwise one row per item. */
    function RowCount(parentValid: bool): (n: nat)
      reads this
      ensures parentValid ==> n == 0
      ensures !parentValid ==> n == |items|
    {
      if parentValid then 0 else |items|
    }

    /** The value of `role` for row `row`; nothing for an invalid index or an unknown role. */
    function Data(indexValid: bool, row: int, role: int): (v: Value)
      reads this
      ensures !(indexValid && 0 <= row < |items|) ==> v == Null
      ensures indexValid && 0 <= row < |items| ==> v == RoleValue(items[row], role)
    {
      if !indexValid || row < 0 || row >= |items| then Null else RoleValue(items[row], role)
    }
  }

  /**
   * In a synced model over an open store, the row count is the number of
   * stored records that pass the filters in the model's month.
   */
  lemma RowCountCountsVisibleRecords(m: TransactionsModel)
    requires m.db.Valid() && m.db.open && m.Synced()
    ensures m.RowCount(false) == |Query(m.db.rows, m.month, m.CurrentFilters())|
  {
  }

  /**
   * In a synced model over an open store, every row of the view shows a
   * stored record that passes the filters, under every role, and the rows
   * appear in listing order (later date first, then larger id).
   */
  lemma DataShowsVisibleRecords(m: TransactionsModel, row: int, role: int)
    requires m.db.Valid() && m.db.open && m.Synced()
    requires 0 <= row < m.RowCount(false)
    ensures m.Data(true, row, IdRole).Number?
    ensures var id := m.Data(true, row, IdRole).n;
            id in m.db.rows && Visible(m.db.rows[id], m.month, m.CurrentFilters())
            && m.Data(true, row, AmountCentsRole) == Number(m.db.rows[id].amountCents)
            && m.Data(true, row, role) == RoleValue(ToItem(m.db.rows[id]), role)
    ensures row + 1 < m.RowCount(false) ==>
              var next := m.Data(true, row + 1, IdRole).n;
              next in m.db.rows && ListedBefore(m.db.rows[m.Data(true, row, IdRole).n], m.db.rows[next])
  {
    var q := Query(m.db.rows, m.month, m.CurrentFilters());
    QueryIsOrderedListing(m.db.rows, m.month, m.CurrentFilters());
    assert q[row] in q;
    if row + 1 < |q| {
      assert q[row + 1] in q;
      assert ListedBefore(q[row], q[row + 1]);
    }
  }
}
