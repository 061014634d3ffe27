/**
 * What the store's queries return, as functions of the stored rows:
 * the month's visible transactions under the list filters
 * (src/models/TransactionsModel.cpp:91-122), the month's income and
 * expense totals grouped by type (src/AppController.cpp:250-258) and the
 * distinct categories (src/AppController.cpp:287). The functions only
 * compute; the lemmas state what the list model and the controller
 * promise about their results.
 */
module Projection {
  import opened Dates
  import opened Text
  import opened Search
  import opened Ledger

  /** The list filters: type (-1 for any), category ("" or "All" for any) and search text. */
  datatype Filters = Filters(typeFilter: int, category: string, text: string)

  /** The filters a fresh list model starts with. */
  const NoFilters := Filters(-1, "", "")

  predicate TypeMatches(r: Record, typeFilter: int) {
    typeFilter == -1 || r.kind == typeFilter
  }

  predicate CategoryMatches(r: Record, category: string) {
    category == "" || category == "All" || r.category == category
  }

  /** A blank search text restricts nothing; otherwise note or category must contain it. */
  predicate TextMatches(r: Record, text: string) {
    Trim(text) == [] || SearchMatches(r.note, text) || SearchMatches(r.category, text)
  }

  /** The WHERE clause of the list query. */
  predicate Visible(r: Record, month: Date, f: Filters) {
    InMonth(r.date, month) && TypeMatches(r, f.typeFilter)
    && CategoryMatches(r, f.category) && TextMatches(r, f.text)
  }

  /** The default filters let every row of the month through. */
  lemma NoFiltersHideNothing(r: Record, month: Date)
    ensures Visible(r, month, NoFilters) <==> InMonth(r.date, month)
  {
    assert TypeMatches(r, NoFilters.typeFilter);
    assert CategoryMatches(r, NoFilters.category);
    assert TextMatches(r, NoFilters.text) by {
      assert Trim("") == [];
    }
  }

  predicate IdsIncrease(s: seq<Record>) {
    forall i, j :: 0 <= i < j < |s| ==> s[i].id < s[j].id
  }

  predicate DistinctIds(s: seq<Record>) {
    forall i, j :: 0 <= i < j < |s| ==> s[i].id != s[j].id
  }

  /** The rows of `rows` that pass the WHERE clause, in scan order. */
  function Select(rows: seq<Record>, month: Date, f: Filters): seq<Record> {
    if rows == [] then []
    else if Visible(rows[0], month, f) then [rows[0]] + Select(rows[1..], month, f)
    else Select(rows[1..], month, f)
  }

  /** Select keeps exactly the visible rows. */
  lemma {:induction false} SelectMembers(rows: seq<Record>, month: Date, f: Filters)
    ensures forall r :: r in Select(rows, month, f) <==> r in rows && Visible(r, month, f)
    decreases |rows|
  {
    if rows != [] {
      SelectMembers(rows[1..], month, f);
      assert rows == [rows[0]] + rows[1..];
    }
  }

  /** Select keeps the rows in their original order. */
  lemma {:induction false} SelectKeepsOrder(rows: seq<Record>, month: Date, f: Filters)
    requires IdsIncrease(rows)
    ensures IdsIncrease(Select(rows, month, f))
    decreases |rows|
  {
    if rows != [] {
      SelectKeepsOrder(rows[1..], month, f);
      SelectMembers(rows[1..], month, f);
      var rest := Select(rows[1..], month, f);
      forall r | r in rest ensures rows[0].id < r.id {
        var j :| 0 <= j < |rows[1..]| && rows[1..][j] == r;
        assert rows[j + 1] == r;
      }
    }
  }

  /** `a` is listed above `b`: later date first, then the larger id. */
  predicate ListedBefore(a: Record, b: Record) {
    Before(b.date, a.date) || (a.date == b.date && a.id > b.id)
  }

  /** The listing order: newest date first, then the larger id first, with no ties. */
  predicate ListingOrdered(s: seq<Record>) {
    forall i, j :: 0 <= i < j < |s| ==> ListedBefore(s[i], s[j])
  }

  lemma ListedBeforeAsymmetric(a: Record, b: Record)
    ensures !(ListedBefore(a, b) && ListedBefore(b, a))
  {
  }

  /** Sequences with the same multiset have the same elements. */
  lemma SameElements(a: seq<Record>, b: seq<Record>)
    requires multiset(a) == multiset(b)
    ensures forall y :: y in a <==> y in b
  {
    forall y ensures y in a <==> y in b {
      assert y in a <==> y in multiset(a);
    }
  }

  /** With distinct ids, the head's id occurs nowhere in the tail. */
  lemma HeadIdIsFresh(s: seq<Record>)
    requires s != []
    ensures DistinctIds(s) ==> DistinctIds(s[1..]) && forall y :: y in s[1..] ==> y.id != s[0].id
  {
    if DistinctIds(s) {
      forall y | y in s[1..] ensures y.id != s[0].id {
        var j :| 0 <= j < |s[1..]| && s[1..][j] == y;
        assert s[j + 1] == y;
      }
    }
  }

  /** Puts `x` into a listing above the first row it is listed before. */
  function InsertListing(x: Record, s: seq<Record>): seq<Record> {
    if s == [] then [x]
    else if ListedBefore(x, s[0]) then [x] + s
    else [s[0]] + InsertListing(x, s[1..])
  }

  /** Inserting adds exactly `x` and loses nothing. */
  lemma {:induction false} InsertListingPermutes(x: Record, s: seq<Record>)
    ensures multiset(InsertListing(x, s)) == multiset(s) + multiset{x}
    decreases |s|
  {
    if s != [] {
      assert s == [s[0]] + s[1..];
      if !ListedBefore(x, s[0]) {
        InsertListingPermutes(x, s[1..]);
      }
    }
  }

  /** Inserting a row with a new id into an ordered listing keeps it ordered. */
  lemma {:induction false} InsertListingOrdered(x: Record, s: seq<Record>)
    requires ListingOrdered(s)
    requires forall y :: y in s ==> y.id != x.id
    ensures ListingOrdered(InsertListing(x, s))
    decreases |s|
  {
    if s != [] && !ListedBefore(x, s[0]) {
      forall y | y in s[1..] ensures y.id != x.id {
        assert y in s;
      }
      InsertListingOrdered(x, s[1..]);
      InsertListingPermutes(x, s[1..]);
      var rest := InsertListing(x, s[1..]);
      assert s[0] in s;
      assert ListedBefore(s[0], x);
      forall y | y in rest ensures ListedBefore(s[0], y) {
        assert y in multiset(rest);
        if y != x {
          assert y in multiset(s[1..]);
          var j :| 0 <= j < |s[1..]| && s[1..][j] == y;
          assert s[j + 1] == y;
        }
      }
    }
  }

  /** Sorts rows into listing order (an insertion sort). */
  function SortListing(s: seq<Record>): seq<Record> {
    if s == [] then [] else InsertListing(s[0], SortListing(s[1..]))
  }

  /** Sorting permutes the rows. */
  lemma {:induction false} SortListingPermutes(s: seq<Record>)
    ensures multiset(SortListing(s)) == multiset(s)
    decreases |s|
  {
    if s != [] {
      SortListingPermutes(s[1..]);
      InsertListingPermutes(s[0], SortListing(s[1..]));
      assert s == [s[0]] + s[1..];
    }
  }

  /** Rows with distinct ids come out of the sort in listing order. */
  lemma {:induction false} SortListingOrders(s: seq<Record>)
    requires DistinctIds(s)
    ensures ListingOrdered(SortListing(s))
    decreases |s|
  {
    if s != [] {
      HeadIdIsFresh(s);
      SortListingOrders(s[1..]);
      var rest := SortListing(s[1..]);
      SortListingPermutes(s[1..]);
      SameElements(rest, s[1..]);
      InsertListingOrdered(s[0], rest);
    }
  }

  /** The rows the list query returns, in the order it returns them. */
  function Query(rows: map<int, Record>, month: Date, f: Filters): seq<Record> {
    SortListing(Select(Table(rows), month, f))
  }

  /**
   * The listing order pins the sequence down: two ordered listings of the
   * same rows are equal.
   */
  lemma {:induction false} OrderedListingIsUnique(a: seq<Record>, b: seq<Record>)
    requires ListingOrdered(a) && ListingOrdered(b)
    requires forall r :: r in a <==> r in b
    ensures a == b
    decreases |a|
  {
    if b != [] {
      assert b[0] in a;
    }
    if a != [] {
      assert a[0] in b;
      var k :| 0 <= k < |b| && b[k] == a[0];
      assert b[0] in a;
      var m :| 0 <= m < |a| && a[m] == b[0];
      if k != 0 {
        assert ListedBefore(b[0], b[k]);
        assert m != 0;
        assert ListedBefore(a[0], a[m]);
        ListedBeforeAsymmetric(a[0], a[m]);
      }
      assert a[0] == b[0];
      forall r ensures r in a[1..] <==> r in b[1..] {
        if r in a[1..] {
          var i :| 1 <= i < |a| && a[i] == r;
          assert ListedBefore(a[0], a[i]);
          assert r != a[0];
          assert r in b;
        }
        if r in b[1..] {
          var i :| 1 <= i < |b| && b[i] == r;
          assert ListedBefore(b[0], b[i]);
          assert r != b[0];
          assert r in a;
        }
      }
      OrderedListingIsUnique(a[1..], b[1..]);
      assert a == [a[0]] + a[1..] && b == [b[0]] + b[1..];
    }
  }

  /** Rows of a well-keyed store in strict listing order never share an id. */
  lemma OrderedStoreRowsHaveDistinctIds(q: seq<Record>, rows: map<int, Record>)
    requires WellKeyed(rows) && ListingOrdered(q)
    requires forall r :: r in q ==> Stored(rows, r)
    ensures DistinctIds(q)
  {
    forall i, j | 0 <= i < j < |q| ensures q[i].id != q[j].id {
      assert ListedBefore(q[i], q[j]);
      assert q[i] in q && q[j] in q;
    }
  }

  /**
   * The list query returns exactly the stored rows that pass the filters,
   * each once, ordered by date descending and then id descending.
   */
  lemma QueryIsOrderedListing(rows: map<int, Record>, month: Date, f: Filters)
    requires WellKeyed(rows)
    ensures forall r :: r in Query(rows, month, f) <==> Stored(rows, r) && Visible(r, month, f)
    ensures ListingOrdered(Query(rows, month, f))
    ensures DistinctIds(Query(rows, month, f))
  {
    var t := Table(rows);
    TableHoldsEveryRow(rows);
    TableIdsIncrease(rows);
    assert IdsIncrease(t);
    SelectMembers(t, month, f);
    SelectKeepsOrder(t, month, f);
    var sel := Select(t, month, f);
    assert DistinctIds(sel);
    SortListingPermutes(sel);
    SortListingOrders(sel);
    var q := SortListing(sel);
    SameElements(q, sel);
    OrderedStoreRowsHaveDistinctIds(q, rows);
  }

  /** Any ordered listing of exactly the visible rows is what the query returns. */
  lemma QueryIsTheOnlyListing(rows: map<int, Record>, month: Date, f: Filters, s: seq<Record>)
    requires WellKeyed(rows)
    requires ListingOrdered(s)
    requires forall r :: r in s <==> Stored(rows, r) && Visible(r, month, f)
    ensures s == Query(rows, month, f)
  {
    QueryIsOrderedListing(rows, month, f);
    OrderedListingIsUnique(s, Query(rows, month, f));
  }

  /** TransactionsModel::Transaction: the fields a list row carries. */
  datatype Item = Item(id: int, kind: int, amountCents: int, date: Date, category: string, note: string)

  function ToItem(r: Record): Item {
    Item(r.id, r.kind, r.amountCents, r.date, r.category, r.note)
  }

  function ToItems(rs: seq<Record>): seq<Item> {
    seq(|rs|, i requires 0 <= i < |rs| => ToItem(rs[i]))
  }

  /** The list the model shows for a month and filters. */
  function Listing(rows: map<int, Record>, month: Date, f: Filters): seq<Item> {
    ToItems(Query(rows, month, f))
  }

  /** Every listed item is dated within the month (first day to last day). */
  lemma ListingWithinMonth(rows: map<int, Record>, month: Date, f: Filters, i: int)
    requires WellKeyed(rows) && ValidDate(month)
    requires 0 <= i < |Listing(rows, month, f)|
    ensures AtOrBefore(FirstOfMonth(month), Listing(rows, month, f)[i].date)
    ensures AtOrBefore(Listing(rows, month, f)[i].date, LastOfMonth(month))
    ensures LastOfMonth(month) == Date(month.year, month.month, DaysInMonth(month.year, month.month))
  {
    QueryIsOrderedListing(rows, month, f);
    assert Query(rows, month, f)[i] in Query(rows, month, f);
    LastOfMonthIsMonthEnd(month);
  }

  /** The type, category and text filters each hold of every listed item. */
  lemma ListingPassesFilters(rows: map<int, Record>, month: Date, f: Filters, i: int)
    requires WellKeyed(rows)
    requires 0 <= i < |Listing(rows, month, f)|
    ensures var it := Listing(rows, month, f)[i];
            && (f.typeFilter != -1 ==> it.kind == f.typeFilter)
            && (f.category != "" && f.category != "All" ==> it.category == f.category)
            && (Trim(f.text) != [] ==> SearchMatches(it.note, f.text) || SearchMatches(it.category, f.text))
  {
    QueryIsOrderedListing(rows, month, f);
    assert Query(rows, month, f)[i] in Query(rows, month, f);
  }

  // ----- The monthly summary -----

  function KindTotal(rs: seq<Record>, k: Kind): int {
    if rs == [] then 0
    else (if rs[0].kind == k then rs[0].amountCents else 0) + KindTotal(rs[1..], k)
  }

  predicate HasKind(rs: seq<Record>, k: Kind) {
    exists r :: r in rs && r.kind == k
  }

  /** The month's rows, whatever the list filters are. */
  function MonthRows(rows: map<int, Record>, month: Date): seq<Record> {
    Select(Table(rows), month, NoFilters)
  }

  /** Sum of amountCents over the rows of kind `k` dated within the month. */
  function MonthTotal(rows: map<int, Record>, month: Date, k: Kind): int {
    KindTotal(MonthRows(rows, month), k)
  }

  /** Only rows dated in the month count, and the list filters play no part. */
  lemma MonthRowsIgnoreFilters(rows: map<int, Record>, month: Date)
    requires WellKeyed(rows)
    ensures forall r :: r in MonthRows(rows, month) <==> Stored(rows, r) && InMonth(r.date, month)
  {
    TableHoldsEveryRow(rows);
    SelectMembers(Table(rows), month, NoFilters);
    forall r ensures Visible(r, month, NoFilters) <==> InMonth(r.date, month) {
      NoFiltersHideNothing(r, month);
    }
  }

  /** One row of the summary query: a type and the sum of its amounts. */
  datatype GroupRow = GroupRow(kind: Kind, total: int)

  /**
   * GROUP BY type: one row per type that occurs. SQL gives grouped rows no
   * order without ORDER BY; the model lists expense before income. Each
   * type has at most one row, so the order affects no total.
   */
  function GroupByKind(rs: seq<Record>): seq<GroupRow> {
    (if HasKind(rs, Expense) then [GroupRow(Expense, KindTotal(rs, Expense))] else [])
    + (if HasKind(rs, Income) then [GroupRow(Income, KindTotal(rs, Income))] else [])
  }

  /**
   * The grouped rows have distinct types (listed in the model's ascending
   * order), carry each type's sum, and exist exactly for the types that
   * occur.
   */
  lemma GroupByKindSpec(rs: seq<Record>)
    ensures |GroupByKind(rs)| <= 2
    ensures forall i, j :: 0 <= i < j < |GroupByKind(rs)| ==> GroupByKind(rs)[i].kind < GroupByKind(rs)[j].kind
    ensures forall i :: 0 <= i < |GroupByKind(rs)| ==> GroupByKind(rs)[i].total == KindTotal(rs, GroupByKind(rs)[i].kind)
    ensures HasKind(rs, Expense) <==> |GroupByKind(rs)| > 0 && GroupByKind(rs)[0].kind == Expense
    ensures HasKind(rs, Income) <==> |GroupByKind(rs)| > 0 && GroupByKind(rs)[|GroupByKind(rs)| - 1].kind == Income
  {
  }

  /** The summary query for a month: the month's rows grouped by type. */
  function SummaryQuery(rows: map<int, Record>, month: Date): seq<GroupRow> {
    GroupByKind(MonthRows(rows, month))
  }

  lemma {:induction false} KindTotalWithoutKind(rs: seq<Record>, k: Kind)
    requires !HasKind(rs, k)
    ensures KindTotal(rs, k) == 0
  {
    if rs != [] {
      forall r | r in rs[1..] ensures r.kind != k {
        assert r in rs;
      }
      KindTotalWithoutKind(rs[1..], k);
    }
  }

  /**
   * The summary query reports each type's month total, and a type it does
   * not report has a zero total.
   */
  lemma SummaryQueryTotals(rows: map<int, Record>, month: Date, k: Kind)
    ensures forall i :: 0 <= i < |SummaryQuery(rows, month)| ==>
              SummaryQuery(rows, month)[i].total == MonthTotal(rows, month, SummaryQuery(rows, month)[i].kind)
    ensures (forall i :: 0 <= i < |SummaryQuery(rows, month)| ==> SummaryQuery(rows, month)[i].kind != k)
            ==> MonthTotal(rows, month, k) == 0
  {
    var mr := MonthRows(rows, month);
    assert SummaryQuery(rows, month) == GroupByKind(mr);
    GroupByKindSpec(mr);
    if !HasKind(mr, k) {
      KindTotalWithoutKind(mr, k);
    }
  }

  lemma {:induction false} SelectAppend(rs: seq<Record>, x: Record, month: Date, f: Filters)
    ensures Select(rs + [x], month, f) == Select(rs, month, f) + (if Visible(x, month, f) then [x] else [])
    decreases |rs|
  {
    if rs == [] {
      assert [x][1..] == [];
    } else {
      assert (rs + [x])[0] == rs[0] && (rs + [x])[1..] == rs[1..] + [x];
      SelectAppend(rs[1..], x, month, f);
    }
  }

  lemma {:induction false} KindTotalAppend(rs: seq<Record>, x: Record, k: Kind)
    ensures KindTotal(rs + [x], k) == KindTotal(rs, k) + (if x.kind == k then x.amountCents else 0)
    decreases |rs|
  {
    if rs == [] {
      assert [x][1..] == [];
    } else {
      assert (rs + [x])[0] == rs[0] && (rs + [x])[1..] == rs[1..] + [x];
      KindTotalAppend(rs[1..], x, k);
    }
  }

  /**
   * Adding a row under a fresh, largest id raises the month's total of its
   * kind by its amount when it is dated in the month, and changes nothing
   * else.
   */
  lemma MonthTotalAfterAdd(rows: map<int, Record>, r: Record, month: Date, k: Kind)
    requires forall id :: id in rows ==> id < r.id
    ensures MonthTotal(rows[r.id := r], month, k)
            == MonthTotal(rows, month, k) + (if InMonth(r.date, month) && r.kind == k then r.amountCents else 0)
  {
    TableAppend(rows, r);
    SelectAppend(Table(rows), r, month, NoFilters);
    NoFiltersHideNothing(r, month);
    if InMonth(r.date, month) {
      KindTotalAppend(MonthRows(rows, month), r, k);
    } else {
      assert MonthRows(rows[r.id := r], month) == MonthRows(rows, month);
    }
  }

  // ----- The category vocabulary -----

  /** The five categories the application always offers, in this order. */
  const Builtins: seq<string> := ["Food", "Transport", "Housing", "Health", "Other"]

  predicate StrictlySorted(xs: seq<string>) {
    forall i, j :: 0 <= i < j < |xs| ==> Less(xs[i], xs[j])
  }

  predicate NoDuplicates(xs: seq<string>) {
    forall i, j :: 0 <= i < j < |xs| ==> xs[i] != xs[j]
  }

  /** Adds `c` to a sorted list at its place, unless it is already there. */
  function InsertSorted(xs: seq<string>, c: string): seq<string> {
    if xs == [] then [c]
    else if c == xs[0] then xs
    else if Less(c, xs[0]) then [c] + xs
    else [xs[0]] + InsertSorted(xs[1..], c)
  }

  /** Inserting into a strictly sorted list keeps it strictly sorted and adds exactly `c`. */
  lemma {:induction false} InsertSortedSpec(xs: seq<string>, c: string)
    requires StrictlySorted(xs)
    ensures StrictlySorted(InsertSorted(xs, c))
    ensures forall y :: y in InsertSorted(xs, c) <==> y in xs || y == c
    decreases |xs|
  {
    if xs != [] && c != xs[0] {
      if Less(c, xs[0]) {
        forall j | 0 < j < |xs| ensures Less(c, xs[j]) {
          LessTransitive(c, xs[0], xs[j]);
        }
      } else {
        LessTotal(c, xs[0]);
        InsertSortedSpec(xs[1..], c);
        var rest := InsertSorted(xs[1..], c);
        forall y | y in rest ensures Less(xs[0], y) {
          if y != c {
            var j :| 0 <= j < |xs[1..]| && xs[1..][j] == y;
            assert xs[j + 1] == y;
          }
        }
        assert xs == [xs[0]] + xs[1..];
      }
    }
  }

  /** The distinct values of `cs`, sorted ascending. */
  function SortedDistinct(cs: seq<string>): seq<string> {
    if cs == [] then [] else InsertSorted(SortedDistinct(cs[1..]), cs[0])
  }

  lemma {:induction false} SortedDistinctSpec(cs: seq<string>)
    ensures StrictlySorted(SortedDistinct(cs))
    ensures forall y :: y in SortedDistinct(cs) <==> y in cs
    decreases |cs|
  {
    if cs != [] {
      SortedDistinctSpec(cs[1..]);
      InsertSortedSpec(SortedDistinct(cs[1..]), cs[0]);
      assert cs == [cs[0]] + cs[1..];
    }
  }

  function CategoriesOf(rs: seq<Record>): seq<string> {
    seq(|rs|, i requires 0 <= i < |rs| => rs[i].category)
  }

  /** Each category of the table once, in ascending text order. */
  function DistinctCategories(rows: map<int, Record>): seq<string> {
    SortedDistinct(CategoriesOf(Table(rows)))
  }

  /** The distinct categories are sorted, unrepeated, and exactly those of the stored rows. */
  lemma DistinctCategoriesAreStoreCategories(rows: map<int, Record>)
    requires WellKeyed(rows)
    ensures StrictlySorted(DistinctCategories(rows))
    ensures forall c :: c in DistinctCategories(rows) <==> exists r :: Stored(rows, r) && r.category == c
  {
    TableHoldsEveryRow(rows);
    var t := Table(rows);
    var cs := CategoriesOf(t);
    SortedDistinctSpec(cs);
    forall c ensures c in cs <==> exists r :: Stored(rows, r) && r.category == c {
      if c in cs {
        var i :| 0 <= i < |cs| && cs[i] == c;
        assert t[i] in t;
      }
      if exists r :: Stored(rows, r) && r.category == c {
        var r :| Stored(rows, r) && r.category == c;
        assert r in t;
        var i :| 0 <= i < |t| && t[i] == r;
        assert cs[i] == c;
      }
    }
  }

  /** The elements of `xs` not in `ys`, in order. */
  function Without(xs: seq<string>, ys: seq<string>): seq<string> {
    if xs == [] then []
    else if xs[0] in ys then Without(xs[1..], ys)
    else [xs[0]] + Without(xs[1..], ys)
  }

  /** Without keeps exactly the elements outside `ys`, and keeps a sorted list sorted. */
  lemma {:induction false} WithoutSpec(xs: seq<string>, ys: seq<string>)
    ensures forall c :: c in Without(xs, ys) <==> c in xs && c !in ys
    ensures StrictlySorted(xs) ==> StrictlySorted(Without(xs, ys))
    decreases |xs|
  {
    if xs != [] {
      WithoutSpec(xs[1..], ys);
      assert xs == [xs[0]] + xs[1..];
      if StrictlySorted(xs) {
        forall c | c in Without(xs[1..], ys) ensures Less(xs[0], c) {
          var j :| 0 <= j < |xs[1..]| && xs[1..][j] == c;
          assert xs[j + 1] == c;
        }
      }
    }
  }

  lemma {:induction false} WithoutAppend(xs: seq<string>, c: string, ys: seq<string>)
    ensures Without(xs + [c], ys) == Without(xs, ys) + (if c in ys then [] else [c])
    decreases |xs|
  {
    if xs == [] {
      assert [c][1..] == [];
    } else {
      assert (xs + [c])[0] == xs[0] && (xs + [c])[1..] == xs[1..] + [c];
      WithoutAppend(xs[1..], c, ys);
    }
  }

  /**
   * The category list refreshCategories produces: the builtins, then every
   * other category of the store in ascending order (only the builtins when
   * the store is closed).
   */
  function Vocabulary(rows: map<int, Record>, open: bool): seq<string> {
    Builtins + (if open then Without(DistinctCategories(rows), Builtins) else [])
  }

  /**
   * The vocabulary never repeats a category, always starts with the five
   * builtins, holds exactly the builtins and the store's categories, and
   * lists the added ones in ascending order.
   */
  lemma VocabularyShape(rows: map<int, Record>, open: bool)
    requires WellKeyed(rows)
    ensures NoDuplicates(Vocabulary(rows, open))
    ensures Vocabulary(rows, open)[..5] == Builtins
    ensures StrictlySorted(Vocabulary(rows, open)[5..])
    ensures forall c :: c in Vocabulary(rows, open)
              <==> c in Builtins || (open && exists r :: Stored(rows, r) && r.category == c)
  {
    var v := Vocabulary(rows, open);
    DistinctCategoriesAreStoreCategories(rows);
    WithoutSpec(DistinctCategories(rows), Builtins);
    var extra := if open then Without(DistinctCategories(rows), Builtins) else [];
    assert v[..5] == Builtins && v[5..] == extra;
    forall i, j | 0 <= i < j < |v| ensures v[i] != v[j] {
      if j >= 5 {
        if i >= 5 {
          assert Less(extra[i - 5], extra[j - 5]);
          LessIrreflexive(v[i]);
        } else {
          assert v[j] in extra;
        }
      }
    }
  }

  /** With the store open, the category of every stored row is offered. */
  lemma StoredCategoryOffered(rows: map<int, Record>, r: Record)
    requires WellKeyed(rows) && Stored(rows, r)
    ensures r.category in Vocabulary(rows, true)
  {
    VocabularyShape(rows, true);
  }
}
