/**
 * The transactions table (schema at src/db/Database.cpp:62-69) as an
 * abstract store: a map from id to record, plus the AUTOINCREMENT counter
 * that hands out ids. A table scan visits rows in ascending id order.
 * Writes can be rejected by the store; the `fault` parameter of each write
 * stands for that outcome.
 */
module Ledger {
  import opened Dates
  import opened Wrappers

  /** The `type` column: 0 is an expense, 1 is income. */
  type Kind = k: int | k == 0 || k == 1

  const Expense: Kind := 0
  const Income: Kind := 1

  /** One row of the transactions table. */
  datatype Record = Record(
    id: int,
    kind: Kind,
    amountCents: int,
    date: Date,
    category: string,
    note: string,
    createdAt: string)

  /** Every row is stored under its own id. */
  ghost predicate WellKeyed(rows: map<int, Record>) {
    forall id :: id in rows ==> rows[id].id == id
  }

  /** `m` is the least element of `s`. */
  predicate IsLeast(m: int, s: set<int>) {
    m in s && forall x :: x in s ==> m <= x
  }

  /** A set is empty or has an element (set extensionality). */
  lemma EmptyOrHasElement(s: set<int>)
    ensures s == {} || exists y :: y in s
  {
    if forall x :: x !in s {
      assert s == {};
    }
  }

  lemma {:induction false} LeastExists(s: set<int>)
    requires s != {}
    ensures exists m :: IsLeast(m, s)
    decreases s
  {
    EmptyOrHasElement(s);
    var y :| y in s;
    if s == {y} {
      assert IsLeast(y, s);
    } else {
      LeastExists(s - {y});
      var m :| IsLeast(m, s - {y});
      var least := if y < m then y else m;
      forall x | x in s ensures least <= x {
        if x != y {
          assert x in s - {y};
        }
      }
      assert IsLeast(least, s);
    }
  }

  function MinOf(s: set<int>): (m: int)
    requires s != {}
    ensures IsLeast(m, s)
  {
    LeastExists(s);
    var m :| IsLeast(m, s);
    m
  }

  predicate StrictlyIncreasing(ids: seq<int>) {
    forall i, j :: 0 <= i < j < |ids| ==> ids[i] < ids[j]
  }

  /** The keys of `s` in ascending order. */
  function SortedIds(s: set<int>): seq<int>
    decreases s
  {
    if s == {} then [] else [MinOf(s)] + SortedIds(s - {MinOf(s)})
  }

  lemma {:induction false} SortedIdsMembers(s: set<int>)
    ensures forall x :: x in SortedIds(s) <==> x in s
    decreases s
  {
    if s != {} {
      var m := MinOf(s);
      SortedIdsMembers(s - {m});
      assert SortedIds(s) == [m] + SortedIds(s - {m});
    }
  }

  lemma {:induction false} SortedIdsLength(s: set<int>)
    ensures |SortedIds(s)| == |s|
    decreases s
  {
    if s != {} {
      var m := MinOf(s);
      SortedIdsLength(s - {m});
      assert SortedIds(s) == [m] + SortedIds(s - {m});
      assert |s - {m}| == |s| - 1;
    }
  }

  lemma {:induction false} SortedIdsIncrease(s: set<int>)
    ensures StrictlyIncreasing(SortedIds(s))
    decreases s
  {
    if s != {} {
      var m := MinOf(s);
      var rest := SortedIds(s - {m});
      SortedIdsIncrease(s - {m});
      SortedIdsMembers(s - {m});
      assert SortedIds(s) == [m] + rest;
      forall i | 0 <= i < |rest| ensures m < rest[i] {
        assert rest[i] in rest;
      }
    }
  }

  /** SortedIds lists every key of the set exactly once, in ascending order. */
  lemma SortedIdsSpec(s: set<int>)
    ensures forall x :: x in SortedIds(s) <==> x in s
    ensures StrictlyIncreasing(SortedIds(s))
    ensures |SortedIds(s)| == |s|
  {
    SortedIdsMembers(s);
    SortedIdsIncrease(s);
    SortedIdsLength(s);
  }

  /** The rows stored under `ids`, in that order. */
  function RowsAt(rows: map<int, Record>, ids: seq<int>): seq<Record>
    requires forall i :: 0 <= i < |ids| ==> ids[i] in rows
  {
    seq(|ids|, i requires 0 <= i < |ids| => rows[ids[i]])
  }

  /** The rows of the table as a scan returns them: ascending id. */
  function Table(rows: map<int, Record>): seq<Record>
  {
    SortedIdsSpec(rows.Keys);
    RowsAt(rows, SortedIds(rows.Keys))
  }

  /** `r` is a row of the store, found under its own id. */
  predicate Stored(rows: map<int, Record>, r: Record) {
    r.id in rows && rows[r.id] == r
  }

  /** The scan of a well-keyed store returns every stored row and nothing else. */
  lemma TableHoldsEveryRow(rows: map<int, Record>)
    requires WellKeyed(rows)
    ensures forall r :: r in Table(rows) <==> Stored(rows, r)
  {
    var ids := SortedIds(rows.Keys);
    SortedIdsSpec(rows.Keys);
    var t := Table(rows);
    forall r ensures r in t <==> Stored(rows, r) {
      if r in t {
        var i :| 0 <= i < |t| && t[i] == r;
        assert ids[i] in rows;
      }
      if Stored(rows, r) {
        assert r.id in ids;
        var i :| 0 <= i < |ids| && ids[i] == r.id;
        assert t[i] == r;
      }
    }
  }

  /** In a well-keyed store, the scan lists rows by strictly increasing id. */
  lemma TableIdsIncrease(rows: map<int, Record>)
    requires WellKeyed(rows)
    ensures forall i, j :: 0 <= i < j < |Table(rows)| ==> Table(rows)[i].id < Table(rows)[j].id
  {
    var ids := SortedIds(rows.Keys);
    SortedIdsSpec(rows.Keys);
    assert forall i :: 0 <= i < |ids| ==> Table(rows)[i].id == ids[i];
  }

  /** A key larger than every existing key is scanned last. */
  lemma {:induction false} SortedIdsAddLargest(s: set<int>, m: int)
    requires forall x :: x in s ==> x < m
    ensures SortedIds(s + {m}) == SortedIds(s) + [m]
    decreases s
  {
    if s == {} {
      assert s + {m} == {m};
      assert SortedIds({m}) == [m] + SortedIds({m} - {m});
      assert {m} - {m} == {};
    } else {
      var lo := MinOf(s);
      assert MinOf(s + {m}) == lo;
      assert (s + {m}) - {lo} == (s - {lo}) + {m};
      SortedIdsAddLargest(s - {lo}, m);
    }
  }

  lemma RowsAtAppend(rows: map<int, Record>, ids: seq<int>, r: Record)
    requires forall i :: 0 <= i < |ids| ==> ids[i] in rows && ids[i] != r.id
    ensures RowsAt(rows[r.id := r], ids + [r.id]) == RowsAt(rows, ids) + [r]
  {
    var a, b := RowsAt(rows[r.id := r], ids + [r.id]), RowsAt(rows, ids) + [r];
    forall i | 0 <= i < |a| ensures a[i] == b[i] {
      if i < |ids| {
        assert (ids + [r.id])[i] == ids[i];
      }
    }
  }

  /** Inserting a row under a new largest id appends it to the scan. */
  lemma TableAppend(rows: map<int, Record>, r: Record)
    requires forall id :: id in rows ==> id < r.id
    ensures Table(rows[r.id := r]) == Table(rows) + [r]
  {
    var rows' := rows[r.id := r];
    assert rows'.Keys == rows.Keys + {r.id};
    SortedIdsAddLargest(rows.Keys, r.id);
    SortedIdsSpec(rows.Keys);
    var ids := SortedIds(rows.Keys);
    RowsAtAppend(rows, ids, r);
  }

  /** The mutable fields an UPDATE replaces, leaving id and createdAt alone. */
  function WithFields(r: Record, kind: Kind, amountCents: int, date: Date, category: string, note: string): (u: Record)
    ensures u.id == r.id && u.createdAt == r.createdAt
    ensures u.kind == kind && u.amountCents == amountCents && u.date == date
    ensures u.category == category && u.note == note
  {
    r.(kind := kind, amountCents := amountCents, date := date, category := category, note := note)
  }

  /**
   * The SQLite connection shared by the controller and the list model. Its
   * open state is fixed when the application starts.
   */
  class Database {
    const open: bool
    var rows: map<int, Record>
    /** The largest id ever handed out (sqlite_sequence for the table). */
    var lastId: int

    ghost predicate Valid()
      reads this
    {
      WellKeyed(rows) && forall id :: id in rows ==> id <= lastId
    }

    constructor (open: bool, rows: map<int, Record>, lastId: int)
      requires WellKeyed(rows) && forall id :: id in rows ==> id <= lastId
      ensures Valid()
      ensures this.open == open && this.rows == rows && this.lastId == lastId
    {
      this.open := open;
      this.rows := rows;
      this.lastId := lastId;
    }

    /** Lookup by primary key: the row with that id, if any. */
    function Find(id: int): (r: Option<Record>)
      reads this
      requires Valid()
      ensures r.Some? <==> id in rows
      ensures r.Some? ==> r.value == rows[id] && r.value.id == id
    {
      if id in rows then Some(rows[id]) else None
    }

    /** INSERT without an id: AUTOINCREMENT assigns one above every id ever used. */
    method Insert(kind: Kind, amountCents: int, date: Date, category: string, note: string,
                  createdAt: string, fault: bool) returns (ok: bool, id: int)
      requires Valid()
      modifies this
      ensures Valid() && ok == !fault
      ensures ok ==> id == old(lastId) + 1 && id !in old(rows) && lastId == id
      ensures ok ==> rows == old(rows)[id := Record(id, kind, amountCents, date, category, note, createdAt)]
      ensures !ok ==> rows == old(rows) && lastId == old(lastId)
    {
      ok := !fault;
      id := lastId + 1;
      if ok {
        rows := rows[id := Record(id, kind, amountCents, date, category, note, createdAt)];
        lastId := id;
      }
    }

    /** INSERT with an explicit id: rejected when the id is taken (PRIMARY KEY). */
    method InsertWithId(r: Record, fault: bool) returns (ok: bool)
      requires Valid()
      modifies this
      ensures Valid()
      ensures ok == (!fault && r.id !in old(rows))
      ensures ok ==> rows == old(rows)[r.id := r] && lastId == (if r.id > old(lastId) then r.id else old(lastId))
      ensures !ok ==> rows == old(rows) && lastId == old(lastId)
    {
      ok := !fault && r.id !in rows;
      if ok {
        rows := rows[r.id := r];
        if r.id > lastId {
          lastId := r.id;
        }
      }
    }

    /** Rewrites the row with that id; succeeds, changing nothing, when no row has the id. */
    method Update(id: int, kind: Kind, amountCents: int, date: Date, category: string, note: string,
                  fault: bool) returns (ok: bool)
      requires Valid()
      modifies this`rows
      ensures Valid() && ok == !fault
      ensures ok && id in old(rows) ==> rows == old(rows)[id := WithFields(old(rows)[id], kind, amountCents, date, category, note)]
      ensures !ok || id !in old(rows) ==> rows == old(rows)
    {
      ok := !fault;
      if ok && id in rows {
        rows := rows[id := WithFields(rows[id], kind, amountCents, date, category, note)];
      }
    }

    /** Removes the row with that id, if any. */
    method Delete(id: int, fault: bool) returns (ok: bool)
      requires Valid()
      modifies this`rows
      ensures Valid() && ok == !fault
      ensures ok ==> rows == old(rows) - {id}
      ensures !ok ==> rows == old(rows)
    {
      ok := !fault;
      if ok {
        rows := rows - {id};
      }
    }
  }

  /** Re-inserting a deleted row under its own id restores the table exactly. */
  lemma DeleteThenReinsert(rows: map<int, Record>, id: int)
    requires id in rows
    ensures (rows - {id})[id := rows[id]] == rows
  {
  }
}
