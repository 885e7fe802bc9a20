/**
 The selection bookkeeping of the table page as functions on values: the
 auto-select merge done when a page arrives, the reconciliation of the
 selection with the table's checkboxes on the visible page, and the rows of
 the visible page that are shown as checked.
 */
module Bookkeeping {
  import opened Records

  /** `Math.min` on integers. */
  function Min(a: int, b: int): (r: int)
    ensures r <= a && r <= b && (r == a || r == b)
  {
    if a <= b then a else b
  }

  /** `Math.max` on integers. */
  function Max(a: int, b: int): (r: int)
    ensures r >= a && r >= b && (r == a || r == b)
  {
    if a >= b then a else b
  }

  /** Every entry of `m` is still in `m'`, with the same row. */
  predicate Extends(m': Selection, m: Selection)
  {
    forall k :: k in m ==> k in m' && m'[k] == m[k]
  }

  // ---------------------------------------------------------------------
  // Auto-select merge (the success branch of fetchData)
  // ---------------------------------------------------------------------

  /** The selection and the pending auto-select counter after a fetch. */
  datatype AutoSelectOutcome = AutoSelectOutcome(selection: Selection, remaining: int)

  /** One step of the merge: a row is added unless its id is already a key. */
  function AddIfAbsent(m: Selection, row: Record): (r: Selection)
    ensures Extends(r, m)
    ensures row.id in r && r[row.id] == (if row.id in m then m[row.id] else row)
    ensures forall k :: k in r ==> k in m || k == row.id
  {
    if row.id in m then m else m[row.id := row]
  }

  /** The rows merged one after the other, as the merge loop does. */
  function AddMissing(m: Selection, rows: seq<Record>): (r: Selection)
    ensures forall i :: 0 <= i < |rows| ==> rows[i].id in r
    decreases |rows|
  {
    if rows == [] then m
    else
      var n := |rows| - 1;
      AddIfAbsent(AddMissing(m, rows[..n]), rows[n])
  }

  /** The keys after the merge are the old keys plus the rows' ids. */
  lemma {:induction false} AddMissingKeys(m: Selection, rows: seq<Record>)
    ensures AddMissing(m, rows).Keys == m.Keys + IdsOf(rows)
    decreases |rows|
  {
    if rows == [] {
      assert IdsOf(rows) == {};
    } else {
      var n := |rows| - 1;
      AddMissingKeys(m, rows[..n]);
      IdsOfAppend(rows[..n], rows[n]);
      assert rows == rows[..n] + [rows[n]];
    }
  }

  /** The merge never removes or replaces an entry. */
  lemma {:induction false} AddMissingExtends(m: Selection, rows: seq<Record>)
    ensures Extends(AddMissing(m, rows), m)
    decreases |rows|
  {
    if rows != [] {
      AddMissingExtends(m, rows[..|rows| - 1]);
    }
  }

  /** A new id is bound to the first of the rows that carries it. */
  lemma {:induction false} AddMissingFirst(m: Selection, rows: seq<Record>, i: nat)
    requires i < |rows| && rows[i].id !in m && FirstWithId(rows, i)
    ensures rows[i].id in AddMissing(m, rows) && AddMissing(m, rows)[rows[i].id] == rows[i]
    decreases |rows|
  {
    var n := |rows| - 1;
    if i < n {
      assert rows[..n][i] == rows[i];
      AddMissingFirst(m, rows[..n], i);
    } else {
      AddMissingKeys(m, rows[..n]);
    }
  }

  /** The merge keeps every entry stored under its own row's id, apart
      from those under the keys `exempt`: each row it adds is stored under
      its own id. */
  lemma {:induction false} AddMissingKeyed(m: Selection, rows: seq<Record>, exempt: set<Id>)
    requires KeyedExcept(m, exempt)
    ensures KeyedExcept(AddMissing(m, rows), exempt)
    decreases |rows|
  {
    if rows != [] {
      AddMissingKeyed(m, rows[..|rows| - 1], exempt);
    }
  }

  /** The merge stores only old rows and slice rows. */
  lemma {:induction false} AddMissingValues(m: Selection, rows: seq<Record>)
    ensures AddMissing(m, rows).Values <= m.Values + RowSet(rows)
    decreases |rows|
  {
    if rows != [] {
      var n := |rows| - 1;
      var before := AddMissing(m, rows[..n]);
      var r := AddIfAbsent(before, rows[n]);
      AddMissingValues(m, rows[..n]);
      assert RowSet(rows[..n]) <= RowSet(rows);
      forall v | v in r.Values
        ensures v in m.Values + RowSet(rows)
      {
        var k :| k in r && r[k] == v;
        if k in before {
          assert before[k] in before.Values;
        } else {
          assert v == rows[n];
        }
      }
    }
  }

  /** How many of the fetched rows are auto-selected: `Math.min(remaining,
      fetched.length)`. */
  function SelectCount(remaining: int, fetched: seq<Record>): (n: nat)
    requires remaining > 0
    ensures n <= |fetched| && n <= remaining
    ensures n == |fetched| || n == remaining
  {
    Min(remaining, |fetched|)
  }

  /** The selection bookkeeping done when a page of rows arrives: with a
      positive counter the first `SelectCount` rows are merged into the
      selection and the counter is charged for all of them; otherwise the
      selection and the counter stay as they are. */
  function FetchMerge(m: Selection, fetched: seq<Record>, remaining: int): (o: AutoSelectOutcome)
    ensures Extends(o.selection, m)
    ensures remaining <= 0 ==> o == AutoSelectOutcome(m, remaining)
    ensures remaining > 0 ==>
      && o.selection.Keys == m.Keys + IdsOf(fetched[..SelectCount(remaining, fetched)])
      && o.remaining == (if remaining > |fetched| then remaining - |fetched| else 0)
  {
    if remaining > 0 then
      var n := SelectCount(remaining, fetched);
      AddMissingKeys(m, fetched[..n]);
      AddMissingExtends(m, fetched[..n]);
      AutoSelectOutcome(AddMissing(m, fetched[..n]), Max(0, remaining - n))
    else
      AutoSelectOutcome(m, remaining)
  }

  /** A fetch stores only rows that were selected before or were fetched. */
  lemma FetchMergeValues(m: Selection, fetched: seq<Record>, remaining: int)
    ensures FetchMerge(m, fetched, remaining).selection.Values <= m.Values + RowSet(fetched)
  {
    if remaining > 0 {
      var slice := fetched[..SelectCount(remaining, fetched)];
      AddMissingValues(m, slice);
      assert RowSet(slice) <= RowSet(fetched);
    }
  }

  /** A fetch stores each row it adds under the row's own id. */
  lemma FetchMergeKeyed(m: Selection, fetched: seq<Record>, remaining: int, exempt: set<Id>)
    requires KeyedExcept(m, exempt)
    ensures KeyedExcept(FetchMerge(m, fetched, remaining).selection, exempt)
  {
    if remaining > 0 {
      AddMissingKeyed(m, fetched[..SelectCount(remaining, fetched)], exempt);
    }
  }

  /** The merge adds one entry per id of the rows that was not a key. */
  lemma AddMissingSize(m: Selection, rows: seq<Record>)
    ensures |AddMissing(m, rows)| == |m| + |IdsOf(rows) - m.Keys|
  {
    var added := IdsOf(rows) - m.Keys;
    AddMissingKeys(m, rows);
    assert AddMissing(m, rows).Keys == m.Keys + added;
    assert m.Keys * added == {};
  }

  /** The rows a fetch offers to the merge. */
  function AutoSelectSlice(fetched: seq<Record>, remaining: int): seq<Record>
    requires remaining > 0
  {
    fetched[..SelectCount(remaining, fetched)]
  }

  /** The counter drops by the whole slice, so never by less than the number
      of entries the fetch adds. */
  lemma AutoSelectChargeCovers(m: Selection, fetched: seq<Record>, remaining: int)
    requires remaining > 0
    ensures var o := FetchMerge(m, fetched, remaining);
      0 <= o.remaining <= remaining && |o.selection| - |m| <= remaining - o.remaining
  {
    var slice := AutoSelectSlice(fetched, remaining);
    AddMissingSize(m, slice);
    NewIdsAtMost(slice, m.Keys);
  }

  /** When the slice's ids are distinct and none is selected yet, the counter
      drops by exactly the number of entries added. */
  lemma AutoSelectChargeExact(m: Selection, fetched: seq<Record>, remaining: int)
    requires remaining > 0
    requires DistinctIds(AutoSelectSlice(fetched, remaining))
    requires IdsOf(AutoSelectSlice(fetched, remaining)) !! m.Keys
    ensures var o := FetchMerge(m, fetched, remaining);
      |o.selection| - |m| == remaining - o.remaining
  {
    var slice := AutoSelectSlice(fetched, remaining);
    AddMissingSize(m, slice);
    NewIdsExact(slice, m.Keys);
  }

  /** A slice row that is already selected is still charged to the counter:
      the counter then drops by more than the number of entries added. */
  lemma AutoSelectChargeOverlap(m: Selection, fetched: seq<Record>, remaining: int, i: nat)
    requires remaining > 0 && i < SelectCount(remaining, fetched) && fetched[i].id in m
    ensures var o := FetchMerge(m, fetched, remaining);
      |o.selection| - |m| < remaining - o.remaining
  {
    var slice := AutoSelectSlice(fetched, remaining);
    AddMissingSize(m, slice);
    assert slice[i] == fetched[i];
    NewIdsFewer(slice, m.Keys, i);
  }

  /** A run of fetches, one page after another, with the counter carried
      from each fetch to the next. */
  function FetchSeries(m: Selection, pages: seq<seq<Record>>, remaining: int): (o: AutoSelectOutcome)
    ensures remaining <= 0 ==> o == AutoSelectOutcome(m, remaining)
    decreases |pages|
  {
    if pages == [] then AutoSelectOutcome(m, remaining)
    else
      var o := FetchMerge(m, pages[0], remaining);
      FetchSeries(o.selection, pages[1..], o.remaining)
  }

  lemma ExtendsTransitive(m3: Selection, m2: Selection, m1: Selection)
    requires Extends(m3, m2) && Extends(m2, m1)
    ensures Extends(m3, m1)
  {
  }

  /** Over any run of fetches the selection only grows and no entry is
      replaced. */
  lemma {:induction false} FetchSeriesExtends(m: Selection, pages: seq<seq<Record>>, remaining: int)
    ensures Extends(FetchSeries(m, pages, remaining).selection, m)
    decreases |pages|
  {
    if pages != [] {
      var o1 := FetchMerge(m, pages[0], remaining);
      FetchSeriesExtends(o1.selection, pages[1..], o1.remaining);
      ExtendsTransitive(FetchSeries(m, pages, remaining).selection, o1.selection, m);
    }
  }

  /** Over any run of fetches the counter never increases, never goes below
      zero once it was positive, and the number of entries added never
      exceeds what the counter was charged, hence never exceeds the count
      the user asked for; with a counter of zero or less nothing changes. */
  lemma {:induction false} FetchSeriesCounter(m: Selection, pages: seq<seq<Record>>, remaining: int)
    ensures var o := FetchSeries(m, pages, remaining);
      && o.remaining <= remaining
      && (remaining > 0 ==> 0 <= o.remaining && |o.selection| - |m| <= remaining - o.remaining)
      && (remaining <= 0 ==> o == AutoSelectOutcome(m, remaining))
    decreases |pages|
  {
    if pages != [] {
      var o1 := FetchMerge(m, pages[0], remaining);
      FetchSeriesCounter(o1.selection, pages[1..], o1.remaining);
      if remaining > 0 {
        AutoSelectChargeCovers(m, pages[0], remaining);
      }
    }
  }

  // ---------------------------------------------------------------------
  // Reconciling with the table's checkboxes (handleSelectionChange)
  // ---------------------------------------------------------------------

  /** One step of the reconciliation: a page row is put in the selection
      when the table reports it checked and removed otherwise. */
  function ReconcileRow(m: Selection, row: Record, checked: set<Id>): (r: Selection)
    ensures r.Keys == if row.id in checked then m.Keys + {row.id} else m.Keys - {row.id}
    ensures forall k :: k in m && k != row.id ==> r[k] == m[k]
    ensures row.id in checked ==> r[row.id] == row
  {
    if row.id in checked then m[row.id := row] else m - {row.id}
  }

  /** The page's rows reconciled one after the other, as the loop over the
      page does. */
  function Reconcile(m: Selection, page: seq<Record>, checked: set<Id>): (r: Selection)
    ensures KeyedById(m) ==> KeyedById(r)
    decreases |page|
  {
    if page == [] then m
    else
      var n := |page| - 1;
      ReconcileRow(Reconcile(m, page[..n], checked), page[n], checked)
  }

  /** Afterwards an id of the page is a key exactly when it is checked, and
      the keys that are not ids of the page are the old ones. */
  lemma {:induction false} ReconcileKeys(m: Selection, page: seq<Record>, checked: set<Id>)
    ensures Reconcile(m, page, checked).Keys == (m.Keys - IdsOf(page)) + (IdsOf(page) * checked)
    decreases |page|
  {
    if page == [] {
      assert IdsOf(page) == {};
    } else {
      var n := |page| - 1;
      ReconcileKeys(m, page[..n], checked);
      IdsOfAppend(page[..n], page[n]);
      assert page == page[..n] + [page[n]];
    }
  }

  /** An entry whose key is not an id of the page is left as it was. */
  lemma {:induction false} ReconcileFrame(m: Selection, page: seq<Record>, checked: set<Id>, k: Id)
    requires k in m && k !in IdsOf(page)
    ensures k in Reconcile(m, page, checked) && Reconcile(m, page, checked)[k] == m[k]
    decreases |page|
  {
    if page != [] {
      var n := |page| - 1;
      IdsOfAppend(page[..n], page[n]);
      assert page == page[..n] + [page[n]];
      ReconcileFrame(m, page[..n], checked, k);
    }
  }

  /** A checked id is bound to the last page row that carries it. */
  lemma {:induction false} ReconcileLast(m: Selection, page: seq<Record>, checked: set<Id>, i: nat)
    requires i < |page| && page[i].id in checked && LastWithId(page, i)
    ensures page[i].id in Reconcile(m, page, checked) && Reconcile(m, page, checked)[page[i].id] == page[i]
    decreases |page|
  {
    var n := |page| - 1;
    if i < n {
      assert page[..n][i] == page[i];
      ReconcileLast(m, page[..n], checked, i);
    }
  }

  /** Reconciliation stores only old rows and page rows. */
  lemma {:induction false} ReconcileValues(m: Selection, page: seq<Record>, checked: set<Id>)
    ensures Reconcile(m, page, checked).Values <= m.Values + RowSet(page)
    decreases |page|
  {
    if page != [] {
      var n := |page| - 1;
      var before := Reconcile(m, page[..n], checked);
      var r := ReconcileRow(before, page[n], checked);
      ReconcileValues(m, page[..n], checked);
      assert RowSet(page[..n]) <= RowSet(page);
      forall v | v in r.Values
        ensures v in m.Values + RowSet(page)
      {
        var k :| k in r && r[k] == v;
        if k == page[n].id {
          assert v == page[n];
        } else {
          assert before[k] in before.Values;
        }
      }
    }
  }

  /** The reconciliation keeps every entry stored under its own row's id,
      apart from those under the keys `exempt`: a checked row is stored under
      its own id. */
  lemma {:induction false} ReconcileKeyedExcept(m: Selection, page: seq<Record>, checked: set<Id>, exempt: set<Id>)
    requires KeyedExcept(m, exempt)
    ensures KeyedExcept(Reconcile(m, page, checked), exempt)
    decreases |page|
  {
    if page != [] {
      ReconcileKeyedExcept(m, page[..|page| - 1], checked, exempt);
    }
  }

  /** Reconciliation as a user sees it: every row of the page is selected
      afterwards exactly when its checkbox is ticked. */
  lemma ReconcileOnPage(m: Selection, page: seq<Record>, checked: set<Id>)
    ensures forall row :: row in page ==> (row.id in Reconcile(m, page, checked) <==> row.id in checked)
  {
    var r := Reconcile(m, page, checked);
    ReconcileKeys(m, page, checked);
    forall row | row in page
      ensures row.id in r <==> row.id in checked
    {
      assert row.id in IdsOf(page);
    }
  }

  // ---------------------------------------------------------------------
  // The checked rows of the visible page (getSelectedRowsForCurrentPage)
  // ---------------------------------------------------------------------

  /** `sub` is `s` with some elements left out, in the same order. */
  predicate IsSubsequence<T(==)>(sub: seq<T>, s: seq<T>)
    decreases |s|
  {
    if sub == [] then true
    else if s == [] then false
    else if sub[0] == s[0] then IsSubsequence(sub[1..], s[1..])
    else IsSubsequence(sub, s[1..])
  }

  /** The rows of the page whose id is a key of the selection, in page
      order. */
  function SelectedOnPage(page: seq<Record>, m: Selection): (r: seq<Record>)
    ensures forall row :: row in r <==> row in page && row.id in m
    ensures |r| <= |page|
    decreases |page|
  {
    if page == [] then []
    else
      var rest := SelectedOnPage(page[1..], m);
      assert forall row :: row in page <==> row == page[0] || row in page[1..];
      if page[0].id in m then [page[0]] + rest else rest
  }

  /** The checked rows keep the page's order and each row occurs as often
      as on the page, or not at all. */
  lemma {:induction false} SelectedOnPageInOrder(page: seq<Record>, m: Selection)
    ensures IsSubsequence(SelectedOnPage(page, m), page)
    ensures forall row :: multiset(SelectedOnPage(page, m))[row] == if row.id in m then multiset(page)[row] else 0
    decreases |page|
  {
    if page != [] {
      var rest := SelectedOnPage(page[1..], m);
      SelectedOnPageInOrder(page[1..], m);
      assert page == [page[0]] + page[1..];
      if page[0].id in m {
        assert ([page[0]] + rest)[1..] == rest;
      } else if rest != [] {
        assert rest[0] in rest;
      }
    }
  }
}
