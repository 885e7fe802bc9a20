/**
 Worked scenarios of the table page's selection bookkeeping: auto-selecting
 more rows than one page holds, and ticking rows by hand on two pages.
 */
module Scenarios {
  import opened Records
  import opened Bookkeeping
  import opened Paging
  import opened TablePageComponent

  /** Two pages whose rows all carry different ids. */
  predicate DisjointPages(p1: seq<Record>, p2: seq<Record>)
  {
    DistinctIds(p1) && DistinctIds(p2) && IdsOf(p1) !! IdsOf(p2)
  }

  /** Auto-selecting 15 rows from an empty selection: the first full page
      selects all 12 of its rows and leaves 3 pending. */
  lemma AutoSelectFirstPage(p1: seq<Record>)
    requires |p1| == RowsPerPage && DistinctIds(p1)
    ensures var o1 := FetchMerge(map[], p1, 15);
      o1.selection.Keys == IdsOf(p1) && |o1.selection| == 12 && o1.remaining == 3
  {
    assert AutoSelectSlice(p1, 15) == p1;
    AutoSelectChargeExact(map[], p1, 15);
  }

  /** With 3 rows still pending over a selection of 12, a page of 12 rows
      with new ids selects its first 3 and ends the auto-select. */
  lemma AutoSelectLastThree(m: Selection, p2: seq<Record>)
    requires |m| == 12 && |p2| == RowsPerPage && DistinctIds(p2) && IdsOf(p2) !! m.Keys
    ensures var o2 := FetchMerge(m, p2, 3);
      o2.selection.Keys == m.Keys + IdsOf(p2[..3]) && |o2.selection| == 15 && o2.remaining == 0
  {
    var slice := AutoSelectSlice(p2, 3);
    assert slice == p2[..3];
    assert IdsOf(slice) <= IdsOf(p2);
    AutoSelectChargeExact(m, p2, 3);
  }

  /** After the first page of an auto-select of 15 rows, the next page, with
      12 rows not seen before, brings the selection to 15 rows and ends the
      auto-select. */
  lemma AutoSelectNextPage(m: Selection, p1: seq<Record>, p2: seq<Record>)
    requires |m| == 12 && m.Keys == IdsOf(p1)
    requires |p2| == RowsPerPage && DisjointPages(p1, p2)
    ensures |FetchMerge(m, p2, 3).selection| == 15 && FetchMerge(m, p2, 3).remaining == 0
  {
    AutoSelectLastThree(m, p2);
  }

  /** The auto-select of 15 rows, continued: the next page, with 12 rows not
      seen before, selects its first 3 and ends the auto-select, 15 rows in
      all. */
  lemma AutoSelectFifteenOverTwoPages(p1: seq<Record>, p2: seq<Record>)
    requires |p1| == RowsPerPage && |p2| == RowsPerPage && DisjointPages(p1, p2)
    ensures var o1 := FetchMerge(map[], p1, 15);
      var o2 := FetchMerge(o1.selection, p2, o1.remaining);
      o2.selection.Keys == IdsOf(p1) + IdsOf(p2[..3]) && |o2.selection| == 15 && o2.remaining == 0
  {
    AutoSelectFirstPage(p1);
    var o1 := FetchMerge(map[], p1, 15);
    AutoSelectLastThree(o1.selection, p2);
  }

  /** The selection after ticking rows `a` and `b` of page `p1` and then
      row `c` of page `p2`. */
  function TickedOnTwoPages(p1: seq<Record>, p2: seq<Record>, a: nat, b: nat, c: nat): Selection
    requires a < |p1| && b < |p1| && c < |p2|
  {
    var m1 := Reconcile(map[], p1, IdsOf([p1[a], p1[b]]));
    Reconcile(m1, p2, IdsOf([p2[c]]))
  }

  /** Ticking two rows of a page with an empty selection selects exactly
      their ids. */
  lemma TickTwo(p1: seq<Record>, a: nat, b: nat)
    requires a < |p1| && b < |p1|
    ensures Reconcile(map[], p1, IdsOf([p1[a], p1[b]])).Keys == {p1[a].id, p1[b].id}
  {
    assert IdsOf([p1[a], p1[b]]) == {p1[a].id, p1[b].id};
    assert p1[a].id in IdsOf(p1) && p1[b].id in IdsOf(p1);
    ReconcileKeys(map[], p1, {p1[a].id, p1[b].id});
  }

  /** Ticking one row of a page none of whose ids is selected adds exactly
      its id. */
  lemma TickOneMore(m: Selection, p2: seq<Record>, c: nat)
    requires c < |p2| && m.Keys !! IdsOf(p2)
    ensures Reconcile(m, p2, IdsOf([p2[c]])).Keys == m.Keys + {p2[c].id}
  {
    assert IdsOf([p2[c]]) == {p2[c].id};
    assert p2[c].id in IdsOf(p2);
    ReconcileKeys(m, p2, {p2[c].id});
  }

  /** Ticking two rows on one page and one row on another selects exactly
      those three ids. */
  lemma TickedOnTwoPagesKeys(p1: seq<Record>, p2: seq<Record>, a: nat, b: nat, c: nat)
    requires DisjointPages(p1, p2)
    requires a < |p1| && b < |p1| && a != b && c < |p2|
    ensures TickedOnTwoPages(p1, p2, a, b, c).Keys == {p1[a].id, p1[b].id, p2[c].id}
    ensures |TickedOnTwoPages(p1, p2, a, b, c)| == 3
  {
    TickTwo(p1, a, b);
    var m1 := Reconcile(map[], p1, IdsOf([p1[a], p1[b]]));
    assert p1[a].id in IdsOf(p1) && p1[b].id in IdsOf(p1);
    TickOneMore(m1, p2, c);
    assert p2[c].id in IdsOf(p2);
    assert |{p1[a].id, p1[b].id, p2[c].id}| == 3;
  }

  /** Going back to the first page after ticking rows on two pages shows
      exactly the two rows ticked there. */
  lemma ManualSelectionAcrossPages(p1: seq<Record>, p2: seq<Record>, a: nat, b: nat, c: nat)
    requires DisjointPages(p1, p2)
    requires a < |p1| && b < |p1| && a != b && c < |p2|
    ensures forall r :: r in SelectedOnPage(p1, TickedOnTwoPages(p1, p2, a, b, c)) <==> r == p1[a] || r == p1[b]
  {
    var m := TickedOnTwoPages(p1, p2, a, b, c);
    TickedOnTwoPagesKeys(p1, p2, a, b, c);
    ShownOnFirstPage(p1, p2, a, b, c, m.Keys);
  }

  /** The rows of `p1` whose id is one of the three ticked ids are exactly
      the two rows ticked on `p1`. */
  lemma ShownOnFirstPage(p1: seq<Record>, p2: seq<Record>, a: nat, b: nat, c: nat, keys: set<Id>)
    requires DisjointPages(p1, p2)
    requires a < |p1| && b < |p1| && c < |p2|
    requires keys == {p1[a].id, p1[b].id, p2[c].id}
    ensures forall r :: r in p1 && r.id in keys <==> r == p1[a] || r == p1[b]
  {
    assert p2[c].id in IdsOf(p2);
    forall r | r in p1 && r.id in keys
      ensures r == p1[a] || r == p1[b]
    {
      assert r.id in IdsOf(p1);
      var j :| 0 <= j < |p1| && p1[j] == r;
    }
  }

  /** The start of an auto-select session: the user asks for 15 rows to be
      auto-selected on a fresh component and the current page arrives with
      12 rows. */
  method StartAutoSelect(p1: seq<Record>) returns (page: TablePage)
    requires |p1| == RowsPerPage && DistinctIds(p1)
    ensures fresh(page) && page.Valid()
    ensures page.selectedRows.Keys == IdsOf(p1) && |page.selectedRows| == 12
    ensures page.remainingAutoSelect == 3
  {
    page := new TablePage(map[], 1);
    page.AutoSelectCountChanged(15);
    page.AutoSelectSubmitted();
    page.FetchSucceeded(p1, 1000);
    AutoSelectFirstPage(p1);
  }

  /** A session on the component: the user asks for 15 rows to be
      auto-selected, the current page arrives with 12 rows, the user moves
      to the next page and it arrives with 12 rows not seen before. */
  method AutoSelectSession(p1: seq<Record>, p2: seq<Record>)
    returns (firstSelected: nat, firstRemaining: int, selected: nat, remaining: int)
    requires |p1| == RowsPerPage && |p2| == RowsPerPage && DisjointPages(p1, p2)
    ensures firstSelected == 12 && firstRemaining == 3
    ensures selected == 15 && remaining == 0
  {
    var page := StartAutoSelect(p1);
    var s1 := page.selectedRows;
    firstSelected, firstRemaining := |s1|, page.remainingAutoSelect;
    page.PageChanged(1);
    page.FetchSucceeded(p2, 1000);
    selected, remaining := |page.selectedRows|, page.remainingAutoSelect;
    assert selected == 15 && remaining == 0 by {
      AutoSelectNextPage(s1, p1, p2);
    }
  }
}
