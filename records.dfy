/**
 The values the table page works with: one artwork row as returned by the
 remote catalog, and the selection map from row id to row.
 */
module Records {

  /** A row id. The source's `string | number` ids end up as object keys,
      which are strings, so one key type stands for both. */
  type Id = string

  /** One artwork row of a fetched page. */
  datatype Record = Record(
    id: Id,
    title: string,
    placeOfOrigin: string,
    artistDisplay: string,
    inscriptions: string,
    dateStart: string,
    dateEnd: string)

  /** The rows selected across all pages, keyed by row id. */
  type Selection = map<Id, Record>

  /** The ids of a list of rows. */
  function IdsOf(rows: seq<Record>): set<Id>
  {
    set r | r in rows :: r.id
  }

  /** The rows of a list, as a set. */
  function RowSet(rows: seq<Record>): set<Record>
  {
    set r | r in rows
  }

  /** Every entry whose key is not in `exempt` is stored under its own
      row's id. */
  predicate KeyedExcept(m: Selection, exempt: set<Id>)
  {
    forall k :: k in m && k !in exempt ==> m[k].id == k
  }

  /** Every entry is stored under its own row's id. */
  predicate KeyedById(m: Selection)
  {
    forall k :: k in m ==> m[k].id == k
  }

  /** No two rows of the list share an id. */
  predicate DistinctIds(rows: seq<Record>)
  {
    forall i, j :: 0 <= i < j < |rows| ==> rows[i].id != rows[j].id
  }

  /** Row `i` is the first row of the list with its id. */
  predicate FirstWithId(rows: seq<Record>, i: nat)
    requires i < |rows|
  {
    forall j :: 0 <= j < i ==> rows[j].id != rows[i].id
  }

  /** Row `i` is the last row of the list with its id. */
  predicate LastWithId(rows: seq<Record>, i: nat)
    requires i < |rows|
  {
    forall j :: i < j < |rows| ==> rows[j].id != rows[i].id
  }

  lemma IdsOfAppend(rows: seq<Record>, row: Record)
    ensures IdsOf(rows + [row]) == IdsOf(rows) + {row.id}
  {
    assert forall r :: r in rows + [row] <==> r in rows || r == row;
  }

  /** Removing a set of known ids from the ids of a list of rows changes
      the count by one per row whose id was not known before. */
  lemma NewIdsStep(init: seq<Record>, last: Record, known: set<Id>)
    ensures last.id in known || last.id in IdsOf(init) ==> IdsOf(init + [last]) - known == IdsOf(init) - known
    ensures last.id !in known ==> IdsOf(init + [last]) - known == (IdsOf(init) - known) + {last.id}
  {
    IdsOfAppend(init, last);
  }

  /** At most one new id per row. */
  lemma {:induction false} NewIdsAtMost(rows: seq<Record>, known: set<Id>)
    ensures |IdsOf(rows) - known| <= |rows|
  {
    if rows == [] {
      assert IdsOf(rows) == {};
    } else {
      var n := |rows| - 1;
      assert rows == rows[..n] + [rows[n]];
      NewIdsAtMost(rows[..n], known);
      NewIdsStep(rows[..n], rows[n], known);
    }
  }

  /** Strictly fewer new ids than rows once one row's id is already known. */
  lemma {:induction false} NewIdsFewer(rows: seq<Record>, known: set<Id>, i: nat)
    requires i < |rows| && rows[i].id in known
    ensures |IdsOf(rows) - known| < |rows|
  {
    var n := |rows| - 1;
    assert rows == rows[..n] + [rows[n]];
    NewIdsStep(rows[..n], rows[n], known);
    if i < n {
      NewIdsFewer(rows[..n], known, i);
    } else {
      NewIdsAtMost(rows[..n], known);
    }
  }

  /** Exactly one new id per row when the ids are pairwise distinct and none
      is known. */
  lemma {:induction false} NewIdsExact(rows: seq<Record>, known: set<Id>)
    requires DistinctIds(rows) && IdsOf(rows) !! known
    ensures |IdsOf(rows) - known| == |rows|
  {
    if rows != [] {
      var n := |rows| - 1;
      var init, last := rows[..n], rows[n];
      assert rows == init + [last];
      assert DistinctIds(init);
      assert IdsOf(init) <= IdsOf(rows);
      NewIdsExact(init, known);
      NewIdsStep(init, last, known);
    }
  }
}
