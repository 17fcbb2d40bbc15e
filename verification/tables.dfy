/** The relational store as the client sees it. A table is a sequence of rows
    and a WHERE clause is a predicate on rows. `Select` and `UpdateWhere` give
    the meaning of the statements the client sends; `ExecuteQuery` and
    `ExecuteQueryAndPrintResult` are the client's own loops over the cursor
    that a SELECT returns. */
module Tables {

  /** `SELECT * FROM table WHERE where`: the matching rows. The model keeps
      them in table order; SQL itself promises no order without ORDER BY. */
  function Select<T>(table: seq<T>, where: T -> bool): (r: seq<T>)
    ensures |r| <= |table|
    ensures forall i :: 0 <= i < |r| ==> where(r[i])
  {
    if table == [] then []
    else (if where(table[0]) then [table[0]] else []) + Select(table[1..], where)
  }

  /** `UPDATE table SET assign WHERE where`: every matching row is rewritten
      by `assign`, every other row is kept, and no row is added or removed. */
  function UpdateWhere<T>(table: seq<T>, where: T -> bool, assign: T -> T): (r: seq<T>)
    ensures |r| == |table|
    ensures forall i :: 0 <= i < |table| ==> r[i] == if where(table[i]) then assign(table[i]) else table[i]
  {
    if table == [] then []
    else [if where(table[0]) then assign(table[0]) else table[0]] + UpdateWhere(table[1..], where, assign)
  }

  /** Selecting from a table with one more row at the end selects that row last,
      if it matches. */
  lemma {:induction false} SelectAppend<T>(table: seq<T>, row: T, where: T -> bool)
    ensures Select(table + [row], where) == Select(table, where) + (if where(row) then [row] else [])
  {
    var longer := table + [row];
    if table == [] {
      assert longer == [row];
      assert longer[1..] == [];
    } else {
      var head := if where(table[0]) then [table[0]] else [];
      assert longer[0] == table[0];
      assert longer[1..] == table[1..] + [row];
      SelectAppend(table[1..], row, where);
      assert Select(longer, where) == head + Select(table[1..] + [row], where);
      assert Select(table, where) == head + Select(table[1..], where);
    }
  }

  /** A query returns at least one row exactly when some row of the table matches. */
  lemma {:induction false} SelectNonEmpty<T>(table: seq<T>, where: T -> bool)
    ensures |Select(table, where)| > 0 <==> exists i :: 0 <= i < |table| && where(table[i])
  {
    if table != [] {
      var rest := table[1..];
      SelectNonEmpty(rest, where);
      if exists i :: 0 <= i < |rest| && where(rest[i]) {
        var i :| 0 <= i < |rest| && where(rest[i]);
        assert where(table[i + 1]);
      }
      if exists i :: 0 <= i < |table| && where(table[i]) {
        var i :| 0 <= i < |table| && where(table[i]);
        if i > 0 {
          assert where(rest[i - 1]);
        }
      }
    }
  }

  /** The row-count test of every query, for every table at once. */
  lemma SelectNonEmptyEverywhere<T>(where: T -> bool)
    ensures forall table: seq<T> :: |Select(table, where)| > 0 <==> exists i :: 0 <= i < |table| && where(table[i])
  {
    forall table: seq<T>
      ensures |Select(table, where)| > 0 <==> exists i :: 0 <= i < |table| && where(table[i])
    {
      SelectNonEmpty(table, where);
    }
  }

  /** A query keeps every matching row with its multiplicity and drops every
      other row: `Select` is exactly the sub-bag of matching rows. */
  lemma {:induction false} SelectMultiplicity<T>(table: seq<T>, where: T -> bool, row: T)
    ensures multiset(Select(table, where))[row] == if where(row) then multiset(table)[row] else 0
  {
    if table != [] {
      SelectMultiplicity(table[1..], where, row);
      assert table == [table[0]] + table[1..];
    }
  }

  /** A WHERE clause that every row satisfies selects the whole table. */
  lemma {:induction false} SelectEveryRow<T>(table: seq<T>, where: T -> bool)
    requires forall i :: 0 <= i < |table| ==> where(table[i])
    ensures Select(table, where) == table
  {
    if table != [] {
      assert where(table[0]);
      SelectEveryRow(table[1..], where);
      assert table == [table[0]] + table[1..];
    }
  }

  /** An UPDATE whose WHERE clause matches no row leaves the table as it was. */
  lemma UpdateWhereNoMatch<T>(table: seq<T>, where: T -> bool, assign: T -> T)
    requires forall i :: 0 <= i < |table| ==> !where(table[i])
    ensures UpdateWhere(table, where, assign) == table
  {
  }

  /** The row count of a query (`executeQuery`): walks the cursor of the
      result set and counts its rows. */
  method ExecuteQuery<T>(table: seq<T>, where: T -> bool) returns (rowCount: nat)
    ensures rowCount == |Select(table, where)|
  {
    var rs := Select(table, where);
    rowCount := 0;
    var i := 0;
    while i < |rs|
      invariant 0 <= i <= |rs|
      invariant rowCount == i
    {
      rowCount := rowCount + 1;
      i := i + 1;
    }
  }

  /** `executeQueryAndPrintResult`: walks the cursor, shows every row of the
      result set and returns how many it showed. */
  method ExecuteQueryAndPrintResult<T>(table: seq<T>, where: T -> bool) returns (rowCount: nat, shown: seq<T>)
    ensures shown == Select(table, where)
    ensures rowCount == |shown|
  {
    var rs := Select(table, where);
    rowCount, shown := 0, [];
    while rowCount < |rs|
      invariant 0 <= rowCount <= |rs|
      invariant shown == rs[..rowCount]
    {
      shown := shown + [rs[rowCount]];
      rowCount := rowCount + 1;
    }
    assert rs[..rowCount] == rs;
  }
}
