/** Reference counting: how often a value occurs in a table of rows.  The rows are the directory
    entries of the paging code, the descriptors of the tasks, or the entries of the directories. */
module Counting {

  /** How often x occurs in row. */
  function Count<T(==)>(row: seq<T>, x: T): (n: nat)
  {
    multiset(row)[x]
  }

  /** How often x occurs in all rows together. */
  function Total<T(==)>(rows: seq<seq<T>>, x: T): (n: nat)
  {
    if rows == [] then 0
    else Total(rows[..|rows| - 1], x) + Count(rows[|rows| - 1], x)
  }

  lemma CountUpdate<T>(row: seq<T>, i: nat, v: T, x: T)
    requires i < |row|
    ensures Count(row[i := v], x) + (if row[i] == x then 1 else 0) == Count(row, x) + (if v == x then 1 else 0)
  {}

  lemma CountPositive<T>(row: seq<T>, i: nat)
    requires i < |row|
    ensures Count(row, row[i]) >= 1
  {}

  lemma CountTwice<T>(row: seq<T>, i: nat, j: nat)
    requires i < j < |row| && row[i] == row[j]
    ensures Count(row, row[i]) >= 2
  {
    assert row == row[..j] + [row[j]] + row[j + 1..];
    assert row[..j][i] in multiset(row[..j]);
  }

  lemma CountWitness<T>(row: seq<T>, x: T) returns (i: nat)
    requires Count(row, x) >= 1
    ensures i < |row| && row[i] == x
  {
    assert x in row;
    i :| i < |row| && row[i] == x;
  }

  /** Changing one row changes the total by the change of that row. */
  lemma {:induction false} TotalUpdate<T>(rows: seq<seq<T>>, i: nat, row: seq<T>, x: T)
    requires i < |rows|
    ensures Total(rows[i := row], x) + Count(rows[i], x) == Total(rows, x) + Count(row, x)
  {
    var n := |rows| - 1;
    if i == n {
      assert rows[i := row][..n] == rows[..n];
    } else {
      assert rows[i := row][..n] == rows[..n][i := row];
      TotalUpdate(rows[..n], i, row, x);
    }
  }

  lemma TotalAtLeast<T>(rows: seq<seq<T>>, i: nat, x: T)
    requires i < |rows|
    ensures Total(rows, x) >= Count(rows[i], x)
  {
    TotalUpdate(rows, i, [], x);
  }

  lemma TotalTwoRows<T>(rows: seq<seq<T>>, i: nat, j: nat, x: T)
    requires i < |rows| && j < |rows| && i != j
    ensures Total(rows, x) >= Count(rows[i], x) + Count(rows[j], x)
  {
    TotalUpdate(rows, i, [], x);
    TotalAtLeast(rows[i := []], j, x);
  }

  lemma {:induction false} TotalWitness<T>(rows: seq<seq<T>>, x: T) returns (i: nat)
    requires Total(rows, x) >= 1
    ensures i < |rows| && Count(rows[i], x) >= 1
  {
    var n := |rows| - 1;
    if Count(rows[n], x) >= 1 {
      i := n;
    } else {
      i := TotalWitness(rows[..n], x);
    }
  }

  lemma {:induction false} TotalZero<T>(rows: seq<seq<T>>, x: T)
    requires forall i | 0 <= i < |rows| :: Count(rows[i], x) == 0
    ensures Total(rows, x) == 0
  {
    if Total(rows, x) >= 1 {
      var i := TotalWitness(rows, x);
    }
  }
}
