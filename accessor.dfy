/**
 * The case-insensitive column accessor built for one taxonomy row: an index
 * from each column's normal form (`strip().lower()`) to its original name,
 * and a lookup that normalises the requested name the same way.
 */
module RowAccessor {
  import opened Wrappers
  import opened PyStr

  /** One cell as read with `dtype=str`: text, or the missing-value marker. */
  datatype Cell = NaN | Str(text: string)

  /** A row: its column names in column order, each with its cell. */
  type Row = seq<(string, Cell)>

  /** `{str(k).strip().lower(): k for k in row.index}`, built left to right
      so that a later column overwrites an earlier one with the same
      normal form. */
  function BuildIndex(row: Row): map<string, string> {
    if row == [] then map[]
    else BuildIndex(row[..|row| - 1])[Norm(row[|row| - 1].0) := row[|row| - 1].0]
  }

  /** The keys of the index are exactly the normal forms that occur. */
  lemma {:induction false} IndexKeys(row: Row, key: string)
    ensures key in BuildIndex(row) <==> exists i :: 0 <= i < |row| && Norm(row[i].0) == key
  {
    if row != [] {
      var init := row[..|row| - 1];
      IndexKeys(init, key);
      assert forall i :: 0 <= i < |init| ==> init[i] == row[i];
    }
  }

  /** Each key of the index names the LAST column having that normal form. */
  lemma {:induction false} IndexNamesLastColumn(row: Row, key: string)
    requires key in BuildIndex(row)
    ensures exists i :: 0 <= i < |row| && row[i].0 == BuildIndex(row)[key] && Norm(row[i].0) == key
                        && forall j :: i < j < |row| ==> Norm(row[j].0) != key
  {
    assert row != [];
    var last := |row| - 1;
    var init := row[..last];
    var lastKey := Norm(row[last].0);
    assert BuildIndex(row) == BuildIndex(init)[lastKey := row[last].0];
    if lastKey == key {
      assert row[last].0 == BuildIndex(row)[key];
    } else {
      assert key in BuildIndex(init);
      IndexNamesLastColumn(init, key);
      var i :| 0 <= i < |init| && init[i].0 == BuildIndex(init)[key] && Norm(init[i].0) == key
               && forall j :: i < j < |init| ==> Norm(init[j].0) != key;
      assert row[i] == init[i];
      assert forall j :: i < j < |row| ==> Norm(row[j].0) != key by {
        forall j | i < j < |row| ensures Norm(row[j].0) != key {
          if j < last {
            assert row[j] == init[j];
          }
        }
      }
    }
  }

  /** `row[k]` for a name that occurs: the cell of the last column so named. */
  function CellNamed(row: Row, k: string): (c: Cell)
    requires exists i :: 0 <= i < |row| && row[i].0 == k
    ensures exists i :: 0 <= i < |row| && row[i].0 == k && c == row[i].1
                        && forall j :: i < j < |row| ==> row[j].0 != k
  {
    if row[|row| - 1].0 == k then row[|row| - 1].1
    else
      var init := row[..|row| - 1];
      assert exists i :: 0 <= i < |init| && init[i].0 == k by {
        var i :| 0 <= i < |row| && row[i].0 == k;
        assert init[i] == row[i];
      }
      var c := CellNamed(init, k);
      assert forall i :: 0 <= i < |init| ==> init[i] == row[i];
      c
  }

  /** `get(colname)`. */
  function Get(row: Row, name: string): Option<Cell> {
    var idx := BuildIndex(row);
    var key := Norm(name);
    IndexKeys(row, key);
    if key in idx then
      IndexNamesLastColumn(row, key);
      Some(CellNamed(row, idx[key]))
    else None
  }

  /** `get(name)` is the cell of the last column whose normal form equals
      that of `name`, and None exactly when no column has it. A present
      result may still be NaN or blank; None means only that no such
      column exists. */
  lemma GetFindsLastMatch(row: Row, name: string)
    ensures Get(row, name).None? <==> forall i :: 0 <= i < |row| ==> Norm(row[i].0) != Norm(name)
    ensures Get(row, name).Some? ==>
              exists i :: 0 <= i < |row| && Norm(row[i].0) == Norm(name) && Get(row, name).value == row[i].1
                          && forall j :: i < j < |row| ==> Norm(row[j].0) != Norm(name)
  {
    var key := Norm(name);
    IndexKeys(row, key);
    if key in BuildIndex(row) {
      IndexNamesLastColumn(row, key);
    }
  }

  /** A name that matches no column reads as absent. */
  lemma GetAbsent(row: Row, name: string)
    requires forall i :: 0 <= i < |row| ==> Norm(row[i].0) != Norm(name)
    ensures Get(row, name) == None
  {
    GetFindsLastMatch(row, name);
  }

  /** Two requests with the same normal form read the same cell, so
      `get(" Species ")` and `get("species")` agree. */
  lemma GetIgnoresCaseAndSpace(row: Row, a: string, b: string)
    requires Norm(a) == Norm(b)
    ensures Get(row, a) == Get(row, b)
  {
  }

  /** The index of Get is the last matching column: an earlier column with
      the same normal form is shadowed. */
  lemma {:induction false} LaterColumnWins(row: Row, name: string, i: nat)
    requires i < |row| && Norm(row[i].0) == Norm(name)
    requires forall j :: i < j < |row| ==> Norm(row[j].0) != Norm(name)
    ensures Get(row, name) == Some(row[i].1)
  {
    GetFindsLastMatch(row, name);
    var r := Get(row, name);
    var i' :| 0 <= i' < |row| && Norm(row[i'].0) == Norm(name) && r.value == row[i'].1
              && forall j :: i' < j < |row| ==> Norm(row[j].0) != Norm(name);
    assert i' == i;
  }
}
