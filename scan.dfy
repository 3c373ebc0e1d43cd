/**
 * Lists of keys and what a table scan returns. A query without ORDER BY
 * returns the selected rows in the order the database visits them; `scan`
 * stands for that order, a list of every key of the table, each once.
 */
module Scan {
  predicate Distinct(ids: seq<int>)
  {
    forall i, j :: 0 <= i < j < |ids| ==> ids[i] != ids[j]
  }

  /** A list has as many members as entries exactly when no entry repeats. */
  lemma {:induction false} DistinctCount(ids: seq<int>)
    ensures |set g | g in ids| <= |ids|
    ensures |set g | g in ids| == |ids| <==> Distinct(ids)
    decreases |ids|
  {
    if ids != [] {
      var rest := ids[1..];
      DistinctCount(rest);
      var s, r := set g | g in ids, set g | g in rest;
      assert s == r + {ids[0]};
      if ids[0] in rest {
        assert s == r;
        RepeatedHead(ids);
      } else {
        assert |s| == |r| + 1;
        DistinctCons(ids);
      }
    }
  }

  lemma RepeatedHead(ids: seq<int>)
    requires ids != [] && ids[0] in ids[1..]
    ensures !Distinct(ids)
  {
    var j :| 0 <= j < |ids[1..]| && ids[1..][j] == ids[0];
    assert ids[0] == ids[j + 1];
  }

  lemma DistinctCons(ids: seq<int>)
    requires ids != [] && ids[0] !in ids[1..]
    ensures Distinct(ids) <==> Distinct(ids[1..])
  {
    var rest := ids[1..];
    if Distinct(rest) {
      forall i, j | 0 <= i < j < |ids| ensures ids[i] != ids[j] {
        assert ids[j] == rest[j - 1];
        if i > 0 {
          assert ids[i] == rest[i - 1];
        }
      }
    }
    if Distinct(ids) {
      forall i, j | 0 <= i < j < |rest| ensures rest[i] != rest[j] {
        assert rest[i] == ids[i + 1] && rest[j] == ids[j + 1];
      }
    }
  }

  lemma {:induction false} SubsetCardinality<T>(a: set<T>, b: set<T>)
    requires a <= b
    ensures |a| <= |b|
    decreases |a|
  {
    if a != {} {
      var x :| x in a;
      SubsetCardinality(a - {x}, b - {x});
    }
  }

  lemma DistinctTail(ids: seq<int>)
    requires ids != []
    ensures Distinct(ids) ==> Distinct(ids[1..]) && ids[0] !in ids[1..]
  {
    if Distinct(ids) {
      forall i, j | 0 <= i < j < |ids[1..]| ensures ids[1..][i] != ids[1..][j] {
        assert ids[1..][i] == ids[i + 1] && ids[1..][j] == ids[j + 1];
      }
      forall i | 0 <= i < |ids[1..]| ensures ids[1..][i] != ids[0] {
        assert ids[1..][i] == ids[i + 1];
      }
    }
  }

  /** `scan` lists every key of the table once. */
  predicate ScanOrder<T>(table: map<int, T>, scan: seq<int>)
  {
    Distinct(scan) && (forall id :: id in table ==> id in scan) && (forall i :: 0 <= i < |scan| ==> scan[i] in table)
  }

  /** The keys in `scan` that the WHERE clause accepts (`chosen`), in scan order. */
  function SelectKeys(chosen: set<int>, scan: seq<int>): (ids: seq<int>)
    ensures forall id :: id in ids <==> id in scan && id in chosen
    ensures Distinct(scan) ==> Distinct(ids)
  {
    if scan == [] then []
    else
      var rest := SelectKeys(chosen, scan[1..]);
      assert forall i :: 1 <= i < |scan| ==> scan[i] == scan[1..][i - 1];
      DistinctTail(scan);
      var ids := if scan[0] in chosen then [scan[0]] + rest else rest;
      assert forall i :: 1 <= i < |ids| && scan[0] in chosen ==> ids[i] == rest[i - 1];
      ids
  }

  /** The selected keys are the chosen keys of the table, each once. */
  lemma SelectKeysCount<T>(table: map<int, T>, chosen: set<int>, scan: seq<int>)
    requires ScanOrder(table, scan) && chosen <= table.Keys
    ensures |SelectKeys(chosen, scan)| == |chosen|
  {
    var ids := SelectKeys(chosen, scan);
    DistinctCount(ids);
    forall x ensures x in (set g | g in ids) <==> x in chosen {
      if x in chosen {
        assert x in scan;
      }
    }
    assert (set g | g in ids) == chosen;
  }

  /**
   * The rows a scan selects: every chosen row once, in scan order, and
   * nothing else.
   */
  function SelectRows<T>(table: map<int, T>, chosen: set<int>, scan: seq<int>): (rows: seq<T>)
    requires ScanOrder(table, scan) && chosen <= table.Keys
    ensures |rows| == |chosen|
    ensures forall id :: id in chosen ==> table[id] in rows
    ensures forall x :: x in rows ==> exists id :: id in chosen && x == table[id]
  {
    var ids := SelectKeys(chosen, scan);
    SelectKeysCount(table, chosen, scan);
    var rows := seq(|ids|, i requires 0 <= i < |ids| => table[ids[i]]);
    forall id | id in chosen ensures table[id] in rows {
      assert id in scan;
      var k :| 0 <= k < |ids| && ids[k] == id;
      assert rows[k] == table[id];
    }
    forall x | x in rows ensures exists id :: id in chosen && x == table[id] {
      var k :| 0 <= k < |rows| && rows[k] == x;
      assert ids[k] in ids;
    }
    rows
  }
}
