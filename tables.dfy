/** A relational table as the handlers see it: a sequence of rows in
    primary-key order, plus the four statements the handlers issue
    against it (select by key, insert, update by key, delete by key).
    The primary key of a row is given by a key function, so the same
    definitions serve the User, Product and order tables. */
module Tables {

  datatype Option<T> = None | Some(value: T)

  /** Rows are stored in strictly increasing key order; in particular
      no two rows share a primary key. */
  ghost predicate Increasing<R>(rows: seq<R>, key: R -> int) {
    forall i, j :: 0 <= i < j < |rows| ==> key(rows[i]) < key(rows[j])
  }

  /** Every key in the table is below `bound` (the next auto-increment value). */
  ghost predicate Below<R>(rows: seq<R>, key: R -> int, bound: int) {
    forall i :: 0 <= i < |rows| ==> key(rows[i]) < bound
  }

  /** Some row carries primary key `id`. */
  ghost predicate Has<R>(rows: seq<R>, key: R -> int, id: int) {
    exists i :: 0 <= i < |rows| && key(rows[i]) == id
  }

  /** `SELECT * FROM t WHERE id = ?`: the row with key `id`, if any. */
  function Find<R>(rows: seq<R>, key: R -> int, id: int): (r: Option<R>)
    ensures r.Some? ==> r.value in rows && key(r.value) == id
    ensures r.None? <==> !Has(rows, key, id)
  {
    if rows == [] then None
    else if key(rows[0]) == id then Some(rows[0])
    else
      var r := Find(rows[1..], key, id);
      assert Has(rows, key, id) ==> Has(rows[1..], key, id) by {
        if Has(rows, key, id) {
          var i :| 0 <= i < |rows| && key(rows[i]) == id;
          assert key(rows[1..][i - 1]) == id;
        }
      }
      assert Has(rows[1..], key, id) ==> Has(rows, key, id) by {
        if Has(rows[1..], key, id) {
          var i :| 0 <= i < |rows[1..]| && key(rows[1..][i]) == id;
          assert key(rows[i + 1]) == id;
        }
      }
      r
  }

  /** `DELETE FROM t WHERE id = ?`: every row with key `id` is dropped,
      the others keep their relative order. */
  function Remove<R>(rows: seq<R>, key: R -> int, id: int): (r: seq<R>)
    ensures forall i :: 0 <= i < |r| ==> r[i] in rows && key(r[i]) != id
    ensures forall i :: 0 <= i < |rows| && key(rows[i]) != id ==> rows[i] in r
    ensures |r| <= |rows|
  {
    if rows == [] then []
    else if key(rows[0]) == id then Remove(rows[1..], key, id)
    else [rows[0]] + Remove(rows[1..], key, id)
  }

  /** `UPDATE t SET ... WHERE id = key(row)`: every row with the key of
      `row` is overwritten with `row` as a whole; no other row changes. */
  function Replace<R>(rows: seq<R>, key: R -> int, row: R): (r: seq<R>)
    ensures |r| == |rows|
    ensures forall i :: 0 <= i < |rows| ==>
              r[i] == (if key(rows[i]) == key(row) then row else rows[i])
  {
    if rows == [] then []
    else [if key(rows[0]) == key(row) then row else rows[0]] + Replace(rows[1..], key, row)
  }

  /** In a table with unique keys, looking a stored row up by its own key
      finds exactly that row. */
  lemma FindStored<R>(rows: seq<R>, key: R -> int, x: R)
    requires Increasing(rows, key)
    requires x in rows
    ensures Find(rows, key, key(x)) == Some(x)
  {
  }

  /** Inserting a row whose key is the next auto-increment value keeps the
      table ordered, moves the bound up by one, and makes exactly that row
      findable under its key while every other lookup is unaffected (the
      last by its helper FindAppendOther). */
  lemma Append<R>(rows: seq<R>, key: R -> int, bound: int, x: R)
    requires Increasing(rows, key) && Below(rows, key, bound)
    requires key(x) == bound
    ensures Increasing(rows + [x], key) && Below(rows + [x], key, bound + 1)
    ensures !Has(rows, key, bound)
    ensures Find(rows + [x], key, bound) == Some(x)
    ensures forall k :: k != bound ==> Find(rows + [x], key, k) == Find(rows, key, k)
  {
    forall k | k != bound ensures Find(rows + [x], key, k) == Find(rows, key, k) {
      FindAppendOther(rows, key, x, k);
    }
    var r := rows + [x];
    assert forall i :: 0 <= i < |rows| ==> r[i] == rows[i];
    assert r[|rows|] == x;
    FindStored(r, key, x);
  }

  /** Appending a row leaves the lookup of every other key as it was. */
  lemma {:induction false} FindAppendOther<R>(rows: seq<R>, key: R -> int, x: R, k: int)
    requires key(x) != k
    ensures Find(rows + [x], key, k) == Find(rows, key, k)
  {
    if rows != [] {
      assert (rows + [x])[1..] == rows[1..] + [x];
      FindAppendOther(rows[1..], key, x, k);
    }
  }

  /** The tail of an ordered table is ordered, and every key in it is
      larger than the head's. */
  lemma Tail<R>(rows: seq<R>, key: R -> int)
    requires rows != []
    requires Increasing(rows, key)
    ensures Increasing(rows[1..], key)
    ensures forall j :: 0 <= j < |rows| - 1 ==> key(rows[0]) < key(rows[1..][j])
  {
  }

  /** A row below every key of an ordered table can be put in front of it. */
  lemma Cons<R>(x: R, rows: seq<R>, key: R -> int)
    requires Increasing(rows, key)
    requires forall i :: 0 <= i < |rows| ==> key(x) < key(rows[i])
    ensures Increasing([x] + rows, key)
  {
  }

  /** A row with key `id` is in the table iff the head has it or the tail has it. */
  lemma HasSplit<R>(rows: seq<R>, key: R -> int, id: int)
    requires rows != []
    ensures Has(rows, key, id) <==> key(rows[0]) == id || Has(rows[1..], key, id)
  {
  }

  /** Deleting by key keeps an ordered table ordered. */
  lemma {:induction false} RemoveOrdered<R>(rows: seq<R>, key: R -> int, id: int)
    requires Increasing(rows, key)
    ensures Increasing(Remove(rows, key, id), key)
  {
    if rows != [] {
      var tail := rows[1..];
      Tail(rows, key);
      RemoveOrdered(tail, key, id);
      if key(rows[0]) != id {
        var rt := Remove(tail, key, id);
        forall i | 0 <= i < |rt| ensures key(rows[0]) < key(rt[i]) {
          var j :| 0 <= j < |tail| && tail[j] == rt[i];
        }
        Cons(rows[0], rt, key);
      }
    }
  }

  /** Deleting by key keeps every key under the table's bound. */
  lemma RemoveBelow<R>(rows: seq<R>, key: R -> int, id: int, bound: int)
    requires Below(rows, key, bound)
    ensures Below(Remove(rows, key, id), key, bound)
  {
  }

  /** Deleting a key that is not in the table changes nothing. */
  lemma {:induction false} RemoveAbsent<R>(rows: seq<R>, key: R -> int, id: int)
    requires !Has(rows, key, id)
    ensures Remove(rows, key, id) == rows
  {
    if rows != [] {
      HasSplit(rows, key, id);
      RemoveAbsent(rows[1..], key, id);
    }
  }

  /** Deleting a key that is in an ordered table drops exactly one row. */
  lemma {:induction false} RemovePresent<R>(rows: seq<R>, key: R -> int, id: int)
    requires Increasing(rows, key)
    requires Has(rows, key, id)
    ensures |Remove(rows, key, id)| == |rows| - 1
  {
    var tail := rows[1..];
    Tail(rows, key);
    HasSplit(rows, key, id);
    if key(rows[0]) == id {
      assert !Has(tail, key, id);
      RemoveAbsent(tail, key, id);
    } else {
      RemovePresent(tail, key, id);
    }
  }

  /** Deleting by key leaves the lookup of every other key as it was. */
  lemma {:induction false} RemoveKeepsOthers<R>(rows: seq<R>, key: R -> int, id: int, other: int)
    requires other != id
    ensures Find(Remove(rows, key, id), key, other) == Find(rows, key, other)
  {
    if rows != [] {
      RemoveKeepsOthers(rows[1..], key, id, other);
    }
  }

  /** Overwriting by key keeps the key sequence, so the table stays ordered
      and under its bound. */
  lemma ReplaceOrdered<R>(rows: seq<R>, key: R -> int, row: R, bound: int)
    requires Increasing(rows, key) && Below(rows, key, bound)
    ensures Increasing(Replace(rows, key, row), key)
    ensures Below(Replace(rows, key, row), key, bound)
  {
  }

  /** After overwriting a present key, that key finds the new row. */
  lemma ReplaceFinds<R>(rows: seq<R>, key: R -> int, row: R)
    requires Has(rows, key, key(row))
    ensures Find(Replace(rows, key, row), key, key(row)) == Some(row)
  {
  }

  /** Overwriting by key leaves the lookup of every other key as it was. */
  lemma {:induction false} ReplaceKeepsOthers<R>(rows: seq<R>, key: R -> int, row: R, other: int)
    requires other != key(row)
    ensures Find(Replace(rows, key, row), key, other) == Find(rows, key, other)
  {
    if rows != [] {
      var r := Replace(rows, key, row);
      assert r[1..] == Replace(rows[1..], key, row);
      ReplaceKeepsOthers(rows[1..], key, row, other);
    }
  }
}
