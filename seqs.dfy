/**
 * Sequences of sequences laid end to end: the order in which nested loops
 * visit their pairs, and the way a list split into chunks reads back.
 */
module Seqs {
  /** The rows one after another, in order. */
  function Flatten<T>(rows: seq<seq<T>>): seq<T> {
    if rows == [] then [] else Flatten(rows[..|rows| - 1]) + rows[|rows| - 1]
  }

  lemma FlattenSnoc<T>(rows: seq<seq<T>>, row: seq<T>)
    ensures Flatten(rows + [row]) == Flatten(rows) + row
  {
    assert (rows + [row])[..|rows|] == rows;
  }

  /** One more row read gives one more row of output. */
  lemma FlattenStep<T>(rows: seq<seq<T>>, i: nat)
    requires i < |rows|
    ensures Flatten(rows[..i + 1]) == Flatten(rows[..i]) + rows[i]
  {
    assert rows[..i + 1] == rows[..i] + [rows[i]];
    FlattenSnoc(rows[..i], rows[i]);
  }

  /** The rows read so far, and then part of the next row, are a prefix of all the rows. */
  lemma {:induction false} FlattenPrefix<T>(rows: seq<seq<T>>, i: nat, k: nat)
    requires i < |rows| && k <= |rows[i]|
    ensures Flatten(rows[..i]) + rows[i][..k] <= Flatten(rows)
    decreases |rows| - i
  {
    FlattenStep(rows, i);
    assert Flatten(rows[..i]) + rows[i][..k] <= Flatten(rows[..i + 1]);
    if i + 1 < |rows| {
      FlattenPrefix(rows, i + 1, 0);
      assert Flatten(rows[..i + 1]) + rows[i + 1][..0] == Flatten(rows[..i + 1]);
    } else {
      assert rows[..i + 1] == rows;
    }
  }

  /** Rows of equal width w give |rows| * w items. */
  lemma {:induction false} FlattenLength<T>(rows: seq<seq<T>>, w: nat)
    requires forall r :: 0 <= r < |rows| ==> |rows[r]| == w
    ensures |Flatten(rows)| == |rows| * w
  {
    if rows != [] {
      FlattenLength(rows[..|rows| - 1], w);
    }
  }

  /** An item is in the flattened rows exactly when it is in one of the rows. */
  lemma {:induction false} FlattenMembers<T>(rows: seq<seq<T>>, x: T)
    ensures x in Flatten(rows) <==> exists r :: 0 <= r < |rows| && x in rows[r]
  {
    if rows != [] {
      var init := rows[..|rows| - 1];
      FlattenMembers(init, x);
      assert forall r :: 0 <= r < |init| ==> init[r] == rows[r];
      if x in Flatten(rows) && x !in rows[|rows| - 1] {
        var r :| 0 <= r < |init| && x in init[r];
        assert x in rows[r];
      }
    }
  }

  /** Flattening commutes with concatenating the row lists. */
  lemma {:induction false} FlattenAppend<T>(rows: seq<seq<T>>, more: seq<seq<T>>)
    ensures Flatten(rows + more) == Flatten(rows) + Flatten(more)
    decreases |more|
  {
    if more == [] {
      assert rows + more == rows;
    } else {
      var init := more[..|more| - 1];
      assert rows + more == (rows + init) + [more[|more| - 1]];
      FlattenSnoc(rows + init, more[|more| - 1]);
      FlattenAppend(rows, init);
    }
  }

  /** Enumerable.Range(start, count): count consecutive integers from start. */
  function Range(start: int, count: nat): (r: seq<int>)
    ensures |r| == count && forall k :: 0 <= k < count ==> r[k] == start + k
  {
    seq(count, k requires 0 <= k < count => start + k)
  }
}
