/** Slices of slices; sequences of equally long rows, laid end to end. */
module Flatten {
  import opened Machine

  predicate Rectangular<T>(rows: seq<seq<T>>, width: nat) {
    forall r :: 0 <= r < |rows| ==> |rows[r]| == width
  }

  function Flat<T>(rows: seq<seq<T>>): seq<T> {
    if rows == [] then [] else Flat(rows[..|rows| - 1]) + rows[|rows| - 1]
  }

  lemma {:induction false} FlatLength<T>(rows: seq<seq<T>>, width: nat)
    requires Rectangular(rows, width)
    ensures |Flat(rows)| == Product(|rows|, width)
  {
    if rows != [] {
      FlatLength(rows[..|rows| - 1], width);
      ProductStep(|rows| - 1, width);
    }
  }

  /** Row r, position k is at r * width + k. */
  lemma {:induction false} FlatAt<T>(rows: seq<seq<T>>, width: nat, r: nat, k: nat)
    requires Rectangular(rows, width) && r < |rows| && k < width
    ensures Product(r, width) + k < |Flat(rows)| && Flat(rows)[Product(r, width) + k] == rows[r][k]
  {
    var n := |rows| - 1;
    FlatLength(rows[..n], width);
    if r < n {
      FlatAt(rows[..n], width, r, k);
    }
  }

  /** Changing one element of one row changes one element of the whole. */
  lemma {:induction false} FlatUpdate<T>(rows: seq<seq<T>>, width: nat, r: nat, k: nat, x: T)
    requires Rectangular(rows, width) && r < |rows| && k < width
    ensures Product(r, width) + k < |Flat(rows)|
    ensures Flat(rows[r := rows[r][k := x]]) == Flat(rows)[Product(r, width) + k := x]
  {
    var n := |rows| - 1;
    var changed := rows[r := rows[r][k := x]];
    FlatLength(rows[..n], width);
    if r < n {
      FlatUpdate(rows[..n], width, r, k, x);
      assert changed[..n] == rows[..n][r := rows[..n][r][k := x]];
    } else {
      assert changed[..n] == rows[..n];
    }
  }

  /** A slice of a slice is a slice of the whole. */
  lemma SliceOfSlice<T>(block: seq<T>, at: nat, len: nat, from: nat, size: nat)
    requires at + len <= |block| && from + size <= len
    ensures block[at..at + len][from..from + size] == block[at + from..at + from + size]
  {
    var a, y := block[at..at + len], block[at + from..at + from + size];
    forall k | 0 <= k < size
      ensures a[from..from + size][k] == y[k]
    {
      assert a[from..from + size][k] == a[from + k] == block[at + (from + k)];
    }
  }
}
