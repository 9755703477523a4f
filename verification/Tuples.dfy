/** Tuples as the packer handles them, one byte string each: what they parse to, alone and in a row. */
module Tuples {
  import opened Machine
  import opened Lineitem
  import H = HeapPage
  import L = Layout

  /** The bytes are exactly one readable tuple. */
  predicate ItemOk(d: seq<byte>) {
    RowOk(d) && TupleLen(d) == |d|
  }

  predicate ItemsOk(items: seq<seq<byte>>) {
    forall i :: 0 <= i < |items| ==> ItemOk(items[i])
  }

  // ----- parsing looks no further than the tuple -----

  lemma FieldLocal(d: seq<byte>, rest: seq<byte>, i: nat, off: nat)
    requires i < ATTRS && FieldOk(d, i, off)
    ensures FieldOk(d + rest, i, off) && FieldEnd(d + rest, i, off) == FieldEnd(d, i, off)
    ensures (d + rest)[FieldStart(i, off)..FieldEnd(d, i, off)] == d[FieldStart(i, off)..FieldEnd(d, i, off)]
  {
  }

  lemma {:induction false} OffLocal(d: seq<byte>, rest: seq<byte>, i: nat)
    requires i <= ATTRS && FieldsOk(d, i)
    ensures FieldsOk(d + rest, i) && Off(d + rest, i) == Off(d, i) && Payloads(d + rest, i) == Payloads(d, i)
  {
    if i > 0 {
      OffLocal(d, rest, i - 1);
      FieldLocal(d, rest, i - 1, Off(d, i - 1));
    }
  }

  lemma RowLocal(d: seq<byte>, rest: seq<byte>)
    requires ItemOk(d)
    ensures RowOk(d + rest) && RowAt(d + rest) == RowAt(d) && AfterTuple(d + rest) == rest
  {
    OffLocal(d, rest, ATTRS);
    RowReadable(d);
    NumericsFromReadable(d + rest, ATTRS);
  }

  function RowsOf(items: seq<seq<byte>>): (rows: seq<RawRow>)
    ensures |rows| == |items|
  {
    if items == [] then [] else [RowAt(items[0])] + RowsOf(items[1..])
  }

  /** Tuples one after the other parse to their rows, whatever follows them. */
  lemma {:induction false} ParseItems(items: seq<seq<byte>>, rest: seq<byte>)
    requires ItemsOk(items)
    ensures RowsOk(H.Concat(items) + rest, |items|) && Rows(H.Concat(items) + rest, |items|) == RowsOf(items)
    decreases |items|
  {
    hide ItemOk, RowOk, RowAt, AfterTuple;
    if items != [] {
      var d, tail := items[0], H.Concat(items[1..]) + rest;
      ParseItems(items[1..], rest);
      assert H.Concat(items) + rest == d + tail;
      RowLocal(d, tail);
    }
  }

  // ----- sums -----

  /** What a sequence of stored tuples adds to the query result. */
  function SumItems(items: seq<seq<byte>>): int {
    SumRows(RowsOf(items))
  }

  lemma {:induction false} RowsOfAppend(a: seq<seq<byte>>, b: seq<seq<byte>>)
    ensures RowsOf(a + b) == RowsOf(a) + RowsOf(b)
  {
    hide RowAt;
    if a == [] {
      assert a + b == b;
    } else {
      RowsOfAppend(a[1..], b);
      assert (a + b)[1..] == a[1..] + b;
    }
  }

  lemma SumNone()
    ensures SumItems([]) == 0
  {
  }

  lemma SumItemsAppend(a: seq<seq<byte>>, b: seq<seq<byte>>)
    ensures SumItems(a + b) == SumItems(a) + SumItems(b)
  {
    RowsOfAppend(a, b);
    SumAppend(RowsOf(a), RowsOf(b));
  }

  // ----- stored tuples of known values -----

  /** Each item is the stored form of the tuple at its place. */
  ghost predicate Stored(items: seq<seq<byte>>, ts: seq<L.Tuple>) {
    |items| == |ts| && L.AllWellFormed(ts) && forall i :: 0 <= i < |ts| ==>
      L.WellFormedTuple(ts[i]) && items[i] == L.Encode(ts[i])
  }

  lemma StoredOk(t: L.Tuple)
    requires L.WellFormedTuple(t)
    ensures ItemOk(L.Encode(t)) && Contribution(RowAt(L.Encode(t))) == L.Revenue(t)
  {
    L.ContributionIsRevenue(t, []);
    assert L.Encode(t) + [] == L.Encode(t);
  }

  /** Stored tuples are readable, and their sum is the query's revenue in exact arithmetic. */
  lemma {:induction false} SumIsRevenue(items: seq<seq<byte>>, ts: seq<L.Tuple>)
    requires Stored(items, ts)
    ensures ItemsOk(items) && SumItems(items) == L.TotalRevenue(ts)
    decreases |items|
  {
    hide ItemOk, RowAt, Contribution, L.Revenue, L.Encode, L.WellFormedTuple;
    if items != [] {
      var n := |items| - 1;
      SumIsRevenue(items[..n], ts[..n]);
      StoredOk(ts[n]);
      assert items == items[..n] + [items[n]];
      RowsOfAppend(items[..n], [items[n]]);
      assert RowsOf(items)[..n] == RowsOf(items[..n]);
      forall i | 0 <= i < |items|
        ensures ItemOk(items[i])
      {
        if i < n {
          assert items[i] == items[..n][i];
        }
      }
    }
  }
}
