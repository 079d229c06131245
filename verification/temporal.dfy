/** The backward as-of join (`pd.merge_asof(..., direction='backward')`): for
    a query second `t`, the last row whose timestamp is at most `t`. Both the
    slippage analysis and the 1-second forward-fill grid are built on it. */
module Temporal {
  import opened Common

  /** Index of the last row with timestamp <= t, or None when every row is later.
      Never selects a row stamped after the query time. */
  function AsOf<T>(rows: seq<Stamped<T>>, t: int): (r: Option<nat>)
    ensures r.Some? ==> r.value < |rows| && rows[r.value].ts <= t
    ensures r.Some? ==> forall j :: r.value < j < |rows| ==> rows[j].ts > t
    ensures r.None? ==> forall j :: 0 <= j < |rows| ==> rows[j].ts > t
    decreases |rows|
  {
    if |rows| == 0 then None
    else if rows[|rows| - 1].ts <= t then Some(|rows| - 1)
    else AsOf(rows[..|rows| - 1], t)
  }

  /** On timestamp-ordered rows the chosen row carries the greatest timestamp
      not after `t`, and there is none exactly when the first row is later. */
  lemma AsOfLatest<T>(rows: seq<Stamped<T>>, t: int)
    requires SortedByTs(rows)
    ensures AsOf(rows, t).Some? ==>
              forall j :: 0 <= j < |rows| && rows[j].ts <= t ==> rows[j].ts <= rows[AsOf(rows, t).value].ts
    ensures AsOf(rows, t).None? <==> |rows| == 0 || rows[0].ts > t
  {
  }

  /** Moving the query later never loses the match and never moves it back:
      whenever the join at `t` finds a row, the join at `t + h` (h >= 0) finds
      one at the same or a later position, still not after `t + h`. */
  lemma AsOfMonotone<T>(rows: seq<Stamped<T>>, t: int, u: int)
    requires t <= u
    requires AsOf(rows, t).Some?
    ensures AsOf(rows, u).Some?
    ensures AsOf(rows, t).value <= AsOf(rows, u).value
    ensures rows[AsOf(rows, u).value].ts <= u
    ensures SortedByTs(rows) ==> rows[AsOf(rows, t).value].ts <= rows[AsOf(rows, u).value].ts
  {
  }

  /** With distinct, increasing timestamps, the join at a row's own timestamp
      returns that row. */
  lemma AsOfAtRow<T>(rows: seq<Stamped<T>>, i: nat)
    requires StrictlySortedByTs(rows) && i < |rows|
    ensures AsOf(rows, rows[i].ts) == Some(i)
  {
    var r := AsOf(rows, rows[i].ts);
    assert r.Some?;
  }

  /** Binary search over timestamp-ordered rows; agrees with `AsOf`. */
  method AsOfSearch<T>(rows: seq<Stamped<T>>, t: int) returns (r: Option<nat>)
    requires SortedByTs(rows)
    ensures r == AsOf(rows, t)
  {
    var lo, hi := 0, |rows|;
    while lo < hi
      invariant 0 <= lo <= hi <= |rows|
      invariant forall j :: 0 <= j < lo ==> rows[j].ts <= t
      invariant forall j :: hi <= j < |rows| ==> rows[j].ts > t
      decreases hi - lo
    {
      var mid := (lo + hi) / 2;
      if rows[mid].ts <= t {
        lo := mid + 1;
      } else {
        hi := mid;
      }
    }
    var expected := AsOf(rows, t);
    assert expected.Some? ==> expected.value < lo;
    if lo == 0 {
      r := None;
    } else {
      assert rows[lo - 1].ts <= t;
      r := Some(lo - 1);
    }
  }
}
