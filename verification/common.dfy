/** Shared vocabulary of the order-book collector and its offline analyses:
    optional values (Python's None / pandas NaN), decoded-or-malformed JSON
    payloads, price levels, timestamped rows, and sums over sequences. */
module Common {

  /** A value that may be missing: Python's None, a missing dict key, or a NaN cell. */
  datatype Option<T> = None | Some(value: T) {
    function GetOr(default: T): T {
      match this
      case Some(v) => v
      case None => default
    }
  }

  /** A JSON column read back from the store: either it decoded into the expected
      shape, or `json.loads` / field access raised and the caller's `except` ran. */
  datatype Payload<T> = Decoded(data: T) | Malformed

  /** One `[price, size]` pair of a book side; prices are integer cents. */
  datatype PriceLevel = PriceLevel(price: int, size: int)

  /** The two arrays of a book snapshot as stored in `snapshot_data`. A key
      missing from the JSON object reads as the empty list. */
  datatype Snapshot = Snapshot(yes: seq<PriceLevel>, no: seq<PriceLevel>)

  /** The fields of a trade's `trade_data` the analyses read: the YES execution
      price in cents, the contract count and the taker side; each may be missing. */
  datatype TradeData = TradeData(yesPrice: Option<int>, count: Option<int>, takerSide: Option<string>)

  /** A row carrying an integer epoch-second timestamp. */
  datatype Stamped<T> = Stamped(ts: int, val: T)

  /** Timestamps never decrease along the sequence (an `ORDER BY timestamp` result). */
  predicate SortedByTs<T>(rows: seq<Stamped<T>>) {
    forall i, j :: 0 <= i < j < |rows| ==> rows[i].ts <= rows[j].ts
  }

  /** Timestamps strictly increase along the sequence (no duplicate index entries). */
  predicate StrictlySortedByTs<T>(rows: seq<Stamped<T>>) {
    forall i, j :: 0 <= i < j < |rows| ==> rows[i].ts < rows[j].ts
  }

  function Sum(xs: seq<int>): int {
    if |xs| == 0 then 0 else Sum(xs[..|xs| - 1]) + xs[|xs| - 1]
  }

  function SumReal(xs: seq<real>): real {
    if |xs| == 0 then 0.0 else SumReal(xs[..|xs| - 1]) + xs[|xs| - 1]
  }

  lemma {:induction false} SumAppend(xs: seq<int>, ys: seq<int>)
    ensures Sum(xs + ys) == Sum(xs) + Sum(ys)
    decreases |ys|
  {
    if |ys| == 0 {
      assert xs + ys == xs;
    } else {
      var ys' := ys[..|ys| - 1];
      assert (xs + ys)[..|xs + ys| - 1] == xs + ys';
      SumAppend(xs, ys');
    }
  }

  /** A sum does not depend on the order of its terms. */
  lemma {:induction false} SumPermutation(xs: seq<int>, ys: seq<int>)
    requires multiset(xs) == multiset(ys)
    ensures Sum(xs) == Sum(ys)
    decreases |xs|
  {
    if |xs| == 0 {
      assert |ys| == |multiset(ys)| == 0;
    } else {
      var last := xs[|xs| - 1];
      var xs' := xs[..|xs| - 1];
      assert xs == xs' + [last];
      assert last in multiset(ys);
      var i :| 0 <= i < |ys| && ys[i] == last;
      var ys' := ys[..i] + ys[i + 1..];
      assert ys == ys[..i] + [last] + ys[i + 1..];
      assert multiset(ys) == multiset(ys[..i]) + multiset{last} + multiset(ys[i + 1..]);
      assert multiset(xs') == multiset(xs) - multiset{last};
      assert multiset(ys') == multiset(ys) - multiset{last};
      SumPermutation(xs', ys');
      SumAppend(xs', [last]);
      SumAppend(ys[..i] + [last], ys[i + 1..]);
      SumAppend(ys[..i], [last]);
      SumAppend(ys[..i], ys[i + 1..]);
    }
  }

  /** Position of the first level with the highest price (Python's
      `max(levels, key=price)` keeps the first of equal maxima). */
  function TopIndex(levels: seq<PriceLevel>): (i: nat)
    requires |levels| > 0
    ensures i < |levels|
    ensures forall j :: 0 <= j < |levels| ==> levels[j].price <= levels[i].price
    ensures forall j :: 0 <= j < i ==> levels[j].price < levels[i].price
    decreases |levels|
  {
    if |levels| == 1 then 0
    else
      var n := |levels| - 1;
      var k := TopIndex(levels[..n]);
      assert levels[..n][k] == levels[k];
      assert forall j :: 0 <= j < n ==> levels[..n][j] == levels[j];
      if levels[n].price > levels[k].price then n else k
  }

  /** The positions of the rows `f` accepts, in increasing order. */
  function KeptIndices<A, B>(rows: seq<Stamped<A>>, f: A -> Option<B>): (ix: seq<nat>)
    ensures |ix| <= |rows|
    ensures forall k :: 0 <= k < |ix| ==> ix[k] < |rows| && f(rows[ix[k]].val).Some?
    ensures forall k, l :: 0 <= k < l < |ix| ==> ix[k] < ix[l]
    ensures forall i :: 0 <= i < |rows| && f(rows[i].val).Some? ==> i in ix
    decreases |rows|
  {
    if |rows| == 0 then []
    else
      var n := |rows| - 1;
      var rest := KeptIndices(rows[..n], f);
      assert forall k :: 0 <= k < |rest| ==> rows[..n][rest[k]] == rows[rest[k]];
      assert forall i :: 0 <= i < n ==> rows[..n][i] == rows[i];
      if f(rows[n].val).Some? then rest + [n] else rest
  }

  /** Row `i` of `rows` is the source of output row `x`: same timestamp, and
      `f` extracts `x`'s value from it. */
  predicate Kept<A, B(==)>(rows: seq<Stamped<A>>, f: A -> Option<B>, i: nat, x: Stamped<B>)
    requires i < |rows|
  {
    rows[i].ts == x.ts && f(rows[i].val) == Some(x.val)
  }

  /** Keeps the rows `f` maps to a value, replacing each by that value and
      keeping its timestamp, in the original order (a `dropna` after a
      per-row parse): output row `k` comes from the `k`-th accepted row. */
  function FilterMap<A, B(==)>(rows: seq<Stamped<A>>, f: A -> Option<B>): (r: seq<Stamped<B>>)
    ensures |r| == |KeptIndices(rows, f)|
    ensures forall k :: 0 <= k < |r| ==> Kept(rows, f, KeptIndices(rows, f)[k], r[k])
    decreases |rows|
  {
    if |rows| == 0 then []
    else
      var n := |rows| - 1;
      var rest := FilterMap(rows[..n], f);
      assert forall k :: 0 <= k < |rest| ==> rows[..n][KeptIndices(rows[..n], f)[k]] == rows[KeptIndices(rows[..n], f)[k]];
      if f(rows[n].val).Some? then rest + [Stamped(rows[n].ts, f(rows[n].val).value)] else rest
  }

  /** Filtering keeps timestamp order. */
  lemma FilterMapSorted<A, B>(rows: seq<Stamped<A>>, f: A -> Option<B>)
    requires SortedByTs(rows)
    ensures SortedByTs(FilterMap(rows, f))
  {
    var r, ix := FilterMap(rows, f), KeptIndices(rows, f);
    forall k, l | 0 <= k < l < |r| ensures r[k].ts <= r[l].ts {
      assert Kept(rows, f, ix[k], r[k]) && Kept(rows, f, ix[l], r[l]);
    }
  }
}
