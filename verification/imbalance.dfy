/** Top-of-book imbalance and its predictive value: each stored snapshot is
    reduced to its best YES bid and best implied YES ask with their sizes;
    two-sided rows give a mid and an imbalance ratio; duplicate seconds keep
    the last row; the series is forward-filled onto every integer second and
    forward returns are read off that grid by a fixed index shift. */
module Imbalance {
  import opened Common
  import opened Temporal
  import opened Slippage

  /** The best level of each side: the YES level with the highest price, and
      the implied YES ask (100 minus the highest NO price, with that NO
      level's size). A side with no levels has neither price nor size. */
  datatype TopOfBook = TopOfBook(bid: Option<PriceLevel>, ask: Option<PriceLevel>)

  /** `parse_snapshot`: a snapshot that does not decode leaves all four fields
      undefined. */
  function ParseSnapshot(p: Payload<Snapshot>): (r: TopOfBook)
    ensures r.bid.Some? <==> p.Decoded? && |p.data.yes| > 0
    ensures r.ask.Some? <==> p.Decoded? && |p.data.no| > 0
    ensures r.bid.Some? ==>
              && r.bid.value == p.data.yes[TopIndex(p.data.yes)]
              && (forall i :: 0 <= i < |p.data.yes| ==> p.data.yes[i].price <= r.bid.value.price)
    ensures r.ask.Some? ==>
              && PriceLevel(Par - r.ask.value.price, r.ask.value.size) == p.data.no[TopIndex(p.data.no)]
              && (forall i :: 0 <= i < |p.data.no| ==> p.data.no[i].price <= Par - r.ask.value.price)
  {
    match p
    case Malformed => TopOfBook(None, None)
    case Decoded(snap) =>
      var bid := if |snap.yes| == 0 then None else Some(snap.yes[TopIndex(snap.yes)]);
      var ask := if |snap.no| == 0 then None
                 else var best := snap.no[TopIndex(snap.no)]; Some(PriceLevel(Par - best.price, best.size));
      TopOfBook(bid, ask)
  }

  /** On two-sided books the top-of-book prices are the best prices used by
      the slippage analysis, and so give the same mid. */
  lemma TopAgreesWithBestPrices(p: Payload<Snapshot>)
    requires p.Decoded? && |p.data.yes| > 0 && |p.data.no| > 0
    ensures ParseSnapshot(p).bid.value.price == BestPrices(p).value.bid
    ensures ParseSnapshot(p).ask.value.price == BestPrices(p).value.ask
  {
  }

  /** `(bidSize - askSize) / (bidSize + askSize)`; undefined when the sizes
      sum to zero. */
  function ImbalanceRatio(bidSize: int, askSize: int): (r: Option<real>)
    ensures r.None? <==> bidSize + askSize == 0
    ensures r.Some? ==> r.value * (bidSize + askSize) as real == (bidSize - askSize) as real
  {
    if bidSize + askSize == 0 then None
    else Some((bidSize - askSize) as real / (bidSize + askSize) as real)
  }

  /** With non-negative sizes and some size on the book the ratio lies in
      [-1, 1], is +1 exactly when the ask side is empty of size, -1 exactly
      when the bid side is, and has the sign of `bidSize - askSize`. */
  lemma ImbalanceBounded(bidSize: int, askSize: int)
    requires bidSize >= 0 && askSize >= 0 && bidSize + askSize > 0
    ensures -1.0 <= ImbalanceRatio(bidSize, askSize).value <= 1.0
    ensures ImbalanceRatio(bidSize, askSize).value == 1.0 <==> askSize == 0
    ensures ImbalanceRatio(bidSize, askSize).value == -1.0 <==> bidSize == 0
    ensures ImbalanceRatio(bidSize, askSize).value > 0.0 <==> bidSize > askSize
    ensures ImbalanceRatio(bidSize, askSize).value < 0.0 <==> bidSize < askSize
  {
    var r := ImbalanceRatio(bidSize, askSize).value;
    var total := (bidSize + askSize) as real;
    assert r * total == (bidSize - askSize) as real;
    RatioBounds(r, total, (bidSize - askSize) as real, bidSize as real, askSize as real);
  }

  lemma RatioBounds(r: real, total: real, diff: real, b: real, a: real)
    requires b >= 0.0 && a >= 0.0 && total == b + a && total > 0.0 && r * total == diff && diff == b - a
    ensures -1.0 <= r <= 1.0
    ensures r == 1.0 <==> a == 0.0
    ensures r == -1.0 <==> b == 0.0
    ensures r > 0.0 <==> b > a
    ensures r < 0.0 <==> b < a
  {
    assert (r - 1.0) * total == -2.0 * a;
    assert (r + 1.0) * total == 2.0 * b;
    SignOfProduct(r - 1.0, total);
    SignOfProduct(r + 1.0, total);
    SignOfProduct(r, total);
  }

  /** The sign of a product with a positive factor is the sign of the other factor. */
  lemma SignOfProduct(x: real, w: real)
    requires w > 0.0
    ensures x * w > 0.0 <==> x > 0.0
    ensures x * w < 0.0 <==> x < 0.0
    ensures x * w == 0.0 <==> x == 0.0
  {
    if x > 0.0 {
      MulMonotone(0.0, x, w);
      assert x * w != 0.0;
    } else if x < 0.0 {
      MulMonotone(x, 0.0, w);
      assert x * w != 0.0;
    }
  }

  /** The two columns kept per row: the mid and the (possibly undefined) imbalance. */
  datatype Metric = Metric(mid: real, imbalance: Option<real>)

  /** A row's metrics, when both top-of-book prices are defined (the other
      rows are dropped); the imbalance is undefined when the top sizes cancel. */
  function SnapshotMetric(p: Payload<Snapshot>): (m: Option<Metric>)
    ensures m.Some? <==> p.Decoded? && |p.data.yes| > 0 && |p.data.no| > 0
    ensures m.Some? ==>
              && m.value.mid == Mid(BestPrices(p).value)
              && m.value.imbalance == ImbalanceRatio(ParseSnapshot(p).bid.value.size, ParseSnapshot(p).ask.value.size)
  {
    var top := ParseSnapshot(p);
    if top.bid.Some? && top.ask.Some? then
      Some(Metric((top.bid.value.price + top.ask.value.price) as real / 2.0,
                  ImbalanceRatio(top.bid.value.size, top.ask.value.size)))
    else None
  }

  /** The snapshot decodes and both of its sides list a level. */
  predicate TwoSided(p: Payload<Snapshot>) {
    p.Decoded? && |p.data.yes| > 0 && |p.data.no| > 0
  }

  /** `calculate_metrics`: a row survives exactly when its snapshot decodes and
      both sides have a level; the survivors keep their order and timestamps
      and carry their snapshot's mid and imbalance. */
  function CalculateMetrics(snaps: seq<Stamped<Payload<Snapshot>>>): (r: seq<Stamped<Metric>>)
    ensures |r| == |KeptIndices(snaps, SnapshotMetric)|
    ensures forall i :: 0 <= i < |snaps| ==> (TwoSided(snaps[i].val) <==> i in KeptIndices(snaps, SnapshotMetric))
    ensures forall k :: 0 <= k < |r| ==>
              && KeptIndices(snaps, SnapshotMetric)[k] < |snaps|
              && r[k].ts == snaps[KeptIndices(snaps, SnapshotMetric)[k]].ts
              && SnapshotMetric(snaps[KeptIndices(snaps, SnapshotMetric)[k]].val) == Some(r[k].val)
    ensures SortedByTs(snaps) ==> SortedByTs(r)
  {
    KeptAreTwoSided(snaps);
    if SortedByTs(snaps) then
      FilterMapSorted(snaps, SnapshotMetric);
      FilterMap(snaps, SnapshotMetric)
    else FilterMap(snaps, SnapshotMetric)
  }

  lemma KeptAreTwoSided(snaps: seq<Stamped<Payload<Snapshot>>>)
    ensures forall i :: 0 <= i < |snaps| ==> (TwoSided(snaps[i].val) <==> i in KeptIndices(snaps, SnapshotMetric))
  {
    var ix := KeptIndices(snaps, SnapshotMetric);
    forall i | 0 <= i < |snaps| && i in ix ensures TwoSided(snaps[i].val) {
      var k :| 0 <= k < |ix| && ix[k] == i;
      assert SnapshotMetric(snaps[ix[k]].val).Some?;
    }
  }

  // ------------------------------------------------------------- duplicates

  /** `df[~df.index.duplicated(keep='last')]` on time-ordered rows: of each run
      of equal timestamps only the last row stays. */
  function DedupLast<T>(rows: seq<Stamped<T>>): (r: seq<Stamped<T>>)
    ensures |r| <= |rows|
    ensures |rows| > 0 ==> |r| > 0 && r[|r| - 1] == rows[|rows| - 1]
    ensures SortedByTs(rows) ==> StrictlySortedByTs(r)
    ensures SortedByTs(rows) && |rows| > 0 ==> r[0].ts == rows[0].ts
    decreases |rows|
  {
    if |rows| == 0 then []
    else
      var n := |rows| - 1;
      var rest := DedupLast(rows[..n]);
      assert SortedByTs(rows) ==> SortedByTs(rows[..n]);
      if |rest| > 0 && rest[|rest| - 1].ts == rows[n].ts then
        DedupReplace(rows, rest);
        rest[..|rest| - 1] + [rows[n]]
      else
        rest + [rows[n]]
  }

  lemma DedupReplace<T>(rows: seq<Stamped<T>>, rest: seq<Stamped<T>>)
    requires |rows| > 0 && |rest| > 0 && rest[|rest| - 1].ts == rows[|rows| - 1].ts
    requires SortedByTs(rows[..|rows| - 1]) ==> StrictlySortedByTs(rest)
    ensures SortedByTs(rows) ==> StrictlySortedByTs(rest[..|rest| - 1] + [rows[|rows| - 1]])
    ensures |rest[..|rest| - 1] + [rows[|rows| - 1]]| == |rest|
  {
    var n := |rows| - 1;
    var r := rest[..|rest| - 1] + [rows[n]];
    if SortedByTs(rows) {
      assert SortedByTs(rows[..n]);
      forall k, l | 0 <= k < l < |r| ensures r[k].ts < r[l].ts {
        if l == |r| - 1 {
          assert r[k] == rest[k];
          assert rest[k].ts < rest[|rest| - 1].ts;
        } else {
          assert r[k] == rest[k] && r[l] == rest[l];
        }
      }
    }
  }

  /** Removing duplicates does not change what the as-of join reads: at every
      second the deduplicated rows yield the same row as the original ones.
      In particular every timestamp survives, carrying its last row. */
  lemma {:induction false} DedupPreservesAsOf<T>(rows: seq<Stamped<T>>, t: int)
    ensures AsOf(DedupLast(rows), t).None? <==> AsOf(rows, t).None?
    ensures AsOf(rows, t).Some? ==> DedupLast(rows)[AsOf(DedupLast(rows), t).value] == rows[AsOf(rows, t).value]
    decreases |rows|
  {
    if |rows| > 0 && rows[|rows| - 1].ts > t {
      DedupPreservesAsOf(rows[..|rows| - 1], t);
      DedupSkipsLater(rows, t);
    } else if |rows| > 0 {
      DedupKeepsLatest(rows, t);
    }
  }

  /** A last row at or before `t` is what the join at `t` reads, before and
      after deduplication. */
  lemma DedupKeepsLatest<T>(rows: seq<Stamped<T>>, t: int)
    requires |rows| > 0 && rows[|rows| - 1].ts <= t
    ensures AsOf(rows, t) == Some(|rows| - 1)
    ensures AsOf(DedupLast(rows), t) == Some(|DedupLast(rows)| - 1)
    ensures DedupLast(rows)[|DedupLast(rows)| - 1] == rows[|rows| - 1]
  {
  }

  /** A last row stamped after `t` (and the earlier row it may replace) is
      invisible to the join at `t` on the deduplicated rows. */
  lemma DedupSkipsLater<T>(rows: seq<Stamped<T>>, t: int)
    requires |rows| > 0 && rows[|rows| - 1].ts > t
    ensures AsOf(DedupLast(rows), t) == AsOf(DedupLast(rows[..|rows| - 1]), t)
    ensures AsOf(DedupLast(rows), t).Some? ==>
              DedupLast(rows)[AsOf(DedupLast(rows), t).value] == DedupLast(rows[..|rows| - 1])[AsOf(DedupLast(rows), t).value]
  {
    var n := |rows| - 1;
    var rest := DedupLast(rows[..n]);
    var kept := if |rest| > 0 && rest[|rest| - 1].ts == rows[n].ts then rest[..|rest| - 1] else rest;
    assert DedupLast(rows) == kept + [rows[n]];
    AsOfSkipsLater(kept, rows[n], t);
    if kept != rest {
      assert rest == kept + [rest[|rest| - 1]];
      AsOfSkipsLater(kept, rest[|rest| - 1], t);
    }
  }

  /** A row stamped after `t` appended at the end is invisible to the join at `t`. */
  lemma AsOfSkipsLater<T>(rows: seq<Stamped<T>>, x: Stamped<T>, t: int)
    requires x.ts > t
    ensures AsOf(rows + [x], t) == AsOf(rows, t)
  {
    assert (rows + [x])[..|rows|] == rows;
  }

  // -------------------------------------------------------- 1-second grid

  /** The forward-filled grid: one row per integer second from the first to
      the last timestamp, holding the last row at or before that second. */
  function Grid<T>(rows: seq<Stamped<T>>): (g: seq<Stamped<T>>)
    requires SortedByTs(rows)
    ensures |rows| == 0 ==> g == []
    ensures |rows| > 0 ==> |g| == rows[|rows| - 1].ts - rows[0].ts + 1
    ensures forall k :: 0 <= k < |g| ==> g[k].ts == rows[0].ts + k
    ensures forall k :: 0 <= k < |g| ==> AsOf(rows, g[k].ts).Some? && g[k].val == rows[AsOf(rows, g[k].ts).value].val
  {
    if |rows| == 0 then []
    else
      var first := rows[0].ts;
      var n := rows[|rows| - 1].ts - first + 1;
      seq(n, k requires 0 <= k < n => Stamped(first + k, rows[AsOf(rows, first + k).value].val))
  }

  /** A grid second never takes a later row, and every row whose second is
      not repeated appears on the grid at its own second. */
  lemma GridKeepsRows<T>(rows: seq<Stamped<T>>, i: nat)
    requires StrictlySortedByTs(rows) && i < |rows|
    ensures 0 <= rows[i].ts - rows[0].ts < |Grid(rows)|
    ensures Grid(rows)[rows[i].ts - rows[0].ts] == rows[i]
  {
    var k := rows[i].ts - rows[0].ts;
    AsOfAtRow(rows, i);
    assert rows[0].ts <= rows[i].ts <= rows[|rows| - 1].ts;
    assert Grid(rows)[k].ts == rows[i].ts;
  }

  /** On time-ordered rows, row `j` is the join's answer at `t` when it is not
      later than `t` and the next row is. */
  lemma AsOfAtBoundary<T>(rows: seq<Stamped<T>>, t: int, j: nat)
    requires SortedByTs(rows) && j < |rows| && rows[j].ts <= t
    requires j + 1 == |rows| || rows[j + 1].ts > t
    ensures AsOf(rows, t) == Some(j)
  {
  }

  /** Grid position `m` holds the row the join reads at second `first + m`. */
  ghost predicate FilledAt<T>(rows: seq<Stamped<T>>, first: int, g: seq<Stamped<T>>, m: nat) {
    m < |g| && AsOf(rows, first + m).Some? && g[m] == Stamped(first + m, rows[AsOf(rows, first + m).value].val)
  }

  /** `resample('1s').ffill()` as one pass over the rows: a cursor advances to
      the last row at or before each grid second. */
  method Resample<T>(rows: seq<Stamped<T>>) returns (g: seq<Stamped<T>>)
    requires SortedByTs(rows)
    ensures g == Grid(rows)
  {
    if |rows| == 0 {
      return [];
    }
    var first := rows[0].ts;
    var n := rows[|rows| - 1].ts - first + 1;
    g := [];
    var j := 0;
    var k := 0;
    while k < n
      invariant 0 <= k <= n && |g| == k
      invariant 0 <= j < |rows| && rows[j].ts <= first + k
      invariant forall m :: 0 <= m < k ==> FilledAt(rows, first, g, m)
      decreases n - k
    {
      var t := first + k;
      while j + 1 < |rows| && rows[j + 1].ts <= t
        invariant 0 <= j < |rows| && rows[j].ts <= t
        decreases |rows| - j
      {
        j := j + 1;
      }
      AsOfAtBoundary(rows, t, j);
      ghost var before := g;
      g := g + [Stamped(t, rows[j].val)];
      assert forall m :: 0 <= m < k ==> FilledAt(rows, first, before, m) && g[m] == before[m];
      assert FilledAt(rows, first, g, k);
      k := k + 1;
    }
    FilledIsGrid(rows, g);
  }

  lemma FilledIsGrid<T>(rows: seq<Stamped<T>>, g: seq<Stamped<T>>)
    requires SortedByTs(rows) && |rows| > 0
    requires |g| == rows[|rows| - 1].ts - rows[0].ts + 1
    requires forall m :: 0 <= m < |g| ==> FilledAt(rows, rows[0].ts, g, m)
    ensures g == Grid(rows)
  {
    var grid := Grid(rows);
    forall m | 0 <= m < |g| ensures g[m] == grid[m] {
      assert FilledAt(rows, rows[0].ts, g, m);
    }
  }

  // ---------------------------------------------------------------- returns

  /** Forward-return horizons, in grid steps (seconds). */
  const ReturnHorizons: seq<nat> := [1, 5, 30, 60, 120, 300]

  /** `mid.shift(-h) - mid` at grid position `i`: undefined for the last `h`
      positions. */
  function ForwardReturn(grid: seq<Stamped<Metric>>, i: nat, h: nat): (r: Option<real>)
    requires i < |grid|
    ensures r.None? <==> i + h >= |grid|
    ensures r.Some? ==> grid[i].val.mid + r.value == grid[i + h].val.mid
  {
    if i + h < |grid| then Some(grid[i + h].val.mid - grid[i].val.mid) else None
  }

  /** Returns chain: the move over `h1 + h2` steps is the move over `h1` then
      the move over `h2`, whenever the longer one is defined. */
  lemma ReturnsCompose(grid: seq<Stamped<Metric>>, i: nat, h1: nat, h2: nat)
    requires i < |grid| && ForwardReturn(grid, i, h1 + h2).Some?
    ensures ForwardReturn(grid, i, h1).Some? && ForwardReturn(grid, i + h1, h2).Some?
    ensures ForwardReturn(grid, i, h1 + h2).value
              == ForwardReturn(grid, i, h1).value + ForwardReturn(grid, i + h1, h2).value
  {
  }

  /** On the grid, the return over `h` seconds from second `t` is the move of
      the as-of mid from `t` to `t + h`: it never looks past `t + h`. */
  lemma GridReturnIsAsOfMove(rows: seq<Stamped<Metric>>, i: nat, h: nat)
    requires SortedByTs(rows) && i < |Grid(rows)| && ForwardReturn(Grid(rows), i, h).Some?
    ensures var t := rows[0].ts + i;
            && AsOf(rows, t).Some? && AsOf(rows, t + h).Some?
            && rows[AsOf(rows, t + h).value].ts <= t + h
            && ForwardReturn(Grid(rows), i, h).value
                 == rows[AsOf(rows, t + h).value].val.mid - rows[AsOf(rows, t).value].val.mid
  {
    var g := Grid(rows);
    assert g[i + h].ts == rows[0].ts + i + h;
  }

  /** The `ret_{h}s` columns at grid position `i`, one per horizon. A return is
      defined exactly when its horizon stays on the grid, so the defined ones
      are always the shorter horizons. */
  function ReturnsAt(grid: seq<Stamped<Metric>>, i: nat): (r: seq<Option<real>>)
    requires i < |grid|
    ensures |r| == |ReturnHorizons|
    ensures forall k :: 0 <= k < |r| ==> (r[k].None? <==> i + ReturnHorizons[k] >= |grid|)
    ensures forall k :: 0 <= k < |r| && r[k].Some? ==>
              grid[i].val.mid + r[k].value == grid[i + ReturnHorizons[k]].val.mid
    ensures forall k, l :: 0 <= k < l < |r| && r[l].Some? ==> r[k].Some?
  {
    seq(|ReturnHorizons|, k requires 0 <= k < |ReturnHorizons| => ForwardReturn(grid, i, ReturnHorizons[k]))
  }
}
