/** Execution slippage and post-trade markouts: best prices from stored
    snapshots, the as-of join of trades to the prevailing mid, side inference,
    per-trade slippage and markouts at fixed horizons, and the plain,
    count-weighted and hourly aggregates that feed the charts. Prices are
    integer cents; mids and averages are exact rationals (`real`). */
module Slippage {
  import opened Common
  import opened Temporal

  /** Seconds after the trade at which the mid is re-sampled. */
  const MarkoutHorizons: seq<int> := [1, 10, 30, 60, 300]

  /** Hours with fewer trades than this are left off the hourly curves. */
  const MinTradesPerHour := 5

  const SecondsPerHour := 3600

  /** Settlement value of a YES contract in cents: a NO bid at p is a YES ask at 100 - p. */
  const Par := 100

  datatype Quote = Quote(bid: int, ask: int)

  /** Best bid is the highest YES price (0 for an empty side); best ask is
      100 minus the highest NO price (100 for an empty side). A snapshot that
      does not decode has no quote. */
  function BestPrices(p: Payload<Snapshot>): (q: Option<Quote>)
    ensures q.Some? <==> p.Decoded?
    ensures p.Decoded? && |p.data.yes| == 0 ==> q.value.bid == 0
    ensures p.Decoded? && |p.data.yes| > 0 ==>
              && q.value.bid == p.data.yes[TopIndex(p.data.yes)].price
              && (forall i :: 0 <= i < |p.data.yes| ==> p.data.yes[i].price <= q.value.bid)
    ensures p.Decoded? && |p.data.no| == 0 ==> q.value.ask == Par
    ensures p.Decoded? && |p.data.no| > 0 ==>
              && Par - q.value.ask == p.data.no[TopIndex(p.data.no)].price
              && (forall i :: 0 <= i < |p.data.no| ==> p.data.no[i].price <= Par - q.value.ask)
  {
    match p
    case Malformed => None
    case Decoded(snap) =>
      var bid := if |snap.yes| == 0 then 0 else snap.yes[TopIndex(snap.yes)].price;
      var ask := if |snap.no| == 0 then Par else Par - snap.no[TopIndex(snap.no)].price;
      Some(Quote(bid, ask))
  }

  function Mid(q: Quote): real {
    (q.bid + q.ask) as real / 2.0
  }

  lemma BestPricesExample()
    ensures var q := BestPrices(Decoded(Snapshot([PriceLevel(40, 5), PriceLevel(45, 3)],
                                                 [PriceLevel(50, 2), PriceLevel(58, 10)])));
            q == Some(Quote(45, 42)) && Mid(q.value) == 43.5
  {
  }

  /** The mid of one stored snapshot; none (NaN) when it does not decode. */
  function SnapshotMid(p: Payload<Snapshot>): (m: Option<real>)
    ensures m.Some? <==> p.Decoded?
    ensures m.Some? ==> m.value == Mid(BestPrices(p).value)
  {
    match BestPrices(p)
    case Some(q) => Some(Mid(q))
    case None => None
  }

  /** The mid-price column with undecodable snapshots dropped, in the original order. */
  function MidSeries(snaps: seq<Stamped<Payload<Snapshot>>>): seq<Stamped<real>> {
    FilterMap(snaps, SnapshotMid)
  }

  /** Execution price (cents) and contract count of one trade. */
  datatype Execution = Execution(exec: int, count: int)

  /** `yes_price` and `count` (default 0); no execution when the payload does
      not decode or has no price, and the trade is then dropped. */
  function TradeDetails(p: Payload<TradeData>): (e: Option<Execution>)
    ensures e.Some? <==> p.Decoded? && p.data.yesPrice.Some?
    ensures e.Some? ==> e.value.exec == p.data.yesPrice.value
    ensures e.Some? && p.data.count.None? ==> e.value.count == 0
    ensures e.Some? && p.data.count.Some? ==> e.value.count == p.data.count.value
  {
    match p
    case Malformed => None
    case Decoded(d) =>
      match d.yesPrice
      case None => None
      case Some(price) => Some(Execution(price, d.count.GetOr(0)))
  }

  /** The trades that have an execution price, in the original order. */
  function Executions(trades: seq<Stamped<Payload<TradeData>>>): seq<Stamped<Execution>> {
    FilterMap(trades, TradeDetails)
  }

  /** The mid of the as-of snapshot: the value of the last row stamped at or
      before `t`, or none when all rows are later. */
  function MidAsOf(mids: seq<Stamped<real>>, t: int): Option<real> {
    match AsOf(mids, t)
    case Some(i) => Some(mids[i].val)
    case None => None
  }

  /** Buy (+1) above the mid, sell (-1) below it, 0 when equal or when there
      is no mid (a NaN comparison is false). */
  function TradeSide(exec: int, mid: Option<real>): (s: int)
    ensures s == 1 <==> mid.Some? && exec as real > mid.value
    ensures s == -1 <==> mid.Some? && (exec as real) < mid.value
    ensures s == 0 <==> mid.None? || exec as real == mid.value
  {
    match mid
    case None => 0
    case Some(m) => if exec as real > m then 1 else if (exec as real) < m then -1 else 0
  }

  /** `(exec - mid) * side`: the distance from the mid paid to cross the
      spread. Undefined (NaN) without a mid. */
  function Slippage(exec: int, mid: Option<real>): (r: Option<real>)
    ensures r.Some? <==> mid.Some?
    ensures r.Some? ==> r.value >= 0.0
    ensures r.Some? && TradeSide(exec, mid) != 0 ==>
              r.value == if exec as real >= mid.value then exec as real - mid.value else mid.value - exec as real
    ensures r.Some? && TradeSide(exec, mid) == 0 ==> r.value == 0.0
  {
    match mid
    case None => None
    case Some(m) => Some((exec as real - m) * (TradeSide(exec, mid) as real))
  }

  /** The taker's gain after the horizon: future mid minus execution for a buy,
      the reverse for a sell, 0 for an unsided trade; NaN when a sided trade
      has no future mid. */
  function Markout(side: int, exec: int, future: Option<real>): (r: Option<real>)
    ensures r.None? <==> (side == 1 || side == -1) && future.None?
    ensures side == 1 && future.Some? ==> r == Some(future.value - exec as real)
    ensures side == -1 && future.Some? ==> r == Some(exec as real - future.value)
    ensures side != 1 && side != -1 ==> r == Some(0.0)
  {
    if side == 1 then
      match future
      case Some(f) => Some(f - exec as real)
      case None => None
    else if side == -1 then
      match future
      case Some(f) => Some(exec as real - f)
      case None => None
    else Some(0.0)
  }

  lemma MarkoutExamples()
    ensures Markout(1, 50, Some(53.0)) == Some(3.0)
    ensures Markout(-1, 50, Some(53.0)) == Some(-3.0)
    ensures Markout(0, 50, Some(53.0)) == Some(0.0)
  {
  }

  /** A sided trade's markout is the mid's move in the taker's direction less
      the slippage paid; with no move it is exactly minus the slippage. */
  lemma MarkoutDecomposition(exec: int, mid: real, future: real)
    ensures var side := TradeSide(exec, Some(mid));
            side != 0 ==>
              Markout(side, exec, Some(future)).value
                == (future - mid) * (side as real) - Slippage(exec, Some(mid)).value
    ensures var side := TradeSide(exec, Some(mid));
            Markout(side, exec, Some(mid)).value == -Slippage(exec, Some(mid)).value
  {
  }

  /** One trade joined to the book: the mid at its second, side, slippage,
      slippage paid, and one markout per horizon. */
  datatype Aligned = Aligned(
    ts: int,
    exec: int,
    count: int,
    mid: Option<real>,
    side: int,
    slippage: Option<real>,
    slippagePaid: Option<real>,
    markouts: seq<Option<real>>)

  function Align(trade: Stamped<Execution>, mids: seq<Stamped<real>>): (a: Aligned)
    ensures a.ts == trade.ts && a.exec == trade.val.exec && a.count == trade.val.count
    ensures a.mid == MidAsOf(mids, trade.ts)
    ensures a.side == TradeSide(a.exec, a.mid)
    ensures a.slippage == Slippage(a.exec, a.mid)
    ensures a.slippage.Some? <==> a.mid.Some?
    ensures a.slippage.Some? ==> a.slippage.value >= 0.0 && a.slippagePaid == Some(a.slippage.value * (a.count as real))
    ensures a.slippage.None? ==> a.slippagePaid.None?
    ensures a.count >= 0 ==> PaidNonNegative(a)
    ensures |a.markouts| == |MarkoutHorizons|
    ensures forall k :: 0 <= k < |a.markouts| ==>
              a.markouts[k] == Markout(a.side, a.exec, MidAsOf(mids, trade.ts + MarkoutHorizons[k]))
    ensures forall k :: 0 <= k < |a.markouts| ==> a.markouts[k].Some?
  {
    var t := trade.ts;
    var e := trade.val;
    var mid := MidAsOf(mids, t);
    var side := TradeSide(e.exec, mid);
    var slip := Slippage(e.exec, mid);
    Aligned(t, e.exec, e.count, mid, side, slip, Paid(slip, e.count), MarkoutsAt(side, e.exec, mids, t))
  }

  /** Slippage paid on `count` contracts; never negative for a non-negative count. */
  function Paid(slip: Option<real>, count: int): (r: Option<real>)
    requires slip.Some? ==> slip.value >= 0.0
    ensures r.Some? <==> slip.Some?
    ensures r.Some? ==> r.value == slip.value * (count as real)
    ensures r.Some? && count >= 0 ==> r.value >= 0.0
  {
    if slip.Some? && count >= 0 then
      MulMonotone(0.0, slip.value, count as real);
      Some(slip.value * (count as real))
    else if slip.Some? then Some(slip.value * (count as real))
    else None
  }

  /** Markouts of an execution at second `t`, one per horizon; each is defined
      because a later horizon sees at least the mid seen at `t`. */
  function MarkoutsAt(side: int, exec: int, mids: seq<Stamped<real>>, t: int): (r: seq<Option<real>>)
    requires side == TradeSide(exec, MidAsOf(mids, t))
    ensures |r| == |MarkoutHorizons|
    ensures forall k :: 0 <= k < |r| ==> r[k] == Markout(side, exec, MidAsOf(mids, t + MarkoutHorizons[k]))
    ensures forall k :: 0 <= k < |r| ==> r[k].Some?
  {
    var r := seq(|MarkoutHorizons|, k requires 0 <= k < |MarkoutHorizons| =>
               Markout(side, exec, MidAsOf(mids, t + MarkoutHorizons[k])));
    MarkoutsDefinedAt(side, exec, mids, t, r);
    r
  }

  lemma MarkoutsDefinedAt(side: int, exec: int, mids: seq<Stamped<real>>, t: int, r: seq<Option<real>>)
    requires side == TradeSide(exec, MidAsOf(mids, t))
    requires |r| == |MarkoutHorizons|
    requires forall k :: 0 <= k < |r| ==> r[k] == Markout(side, exec, MidAsOf(mids, t + MarkoutHorizons[k]))
    ensures forall k :: 0 <= k < |r| ==> r[k].Some?
  {
    forall k | 0 <= k < |r| ensures r[k].Some? {
      if MidAsOf(mids, t).Some? {
        AsOfMonotone(mids, t, t + MarkoutHorizons[k]);
      }
    }
  }

  /** `process_data`: decodable snapshots give the mid series, priced trades are
      joined to it at their own second and at each horizon. */
  function ProcessData(trades: seq<Stamped<Payload<TradeData>>>, snaps: seq<Stamped<Payload<Snapshot>>>): (r: seq<Aligned>)
    ensures |r| == |Executions(trades)|
    ensures forall i :: 0 <= i < |r| ==> r[i] == Align(Executions(trades)[i], MidSeries(snaps))
    ensures forall i :: 0 <= i < |r| ==> MarkoutsDefined(r[i])
  {
    var execs := Executions(trades);
    var mids := MidSeries(snaps);
    seq(|execs|, i requires 0 <= i < |execs| => Align(execs[i], mids))
  }

  /** Position in `snaps` of the snapshot whose mid the join at `t` uses. */
  function MidSource(snaps: seq<Stamped<Payload<Snapshot>>>, t: int): Option<nat> {
    match AsOf(MidSeries(snaps), t)
    case Some(k) => Some(KeptIndices(snaps, SnapshotMid)[k])
    case None => None
  }

  /** The as-of mid seen from the stored snapshots (anti-lookahead): there is
      a mid at second `t` exactly when some decodable snapshot is stamped at or
      before `t`; it is the mid of such a snapshot, and on time-ordered rows of
      the latest one. */
  lemma MidAsOfSnapshots(snaps: seq<Stamped<Payload<Snapshot>>>, t: int)
    ensures MidAsOf(MidSeries(snaps), t).None? <==>
              forall i :: 0 <= i < |snaps| && snaps[i].val.Decoded? ==> snaps[i].ts > t
    ensures MidAsOf(MidSeries(snaps), t).Some? ==>
              && MidSource(snaps, t).Some?
              && MidSource(snaps, t).value < |snaps|
              && snaps[MidSource(snaps, t).value].val.Decoded?
              && snaps[MidSource(snaps, t).value].ts <= t
              && MidAsOf(MidSeries(snaps), t).value == Mid(BestPrices(snaps[MidSource(snaps, t).value].val).value)
    ensures MidAsOf(MidSeries(snaps), t).Some? && SortedByTs(snaps) ==>
              forall i :: 0 <= i < |snaps| && snaps[i].val.Decoded? && snaps[i].ts <= t ==>
                snaps[i].ts <= snaps[MidSource(snaps, t).value].ts
  {
    var mids := MidSeries(snaps);
    var ix := KeptIndices(snaps, SnapshotMid);
    var a := AsOf(mids, t);
    forall i | 0 <= i < |snaps| && snaps[i].val.Decoded? && snaps[i].ts <= t
      ensures a.Some? && i <= ix[a.value]
    {
      assert SnapshotMid(snaps[i].val).Some?;
      var k :| 0 <= k < |ix| && ix[k] == i;
      assert Kept(snaps, SnapshotMid, ix[k], mids[k]);
      assert a.Some? && k <= a.value;
      if k < a.value {
        assert ix[k] < ix[a.value];
      }
    }
    if a.Some? {
      assert Kept(snaps, SnapshotMid, ix[a.value], mids[a.value]);
    }
  }

  predicate MarkoutsDefined(a: Aligned) {
    |a.markouts| == |MarkoutHorizons| && forall k :: 0 <= k < |a.markouts| ==> a.markouts[k].Some?
  }

  /** Per ticker, the rows loaded from the store. */
  datatype TickerData = TickerData(trades: seq<Stamped<Payload<TradeData>>>, snaps: seq<Stamped<Payload<Snapshot>>>)

  /** The combined frame: tickers with no trades or no snapshots are skipped,
      the others' aligned trades are concatenated in ticker order. */
  function CombinedResults(tickers: seq<TickerData>): (r: seq<Aligned>)
    ensures forall i :: 0 <= i < |r| ==> MarkoutsDefined(r[i])
    ensures |r| <= SumTrades(tickers)
    decreases |tickers|
  {
    if |tickers| == 0 then []
    else
      var prefix := tickers[..|tickers| - 1];
      var last := tickers[|tickers| - 1];
      var rest := CombinedResults(prefix);
      if |last.trades| == 0 || |last.snaps| == 0 then rest
      else rest + ProcessData(last.trades, last.snaps)
  }

  /** One ticker alone contributes nothing when it has no trades or no
      snapshots, and otherwise exactly its own aligned trades. */
  lemma CombinedResultsOne(t: TickerData)
    ensures |t.trades| == 0 || |t.snaps| == 0 ==> CombinedResults([t]) == []
    ensures |t.trades| > 0 && |t.snaps| > 0 ==> CombinedResults([t]) == ProcessData(t.trades, t.snaps)
  {
    assert [t][..0] == [];
  }

  /** The combined frame of two ticker lists is the concatenation of their
      frames; with `CombinedResultsOne` this pins the frame of every list. */
  lemma {:induction false} CombinedResultsAppend(xs: seq<TickerData>, ys: seq<TickerData>)
    ensures CombinedResults(xs + ys) == CombinedResults(xs) + CombinedResults(ys)
    decreases |ys|
  {
    if |ys| == 0 {
      assert xs + ys == xs;
    } else {
      var init, t := ys[..|ys| - 1], ys[|ys| - 1];
      assert ys == init + [t];
      assert xs + ys == (xs + init) + [t];
      calc {
        CombinedResults(xs + ys);
        CombinedResults((xs + init) + [t]);
        { CombinedResultsSnoc(xs + init, t); }
        CombinedResults(xs + init) + CombinedResults([t]);
        { CombinedResultsAppend(xs, init); }
        CombinedResults(xs) + CombinedResults(init) + CombinedResults([t]);
        { CombinedResultsSnoc(init, t);
          AppendAssoc(CombinedResults(xs), CombinedResults(init), CombinedResults([t])); }
        CombinedResults(xs) + CombinedResults(ys);
      }
    }
  }

  lemma AppendAssoc<T>(a: seq<T>, b: seq<T>, c: seq<T>)
    ensures a + b + c == a + (b + c)
  {
  }

  /** Appending one ticker appends its own frame. */
  lemma CombinedResultsSnoc(xs: seq<TickerData>, t: TickerData)
    ensures CombinedResults(xs + [t]) == CombinedResults(xs) + CombinedResults([t])
  {
    assert (xs + [t])[..|xs|] == xs;
    CombinedResultsOne(t);
  }

  function SumTrades(tickers: seq<TickerData>): nat
    decreases |tickers|
  {
    if |tickers| == 0 then 0 else SumTrades(tickers[..|tickers| - 1]) + |tickers[|tickers| - 1].trades|
  }

  // ---------------------------------------------------------------- aggregates

  /** Every row has a defined markout at horizon index `k`. */
  predicate DefinedAt(rows: seq<Aligned>, k: nat) {
    forall i :: 0 <= i < |rows| ==> k < |rows[i].markouts| && rows[i].markouts[k].Some?
  }

  function MarkoutColumn(rows: seq<Aligned>, k: nat): (xs: seq<real>)
    requires DefinedAt(rows, k)
    ensures |xs| == |rows| && forall i :: 0 <= i < |rows| ==> xs[i] == rows[i].markouts[k].value
  {
    seq(|rows|, i requires 0 <= i < |rows| && DefinedAt(rows, k) => rows[i].markouts[k].value)
  }

  function CountColumn(rows: seq<Aligned>): (cs: seq<int>)
    ensures |cs| == |rows| && forall i :: 0 <= i < |rows| ==> cs[i] == rows[i].count
  {
    seq(|rows|, i requires 0 <= i < |rows| => rows[i].count)
  }

  /** The plain mean; none (NaN) for no rows. */
  function MeanOf(xs: seq<real>): (r: Option<real>)
    ensures r.None? <==> |xs| == 0
  {
    if |xs| == 0 then None else Some(SumReal(xs) / |xs| as real)
  }

  function WeightedSum(xs: seq<real>, ws: seq<int>): real
    requires |xs| == |ws|
    decreases |xs|
  {
    if |xs| == 0 then 0.0
    else WeightedSum(xs[..|xs| - 1], ws[..|ws| - 1]) + xs[|xs| - 1] * ws[|ws| - 1] as real
  }

  /** `np.average(xs, weights=ws)` when the weights sum to a positive number, 0 otherwise. */
  function WeightedMean(xs: seq<real>, ws: seq<int>): (r: real)
    requires |xs| == |ws|
    ensures Sum(ws) <= 0 ==> r == 0.0
    ensures Sum(ws) > 0 ==> r * Sum(ws) as real == WeightedSum(xs, ws)
  {
    if Sum(ws) > 0 then WeightedSum(xs, ws) / Sum(ws) as real else 0.0
  }

  lemma MulMonotone(a: real, b: real, w: real)
    requires a <= b && w >= 0.0
    ensures a * w <= b * w
  {
    assert (b - a) * w >= 0.0;
  }

  lemma MulDistributes(a: real, u: real, v: real)
    ensures a * (u + v) == a * u + a * v
  {
  }

  lemma {:induction false} WeightedSumBounds(xs: seq<real>, ws: seq<int>, lo: real, hi: real)
    requires |xs| == |ws|
    requires forall i :: 0 <= i < |xs| ==> lo <= xs[i] <= hi && ws[i] >= 0
    ensures lo * Sum(ws) as real <= WeightedSum(xs, ws) <= hi * Sum(ws) as real
    decreases |xs|
  {
    if |xs| > 0 {
      var n := |xs| - 1;
      WeightedSumBounds(xs[..n], ws[..n], lo, hi);
      var rest := Sum(ws[..n]) as real;
      var w := ws[n] as real;
      assert Sum(ws) as real == rest + w;
      assert WeightedSum(xs, ws) == WeightedSum(xs[..n], ws[..n]) + xs[n] * w;
      BoundStep(lo, hi, xs[n], w, rest, WeightedSum(xs[..n], ws[..n]));
    }
  }

  /** Adding one weighted term keeps a weighted sum between its bounds. */
  lemma BoundStep(lo: real, hi: real, x: real, w: real, rest: real, acc: real)
    requires lo * rest <= acc <= hi * rest
    requires lo <= x <= hi && w >= 0.0
    ensures lo * (rest + w) <= acc + x * w <= hi * (rest + w)
  {
    MulMonotone(lo, x, w);
    MulMonotone(x, hi, w);
    MulDistributes(lo, rest, w);
    MulDistributes(hi, rest, w);
  }

  /** Dividing both sides of `a * w <= b * w` by a positive `w`. */
  lemma MulCancel(a: real, b: real, w: real)
    requires w > 0.0 && a * w <= b * w
    ensures a <= b
  {
  }

  /** With non-negative counts summing to a positive total, the volume-weighted
      markout lies between the smallest and largest per-trade markout. */
  lemma WeightedMeanWithin(xs: seq<real>, ws: seq<int>, lo: real, hi: real)
    requires |xs| == |ws| && Sum(ws) > 0
    requires forall i :: 0 <= i < |xs| ==> lo <= xs[i] <= hi && ws[i] >= 0
    ensures lo <= WeightedMean(xs, ws) <= hi
  {
    WeightedSumBounds(xs, ws, lo, hi);
    var r := WeightedMean(xs, ws);
    var w := Sum(ws) as real;
    assert r * w == WeightedSum(xs, ws);
    MulCancel(lo, r, w);
    MulCancel(r, hi, w);
  }

  function Ones(n: nat): (ws: seq<int>)
    ensures |ws| == n && forall i :: 0 <= i < n ==> ws[i] == 1
  {
    seq(n, i => 1)
  }

  lemma {:induction false} UnitWeights(xs: seq<real>)
    ensures WeightedSum(xs, Ones(|xs|)) == SumReal(xs) && Sum(Ones(|xs|)) == |xs|
    decreases |xs|
  {
    if |xs| > 0 {
      var n := |xs| - 1;
      assert Ones(|xs|)[..n] == Ones(n);
      UnitWeights(xs[..n]);
    }
  }

  /** Giving every trade weight one turns the volume-weighted markout into the
      per-trade mean. */
  lemma UnitWeightsGiveMean(xs: seq<real>)
    requires |xs| > 0
    ensures MeanOf(xs) == Some(WeightedMean(xs, Ones(|xs|)))
  {
    UnitWeights(xs);
  }

  /** Epoch second floored to its hour. */
  function HourBucket(ts: int): (b: int)
  {
    ts - ts % SecondsPerHour
  }

  /** The bucket is the one multiple of 3600 whose hour contains the second. */
  lemma HourBucketCharacterised(ts: int, b: int)
    ensures HourBucket(ts) % SecondsPerHour == 0 && HourBucket(ts) <= ts < HourBucket(ts) + SecondsPerHour
    ensures b % SecondsPerHour == 0 && b <= ts < b + SecondsPerHour ==> b == HourBucket(ts)
  {
    if b % SecondsPerHour == 0 && b <= ts < b + SecondsPerHour {
      var q := b / SecondsPerHour;
      assert b == q * SecondsPerHour;
      assert ts == q * SecondsPerHour + (ts - b);
    }
  }

  /** The rows of one hour bucket, in order. Each row of the hour appears as
      often as in the input, so equal rows are all counted. */
  function InHour(rows: seq<Aligned>, b: int): (r: seq<Aligned>)
    ensures |r| <= |rows|
    ensures forall x :: x in r <==> x in rows && HourBucket(x.ts) == b
    ensures forall x :: multiset(r)[x] == if HourBucket(x.ts) == b then multiset(rows)[x] else 0
    ensures forall k :: DefinedAt(rows, k) ==> DefinedAt(r, k)
    decreases |rows|
  {
    if |rows| == 0 then []
    else
      var last := rows[|rows| - 1];
      var rest := InHour(rows[..|rows| - 1], b);
      var r := if HourBucket(last.ts) == b then rest + [last] else rest;
      InHourSnocCount(rows, rest, b);
      InHourCountGivesMembers(r, rows, b);
      InHourSnocDefined(rows, rest, b);
      r
  }

  /** The step of `InHour` that considers the last row: multiplicities. */
  lemma InHourSnocCount(rows: seq<Aligned>, rest: seq<Aligned>, b: int)
    requires |rows| > 0
    requires forall x :: multiset(rest)[x] == if HourBucket(x.ts) == b then multiset(rows[..|rows| - 1])[x] else 0
    ensures var last := rows[|rows| - 1];
            var r := if HourBucket(last.ts) == b then rest + [last] else rest;
            forall x :: multiset(r)[x] == if HourBucket(x.ts) == b then multiset(rows)[x] else 0
  {
    var last := rows[|rows| - 1];
    assert rows == rows[..|rows| - 1] + [last];
    assert multiset(rows) == multiset(rows[..|rows| - 1]) + multiset{last};
  }

  /** Multiplicities decide membership. */
  lemma InHourCountGivesMembers(r: seq<Aligned>, rows: seq<Aligned>, b: int)
    requires forall x :: multiset(r)[x] == if HourBucket(x.ts) == b then multiset(rows)[x] else 0
    ensures forall x :: x in r <==> x in rows && HourBucket(x.ts) == b
  {
    forall x ensures x in r <==> x in rows && HourBucket(x.ts) == b {
      assert x in r <==> multiset(r)[x] > 0;
      assert x in rows <==> multiset(rows)[x] > 0;
    }
  }

  /** The step of `InHour` that considers the last row: defined markouts. */
  lemma InHourSnocDefined(rows: seq<Aligned>, rest: seq<Aligned>, b: int)
    requires |rows| > 0
    requires forall k :: DefinedAt(rows[..|rows| - 1], k) ==> DefinedAt(rest, k)
    ensures var last := rows[|rows| - 1];
            var r := if HourBucket(last.ts) == b then rest + [last] else rest;
            forall k :: DefinedAt(rows, k) ==> DefinedAt(r, k)
  {
    var last := rows[|rows| - 1];
    var prefix := rows[..|rows| - 1];
    var r := if HourBucket(last.ts) == b then rest + [last] else rest;
    forall k: nat | DefinedAt(rows, k) ensures DefinedAt(r, k) {
      forall i | 0 <= i < |prefix| ensures k < |prefix[i].markouts| && prefix[i].markouts[k].Some? {
        assert prefix[i] == rows[i];
      }
      assert DefinedAt(rest, k);
      forall i | 0 <= i < |r| ensures k < |r[i].markouts| && r[i].markouts[k].Some? {
        if i < |rest| { assert r[i] == rest[i]; } else { assert r[i] == last; }
      }
    }
  }

  /** Splitting the rows splits every hour group the same way. */
  lemma {:induction false} InHourAppend(xs: seq<Aligned>, ys: seq<Aligned>, b: int)
    ensures InHour(xs + ys, b) == InHour(xs, b) + InHour(ys, b)
    decreases |ys|
  {
    if |ys| == 0 {
      assert xs + ys == xs;
    } else {
      var ys' := ys[..|ys| - 1];
      assert (xs + ys)[..|xs + ys| - 1] == xs + ys';
      assert (xs + ys)[|xs + ys| - 1] == ys[|ys| - 1];
      InHourAppend(xs, ys', b);
    }
  }

  /** The hour buckets that hold at least one row. */
  function Hours(rows: seq<Aligned>): set<int> {
    set i | 0 <= i < |rows| :: HourBucket(rows[i].ts)
  }

  lemma NonEmptyHourIsListed(rows: seq<Aligned>, b: int)
    requires |InHour(rows, b)| > 0
    ensures b in Hours(rows)
  {
    var x := InHour(rows, b)[0];
    assert x in InHour(rows, b);
    var i :| 0 <= i < |rows| && rows[i] == x;
  }

  /** Per-hour mean markout at horizon index `k`; an hour appears exactly when
      it has at least five trades. */
  function HourlyMeanMarkout(rows: seq<Aligned>, k: nat): (r: map<int, real>)
    requires DefinedAt(rows, k)
    ensures forall b :: b in r <==> |InHour(rows, b)| >= MinTradesPerHour
    ensures forall b :: b in r ==> Some(r[b]) == MeanOf(MarkoutColumn(InHour(rows, b), k))
  {
    forall b | |InHour(rows, b)| >= MinTradesPerHour ensures b in Hours(rows) {
      NonEmptyHourIsListed(rows, b);
    }
    map b | b in Hours(rows) && |InHour(rows, b)| >= MinTradesPerHour ::
      MeanOf(MarkoutColumn(InHour(rows, b), k)).value
  }

  /** Per-hour count-weighted markout at horizon index `k`, over the same hours. */
  function HourlyWeightedMarkout(rows: seq<Aligned>, k: nat): (r: map<int, real>)
    requires DefinedAt(rows, k)
    ensures forall b :: b in r <==> |InHour(rows, b)| >= MinTradesPerHour
    ensures forall b :: b in r ==>
              r[b] == WeightedMean(MarkoutColumn(InHour(rows, b), k), CountColumn(InHour(rows, b)))
  {
    forall b | |InHour(rows, b)| >= MinTradesPerHour ensures b in Hours(rows) {
      NonEmptyHourIsListed(rows, b);
    }
    map b | b in Hours(rows) && |InHour(rows, b)| >= MinTradesPerHour ::
      WeightedMean(MarkoutColumn(InHour(rows, b), k), CountColumn(InHour(rows, b)))
  }

  /** The row's slippage paid counts non-negatively towards a total (a NaN
      entry counts as nothing). */
  predicate PaidNonNegative(a: Aligned) {
    a.slippagePaid.GetOr(0.0) >= 0.0
  }

  /** Slippage paid summed over rows, skipping undefined (NaN) entries. */
  function SlippagePaidTotal(rows: seq<Aligned>): (r: real)
    ensures (forall i :: 0 <= i < |rows| ==> PaidNonNegative(rows[i])) ==> r >= 0.0
    decreases |rows|
  {
    if |rows| == 0 then 0.0
    else
      var last := rows[|rows| - 1];
      SlippagePaidTotal(rows[..|rows| - 1]) + last.slippagePaid.GetOr(0.0)
  }

  /** The total over two runs of rows is the sum of their totals. */
  lemma {:induction false} SlippagePaidAppend(xs: seq<Aligned>, ys: seq<Aligned>)
    ensures SlippagePaidTotal(xs + ys) == SlippagePaidTotal(xs) + SlippagePaidTotal(ys)
    decreases |ys|
  {
    if |ys| == 0 {
      assert xs + ys == xs;
    } else {
      var ys' := ys[..|ys| - 1];
      assert (xs + ys)[..|xs + ys| - 1] == xs + ys';
      SlippagePaidAppend(xs, ys');
    }
  }

  /** Total slippage paid in hour `b`; an hour without trades sums to 0. */
  function HourlySlippagePaid(rows: seq<Aligned>, b: int): (r: real)
    ensures |InHour(rows, b)| == 0 ==> r == 0.0
  {
    SlippagePaidTotal(InHour(rows, b))
  }

  /** The hourly total is additive over the rows. With `HourlySlippageOneRow`
      this fixes the total of every hour for every input. */
  lemma HourlySlippageAppend(xs: seq<Aligned>, ys: seq<Aligned>, b: int)
    ensures HourlySlippagePaid(xs + ys, b) == HourlySlippagePaid(xs, b) + HourlySlippagePaid(ys, b)
  {
    InHourAppend(xs, ys, b);
    SlippagePaidAppend(InHour(xs, b), InHour(ys, b));
  }

  /** One row adds its own slippage paid (NaN counting as 0) to its hour and
      nothing to any other hour. */
  lemma HourlySlippageOneRow(x: Aligned, b: int)
    ensures HourlySlippagePaid([x], b) == if HourBucket(x.ts) == b then x.slippagePaid.GetOr(0.0) else 0.0
  {
    InHourOne(x, b);
    if HourBucket(x.ts) == b {
      assert [x][..0] == [];
      assert SlippagePaidTotal([x]) == SlippagePaidTotal([]) + x.slippagePaid.GetOr(0.0);
    }
  }

  lemma InHourOne(x: Aligned, b: int)
    ensures InHour([x], b) == if HourBucket(x.ts) == b then [x] else []
  {
    assert [x][..0] == [];
  }

  /** For trades with non-negative counts, the slippage paid in any hour is
      never negative. */
  lemma HourlySlippageNonNegative(trades: seq<Stamped<Payload<TradeData>>>, snaps: seq<Stamped<Payload<Snapshot>>>, b: int)
    requires forall i :: 0 <= i < |Executions(trades)| ==> Executions(trades)[i].val.count >= 0
    ensures HourlySlippagePaid(ProcessData(trades, snaps), b) >= 0.0
  {
    var rows := ProcessData(trades, snaps);
    RowsPaidNonNegative(trades, snaps);
    HourPaidNonNegative(rows, b);
  }

  lemma RowsPaidNonNegative(trades: seq<Stamped<Payload<TradeData>>>, snaps: seq<Stamped<Payload<Snapshot>>>)
    requires forall i :: 0 <= i < |Executions(trades)| ==> Executions(trades)[i].val.count >= 0
    ensures forall j :: 0 <= j < |ProcessData(trades, snaps)| ==> PaidNonNegative(ProcessData(trades, snaps)[j])
  {
    var rows := ProcessData(trades, snaps);
    forall j | 0 <= j < |rows| ensures PaidNonNegative(rows[j]) {
      assert rows[j].count >= 0;
    }
  }

  lemma HourPaidNonNegative(rows: seq<Aligned>, b: int)
    requires forall j :: 0 <= j < |rows| ==> PaidNonNegative(rows[j])
    ensures HourlySlippagePaid(rows, b) >= 0.0
  {
    var hour := InHour(rows, b);
    forall i | 0 <= i < |hour| ensures PaidNonNegative(hour[i]) {
      assert hour[i] in rows;
    }
  }

  // ---------------------------------------------------------- ticker patterns

  function Occurrences(s: string, c: char): nat
    decreases |s|
  {
    if |s| == 0 then 0 else Occurrences(s[..|s| - 1], c) + (if s[|s| - 1] == c then 1 else 0)
  }

  /** `str.replace(c, with)` for a single-character pattern. */
  function ReplaceChar(s: string, c: char, with: string): (r: string)
    ensures c !in with ==> c !in r
    ensures c !in s ==> r == s
    ensures forall x :: x in r ==> x in s || x in with
    decreases |s|
  {
    if |s| == 0 then ""
    else
      var prefix := s[..|s| - 1];
      var last := s[|s| - 1];
      assert c !in s ==> c !in prefix;
      assert s == prefix + [last];
      ReplaceChar(prefix, c, with) + (if last == c then with else [last])
  }

  /** Every occurrence of `c` grows the string by `|with| - 1` characters. */
  lemma {:induction false} ReplaceCharLength(s: string, c: char, with: string)
    ensures |ReplaceChar(s, c, with)| == |s| + |with| * Occurrences(s, c) - Occurrences(s, c)
    decreases |s|
  {
    if |s| > 0 {
      var n := |s| - 1;
      ReplaceCharLength(s[..n], c, with);
      ReplaceCharSnoc(s, c, with);
      LengthStep(n, |with|, Occurrences(s[..n], c), s[n] == c);
    }
  }

  /** One unfolding of `ReplaceChar` at the last character. */
  lemma ReplaceCharSnoc(s: string, c: char, with: string)
    requires |s| > 0
    ensures ReplaceChar(s, c, with) == ReplaceChar(s[..|s| - 1], c, with) + (if s[|s| - 1] == c then with else [s[|s| - 1]])
    ensures Occurrences(s, c) == Occurrences(s[..|s| - 1], c) + (if s[|s| - 1] == c then 1 else 0)
  {
  }

  lemma LengthStep(n: int, w: int, k: int, hit: bool)
    ensures n + w * k - k + (if hit then w else 1) == (n + 1) + w * (k + (if hit then 1 else 0)) - (k + (if hit then 1 else 0))
  {
    if hit {
      assert w * (k + 1) == w * k + w;
    }
  }

  /** The SQL `LIKE` pattern for a ticker pattern: each `*` becomes `%`. */
  function SqlPattern(p: string): (r: string)
    ensures |r| == |p|
    ensures forall i :: 0 <= i < |p| ==> r[i] == if p[i] == '*' then '%' else p[i]
  {
    seq(|p|, i requires 0 <= i < |p| => if p[i] == '*' then '%' else p[i])
  }

  /** The positional definition agrees with the library replacement. */
  lemma {:induction false} SqlPatternIsReplacement(p: string)
    ensures SqlPattern(p) == ReplaceChar(p, '*', "%")
    decreases |p|
  {
    if |p| > 0 {
      var n := |p| - 1;
      SqlPatternIsReplacement(p[..n]);
      assert SqlPattern(p) == SqlPattern(p[..n]) + [if p[n] == '*' then '%' else p[n]];
    }
  }

  /** Mapping `%` back to `*` recovers a pattern that held no `%`. */
  lemma {:induction false} SqlPatternRoundTrip(p: string)
    requires '%' !in p
    ensures ReplaceChar(SqlPattern(p), '%', "*") == p
    decreases |p|
  {
    if |p| > 0 {
      var n := |p| - 1;
      var q := SqlPattern(p);
      SqlPatternSnoc(p);
      SqlPatternRoundTrip(p[..n]);
      ReplaceCharSnoc(q, '%', "*");
      assert p == p[..n] + [p[n]];
    }
  }

  /** The pattern of a prefix is the prefix of the pattern, and the last
      character maps back to itself when the pattern held no `%`. */
  lemma SqlPatternSnoc(p: string)
    requires '%' !in p && |p| > 0
    ensures '%' !in p[..|p| - 1]
    ensures SqlPattern(p)[..|p| - 1] == SqlPattern(p[..|p| - 1])
    ensures (if SqlPattern(p)[|p| - 1] == '%' then "*" else [SqlPattern(p)[|p| - 1]]) == [p[|p| - 1]]
  {
    var n := |p| - 1;
    assert forall i :: 0 <= i < n ==> p[..n][i] == p[i];
  }

  /** Name the combined output after the pattern: `*` becomes `_COMBINED`, and
      a pattern without `*` is used unchanged. */
  function OutputName(p: string): (r: string)
    ensures '*' !in r
    ensures '*' !in p ==> r == p
  {
    if '*' in p then ReplaceChar(p, '*', "_COMBINED") else p
  }

  /** The guard on `*` is redundant: the output name is always the plain
      replacement, eight characters longer per `*`. */
  lemma OutputNameIsReplacement(p: string)
    ensures OutputName(p) == ReplaceChar(p, '*', "_COMBINED")
    ensures |OutputName(p)| == |p| + 8 * Occurrences(p, '*')
  {
    ReplaceCharLength(p, '*', "_COMBINED");
  }
}
