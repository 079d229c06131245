/** Net order flow across a market and its linked market: the linked market
    is the first other ticker of the same event (the ticker up to its last
    hyphen); each trade contributes +count for a YES taker and -count for a
    NO taker, negated for the linked market; the two streams are merged in
    time order and accumulated. */
module Flow {
  import opened Common

  // ------------------------------------------------------------ linked market

  /** Position of the last `-` in `s`, if any. */
  function LastHyphen(s: string): (r: Option<nat>)
    ensures r.None? <==> '-' !in s
    ensures r.Some? ==> r.value < |s| && s[r.value] == '-'
    ensures r.Some? ==> forall j :: r.value < j < |s| ==> s[j] != '-'
    decreases |s|
  {
    if |s| == 0 then None
    else if s[|s| - 1] == '-' then Some(|s| - 1)
    else
      var r := LastHyphen(s[..|s| - 1]);
      assert s == s[..|s| - 1] + [s[|s| - 1]];
      r
  }

  /** `ticker.rsplit('-', 1)[0]`: the event part of a market ticker; none for
      a ticker without a hyphen. */
  function EventPrefix(ticker: string): (r: Option<string>)
    ensures r.None? <==> '-' !in ticker
    ensures r.Some? ==> |r.value| < |ticker|
  {
    match LastHyphen(ticker)
    case None => None
    case Some(i) => Some(ticker[..i])
  }

  /** Splitting at the last hyphen loses nothing: the prefix, the hyphen and a
      hyphen-free market suffix give back the ticker. */
  lemma EventPrefixSplits(ticker: string)
    requires '-' in ticker
    ensures var p := EventPrefix(ticker).value;
            && ticker == p + "-" + ticker[|p| + 1..]
            && '-' !in ticker[|p| + 1..]
  {
    var i := LastHyphen(ticker).value;
    assert ticker == ticker[..i] + "-" + ticker[i + 1..];
    var suffix := ticker[i + 1..];
    forall j | 0 <= j < |suffix| ensures suffix[j] != '-' {
      assert suffix[j] == ticker[i + 1 + j];
    }
  }

  lemma EventPrefixExample()
    ensures EventPrefix("EV-MKT-A") == Some("EV-MKT")
    ensures EventPrefix("EVMKT") == None
  {
    assert "EV-MKT-A"[6] == '-' && "EV-MKT-A"[7] != '-';
    assert "EV-MKT-A"[..6] == "EV-MKT";
  }

  predicate StartsWith(s: string, prefix: string) {
    |prefix| <= |s| && s[..|prefix|] == prefix
  }

  /** A ticker the event query returns (it begins with the event prefix)
      that is not the base market itself. */
  predicate IsLinkedCandidate(t: string, prefix: string, base: string) {
    StartsWith(t, prefix) && t != base
  }

  /** Position of the first candidate in the query result. */
  function FirstCandidate(tickers: seq<string>, prefix: string, base: string): (r: Option<nat>)
    ensures r.Some? ==> r.value < |tickers| && IsLinkedCandidate(tickers[r.value], prefix, base)
    ensures r.Some? ==> forall j :: 0 <= j < r.value ==> !IsLinkedCandidate(tickers[j], prefix, base)
    ensures r.None? ==> forall j :: 0 <= j < |tickers| ==> !IsLinkedCandidate(tickers[j], prefix, base)
    decreases |tickers|
  {
    if |tickers| == 0 then None
    else
      var n := |tickers| - 1;
      var rest := FirstCandidate(tickers[..n], prefix, base);
      assert forall j :: 0 <= j < n ==> tickers[..n][j] == tickers[j];
      if rest.Some? then rest
      else if IsLinkedCandidate(tickers[n], prefix, base) then Some(n)
      else None
  }

  /** `find_linked_ticker` over the tickers the event query returned: none for
      a ticker without a hyphen or when no other ticker shares the event
      prefix; otherwise the first one that does. */
  function FindLinkedTicker(base: string, tickers: seq<string>): (r: Option<string>)
    ensures '-' !in base ==> r.None?
    ensures r.Some? ==> r.value != base && r.value in tickers && StartsWith(r.value, EventPrefix(base).value)
    ensures '-' in base && r.None? ==>
              forall t :: t in tickers ==> !IsLinkedCandidate(t, EventPrefix(base).value, base)
  {
    match EventPrefix(base)
    case None => None
    case Some(prefix) =>
      match FirstCandidate(tickers, prefix, base)
      case None => None
      case Some(i) => Some(tickers[i])
  }

  /** With several candidates, the first one in query order is chosen. */
  lemma FindLinkedIsFirst(base: string, tickers: seq<string>, i: nat)
    requires '-' in base && i < |tickers|
    requires IsLinkedCandidate(tickers[i], EventPrefix(base).value, base)
    requires forall j :: 0 <= j < i ==> !IsLinkedCandidate(tickers[j], EventPrefix(base).value, base)
    ensures FindLinkedTicker(base, tickers) == Some(tickers[i])
  {
    var k := FirstCandidate(tickers, EventPrefix(base).value, base);
    assert k.Some?;
    if k.value < i {
    } else if k.value > i {
    }
  }

  /** The main block falls back to the single market when no linked ticker was
      found, and an empty name or the literal sentinel `NONE` counts as not found. */
  function LinkedInUse(found: Option<string>): (r: Option<string>)
    ensures r.Some? <==> found.Some? && found.value != "" && found.value != "NONE"
    ensures r.Some? ==> r == found
  {
    if found.Some? && found.value != "" && found.value != "NONE" then found else None
  }

  // ------------------------------------------------------------ signed volume

  function LowerChar(c: char): (d: char)
    ensures 'A' <= c <= 'Z' ==> d as int == c as int + 32
    ensures !('A' <= c <= 'Z') ==> d == c
  {
    if 'A' <= c <= 'Z' then (c as int + 32) as char else c
  }

  /** `str.lower()` on ASCII letters. */
  function Lower(s: string): (r: string)
    ensures |r| == |s| && forall i :: 0 <= i < |s| ==> r[i] == LowerChar(s[i])
  {
    seq(|s|, i requires 0 <= i < |s| => LowerChar(s[i]))
  }

  /** Lowering twice is lowering once, and no upper-case letter survives. */
  lemma LowerIdempotent(s: string)
    ensures Lower(Lower(s)) == Lower(s)
    ensures forall i :: 0 <= i < |s| ==> !('A' <= Lower(s)[i] <= 'Z')
  {
  }

  /** Exactly the spellings of `yes` in any mix of cases are YES takers. */
  lemma LowerIsYes(s: string)
    ensures Lower(s) == "yes" <==>
              |s| == 3 && (s[0] == 'y' || s[0] == 'Y') && (s[1] == 'e' || s[1] == 'E') && (s[2] == 's' || s[2] == 'S')
  {
    if |s| == 3 && (s[0] == 'y' || s[0] == 'Y') && (s[1] == 'e' || s[1] == 'E') && (s[2] == 's' || s[2] == 'S') {
      assert Lower(s) == "yes";
    }
    if Lower(s) == "yes" {
      assert Lower(s)[0] == 'y' && Lower(s)[1] == 'e' && Lower(s)[2] == 's';
    }
  }

  /** +count for a YES taker, -count for a NO taker, 0 for any other side. A
      missing count reads as 0 and a missing side as the empty string; a
      payload that does not decode contributes 0. */
  function SignedVolume(p: Payload<TradeData>): (v: int)
    ensures p.Malformed? ==> v == 0
    ensures p.Decoded? ==> v == 0 || v == p.data.count.GetOr(0) || v == -p.data.count.GetOr(0)
    ensures p.Decoded? && Lower(p.data.takerSide.GetOr("")) == "yes" ==> v == p.data.count.GetOr(0)
    ensures p.Decoded? && Lower(p.data.takerSide.GetOr("")) == "no" ==> v == -p.data.count.GetOr(0)
    ensures p.Decoded? && Lower(p.data.takerSide.GetOr("")) != "yes" && Lower(p.data.takerSide.GetOr("")) != "no" ==> v == 0
  {
    match p
    case Malformed => 0
    case Decoded(d) =>
      var side := Lower(d.takerSide.GetOr(""));
      var count := d.count.GetOr(0);
      if side == "yes" then count else if side == "no" then -count else 0
  }

  /** `process_trades`: every trade keeps its timestamp and gets its signed
      volume, negated for the linked market. */
  function ProcessTrades(trades: seq<Stamped<Payload<TradeData>>>, inverse: bool): (r: seq<Stamped<int>>)
    ensures |r| == |trades|
    ensures forall i :: 0 <= i < |r| ==> r[i].ts == trades[i].ts
    ensures forall i :: 0 <= i < |r| ==> r[i].val == if inverse then -SignedVolume(trades[i].val) else SignedVolume(trades[i].val)
  {
    seq(|trades|, i requires 0 <= i < |trades| =>
      Stamped(trades[i].ts, if inverse then -SignedVolume(trades[i].val) else SignedVolume(trades[i].val)))
  }

  /** Inverting flips every row and hence the total; an inverted NO-taker
      trade of 7 contracts counts +7. */
  lemma InverseNegates(trades: seq<Stamped<Payload<TradeData>>>)
    ensures forall i :: 0 <= i < |trades| ==> ProcessTrades(trades, true)[i].val == -ProcessTrades(trades, false)[i].val
    ensures Sum(Vals(ProcessTrades(trades, true))) == -Sum(Vals(ProcessTrades(trades, false)))
    ensures ProcessTrades([Stamped(5, Decoded(TradeData(Some(40), Some(7), Some("NO"))))], true)[0].val == 7
  {
    var a := Vals(ProcessTrades(trades, true));
    var b := Vals(ProcessTrades(trades, false));
    SumNegated(a, b);
    assert Lower("NO") == "no";
  }

  lemma {:induction false} SumNegated(a: seq<int>, b: seq<int>)
    requires |a| == |b| && forall i :: 0 <= i < |a| ==> a[i] == -b[i]
    ensures Sum(a) == -Sum(b)
    decreases |a|
  {
    if |a| > 0 {
      SumNegated(a[..|a| - 1], b[..|b| - 1]);
    }
  }

  /** The value column of timestamped rows. */
  function Vals(rows: seq<Stamped<int>>): (vs: seq<int>)
    ensures |vs| == |rows| && forall i :: 0 <= i < |rows| ==> vs[i] == rows[i].val
  {
    seq(|rows|, i requires 0 <= i < |rows| => rows[i].val)
  }

  lemma ValsAppend(a: seq<Stamped<int>>, b: seq<Stamped<int>>)
    ensures Vals(a + b) == Vals(a) + Vals(b)
  {
  }

  /** Reordering rows reorders their values. */
  lemma {:induction false} ValsPermutation(xs: seq<Stamped<int>>, ys: seq<Stamped<int>>)
    requires multiset(xs) == multiset(ys)
    ensures multiset(Vals(xs)) == multiset(Vals(ys))
    decreases |xs|
  {
    if |xs| == 0 {
      assert |ys| == |multiset(ys)| == 0;
    } else {
      var last := xs[|xs| - 1];
      var xs' := xs[..|xs| - 1];
      assert xs == xs' + [last];
      assert last in multiset(ys);
      var i :| 0 <= i < |ys| && ys[i] == last;
      var ys' := ys[..i] + ys[i + 1..];
      assert ys == ys[..i] + [last] + ys[i + 1..];
      assert multiset(ys) == multiset(ys[..i]) + multiset{last} + multiset(ys[i + 1..]);
      assert multiset(xs') == multiset(xs) - multiset{last};
      assert multiset(ys') == multiset(ys) - multiset{last};
      ValsPermutation(xs', ys');
      ValsAppend(xs', [last]);
      ValsAppend(ys[..i] + [last], ys[i + 1..]);
      ValsAppend(ys[..i], [last]);
      ValsAppend(ys[..i], ys[i + 1..]);
    }
  }

  // ------------------------------------------------------ merge and accumulate

  /** The rows of both markets, base first: the linked market's rows are
      inverted and only present when a linked market is in use. */
  function Combined(base: seq<Stamped<Payload<TradeData>>>, linked: Option<seq<Stamped<Payload<TradeData>>>>): (r: seq<Stamped<int>>)
    ensures |r| == |base| + (if linked.Some? then |linked.value| else 0)
  {
    ProcessTrades(base, false) + (if linked.Some? then ProcessTrades(linked.value, true) else [])
  }

  /** Inserts a row after every row with the same or an earlier timestamp. */
  function Insert(x: Stamped<int>, s: seq<Stamped<int>>): (r: seq<Stamped<int>>)
    requires SortedByTs(s)
    ensures SortedByTs(r)
    ensures multiset(r) == multiset(s) + multiset{x}
    ensures |r| == |s| + 1
    decreases |s|
  {
    if |s| == 0 then [x]
    else
      var n := |s| - 1;
      if s[n].ts <= x.ts then s + [x]
      else
        var inner := Insert(x, s[..n]);
        InsertBefore(x, s, inner);
        inner + [s[n]]
  }

  /** The step of `Insert` that keeps the last row in place. */
  lemma InsertBefore(x: Stamped<int>, s: seq<Stamped<int>>, inner: seq<Stamped<int>>)
    requires SortedByTs(s) && |s| > 0 && x.ts < s[|s| - 1].ts
    requires SortedByTs(inner) && multiset(inner) == multiset(s[..|s| - 1]) + multiset{x}
    ensures SortedByTs(inner + [s[|s| - 1]])
    ensures multiset(inner + [s[|s| - 1]]) == multiset(s) + multiset{x}
  {
    var n := |s| - 1;
    var r := inner + [s[n]];
    forall k | 0 <= k < |inner| ensures inner[k].ts <= s[n].ts {
      assert inner[k] in multiset(inner);
      if inner[k] != x {
        assert inner[k] in s[..n];
      }
    }
    forall k, l | 0 <= k < l < |r| ensures r[k].ts <= r[l].ts {
      if l < |inner| {
        assert r[k] == inner[k] && r[l] == inner[l];
      } else {
        assert r[k] == inner[k];
      }
    }
    assert s == s[..n] + [s[n]];
  }

  /** `sort_values('timestamp')`: a timestamp-ordered rearrangement of the rows. */
  function SortByTs(xs: seq<Stamped<int>>): (r: seq<Stamped<int>>)
    ensures SortedByTs(r)
    ensures multiset(r) == multiset(xs)
    ensures |r| == |xs|
    decreases |xs|
  {
    if |xs| == 0 then []
    else
      var n := |xs| - 1;
      assert xs == xs[..n] + [xs[n]];
      Insert(xs[n], SortByTs(xs[..n]))
  }

  /** `cumsum()`: position `k` holds the sum of the first `k + 1` values. */
  method CumSum(xs: seq<int>) returns (cum: seq<int>)
    ensures |cum| == |xs|
    ensures forall k :: 0 <= k < |xs| ==> cum[k] == Sum(xs[..k + 1])
  {
    cum := [];
    var total := 0;
    var k := 0;
    while k < |xs|
      invariant 0 <= k <= |xs| && |cum| == k
      invariant total == Sum(xs[..k])
      invariant forall m :: 0 <= m < k ==> cum[m] == Sum(xs[..m + 1])
      decreases |xs| - k
    {
      assert xs[..k + 1][..k] == xs[..k];
      total := total + xs[k];
      cum := cum + [total];
      k := k + 1;
    }
  }

  /** The final cumulative value does not depend on how rows with equal
      timestamps are ordered: for any rearrangement of the combined rows it
      is the base market's net volume minus the linked market's raw net volume. */
  lemma FinalNet(base: seq<Stamped<Payload<TradeData>>>, linked: seq<Stamped<Payload<TradeData>>>, ys: seq<Stamped<int>>)
    requires multiset(ys) == multiset(Combined(base, Some(linked)))
    ensures Sum(Vals(ys)) == Sum(Vals(ProcessTrades(base, false))) - Sum(Vals(ProcessTrades(linked, false)))
  {
    var a := ProcessTrades(base, false);
    var b := ProcessTrades(linked, true);
    ValsPermutation(ys, a + b);
    SumPermutation(Vals(ys), Vals(a + b));
    ValsAppend(a, b);
    SumAppend(Vals(a), Vals(b));
    InverseNegates(linked);
  }

  /** The main block after the linked market is resolved: merge, sort by
      time and accumulate. Empty when neither market traded. */
  method NetFlow(base: seq<Stamped<Payload<TradeData>>>, linked: Option<seq<Stamped<Payload<TradeData>>>>)
    returns (sorted: seq<Stamped<int>>, cum: seq<int>)
    ensures SortedByTs(sorted) && multiset(sorted) == multiset(Combined(base, linked))
    ensures |cum| == |sorted| == |base| + (if linked.Some? then |linked.value| else 0)
    ensures forall k :: 0 <= k < |cum| ==> cum[k] == Sum(Vals(sorted)[..k + 1])
    ensures |cum| > 0 ==>
              cum[|cum| - 1] == Sum(Vals(ProcessTrades(base, false))) - (if linked.Some? then Sum(Vals(ProcessTrades(linked.value, false))) else 0)
  {
    var rows := Combined(base, linked);
    sorted := SortByTs(rows);
    cum := CumSum(Vals(sorted));
    if |cum| > 0 {
      assert Vals(sorted)[..|cum|] == Vals(sorted);
      if linked.Some? {
        FinalNet(base, linked.value, sorted);
      } else {
        assert rows == ProcessTrades(base, false);
        ValsPermutation(sorted, rows);
        SumPermutation(Vals(sorted), Vals(rows));
      }
    }
  }
}
