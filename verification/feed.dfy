/** The websocket client's message handler (`MyClient.on_message`) as a pure
    state machine: it routes trades, snapshots and deltas into the database,
    tracks which markets are active or determined, drops traffic for
    determined markets, and asks to unsubscribe and close as markets settle.
    Sending the unsubscribe and closing the socket are recorded as effects. */
module Feed {
  import opened Common
  import opened OrderBook

  /** Feed messages after decoding the `type` field. Every kind may carry a
      `market_ticker` in its `msg` body. */
  datatype Message =
    | Lifecycle(ticker: Option<string>, status: Option<string>)
    | TradeMsg(ticker: Option<string>, ts: Option<int>, data: TradeData)
    | SnapshotMsg(ticker: Option<string>, book: Snapshot)
    | DeltaMsg(ticker: Option<string>, delta: Delta)
    | Confirmation(ticker: Option<string>)
    | Unrecognised(ticker: Option<string>)

  /** An unsubscribe request for some channels of some markets. */
  datatype Unsubscribe = Unsubscribe(channels: seq<string>, tickers: seq<string>)

  /** The channels a determined market is unsubscribed from. */
  const MarketChannels: seq<string> := ["trade", "orderbook_delta", "market_lifecycle_v2"]

  datatype Client = Client(
    db: Database,
    determined: set<string>,
    active: set<string>,
    tradeCount: nat,
    snapshotCount: nat,
    deltaCount: nat,
    otherCount: nat,
    unsubscribes: seq<Unsubscribe>,
    closed: bool)

  /** A freshly constructed client: every subscribed market is active. */
  function NewClient(db: Database, marketTickers: seq<string>): (c: Client)
    ensures c.active == (set t | t in marketTickers)
    ensures c.determined == {}
    ensures c.tradeCount == c.snapshotCount == c.deltaCount == c.otherCount == 0
    ensures c.unsubscribes == [] && !c.closed && c.db == db
  {
    Client(db, {}, set t | t in marketTickers, 0, 0, 0, 0, [], false)
  }

  /** Python truthiness of an optional string: present and not empty. */
  predicate Present(s: Option<string>) {
    s.Some? && s.value != ""
  }

  /** Python truthiness of an optional integer: present and not zero. */
  predicate PresentTs(ts: Option<int>) {
    ts.Some? && ts.value != 0
  }

  predicate Terminal(status: string) {
    status == "closed" || status == "settled"
  }

  /** The message names a market that is already determined. */
  predicate ForDetermined(c: Client, m: Message) {
    Present(m.ticker) && m.ticker.value in c.determined
  }

  /** The message is a closed/settled lifecycle event for a market not yet determined. */
  predicate Determines(c: Client, m: Message) {
    && m.Lifecycle? && Present(m.ticker) && Present(m.status)
    && Terminal(m.status.value) && m.ticker.value !in c.determined
  }

  predicate StoresTrade(c: Client, m: Message) {
    m.TradeMsg? && Present(m.ticker) && !ForDetermined(c, m) && PresentTs(m.ts)
  }

  predicate AppliesSnapshot(c: Client, m: Message) {
    m.SnapshotMsg? && Present(m.ticker) && !ForDetermined(c, m)
  }

  predicate AppliesDelta(c: Client, m: Message) {
    m.DeltaMsg? && Present(m.ticker) && !ForDetermined(c, m)
  }

  /** Counted as "other": an unrecognised type, or a lifecycle event that neither
      determines a market nor names a determined one. */
  predicate CountsOther(c: Client, m: Message) {
    && (m.Unrecognised? || m.Lifecycle?)
    && !ForDetermined(c, m) && !Determines(c, m)
  }

  /** Marks `ticker` determined, retires it from the active set, records the
      unsubscribe, and closes once no market is active. */
  function Determine(c: Client, ticker: string): Client {
    var active := c.active - {ticker};
    c.(determined := c.determined + {ticker},
       active := active,
       unsubscribes := c.unsubscribes + [Unsubscribe(MarketChannels, [ticker])],
       closed := c.closed || active == {})
  }

  /** Handles one message; `now` is the wall-clock second used where the
      message carries no usable timestamp. */
  function Step(c: Client, m: Message, now: int): (r: Client)
    ensures ForDetermined(c, m) ==> r == c
    ensures Determines(c, m) ==>
              && r.determined == c.determined + {m.ticker.value}
              && r.active == c.active - {m.ticker.value}
              && r.unsubscribes == c.unsubscribes + [Unsubscribe(MarketChannels, [m.ticker.value])]
              && (r.closed <==> c.closed || r.active == {})
              && r.db == c.db
              && r.otherCount == c.otherCount
    ensures !Determines(c, m) ==>
              r.determined == c.determined && r.active == c.active
              && r.unsubscribes == c.unsubscribes && r.closed == c.closed
    ensures r.active <= c.active && c.determined <= r.determined
    ensures c.active !! c.determined ==> r.active !! r.determined
    ensures r.tradeCount == c.tradeCount + (if StoresTrade(c, m) then 1 else 0)
    ensures r.snapshotCount == c.snapshotCount + (if AppliesSnapshot(c, m) then 1 else 0)
    ensures r.deltaCount == c.deltaCount + (if AppliesDelta(c, m) then 1 else 0)
    ensures r.otherCount == c.otherCount + (if CountsOther(c, m) then 1 else 0)
    ensures StoresTrade(c, m) ==>
              r.db.trades == c.db.trades + [TradeRecord(m.ts.value, m.ticker.value, m.data)]
    ensures !StoresTrade(c, m) ==> r.db.trades == c.db.trades
    ensures |r.db.snapshots| == |c.db.snapshots| + (if AppliesSnapshot(c, m) || AppliesDelta(c, m) then 1 else 0)
    ensures AppliesSnapshot(c, m) ==> r.db == InitializeFromSnapshot(c.db, m.ticker.value, m.book, now)
    ensures AppliesDelta(c, m) ==> r.db == UpdateOrderbookState(c.db, m.ticker.value, m.delta, now)
    ensures !AppliesSnapshot(c, m) && !AppliesDelta(c, m) ==>
              r.db.books == c.db.books && r.db.snapshots == c.db.snapshots
  {
    match m
    case Lifecycle(ticker, status) =>
      if Determines(c, m) then Determine(c, ticker.value)
      else if ForDetermined(c, m) then c
      else c.(otherCount := c.otherCount + 1)
    case _ =>
      if ForDetermined(c, m) then c
      else Dispatch(c, m, now)
  }

  /** The `type` switch, reached only for messages not about a determined market. */
  function Dispatch(c: Client, m: Message, now: int): Client
    requires !m.Lifecycle?
  {
    match m
    case TradeMsg(ticker, ts, data) =>
      if Present(ticker) && PresentTs(ts)
      then c.(db := StoreTrade(c.db, ticker.value, ts.value, data), tradeCount := c.tradeCount + 1)
      else c
    case SnapshotMsg(ticker, book) =>
      if Present(ticker)
      then c.(db := InitializeFromSnapshot(c.db, ticker.value, book, now), snapshotCount := c.snapshotCount + 1)
      else c
    case DeltaMsg(ticker, delta) =>
      if Present(ticker)
      then c.(db := UpdateOrderbookState(c.db, ticker.value, delta, now), deltaCount := c.deltaCount + 1)
      else c
    case Confirmation(_) => c
    case Unrecognised(_) => c.(otherCount := c.otherCount + 1)
  }

  /** A message together with the wall-clock second at which it arrived. */
  datatype Arrival = Arrival(msg: Message, now: int)

  function Run(c: Client, arrivals: seq<Arrival>): Client
    decreases |arrivals|
  {
    if |arrivals| == 0 then c
    else Run(Step(c, arrivals[0].msg, arrivals[0].now), arrivals[1..])
  }

  /** The markets named by a sequence of single-market unsubscribes. */
  function UnsubscribedMarkets(us: seq<Unsubscribe>): (r: set<string>)
    requires forall i :: 0 <= i < |us| ==> |us[i].tickers| == 1
    ensures forall i :: 0 <= i < |us| ==> us[i].tickers[0] in r
  {
    set i | 0 <= i < |us| :: us[i].tickers[0]
  }

  /** Appending an unsubscribe adds exactly its market. */
  lemma UnsubscribedSnoc(us: seq<Unsubscribe>, u: Unsubscribe)
    requires forall i :: 0 <= i < |us| ==> |us[i].tickers| == 1
    requires |u.tickers| == 1
    ensures UnsubscribedMarkets(us + [u]) == UnsubscribedMarkets(us) + {u.tickers[0]}
  {
    var vs := us + [u];
    forall t | t in UnsubscribedMarkets(vs) ensures t in UnsubscribedMarkets(us) + {u.tickers[0]} {
      var i :| 0 <= i < |vs| && vs[i].tickers[0] == t;
      if i < |us| { assert vs[i] == us[i]; }
    }
    forall t | t in UnsubscribedMarkets(us) ensures t in UnsubscribedMarkets(vs) {
      var i :| 0 <= i < |us| && us[i].tickers[0] == t;
      assert vs[i] == us[i];
    }
    assert vs[|us|] == u;
  }

  /** The lifecycle half of what stays true of a client built from
      `subscribed` markets, whatever messages it has handled: the active
      markets are the subscribed ones not yet determined; each determined
      market was unsubscribed exactly once; the connection is closed exactly
      when some market was determined and none is left active. */
  ghost predicate LifecycleConsistent(c: Client, subscribed: set<string>) {
    && c.active == subscribed - c.determined
    && |c.unsubscribes| == |c.determined|
    && (forall i :: 0 <= i < |c.unsubscribes| ==>
          c.unsubscribes[i].channels == MarketChannels && |c.unsubscribes[i].tickers| == 1)
    && UnsubscribedMarkets(c.unsubscribes) == c.determined
    && (c.closed <==> c.determined != {} && c.active == {})
  }

  /** The storage half, relative to the store `start` the client was opened
      on (the tables persist across runs): the rows already stored are kept
      as they were, and each counter matches the rows appended since. */
  ghost predicate CountsConsistent(c: Client, start: Database) {
    && |c.db.trades| == |start.trades| + c.tradeCount
    && c.db.trades[..|start.trades|] == start.trades
    && |c.db.snapshots| == |start.snapshots| + c.snapshotCount + c.deltaCount
    && c.db.snapshots[..|start.snapshots|] == start.snapshots
  }

  ghost predicate Consistent(c: Client, subscribed: set<string>, start: Database) {
    LifecycleConsistent(c, subscribed) && CountsConsistent(c, start)
  }

  /** A new client over any store, empty or already populated, satisfies the
      invariant relative to that store. */
  lemma NewClientConsistent(db: Database, marketTickers: seq<string>)
    ensures Consistent(NewClient(db, marketTickers), (set t | t in marketTickers), db)
  {
  }

  /** Appending rows keeps every prefix of the table. */
  lemma PrefixKept<T>(before: seq<T>, after: seq<T>, start: seq<T>)
    requires |start| <= |before| <= |after|
    requires before[..|start|] == start && after[..|before|] == before
    ensures after[..|start|] == start
  {
    assert after[..|start|] == after[..|before|][..|start|];
  }

  /** Handling one message preserves the lifecycle half. */
  lemma StepLifecycle(c: Client, subscribed: set<string>, m: Message, now: int)
    requires LifecycleConsistent(c, subscribed)
    ensures LifecycleConsistent(Step(c, m, now), subscribed)
  {
    var r := Step(c, m, now);
    if Determines(c, m) {
      var t := m.ticker.value;
      assert |r.determined| == |c.determined| + 1;
      UnsubscribedSnoc(c.unsubscribes, Unsubscribe(MarketChannels, [t]));
    }
  }

  /** Handling one message preserves the storage half. */
  lemma StepCounts(c: Client, start: Database, m: Message, now: int)
    requires CountsConsistent(c, start)
    ensures CountsConsistent(Step(c, m, now), start)
  {
    var r := Step(c, m, now);
    assert r.db.trades[..|c.db.trades|] == c.db.trades;
    assert r.db.snapshots[..|c.db.snapshots|] == c.db.snapshots;
    PrefixKept(c.db.trades, r.db.trades, start.trades);
    PrefixKept(c.db.snapshots, r.db.snapshots, start.snapshots);
  }

  lemma StepConsistent(c: Client, subscribed: set<string>, start: Database, m: Message, now: int)
    requires Consistent(c, subscribed, start)
    ensures Consistent(Step(c, m, now), subscribed, start)
  {
    StepLifecycle(c, subscribed, m, now);
    StepCounts(c, start, m, now);
  }

  /** Over any sequence of messages the client stays consistent, the active
      set never grows and no market ever leaves the determined set. */
  lemma {:induction false} RunConsistent(c: Client, subscribed: set<string>, start: Database, arrivals: seq<Arrival>)
    requires Consistent(c, subscribed, start)
    ensures Consistent(Run(c, arrivals), subscribed, start)
    ensures Run(c, arrivals).active <= c.active
    ensures c.determined <= Run(c, arrivals).determined
    ensures Run(c, arrivals).active !! Run(c, arrivals).determined
    decreases |arrivals|
  {
    if |arrivals| > 0 {
      var next := Step(c, arrivals[0].msg, arrivals[0].now);
      StepConsistent(c, subscribed, start, arrivals[0].msg, arrivals[0].now);
      RunConsistent(next, subscribed, start, arrivals[1..]);
    }
  }

  /** Once every subscribed market has been determined (and there was at least
      one), the client has asked to close the connection, whatever the store
      already held. */
  lemma AllDeterminedCloses(db: Database, marketTickers: seq<string>, arrivals: seq<Arrival>)
    requires |marketTickers| > 0
    requires (set t | t in marketTickers) <= Run(NewClient(db, marketTickers), arrivals).determined
    ensures Run(NewClient(db, marketTickers), arrivals).closed
  {
    var subscribed := set t | t in marketTickers;
    NewClientConsistent(db, marketTickers);
    RunConsistent(NewClient(db, marketTickers), subscribed, db, arrivals);
    assert marketTickers[0] in subscribed;
  }
}
