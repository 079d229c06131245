/** The in-memory order book kept by `OrderbookDatabase` and the rows it
    appends to its two tables. A book is, per market ticker, a YES and a NO
    price-level map from integer price (cents) to resting size. */
module OrderBook {
  import opened Common

  datatype Side = Yes | No {
    function Other(): Side {
      match this
      case Yes => No
      case No => Yes
    }
  }

  datatype Book = Book(yes: map<int, int>, no: map<int, int>) {
    function Levels(side: Side): map<int, int> {
      match side
      case Yes => yes
      case No => no
    }

    function WithLevels(side: Side, m: map<int, int>): (b: Book)
      ensures b.Levels(side) == m && b.Levels(side.Other()) == Levels(side.Other())
    {
      match side
      case Yes => this.(yes := m)
      case No => this.(no := m)
    }
  }

  const EmptyBook := Book(map[], map[])

  type Books = map<string, Book>

  /** The book of a ticker; a ticker seen for the first time starts from empty sides. */
  function BookFor(books: Books, ticker: string): Book {
    if ticker in books then books[ticker] else EmptyBook
  }

  /** `dict.get(price, 0)`. */
  function SizeAt(m: map<int, int>, price: int): int {
    if price in m then m[price] else 0
  }

  /** Every stored level of every book has a strictly positive size. */
  ghost predicate Positive(books: Books) {
    && (forall t, p :: t in books && p in books[t].yes ==> books[t].yes[p] > 0)
    && (forall t, p :: t in books && p in books[t].no ==> books[t].no[p] > 0)
  }

  /** One delta: read the current size (0 if absent), add the change, drop the
      level when the result is not positive and store it otherwise. Only the
      entry (ticker, side, price) can change. */
  function ApplyDelta(books: Books, ticker: string, side: Side, price: int, delta: int): (r: Books)
    ensures ticker in r && r.Keys == books.Keys + {ticker}
    ensures var before := BookFor(books, ticker).Levels(side);
            var after := r[ticker].Levels(side);
            && (price in after <==> SizeAt(before, price) + delta > 0)
            && (price in after ==> after[price] == SizeAt(before, price) + delta)
            && after - {price} == before - {price}
    ensures r[ticker].Levels(side.Other()) == BookFor(books, ticker).Levels(side.Other())
    ensures forall u :: u in books && u != ticker ==> r[u] == books[u]
    ensures Positive(books) ==> Positive(r)
  {
    var book := BookFor(books, ticker);
    var levels := book.Levels(side);
    var newSize := SizeAt(levels, price) + delta;
    var updated := if newSize <= 0 then levels - {price} else levels[price := newSize];
    books[ticker := book.WithLevels(side, updated)]
  }

  /** Prices listed in a sequence of levels. */
  function Prices(levels: seq<PriceLevel>): set<int> {
    set i | 0 <= i < |levels| :: levels[i].price
  }

  /** No later level in the sequence repeats the price of level `i`. */
  predicate LastListing(levels: seq<PriceLevel>, i: int)
    requires 0 <= i < |levels|
  {
    forall j :: i < j < |levels| ==> levels[j].price != levels[i].price
  }

  /** Writes each listed `(price, size)` into `m` in order, so a later listing of
      a price overrides an earlier one. Nothing is cleared and no size is
      filtered: a listed size of zero or below is stored as given. */
  function Merge(m: map<int, int>, levels: seq<PriceLevel>): (r: map<int, int>)
    ensures r.Keys == m.Keys + Prices(levels)
    ensures forall i :: 0 <= i < |levels| && LastListing(levels, i) ==> r[levels[i].price] == levels[i].size
    ensures forall p :: p in m && p !in Prices(levels) ==> r[p] == m[p]
    decreases |levels|
  {
    if |levels| == 0 then m
    else
      var last := levels[|levels| - 1];
      var prefix := levels[..|levels| - 1];
      var prev := Merge(m, prefix);
      PricesSnoc(prefix, last);
      assert levels == prefix + [last];
      var r := prev[last.price := last.size];
      assert forall i :: 0 <= i < |prefix| && LastListing(levels, i) ==> LastListing(prefix, i) && levels[i] == prefix[i];
      r
  }

  lemma PricesSnoc(prefix: seq<PriceLevel>, last: PriceLevel)
    ensures Prices(prefix + [last]) == Prices(prefix) + {last.price}
  {
    var levels := prefix + [last];
    forall p | p in Prices(levels) ensures p in Prices(prefix) + {last.price} {
      var i :| 0 <= i < |levels| && levels[i].price == p;
      if i < |prefix| { assert prefix[i].price == p; }
    }
    forall p | p in Prices(prefix) ensures p in Prices(levels) {
      var i :| 0 <= i < |prefix| && prefix[i].price == p;
      assert levels[i].price == p;
    }
    assert levels[|prefix|].price == last.price;
  }

  predicate StrictlyAscending(levels: seq<PriceLevel>) {
    forall i, j :: 0 <= i < j < |levels| ==> levels[i].price < levels[j].price
  }

  lemma NonEmptyHasElement(keys: set<int>)
    requires keys != {}
    ensures exists k :: k in keys
  {
    if forall k :: k !in keys {
      assert false;
    }
  }

  lemma {:induction false} MinExists(keys: set<int>)
    requires keys != {}
    ensures exists k :: k in keys && forall x :: x in keys ==> k <= x
    decreases |keys|
  {
    NonEmptyHasElement(keys);
    var y :| y in keys;
    var rest := keys - {y};
    if rest == {} {
      forall x | x in keys ensures y <= x {
        assert x !in rest;
      }
    } else {
      MinExists(rest);
      var k :| k in rest && forall x :: x in rest ==> k <= x;
      var m := if y < k then y else k;
      forall x | x in keys ensures m <= x {
        if x != y { assert x in rest; }
      }
      assert m in keys;
    }
  }

  function MinKey(keys: set<int>): (k: int)
    requires keys != {}
    ensures k in keys && forall x :: x in keys ==> k <= x
  {
    MinExists(keys);
    var k :| k in keys && forall x :: x in keys ==> k <= x;
    k
  }

  /** The levels of one side as persisted after a delta (`sorted(d.items())`):
      exactly the map's entries, strictly ascending by price. */
  function SortedLevels(m: map<int, int>): (s: seq<PriceLevel>)
    ensures ListsExactly(s, m)
    ensures StrictlyAscending(s)
    decreases |m|
  {
    if m.Keys == {} then
      assert Prices([]) == {};
      []
    else
      var k := MinKey(m.Keys);
      var rest := m - {k};
      assert rest.Keys == m.Keys - {k};
      var tail := SortedLevels(rest);
      SortedCons(m, k, tail);
      [PriceLevel(k, m[k])] + tail
  }

  /** `s` lists each entry of `m` once and nothing else. */
  ghost predicate ListsExactly(s: seq<PriceLevel>, m: map<int, int>) {
    && |s| == |m|
    && (forall i :: 0 <= i < |s| ==> s[i].price in m && m[s[i].price] == s[i].size)
    && Prices(s) == m.Keys
  }

  lemma SortedCons(m: map<int, int>, k: int, tail: seq<PriceLevel>)
    requires k in m && forall x :: x in m ==> k <= x
    requires ListsExactly(tail, m - {k}) && StrictlyAscending(tail)
    ensures ListsExactly([PriceLevel(k, m[k])] + tail, m)
    ensures StrictlyAscending([PriceLevel(k, m[k])] + tail)
  {
    var s := [PriceLevel(k, m[k])] + tail;
    ConsCard(m, k);
    ConsEntries(m, k, tail);
    ConsAscending(m, k, tail);
    ConsPrices(m, k, tail);
  }

  lemma ConsCard(m: map<int, int>, k: int)
    requires k in m
    ensures |m| == |m - {k}| + 1
  {
    var rest := m - {k};
    assert rest.Keys == m.Keys - {k};
    assert m.Keys == rest.Keys + {k};
  }

  lemma ConsEntries(m: map<int, int>, k: int, tail: seq<PriceLevel>)
    requires k in m
    requires forall i :: 0 <= i < |tail| ==> tail[i].price in m - {k} && (m - {k})[tail[i].price] == tail[i].size
    ensures var s := [PriceLevel(k, m[k])] + tail;
            forall i :: 0 <= i < |s| ==> s[i].price in m && m[s[i].price] == s[i].size
  {
    var s := [PriceLevel(k, m[k])] + tail;
    forall i | 0 <= i < |s| ensures s[i].price in m && m[s[i].price] == s[i].size {
      if i > 0 { assert s[i] == tail[i - 1]; }
    }
  }

  lemma ConsAscending(m: map<int, int>, k: int, tail: seq<PriceLevel>)
    requires k in m && forall x :: x in m ==> k <= x
    requires forall i :: 0 <= i < |tail| ==> tail[i].price in m - {k}
    requires StrictlyAscending(tail)
    ensures StrictlyAscending([PriceLevel(k, m[k])] + tail)
  {
    var s := [PriceLevel(k, m[k])] + tail;
    forall i, j | 0 <= i < j < |s| ensures s[i].price < s[j].price {
      assert s[j] == tail[j - 1];
      assert tail[j - 1].price in m - {k};
      if i > 0 { assert s[i] == tail[i - 1]; }
    }
  }

  lemma ConsPrices(m: map<int, int>, k: int, tail: seq<PriceLevel>)
    requires k in m
    requires Prices(tail) == (m - {k}).Keys
    ensures Prices([PriceLevel(k, m[k])] + tail) == m.Keys
  {
    var s := [PriceLevel(k, m[k])] + tail;
    forall p | p in Prices(s) ensures p in m.Keys {
      var i :| 0 <= i < |s| && s[i].price == p;
      if i > 0 {
        assert s[i] == tail[i - 1];
        assert tail[i - 1].price in Prices(tail);
      }
    }
    forall p | p in m.Keys ensures p in Prices(s) {
      if p == k {
        assert s[0].price == p;
      } else {
        assert p in (m - {k}).Keys;
        var i :| 0 <= i < |tail| && tail[i].price == p;
        assert s[i + 1].price == p;
      }
    }
  }

  /** Replaying a persisted post-delta side into an empty map gives back the
      side it was written from. */
  lemma SortedLevelsRoundTrip(m: map<int, int>)
    ensures Merge(map[], SortedLevels(m)) == m
  {
    ReplayListing(SortedLevels(m), m);
  }

  /** A strictly ascending listing of exactly the entries of `m`, merged into an
      empty map, rebuilds `m`. */
  lemma ReplayListing(s: seq<PriceLevel>, m: map<int, int>)
    requires ListsExactly(s, m) && StrictlyAscending(s)
    ensures Merge(map[], s) == m
  {
    var r := Merge(map[], s);
    assert r.Keys == Prices(s) == m.Keys;
    forall p | p in m ensures r[p] == m[p] {
      var i :| 0 <= i < |s| && s[i].price == p;
      AscendingIsLastListing(s, i);
      assert r[s[i].price] == s[i].size;
    }
  }

  lemma AscendingIsLastListing(s: seq<PriceLevel>, i: int)
    requires StrictlyAscending(s) && 0 <= i < |s|
    ensures LastListing(s, i)
  {
    forall j | i < j < |s| ensures s[j].price != s[i].price {
      assert s[i].price < s[j].price;
    }
  }

  /** A delta message after decoding: `ts` is None when the field is missing,
      empty, or not an ISO-8601 time. */
  datatype Delta = Delta(side: Side, price: int, delta: int, ts: Option<int>)

  datatype TradeRecord = TradeRecord(ts: int, ticker: string, data: TradeData)
  datatype SnapshotRecord = SnapshotRecord(ts: int, ticker: string, data: Snapshot)

  /** The books plus the append-only `trades` and `orderbook_snapshots` tables. */
  datatype Database = Database(books: Books, trades: seq<TradeRecord>, snapshots: seq<SnapshotRecord>)

  function StoreTrade(db: Database, ticker: string, ts: int, data: TradeData): (r: Database)
    ensures r.trades == db.trades + [TradeRecord(ts, ticker, data)]
    ensures r.books == db.books && r.snapshots == db.snapshots
  {
    db.(trades := db.trades + [TradeRecord(ts, ticker, data)])
  }

  /** Merges a full snapshot message into the ticker's book (creating it if
      needed; levels the message does not list keep their sizes) and persists
      the message itself, not the merged book, stamped with `now`. */
  function InitializeFromSnapshot(db: Database, ticker: string, msg: Snapshot, now: int): (r: Database)
    ensures ticker in r.books && r.books.Keys == db.books.Keys + {ticker}
    ensures forall u :: u in db.books && u != ticker ==> u in r.books && r.books[u] == db.books[u]
    ensures r.books[ticker].yes.Keys == BookFor(db.books, ticker).yes.Keys + Prices(msg.yes)
    ensures r.books[ticker].no.Keys == BookFor(db.books, ticker).no.Keys + Prices(msg.no)
    ensures forall p :: p in BookFor(db.books, ticker).yes && p !in Prices(msg.yes) ==>
              p in r.books[ticker].yes && r.books[ticker].yes[p] == BookFor(db.books, ticker).yes[p]
    ensures forall p :: p in BookFor(db.books, ticker).no && p !in Prices(msg.no) ==>
              p in r.books[ticker].no && r.books[ticker].no[p] == BookFor(db.books, ticker).no[p]
    ensures forall i :: 0 <= i < |msg.yes| && LastListing(msg.yes, i) ==>
              msg.yes[i].price in r.books[ticker].yes && r.books[ticker].yes[msg.yes[i].price] == msg.yes[i].size
    ensures forall i :: 0 <= i < |msg.no| && LastListing(msg.no, i) ==>
              msg.no[i].price in r.books[ticker].no && r.books[ticker].no[msg.no[i].price] == msg.no[i].size
    ensures r.snapshots == db.snapshots + [SnapshotRecord(now, ticker, msg)]
    ensures r.trades == db.trades
  {
    var book := BookFor(db.books, ticker);
    var merged := Book(Merge(book.yes, msg.yes), Merge(book.no, msg.no));
    Database(db.books[ticker := merged], db.trades, db.snapshots + [SnapshotRecord(now, ticker, msg)])
  }

  /** The timestamp a delta is persisted under: its own when it parsed, the
      wall clock otherwise. */
  function DeltaTimestamp(d: Delta, now: int): int {
    match d.ts
    case Some(t) => t
    case None => now
  }

  /** Applies one delta and appends a full snapshot of the ticker's post-update
      book, both sides ascending by price. */
  function UpdateOrderbookState(db: Database, ticker: string, d: Delta, now: int): (r: Database)
    ensures r.books == ApplyDelta(db.books, ticker, d.side, d.price, d.delta)
    ensures r.trades == db.trades
    ensures |r.snapshots| == |db.snapshots| + 1 && r.snapshots[..|db.snapshots|] == db.snapshots
    ensures var row := r.snapshots[|db.snapshots|];
            && row.ticker == ticker
            && (d.ts.Some? ==> row.ts == d.ts.value)
            && (d.ts.None? ==> row.ts == now)
            && StrictlyAscending(row.data.yes) && StrictlyAscending(row.data.no)
            && Merge(map[], row.data.yes) == r.books[ticker].yes
            && Merge(map[], row.data.no) == r.books[ticker].no
  {
    var books := ApplyDelta(db.books, ticker, d.side, d.price, d.delta);
    var book := books[ticker];
    SortedLevelsRoundTrip(book.yes);
    SortedLevelsRoundTrip(book.no);
    var snap := Snapshot(SortedLevels(book.yes), SortedLevels(book.no));
    Database(books, db.trades, db.snapshots + [SnapshotRecord(DeltaTimestamp(d, now), ticker, snap)])
  }

  /** Applies deltas in arrival order, each to the book of its own ticker. */
  function ApplyDeltas(books: Books, deltas: seq<(string, Delta)>): Books
    decreases |deltas|
  {
    if |deltas| == 0 then books
    else
      var (ticker, d) := deltas[0];
      ApplyDeltas(ApplyDelta(books, ticker, d.side, d.price, d.delta), deltas[1..])
  }

  /** Starting from books with only positive levels (the empty book included),
      no sequence of deltas, interleaved over any tickers, ever leaves a zero
      or negative level stored. */
  lemma {:induction false} DeltasKeepLevelsPositive(books: Books, deltas: seq<(string, Delta)>)
    requires Positive(books)
    ensures Positive(ApplyDeltas(books, deltas))
    decreases |deltas|
  {
    if |deltas| > 0 {
      var (ticker, d) := deltas[0];
      DeltasKeepLevelsPositive(ApplyDelta(books, ticker, d.side, d.price, d.delta), deltas[1..]);
    }
  }

  /** A delta of minus the resting size removes the level; a positive delta on
      an absent level inserts it with that size. */
  lemma CancelAndInsert(books: Books, ticker: string, side: Side, price: int, delta: int)
    ensures price in BookFor(books, ticker).Levels(side) && delta == -BookFor(books, ticker).Levels(side)[price] ==>
              price !in ApplyDelta(books, ticker, side, price, delta)[ticker].Levels(side)
    ensures price !in BookFor(books, ticker).Levels(side) && delta > 0 ==>
              ApplyDelta(books, ticker, side, price, delta)[ticker].Levels(side)[price] == delta
  {
  }
}
