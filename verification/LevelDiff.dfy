/** The orderbook service: publishes the difference between successive booksides as level updates
    and order updates, which consumers replay. */
module LevelDiff {
  import opened Options

  datatype Order = Order(price: real, quantity: real, owner: nat)

  datatype Level = Level(price: real, quantity: real)

  // ---- Levels of a bookside ----

  /** Groups neighbouring orders of equal price and sums their quantities. */
  function Levels(orders: seq<Order>): (levels: seq<Level>)
    ensures orders == [] <==> levels == []
    ensures orders != [] ==> levels[|levels| - 1].price == orders[|orders| - 1].price
  {
    if orders == [] then []
    else
      var n, last := |orders| - 1, orders[|orders| - 1];
      var before := Levels(orders[..n]);
      if before != [] && before[|before| - 1].price == last.price then
        before[..|before| - 1] + [Level(last.price, before[|before| - 1].quantity + last.quantity)]
      else before + [Level(last.price, last.quantity)]
  }

  /** The quantity of the first level at a price. */
  function Find(levels: seq<Level>, price: real): Option<real> {
    if levels == [] then None
    else
      var before := Find(levels[..|levels| - 1], price);
      if before.Some? then before
      else if levels[|levels| - 1].price == price then Some(levels[|levels| - 1].quantity)
      else None
  }

  /** The total quantity of the orders at a price, None if there are none. */
  function TotalAt(orders: seq<Order>, price: real): Option<real> {
    if orders == [] then None
    else
      var before, last := TotalAt(orders[..|orders| - 1], price), orders[|orders| - 1];
      if last.price != price then before
      else Some((if before.Some? then before.value else 0.0) + last.quantity)
  }

  /** Orders are listed from best to worst price: descending for bids, ascending for asks. */
  ghost predicate Ordered(orders: seq<Order>, bids: bool) {
    forall i, j :: 0 <= i < j < |orders| ==>
      if bids then orders[i].price >= orders[j].price else orders[i].price <= orders[j].price
  }

  ghost predicate Distinct(levels: seq<Level>) {
    forall i, j :: 0 <= i < j < |levels| ==> levels[i].price != levels[j].price
  }

  lemma {:induction false} TotalAtAbsent(orders: seq<Order>, price: real)
    requires forall i :: 0 <= i < |orders| ==> orders[i].price != price
    ensures TotalAt(orders, price).None?
  {
    if orders != [] { TotalAtAbsent(orders[..|orders| - 1], price); }
  }

  lemma {:induction false} FindAbsent(levels: seq<Level>, price: real)
    ensures Find(levels, price).None? <==> forall i :: 0 <= i < |levels| ==> levels[i].price != price
  {
    if levels != [] { FindAbsent(levels[..|levels| - 1], price); }
  }

  lemma FindAppend(levels: seq<Level>, x: Level, price: real)
    ensures Find(levels + [x], price)
            == if Find(levels, price).Some? then Find(levels, price)
               else if x.price == price then Some(x.quantity) else None
  {
    assert (levels + [x])[..|levels|] == levels;
  }

  /** What grouping does with one more order, for every price. */
  lemma OneMoreOrder(before: seq<Level>, price: real, quantity: real, at: real)
    requires Distinct(before)
    requires before == [] || before[|before| - 1].price == price || Find(before, price).None?
    ensures var joins := before != [] && before[|before| - 1].price == price;
            var after := if joins then before[..|before| - 1] + [Level(price, before[|before| - 1].quantity + quantity)]
                         else before + [Level(price, quantity)];
            && Distinct(after)
            && Find(after, at) == if at != price then Find(before, at)
                                  else Some((if Find(before, at).Some? then Find(before, at).value else 0.0) + quantity)
  {
    hide Find;
    FindAbsent(before, price);
    if before != [] && before[|before| - 1].price == price {
      var m := |before| - 1;
      assert before == before[..m] + [before[m]];
      FindAppend(before[..m], before[m], at);
      FindAppend(before[..m], Level(price, before[m].quantity + quantity), at);
      FindAbsent(before[..m], price);
    } else {
      FindAppend(before, Level(price, quantity), at);
    }
  }

  /** For an ordered bookside, the levels have distinct prices and hold the totals. */
  lemma {:induction false} LevelsHoldTotals(orders: seq<Order>, bids: bool)
    requires Ordered(orders, bids)
    ensures Distinct(Levels(orders))
    ensures forall price :: Find(Levels(orders), price) == TotalAt(orders, price)
  {
    hide Find, Distinct;
    if orders == [] {
      forall price ensures Find([], price) == None { FindAbsent([], price); }
      assert Distinct(Levels(orders)) by { NoLevels(); }
    } else {
      var n, last := |orders| - 1, orders[|orders| - 1];
      var before := Levels(orders[..n]);
      LevelsHoldTotals(orders[..n], bids);
      if before != [] && before[|before| - 1].price != last.price {
        forall i | 0 <= i < n ensures orders[i].price != last.price {
          assert orders[n - 1].price != last.price;
        }
        TotalAtAbsent(orders[..n], last.price);
      }
      forall price ensures Distinct(Levels(orders)) && Find(Levels(orders), price) == TotalAt(orders, price) {
        OneMoreOrder(before, last.price, last.quantity, price);
      }
      OneMoreOrder(before, last.price, last.quantity, last.price);
    }
  }

  lemma NoLevels()
    ensures Distinct([])
  {}

  // ---- The level update ----

  /** Levels of `prev` whose price is gone, with quantity 0. */
  function Removed(prev: seq<Level>, cur: seq<Level>): seq<Level> {
    if prev == [] then []
    else
      var last := prev[|prev| - 1];
      Removed(prev[..|prev| - 1], cur) + if Find(cur, last.price).None? then [Level(last.price, 0.0)] else []
  }

  /** Levels of `cur` that are new or have another quantity. */
  function Changed(cur: seq<Level>, prev: seq<Level>): seq<Level> {
    if cur == [] then []
    else
      var last := cur[|cur| - 1];
      Changed(cur[..|cur| - 1], prev) + if Find(prev, last.price) == Some(last.quantity) then [] else [last]
  }

  function LevelUpdateOf(cur: seq<Level>, prev: seq<Level>): seq<Level> {
    Removed(prev, cur) + Changed(cur, prev)
  }

  // ---- The consumer of level updates ----

  type Book = map<real, real>

  /** Quantity 0 removes a level. */
  function Apply(book: Book, update: seq<Level>): Book {
    if update == [] then book
    else
      var before, l := Apply(book, update[..|update| - 1]), update[|update| - 1];
      if l.quantity == 0.0 then before - {l.price} else before[l.price := l.quantity]
  }

  function At(book: Book, price: real): Option<real> {
    if price in book then Some(book[price]) else None
  }

  ghost predicate Holds(book: Book, levels: seq<Level>) {
    forall price :: At(book, price) == Find(levels, price)
  }

  /** The last entry for a price decides. */
  function Mentioned(update: seq<Level>, price: real): Option<real> {
    if update == [] then None
    else if update[|update| - 1].price == price then Some(update[|update| - 1].quantity)
    else Mentioned(update[..|update| - 1], price)
  }

  lemma {:induction false} ApplyAt(book: Book, update: seq<Level>, price: real)
    ensures At(Apply(book, update), price)
            == match Mentioned(update, price)
               case None => At(book, price)
               case Some(q) => if q == 0.0 then None else Some(q)
  {
    if update != [] { ApplyAt(book, update[..|update| - 1], price); }
  }

  lemma {:induction false} MentionedConcat(a: seq<Level>, b: seq<Level>, price: real)
    ensures Mentioned(a + b, price) == if Mentioned(b, price).Some? then Mentioned(b, price) else Mentioned(a, price)
  {
    if b == [] {
      assert a + b == a;
    } else {
      assert (a + b)[..|a + b| - 1] == a + b[..|b| - 1];
      MentionedConcat(a, b[..|b| - 1], price);
    }
  }

  lemma MentionedAppend(update: seq<Level>, l: Level, price: real)
    ensures Mentioned(update + [l], price) == if l.price == price then Some(l.quantity) else Mentioned(update, price)
  {
    assert (update + [l])[..|update|] == update;
  }

  lemma {:induction false} RemovedMentions(prev: seq<Level>, cur: seq<Level>, price: real)
    ensures Mentioned(Removed(prev, cur), price)
            == if Find(prev, price).Some? && Find(cur, price).None? then Some(0.0) else None
  {
    if prev != [] {
      var rest, last := prev[..|prev| - 1], prev[|prev| - 1];
      RemovedMentions(rest, cur, price);
      if Find(cur, last.price).None? {
        MentionedAppend(Removed(rest, cur), Level(last.price, 0.0), price);
      } else {
        assert Removed(rest, cur) + [] == Removed(rest, cur);
      }
    }
  }

  lemma {:induction false} ChangedMentions(cur: seq<Level>, prev: seq<Level>, price: real)
    requires Distinct(cur)
    ensures Mentioned(Changed(cur, prev), price)
            == if Find(cur, price).Some? && Find(prev, price) != Find(cur, price) then Find(cur, price) else None
  {
    if cur != [] {
      var rest, last := cur[..|cur| - 1], cur[|cur| - 1];
      ChangedMentions(rest, prev, price);
      assert Find(rest, last.price).None? by { FindAbsent(rest, last.price); }
      if Find(prev, last.price) != Some(last.quantity) {
        MentionedAppend(Changed(rest, prev), last, price);
      } else {
        assert Changed(rest, prev) + [] == Changed(rest, prev);
      }
    }
  }

  /** The update names exactly the prices whose quantity changed, with the new quantity or 0. */
  lemma UpdateNamesChanges(cur: seq<Level>, prev: seq<Level>, price: real)
    requires Distinct(cur)
    ensures Mentioned(LevelUpdateOf(cur, prev), price)
            == if Find(cur, price) == Find(prev, price) then None
               else Some(if Find(cur, price).Some? then Find(cur, price).value else 0.0)
  {
    MentionedConcat(Removed(prev, cur), Changed(cur, prev), price);
    RemovedMentions(prev, cur, price);
    ChangedMentions(cur, prev, price);
  }

  lemma {:induction false} MentionedWhenPresent(update: seq<Level>, i: nat)
    requires i < |update|
    ensures Mentioned(update, update[i].price).Some?
  {
    if i < |update| - 1 { MentionedWhenPresent(update[..|update| - 1], i); }
  }

  /** A consumer of the previous levels ends with exactly the current ones if and only if no level
      changed to quantity 0; real orders have positive quantities. */
  lemma ReplayGivesCurrent(book: Book, cur: seq<Level>, prev: seq<Level>)
    requires Distinct(cur) && Holds(book, prev)
    ensures Holds(Apply(book, LevelUpdateOf(cur, prev)), cur)
            <==> forall price :: Find(cur, price) == Some(0.0) ==> Find(prev, price) == Some(0.0)
  {
    var after := Apply(book, LevelUpdateOf(cur, prev));
    forall price
      ensures At(after, price) == Find(cur, price)
              <==> (Find(cur, price) == Some(0.0) ==> Find(prev, price) == Some(0.0))
    {
      ApplyAt(book, LevelUpdateOf(cur, prev), price);
      UpdateNamesChanges(cur, prev, price);
      assert At(book, price) == Find(prev, price);
    }
    if Holds(after, cur) {
      forall price | Find(cur, price) == Some(0.0) ensures Find(prev, price) == Some(0.0) {
        assert At(after, price) == Find(cur, price);
      }
    } else {
      var price :| At(after, price) != Find(cur, price);
      assert Find(cur, price) == Some(0.0) && Find(prev, price) != Some(0.0);
    }
  }

  /** The update is empty exactly when the levels agree. */
  lemma EmptyUpdateMeansEqual(cur: seq<Level>, prev: seq<Level>)
    requires Distinct(cur)
    ensures LevelUpdateOf(cur, prev) == [] <==> forall price :: Find(cur, price) == Find(prev, price)
  {
    var update := LevelUpdateOf(cur, prev);
    if update == [] {
      forall price ensures Find(cur, price) == Find(prev, price) {
        UpdateNamesChanges(cur, prev, price);
      }
    } else {
      MentionedWhenPresent(update, 0);
      UpdateNamesChanges(cur, prev, update[0].price);
    }
  }

  /** All prices named, once each. */
  lemma {:induction false} UpdateNamesOnce(cur: seq<Level>, prev: seq<Level>)
    requires Distinct(cur) && Distinct(prev)
    ensures Distinct(LevelUpdateOf(cur, prev))
  {
    RemovedDistinct(prev, cur);
    ChangedDistinct(cur, prev);
    var a, b := Removed(prev, cur), Changed(cur, prev);
    forall i, j | 0 <= i < |a| && 0 <= j < |b| ensures a[i].price != b[j].price {
      MentionedWhenPresent(a, i);
      MentionedWhenPresent(b, j);
      RemovedMentions(prev, cur, a[i].price);
      ChangedMentions(cur, prev, b[j].price);
    }
  }

  lemma {:induction false} RemovedDistinct(prev: seq<Level>, cur: seq<Level>)
    requires Distinct(prev)
    ensures Distinct(Removed(prev, cur))
  {
    if prev != [] {
      var rest, last := prev[..|prev| - 1], prev[|prev| - 1];
      RemovedDistinct(rest, cur);
      var r := Removed(rest, cur);
      forall i | 0 <= i < |r| ensures r[i].price != last.price {
        MentionedWhenPresent(r, i);
        RemovedMentions(rest, cur, r[i].price);
        FindAbsent(rest, r[i].price);
      }
    }
  }

  lemma {:induction false} ChangedDistinct(cur: seq<Level>, prev: seq<Level>)
    requires Distinct(cur)
    ensures Distinct(Changed(cur, prev))
  {
    if cur != [] {
      var rest, last := cur[..|cur| - 1], cur[|cur| - 1];
      ChangedDistinct(rest, prev);
      var r := Changed(rest, prev);
      forall i | 0 <= i < |r| ensures r[i].price != last.price {
        MentionedWhenPresent(r, i);
        ChangedMentions(rest, prev, r[i].price);
        FindAbsent(rest, r[i].price);
      }
    }
  }

  // ---- The order update ----

  function Minus(a: seq<Order>, b: seq<Order>): seq<Order> {
    if a == [] then []
    else Minus(a[..|a| - 1], b) + if a[|a| - 1] in b then [] else [a[|a| - 1]]
  }

  lemma {:induction false} MinusContains(a: seq<Order>, b: seq<Order>, o: Order)
    ensures o in Minus(a, b) <==> o in a && o !in b
  {
    if a != [] {
      MinusContains(a[..|a| - 1], b, o);
      assert a == a[..|a| - 1] + [a[|a| - 1]];
    }
  }

  function SetOf(orders: seq<Order>): set<Order> {
    set o | o in orders
  }

  /** A consumer's set of orders after the order update, which is sent only if there are both
      additions and removals. */
  function ApplyOrders(book: set<Order>, cur: seq<Order>, prev: seq<Order>): set<Order> {
    var additions, removals := Minus(cur, prev), Minus(prev, cur);
    if additions != [] && removals != [] then book - SetOf(removals) + SetOf(additions) else book
  }

  /** It follows the orders exactly unless one set of orders properly contains the other: pure
      additions and pure removals are not published. */
  lemma OrderUpdateTracks(cur: seq<Order>, prev: seq<Order>)
    ensures ApplyOrders(SetOf(prev), cur, prev) == SetOf(cur)
            <==> !(SetOf(prev) < SetOf(cur)) && !(SetOf(cur) < SetOf(prev))
  {
    var additions, removals := Minus(cur, prev), Minus(prev, cur);
    forall o
      ensures o in additions <==> o in SetOf(cur) && o !in SetOf(prev)
      ensures o in removals <==> o in SetOf(prev) && o !in SetOf(cur)
    {
      MinusContains(cur, prev, o);
      MinusContains(prev, cur, o);
    }
    assert additions == [] <==> SetOf(cur) <= SetOf(prev) by {
      if additions != [] { assert additions[0] in additions; }
    }
    assert removals == [] <==> SetOf(prev) <= SetOf(cur) by {
      if removals != [] { assert removals[0] in removals; }
    }
  }

  // ---- publish_changes ----

  datatype Side = Bid | Ask

  datatype Message =
    | BookCheckpoint(bids: seq<Order>, asks: seq<Order>)
    | LevelCheckpoint(bidLevels: seq<Level>, askLevels: seq<Level>)
    | LevelUpdate(side: Side, levels: seq<Level>)
    | BookUpdate(side: Side, additions: seq<Order>, removals: seq<Order>)

  method FindLevel(levels: seq<Level>, price: real) returns (r: Option<real>)
    ensures r == Find(levels, price)
  {
    for i := 0 to |levels|
      invariant Find(levels[..i], price) == None
    {
      assert levels[..i + 1] == levels[..i] + [levels[i]];
      FindAppend(levels[..i], levels[i], price);
      if levels[i].price == price {
        FindPrefix(levels, i + 1, price);
        return Some(levels[i].quantity);
      }
    }
    assert levels[..|levels|] == levels;
    return None;
  }

  lemma {:induction false} FindPrefix(levels: seq<Level>, i: nat, price: real)
    requires i <= |levels| && Find(levels[..i], price).Some?
    ensures Find(levels, price) == Find(levels[..i], price)
  {
    if i < |levels| {
      var n := |levels| - 1;
      assert levels[..n][..i] == levels[..i];
      FindPrefix(levels[..n], i, price);
    } else {
      assert levels[..i] == levels;
    }
  }

  /** The two loops over levels. */
  method DiffLevels(cur: seq<Level>, prev: seq<Level>) returns (update: seq<Level>)
    ensures update == LevelUpdateOf(cur, prev)
  {
    update := [];
    for i := 0 to |prev|
      invariant update == Removed(prev[..i], cur)
    {
      assert prev[..i + 1][..i] == prev[..i];
      var peer := FindLevel(cur, prev[i].price);
      if peer == None {
        update := update + [Level(prev[i].price, 0.0)];
      }
    }
    assert prev[..|prev|] == prev;
    for i := 0 to |cur|
      invariant update == Removed(prev, cur) + Changed(cur[..i], prev)
    {
      assert cur[..i + 1][..i] == cur[..i];
      var peer := FindLevel(prev, cur[i].price);
      if peer.None? || peer.value != cur[i].quantity {
        update := update + [cur[i]];
      }
    }
    assert cur[..|cur|] == cur;
  }

  /** The loops that collect additions and removals of orders. */
  method DiffOrders(a: seq<Order>, b: seq<Order>) returns (r: seq<Order>)
    ensures r == Minus(a, b)
  {
    r := [];
    for i := 0 to |a|
      invariant r == Minus(a[..i], b)
    {
      assert a[..i + 1][..i] == a[..i];
      if a[i] !in b {
        r := r + [a[i]];
      }
    }
    assert a[..|a|] == a;
  }

  /** Full booksides, if the other side is known. */
  function Checkpoints(side: Side, cur: seq<Order>, other: Option<seq<Order>>): seq<Message> {
    if other.None? then []
    else
      var bids := if side == Bid then cur else other.value;
      var asks := if side == Bid then other.value else cur;
      [BookCheckpoint(bids, asks), LevelCheckpoint(Levels(bids), Levels(asks))]
  }

  function PushIf(sent: seq<Message>, cond: bool, m: Message): seq<Message> {
    if cond then sent + [m] else sent
  }

  /** Publishes the change of one side of a market. */
  method PublishChanges(side: Side, cur: seq<Order>, prev: seq<Order>, other: Option<seq<Order>>)
    returns (sent: seq<Message>)
    ensures var update, additions, removals :=
              LevelUpdateOf(Levels(cur), Levels(prev)), Minus(cur, prev), Minus(prev, cur);
            var levelsSent := PushIf(Checkpoints(side, cur, other), update != [], LevelUpdate(side, update));
            sent == PushIf(levelsSent, additions != [] && removals != [], BookUpdate(side, additions, removals))
  {
    var removals := DiffOrders(prev, cur);
    var update := DiffLevels(Levels(cur), Levels(prev));
    var additions := DiffOrders(cur, prev);
    sent := Checkpoints(side, cur, other);
    if |update| > 0 {
      sent := sent + [LevelUpdate(side, update)];
    }
    if |additions| > 0 && |removals| > 0 {
      sent := sent + [BookUpdate(side, additions, removals)];
    }
  }

  // ---- Runs ----

  /** The level updates published while a side goes through the given booksides. */
  function RunUpdates(books: seq<seq<Order>>): seq<seq<Level>> {
    if |books| <= 1 then []
    else RunUpdates(books[..|books| - 1]) + [LevelUpdateOf(Levels(books[|books| - 1]), Levels(books[|books| - 2]))]
  }

  function ApplyAll(book: Book, updates: seq<seq<Level>>): Book {
    if updates == [] then book else Apply(ApplyAll(book, updates[..|updates| - 1]), updates[|updates| - 1])
  }

  ghost predicate Positive(orders: seq<Order>) {
    forall i :: 0 <= i < |orders| ==> orders[i].quantity > 0.0
  }

  lemma {:induction false} TotalsArePositive(orders: seq<Order>, price: real)
    requires Positive(orders)
    ensures TotalAt(orders, price).Some? ==> TotalAt(orders, price).value > 0.0
  {
    if orders != [] { TotalsArePositive(orders[..|orders| - 1], price); }
  }

  /** A consumer that starts with the first bookside's totals has exactly the last one's after
      replaying every update. */
  lemma {:induction false} RunTracksTotals(book: Book, books: seq<seq<Order>>, bids: bool)
    requires books != []
    requires forall i :: 0 <= i < |books| ==> Ordered(books[i], bids) && Positive(books[i])
    requires forall price :: At(book, price) == TotalAt(books[0], price)
    ensures forall price :: At(ApplyAll(book, RunUpdates(books)), price) == TotalAt(books[|books| - 1], price)
  {
    var n := |books| - 1;
    if n > 0 {
      RunTracksTotals(book, books[..n], bids);
      var before := RunUpdates(books[..n]);
      var update := LevelUpdateOf(Levels(books[n]), Levels(books[n - 1]));
      assert RunUpdates(books)[..|before|] == before;
      LevelsHoldTotals(books[n - 1], bids);
      LevelsHoldTotals(books[n], bids);
      forall price ensures Find(Levels(books[n]), price) != Some(0.0) {
        TotalsArePositive(books[n], price);
      }
      ReplayGivesCurrent(ApplyAll(book, before), Levels(books[n]), Levels(books[n - 1]));
    }
  }

  // ---- Which sides a pass refreshes ----

  datatype Version = Version(slot: nat, writeVersion: nat)

  predicate Newer(a: Version, b: Version) {
    a.slot > b.slot || (a.slot == b.slot && a.writeVersion > b.writeVersion)
  }

  /** The versions of the two booksides and the oracle of a market. */
  datatype Versions = Versions(bids: Version, asks: Version, oracle: Version)

  /** One pass over a market: whether each side is processed, and the versions recorded. The
      oracle's version is recorded with the first side that is processed. */
  function Pass(last: Versions, seen: Versions): (bool, bool, Versions) {
    var bids := Newer(seen.bids, last.bids) || Newer(seen.oracle, last.oracle);
    var afterBids := if bids then last.(bids := seen.bids, oracle := seen.oracle) else last;
    var asks := Newer(seen.asks, afterBids.asks) || Newer(seen.oracle, afterBids.oracle);
    var afterAsks := if asks then afterBids.(asks := seen.asks, oracle := seen.oracle) else afterBids;
    (bids, asks, afterAsks)
  }

  /** A new oracle price refreshes the bids always, but the asks only if they changed as well. */
  lemma OracleRefreshesOnlyBids(last: Versions, seen: Versions)
    ensures Pass(last, seen).1 <==> Newer(seen.asks, last.asks)
    ensures Pass(last, seen).0 <==> Newer(seen.bids, last.bids) || Newer(seen.oracle, last.oracle)
  {}
}
