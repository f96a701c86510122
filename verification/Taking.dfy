/** Taking from the other side of the book: matching a new order against the orders that the
    iteration returns, and applying the result to the trees. */
module Taking {
  import opened Options
  import opened OrderTrees
  import opened NodeKeys
  import opened BookSides
  import opened BookIteration
  import opened Matching

  // ---- Items as the matching expects them ----

  /** Items are what the iteration makes of their orders. */
  ghost predicate Made(v: View, items: seq<Item>) {
    forall i :: 0 <= i < |items| ==>
      if items[i].pegged then !IsSkipped(v, items[i].leaf) && items[i] == PeggedItem(v, items[i].leaf)
      else items[i] == FixedItem(v, items[i].leaf)
  }

  lemma {:induction false} RunIsMade(v: View, fixed: seq<Leaf>, pegged: seq<Leaf>)
    ensures Made(v, Run(v, fixed, pegged))
    decreases |fixed| + |pegged|
  {
    hide IsSkipped, FixedFirst;
    var (item, fixed', pegged') := NextItem(v, fixed, pegged);
    if item.Some? {
      NextItemShrinks(v, fixed, pegged);
      RunIsMade(v, fixed', pegged');
      assert Run(v, fixed, pegged) == [item.value] + Run(v, fixed', pegged');
    }
  }

  /** Orders on the book have positive quantities and fixed ones positive i64 prices. */
  ghost predicate GoodOrders(fixed: set<Leaf>, pegged: set<Leaf>) {
    && (forall x :: x in fixed ==> x.quantity >= 1 && 1 <= PriceData(x.key) <= I64_MAX)
    && (forall x :: x in pegged ==> x.quantity >= 1)
  }

  lemma RunIsOpposing(v: View, t: Taker, fixed: seq<Leaf>, pegged: seq<Leaf>, f: set<Leaf>, p: set<Leaf>)
    requires SortedLeaves(fixed, v.bid) && SortedLeaves(pegged, v.bid) && v.bid == !t.bid
    requires (forall x :: x in fixed ==> x in f) && (forall x :: x in pegged ==> x in p) && GoodOrders(f, p)
    ensures Opposing(t, Run(v, fixed, pegged))
  {
    hide SortedLeaves, WellOrdered, Run, PriceData;
    var items := Run(v, fixed, pegged);
    RunIsMade(v, fixed, pegged);
    RunFromLists(v, fixed, pegged);
    RunWellOrdered(v, fixed, pegged);
    forall i, j | 0 <= i < j < |items| ensures !Better(!t.bid, items[j].price, items[i].price) {
      PricesInOrder(v, items, i, j);
    }
  }

  // ---- What becomes of an order ----

  function TreeOf(x: Item): nat {
    if x.pegged then 1 else 0
  }

  function FillOf(fills: seq<Fill>, i: nat): (r: Option<Fill>)
    ensures r.Some? ==> r.value in fills && r.value.item == i
    ensures r.None? ==> !Filled(fills, i)
  {
    if fills == [] then None
    else if fills[|fills| - 1].item == i then Some(fills[|fills| - 1])
    else FillOf(fills[..|fills| - 1], i)
  }

  /** After the changes: a partly matched order has less left. */
  function Changed(items: seq<Item>, m: Matched, i: nat): Option<Leaf>
    requires i < |items|
  {
    var x, f := items[i].leaf, FillOf(m.fills, i);
    if f.Some? && f.value.quantity != x.quantity then Some(x.(quantity := x.quantity - f.value.quantity)) else Some(x)
  }

  /** After the deletions: matched completely, dropped and cancelled orders are gone. */
  function Final(items: seq<Item>, m: Matched, i: nat): Option<Leaf>
    requires i < |items|
  {
    var f := FillOf(m.fills, i);
    if (f.Some? && f.value.quantity == items[i].leaf.quantity) || i in m.dropped || i in m.cancelled then None
    else Changed(items, m, i)
  }

  ghost predicate IsItem(items: seq<Item>, d: nat, y: Leaf) {
    exists i :: 0 <= i < |items| && TreeOf(items[i]) == d && items[i].leaf == y
  }

  ghost predicate Listed(items: seq<Item>, d: nat, cur: seq<Option<Leaf>>, y: Leaf) {
    exists i :: 0 <= i < |items| && i < |cur| && TreeOf(items[i]) == d && cur[i] == Some(y)
  }

  /** A tree's orders are those that are no items, and what became of those that are. */
  ghost predicate Tracks(orders: set<Leaf>, before: set<Leaf>, items: seq<Item>, d: nat, cur: seq<Option<Leaf>>) {
    forall y :: y in orders <==> (y in before && !IsItem(items, d, y)) || Listed(items, d, cur, y)
  }

  ghost predicate KeysKept(items: seq<Item>, cur: seq<Option<Leaf>>) {
    |cur| == |items| && forall i :: 0 <= i < |cur| && cur[i].Some? ==> cur[i].value.key == items[i].leaf.key
  }

  ghost predicate UniqueKeys(orders: set<Leaf>) {
    forall x, y :: x in orders && y in orders && x.key == y.key ==> x == y
  }

  ghost predicate ItemsAreOrders(items: seq<Item>, fixed: set<Leaf>, pegged: set<Leaf>) {
    forall i :: 0 <= i < |items| ==> items[i].leaf in if items[i].pegged then pegged else fixed
  }

  lemma TracksStart(before: set<Leaf>, items: seq<Item>, d: nat, cur: seq<Option<Leaf>>)
    requires |cur| == |items| && forall i :: 0 <= i < |items| ==> cur[i] == Some(items[i].leaf)
    requires forall i :: 0 <= i < |items| && TreeOf(items[i]) == d ==> items[i].leaf in before
    ensures Tracks(before, before, items, d, cur)
  {
    forall y ensures Listed(items, d, cur, y) <==> IsItem(items, d, y) {
      if IsItem(items, d, y) {
        var i :| 0 <= i < |items| && TreeOf(items[i]) == d && items[i].leaf == y;
        assert cur[i] == Some(y);
      }
    }
  }

  lemma TracksOther(orders: set<Leaf>, before: set<Leaf>, items: seq<Item>, d: nat, cur: seq<Option<Leaf>>, i: nat, x: Option<Leaf>)
    requires Tracks(orders, before, items, d, cur) && i < |items| == |cur| && TreeOf(items[i]) != d
    ensures Tracks(orders, before, items, d, cur[i := x])
  {
    var cur' := cur[i := x];
    forall y ensures Listed(items, d, cur', y) <==> Listed(items, d, cur, y) {
      if Listed(items, d, cur, y) {
        var j :| 0 <= j < |items| && j < |cur| && TreeOf(items[j]) == d && cur[j] == Some(y);
        assert cur'[j] == Some(y);
      }
      if Listed(items, d, cur', y) {
        var j :| 0 <= j < |items| && j < |cur'| && TreeOf(items[j]) == d && cur'[j] == Some(y);
        assert cur[j] == Some(y);
      }
    }
  }

  /** The current order of an item is on the book, and alone has its key. */
  lemma CurrentIsThere(orders: set<Leaf>, before: set<Leaf>, items: seq<Item>, d: nat, cur: seq<Option<Leaf>>, i: nat)
    requires Tracks(orders, before, items, d, cur) && KeysKept(items, cur)
    requires i < |items| && TreeOf(items[i]) == d && cur[i].Some?
    ensures cur[i].value in orders && cur[i].value.key == items[i].leaf.key
  {
    assert Listed(items, d, cur, cur[i].value);
  }

  /** The other items keep their current orders, which have other keys. */
  lemma OthersListed(items: seq<Item>, d: nat, cur: seq<Option<Leaf>>, i: nat, x: Option<Leaf>, y: Leaf)
    requires KeysKept(items, cur) && DistinctItems(items) && i < |items| && TreeOf(items[i]) == d
    requires x.Some? ==> x.value.key == items[i].leaf.key
    ensures Listed(items, d, cur[i := x], y) <==> x == Some(y) || (y.key != items[i].leaf.key && Listed(items, d, cur, y))
  {
    var cur' := cur[i := x];
    if Listed(items, d, cur', y) {
      var j :| 0 <= j < |items| && j < |cur'| && TreeOf(items[j]) == d && cur'[j] == Some(y);
      if j != i { assert cur[j] == Some(y); }
    }
    if x == Some(y) { assert cur'[i] == Some(y); }
    if y.key != items[i].leaf.key && Listed(items, d, cur, y) {
      var j :| 0 <= j < |items| && j < |cur| && TreeOf(items[j]) == d && cur[j] == Some(y);
      assert cur'[j] == Some(y);
    }
  }

  lemma TracksUpdate(orders: set<Leaf>, orders': set<Leaf>, before: set<Leaf>, items: seq<Item>, d: nat,
                     cur: seq<Option<Leaf>>, i: nat, x: Option<Leaf>)
    requires Tracks(orders, before, items, d, cur) && KeysKept(items, cur) && DistinctItems(items)
    requires i < |items| && TreeOf(items[i]) == d && cur[i].Some? && UniqueKeys(before)
    requires items[i].leaf in before && (x.Some? ==> x.value.key == items[i].leaf.key)
    requires orders' == Without(orders, items[i].leaf.key) + if x.Some? then {x.value} else {}
    ensures Tracks(orders', before, items, d, cur[i := x]) && KeysKept(items, cur[i := x])
  {
    hide Listed, DistinctItems;
    forall y
      ensures y in orders' <==> (y in before && !IsItem(items, d, y)) || Listed(items, d, cur[i := x], y)
    {
      OthersListed(items, d, cur, i, x, y);
      if y in before && !IsItem(items, d, y) {
        assert y.key != items[i].leaf.key;
      }
    }
  }

  // ---- Applying the result ----

  /** The first `n` items as they are after the changes (or, from `deleted`, after the deletions). */
  function Stage(items: seq<Item>, m: Matched, n: nat, deleting: bool): seq<Option<Leaf>>
    requires n <= |items|
  {
    seq(|items|, i requires 0 <= i < |items| =>
      if deleting then (if i < n then Final(items, m, i) else Changed(items, m, i))
      else if i < n then Changed(items, m, i) else Some(items[i].leaf))
  }

  lemma StageStep(items: seq<Item>, m: Matched, n: nat, deleting: bool)
    requires n < |items|
    ensures Stage(items, m, n + 1, deleting)
            == Stage(items, m, n, deleting)[n := if deleting then Final(items, m, n) else Changed(items, m, n)]
  {}

  lemma StageTurns(items: seq<Item>, m: Matched)
    ensures Stage(items, m, |items|, false) == Stage(items, m, 0, true)
  {}

  /** Both trees hold what became of the items. */
  ghost predicate BookTracks(book: BookSide, before: seq<set<Leaf>>, items: seq<Item>, cur: seq<Option<Leaf>>)
    requires book.Valid()
    reads book, book.nodes
  {
    && |before| == 2 && KeysKept(items, cur)
    && Tracks(book.Orders(0), before[0], items, 0, cur) && Tracks(book.Orders(1), before[1], items, 1, cur)
  }

  ghost predicate Consistent(before: seq<set<Leaf>>, items: seq<Item>) {
    && |before| == 2 && UniqueKeys(before[0]) && UniqueKeys(before[1])
    && DistinctItems(items) && ItemsAreOrders(items, before[0], before[1])
  }

  /** An item's order was replaced or removed in its tree. */
  lemma ItemUpdated(o0: set<Leaf>, o1: set<Leaf>, o0': set<Leaf>, o1': set<Leaf>, before: seq<set<Leaf>>, items: seq<Item>,
                    cur: seq<Option<Leaf>>, i: nat, x: Option<Leaf>)
    requires Consistent(before, items) && KeysKept(items, cur) && i < |items| && cur[i].Some?
    requires Tracks(o0, before[0], items, 0, cur) && Tracks(o1, before[1], items, 1, cur)
    requires x.Some? ==> x.value.key == items[i].leaf.key
    requires var key, add := items[i].leaf.key, if x.Some? then {x.value} else {};
             if items[i].pegged then o0' == o0 && o1' == Without(o1, key) + add
             else o1' == o1 && o0' == Without(o0, key) + add
    ensures Tracks(o0', before[0], items, 0, cur[i := x]) && Tracks(o1', before[1], items, 1, cur[i := x])
    ensures KeysKept(items, cur[i := x])
  {
    hide Tracks, DistinctItems, UniqueKeys, Without;
    if items[i].pegged {
      TracksUpdate(o1, o1', before[1], items, 1, cur, i, x);
      TracksOther(o0, before[0], items, 0, cur, i, x);
    } else {
      TracksUpdate(o0, o0', before[0], items, 0, cur, i, x);
      TracksOther(o1, before[1], items, 1, cur, i, x);
    }
  }

  /** Writes the new quantities of partly matched orders. */
  method ApplyChanges(book: BookSide, items: seq<Item>, m: Matched, ghost before: seq<set<Leaf>>)
    requires book.Valid() && Consistent(before, items) && BookTracks(book, before, items, Stage(items, m, 0, false))
    modifies book.nodes, book`trees
    ensures book.Valid() && BookTracks(book, before, items, Stage(items, m, |items|, false))
  {
    hide ValidState, OptLeaves, Tracks, KeysKept, Consistent, Without;
    for i := 0 to |items|
      invariant book.Valid() && BookTracks(book, before, items, Stage(items, m, i, false))
    {
      StageStep(items, m, i, false);
      ghost var o0, o1, cur := book.Orders(0), book.Orders(1), Stage(items, m, i, false);
      var x, f := items[i].leaf, FillOf(m.fills, i);
      if f.Some? && f.value.quantity != x.quantity {
        CurrentIsThere(book.Orders(TreeOf(items[i])), before[TreeOf(items[i])], items, TreeOf(items[i]), cur, i);
        CurrentIsOnly(book, TreeOf(items[i]), x);
        var was := book.SetQuantity(TreeOf(items[i]), x.key, x.quantity - f.value.quantity);
        ItemUpdated(o0, o1, book.Orders(0), book.Orders(1), before, items, cur, i, Changed(items, m, i));
      } else {
        assert Stage(items, m, i + 1, false) == cur;
      }
    }
  }

  /** Removes the orders that are to be deleted; each of them is there. */
  method ApplyDeletions(book: BookSide, items: seq<Item>, m: Matched, ghost before: seq<set<Leaf>>)
    requires book.Valid() && Consistent(before, items) && BookTracks(book, before, items, Stage(items, m, 0, true))
    modifies book, book.nodes
    ensures book.Valid() && BookTracks(book, before, items, Stage(items, m, |items|, true))
    ensures book.bumpIndex == old(book.bumpIndex)
  {
    hide ValidState, OptLeaves, Tracks, KeysKept, Consistent, Without;
    for i := 0 to |items|
      invariant book.bumpIndex == old(book.bumpIndex)
      invariant book.Valid() && BookTracks(book, before, items, Stage(items, m, i, true))
    {
      StageStep(items, m, i, true);
      ghost var o0, o1, cur := book.Orders(0), book.Orders(1), Stage(items, m, i, true);
      if Final(items, m, i).None? {
        CurrentIsThere(book.Orders(TreeOf(items[i])), before[TreeOf(items[i])], items, TreeOf(items[i]), cur, i);
        ghost var orders := book.Orders(TreeOf(items[i]));
        WithoutThere(orders, cur[i].value, items[i].leaf.key);
        var removed := book.RemoveByKey(TreeOf(items[i]), items[i].leaf.key);
        assert removed.Some?;
        ItemUpdated(o0, o1, book.Orders(0), book.Orders(1), before, items, cur, i, None);
      } else {
        assert Stage(items, m, i + 1, true) == cur;
      }
    }
  }

  lemma WithoutThere(orders: set<Leaf>, x: Leaf, k: Key)
    requires x in orders && x.key == k
    ensures Without(orders, k) != orders
  {
    assert x !in Without(orders, k);
  }

  lemma CurrentIsOnly(book: BookSide, c: nat, x: Leaf)
    requires book.Valid() && c < 2 && x in book.Orders(c)
    ensures forall y :: y in book.Orders(c) && y.key == x.key ==> y == x
  {
    Component(book.nodes[..], book.bumpIndex, book.freeListHead, book.free, book.roots, book.trees, c);
    OnlyThat(book.trees[c].value, x);
  }

  // ---- Taking ----

  lemma TreeFacts(book: BookSide, c: nat, descending: bool)
    requires book.Valid() && c < 2
    ensures SortedLeaves(OrderOf(book.trees[c], descending), descending) && UniqueKeys(book.Orders(c))
    ensures forall x :: x in OrderOf(book.trees[c], descending) <==> x in book.Orders(c)
  {
    Component(book.nodes[..], book.bumpIndex, book.freeListHead, book.free, book.roots, book.trees, c);
    TreesAreSorted(book.nodes[..], book.roots[c], book.trees[c], descending);
    if book.trees[c].Some? {
      forall x, y | x in book.Orders(c) && y in book.Orders(c) && x.key == y.key ensures x == y {
        KeysDiffer(book.trees[c].value, x, y);
      }
    }
  }

  lemma ItemsOfBook(v: View, t: Taker, fixed: seq<Leaf>, pegged: seq<Leaf>, f: set<Leaf>, p: set<Leaf>)
    requires SortedLeaves(fixed, v.bid) && SortedLeaves(pegged, v.bid) && v.bid == !t.bid
    requires (forall x :: x in fixed <==> x in f) && (forall x :: x in pegged <==> x in p)
    requires GoodOrders(f, p) && UniqueKeys(f) && UniqueKeys(p)
    ensures Opposing(t, Run(v, fixed, pegged)) && Consistent([f, p], Run(v, fixed, pegged))
  {
    hide SortedLeaves, Opposing, GoodOrders, Run, UniqueKeys, DistinctItems;
    RunIsOpposing(v, t, fixed, pegged, f, p);
    RunFromLists(v, fixed, pegged);
  }

  lemma StartTracks(f: set<Leaf>, p: set<Leaf>, items: seq<Item>, m: Matched)
    requires Consistent([f, p], items)
    ensures var cur := Stage(items, m, 0, false);
            KeysKept(items, cur) && Tracks(f, f, items, 0, cur) && Tracks(p, p, items, 1, cur)
  {
    hide Tracks, UniqueKeys, DistinctItems;
    TracksStart(f, items, 0, Stage(items, m, 0, false));
    TracksStart(p, items, 1, Stage(items, m, 0, false));
  }

  /** What is left of an order: as before, but for the quantity. */
  ghost predicate Remnant(y: Leaf, x: Leaf) {
    y == x.(quantity := y.quantity) && (x.quantity >= 1 ==> y.quantity >= 1)
  }

  /** Every order that is left is what remains of one that was there. */
  lemma LeftIsRemnant(t: Taker, items: seq<Item>, n: nat, m: Matched, before: set<Leaf>, orders: set<Leaf>, d: nat, y: Leaf)
    returns (x: Leaf)
    requires Progress(t, items, n, m) && Tracks(orders, before, items, d, Stage(items, m, |items|, true)) && y in orders
    requires forall i :: 0 <= i < |items| && TreeOf(items[i]) == d ==> items[i].leaf in before
    ensures x in before && Remnant(y, x)
  {
    hide Conserves, NoneSkipped, PartialsExplained, Removals, PartialIsLast;
    if y in before && !IsItem(items, d, y) {
      x := y;
    } else {
      var cur := Stage(items, m, |items|, true);
      var i :| 0 <= i < |items| && i < |cur| && TreeOf(items[i]) == d && cur[i] == Some(y);
      var f := FillOf(m.fills, i);
      x := items[i].leaf;
      if f.Some? {
        var k :| 0 <= k < |m.fills| && m.fills[k] == f.value;
        assert GoodFill(t, items, m.fills[k]);
      }
    }
  }

  /** So quantities and prices stay positive. */
  lemma StillGood(t: Taker, items: seq<Item>, n: nat, m: Matched, f: set<Leaf>, p: set<Leaf>, f': set<Leaf>, p': set<Leaf>)
    requires Progress(t, items, n, m) && GoodOrders(f, p) && ItemsAreOrders(items, f, p)
    requires var cur := Stage(items, m, |items|, true); Tracks(f', f, items, 0, cur) && Tracks(p', p, items, 1, cur)
    ensures GoodOrders(f', p')
  {
    hide Progress, Tracks;
    forall y | y in f' ensures y.quantity >= 1 && 1 <= PriceData(y.key) <= I64_MAX {
      var x := LeftIsRemnant(t, items, n, m, f, f', 0, y);
    }
    forall y | y in p' ensures y.quantity >= 1 {
      var x := LeftIsRemnant(t, items, n, m, p, p', 1, y);
    }
  }

  /** Matches a new order against a side and applies the result. Either the instruction fails, or
      each order of the side is left alone, has exactly the matched quantity less, or is gone
      because it was matched completely, invalid or the taker's own. */
  method Take(book: BookSide, v: View, t: Taker, limit: nat, room: nat)
    returns (r: Outcome, m: Matched, items: seq<Item>)
    requires book.Valid() && v.bid == !t.bid && GoodOrders(book.Orders(0), book.Orders(1))
    modifies book, book.nodes
    ensures items == old(Run(v, OrderOf(book.trees[0], v.bid), OrderOf(book.trees[1], v.bid))) && Opposing(t, items)
    ensures r == MatchOutcome(t, items, limit, room)
    ensures r == Done ==> m == MatchResult(t, items, limit) && Matching.Events(m) <= room
    ensures book.Valid() && GoodOrders(book.Orders(0), book.Orders(1)) && book.bumpIndex == old(book.bumpIndex)
    ensures r == Done ==>
              BookTracks(book, [old(book.Orders(0)), old(book.Orders(1))], items, Stage(items, m, |items|, true))
    ensures r != Done ==> book.Orders(0) == old(book.Orders(0)) && book.Orders(1) == old(book.Orders(1))
  {
    hide ValidState, OptLeaves, Tracks, KeysKept, Without, Progress, Opposing, WellOrdered, Run, OrderOf, GoodOrders,
         MatchOutcome, MatchResult, End, DistinctItems, UniqueKeys, Stage;
    ghost var f, p := book.Orders(0), book.Orders(1);
    TreeFacts(book, 0, v.bid);
    TreeFacts(book, 1, v.bid);
    items := IterAll(book, v);
    ItemsOfBook(v, t, OrderOf(book.trees[0], v.bid), OrderOf(book.trees[1], v.bid), f, p);
    OpposingPriced(t, items);
    r, m := Match(t, items, limit, room);
    if r == Done {
      StartTracks(f, p, items, m);
      ApplyChanges(book, items, m, [f, p]);
      StageTurns(items, m);
      ApplyDeletions(book, items, m, [f, p]);
      ResultKeepsPromises(t, items, limit);
      StillGood(t, items, End(t, items, limit), m, f, p, book.Orders(0), book.Orders(1));
    }
  }

  // ---- What is left on the side ----

  /** The state the iteration gives an order, whether or not it returns it. */
  function StateOf(v: View, pegged: bool, x: Leaf): OrderState {
    if IsExpired(x, v.now) then Invalid else if pegged then PeggedPrice(v, x).0 else Valid
  }

  /** A valid order within the new order's limit. */
  predicate Crosses(v: View, t: Taker, pegged: bool, x: Leaf) {
    StateOf(v, pegged, x) == Valid && Within(t, OrderPrice(v, pegged, x))
  }

  ghost predicate Crossed(v: View, t: Taker, fixed: set<Leaf>, pegged: set<Leaf>) {
    (exists x :: x in fixed && Crosses(v, t, false, x)) || (exists x :: x in pegged && Crosses(v, t, true, x))
  }

  predicate LostCrosses(v: View, t: Taker, fixed: seq<Leaf>, pegged: seq<Leaf>) {
    var lost := Lost(v, fixed, pegged);
    lost.Some? && Crosses(v, t, true, lost.value)
  }

  /** A listing of a side, as sets. */
  ghost predicate Lists(fixed: seq<Leaf>, pegged: seq<Leaf>, f: set<Leaf>, p: set<Leaf>) {
    (forall x :: x in fixed <==> x in f) && (forall x :: x in pegged <==> x in p)
  }

  /** An item shows its order's state and price. */
  lemma ItemShows(v: View, items: seq<Item>, i: nat)
    requires Made(v, items) && i < |items|
    ensures items[i].state == StateOf(v, items[i].pegged, items[i].leaf)
    ensures items[i].price == OrderPrice(v, items[i].pegged, items[i].leaf)
    ensures items[i].rank == OrderRank(v, items[i].pegged, items[i].leaf)
  {
    hide PriceData, OrderData, Number;
  }

  /** A valid order is an item, unless it is the lost one. */
  lemma ValidIsItem(v: View, fixed: seq<Leaf>, pegged: seq<Leaf>, d: nat, x: Leaf)
    requires SortedLeaves(pegged, v.bid) && d < 2 && x in (if d == 1 then pegged else fixed)
    requires StateOf(v, d == 1, x) == Valid
    ensures IsItem(Run(v, fixed, pegged), d, x) <==> d == 0 || Some(x) != Lost(v, fixed, pegged)
  {
    hide Run, Lost, PriceData, OrderData, Number, Before;
    var items := Run(v, fixed, pegged);
    var item := if d == 1 then PeggedItem(v, x) else FixedItem(v, x);
    ReturnedExactly(v, fixed, pegged, item);
    if item in items {
      var i :| 0 <= i < |items| && items[i] == item;
      assert TreeOf(items[i]) == d && items[i].leaf == x;
    }
    if IsItem(items, d, x) {
      var i :| 0 <= i < |items| && TreeOf(items[i]) == d && items[i].leaf == x;
      ReturnedExactly(v, fixed, pegged, items[i]);
    }
  }

  lemma RemnantCrosses(v: View, t: Taker, pegged: bool, y: Leaf, x: Leaf)
    requires y == x.(quantity := y.quantity)
    ensures Crosses(v, t, pegged, y) <==> Crosses(v, t, pegged, x)
  {}

  /** An item is left and crosses exactly when what became of it does. */
  lemma FinalCrosses(v: View, t: Taker, items: seq<Item>, n: nat, m: Matched, i: nat)
    requires Made(v, items) && i < |items| && Progress(t, items, n, m)
    ensures LeftCrossing(t, items, m, i) <==>
              var y := Final(items, m, i); y.Some? && Crosses(v, t, items[i].pegged, y.value)
  {
    hide Conserves, NoneSkipped, PartialsExplained, PartialIsLast, Crosses, Made, StateOf, OrderPrice;
    ItemShows(v, items, i);
    assert Crosses(v, t, items[i].pegged, items[i].leaf) <==> items[i].state == Valid && Within(t, items[i].price) by {
      CrossesItem(v, t, items[i].pegged, items[i].leaf);
    }
    var y, f := Final(items, m, i), FillOf(m.fills, i);
    if y.Some? { RemnantCrosses(v, t, items[i].pegged, y.value, items[i].leaf); }
    if f.Some? {
      OnlyFill(t, items, n, m.fills, i, f.value);
    }
  }

  lemma CrossesItem(v: View, t: Taker, pegged: bool, x: Leaf)
    ensures Crosses(v, t, pegged, x) <==> StateOf(v, pegged, x) == Valid && Within(t, OrderPrice(v, pegged, x))
  {}

  lemma OnlyFill(t: Taker, items: seq<Item>, n: nat, fills: seq<Fill>, i: nat, f: Fill)
    requires GoodFills(t, items, n, fills) && f in fills && f.item == i
    ensures forall k :: 0 <= k < |fills| && fills[k].item == i ==> fills[k] == f
  {}

  ghost predicate LeftIn(t: Taker, items: seq<Item>, m: Matched, d: nat, i: nat) {
    i < |items| && LeftCrossing(t, items, m, i) && TreeOf(items[i]) == d
  }

  /** A tree after the matching holds a crossing order exactly when an item of the tree is left and
      crosses, or the lost order does. */
  lemma TreeCrossed(v: View, t: Taker, fixed: seq<Leaf>, pegged: seq<Leaf>, n: nat, m: Matched, d: nat,
                    before: set<Leaf>, orders: set<Leaf>)
    requires SortedLeaves(pegged, v.bid) && d < 2 && forall x :: x in (if d == 1 then pegged else fixed) <==> x in before
    requires var items := Run(v, fixed, pegged);
             && Made(v, items) && Progress(t, items, n, m) && Tracks(orders, before, items, d, Stage(items, m, |items|, true))
    ensures (exists x :: x in orders && Crosses(v, t, d == 1, x)) <==>
              || (exists i: nat :: LeftIn(t, Run(v, fixed, pegged), m, d, i))
              || (d == 1 && LostCrosses(v, t, fixed, pegged))
  {
    hide Run, Lost, Progress, Made, StateOf, OrderPrice, Before, LeftCrossing, Final, Within, IsItem, SortedLeaves;
    var items := Run(v, fixed, pegged);
    var cur := Stage(items, m, |items|, true);
    if x :| x in orders && Crosses(v, t, d == 1, x) {
      if Listed(items, d, cur, x) {
        var i :| 0 <= i < |items| && i < |cur| && TreeOf(items[i]) == d && cur[i] == Some(x);
        FinalCrosses(v, t, items, n, m, i);
        assert LeftIn(t, items, m, d, i);
      } else {
        ValidIsItem(v, fixed, pegged, d, x);
      }
    }
    if i: nat :| LeftIn(t, items, m, d, i) {
      FinalCrosses(v, t, items, n, m, i);
      assert cur[i] == Final(items, m, i);
      assert Listed(items, d, cur, cur[i].value);
    }
    if d == 1 && LostCrosses(v, t, fixed, pegged) {
      var x := Lost(v, fixed, pegged).value;
      LostIsPegged(v, fixed, pegged);
      ValidIsItem(v, fixed, pegged, 1, x);
    }
  }

  lemma LostIsPegged(v: View, fixed: seq<Leaf>, pegged: seq<Leaf>)
    requires Lost(v, fixed, pegged).Some?
    ensures Lost(v, fixed, pegged).value in pegged
  {
    hide IsSkipped, FixedFirst;
    ShownFrom(v, pegged);
  }

  lemma {:induction false} ShownFrom(v: View, s: seq<Leaf>)
    ensures forall x :: x in Shown(v, s) ==> x in s
  {
    if s != [] { ShownFrom(v, s[..|s| - 1]); }
  }

  /** When a remainder is posted, a valid order that it crosses is left on the other side if and only
      if the iteration lost such an order, or matching the whole order would have cost too much. */
  lemma CrossedExactly(v: View, t: Taker, fixed: seq<Leaf>, pegged: seq<Leaf>, limit: nat,
                       f: set<Leaf>, p: set<Leaf>, f': set<Leaf>, p': set<Leaf>)
    requires SortedLeaves(pegged, v.bid) && Lists(fixed, pegged, f, p) && Opposing(t, Run(v, fixed, pegged)) && t.price >= 1
    requires var items := Run(v, fixed, pegged);
             var cur := Stage(items, MatchResult(t, items, limit), |items|, true);
             && Remains(t, items, limit) && Tracks(f', f, items, 0, cur) && Tracks(p', p, items, 1, cur)
    ensures var items := Run(v, fixed, pegged);
            Crossed(v, t, f', p') <==> LostCrosses(v, t, fixed, pegged) || t.maxQuote < Needed(t, items, |items|)
  {
    hide Run, LostCrosses, Progress, Made, Crosses, SortedLeaves, LeftCrossing, Needed, Remains, Tracks, Stage, Opposing, MatchResult;
    var items := Run(v, fixed, pegged);
    OpposingPriced(t, items);
    var m, e := MatchResult(t, items, limit), End(t, items, limit);
    RunIsMade(v, fixed, pegged);
    ResultKeepsPromises(t, items, limit);
    TreeCrossed(v, t, fixed, pegged, e, m, 0, f, f');
    TreeCrossed(v, t, fixed, pegged, e, m, 1, p, p');
    RemainderCrosses(t, items, limit);
    if j: nat :| LeftCrossing(t, items, m, j) {
      assert j < |items| by { LeftIsItem(t, items, m, j); }
      assert LeftIn(t, items, m, 0, j) || LeftIn(t, items, m, 1, j);
    }
  }

  /** A bid that is posted leaves an ask it crosses only if the iteration lost one: not if the pegged
      tree starts with an order that has a price, for example. */
  lemma BidCrossedExactly(v: View, t: Taker, fixed: seq<Leaf>, pegged: seq<Leaf>, limit: nat,
                          f: set<Leaf>, p: set<Leaf>, f': set<Leaf>, p': set<Leaf>)
    requires SortedLeaves(pegged, v.bid) && Lists(fixed, pegged, f, p) && Opposing(t, Run(v, fixed, pegged)) && t.price >= 1
    requires var items := Run(v, fixed, pegged);
             var cur := Stage(items, MatchResult(t, items, limit), |items|, true);
             && Remains(t, items, limit) && Tracks(f', f, items, 0, cur) && Tracks(p', p, items, 1, cur)
    requires t.bid
    ensures Crossed(v, t, f', p') <==> LostCrosses(v, t, fixed, pegged)
  {
    hide Run, LostCrosses, SortedLeaves, Needed, Remains, Tracks, Stage, Opposing, MatchResult, Crossed, Lists, Priced;
    OpposingPriced(t, Run(v, fixed, pegged));
    CrossedExactly(v, t, fixed, pegged, limit, f, p, f', p');
    BidAffords(t, Run(v, fixed, pegged), limit);
  }

  lemma LeftIsItem(t: Taker, items: seq<Item>, m: Matched, j: nat)
    requires LeftCrossing(t, items, m, j)
    ensures j < |items|
  {}

  // ---- Orders that are passed over ----

  /** Nothing was done with an order. */
  ghost predicate Untouched(items: seq<Item>, m: Matched, d: nat, x: Leaf) {
    forall i: nat :: i < |items| && TreeOf(items[i]) == d && items[i].leaf == x ==> !Filled(m.fills, i) && i !in m.cancelled
  }

  /** A valid order that nothing was done with ranks before one that was matched. */
  ghost predicate PassedBy(v: View, items: seq<Item>, m: Matched, d: nat, x: Leaf, k: nat) {
    && StateOf(v, d == 1, x) == Valid && Untouched(items, m, d, x) && k < |items| && Filled(m.fills, k)
    && Better(v.bid, OrderRank(v, d == 1, x), items[k].rank)
  }

  /** That happens to the lost order only, namely if it is valid and one after it is reached. */
  lemma PassedByExactly(v: View, t: Taker, fixed: seq<Leaf>, pegged: seq<Leaf>, limit: nat, d: nat, x: Leaf, k: nat)
    requires SortedLeaves(fixed, v.bid) && SortedLeaves(pegged, v.bid) && Opposing(t, Run(v, fixed, pegged))
    requires d < 2 && x in (if d == 1 then pegged else fixed)
    ensures var items := Run(v, fixed, pegged);
            PassedBy(v, items, MatchResult(t, items, limit), d, x, k) <==>
              && d == 1 && Lost(v, fixed, pegged) == Some(x) && StateOf(v, true, x) == Valid
              && k < End(t, items, limit) && Takes(t, items[k]) && Better(v.bid, OrderRank(v, true, x), items[k].rank)
  {
    hide Run, Lost, StateOf, OrderRank, SortedLeaves, Opposing, Progress, End, After;
    var items := Run(v, fixed, pegged);
    OpposingPriced(t, items);
    var m, e := MatchResult(t, items, limit), End(t, items, limit);
    MatchedExactly(t, items, e, k);
    ResultKeepsPromises(t, items, limit);
    if StateOf(v, d == 1, x) == Valid {
      ValidIsItem(v, fixed, pegged, d, x);
      if IsItem(items, d, x) && k < e && Better(v.bid, OrderRank(v, d == 1, x), items[k].rank) {
        var i :| 0 <= i < |items| && TreeOf(items[i]) == d && items[i].leaf == x;
        RunIsMade(v, fixed, pegged);
        ItemShows(v, items, i);
        RunWellOrdered(v, fixed, pegged);
        ItemIsTouched(v, t, items, e, m, i, k);
      }
    }
  }

  lemma ItemIsTouched(v: View, t: Taker, items: seq<Item>, n: nat, m: Matched, i: nat, k: nat)
    requires Progress(t, items, n, m) && i < |items| && k < n && k < |items| && items[i].state == Valid
    requires WellOrdered(v, items) && Better(v.bid, items[i].rank, items[k].rank)
    ensures Filled(m.fills, i) || i in m.cancelled
  {
    assert i < k;
  }

  /** Asks pegged at -100, 0 and 10 with the oracle at 50, and a bid for 5 lots at 70: one lot is
      matched at 50, four are to be posted, and the ask at 60 is left. */
  lemma LostAskIsCrossed()
    ensures var v, pegged := View(false, 0, 50), [PeggedAsk(-100), PeggedAsk(0), PeggedAsk(10)];
            var t, items := Taker(true, 5, 1000, 70, false, true, 1, DecrementTake), Run(v, [], pegged);
            && SortedLeaves(pegged, false) && Opposing(t, items)
            && MatchOutcome(t, items, 8, 1) == Done && Remains(t, items, 8) && Remainder(t, MatchResult(t, items, 8)) == 4
            && Crosses(v, t, true, PeggedAsk(10)) && OrderPrice(v, true, PeggedAsk(10)) == 60
            && forall left ::
                 Tracks(left, set x | x in pegged :: x, items, 1, Stage(items, MatchResult(t, items, 8), |items|, true)) ==>
                   PeggedAsk(10) in left
  {
    hide Run, Lost, PeggedAsk, SortedLeaves, Shown, PriceData, OrderData, Number, Stage, MatchResult, MatchOutcome, End, After, Remains;
    var v, pegged := View(false, 0, 50), [PeggedAsk(-100), PeggedAsk(0), PeggedAsk(10)];
    var t, items := Taker(true, 5, 1000, 70, false, true, 1, DecrementTake), Run(v, [], pegged);
    PeggedOrderIsLost();
    PeggedAskTerms(0);
    PeggedAskTerms(10);
    ValidIsItem(v, [], pegged, 1, PeggedAsk(10));
    OneLotMatched(t, items[0]);
  }

  lemma OneLotMatched(t: Taker, x: Item)
    requires t == Taker(true, 5, 1000, 70, false, true, 1, DecrementTake)
    requires x.state == Valid && x.price == 50 && x.leaf.quantity == 1 && x.leaf.owner == 0
    ensures MatchOutcome(t, [x], 8, 1) == Done && Remains(t, [x], 8) && Remainder(t, MatchResult(t, [x], 8)) == 4
  {
    AtStart(t, [x], 8);
    NextReached(t, [x], 8, 0);
    Ended(t, [x], 8, 1, 1);
    EndIs(t, [x], 8, 1);
  }

  lemma SortedFour(x: Leaf, y: Leaf, z: Leaf, w: Leaf, descending: bool)
    requires Before(x, y, descending) && Before(x, z, descending) && Before(x, w, descending)
    requires Before(y, z, descending) && Before(y, w, descending) && Before(z, w, descending)
    ensures SortedLeaves([x, y, z, w], descending)
  {
    hide Before;
  }

  /** With a further ask pegged at 20, that bid matches the asks at 50 and 70 and passes over the one
      at 60. */
  lemma LostAskIsPassedOver()
    ensures var v, pegged := View(false, 0, 50), [PeggedAsk(-100), PeggedAsk(0), PeggedAsk(10), PeggedAsk(20)];
            var t, items := Taker(true, 5, 1000, 70, false, true, 1, DecrementTake), Run(v, [], pegged);
            && SortedLeaves(pegged, false) && Opposing(t, items) && MatchOutcome(t, items, 8, 2) == Done
            && PassedBy(v, items, MatchResult(t, items, 8), 1, PeggedAsk(10), 1)
  {
    hide Run, Lost, PeggedAsk, SortedLeaves, Before, Number, PeggedPrice, PeggedItem, MatchResult, MatchOutcome, End, PassedBy, Better, OrderRank, IsSkipped;
    var v, x, y, z, w := View(false, 0, 50), PeggedAsk(-100), PeggedAsk(0), PeggedAsk(10), PeggedAsk(20);
    var t := Taker(true, 5, 1000, 70, false, true, 1, DecrementTake);
    LowerOffsetFirst(-100, 0);
    LowerOffsetFirst(-100, 10);
    LowerOffsetFirst(-100, 20);
    LowerOffsetFirst(0, 10);
    LowerOffsetFirst(0, 20);
    LowerOffsetFirst(10, 20);
    SortedFour(x, y, z, w, false);
    assert SortedLeaves([], false) by { NoneSorted(); }
    OffsetPrice(v, -100);
    OffsetPrice(v, 0);
    OffsetPrice(v, 10);
    OffsetPrice(v, 20);
    PeggedAskTerms(0);
    PeggedAskTerms(10);
    PeggedAskTerms(20);
    LostInBetween(v, x, y, z, w);
    ShownPegged(v, y);
    ShownPegged(v, z);
    ShownPegged(v, w);
    TwoLotsMatched(t, PeggedItem(v, y), PeggedItem(v, w));
    RankFollowsKeys(v, z, w);
    PassedByExactly(v, t, [], [x, y, z, w], 8, 1, z, 1);
  }

  lemma NoneSorted()
    ensures SortedLeaves([], false)
  {}

  lemma ShownPegged(v: View, x: Leaf)
    requires PeggedPrice(v, x).0 == Valid && !IsExpired(x, v.now)
    ensures !IsSkipped(v, x)
    ensures var i := PeggedItem(v, x);
            i.leaf == x && i.pegged && i.state == Valid && i.price == PeggedPrice(v, x).1 && i.rank == OrderRank(v, true, x)
  {
    hide PeggedPrice;
  }

  lemma TwoLotsMatched(t: Taker, x: Item, y: Item)
    requires t == Taker(true, 5, 1000, 70, false, true, 1, DecrementTake)
    requires x.state == Valid && x.price == 50 && x.leaf.quantity == 1 && x.leaf.owner == 0
    requires y.state == Valid && y.price == 70 && y.leaf.quantity == 1 && y.leaf.owner == 0
    ensures Opposing(t, [x, y]) && MatchOutcome(t, [x, y], 8, 2) == Done && End(t, [x, y], 8) == 2 && Takes(t, y)
  {
    AtStart(t, [x, y], 8);
    NextReached(t, [x, y], 8, 0);
    NextReached(t, [x, y], 8, 1);
    Ended(t, [x, y], 8, 2, 2);
    EndIs(t, [x, y], 8, 2);
  }
}
