/** How many lots are on the book: what a new order adds, matches and removes, over every sequence of
    orders. */
module BookVolumes {
  import opened Options
  import opened Bits
  import opened OrderTrees
  import opened NodeKeys
  import opened BookSides
  import opened BookIteration
  import opened Matching
  import opened Posting
  import opened Taking
  import opened NewOrders

  ghost function Volume(orders: set<Leaf>): int {
    if orders == {} then 0 else var x :| x in orders; x.quantity + Volume(orders - {x})
  }

  lemma {:induction false} VolumeMinus(orders: set<Leaf>, x: Leaf)
    requires x in orders
    ensures Volume(orders) == x.quantity + Volume(orders - {x})
    decreases |orders|
  {
    var y :| y in orders && Volume(orders) == y.quantity + Volume(orders - {y});
    if y != x {
      VolumeMinus(orders - {y}, x);
      VolumeMinus(orders - {x}, y);
      assert orders - {y} - {x} == orders - {x} - {y};
    }
  }

  lemma VolumePlus(orders: set<Leaf>, x: Leaf)
    requires x !in orders
    ensures Volume(orders + {x}) == Volume(orders) + x.quantity
  {
    VolumeMinus(orders + {x}, x);
    assert orders + {x} - {x} == orders;
  }

  // ---- One tree ----

  ghost function QuantityOf(x: Option<Leaf>): int {
    if x.Some? then x.value.quantity else 0
  }

  ghost function SetOfOption(x: Option<Leaf>): set<Leaf> {
    if x.Some? then {x.value} else {}
  }

  /** A tree when the first `n` items have become what they become. */
  ghost function Partway(before: set<Leaf>, items: seq<Item>, d: nat, cur: seq<Option<Leaf>>, n: nat): set<Leaf>
    requires n <= |items| == |cur|
  {
    if n == 0 then before
    else
      var rest := Partway(before, items, d, cur, n - 1);
      if TreeOf(items[n - 1]) == d then rest - {items[n - 1].leaf} + SetOfOption(cur[n - 1]) else rest
  }

  /** What the first `n` items of a tree lose. */
  ghost function LostLots(items: seq<Item>, d: nat, cur: seq<Option<Leaf>>, n: nat): int
    requires n <= |items| == |cur|
  {
    if n == 0 then 0
    else
      LostLots(items, d, cur, n - 1)
      + if TreeOf(items[n - 1]) == d then items[n - 1].leaf.quantity - QuantityOf(cur[n - 1]) else 0
  }

  ghost predicate IsItemBefore(items: seq<Item>, d: nat, n: nat, y: Leaf) {
    exists i :: 0 <= i < n && i < |items| && TreeOf(items[i]) == d && items[i].leaf == y
  }

  ghost predicate ListedBefore(items: seq<Item>, d: nat, cur: seq<Option<Leaf>>, n: nat, y: Leaf) {
    exists i :: 0 <= i < n && i < |items| && i < |cur| && TreeOf(items[i]) == d && cur[i] == Some(y)
  }

  ghost predicate Sound(before: set<Leaf>, items: seq<Item>, d: nat, cur: seq<Option<Leaf>>) {
    && KeysKept(items, cur) && DistinctItems(items) && UniqueKeys(before)
    && forall i :: 0 <= i < |items| && TreeOf(items[i]) == d ==> items[i].leaf in before
  }

  lemma {:induction false} PartwayHolds(before: set<Leaf>, items: seq<Item>, d: nat, cur: seq<Option<Leaf>>, n: nat, y: Leaf)
    requires Sound(before, items, d, cur) && n <= |items|
    ensures y in Partway(before, items, d, cur, n) <==>
              (y in before && !IsItemBefore(items, d, n, y)) || ListedBefore(items, d, cur, n, y)
    decreases n
  {
    hide UniqueKeys;
    if n > 0 {
      PartwayHolds(before, items, d, cur, n - 1, y);
      MoreItems(items, d, cur, n - 1, y);
    }
  }

  lemma MoreItems(items: seq<Item>, d: nat, cur: seq<Option<Leaf>>, n: nat, y: Leaf)
    requires KeysKept(items, cur) && DistinctItems(items) && n < |items|
    ensures var mine := TreeOf(items[n]) == d;
            && (IsItemBefore(items, d, n + 1, y) <==> IsItemBefore(items, d, n, y) || (mine && items[n].leaf == y))
            && (ListedBefore(items, d, cur, n + 1, y) <==> ListedBefore(items, d, cur, n, y) || (mine && cur[n] == Some(y)))
            && (mine && ListedBefore(items, d, cur, n, y) ==> y.key != items[n].leaf.key)
            && (mine && IsItemBefore(items, d, n, y) ==> y.key != items[n].leaf.key)
  {
    if i :| 0 <= i < n && i < |items| && TreeOf(items[i]) == d && items[i].leaf == y {
      assert items[i].leaf == y;
    }
    if i :| 0 <= i < n && i < |items| && i < |cur| && TreeOf(items[i]) == d && cur[i] == Some(y) {
      assert cur[i] == Some(y);
    }
  }

  /** The volume goes down by what the items lose. */
  lemma {:induction false} PartwayVolume(before: set<Leaf>, items: seq<Item>, d: nat, cur: seq<Option<Leaf>>, n: nat)
    requires Sound(before, items, d, cur) && n <= |items|
    ensures Volume(Partway(before, items, d, cur, n)) == Volume(before) - LostLots(items, d, cur, n)
    decreases n
  {
    hide Volume, Sound;
    assert |cur| == |items| by { SoundLength(before, items, d, cur); }
    if n > 0 {
      PartwayVolume(before, items, d, cur, n - 1);
      if TreeOf(items[n - 1]) == d {
        var rest, x := Partway(before, items, d, cur, n - 1), items[n - 1].leaf;
        StillThere(before, items, d, cur, n - 1);
        VolumeMinus(rest, x);
        if cur[n - 1].Some? {
          VolumePlus(rest - {x}, cur[n - 1].value);
        } else {
          assert rest - {x} + {} == rest - {x};
        }
      }
    }
  }

  lemma SoundLength(before: set<Leaf>, items: seq<Item>, d: nat, cur: seq<Option<Leaf>>)
    requires Sound(before, items, d, cur)
    ensures |cur| == |items|
  {}

  /** The next item is still there, alone with its key. */
  lemma StillThere(before: set<Leaf>, items: seq<Item>, d: nat, cur: seq<Option<Leaf>>, n: nat)
    requires Sound(before, items, d, cur) && n < |items| && TreeOf(items[n]) == d
    ensures var rest, x := Partway(before, items, d, cur, n), items[n].leaf;
            x in rest && forall y :: y in rest && y.key == x.key ==> y == x
    ensures n < |cur| && (cur[n].Some? ==> cur[n].value.key == items[n].leaf.key)
  {
    hide Partway;
    var rest, x := Partway(before, items, d, cur, n), items[n].leaf;
    forall y | y == x || y in rest ensures (y == x ==> y in rest) && (y.key == x.key ==> y == x) {
      PartwayHolds(before, items, d, cur, n, y);
      MoreItems(items, d, cur, n, y);
    }
  }

  /** A tree after the matching. */
  lemma TreeVolume(orders: set<Leaf>, before: set<Leaf>, items: seq<Item>, d: nat, cur: seq<Option<Leaf>>)
    requires Sound(before, items, d, cur) && Tracks(orders, before, items, d, cur)
    ensures |cur| == |items| && Volume(orders) == Volume(before) - LostLots(items, d, cur, |items|)
  {
    hide Volume, Partway, LostLots;
    PartwayVolume(before, items, d, cur, |items|);
    forall y ensures y in orders <==> y in Partway(before, items, d, cur, |items|) {
      PartwayHolds(before, items, d, cur, |items|, y);
      assert IsItemBefore(items, d, |items|, y) <==> IsItem(items, d, y);
      assert ListedBefore(items, d, cur, |items|, y) <==> Listed(items, d, cur, y);
    }
    assert orders == Partway(before, items, d, cur, |items|);
  }

  // ---- What the items lose ----

  /** The lots of an item that are matched, or removed because it is invalid or the taker's own. */
  ghost function MatchedLots(m: Matched, i: nat): int {
    var f := FillOf(m.fills, i);
    if f.Some? then f.value.quantity else 0
  }

  ghost function RemovedLots(items: seq<Item>, m: Matched, i: nat): int
    requires i < |items|
  {
    if i in m.dropped || i in m.cancelled then items[i].leaf.quantity else 0
  }

  ghost function AllMatched(m: Matched, n: nat): int {
    if n == 0 then 0 else AllMatched(m, n - 1) + MatchedLots(m, n - 1)
  }

  ghost function AllRemoved(items: seq<Item>, m: Matched, n: nat): int
    requires n <= |items|
  {
    if n == 0 then 0 else AllRemoved(items, m, n - 1) + RemovedLots(items, m, n - 1)
  }

  /** An item loses what is matched, or everything. */
  lemma ItemLoses(t: Taker, items: seq<Item>, n: nat, m: Matched, i: nat)
    requires Progress(t, items, n, m) && i < |items|
    ensures items[i].leaf.quantity - QuantityOf(Final(items, m, i)) == MatchedLots(m, i) + RemovedLots(items, m, i)
  {
    hide Conserves, NoneSkipped, PartialsExplained, PartialIsLast;
    var f := FillOf(m.fills, i);
    if f.Some? {
      var k :| 0 <= k < |m.fills| && m.fills[k] == f.value;
      assert GoodFill(t, items, m.fills[k]);
      assert Filled(m.fills, i);
    }
  }

  lemma {:induction false} TreesLose(t: Taker, items: seq<Item>, e: nat, m: Matched, n: nat)
    requires Progress(t, items, e, m) && n <= |items|
    ensures var cur := Stage(items, m, |items|, true);
            LostLots(items, 0, cur, n) + LostLots(items, 1, cur, n) == AllMatched(m, n) + AllRemoved(items, m, n)
    decreases n
  {
    hide Progress, Final, FillOf;
    if n > 0 {
      TreesLose(t, items, e, m, n - 1);
      ItemLoses(t, items, e, m, n - 1);
      assert Stage(items, m, |items|, true)[n - 1] == Final(items, m, n - 1);
    }
  }

  lemma {:induction false} FillOfAppend(fills: seq<Fill>, f: Fill, i: nat)
    ensures FillOf(fills + [f], i) == if f.item == i then Some(f) else FillOf(fills, i)
  {
    assert (fills + [f])[..|fills|] == fills;
  }

  /** One more fill adds its quantity. */
  lemma {:induction false} OneMoreFill(m: Matched, f: Fill, n: nat)
    requires !Filled(m.fills, f.item)
    ensures AllMatched(m.(fills := m.fills + [f]), n) == AllMatched(m, n) + if f.item < n then f.quantity else 0
    decreases n
  {
    if n > 0 {
      OneMoreFill(m, f, n - 1);
      FillOfAppend(m.fills, f, n - 1);
    }
  }

  /** The lots of all items together are those of all fills. */
  lemma {:induction false} MatchedIsBase(t: Taker, items: seq<Item>, e: nat, m: Matched)
    requires GoodFills(t, items, e, m.fills)
    ensures AllMatched(m, |items|) == BaseOf(m.fills)
    decreases |m.fills|
  {
    if m.fills == [] {
      NoFills(m, |items|);
    } else {
      var k := |m.fills| - 1;
      var m', f := m.(fills := m.fills[..k]), m.fills[k];
      MatchedIsBase(t, items, e, m');
      assert GoodFill(t, items, f);
      assert m'.fills + [f] == m.fills && m == m'.(fills := m'.fills + [f]);
      OneMoreFill(m', f, |items|);
    }
  }

  lemma {:induction false} NoFills(m: Matched, n: nat)
    requires m.fills == []
    ensures AllMatched(m, n) == 0
  {
    if n > 0 { NoFills(m, n - 1); }
  }

  // ---- A side ----

  ghost function SideVolume(s: Side): int {
    Volume(SetOf(s.fixed)) + Volume(SetOf(s.pegged))
  }

  lemma SortedIsUnique(s: seq<Leaf>, descending: bool)
    requires SortedLeaves(s, descending)
    ensures UniqueKeys(SetOf(s))
  {
    hide Before;
    forall i, j | 0 <= i < |s| && 0 <= j < |s| && s[i].key == s[j].key ensures i == j {
      if i < j { SortedKeysDiffer(s, descending, i, s[j]); }
      if j < i { SortedKeysDiffer(s, descending, j, s[i]); }
    }
  }

  lemma StageKeepsKeys(items: seq<Item>, m: Matched)
    ensures KeysKept(items, Stage(items, m, |items|, true))
  {}

  /** Taking lowers the other side's volume by what is matched and removed. */
  lemma TakenVolume(q: Request, other: Side, other': Side)
    requires SortedSide(!q.t.bid, other) && GoodOrders(SetOf(other.fixed), SetOf(other.pegged))
    requires Priced(ItemsFor(q, other)) && SideTaken(q, other, other')
    ensures var items, m := ItemsFor(q, other), MatchResult(q.t, ItemsFor(q, other), q.limit);
            SideVolume(other') == SideVolume(other) - BaseOf(m.fills) - AllRemoved(items, m, |items|)
  {
    hide SortedLeaves, GoodOrders, Opposing, Run, Priced, Tracks, Stage, MatchResult, Progress, DistinctItems, Volume, UniqueKeys, KeysKept, SetOf;
    var items, m := ItemsFor(q, other), MatchResult(q.t, ItemsFor(q, other), q.limit);
    var e, cur := End(q.t, items, q.limit), Stage(items, m, |items|, true);
    ItemsArePriced(q, other);
    ResultKeepsPromises(q.t, items, q.limit);
    RunFromLists(Facing(q), other.fixed, other.pegged);
    SetFacts(other);
    SortedIsUnique(other.fixed, !q.t.bid);
    SortedIsUnique(other.pegged, !q.t.bid);
    StageKeepsKeys(items, m);
    TreeVolume(SetOf(other'.fixed), SetOf(other.fixed), items, 0, cur);
    TreeVolume(SetOf(other'.pegged), SetOf(other.pegged), items, 1, cur);
    TreesLose(q.t, items, e, m, |items|);
    FillsAreGood(q.t, items, e, m);
    MatchedIsBase(q.t, items, e, m);
  }

  lemma FillsAreGood(t: Taker, items: seq<Item>, e: nat, m: Matched)
    requires Progress(t, items, e, m)
    ensures GoodFills(t, items, e, m.fills)
  {}

  ghost function PairVolume(orders: seq<set<Leaf>>): int
    requires |orders| == 2
  {
    Volume(orders[0]) + Volume(orders[1])
  }

  lemma DropVolume(orders: seq<set<Leaf>>, from: nat, x: Option<Leaf>)
    requires |orders| == 2 && (x.Some? ==> from < 2 && x.value in orders[from])
    ensures PairVolume(Drop(orders, from, x)) == PairVolume(orders) - QuantityOf(x)
  {
    hide Volume;
    if x.Some? { VolumeMinus(orders[from], x.value); }
  }

  lemma DropShrinks(orders: seq<set<Leaf>>, from: nat, x: Option<Leaf>)
    requires |orders| == 2
    ensures Drop(orders, from, x)[0] <= orders[0] && Drop(orders, from, x)[1] <= orders[1]
  {}

  /** Posting adds the new order and loses the removed ones. */
  lemma PostedVolume(q: Request, own: Side, own': Side, seqNum: nat, leaf: Leaf, x: Removed)
    requires GoodRequest(q) && GoodSide(q.t.bid, own, seqNum) && seqNum + 1 < Pow2(HALF)
    requires SidePosted(q, own, own', leaf, x) && leaf.key == NewNodeKey(q.t.bid, PriceDataOf(q), seqNum + 1)
    requires ToDrop(q.now, q.tree, OrdersOf(own), x.expired, x.from)
    requires ToEvict(Alike(q), own.bump, Drop(OrdersOf(own), x.from, x.expired), x.worst, x.w)
    ensures SideVolume(own') == SideVolume(own) + leaf.quantity - QuantityOf(x.expired) - QuantityOf(LeafOf(x.worst))
  {
    hide SortedSide, GoodOrders, Volume, Drop, Slots, NewNodeKey, IsWorst, OrderPrice, Full, Pow2, GoodRequest;
    var orders := OrdersOf(own);
    var mid := Drop(orders, x.from, x.expired);
    var rest := Drop(mid, x.w, LeafOf(x.worst));
    DropVolume(orders, x.from, x.expired);
    DropVolume(mid, x.w, LeafOf(x.worst));
    DropShrinks(orders, x.from, x.expired);
    DropShrinks(mid, x.w, LeafOf(x.worst));
    FreshKey(q, own, seqNum, leaf, q.tree);
    assert leaf !in orders[q.tree] by { NotWithout(orders[q.tree], leaf); }
    VolumePlus(rest[q.tree], leaf);
  }

  lemma NotWithout(orders: set<Leaf>, leaf: Leaf)
    requires Without(orders, leaf.key) == orders
    ensures leaf !in orders
  {
    assert leaf !in Without(orders, leaf.key);
  }

  // ---- Every sequence of orders ----

  ghost function BookVolume(b: Book): int {
    SideVolume(b.bids) + SideVolume(b.asks)
  }

  /** The lots that an instruction posts, matches, and removes from either side. */
  ghost function PostedAt(r: Placed): int {
    if r.OnBook? then r.leaf.quantity else 0
  }

  ghost function MatchedAt(b: Book, q: Request, r: Placed): int
    requires Readable(b, q)
  {
    if r.Failed? then 0 else BaseOf(MatchResult(q.t, ItemsFor(q, OwnSide(b, !q.t.bid)), q.limit).fills)
  }

  ghost function RemovedAt(b: Book, q: Request, r: Placed, x: Removed): int
    requires Readable(b, q)
  {
    var items := ItemsFor(q, OwnSide(b, !q.t.bid));
    if r.Failed? then 0
    else
      AllRemoved(items, MatchResult(q.t, items, q.limit), |items|)
      + if r.OnBook? then QuantityOf(x.expired) + QuantityOf(LeafOf(x.worst)) else 0
  }

  /** No lot appears or disappears otherwise, and no more is posted and matched than was asked for. */
  lemma StepConserves(b: Book, q: Request, b': Book, r: Placed, x: Removed)
    requires GoodBook(b) && Step(b, q, b', r, x)
    ensures BookVolume(b') == BookVolume(b) + PostedAt(r) - MatchedAt(b, q, r) - RemovedAt(b, q, r, x)
    ensures PostedAt(r) + MatchedAt(b, q, r) <= q.t.maxBase
  {
    hide SideVolume, SideTaken, SidePosted, SortedSide, GoodOrders, Run, MatchOutcome, MatchResult, PostVerdict, NewNodeKey, ToDrop, ToEvict, AllRemoved, Drop, OrdersOf, SeqOf, SetOf, Pow2;
    var own, other := OwnSide(b, q.t.bid), OwnSide(b, !q.t.bid);
    if !r.Failed? {
      TakenVolume(q, other, OwnSide(b', !q.t.bid));
      AskedFor(q, other);
      if r.OnBook? {
        PostedVolume(q, own, OwnSide(b', q.t.bid), b.seqNum, r.leaf, x);
      }
    }
  }

  lemma AskedFor(q: Request, other: Side)
    requires SortedSide(!q.t.bid, other) && GoodOrders(SetOf(other.fixed), SetOf(other.pegged)) && q.t.price >= 1
    ensures Priced(ItemsFor(q, other))
    ensures var m := MatchResult(q.t, ItemsFor(q, other), q.limit);
            BaseOf(m.fills) <= q.t.maxBase && Remainder(q.t, m) + BaseOf(m.fills) <= q.t.maxBase
  {
    hide SortedSide, GoodOrders, Run, MatchResult, Opposing, GoodFills, NoneSkipped, PartialsExplained, PartialIsLast, Removals;
    ItemsArePriced(q, other);
    ResultKeepsPromises(q.t, ItemsFor(q, other), q.limit);
  }

  ghost function TotalPosted(placings: seq<Placing>, n: nat): int
    requires n <= |placings|
  {
    if n == 0 then 0 else TotalPosted(placings, n - 1) + PostedAt(placings[n - 1].r)
  }

  /** What is matched and removed in the first `n` instructions. */
  ghost function TotalGone(books: seq<Book>, placings: seq<Placing>, n: nat): int
    requires IsRun(books, placings) && n <= |placings|
  {
    if n == 0 then 0
    else
      var b, p := books[n - 1], placings[n - 1];
      assert Step(b, p.q, books[n - 1 + 1], p.r, p.x);
      TotalGone(books, placings, n - 1) + MatchedAt(b, p.q, p.r) + RemovedAt(b, p.q, p.r, p.x)
  }

  /** Over every sequence of orders, the lots on the book are those that were there and those that
      were posted, less those that were matched or removed. */
  lemma {:induction false} RunConserves(books: seq<Book>, placings: seq<Placing>, n: nat)
    requires IsRun(books, placings) && GoodBook(books[0]) && n <= |placings|
    ensures BookVolume(books[n]) + TotalGone(books, placings, n) == BookVolume(books[0]) + TotalPosted(placings, n)
    decreases n
  {
    hide Step, GoodBook, BookVolume, MatchedAt, RemovedAt, PostedAt;
    if n > 0 {
      RunConserves(books, placings, n - 1);
      RunStaysGood(books, placings, n - 1);
      var p := placings[n - 1];
      StepConserves(books[n - 1], p.q, books[n], p.r, p.x);
    }
  }
}
