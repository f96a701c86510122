/** Posting the remainder of a new order to its side of the book, which may have to make room. */
module Posting {
  import opened Options
  import opened OrderTrees
  import opened NodeKeys
  import opened BookSides
  import opened BookIteration

  /** EventsFull: an event for a removed order does not fit the queue, which panics. NotBetter: the
      side is full and the order is not better than the worst one on it. NoOrderSlot: the account
      has no slot for the order. NoSlot: the slots run out even after the worst one was removed.
      All of them fail the transaction. */
  datatype PostOutcome = Posted | EventsFull | NotBetter | NoOrderSlot | NoSlot

  /** Full to the last slot, with a single order in the other tree. */
  ghost predicate Lopsided(target: set<Leaf>, other: set<Leaf>) {
    |other| == 1 && SlotsOf(|target|) + SlotsOf(|other|) == MAX_NODES
  }

  /** Removing one order makes room for one more, unless it was the single order of the other tree
      of a side that is full to the last slot. */
  lemma RoomAfterEviction(target: set<Leaf>, other: set<Leaf>, fromTarget: bool, target': set<Leaf>, other': set<Leaf>, k: Key)
    requires SlotsOf(|target|) + SlotsOf(|other|) <= MAX_NODES <= SlotsOf(|target|) + SlotsOf(|other|) + 2
    requires if fromTarget then other' == other && |target'| == |target| - 1 else target' == target && |other'| == |other| - 1
    requires Without(target', k) == target'
    ensures MAX_NODES < SlotsOf(|target'|) + SlotsOf(|other'|) + SlotsFor(target', k) <==>
              !fromTarget && Lopsided(target, other)
  {
    assert target' == {} <==> |target'| == 0;
  }

  /** The orders of a tree after one was removed from tree `from`, if any. */
  ghost function Less1(orders: set<Leaf>, d: nat, from: nat, x: Option<Leaf>): set<Leaf> {
    if x.Some? && d == from then orders - {x.value} else orders
  }

  /** None of the orders has a worse price. */
  ghost predicate IsWorst(v: View, price: int, fixed: set<Leaf>, pegged: set<Leaf>) {
    && (forall x :: x in fixed ==> !Better(v.bid, price, OrderPrice(v, false, x)))
    && (forall x :: x in pegged ==> !Better(v.bid, price, OrderPrice(v, true, x)))
  }

  ghost function Slots(orders: seq<set<Leaf>>): nat
    requires |orders| == 2
  {
    SlotsOf(|orders[0]|) + SlotsOf(|orders[1]|)
  }

  /** The order that has to leave tree `w`: one of the worst price, if and only if the side is full. */
  ghost predicate ToEvict(v: View, bump: nat, orders: seq<set<Leaf>>, worst: Option<(Leaf, int)>, w: nat) {
    && |orders| == 2 && w < 2 && (worst.Some? <==> Full(Slots(orders), bump))
    && (worst.Some? ==>
          && worst.value.0 in orders[w] && worst.value.1 == OrderPrice(v, w == 1, worst.value.0)
          && IsWorst(v, worst.value.1, orders[0], orders[1]))
  }

  /** Removes the worst order of a full side. */
  method Evict(book: BookSide, v: View) returns (worst: Option<(Leaf, int)>, ghost w: nat)
    requires book.Valid()
    modifies book, book.nodes
    ensures book.Valid() && book.bumpIndex == old(book.bumpIndex)
    ensures ToEvict(v, old(book.bumpIndex), [old(book.Orders(0)), old(book.Orders(1))], worst, w)
    ensures Slots([old(book.Orders(0)), old(book.Orders(1))]) <= MAX_NODES
    ensures book.Orders(0) == Less1(old(book.Orders(0)), 0, w, LeafOf(worst))
    ensures book.Orders(1) == Less1(old(book.Orders(1)), 1, w, LeafOf(worst))
  {
    hide ValidState, OptLeaves, OrderPrice, SlotsOf;
    var full := book.IsFull();
    worst, w := None, 0;
    if full {
      FullHasOrders(book.Orders(0), book.Orders(1), book.bumpIndex);
      worst, w := RemoveWorst(book, v);
    }
  }

  lemma FullHasOrders(fixed: set<Leaf>, pegged: set<Leaf>, bump: nat)
    requires Full(SlotsOf(|fixed|) + SlotsOf(|pegged|), bump)
    ensures fixed != {} || pegged != {}
  {}

  /** How posting to tree `c` ends once an expired order is gone. */
  ghost function PostVerdict(v: View, c: nat, price: int, room: int, slot: bool,
                             orders: seq<set<Leaf>>, worst: Option<(Leaf, int)>, w: nat): PostOutcome
    requires |orders| == 2 && c < 2
  {
    if worst.Some? && !Better(v.bid, price, worst.value.1) then NotBetter
    else if worst.Some? && room <= 0 then EventsFull
    else if !slot then NoOrderSlot
    else if worst.Some? && w != c && Lopsided(orders[c], orders[1 - c]) then NoSlot
    else Posted
  }

  /** Makes room if the side is full, provided the new order is better than the worst one, and
      inserts it. It fails for want of slots if and only if the removed worst order was the only
      one of the other tree, on a side that was full to the last slot. */
  method MakeRoomAndInsert(book: BookSide, v: View, c: nat, leaf: Leaf, price: int, room: nat, slot: bool)
    returns (r: PostOutcome, worst: Option<(Leaf, int)>, ghost w: nat)
    requires book.Valid() && c < 2 && Without(book.Orders(c), leaf.key) == book.Orders(c)
    modifies book, book.nodes
    ensures book.Valid()
    ensures ToEvict(v, old(book.bumpIndex), [old(book.Orders(0)), old(book.Orders(1))], worst, w)
    ensures r == PostVerdict(v, c, price, room, slot, [old(book.Orders(0)), old(book.Orders(1))], worst, w)
    ensures r == Posted ==>
              && book.Orders(c) == Less1(old(book.Orders(c)), c, w, LeafOf(worst)) + {leaf}
              && book.Orders(1 - c) == Less1(old(book.Orders(1 - c)), 1 - c, w, LeafOf(worst))
              && book.bumpIndex == Max(old(book.bumpIndex), Slots([book.Orders(0), book.Orders(1)]))
  {
    hide ValidState, OptLeaves, OrderPrice, SlotsOf, SlotsFor, Lopsided, Without, IsWorst;
    ghost var mid := [book.Orders(0), book.Orders(1)];
    worst, w := Evict(book, v);
    if worst.Some? {
      if !Better(v.bid, price, worst.value.1) {
        return NotBetter, worst, w;
      }
      if room == 0 {
        return EventsFull, worst, w;
      }
    }
    if !slot {
      return NoOrderSlot, worst, w;
    }
    SubsetWithout(mid[c], book.Orders(c), leaf.key);
    Room(v, mid, book.bumpIndex, worst, w, c, book.Orders(c), book.Orders(1 - c), leaf.key);
    var inserted := book.InsertLeaf(c, leaf);
    r := if inserted.Err? then NoSlot else Posted;
  }

  /** The order that is dropped first: one that expired before now, of the target tree if it has
      one, and the earliest of its tree. */
  ghost predicate ToDrop(now: nat, c: nat, orders: seq<set<Leaf>>, expired: Option<Leaf>, from: nat) {
    && |orders| == 2 && c < 2 && from < 2
    && (expired.None? <==> forall x :: x in orders[0] + orders[1] ==> now <= x.Expiry())
    && (expired.Some? ==>
          && expired.value in orders[from] && expired.value.Expiry() < now
          && (forall x :: x in orders[from] ==> expired.value.Expiry() <= x.Expiry())
          && (from != c ==> forall x :: x in orders[c] ==> now <= x.Expiry()))
  }

  /** A side's orders without one of tree `from`. */
  ghost function Drop(orders: seq<set<Leaf>>, from: nat, x: Option<Leaf>): (r: seq<set<Leaf>>)
    requires |orders| == 2
    ensures |r| == 2
  {
    [Less1(orders[0], 0, from, x), Less1(orders[1], 1, from, x)]
  }

  function EventCount<T>(x: Option<T>): nat {
    if x.Some? then 1 else 0
  }

  /** Posts an order with a new key, after removing an order that expired before now, if any. */
  method PostOrder(book: BookSide, v: View, c: nat, leaf: Leaf, price: int, room: nat, slot: bool)
    returns (r: PostOutcome, expired: Option<Leaf>, worst: Option<(Leaf, int)>, ghost from: nat, ghost w: nat)
    requires book.Valid() && c < 2 && Without(book.Orders(c), leaf.key) == book.Orders(c)
    modifies book, book.nodes
    ensures book.Valid() && ToDrop(v.now, c, [old(book.Orders(0)), old(book.Orders(1))], expired, from)
    ensures room < EventCount(expired) ==> r == EventsFull
    ensures room >= EventCount(expired) ==>
              var mid := Drop([old(book.Orders(0)), old(book.Orders(1))], from, expired);
              && ToEvict(v, old(book.bumpIndex), mid, worst, w)
              && r == PostVerdict(v, c, price, room - EventCount(expired), slot, mid, worst, w)
    ensures r == Posted ==>
              var after := Drop(Drop([old(book.Orders(0)), old(book.Orders(1))], from, expired), w, LeafOf(worst));
              && book.Orders(c) == after[c] + {leaf} && book.Orders(1 - c) == after[1 - c]
              && book.bumpIndex == Max(old(book.bumpIndex), Slots([book.Orders(0), book.Orders(1)]))
  {
    hide ValidState, OptLeaves, ToEvict, PostVerdict, Without, Slots;
    expired, from := book.RemoveExpiredOrOther(c, v.now);
    ghost var mid := Drop([old(book.Orders(0)), old(book.Orders(1))], from, expired);
    assert mid == [book.Orders(0), book.Orders(1)];
    if expired.Some? && room == 0 {
      return EventsFull, expired, None, from, 0;
    }
    SubsetWithout(old(book.Orders(c)), mid[c], leaf.key);
    r, worst, w := MakeRoomAndInsert(book, v, c, leaf, price, room - EventCount(expired), slot);
  }

  function LeafOf(worst: Option<(Leaf, int)>): Option<Leaf> {
    if worst.None? then None else Some(worst.value.0)
  }

  lemma SubsetWithout(a: set<Leaf>, b: set<Leaf>, k: Key)
    requires Without(a, k) == a && b <= a
    ensures Without(b, k) == b
  {
    forall x | x in b ensures x.key != k {
      assert x in a;
      assert x in Without(a, k);
    }
  }

  lemma Room(v: View, mid: seq<set<Leaf>>, bump: nat, worst: Option<(Leaf, int)>, w: nat, c: nat,
             target: set<Leaf>, other: set<Leaf>, k: Key)
    requires ToEvict(v, bump, mid, worst, w) && c < 2 && Slots(mid) <= MAX_NODES && Without(target, k) == target
    requires target == Less1(mid[c], c, w, LeafOf(worst)) && other == Less1(mid[1 - c], 1 - c, w, LeafOf(worst))
    ensures MAX_NODES < SlotsOf(|target|) + SlotsOf(|other|) + SlotsFor(target, k) <==>
              worst.Some? && w != c && Lopsided(mid[c], mid[1 - c])
  {
    hide SlotsOf, SlotsFor, Without, Lopsided, IsWorst, OrderPrice;
    if worst.Some? {
      RoomAfterEviction(mid[c], mid[1 - c], w == c, target, other, k);
    } else {
      AtMostTwo(target, k);
    }
  }

  lemma AtMostTwo(orders: set<Leaf>, k: Key)
    ensures SlotsFor(orders, k) <= 2
  {}
}
