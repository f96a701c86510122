/** Book sides that show how `is_full` and making room behave at the limit. */
module FullSides {
  import opened Options
  import opened Bits
  import opened OrderTrees
  import opened NodeKeys
  import opened BookSides
  import opened BookIteration
  import opened Posting

  const HALF_FULL: nat := 512

  function FixedAsk(price: nat): Leaf
    requires price <= 1000
  {
    WordSize();
    Leaf(NewNodeKey(false, price, price), 0, 0, -1, 0, 1, 0)
  }

  lemma FixedAskPrice(price: nat)
    requires price <= 1000
    ensures PriceData(FixedAsk(price).key) == price
  {
    hide Pow2, Number, ToBits;
    WordSize();
    NewNodeKeyData(false, price, price);
  }

  ghost predicate Priced(orders: set<Leaf>, n: nat) {
    |orders| == n && forall x :: x in orders ==> 1 <= PriceData(x.key) <= n
  }

  lemma OneMore(orders: set<Leaf>, n: nat)
    requires Priced(orders, n) && n < 1000
    ensures var x := FixedAsk(n + 1); Without(orders, x.key) == orders && Priced(orders + {x}, n + 1)
  {
    hide FixedAsk, PriceData;
    FixedAskPrice(n + 1);
    assert FixedAsk(n + 1) !in orders;
  }

  /** Asks at 1 to 512 fill all slots but one. */
  method FixedAsks() returns (book: BookSide)
    ensures fresh(book) && fresh(book.nodes) && book.Valid() && Priced(book.Orders(0), HALF_FULL) && book.Orders(1) == {}
    ensures book.bumpIndex == MAX_NODES - 1 && FixedAsk(HALF_FULL) in book.Orders(0)
  {
    hide ValidState, OptLeaves, FixedAsk, Without, Priced;
    book := new BookSide();
    assert Priced(book.Orders(0), 0) by { NoOrders(); }
    for i := 0 to HALF_FULL
      invariant fresh(book) && fresh(book.nodes) && book.Valid() && book.Orders(1) == {}
      invariant Priced(book.Orders(0), i) && book.bumpIndex == SlotsOf(i)
      invariant i > 0 ==> FixedAsk(i) in book.Orders(0)
    {
      OneMore(book.Orders(0), i);
      Fits(book.Orders(0), i, FixedAsk(i + 1).key);
      var r := book.InsertLeaf(0, FixedAsk(i + 1));
      Counted(book.Orders(0), i + 1);
    }
  }

  lemma NoOrders()
    ensures Priced({}, 0)
  {}

  lemma Counted(orders: set<Leaf>, n: nat)
    requires Priced(orders, n)
    ensures |orders| == n
  {}

  lemma Fits(orders: set<Leaf>, n: nat, k: Key)
    requires Priced(orders, n) && n < HALF_FULL && Without(orders, k) == orders
    ensures SlotsOf(|orders|) + SlotsFor(orders, k) <= MAX_NODES && |orders| == n
  {}

  /** 512 fixed asks and a worse pegged one take every slot. A better order evicts the pegged one, but
      the slot this frees is not enough for a leaf and a fork. */
  method EvictionIsNotEnough() returns (r: PostOutcome)
    ensures r == NoSlot
  {
    hide ValidState, OptLeaves, FixedAsk, PeggedAsk, Without, Lopsided, OrderPrice, IsWorst;
    var v, pegged, leaf := View(false, 0, 50), PeggedAsk(950), FixedAsk(700);
    var book := FixedAsks();
    NoLeaves(pegged.key);
    Counted(book.Orders(0), HALF_FULL);
    var added := book.InsertLeaf(1, pegged);
    ghost var orders := [book.Orders(0), book.Orders(1)];
    OnlyPegged(orders[0], orders[1], pegged);
    FixedAskPrice(700);
    assert Without(orders[0], leaf.key) == orders[0] by { PriceIsNew(orders[0], leaf); }
    var expired, worst;
    ghost var from, w;
    r, expired, worst, from, w := PostOrder(book, v, 0, leaf, 700, 1, true);
    assert Drop(orders, from, expired) == orders;
    PeggedIsWorst(v, orders, worst, w);
  }

  lemma OnlyPegged(fixed: set<Leaf>, pegged: set<Leaf>, x: Leaf)
    requires Priced(fixed, HALF_FULL) && pegged == Without({}, x.key) + {x}
    ensures pegged == {x} && Lopsided(fixed, pegged) && Full(Slots([fixed, pegged]), MAX_NODES)
  {}

  lemma PriceIsNew(orders: set<Leaf>, leaf: Leaf)
    requires Priced(orders, HALF_FULL) && PriceData(leaf.key) > HALF_FULL
    ensures Without(orders, leaf.key) == orders
  {}

  lemma PeggedIsWorst(v: View, orders: seq<set<Leaf>>, worst: Option<(Leaf, int)>, w: nat)
    requires v == View(false, 0, 50) && |orders| == 2 && Priced(orders[0], HALF_FULL) && orders[1] == {PeggedAsk(950)}
    requires ToEvict(v, MAX_NODES, orders, worst, w) && Full(Slots(orders), MAX_NODES)
    ensures worst.Some? && w == 1 && worst.value.1 == 1000
  {
    hide PeggedAsk, PriceData, Slots, PeggedPrice;
    OffsetPrice(v, 950);
    assert PeggedAsk(950) in orders[1];
    assert OrderPrice(v, true, PeggedAsk(950)) == 1000;
  }

  /** With two slots left, one of them on the free list, a side counts as full although one more
      order fits. */
  method FullWithRoom() returns (full: bool, added: Result<(nat, Option<Leaf>)>)
    ensures full && added.Ok?
  {
    hide ValidState, OptLeaves, FixedAsk, PeggedAsk, Without;
    var book := FixedAsks();
    Counted(book.Orders(0), HALF_FULL);
    ghost var before := book.Orders(0);
    RemovedAlone(book, 0, FixedAsk(HALF_FULL));
    var removed := book.RemoveByKey(0, FixedAsk(HALF_FULL).key);
    assert |book.Orders(0)| == HALF_FULL - 1;
    NoLeaves(PeggedAsk(950).key);
    var first := book.InsertLeaf(1, PeggedAsk(950));
    OneOrder(PeggedAsk(950));
    full := book.IsFull();
    AtMostTwo(book.Orders(0), FixedAsk(HALF_FULL).key);
    added := book.InsertLeaf(0, FixedAsk(HALF_FULL));
  }

  lemma OneOrder(x: Leaf)
    ensures |Without({}, x.key) + {x}| == 1
  {
    assert Without({}, x.key) + {x} == {x};
  }
}
