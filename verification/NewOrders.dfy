/** `Orderbook::new_order`: taking from the other side, then posting the remainder, and what that
    means for every sequence of orders. */
module NewOrders {
  import opened Options
  import opened Bits
  import opened OrderTrees
  import opened NodeKeys
  import opened BookSides
  import opened BookIteration
  import opened Matching
  import opened Posting
  import opened Taking

  // ---- The book and the orders as values ----

  /** One side: its orders as the iteration visits them, and the highest number of slots that were
      ever taken. */
  datatype Side = Side(fixed: seq<Leaf>, pegged: seq<Leaf>, bump: nat)

  datatype Book = Book(bids: Side, asks: Side, seqNum: nat)

  /** A new order, with the tree it is posted to and what the instruction reads from elsewhere: time
      and oracle price, the match limit, the room in the event queue, whether its price is within
      the market's limits, and whether the account has a slot for it. */
  datatype Request = Request(t: Taker, tree: nat, timeInForce: nat, pegLimit: int, rest: int, now: nat, oracle: int,
                             limit: nat, room: nat, inside: bool, slot: bool)

  datatype Failure = NoEventRoom | SelfTrade | NotBetterThanWorst | NoAccountSlot | OutOfSpace

  datatype Placed = OnBook(leaf: Leaf) | NotPosted | Failed(why: Failure)

  /** What posting removed from the own side: an expired order and the worst one, with their trees. */
  datatype Removed = Removed(expired: Option<Leaf>, from: nat, worst: Option<(Leaf, int)>, w: nat)

  ghost function SetOf(s: seq<Leaf>): set<Leaf> {
    set x | x in s
  }

  ghost function OrdersOf(s: Side): (r: seq<set<Leaf>>)
    ensures |r| == 2
  {
    [SetOf(s.fixed), SetOf(s.pegged)]
  }

  function OwnSide(b: Book, bid: bool): Side {
    if bid then b.bids else b.asks
  }

  function PriceDataOf(q: Request): int {
    if q.tree == 1 then q.t.price - q.oracle - I64_MIN else q.t.price
  }

  /** The price is a positive i64, and what the key holds of it a u64. */
  predicate GoodRequest(q: Request) {
    && q.tree < 2 && 1 <= q.t.price <= I64_MAX && I64_MIN <= q.oracle <= I64_MAX
    && 0 <= PriceDataOf(q) < Pow2(HALF)
  }

  /** The order as it would be posted. */
  function NewLeaf(q: Request, seqNum: nat, quantity: int): Leaf
    requires GoodRequest(q) && seqNum < Pow2(HALF)
  {
    Leaf(NewNodeKey(q.t.bid, PriceDataOf(q), seqNum), q.now, q.timeInForce, q.pegLimit, q.t.owner, quantity, q.rest)
  }

  /** The sequence number in a key. */
  function SeqOf(bid: bool, k: Key): int {
    if bid then Complement(OrderData(k)) else OrderData(k)
  }

  ghost predicate SortedSide(bid: bool, s: Side) {
    SortedLeaves(s.fixed, bid) && SortedLeaves(s.pegged, bid)
  }

  /** Sorted, with positive quantities and prices, and no key with a later sequence number. */
  ghost predicate GoodSide(bid: bool, s: Side, seqNum: nat) {
    && SortedSide(bid, s) && GoodOrders(SetOf(s.fixed), SetOf(s.pegged))
    && (forall x :: x in s.fixed || x in s.pegged ==> SeqOf(bid, x.key) <= seqNum)
  }

  ghost predicate GoodBook(b: Book) {
    GoodSide(true, b.bids, b.seqNum) && GoodSide(false, b.asks, b.seqNum)
  }

  // ---- One new order ----

  function Facing(q: Request): View {
    View(!q.t.bid, q.now, q.oracle)
  }

  function Alike(q: Request): View {
    View(q.t.bid, q.now, q.oracle)
  }

  ghost function ItemsFor(q: Request, other: Side): seq<Item> {
    Run(Facing(q), other.fixed, other.pegged)
  }

  /** The matching leaves something that is to be posted. */
  ghost predicate ToPost(q: Request, other: Side)
    requires q.t.price >= 1 && Priced(ItemsFor(q, other))
  {
    var m := MatchResult(q.t, ItemsFor(q, other), q.limit);
    m.post && Remainder(q.t, m) > 0 && q.inside
  }

  ghost function RoomLeft(q: Request, other: Side): int
    requires Priced(ItemsFor(q, other))
  {
    q.room - Matching.Events(MatchResult(q.t, ItemsFor(q, other), q.limit))
  }

  ghost function NewOrderLeaf(q: Request, other: Side, seqNum: nat): Leaf
    requires GoodRequest(q) && seqNum + 1 < Pow2(HALF) && Priced(ItemsFor(q, other))
  {
    NewLeaf(q, seqNum + 1, Remainder(q.t, MatchResult(q.t, ItemsFor(q, other), q.limit)))
  }

  /** How posting ends. */
  ghost function PostResult(q: Request, own: Side, other: Side, seqNum: nat, x: Removed): Placed
    requires GoodRequest(q) && seqNum + 1 < Pow2(HALF) && Priced(ItemsFor(q, other))
  {
    var left := RoomLeft(q, other) - EventCount(x.expired);
    if left < 0 then Failed(NoEventRoom)
    else match PostVerdict(Alike(q), q.tree, q.t.price, left, q.slot, Drop(OrdersOf(own), x.from, x.expired), x.worst, x.w)
      case EventsFull => Failed(NoEventRoom)
      case NotBetter => Failed(NotBetterThanWorst)
      case NoOrderSlot => Failed(NoAccountSlot)
      case NoSlot => Failed(OutOfSpace)
      case Posted => OnBook(NewOrderLeaf(q, other, seqNum))
  }

  /** How the instruction ends: a failure to match, no remainder, or what posting gives. */
  ghost function PlaceResult(q: Request, own: Side, other: Side, seqNum: nat, x: Removed): Placed
    requires GoodRequest(q) && seqNum + 1 < Pow2(HALF) && Priced(ItemsFor(q, other))
  {
    match MatchOutcome(q.t, ItemsFor(q, other), q.limit, q.room)
    case QueueFull => Failed(NoEventRoom)
    case WouldSelfTrade => Failed(SelfTrade)
    case Done => if ToPost(q, other) then PostResult(q, own, other, seqNum, x) else NotPosted
  }

  /** The orders that posting removes are those it has to remove. */
  ghost predicate GoodRemoval(q: Request, own: Side, other: Side, x: Removed)
    requires Priced(ItemsFor(q, other))
  {
    && ToDrop(q.now, q.tree, OrdersOf(own), x.expired, x.from)
    && (RoomLeft(q, other) >= EventCount(x.expired) ==>
          ToEvict(Alike(q), own.bump, Drop(OrdersOf(own), x.from, x.expired), x.worst, x.w))
  }

  /** The other side holds what the matching left of its orders. */
  ghost predicate SideTaken(q: Request, other: Side, other': Side)
    requires Priced(ItemsFor(q, other))
  {
    var items := ItemsFor(q, other);
    var cur := Stage(items, MatchResult(q.t, items, q.limit), |items|, true);
    && SortedSide(!q.t.bid, other') && other'.bump == other.bump
    && Tracks(SetOf(other'.fixed), SetOf(other.fixed), items, 0, cur)
    && Tracks(SetOf(other'.pegged), SetOf(other.pegged), items, 1, cur)
  }

  /** The own side lost the removed orders and has the new one. */
  ghost predicate SidePosted(q: Request, own: Side, own': Side, leaf: Leaf, x: Removed) {
    var rest := Drop(Drop(OrdersOf(own), x.from, x.expired), x.w, LeafOf(x.worst));
    && SortedSide(q.t.bid, own') && q.tree < 2
    && OrdersOf(own')[q.tree] == rest[q.tree] + {leaf} && OrdersOf(own')[1 - q.tree] == rest[1 - q.tree]
    && own'.bump == BookSides.Max(own.bump, Slots(OrdersOf(own')))
  }

  /** One instruction. A failed one is undone. */
  ghost predicate SideStep(q: Request, own: Side, other: Side, seqNum: nat, own': Side, other': Side, r: Placed, x: Removed)
    requires GoodRequest(q) && seqNum + 1 < Pow2(HALF) && Priced(ItemsFor(q, other))
  {
    && r == PlaceResult(q, own, other, seqNum, x)
    && (MatchOutcome(q.t, ItemsFor(q, other), q.limit, q.room) == Done && ToPost(q, other) ==> GoodRemoval(q, own, other, x))
    && match r
       case Failed(_) => own' == own && other' == other
       case NotPosted => own' == own && SideTaken(q, other, other')
       case OnBook(leaf) => SidePosted(q, own, own', leaf, x) && SideTaken(q, other, other')
  }

  ghost function SideOf(book: BookSide, bid: bool): Side
    requires |book.trees| == 2
    reads book
  {
    Side(OrderOf(book.trees[0], bid), OrderOf(book.trees[1], bid), book.bumpIndex)
  }

  lemma SideFacts(book: BookSide, bid: bool)
    requires book.Valid()
    ensures SortedSide(bid, SideOf(book, bid)) && OrdersOf(SideOf(book, bid)) == [book.Orders(0), book.Orders(1)]
  {
    hide ValidState, OptLeaves, OrderOf, SortedLeaves;
    TreeFacts(book, 0, bid);
    TreeFacts(book, 1, bid);
    assert SetOf(OrderOf(book.trees[0], bid)) == book.Orders(0) && SetOf(OrderOf(book.trees[1], bid)) == book.Orders(1);
  }

  lemma ItemsArePriced(q: Request, other: Side)
    requires SortedSide(!q.t.bid, other) && GoodOrders(SetOf(other.fixed), SetOf(other.pegged))
    ensures Opposing(q.t, ItemsFor(q, other)) && Priced(ItemsFor(q, other))
  {
    hide SortedLeaves, GoodOrders, Opposing, Run, Priced;
    RunIsOpposing(Facing(q), q.t, other.fixed, other.pegged, SetOf(other.fixed), SetOf(other.pegged));
    OpposingPriced(q.t, ItemsFor(q, other));
  }

  lemma FreshKey(q: Request, own: Side, seqNum: nat, leaf: Leaf, c: nat)
    requires GoodRequest(q) && GoodSide(q.t.bid, own, seqNum) && seqNum + 1 < Pow2(HALF) && c < 2
    requires leaf.key == NewNodeKey(q.t.bid, PriceDataOf(q), seqNum + 1)
    ensures Without(OrdersOf(own)[c], leaf.key) == OrdersOf(own)[c]
  {
    hide Number, Pow2, ToBits, NewNodeKey, OrderData, SortedLeaves, GoodOrders;
    NewNodeKeyData(q.t.bid, PriceDataOf(q), seqNum + 1);
    forall x | x in OrdersOf(own)[c] ensures x.key != leaf.key {
      assert SeqOf(q.t.bid, x.key) <= seqNum < SeqOf(q.t.bid, leaf.key);
    }
  }

  /** Matches a new order against the other side and posts what is left to its own. */
  method PlaceOrder(own: BookSide, other: BookSide, seqNum: nat, q: Request) returns (r: Placed, ghost x: Removed)
    requires own != other && own.nodes != other.nodes && own.Valid() && other.Valid()
    requires GoodRequest(q) && seqNum + 1 < Pow2(HALF)
    requires GoodSide(q.t.bid, SideOf(own, q.t.bid), seqNum) && GoodSide(!q.t.bid, SideOf(other, !q.t.bid), seqNum)
    modifies own, own.nodes, other, other.nodes
    ensures own.Valid() && other.Valid() && Priced(ItemsFor(q, old(SideOf(other, !q.t.bid))))
    ensures var s, o := old(SideOf(own, q.t.bid)), old(SideOf(other, !q.t.bid));
            SideStep(q, s, o, seqNum, if r.Failed? then s else SideOf(own, q.t.bid), if r.Failed? then o else SideOf(other, !q.t.bid), r, x)
  {
    hide ValidState, OptLeaves, Run, OrderOf, SortedSide, GoodOrders, Tracks, KeysKept, MatchOutcome, MatchResult, Priced,
         PostVerdict, ToEvict, ToDrop, Slots, Less1, NewNodeKey, Without, Opposing, Stage, Pow2, SetOf;
    ghost var s, o := SideOf(own, q.t.bid), SideOf(other, !q.t.bid);
    SideFacts(own, q.t.bid);
    SideFacts(other, !q.t.bid);
    ItemsArePriced(q, o);
    x := Removed(None, 0, None, 0);
    var t := q.t;
    var outcome, m, items := Take(other, Facing(q), t, q.limit, q.room);
    if outcome == QueueFull {
      return Failed(NoEventRoom), x;
    }
    if outcome == WouldSelfTrade {
      return Failed(SelfTrade), x;
    }
    SideFacts(other, !q.t.bid);
    var quantity := Remainder(t, m);
    if !(m.post && quantity > 0 && q.inside) {
      return NotPosted, x;
    }
    var leaf := NewLeaf(q, seqNum + 1, quantity);
    FreshKey(q, s, seqNum, leaf, q.tree);
    var posted, expired, worst, from, w := PostOrder(own, Alike(q), q.tree, leaf, t.price, q.room - Matching.Events(m), q.slot);
    x := Removed(expired, from, worst, w);
    match posted {
      case EventsFull => r := Failed(NoEventRoom);
      case NotBetter => r := Failed(NotBetterThanWorst);
      case NoOrderSlot => r := Failed(NoAccountSlot);
      case NoSlot => r := Failed(OutOfSpace);
      case Posted => r := OnBook(leaf);
    }
    SideFacts(own, q.t.bid);
  }

  // ---- What every order keeps ----

  /** Each order of the other side is what remains of one that was there. */
  lemma TakenIsRemnant(q: Request, other: Side, other': Side, d: nat, y: Leaf) returns (x: Leaf)
    requires GoodOrders(SetOf(other.fixed), SetOf(other.pegged)) && SortedSide(!q.t.bid, other)
    requires Priced(ItemsFor(q, other)) && SideTaken(q, other, other') && d < 2 && y in OrdersOf(other')[d]
    ensures x in OrdersOf(other)[d] && Remnant(y, x)
  {
    hide SortedLeaves, GoodOrders, Opposing, Run, Priced, Tracks, Stage, MatchResult, Progress, Remnant, SetOf;
    var items := ItemsFor(q, other);
    ItemsArePriced(q, other);
    ResultKeepsPromises(q.t, items, q.limit);
    RunFromLists(Facing(q), other.fixed, other.pegged);
    SetFacts(other);
    x := LeftIsRemnant(q.t, items, End(q.t, items, q.limit), MatchResult(q.t, items, q.limit), OrdersOf(other)[d], OrdersOf(other')[d], d, y);
  }

  lemma SetFacts(s: Side)
    ensures forall x :: x in s.fixed <==> x in OrdersOf(s)[0]
    ensures forall x :: x in s.pegged <==> x in OrdersOf(s)[1]
  {}

  lemma TakenStaysGood(q: Request, other: Side, other': Side, seqNum: nat)
    requires GoodSide(!q.t.bid, other, seqNum) && Priced(ItemsFor(q, other)) && SideTaken(q, other, other')
    ensures GoodSide(!q.t.bid, other', seqNum)
  {
    hide SortedSide, Run, Priced, Tracks, Stage, MatchResult, PriceData, SeqOf;
    SetFacts(other);
    SetFacts(other');
    forall d: nat, y | d < 2 && y in OrdersOf(other')[d]
      ensures y.quantity >= 1 && (d == 0 ==> 1 <= PriceData(y.key) <= I64_MAX) && SeqOf(!q.t.bid, y.key) <= seqNum
    {
      var x := TakenIsRemnant(q, other, other', d, y);
    }
  }

  lemma NewLeafIsGood(q: Request, seqNum: nat, quantity: int)
    requires GoodRequest(q) && seqNum < Pow2(HALF)
    ensures var leaf := NewLeaf(q, seqNum, quantity);
            && PriceData(leaf.key) == PriceDataOf(q) && SeqOf(q.t.bid, leaf.key) == seqNum
            && OrderPrice(Alike(q), q.tree == 1, leaf) == q.t.price && !IsExpired(leaf, q.now)
  {
    hide Number, Pow2, ToBits, NewNodeKey, OrderData, PriceData;
    NewNodeKeyData(q.t.bid, PriceDataOf(q), seqNum);
  }

  lemma PostedStaysGood(q: Request, own: Side, own': Side, seqNum: nat, leaf: Leaf, x: Removed)
    requires GoodSide(q.t.bid, own, seqNum) && SidePosted(q, own, own', leaf, x) && leaf.quantity >= 1
    requires SeqOf(q.t.bid, leaf.key) <= seqNum + 1 && (q.tree == 0 ==> 1 <= PriceData(leaf.key) <= I64_MAX)
    ensures GoodSide(q.t.bid, own', seqNum + 1)
  {
    hide SortedSide, PriceData, SeqOf, Slots;
    SetFacts(own);
    SetFacts(own');
    forall d: nat, y | d < 2 && y in OrdersOf(own')[d]
      ensures y == leaf || y in OrdersOf(own)[d]
    {}
  }

  ghost predicate Readable(b: Book, q: Request) {
    GoodRequest(q) && b.seqNum + 1 < Pow2(HALF) && Priced(ItemsFor(q, OwnSide(b, !q.t.bid)))
  }

  /** One instruction, on the book. */
  ghost predicate Step(b: Book, q: Request, b': Book, r: Placed, x: Removed) {
    && Readable(b, q)
    && SideStep(q, OwnSide(b, q.t.bid), OwnSide(b, !q.t.bid), b.seqNum, OwnSide(b', q.t.bid), OwnSide(b', !q.t.bid), r, x)
    && b'.seqNum == b.seqNum + if r.Failed? then 0 else 1
  }

  lemma StepKeepsGood(b: Book, q: Request, b': Book, r: Placed, x: Removed)
    requires GoodBook(b) && Step(b, q, b', r, x)
    ensures GoodBook(b')
  {
    hide SideTaken, SidePosted, SortedSide, GoodOrders, Run, MatchOutcome, MatchResult, GoodRemoval, PostVerdict, Drop, NewNodeKey, PriceData, SeqOf;
    var own, other := OwnSide(b, q.t.bid), OwnSide(b, !q.t.bid);
    if !r.Failed? {
      TakenStaysGood(q, other, OwnSide(b', !q.t.bid), b.seqNum);
      if r.OnBook? {
        NewLeafIsGood(q, b.seqNum + 1, r.leaf.quantity);
        PostedStaysGood(q, own, OwnSide(b', q.t.bid), b.seqNum, r.leaf, x);
      }
    }
  }

  // ---- Crossing ----

  /** An order of one side, with its tree, is valid. */
  ghost predicate ValidIn(bid: bool, now: nat, oracle: int, orders: seq<set<Leaf>>, d: nat, x: Leaf) {
    d < 2 && d < |orders| && x in orders[d] && StateOf(View(bid, now, oracle), d == 1, x) == Valid
  }

  function PriceIn(bid: bool, now: nat, oracle: int, d: nat, x: Leaf): int {
    OrderPrice(View(bid, now, oracle), d == 1, x)
  }

  /** An order at a price reaches a valid one of the other side. */
  ghost predicate Reaches(bid: bool, price: int, other: seq<set<Leaf>>, now: nat, oracle: int, e: nat, y: Leaf) {
    ValidIn(!bid, now, oracle, other, e, y) && !Better(!bid, price, PriceIn(!bid, now, oracle, e, y))
  }

  ghost predicate Meet(bid: bool, own: seq<set<Leaf>>, other: seq<set<Leaf>>, now: nat, oracle: int, d: nat, x: Leaf, e: nat, y: Leaf) {
    ValidIn(bid, now, oracle, own, d, x) && Reaches(bid, PriceIn(bid, now, oracle, d, x), other, now, oracle, e, y)
  }

  /** No valid order of a side reaches a valid one of the other. */
  ghost predicate Apart(bid: bool, own: seq<set<Leaf>>, other: seq<set<Leaf>>, now: nat, oracle: int) {
    forall d: nat, x, e: nat, y :: !Meet(bid, own, other, now, oracle, d, x, e, y)
  }

  /** Every valid bid is below every valid ask. */
  ghost predicate Uncrossed(b: Book, now: nat, oracle: int) {
    Apart(true, OrdersOf(b.bids), OrdersOf(b.asks), now, oracle)
  }

  lemma EitherSide(b: Book, bid: bool, now: nat, oracle: int)
    ensures Uncrossed(b, now, oracle) <==> Apart(bid, OrdersOf(OwnSide(b, bid)), OrdersOf(OwnSide(b, !bid)), now, oracle)
  {
    hide ValidIn, PriceIn;
    var bids, asks := OrdersOf(b.bids), OrdersOf(b.asks);
    forall d: nat, x, e: nat, y
      ensures Meet(true, bids, asks, now, oracle, d, x, e, y) <==> Meet(false, asks, bids, now, oracle, e, y, d, x)
    {}
  }

  /** The posted order is valid and crosses: the iteration lost an order within its limit, or
      matching it completely would have cost more than its quote. */
  ghost predicate PostsCrossing(b: Book, q: Request, r: Placed) {
    var other := OwnSide(b, !q.t.bid);
    && r.OnBook? && StateOf(Alike(q), q.tree == 1, r.leaf) == Valid
    && (LostCrosses(Facing(q), q.t, other.fixed, other.pegged)
        || q.t.maxQuote < Needed(q.t, ItemsFor(q, other), |ItemsFor(q, other)|))
  }

  /** Whether the posted order reaches one that is left on the other side. */
  lemma PostedCrossedExactly(q: Request, own: Side, other: Side, seqNum: nat, own': Side, other': Side, r: Placed, x: Removed)
    requires GoodRequest(q) && seqNum + 1 < Pow2(HALF) && Priced(ItemsFor(q, other)) && GoodSide(!q.t.bid, other, seqNum)
    requires SideStep(q, own, other, seqNum, own', other', r, x) && r.OnBook?
    ensures Crossed(Facing(q), q.t, SetOf(other'.fixed), SetOf(other'.pegged)) <==>
              || LostCrosses(Facing(q), q.t, other.fixed, other.pegged)
              || q.t.maxQuote < Needed(q.t, ItemsFor(q, other), |ItemsFor(q, other)|)
  {
    hide SidePosted, SortedLeaves, GoodOrders, Run, MatchResult, GoodRemoval, PostVerdict, Drop, NewNodeKey, Opposing,
         Crossed, LostCrosses, Needed, Tracks, Stage, Priced, Pow2;
    var items := ItemsFor(q, other);
    ItemsArePriced(q, other);
    assert Remains(q.t, items, q.limit) by { DoneRemains(q, other); }
    SetFacts(other);
    CrossedExactly(Facing(q), q.t, other.fixed, other.pegged, q.limit, SetOf(other.fixed), SetOf(other.pegged),
                   SetOf(other'.fixed), SetOf(other'.pegged));
  }

  lemma DoneRemains(q: Request, other: Side)
    requires q.t.price >= 1 && Priced(ItemsFor(q, other)) && ToPost(q, other)
    requires MatchOutcome(q.t, ItemsFor(q, other), q.limit, q.room) == Done
    ensures Remains(q.t, ItemsFor(q, other), q.limit)
  {
    hide Run, Priced;
  }

  lemma ReachesExactly(q: Request, other: seq<set<Leaf>>)
    requires |other| == 2
    ensures Crossed(Facing(q), q.t, other[0], other[1]) <==>
              exists e: nat, y :: Reaches(q.t.bid, q.t.price, other, q.now, q.oracle, e, y)
  {
    hide StateOf, OrderPrice;
    if y :| y in other[0] && Crosses(Facing(q), q.t, false, y) {
      assert Reaches(q.t.bid, q.t.price, other, q.now, q.oracle, 0, y);
    }
    if y :| y in other[1] && Crosses(Facing(q), q.t, true, y) {
      assert Reaches(q.t.bid, q.t.price, other, q.now, q.oracle, 1, y);
    }
    if e: nat, y :| Reaches(q.t.bid, q.t.price, other, q.now, q.oracle, e, y) {
      assert Crosses(Facing(q), q.t, e == 1, y);
    }
  }

  /** What is left of an order is as valid as it was, at the same price. */
  lemma RemnantIn(bid: bool, now: nat, oracle: int, before: seq<set<Leaf>>, after: seq<set<Leaf>>, d: nat, y: Leaf, x: Leaf)
    requires ValidIn(bid, now, oracle, after, d, y) && d < |before| && x in before[d] && Remnant(y, x)
    ensures ValidIn(bid, now, oracle, before, d, x) && PriceIn(bid, now, oracle, d, x) == PriceIn(bid, now, oracle, d, y)
  {}

  /** Sides that are apart stay apart, whatever is removed from them, but for a new order. */
  lemma StaysApart(bid: bool, now: nat, oracle: int, own: seq<set<Leaf>>, own': seq<set<Leaf>>, other: seq<set<Leaf>>, other': seq<set<Leaf>>,
                   d: nat, x: Leaf, x0: Leaf, e: nat, y: Leaf, y0: Leaf)
    requires Apart(bid, own, other, now, oracle) && d < |own| && e < |other|
    requires x0 in own[d] && Remnant(x, x0) && y0 in other[e] && Remnant(y, y0)
    ensures !Meet(bid, own', other', now, oracle, d, x, e, y)
  {
    hide Remnant, StateOf, OrderPrice;
    assert !Meet(bid, own, other, now, oracle, d, x0, e, y0);
    if Meet(bid, own', other', now, oracle, d, x, e, y) {
      RemnantIn(bid, now, oracle, own, own', d, x, x0);
      RemnantIn(!bid, now, oracle, other, other', e, y, y0);
    }
  }

  /** After taking and posting, a pair that meets includes the new order. */
  lemma OnlyNewMeets(q: Request, own: Side, other: Side, seqNum: nat, own': Side, other': Side, r: Placed, x: Removed,
                     d: nat, y: Leaf, e: nat, z: Leaf)
    requires GoodRequest(q) && seqNum + 1 < Pow2(HALF) && Priced(ItemsFor(q, other)) && GoodSide(!q.t.bid, other, seqNum)
    requires SideStep(q, own, other, seqNum, own', other', r, x)
    requires Apart(q.t.bid, OrdersOf(own), OrdersOf(other), q.now, q.oracle)
    requires Meet(q.t.bid, OrdersOf(own'), OrdersOf(other'), q.now, q.oracle, d, y, e, z)
    ensures r.OnBook? && y == r.leaf && d == q.tree
  {
    hide SortedLeaves, GoodOrders, Run, MatchOutcome, MatchResult, GoodRemoval, PostResult, NewNodeKey, Tracks, Stage, Priced, Pow2, Slots, SetOf, SideTaken, StateOf;
    if !r.Failed? {
      var z0 := TakenIsRemnant(q, other, other', e, z);
      if y in OrdersOf(own)[d] {
        StaysApart(q.t.bid, q.now, q.oracle, OrdersOf(own), OrdersOf(own'), OrdersOf(other), OrdersOf(other'), d, y, y, e, z, z0);
      }
    }
  }

  /** An uncrossed book stays so, unless the new order is posted crossing. */
  lemma StepUncrossedExactly(b: Book, q: Request, b': Book, r: Placed, x: Removed)
    requires GoodBook(b) && Step(b, q, b', r, x) && Uncrossed(b, q.now, q.oracle)
    ensures Uncrossed(b', q.now, q.oracle) <==> !PostsCrossing(b, q, r)
  {
    hide SideStep, GoodSide, GoodRequest, Run, Priced, Apart, Crossed, LostCrosses, Needed, StateOf, Uncrossed, OrdersOf, Pow2;
    var bid := q.t.bid;
    var own, other, own', other' := OwnSide(b, bid), OwnSide(b, !bid), OwnSide(b', bid), OwnSide(b', !bid);
    EitherSide(b, bid, q.now, q.oracle);
    EitherSide(b', bid, q.now, q.oracle);
    SideUncrossedExactly(q, own, other, b.seqNum, own', other', r, x);
    if r.OnBook? {
      PostedCrossedExactly(q, own, other, b.seqNum, own', other', r, x);
    }
  }

  lemma SideUncrossedExactly(q: Request, own: Side, other: Side, seqNum: nat, own': Side, other': Side, r: Placed, x: Removed)
    requires GoodRequest(q) && seqNum + 1 < Pow2(HALF) && Priced(ItemsFor(q, other)) && GoodSide(!q.t.bid, other, seqNum)
    requires SideStep(q, own, other, seqNum, own', other', r, x)
    requires Apart(q.t.bid, OrdersOf(own), OrdersOf(other), q.now, q.oracle)
    ensures Apart(q.t.bid, OrdersOf(own'), OrdersOf(other'), q.now, q.oracle) <==>
              !(r.OnBook? && StateOf(Alike(q), q.tree == 1, r.leaf) == Valid
                && Crossed(Facing(q), q.t, SetOf(other'.fixed), SetOf(other'.pegged)))
  {
    hide SideStep, GoodSide, Run, Priced, Crossed, StateOf, Meet, Pow2;
    var bid := q.t.bid;
    var o, o' := OrdersOf(own'), OrdersOf(other');
    if !Apart(bid, o, o', q.now, q.oracle) {
      var d: nat, y, e: nat, z :| Meet(bid, o, o', q.now, q.oracle, d, y, e, z);
      OnlyNewMeets(q, own, other, seqNum, own', other', r, x, d, y, e, z);
      NewMeets(q, own, other, seqNum, own', other', r, x, e, z);
      ReachesExactly(q, o');
    }
    if r.OnBook? && StateOf(Alike(q), q.tree == 1, r.leaf) == Valid && Crossed(Facing(q), q.t, o'[0], o'[1]) {
      ReachesExactly(q, o');
      var e: nat, z :| Reaches(bid, q.t.price, o', q.now, q.oracle, e, z);
      NewMeets(q, own, other, seqNum, own', other', r, x, e, z);
    }
  }

  /** What the new order meets is what its price reaches. */
  lemma NewMeets(q: Request, own: Side, other: Side, seqNum: nat, own': Side, other': Side, r: Placed, x: Removed, e: nat, z: Leaf)
    requires GoodRequest(q) && seqNum + 1 < Pow2(HALF) && Priced(ItemsFor(q, other))
    requires SideStep(q, own, other, seqNum, own', other', r, x) && r.OnBook?
    ensures Meet(q.t.bid, OrdersOf(own'), OrdersOf(other'), q.now, q.oracle, q.tree, r.leaf, e, z) <==>
              && StateOf(Alike(q), q.tree == 1, r.leaf) == Valid
              && Reaches(q.t.bid, q.t.price, OrdersOf(other'), q.now, q.oracle, e, z)
  {
    hide SideTaken, Run, MatchOutcome, MatchResult, GoodRemoval, NewNodeKey, Priced, Pow2, Reaches, Slots, SetOf, Drop, StateOf, SortedLeaves;
    NewLeafIsGood(q, seqNum + 1, r.leaf.quantity);
  }

  lemma Aging(b: Book, now: nat, later: nat, oracle: int)
    requires Uncrossed(b, now, oracle) && now <= later
    ensures Uncrossed(b, later, oracle)
  {
    hide PeggedPrice, PriceData;
    forall d: nat, x, e: nat, y ensures !Meet(true, OrdersOf(b.bids), OrdersOf(b.asks), later, oracle, d, x, e, y) {
      assert !Meet(true, OrdersOf(b.bids), OrdersOf(b.asks), now, oracle, d, x, e, y);
      StaysValid(true, now, later, oracle, x);
      StaysValid(false, now, later, oracle, y);
    }
  }

  lemma StaysValid(bid: bool, now: nat, later: nat, oracle: int, x: Leaf)
    requires now <= later
    ensures PeggedPrice(View(bid, now, oracle), x) == PeggedPrice(View(bid, later, oracle), x)
  {}

  // ---- Every sequence of orders ----

  datatype Placing = Placing(q: Request, r: Placed, x: Removed)

  /** Books after each of a sequence of instructions. */
  ghost predicate IsRun(books: seq<Book>, placings: seq<Placing>) {
    && |books| == |placings| + 1
    && forall i :: 0 <= i < |placings| ==> Step(books[i], placings[i].q, books[i + 1], placings[i].r, placings[i].x)
  }

  /** The time does not go back and the oracle price does not change. */
  ghost predicate Steady(placings: seq<Placing>, oracle: int) {
    && (forall i :: 0 <= i < |placings| ==> placings[i].q.oracle == oracle)
    && (forall i, j :: 0 <= i < j < |placings| ==> placings[i].q.now <= placings[j].q.now)
  }

  /** Sorted trees with positive prices and quantities and distinct keys, whatever the orders. */
  lemma {:induction false} RunStaysGood(books: seq<Book>, placings: seq<Placing>, n: nat)
    requires IsRun(books, placings) && GoodBook(books[0]) && n < |books|
    ensures GoodBook(books[n])
    decreases n
  {
    hide Step, GoodBook;
    if n > 0 {
      RunStaysGood(books, placings, n - 1);
      var p := placings[n - 1];
      StepKeepsGood(books[n - 1], p.q, books[n], p.r, p.x);
    }
  }

  ghost predicate NoneCrossing(books: seq<Book>, placings: seq<Placing>, n: nat)
    requires |books| == |placings| + 1 && n <= |placings|
  {
    forall i :: 0 <= i < n ==> !PostsCrossing(books[i], placings[i].q, placings[i].r)
  }

  ghost predicate AllUncrossed(books: seq<Book>, placings: seq<Placing>, n: nat)
    requires |books| == |placings| + 1 && n <= |placings|
  {
    forall i :: 0 <= i < n ==> Uncrossed(books[i + 1], placings[i].q.now, placings[i].q.oracle)
  }

  /** From an uncrossed book, with a steady oracle price: after every instruction each valid bid is
      below each valid ask, if and only if none of them posts an order crossing. */
  lemma {:induction false} RunUncrossedExactly(books: seq<Book>, placings: seq<Placing>, oracle: int, n: nat)
    requires IsRun(books, placings) && GoodBook(books[0]) && Steady(placings, oracle) && n <= |placings|
    requires placings != [] ==> Uncrossed(books[0], placings[0].q.now, oracle)
    ensures AllUncrossed(books, placings, n) <==> NoneCrossing(books, placings, n)
    decreases n
  {
    hide Step, GoodBook, Uncrossed, PostsCrossing;
    if n > 0 {
      var i := n - 1;
      RunUncrossedExactly(books, placings, oracle, i);
      var p := placings[i];
      if AllUncrossed(books, placings, i) {
        RunStaysGood(books, placings, i);
        if i > 0 { Aging(books[i], placings[i - 1].q.now, p.q.now, oracle); }
        StepUncrossedExactly(books[i], p.q, books[n], p.r, p.x);
      }
    }
  }

  // ---- The order book ----

  class Orderbook {
    const bids: BookSide
    const asks: BookSide
    var seqNum: nat

    ghost predicate Valid()
      reads this, bids, bids.nodes, asks, asks.nodes
    {
      && bids != asks && bids.nodes != asks.nodes && bids.Valid() && asks.Valid()
      && GoodBook(State())
    }

    ghost function State(): Book
      requires |bids.trees| == |asks.trees| == 2
      reads this, bids, asks
    {
      Book(SideOf(bids, true), SideOf(asks, false), seqNum)
    }

    /** Zeroed accounts. */
    constructor ()
      ensures Valid() && State() == Book(Side([], [], 0), Side([], [], 0), 0) && fresh(bids) && fresh(asks)
      ensures fresh(bids.nodes) && fresh(asks.nodes)
    {
      bids := new BookSide();
      asks := new BookSide();
      seqNum := 0;
      new;
      EmptySide(bids, true);
      EmptySide(asks, false);
    }

    /** Places an order. If that fails, the transaction undoes it. */
    method NewOrder(q: Request) returns (r: Placed, ghost x: Removed)
      requires Valid() && GoodRequest(q) && seqNum + 1 < Pow2(HALF)
      modifies this, bids, bids.nodes, asks, asks.nodes
      ensures bids.Valid() && asks.Valid()
      ensures Step(old(State()), q, if r.Failed? then old(State()) else State(), r, x)
      ensures !r.Failed? ==> Valid()
    {
      hide GoodSide, SideStep, GoodRequest, Pow2, Run;
      ghost var before := State();
      if q.t.bid {
        r, x := PlaceOrder(bids, asks, seqNum, q);
      } else {
        r, x := PlaceOrder(asks, bids, seqNum, q);
      }
      if !r.Failed? {
        seqNum := seqNum + 1;
        StepKeepsGood(before, q, State(), r, x);
      }
    }
  }

  lemma EmptySide(book: BookSide, bid: bool)
    requires book.Valid() && book.Orders(0) == book.Orders(1) == {} && book.bumpIndex == 0
    ensures SideOf(book, bid) == Side([], [], 0) && GoodSide(bid, SideOf(book, bid), 0)
  {
    hide ValidState, OptLeaves, OrderOf, SortedLeaves;
    SideFacts(book, bid);
    var s := SideOf(book, bid);
    SetFacts(s);
    NoElements(s.fixed);
    NoElements(s.pegged);
  }

  lemma NoElements(s: seq<Leaf>)
    requires SetOf(s) == {}
    ensures s == []
  {
    if s != [] { FirstIsIn(s); }
  }

  lemma FirstIsIn(s: seq<Leaf>)
    requires s != []
    ensures SetOf(s) != {}
  {
    assert s[0] in SetOf(s);
  }
}
