/** Iteration over one side of the book: each tree in the order of its keys, and the fixed-price
    and oracle-pegged trees merged by price and time. */
module BookIteration {
  import opened Options
  import opened Bits
  import opened OrderTrees
  import opened BookSides
  import opened NodeKeys

  // ---- One tree ----

  /** The child that is visited first, and the other one. */
  function Near(t: Tree, descending: bool): Tree
    requires t.Fork?
  {
    if descending then t.right else t.left
  }

  function Far(t: Tree, descending: bool): Tree
    requires t.Fork?
  {
    if descending then t.left else t.right
  }

  ghost predicate Forks(pending: seq<Tree>) {
    forall i :: 0 <= i < |pending| ==> pending[i].Fork?
  }

  /** What is left to visit below the forks on the stack, whose near sides are done. */
  ghost function FarLeaves(pending: seq<Tree>, descending: bool): seq<Leaf>
    requires Forks(pending)
  {
    if pending == [] then []
    else InOrder(Far(pending[|pending| - 1], descending), descending) + FarLeaves(pending[..|pending| - 1], descending)
  }

  lemma FarLeavesPush(pending: seq<Tree>, t: Tree, descending: bool)
    requires Forks(pending) && t.Fork?
    ensures Forks(pending + [t])
    ensures FarLeaves(pending + [t], descending) == InOrder(Far(t, descending), descending) + FarLeaves(pending, descending)
    ensures InOrder(Near(t, descending), descending) + FarLeaves(pending + [t], descending)
            == InOrder(t, descending) + FarLeaves(pending, descending)
  {
    assert (pending + [t])[..|pending|] == pending;
  }

  ghost predicate Stacked(nodes: seq<Node>, stack: seq<Node>, pending: seq<Tree>) {
    && |stack| == |pending| && Forks(pending)
    && forall i :: 0 <= i < |pending| ==> stack[i] == RootNode(pending[i]) && Represents(nodes, pending[i])
  }

  class OrderTreeIter {
    const nodes: seq<Node>
    const descending: bool
    var stack: seq<Node>
    var nextLeaf: Option<(nat, Leaf)>

    ghost var pending: seq<Tree>

    ghost predicate Valid()
      reads this
    {
      && Stacked(nodes, stack, pending)
      && (nextLeaf.None? ==> pending == [])
      && (nextLeaf.Some? ==> nextLeaf.value.0 < |nodes| && nodes[nextLeaf.value.0] == LeafNode(nextLeaf.value.1))
    }

    /** The leaves still to come. */
    ghost function Rest(): seq<Leaf>
      requires Valid()
      reads this
    {
      if nextLeaf.None? then [] else [nextLeaf.value.1] + FarLeaves(pending, descending)
    }

    constructor (nodes: seq<Node>, root: Root, descending: bool, ghost tree: Option<Tree>)
      requires TreeHeld(nodes, root, tree)
      ensures Valid() && this.descending == descending
      ensures Rest() == if tree.None? then [] else InOrder(tree.value, descending)
    {
      this.nodes, this.descending := nodes, descending;
      stack, nextLeaf, pending := [], None, [];
      new;
      if root.leafCount > 0 {
        FindLeftmostLeaf(root.maybeNode, tree.value);
      }
    }

    /** Goes down the near side, remembering the forks. */
    method FindLeftmostLeaf(start: nat, ghost t: Tree)
      requires Stacked(nodes, stack, pending) && Represents(nodes, t) && start == t.handle
      modifies this
      ensures Valid() && nextLeaf.Some?
      ensures Rest() == InOrder(t, descending) + old(FarLeaves(pending, descending))
    {
      hide FarLeaves;
      var current := start;
      ghost var sub := t;
      while nodes[current].Inner?
        invariant Stacked(nodes, stack, pending) && Represents(nodes, sub) && current == sub.handle
        invariant InOrder(sub, descending) + FarLeaves(pending, descending)
               == InOrder(t, descending) + old(FarLeaves(pending, descending))
        decreases sub
      {
        var inner := nodes[current];
        FarLeavesPush(pending, sub, descending);
        stack, pending := stack + [inner], pending + [sub];
        sub := Near(sub, descending);
        current := Child(inner, descending);
      }
      nextLeaf := Some((current, nodes[current].leaf));
    }

    /** Returns the current leaf and moves on. */
    method Next() returns (r: Option<(nat, Leaf)>)
      requires Valid()
      modifies this
      ensures Valid() && r == old(nextLeaf)
      ensures r.None? <==> old(Rest()) == []
      ensures r.Some? ==> r.value.1 == old(Rest())[0] && Rest() == old(Rest())[1..]
      ensures r.None? ==> Rest() == []
    {
      r := nextLeaf;
      if nextLeaf.None? {
        return;
      }
      if stack == [] {
        nextLeaf := None;
      } else {
        ghost var top := pending[|pending| - 1];
        var inner := stack[|stack| - 1];
        stack, pending := stack[..|stack| - 1], pending[..|pending| - 1];
        FindLeftmostLeaf(Child(inner, !descending), Far(top, descending));
      }
    }
  }

  // ---- Both trees ----

  datatype OrderState = Valid | Invalid | Skipped

  /** What an iteration depends on besides the orders. */
  datatype View = View(bid: bool, now: nat, oracle: int)

  /** `rank` is the fixed-price key the order is compared by. */
  datatype Item = Item(leaf: Leaf, pegged: bool, price: int, state: OrderState, rank: nat)

  predicate IsExpired(leaf: Leaf, now: nat) {
    leaf.timeInForce > 0 && now >= leaf.timestamp + leaf.timeInForce
  }

  function SaturatingAdd(a: int, b: int): int {
    if a + b < I64_MIN then I64_MIN else if a + b > I64_MAX then I64_MAX else a + b
  }

  /** State and current price of an oracle-pegged order. */
  function PeggedPrice(v: View, leaf: Leaf): (OrderState, int) {
    var price := SaturatingAdd(v.oracle, PeggedOffset(PriceData(leaf.key)));
    if 1 <= price < I64_MAX then
      (if leaf.pegLimit != -1 && Better(v.bid, price, leaf.pegLimit) then Invalid else Valid, price)
    else (Skipped, if price < 1 then 1 else price)
  }

  predicate IsSkipped(v: View, leaf: Leaf) {
    PeggedPrice(v, leaf).0 == Skipped
  }

  /** The pegged key with its price data replaced. */
  function FixedKey(k: Key, price: nat): nat {
    price * Pow2(HALF) + OrderData(k)
  }

  function FixedItem(v: View, leaf: Leaf): Item {
    Item(leaf, false, PriceData(leaf.key), if IsExpired(leaf, v.now) then Invalid else Valid, Number(leaf.key))
  }

  function PeggedItem(v: View, leaf: Leaf): Item
    requires !IsSkipped(v, leaf)
  {
    var (state, price) := PeggedPrice(v, leaf);
    Item(leaf, true, price, if IsExpired(leaf, v.now) then Invalid else state, FixedKey(leaf.key, price))
  }

  /** Whether the fixed order comes first; the pegged one wins ties. */
  predicate FixedFirst(v: View, fixed: Leaf, pegged: Leaf)
    requires !IsSkipped(v, pegged)
  {
    Better(v.bid, FixedItem(v, fixed).rank, PeggedItem(v, pegged).rank)
  }

  function Tail(s: seq<Leaf>): seq<Leaf> {
    if s == [] then [] else s[1..]
  }

  /** The loop over pegged orders that cannot be shown: the iterator's `next`, which returns the
      leaf before it moves on, is used to look at the following leaf. */
  function Skip(v: View, peek: Option<Leaf>, rest: seq<Leaf>): (r: (Option<Leaf>, seq<Leaf>))
    ensures r.0.Some? ==> !IsSkipped(v, r.0.value)
    ensures |r.1| <= |rest|
    decreases |rest|
  {
    if peek.None? || !IsSkipped(v, peek.value) then (peek, rest)
    else if rest == [] then (None, [])
    else Skip(v, Some(rest[0]), rest[1..])
  }

  function Peek(s: seq<Leaf>): Option<Leaf> {
    if s == [] then None else Some(s[0])
  }

  /** One call of the merged iterator's `next`: the item, and what is left of both trees. */
  function NextItem(v: View, fixed: seq<Leaf>, pegged: seq<Leaf>): (Option<Item>, seq<Leaf>, seq<Leaf>) {
    var (peek, rest) := Skip(v, Peek(pegged), pegged);
    if fixed == [] && peek.None? then (None, fixed, rest)
    else if peek.None? || (fixed != [] && FixedFirst(v, fixed[0], peek.value)) then
      (Some(FixedItem(v, fixed[0])), fixed[1..], rest)
    else (Some(PeggedItem(v, peek.value)), fixed, Tail(rest))
  }

  lemma NextItemShrinks(v: View, fixed: seq<Leaf>, pegged: seq<Leaf>)
    requires NextItem(v, fixed, pegged).0.Some?
    ensures var r := NextItem(v, fixed, pegged); |r.1| + |r.2| < |fixed| + |pegged|
  {}

  /** Everything the merged iterator returns. */
  function Run(v: View, fixed: seq<Leaf>, pegged: seq<Leaf>): seq<Item>
    decreases |fixed| + |pegged|
  {
    var (item, fixed', pegged') := NextItem(v, fixed, pegged);
    if item.None? then []
    else
      NextItemShrinks(v, fixed, pegged);
      [item.value] + Run(v, fixed', pegged')
  }

  class BookSideIter {
    const view: View
    const fixedIter: OrderTreeIter
    const peggedIter: OrderTreeIter

    ghost predicate Valid()
      reads this, fixedIter, peggedIter
    {
      fixedIter != peggedIter && fixedIter.Valid() && peggedIter.Valid()
    }

    constructor (view: View, fixedIter: OrderTreeIter, peggedIter: OrderTreeIter)
      requires fixedIter != peggedIter && fixedIter.Valid() && peggedIter.Valid()
      ensures Valid() && this.view == view && this.fixedIter == fixedIter && this.peggedIter == peggedIter
    {
      this.view, this.fixedIter, this.peggedIter := view, fixedIter, peggedIter;
    }

    method Next() returns (r: Option<Item>)
      requires Valid()
      modifies fixedIter, peggedIter
      ensures Valid()
      ensures (r, fixedIter.Rest(), peggedIter.Rest()) == NextItem(view, old(fixedIter.Rest()), old(peggedIter.Rest()))
    {
      hide PeggedPrice;
      ghost var before := peggedIter.Rest();
      var peek := if peggedIter.nextLeaf.None? then None else Some(peggedIter.nextLeaf.value.1);
      assert peek == Peek(before);
      while peek.Some? && IsSkipped(view, peek.value)
        invariant peggedIter.Valid() && fixedIter.Valid() && fixedIter.Rest() == old(fixedIter.Rest())
        invariant Skip(view, peek, peggedIter.Rest()) == Skip(view, Peek(before), before)
        decreases |peggedIter.Rest()|, if peek.Some? then 1 else 0
      {
        var following := peggedIter.Next();
        peek := if following.None? then None else Some(following.value.1);
      }
      var fixedPeek := fixedIter.nextLeaf;
      if fixedPeek.None? && peek.None? {
        return None;
      }
      if peek.None? || (fixedPeek.Some? && FixedFirst(view, fixedPeek.value.1, peek.value)) {
        r := Some(FixedItem(view, fixedPeek.value.1));
        var _ := fixedIter.Next();
      } else {
        r := Some(PeggedItem(view, peek.value));
        var _ := peggedIter.Next();
      }
    }
  }

  // ---- What it should return ----

  /** All orders of both lists, the better one first. */
  function Merge(v: View, fixed: seq<Leaf>, shown: seq<Leaf>): seq<Item>
    requires AllShown(v, shown)
    decreases |fixed| + |shown|
  {
    if fixed == [] && shown == [] then []
    else if shown == [] || (fixed != [] && FixedFirst(v, fixed[0], shown[0])) then
      [FixedItem(v, fixed[0])] + Merge(v, fixed[1..], shown)
    else [PeggedItem(v, shown[0])] + Merge(v, fixed, shown[1..])
  }

  predicate AllShown(v: View, s: seq<Leaf>) {
    forall i :: 0 <= i < |s| ==> !IsSkipped(v, s[i])
  }

  predicate AllSkipped(v: View, s: seq<Leaf>) {
    forall i :: 0 <= i < |s| ==> IsSkipped(v, s[i])
  }

  lemma {:induction false} MergeLength(v: View, fixed: seq<Leaf>, shown: seq<Leaf>)
    requires AllShown(v, shown)
    ensures |Merge(v, fixed, shown)| == |fixed| + |shown|
    decreases |fixed| + |shown|
  {
    if shown == [] || (fixed != [] && FixedFirst(v, fixed[0], shown[0])) {
      if fixed != [] { MergeLength(v, fixed[1..], shown); }
    } else {
      MergeLength(v, fixed, shown[1..]);
    }
  }

  /** Skipping a run of leaves that cannot be shown ends one leaf too far. */
  lemma {:induction false} SkipRun(v: View, x: Leaf, a: seq<Leaf>, rest: seq<Leaf>)
    requires IsSkipped(v, x) && AllSkipped(v, a) && (rest != [] ==> !IsSkipped(v, rest[0]))
    ensures Skip(v, Some(x), a + rest) == (Peek(rest), Tail(rest))
    decreases |a|
  {
    hide IsSkipped;
    if a == [] {
      assert a + rest == rest;
    } else {
      assert (a + rest)[1..] == a[1..] + rest;
      SkipRun(v, a[0], a[1..], rest);
    }
  }

  lemma SkipAll(v: View, a: seq<Leaf>)
    requires AllSkipped(v, a)
    ensures Skip(v, Peek(a), a) == (None, [])
  {
    if a != [] {
      SkipRun(v, a[0], a, []);
      assert a + [] == a;
    }
  }

  /** Without unshowable leaves in front, the iterator merges. */
  lemma {:induction false} RunMerges(v: View, fixed: seq<Leaf>, shown: seq<Leaf>, after: seq<Leaf>)
    requires AllShown(v, shown) && AllSkipped(v, after)
    ensures Run(v, fixed, shown + after) == Merge(v, fixed, shown)
    decreases |fixed| + |shown|
  {
    hide IsSkipped, FixedFirst;
    if shown == [] {
      assert shown + after == after;
      SkipAll(v, after);
      if fixed != [] {
        var none: seq<Leaf> := [];
        RunMerges(v, fixed[1..], none, none);
        assert none + none == none;
      }
    } else {
      var pegged := shown + after;
      assert Skip(v, Peek(pegged), pegged) == (Some(shown[0]), pegged);
      if fixed != [] && FixedFirst(v, fixed[0], shown[0]) {
        RunMerges(v, fixed[1..], shown, after);
      } else {
        assert Tail(pegged) == shown[1..] + after;
        RunMerges(v, fixed, shown[1..], after);
      }
    }
  }

  lemma NextAfterSkip(v: View, fixed: seq<Leaf>, before: seq<Leaf>, rest: seq<Leaf>)
    requires before != [] && AllSkipped(v, before) && rest != [] && !IsSkipped(v, rest[0])
    ensures NextItem(v, fixed, before + rest)
            == if fixed != [] && FixedFirst(v, fixed[0], rest[0]) then (Some(FixedItem(v, fixed[0])), fixed[1..], rest[1..])
               else (Some(PeggedItem(v, rest[0])), fixed, Tail(rest[1..]))
  {
    hide IsSkipped, FixedFirst, PeggedItem, FixedItem, Skip;
    assert Peek(before + rest) == Some(before[0]);
    SkipRun(v, before[0], before, rest);
  }

  lemma RunStep(v: View, fixed: seq<Leaf>, pegged: seq<Leaf>, item: Item, fixed': seq<Leaf>, pegged': seq<Leaf>)
    requires NextItem(v, fixed, pegged) == (Some(item), fixed', pegged')
    ensures Run(v, fixed, pegged) == [item] + Run(v, fixed', pegged')
  {}

  /** After unshowable leaves, the first shown one gets lost if a fixed order comes first. */
  lemma FirstShownIsLost(v: View, fixed: seq<Leaf>, before: seq<Leaf>, shown: seq<Leaf>, after: seq<Leaf>)
    requires before != [] && AllSkipped(v, before) && AllShown(v, shown) && AllSkipped(v, after) && shown != []
    requires fixed != [] && FixedFirst(v, fixed[0], shown[0])
    ensures Run(v, fixed, before + (shown + after)) == [FixedItem(v, fixed[0])] + Merge(v, fixed[1..], shown[1..])
  {
    hide IsSkipped, FixedFirst, PeggedItem, FixedItem, Run, NextItem, Merge;
    var rest := shown + after;
    NextAfterSkip(v, fixed, before, rest);
    RunStep(v, fixed, before + rest, FixedItem(v, fixed[0]), fixed[1..], rest[1..]);
    assert rest[1..] == shown[1..] + after;
    RunMerges(v, fixed[1..], shown[1..], after);
  }

  /** Otherwise the second one does. */
  lemma SecondShownIsLost(v: View, fixed: seq<Leaf>, before: seq<Leaf>, shown: seq<Leaf>, after: seq<Leaf>)
    requires before != [] && AllSkipped(v, before) && AllShown(v, shown) && AllSkipped(v, after) && shown != []
    requires fixed == [] || !FixedFirst(v, fixed[0], shown[0])
    ensures Run(v, fixed, before + (shown + after)) == [PeggedItem(v, shown[0])] + Merge(v, fixed, Tail(shown[1..]))
  {
    hide IsSkipped, FixedFirst, PeggedItem, FixedItem, Run, NextItem, Merge;
    var rest := shown + after;
    NextAfterSkip(v, fixed, before, rest);
    RunStep(v, fixed, before + rest, PeggedItem(v, shown[0]), fixed, Tail(rest[1..]));
    var shown', after' := Tail(shown[1..]), if |shown| > 1 then after else Tail(after);
    assert Tail(rest[1..]) == shown' + after';
    RunMerges(v, fixed, shown', after');
  }

  lemma RunOfSkipped(v: View, fixed: seq<Leaf>, before: seq<Leaf>)
    requires AllSkipped(v, before)
    ensures Run(v, fixed, before) == Merge(v, fixed, [])
  {
    var none: seq<Leaf> := [];
    assert none + before == before;
    RunMerges(v, fixed, none, before);
  }

  ghost predicate Complete(v: View, fixed: seq<Leaf>, pegged: seq<Leaf>, shown: seq<Leaf>)
    requires AllShown(v, shown)
  {
    Run(v, fixed, pegged) == Merge(v, fixed, shown)
  }

  lemma SplitComplete(v: View, fixed: seq<Leaf>, before: seq<Leaf>, shown: seq<Leaf>, after: seq<Leaf>)
    requires AllSkipped(v, before) && AllShown(v, shown) && AllSkipped(v, after)
    ensures Complete(v, fixed, before + shown + after, shown) <==>
              || before == [] || shown == []
              || (|shown| == 1 && (fixed == [] || !FixedFirst(v, fixed[0], shown[0])))
  {
    hide IsSkipped, FixedFirst, PeggedItem, FixedItem;
    if before == [] {
      assert before + shown + after == shown + after;
      RunMerges(v, fixed, shown, after);
    } else if shown == [] {
      RunOfSkipped(v, fixed, before + shown + after);
    } else {
      assert before + shown + after == before + (shown + after);
      MergeLength(v, fixed, shown);
      if fixed != [] && FixedFirst(v, fixed[0], shown[0]) {
        FirstShownIsLost(v, fixed, before, shown, after);
        MergeLength(v, fixed[1..], shown[1..]);
      } else {
        SecondShownIsLost(v, fixed, before, shown, after);
        MergeLength(v, fixed, Tail(shown[1..]));
        if |shown| == 1 { assert Tail(shown[1..]) == shown[1..]; }
      }
    }
  }

  // ---- Pegged orders that can be shown are contiguous ----

  function Price(v: View, leaf: Leaf): int {
    SaturatingAdd(v.oracle, PeggedOffset(PriceData(leaf.key)))
  }

  lemma PriceFollowsKeys(v: View, x: Leaf, y: Leaf)
    requires Before(x, y, v.bid)
    ensures if v.bid then Price(v, x) >= Price(v, y) else Price(v, x) <= Price(v, y)
    ensures PriceData(x.key) == PriceData(y.key) ==> Better(v.bid, OrderData(x.key), OrderData(y.key))
  {
    hide PriceData, OrderData, Number, Pow2, Less;
    LessIsNumber(x.key, y.key);
    LessIsNumber(y.key, x.key);
    KeyParts(x.key);
    KeyParts(y.key);
    Lexicographic(Pow2(HALF), PriceData(x.key), OrderData(x.key), PriceData(y.key), OrderData(y.key));
    Lexicographic(Pow2(HALF), PriceData(y.key), OrderData(y.key), PriceData(x.key), OrderData(x.key));
  }

  lemma ShownByPrice(v: View, leaf: Leaf)
    ensures IsSkipped(v, leaf) <==> !(1 <= Price(v, leaf) < I64_MAX)
  {}

  lemma ShownBetween(v: View, x: Leaf, y: Leaf, z: Leaf)
    requires Before(x, y, v.bid) && Before(y, z, v.bid) && !IsSkipped(v, x) && !IsSkipped(v, z)
    ensures !IsSkipped(v, y)
  {
    hide IsSkipped, Before, Price;
    PriceFollowsKeys(v, x, y);
    PriceFollowsKeys(v, y, z);
    ShownByPrice(v, x);
    ShownByPrice(v, y);
    ShownByPrice(v, z);
  }

  lemma ShownRange(v: View, s: seq<Leaf>) returns (i: nat, j: nat)
    requires SortedLeaves(s, v.bid)
    ensures i <= j <= |s|
    ensures AllSkipped(v, s[..i]) && AllShown(v, s[i..j]) && AllSkipped(v, s[j..])
    ensures i == 0 <==> s == [] || !IsSkipped(v, s[0])
  {
    hide IsSkipped, Before;
    i := 0;
    while i < |s| && IsSkipped(v, s[i])
      invariant 0 <= i <= |s| && forall k :: 0 <= k < i ==> IsSkipped(v, s[k])
    {
      i := i + 1;
    }
    j := i;
    while j < |s| && !IsSkipped(v, s[j])
      invariant i <= j <= |s| && forall k :: i <= k < j ==> !IsSkipped(v, s[k])
    {
      j := j + 1;
    }
    forall k | j <= k < |s| ensures IsSkipped(v, s[k]) {
      if j < k && !IsSkipped(v, s[k]) {
        ShownBetween(v, s[i], s[j], s[k]);
      }
    }
  }

  /** The pegged orders with a representable price. */
  function Shown(v: View, s: seq<Leaf>): (r: seq<Leaf>)
    ensures AllShown(v, r)
  {
    if s == [] then [] else Shown(v, s[..|s| - 1]) + if IsSkipped(v, s[|s| - 1]) then [] else [s[|s| - 1]]
  }

  lemma {:induction false} ShownOfRange(v: View, before: seq<Leaf>, shown: seq<Leaf>, after: seq<Leaf>)
    requires AllSkipped(v, before) && AllShown(v, shown) && AllSkipped(v, after)
    ensures Shown(v, before + shown + after) == shown
    decreases |before| + |shown| + |after|
  {
    hide IsSkipped;
    var all := before + shown + after;
    if after != [] {
      var n := |after| - 1;
      assert all[..|all| - 1] == before + shown + after[..n];
      ShownOfRange(v, before, shown, after[..n]);
    } else if shown != [] {
      var n := |shown| - 1;
      assert all[..|all| - 1] == before + shown[..n] + after;
      ShownOfRange(v, before, shown[..n], after);
      assert shown == shown[..n] + [shown[n]];
    } else if before != [] {
      var n := |before| - 1;
      assert all[..|all| - 1] == before[..n] + shown + after;
      ShownOfRange(v, before[..n], shown, after);
    }
  }

  /** The iterator returns every fixed order and every pegged order with a representable price, in
      merged order, if and only if the pegged tree does not start with an order that is skipped
      while others are shown; a single shown order that comes before all fixed ones survives. */
  lemma CompleteUnlessSkippedFirst(v: View, fixed: seq<Leaf>, pegged: seq<Leaf>)
    requires SortedLeaves(pegged, v.bid)
    ensures var shown := Shown(v, pegged);
            Complete(v, fixed, pegged, shown) <==>
              || pegged == [] || !IsSkipped(v, pegged[0]) || shown == []
              || (|shown| == 1 && (fixed == [] || !FixedFirst(v, fixed[0], shown[0])))
    ensures Complete(v, fixed, pegged, Shown(v, pegged)) <==> Lost(v, fixed, pegged).None?
  {
    hide IsSkipped, FixedFirst, Complete, Shown;
    var i, j := ShownRange(v, pegged);
    var before, shown, after := pegged[..i], pegged[i..j], pegged[j..];
    assert pegged == before + shown + after;
    ShownOfRange(v, before, shown, after);
    SplitComplete(v, fixed, before, shown, after);
  }

  // ---- The merged order ----

  ghost predicate InRankOrder(v: View, items: seq<Item>) {
    forall i, j :: 0 <= i < j < |items| ==> !Better(v.bid, items[j].rank, items[i].rank)
  }

  ghost predicate NoneBetter(v: View, rank: nat, fixed: seq<Leaf>, shown: seq<Leaf>)
    requires AllShown(v, shown)
  {
    && (forall x :: x in fixed ==> !Better(v.bid, FixedItem(v, x).rank, rank))
    && (forall i :: 0 <= i < |shown| ==> !Better(v.bid, PeggedItem(v, shown[i]).rank, rank))
  }

  lemma {:induction false} MergeBounded(v: View, rank: nat, fixed: seq<Leaf>, shown: seq<Leaf>)
    requires AllShown(v, shown) && NoneBetter(v, rank, fixed, shown)
    ensures forall i :: 0 <= i < |Merge(v, fixed, shown)| ==> !Better(v.bid, Merge(v, fixed, shown)[i].rank, rank)
    decreases |fixed| + |shown|
  {
    hide IsSkipped, PeggedItem, FixedItem, FixedFirst, Better;
    if fixed == [] && shown == [] {
    } else if shown == [] || (fixed != [] && FixedFirst(v, fixed[0], shown[0])) {
      MergeBounded(v, rank, fixed[1..], shown);
      assert fixed[0] in fixed;
    } else {
      MergeBounded(v, rank, fixed, shown[1..]);
    }
  }

  lemma RankFollowsKeys(v: View, x: Leaf, y: Leaf)
    requires Before(x, y, v.bid)
    ensures Better(v.bid, FixedItem(v, x).rank, FixedItem(v, y).rank)
    ensures !IsSkipped(v, x) && !IsSkipped(v, y) ==> Better(v.bid, PeggedItem(v, x).rank, PeggedItem(v, y).rank)
  {
    hide PriceData, OrderData, Number, Pow2, Less;
    LessIsNumber(x.key, y.key);
    LessIsNumber(y.key, x.key);
    PriceFollowsKeys(v, x, y);
    KeyParts(x.key);
    KeyParts(y.key);
    if !IsSkipped(v, x) && !IsSkipped(v, y) {
      Lexicographic(Pow2(HALF), Price(v, x), OrderData(x.key), Price(v, y), OrderData(y.key));
      Lexicographic(Pow2(HALF), Price(v, y), OrderData(y.key), Price(v, x), OrderData(x.key));
    }
  }

  lemma {:induction false} MergeInRankOrder(v: View, fixed: seq<Leaf>, shown: seq<Leaf>)
    requires AllShown(v, shown) && SortedLeaves(fixed, v.bid) && SortedLeaves(shown, v.bid)
    ensures InRankOrder(v, Merge(v, fixed, shown))
    decreases |fixed| + |shown|
  {
    hide IsSkipped, PeggedItem, FixedItem, Before;
    if fixed == [] && shown == [] {
    } else if shown == [] || (fixed != [] && FixedFirst(v, fixed[0], shown[0])) {
      MergeInRankOrder(v, fixed[1..], shown);
      FirstFixedIsBest(v, fixed, shown);
      MergeBounded(v, FixedItem(v, fixed[0]).rank, fixed[1..], shown);
    } else {
      MergeInRankOrder(v, fixed, shown[1..]);
      FirstPeggedIsBest(v, fixed, shown);
      MergeBounded(v, PeggedItem(v, shown[0]).rank, fixed, shown[1..]);
    }
  }

  lemma FirstFixedIsBest(v: View, fixed: seq<Leaf>, shown: seq<Leaf>)
    requires AllShown(v, shown) && SortedLeaves(fixed, v.bid) && SortedLeaves(shown, v.bid)
    requires fixed != [] && (shown == [] || FixedFirst(v, fixed[0], shown[0]))
    ensures NoneBetter(v, FixedItem(v, fixed[0]).rank, fixed[1..], shown)
  {
    hide IsSkipped, PeggedItem, FixedItem, Before;
    forall x | x in fixed[1..] ensures !Better(v.bid, FixedItem(v, x).rank, FixedItem(v, fixed[0]).rank) {
      var i :| 0 < i < |fixed| && fixed[i] == x;
      RankFollowsKeys(v, fixed[0], fixed[i]);
    }
    forall i | 0 <= i < |shown| ensures !Better(v.bid, PeggedItem(v, shown[i]).rank, FixedItem(v, fixed[0]).rank) {
      if i > 0 { RankFollowsKeys(v, shown[0], shown[i]); }
    }
  }

  lemma FirstPeggedIsBest(v: View, fixed: seq<Leaf>, shown: seq<Leaf>)
    requires AllShown(v, shown) && SortedLeaves(fixed, v.bid) && SortedLeaves(shown, v.bid)
    requires shown != [] && (fixed == [] || !FixedFirst(v, fixed[0], shown[0]))
    ensures NoneBetter(v, PeggedItem(v, shown[0]).rank, fixed, shown[1..])
  {
    hide IsSkipped, PeggedItem, FixedItem, Before;
    forall x | x in fixed ensures !Better(v.bid, FixedItem(v, x).rank, PeggedItem(v, shown[0]).rank) {
      var i :| 0 <= i < |fixed| && fixed[i] == x;
      if i > 0 { RankFollowsKeys(v, fixed[0], fixed[i]); }
    }
    forall i | 0 <= i < |shown[1..]|
      ensures !Better(v.bid, PeggedItem(v, shown[1..][i]).rank, PeggedItem(v, shown[0]).rank)
    {
      RankFollowsKeys(v, shown[0], shown[i + 1]);
    }
  }

  /** The rank starts with the price. */
  ghost predicate Ranked(x: Item) {
    x.price >= 0 && x.price * Pow2(HALF) <= x.rank < (x.price + 1) * Pow2(HALF)
  }

  lemma ItemsAreRanked(v: View, leaf: Leaf)
    ensures Ranked(FixedItem(v, leaf))
    ensures !IsSkipped(v, leaf) ==> Ranked(PeggedItem(v, leaf))
  {
    hide Pow2, Number, OrderData;
    KeyParts(leaf.key);
    NextMultiple(PriceData(leaf.key), Pow2(HALF));
    if !IsSkipped(v, leaf) { NextMultiple(PeggedPrice(v, leaf).1, Pow2(HALF)); }
  }

  lemma NextMultiple(p: nat, w: nat)
    ensures (p + 1) * w == p * w + w
  {}

  lemma {:induction false} MergeIsRanked(v: View, fixed: seq<Leaf>, shown: seq<Leaf>)
    requires AllShown(v, shown)
    ensures forall i :: 0 <= i < |Merge(v, fixed, shown)| ==> Ranked(Merge(v, fixed, shown)[i])
    decreases |fixed| + |shown|
  {
    hide IsSkipped, PeggedItem, FixedItem, FixedFirst, Ranked;
    if fixed == [] && shown == [] {
    } else if shown == [] || (fixed != [] && FixedFirst(v, fixed[0], shown[0])) {
      ItemsAreRanked(v, fixed[0]);
      MergeIsRanked(v, fixed[1..], shown);
    } else {
      ItemsAreRanked(v, shown[0]);
      MergeIsRanked(v, fixed, shown[1..]);
    }
  }

  lemma RankOrdersPrices(v: View, x: Item, y: Item)
    requires Ranked(x) && Ranked(y) && !Better(v.bid, y.rank, x.rank)
    ensures !Better(v.bid, y.price, x.price)
  {
    hide Pow2;
    if y.price < x.price { MulMono(y.price + 1, x.price, Pow2(HALF)); }
    if x.price < y.price { MulMono(x.price + 1, y.price, Pow2(HALF)); }
  }

  ghost predicate WellOrdered(v: View, items: seq<Item>) {
    InRankOrder(v, items) && forall i :: 0 <= i < |items| ==> Ranked(items[i])
  }

  lemma PushFirst(v: View, x: Item, items: seq<Item>)
    requires WellOrdered(v, items) && Ranked(x)
    requires forall i :: 0 <= i < |items| ==> !Better(v.bid, items[i].rank, x.rank)
    ensures WellOrdered(v, [x] + items)
  {
    hide Ranked, Better;
  }

  lemma MergeWellOrdered(v: View, fixed: seq<Leaf>, shown: seq<Leaf>)
    requires AllShown(v, shown) && SortedLeaves(fixed, v.bid) && SortedLeaves(shown, v.bid)
    ensures WellOrdered(v, Merge(v, fixed, shown))
  {
    hide InRankOrder, Ranked, IsSkipped, Before, Merge;
    MergeInRankOrder(v, fixed, shown);
    MergeIsRanked(v, fixed, shown);
  }

  /** Even when an order gets lost, the others come in order, and it is at most one. */
  lemma RunWellOrdered(v: View, fixed: seq<Leaf>, pegged: seq<Leaf>)
    requires SortedLeaves(fixed, v.bid) && SortedLeaves(pegged, v.bid)
    ensures WellOrdered(v, Run(v, fixed, pegged))
    ensures |fixed| + |Shown(v, pegged)| - 1 <= |Run(v, fixed, pegged)| <= |fixed| + |Shown(v, pegged)|
  {
    hide IsSkipped, FixedFirst, SortedLeaves, Run, Merge, WellOrdered, Shown;
    var i, j := ShownRange(v, pegged);
    var before, shown, after := pegged[..i], pegged[i..j], pegged[j..];
    assert pegged == before + shown + after;
    SortedPart(pegged, v.bid, i, j);
    ShownOfRange(v, before, shown, after);
    MergeLength(v, fixed, shown);
    SplitComplete(v, fixed, before, shown, after);
    MergeWellOrdered(v, fixed, shown);
    if before != [] && shown != [] {
      assert pegged == before + (shown + after);
      LossyWellOrdered(v, fixed, before, shown, after);
    }
  }

  lemma LossyWellOrdered(v: View, fixed: seq<Leaf>, before: seq<Leaf>, shown: seq<Leaf>, after: seq<Leaf>)
    requires before != [] && AllSkipped(v, before) && AllShown(v, shown) && AllSkipped(v, after) && shown != []
    requires SortedLeaves(fixed, v.bid) && SortedLeaves(shown, v.bid)
    ensures WellOrdered(v, Run(v, fixed, before + (shown + after)))
    ensures |fixed| + |shown| - 1 <= |Run(v, fixed, before + (shown + after))| <= |fixed| + |shown|
  {
    hide IsSkipped, Before, Run, Merge, WellOrdered, PeggedItem, FixedItem, Ranked;
    if fixed != [] && FixedFirst(v, fixed[0], shown[0]) {
      FirstShownIsLost(v, fixed, before, shown, after);
      MergeLength(v, fixed[1..], shown[1..]);
      MergeWellOrdered(v, fixed[1..], shown[1..]);
      FirstFixedIsBest(v, fixed, shown);
      MergeBounded(v, FixedItem(v, fixed[0]).rank, fixed[1..], shown[1..]);
      ItemsAreRanked(v, fixed[0]);
      PushFirst(v, FixedItem(v, fixed[0]), Merge(v, fixed[1..], shown[1..]));
    } else {
      SecondShownIsLost(v, fixed, before, shown, after);
      var rest := Tail(shown[1..]);
      MergeLength(v, fixed, rest);
      MergeWellOrdered(v, fixed, rest);
      FirstPeggedIsBest(v, fixed, shown);
      assert NoneBetter(v, PeggedItem(v, shown[0]).rank, fixed, rest) by {
        forall i | 0 <= i < |rest| ensures !Better(v.bid, PeggedItem(v, rest[i]).rank, PeggedItem(v, shown[0]).rank) {
          assert rest[i] == shown[1..][i + 1];
        }
      }
      MergeBounded(v, PeggedItem(v, shown[0]).rank, fixed, rest);
      ItemsAreRanked(v, shown[0]);
      PushFirst(v, PeggedItem(v, shown[0]), Merge(v, fixed, rest));
    }
  }

  lemma PricesInOrder(v: View, items: seq<Item>, i: nat, j: nat)
    requires WellOrdered(v, items) && i < j < |items|
    ensures !Better(v.bid, items[j].price, items[i].price)
  {
    RankOrdersPrices(v, items[i], items[j]);
  }

  // ---- An order that gets lost ----

  /** The pegged order that is not returned although it has a price. */
  function Lost(v: View, fixed: seq<Leaf>, pegged: seq<Leaf>): Option<Leaf> {
    var shown := Shown(v, pegged);
    if pegged == [] || !IsSkipped(v, pegged[0]) || shown == [] then None
    else if fixed != [] && FixedFirst(v, fixed[0], shown[0]) then Some(shown[0])
    else if |shown| > 1 then Some(shown[1])
    else None
  }

  predicate IsFixedItem(v: View, x: Item, fixed: seq<Leaf>) {
    !x.pegged && x.leaf in fixed && x == FixedItem(v, x.leaf)
  }

  predicate IsPeggedItem(v: View, x: Item, pegged: seq<Leaf>) {
    x.pegged && x.leaf in pegged && !IsSkipped(v, x.leaf) && x == PeggedItem(v, x.leaf)
  }

  lemma {:induction false} MergeHolds(v: View, fixed: seq<Leaf>, shown: seq<Leaf>, x: Item)
    requires AllShown(v, shown)
    ensures x in Merge(v, fixed, shown) <==> IsFixedItem(v, x, fixed) || IsPeggedItem(v, x, shown)
    decreases |fixed| + |shown|
  {
    hide IsSkipped, FixedFirst;
    if fixed == [] && shown == [] {
    } else if shown == [] || (fixed != [] && FixedFirst(v, fixed[0], shown[0])) {
      MergeHolds(v, fixed[1..], shown, x);
      assert Merge(v, fixed, shown) == [FixedItem(v, fixed[0])] + Merge(v, fixed[1..], shown);
    } else {
      MergeHolds(v, fixed, shown[1..], x);
      assert Merge(v, fixed, shown) == [PeggedItem(v, shown[0])] + Merge(v, fixed, shown[1..]);
    }
  }

  lemma SortedRest(s: seq<Leaf>, descending: bool, i: nat)
    requires SortedLeaves(s, descending) && i < |s|
    ensures s[i] !in s[..i] && s[i] !in s[i + 1..]
  {
    if s[i] in s[i + 1..] { SortedKeysDiffer(s, descending, i, s[i]); }
    forall j | 0 <= j < i ensures s[j] != s[i] {
      SortedKeysDiffer(s, descending, j, s[i]);
    }
  }

  lemma FixedItemIn(v: View, x: Item, fixed: seq<Leaf>)
    requires fixed != []
    ensures IsFixedItem(v, x, fixed) <==> x == FixedItem(v, fixed[0]) || IsFixedItem(v, x, fixed[1..])
  {}

  lemma AllButFirst(v: View, fixed: seq<Leaf>, before: seq<Leaf>, shown: seq<Leaf>, after: seq<Leaf>, x: Item)
    requires before != [] && AllSkipped(v, before) && AllShown(v, shown) && AllSkipped(v, after) && shown != []
    requires SortedLeaves(shown, v.bid) && fixed != [] && FixedFirst(v, fixed[0], shown[0])
    ensures x in Run(v, fixed, before + (shown + after)) <==>
              IsFixedItem(v, x, fixed) || (IsPeggedItem(v, x, shown) && x.leaf != shown[0])
  {
    hide IsSkipped, FixedFirst, Before, Run, Merge, FixedItem;
    FirstShownIsLost(v, fixed, before, shown, after);
    MergeHolds(v, fixed[1..], shown[1..], x);
    SortedRest(shown, v.bid, 0);
    FixedItemIn(v, x, fixed);
    assert shown == [shown[0]] + shown[1..];
  }

  lemma AllButSecond(v: View, fixed: seq<Leaf>, before: seq<Leaf>, shown: seq<Leaf>, after: seq<Leaf>, x: Item)
    requires before != [] && AllSkipped(v, before) && AllShown(v, shown) && AllSkipped(v, after) && shown != []
    requires SortedLeaves(shown, v.bid) && (fixed == [] || !FixedFirst(v, fixed[0], shown[0]))
    ensures x in Run(v, fixed, before + (shown + after)) <==>
              IsFixedItem(v, x, fixed) || (IsPeggedItem(v, x, shown) && (|shown| > 1 ==> x.leaf != shown[1]))
  {
    hide IsSkipped, FixedFirst, Before, Run, Merge, FixedItem, IsFixedItem;
    SecondShownIsLost(v, fixed, before, shown, after);
    MergeHolds(v, fixed, Tail(shown[1..]), x);
    if |shown| > 1 {
      SortedRest(shown, v.bid, 1);
      assert shown == [shown[0]] + [shown[1]] + shown[2..] && Tail(shown[1..]) == shown[2..];
    } else {
      assert shown == [shown[0]];
    }
  }

  lemma OnlyShown(v: View, before: seq<Leaf>, shown: seq<Leaf>, after: seq<Leaf>, x: Item)
    requires AllSkipped(v, before) && AllShown(v, shown) && AllSkipped(v, after)
    ensures IsPeggedItem(v, x, before + (shown + after)) <==> IsPeggedItem(v, x, shown)
  {
    hide IsSkipped;
  }

  lemma SortedPart(s: seq<Leaf>, descending: bool, i: nat, j: nat)
    requires SortedLeaves(s, descending) && i <= j <= |s|
    ensures SortedLeaves(s[i..j], descending)
  {
    hide Before;
  }

  /** Every order with a price is returned, except the lost one. */
  lemma ReturnedExactly(v: View, fixed: seq<Leaf>, pegged: seq<Leaf>, x: Item)
    requires SortedLeaves(pegged, v.bid)
    ensures x in Run(v, fixed, pegged) <==>
              IsFixedItem(v, x, fixed) || (IsPeggedItem(v, x, pegged) && Some(x.leaf) != Lost(v, fixed, pegged))
  {
    hide IsSkipped, FixedFirst, SortedLeaves, Run, Merge, PeggedItem, FixedItem, Shown, IsFixedItem, IsPeggedItem;
    var i, j := ShownRange(v, pegged);
    var before, shown, after := pegged[..i], pegged[i..j], pegged[j..];
    assert pegged == before + shown + after == before + (shown + after);
    ShownOfRange(v, before, shown, after);
    OnlyShown(v, before, shown, after, x);
    SortedPart(pegged, v.bid, i, j);
    if before == [] {
      assert pegged == shown + after;
      RunMerges(v, fixed, shown, after);
      MergeHolds(v, fixed, shown, x);
    } else if shown == [] {
      RunOfSkipped(v, fixed, pegged);
      MergeHolds(v, fixed, [], x);
    } else if fixed != [] && FixedFirst(v, fixed[0], shown[0]) {
      AllButFirst(v, fixed, before, shown, after, x);
    } else {
      AllButSecond(v, fixed, before, shown, after, x);
    }
  }

  function PeggedAsk(offset: int): Leaf
    requires I64_MIN <= offset <= I64_MAX
  {
    Leaf(ToBits(PeggedPriceData(offset), HALF) + ToBits(0, HALF), 0, 0, -1, 0, 1, 0)
  }

  lemma PeggedAskPrice(offset: int)
    requires I64_MIN <= offset <= I64_MAX
    ensures PriceData(PeggedAsk(offset).key) == PeggedPriceData(offset)
    ensures Number(PeggedAsk(offset).key) == PeggedPriceData(offset) * Pow2(HALF)
  {
    hide ToBits, Number, Pow2;
    var k := PeggedAsk(offset).key;
    WordSize();
    NumberOfBits(PeggedPriceData(offset), HALF);
    NumberOfBits(0, HALF);
    assert k[..HALF] == ToBits(PeggedPriceData(offset), HALF) && k[HALF..] == ToBits(0, HALF);
    KeyParts(k);
  }

  lemma PeggedAskTerms(offset: int)
    requires I64_MIN <= offset <= I64_MAX
    ensures var x := PeggedAsk(offset);
            PeggedOffset(PriceData(x.key)) == offset && x.timeInForce == 0 && x.pegLimit == -1 && x.quantity == 1 && x.owner == 0
  {
    PeggedAskPrice(offset);
  }

  lemma OffsetPrice(v: View, offset: int)
    requires I64_MIN <= offset <= I64_MAX && -I64_MAX < v.oracle + offset < I64_MAX
    ensures var p := v.oracle + offset;
            PeggedPrice(v, PeggedAsk(offset)) == if p >= 1 then (Valid, p) else (Skipped, 1)
    ensures IsSkipped(v, PeggedAsk(offset)) <==> v.oracle + offset < 1
  {
    hide PriceData, PeggedAsk;
    PeggedAskTerms(offset);
  }

  lemma WordSize()
    ensures Pow2(HALF) == 0x1_0000_0000_0000_0000
  {
    TimesByte(0);
    TimesByte(8);
    TimesByte(16);
    TimesByte(24);
    TimesByte(32);
    TimesByte(40);
    TimesByte(48);
    TimesByte(56);
    Pow2Zero();
  }

  lemma LowerOffsetFirst(a: int, b: int)
    requires I64_MIN <= a < b <= I64_MAX
    ensures Before(PeggedAsk(a), PeggedAsk(b), false)
  {
    hide Number, Pow2, PeggedAsk;
    PeggedAskPrice(a);
    PeggedAskPrice(b);
    MulCancel(PeggedPriceData(b), PeggedPriceData(a), Pow2(HALF));
    LessIsNumber(PeggedAsk(a).key, PeggedAsk(b).key);
  }

  lemma LostAfterSkip(v: View, x: Leaf, y: Leaf, z: Leaf)
    requires IsSkipped(v, x) && !IsSkipped(v, y) && !IsSkipped(v, z)
    ensures Shown(v, [x, y, z]) == [y, z] && Run(v, [], [x, y, z]) == [PeggedItem(v, y)]
    ensures Lost(v, [], [x, y, z]) == Some(z)
  {
    hide IsSkipped, Run, Merge, Shown;
    var none, before, shown: seq<Leaf> := [], [x], [y, z];
    assert [x, y, z] == before + shown + none == before + (shown + none);
    ShownOfRange(v, before, shown, none);
    SecondShownIsLost(v, none, before, shown, none);
    assert Tail(shown[1..]) == none;
    MergeLength(v, none, none);
  }

  /** With one more order that is shown, that one is returned too. */
  lemma LostInBetween(v: View, x: Leaf, y: Leaf, z: Leaf, w: Leaf)
    requires IsSkipped(v, x) && !IsSkipped(v, y) && !IsSkipped(v, z) && !IsSkipped(v, w)
    ensures Run(v, [], [x, y, z, w]) == [PeggedItem(v, y), PeggedItem(v, w)] && Lost(v, [], [x, y, z, w]) == Some(z)
  {
    hide IsSkipped, Run, Shown, PeggedItem;
    var none, before, shown: seq<Leaf> := [], [x], [y, z, w];
    assert [x, y, z, w] == before + shown + none == before + (shown + none);
    ShownOfRange(v, before, shown, none);
    SecondShownIsLost(v, none, before, shown, none);
    assert Tail(shown[1..]) == [w];
    assert Merge(v, none, [w]) == [PeggedItem(v, w)] + Merge(v, none, [w][1..]);
  }

  lemma SortedThree(x: Leaf, y: Leaf, z: Leaf, descending: bool)
    requires Before(x, y, descending) && Before(x, z, descending) && Before(y, z, descending)
    ensures SortedLeaves([x, y, z], descending)
  {
    hide Before;
  }

  /** Asks pegged at -100, 0 and 10 with the oracle at 50: the first has no price, the other two
      have 50 and 60, but only the second is returned. */
  lemma PeggedOrderIsLost()
    ensures var v, pegged := View(false, 0, 50), [PeggedAsk(-100), PeggedAsk(0), PeggedAsk(10)];
            && SortedLeaves(pegged, v.bid)
            && Shown(v, pegged) == [PeggedAsk(0), PeggedAsk(10)]
            && PeggedPrice(v, PeggedAsk(0)) == (Valid, 50) && PeggedPrice(v, PeggedAsk(10)) == (Valid, 60)
            && Run(v, [], pegged) == [PeggedItem(v, PeggedAsk(0))] && Lost(v, [], pegged) == Some(PeggedAsk(10))
  {
    hide PeggedAsk, PeggedPrice, IsSkipped, SortedLeaves, Run, Shown, Lost, PeggedItem, Before;
    var v, x, y, z := View(false, 0, 50), PeggedAsk(-100), PeggedAsk(0), PeggedAsk(10);
    LowerOffsetFirst(-100, 0);
    LowerOffsetFirst(-100, 10);
    LowerOffsetFirst(0, 10);
    OffsetPrice(v, -100);
    OffsetPrice(v, 0);
    OffsetPrice(v, 10);
    SortedThree(x, y, z, false);
    LostAfterSkip(v, x, y, z);
  }

  // ---- The whole side ----

  function OrderOf(o: Option<Tree>, descending: bool): seq<Leaf> {
    if o.None? then [] else InOrder(o.value, descending)
  }

  /** Takes items until there are no more. */
  method Drain(iter: BookSideIter) returns (items: seq<Item>)
    requires iter.Valid()
    modifies iter.fixedIter, iter.peggedIter
    ensures items == Run(iter.view, old(iter.fixedIter.Rest()), old(iter.peggedIter.Rest()))
  {
    hide Run, NextItem, FarLeaves, Stacked;
    items := [];
    while true
      invariant iter.Valid()
      invariant items + Run(iter.view, iter.fixedIter.Rest(), iter.peggedIter.Rest())
             == Run(iter.view, old(iter.fixedIter.Rest()), old(iter.peggedIter.Rest()))
      decreases |iter.fixedIter.Rest()| + |iter.peggedIter.Rest()|
    {
      ghost var f, p := iter.fixedIter.Rest(), iter.peggedIter.Rest();
      var item := iter.Next();
      if item.None? {
        RunEnds(iter.view, f, p);
        break;
      }
      NextItemShrinks(iter.view, f, p);
      RunStep(iter.view, f, p, item.value, iter.fixedIter.Rest(), iter.peggedIter.Rest());
      items := items + [item.value];
    }
  }

  /** Visits both trees of a side. */
  method IterAll(book: BookSide, view: View) returns (items: seq<Item>)
    requires book.Valid()
    ensures items == Run(view, OrderOf(book.trees[0], view.bid), OrderOf(book.trees[1], view.bid))
    ensures WellOrdered(view, items)
  {
    hide Run, WellOrdered, SortedLeaves, Slab, TreeHeld;
    var nodes := book.nodes[..];
    ghost var f, p := OrderOf(book.trees[0], view.bid), OrderOf(book.trees[1], view.bid);
    TreesAreSorted(nodes, book.roots[0], book.trees[0], view.bid);
    TreesAreSorted(nodes, book.roots[1], book.trees[1], view.bid);
    RunWellOrdered(view, f, p);
    var fixed := new OrderTreeIter(nodes, book.roots[0], view.bid, book.trees[0]);
    var pegged := new OrderTreeIter(nodes, book.roots[1], view.bid, book.trees[1]);
    var iter := new BookSideIter(view, fixed, pegged);
    items := Drain(iter);
  }

  lemma RunEnds(v: View, fixed: seq<Leaf>, pegged: seq<Leaf>)
    requires NextItem(v, fixed, pegged).0.None?
    ensures Run(v, fixed, pegged) == []
  {}

  lemma TreesAreSorted(nodes: seq<Node>, root: Root, o: Option<Tree>, descending: bool)
    requires TreeHeld(nodes, root, o)
    ensures SortedLeaves(OrderOf(o, descending), descending)
    ensures forall x :: x in OrderOf(o, descending) <==> x in OptLeaves(o)
  {
    if o.Some? { InOrderIsSorted(o.value, descending); }
  }

  // ---- Items stand for orders of the trees ----

  ghost predicate FromLists(items: seq<Item>, fixed: seq<Leaf>, pegged: seq<Leaf>) {
    forall i :: 0 <= i < |items| ==> items[i].leaf in if items[i].pegged then pegged else fixed
  }

  /** Items of the same tree have different keys. */
  ghost predicate DistinctItems(items: seq<Item>) {
    forall i, j :: 0 <= i < j < |items| && items[i].pegged == items[j].pegged ==> items[i].leaf.key != items[j].leaf.key
  }

  /** `k` leaves were passed; the current one is the next, or the last one passed. */
  lemma {:induction false} SkipIsSuffix(v: View, peek: Option<Leaf>, rest: seq<Leaf>) returns (k: nat)
    ensures k <= |rest| && Skip(v, peek, rest).1 == rest[k..]
    ensures Skip(v, peek, rest).0.Some? ==>
              if k == 0 then Skip(v, peek, rest).0 == peek else Skip(v, peek, rest).0.value == rest[k - 1]
    decreases |rest|
  {
    k := 0;
    if peek.Some? && IsSkipped(v, peek.value) && rest != [] {
      var k' := SkipIsSuffix(v, Some(rest[0]), rest[1..]);
      k := k' + 1;
    }
  }

  lemma SortedKeysDiffer(s: seq<Leaf>, descending: bool, i: nat, x: Leaf)
    requires SortedLeaves(s, descending) && i < |s| && x in s[i + 1..]
    ensures x.key != s[i].key
  {
    var j :| i < j < |s| && s[j] == x;
    assert Before(s[i], s[j], descending);
    SharedAll(s[i].key, s[j].key);
  }

  lemma {:induction false} RunFromLists(v: View, fixed: seq<Leaf>, pegged: seq<Leaf>)
    requires SortedLeaves(fixed, v.bid) && SortedLeaves(pegged, v.bid)
    ensures FromLists(Run(v, fixed, pegged), fixed, pegged) && DistinctItems(Run(v, fixed, pegged))
    decreases |fixed| + |pegged|
  {
    hide PeggedPrice, FixedFirst, IsSkipped, Before, FixedItem, PeggedItem;
    var (item, fixed', pegged') := NextItem(v, fixed, pegged);
    if item.Some? {
      NextItemShrinks(v, fixed, pegged);
      NextFromLists(v, fixed, pegged);
      RunFromLists(v, fixed', pegged');
      var rest := Run(v, fixed', pegged');
      assert Run(v, fixed, pegged) == [item.value] + rest;
      forall j | 0 <= j < |rest| && rest[j].pegged == item.value.pegged ensures rest[j].leaf.key != item.value.leaf.key {
        assert rest[j].leaf in if item.value.pegged then pegged' else fixed';
      }
    }
  }

  /** The item is one of the lists' leaves, and what is left of its list has other keys. */
  lemma NextFromLists(v: View, fixed: seq<Leaf>, pegged: seq<Leaf>)
    requires SortedLeaves(fixed, v.bid) && SortedLeaves(pegged, v.bid) && NextItem(v, fixed, pegged).0.Some?
    ensures var (item, fixed', pegged') := NextItem(v, fixed, pegged);
            && SortedLeaves(fixed', v.bid) && SortedLeaves(pegged', v.bid)
            && (forall x :: x in fixed' ==> x in fixed) && (forall x :: x in pegged' ==> x in pegged)
            && item.value.leaf in (if item.value.pegged then pegged else fixed)
            && (forall x :: x in (if item.value.pegged then pegged' else fixed') ==> x.key != item.value.leaf.key)
  {
    hide Before, IsSkipped;
    var (peek, rest) := Skip(v, Peek(pegged), pegged);
    var k := SkipIsSuffix(v, Peek(pegged), pegged);
    var (item, fixed', pegged') := NextItem(v, fixed, pegged);
    if item.value.pegged {
      var at := if k == 0 then 0 else k - 1;
      assert item.value.leaf == pegged[at];
      forall x | x in pegged' ensures x.key != item.value.leaf.key {
        assert x in pegged[at + 1..];
        SortedKeysDiffer(pegged, v.bid, at, x);
      }
    } else {
      forall x | x in fixed' ensures x.key != item.value.leaf.key {
        SortedKeysDiffer(fixed, v.bid, 0, x);
      }
    }
  }

  // ---- The worst order ----

  /** The price an order is compared by; a pegged order without a price counts as at the end of
      the range. */
  function OrderPrice(v: View, pegged: bool, leaf: Leaf): int {
    if pegged then PeggedPrice(v, leaf).1 else PriceData(leaf.key)
  }

  function OrderRank(v: View, pegged: bool, leaf: Leaf): nat {
    if pegged then FixedKey(leaf.key, PeggedPrice(v, leaf).1) else Number(leaf.key)
  }

  lemma OrderRanked(v: View, pegged: bool, leaf: Leaf)
    ensures Ranked(Item(leaf, pegged, OrderPrice(v, pegged, leaf), Valid, OrderRank(v, pegged, leaf)))
  {
    hide Pow2, Number, OrderData;
    KeyParts(leaf.key);
    NextMultiple(PriceData(leaf.key), Pow2(HALF));
    NextMultiple(PeggedPrice(v, leaf).1, Pow2(HALF));
  }

  lemma OrderPriceFollowsKeys(v: View, pegged: bool, x: Leaf, y: Leaf)
    requires Before(x, y, v.bid)
    ensures !Better(v.bid, OrderPrice(v, pegged, y), OrderPrice(v, pegged, x))
  {
    hide PriceData, OrderData, Number, Pow2, Less;
    PriceFollowsKeys(v, x, y);
    LessIsNumber(x.key, y.key);
    LessIsNumber(y.key, x.key);
    KeyParts(x.key);
    KeyParts(y.key);
    Lexicographic(Pow2(HALF), PriceData(x.key), OrderData(x.key), PriceData(y.key), OrderData(y.key));
    Lexicographic(Pow2(HALF), PriceData(y.key), OrderData(y.key), PriceData(x.key), OrderData(x.key));
  }

  /** The order with the worst key of a tree, which is last in iteration order. */
  method FindWorst(book: BookSide, c: nat, v: View) returns (r: Option<Leaf>)
    requires book.Valid() && c < 2
    ensures r.None? <==> book.Orders(c) == {}
    ensures r.Some? ==> r.value in book.Orders(c)
    ensures r.Some? ==> forall x :: x in book.Orders(c) ==>
              !Better(v.bid, OrderPrice(v, c == 1, r.value), OrderPrice(v, c == 1, x))
  {
    hide ValidState, Less, OrderPrice;
    var found := book.LeafMinMax(c, !v.bid);
    if found.None? {
      return None;
    }
    var worst := found.value.1;
    forall x | x in book.Orders(c) ensures !Better(v.bid, OrderPrice(v, c == 1, worst), OrderPrice(v, c == 1, x)) {
      if x != worst { OrderPriceFollowsKeys(v, c == 1, x, worst); }
    }
    return Some(worst);
  }

  /** Removes an order than which none of either tree has a worse price. */
  method RemoveWorst(book: BookSide, v: View) returns (r: Option<(Leaf, int)>, ghost c: nat)
    requires book.Valid()
    modifies book, book.nodes
    ensures book.Valid() && c < 2 && book.bumpIndex == old(book.bumpIndex)
    ensures r.None? <==> old(book.Orders(0)) == {} && old(book.Orders(1)) == {}
    ensures r.None? ==> book.Orders(0) == {} && book.Orders(1) == {}
    ensures r.Some? ==>
              && r.value.0 in old(book.Orders(c)) && r.value.1 == OrderPrice(v, c == 1, r.value.0)
              && book.Orders(c) == old(book.Orders(c)) - {r.value.0} && book.Orders(1 - c) == old(book.Orders(1 - c))
              && (forall x :: x in old(book.Orders(0)) ==> !Better(v.bid, r.value.1, OrderPrice(v, false, x)))
              && (forall x :: x in old(book.Orders(1)) ==> !Better(v.bid, r.value.1, OrderPrice(v, true, x)))
  {
    hide OrderPrice, OrderRank, ValidState;
    c := 0;
    var fixed := FindWorst(book, 0, v);
    var pegged := FindWorst(book, 1, v);
    if fixed.None? && pegged.None? {
      return None, c;
    }
    var side: nat := 0;
    if fixed.None? {
      side := 1;
    } else if pegged.Some? {
      WorseOfTwo(v, fixed.value, pegged.value);
      if Better(v.bid, OrderRank(v, false, fixed.value), OrderRank(v, true, pegged.value)) {
        side := 1;
      }
    }
    c := side;
    var worst := if side == 0 then fixed.value else pegged.value;
    RemovedAlone(book, side, worst);
    var removed := book.RemoveByKey(side, worst.key);
    r := Some((worst, OrderPrice(v, side == 1, worst)));
  }

  lemma WorseOfTwo(v: View, fixed: Leaf, pegged: Leaf)
    ensures if Better(v.bid, OrderRank(v, false, fixed), OrderRank(v, true, pegged))
            then !Better(v.bid, OrderPrice(v, true, pegged), OrderPrice(v, false, fixed))
            else !Better(v.bid, OrderPrice(v, false, fixed), OrderPrice(v, true, pegged))
  {
    hide OrderPrice, OrderRank, Ranked;
    OrderRanked(v, false, fixed);
    OrderRanked(v, true, pegged);
    var f := Item(fixed, false, OrderPrice(v, false, fixed), Valid, OrderRank(v, false, fixed));
    var p := Item(pegged, true, OrderPrice(v, true, pegged), Valid, OrderRank(v, true, pegged));
    if Better(v.bid, f.rank, p.rank) {
      RankOrdersPrices(v, f, p);
    } else {
      RankOrdersPrices(v, p, f);
    }
  }

  lemma RemovedAlone(book: BookSide, c: nat, x: Leaf)
    requires book.Valid() && c < 2 && x in book.Orders(c)
    ensures Without(book.Orders(c), x.key) == book.Orders(c) - {x}
  {
    Component(book.nodes[..], book.bumpIndex, book.freeListHead, book.free, book.roots, book.trees, c);
    OnlyThat(book.trees[c].value, x);
  }
}
