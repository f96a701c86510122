/** Matching a new order against the other side of the book. */
module Matching {
  import opened Options
  import opened OrderTrees
  import opened NodeKeys
  import opened BookIteration

  const DROP_EXPIRED_ORDER_LIMIT: nat := 5

  datatype SelfTrade = DecrementTake | CancelProvide | AbortTransaction

  /** The new order: `posts` tells that it has a tree to be posted to. */
  datatype Taker = Taker(bid: bool, maxBase: nat, maxQuote: nat, price: int, postOnly: bool, posts: bool,
                         owner: nat, selfTrade: SelfTrade)

  /** A match with the item of the given index, at that item's price. */
  datatype Fill = Fill(item: nat, quantity: int)

  /** What is left of the new order, the matches, the items removed because they are invalid or
      the taker's own, and whether the remainder may be posted. */
  datatype Matched = Matched(base: int, quote: int, fills: seq<Fill>, dropped: seq<nat>, cancelled: seq<nat>, post: bool)

  /** QueueFull stands for the panic when an event does not fit the queue. */
  datatype Outcome = Done | QueueFull | WouldSelfTrade

  predicate Within(t: Taker, price: int) {
    if t.bid then price <= t.price else price >= t.price
  }

  function Min(a: int, b: int): int {
    if b < a then b else a
  }

  function PriceOf(items: seq<Item>, i: nat): int {
    if i < |items| then items[i].price else 0
  }

  function BaseOf(fills: seq<Fill>): int {
    if fills == [] then 0 else BaseOf(fills[..|fills| - 1]) + fills[|fills| - 1].quantity
  }

  function QuoteOf(items: seq<Item>, fills: seq<Fill>): int {
    if fills == [] then 0
    else
      var f := fills[|fills| - 1];
      QuoteOf(items, fills[..|fills| - 1]) + f.quantity * PriceOf(items, f.item)
  }

  // ---- What a matching has to satisfy ----

  ghost predicate Priced(items: seq<Item>) {
    forall i :: 0 <= i < |items| ==> items[i].leaf.quantity >= 1 && items[i].price >= 1
  }

  /** The other side as the iteration returns it: best price first, positive quantities. */
  ghost predicate Opposing(t: Taker, items: seq<Item>) {
    && Priced(items)
    && (forall i, j :: 0 <= i < j < |items| ==> !Better(!t.bid, items[j].price, items[i].price))
  }

  predicate Own(t: Taker, x: Item) {
    x.leaf.owner == t.owner
  }

  /** A match at the maker's price, within the limit, with a valid order that is not the taker's
      own unless that is allowed. */
  ghost predicate GoodFill(t: Taker, items: seq<Item>, f: Fill) {
    && f.item < |items| && items[f.item].state == Valid && Within(t, items[f.item].price)
    && 0 < f.quantity <= items[f.item].leaf.quantity
    && (Own(t, items[f.item]) ==> t.selfTrade == DecrementTake)
  }

  ghost predicate GoodFills(t: Taker, items: seq<Item>, n: nat, fills: seq<Fill>) {
    && (forall k :: 0 <= k < |fills| ==> fills[k].item < n && GoodFill(t, items, fills[k]))
    && (forall k, l :: 0 <= k < l < |fills| ==> fills[k].item < fills[l].item)
  }

  ghost predicate Filled(fills: seq<Fill>, j: nat) {
    exists k :: 0 <= k < |fills| && fills[k].item == j
  }

  ghost predicate Complete(items: seq<Item>, f: Fill) {
    f.item < |items| && f.quantity == items[f.item].leaf.quantity
  }

  /** Nothing is created or destroyed. */
  ghost predicate Conserves(t: Taker, items: seq<Item>, m: Matched) {
    && m.base >= 0 && m.quote >= 0
    && m.base + BaseOf(m.fills) == t.maxBase
    && m.quote + QuoteOf(items, m.fills) == t.maxQuote
  }

  /** No valid order before position `n` was passed over: it was matched, or is the taker's own and
      was removed. */
  ghost predicate NoneSkipped(t: Taker, items: seq<Item>, n: nat, m: Matched) {
    forall j: nat :: j < n && j < |items| && items[j].state == Valid ==>
      Within(t, items[j].price) && (Filled(m.fills, j) || j in m.cancelled)
  }

  /** An order was matched in part only because the new order had nothing left, or not enough
      quote left for one more lot at that price. */
  ghost predicate PartialsExplained(items: seq<Item>, m: Matched) {
    forall k :: 0 <= k < |m.fills| && !Complete(items, m.fills[k]) ==>
      m.base == 0 || m.quote < PriceOf(items, m.fills[k].item)
  }

  /** Only the last match can be a partial one. */
  ghost predicate PartialIsLast(items: seq<Item>, fills: seq<Fill>) {
    forall k :: 0 <= k < |fills| - 1 ==> Complete(items, fills[k])
  }

  /** Invalid orders before `n` are removed, up to a limit; the taker's own are removed if so
      configured. */
  ghost predicate Removals(t: Taker, items: seq<Item>, n: nat, m: Matched) {
    && |m.dropped| <= DROP_EXPIRED_ORDER_LIMIT
    && (forall j :: j in m.dropped ==> j < n && j < |items| && items[j].state != Valid)
    && (forall j: nat :: j < n && j < |items| && items[j].state != Valid ==>
          j in m.dropped || |m.dropped| == DROP_EXPIRED_ORDER_LIMIT)
    && (forall j :: j in m.cancelled ==>
          j < n && j < |items| && items[j].state == Valid && Own(t, items[j])
          && t.selfTrade == CancelProvide && !Filled(m.fills, j))
  }

  ghost predicate Progress(t: Taker, items: seq<Item>, n: nat, m: Matched) {
    && Conserves(t, items, m)
    && GoodFills(t, items, n, m.fills)
    && NoneSkipped(t, items, n, m)
    && PartialsExplained(items, m)
    && (t.bid ==> PartialIsLast(items, m.fills))
    && Removals(t, items, n, m)
  }

  lemma ProgressSkip(t: Taker, items: seq<Item>, n: nat, m: Matched)
    requires Progress(t, items, n, m) && n < |items| && items[n].state != Valid
    requires |m.dropped| == DROP_EXPIRED_ORDER_LIMIT
    ensures Progress(t, items, n + 1, m)
  {}

  lemma ProgressDrop(t: Taker, items: seq<Item>, n: nat, m: Matched)
    requires Progress(t, items, n, m) && n < |items| && items[n].state != Valid
    requires |m.dropped| < DROP_EXPIRED_ORDER_LIMIT
    ensures Progress(t, items, n + 1, m.(dropped := m.dropped + [n]))
  {}

  lemma NotYetFilled(t: Taker, items: seq<Item>, n: nat, fills: seq<Fill>)
    requires GoodFills(t, items, n, fills)
    ensures !Filled(fills, n)
  {}

  lemma ProgressCancel(t: Taker, items: seq<Item>, n: nat, m: Matched)
    requires Progress(t, items, n, m) && n < |items| && items[n].state == Valid && Within(t, items[n].price)
    requires Own(t, items[n]) && t.selfTrade == CancelProvide
    ensures Progress(t, items, n + 1, m.(cancelled := m.cancelled + [n]))
  {
    NotYetFilled(t, items, n, m.fills);
    var m' := m.(cancelled := m.cancelled + [n]);
    assert m'.cancelled[|m.cancelled|] == n;
  }

  lemma SumsAppend(items: seq<Item>, fills: seq<Fill>, f: Fill)
    ensures BaseOf(fills + [f]) == BaseOf(fills) + f.quantity
    ensures QuoteOf(items, fills + [f]) == QuoteOf(items, fills) + f.quantity * PriceOf(items, f.item)
  {
    assert (fills + [f])[..|fills|] == fills;
  }

  /** The quantity of a match. */
  function MatchSize(m: Matched, x: Item): int
    requires x.price > 0
  {
    Min(Min(m.base, x.leaf.quantity), m.quote / x.price)
  }

  lemma SizeBounds(base: int, quantity: int, quote: int, price: int)
    requires base > 0 && quantity >= 1 && quote >= 0 && price >= 1 && quote / price > 0
    ensures var q := Min(Min(base, quantity), quote / price);
            && 0 < q <= quantity && q <= base && q * price <= quote
            && (q < quantity ==> q == base || quote - q * price < price)
  {
    var q := Min(Min(base, quantity), quote / price);
    assert quote == quote / price * price + quote % price;
    if q < quote / price {
      assert (quote / price - q) * price >= 0;
    }
  }

  function AfterFill(m: Matched, n: nat, price: int, q: int): Matched {
    m.(base := m.base - q, quote := m.quote - q * price, fills := m.fills + [Fill(n, q)])
  }

  ghost predicate Matchable(t: Taker, items: seq<Item>, n: nat, m: Matched) {
    && n < |items| && items[n].state == Valid && Within(t, items[n].price)
    && m.base > 0 && items[n].price >= 1 && items[n].leaf.quantity >= 1 && m.quote >= 0
    && m.quote / items[n].price > 0
    && (Own(t, items[n]) ==> t.selfTrade == DecrementTake)
  }

  lemma FillConserves(t: Taker, items: seq<Item>, n: nat, m: Matched)
    requires Conserves(t, items, m) && Matchable(t, items, n, m)
    ensures Conserves(t, items, AfterFill(m, n, items[n].price, MatchSize(m, items[n])))
  {
    var q := MatchSize(m, items[n]);
    SizeBounds(m.base, items[n].leaf.quantity, m.quote, items[n].price);
    SumsAppend(items, m.fills, Fill(n, q));
  }

  lemma FillGood(t: Taker, items: seq<Item>, n: nat, m: Matched)
    requires GoodFills(t, items, n, m.fills) && Matchable(t, items, n, m)
    ensures GoodFills(t, items, n + 1, m.fills + [Fill(n, MatchSize(m, items[n]))])
  {
    SizeBounds(m.base, items[n].leaf.quantity, m.quote, items[n].price);
  }

  lemma FillSkipsNone(t: Taker, items: seq<Item>, n: nat, m: Matched, f: Fill)
    requires NoneSkipped(t, items, n, m) && n < |items| && Within(t, items[n].price) && f.item == n
    ensures NoneSkipped(t, items, n + 1, m.(fills := m.fills + [f]))
  {
    var fills := m.fills + [f];
    assert fills[|m.fills|].item == n;
    forall j: nat | Filled(m.fills, j) ensures Filled(fills, j) {
      var k :| 0 <= k < |m.fills| && m.fills[k].item == j;
      assert fills[k].item == j;
    }
  }

  lemma FillExplained(t: Taker, items: seq<Item>, n: nat, m: Matched)
    requires PartialsExplained(items, m) && Matchable(t, items, n, m)
    ensures PartialsExplained(items, AfterFill(m, n, items[n].price, MatchSize(m, items[n])))
  {
    var price, q := items[n].price, MatchSize(m, items[n]);
    SizeBounds(m.base, items[n].leaf.quantity, m.quote, price);
    assert q * price >= 0;
    var m' := AfterFill(m, n, price, q);
    forall k | 0 <= k < |m'.fills| && !Complete(items, m'.fills[k])
      ensures m'.base == 0 || m'.quote < PriceOf(items, m'.fills[k].item)
    {
      if k < |m.fills| { assert !Complete(items, m.fills[k]); }
    }
  }

  /** A bid that still has something to match has matched everything before completely. */
  lemma FillIsLast(t: Taker, items: seq<Item>, n: nat, m: Matched)
    requires Opposing(t, items) && t.bid && Matchable(t, items, n, m)
    requires PartialsExplained(items, m) && GoodFills(t, items, n, m.fills)
    ensures PartialIsLast(items, m.fills + [Fill(n, MatchSize(m, items[n]))])
  {
    forall k | 0 <= k < |m.fills| ensures Complete(items, m.fills[k]) {
      var j := m.fills[k].item;
      assert GoodFill(t, items, m.fills[k]) && j < n;
      assert items[j].price <= items[n].price;
      NotEnough(m.quote, items[n].price);
    }
  }

  lemma NotEnough(quote: int, price: int)
    requires quote >= 0 && price >= 1
    ensures quote / price > 0 <==> quote >= price
  {
    assert quote == quote / price * price + quote % price;
    if quote / price > 0 { assert (quote / price - 1) * price >= 0; }
  }

  lemma ProgressFill(t: Taker, items: seq<Item>, n: nat, m: Matched)
    requires Opposing(t, items) && Progress(t, items, n, m) && Matchable(t, items, n, m)
    ensures Progress(t, items, n + 1, AfterFill(m, n, items[n].price, MatchSize(m, items[n])))
  {
    hide Conserves, GoodFills, NoneSkipped, PartialsExplained, PartialIsLast;
    FillConserves(t, items, n, m);
    FillGood(t, items, n, m);
    FillExplained(t, items, n, m);
    if t.bid { FillIsLast(t, items, n, m); }
    var f := Fill(n, MatchSize(m, items[n]));
    FillSkipsNone(t, items, n, m, f);
    SameButFills(t, items, n, m, f);
  }

  lemma SameButFills(t: Taker, items: seq<Item>, n: nat, m: Matched, f: Fill)
    requires Removals(t, items, n, m) && n < |items| && items[n].state == Valid && f.item == n
    requires NoneSkipped(t, items, n + 1, m.(fills := m.fills + [f]))
    ensures Removals(t, items, n + 1, AfterFill(m, n, items[n].price, f.quantity))
    ensures NoneSkipped(t, items, n + 1, AfterFill(m, n, items[n].price, f.quantity))
  {
    var m' := AfterFill(m, n, items[n].price, f.quantity);
    assert m'.fills == m.fills + [f];
    forall j | j in m.cancelled ensures !Filled(m'.fills, j) {
      assert !Filled(m.fills, j);
      forall k | 0 <= k < |m'.fills| ensures m'.fills[k].item != j {
        if k < |m.fills| { assert m'.fills[k] == m.fills[k]; }
      }
    }
  }

  // ---- The loop ----

  function Events(m: Matched): nat {
    |m.fills| + |m.dropped| + |m.cancelled|
  }

  /** An own order that is removed instead of matched. */
  predicate Cancels(t: Taker, x: Item) {
    x.state == Valid && Own(t, x) && t.selfTrade == CancelProvide
  }

  predicate Takes(t: Taker, x: Item) {
    x.state == Valid && !Cancels(t, x)
  }

  /** What becomes of the order at position `n`. */
  function StepAt(t: Taker, items: seq<Item>, n: nat, m: Matched): Matched
    requires n < |items| && items[n].price >= 1
  {
    if items[n].state != Valid then
      if |m.dropped| < DROP_EXPIRED_ORDER_LIMIT then m.(dropped := m.dropped + [n]) else m
    else if Cancels(t, items[n]) then m.(cancelled := m.cancelled + [n])
    else AfterFill(m, n, items[n].price, MatchSize(m, items[n]))
  }

  function Start(t: Taker): Matched {
    Matched(t.maxBase, t.maxQuote, [], [], [], t.posts)
  }

  /** After the first `n` orders, if the loop gets that far. */
  ghost function After(t: Taker, items: seq<Item>, n: nat): Matched
    requires Priced(items) && n <= |items|
  {
    if n == 0 then Start(t) else StepAt(t, items, n - 1, After(t, items, n - 1))
  }

  /** A valid order within the limit, with something left to match. */
  predicate AtCrossing(t: Taker, items: seq<Item>, n: nat, m: Matched) {
    n < |items| && m.base > 0 && m.quote > 0 && items[n].state == Valid && Within(t, items[n].price)
  }

  /** The loop ends before position `n`: nothing left on either side, the price limit, a reason not
      to post, or not enough quote for one lot. */
  predicate Stops(t: Taker, items: seq<Item>, limit: nat, n: nat, m: Matched) {
    || n >= |items| || m.base == 0 || m.quote == 0
    || (items[n].state == Valid
        && (!Within(t, items[n].price) || t.postOnly || |m.fills| == limit || m.quote < items[n].price))
  }

  predicate Aborts(t: Taker, items: seq<Item>, n: nat) {
    n < |items| && items[n].state == Valid && Own(t, items[n]) && t.selfTrade == AbortTransaction
  }

  ghost predicate Halts(t: Taker, items: seq<Item>, limit: nat, n: nat)
    requires Priced(items) && n <= |items|
  {
    Stops(t, items, limit, n, After(t, items, n)) || Aborts(t, items, n)
  }

  ghost predicate Reached(t: Taker, items: seq<Item>, limit: nat, n: nat)
    requires Priced(items)
  {
    n <= |items| && forall i :: 0 <= i < n ==> !Halts(t, items, limit, i)
  }

  /** Where the loop ends, as far as there is room for its events. */
  ghost function EndFrom(t: Taker, items: seq<Item>, limit: nat, n: nat): (e: nat)
    requires Priced(items) && n <= |items|
    ensures n <= e <= |items| && Halts(t, items, limit, e)
    ensures forall i :: n <= i < e ==> !Halts(t, items, limit, i)
    decreases |items| - n
  {
    if Halts(t, items, limit, n) then n else EndFrom(t, items, limit, n + 1)
  }

  ghost function End(t: Taker, items: seq<Item>, limit: nat): (e: nat)
    requires Priced(items)
    ensures Reached(t, items, limit, e) && Halts(t, items, limit, e)
  {
    EndFrom(t, items, limit, 0)
  }

  /** Why a remainder is not posted although there was a tree for it. */
  predicate Barred(t: Taker, items: seq<Item>, limit: nat, n: nat, m: Matched) {
    AtCrossing(t, items, n, m) && (t.postOnly || |m.fills| == limit)
  }

  /** What the loop returns, if it does not fail. */
  ghost function MatchResult(t: Taker, items: seq<Item>, limit: nat): Matched
    requires Priced(items)
  {
    var e := End(t, items, limit);
    var m := After(t, items, e);
    m.(post := t.posts && !Barred(t, items, limit, e, m))
  }

  /** How the loop ends: its events have to fit the queue, and it must not reach an own order if
      that aborts the transaction. */
  ghost function MatchOutcome(t: Taker, items: seq<Item>, limit: nat, room: nat): Outcome
    requires Priced(items)
  {
    var e := End(t, items, limit);
    if room < Events(After(t, items, e)) then QueueFull
    else if Stops(t, items, limit, e, After(t, items, e)) then Done
    else WouldSelfTrade
  }

  lemma EndIs(t: Taker, items: seq<Item>, limit: nat, n: nat)
    requires Priced(items) && Reached(t, items, limit, n) && Halts(t, items, limit, n)
    ensures End(t, items, limit) == n
  {
    hide Halts;
  }

  lemma BeforeEnd(t: Taker, items: seq<Item>, limit: nat, n: nat)
    requires Priced(items) && Reached(t, items, limit, n)
    ensures n <= End(t, items, limit)
  {
    hide Halts;
  }

  lemma {:induction false} EventsGrow(t: Taker, items: seq<Item>, n: nat, k: nat)
    requires Priced(items) && n <= k <= |items|
    ensures Events(After(t, items, n)) <= Events(After(t, items, k))
    decreases k
  {
    if n < k { EventsGrow(t, items, n, k - 1); }
  }

  /** Everything a matching has to satisfy holds as long as the loop goes on. */
  lemma {:induction false} AfterProgress(t: Taker, items: seq<Item>, limit: nat, n: nat)
    requires Opposing(t, items) && Reached(t, items, limit, n)
    ensures Progress(t, items, n, After(t, items, n)) && After(t, items, n).post == t.posts
    ensures |After(t, items, n).fills| <= limit && (t.postOnly ==> After(t, items, n).fills == [])
    decreases n
  {
    hide Progress;
    if n == 0 {
      ProgressStart(t, items);
    } else {
      AfterProgress(t, items, limit, n - 1);
      assert !Halts(t, items, limit, n - 1);
      ProgressStep(t, items, limit, n - 1, After(t, items, n - 1));
    }
  }

  lemma ProgressStep(t: Taker, items: seq<Item>, limit: nat, n: nat, m: Matched)
    requires Opposing(t, items) && Progress(t, items, n, m)
    requires !Stops(t, items, limit, n, m) && !Aborts(t, items, n)
    ensures Progress(t, items, n + 1, StepAt(t, items, n, m))
  {
    hide Progress;
    NonNegative(t, items, n, m);
    if items[n].state != Valid {
      if |m.dropped| < DROP_EXPIRED_ORDER_LIMIT { ProgressDrop(t, items, n, m); } else { ProgressSkip(t, items, n, m); }
    } else if Cancels(t, items[n]) {
      ProgressCancel(t, items, n, m);
    } else {
      NotEnough(m.quote, items[n].price);
      ProgressFill(t, items, n, m);
    }
  }

  /** The result keeps all promises. */
  lemma ResultKeepsPromises(t: Taker, items: seq<Item>, limit: nat)
    requires Opposing(t, items)
    ensures var e, m := End(t, items, limit), MatchResult(t, items, limit);
            && Progress(t, items, e, m) && |m.fills| <= limit && (t.postOnly ==> m.fills == [])
            && (m.post <==> t.posts && !Barred(t, items, limit, e, m))
  {
    hide Progress, Halts;
    var e := End(t, items, limit);
    AfterProgress(t, items, limit, e);
    if !MatchResult(t, items, limit).post { PostFlag(t, items, e, After(t, items, e)); }
    assert MatchResult(t, items, limit).post ==> MatchResult(t, items, limit) == After(t, items, e);
  }

  lemma NextReached(t: Taker, items: seq<Item>, limit: nat, n: nat)
    requires Priced(items) && Reached(t, items, limit, n)
    requires !Stops(t, items, limit, n, After(t, items, n)) && !Aborts(t, items, n)
    ensures Reached(t, items, limit, n + 1) && After(t, items, n + 1) == StepAt(t, items, n, After(t, items, n))
  {}

  lemma Ended(t: Taker, items: seq<Item>, limit: nat, room: nat, n: nat)
    requires Priced(items) && Reached(t, items, limit, n) && Events(After(t, items, n)) <= room
    requires Stops(t, items, limit, n, After(t, items, n))
    ensures MatchOutcome(t, items, limit, room) == Done
    ensures var m := After(t, items, n); MatchResult(t, items, limit) == m.(post := t.posts && !Barred(t, items, limit, n, m))
  {
    hide Stops, Aborts, Barred, Reached;
    EndIs(t, items, limit, n);
  }

  lemma Aborted(t: Taker, items: seq<Item>, limit: nat, room: nat, n: nat)
    requires Priced(items) && Reached(t, items, limit, n) && Events(After(t, items, n)) <= room
    requires !Stops(t, items, limit, n, After(t, items, n)) && Aborts(t, items, n)
    ensures MatchOutcome(t, items, limit, room) == WouldSelfTrade
  {
    hide Stops, Aborts, Reached;
    EndIs(t, items, limit, n);
  }

  lemma Overflows(t: Taker, items: seq<Item>, limit: nat, room: nat, n: nat)
    requires Priced(items) && Reached(t, items, limit, n)
    requires !Stops(t, items, limit, n, After(t, items, n)) && !Aborts(t, items, n)
    requires Events(StepAt(t, items, n, After(t, items, n))) > room
    ensures MatchOutcome(t, items, limit, room) == QueueFull
  {
    hide Stops, Aborts, Reached, StepAt, After;
    NextReached(t, items, limit, n);
    BeforeEnd(t, items, limit, n + 1);
    EventsGrow(t, items, n + 1, End(t, items, limit));
  }

  /** Matches at most `limit` orders, with room for `room` events in the queue. */
  method Match(t: Taker, items: seq<Item>, limit: nat, room: nat) returns (r: Outcome, m: Matched)
    requires Opposing(t, items)
    ensures r == MatchOutcome(t, items, limit, room)
    ensures r == Done ==> m == MatchResult(t, items, limit) && Events(m) <= room
  {
    hide After, Reached, MatchOutcome, MatchResult, End;
    m := Start(t);
    assert Reached(t, items, limit, 0) && m == After(t, items, 0) by { AtStart(t, items, limit); }
    for i := 0 to |items|
      invariant Reached(t, items, limit, i) && m == After(t, items, i) && Events(m) <= room && m.post == t.posts
    {
      AfterProgress(t, items, limit, i);
      NonNegative(t, items, i, m);
      var x := items[i];
      if m.base == 0 || m.quote == 0 {
        Ended(t, items, limit, room, i);
        return Done, m;
      }
      if x.state != Valid {
        if |m.dropped| < DROP_EXPIRED_ORDER_LIMIT {
          if Events(m) == room {
            Overflows(t, items, limit, room, i);
            return QueueFull, m;
          }
          m := m.(dropped := m.dropped + [i]);
        }
        NextReached(t, items, limit, i);
        continue;
      }
      if !Within(t, x.price) {
        Ended(t, items, limit, room, i);
        return Done, m;
      }
      if t.postOnly || |m.fills| == limit {
        Ended(t, items, limit, room, i);
        m := m.(post := false);
        return Done, m;
      }
      NotEnough(m.quote, x.price);
      if m.quote / x.price == 0 {
        Ended(t, items, limit, room, i);
        return Done, m;
      }
      if Own(t, x) {
        match t.selfTrade {
          case DecrementTake =>
          case CancelProvide =>
            if Events(m) == room {
              Overflows(t, items, limit, room, i);
              return QueueFull, m;
            }
            m := m.(cancelled := m.cancelled + [i]);
            NextReached(t, items, limit, i);
            continue;
          case AbortTransaction =>
            Aborted(t, items, limit, room, i);
            return WouldSelfTrade, m;
        }
      }
      if Events(m) == room {
        Overflows(t, items, limit, room, i);
        return QueueFull, m;
      }
      m := AfterFill(m, i, x.price, MatchSize(m, x));
      NextReached(t, items, limit, i);
    }
    Ended(t, items, limit, room, |items|);
    r := Done;
  }

  lemma AtStart(t: Taker, items: seq<Item>, limit: nat)
    requires Priced(items)
    ensures Reached(t, items, limit, 0) && After(t, items, 0) == Start(t)
  {}

  lemma ProgressStart(t: Taker, items: seq<Item>)
    ensures Progress(t, items, 0, Matched(t.maxBase, t.maxQuote, [], [], [], t.posts))
  {}

  lemma NonNegative(t: Taker, items: seq<Item>, n: nat, m: Matched)
    requires Progress(t, items, n, m)
    ensures m.base >= 0 && m.quote >= 0 && |m.dropped| <= DROP_EXPIRED_ORDER_LIMIT
  {}

  lemma PostFlag(t: Taker, items: seq<Item>, n: nat, m: Matched)
    requires Progress(t, items, n, m)
    ensures Progress(t, items, n, m.(post := false))
  {
    var m' := m.(post := false);
    assert forall j: nat :: Filled(m'.fills, j) <==> Filled(m.fills, j);
  }

  // ---- What the whole order would cost ----

  predicate TakesWithin(t: Taker, x: Item) {
    Takes(t, x) && Within(t, x.price)
  }

  /** The base quantity that the first `n` orders could supply. */
  function Supplied(t: Taker, items: seq<Item>, n: nat): nat
    requires n <= |items|
  {
    if n == 0 then 0
    else
      var before := Supplied(t, items, n - 1);
      if TakesWithin(t, items[n - 1]) && items[n - 1].leaf.quantity > 0
      then Min(t.maxBase, before + items[n - 1].leaf.quantity) else before
  }

  /** What that costs. */
  function Cost(t: Taker, items: seq<Item>, n: nat): int
    requires n <= |items|
  {
    if n == 0 then 0
    else Cost(t, items, n - 1) + (Supplied(t, items, n) - Supplied(t, items, n - 1)) * items[n - 1].price
  }

  /** The quote needed to get past the first `n` orders with all of that matched: an own order that
      is removed when it is reached takes one lot's price in hand. */
  function Needed(t: Taker, items: seq<Item>, n: nat): int
    requires n <= |items|
  {
    if n == 0 then 0
    else
      var x, before := items[n - 1], Needed(t, items, n - 1);
      if Supplied(t, items, n - 1) == t.maxBase || x.state != Valid || !Within(t, x.price) then before
      else if Cancels(t, x) then Max(before, Cost(t, items, n - 1) + x.price)
      else Max(before, Cost(t, items, n))
  }

  function Max(a: int, b: int): int {
    if a < b then b else a
  }

  lemma {:induction false} SuppliedGrows(t: Taker, items: seq<Item>, n: nat, k: nat)
    requires n <= k <= |items|
    ensures Supplied(t, items, n) <= Supplied(t, items, k) <= t.maxBase
    decreases k
  {
    if n < k { SuppliedGrows(t, items, n, k - 1); } else if n > 0 { SuppliedGrows(t, items, n - 1, n - 1); }
  }

  lemma {:induction false} NeededGrows(t: Taker, items: seq<Item>, n: nat, k: nat)
    requires n <= k <= |items|
    ensures Needed(t, items, n) <= Needed(t, items, k)
    decreases k
  {
    if n < k { NeededGrows(t, items, n, k - 1); }
  }

  ghost predicate AllComplete(items: seq<Item>, fills: seq<Fill>) {
    forall k :: 0 <= k < |fills| ==> Complete(items, fills[k])
  }

  /** As long as the quote suffices, the loop has matched exactly what the orders supply. */
  lemma {:induction false} Funded(t: Taker, items: seq<Item>, limit: nat, n: nat)
    requires Opposing(t, items) && Reached(t, items, limit, n) && Needed(t, items, n) <= t.maxQuote
    ensures var m := After(t, items, n);
            && m.base == t.maxBase - Supplied(t, items, n) && m.quote == t.maxQuote - Cost(t, items, n)
            && (m.base > 0 ==> AllComplete(items, m.fills))
    decreases n
  {
    hide AllComplete, Supplied, Cost, Needed, Progress, StepAt, Stops, Opposing;
    OpposingPriced(t, items);
    if n == 0 {
      NothingYet(t, items);
    } else {
      NeededGrows(t, items, n - 1, n);
      Funded(t, items, limit, n - 1);
      assert !Halts(t, items, limit, n - 1);
      AfterProgress(t, items, limit, n - 1);
      NonNegative(t, items, n - 1, After(t, items, n - 1));
      GoesOn(t, items, limit, n - 1, After(t, items, n - 1));
      FundedStep(t, items, limit, n - 1, After(t, items, n - 1));
    }
  }

  lemma FundedStep(t: Taker, items: seq<Item>, limit: nat, n: nat, m: Matched)
    requires Opposing(t, items) && n < |items| && !Stops(t, items, limit, n, m) && m.base >= 0 && m.quote >= 0
    requires m.base == t.maxBase - Supplied(t, items, n) && m.quote == t.maxQuote - Cost(t, items, n)
    requires AllComplete(items, m.fills) && Needed(t, items, n + 1) <= t.maxQuote
    ensures var m' := StepAt(t, items, n, m);
            && m'.base == t.maxBase - Supplied(t, items, n + 1) && m'.quote == t.maxQuote - Cost(t, items, n + 1)
            && (m'.base > 0 ==> AllComplete(items, m'.fills))
  {
    hide Supplied, Cost, Needed, AllComplete, Opposing;
    assert Priced(items) by { OpposingPriced(t, items); }
    SupplyStep(t, items, n);
    var x := items[n];
    if TakesWithin(t, x) {
      var q := Min(m.base, x.leaf.quantity);
      Affordable(q, m.quote, x.price);
      assert MatchSize(m, x) == q;
      if m.base > q { CompleteStep(items, m.fills, Fill(n, q)); }
    }
  }

  /** What one more order adds. */
  lemma SupplyStep(t: Taker, items: seq<Item>, n: nat)
    requires n < |items| && items[n].leaf.quantity >= 1
    ensures Supplied(t, items, n) <= t.maxBase
    ensures var x := items[n];
            var q := if TakesWithin(t, x) then Min(t.maxBase - Supplied(t, items, n), x.leaf.quantity) else 0;
            && Supplied(t, items, n + 1) == Supplied(t, items, n) + q
            && Cost(t, items, n + 1) == Cost(t, items, n) + q * x.price
            && (TakesWithin(t, x) && Supplied(t, items, n) < t.maxBase ==> Cost(t, items, n + 1) <= Needed(t, items, n + 1))
            && (Cancels(t, x) && Within(t, x.price) && Supplied(t, items, n) < t.maxBase ==>
                  Cost(t, items, n) + x.price <= Needed(t, items, n + 1))
  {
    SuppliedGrows(t, items, n, n);
  }

  lemma NothingYet(t: Taker, items: seq<Item>)
    requires Priced(items)
    ensures Supplied(t, items, 0) == 0 && Cost(t, items, 0) == 0 && Needed(t, items, 0) == 0 && After(t, items, 0) == Start(t)
    ensures AllComplete(items, Start(t).fills)
  {}

  lemma GoesOn(t: Taker, items: seq<Item>, limit: nat, n: nat, m: Matched)
    requires !Stops(t, items, limit, n, m)
    ensures n < |items| && m.base != 0 && m.quote != 0
  {}

  lemma OpposingPriced(t: Taker, items: seq<Item>)
    requires Opposing(t, items)
    ensures Priced(items)
  {}

  lemma CompleteStep(items: seq<Item>, fills: seq<Fill>, f: Fill)
    requires AllComplete(items, fills) && Complete(items, f)
    ensures AllComplete(items, fills + [f])
  {}

  lemma Affordable(q: int, quote: int, price: int)
    requires price >= 1 && quote >= 0
    ensures q * price <= quote <==> q <= quote / price
  {
    assert quote == quote / price * price + quote % price;
    if q <= quote / price { assert (quote / price - q) * price >= 0; } else { assert (q - quote / price - 1) * price >= 0; }
  }

  /** The first order at which the quote runs short. */
  ghost predicate ShortAt(t: Taker, items: seq<Item>, j: nat) {
    j < |items| && Needed(t, items, j) <= t.maxQuote < Needed(t, items, j + 1)
  }

  lemma {:induction false} FindShort(t: Taker, items: seq<Item>, n: nat) returns (j: nat)
    requires n <= |items| && t.maxQuote < Needed(t, items, n)
    ensures j < n && ShortAt(t, items, j)
    decreases n
  {
    if Needed(t, items, n - 1) <= t.maxQuote {
      j := n - 1;
    } else {
      j := FindShort(t, items, n - 1);
    }
  }

  lemma ShortIsWithin(t: Taker, items: seq<Item>, j: nat)
    requires ShortAt(t, items, j)
    ensures items[j].state == Valid && Within(t, items[j].price) && Supplied(t, items, j) < t.maxBase
    ensures t.maxQuote < if Cancels(t, items[j]) then Cost(t, items, j) + items[j].price else Cost(t, items, j + 1)
  {
    SuppliedGrows(t, items, j, j);
  }

  /** What is left of the quote after as many lots as it buys of that order. */
  function Change(t: Taker, items: seq<Item>, j: nat): int
    requires j < |items| && items[j].price >= 1
  {
    (t.maxQuote - Cost(t, items, j)) % items[j].price
  }

  /** If the loop goes past it, that order was matched in part, with something left to match. */
  lemma ShortFill(t: Taker, items: seq<Item>, limit: nat, j: nat)
    requires Opposing(t, items) && ShortAt(t, items, j) && Reached(t, items, limit, j + 1)
    ensures Takes(t, items[j]) && Cost(t, items, j) + items[j].price <= t.maxQuote
    ensures var m, m' := After(t, items, j), After(t, items, j + 1);
            && |m'.fills| == |m.fills| + 1 && m'.fills[..|m.fills|] == m.fills
            && m'.fills[|m.fills|].item == j && !Complete(items, m'.fills[|m.fills|])
            && m'.base > 0 && m'.quote == Change(t, items, j) < items[j].price
  {
    hide Needed, AllComplete;
    Funded(t, items, limit, j);
    AfterProgress(t, items, limit, j);
    ShortIsWithin(t, items, j);
    assert !Halts(t, items, limit, j);
    ShortStep(t, items, j, After(t, items, j));
  }

  lemma ShortStep(t: Taker, items: seq<Item>, j: nat, m: Matched)
    requires Opposing(t, items) && j < |items| && items[j].state == Valid && Within(t, items[j].price)
    requires m.base == t.maxBase - Supplied(t, items, j) && m.quote == t.maxQuote - Cost(t, items, j)
    requires m.base > 0 && m.quote >= items[j].price
    requires t.maxQuote < if Cancels(t, items[j]) then Cost(t, items, j) + items[j].price else Cost(t, items, j + 1)
    ensures Takes(t, items[j])
    ensures var q := MatchSize(m, items[j]);
            0 < q < items[j].leaf.quantity && q < m.base && m.quote - q * items[j].price == Change(t, items, j)
  {
    var x := items[j];
    var q := Min(m.base, x.leaf.quantity);
    assert Supplied(t, items, j + 1) == Supplied(t, items, j) + q;
    Affordable(q, m.quote, x.price);
    NotEnough(m.quote, x.price);
    assert m.quote == m.quote / x.price * x.price + m.quote % x.price;
  }

  // ---- Posting the remainder ----

  /** The quantity that would be posted. */
  function Remainder(t: Taker, m: Matched): int
    requires t.price >= 1
  {
    Min(m.base, m.quote / t.price)
  }

  /** A valid order within the limit that is still there after the matching. */
  ghost predicate LeftCrossing(t: Taker, items: seq<Item>, m: Matched, j: nat) {
    && j < |items| && items[j].state == Valid && Within(t, items[j].price) && j !in m.cancelled
    && forall k :: 0 <= k < |m.fills| && m.fills[k].item == j ==> !Complete(items, m.fills[k])
  }

  /** The loop ended normally and something is left to post. */
  ghost predicate Remains(t: Taker, items: seq<Item>, limit: nat)
    requires Priced(items) && t.price >= 1
  {
    var m := MatchResult(t, items, limit);
    Stops(t, items, limit, End(t, items, limit), m) && m.post && Remainder(t, m) > 0
  }

  lemma NotYetReached(t: Taker, items: seq<Item>, n: nat, m: Matched, j: nat)
    requires Progress(t, items, n, m) && n <= j
    ensures !Filled(m.fills, j) && j !in m.cancelled
  {}

  lemma RemainsHas(t: Taker, items: seq<Item>, limit: nat)
    requires Opposing(t, items) && t.price >= 1 && Remains(t, items, limit)
    ensures var e := End(t, items, limit); var m := After(t, items, e);
            && MatchResult(t, items, limit) == m && m.base > 0 && m.quote >= t.price && !Barred(t, items, limit, e, m)
            && Stops(t, items, limit, e, m) && Progress(t, items, e, m)
  {
    hide Progress, Barred, Stops, Reached, Halts;
    var e := End(t, items, limit);
    AfterProgress(t, items, limit, e);
    var m := After(t, items, e);
    NonNegative(t, items, e, m);
    NotEnough(m.quote, t.price);
    assert MatchResult(t, items, limit) == m;
  }

  /** With enough quote for all orders within the limit, none of them is left. */
  lemma AffordedIsTaken(t: Taker, items: seq<Item>, limit: nat, j: nat)
    requires Opposing(t, items) && t.price >= 1 && Remains(t, items, limit)
    requires Needed(t, items, |items|) <= t.maxQuote
    ensures !LeftCrossing(t, items, MatchResult(t, items, limit), j)
  {
    hide Needed, Supplied, Cost, Remains, MatchResult, After, End;
    var e := End(t, items, limit);
    RemainsHas(t, items, limit);
    NeededGrows(t, items, e, |items|);
    Funded(t, items, limit, e);
    var m := After(t, items, e);
    if e <= j && LeftCrossing(t, items, m, j) {
      SupplyStep(t, items, e);
      NeededGrows(t, items, e + 1, |items|);
      BestFirst(t, items, e, j);
      OneLot(t.maxBase - Supplied(t, items, e), items[e].leaf.quantity, items[e].price);
      assert false;
    }
  }

  lemma BestFirst(t: Taker, items: seq<Item>, i: nat, j: nat)
    requires Opposing(t, items) && i <= j < |items| && Within(t, items[j].price)
    ensures Within(t, items[i].price)
    ensures if t.bid then items[i].price <= items[j].price else items[i].price >= items[j].price
  {
    if i < j { assert !Better(!t.bid, items[j].price, items[i].price); }
  }

  lemma OneLot(base: int, quantity: int, price: int)
    requires base >= 1 && quantity >= 1 && price >= 1
    ensures Min(base, quantity) * price >= price
  {
    assert (Min(base, quantity) - 1) * price >= 0;
  }

  /** Without, the order at which the quote runs short is. */
  lemma ShortIsLeft(t: Taker, items: seq<Item>, limit: nat, j: nat)
    requires Opposing(t, items) && t.price >= 1 && Remains(t, items, limit) && ShortAt(t, items, j)
    ensures LeftCrossing(t, items, MatchResult(t, items, limit), j)
  {
    hide Needed, Supplied, Cost, Remains, MatchResult, After, End;
    var e := End(t, items, limit);
    RemainsHas(t, items, limit);
    ShortIsWithin(t, items, j);
    var m := After(t, items, e);
    if e <= j {
      NotYetReached(t, items, e, m, j);
    } else {
      ShortFill(t, items, limit, j);
      KeptFills(t, items, j + 1, e);
      var n := |After(t, items, j).fills|;
      assert m.fills[n] == After(t, items, j + 1).fills[n];
    }
  }

  lemma {:induction false} KeptFills(t: Taker, items: seq<Item>, n: nat, k: nat)
    requires Priced(items) && n <= k <= |items|
    ensures After(t, items, n).fills <= After(t, items, k).fills
    decreases k
  {
    if n < k { KeptFills(t, items, n, k - 1); }
  }

  /** A posted remainder crosses an order that is left if and only if matching the whole order
      against all orders within the limit would have cost more than its quote. */
  lemma RemainderCrosses(t: Taker, items: seq<Item>, limit: nat)
    requires Opposing(t, items) && t.price >= 1 && Remains(t, items, limit)
    ensures (exists j: nat :: LeftCrossing(t, items, MatchResult(t, items, limit), j)) <==> t.maxQuote < Needed(t, items, |items|)
  {
    hide Remains, LeftCrossing, Needed, MatchResult, Opposing;
    OpposingPriced(t, items);
    if t.maxQuote < Needed(t, items, |items|) {
      var j := FindShort(t, items, |items|);
      ShortIsLeft(t, items, limit, j);
    } else {
      forall j: nat ensures !LeftCrossing(t, items, MatchResult(t, items, limit), j) {
        AffordedIsTaken(t, items, limit, j);
      }
    }
  }

  lemma {:induction false} QuoteShrinks(t: Taker, items: seq<Item>, limit: nat, n: nat, k: nat)
    requires Opposing(t, items) && n <= k && Reached(t, items, limit, k)
    ensures After(t, items, k).quote <= After(t, items, n).quote
    decreases k
  {
    hide Progress;
    if n < k {
      QuoteShrinks(t, items, limit, n, k - 1);
      assert !Halts(t, items, limit, k - 1);
      var m := After(t, items, k - 1);
      AfterProgress(t, items, limit, k - 1);
      NonNegative(t, items, k - 1, m);
      if Takes(t, items[k - 1]) {
        NotEnough(m.quote, items[k - 1].price);
        SizeBounds(m.base, items[k - 1].leaf.quantity, m.quote, items[k - 1].price);
        assert MatchSize(m, items[k - 1]) * items[k - 1].price >= 0;
      }
    }
  }

  /** That never happens to a bid: it keeps enough for a lot at its own price. */
  lemma BidAffords(t: Taker, items: seq<Item>, limit: nat)
    requires Opposing(t, items) && t.price >= 1 && Remains(t, items, limit) && t.bid
    ensures Needed(t, items, |items|) <= t.maxQuote
  {
    hide Needed, Supplied, Cost, Remains, MatchResult, After, End, Progress, Opposing;
    OpposingPriced(t, items);
    if t.maxQuote < Needed(t, items, |items|) {
      var e := End(t, items, limit);
      var j := FindShort(t, items, |items|);
      RemainsHas(t, items, limit);
      ShortIsWithin(t, items, j);
      if j < e {
        ShortFill(t, items, limit, j);
        QuoteShrinks(t, items, limit, j + 1, e);
      } else {
        BestFirst(t, items, e, j);
      }
      assert false;
    }
  }

  /** An ask for 1 lot at 3 or more that may receive at most 5, against a bid at 10: the bid is left
      and the ask is posted below it. */
  lemma AskPostedBelowBid(x: Item)
    requires x.state == Valid && x.price == 10 && x.leaf.quantity == 1 && x.leaf.owner == 2
    ensures var t := Taker(false, 1, 5, 3, false, true, 1, DecrementTake);
            && MatchOutcome(t, [x], 8, 0) == Done && Remains(t, [x], 8) && Remainder(t, MatchResult(t, [x], 8)) == 1
            && LeftCrossing(t, [x], MatchResult(t, [x], 8), 0)
  {
    var t := Taker(false, 1, 5, 3, false, true, 1, DecrementTake);
    AtStart(t, [x], 8);
    Ended(t, [x], 8, 0, 0);
    EndIs(t, [x], 8, 0);
  }

  // ---- Which orders are matched ----

  function TakenCount(t: Taker, items: seq<Item>, n: nat): nat
    requires n <= |items|
  {
    if n == 0 then 0 else TakenCount(t, items, n - 1) + if Takes(t, items[n - 1]) then 1 else 0
  }

  /** Every order that is reached and can be matched is. */
  lemma {:induction false} MatchedExactly(t: Taker, items: seq<Item>, n: nat, j: nat)
    requires Priced(items) && n <= |items|
    ensures |After(t, items, n).fills| == TakenCount(t, items, n)
    ensures Filled(After(t, items, n).fills, j) <==> j < n && Takes(t, items[j])
    decreases n
  {
    if n > 0 {
      MatchedExactly(t, items, n - 1, j);
      var fills, fills' := After(t, items, n - 1).fills, After(t, items, n).fills;
      if Takes(t, items[n - 1]) {
        assert fills'[|fills|].item == n - 1;
        assert forall k :: 0 <= k < |fills| ==> fills'[k] == fills[k];
      }
    }
  }

  /** An order is reached with enough quote for a lot, if all before it could be matched. */
  ghost predicate InReach(t: Taker, items: seq<Item>, limit: nat, j: nat) {
    && j < |items| && TakesWithin(t, items[j]) && !t.postOnly && TakenCount(t, items, j) < limit
    && Supplied(t, items, j) < t.maxBase && Needed(t, items, j) <= t.maxQuote
    && Cost(t, items, j) + items[j].price <= t.maxQuote
  }

  lemma {:induction false} SumsGrow(t: Taker, items: seq<Item>, n: nat, k: nat)
    requires Priced(items) && n <= k <= |items|
    ensures Cost(t, items, n) <= Cost(t, items, k) && TakenCount(t, items, n) <= TakenCount(t, items, k)
    decreases k
  {
    hide Supplied;
    if n < k {
      SumsGrow(t, items, n, k - 1);
      SuppliedGrows(t, items, k - 1, k);
      assert (Supplied(t, items, k) - Supplied(t, items, k - 1)) * items[k - 1].price >= 0;
    }
  }

  /** The price of a lot is part of what is needed to get past an order. */
  lemma LotIsNeeded(t: Taker, items: seq<Item>, n: nat)
    requires Priced(items) && n < |items| && items[n].state == Valid && Within(t, items[n].price)
    requires Supplied(t, items, n) < t.maxBase
    ensures Cost(t, items, n) + items[n].price <= Needed(t, items, n + 1)
  {
    hide Supplied, Cost, Needed;
    SupplyStep(t, items, n);
    OneLot(t.maxBase - Supplied(t, items, n), items[n].leaf.quantity, items[n].price);
  }

  lemma NotYetStopped(t: Taker, items: seq<Item>, limit: nat, n: nat, j: nat)
    requires Opposing(t, items) && InReach(t, items, limit, j) && n <= j && Reached(t, items, limit, n)
    ensures !Stops(t, items, limit, n, After(t, items, n))
  {
    hide Supplied, Cost, Needed, After, Opposing, AllComplete, Filled;
    OpposingPriced(t, items);
    SumsGrow(t, items, n, j);
    SuppliedGrows(t, items, n, j);
    NeededGrows(t, items, n, j);
    Funded(t, items, limit, n);
    MatchedExactly(t, items, n, 0);
    BestFirst(t, items, n, j);
    if n < j && items[n].state == Valid {
      NeededGrows(t, items, n + 1, j);
      LotIsNeeded(t, items, n);
    }
  }

  lemma InReachIsReached(t: Taker, items: seq<Item>, limit: nat, j: nat)
    requires Opposing(t, items) && InReach(t, items, limit, j)
    requires Stops(t, items, limit, End(t, items, limit), After(t, items, End(t, items, limit)))
    ensures j < End(t, items, limit)
  {
    hide InReach, After, Stops;
    OpposingPriced(t, items);
    var e := End(t, items, limit);
    if e <= j {
      NotYetStopped(t, items, limit, e, j);
    }
  }

  /** A bid matches exactly the orders that are in reach. */
  lemma BidMatches(t: Taker, items: seq<Item>, limit: nat, room: nat, j: nat)
    requires Opposing(t, items) && t.bid && MatchOutcome(t, items, limit, room) == Done
    ensures Filled(MatchResult(t, items, limit).fills, j) <==> InReach(t, items, limit, j)
  {
    hide Supplied, Cost, Needed, After, Opposing, AllComplete, Filled, TakenCount, ShortAt, Progress;
    OpposingPriced(t, items);
    var e := End(t, items, limit);
    MatchedExactly(t, items, e, j);
    if j < e && Takes(t, items[j]) {
      assert !Halts(t, items, limit, j);
      if t.maxQuote < Needed(t, items, j) {
        var i := FindShort(t, items, j);
        ShortFill(t, items, limit, i);
        QuoteShrinks(t, items, limit, i + 1, j);
        BestFirst(t, items, i, j);
        assert false;
      }
      Funded(t, items, limit, j);
      MatchedExactly(t, items, j, j);
      AfterProgress(t, items, limit, j);
      SuppliedGrows(t, items, j, j);
    }
    if InReach(t, items, limit, j) {
      InReachIsReached(t, items, limit, j);
    }
  }

  // ---- Passing over the rest of an order ----

  /** The quote runs short at `j`, but what is left of it after as many lots as it buys there is
      enough for the next order that can be matched. */
  ghost predicate PassesOver(t: Taker, items: seq<Item>, limit: nat, j: nat, k: nat) {
    && ShortAt(t, items, j) && InReach(t, items, limit, j) && TakenCount(t, items, j) + 1 < limit
    && j < k < |items| && TakesWithin(t, items[k]) && items[j].price >= 1
    && forall i :: j < i <= k && items[i].state == Valid ==> items[i].price <= Change(t, items, j)
  }

  /** Nothing is matched between `n` and `k` if all orders there are invalid or removed. */
  lemma {:induction false} NoneTaken(t: Taker, items: seq<Item>, n: nat, k: nat)
    requires Priced(items) && n <= k <= |items| && forall i :: n <= i < k ==> !Takes(t, items[i])
    ensures var m, m' := After(t, items, n), After(t, items, k);
            m'.fills == m.fills && m'.base == m.base && m'.quote == m.quote
    decreases k
  {
    if n < k { NoneTaken(t, items, n, k - 1); }
  }

  lemma FirstTaken(t: Taker, items: seq<Item>, n: nat, k: nat) returns (i: nat)
    requires n <= k < |items| && Takes(t, items[k])
    ensures n <= i <= k && Takes(t, items[i]) && forall l :: n <= l < i ==> !Takes(t, items[l])
  {
    i := n;
    while !Takes(t, items[i])
      invariant n <= i <= k && forall l :: n <= l < i ==> !Takes(t, items[l])
      decreases k - i
    {
      i := i + 1;
    }
  }

  /** The next order to match after the short one is reached. */
  lemma NextIsReached(t: Taker, items: seq<Item>, limit: nat, j: nat, k: nat)
    requires Opposing(t, items) && PassesOver(t, items, limit, j, k) && j < End(t, items, limit)
    requires Stops(t, items, limit, End(t, items, limit), After(t, items, End(t, items, limit)))
    requires forall l :: j < l < k ==> !Takes(t, items[l])
    ensures k < End(t, items, limit)
  {
    hide Supplied, Cost, Needed, After, Opposing, Filled, TakenCount, ShortAt, Change, Progress;
    OpposingPriced(t, items);
    var e := End(t, items, limit);
    if e <= k {
      ShortFill(t, items, limit, j);
      NoneTaken(t, items, j + 1, e);
      MatchedExactly(t, items, j, 0);
      BestFirst(t, items, e, k);
      assert false;
    }
  }

  /** A later match follows a partial one. */
  lemma PassedOver(t: Taker, items: seq<Item>, limit: nat, room: nat, j: nat, k: nat)
    requires Opposing(t, items) && PassesOver(t, items, limit, j, k) && MatchOutcome(t, items, limit, room) == Done
    ensures !PartialIsLast(items, MatchResult(t, items, limit).fills)
  {
    hide Supplied, Cost, Needed, After, Opposing, Filled, TakenCount, ShortAt, Change, InReach, Progress;
    OpposingPriced(t, items);
    var e := End(t, items, limit);
    InReachIsReached(t, items, limit, j);
    var i := FirstTaken(t, items, j + 1, k);
    BestFirst(t, items, i, k);
    NextIsReached(t, items, limit, j, i);
    ShortFill(t, items, limit, j);
    KeptFills(t, items, j + 1, e);
    MoreFills(t, items, j + 1, i, e);
    var n := |After(t, items, j).fills|;
    assert MatchResult(t, items, limit).fills[n] == After(t, items, j + 1).fills[n];
  }

  lemma MoreFills(t: Taker, items: seq<Item>, n: nat, i: nat, k: nat)
    requires Priced(items) && n <= i < k <= |items| && Takes(t, items[i])
    ensures |After(t, items, n).fills| < |After(t, items, k).fills|
  {
    KeptFills(t, items, n, i);
    KeptFills(t, items, i + 1, k);
  }

  /** A partial match that is not the last one: the quote ran short at the first of them. */
  lemma PartialRanShort(t: Taker, items: seq<Item>, limit: nat, a: nat) returns (j: nat)
    requires Opposing(t, items) && Reached(t, items, limit, End(t, items, limit))
    requires var fills := After(t, items, End(t, items, limit)).fills; a + 1 < |fills| && !Complete(items, fills[a])
    ensures ShortAt(t, items, j) && j < End(t, items, limit)
    ensures |After(t, items, j + 1).fills| < |After(t, items, End(t, items, limit)).fills|
  {
    hide Supplied, Cost, Needed, Opposing, Filled, TakenCount, ShortAt, Progress;
    OpposingPriced(t, items);
    var e := End(t, items, limit);
    var fills := After(t, items, e).fills;
    var i := FillPosition(t, items, e, a);
    assert !Halts(t, items, limit, i + 1) by { if i + 1 == e { assert false; } }
    if Needed(t, items, i + 1) <= t.maxQuote {
      Funded(t, items, limit, i + 1);
      assert false;
    }
    j := FindShort(t, items, i + 1);
    KeptFills(t, items, j + 1, i + 1);
  }

  /** The order that fill `a` is with: it is the last fill right after that order. */
  lemma {:induction false} FillPosition(t: Taker, items: seq<Item>, n: nat, a: nat) returns (i: nat)
    requires Priced(items) && n <= |items| && a < |After(t, items, n).fills|
    ensures i < n && |After(t, items, i + 1).fills| == a + 1 && After(t, items, i + 1).fills[a] == After(t, items, n).fills[a]
    ensures Takes(t, items[i]) && |After(t, items, i).fills| == a
    decreases n
  {
    if a < |After(t, items, n - 1).fills| {
      i := FillPosition(t, items, n - 1, a);
    } else {
      i := n - 1;
    }
  }

  /** Only the last match is a partial one, unless the quote runs short at an order and what is left
      still buys a lot of the next one. */
  lemma PassesOverExactly(t: Taker, items: seq<Item>, limit: nat, room: nat)
    requires Opposing(t, items) && MatchOutcome(t, items, limit, room) == Done
    ensures !PartialIsLast(items, MatchResult(t, items, limit).fills) <==> exists j: nat, k: nat :: PassesOver(t, items, limit, j, k)
  {
    hide PassesOver, After, Opposing, End, ShortAt;
    OpposingPriced(t, items);
    if !PartialIsLast(items, MatchResult(t, items, limit).fills) {
      var fills := MatchResult(t, items, limit).fills;
      var a :| 0 <= a < |fills| - 1 && !Complete(items, fills[a]);
      var j := PartialRanShort(t, items, limit, a);
      var k := NextMatched(t, items, limit, j);
      assert PassesOver(t, items, limit, j, k);
    }
    if j: nat, k: nat :| PassesOver(t, items, limit, j, k) {
      PassedOver(t, items, limit, room, j, k);
    }
  }

  lemma NextMatched(t: Taker, items: seq<Item>, limit: nat, j: nat) returns (k: nat)
    requires Opposing(t, items) && ShortAt(t, items, j) && j < End(t, items, limit)
    requires |After(t, items, j + 1).fills| < |After(t, items, End(t, items, limit)).fills|
    ensures PassesOver(t, items, limit, j, k)
  {
    hide Supplied, Cost, Needed, After, Opposing, Filled, TakenCount, Change, Progress, AllComplete;
    OpposingPriced(t, items);
    var e, n := End(t, items, limit), |After(t, items, j + 1).fills|;
    k := FillPosition(t, items, e, n);
    ShortFill(t, items, limit, j);
    ShortIsWithin(t, items, j);
    if k <= j { KeptFills(t, items, k + 1, j + 1); }
    forall i | j < i <= k ensures After(t, items, i).fills == After(t, items, j + 1).fills
                                  && After(t, items, i).quote == Change(t, items, j)
    {
      NoneBetween(t, items, j + 1, i, k);
    }
    forall i | j < i <= k && items[i].state == Valid ensures items[i].price <= Change(t, items, j) {
      assert !Halts(t, items, limit, i);
    }
    assert !Halts(t, items, limit, j) && !Halts(t, items, limit, k);
    MatchedExactly(t, items, j, 0);
    MatchedExactly(t, items, j + 1, 0);
    AfterProgress(t, items, limit, k);
  }

  lemma NoneBetween(t: Taker, items: seq<Item>, n: nat, i: nat, k: nat)
    requires Priced(items) && n <= i <= k <= |items| && |After(t, items, n).fills| == |After(t, items, k).fills|
    ensures After(t, items, i).fills == After(t, items, n).fills && After(t, items, i).quote == After(t, items, n).quote
  {
    KeptFills(t, items, n, i);
    KeptFills(t, items, i, k);
    forall l | n <= l < i ensures !Takes(t, items[l]) {
      if Takes(t, items[l]) { MoreFills(t, items, n, l, i); }
    }
    NoneTaken(t, items, n, i);
  }

  /** An ask that may receive 15 for 9 lots, against 5 lots at 10 and 5 at 4: one lot of the better
      bid is matched, four are left, and then a lot of the other bid is. */
  lemma AskPassesOverBetterBid(x: Item, y: Item)
    requires x.state == Valid && x.price == 10 && x.leaf.quantity == 5 && x.leaf.owner == 2
    requires y.state == Valid && y.price == 4 && y.leaf.quantity == 5 && y.leaf.owner == 2
    ensures var t, items := Taker(false, 9, 15, 3, false, true, 1, DecrementTake), [x, y];
            && Opposing(t, items) && MatchOutcome(t, items, 8, 2) == Done
            && MatchResult(t, items, 8).fills == [Fill(0, 1), Fill(1, 1)] && !Complete(items, Fill(0, 1))
  {
    var t, items := Taker(false, 9, 15, 3, false, true, 1, DecrementTake), [x, y];
    AtStart(t, items, 8);
    NextReached(t, items, 8, 0);
    NextReached(t, items, 8, 1);
    Ended(t, items, 8, 2, 2);
  }
}
