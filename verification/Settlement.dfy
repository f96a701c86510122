/** The settler: collects settleable pnl per market and pairs winners with losers, each winner
    with the largest remaining loser. Amounts are I80F48 bit patterns. */
module Settlement {

  type Key = nat
  type Market = nat

  /** One side of a possible settlement. `fee` is 0 for losers. */
  datatype Party = Party(key: Key, amount: int, fee: int)

  /** `settle_fee_amount_threshold` and `settle_fee_flat` of a market. */
  datatype FeeRules = FeeRules(threshold: int, flat: int)

  /** A settle instruction between winner `a` and loser `b`, as positions in the two lists, and
      the amount it is expected to settle. */
  datatype Pair = Pair(a: nat, b: nat, amount: int)

  function Min(x: int, y: int): int {
    if x < y then x else y
  }

  // ---- Legal sequences of pairs ----

  datatype Book = Book(winners: seq<int>, losers: seq<int>)

  function Apply(b: Book, p: Pair): (r: Book)
    ensures |r.winners| == |b.winners| && |r.losers| == |b.losers|
  {
    if p.a < |b.winners| && p.b < |b.losers| then
      Book(b.winners[p.a := b.winners[p.a] - p.amount], b.losers[p.b := b.losers[p.b] - p.amount])
    else b
  }

  /** The remaining amounts after the given pairs. */
  function After(start: Book, pairs: seq<Pair>): (r: Book)
    ensures |r.winners| == |start.winners| && |r.losers| == |start.losers|
  {
    if pairs == [] then start else Apply(After(start, pairs[..|pairs| - 1]), pairs[|pairs| - 1])
  }

  /** A pair that settles as much as possible with the largest remaining loser. */
  ghost predicate LegalPair(b: Book, p: Pair) {
    && p.a < |b.winners| && p.b < |b.losers|
    && p.amount == Min(b.winners[p.a], b.losers[p.b]) > 0
    && forall j :: 0 <= j < |b.losers| ==> b.losers[j] <= b.losers[p.b]
  }

  ghost predicate Legal(start: Book, pairs: seq<Pair>) {
    pairs == [] ||
    (Legal(start, pairs[..|pairs| - 1]) && LegalPair(After(start, pairs[..|pairs| - 1]), pairs[|pairs| - 1]))
  }

  ghost predicate NonNegative(b: Book) {
    && (forall i :: 0 <= i < |b.winners| ==> b.winners[i] >= 0)
    && (forall i :: 0 <= i < |b.losers| ==> b.losers[i] >= 0)
  }

  function Sum(s: seq<int>): int {
    if s == [] then 0 else Sum(s[..|s| - 1]) + s[|s| - 1]
  }

  function Amounts(pairs: seq<Pair>): int {
    if pairs == [] then 0 else Amounts(pairs[..|pairs| - 1]) + pairs[|pairs| - 1].amount
  }

  lemma {:induction false} SumUpdate(s: seq<int>, i: nat, v: int)
    requires i < |s|
    ensures Sum(s[i := v]) == Sum(s) - s[i] + v
  {
    var n := |s| - 1;
    if i < n {
      SumUpdate(s[..n], i, v);
      assert s[i := v][..n] == s[..n][i := v];
    } else {
      assert s[i := v][..n] == s[..n];
    }
  }

  /** How many parties have something left. */
  function Live(s: seq<int>): nat {
    if s == [] then 0 else Live(s[..|s| - 1]) + if s[|s| - 1] > 0 then 1 else 0
  }

  lemma {:induction false} LiveUpdate(s: seq<int>, i: nat, v: int)
    requires i < |s|
    ensures Live(s[i := v]) == Live(s) - (if s[i] > 0 then 1 else 0) + (if v > 0 then 1 else 0)
  {
    var n := |s| - 1;
    if i < n {
      LiveUpdate(s[..n], i, v);
      assert s[i := v][..n] == s[..n][i := v];
    } else {
      assert s[i := v][..n] == s[..n];
    }
  }

  lemma {:induction false} LiveBound(s: seq<int>)
    ensures Live(s) <= |s|
  {
    if s != [] { LiveBound(s[..|s| - 1]); }
  }

  /** Amounts are conserved: what the winners give up is what the losers give up, and nothing goes
      below zero. */
  lemma {:induction false} PairsConserve(start: Book, pairs: seq<Pair>)
    requires NonNegative(start) && Legal(start, pairs)
    ensures NonNegative(After(start, pairs))
    ensures Sum(start.winners) - Sum(After(start, pairs).winners) == Amounts(pairs)
    ensures Sum(start.losers) - Sum(After(start, pairs).losers) == Amounts(pairs)
  {
    hide Sum;
    if pairs != [] {
      var b, p := After(start, pairs[..|pairs| - 1]), pairs[|pairs| - 1];
      PairsConserve(start, pairs[..|pairs| - 1]);
      SumUpdate(b.winners, p.a, b.winners[p.a] - p.amount);
      SumUpdate(b.losers, p.b, b.losers[p.b] - p.amount);
    }
  }

  function Parties(b: Book): nat {
    Live(b.winners) + Live(b.losers)
  }

  lemma PairExhausts(b: Book, p: Pair)
    requires LegalPair(b, p)
    ensures b.winners[p.a] == p.amount || b.losers[p.b] == p.amount
    ensures Parties(Apply(b, p)) < Parties(b)
    ensures Parties(b) >= 2
  {
    LiveUpdate(b.winners, p.a, b.winners[p.a] - p.amount);
    LiveUpdate(b.losers, p.b, b.losers[p.b] - p.amount);
    LiveUpdate(b.winners, p.a, 0);
    LiveUpdate(b.losers, p.b, 0);
  }

  lemma {:induction false} PairsExhaust(start: Book, pairs: seq<Pair>)
    requires Legal(start, pairs)
    ensures |pairs| + Parties(After(start, pairs)) <= Parties(start)
  {
    if pairs != [] {
      PairsExhaust(start, pairs[..|pairs| - 1]);
      PairExhausts(After(start, pairs[..|pairs| - 1]), pairs[|pairs| - 1]);
    }
  }

  /** Each pair exhausts a party, so there are fewer pairs than parties. */
  lemma FewerPairsThanParties(start: Book, pairs: seq<Pair>)
    requires Legal(start, pairs) && pairs != []
    ensures |pairs| < |start.winners| + |start.losers|
  {
    PairsExhaust(start, pairs[..|pairs| - 1]);
    PairExhausts(After(start, pairs[..|pairs| - 1]), pairs[|pairs| - 1]);
    LiveBound(start.winners);
    LiveBound(start.losers);
  }

  // ---- The matching loop ----

  /** Whether the loop would settle `a` and `b` with each other, for a winner with this fee. */
  predicate Worthwhile(a: int, b: int, fee: int, rules: FeeRules) {
    var amount := Min(a, b);
    && (a > rules.threshold || (a > 0 && fee != rules.flat))
    && amount > 0
    && !(amount < rules.threshold && fee == rules.flat)
  }

  lemma WorthwhileMonotone(a: int, b: int, c: int, fee: int, rules: FeeRules)
    requires Worthwhile(a, b, fee, rules) && b <= c
    ensures Worthwhile(a, c, fee, rules)
  {}

  ghost predicate NothingLeftFor(a: int, losers: seq<int>, fee: int, rules: FeeRules) {
    forall j :: 0 <= j < |losers| ==> !Worthwhile(a, losers[j], fee, rules)
  }

  function AmountsOf(parties: seq<Party>): seq<int> {
    seq(|parties|, i requires 0 <= i < |parties| => parties[i].amount)
  }

  /** The largest entry of a priority queue; ties are broken arbitrarily. */
  method Peek(queue: seq<int>) returns (b: nat)
    requires queue != []
    ensures b < |queue| && forall j :: 0 <= j < |queue| ==> queue[j] <= queue[b]
  {
    b := 0;
    for i := 0 to |queue|
      invariant b < |queue|
      invariant forall j :: 0 <= j < i ==> queue[j] <= queue[b]
    {
      if queue[i] > queue[b] {
        b := i;
      }
    }
    var ties := set j | 0 <= j < |queue| && queue[j] == queue[b];
    assert b in ties;
    b :| b in ties;
  }

  lemma Extend(start: Book, pairs: seq<Pair>, p: Pair)
    requires Legal(start, pairs) && LegalPair(After(start, pairs), p)
    ensures Legal(start, pairs + [p])
    ensures After(start, pairs + [p]) == Apply(After(start, pairs), p)
  {
    assert (pairs + [p])[..|pairs|] == pairs;
  }

  lemma {:induction false} Compose(start: Book, first: seq<Pair>, second: seq<Pair>)
    requires Legal(start, first) && Legal(After(start, first), second)
    ensures Legal(start, first + second)
    ensures After(start, first + second) == After(After(start, first), second)
  {
    hide Apply, LegalPair;
    if second == [] {
      assert first + second == first;
    } else {
      var n := |second| - 1;
      Compose(start, first, second[..n]);
      Extend(start, first + second[..n], second[n]);
      assert first + second == first + second[..n] + [second[n]];
    }
  }

  /** Every pair was worthwhile when it was made. */
  ghost predicate Chosen(start: Book, pairs: seq<Pair>, fees: seq<int>, rules: FeeRules)
    requires |fees| == |start.winners|
  {
    pairs == [] ||
    var b, p := After(start, pairs[..|pairs| - 1]), pairs[|pairs| - 1];
    && Chosen(start, pairs[..|pairs| - 1], fees, rules)
    && p.a < |fees| && p.b < |b.losers| && Worthwhile(b.winners[p.a], b.losers[p.b], fees[p.a], rules)
  }

  lemma ExtendChosen(start: Book, pairs: seq<Pair>, p: Pair, fees: seq<int>, rules: FeeRules)
    requires |fees| == |start.winners| && Chosen(start, pairs, fees, rules) && p.a < |fees| && p.b < |start.losers|
    requires Worthwhile(After(start, pairs).winners[p.a], After(start, pairs).losers[p.b], fees[p.a], rules)
    ensures Chosen(start, pairs + [p], fees, rules)
  {
    assert (pairs + [p])[..|pairs|] == pairs;
  }

  lemma {:induction false} ComposeChosen(start: Book, first: seq<Pair>, second: seq<Pair>, fees: seq<int>, rules: FeeRules)
    requires |fees| == |start.winners| && Legal(start, first) && Legal(After(start, first), second)
    requires Chosen(start, first, fees, rules) && Chosen(After(start, first), second, fees, rules)
    ensures Chosen(start, first + second, fees, rules)
  {
    hide Apply, LegalPair, Worthwhile;
    if second == [] {
      assert first + second == first;
    } else {
      var n := |second| - 1;
      ComposeChosen(start, first, second[..n], fees, rules);
      Compose(start, first, second[..n]);
      ExtendChosen(start, first + second[..n], second[n], fees, rules);
      assert first + second == first + second[..n] + [second[n]];
    }
  }

  ghost predicate Shrunk(after: seq<int>, before: seq<int>) {
    |after| == |before| && forall j :: 0 <= j < |after| ==> after[j] <= before[j]
  }

  lemma NothingLeftLater(a: int, before: seq<int>, after: seq<int>, fee: int, rules: FeeRules)
    requires NothingLeftFor(a, before, fee, rules) && Shrunk(after, before)
    ensures NothingLeftFor(a, after, fee, rules)
  {
    forall j | 0 <= j < |after| ensures !Worthwhile(a, after[j], fee, rules) {
      if Worthwhile(a, after[j], fee, rules) {
        WorthwhileMonotone(a, after[j], before[j], fee, rules);
      }
    }
  }

  /** The largest loser not being worthwhile means that none is. */
  lemma LargestDecides(a: int, losers: seq<int>, b: nat, fee: int, rules: FeeRules)
    requires b < |losers| && forall j :: 0 <= j < |losers| ==> losers[j] <= losers[b]
    requires !Worthwhile(a, losers[b], fee, rules)
    ensures NothingLeftFor(a, losers, fee, rules)
  {
    forall j | 0 <= j < |losers| ensures !Worthwhile(a, losers[j], fee, rules) {
      if Worthwhile(a, losers[j], fee, rules) {
        WorthwhileMonotone(a, losers[j], losers[b], fee, rules);
      }
    }
  }

  /** Settles one winner until it or its counterparties are no longer interesting. */
  method SettleWinner(book: Book, i: nat, fees: seq<int>, rules: FeeRules) returns (pairs: seq<Pair>, after: Book)
    requires i < |book.winners| == |fees|
    ensures Legal(book, pairs) && after == After(book, pairs)
    ensures Chosen(book, pairs, fees, rules) && forall p :: p in pairs ==> p.a == i
    ensures after.winners == book.winners[i := after.winners[i]]
    ensures NothingLeftFor(after.winners[i], after.losers, fees[i], rules)
    ensures Shrunk(after.losers, book.losers)
  {
    hide Legal, LegalPair, Chosen, After, Apply, Parties;
    var fee := fees[i];
    pairs, after := [], book;
    Nothing(book, fees, rules);
    while after.winners[i] > rules.threshold || (after.winners[i] > 0 && fee != rules.flat)
      invariant Legal(book, pairs) && after == After(book, pairs)
      invariant Chosen(book, pairs, fees, rules) && forall p :: p in pairs ==> p.a == i
      invariant after.winners == book.winners[i := after.winners[i]]
      invariant Shrunk(after.losers, book.losers)
      decreases Parties(after)
    {
      if after.losers == [] {
        return;
      }
      var b := Peek(after.losers);
      var settleable := Min(after.winners[i], after.losers[b]);
      if settleable <= 0 || (settleable < rules.threshold && fee == rules.flat) {
        LargestDecides(after.winners[i], after.losers, b, fee, rules);
        return;
      }
      var p := Pair(i, b, settleable);
      IsLegal(after, p);
      PairExhausts(after, p);
      Extend(book, pairs, p);
      ExtendChosen(book, pairs, p, fees, rules);
      Applied(after, p);
      pairs := pairs + [p];
      after := Apply(after, p);
    }
  }

  lemma Nothing(book: Book, fees: seq<int>, rules: FeeRules)
    requires |fees| == |book.winners|
    ensures Legal(book, []) && After(book, []) == book && Chosen(book, [], fees, rules)
  {}

  lemma IsLegal(b: Book, p: Pair)
    requires p.a < |b.winners| && p.b < |b.losers| && p.amount == Min(b.winners[p.a], b.losers[p.b]) > 0
    requires forall j :: 0 <= j < |b.losers| ==> b.losers[j] <= b.losers[p.b]
    ensures LegalPair(b, p)
  {}

  lemma Applied(b: Book, p: Pair)
    requires p.a < |b.winners| && p.b < |b.losers| && p.amount > 0
    ensures var r := Apply(b, p);
            r.winners == b.winners[p.a := b.winners[p.a] - p.amount] && Shrunk(r.losers, b.losers)
  {}

  ghost predicate DoneWith(book: Book, winners: seq<Party>, n: nat, rules: FeeRules)
    requires n <= |winners| == |book.winners|
  {
    forall i :: 0 <= i < n ==> NothingLeftFor(book.winners[i], book.losers, winners[i].fee, rules)
  }

  function FeesOf(winners: seq<Party>): seq<int> {
    seq(|winners|, i requires 0 <= i < |winners| => winners[i].fee)
  }

  /** Exactly the first `n` winners are settled. */
  ghost predicate AllSettled(pairs: seq<Pair>, n: nat) {
    && (forall p :: p in pairs ==> p.a < n)
    && (forall i: nat :: i < n ==> HasPair(pairs, i))
  }

  ghost predicate HasPair(pairs: seq<Pair>, i: nat) {
    exists p :: p in pairs && p.a == i
  }

  lemma MorePairs(pairs: seq<Pair>, more: seq<Pair>, i: nat)
    requires AllSettled(pairs, i) && more != [] && forall p :: p in more ==> p.a == i
    ensures AllSettled(pairs + more, i + 1)
  {
    assert more[0] in pairs + more;
    forall k: nat | k < i ensures HasPair(pairs + more, k) {
      assert HasPair(pairs, k);
    }
  }

  lemma DoneWithLater(book: Book, next: Book, winners: seq<Party>, i: nat, rules: FeeRules)
    requires i < |winners| == |book.winners| && DoneWith(book, winners, i, rules)
    requires |next.winners| == |book.winners| && next.winners == book.winners[i := next.winners[i]]
    requires Shrunk(next.losers, book.losers)
    requires NothingLeftFor(next.winners[i], next.losers, winners[i].fee, rules)
    ensures DoneWith(next, winners, i + 1, rules)
  {
    forall k | 0 <= k < i
      ensures NothingLeftFor(next.winners[k], next.losers, winners[k].fee, rules)
    {
      NothingLeftLater(book.winners[k], book.losers, next.losers, winners[k].fee, rules);
    }
  }

  /** What the loop over a market's winners does: legal and worthwhile pairs, for exactly the first
      `n` winners, and no worthwhile pair left for them and for the next one, which stopped it. */
  ghost predicate Settles(winners: seq<Party>, losers: seq<Party>, rules: FeeRules, pairs: seq<Pair>, n: nat, after: Book) {
    var start := Book(AmountsOf(winners), AmountsOf(losers));
    && Legal(start, pairs) && after == After(start, pairs) && Chosen(start, pairs, FeesOf(winners), rules)
    && n <= |winners| && AllSettled(pairs, n)
    && DoneWith(after, winners, if n < |winners| then n + 1 else n, rules)
  }

  /** Pairs the winners of one market, in the given order, with its losers, and stops at the first
      winner that could not be settled at all. The settled ones go on cooldown. */
  method MatchMarket(winners: seq<Party>, losers: seq<Party>, rules: FeeRules)
    returns (pairs: seq<Pair>, n: nat, after: Book)
    ensures |after.winners| == |winners| && Settles(winners, losers, rules, pairs, n, after)
  {
    hide Legal, After, Chosen, AllSettled, DoneWith;
    after := Book(AmountsOf(winners), AmountsOf(losers));
    ghost var start, fees := after, FeesOf(winners);
    pairs, n := [], 0;
    Nothing(start, fees, rules);
    NobodyYet(start, winners, rules);
    while n < |winners|
      invariant n <= |winners| == |after.winners|
      invariant Legal(start, pairs) && after == After(start, pairs) && Chosen(start, pairs, fees, rules)
      invariant AllSettled(pairs, n) && DoneWith(after, winners, n, rules)
    {
      var more, next := SettleWinner(after, n, FeesOf(winners), rules);
      Compose(start, pairs, more);
      ComposeChosen(start, pairs, more, fees, rules);
      DoneWithLater(after, next, winners, n, rules);
      after := next;
      if more == [] {
        assert pairs + more == pairs;
        return;
      }
      MorePairs(pairs, more, n);
      pairs := pairs + more;
      n := n + 1;
    }
  }

  lemma NobodyYet(start: Book, winners: seq<Party>, rules: FeeRules)
    requires |winners| == |start.winners|
    ensures AllSettled([], 0) && DoneWith(start, winners, 0, rules)
  {}

  /** A pair that pays for its transaction. */
  predicate Pays(p: Pair, fee: int, rules: FeeRules) {
    p.amount >= rules.threshold || fee != rules.flat
  }

  /** Every pair pays. */
  lemma {:induction false} PairsPay(start: Book, pairs: seq<Pair>, fees: seq<int>, rules: FeeRules, p: Pair)
    requires |fees| == |start.winners| && Legal(start, pairs) && Chosen(start, pairs, fees, rules) && p in pairs
    ensures p.a < |fees| && Pays(p, fees[p.a], rules)
  {
    hide After, Apply;
    if p != pairs[|pairs| - 1] { PairsPay(start, pairs[..|pairs| - 1], fees, rules, p); }
  }

  // ---- Winners that are left out ----

  /** Winners only get smaller, and those without a pair stay as they are. */
  lemma {:induction false} WinnersShrink(start: Book, pairs: seq<Pair>, i: nat)
    requires Legal(start, pairs) && i < |start.winners|
    ensures After(start, pairs).winners[i] <= start.winners[i]
    ensures !HasPair(pairs, i) ==> After(start, pairs).winners[i] == start.winners[i]
    decreases |pairs|
  {
    if pairs != [] {
      var n := |pairs| - 1;
      WinnersShrink(start, pairs[..n], i);
      if HasPair(pairs[..n], i) {
        var p :| p in pairs[..n] && p.a == i;
        assert p in pairs;
      }
      assert pairs[n] in pairs;
    }
  }

  /** A flat-fee winner of at most the threshold never gets a pair. */
  lemma {:induction false} SmallFlatGetsNone(start: Book, pairs: seq<Pair>, fees: seq<int>, rules: FeeRules, i: nat)
    requires |fees| == |start.winners| && Legal(start, pairs) && Chosen(start, pairs, fees, rules)
    requires i < |fees| && fees[i] == rules.flat && start.winners[i] <= rules.threshold
    ensures !HasPair(pairs, i)
    decreases |pairs|
  {
    if pairs != [] {
      var n := |pairs| - 1;
      SmallFlatGetsNone(start, pairs[..n], fees, rules, i);
      WinnersShrink(start, pairs[..n], i);
      forall p | p in pairs ensures p.a != i {
        if p != pairs[n] {
          assert p in pairs[..n];
        }
      }
    }
  }

  /** Only the last winner may have the flat fee, or else every amount reaches the threshold. */
  ghost predicate NoneLeftOut(fees: seq<int>, rules: FeeRules) {
    rules.threshold <= 0 || forall i :: 0 <= i < |fees| - 1 ==> fees[i] != rules.flat
  }

  ghost predicate Positive(parties: seq<Party>) {
    forall i :: 0 <= i < |parties| ==> parties[i].amount > 0
  }

  /** Then no worthwhile pair is left for any winner, whatever the amounts. */
  lemma NothingIsLeft(winners: seq<Party>, losers: seq<Party>, rules: FeeRules, pairs: seq<Pair>, n: nat, after: Book)
    requires Settles(winners, losers, rules, pairs, n, after) && Positive(winners) && NoneLeftOut(FeesOf(winners), rules)
    ensures |after.winners| == |winners| && DoneWith(after, winners, |winners|, rules)
  {
    if n < |winners| - 1 {
      var start := Book(AmountsOf(winners), AmountsOf(losers));
      WinnersShrink(start, pairs, n);
      assert NothingLeftFor(after.winners[n], after.losers, winners[n].fee, rules);
      assert FeesOf(winners)[n] == winners[n].fee;
      forall j | 0 <= j < |after.losers| ensures after.losers[j] <= 0 {
        assert !Worthwhile(after.winners[n], after.losers[j], winners[n].fee, rules);
      }
    }
  }

  /** For all other fees there are amounts with which the loop stops before a worthwhile pair. */
  method LeavesOneOut(fees: seq<int>, rules: FeeRules)
    returns (winners: seq<Party>, losers: seq<Party>, pairs: seq<Pair>, n: nat, after: Book)
    requires !NoneLeftOut(fees, rules)
    ensures FeesOf(winners) == fees && Positive(winners) && Positive(losers)
    ensures |after.winners| == |winners| && Settles(winners, losers, rules, pairs, n, after)
    ensures !DoneWith(after, winners, |winners|, rules)
  {
    hide Settles;
    var i := 0;
    while fees[i] != rules.flat
      invariant 0 <= i < |fees| - 1 && forall j :: 0 <= j < i ==> fees[j] != rules.flat
      decreases |fees| - i
    {
      i := i + 1;
    }
    winners := seq(|fees|, j requires 0 <= j < |fees| => Party(j, if j == i + 1 then rules.threshold + 1 else 1, fees[j]));
    losers := [Party(0, Sum(AmountsOf(winners)) + rules.threshold + 1, 0)];
    SumOfPositive(AmountsOf(winners));
    assert FeesOf(winners) == fees;
    pairs, n, after := MatchMarket(winners, losers, rules);
    LeftOut(winners, losers[0], rules, i, pairs, n, after);
  }

  lemma {:induction false} SumOfPositive(s: seq<int>)
    requires forall i :: 0 <= i < |s| ==> s[i] >= 0
    ensures Sum(s) >= 0
  {
    if s != [] { SumOfPositive(s[..|s| - 1]); }
  }

  lemma LeftOut(winners: seq<Party>, loser: Party, rules: FeeRules, i: nat, pairs: seq<Pair>, n: nat, after: Book)
    requires Settles(winners, [loser], rules, pairs, n, after) && Positive(winners) && |after.winners| == |winners|
    requires i + 1 < |winners| && winners[i].fee == rules.flat && winners[i].amount <= rules.threshold
    requires winners[i + 1].amount == rules.threshold + 1 && loser.amount == Sum(AmountsOf(winners)) + rules.threshold + 1
    ensures !DoneWith(after, winners, |winners|, rules)
  {
    hide Legal, Chosen, After, Sum;
    var start := Book(AmountsOf(winners), AmountsOf([loser]));
    SmallFlatGetsNone(start, pairs, FeesOf(winners), rules, i);
    assert n <= i;
    SumOfPositive(AmountsOf(winners));
    PairsConserve(start, pairs);
    WinnersShrink(start, pairs, i + 1);
    SumOfPositive(after.winners);
    SumOfOne(start.losers);
    SumOfOne(after.losers);
    assert Worthwhile(after.winners[i + 1], after.losers[0], winners[i + 1].fee, rules);
    assert !NothingLeftFor(after.winners[i + 1], after.losers, winners[i + 1].fee, rules);
  }

  lemma SumOfOne(s: seq<int>)
    requires |s| == 1
    ensures Sum(s) == s[0]
  {}

  /** With a threshold of 100 and a flat fee of 5, a winner of 200 with fee 5 gets nothing from a
      loser of 60, and the winner of 80 with fee 3 after it is not tried. */
  lemma StopsAtFirst(pairs: seq<Pair>, n: nat, after: Book)
    requires Settles([Party(1, 200, 5), Party(2, 80, 3)], [Party(3, 60, 0)], FeeRules(100, 5), pairs, n, after)
    ensures n == 0 && pairs == [] && Worthwhile(80, 60, 3, FeeRules(100, 5)) && after == Book([200, 80], [60])
  {
    var winners := [Party(1, 200, 5), Party(2, 80, 3)];
    var start, rules := Book(AmountsOf(winners), AmountsOf([Party(3, 60, 0)])), FeeRules(100, 5);
    if n > 0 {
      assert HasPair(pairs, 0);
      FirstGetsNone(start, pairs, FeesOf(winners), rules);
    }
  }

  lemma {:induction false} FirstGetsNone(start: Book, pairs: seq<Pair>, fees: seq<int>, rules: FeeRules)
    requires |fees| == |start.winners| == 2 && fees[0] == rules.flat == 5 && rules.threshold == 100
    requires Legal(start, pairs) && Chosen(start, pairs, fees, rules) && |start.losers| == 1 && start.losers[0] <= 60
    ensures !HasPair(pairs, 0) && After(start, pairs).losers[0] <= 60
    decreases |pairs|
  {
    if pairs != [] {
      var n := |pairs| - 1;
      FirstGetsNone(start, pairs[..n], fees, rules);
      forall p | p in pairs ensures p.a != 0 {
        if p != pairs[n] {
          assert p in pairs[..n];
        }
      }
    }
  }

  // ---- Collecting the parties ----

  /** One perp position of an account: the pnl after the settle limit, the maximum the account's
      health allows, whether its fee would pay, and the fee. */
  datatype Position = Position(market: Market, limited: int, maxSettle: int, pays: bool, fee: int)

  /** `usable` is false if the account could not be fetched, is in another group, was settled
      recently, or has no health. */
  datatype Account = Account(key: Key, usable: bool, positions: seq<Position>)

  function Settleable(p: Position): int {
    if p.limited >= 0 then p.limited
    else
      var capped := if p.limited < -p.maxSettle then -p.maxSettle else p.limited;
      if capped < 0 then capped else 0
  }

  /** Adds to a priority queue, where a known key only changes its priority. */
  function Push(queue: seq<Party>, key: Key, amount: int): seq<Party> {
    if queue == [] then [Party(key, amount, 0)]
    else
      var last := |queue| - 1;
      if queue[last].key == key then queue[last := Party(key, amount, 0)]
      else Push(queue[..last], key, amount) + [queue[last]]
  }

  /** A position together with the account it belongs to. */
  datatype Holding = Holding(key: Key, position: Position)

  function HoldingsOf(a: Account): seq<Holding> {
    if a.usable then seq(|a.positions|, i requires 0 <= i < |a.positions| => Holding(a.key, a.positions[i])) else []
  }

  function Holdings(accounts: seq<Account>): seq<Holding> {
    if accounts == [] then []
    else Holdings(accounts[..|accounts| - 1]) + HoldingsOf(accounts[|accounts| - 1])
  }

  /** The winners a holding adds to market `m`. */
  function Win(h: Holding, known: set<Market>, m: Market): seq<Party> {
    if h.position.market == m && m in known && Settleable(h.position) > 0 && h.position.pays
    then [Party(h.key, Settleable(h.position), h.position.fee)] else []
  }

  predicate Loses(h: Holding, known: set<Market>, m: Market) {
    h.position.market == m && m in known && Settleable(h.position) < 0
  }

  function Winners(hs: seq<Holding>, known: set<Market>, m: Market): seq<Party> {
    if hs == [] then [] else Winners(hs[..|hs| - 1], known, m) + Win(hs[|hs| - 1], known, m)
  }

  function Losers(hs: seq<Holding>, known: set<Market>, m: Market): seq<Party> {
    if hs == [] then []
    else
      var h := hs[|hs| - 1];
      var before := Losers(hs[..|hs| - 1], known, m);
      if Loses(h, known, m) then Push(before, h.key, -Settleable(h.position)) else before
  }

  function Get(parties: map<Market, seq<Party>>, m: Market): seq<Party> {
    if m in parties then parties[m] else []
  }

  lemma OneMoreHolding(hs: seq<Holding>, h: Holding, known: set<Market>, m: Market)
    ensures Winners(hs + [h], known, m) == Winners(hs, known, m) + Win(h, known, m)
    ensures Losers(hs + [h], known, m)
            == if Loses(h, known, m) then Push(Losers(hs, known, m), h.key, -Settleable(h.position))
               else Losers(hs, known, m)
  {
    assert (hs + [h])[..|hs|] == hs;
  }

  ghost predicate Collected(winners: map<Market, seq<Party>>, losers: map<Market, seq<Party>>, hs: seq<Holding>, known: set<Market>) {
    forall m: Market :: Get(winners, m) == Winners(hs, known, m) && Get(losers, m) == Losers(hs, known, m)
  }

  type PartyMap = map<Market, seq<Party>>

  /** The body of the collection loop, for one position. */
  method CollectPosition(key: Key, p: Position, known: set<Market>, winners0: PartyMap, losers0: PartyMap, ghost hs: seq<Holding>)
    returns (winners: PartyMap, losers: PartyMap)
    requires Collected(winners0, losers0, hs, known)
    ensures Collected(winners, losers, hs + [Holding(key, p)], known)
  {
    hide Push, Winners, Losers;
    winners, losers := winners0, losers0;
    var settleable := Settleable(p);
    if p.market in known {
      if settleable > 0 {
        if p.pays {
          winners := winners[p.market := Get(winners, p.market) + [Party(key, settleable, p.fee)]];
        }
      } else if settleable < 0 {
        losers := losers[p.market := Push(Get(losers, p.market), key, -settleable)];
      }
    }
    forall m: Market
      ensures Get(winners, m) == Winners(hs + [Holding(key, p)], known, m)
      ensures Get(losers, m) == Losers(hs + [Holding(key, p)], known, m)
    {
      OneMoreHolding(hs, Holding(key, p), known, m);
      assert Get(winners0, m) == Winners(hs, known, m);
    }
  }

  method CollectAccount(a: Account, known: set<Market>, winners0: PartyMap, losers0: PartyMap, ghost hs: seq<Holding>)
    returns (winners: PartyMap, losers: PartyMap)
    requires a.usable && Collected(winners0, losers0, hs, known)
    ensures Collected(winners, losers, hs + HoldingsOf(a), known)
  {
    winners, losers := winners0, losers0;
    ghost var own := HoldingsOf(a);
    assert hs + own[..0] == hs;
    for j := 0 to |a.positions|
      invariant Collected(winners, losers, hs + own[..j], known)
    {
      assert hs + own[..j + 1] == hs + own[..j] + [own[j]];
      winners, losers := CollectPosition(a.key, a.positions[j], known, winners, losers, hs + own[..j]);
    }
    assert own[..|a.positions|] == own;
  }

  /** Collects the winners and losers of every market. */
  method Collect(accounts: seq<Account>, known: set<Market>) returns (winners: PartyMap, losers: PartyMap)
    ensures Collected(winners, losers, Holdings(accounts), known)
  {
    winners, losers := map[], map[];
    for i := 0 to |accounts|
      invariant Collected(winners, losers, Holdings(accounts[..i]), known)
    {
      assert accounts[..i + 1][..i] == accounts[..i];
      if accounts[i].usable {
        winners, losers := CollectAccount(accounts[i], known, winners, losers, Holdings(accounts[..i]));
      } else {
        assert Holdings(accounts[..i]) + [] == Holdings(accounts[..i]);
      }
    }
    assert accounts[..|accounts|] == accounts;
  }

  // ---- No account is paired with itself ----

  lemma {:induction false} PushedKeys(queue: seq<Party>, key: Key, amount: int, x: Party)
    requires x in Push(queue, key, amount)
    ensures x in queue || x == Party(key, amount, 0)
  {
    if queue != [] && queue[|queue| - 1].key != key {
      var last := |queue| - 1;
      if x in Push(queue[..last], key, amount) { PushedKeys(queue[..last], key, amount, x); }
    }
  }

  lemma {:induction false} WinnersHold(hs: seq<Holding>, known: set<Market>, m: Market, x: Party)
    requires x in Winners(hs, known, m)
    ensures exists i :: 0 <= i < |hs| && hs[i].key == x.key && hs[i].position.market == m
                        && x.amount == Settleable(hs[i].position) > 0
  {
    var n := |hs| - 1;
    if x in Win(hs[n], known, m) {
      assert hs[n].key == x.key;
    } else {
      WinnersHold(hs[..n], known, m, x);
    }
  }

  lemma {:induction false} LosersHold(hs: seq<Holding>, known: set<Market>, m: Market, x: Party)
    requires x in Losers(hs, known, m)
    ensures exists i :: 0 <= i < |hs| && hs[i].key == x.key && hs[i].position.market == m
                        && 0 < x.amount == -Settleable(hs[i].position)
  {
    var n := |hs| - 1;
    if x in Losers(hs[..n], known, m) {
      LosersHold(hs[..n], known, m, x);
    } else {
      PushedKeys(Losers(hs[..n], known, m), hs[n].key, -Settleable(hs[n].position), x);
      assert hs[n].key == x.key;
    }
  }

  /** No account is listed twice with a position in the same market. */
  ghost predicate Distinct(hs: seq<Holding>) {
    forall i, j :: 0 <= i < j < |hs| ==> hs[i].key != hs[j].key || hs[i].position.market != hs[j].position.market
  }

  /** Then a winner and a loser of a market are different accounts, so that no account is ever
      paired with itself. */
  lemma NeverPairedWithItself(hs: seq<Holding>, known: set<Market>, m: Market, w: Party, l: Party)
    requires Distinct(hs) && w in Winners(hs, known, m) && l in Losers(hs, known, m)
    ensures w.key != l.key
  {
    WinnersHold(hs, known, m, w);
    LosersHold(hs, known, m, l);
  }

  ghost predicate DistinctAccounts(accounts: seq<Account>) {
    && (forall i, j :: 0 <= i < j < |accounts| ==> accounts[i].key != accounts[j].key)
    && (forall i :: 0 <= i < |accounts| ==> DistinctMarkets(accounts[i].positions))
  }

  ghost predicate DistinctMarkets(ps: seq<Position>) {
    forall i, j :: 0 <= i < j < |ps| ==> ps[i].market != ps[j].market
  }

  lemma {:induction false} HoldingsKeys(accounts: seq<Account>, h: Holding)
    requires h in Holdings(accounts)
    ensures exists i :: 0 <= i < |accounts| && accounts[i].key == h.key
  {
    var n := |accounts| - 1;
    if h in HoldingsOf(accounts[n]) {
      assert accounts[n].key == h.key;
    } else {
      HoldingsKeys(accounts[..n], h);
    }
  }

  /** Distinct accounts with one position per market give distinct holdings. */
  lemma {:induction false} HoldingsDistinct(accounts: seq<Account>)
    requires DistinctAccounts(accounts)
    ensures Distinct(Holdings(accounts))
  {
    if accounts != [] {
      var n := |accounts| - 1;
      var before, own := Holdings(accounts[..n]), HoldingsOf(accounts[n]);
      HoldingsDistinct(accounts[..n]);
      forall i, j | 0 <= i < |before| && 0 <= j < |own| ensures before[i].key != own[j].key {
        HoldingsKeys(accounts[..n], before[i]);
      }
      DistinctConcat(before, own);
    }
  }

  lemma DistinctConcat(a: seq<Holding>, b: seq<Holding>)
    requires Distinct(a) && Distinct(b)
    requires forall i, j :: 0 <= i < |a| && 0 <= j < |b| ==> a[i].key != b[j].key
    ensures Distinct(a + b)
  {}
}
