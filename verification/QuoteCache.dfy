/** `JupiterQuoteCache`: concurrent quote calls for one pair of mints share the lowest price seen,
    so that a call can give up early. Each call is a thread that interleaves with the others at
    every await. */
module QuoteCache {
  import opened Options

  type CallId = nat

  /** A quoted price: in_amount / out_amount as a float, infinite for x / 0 and NaN for 0 / 0. */
  datatype Price = Finite(r: real) | Infinite | NaN

  /** A caller's limit; Unbounded is the largest float. */
  datatype Limit = Bound(r: real) | Unbounded

  datatype Result = Quote(price: Price) | BadPrice(price: Price) | Error

  /** Where a call is: querying while holding the lock, querying without it, holding a quote and
      waiting for the lock, or finished. `early` tells that no query was made, and `seen` counts
      the quotes completed when the call finished. */
  datatype Phase =
    | QueryLocked(limit: Limit)
    | QueryFree(limit: Limit)
    | HaveQuote(limit: Limit, price: Price)
    | Done(limit: Limit, result: Result, early: bool, seen: nat)

  /** `price` is None while it is the largest float. `completed` records every quote that was
      compared with the cached price. */
  datatype State = State(
    price: Option<real>,
    lock: Option<CallId>,
    calls: map<CallId, Phase>,
    completed: seq<Price>)

  datatype Step =
    | Enter(id: CallId, limit: Limit)
    | QueryOk(id: CallId, price: Price)
    | QueryErr(id: CallId)
    | Store(id: CallId)

  /** The float comparison price > limit. */
  predicate Above(p: Price, limit: Limit) {
    p.Infinite? || (p.Finite? && limit.Bound? && p.r > limit.r)
  }

  /** The cached price after comparing it with a quote. */
  function Lower(cached: Option<real>, p: Price): Option<real> {
    if p.Finite? && (cached.None? || p.r < cached.value) then Some(p.r) else cached
  }

  function Judge(p: Price, limit: Limit): Result {
    if Above(p, limit) then BadPrice(p) else Quote(p)
  }

  predicate Enabled(s: State, step: Step) {
    match step
    case Enter(id, _) => id !in s.calls && s.lock.None?
    case QueryOk(id, _) => id in s.calls && (s.calls[id].QueryLocked? || s.calls[id].QueryFree?)
    case QueryErr(id) => id in s.calls && (s.calls[id].QueryLocked? || s.calls[id].QueryFree?)
    case Store(id) => id in s.calls && s.calls[id].HaveQuote? && s.lock.None?
  }

  function Finish(s: State, id: CallId, limit: Limit, p: Price): State {
    s.(price := Lower(s.price, p),
       calls := s.calls[id := Done(limit, Judge(p, limit), false, |s.completed| + 1)],
       completed := s.completed + [p])
  }

  function Next(s: State, step: Step): State
    requires Enabled(s, step)
  {
    match step
    case Enter(id, limit) =>
      if s.price.None? then s.(lock := Some(id), calls := s.calls[id := QueryLocked(limit)])
      else if Above(Finite(s.price.value), limit) then
        s.(calls := s.calls[id := Done(limit, BadPrice(Finite(s.price.value)), true, |s.completed|)])
      else s.(calls := s.calls[id := QueryFree(limit)])
    case QueryOk(id, p) =>
      var limit := s.calls[id].limit;
      if s.calls[id].QueryLocked? then Finish(s, id, limit, p).(lock := None)
      else s.(calls := s.calls[id := HaveQuote(limit, p)])
    case QueryErr(id) =>
      var done := s.(calls := s.calls[id := Done(s.calls[id].limit, Error, false, |s.completed|)]);
      if s.calls[id].QueryLocked? then done.(lock := None) else done
    case Store(id) => Finish(s, id, s.calls[id].limit, s.calls[id].price)
  }

  const Initial: State := State(None, None, map[], [])

  // ---- The invariant ----

  /** The lowest finite price of a sequence. */
  ghost predicate IsLowest(price: Option<real>, quotes: seq<Price>) {
    && (price.None? ==> forall i :: 0 <= i < |quotes| ==> !quotes[i].Finite?)
    && (price.Some? ==>
          && (exists i :: 0 <= i < |quotes| && quotes[i] == Finite(price.value))
          && forall i :: 0 <= i < |quotes| && quotes[i].Finite? ==> price.value <= quotes[i].r)
  }

  /** A finished call was answered correctly. */
  ghost predicate Answered(d: Phase, completed: seq<Price>)
    requires d.Done?
  {
    && d.seen <= |completed|
    && (d.early ==>
          && d.result.BadPrice?
          && d.limit.Bound?
          && forall i :: 0 <= i < d.seen ==> Above(completed[i], d.limit) || completed[i].NaN?)
    && (d.result.BadPrice? ==> Above(d.result.price, d.limit))
    && (d.result.Quote? ==> !Above(d.result.price, d.limit))
    && (d.result.Quote? ==> d.seen > 0 && completed[d.seen - 1] == d.result.price)
  }

  ghost predicate Inv(s: State) {
    && IsLowest(s.price, s.completed)
    && (s.lock.Some? ==> s.price.None? && s.lock.value in s.calls && s.calls[s.lock.value].QueryLocked?)
    && (forall id :: id in s.calls && s.calls[id].QueryLocked? ==> s.lock == Some(id))
    && (forall id :: id in s.calls && (s.calls[id].QueryFree? || s.calls[id].HaveQuote?) ==> s.price.Some?)
    && (forall id :: id in s.calls && s.calls[id].Done? ==> Answered(s.calls[id], s.completed))
  }

  lemma LowerIsLowest(price: Option<real>, quotes: seq<Price>, p: Price)
    requires IsLowest(price, quotes)
    ensures IsLowest(Lower(price, p), quotes + [p])
  {
    var all := quotes + [p];
    var low := Lower(price, p);
    if low.Some? {
      if p == Finite(low.value) {
        assert all[|quotes|] == p;
      } else {
        var i :| 0 <= i < |quotes| && quotes[i] == Finite(price.value);
        assert all[i] == quotes[i];
      }
    }
  }

  lemma AnsweredLater(d: Phase, completed: seq<Price>, p: Price)
    requires d.Done? && Answered(d, completed)
    ensures Answered(d, completed + [p])
  {}

  lemma FinishKeepsInv(s: State, id: CallId, p: Price)
    requires Inv(s) && id in s.calls
    requires s.lock == (if s.calls[id].QueryLocked? then Some(id) else None)
    requires s.calls[id].QueryLocked? || s.calls[id].HaveQuote?
    ensures Inv(Finish(s, id, s.calls[id].limit, p).(lock := None))
  {
    LowerIsLowest(s.price, s.completed, p);
    forall d: Phase | d.Done? && Answered(d, s.completed) ensures Answered(d, s.completed + [p]) {
      AnsweredLater(d, s.completed, p);
    }
  }

  lemma EnterKeepsInv(s: State, id: CallId, limit: Limit)
    requires Inv(s) && Enabled(s, Enter(id, limit))
    ensures Inv(Next(s, Enter(id, limit)))
  {
    if s.price.Some? && Above(Finite(s.price.value), limit) {
      var d := Next(s, Enter(id, limit)).calls[id];
      forall i | 0 <= i < d.seen ensures Above(s.completed[i], limit) || s.completed[i].NaN? {}
      assert Answered(d, s.completed);
    }
  }

  lemma StepKeepsInv(s: State, step: Step)
    requires Inv(s) && Enabled(s, step)
    ensures Inv(Next(s, step))
  {
    match step
    case Enter(id, limit) => EnterKeepsInv(s, id, limit);
    case QueryOk(id, p) => if s.calls[id].QueryLocked? { FinishKeepsInv(s, id, p); }
    case QueryErr(id) =>
    case Store(id) => FinishKeepsInv(s, id, s.calls[id].price);
  }

  // ---- Runs ----

  function After(steps: seq<Step>): Option<State> {
    if steps == [] then Some(Initial)
    else
      var before := After(steps[..|steps| - 1]);
      if before.Some? && Enabled(before.value, steps[|steps| - 1])
      then Some(Next(before.value, steps[|steps| - 1]))
      else None
  }

  /** In every interleaving the cached price is the lowest completed quote, at most one query is
      in flight until a finite one completed, and every finished call was answered correctly. */
  lemma {:induction false} InterleavingsAreSafe(steps: seq<Step>)
    requires After(steps).Some?
    ensures Inv(After(steps).value)
    ensures var s := After(steps).value;
            s.price.None? ==>
              forall i, j :: i in s.calls && j in s.calls && !s.calls[i].Done? && !s.calls[j].Done? ==> i == j
  {
    if steps != [] {
      InterleavingsAreSafe(steps[..|steps| - 1]);
      StepKeepsInv(After(steps[..|steps| - 1]).value, steps[|steps| - 1]);
    }
  }

  /** A returned quote is within the caller's limit if and only if it is a number. */
  lemma QuotesAreWithinLimit(s: State, id: CallId)
    requires Inv(s) && id in s.calls && s.calls[id].Done? && s.calls[id].result.Quote?
    ensures var d := s.calls[id];
            (match d.result.price
             case Finite(r) => d.limit.Unbounded? || r <= d.limit.r
             case _ => false)
            <==> !d.result.price.NaN?
  {
    assert Answered(s.calls[id], s.completed);
  }

  /** The unchecked variant passes the largest float and treats BadPrice as unreachable; it is
      reached exactly by infinite prices, and never early. */
  lemma UncheckedQuote(s: State, id: CallId)
    requires Inv(s) && id in s.calls && s.calls[id].Done? && s.calls[id].limit == Unbounded
    ensures !s.calls[id].early
    ensures s.calls[id].result.BadPrice? ==> s.calls[id].result.price == Infinite
  {
    assert Answered(s.calls[id], s.completed);
  }

  /** The NaN case exists: a quote of 0 for 0 passes any limit. */
  lemma NaNPassesTheLimit(limit: Limit)
    ensures var s := After([Enter(0, limit), QueryOk(0, NaN)]);
            s.Some? && s.value.calls[0].Done? && s.value.calls[0].result == Quote(NaN)
  {
    var steps := [Enter(0, limit), QueryOk(0, NaN)];
    assert steps[..1] == [Enter(0, limit)];
    assert steps[..1][..0] == [];
    assert After(steps[..1]) == Some(Next(Initial, Enter(0, limit)));
  }
}
