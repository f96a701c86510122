/** Sizing of token conditional swaps: how much of a swap can be executed within net-borrow and
    deposit limits, and the volume of a prepared execution. I80F48 numbers are given by their bit
    patterns, `ONE` standing for 1. */
module TcsSizing {
  import opened Options
  import opened Bits

  const ONE: int := 0x1_0000_0000_0000
  const U64_MAX: nat := 0xffff_ffff_ffff_ffff
  const I64_MAX: int := 0x7fff_ffff_ffff_ffff
  const I64_MIN: int := -0x8000_0000_0000_0000

  // ---- Conversions ----

  function ClampToU64(x: int): nat {
    if x <= 0 then 0 else if x >= U64_MAX * ONE then U64_MAX else x / ONE
  }

  function ClampToI64(x: int): int {
    if x <= I64_MIN * ONE then I64_MIN else if x >= I64_MAX * ONE then I64_MAX else x / ONE
  }

  /** The smallest integral I80F48 not below `x`. */
  function Ceil(x: int): int {
    -(-x / ONE) * ONE
  }

  function Min(a: int, b: int): int {
    if a < b then a else b
  }

  function Max(a: int, b: int): int {
    if a < b then b else a
  }

  /** Both clamps give the representable integer closest to `x` from below, or the range's end. */
  lemma ClampsAreClosest(x: int, n: int)
    ensures 0 <= n <= U64_MAX && n * ONE <= Max(x, 0) ==> n <= ClampToU64(x)
    ensures ClampToU64(x) <= U64_MAX && ClampToU64(x) * ONE <= Max(x, 0)
    ensures I64_MIN <= n <= I64_MAX && n * ONE <= Max(x, I64_MIN * ONE) ==> n <= ClampToI64(x)
    ensures I64_MIN <= ClampToI64(x) <= I64_MAX && ClampToI64(x) * ONE <= Max(x, I64_MIN * ONE)
  {}

  // ---- Limits ----

  /** u64 subtraction, which must not underflow. */
  function Sub(a: nat, b: nat): nat
    requires b <= a
  {
    a - b
  }

  /** New borrows, or new deposits on the other side, if `amount` is sold from `position`. */
  function NewFromSell(amount: nat, position: int): (r: nat)
    ensures r <= amount || amount > U64_MAX
  {
    ClampToU64(Ceil(amount * ONE - Max(position, 0)))
  }

  /** The same if `amount` is bought and first repays a negative position. */
  function NewFromBuy(amount: nat, position: int): (r: nat)
    ensures r <= amount || amount > U64_MAX
  {
    ClampToU64(Ceil(amount * ONE + Min(position, 0)))
  }

  /** What the banks still allow, in native tokens. */
  datatype Allowance = Allowance(borrows: nat, deposits: nat)

  function SellCap(maxSell: nat, position: int, allowed: Allowance): nat
    requires maxSell <= U64_MAX
  {
    var borrows := NewFromSell(maxSell, position);
    var afterBorrows := Sub(maxSell, borrows - Min(borrows, allowed.borrows));
    var deposits := NewFromSell(afterBorrows, position);
    Sub(afterBorrows, deposits - Min(deposits, allowed.deposits))
  }

  function BuyCap(maxBuy: nat, liqorBorrows: nat, position: int, allowed: Allowance): nat
    requires liqorBorrows <= maxBuy <= U64_MAX
  {
    var borrows := NewFromBuy(liqorBorrows, position);
    var afterBorrows := Sub(maxBuy, borrows - Min(borrows, allowed.borrows));
    var liqorAfter := Min(liqorBorrows, afterBorrows);
    var deposits := Min(NewFromBuy(afterBorrows, position), liqorAfter);
    Sub(afterBorrows, deposits - Min(deposits, allowed.deposits))
  }

  ghost predicate SellFits(amount: nat, position: int, allowed: Allowance) {
    NewFromSell(amount, position) <= allowed.borrows && NewFromSell(amount, position) <= allowed.deposits
  }

  ghost predicate BuyFits(amount: nat, position: int, allowed: Allowance) {
    NewFromBuy(amount, position) <= allowed.borrows && NewFromBuy(amount, position) <= allowed.deposits
  }

  /** In whole tokens, selling creates what exceeds the position's floor. */
  lemma SellInTokens(amount: nat, position: int)
    requires amount <= U64_MAX
    ensures NewFromSell(amount, position) == Max(amount - Max(position, 0) / ONE, 0)
  {}

  lemma BuyInTokens(amount: nat, position: int)
    requires amount <= U64_MAX
    ensures NewFromBuy(amount, position) == Max(amount - (-Min(position, 0)) / ONE, 0)
  {}

  /** The sell cap is the largest amount up to the uncapped one that fits both allowances. */
  lemma SellCapIsLargest(maxSell: nat, position: int, allowed: Allowance, other: nat)
    requires maxSell <= U64_MAX
    ensures var cap := SellCap(maxSell, position, allowed);
            && cap <= maxSell
            && SellFits(cap, position, allowed)
            && (cap < other <= maxSell ==> !SellFits(other, position, allowed))
  {
    hide NewFromSell;
    SellInTokens(maxSell, position);
    var borrows := NewFromSell(maxSell, position);
    var afterBorrows := maxSell - (borrows - Min(borrows, allowed.borrows));
    SellInTokens(afterBorrows, position);
    SellInTokens(SellCap(maxSell, position, allowed), position);
    if other <= maxSell {
      SellInTokens(other, position);
    }
  }

  /** So is the buy cap when the liqor borrows everything it buys; else nothing caps the buy. */
  lemma BuyCapIsLargest(maxBuy: nat, position: int, allowed: Allowance, other: nat)
    requires maxBuy <= U64_MAX
    ensures BuyCap(maxBuy, 0, position, allowed) == maxBuy
    ensures var cap := BuyCap(maxBuy, maxBuy, position, allowed);
            && cap <= maxBuy
            && BuyFits(cap, position, allowed)
            && (cap < other <= maxBuy ==> !BuyFits(other, position, allowed))
  {
    hide NewFromBuy;
    BuyInTokens(0, position);
    BuyInTokens(maxBuy, position);
    var borrows := NewFromBuy(maxBuy, position);
    var afterBorrows := maxBuy - (borrows - Min(borrows, allowed.borrows));
    BuyInTokens(afterBorrows, position);
    BuyInTokens(BuyCap(maxBuy, maxBuy, position, allowed), position);
    if other <= maxBuy {
      BuyInTokens(other, position);
    }
  }

  // ---- The result of the sizing ----

  datatype Mode = BorrowBuyToken | SwapSellIntoBuy | SwapCollateralIntoBuy

  /** One side of the swap: the uncapped maximum, the liqee's position, the allowances, and the
      native amount below which an execution is tiny. */
  datatype Side = Side(maximum: nat, position: int, allowed: Allowance, threshold: int)

  predicate LiqorBorrowsBuy(mode: Mode, buyIsCollateral: bool) {
    mode == BorrowBuyToken && !buyIsCollateral
  }

  function MaxLiqeeExecution(mode: Mode, buyIsCollateral: bool, buy: Side, sell: Side): Option<(nat, nat)>
    requires buy.maximum <= U64_MAX && sell.maximum <= U64_MAX
  {
    var liqorBorrows := if LiqorBorrowsBuy(mode, buyIsCollateral) then buy.maximum else 0;
    var maxBuy := BuyCap(buy.maximum, liqorBorrows, buy.position, buy.allowed);
    var maxSell := SellCap(sell.maximum, sell.position, sell.allowed);
    var tinyBuy := maxBuy * ONE < buy.threshold && buy.maximum * ONE > buy.threshold;
    var tinySell := maxSell * ONE < sell.threshold && sell.maximum * ONE > sell.threshold;
    if tinyBuy || tinySell then None else Some((maxBuy, maxSell))
  }

  /** The execution is skipped only because limits, not the order, made it tiny. */
  lemma SkippedOnlyForLimits(mode: Mode, buyIsCollateral: bool, buy: Side, sell: Side)
    requires buy.maximum <= U64_MAX && sell.maximum <= U64_MAX
    requires MaxLiqeeExecution(mode, buyIsCollateral, buy, sell).None?
    ensures || (LiqorBorrowsBuy(mode, buyIsCollateral) && !BuyFits(buy.maximum, buy.position, buy.allowed))
            || !SellFits(sell.maximum, sell.position, sell.allowed)
  {
    BuyCapIsLargest(buy.maximum, buy.position, buy.allowed, buy.maximum);
    SellCapIsLargest(sell.maximum, sell.position, sell.allowed, sell.maximum);
  }

  // ---- The volume of a prepared execution ----

  /** The buy amount of a prepared execution: limited by what the liqor can get, by the quote
      budget at the buy price, and by the liqee. */
  function PreparedBuy(liqorAvailable: int, budget: nat, buyPrice: nat, liqeeMaxBuy: nat): nat
    requires buyPrice > 0
  {
    Min(ClampToU64(Min(liqorAvailable, Div(budget * ONE * ONE, buyPrice))), liqeeMaxBuy)
  }

  /** Its volume in quote units: the smaller of the two legs. */
  function PreparedVolume(maxBuy: nat, buyPrice: nat, maxSell: nat, sellPrice: nat): nat {
    ClampToU64(Min(maxBuy * buyPrice, maxSell * sellPrice))
  }

  /** A prepared execution never exceeds the quote budget, in spite of the roundings. */
  lemma PreparedVolumeWithinBudget(liqorAvailable: int, budget: nat, buyPrice: nat, liqeeMaxBuy: nat, maxSell: nat, sellPrice: nat)
    requires buyPrice > 0
    ensures PreparedVolume(PreparedBuy(liqorAvailable, budget, buyPrice, liqeeMaxBuy), buyPrice, maxSell, sellPrice) <= budget
  {
    hide Div;
    var quotient := Div(budget * ONE * ONE, buyPrice);
    DivBounds(budget * ONE * ONE, buyPrice);
    BoughtWithinBudget(PreparedBuy(liqorAvailable, budget, buyPrice, liqeeMaxBuy), quotient, budget, buyPrice);
  }

  lemma BoughtWithinBudget(b: nat, quotient: nat, budget: nat, price: nat)
    requires b * ONE <= quotient && quotient * price <= budget * ONE * ONE
    ensures b * price <= budget * ONE
  {
    MulMono(b * ONE, quotient, price);
    assert b * ONE * price == b * price * ONE;
  }

  // ---- Allowed tokens ----

  datatype Config = Config(forbidden: set<nat>, onlyAllowed: set<nat>)

  predicate PairIsAllowed(c: Config, buy: nat, sell: nat) {
    && buy !in c.forbidden && sell !in c.forbidden
    && (c.onlyAllowed == {} || buy in c.onlyAllowed || sell in c.onlyAllowed)
  }

  /** The check made for a swap passes the buy token twice. */
  predicate SwapIsAllowed(c: Config, buy: nat, sell: nat) {
    PairIsAllowed(c, buy, buy)
  }

  /** It therefore agrees with the pair check exactly when the sell token does not matter. */
  lemma SellTokenIsIgnored(c: Config, buy: nat, sell: nat)
    ensures SwapIsAllowed(c, buy, sell) == PairIsAllowed(c, buy, sell) <==>
              || buy in c.forbidden
              || (sell !in c.forbidden && (c.onlyAllowed == {} || buy in c.onlyAllowed || sell !in c.onlyAllowed))
              || (sell in c.forbidden && c.onlyAllowed != {} && buy !in c.onlyAllowed)
    ensures SwapIsAllowed(Config({1}, {}), 0, 1) && !PairIsAllowed(Config({1}, {}), 0, 1)
  {}
}
