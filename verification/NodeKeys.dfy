/** Keys of the order tree as numbers, and how they encode price and time. */
module NodeKeys {
  import opened Bits
  import opened OrderTrees

  const HALF: nat := 64
  const I64_MAX: int := 0x7fff_ffff_ffff_ffff
  const I64_MIN: int := -0x8000_0000_0000_0000

  function Number(bits: seq<bool>): nat {
    if bits == [] then 0 else 2 * Number(bits[..|bits| - 1]) + if bits[|bits| - 1] then 1 else 0
  }

  function ToBits(n: nat, width: nat): (s: seq<bool>)
    ensures |s| == width
  {
    if width == 0 then [] else ToBits(n / 2, width - 1) + [n % 2 == 1]
  }

  lemma {:induction false} NumberOfBits(n: nat, width: nat)
    requires n < Pow2(width)
    ensures Number(ToBits(n, width)) == n
    decreases width
  {
    if width > 0 {
      NumberOfBits(n / 2, width - 1);
      assert ToBits(n, width)[..width - 1] == ToBits(n / 2, width - 1);
    }
  }

  lemma {:induction false} NumberBound(bits: seq<bool>)
    ensures Number(bits) < Pow2(|bits|)
  {
    if bits != [] { NumberBound(bits[..|bits| - 1]); }
  }

  lemma {:induction false} NumberConcat(a: seq<bool>, b: seq<bool>)
    ensures Number(a + b) == Number(a) * Pow2(|b|) + Number(b)
  {
    if b == [] {
      assert a + b == a;
    } else {
      var n := |b| - 1;
      NumberConcat(a, b[..n]);
      assert (a + b)[..|a| + n] == a + b[..n];
      DoubledProduct(Number(a), Pow2(n));
    }
  }

  lemma DoubledProduct(x: nat, p: nat)
    ensures x * (2 * p) == 2 * (x * p)
  {}

  lemma FirstDifference(p: nat, w: nat, x: nat, y: nat)
    requires x < w
    ensures (2 * p) * w + x < (2 * p + 1) * w + y
  {
    assert (2 * p + 1) * w == (2 * p) * w + w;
  }

  lemma NumberPush(bits: seq<bool>, b: bool)
    ensures Number(bits + [b]) == 2 * Number(bits) + if b then 1 else 0
  {
    assert (bits + [b])[..|bits|] == bits;
  }

  /** The number of a key with its bit `n` made explicit. */
  lemma NumberAt(a: Key, n: nat)
    requires n < KEY_BITS
    ensures Number(a) == (2 * Number(a[..n]) + if a[n] then 1 else 0) * Pow2(KEY_BITS - n - 1) + Number(a[n + 1..])
    ensures Number(a[n + 1..]) < Pow2(KEY_BITS - n - 1)
  {
    hide Pow2, Number;
    var head, tail := a[..n + 1], a[n + 1..];
    assert a == head + tail;
    NumberConcat(head, tail);
    NumberBound(tail);
    assert head == a[..n] + [a[n]];
    NumberPush(a[..n], a[n]);
  }

  lemma SmallerAt(a: Key, b: Key, n: nat)
    requires n < KEY_BITS && Agree(a, b, n) && !a[n] && b[n]
    ensures Number(a) < Number(b)
  {
    hide Number, Pow2;
    NumberAt(a, n);
    NumberAt(b, n);
    assert a[..n] == b[..n];
    FirstDifference(Number(a[..n]), Pow2(KEY_BITS - n - 1), Number(a[n + 1..]), Number(b[n + 1..]));
  }

  /** The order of the tree is the order of the numbers. */
  lemma LessIsNumber(a: Key, b: Key)
    ensures Less(a, b) <==> Number(a) < Number(b)
  {
    hide Number;
    var n := Shared(a, b);
    SharedAll(a, b);
    if n < KEY_BITS {
      if b[n] { SmallerAt(a, b, n); } else { SmallerAt(b, a, n); }
    }
  }

  // ---- Price and time ----

  function PriceData(k: Key): nat {
    Number(k[..HALF])
  }

  function OrderData(k: Key): nat {
    Number(k[HALF..])
  }

  lemma KeyParts(k: Key)
    ensures Number(k) == PriceData(k) * Pow2(HALF) + OrderData(k)
    ensures OrderData(k) < Pow2(HALF) && PriceData(k) < Pow2(HALF)
  {
    hide Pow2, Number;
    assert k == k[..HALF] + k[HALF..];
    NumberConcat(k[..HALF], k[HALF..]);
    NumberBound(k[HALF..]);
    NumberBound(k[..HALF]);
  }

  /** Comparing p * w + x is comparing first p, then x. */
  lemma Lexicographic(w: nat, p: nat, x: nat, q: nat, y: nat)
    requires x < w && y < w
    ensures p * w + x < q * w + y <==> p < q || (p == q && x < y)
  {
    if p < q { MulMono(p + 1, q, w); } else if q < p { MulMono(q + 1, p, w); }
  }

  function Complement(n: nat): int {
    Pow2(HALF) - 1 - n
  }

  /** The ordering number is complemented for bids, which are visited from the highest key down. */
  function NewNodeKey(bid: bool, priceData: nat, seqNum: nat): Key
    requires priceData < Pow2(HALF) && seqNum < Pow2(HALF)
  {
    ToBits(priceData, HALF) + ToBits(if bid then Complement(seqNum) else seqNum, HALF)
  }

  lemma NewNodeKeyData(bid: bool, priceData: nat, seqNum: nat)
    requires priceData < Pow2(HALF) && seqNum < Pow2(HALF)
    ensures PriceData(NewNodeKey(bid, priceData, seqNum)) == priceData
    ensures OrderData(NewNodeKey(bid, priceData, seqNum)) == if bid then Complement(seqNum) else seqNum
  {
    hide Pow2, Number, ToBits;
    var k, low := NewNodeKey(bid, priceData, seqNum), if bid then Complement(seqNum) else seqNum;
    assert k[..HALF] == ToBits(priceData, HALF) && k[HALF..] == ToBits(low, HALF);
    NumberOfBits(priceData, HALF);
    NumberOfBits(low, HALF);
  }

  predicate Better(bid: bool, a: int, b: int) {
    if bid then a > b else a < b
  }

  /** Price-time priority: iteration visits the better price first, and the earlier order first
      among equal prices. */
  lemma PriceTimePriority(bid: bool, p: nat, s: nat, q: nat, t: nat)
    requires p < Pow2(HALF) && s < Pow2(HALF) && q < Pow2(HALF) && t < Pow2(HALF)
    ensures var k, l := NewNodeKey(bid, p, s), NewNodeKey(bid, q, t);
            (if bid then Less(l, k) else Less(k, l)) <==> Better(bid, p, q) || (p == q && s < t)
  {
    hide Pow2, Number, NewNodeKey, Less;
    var k, l := NewNodeKey(bid, p, s), NewNodeKey(bid, q, t);
    NewNodeKeyData(bid, p, s);
    NewNodeKeyData(bid, q, t);
    KeyParts(k);
    KeyParts(l);
    LessIsNumber(k, l);
    LessIsNumber(l, k);
    Lexicographic(Pow2(HALF), p, OrderData(k), q, OrderData(l));
    Lexicographic(Pow2(HALF), q, OrderData(l), p, OrderData(k));
  }

  /** Price data of an oracle-pegged order, and back: i64 offsets are shifted to start at 0. */
  function PeggedPriceData(offset: int): nat
    requires I64_MIN <= offset <= I64_MAX
  {
    offset - I64_MIN
  }

  function PeggedOffset(priceData: nat): int {
    priceData + I64_MIN
  }
}
