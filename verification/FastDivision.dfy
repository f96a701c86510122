/** `checked_div_30bit_precision`: divides two I80F48 numbers through one 64-bit division. Numbers
    are given by their bit patterns, an I80F48 `x` standing for x / 2^48. */
module FastDivision {
  import opened Options
  import opened Bits

  /** Panic stands for the overflow check that negating the smallest i128 trips. */
  datatype Outcome = Panic | Overflow | Bits(bits: int)

  // widths of the words and of the I80F48 fraction
  const U128: nat := 128
  const I128: nat := 127
  const U64: nat := 64
  const U32: nat := 32
  const FRAC: nat := 48

  function MinI128(): int {
    0 - Pow2(I128)
  }

  predicate IsI128(x: int) {
    MinI128() <= x < Pow2(I128)
  }

  /** The cast of a u128 to an i128. */
  function AsI128(x: nat): int {
    if x < Pow2(I128) then x else x - Pow2(U128)
  }

  function Abs(x: int): nat {
    if x < 0 then -x else x
  }

  function LeadingZeros(x: nat, width: nat): nat
    requires x < Pow2(width)
  {
    BitLenAtMost(x, width);
    width - BitLen(x)
  }

  /** u128 shifts; a distance of 128 or more would panic. */
  function Shl128(x: nat, s: nat): nat
    requires s < U128
  {
    Mod(x * Pow2(s), Pow2(U128))
  }

  function Shr128(x: nat, s: nat): nat
    requires s < U128
  {
    Div(x, Pow2(s))
  }

  function AsU64(x: nat): nat {
    Mod(x, Pow2(U64))
  }

  /** The top 64 bits of a dividend: shifted left when `left`, else right, by `dist`. */
  datatype Top = Top(left: bool, dist: nat, value: nat) {
    function Shift(): int {
      if left then dist else 0 - dist
    }
  }

  function TopDividend(an: nat): Top
    requires an < Pow2(I128)
  {
    Pow2Mono(I128, U128);
    var zeros := LeadingZeros(an, U128);
    if zeros >= 64 then Top(true, zeros - 64, AsU64(Shl128(an, zeros - 64)))
    else Top(false, 64 - zeros, AsU64(Shr128(an, 64 - zeros)))
  }

  /** The top 32 bits of a divisor, which is never shifted left. */
  function TopDivisor(bn: nat): Top
    requires bn < Pow2(I128)
  {
    Pow2Mono(I128, U128);
    var zeros := LeadingZeros(bn, U128);
    BitLenAtMost(bn, I128);
    if zeros >= 96 then Top(false, 0, AsU64(bn))
    else Top(false, 96 - zeros, AsU64(Shr128(bn, 96 - zeros)))
  }

  /** Moving a number to exactly `to` bits by a left shift. */
  lemma LeftAligned(x: nat, to: nat)
    requires x > 0 && BitLen(x) <= to
    ensures Pow2(to - 1) <= x * Pow2(to - BitLen(x)) < Pow2(to)
  {
    hide Pow2, BitLen, Div, Mod;
    var len, s := BitLen(x), to - BitLen(x);
    BitLenBounds(x);
    Pow2Add(len, s);
    Pow2Add(len - 1, s);
    MulMono(Pow2(len - 1), x, Pow2(s));
    MulCancel(Pow2(len), x, Pow2(s));
  }

  /** Moving a number to exactly `to` bits by a right shift. */
  lemma RightAligned(x: nat, to: nat)
    requires 0 < to <= BitLen(x)
    ensures Pow2(to - 1) <= Div(x, Pow2(BitLen(x) - to)) < Pow2(to)
  {
    hide Pow2, BitLen, Div, Mod;
    var s := BitLen(x) - to;
    BitLenBounds(x);
    Pow2Add(to, s);
    Pow2Add(to - 1, s);
    DivAtLeast(x, Pow2(s), Pow2(to - 1));
    DivAtLeast(x, Pow2(s), Pow2(to));
  }

  lemma Fits64(v: nat)
    requires v < Pow2(U64)
    ensures AsU64(v) == v
  {
    hide Pow2, Mod;
    ModSmall(v, Pow2(U64));
  }

  lemma Fits128(v: nat)
    requires v < Pow2(U64)
    ensures Mod(v, Pow2(U128)) == v
  {
    hide Pow2, Mod;
    Pow2Mono(U64, U128);
    ModSmall(v, Pow2(U128));
  }

  lemma TopDividendShort(an: nat, len: nat, v: nat)
    requires 0 < an < Pow2(I128) && len == BitLen(an) <= U64 && v == an * Pow2(64 - len)
    ensures TopDividend(an) == Top(true, 64 - len, v)
  {
    hide Pow2, BitLen, Div, Mod;
    LeftAligned(an, U64);
    Fits128(v);
    Fits64(v);
  }

  lemma TopDividendLong(an: nat, len: nat, v: nat)
    requires an < Pow2(I128) && len == BitLen(an) > U64 && v == Div(an, Pow2(len - 64))
    ensures TopDividend(an) == Top(false, len - 64, v) && len <= I128
  {
    hide Pow2, BitLen, Div, Mod;
    BitLenAtMost(an, I128);
    RightAligned(an, U64);
    Fits64(v);
  }

  ghost predicate DividendTop(an: nat, t: Top) {
    && t.dist <= 64
    && (an == 0 ==> t == Top(true, 64, 0))
    && (if t.left then t.value == an * Pow2(t.dist) else t.value == Div(an, Pow2(t.dist)))
    && (!t.left ==> 0 < t.dist <= 63)
    && t.value < Pow2(U64)
    && (an > 0 ==> Pow2(U64 - 1) <= t.value)
  }

  lemma TopDividendExact(an: nat)
    requires an < Pow2(I128)
    ensures DividendTop(an, TopDividend(an))
  {
    hide Pow2, BitLen, Div, Mod;
    var len := BitLen(an);
    if an > 0 && len <= U64 {
      TopDividendShort(an, len, an * Pow2(64 - len));
      LeftAligned(an, U64);
    } else if an > 0 {
      TopDividendLong(an, len, Div(an, Pow2(len - 64)));
      RightAligned(an, U64);
    } else {
      TopDividendZero();
    }
  }

  lemma TopDividendZero()
    ensures TopDividend(0) == Top(true, 64, 0)
  {
    assert Shl128(0, 64) == 0;
  }

  ghost predicate DivisorTop(bn: nat, t: Top) {
    && !t.left && t.dist <= 95
    && t.value == Div(bn, Pow2(t.dist))
    && 0 < t.value < Pow2(U32)
    && (t.dist > 0 ==> Pow2(U32 - 1) <= t.value)
  }

  lemma TopDivisorShort(bn: nat)
    requires BitLen(bn) <= U32 && bn < Pow2(I128)
    ensures TopDivisor(bn) == Top(false, 0, bn) && bn < Pow2(U32)
  {
    hide Pow2, BitLen, Div, Mod;
    BitLenAtMost(bn, U32);
    Pow2Mono(U32, U64);
    Fits64(bn);
  }

  lemma TopDivisorLong(bn: nat, len: nat, v: nat)
    requires bn < Pow2(I128) && len == BitLen(bn) > U32 && v == Div(bn, Pow2(len - 32))
    ensures TopDivisor(bn) == Top(false, len - 32, v) && len <= I128
  {
    hide Pow2, BitLen, Div, Mod;
    BitLenAtMost(bn, I128);
    RightAligned(bn, U32);
    Pow2Mono(U32, U64);
    Fits64(v);
  }

  lemma TopDivisorExact(bn: nat)
    requires 0 < bn < Pow2(I128)
    ensures DivisorTop(bn, TopDivisor(bn))
  {
    hide Pow2, BitLen, Div, Mod;
    var len := BitLen(bn);
    if len <= U32 {
      TopDivisorShort(bn);
      Pow2Zero();
      DivByOne(bn);
    } else {
      TopDivisorLong(bn, len, Div(bn, Pow2(len - 32)));
      RightAligned(bn, U32);
    }
  }

  /** Shifts a 64-bit quotient back by `s`, None if it would not fit 127 bits. */
  function ShiftBack(rr: nat, s: int): Option<nat>
    requires rr < Pow2(U64) && -111 <= s <= 111
  {
    var rrZeros := LeadingZeros(rr, U64);
    if 63 + rrZeros < s then None
    else if s >= 0 then Some(Shl128(rr, s))
    else Some(Shr128(rr, -s))
  }

  /** The 64-bit division. */
  function Ratio(a: Top, b: Top): (rr: nat)
    requires ValidTops(a, b)
    ensures rr * b.value <= a.value < (rr + 1) * b.value
    ensures rr < Pow2(U64)
  {
    DivBounds(a.value, b.value);
    Div(a.value, b.value)
  }

  /** The unsigned result for two tops. */
  function Quotient(a: Top, b: Top): Option<nat>
    requires ValidTops(a, b)
  {
    ShiftBack(Ratio(a, b), 48 + b.Shift() - a.Shift())
  }

  predicate ValidTops(a: Top, b: Top) {
    && 0 < b.value && !b.left && b.dist <= 95
    && a.value < Pow2(U64) && a.dist <= 64 && (!a.left ==> a.dist <= 63)
  }

  /** The division of the two magnitudes. */
  function UnsignedDiv(an: nat, bn: nat): Option<nat>
    requires an < Pow2(I128) && 0 < bn < Pow2(I128)
  {
    TopDividendExact(an);
    TopDivisorExact(bn);
    Quotient(TopDividend(an), TopDivisor(bn))
  }

  /** The function of the source; Overflow is its None. The last cast reinterprets a u128 as an
      i128. */
  function CheckedDiv30(a: int, b: int): Outcome
    requires IsI128(a) && IsI128(b)
  {
    if b == 0 then Overflow
    else if a == MinI128() || b == MinI128() then Panic
    else
      var r := UnsignedDiv(Abs(a), Abs(b));
      if r.None? then Overflow
      else Bits(if (a < 0) != (b < 0) then -AsI128(r.value) else AsI128(r.value))
  }

  // ---- Error bound ----

  lemma UpperStepExact(ar: nat, br: nat, rr: nat, k: nat)
    requires rr * br <= ar
    ensures k * rr * br <= (k + 1) * ar
  {
    MulMono(rr * br, ar, k);
    assert k * rr * br == k * (rr * br);
  }

  lemma UpperStepTruncated(ar: nat, br: nat, bn: nat, rr: nat, pb: nat, k: nat)
    requires rr * br <= ar && bn <= (br + 1) * pb && k <= br
    ensures k * rr * bn <= (k + 1) * ar * pb
  {
    MulMono(k, br, rr);
    MulMono(rr * br, ar, k);
    calc {
      k * rr * bn;
    <= { MulMono(bn, (br + 1) * pb, k * rr); }
      k * rr * ((br + 1) * pb);
    ==
      (k * (rr * br) + k * rr) * pb;
    <= { MulMono(k * (rr * br) + k * rr, k * ar + ar, pb); }
      (k * ar + ar) * pb;
    ==
      (k + 1) * ar * pb;
    }
  }

  lemma UpperStep(ar: nat, br: nat, bn: nat, rr: nat, pb: nat, k: nat)
    requires rr * br <= ar && bn <= (br + 1) * pb
    requires k <= br || (pb == 1 && bn == br)
    ensures k * rr * bn <= (k + 1) * ar * pb
  {
    if k <= br {
      UpperStepTruncated(ar, br, bn, rr, pb, k);
    } else {
      UpperStepExact(ar, br, rr, k);
    }
  }

  lemma LowerStep(ar: nat, br: nat, rr: nat, k: nat)
    requires k > 0 && 2 * k * k <= ar && br < 2 * k
    requires ar < (rr + 1) * br
    ensures (k - 1) * (ar + 1) <= k * rr * br
  {
    assert rr * br >= ar - 2 * k + 2;
    MulMono(ar - 2 * k + 2, rr * br, k);
    assert k * rr * br == k * (rr * br);
  }

  lemma Shuffle(x: nat, a: nat, b: nat, c: nat, d: nat)
    ensures x * a * b * (c * d) == x * b * c * (a * d)
    ensures x * (a * c) * (b * d) == x * b * c * (a * d)
  {
    assert x * a * b * (c * d) == x * b * c * (a * d);
  }

  lemma UpperChain(an: nat, bn: nat, ar: nat, rr: nat, pa: nat, pt: nat, pb: nat, f: nat, k: nat)
    requires k * rr * bn <= (k + 1) * ar * pb
    requires ar * pt <= an * pa
    ensures k * rr * bn * (f * pt) <= (k + 1) * (an * f) * (pb * pa)
  {
    var c := (k + 1) * pb * f;
    calc {
      k * rr * bn * (f * pt);
    <= { MulMono(k * rr * bn, (k + 1) * ar * pb, f * pt); }
      (k + 1) * ar * pb * (f * pt);
    == { Shuffle(k + 1, ar, pb, f, pt); }
      c * (ar * pt);
    <= { MulMono(ar * pt, an * pa, c); }
      c * (an * pa);
    == { Shuffle(k + 1, an, pb, f, pa); }
      (k + 1) * (an * f) * (pb * pa);
    }
  }

  lemma LowerChain(an: nat, bn: nat, ar: nat, br: nat, rr: nat, pa: nat, pt: nat, pb: nat, f: nat, k: nat)
    requires an * pa <= (ar + 1) * pt
    requires br * pb <= bn
    requires k > 0 && (k - 1) * (ar + 1) <= k * rr * br
    ensures (k - 1) * (an * f) * (pb * pa) <= k * rr * bn * (f * pt)
  {
    var d := (k - 1) * pb * f;
    calc {
      (k - 1) * (an * f) * (pb * pa);
    == { Shuffle(k - 1, an, pb, f, pa); }
      d * (an * pa);
    <= { MulMono(an * pa, (ar + 1) * pt, d); }
      d * ((ar + 1) * pt);
    == { Shuffle(k - 1, ar + 1, pb, f, pt); }
      (k - 1) * (ar + 1) * pb * (f * pt);
    <= { MulMono((k - 1) * (ar + 1), k * rr * br, pb);
         MulMono((k - 1) * (ar + 1) * pb, k * rr * br * pb, f * pt); }
      k * rr * br * pb * (f * pt);
    == { assert k * rr * br * pb == k * rr * (br * pb); }
      k * rr * (br * pb) * (f * pt);
    <= { MulMono(br * pb, bn, k * rr); MulMono(k * rr * (br * pb), k * rr * bn, f * pt); }
      k * rr * bn * (f * pt);
    }
  }

  /** From the truncated operands to the exact quotient q = an * f / bn: the value before the last
      shift, rr * f * pt / (pb * pa), is at most q + q / k. */
  lemma QuotientUpper(an: nat, bn: nat, ar: nat, br: nat, rr: nat, pa: nat, pt: nat, pb: nat, f: nat, k: nat)
    requires ar * pt <= an * pa && bn <= (br + 1) * pb && rr * br <= ar
    requires k <= br || (pb == 1 && bn == br)
    ensures k * rr * bn * (f * pt) <= (k + 1) * (an * f) * (pb * pa)
  {
    UpperStep(ar, br, bn, rr, pb, k);
    UpperChain(an, bn, ar, rr, pa, pt, pb, f, k);
  }

  /** The same value is at least q - q / k. */
  lemma QuotientLower(an: nat, bn: nat, ar: nat, br: nat, rr: nat, pa: nat, pt: nat, pb: nat, f: nat, k: nat)
    requires an * pa <= (ar + 1) * pt && br * pb <= bn && ar < (rr + 1) * br
    requires k > 0 && br < 2 * k && (an == 0 || 2 * k * k <= ar)
    ensures (k - 1) * (an * f) * (pb * pa) <= k * rr * bn * (f * pt)
  {
    if an > 0 {
      LowerStep(ar, br, rr, k);
      LowerChain(an, bn, ar, br, rr, pa, pt, pb, f, k);
    } else {
      ZeroProduct(k - 1, f, pb * pa);
    }
  }

  lemma ZeroProduct(a: nat, b: nat, c: nat)
    ensures a * (0 * b) * c == 0
  {}

  lemma DivideThenScale(rr: nat, r: nat, d: nat, p: nat)
    requires p > 0 && r * d <= rr < (r + 1) * d
    ensures r * (d * p) <= rr * p < (r + 1) * (d * p)
  {
    MulMono(r * d, rr, p);
    MulCancel((r + 1) * d, rr, p);
    assert r * (d * p) == r * d * p;
    assert (r + 1) * (d * p) == (r + 1) * d * p;
  }

  lemma MultiplyThenScale(rr: nat, d: nat, p: nat)
    requires p > 0
    ensures rr * d * p == rr * (d * p) < (rr * d + 1) * p
  {
    assert rr * d * p == rr * (d * p);
    MulCancel(rr * d + 1, rr * d, p);
  }

  /** r is rr * 2^m / 2^n, rounded down. */
  lemma LastShift(rr: nat, m: nat, n: nat, r: nat)
    requires r == if m >= n then rr * Pow2(m - n) else Div(rr, Pow2(n - m))
    ensures r * Pow2(n) <= rr * Pow2(m) < (r + 1) * Pow2(n)
  {
    hide Pow2, BitLen, Div, Mod;
    if m >= n {
      Pow2Add(m - n, n);
      MultiplyThenScale(rr, Pow2(m - n), Pow2(n));
    } else {
      Pow2Add(n - m, m);
      DivBounds(rr, Pow2(n - m));
      DivideThenScale(rr, r, Pow2(n - m), Pow2(m));
    }
  }

  lemma ShlFits(x: nat, s: nat)
    requires s <= I128 && x < Pow2(I128 - s)
    ensures Shl128(x, s) == x * Pow2(s) < Pow2(I128)
  {
    hide Pow2, BitLen, Div, Mod;
    Pow2Add(I128 - s, s);
    MulCancel(Pow2(I128 - s), x, Pow2(s));
    Pow2Mono(I128, U128);
    ModSmall(x * Pow2(s), Pow2(U128));
  }

  /** None exactly when the shifted quotient would reach 2^127; otherwise no bit is lost. */
  lemma ShiftBackExact(rr: nat, s: int)
    requires rr < Pow2(U64) && -111 <= s <= 111
    ensures var r := ShiftBack(rr, s);
            && (r.None? <==> Pow2(I128 - s) <= rr)
            && (r.Some? ==> r.value == if s >= 0 then rr * Pow2(s) else Div(rr, Pow2(-s)))
            && (r.Some? ==> r.value < Pow2(I128))
  {
    hide Pow2, BitLen, Div, Mod;
    BitLenAtMost(rr, I128 - s);
    BitLenAtMost(rr, U64);
    if s < 0 {
      Pow2Mono(U64, I128);
    } else if rr < Pow2(I128 - s) {
      ShlFits(rr, s);
    }
  }

  lemma CancelUpper(c: nat, r: nat, v: nat, q: nat, x: nat)
    requires x > 0 && r * x <= v && c * v <= q * x
    ensures c * r <= q
  {
    MulMono(r * x, v, c);
    assert c * (r * x) == c * r * x;
    MulCancel(c * r, q, x);
  }

  lemma CancelLower(c: nat, r: nat, v: nat, q: nat, x: nat)
    requires x > 0 && c > 0 && v < r * x && q * x <= c * v
    ensures q < c * r
  {
    MulCancel(r * x, v, c);
    assert c * (r * x) == c * r * x;
    MulCancel(c * r, q, x);
  }

  const THIRTY_ONE: nat := 31

  /** 2^31 as the relative precision: |v - q| <= q / K. */
  function K(): nat {
    Pow2(THIRTY_ONE)
  }

  /** The operands' truncations, with the scales they were shifted by. */
  ghost predicate TruncatedDividend(an: nat, ar: nat, pa: nat, pt: nat) {
    ar * pt <= an * pa <= (ar + 1) * pt && (an == 0 || 2 * K() * K() <= ar)
  }

  ghost predicate TruncatedDivisor(bn: nat, br: nat, pb: nat) {
    && br * pb <= bn <= (br + 1) * pb
    && (K() <= br || (pb == 1 && bn == br))
    && 0 < br < 2 * K()
  }

  lemma DividendTruncates(an: nat, t: Top)
    requires DividendTop(an, t)
    ensures TruncatedDividend(an, t.value, LeftScale(t), RightScale(t))
  {
    hide Pow2, Div;
    assert Pow2(U64 - 1) == 2 * K() * K() by {
      Pow2Add(U32, THIRTY_ONE);
      Pow2Step(THIRTY_ONE);
    }
    Pow2Zero();
    if !t.left {
      DivBounds(an, Pow2(t.dist));
    }
  }

  lemma DivisorTruncates(bn: nat, u: Top)
    requires DivisorTop(bn, u)
    ensures TruncatedDivisor(bn, u.value, Pow2(u.dist))
  {
    hide Pow2, Div;
    Pow2Step(THIRTY_ONE);
    DivBounds(bn, Pow2(u.dist));
    if u.dist == 0 {
      Pow2Zero();
      DivByOne(bn);
    }
  }

  function LeftScale(t: Top): nat {
    Pow2(if t.left then t.dist else 0)
  }

  function RightScale(t: Top): nat {
    Pow2(if t.left then 0 else t.dist)
  }

  /** What the two operands, the quotient and the last shift amount to. */
  lemma ScaledQuotient(an: nat, bn: nat, ar: nat, br: nat, rr: nat, pa: nat, pt: nat, pb: nat, f: nat, r: nat)
    requires TruncatedDividend(an, ar, pa, pt) && TruncatedDivisor(bn, br, pb)
    requires rr * br <= ar < (rr + 1) * br
    requires r * (pb * pa) <= rr * (f * pt) < (r + 1) * (pb * pa)
    requires pa > 0 && pb > 0 && bn > 0
    ensures K() * bn * r <= (K() + 1) * (an * f)
    ensures (K() - 1) * (an * f) < K() * bn * (r + 1)
  {
    hide Pow2;
    var k, x := K(), pb * pa;
    assert x > 0 by { MulMono(1, pb, pa); }
    assert k * bn * r <= (k + 1) * (an * f) by {
      QuotientUpper(an, bn, ar, br, rr, pa, pt, pb, f, k);
      ScaledUpper(k, rr, bn, f * pt, x, (k + 1) * (an * f), r);
    }
    assert (k - 1) * (an * f) < k * bn * (r + 1) by {
      QuotientLower(an, bn, ar, br, rr, pa, pt, pb, f, k);
      ScaledLower(k, rr, bn, f * pt, x, (k - 1) * (an * f), r + 1);
    }
  }

  lemma ScaledUpper(k: nat, rr: nat, bn: nat, g: nat, x: nat, q: nat, r: nat)
    requires k * rr * bn * g <= q * x && r * x <= rr * g && x > 0
    ensures k * bn * r <= q
  {
    Regroup(k, rr, bn, g);
    CancelUpper(k * bn, r, rr * g, q, x);
  }

  lemma ScaledLower(k: nat, rr: nat, bn: nat, g: nat, x: nat, q: nat, r: nat)
    requires q * x <= k * rr * bn * g && rr * g < r * x && x > 0 && k > 0 && bn > 0
    ensures q < k * bn * r
  {
    Regroup(k, rr, bn, g);
    MulMono(1, bn, k);
    CancelLower(k * bn, r, rr * g, q, x);
  }

  lemma Regroup(a: nat, b: nat, c: nat, d: nat)
    ensures a * b * c * d == a * c * (b * d)
  {}

  /** The last shift, with the scales of the operands. */
  lemma ShiftBackScaled(t: Top, u: Top, rr: nat, r: nat)
    requires ValidTops(t, u) && rr < Pow2(U64)
    requires ShiftBack(rr, 48 + u.Shift() - t.Shift()) == Some(r)
    ensures r * (Pow2(u.dist) * LeftScale(t)) <= rr * (Pow2(FRAC) * RightScale(t))
            < (r + 1) * (Pow2(u.dist) * LeftScale(t))
    ensures r < Pow2(I128)
  {
    hide Pow2, BitLen, Div, Mod;
    var al: nat, at: nat := if t.left then t.dist else 0, if t.left then 0 else t.dist;
    ShiftBackExact(rr, 48 + u.Shift() - t.Shift());
    LastShift(rr, FRAC + at, u.dist + al, r);
    Pow2Add(FRAC, at);
    Pow2Add(u.dist, al);
  }

  /** r and the exact quotient q = an * 2^48 / bn satisfy q (1 - 1/K) - 1 < r <= q (1 + 1/K),
      multiplied out. */
  ghost predicate Within(an: nat, bn: nat, r: nat) {
    && K() * bn * r <= (K() + 1) * (an * Pow2(FRAC))
    && (K() - 1) * (an * Pow2(FRAC)) < K() * bn * (r + 1)
  }

  lemma QuotientIsWithin(an: nat, bn: nat, t: Top, u: Top, r: nat)
    requires DividendTop(an, t) && DivisorTop(bn, u) && bn > 0
    requires Quotient(t, u) == Some(r)
    ensures Within(an, bn, r) && r < Pow2(I128)
  {
    hide Pow2, BitLen, Div, Mod;
    var rr := Ratio(t, u);
    ShiftBackScaled(t, u, rr, r);
    DividendTruncates(an, t);
    DivisorTruncates(bn, u);
    ScaledQuotient(an, bn, t.value, u.value, rr, LeftScale(t), RightScale(t), Pow2(u.dist), Pow2(FRAC), r);
  }

  lemma UnsignedError(an: nat, bn: nat)
    requires an < Pow2(I128) && 0 < bn < Pow2(I128)
    requires UnsignedDiv(an, bn).Some?
    ensures Within(an, bn, UnsignedDiv(an, bn).value)
    ensures UnsignedDiv(an, bn).value < Pow2(I128)
  {
    hide Pow2, BitLen, Div, Mod;
    TopDividendExact(an);
    TopDivisorExact(bn);
    QuotientIsWithin(an, bn, TopDividend(an), TopDivisor(bn), UnsignedDiv(an, bn).value);
  }

  /** The signed result: the magnitude is within the bound, it fits an i128, and its sign follows
      the operands unless it is zero. */
  lemma FastDivisionError(a: int, b: int)
    requires IsI128(a) && IsI128(b)
    ensures CheckedDiv30(a, b).Bits? ==>
              var r := CheckedDiv30(a, b).bits;
              && b != 0
              && Within(Abs(a), Abs(b), Abs(r))
              && Abs(r) < Pow2(I128)
              && (r != 0 ==> (r < 0 <==> (a < 0) != (b < 0)))
  {
    hide Pow2, BitLen, Div, Mod, Within, UnsignedDiv;
    if CheckedDiv30(a, b).Bits? { UnsignedError(Abs(a), Abs(b)); }
  }

  // ---- Agreement with the exact division ----

  /** The magnitude of the exact quotient, rounded toward zero. */
  function ExactQuotient(a: int, b: int): nat
    requires b != 0
  {
    Div(Abs(a) * Pow2(FRAC), Abs(b))
  }

  lemma UpperDistance(k: nat, bn: nat, r: nat, q: nat, e: nat)
    requires bn > 0 && q < (e + 1) * bn
    requires k * bn * r <= (k + 1) * q
    ensures k * r < (k + 1) * (e + 1)
  {
    MulCancel((e + 1) * bn, q, k + 1);
    assert k * bn * r == k * r * bn;
    assert (k + 1) * ((e + 1) * bn) == (k + 1) * (e + 1) * bn;
    MulCancel((k + 1) * (e + 1), k * r, bn);
  }

  lemma LowerDistance(k: nat, bn: nat, r: nat, q: nat, e: nat)
    requires k > 0 && bn > 0 && e * bn <= q
    requires (k - 1) * q < k * bn * (r + 1)
    ensures (k - 1) * e < k * (r + 1)
  {
    MulMono(e * bn, q, k - 1);
    assert k * bn * (r + 1) == k * (r + 1) * bn;
    assert (k - 1) * (e * bn) == (k - 1) * e * bn;
    MulCancel(k * (r + 1), (k - 1) * e, bn);
  }

  function Distance(r: nat, e: nat): nat {
    if r < e then e - r else r - e
  }

  /** The fast magnitude differs from the exact one by at most one unit plus a 2^31th of it. */
  lemma DistanceToExact(an: nat, bn: nat, r: nat)
    requires bn > 0 && Within(an, bn, r)
    ensures var e := Div(an * Pow2(FRAC), bn);
            r == e || K() * (Distance(r, e) - 1) <= e
  {
    hide Pow2, BitLen, Div, Mod;
    DivBounds(an * Pow2(FRAC), bn);
    DistanceBound(K(), bn, r, an * Pow2(FRAC), Div(an * Pow2(FRAC), bn));
  }

  lemma DistanceBound(k: nat, bn: nat, r: nat, q: nat, e: nat)
    requires k > 0 && bn > 0 && e * bn <= q < (e + 1) * bn
    requires k * bn * r <= (k + 1) * q && (k - 1) * q < k * bn * (r + 1)
    ensures r == e || k * (Distance(r, e) - 1) <= e
  {
    if e < r {
      UpperDistance(k, bn, r, q, e);
      SpreadOut(k, r, e + 1);
    } else if r < e {
      LowerDistance(k, bn, r, q, e);
      SpreadOut(k, e, r + 1);
    }
  }

  lemma SpreadOut(k: nat, x: nat, y: nat)
    requires y <= x
    ensures k * (x - y) == k * x - k * y
  {}

  const THIRTY: nat := 30

  lemma SmallError(err: nat, e: nat, p: nat, w: nat)
    requires err > 1 && 2 * p * (err - 1) <= e < w
    ensures err * p < w
  {
    MulMono(err, 2 * (err - 1), p);
    assert 2 * (err - 1) * p == 2 * p * (err - 1);
  }

  lemma FirstBitsCorrect(err: nat, e: nat, n: nat)
    requires err > 1 && K() * (err - 1) <= e < Pow2(n)
    ensures err * Pow2(THIRTY) < Pow2(n)
  {
    hide Pow2, Div;
    Pow2Step(THIRTY);
    SmallError(err, e, Pow2(THIRTY), Pow2(n));
  }

  /** The precision the tests assert: the first 30 bits are correct, or the result is off by at
      most the last bit. */
  lemma ThirtyBitsOrLastBit(a: int, b: int)
    requires IsI128(a) && IsI128(b)
    ensures CheckedDiv30(a, b).Bits? ==>
              && b != 0
              && var e := ExactQuotient(a, b);
                 var err := Distance(Abs(CheckedDiv30(a, b).bits), e);
                 err <= 1 || err * Pow2(THIRTY) < Pow2(BitLen(e))
  {
    hide Pow2, BitLen, Div, Mod, CheckedDiv30, Within;
    FastDivisionError(a, b);
    if CheckedDiv30(a, b).Bits? {
      var e, r := ExactQuotient(a, b), Abs(CheckedDiv30(a, b).bits);
      DistanceToExact(Abs(a), Abs(b), r);
      BitLenBounds(e);
      if Distance(r, e) > 1 {
        FirstBitsCorrect(Distance(r, e), e, BitLen(e));
      }
    }
  }

  /** `x` with all but its top 32 bits cleared. */
  function Trunc32(x: nat): nat {
    if BitLen(x) <= 32 then x else Pow2(BitLen(x) - 32) * Div(x, Pow2(BitLen(x) - 32))
  }

  lemma DivisorIsTrunc32(bn: nat)
    requires 0 < bn < Pow2(I128)
    ensures Pow2(TopDivisor(bn).dist) * TopDivisor(bn).value == Trunc32(bn)
  {
    hide Pow2, BitLen, Div, Mod;
    if BitLen(bn) > U32 {
      TopDivisorLong(bn, BitLen(bn), Div(bn, Pow2(BitLen(bn) - 32)));
    } else {
      TopDivisorShort(bn);
      Pow2Zero();
    }
  }

  lemma CompareScaled(x: nat, p: nat, w: nat, c: nat)
    requires p > 0
    ensures w * p * c <= x * p <==> w * c <= x
    ensures w * c <= Div(x, p) <==> w * p * c <= x
  {
    assert w * p * c == w * c * p;
    MulCancel(w * c, x, p);
    DivAtLeast(x, p, w * c);
  }

  /** Comparing the shifted dividend is comparing the dividend. */
  lemma CompareDividend(an: nat, t: Top, c: nat, e: nat)
    requires DividendTop(an, t) && e >= 64
    ensures Pow2(e + t.Shift()) * c <= t.value <==> Pow2(e) * c <= an
  {
    hide Pow2, BitLen, Div, Mod;
    if t.left {
      Pow2Add(e, t.dist);
      CompareScaled(an, Pow2(t.dist), Pow2(e), c);
    } else {
      Pow2Add(e - t.dist, t.dist);
      CompareScaled(an, Pow2(t.dist), Pow2(e - t.dist), c);
    }
  }

  const HEADROOM: nat := I128 - FRAC

  lemma QuotientOverflows(an: nat, t: Top, u: Top)
    requires DividendTop(an, t) && ValidTops(t, u)
    ensures Quotient(t, u).None? <==> Pow2(HEADROOM + u.dist) * u.value <= an
  {
    hide Pow2, BitLen, Div, Mod;
    ShiftBackExact(Ratio(t, u), 48 + u.Shift() - t.Shift());
    RatioAtLeast(t, u, Pow2(HEADROOM + u.dist + t.Shift()));
    CompareDividend(an, t, u.value, HEADROOM + u.dist);
  }

  /** The fast division of magnitudes overflows exactly when the dividend reaches 2^79 times the
      truncated divisor. */
  lemma OverflowExactly(an: nat, bn: nat)
    requires an < Pow2(I128) && 0 < bn < Pow2(I128)
    ensures UnsignedDiv(an, bn).None? <==> Pow2(HEADROOM) * Trunc32(bn) <= an
  {
    hide Pow2, BitLen, Div, Mod;
    var u := TopDivisor(bn);
    TopDividendExact(an);
    TopDivisorExact(bn);
    QuotientOverflows(an, TopDividend(an), u);
    DivisorIsTrunc32(bn);
    assert Pow2(HEADROOM + u.dist) * u.value == Pow2(HEADROOM) * Trunc32(bn) by {
      Pow2Add(HEADROOM, u.dist);
      Associate(Pow2(HEADROOM), Pow2(u.dist), u.value);
    }
  }

  /** The truncated divisor is within a 2^31th of the divisor. */
  lemma Trunc32Close(x: nat)
    ensures K() * x <= (K() + 1) * Trunc32(x)
  {
    hide Pow2, BitLen, Div;
    if BitLen(x) <= U32 {
      MulMono(K(), K() + 1, x);
    } else {
      var d := Pow2(BitLen(x) - 32);
      RightAligned(x, U32);
      DivBounds(x, d);
      CloseStep(K(), x, Div(x, d), d);
    }
  }

  lemma CloseStep(k: nat, x: nat, q: nat, d: nat)
    requires x <= (q + 1) * d && k <= q
    ensures k * x <= (k + 1) * (d * q)
  {
    calc {
      k * x;
    <= { MulMono(x, (q + 1) * d, k); }
      k * ((q + 1) * d);
    ==
      (k * q + k) * d;
    <= { MulMono(k * q + k, k * q + q, d); }
      (k * q + q) * d;
    ==
      (k + 1) * (d * q);
    }
  }

  /** Overflow is only reported when the exact quotient, increased by a 2^31th, reaches 2^127. */
  lemma OverflowOnlyNearLimit(an: nat, bn: nat)
    requires an < Pow2(I128) && 0 < bn < Pow2(I128) && UnsignedDiv(an, bn).None?
    ensures K() * bn * Pow2(I128) <= (K() + 1) * (an * Pow2(FRAC))
  {
    hide Pow2, BitLen, Div, UnsignedDiv, Trunc32;
    OverflowExactly(an, bn);
    Trunc32Close(bn);
    Pow2Add(HEADROOM, FRAC);
    NearLimit(K(), bn, Trunc32(bn), an, Pow2(HEADROOM), Pow2(FRAC));
  }

  lemma NearLimit(k: nat, bn: nat, t: nat, an: nat, h: nat, f: nat)
    requires k * bn <= (k + 1) * t && h * t <= an
    ensures k * bn * (h * f) <= (k + 1) * (an * f)
  {
    MulMono(k * bn, (k + 1) * t, h * f);
    ScaleTogether(k + 1, t, h, f);
    MulMono(h * t, an, (k + 1) * f);
    ScaleTogether(k + 1, 1, an, f);
  }

  lemma ScaleTogether(a: nat, t: nat, h: nat, f: nat)
    ensures a * t * (h * f) == a * f * (h * t)
  {}

  lemma Associate(a: nat, b: nat, c: nat)
    ensures a * b * c == a * (b * c)
  {}

  lemma RatioAtLeast(t: Top, u: Top, k: nat)
    requires ValidTops(t, u)
    ensures k <= Ratio(t, u) <==> k * u.value <= t.value
  {
    hide Pow2, BitLen, Div, Mod;
    DivAtLeast(t.value, u.value, k);
  }

  /** Whether the exact quotient is an i128. */
  predicate ExactFits(a: int, b: int)
    requires b != 0
  {
    var e := ExactQuotient(a, b);
    e < Pow2(I128) || (e == Pow2(I128) && (a < 0) != (b < 0))
  }

  lemma DivReaches(x: nat, f: nat, h: nat, d: nat)
    requires d > 0 && f > 0
    ensures h * f <= Div(x * f, d) <==> h * d <= x
  {
    DivAtLeast(x * f, d, h * f);
    assert h * f * d == h * d * f;
    MulCancel(h * d, x, f);
  }

  lemma ExactReaches(an: nat, bn: nat)
    requires bn > 0
    ensures Pow2(I128) <= Div(an * Pow2(FRAC), bn) <==> Pow2(HEADROOM) * bn <= an
  {
    hide Pow2, BitLen, Div, Mod;
    Pow2Add(HEADROOM, FRAC);
    DivReaches(an, Pow2(FRAC), Pow2(HEADROOM), bn);
  }

  lemma Trunc32Below(x: nat)
    ensures Trunc32(x) <= x
  {
    hide Pow2, BitLen, Div;
    if BitLen(x) > 32 { DivBounds(x, Pow2(BitLen(x) - 32)); }
  }

  /** A result implies that the exact quotient fits; the converse fails exactly when the dividend
      lies between 2^79 times the truncated and 2^79 times the full divisor, or the exact result
      is the smallest i128. */
  lemma AgreesWithExact(a: int, b: int)
    requires IsI128(a) && IsI128(b) && b != 0 && a != MinI128() && b != MinI128()
    ensures CheckedDiv30(a, b).Bits? ==> ExactFits(a, b)
    ensures ExactFits(a, b) && CheckedDiv30(a, b) == Overflow <==>
              || Pow2(HEADROOM) * Trunc32(Abs(b)) <= Abs(a) < Pow2(HEADROOM) * Abs(b)
              || (ExactQuotient(a, b) == Pow2(I128) && (a < 0) != (b < 0))
  {
    hide Pow2, BitLen, Div, Mod;
    OverflowExactly(Abs(a), Abs(b));
    ExactReaches(Abs(a), Abs(b));
    Trunc32Below(Abs(b));
    MulMono(Trunc32(Abs(b)), Abs(b), Pow2(HEADROOM));
  }

  const SIXTEEN: nat := 16
  const FORTY_SEVEN: nat := 47

  lemma OnlyOneAbove(w: nat, p: nat)
    requires p > 1
    ensures Div(w * p + 1, p) == w
  {
    hide Div;
    assert (w + 1) * p == w * p + p;
    DivUnique(w * p + 1, p, w);
  }

  lemma LengthOfOneAbove(n: nat)
    requires n > 0
    ensures BitLen(Pow2(n) + 1) == n + 1
  {
    hide Pow2, BitLen;
    BitLenAtMost(Pow2(n) + 1, n + 1);
    BitLenAtMost(Pow2(n) + 1, n);
    Pow2Step(n);
    Pow2Mono(1, n);
    Pow2Step(0);
    Pow2Zero();
  }

  lemma LowestBitDropped()
    ensures Trunc32(Pow2(FORTY_SEVEN) + 1) == Pow2(FORTY_SEVEN)
  {
    hide Pow2, BitLen, Div;
    var p := Pow2(SIXTEEN);
    LengthOfOneAbove(FORTY_SEVEN);
    Pow2Add(THIRTY_ONE, SIXTEEN);
    assert p > 1 by {
      Pow2Mono(1, SIXTEEN);
      Pow2Step(0);
      Pow2Zero();
    }
    OnlyOneAbove(K(), p);
  }

  lemma OneMore(h: nat, w: nat)
    requires h > 0
    ensures h * w < h * (w + 1)
  {}

  /** The tests expect a result whenever the exact division has one. It has one for 2^126 and
      2^47 + 1, but the fast division drops the 1. */
  lemma OverflowsTooEarly()
    ensures var a, b := Pow2(I128 - 1), Pow2(FORTY_SEVEN) + 1;
            IsI128(a) && IsI128(b) && ExactFits(a, b) && CheckedDiv30(a, b) == Overflow
  {
    hide Pow2, BitLen, Div;
    var a, b := Pow2(I128 - 1), Pow2(FORTY_SEVEN) + 1;
    Pow2Step(I128 - 1);
    assert IsI128(a) && IsI128(b) by {
      Pow2Mono(FORTY_SEVEN, I128 - 1);
      Pow2Mono(1, I128 - 1);
      Pow2Step(0);
      Pow2Zero();
    }
    LowestBitDropped();
    Pow2Add(HEADROOM, FORTY_SEVEN);
    OneMore(Pow2(HEADROOM), Pow2(FORTY_SEVEN));
    AgreesWithExact(a, b);
  }
}
