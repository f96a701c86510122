/** Powers of two and bit lengths, for shifts and leading-zero counts on unsigned words. */
module Bits {

  function Pow2(n: nat): (r: nat)
    ensures r > 0
  {
    if n == 0 then 1 else 2 * Pow2(n - 1)
  }

  /** The position after the highest set bit; 0 for 0. */
  function BitLen(x: nat): nat {
    if x == 0 then 0 else 1 + BitLen(x / 2)
  }

  lemma Pow2Zero()
    ensures Pow2(0) == 1
  {}

  lemma Pow2Step(n: nat)
    ensures Pow2(n + 1) == 2 * Pow2(n)
  {}

  lemma TimesByte(n: nat)
    ensures Pow2(n + 8) == 256 * Pow2(n)
  {
    assert Pow2(n + 8) == 2 * Pow2(n + 7) == 4 * Pow2(n + 6);
    assert Pow2(n + 6) == 2 * Pow2(n + 5) == 4 * Pow2(n + 4);
    assert Pow2(n + 4) == 2 * Pow2(n + 3) == 4 * Pow2(n + 2);
    assert Pow2(n + 2) == 2 * Pow2(n + 1) == 4 * Pow2(n);
  }

  lemma {:induction false} Pow2Add(a: nat, b: nat)
    ensures Pow2(a + b) == Pow2(a) * Pow2(b)
  {
    if b > 0 {
      Pow2Add(a, b - 1);
    }
  }

  lemma Pow2Mono(a: nat, b: nat)
    requires a <= b
    ensures Pow2(a) <= Pow2(b)
  {
    Pow2Add(a, b - a);
    MulMono(1, Pow2(b - a), Pow2(a));
  }

  lemma {:induction false} BitLenBounds(x: nat)
    ensures x < Pow2(BitLen(x))
    ensures BitLen(x) > 0 <==> x > 0
    ensures x > 0 ==> Pow2(BitLen(x) - 1) <= x
  {
    if x > 0 {
      BitLenBounds(x / 2);
    }
  }

  lemma BitLenAtMost(x: nat, n: nat)
    ensures BitLen(x) <= n <==> x < Pow2(n)
  {
    BitLenBounds(x);
    if BitLen(x) <= n {
      Pow2Mono(BitLen(x), n);
    } else {
      Pow2Mono(n, BitLen(x) - 1);
    }
  }

  lemma MulMono(a: nat, b: nat, c: nat)
    requires a <= b
    ensures a * c <= b * c && c * a <= c * b
  {
    assert (b - a) * c >= 0;
  }

  lemma MulCancel(a: nat, b: nat, c: nat)
    requires c > 0
    ensures a * c <= b * c <==> a <= b
  {
    if a <= b {
      MulMono(a, b, c);
    } else {
      MulMono(b + 1, a, c);
    }
  }

  /** Division rounding down. Div and Mod are defined without the operators, to keep nonlinear
      division away from the solver; DivIs and ModIs connect them. */
  function Div(x: nat, d: nat): (q: nat)
    requires d > 0
    ensures q <= x
  {
    if x < d then 0 else Div(x - d, d) + 1
  }

  function Mod(x: nat, d: nat): (r: nat)
    requires d > 0
    ensures r < d
  {
    if x < d then x else Mod(x - d, d)
  }

  lemma {:induction false} DivBounds(x: nat, d: nat)
    requires d > 0
    ensures Div(x, d) * d <= x < (Div(x, d) + 1) * d
  {
    if x >= d {
      DivBounds(x - d, d);
      assert Div(x, d) * d == Div(x - d, d) * d + d;
    }
  }

  lemma DivAtLeast(x: nat, d: nat, k: nat)
    requires d > 0
    ensures k <= Div(x, d) <==> k * d <= x
  {
    DivBounds(x, d);
    if k <= Div(x, d) {
      MulMono(k, Div(x, d), d);
    } else {
      MulMono(Div(x, d) + 1, k, d);
    }
  }

  lemma DivByOne(x: nat)
    ensures Div(x, 1) == x
  {
    DivBounds(x, 1);
  }

  lemma DivUnique(x: nat, d: nat, q: nat)
    requires d > 0 && q * d <= x < (q + 1) * d
    ensures Div(x, d) == q
  {
    DivAtLeast(x, d, q);
    DivAtLeast(x, d, q + 1);
  }

  lemma DivIs(x: nat, d: nat)
    requires d > 0
    ensures Div(x, d) == x / d
  {
    assert x == x / d * d + x % d;
    DivUnique(x, d, x / d);
  }

  lemma ModSmall(x: nat, d: nat)
    requires x < d
    ensures Mod(x, d) == x
  {}

  lemma {:induction false} ModRest(x: nat, d: nat)
    requires d > 0
    ensures Mod(x, d) == x - Div(x, d) * d
  {
    if x >= d { ModRest(x - d, d); }
  }

  lemma ModIs(x: nat, d: nat)
    requires d > 0
    ensures Mod(x, d) == x % d
  {
    hide Mod, Div;
    ModRest(x, d);
    DivIs(x, d);
    assert x == x / d * d + x % d;
  }
}
