/** Machine sizes, and division facts shared by the resampler and the audio buffer. */
module Arithmetic {

  const USIZE_MAX: nat := 0xFFFF_FFFF_FFFF_FFFF

  function Min(a: nat, b: nat): nat {
    if a <= b then a else b
  }

  function Max(a: nat, b: nat): nat {
    if a <= b then b else a
  }

  lemma MulMonotone(a: nat, b: nat, k: nat)
    requires a <= b
    ensures a * k <= b * k
  {
  }

  lemma DivUnique(a: nat, b: nat, q: nat, r: nat)
    requires 0 < b && r < b && a == q * b + r
    ensures a / b == q && a % b == r
  {
    var k := a / b;
    assert a == k * b + a % b;
    assert q < k ==> (q + 1) * b <= k * b;
    assert k < q ==> (k + 1) * b <= q * b;
  }

  lemma DivShift(a: nat, b: nat, d: nat)
    requires 0 < b
    ensures (d * b + a) / b == a / b + d && 0 <= a / b
    ensures (d * b + a) % b == a % b
  {
    assert a == (a / b) * b + a % b;
    Distribute(d, a / b, b);
    DivUnique(d * b + a, b, d + a / b, a % b);
  }

  // k is at most floor(c / b) exactly when k * b does not pass c.
  lemma DivBelow(k: nat, c: nat, b: nat)
    requires 0 < b
    ensures k <= c / b <==> k * b <= c
  {
    assert c == (c / b) * b + c % b;
    if k <= c / b {
      MulMonotone(k, c / b, b);
    } else {
      MulMonotone(c / b + 1, k, b);
    }
  }

  lemma DivMonotone(a: nat, c: nat, b: nat)
    requires 0 < b && a <= c
    ensures a / b <= c / b
  {
    DivBelow(a / b, c, b);
  }

  lemma DivNonneg(a: nat, b: nat)
    requires 0 < b
    ensures 0 <= a / b && a == (a / b) * b + a % b
  {
    DivBelow(0, a, b);
  }

  // floor(x + y) never exceeds floor(x) + floor(y) by more than one.
  lemma DivSum(a: nat, c: nat, b: nat)
    requires 0 < b
    ensures a / b + c / b <= (a + c) / b <= a / b + c / b + 1
  {
    DivNonneg(a, b);
    DivNonneg(c, b);
    var q, r := a / b + c / b, a % b + c % b;
    Distribute(a / b, c / b, b);
    assert a + c == q * b + r;
    if r < b {
      DivUnique(a + c, b, q, r);
    } else {
      Distribute(q, 1, b);
      DivUnique(a + c, b, q + 1, r - b);
    }
  }

  lemma Distribute(x: int, y: int, b: int)
    ensures (x + y) * b == x * b + y * b
  {
  }

  // Counting packets in samples or in frames is the same.
  lemma DivScale(t: nat, f: nat, c: nat)
    requires 0 < f && 0 < c
    ensures 0 < f * c && (t * c) / (f * c) == t / f
    ensures (t / f) * (f * c) + (t % f) * c == t * c
  {
    var q, r := t / f, t % f;
    assert t == q * f + r;
    Distribute(q * f, r, c);
    assert q * f * c == q * (f * c);
    MulMonotone(1, f, c);
    assert r * c < f * c by { MulMonotone(r + 1, f, c); Distribute(r, 1, c); }
    DivUnique(t * c, f * c, q, r * c);
  }

  lemma ModSum(a: nat, b: nat, c: nat)
    requires 0 < c && a % c == 0 && b % c == 0
    ensures (a + b) % c == 0
  {
    assert a == (a / c) * c && b == (b / c) * c;
    Distribute(a / c, b / c, c);
    DivUnique(a + b, c, a / c + b / c, 0);
  }

  lemma ModDifference(a: nat, b: nat, c: nat)
    requires 0 < c && a % c == 0 && b % c == 0 && b <= a
    ensures (a - b) % c == 0
  {
    DivMonotone(b, a, c);
    assert a == (a / c) * c && b == (b / c) * c;
    Distribute(a / c, -(b / c), c);
    DivUnique(a - b, c, a / c - b / c, 0);
  }

  // ---------------------------------------------------------------------------------------
  // Greatest common divisors
  // ---------------------------------------------------------------------------------------

  function Gcd(a: nat, b: nat): (g: nat)
    requires 0 < a || 0 < b
    ensures 0 < g
    decreases b
  {
    if b == 0 then a else Gcd(b, a % b)
  }

  lemma ModMultiple(k: nat, b: nat, g: nat)
    requires 0 < g && b % g == 0
    ensures 0 <= k * b && (k * b) % g == 0
  {
    var q := b / g;
    DivNonneg(b, g);
    MulMonotone(0, q, k);
    assert k * b == (k * q) * g;
    MulMonotone(0, k, b);
    DivUnique(k * b, g, k * q, 0);
  }

  lemma {:induction false} GcdDivides(a: nat, b: nat)
    requires 0 < a || 0 < b
    ensures a % Gcd(a, b) == 0 && b % Gcd(a, b) == 0
    decreases b
  {
    if b == 0 {
      DivUnique(a, a, 1, 0);
      DivUnique(0, a, 0, 0);
    } else {
      GcdDivides(b, a % b);
      DivNonneg(a, b);
      ModMultiple(a / b, b, Gcd(a, b));
      ModSum((a / b) * b, a % b, Gcd(a, b));
    }
  }

  lemma {:induction false} Bezout(a: nat, b: nat) returns (x: int, y: int)
    requires 0 < a || 0 < b
    ensures x * a + y * b == Gcd(a, b)
    decreases b
  {
    if b == 0 {
      x, y := 1, 0;
    } else {
      var u, v := Bezout(b, a % b);
      var q, r := a / b, a % b;
      assert a == q * b + r;
      x, y := v, u - q * v;
      Combine(u, v, q, b, r);
    }
  }

  lemma Combine(u: int, v: int, q: int, b: int, r: int)
    ensures v * (q * b + r) + (u - q * v) * b == u * b + v * r
  {
    Distribute(u, -(q * v), b);
    assert v * (q * b + r) == v * (q * b) + v * r;
    assert v * (q * b) == (q * v) * b;
  }

  /** Every multiple of gcd(a, m) below m is the remainder of some multiple of a. */
  lemma MultipleReached(a: nat, m: nat, k: nat) returns (n: nat)
    requires 0 < m && 0 <= k * Gcd(a, m) < m
    ensures 0 <= n * a && (n * a) % m == k * Gcd(a, m)
  {
    var g := Gcd(a, m);
    var x, y := Bezout(a, m);
    var t := k * x / m;
    n := k * x % m;
    var q := -(k * y + t * a);
    Reduce(a, m, k, x, y, t, n, g);
    MulMonotone(0, n, a);
    QuotientNonneg(n * a, q, m, k * g);
    DivUnique(n * a, m, q, k * g);
  }

  lemma Reduce(a: nat, m: nat, k: nat, x: int, y: int, t: int, n: nat, g: nat)
    requires x * a + y * m == g && k * x == t * m + n
    ensures n * a == -(k * y + t * a) * m + k * g
  {
    assert n * a == (k * x) * a - (t * m) * a by { Distribute(k * x, -(t * m), a); }
    assert (t * m) * a == (t * a) * m;
    assert k * g == k * (x * a) + k * (y * m);
    assert k * (x * a) == (k * x) * a && k * (y * m) == (k * y) * m;
    Distribute(k * y, t * a, m);
  }

  lemma QuotientNonneg(a: nat, q: int, m: nat, r: nat)
    requires a == q * m + r && r < m
    ensures 0 <= q
  {
    Negative(q, m);
  }

  lemma Negative(q: int, m: int)
    requires 0 <= m
    ensures q < 0 ==> q * m <= -m
  {
  }

  // The quotient modulo f, read off the remainder modulo f * b.
  lemma QuotientMod(x: nat, b: nat, f: nat)
    requires 0 < b && 0 < f
    ensures 0 < f * b && 0 <= x % (f * b) / b < f
    ensures 0 <= x / b && x / b % f == x % (f * b) / b
  {
    MulMonotone(1, f, b);
    DivNonneg(x, b);
    DivNonneg(x / b, f);
    QuotientRemainder(x, b, f, x / b / f, x / b % f, x % b);
  }

  lemma QuotientRemainder(x: nat, b: nat, f: nat, q: nat, s: nat, t: nat)
    requires 0 < f * b && s < f && t < b && x == (q * f + s) * b + t
    ensures x % (f * b) / b == s
  {
    Distribute(q * f, s, b);
    assert q * f * b == q * (f * b);
    MulMonotone(s + 1, f, b);
    Distribute(s, 1, b);
    MulMonotone(0, s, b);
    DivUnique(x, f * b, q, s * b + t);
    DivUnique(s * b + t, b, s, t);
  }

  function CeilDiv(a: nat, b: nat): (q: nat)
    requires 0 < b
  {
    DivNonneg(a, b);
    if a % b == 0 then a / b else a / b + 1
  }

  // One less leaves the remainder, or a whole b.
  lemma CeilDivLess(a: nat, b: nat)
    requires 0 < b
    ensures (CeilDiv(a, b) - 1) * b == a - if a % b == 0 then b else a % b
  {
    DivNonneg(a, b);
    Distribute(a / b, -1, b);
  }

  // CeilDiv(a, b) is the first multiple of b that is not below a.
  lemma CeilDivFirst(a: nat, b: nat, k: nat)
    requires 0 < b
    ensures k * b < a <==> k < CeilDiv(a, b)
  {
    DivNonneg(a, b);
    DivBelow(k, a, b);
    if k == a / b {
      assert k * b == a - a % b;
    } else if k < a / b {
      MulMonotone(k + 1, a / b, b);
      Distribute(k, 1, b);
    }
  }
}
