/**
 Congruences, powers and greatest common divisors over the integers: the mathematics
 that the accelerator routines are measured against. Nothing here refers to registers.
 */
module Modular {

  // ----- products

  /**
   Multiplication by repeated addition. Statements about registers use it so that they stay within
   linear arithmetic, also where 256-bit constants occur; what they need of products comes from the
   lemmas below.
   */
  ghost function Times(x: int, y: int): (r: int)
    decreases if x < 0 then -x else x, y
  {
    if x == 0 then 0 else if x > 0 then Times(x - 1, y) + y else Times(x + 1, y) - y
  }

  lemma {:induction false} TimesIs(x: int, y: int)
    ensures Times(x, y) == x * y
    decreases if x < 0 then -x else x
  {
    if x > 0 {
      TimesIs(x - 1, y);
    } else if x < 0 {
      TimesIs(x + 1, y);
    }
  }

  lemma TimesAll()
    ensures forall x: int, y: int {:trigger Times(x, y)} :: Times(x, y) == x * y
  {
    forall x: int, y: int
      ensures Times(x, y) == x * y
    {
      TimesIs(x, y);
    }
  }

  lemma TimesCommutes(x: int, y: int)
    ensures Times(x, y) == Times(y, x)
  {
    hide Times;
    TimesIs(x, y);
    TimesIs(y, x);
  }

  lemma TimesPlus(x: int, y: int, z: int)
    ensures Times(x + y, z) == Times(x, z) + Times(y, z)
  {
    TimesAll();
    hide Times;
  }

  lemma MulMono(x: int, y: int, k: int)
    requires x <= y && 0 <= k
    ensures x * k <= y * k && k * x <= k * y
  {
  }

  lemma TimesMonotone(x: int, y: int, u: int, v: int)
    requires 0 <= x <= y && 0 <= u <= v
    ensures 0 <= Times(x, u) <= Times(y, v)
  {
    TimesIs(x, u);
    TimesIs(y, v);
    MulMono(0, x, u);
    MulMono(x, y, u);
    MulMono(u, v, y);
  }

  lemma TimesBound(x: int, y: int, w: int)
    requires 0 <= x < w && 0 <= y < w
    ensures 0 <= Times(x, y) <= (w - 1) * (w - 1)
  {
    TimesAll();
    hide Times;
    TimesMonotone(x, w - 1, y, w - 1);
  }

  /** The schoolbook product of two-digit numbers, in base b. */
  lemma Schoolbook(xh: int, xl: int, yh: int, yl: int, b: int)
    ensures Times(xh * b + xl, yh * b + yl)
         == Times(xh, yh) * (b * b) + Times(xh, yl) * b + Times(xl, yh) * b + Times(xl, yl)
  {
    TimesAll();
    hide Times;
    assert (xh * b + xl) * (yh * b + yl) == (xh * b) * (yh * b) + (xh * b) * yl + xl * (yh * b) + xl * yl;
    assert (xh * b) * (yh * b) == xh * yh * (b * b);
    assert (xh * b) * yl == (xh * yl) * b;
    assert xl * (yh * b) == (xl * yh) * b;
  }

  lemma FromScaled(r: int, bound: int, k: int)
    requires k > 0 && 0 <= r * k < bound * k
    ensures 0 <= r < bound
  {
    assert r < 0 ==> r * k < 0;
    assert r >= bound ==> r * k >= bound * k;
  }

  // ----- remainders

  /** Quotient and remainder are unique. */
  lemma DivModUnique(x: int, q: int, r: int, m: int)
    requires 0 <= r < m && x == q * m + r
    ensures x % m == r && x / m == q
  {
    var k := q - x / m;
    assert k * m == x % m - r;
    assert k >= 1 ==> k * m >= m;
    assert k <= -1 ==> k * m <= -m;
  }

  /** Adding a multiple of the modulus does not change the remainder. */
  lemma ModAddMultiple(x: int, k: int, m: int)
    requires m > 0
    ensures (x + k * m) % m == x % m
  {
    assert x + k * m == (x / m + k) * m + x % m;
    DivModUnique(x + k * m, x / m + k, x % m, m);
  }

  /** Remainder behind a name, for the same reason as `Times`. */
  function Mod(x: int, m: int): (r: int)
    requires m > 0
    ensures 0 <= r < m
  {
    x % m
  }

  /** The product in the ring of integers modulo m. */
  ghost function ModMul(x: int, y: int, m: int): (r: int)
    requires m > 0
    ensures 0 <= r < m
  {
    Mod(Times(x, y), m)
  }

  lemma ModTimes(r: int, q: int, m: int)
    requires m > 0
    ensures Mod(r + Times(q, m), m) == Mod(r, m)
  {
    TimesAll();
    hide Times;
    ModAddMultiple(r, q, m);
  }

  /** Remainder of a number below 3m by repeated subtraction. */
  lemma ModSmall(r: int, m: int)
    requires 0 <= r < 3 * m
    ensures Mod(r, m) == if r < m then r else if r < 2 * m then r - m else r - 2 * m
  {
    var q := if r < m then 0 else if r < 2 * m then 1 else 2;
    assert q * m == if r < m then 0 else if r < 2 * m then m else 2 * m;
    DivModUnique(r, q, r - q * m, m);
  }

  ghost predicate Cong(x: int, y: int, m: int)
    requires m > 0
  {
    x % m == y % m
  }

  /** Congruent numbers differ by a multiple of the modulus. */
  lemma CongWitness(x: int, y: int, m: int) returns (k: int)
    requires m > 0 && Cong(x, y, m)
    ensures x == y + k * m
  {
    k := x / m - y / m;
    assert k * m == (x / m) * m - (y / m) * m;
  }

  lemma CongTrans(x: int, y: int, z: int, n: nat)
    requires n > 0 && Cong(x, y, n) && Cong(y, z, n)
    ensures Cong(x, z, n)
  {
  }

  lemma CongRefl(x: int, n: nat)
    requires n > 0
    ensures Cong(x, x, n)
  {
  }

  lemma CongFrom(x: int, y: int, k: int, m: int)
    requires m > 0 && x == y + k * m
    ensures Cong(x, y, m)
  {
    ModAddMultiple(y, k, m);
  }

  lemma CongAdd(x: int, y: int, u: int, v: int, m: int)
    requires m > 0 && Cong(x, y, m) && Cong(u, v, m)
    ensures Cong(x + u, y + v, m)
  {
    hide Cong;
    var j := CongWitness(x, y, m);
    var k := CongWitness(u, v, m);
    CongFrom(x + u, y + v, j + k, m);
  }

  lemma CongSub(x: int, y: int, u: int, v: int, m: int)
    requires m > 0 && Cong(x, y, m) && Cong(u, v, m)
    ensures Cong(x - u, y - v, m)
  {
    hide Cong;
    var j := CongWitness(x, y, m);
    var k := CongWitness(u, v, m);
    CongFrom(x - u, y - v, j - k, m);
  }

  lemma ScaleEquation(x: int, y: int, k: int, m: int, u: int)
    requires x == y + k * m
    ensures x * u == y * u + (k * u) * m
  {
    assert x * u == y * u + (k * m) * u;
  }

  lemma CongScale(x: int, y: int, u: int, m: int)
    requires m > 0 && Cong(x, y, m)
    ensures Cong(x * u, y * u, m)
  {
    hide Cong;
    var k := CongWitness(x, y, m);
    ScaleEquation(x, y, k, m, u);
    CongFrom(x * u, y * u, k * u, m);
  }

  lemma CongMul(x: int, y: int, u: int, v: int, m: int)
    requires m > 0 && Cong(x, y, m) && Cong(u, v, m)
    ensures Cong(x * u, y * v, m)
  {
    CongScale(x, y, u, m);
    CongScale(u, v, y, m);
  }

  lemma ModSelf(x: int, m: int)
    requires m > 0
    ensures Cong(x % m, x, m) && 0 <= x % m < m
  {
    DivModUnique(x % m, 0, x % m, m);
  }

  // ----- the ring of integers modulo m

  lemma ModMulCong(x: int, y: int, u: int, v: int, m: int)
    requires m > 0 && Cong(x, u, m) && Cong(y, v, m)
    ensures ModMul(x, y, m) == ModMul(u, v, m)
  {
    TimesAll();
    hide Times;
    CongMul(x, u, y, v, m);
  }

  lemma ModMulReduced(x: int, y: int, m: int)
    requires m > 0
    ensures ModMul(Mod(x, m), y, m) == ModMul(x, y, m) == ModMul(x, Mod(y, m), m)
  {
    ModSelf(x, m);
    ModSelf(y, m);
    ModMulCong(Mod(x, m), y, x, y, m);
    ModMulCong(x, Mod(y, m), x, y, m);
  }

  lemma ModMulCommutes(x: int, y: int, m: int)
    requires m > 0
    ensures ModMul(x, y, m) == ModMul(y, x, m)
  {
    TimesAll();
    hide Times;
    assert x * y == y * x;
  }

  lemma ModMulAssoc(x: int, y: int, z: int, m: int)
    requires m > 0
    ensures ModMul(ModMul(x, y, m), z, m) == ModMul(x, ModMul(y, z, m), m)
  {
    TimesAll();
    hide Times;
    ModMulReduced(x * y, z, m);
    ModMulReduced(x, y * z, m);
    assert (x * y) * z == x * (y * z);
  }

  lemma ModMulOne(x: int, m: int)
    requires 0 <= x < m
    ensures ModMul(x, 1, m) == x == ModMul(1, x, m)
  {
    TimesAll();
    hide Times;
    DivModUnique(x, 0, x, m);
  }

  // ----- powers

  /** a^e modulo m. */
  ghost function PowMod(a: int, e: nat, m: int): (r: int)
    requires m > 1
    ensures 0 <= r < m
  {
    if e == 0 then 1 else ModMul(PowMod(a, e - 1, m), a, m)
  }

  lemma {:induction false} PowModAdd(a: int, e: nat, f: nat, m: int)
    requires m > 1
    ensures PowMod(a, e + f, m) == ModMul(PowMod(a, e, m), PowMod(a, f, m), m)
  {
    if f == 0 {
      ModMulOne(PowMod(a, e, m), m);
    } else {
      hide ModMul;
      PowModAdd(a, e, f - 1, m);
      ModMulAssoc(PowMod(a, e, m), PowMod(a, f - 1, m), a, m);
    }
  }

  lemma PowModZero(a: int, m: int)
    requires m > 1
    ensures PowMod(a, 0, m) == 1
  {
  }

  lemma PowModDouble(a: int, t: nat, m: int)
    requires m > 1
    ensures PowMod(a, 2 * t, m) == ModMul(PowMod(a, t, m), PowMod(a, t, m), m)
    ensures PowMod(a, 2 * t + 1, m) == ModMul(PowMod(a, 2 * t, m), a, m)
  {
    hide ModMul;
    PowModAdd(a, t, t, m);
    assert t + t == 2 * t;
  }

  function Pow2(k: nat): (r: nat)
    ensures r > 0
  {
    if k == 0 then 1 else 2 * Pow2(k - 1)
  }

  lemma {:induction false} Pow2Add(j: nat, k: nat)
    ensures Pow2(j + k) == Pow2(j) * Pow2(k)
  {
    if k > 0 {
      Pow2Add(j, k - 1);
    }
  }

  lemma Pow2Square(k: nat, v: nat)
    requires Pow2(k) == v
    ensures Pow2(2 * k) == v * v
  {
    Pow2Add(k, k);
    assert k + k == 2 * k;
  }

  // ----- divisibility

  ghost predicate Divides(d: int, x: int) {
    exists k :: x == Times(d, k)
  }

  lemma DividesSum(d: int, x: int, y: int)
    requires Divides(d, x) && Divides(d, y)
    ensures Divides(d, x + y) && Divides(d, x - y)
  {
    TimesAll();
    hide Times;
    var j :| x == Times(d, j);
    var k :| y == Times(d, k);
    assert x + y == Times(d, j + k);
    assert x - y == Times(d, j - k);
  }

  lemma DividesDouble(d: int, x: int)
    requires Divides(d, x)
    ensures Divides(d, 2 * x)
  {
    DividesSum(d, x, x);
  }

  lemma TwiceTimes(i: int, k: int)
    ensures Times(2 * i, k) == 2 * Times(i, k) && Times(2 * i + 1, k) == 2 * Times(i, k) + k
    ensures Times(k, 2 * i) == 2 * Times(k, i)
  {
    TimesAll();
    hide Times;
  }

  lemma ParityTimes(d: int, k: int)
    ensures Times(d, k) % 2 == if d % 2 == 1 && k % 2 == 1 then 1 else 0
  {
    TwiceTimes(d / 2, k);
    hide Times;
    assert d == 2 * (d / 2) || d == 2 * (d / 2) + 1;
  }

  /** An odd divisor of an even number divides its half. */
  lemma DividesHalf(d: int, x: int)
    requires Divides(d, 2 * x) && d % 2 == 1
    ensures Divides(d, x)
  {
    hide Times;
    var k :| 2 * x == Times(d, k);
    ParityTimes(d, k);
    TwiceTimes(k / 2, d);
    assert x == Times(d, k / 2);
  }

  lemma OddDivisor(d: int, m: int)
    requires Divides(d, m) && m % 2 == 1
    ensures d % 2 == 1
  {
    hide Times;
    var k :| m == Times(d, k);
    ParityTimes(d, k);
  }

  /** x and y have the same common divisors as a and b. */
  ghost predicate SameDivisors(x: int, y: int, a: int, b: int) {
    forall d :: Divides(d, x) && Divides(d, y) <==> Divides(d, a) && Divides(d, b)
  }

  /** g is the greatest common divisor of a and b, in the divisibility order. */
  ghost predicate IsGcd(g: int, a: int, b: int) {
    && g > 0 && Divides(g, a) && Divides(g, b)
    && forall d :: Divides(d, a) && Divides(d, b) ==> Divides(d, g)
  }
}
