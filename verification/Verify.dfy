/**
 `p256verify`: ECDSA verification on the accelerator. The core is a joint double-and-add loop for
 u2 * Q + u1 * G that precomputes G + Q and walks the bit string u2 & u1 beside the scalars.
 */
module Verify {
  import opened Accelerator
  import opened Modular
  import opened Projective
  import opened Groups
  import ModInverse
  import MulMod
  import ScalarMult
  import CurveLaw

  /** The base point G, as loaded by `get_P256B`. */
  const GX: nat := 0x6b17d1f2_e12c4247_f8bce6e5_63a440f2_77037d81_2deb33a0_f4a13945_d898c296
  const GY: nat := 0x4fe342e2_fe1a7f9b_8ee7eb4a_7c0f9e16_2bce3357_6b315ece_cbb64068_37bf51f5

  // ----- the joint loop

  /** `and`: the common bits of two k-bit numbers, most significant first. */
  function BitAnd(x: nat, y: nat, k: nat): (r: nat)
    ensures r < Pow2(k)
  {
    if k == 0 then 0
    else
      var h := Pow2(k - 1);
      var x', y' := if x >= h then x - h else x, if y >= h then y - h else y;
      BitAnd(x', y', k - 1) + if x >= h && y >= h then h else 0
  }

  /** After i doublings: `top` holds the first i bits of k, `low` the remaining ones. */
  ghost predicate Shifted(k: nat, i: nat, top: nat, low: nat, r: nat)
    requires i <= 256
  {
    && low < Pow2(256 - i)
    && k == Times(top, Pow2(256 - i)) + low
    && r == Times(low, Pow2(i))
  }

  lemma HalfRegister(i: nat)
    requires i < 256
    ensures Times(Pow2(255 - i), Pow2(i)) == HALF
    ensures Pow2(256 - i) == 2 * Pow2(255 - i) && Pow2(i + 1) == 2 * Pow2(i)
  {
    var q, u := Pow2(255 - i), Pow2(i);
    assert Pow2(256 - i) == 2 * q;
    Pow2Add(256 - i, i);
    ModInverse.Pow2Register();
    TwiceTimes(q, u);
    TimesIs(Pow2(256 - i), u);
  }

  /** One doubling shifts the next bit into the carry. */
  lemma ShiftBit(low: nat, i: nat, r: nat)
    requires i < 256 && low < Pow2(256 - i) && r == Times(low, Pow2(i))
    ensures r < W && (r >= HALF <==> low >= Pow2(255 - i))
    ensures r >= HALF ==> 2 * r - W == Times(low - Pow2(255 - i), Pow2(i + 1))
    ensures r < HALF ==> 2 * r == Times(low, Pow2(i + 1))
  {
    HalfRegister(i);
    hide Pow2, Times;
    var q, u := Pow2(255 - i), Pow2(i);
    ScalarMult.TopBit(low, 0, q, u, HALF);
    TwiceTimes(u, low);
    ShiftDifference(low, q, u);
  }

  lemma ShiftDifference(low: int, q: int, u: int)
    ensures Times(low - q, 2 * u) == 2 * Times(low, u) - 2 * Times(q, u)
  {
    TimesAll();
    hide Times;
    assert (low - q) * (2 * u) == 2 * (low * u) - 2 * (q * u);
  }

  lemma ShiftedStep(k: nat, i: nat, top: nat, low: nat, r: Word) returns (bit: nat, low': nat)
    requires i < 256 && Shifted(k, i, top, low, r)
    ensures bit == (if r >= HALF then 1 else 0)
    ensures low' == (if low >= Pow2(255 - i) then low - Pow2(255 - i) else low)
    ensures r >= HALF <==> low >= Pow2(255 - i)
    ensures Shifted(k, i + 1, 2 * top + bit, low', Add(r, r, false).0)
  {
    HalfRegister(i);
    hide Pow2, Times;
    ShiftBit(low, i, r);
    var q := Pow2(255 - i);
    bit := if low >= q then 1 else 0;
    low' := if low >= q then low - q else low;
    assert bit * q == if low >= q then q else 0;
    ScalarMult.MoveBit(low, top, q, 0, bit);
  }

  /** The register r2 keeps holding the common bits that are still to come. */
  lemma AndStep(low0: nat, low1: nat, i: nat, r2: Word)
    requires i < 256 && r2 == Times(BitAnd(low0, low1, 256 - i), Pow2(i))
    ensures Add(r2, r2, false).1 <==> low0 >= Pow2(255 - i) && low1 >= Pow2(255 - i)
    ensures Add(r2, r2, false).0 == Times(BitAnd(if low0 >= Pow2(255 - i) then low0 - Pow2(255 - i) else low0,
                                                 if low1 >= Pow2(255 - i) then low1 - Pow2(255 - i) else low1,
                                                 255 - i), Pow2(i + 1))
  {
    var and := BitAnd(low0, low1, 256 - i);
    var h := Pow2(255 - i);
    var low0', low1' := if low0 >= h then low0 - h else low0, if low1 >= h then low1 - h else low1;
    assert and == BitAnd(low0', low1', 255 - i) + if low0 >= h && low1 >= h then h else 0;
    assert BitAnd(low0', low1', 255 - i) < h;
    hide BitAnd, Pow2, Times;
    ShiftBit(and, i, r2);
  }

  /** a * x + b * y */
  ghost function Combo<G>(g: Group<G>, a: nat, x: G, b: nat, y: G): G
  {
    g.add(Mult(g, a, x), Mult(g, b, y))
  }

  /** The four sums that a round of the joint loop forms. */
  lemma ComboRound<G(!new)>(g: Group<G>, a: nat, x: G, b: nat, y: G)
    requires Abelian(g)
    ensures g.add(Combo(g, a, x, b, y), Combo(g, a, x, b, y)) == Combo(g, 2 * a, x, 2 * b, y)
    ensures g.add(Combo(g, a, x, b, y), x) == Combo(g, a + 1, x, b, y)
    ensures g.add(Combo(g, a, x, b, y), y) == Combo(g, a, x, b + 1, y)
    ensures g.add(Combo(g, a, x, b, y), g.add(x, y)) == Combo(g, a + 1, x, b + 1, y)
  {
    hide Mult, Abelian;
    var p, q := Mult(g, a, x), Mult(g, b, y);
    MultTwice(g, a, x);
    MultTwice(g, b, y);
    Exchange(g, p, q, p, q);
    Exchange(g, p, q, x, y);
  }

  lemma MultTwice<G(!new)>(g: Group<G>, a: nat, x: G)
    requires Abelian(g)
    ensures Mult(g, 2 * a, x) == g.add(Mult(g, a, x), Mult(g, a, x))
    ensures Mult(g, a + 1, x) == g.add(Mult(g, a, x), x)
  {
    MultAdd(g, a, a, x);
    assert a + a == 2 * a;
  }

  /** (p + q) + (x + y) = (p + x) + (q + y), and its degenerate cases. */
  lemma Exchange<G(!new)>(g: Group<G>, p: G, q: G, x: G, y: G)
    requires Abelian(g)
    ensures g.add(g.add(p, q), g.add(x, y)) == g.add(g.add(p, x), g.add(q, y))
    ensures g.add(g.add(p, q), x) == g.add(g.add(p, x), q)
    ensures g.add(g.add(p, q), y) == g.add(p, g.add(q, y))
  {
    assert g.add(g.add(p, q), x) == g.add(p, g.add(q, x)) == g.add(p, g.add(x, q)) == g.add(g.add(p, x), q);
    calc {
      g.add(g.add(p, q), g.add(x, y));
      g.add(g.add(g.add(p, q), x), y);
      g.add(g.add(g.add(p, x), q), y);
      g.add(g.add(p, x), g.add(q, y));
    }
  }

  /** The triple stands for the element: it need not be reduced, but its sums fit a register. */
  ghost predicate Stands<G(!new)>(c: Curve<G>, t: Point, e: G)
  {
    Loose(t, MulMod.P) && ScalarMult.Represents(c, Reduce(t, MulMod.P), e)
  }

  lemma RepStands<G(!new)>(c: Curve<G>, t: Point, e: G)
    requires ScalarMult.Represents(c, t, e)
    ensures Stands(c, t, e) && Reduced(t, MulMod.P) && Reduce(t, MulMod.P) == t
  {
    hide Mod;
    ReducedMod(t, MulMod.P);
  }

  /** `call ProjAdd`, with the elements that its operands stand for if they stand for any. */
  method AddRep<G(!new)>(t: Point, u: Point, r28: Word, r29: Word, ghost c: Curve<G>, ghost x: G, ghost y: G)
    returns (r: Point)
    requires MulMod.Loaded(r29, r28) && r29 == MulMod.P && Implements(c, CURVE_B, MulMod.P)
    requires Registers(t) && Registers(u)
    ensures Reduced(r, MulMod.P) && Registers(r)
    ensures ScalarMult.Represents(c, t, x) && Stands(c, u, y) ==> ScalarMult.Represents(c, r, c.group.add(x, y))
    ensures Stands(c, t, x) && ScalarMult.Represents(c, u, y) ==> ScalarMult.Represents(c, r, c.group.add(x, y))
  {
    hide ScalarMult.Represents, Implements, Sum, Reduce;
    r := ProjAdd(t, u, CURVE_B, r28, r29);
    AddPointsReduced(t, u, CURVE_B, MulMod.P);
    if ScalarMult.Represents(c, t, x) {
      RepStands(c, t, x);
    }
    if ScalarMult.Represents(c, u, y) {
      RepStands(c, u, y);
    }
    if ScalarMult.Represents(c, Reduce(t, MulMod.P), x) && ScalarMult.Represents(c, Reduce(u, MulMod.P), y) {
      ScalarMult.SumRep(c, Reduce(t, MulMod.P), Reduce(u, MulMod.P), x, y);
    }
  }

  /** One round of the joint loop: double, then add G + Q, Q or G according to the top bits. */
  method JointRound<G(!new)>(acc: Point, sum: Point, key: Point, gen: Point, both: bool, bit0: bool, bit1: bool,
                             r28: Word, r29: Word, ghost c: Curve<G>, ghost q: G, ghost g: G, ghost a: nat, ghost b: nat)
    returns (acc': Point)
    requires MulMod.Loaded(r29, r28) && r29 == MulMod.P && Implements(c, CURVE_B, MulMod.P)
    requires both <==> bit0 && bit1
    requires Registers(acc) && Registers(sum) && Registers(key)
    requires Stands(c, key, q) ==> ScalarMult.Represents(c, acc, Combo(c.group, a, q, b, g))
    requires Stands(c, key, q) ==> ScalarMult.Represents(c, sum, c.group.add(q, g))
    requires ScalarMult.Represents(c, gen, g)
    ensures Reduced(acc', MulMod.P) && Registers(acc')
    ensures Stands(c, key, q) ==>
              ScalarMult.Represents(c, acc',
                Combo(c.group, 2 * a + (if bit0 then 1 else 0), q, 2 * b + (if bit1 then 1 else 0), g))
  {
    hide ScalarMult.Represents, Stands, Implements, Combo, Sum, Reduce, Mod, Times;
    ScalarMult.ImpliesAbelian(c);
    ComboRound(c.group, a, q, b, g);
    ComboRound(c.group, 2 * a, q, 2 * b, g);
    RepStands(c, gen, g);
    if Stands(c, key, q) {
      RepStands(c, acc, Combo(c.group, a, q, b, g));
      RepStands(c, sum, c.group.add(q, g));
    }
    acc' := AddRep(acc, acc, r28, r29, c, Combo(c.group, a, q, b, g), Combo(c.group, a, q, b, g));
    if both {                                                       // add r2, r2, r2; bnc noBoth
      acc' := AddRep(acc', sum, r28, r29, c, Combo(c.group, 2 * a, q, 2 * b, g), c.group.add(q, g));
    } else {
      if bit0 {                                                     // add r6, r0, r0; bnc noG
        acc' := AddRep(acc', key, r28, r29, c, Combo(c.group, 2 * a, q, 2 * b, g), q);
      }
      if bit1 {                                                     // add r6, r1, r1; bnc noY
        acc' := AddRep(acc', gen, r28, r29, c, Combo(c.group, 2 * a, q, 2 * b, g), g);
      }
    }
  }

  /**
   The 256-step loop: for all 256-bit u0 and u1 the accumulator represents u0 * Q + u1 * G, also for
   coordinates of Q that are not reduced as long as their sum fits.
   */
  method JointMult<G(!new)>(u0: Word, u1: Word, key: Point, gen: Point, r28: Word, r29: Word,
                            ghost c: Curve<G>, ghost q: G, ghost g: G)
    returns (acc: Point)
    requires MulMod.Loaded(r29, r28) && r29 == MulMod.P && Implements(c, CURVE_B, MulMod.P)
    requires Registers(key) && ScalarMult.Represents(c, gen, g)
    ensures Reduced(acc, MulMod.P)
    ensures Stands(c, key, q) ==> ScalarMult.Represents(c, acc, Combo(c.group, u0, q, u1, g))
  {
    hide ScalarMult.Represents, Stands, Implements, Combo, Shifted, BitAnd, Pow2, Times;
    RepStands(c, gen, g);
    var sum := AddRep(key, gen, r28, r29, c, q, g);
    var r0, r1 := u0, u1;
    AndFits(u0, u1);
    var r2: Word := BitAnd(u0, u1, 256);                            // and r2, r0, r1
    acc := INFINITY;
    ComboNone(c, q, g);
    ghost var top0, low0, top1, low1 := 0, u0, 0, u1;
    ShiftedStart(u0);
    ShiftedStart(u1);
    ShiftedAnd(u0, u1);
    for i := 0 to 256
      invariant top0 >= 0 && top1 >= 0 && low0 >= 0 && low1 >= 0
      invariant Shifted(u0, i, top0, low0, r0) && Shifted(u1, i, top1, low1, r1)
      invariant r2 == Times(BitAnd(low0, low1, 256 - i), Pow2(i))
      invariant Reduced(acc, MulMod.P)
      invariant Stands(c, key, q) ==> ScalarMult.Represents(c, acc, Combo(c.group, top0, q, top1, g))
    {
      AndStep(low0, low1, i, r2);
      ghost var bit0, bit1;
      bit0, low0 := ShiftedStep(u0, i, top0, low0, r0);
      bit1, low1 := ShiftedStep(u1, i, top1, low1, r1);
      var both := Add(r2, r2, false);
      acc := JointRound(acc, sum, key, gen, both.1, Add(r0, r0, false).1, Add(r1, r1, false).1, r28, r29,
                        c, q, g, top0, top1);
      top0, top1 := 2 * top0 + bit0, 2 * top1 + bit1;
      r2, r0, r1 := both.0, Add(r0, r0, false).0, Add(r1, r1, false).0;
    }
    ShiftedEnd(u0, top0, low0, r0);
    ShiftedEnd(u1, top1, low1, r1);
  }

  lemma AndFits(u0: Word, u1: Word)
    ensures BitAnd(u0, u1, 256) < W
  {
    ModInverse.Pow2Register();
    hide Pow2;
  }

  lemma ShiftedStart(u: Word)
    ensures Shifted(u, 0, 0, u, u)
  {
    TimesAll();
    hide Times;
    ModInverse.Pow2Register();
    hide Pow2;
  }

  lemma ShiftedAnd(u0: Word, u1: Word)
    ensures BitAnd(u0, u1, 256) == Times(BitAnd(u0, u1, 256 - 0), Pow2(0))
  {
    TimesAll();
    hide Times;
    ModInverse.Pow2Register();
    hide Pow2;
  }

  lemma ShiftedEnd(u: nat, top: nat, low: nat, r: nat)
    requires Shifted(u, 256, top, low, r)
    ensures top == u
  {
    TimesAll();
    hide Times;
    ModInverse.Pow2Register();
    hide Pow2;
  }

  lemma ComboNone<G(!new)>(c: Curve<G>, q: G, g: G)
    requires Implements(c, CURVE_B, MulMod.P)
    ensures ScalarMult.Represents(c, INFINITY, Combo(c.group, 0, q, 0, g))
  {
  }

  // ----- p256verify

  ghost predicate Prime(n: int)
  {
    n > 1 && forall d :: d > 0 && Divides(d, n) ==> d == 1 || d == n
  }

  lemma PrimeGcd(g: int, a: int, m: int)
    requires Prime(m) && 0 < a < m && IsGcd(g, a, m)
    ensures g == 1
  {
    TimesAll();
    hide Times;
    assert Divides(g, m) && Divides(g, a);
    var k :| a == Times(g, k);
    assert g * k == a;
    assert k >= 1 by { assert k <= 0 ==> g * k <= 0; }
    assert g <= g * k;
  }

  /** An inverse, in the form that the products of the firmware use. */
  lemma InverseProduct(r1: int, a: int, m: nat)
    requires m > 1 && Cong(Times(r1, a), 1, m)
    ensures ModMul(r1, a, m) == 1
  {
    DivModUnique(1, 0, 1, m);
  }

  lemma AffineCoordinate(inv: int, x: int, z: int, m: nat)
    requires m > 1 && 0 <= x < m && ModMul(inv, z, m) == 1
    ensures ModMul(ModMul(inv, x, m), z, m) == x
  {
    hide ModMul;
    ModMulCommutes(inv, x, m);
    ModMulAssoc(x, inv, z, m);
    ModMulOne(x, m);
  }

  /** y^2 = x^3 - 3x + b modulo p. */
  ghost predicate OnCurve(x: int, y: int)
  {
    Mod(Times(y, y), MulMod.P) == Mod(Times(Times(x, x), x) - x - x - x + CURVE_B, MulMod.P)
  }

  /** It is the equation of the curve whose chords and tangents the addition formula follows. */
  lemma OnCurveIs(x: int, y: int)
    ensures OnCurve(x, y) <==> Mod(CurveLaw.Weierstrass(Point(x, y, 1), -3, CURVE_B), MulMod.P) == 0
  {
    hide Times;
    var u, v := Times(y, y), Times(Times(x, x), x) - x - x - x + CURVE_B;
    TimesIs(1, 1);
    TimesIs(u, 1);
    TimesIs(1, x);
    TimesIs(x, -3);
    TimesIs(1, CURVE_B);
    assert CurveLaw.Weierstrass(Point(x, y, 1), -3, CURVE_B) == u - v;
    SameResidue(u, v, MulMod.P);
  }

  lemma SameResidue(u: int, v: int, m: nat)
    requires m > 0
    ensures Mod(u, m) == Mod(v, m) <==> Mod(u - v, m) == 0
  {
    ModSmall(0, m);
    if Mod(u, m) == Mod(v, m) {
      CongSub(u, v, v, v, m);
    }
    if Mod(u - v, m) == 0 {
      CongAdd(u - v, 0, v, v, m);
    }
  }

  /** The base point is on the curve. */
  lemma BaseOnCurve(x: int, y: int)
    requires x == GX && y == GY
    ensures OnCurve(x, y)
  {
    hide Times;
    TimesIs(y, y);
    TimesIs(x, x);
    TimesIs(x * x, x);
  }

  /** The right-hand side as the program computes it from c = x^3: three `subm` and an `addm`. */
  function RightSide(c: Word, x: Word): (r: Word)
  {
    AddM(SubM(SubM(SubM(c, x, MulMod.P), x, MulMod.P), x, MulMod.P), CURVE_B, MulMod.P)
  }

  /** No borrow is dropped: x is reduced, or x^3 modulo p is large enough for what x exceeds p by. */
  ghost predicate NoBorrow(x: int)
  {
    x < MulMod.P || Mod(Times(Times(x, x), x), MulMod.P) >= 3 * (x - MulMod.P)
  }

  /** With no borrow dropped the register holds x^3 - 3x + b modulo p; otherwise a
   residue of one or two times 2^256 more. */
  lemma {:induction false} RightSideIs(c: Word, x: Word)
    requires c < MulMod.P
    ensures var v: int := (c as int) - x - x - x + CURVE_B;
            if x < MulMod.P || c >= 3 * (x - MulMod.P) then RightSide(c, x) == Mod(v, MulMod.P)
            else Mod(RightSide(c, x), MulMod.P) == Mod(v + W, MulMod.P) || Mod(RightSide(c, x), MulMod.P) == Mod(v + 2 * W, MulMod.P)
  {
    hide Mod, SubM, AddM;
    var v: int := (c as int) - x - x - x + CURVE_B;
    var k, u := ThreeTimes(c, x);
    var k' := PlusB(SubM(SubM(SubM(c, x, MulMod.P), x, MulMod.P), x, MulMod.P));
    MultipleAdded(v + u * W, k + k', RightSide(c, x));
    if u == 0 {
      ModSmall(RightSide(c, x), MulMod.P);
    }
  }

  lemma PlusB(s: Word) returns (k: int)
    ensures AddM(s, CURVE_B, MulMod.P) == (s as int) + CURVE_B + k * MulMod.P && -1 <= k <= 0
    ensures s < MulMod.P ==> AddM(s, CURVE_B, MulMod.P) < MulMod.P
  {
    k := if s + CURVE_B >= MulMod.P then -1 else 0;
  }

  /** Three times `subm`: k corrections and u dropped borrows. */
  lemma {:induction false} ThreeTimes(c: Word, x: Word) returns (k: int, u: int)
    requires c < MulMod.P
    ensures var s3 := SubM(SubM(SubM(c, x, MulMod.P), x, MulMod.P), x, MulMod.P);
            && s3 == (c as int) - x - x - x + k * MulMod.P + u * W && 0 <= u <= 2
            && (u == 0 <==> x < MulMod.P || c >= 3 * (x - MulMod.P))
            && (u == 0 ==> s3 < MulMod.P)
  {
    var k1, u1 := Once(c, x);
    var s1 := SubM(c, x, MulMod.P);
    var k2, u2 := Once(s1, x);
    var s2 := SubM(s1, x, MulMod.P);
    var k3, u3 := Once(s2, x);
    k, u := k1 + k2 + k3, u1 + u2 + u3;
    hide SubM;
  }

  lemma Once(s: Word, x: Word) returns (k: int, u: int)
    ensures SubM(s, x, MulMod.P) == (s as int) - x + k * MulMod.P + u * W && 0 <= k <= 1 && 0 <= u <= 1
    ensures k == (if s < x then 1 else 0) && (u == 1 <==> s + MulMod.P < x)
  {
    k := if s < x then 1 else 0;
    u := if s + MulMod.P < x then 1 else 0;
  }

  lemma MultipleAdded(v: int, k: int, r: int)
    requires r == v + k * MulMod.P
    ensures Mod(r, MulMod.P) == Mod(v, MulMod.P)
  {
    ModAddMultiple(v, k, MulMod.P);
  }

  lemma SameShifted(v: int, d: int)
    ensures Mod(v + d, MulMod.P) == Mod(v, MulMod.P) ==> Mod(d, MulMod.P) == 0
  {
    if Mod(v + d, MulMod.P) == Mod(v, MulMod.P) {
      CongSub(v + d, v, v, v, MulMod.P);
    }
  }

  lemma RegisterShifts(v: int)
    ensures Mod(v + W, MulMod.P) != Mod(v, MulMod.P) && Mod(v + 2 * W, MulMod.P) != Mod(v, MulMod.P)
  {
    assert Mod(W, MulMod.P) != 0 && Mod(2 * W, MulMod.P) != 0;
    hide Mod;
    SameShifted(v, W);
    SameShifted(v, 2 * W);
  }

  /**
   The curve check, for all pairs of registers: both sides of the equation, then `cmp`. It decides the
   equation if and only if no borrow is dropped; where one is, a pair is accepted only if it violates it.
   */
  method CheckOnCurve(x: Word, y: Word, r28: Word, r29: Word) returns (on: bool)
    requires MulMod.Loaded(r29, r28) && r29 == MulMod.P
    ensures NoBorrow(x) ==> (on <==> OnCurve(x, y))
    ensures !NoBorrow(x) ==> !(on && OnCurve(x, y))
    ensures on <==> Mod(Times(y, y), MulMod.P) == RightSide(Mod(Times(Times(x, x), x), MulMod.P), x)
  {
    hide Mod, Times, AddM, SubM, RightSide;
    ResidueFacts(r29);
    var r25 := AddM(y, 0, r29);                                     // addm r25, r24, r31
    AddMResidue(y, 0, r29);
    var r6, R6 := FieldMul(y, r25, r28, r29, y, y);
    r25 := AddM(x, 0, r29);
    AddMResidue(x, 0, r29);
    var r19, R19 := FieldMul(x, r25, r28, r29, x, x);
    r19, R19 := FieldMul(x, r19, r28, r29, x, R19);
    TimesCommutes(x, Times(x, x));
    ghost var c := r19;
    RightSideIs(c, x);
    SameCube(Times(Times(x, x), x), c, (x as int) + x + x - CURVE_B);
    RegisterShifts((c as int) - x - x - x + CURVE_B);
    RightSideOf(c, x);
    r19 := SubM(r19, x, r29);
    r19 := SubM(r19, x, r29);
    r19 := SubM(r19, x, r29);
    r19 := AddM(r19, CURVE_B, r29);
    on := r6 == r19;
  }

  /** A pair with an unreduced x that violates the equation and passes the check. */
  lemma BorrowedCheckErrs(x: Word, y: Word)
    requires x == MulMod.P + 1
    requires y == 0x56e3adcc_c85b52f2_e205c9eb_e5a38d36_94cc8f34_35c63926_8dcbcc09_d2611d02
    ensures !NoBorrow(x) && !OnCurve(x, y)
    ensures Mod(Times(y, y), MulMod.P) == RightSide(Mod(Times(Times(x, x), x), MulMod.P), x)
  {
    hide Times;
    TimesIs(y, y);
    TimesIs(x, x);
    TimesIs(x * x, x);
    assert Mod(Times(Times(x, x), x), MulMod.P) == 1;
  }

  lemma RightSideOf(c: Word, x: Word)
    ensures RightSide(c, x) == AddM(SubM(SubM(SubM(c, x, MulMod.P), x, MulMod.P), x, MulMod.P), CURVE_B, MulMod.P)
  {
  }

  lemma SameCube(v: int, c: int, d: int)
    requires c == Mod(v, MulMod.P)
    ensures Mod(v - d, MulMod.P) == Mod(c - d, MulMod.P)
  {
    ModSelf(v, MulMod.P);
    CongSub(c, v, d, d, MulMod.P);
  }

  /** Both parts of the signature are in [1, n - 1]. */
  predicate InRange(sigR: int, sigS: int)
  {
    0 < sigR < MulMod.N && 0 < sigS < MulMod.N
  }

  /** The checks that lead to `fail`. */
  ghost predicate Checks(x: int, y: int, sigR: int, sigS: int)
  {
    OnCurve(x, y) && InRange(sigR, sigS)
  }

  /** Coordinates on which no instruction loses a bit: all reduced ones, and nearly all others. */
  ghost predicate Tame(x: int, y: int)
  {
    NoBorrow(x) && x + y < W + MulMod.P
  }

  /** Only the neutral element has representatives without affine coordinates. */
  ghost predicate ZeroAtInfinity<G(!new)>(c: Curve<G>)
  {
    forall t, e :: ScalarMult.Represents(c, t, e) ==> (t.z == 0 <==> e == c.group.zero)
  }

  /** u2 * Q + u1 * G for w the inverse of s. */
  ghost function Claimed<G>(c: Curve<G>, sigR: int, msg: int, w: int, q: G, g: G): G
  {
    Combo(c.group, ModMul(sigR, w, MulMod.N), q, ModMul(msg, w, MulMod.N), g)
  }

  /** The sum is not the neutral element. */
  ghost predicate FiniteSum<G(!new)>(c: Curve<G>, sigR: int, sigS: int, msg: int, q: G, g: G)
  {
    forall w | 0 <= w < MulMod.N && ModMul(w, sigS, MulMod.N) == 1 :: Claimed(c, sigR, msg, w, q, g) != c.group.zero
  }

  /** The inverse of a non-zero residue modulo a prime, as `ModInvVar` computes it. */
  method InversePrime(a: Word, m: Word) returns (r1: nat)
    requires Prime(m) && m % 2 == 1 && 0 < a < m
    ensures r1 < m && ModMul(r1, a, m) == 1
  {
    ghost var g;
    r1, g := ModInverse.ModInvVar(a, m);
    PrimeGcd(g, a, m);
    InverseProduct(r1, a, m);
  }

  /** How a run of `p256verify` ends: with a register for the comparison, or not at all. */
  datatype Outcome = Stored(r24: Word) | NeverEnds

  /**
   `p256verify`, for all registers: the register stored for the comparison is the complement of r when
   a check fails; otherwise it is the affine x-coordinate of a representative t of u2 * Q + u1 * G. If
   that sum is the neutral element, its Z is zero and the final `ModInvVar` goes on for ever.
   */
  method P256Verify<G(!new)>(msg: Word, sigR: Word, sigS: Word, x: Word, y: Word,
                             ghost c: Curve<G>, ghost q: G, ghost g: G)
    returns (o: Outcome, ghost w: nat, ghost t: Point)
    requires Prime(MulMod.N) && Prime(MulMod.P) && Implements(c, CURVE_B, MulMod.P) && ZeroAtInfinity(c)
    requires OnCurve(x, y) ==> ScalarMult.Represents(c, Reduce(Point(x, y, 1), MulMod.P), q)
    requires ScalarMult.Represents(c, Point(GX, GY, 1), g)
    ensures !InRange(sigR, sigS) ==> o == Stored(W - 1 - sigR)
    ensures NoBorrow(x) && !OnCurve(x, y) ==> o == Stored(W - 1 - sigR)
    ensures !NoBorrow(x) && OnCurve(x, y) ==> o == Stored(W - 1 - sigR)
    ensures o.NeverEnds? ==> forall k: nat :: ModInverse.Passes(ModInverse.Euclid(0, 1, MulMod.P, 0), MulMod.P, k).Again?
    ensures Tame(x, y) && Checks(x, y, sigR, sigS) ==>
              && w < MulMod.N && ModMul(w, sigS, MulMod.N) == 1
              && (o.NeverEnds? <==> Claimed(c, sigR, msg, w, q, g) == c.group.zero)
              && (o.Stored? ==> ScalarMult.Represents(c, t, Claimed(c, sigR, msg, w, q, g)) && t.z != 0
                                && o.r24 < MulMod.P && ModMul(o.r24, t.z, MulMod.P) == t.x)
  {
    hide ScalarMult.Represents, Stands, Implements, Combo, Mod, Times, ModMul, Prime, OnCurve, NoBorrow, RightSide, Reduce,
         ModInverse.Passes, ModInverse.Step, MulMod.Reducible;
    w, t := 0, INFINITY;
    o := Stored(W - 1 - sigR);                                      // notx r24, r24
    var r28, r29 := MulMod.SetupP256PandMuLow();
    var on := CheckOnCurve(x, y, r28, r29);
    if !on { return; }                                              // bnz fail
    r28, r29 := MulMod.SetupP256NandMuLow();
    if sigR == 0 || !Sub(sigR, r29, false).1 { return; }            // cmp r6, r31; cmp r6, r29
    if sigS == 0 || !Sub(sigS, r29, false).1 { return; }
    var r1 := InversePrime(sigS, r29);
    w := r1;
    var r0 := MulMod.MulMod(sigR, r1, r28, r29);
    r1 := MulMod.MulMod(msg, r1, r28, r29);
    r28, r29 := MulMod.SetupP256PandMuLow();
    var acc := JointMult(r0, r1, Point(x, y, 1), Point(GX, GY, 1), r28, r29, c, q, g);
    t := acc;
    ghost var sound := Tame(x, y) && OnCurve(x, y);
    if sound {
      KeyStands(c, x, y, q);
    }
    if acc.z == 0 {                                                 // ModInvVar on zero
      forall k: nat ensures ModInverse.Passes(ModInverse.Euclid(0, 1, MulMod.P, 0), MulMod.P, k).Again? {
        ModInverse.DivergesOnZero(MulMod.P, k);
      }
      return NeverEnds, w, t;
    }
    r1 := InversePrime(acc.z, r29);
    var r19 := MulMod.MulMod(r1, acc.x, r28, r29);
    AffineCoordinate(r1, acc.x, acc.z, r29);
    r28, r29 := MulMod.SetupP256NandMuLow();
    o := Stored(SubM(r19, 0, r29));                                 // subm r24, r19, r31
  }

  lemma KeyStands<G(!new)>(c: Curve<G>, x: Word, y: Word, q: G)
    requires x + y < W + MulMod.P && ScalarMult.Represents(c, Reduce(Point(x, y, 1), MulMod.P), q)
    ensures Stands(c, Point(x, y, 1), q)
  {
  }

  /** Two representatives of one element are proportional. */
  ghost predicate Proportional<G(!new)>(c: Curve<G>)
  {
    forall t, u, e :: ScalarMult.Represents(c, t, e) && ScalarMult.Represents(c, u, e) ==>
      ModMul(t.x, u.z, MulMod.P) == ModMul(u.x, t.z, MulMod.P)
  }

  /** The element e has the affine x-coordinate x. */
  ghost predicate HasX<G(!new)>(c: Curve<G>, e: G, x: int)
  {
    exists t :: ScalarMult.Represents(c, t, e) && t.z != 0 && ModMul(x, t.z, MulMod.P) == t.x
  }

  /** The equation of ECDSA verification: r is the x-coordinate of (r/s) * Q + (msg/s) * G. */
  ghost predicate Matches<G(!new)>(c: Curve<G>, sigR: int, sigS: int, msg: int, q: G, g: G)
  {
    exists w :: 0 <= w < MulMod.N && ModMul(w, sigS, MulMod.N) == 1 && HasX(c, Claimed(c, sigR, msg, w, q, g), sigR)
  }

  /** The affine coordinate x of t is also that of every proportional triple. */
  lemma SameAffine(x: nat, t: Point, u: Point)
    requires Prime(MulMod.P) && Reduced(t, MulMod.P) && Reduced(u, MulMod.P) && t.z != 0
    requires ModMul(x, t.z, MulMod.P) == t.x && ModMul(t.x, u.z, MulMod.P) == ModMul(u.x, t.z, MulMod.P)
    ensures ModMul(x, u.z, MulMod.P) == u.x
  {
    hide Prime, ModMul;
    ModMulAssoc(x, t.z, u.z, MulMod.P);
    ModMulCommutes(t.z, u.z, MulMod.P);
    ModMulAssoc(x, u.z, t.z, MulMod.P);
    CancelFactor(ModMul(x, u.z, MulMod.P), u.x, t.z, MulMod.P);
  }

  /** An element has at most one x-coordinate, whichever representative it is read from. */
  lemma XUnique<G(!new)>(c: Curve<G>, e: G, t: Point, x: nat, x': nat)
    requires Prime(MulMod.P) && Proportional(c) && x < MulMod.P && x' < MulMod.P
    requires ScalarMult.Represents(c, t, e) && t.z != 0 && ModMul(x, t.z, MulMod.P) == t.x && HasX(c, e, x')
    ensures x == x'
  {
    hide Prime, ModMul;
    var u :| ScalarMult.Represents(c, u, e) && u.z != 0 && ModMul(x', u.z, MulMod.P) == u.x;
    SameAffine(x', u, t);
    CancelFactor(x, x', t.z, MulMod.P);
  }

  /** The equation as ECDSA states it, with the x-coordinate reduced modulo n. */
  ghost predicate Standard<G(!new)>(c: Curve<G>, sigR: int, sigS: int, msg: int, q: G, g: G)
  {
    exists w, x :: 0 <= w < MulMod.N && ModMul(w, sigS, MulMod.N) == 1 && 0 <= x < MulMod.P
                   && HasX(c, Claimed(c, sigR, msg, w, q, g), x) && Mod(x, MulMod.N) == sigR
  }

  /**
   How the firmware's equation and that of ECDSA differ, for every signature in range whose sum has the
   x-coordinate x: what the firmware accepts satisfies ECDSA, and a signature that satisfies ECDSA is
   accepted if and only if x is below n.
   */
  lemma StandardIff<G(!new)>(c: Curve<G>, sigR: int, sigS: int, msg: int, q: G, g: G, w: nat, x: nat)
    requires Prime(MulMod.P) && Proportional(c) && InRange(sigR, sigS)
    requires w < MulMod.N && ModMul(w, sigS, MulMod.N) == 1 && x < MulMod.P && HasX(c, Claimed(c, sigR, msg, w, q, g), x)
    ensures Standard(c, sigR, sigS, msg, q, g) <==> sigR == Mod(x, MulMod.N)
    ensures Matches(c, sigR, sigS, msg, q, g) <==> sigR == x
    ensures Matches(c, sigR, sigS, msg, q, g) <==> Standard(c, sigR, sigS, msg, q, g) && x < MulMod.N
  {
    hide Prime, ModMul, Mod, Claimed, HasX, Proportional;
    ModSmall(x, MulMod.N);
    forall v, y | 0 <= v < MulMod.N && ModMul(v, sigS, MulMod.N) == 1 && 0 <= y < MulMod.P
                  && HasX(c, Claimed(c, sigR, msg, v, q, g), y)
      ensures v == w && y == x
    {
      ModInverse.InverseUnique(sigS, v, w, MulMod.N);
      OneX(c, Claimed(c, sigR, msg, w, q, g), x, y);
    }
  }

  lemma OneX<G(!new)>(c: Curve<G>, e: G, x: nat, x': nat)
    requires Prime(MulMod.P) && Proportional(c) && x < MulMod.P && x' < MulMod.P && HasX(c, e, x) && HasX(c, e, x')
    ensures x == x'
  {
    hide Prime, ModMul, Proportional;
    var t :| ScalarMult.Represents(c, t, e) && t.z != 0 && ModMul(x, t.z, MulMod.P) == t.x;
    XUnique(c, e, t, x, x');
  }

  datatype Verdict = Accepted | Rejected | Undecided

  /**
   `fips_p256_ecdsa_verify`, for all registers: accepts exactly when the checks pass and the equation of
   ECDSA holds, and does not return exactly when the checks pass and the sum is neutral.
   */
  method EcdsaVerify<G(!new)>(msg: Word, sigR: Word, sigS: Word, x: Word, y: Word,
                              ghost c: Curve<G>, ghost q: G, ghost g: G)
    returns (v: Verdict)
    requires Prime(MulMod.N) && Prime(MulMod.P)
    requires Implements(c, CURVE_B, MulMod.P) && ZeroAtInfinity(c) && Proportional(c)
    requires OnCurve(x, y) ==> ScalarMult.Represents(c, Reduce(Point(x, y, 1), MulMod.P), q)
    requires ScalarMult.Represents(c, Point(GX, GY, 1), g)
    ensures !InRange(sigR, sigS) ==> v == Rejected
    ensures !NoBorrow(x) && OnCurve(x, y) ==> v == Rejected
    ensures Tame(x, y) ==>
              && (v == Undecided <==> Checks(x, y, sigR, sigS) && !FiniteSum(c, sigR, sigS, msg, q, g))
              && (v == Accepted <==> Checks(x, y, sigR, sigS) && Matches(c, sigR, sigS, msg, q, g))
  {
    hide ScalarMult.Represents, Implements, Combo, Mod, Times, ModMul, Prime, OnCurve, NoBorrow, Claimed, ZeroAtInfinity,
         ModInverse.Passes;
    var o;
    ghost var w, t;
    o, w, t := P256Verify(msg, sigR, sigS, x, y, c, q, g);
    v := if o.NeverEnds? then Undecided else if o.r24 == sigR then Accepted else Rejected;
    if Tame(x, y) && Checks(x, y, sigR, sigS) {
      forall u | 0 <= u < MulMod.N && ModMul(u, sigS, MulMod.N) == 1
        ensures u == w
      {
        ModInverse.InverseUnique(sigS, u, w, MulMod.N);
      }
      if o.Stored? && Matches(c, sigR, sigS, msg, q, g) {
        XUnique(c, Claimed(c, sigR, msg, w, q, g), t, o.r24, sigR);
      }
      if o.NeverEnds? {
        NeutralHasNoX(c, sigR);
      }
    }
  }

  /** The neutral element has no x-coordinate. */
  lemma NeutralHasNoX<G(!new)>(c: Curve<G>, x: int)
    requires ZeroAtInfinity(c)
    ensures !HasX(c, c.group.zero, x)
  {
    hide ModMul;
  }

  /** Multiplication by a non-zero residue modulo a prime is injective. */
  lemma CancelFactor(x: nat, y: nat, z: Word, m: Word)
    requires Prime(m) && m % 2 == 1 && x < m && y < m && 0 < z < m && ModMul(x, z, m) == ModMul(y, z, m)
    ensures x == y
  {
    hide ModMul;
    var inv := InverseExists(z, m);
    ModMulAssoc(x, z, inv, m);
    ModMulAssoc(y, z, inv, m);
    ModMulCommutes(inv, z, m);
    ModMulOne(x, m);
    ModMulOne(y, m);
  }

  lemma InverseExists(a: Word, m: Word) returns (inv: nat)
    requires Prime(m) && m % 2 == 1 && 0 < a < m
    ensures inv < m && ModMul(inv, a, m) == 1
  {
    var g;
    inv, g := ModInverse.BezoutWitness(a, m);
    PrimeGcd(g, a, m);
    InverseProduct(inv, a, m);
  }
}
