/**
 Groups as seen by the scalar multiplication loops: an abstract abelian group, and a relation
 between projective triples and its elements that `ProjAdd` is assumed to implement.
 */
module Groups {
  import opened Modular
  import opened Projective

  datatype Group<!G> = Group(zero: G, add: (G, G) -> G)

  ghost predicate Abelian<G(!new)>(g: Group<G>)
  {
    && (forall x, y, z :: g.add(g.add(x, y), z) == g.add(x, g.add(y, z)))
    && (forall x, y :: g.add(x, y) == g.add(y, x))
    && (forall x :: g.add(x, g.zero) == x)
  }

  /** k * x, by repeated addition. */
  ghost function Mult<G>(g: Group<G>, k: nat, x: G): (r: G)
  {
    if k == 0 then g.zero else g.add(Mult(g, k - 1, x), x)
  }

  lemma Associate<G(!new)>(g: Group<G>, x: G, y: G, z: G)
    requires Abelian(g)
    ensures g.add(g.add(x, y), z) == g.add(x, g.add(y, z)) && g.add(x, g.zero) == x
  {
  }

  lemma {:induction false} MultAdd<G(!new)>(g: Group<G>, j: nat, k: nat, x: G)
    requires Abelian(g)
    ensures Mult(g, j + k, x) == g.add(Mult(g, j, x), Mult(g, k, x))
  {
    hide Abelian;
    if k > 0 {
      MultAdd(g, j, k - 1, x);
      Associate(g, Mult(g, j, x), Mult(g, k - 1, x), x);
    } else {
      Associate(g, Mult(g, j, x), x, x);
    }
  }

  lemma MultOne<G(!new)>(g: Group<G>, x: G)
    requires Abelian(g)
    ensures Mult(g, 1, x) == x && Mult(g, 2, x) == g.add(x, x)
  {
    assert Mult(g, 0, x) == g.zero;
    assert Mult(g, 1, x) == g.add(g.zero, x) == g.add(x, g.zero);
  }

  /**
   A curve: a group, and which reduced triples represent which of its elements. The relation
   contains (0:1:0), is closed under rescaling by units, and follows `ProjAdd`.
   */
  datatype Curve<!G> = Curve(group: Group<G>, rep: (Point, G) -> bool)

  ghost predicate Implements<G(!new)>(c: Curve<G>, b: int, p: nat)
    requires p > 0
  {
    && Abelian(c.group)
    && c.rep(INFINITY, c.group.zero)
    && (forall t, g, l :: c.rep(t, g) && Mod(l, p) != 0 ==> c.rep(Reduce(Scale(l, t), p), g))
    && (forall t, u, g, h :: c.rep(t, g) && c.rep(u, h) ==> c.rep(AddPoints(t, u, b, p), c.group.add(g, h)))
  }
}

/**
 `ScalarMult_internal`: a double-and-add loop over a scalar split into two random shares, with
 fresh projective rescaling in every round.
 */
module ScalarMult {
  import opened Accelerator
  import opened Modular
  import opened Projective
  import opened Groups
  import ModInverse
  import MulMod

  // ----- rotating a scalar through its most significant bit

  /** After i rotations: `top` holds the first i bits of k, `low` the remaining ones. */
  ghost predicate Rotated(k: nat, i: nat, top: nat, low: nat, r: nat)
    requires i <= 256
  {
    && low < Pow2(256 - i) && top < Pow2(i)
    && k == Times(top, Pow2(256 - i)) + low
    && r == Times(low, Pow2(i)) + top
  }

  lemma RotatedStart(k: Word)
    ensures Rotated(k, 0, 0, k, k)
  {
    TimesAll();
    hide Times;
    ModInverse.Pow2Register();
    hide Pow2;
  }

  lemma RotatedEnd(k: nat, top: nat, low: nat, r: nat)
    requires Rotated(k, 256, top, low, r)
    ensures top == k
  {
    TimesAll();
    hide Times;
    ModInverse.Pow2Register();
    hide Pow2;
  }

  /** The next bit is the most significant bit of the rotated register. */
  lemma TopBit(low: nat, top: nat, q: nat, u: nat, h: nat)
    requires low < 2 * q && top < u && Times(q, u) == h
    ensures Times(low, u) + top >= h <==> low >= q
    ensures Times(low, u) + top < 2 * h
  {
    TimesAll();
    hide Times;
    if low >= q {
      TimesMonotone(q, low, u, u);
    } else {
      TimesMonotone(low, q - 1, u, u);
      assert Times(q - 1, u) == Times(q, u) - u;
    }
    TimesMonotone(low, 2 * q - 1, u, u);
    assert Times(2 * q - 1, u) == 2 * Times(q, u) - u;
  }

  lemma MoveBit(low: int, top: int, q: int, u: int, bit: int)
    requires 0 <= bit <= 1
    ensures Times(2 * top + bit, q) + (low - bit * q) == Times(top, 2 * q) + low
    ensures Times(low - bit * q, 2 * u) + 2 * top + bit
         == 2 * (Times(low, u) + top) - (if bit == 1 then 2 * Times(q, u) - 1 else 0)
  {
    TimesAll();
    hide Times;
    assert Times(2 * top + bit, q) == 2 * (top * q) + bit * q;
    assert Times(low - bit * q, 2 * u) == 2 * (low * u) - 2 * (bit * q * u);
  }

  /** One rotation, `rshi r, r, r >> 255`. */
  lemma RotateStep(k: nat, i: nat, top: nat, low: nat, r: Word) returns (bit: nat, low': nat)
    requires i < 256 && Rotated(k, i, top, low, r)
    ensures bit == (if r >= HALF then 1 else 0)
    ensures Rotated(k, i + 1, 2 * top + bit, low', Rshi255(r, r))
  {
    var q, u := Pow2(256 - i - 1), Pow2(i);
    assert Pow2(256 - i) == 2 * q && Pow2(i + 1) == 2 * u;
    assert Times(q, u) == HALF by {
      Pow2Add(256 - i, i);
      ModInverse.Pow2Register();
      TwiceTimes(q, u);
      TimesIs(Pow2(256 - i), u);
    }
    hide Pow2, Times;
    TopBit(low, top, q, u, HALF);
    bit := if low >= q then 1 else 0;
    low' := if low >= q then low - q else low;
    assert bit * q == if low >= q then q else 0;
    MoveBit(low, top, q, u, bit);
    RotateValue(r);
  }

  lemma RotateValue(r: Word)
    ensures Rshi255(r, r) == if r >= HALF then 2 * r - W + 1 else 2 * r
  {
    assert (r * W + r) / HALF == 2 * r + r / HALF;
  }

  // ----- the routine

  lemma ScaleResidues(l: int, x: int, y: int, z: int, p: nat)
    requires p > 0
    ensures Reduce(Scale(l, Point(x, y, z)), p) == Point(ModMul(x, l, p), ModMul(y, l, p), ModMul(z, l, p))
  {
    ModMulCommutes(l, x, p);
    ModMulCommutes(l, y, p);
    ModMulCommutes(l, z, p);
  }

  /** `FetchBandRandomize`: the affine base point, rescaled by a fresh mask. */
  method FetchBandRandomize(x: Word, y: Word, mask: Word, r28: Word, r29: Word) returns (r: Point)
    requires MulMod.Loaded(r29, r28)
    ensures r == Reduce(Scale(Mod(mask, r29), Reduce(Point(x, y, 1), r29)), r29)
  {
    hide ModMul, Mod, Scale, MulMod.Reducible;
    var r26 := AddM(mask, 0, r29);                    // strnd r2; addm r26, r2, r31
    ModSmall(mask, r29);
    var r6 := MulMod.MulMod(x, r26, r28, r29);
    var r7 := MulMod.MulMod(y, r26, r28, r29);
    r := Point(r6, r7, r26);
    ScaleResidues(r26, Mod(x, r29), Mod(y, r29), Mod(1, r29), r29);
    ModMulReduced(x, r26, r29);
    ModMulReduced(y, r26, r29);
    ModMulReduced(1, r26, r29);
    ModMulOne(r26, r29);
  }

  /** The end of each round: the stored multiple 2B is rescaled by another fresh mask. */
  method Rescale(t: Point, mask: Word, r28: Word, r29: Word) returns (r: Point)
    requires MulMod.Loaded(r29, r28) && Reduced(t, r29)
    ensures r == Reduce(Scale(mask, t), r29)
  {
    hide ModMul, Mod, Scale, MulMod.Reducible;
    var r3 := MulMod.MulMod(t.x, mask, r28, r29);
    var r4 := MulMod.MulMod(t.y, mask, r28, r29);
    var r5 := MulMod.MulMod(t.z, mask, r28, r29);
    r := Point(r3, r4, r5);
    ScaleResidues(mask, t.x, t.y, t.z, r29);
  }

  /** A reduced triple that represents an element of the group. */
  ghost predicate Represents<G(!new)>(c: Curve<G>, t: Point, g: G)
  {
    Reduced(t, MulMod.P) && c.rep(t, g)
  }

  /** The degenerate triple: what becomes of a point that is rescaled by a multiple of p. */
  const NOWHERE: Point := Point(0, 0, 0)

  /** The triple represents the element, or has been destroyed by a mask. */
  ghost predicate Carries<G(!new)>(c: Curve<G>, t: Point, g: G, alive: bool)
  {
    if alive then Represents(c, t, g) else t == NOWHERE
  }

  /** A mask that rescaling survives. */
  ghost predicate Unit(mask: int)
  {
    Mod(mask, MulMod.P) != 0
  }

  lemma CarriesReduced<G(!new)>(c: Curve<G>, t: Point, g: G, alive: bool)
    requires Carries(c, t, g, alive)
    ensures Reduced(t, MulMod.P) && Registers(t) && Loose(t, MulMod.P)
  {
  }

  /** Rescaling by a unit keeps the element; by a multiple of p it destroys the triple. */
  lemma ScaleCarries<G(!new)>(c: Curve<G>, t: Point, g: G, alive: bool, l: int)
    requires Implements(c, CURVE_B, MulMod.P) && Carries(c, t, g, alive)
    ensures Carries(c, Reduce(Scale(l, t), MulMod.P), g, alive && Unit(l))
  {
    if !(alive && Unit(l)) {
      ScaledAway(l, t);
    }
  }

  lemma ScaledAway(l: int, t: Point)
    requires !Unit(l) || t == NOWHERE
    ensures Reduce(Scale(l, t), MulMod.P) == NOWHERE
  {
    ProductVanishes(l, t.x);
    ProductVanishes(l, t.y);
    ProductVanishes(l, t.z);
    hide ModMul, Mod;
    ScaleResidues(l, t.x, t.y, t.z, MulMod.P);
    ModMulCommutes(l, t.x, MulMod.P);
    ModMulCommutes(l, t.y, MulMod.P);
    ModMulCommutes(l, t.z, MulMod.P);
  }

  lemma ProductVanishes(l: int, x: int)
    ensures !Unit(l) || x == 0 ==> ModMul(l, x, MulMod.P) == 0
  {
    hide Times, Mod;
    if x == 0 {
      TimesIs(l, 0);
      ModSmall(0, MulMod.P);
    } else if !Unit(l) {
      ModMulReduced(l, x, MulMod.P);
      TimesIs(0, x);
      ModSmall(0, MulMod.P);
    }
  }

  /** A sum represents the sum of the elements unless an operand has been destroyed. */
  lemma SumCarries<G(!new)>(c: Curve<G>, t: Point, u: Point, g: G, h: G, a: bool, b: bool)
    requires Implements(c, CURVE_B, MulMod.P)
    ensures Carries(c, t, g, a) && Carries(c, u, h, b) ==>
              Carries(c, AddPoints(t, u, CURVE_B, MulMod.P), c.group.add(g, h), a && b)
  {
    hide AddPoints;
    if !a || !b {
      AddPointsAbsorbs(t, CURVE_B, MulMod.P);
      AddPointsAbsorbs(u, CURVE_B, MulMod.P);
      AddPointsCommutes(t, u, CURVE_B, MulMod.P);
    }
  }

  lemma SumRep<G(!new)>(c: Curve<G>, t: Point, u: Point, g: G, h: G)
    requires Implements(c, CURVE_B, MulMod.P) && Represents(c, t, g) && Represents(c, u, h)
    ensures Represents(c, AddPoints(t, u, CURVE_B, MulMod.P), c.group.add(g, h))
  {
  }

  /** The multiples that a round of the loop combines. */
  lemma RoundMultiples<G(!new)>(g: Group<G>, t: nat, x: G)
    requires Abelian(g)
    ensures g.add(Mult(g, t, x), Mult(g, t, x)) == Mult(g, 2 * t, x)
    ensures g.add(Mult(g, 2 * t, x), Mult(g, 1, x)) == Mult(g, 2 * t + 1, x)
    ensures g.add(Mult(g, 2 * t, x), Mult(g, 2, x)) == Mult(g, 2 * t + 2, x)
  {
    MultAdd(g, t, t, x);
    assert t + t == 2 * t;
    MultAdd(g, 2 * t, 1, x);
    MultAdd(g, 2 * t, 2, x);
  }

  /**
   One round: double, add B, 2B or nothing according to the top bits of the shares, and rescale 2B.
   The accumulator survives if the mask of B is a unit where B is added, and 2B is alive where 2B is.
   */
  method Round<G(!new)>(acc: Point, twoB: Point, x: Word, y: Word, r0: Word, r1: Word,
                        mask0: Word, mask1: Word, r28: Word, r29: Word,
                        ghost c: Curve<G>, ghost base: G, ghost t: nat, ghost alive: bool, ghost twoAlive: bool)
    returns (acc': Point, twoB': Point)
    requires MulMod.Loaded(r29, r28) && r29 == MulMod.P && Implements(c, CURVE_B, MulMod.P)
    requires Represents(c, Reduce(Point(x, y, 1), MulMod.P), base)
    requires Carries(c, acc, Mult(c.group, t, base), alive) && Carries(c, twoB, Mult(c.group, 2, base), twoAlive)
    ensures Carries(c, acc', Mult(c.group, 2 * t + (if r0 >= HALF then 1 else 0) + (if r1 >= HALF then 1 else 0), base),
              alive && ((r0 >= HALF) != (r1 >= HALF) ==> Unit(mask0)) && (r0 >= HALF && r1 >= HALF ==> twoAlive))
    ensures Carries(c, twoB', Mult(c.group, 2, base), twoAlive && Unit(mask1))
  {
    hide Represents, Carries, Unit, Implements, Mult, Reduce, Scale, Mod, AddPoints, Loose, Registers;
    ImpliesAbelian(c);
    RoundMultiples(c.group, t, base);
    MultOne(c.group, base);
    CarriesReduced(c, acc, Mult(c.group, t, base), alive);
    CarriesReduced(c, twoB, Mult(c.group, 2, base), twoAlive);
    var dbl := AddReduced(acc, acc, r28, r29);                     // call ProjDouble
    SumCarries(c, acc, acc, Mult(c.group, t, base), Mult(c.group, t, base), alive, alive);
    var b := FetchBandRandomize(x, y, mask0, r28, r29);
    UnitReduced(mask0);
    BaseCarries(c, Reduce(Point(x, y, 1), MulMod.P), base, Mod(mask0, MulMod.P));
    var q := if (r0 >= HALF) != (r1 >= HALF) then b else twoB;     // xor r8, r0, r1; selm
    ghost var d := if (r0 >= HALF) != (r1 >= HALF) then 1 else 2;
    ghost var used := if (r0 >= HALF) != (r1 >= HALF) then Unit(mask0) else twoAlive;
    CarriesReduced(c, dbl, Mult(c.group, 2 * t, base), alive);
    CarriesReduced(c, q, Mult(c.group, d, base), used);
    var sum := AddReduced(dbl, q, r28, r29);
    SumCarries(c, dbl, q, Mult(c.group, 2 * t, base), Mult(c.group, d, base), alive, used);
    acc' := if r0 >= HALF || r1 >= HALF then sum else dbl;         // or r8, r0, r1; selm
    twoB' := Rescale(twoB, mask1, r28, r29);
    ScaleCarries(c, twoB, Mult(c.group, 2, base), twoAlive, mask1);
  }

  /** `ProjAdd` on reduced triples. */
  method AddReduced(t: Point, u: Point, r28: Word, r29: Word) returns (r: Point)
    requires MulMod.Loaded(r29, r28) && r29 == MulMod.P && Reduced(t, MulMod.P) && Reduced(u, MulMod.P)
    ensures r == AddPoints(t, u, CURVE_B, MulMod.P) && Reduced(r, MulMod.P)
  {
    hide Reduce, Sum;
    r := ProjAdd(t, u, CURVE_B, r28, r29);
  }

  lemma UnitReduced(mask: int)
    ensures Unit(Mod(mask, MulMod.P)) <==> Unit(mask)
  {
    ModSmall(Mod(mask, MulMod.P), MulMod.P);
    hide Mod;
  }

  lemma BaseCarries<G(!new)>(c: Curve<G>, t: Point, base: G, l: int)
    requires Implements(c, CURVE_B, MulMod.P) && Represents(c, t, base)
    ensures Carries(c, Reduce(Scale(l, t), MulMod.P), base, Unit(l))
  {
    hide Represents, Implements, Unit, Reduce, Scale;
    ScaleCarries(c, t, base, true, l);
  }

  lemma ImpliesAbelian<G(!new)>(c: Curve<G>)
    requires Implements(c, CURVE_B, MulMod.P)
    ensures Abelian(c.group) && Represents(c, INFINITY, c.group.zero)
  {
  }

  /** The two shares add up to the scalar, modulo the order of the base point. */
  lemma SharesMultiple<G(!new)>(g: Group<G>, k: nat, r0: nat, r1: nat, n: nat, x: G)
    requires Abelian(g) && Mult(g, n, x) == g.zero && (r0 + r1 == k || r0 + r1 == k + n)
    ensures Mult(g, r0 + r1, x) == Mult(g, k, x)
  {
    hide Mult;
    MultAdd(g, k, n, x);
    AddZero(g, Mult(g, k, x));
    hide Abelian;
  }

  lemma AddZero<G(!new)>(g: Group<G>, y: G)
    requires Abelian(g)
    ensures g.add(y, g.zero) == y
  {
  }

  /** x and y are the coordinates of a representative of e, divided by its Z by way of Z^(p-2). */
  ghost predicate AffineOf<G(!new)>(c: Curve<G>, e: G, x: int, y: int)
  {
    exists t :: Represents(c, t, e)
                && x == ModMul(t.x, PowMod(t.z, MulMod.P - 2, MulMod.P), MulMod.P)
                && y == ModMul(t.y, PowMod(t.z, MulMod.P - 2, MulMod.P), MulMod.P)
  }

  // ----- which masks matter

  /** Bit j of a scalar. */
  ghost predicate Bit(k: nat, j: nat)
  {
    if j == 0 then k % 2 == 1 else Bit(k / 2, j - 1)
  }

  /** The bit that follows the leading digits of a number. */
  lemma {:induction false} BitBelow(k: nat, j: nat, top: nat, low: nat)
    requires low < 2 * Pow2(j) && k == Times(top, 2 * Pow2(j)) + low
    ensures Bit(k, j) <==> low >= Pow2(j)
    decreases j
  {
    if j == 0 {
      TimesIs(top, 2);
    } else {
      TwiceTimes(2 * Pow2(j - 1), top);
      TwiceTimes(Pow2(j), top);
      assert Pow2(j) == 2 * Pow2(j - 1);
      hide Times, Pow2;
      TwiceTimes(Pow2(j), top);
      assert k / 2 == Times(top, Pow2(j)) + low / 2;
      BitBelow(k / 2, j - 1, top, low / 2);
    }
  }

  /** The rotated register shows bit 255 - i of the scalar at its top. */
  lemma RotatedBit(k: nat, i: nat, top: nat, low: nat, r: Word)
    requires i < 256 && Rotated(k, i, top, low, r)
    ensures Bit(k, 255 - i) <==> r >= HALF
  {
    var q, u := Pow2(256 - i - 1), Pow2(i);
    assert Pow2(256 - i) == 2 * q;
    assert Times(q, u) == HALF by {
      Pow2Add(256 - i, i);
      ModInverse.Pow2Register();
      TwiceTimes(q, u);
      TimesIs(Pow2(256 - i), u);
    }
    BitBelow(k, 255 - i, top, low);
    hide Pow2, Times;
    TopBit(low, top, q, u, HALF);
  }

  /** The masks that have gone into 2B before round i. */
  ghost predicate DoublesServe(masks: seq<Word>, i: nat)
    requires |masks| == 513 && i <= 256
  {
    forall j | 0 <= j <= i :: Unit(masks[2 * j])
  }

  /** Round i adds B where exactly one share has the bit, and 2B where both have it. */
  ghost predicate RoundServes(k0: nat, k1: nat, masks: seq<Word>, i: nat)
    requires |masks| == 513 && i < 256
  {
    && (Bit(k0, 255 - i) != Bit(k1, 255 - i) ==> Unit(masks[2 * i + 1]))
    && (Bit(k0, 255 - i) && Bit(k1, 255 - i) ==> DoublesServe(masks, i))
  }

  /** Every mask that is used in the first n rounds for these shares is a unit modulo p. */
  ghost predicate MasksServe(k0: nat, k1: nat, masks: seq<Word>, n: nat)
    requires |masks| == 513 && n <= 256
  {
    forall i | 0 <= i < n :: RoundServes(k0, k1, masks, i)
  }

  lemma ServeNext(k0: nat, k1: nat, masks: seq<Word>, i: nat)
    requires |masks| == 513 && i < 256
    ensures MasksServe(k0, k1, masks, i + 1) <==> MasksServe(k0, k1, masks, i) && RoundServes(k0, k1, masks, i)
    ensures DoublesServe(masks, i + 1) <==> DoublesServe(masks, i) && Unit(masks[2 * i + 2])
  {
    hide RoundServes, Unit;
    assert masks[2 * (i + 1)] == masks[2 * i + 2];
  }

  /** The two shares of a scalar: the random value and the difference, both modulo n. */
  ghost function Share0(k: int, rnd: int): nat { Mod(k - rnd, MulMod.N) }
  ghost function Share1(rnd: int): nat { Mod(rnd, MulMod.N) }

  lemma SharesAre(k: Word, rnd: Word)
    requires k < MulMod.N
    ensures AddM(rnd, 0, MulMod.N) == Share1(rnd) && SubM(k, AddM(rnd, 0, MulMod.N), MulMod.N) == Share0(k, rnd)
  {
    var r1 := AddM(rnd, 0, MulMod.N);
    AddMResidue(rnd, 0, MulMod.N);
    ModSmall(r1, MulMod.N);
    var r0 := SubM(k, r1, MulMod.N);
    SubMResidue(k, r1, MulMod.N);
    ModSmall(r0, MulMod.N);
    hide AddM, SubM;
    ModSmall(k, MulMod.N);
    SumResidue(k, r1, k, rnd, MulMod.N);
  }

  /**
   `ScalarMult_internal`, for every scalar below the order of the base point, every splitting value
   and all masks: if the masks that the shares make use of are units modulo p, the result is the
   affine form of k times the base; otherwise both coordinates are zero.
   */
  method ScalarMultInternal<G(!new)>(k: Word, rnd: Word, x: Word, y: Word, masks: seq<Word>,
                                     ghost c: Curve<G>, ghost base: G)
    returns (r11: Word, r12: Word)
    requires k < MulMod.N && |masks| == 513
    requires Implements(c, CURVE_B, MulMod.P) && Mult(c.group, MulMod.N, base) == c.group.zero
    requires Represents(c, Reduce(Point(x, y, 1), MulMod.P), base)
    ensures r11 < MulMod.P && r12 < MulMod.P
    ensures if MasksServe(Share0(k, rnd), Share1(rnd), masks, 256) then AffineOf(c, Mult(c.group, k, base), r11, r12)
            else r11 == 0 && r12 == 0
  {
    hide Represents, Carries, Unit, Implements, Mult, Reduce, Scale, Mod, Rotated, Rshi255, PowMod, ModMul, AddPoints,
         MasksServe, DoublesServe, Bit, Share0, Share1, AddM, SubM;
    var r28, r29 := MulMod.SetupP256NandMuLow();
    SharesAre(k, rnd);
    var r1: Word := AddM(rnd, 0, r29);                  // addm r1, r1, r31
    var r0: Word := SubM(k, r1, r29);                   // subm r0, r0, r1
    ghost var k0, k1 := r0, r1;
    ImpliesAbelian(c);
    SharesMultiple(c.group, k, k0, k1, MulMod.N, base);
    r28, r29 := MulMod.SetupP256PandMuLow();
    var b := FetchBandRandomize(x, y, masks[0], r28, r29);
    UnitReduced(masks[0]);
    BaseCarries(c, Reduce(Point(x, y, 1), MulMod.P), base, Mod(masks[0], MulMod.P));
    CarriesReduced(c, b, base, Unit(masks[0]));
    var twoB := AddReduced(b, b, r28, r29);             // call ProjDouble
    SumCarries(c, b, b, base, base, Unit(masks[0]), Unit(masks[0]));
    MultOne(c.group, base);
    var acc := INFINITY;
    MultNone(c.group, base);
    ServeNone(k0, k1, masks);
    CarriesAlive(c, acc, Mult(c.group, 0, base));
    ghost var top0, low0, top1, low1 := 0, k0, 0, k1;
    RotatedStart(k0);
    RotatedStart(k1);
    for i := 0 to 256
      invariant top0 >= 0 && top1 >= 0 && low0 >= 0 && low1 >= 0
      invariant Rotated(k0, i, top0, low0, r0) && Rotated(k1, i, top1, low1, r1)
      invariant Carries(c, acc, Mult(c.group, top0 + top1, base), MasksServe(k0, k1, masks, i))
      invariant Carries(c, twoB, Mult(c.group, 2, base), DoublesServe(masks, i))
    {
      ServeNext(k0, k1, masks, i);
      RotatedBit(k0, i, top0, low0, r0);
      RotatedBit(k1, i, top1, low1, r1);
      acc, twoB := Round(acc, twoB, x, y, r0, r1, masks[2 * i + 1], masks[2 * i + 2], r28, r29, c, base, top0 + top1,
                         MasksServe(k0, k1, masks, i), DoublesServe(masks, i));
      ghost var bit0, bit1;
      bit0, low0 := RotateStep(k0, i, top0, low0, r0);
      bit1, low1 := RotateStep(k1, i, top1, low1, r1);
      top0, top1 := 2 * top0 + bit0, 2 * top1 + bit1;
      r0, r1 := Rshi255(r0, r0), Rshi255(r1, r1);       // rshi r0, r0, r0 >> 255
    }
    RotatedEnd(k0, top0, low0, r0);
    RotatedEnd(k1, top1, low1, r1);
    CarriesReduced(c, acc, Mult(c.group, k, base), MasksServe(k0, k1, masks, 256));
    r11, r12 := ProjToAffine(acc, r28, r29);
    CarriesAffine(c, acc, Mult(c.group, k, base), MasksServe(k0, k1, masks, 256), r11, r12);
  }

  lemma ServeNone(k0: nat, k1: nat, masks: seq<Word>)
    requires |masks| == 513
    ensures MasksServe(k0, k1, masks, 0) && (DoublesServe(masks, 0) <==> Unit(masks[0]))
  {
    hide Unit;
    assert masks[2 * 0] == masks[0];
  }

  lemma CarriesAlive<G(!new)>(c: Curve<G>, t: Point, g: G)
    ensures Carries(c, t, g, true) <==> Represents(c, t, g)
  {
  }

  /** The affine form of an accumulator that is alive; of a destroyed one it is (0, 0). */
  lemma CarriesAffine<G(!new)>(c: Curve<G>, t: Point, e: G, alive: bool, x: int, y: int)
    requires Carries(c, t, e, alive)
    requires x == ModMul(t.x, PowMod(t.z, MulMod.P - 2, MulMod.P), MulMod.P)
    requires y == ModMul(t.y, PowMod(t.z, MulMod.P - 2, MulMod.P), MulMod.P)
    ensures if alive then AffineOf(c, e, x, y) else x == 0 && y == 0
  {
    hide PowMod, ModMul, Represents;
    if !alive {
      var f := PowMod(t.z, MulMod.P - 2, MulMod.P);
      ModMulCommutes(0, f, MulMod.P);
      ProductVanishes(f, 0);
    }
  }

  lemma MultNone<G>(g: Group<G>, x: G)
    ensures Mult(g, 0, x) == g.zero
  {
  }
}
