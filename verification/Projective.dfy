/**
 Projective arithmetic on y^2 z = x^3 + a x z^2 + b z^3: the firmware's `ProjAdd` program, measured
 against the complete addition formula for short Weierstrass curves, and `ProjToAffine`.
 */
module Projective {
  import opened Accelerator
  import opened Modular
  import MulMod

  /** Projective coordinates; integers, or residues when reduced. */
  datatype Point = Point(x: int, y: int, z: int)

  /** The curve constant b, as loaded into r27 by `p256init`. */
  const CURVE_B: nat := 0x5ac635d8_aa3a93e7_b3ebbd55_769886bc_651d06b0_cc53b0f6_3bce3c3e_27d2604b

  /** The point at infinity as the firmware writes it: r31, r30, r31. */
  const INFINITY: Point := Point(0, 1, 0)

  ghost predicate Reduced(t: Point, p: nat)
  {
    0 <= t.x < p && 0 <= t.y < p && 0 <= t.z < p
  }

  ghost function Reduce(t: Point, p: nat): (r: Point)
    requires p > 0
    ensures Reduced(r, p)
  {
    Point(Mod(t.x, p), Mod(t.y, p), Mod(t.z, p))
  }

  ghost function Scale(l: int, t: Point): (r: Point)
  {
    Point(Times(l, t.x), Times(l, t.y), Times(l, t.z))
  }

  // ----- the complete addition formula, over the integers

  /** The four factors of the formula, from the six coordinate products. */
  ghost function Plus(yy: int, xz: int, zz: int, a: int, b: int): int { yy - Times(xz, a) - 3 * Times(zz, b) }
  ghost function Minus(yy: int, xz: int, zz: int, a: int, b: int): int { yy + Times(xz, a) + 3 * Times(zz, b) }
  ghost function Cross(xx: int, xz: int, zz: int, a: int, b: int): int { Times(xx, a) + 3 * Times(xz, b) - Times(Times(zz, a), a) }
  ghost function Square(xx: int, zz: int, a: int): int { 3 * xx + Times(zz, a) }

  /** The six coordinate products of a sum. */
  datatype Six = Six(xx: int, yy: int, zz: int, xy: int, yz: int, xz: int)

  ghost function Products(p: Point, q: Point): Six
  {
    Six(Times(p.x, q.x), Times(p.y, q.y), Times(p.z, q.z), Times(p.x, q.y) + Times(q.x, p.y),
        Times(p.y, q.z) + Times(q.y, p.z), Times(p.x, q.z) + Times(q.x, p.z))
  }

  ghost function FromProducts(s: Six, a: int, b: int): Point
  {
    var plus, minus := Plus(s.yy, s.xz, s.zz, a, b), Minus(s.yy, s.xz, s.zz, a, b);
    var cross, sq := Cross(s.xx, s.xz, s.zz, a, b), Square(s.xx, s.zz, a);
    Point(Times(s.xy, plus) - Times(s.yz, cross), Times(plus, minus) + Times(sq, cross), Times(s.yz, minus) + Times(s.xy, sq))
  }

  ghost function Sum(p: Point, q: Point, a: int, b: int): (r: Point)
  {
    FromProducts(Products(p, q), a, b)
  }

  lemma SumCommutes(p: Point, q: Point, a: int, b: int)
    ensures Sum(p, q, a, b) == Sum(q, p, a, b)
  {
    hide Times;
    TimesCommutes(p.x, q.x);
    TimesCommutes(p.y, q.y);
    TimesCommutes(p.z, q.z);
  }

  /** Adding the point at infinity scales by y. */
  lemma SumInfinity(p: Point, a: int, b: int)
    ensures Sum(p, INFINITY, a, b) == Scale(p.y, p)
  {
    TimesAll();
    hide Times;
  }

  /** A point plus its mirror image is a multiple of the point at infinity. */
  lemma SumOpposite(p: Point, a: int, b: int)
    ensures Sum(p, p.(y := -p.y), a, b).x == 0 && Sum(p, p.(y := -p.y), a, b).z == 0
  {
    TimesAll();
    hide Times;
  }

  lemma Bilinear(l: int, m: int, x: int, y: int)
    ensures (l * x) * (m * y) == (l * m) * (x * y)
  {
    assert (l * x) * (m * y) == l * (x * (m * y)) == l * (m * (x * y));
  }

  lemma Quadratic(s: int, u: int, v: int, w: int, t: int)
    ensures (s * u) * (s * v) - (s * w) * (s * t) == (s * s) * (u * v - w * t)
    ensures (s * u) * (s * v) + (s * w) * (s * t) == (s * s) * (u * v + w * t)
  {
    Bilinear(s, s, u, v);
    Bilinear(s, s, w, t);
    assert (s * s) * (u * v - w * t) == (s * s) * (u * v) - (s * s) * (w * t);
    assert (s * s) * (u * v + w * t) == (s * s) * (u * v) + (s * s) * (w * t);
  }

  ghost function ScaleSix(s: int, t: Six): Six
  {
    Six(s * t.xx, s * t.yy, s * t.zz, s * t.xy, s * t.yz, s * t.xz)
  }

  /** The coordinate products of the scaled points are the scaled coordinate products. */
  lemma ScaledProducts(l: int, p: Point, m: int, q: Point)
    ensures Products(Scale(l, p), Scale(m, q)) == ScaleSix(l * m, Products(p, q))
  {
    TimesAll();
    hide Times;
    Bilinear(l, m, p.x, q.x);
    Bilinear(l, m, p.y, q.y);
    Bilinear(l, m, p.z, q.z);
    CrossScaled(l, m, p.x, p.y, q.x, q.y);
    CrossScaled(l, m, p.y, p.z, q.y, q.z);
    CrossScaled(l, m, p.x, p.z, q.x, q.z);
  }

  lemma CrossScaled(l: int, m: int, u: int, v: int, s: int, t: int)
    ensures (l * u) * (m * t) + (m * s) * (l * v) == (l * m) * (u * t + s * v)
  {
    Bilinear(l, m, u, t);
    Bilinear(l, m, v, s);
    assert (m * s) * (l * v) == (l * v) * (m * s);
    assert (l * m) * (u * t + s * v) == (l * m) * (u * t) + (l * m) * (v * s);
  }

  lemma TimesPull(s: int, x: int, y: int)
    ensures Times(s * x, y) == s * Times(x, y)
  {
    hide Times;
    TimesIs(s * x, y);
    TimesIs(x, y);
  }

  lemma ThreeTerms(s: int, u: int, v: int, w: int)
    ensures s * (u - v - 3 * w) == s * u - s * v - 3 * (s * w) && s * (u + v + 3 * w) == s * u + s * v + 3 * (s * w)
    ensures s * (-w) == -(s * w)
  {
  }

  lemma ScaledFactors(s: int, xx: int, yy: int, zz: int, xz: int, a: int, b: int)
    ensures Plus(s * yy, s * xz, s * zz, a, b) == s * Plus(yy, xz, zz, a, b)
    ensures Minus(s * yy, s * xz, s * zz, a, b) == s * Minus(yy, xz, zz, a, b)
    ensures Cross(s * xx, s * xz, s * zz, a, b) == s * Cross(xx, xz, zz, a, b)
    ensures Square(s * xx, s * zz, a) == s * Square(xx, zz, a)
  {
    hide Times;
    TimesPull(s, xx, a);
    TimesPull(s, xz, a);
    TimesPull(s, xz, b);
    TimesPull(s, zz, a);
    TimesPull(s, zz, b);
    TimesPull(s, Times(zz, a), a);
    ThreeTerms(s, yy, Times(xz, a), Times(zz, b));
    ThreeTerms(s, Times(xx, a), Times(Times(zz, a), a), -Times(xz, b));
    ThreeTerms(s, Times(zz, a), 0, -xx);
  }

  lemma QuadraticTimes(s: int, u: int, v: int, w: int, t: int)
    ensures Times(s * u, s * v) - Times(s * w, s * t) == Times(s * s, Times(u, v) - Times(w, t))
    ensures Times(s * u, s * v) + Times(s * w, s * t) == Times(s * s, Times(u, v) + Times(w, t))
  {
    TimesAll();
    hide Times;
    Quadratic(s, u, v, w, t);
  }

  lemma FromScaledProducts(s: int, six: Six, a: int, b: int)
    ensures FromProducts(ScaleSix(s, six), a, b) == Scale(s * s, FromProducts(six, a, b))
  {
    ScaledFactors(s, six.xx, six.yy, six.zz, six.xz, a, b);
    hide Times, Plus, Minus, Cross, Square;
    var plus, minus := Plus(six.yy, six.xz, six.zz, a, b), Minus(six.yy, six.xz, six.zz, a, b);
    var cross, sq := Cross(six.xx, six.xz, six.zz, a, b), Square(six.xx, six.zz, a);
    QuadraticTimes(s, six.xy, plus, six.yz, cross);
    QuadraticTimes(s, plus, minus, sq, cross);
    QuadraticTimes(s, six.yz, minus, six.xy, sq);
  }

  /** Rescaling the operands rescales the sum: projective points are added class by class. */
  lemma SumScales(l: int, p: Point, m: int, q: Point, a: int, b: int)
    ensures Sum(Scale(l, p), Scale(m, q), a, b) == Scale(Times(Times(l, m), Times(l, m)), Sum(p, q, a, b))
  {
    TimesIs(l, m);
    TimesIs(l * m, l * m);
    hide Times;
    hide FromProducts, Products, Scale, ScaleSix;
    ScaledProducts(l, p, m, q);
    FromScaledProducts(l * m, Products(p, q), a, b);
  }

  // ----- the register program

  /** What `addm` drops: a sum that does not fit even after the correction loses 2^256. */
  function Dropped(x: int, y: int, p: int): int
  {
    if x + y >= W + p then W else 0
  }

  lemma AddMResidue(x: Word, y: Word, p: Word)
    requires p > 0
    ensures Mod(AddM(x, y, p), p) == Mod((x as int) + (y as int) - Dropped(x, y, p), p)
  {
    var s: int := (x as int) + (y as int) - Dropped(x, y, p);
    var k := if x + y >= p then 1 else 0;
    assert s == AddM(x, y, p) + k * p;
    ModAddMultiple(AddM(x, y, p), k, p);
  }

  lemma SubMResidue(x: Word, y: Word, p: Word)
    requires p > 0 && y <= x + p
    ensures Mod(SubM(x, y, p), p) == Mod((x as int) - (y as int), p)
  {
    hide SubM;
    var d: int := (x as int) - (y as int);
    if d < 0 {
      assert d + p == d + 1 * p;
      ModAddMultiple(d, 1, p);
    }
  }

  /** Registers x and y hold residues of X and Y. */
  ghost predicate Hold(x: int, y: int, X: int, Y: int, p: nat)
    requires p > 0
  {
    Mod(x, p) == Mod(X, p) && Mod(y, p) == Mod(Y, p)
  }

  lemma SumResidue(x: int, y: int, X: int, Y: int, p: nat)
    requires p > 0 && Hold(x, y, X, Y, p)
    ensures Mod(x + y, p) == Mod(X + Y, p) && Mod(x - y, p) == Mod(X - Y, p)
  {
    CongAdd(x, X, y, Y, p);
    CongSub(x, X, y, Y, p);
  }

  lemma ProductResidue(x: int, y: int, X: int, Y: int, p: nat)
    requires p > 0 && Hold(x, y, X, Y, p)
    ensures ModMul(x, y, p) == ModMul(X, Y, p)
  {
    ModMulCong(x, y, X, Y, p);
  }

  /** `call MulMod`: exact when one of the registers is reduced. */
  method FieldMul(x: Word, y: Word, r28: Word, r29: Word, ghost X: int, ghost Y: int) returns (r: Word, ghost R: int)
    requires MulMod.Loaded(r29, r28)
    ensures r < r29 && R == Times(X, Y)
    ensures (x < r29 || y < r29) && Hold(x, y, X, Y, r29) ==> r == Mod(R, r29)
  {
    hide Mod, Times;
    r := MulMod.MulMod(x, y, r28, r29);
    R := Times(X, Y);
    if Hold(x, y, X, Y, r29) {
      ProductResidue(x, y, X, Y, r29);
    }
  }

  /** `addm`: a residue of the sum less what is dropped. */
  method FieldAdd(x: Word, y: Word, p: Word, ghost X: int, ghost Y: int) returns (r: Word, ghost R: int)
    requires p > 0
    ensures R == X + Y - Dropped(x, y, p) && (x < p && y < p ==> r < p)
    ensures Hold(x, y, X, Y, p) ==> Mod(r, p) == Mod(R, p)
    ensures x < p && y < p && Hold(x, y, X, Y, p) ==> r == Mod(R, p)
  {
    r, R := AddM(x, y, p), X + Y - Dropped(x, y, p);
    hide AddM, Mod;
    if Hold(x, y, X, Y, p) {
      AddMResidue(x, y, p);
      SumResidue(x, y, X, Y, p);
      SumResidue((x as int) + (y as int), Dropped(x, y, p), X + Y, Dropped(x, y, p), p);
    }
    if x < p && y < p {
      ModSmall(r, p);
    }
  }

  /** `subm`: a residue of the difference for reduced registers. */
  method FieldSub(x: Word, y: Word, p: Word, ghost X: int, ghost Y: int) returns (r: Word, ghost R: int)
    requires p > 0
    ensures R == X - Y && (x < p && y < p ==> r < p)
    ensures x < p && y < p && Hold(x, y, X, Y, p) ==> r == Mod(R, p)
  {
    r, R := SubM(x, y, p), X - Y;
    hide SubM, Mod;
    if x < p && y < p && Hold(x, y, X, Y, p) {
      SubMResidue(x, y, p);
      SumResidue(x, y, X, Y, p);
      ModSmall(r, p);
    }
  }

  /** The six products as the program forms them: cross terms from sums of coordinates, less what these drop. */
  ghost function Registered(p: Point, q: Point, m: int): Six
  {
    var xx, yy, zz := Times(p.x, q.x), Times(p.y, q.y), Times(p.z, q.z);
    Six(xx, yy, zz,
        Times(p.x + p.y - Dropped(p.x, p.y, m), q.x + q.y - Dropped(q.x, q.y, m)) - (xx + yy),
        Times(p.y + p.z - Dropped(p.y, p.z, m), q.y + q.z - Dropped(q.y, q.z, m)) - (yy + zz),
        Times(p.x + p.z - Dropped(p.x, p.z, m), q.x + q.z - Dropped(q.x, q.z, m)) - (xx + zz))
  }

  /** Where nothing is dropped these are the products of the formula. */
  lemma RegisteredIs(p: Point, q: Point, m: nat)
    requires Loose(p, m) && Loose(q, m)
    ensures Registered(p, q, m) == Products(p, q)
  {
    hide Times;
    CrossTerm(p.x, p.y, q.x, q.y);
    CrossTerm(p.y, p.z, q.y, q.z);
    CrossTerm(p.x, p.z, q.x, q.z);
  }

  lemma CrossTerm(u: int, v: int, s: int, t: int)
    ensures Times(u + v, s + t) - (Times(u, s) + Times(v, t)) == Times(u, t) + Times(s, v)
  {
    TimesAll();
    hide Times;
  }

  /** The four factors of the formula for a = -3, as the program computes them. */
  lemma FactorsAre(xx: int, yy: int, zz: int, xz: int, b: int)
    ensures Plus(yy, xz, zz, -3, b) == yy + 3 * (xz - Times(b, zz))
    ensures Minus(yy, xz, zz, -3, b) == yy - 3 * (xz - Times(b, zz))
    ensures Cross(xx, xz, zz, -3, b) == 3 * (Times(b, xz) - 3 * zz - xx)
    ensures Square(xx, zz, -3) == 3 * xx - 3 * zz
  {
    hide Times;
    TimesCommutes(b, zz);
    TimesCommutes(b, xz);
    TimesIs(xx, -3);
    TimesIs(zz, -3);
    TimesIs(xz, -3);
    TimesIs(-3 * zz, -3);
  }

  /** The products of the program, reassembled, are the addition formula with a = -3. */
  lemma {:induction false} ProgramIsSum(six: Six, b: int, plus: int, minus: int, cross: int, sq: int)
    requires plus == six.yy + 3 * (six.xz - Times(b, six.zz))
    requires minus == six.yy - 3 * (six.xz - Times(b, six.zz))
    requires cross == 3 * (Times(b, six.xz) - 3 * six.zz - six.xx)
    requires sq == 3 * six.xx - 3 * six.zz
    ensures FromProducts(six, -3, b) == Point(
              Times(six.xy, plus) - Times(six.yz, cross), Times(plus, minus) + Times(sq, cross),
              Times(six.yz, minus) + Times(six.xy, sq))
  {
    hide Times, Plus, Minus, Cross, Square;
    FactorsAre(six.xx, six.yy, six.zz, six.xz, b);
  }

  ghost predicate Registers(t: Point)
  {
    Reduced(t, W)
  }

  /** Coordinates that need not be reduced, but whose sums stay within a register after one correction. */
  ghost predicate Loose(t: Point, m: nat)
  {
    Registers(t) && t.x + t.y < W + m && t.y + t.z < W + m && t.x + t.z < W + m
  }

  /** One operand is reduced and the other at least loose: nothing is dropped. */
  ghost predicate Addable(p: Point, q: Point, m: nat)
  {
    (Reduced(p, m) && Loose(q, m)) || (Loose(p, m) && Reduced(q, m))
  }

  lemma ResidueFacts(m: nat)
    requires m > 0
    ensures forall x: int {:trigger Mod(x, m)} :: Mod(Mod(x, m), m) == Mod(x, m)
  {
    forall x: int
      ensures Mod(Mod(x, m), m) == Mod(x, m)
    {
      ModSmall(Mod(x, m), m);
    }
  }

  /** `ProjAdd`: the point in r11, r12, r13 plus the point in r8, r9, r10. */
  method ProjAdd(p: Point, q: Point, r27: Word, r28: Word, r29: Word) returns (r: Point)
    requires MulMod.Loaded(r29, r28) && Registers(p) && Registers(q) && r27 < r29
    ensures Reduced(r, r29)
    ensures Reduced(p, r29) || Reduced(q, r29) ==> r == Reduce(FromProducts(Registered(p, q, r29), -3, r27), r29)
    ensures Addable(p, q, r29) ==> r == Reduce(Sum(p, q, -3, r27), r29)
  {
    hide Mod, Times, FromProducts, MulMod.Loaded;
    if Addable(p, q, r29) {
      RegisteredIs(p, q, r29);
    }
    ghost var six := Registered(p, q, r29);
    var r11: Word, r12: Word, r13: Word, r8: Word, r9: Word, r10: Word := p.x, p.y, p.z, q.x, q.y, q.z;
    ghost var R11, R12, R13, R8, R9, R10 := p.x, p.y, p.z, q.x, q.y, q.z;
    ghost var R27: int := r27;
    ResidueFacts(r29);
    var r14, R14 := FieldMul(r11, r8, r28, r29, R11, R8);
    var r15, R15 := FieldMul(r12, r9, r28, r29, R12, R9);
    var r16, R16 := FieldMul(r13, r10, r28, r29, R13, R10);
    var r17, R17 := FieldAdd(r11, r12, r29, R11, R12);
    var r18, R18 := FieldAdd(r8, r9, r29, R8, R9);
    var r19, R19 := FieldMul(r17, r18, r28, r29, R17, R18);
    r18, R18 := FieldAdd(r14, r15, r29, R14, R15);
    r17, R17 := FieldSub(r19, r18, r29, R19, R18);
    assert R17 == six.xy;
    r18, R18 := FieldAdd(r12, r13, r29, R12, R13);
    r19, R19 := FieldAdd(r9, r10, r29, R9, R10);
    r19, R19 := FieldMul(r18, r19, r28, r29, R18, R19);
    r18, R18 := r19, R19;
    r19, R19 := FieldAdd(r15, r16, r29, R15, R16);
    r18, R18 := FieldSub(r18, r19, r29, R18, R19);
    assert R18 == six.yz;
    r19, R19 := FieldAdd(r11, r13, r29, R11, R13);
    r12, R12 := FieldAdd(r8, r10, r29, R8, R10);
    r19, R19 := FieldMul(r19, r12, r28, r29, R19, R12);
    r11, R11 := r19, R19;
    r12, R12 := FieldAdd(r14, r16, r29, R14, R16);
    r12, R12 := FieldSub(r11, r12, r29, R11, R12);
    assert R12 == six.xz;
    r19, R19 := FieldMul(r27, r16, r28, r29, R27, R16);
    r11, R11 := FieldSub(r12, r19, r29, R12, R19);
    r13, R13 := FieldAdd(r11, r11, r29, R11, R11);
    r11, R11 := FieldAdd(r11, r13, r29, R11, R13);
    r13, R13 := FieldSub(r15, r11, r29, R15, R11);
    r11, R11 := FieldAdd(r15, r11, r29, R15, R11);
    r19, R19 := FieldMul(r27, r12, r28, r29, R27, R12);
    r15, R15 := FieldAdd(r16, r16, r29, R16, R16);
    r16, R16 := FieldAdd(r15, r16, r29, R15, R16);
    r12, R12 := FieldSub(r19, r16, r29, R19, R16);
    r12, R12 := FieldSub(r12, r14, r29, R12, R14);
    r15, R15 := FieldAdd(r12, r12, r29, R12, R12);
    r12, R12 := FieldAdd(r15, r12, r29, R15, R12);
    r15, R15 := FieldAdd(r14, r14, r29, R14, R14);
    r14, R14 := FieldAdd(r15, r14, r29, R15, R14);
    r14, R14 := FieldSub(r14, r16, r29, R14, R16);
    ProgramIsSum(six, r27, R11, R13, R12, R14);
    r15, R15 := FieldMul(r18, r12, r28, r29, R18, R12);
    r16, R16 := FieldMul(r14, r12, r28, r29, R14, R12);
    r19, R19 := FieldMul(r11, r13, r28, r29, R11, R13);
    r12, R12 := FieldAdd(r19, r16, r29, R19, R16);
    r19, R19 := FieldMul(r17, r11, r28, r29, R17, R11);
    r11, R11 := FieldSub(r19, r15, r29, R19, R15);
    r19, R19 := FieldMul(r18, r13, r28, r29, R18, R13);
    r13, R13 := r19, R19;
    r19, R19 := FieldMul(r17, r14, r28, r29, R17, R14);
    r13, R13 := FieldAdd(r13, r19, r29, R13, R19);
    r := Point(r11, r12, r13);
  }

  lemma ReducedMod(t: Point, p: nat)
    requires Reduced(t, p)
    ensures Mod(t.x, p) == t.x && Mod(t.y, p) == t.y && Mod(t.z, p) == t.z
  {
    ModSmall(t.x, p);
    ModSmall(t.y, p);
    ModSmall(t.z, p);
  }

  // ----- the laws of the program, on residues

  /** What `ProjAdd` leaves in r11, r12 and r13. */
  ghost function AddPoints(p: Point, q: Point, b: int, m: nat): (r: Point)
    requires m > 0
    ensures Reduced(r, m)
  {
    Reduce(Sum(p, q, -3, b), m)
  }

  ghost predicate CongPoint(p: Point, q: Point, m: nat)
    requires m > 0
  {
    Cong(p.x, q.x, m) && Cong(p.y, q.y, m) && Cong(p.z, q.z, m)
  }

  lemma CongTimes(u: int, v: int, u': int, v': int, m: nat)
    requires m > 0 && Cong(u, u', m) && Cong(v, v', m)
    ensures Cong(Times(u, v), Times(u', v'), m)
  {
    hide Cong, Times;
    TimesIs(u, v);
    TimesIs(u', v');
    CongMul(u, u', v, v', m);
  }

  lemma CongTwo(u: int, v: int, s: int, t: int, u': int, v': int, s': int, t': int, m: nat)
    requires m > 0 && Cong(u, u', m) && Cong(v, v', m) && Cong(s, s', m) && Cong(t, t', m)
    ensures Cong(Times(u, v) + Times(s, t), Times(u', v') + Times(s', t'), m)
    ensures Cong(Times(u, v) - Times(s, t), Times(u', v') - Times(s', t'), m)
  {
    hide Cong, Times;
    CongTimes(u, v, u', v', m);
    CongTimes(s, t, s', t', m);
    CongAdd(Times(u, v), Times(u', v'), Times(s, t), Times(s', t'), m);
    CongSub(Times(u, v), Times(u', v'), Times(s, t), Times(s', t'), m);
  }

  lemma CongFactors(xx: int, yy: int, zz: int, xz: int, xx': int, yy': int, zz': int, xz': int, a: int, b: int, m: nat)
    requires m > 0 && Cong(xx, xx', m) && Cong(yy, yy', m) && Cong(zz, zz', m) && Cong(xz, xz', m)
    ensures Cong(Plus(yy, xz, zz, a, b), Plus(yy', xz', zz', a, b), m)
    ensures Cong(Minus(yy, xz, zz, a, b), Minus(yy', xz', zz', a, b), m)
    ensures Cong(Cross(xx, xz, zz, a, b), Cross(xx', xz', zz', a, b), m)
    ensures Cong(Square(xx, zz, a), Square(xx', zz', a), m)
  {
    CongRefl(a, m);
    CongRefl(b, m);
    CongRefl(3, m);
    hide Cong, Times;
    CongTimes(xx, a, xx', a, m);
    CongTimes(xz, a, xz', a, m);
    CongTimes(zz, a, zz', a, m);
    CongTimes(Times(zz, a), a, Times(zz', a), a, m);
    CongTimes(xz, b, xz', b, m);
    CongTimes(zz, b, zz', b, m);
    CongMul(3, 3, Times(zz, b), Times(zz', b), m);
    CongMul(3, 3, Times(xz, b), Times(xz', b), m);
    CongMul(3, 3, xx, xx', m);
    CongAdd(yy, yy', Times(xz, a), Times(xz', a), m);
    CongAdd(yy + Times(xz, a), yy' + Times(xz', a), 3 * Times(zz, b), 3 * Times(zz', b), m);
    CongSub(yy, yy', Times(xz, a), Times(xz', a), m);
    CongSub(yy - Times(xz, a), yy' - Times(xz', a), 3 * Times(zz, b), 3 * Times(zz', b), m);
    CongAdd(Times(xx, a), Times(xx', a), 3 * Times(xz, b), 3 * Times(xz', b), m);
    CongSub(Times(xx, a) + 3 * Times(xz, b), Times(xx', a) + 3 * Times(xz', b), Times(Times(zz, a), a), Times(Times(zz', a), a), m);
    CongAdd(3 * xx, 3 * xx', Times(zz, a), Times(zz', a), m);
  }

  /** The sum depends only on the residues of the coordinates. */
  lemma SumCong(p: Point, q: Point, p': Point, q': Point, a: int, b: int, m: nat)
    requires m > 0 && CongPoint(p, p', m) && CongPoint(q, q', m)
    ensures CongPoint(Sum(p, q, a, b), Sum(p', q', a, b), m)
  {
    hide Cong, Times, Plus, Minus, Cross, Square;
    CongTimes(p.x, q.x, p'.x, q'.x, m);
    CongTimes(p.y, q.y, p'.y, q'.y, m);
    CongTimes(p.z, q.z, p'.z, q'.z, m);
    CongTwo(p.x, q.y, q.x, p.y, p'.x, q'.y, q'.x, p'.y, m);
    CongTwo(p.y, q.z, q.y, p.z, p'.y, q'.z, q'.y, p'.z, m);
    CongTwo(p.x, q.z, q.x, p.z, p'.x, q'.z, q'.x, p'.z, m);
    CongProducts(Products(p, q), Products(p', q'), a, b, m);
  }

  lemma CongProducts(s: Six, t: Six, a: int, b: int, m: nat)
    requires m > 0 && Cong(s.xx, t.xx, m) && Cong(s.yy, t.yy, m) && Cong(s.zz, t.zz, m)
    requires Cong(s.xy, t.xy, m) && Cong(s.yz, t.yz, m) && Cong(s.xz, t.xz, m)
    ensures CongPoint(FromProducts(s, a, b), FromProducts(t, a, b), m)
  {
    hide Cong, Times, Plus, Minus, Cross, Square;
    CongFactors(s.xx, s.yy, s.zz, s.xz, t.xx, t.yy, t.zz, t.xz, a, b, m);
    var plus, minus := Plus(s.yy, s.xz, s.zz, a, b), Minus(s.yy, s.xz, s.zz, a, b);
    var cross, sq := Cross(s.xx, s.xz, s.zz, a, b), Square(s.xx, s.zz, a);
    var plus', minus' := Plus(t.yy, t.xz, t.zz, a, b), Minus(t.yy, t.xz, t.zz, a, b);
    var cross', sq' := Cross(t.xx, t.xz, t.zz, a, b), Square(t.xx, t.zz, a);
    CongTwo(s.xy, plus, s.yz, cross, t.xy, plus', t.yz, cross', m);
    CongTwo(plus, minus, sq, cross, plus', minus', sq', cross', m);
    CongTwo(s.yz, minus, s.xy, sq, t.yz, minus', t.xy, sq', m);
  }

  lemma ReduceCong(p: Point, m: nat)
    requires m > 0
    ensures CongPoint(Reduce(p, m), p, m)
  {
    ModSelf(p.x, m);
    ModSelf(p.y, m);
    ModSelf(p.z, m);
  }

  lemma ScaleCong(l: int, p: Point, q: Point, m: nat)
    requires m > 0 && CongPoint(p, q, m)
    ensures CongPoint(Scale(l, p), Scale(l, q), m)
  {
    TimesAll();
    hide Times;
    assert Cong(l, l, m);
    hide Cong;
    CongMul(l, l, p.x, q.x, m);
    CongMul(l, l, p.y, q.y, m);
    CongMul(l, l, p.z, q.z, m);
  }

  lemma AddPointsCommutes(p: Point, q: Point, b: int, m: nat)
    requires m > 0
    ensures AddPoints(p, q, b, m) == AddPoints(q, p, b, m)
  {
    SumCommutes(p, q, -3, b);
  }

  /** Rescaling the operands by l and k rescales the result by (l * k)^2. */
  lemma AddPointsScales(p: Point, q: Point, l: int, k: int, b: int, m: nat)
    requires m > 0
    ensures AddPoints(Reduce(Scale(l, p), m), Reduce(Scale(k, q), m), b, m)
         == Reduce(Scale(Times(Times(l, k), Times(l, k)), AddPoints(p, q, b, m)), m)
  {
    hide Sum, Scale, Times;
    var lp, kq, sum := Scale(l, p), Scale(k, q), Sum(p, q, -3, b);
    var s := Times(Times(l, k), Times(l, k));
    ReduceCong(lp, m);
    ReduceCong(kq, m);
    SumScales(l, p, k, q, -3, b);
    SumCong(Reduce(lp, m), Reduce(kq, m), lp, kq, -3, b, m);
    ReduceCong(sum, m);
    ScaleCong(s, Reduce(sum, m), sum, m);
  }

  /** Adding the initial accumulator (0:1:0) rescales by y. */
  lemma AddPointsInfinity(p: Point, b: int, m: nat)
    requires m > 0
    ensures AddPoints(p, INFINITY, b, m) == Reduce(Scale(p.y, p), m)
  {
    SumInfinity(p, -3, b);
  }

  /**
   What looseness is needed for: adding a point whose x + y is 2^256 + m or more to (0:1:0) shifts its X by
   2^256, where the formula rescales by y.
   */
  lemma DroppedShifts(q: Point, b: int, m: nat)
    requires Registers(q) && 0 < m <= W && q.x + q.y >= W + m && q.y + q.z < W + m
    ensures FromProducts(Registered(INFINITY, q, m), -3, b) == Point(Times(q.x - W, q.y), Times(q.y, q.y), Times(q.z, q.y))
  {
    hide Times, FromProducts;
    TimesIs(0, q.x);
    TimesIs(1, q.y);
    TimesIs(0, q.z);
    TimesIs(1, q.x + q.y - W);
    TimesIs(1, q.y + q.z);
    TimesIs(0, q.x + q.z - Dropped(q.x, q.z, m));
    assert Registered(INFINITY, q, m) == Six(0, q.y, 0, q.x - W, q.z, 0);
    OneProduct(q.x - W, q.y, q.z, b);
  }

  lemma {:induction false} OneProduct(x: int, y: int, z: int, b: int)
    ensures FromProducts(Six(0, y, 0, x, z, 0), -3, b) == Point(Times(x, y), Times(y, y), Times(z, y))
  {
    hide Times, FromProducts;
    TimesIs(b, 0);
    TimesIs(z, 0);
    TimesIs(x, 0);
    TimesIs(0, 0);
    ProgramIsSum(Six(0, y, 0, x, z, 0), b, y, y, 0, 0);
  }

  /** The degenerate triple (0:0:0), which a mask divisible by p would produce, absorbs. */
  lemma AddPointsAbsorbs(p: Point, b: int, m: nat)
    requires m > 0
    ensures AddPoints(p, Point(0, 0, 0), b, m) == Point(0, 0, 0)
  {
    SumZero(p, -3, b);
    hide Sum, Mod;
    ModSmall(0, m);
  }

  /** The operands of the program need not be reduced: only their residues matter. */
  lemma AddPointsReduced(p: Point, q: Point, b: int, m: nat)
    requires m > 0
    ensures AddPoints(Reduce(p, m), Reduce(q, m), b, m) == AddPoints(p, q, b, m)
  {
    hide Sum;
    ReduceCong(p, m);
    ReduceCong(q, m);
    SumCong(Reduce(p, m), Reduce(q, m), p, q, -3, b, m);
  }

  lemma SumZero(p: Point, a: int, b: int)
    ensures Sum(p, Point(0, 0, 0), a, b) == Point(0, 0, 0)
  {
    TimesIs(p.x, 0);
    TimesIs(p.y, 0);
    TimesIs(p.z, 0);
    TimesIs(0, p.x);
    TimesIs(0, p.y);
    TimesIs(0, p.z);
    TimesIs(0, a);
    TimesIs(0, b);
    TimesIs(0, 0);
    hide Times;
    assert Products(p, Point(0, 0, 0)) == Six(0, 0, 0, 0, 0, 0);
  }

  // ----- ProjToAffine

  /** `loop #n ( square )`: n squarings of z^e. */
  method Squarings(r: nat, n: nat, r28: Word, r29: Word, ghost z: int, ghost e: nat) returns (r19: nat)
    requires MulMod.Loaded(r29, r28) && r == PowMod(z, e, r29)
    ensures Times(e, Pow2(n)) >= 0 && r19 == PowMod(z, Times(e, Pow2(n)), r29)
  {
    hide Times, Pow2, PowMod, ModMul, MulMod.Reducible;
    r19 := r;
    ghost var f := e;
    ShiftStart(e);
    for i := 0 to n
      invariant f >= 0 && f == Times(e, Pow2(i))
      invariant r19 == PowMod(z, f, r29)
    {
      PowModDouble(z, f, r29);
      ShiftOne(e, i);
      r19 := MulMod.MulMod(r19, r19, r28, r29);
      f := 2 * f;
    }
  }

  lemma ShiftStart(e: nat)
    ensures Times(e, Pow2(0)) == e
  {
    TimesIs(e, 1);
  }

  lemma ShiftOne(e: nat, i: nat)
    ensures Times(e, Pow2(i + 1)) == 2 * Times(e, Pow2(i))
  {
    TwiceTimes(Pow2(i), e);
  }

  /** z^e times z^f. */
  method PowMul(x: nat, y: nat, r28: Word, r29: Word, ghost z: int, ghost e: nat, ghost f: nat) returns (r19: nat)
    requires MulMod.Loaded(r29, r28) && x == PowMod(z, e, r29) && y == PowMod(z, f, r29)
    ensures r19 == PowMod(z, e + f, r29)
  {
    hide Times, PowMod, ModMul, MulMod.Reducible;
    PowModAdd(z, e, f, r29);
    r19 := MulMod.MulMod(x, y, r28, r29);
  }

  /** The loop counts of the chain as factors. */
  lemma LoopFactors()
    ensures Pow2(1) == 2 && Pow2(2) == 4 && Pow2(4) == 0x10 && Pow2(8) == 0x100 && Pow2(16) == 0x1_0000
    ensures Pow2(32) == 0x1_0000_0000
    ensures Pow2(192) == 0x1_00000000_00000000_00000000_00000000_00000000_00000000
  {
    assert Pow2(1) == 2;
    hide Pow2;
    Pow2Square(1, 2);
    Pow2Square(2, 4);
    Pow2Square(4, 0x10);
    Pow2Square(8, 0x100);
    Pow2Square(16, 0x1_0000);
    Pow2Square(32, 0x1_0000_0000);
    Pow2Square(64, 0x1_00000000_00000000);
    Pow2Product(128, 64, B128, 0x1_00000000_00000000);
  }

  lemma Pow2Product(j: nat, k: nat, u: nat, v: nat)
    requires Pow2(j) == u && Pow2(k) == v
    ensures Pow2(j + k) == u * v
  {
    Pow2Add(j, k);
  }

  /** n squarings multiply the exponent by a known factor. */
  method SquareBy(r: nat, n: nat, r28: Word, r29: Word, ghost z: int, ghost e: nat, ghost factor: nat) returns (r19: nat)
    requires MulMod.Loaded(r29, r28) && r == PowMod(z, e, r29) && Pow2(n) == factor
    ensures r19 == PowMod(z, e * factor, r29)
  {
    TimesIs(e, factor);
    hide Times, Pow2, PowMod;
    r19 := Squarings(r, n, r28, r29, z, e);
  }

  /**
   `ProjToAffine`: the addition chain raises z to exactly p - 2, and the affine coordinates are
   the projective ones times that power.
   */
  method ProjToAffine(t: Point, r28: Word, r29: Word) returns (r11: nat, r12: nat)
    requires MulMod.Loaded(r29, r28) && r29 == MulMod.P && Reduced(t, r29)
    ensures r11 == ModMul(t.x, PowMod(t.z, r29 - 2, r29), r29)
    ensures r12 == ModMul(t.y, PowMod(t.z, r29 - 2, r29), r29)
  {
    hide Pow2, PowMod, ModMul, Times, MulMod.Loaded;
    LoopFactors();
    ghost var z := t.z;
    ghost var p := r29;
    var r10 := AddM(t.z, 0, r29);
    FirstPower(z, r29);
    var r19 := PowMul(r10, r10, r28, r29, z, 1, 1);
    r12 := PowMul(r19, r10, r28, r29, z, 2, 1);
    r19 := SquareBy(r12, 1, r28, r29, z, 3, 2);
    r19 := SquareBy(r19, 1, r28, r29, z, 6, 2);
    var r13 := PowMul(r19, r12, r28, r29, z, 12, 3);
    r19 := SquareBy(r13, 4, r28, r29, z, 15, 0x10);
    var r14 := PowMul(r19, r13, r28, r29, z, 0xf0, 0xf);
    r19 := SquareBy(r14, 8, r28, r29, z, 0xff, 0x100);
    var r15 := PowMul(r19, r14, r28, r29, z, 0xff00, 0xff);
    r19 := SquareBy(r15, 16, r28, r29, z, 0xffff, 0x1_0000);
    var r16 := PowMul(r19, r15, r28, r29, z, 0xffff_0000, 0xffff);
    var r17 := SquareBy(r16, 32, r28, r29, z, 0xffff_ffff, 0x1_0000_0000);
    r19 := PowMul(r10, r17, r28, r29, z, 1, 0xffffffff_00000000);
    var r18 := SquareBy(r19, 192, r28, r29, z, 0xffffffff_00000001,
                        0x1_00000000_00000000_00000000_00000000_00000000_00000000);
    r19 := PowMul(r17, r16, r28, r29, z, 0xffffffff_00000000, 0xffff_ffff);
    r19 := SquareBy(r19, 16, r28, r29, z, 0xffffffff_ffffffff, 0x1_0000);
    r19 := PowMul(r15, r19, r28, r29, z, 0xffff, 0xffffffff_ffffffff_0000);
    r19 := SquareBy(r19, 8, r28, r29, z, 0xffffffff_ffffffff_ffff, 0x100);
    r19 := PowMul(r14, r19, r28, r29, z, 0xff, 0xffffffff_ffffffff_ffff00);
    r19 := SquareBy(r19, 4, r28, r29, z, 0xffffffff_ffffffff_ffffff, 0x10);
    r19 := PowMul(r13, r19, r28, r29, z, 0xf, 0xffffffff_ffffffff_ffffff0);
    r19 := SquareBy(r19, 2, r28, r29, z, 0xffffffff_ffffffff_fffffff, 4);
    r19 := PowMul(r12, r19, r28, r29, z, 3, 0x3fffffff_ffffffff_fffffffc);
    r19 := SquareBy(r19, 2, r28, r29, z, 0x3fffffff_ffffffff_ffffffff, 4);
    r19 := PowMul(r10, r19, r28, r29, z, 1, 0xffffffff_ffffffff_fffffffc);
    r14 := PowMul(r19, r18, r28, r29, z, 0xffffffff_ffffffff_fffffffd,
                  0xffffffff_00000001_00000000_00000000_00000000_00000000_00000000_00000000);
    r11 := MulMod.MulMod(t.x, r14, r28, r29);
    r12 := MulMod.MulMod(t.y, r14, r28, r29);
  }

  lemma FirstPower(z: int, m: nat)
    requires m > 1 && 0 <= z < m
    ensures PowMod(z, 1, m) == z
  {
    assert PowMod(z, 1, m) == ModMul(PowMod(z, 0, m), z, m);
    ModMulOne(z, m);
  }
}
