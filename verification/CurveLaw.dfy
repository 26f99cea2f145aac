/**
 What the addition formula computes, in terms of the curve y^2 z = x^3 + a x z^2 + b z^3: the mirror image
 of a sum lies on the line through the operands, and that of a double on the tangent. The laws are
 identities over the integers, for all triples and all a and b.
 */
module CurveLaw {
  import opened Modular
  import opened Projective

  // ----- products, without multiplication of terms

  lemma {:induction false} Swap(u: int, v: int, w: int)
    ensures Times(Times(u, v), w) == Times(Times(u, w), v)
    ensures Times(u, Times(v, w)) == Times(Times(u, v), w)
  {
    TimesAll();
    hide Times;
    assert (u * v) * w == (u * w) * v == u * (v * w);
  }

  lemma {:induction false} Distribute(u: int, v: int, w: int)
    ensures Times(u + v, w) == Times(u, w) + Times(v, w) && Times(w, u + v) == Times(w, u) + Times(w, v)
    ensures Times(u - v, w) == Times(u, w) - Times(v, w) && Times(w, u - v) == Times(w, u) - Times(w, v)
  {
    TimesAll();
    hide Times;
  }

  lemma {:induction false} Multiples(u: int, w: int)
    ensures Times(2 * u, w) == 2 * Times(u, w) && Times(3 * u, w) == 3 * Times(u, w) && Times(6 * u, w) == 6 * Times(u, w)
    ensures Times(9 * u, w) == 9 * Times(u, w) && Times(-u, w) == -Times(u, w)
    ensures Times(w, 3 * u) == 3 * Times(w, u)
  {
    TimesAll();
    hide Times;
  }

  lemma {:induction false} Regroup(u: int, v: int, s: int, t: int)
    ensures Times(Times(u, v), Times(s, t)) == Times(Times(u, s), Times(v, t))
  {
    hide Times;
    Swap(Times(u, v), s, t);
    Swap(u, v, s);
    Swap(Times(u, s), v, t);
  }

  lemma {:induction false} One(u: int, v: int, s: int, t: int, s': int, t': int)
    ensures Times(Times(u, v), Times(s, t) - Times(s', t'))
         == Times(Times(u, s), Times(v, t)) - Times(Times(u, s'), Times(v, t'))
  {
    hide Times;
    Distribute(Times(s, t), Times(s', t'), Times(u, v));
    Regroup(u, v, s, t);
    Regroup(u, v, s', t');
  }

  lemma {:induction false} Two(u: int, v: int, u': int, v': int, s: int, t: int, s': int, t': int)
    ensures Times(Times(u, v) + Times(u', v'), Times(s, t) - Times(s', t'))
         == Times(Times(u, s), Times(v, t)) - Times(Times(u, s'), Times(v, t'))
          + Times(Times(u', s), Times(v', t)) - Times(Times(u', s'), Times(v', t'))
  {
    hide Times;
    One(u, v, s, t, s', t');
    One(u', v', s, t, s', t');
    Distribute(Times(u, v), Times(u', v'), Times(s, t) - Times(s', t'));
  }

  // ----- the curve

  /** The cubic monomials of a triple. */
  datatype Cubics = Cubics(xxx: int, xxz: int, xyy: int, xzz: int, yyz: int, zzz: int)

  ghost function CubicsOf(p: Point): Cubics
  {
    var xx, yy, zz := Times(p.x, p.x), Times(p.y, p.y), Times(p.z, p.z);
    Cubics(Times(xx, p.x), Times(xx, p.z), Times(yy, p.x), Times(zz, p.x), Times(yy, p.z), Times(zz, p.z))
  }

  lemma {:induction false} CubicForms(p: Point)
    ensures var m, xz := CubicsOf(p), Times(p.x, p.z);
            && Times(p.x, Times(p.x, p.x)) == m.xxx && Times(p.z, Times(p.x, p.x)) == m.xxz && Times(p.x, xz) == m.xxz
            && Times(p.x, Times(p.y, p.y)) == m.xyy && Times(p.y, Times(p.y, p.x)) == m.xyy
            && Times(p.x, Times(p.z, p.z)) == m.xzz && Times(p.z, xz) == m.xzz && Times(p.z, Times(p.z, p.x)) == m.xzz
            && Times(p.z, Times(p.y, p.y)) == m.yyz && Times(p.y, Times(p.y, p.z)) == m.yyz
            && Times(p.z, Times(p.z, p.z)) == m.zzz && Times(p.x, Times(p.z, p.x)) == m.xxz
            && Times(p.x, Times(p.x, p.z)) == m.xxz
  {
    hide Times;
    TimesCommutes(p.x, Times(p.x, p.x));
    TimesCommutes(p.z, Times(p.x, p.x));
    TimesCommutes(p.x, Times(p.y, p.y));
    TimesCommutes(p.x, Times(p.z, p.z));
    TimesCommutes(p.z, Times(p.y, p.y));
    TimesCommutes(p.z, Times(p.z, p.z));
    TimesCommutes(p.x, p.z);
    Swap(p.x, p.x, p.z);
    Swap(p.z, p.z, p.x);
    Swap(p.y, p.y, p.x);
    Swap(p.y, p.y, p.z);
  }

  /** y^2 z - x^3 - a x z^2 - b z^3: zero on the curve. */
  ghost function Weierstrass(p: Point, a: int, b: int): int
  {
    var m := CubicsOf(p);
    m.yyz - m.xxx - Times(m.xzz, a) - Times(m.zzz, b)
  }

  /** The companion cubic of the chord law: 3 x y^2 + 3 a x^2 z + 9 b x z^2 - a^2 z^3. */
  ghost function Companion(p: Point, a: int, b: int): int
  {
    var m := CubicsOf(p);
    3 * m.xyy + 3 * Times(m.xxz, a) + 9 * Times(m.xzz, b) - Times(Times(m.zzz, a), a)
  }

  // ----- polynomials in a and b

  datatype Poly = Poly(c: int, a: int, b: int, aa: int, ab: int, bb: int, aaa: int, aab: int)

  ghost function Eval(f: Poly, a: int, b: int): int
  {
    f.c + Times(f.a, a) + Times(f.b, b) + Times(Times(f.aa, a), a) + Times(Times(f.ab, a), b) + Times(Times(f.bb, b), b)
    + Times(Times(Times(f.aaa, a), a), a) + Times(Times(Times(f.aab, a), a), b)
  }

  ghost function Minus2(f: Poly, g: Poly): Poly
  {
    Poly(f.c - g.c, f.a - g.a, f.b - g.b, f.aa - g.aa, f.ab - g.ab, f.bb - g.bb, f.aaa - g.aaa, f.aab - g.aab)
  }

  lemma {:induction false} EvalMinus(f: Poly, g: Poly, a: int, b: int)
    ensures Eval(Minus2(f, g), a, b) == Eval(f, a, b) - Eval(g, a, b)
  {
    hide Times;
    Distribute(f.a, g.a, a);
    Distribute(f.b, g.b, b);
    Distribute(f.aa, g.aa, a);
    Distribute(Times(f.aa, a), Times(g.aa, a), a);
    Distribute(f.ab, g.ab, a);
    Distribute(Times(f.ab, a), Times(g.ab, a), b);
    Distribute(f.bb, g.bb, b);
    Distribute(Times(f.bb, b), Times(g.bb, b), b);
    Distribute(f.aaa, g.aaa, a);
    Distribute(Times(f.aaa, a), Times(g.aaa, a), a);
    Distribute(Times(Times(f.aaa, a), a), Times(Times(g.aaa, a), a), a);
    Distribute(f.aab, g.aab, a);
    Distribute(Times(f.aab, a), Times(g.aab, a), a);
    Distribute(Times(Times(f.aab, a), a), Times(Times(g.aab, a), a), b);
  }

  /** The product of the companion cubic at p and the curve equation at q. */
  ghost function CompanionTimes(m: Cubics, n: Cubics): Poly
  {
    Poly(3 * (Times(m.xyy, n.yyz) - Times(m.xyy, n.xxx)),
         3 * (Times(m.xxz, n.yyz) - Times(m.xxz, n.xxx)) - 3 * Times(m.xyy, n.xzz),
         9 * (Times(m.xzz, n.yyz) - Times(m.xzz, n.xxx)) - 3 * Times(m.xyy, n.zzz),
         Times(m.zzz, n.xxx) - Times(m.zzz, n.yyz) - 3 * Times(m.xxz, n.xzz),
         -3 * Times(m.xxz, n.zzz) - 9 * Times(m.xzz, n.xzz),
         -9 * Times(m.xzz, n.zzz),
         Times(m.zzz, n.xzz),
         Times(m.zzz, n.zzz))
  }

  /** u times the curve equation, by powers of a and b. */
  lemma {:induction false} TimesCurve(u: int, q: Point, a: int, b: int)
    ensures var n := CubicsOf(q);
            Times(u, Weierstrass(q, a, b))
            == Times(u, n.yyz) - Times(u, n.xxx) - Times(Times(u, n.xzz), a) - Times(Times(u, n.zzz), b)
  {
    hide Times, CubicsOf;
    var n := CubicsOf(q);
    Distribute(n.yyz, n.xxx, u);
    Distribute(n.yyz - n.xxx, Times(n.xzz, a), u);
    Distribute(n.yyz - n.xxx - Times(n.xzz, a), Times(n.zzz, b), u);
    Swap(u, n.xzz, a);
    Swap(u, n.zzz, b);
  }

  lemma {:induction false} CompanionTimesIs(p: Point, q: Point, a: int, b: int)
    ensures Times(Companion(p, a, b), Weierstrass(q, a, b)) == Eval(CompanionTimes(CubicsOf(p), CubicsOf(q)), a, b)
  {
    hide Times, CubicsOf, Weierstrass;
    var m, n, w := CubicsOf(p), CubicsOf(q), Weierstrass(q, a, b);
    FourTerms(m.xyy, Times(m.xxz, a), Times(m.xzz, b), Times(Times(m.zzz, a), a), w);
    Swap(m.xxz, a, w);
    Swap(m.xzz, b, w);
    Swap(Times(m.zzz, a), a, w);
    Swap(m.zzz, a, w);
    TimesCurve(m.xyy, q, a, b);
    TimesCurve(m.xxz, q, a, b);
    TimesCurve(m.xzz, q, a, b);
    TimesCurve(m.zzz, q, a, b);
    Powers(Times(m.xyy, n.yyz) - Times(m.xyy, n.xxx), Times(m.xyy, n.xzz), Times(m.xyy, n.zzz),
           Times(m.xxz, n.yyz) - Times(m.xxz, n.xxx), Times(m.xxz, n.xzz), Times(m.xxz, n.zzz),
           Times(m.xzz, n.yyz) - Times(m.xzz, n.xxx), Times(m.xzz, n.xzz), Times(m.xzz, n.zzz),
           Times(m.zzz, n.yyz) - Times(m.zzz, n.xxx), Times(m.zzz, n.xzz), Times(m.zzz, n.zzz), a, b);
  }

  lemma {:induction false} FourTerms(u: int, v: int, s: int, t: int, w: int)
    ensures Times(3 * u + 3 * v + 9 * s - t, w) == 3 * Times(u, w) + 3 * Times(v, w) + 9 * Times(s, w) - Times(t, w)
  {
    hide Times;
    Multiples(u, w);
    Multiples(v, w);
    Multiples(s, w);
    Distribute(3 * u, 3 * v, w);
    Distribute(3 * u + 3 * v, 9 * s, w);
    Distribute(3 * u + 3 * v + 9 * s, t, w);
  }

  lemma {:induction false} Powers(u0: int, u1: int, u2: int, v0: int, v1: int, v2: int,
                                  s0: int, s1: int, s2: int, t0: int, t1: int, t2: int, a: int, b: int)
    ensures 3 * (u0 - Times(u1, a) - Times(u2, b)) + 3 * Times(v0 - Times(v1, a) - Times(v2, b), a)
            + 9 * Times(s0 - Times(s1, a) - Times(s2, b), b) - Times(Times(t0 - Times(t1, a) - Times(t2, b), a), a)
         == Eval(Poly(3 * u0, 3 * v0 - 3 * u1, 9 * s0 - 3 * u2, -t0 - 3 * v1, -3 * v2 - 9 * s1, -9 * s2, t1, t2), a, b)
  {
    hide Times;
    Shifted(v0, v1, v2, a, b, a);
    Shifted(s0, s1, s2, a, b, b);
    Shifted(t0, t1, t2, a, b, a);
    Shifted(Times(t0, a), Times(t1, a), Times(t2, a), a, b, a);
    Swap(s1, a, b);
    Combine(3, v0, -3, u1, a);
    Combine(9, s0, -3, u2, b);
    Combine(-1, t0, -3, v1, a);
    Combine(-1, Times(t0, a), -3, Times(v1, a), a);
    Combine(-3, v2, -9, s1, a);
    Combine(-3, Times(v2, a), -9, Times(s1, a), b);
    Combine(-9, s2, 0, 0, b);
    Combine(-9, Times(s2, b), 0, 0, b);
  }

  /** A polynomial of degree one, times w. */
  lemma {:induction false} Shifted(u: int, v: int, s: int, a: int, b: int, w: int)
    ensures Times(u - Times(v, a) - Times(s, b), w) == Times(u, w) - Times(Times(v, w), a) - Times(Times(s, w), b)
  {
    hide Times;
    Distribute(u, Times(v, a), w);
    Distribute(u - Times(v, a), Times(s, b), w);
    Swap(v, a, w);
    Swap(s, b, w);
  }

  lemma {:induction false} Combine(j: int, u: int, k: int, v: int, w: int)
    ensures Times(j * u + k * v, w) == j * Times(u, w) + k * Times(v, w)
  {
    TimesIs(j * u + k * v, w);
    TimesIs(u, w);
    TimesIs(v, w);
    hide Times;
    assert (j * u + k * v) * w == (j * u) * w + (k * v) * w;
    assert (j * u) * w == j * (u * w) && (k * v) * w == k * (v * w);
  }

  // ----- the chord

  /** The 2 x 2 minors of two triples. */
  datatype Minors = Minors(yz: int, xz: int, xy: int)

  ghost function MinorsOf(p: Point, q: Point): Minors
  {
    Minors(Times(p.y, q.z) - Times(p.z, q.y), Times(p.x, q.z) - Times(p.z, q.x), Times(p.x, q.y) - Times(p.y, q.x))
  }

  /** The determinant of three triples: zero when they lie on a line. */
  ghost function Det(p: Point, q: Point, r: Point): int
  {
    var m := MinorsOf(p, q);
    Times(r.x, m.yz) - Times(r.y, m.xz) + Times(r.z, m.xy)
  }

  ghost function Mirror(p: Point): Point
  {
    p.(y := -p.y)
  }

  /** Products of the symmetric and the alternating combinations of coordinates. */
  lemma {:induction false} ProductsTimesMinors(p: Point, q: Point)
    ensures var s, m, t := Products(p, q), MinorsOf(p, q), Mixed(p, q);
            && Times(s.xy, m.xy) == Squares(p.x, p.y, q.x, q.y)
            && Times(s.yz, m.yz) == Squares(p.y, p.z, q.y, q.z)
            && Times(s.xz, m.xz) == Squares(p.x, p.z, q.x, q.z)
            && Times(s.xy, m.yz) == Times(s.yy, m.xz) - t
            && Times(s.yz, m.xy) == Times(s.yy, m.xz) + t
  {
    hide Times;
    Commutes(p);
    Commutes(q);
    TimesCommutes(q.x, p.y);
    TimesCommutes(q.y, p.z);
    TimesCommutes(q.x, p.z);
    Two(p.x, q.y, p.y, q.x, p.x, q.y, p.y, q.x);
    Two(p.y, q.z, p.z, q.y, p.y, q.z, p.z, q.y);
    Two(p.x, q.z, p.z, q.x, p.x, q.z, p.z, q.x);
    Two(p.x, q.y, p.y, q.x, p.y, q.z, p.z, q.y);
    Two(p.y, q.z, p.z, q.y, p.x, q.y, p.y, q.x);
    One(p.y, q.y, p.x, q.z, p.z, q.x);
  }

  lemma {:induction false} Commutes(p: Point)
    ensures Times(p.x, p.y) == Times(p.y, p.x) && Times(p.y, p.z) == Times(p.z, p.y) && Times(p.x, p.z) == Times(p.z, p.x)
  {
    hide Times;
    TimesCommutes(p.x, p.y);
    TimesCommutes(p.y, p.z);
    TimesCommutes(p.x, p.z);
  }

  ghost function Squares(u: int, v: int, u': int, v': int): int
  {
    Times(Times(u, u), Times(v', v')) - Times(Times(v, v), Times(u', u'))
  }

  ghost function Mixed(p: Point, q: Point): int
  {
    Times(Times(p.x, p.z), Times(q.y, q.y)) - Times(Times(p.y, p.y), Times(q.x, q.z))
  }

  /** The determinant of a sum, regrouped around the minors. */
  lemma {:induction false} Assemble(xy: int, yz: int, m1: int, m2: int, m3: int, yy: int, t: int, cross: int, sq: int, k: int)
    requires Times(xy, m1) == Times(yy, m2) - k && Times(yz, m3) == Times(yy, m2) + k
    ensures Times(Times(xy, yy - t) - Times(yz, cross), m1) + Times(Times(yy - t, yy + t) + Times(sq, cross), m2)
            + Times(Times(yz, yy + t) + Times(xy, sq), m3)
         == 3 * Times(Times(yy, m2), yy) + 2 * Times(k, t) - Times(Times(t, m2), t) + Times(Times(cross, m2), sq)
            + Times(Times(xy, m3), sq) - Times(Times(yz, m1), cross)
  {
    hide Times;
    var n := Times(yy, m2);
    Distribute(Times(xy, yy - t), Times(yz, cross), m1);
    Distribute(Times(yy - t, yy + t), Times(sq, cross), m2);
    Distribute(Times(yz, yy + t), Times(xy, sq), m3);
    Swap(xy, yy - t, m1);
    Swap(yz, cross, m1);
    Swap(yz, yy + t, m3);
    Swap(xy, sq, m3);
    Swap(cross, sq, m2);
    TimesCommutes(sq, cross);
    Distribute(yy, t, n - k);
    Distribute(yy, t, n + k);
    Distribute(n, k, yy);
    Distribute(n, k, t);
    DifferenceOfSquares(yy, t, m2);
    Swap(yy, m2, t);
  }

  lemma {:induction false} DifferenceOfSquares(u: int, v: int, w: int)
    ensures Times(Times(u - v, u + v), w) == Times(Times(u, w), u) - Times(Times(v, w), v)
  {
    hide Times;
    Distribute(u, v, u + v);
    Distribute(u, v, u);
    Distribute(u, v, v);
    TimesCommutes(u, v);
    Distribute(Times(u, u), Times(v, v), w);
    Swap(u, u, w);
    Swap(v, v, w);
  }

  /** The products that the coefficients of the determinant consist of. */
  lemma {:induction false} Table(p: Point, q: Point)
    ensures var s, m, t := Products(p, q), MinorsOf(p, q), Mixed(p, q);
            var c, d := CubicsOf(p), CubicsOf(q);
            && Times(Times(s.yy, m.xz), s.yy) == Times(c.xyy, d.yyz) - Times(c.yyz, d.xyy)
            && Times(Times(s.xx, m.xz), s.xx) == Times(c.xxx, d.xxz) - Times(c.xxz, d.xxx)
            && Times(Times(s.zz, m.xz), s.zz) == Times(c.xzz, d.zzz) - Times(c.zzz, d.xzz)
            && Times(Times(s.zz, m.xz), s.xx) == Times(c.xxz, d.xzz) - Times(c.xzz, d.xxz)
            && Times(t, s.xz) == Times(c.xxz, d.yyz) - Times(c.xyy, d.xzz) + Times(c.xzz, d.xyy) - Times(c.yyz, d.xxz)
            && Times(t, s.zz) == Times(c.xzz, d.yyz) - Times(c.yyz, d.xzz)
  {
    hide Times;
    CubicForms(p);
    CubicForms(q);
    Commutes(p);
    Commutes(q);
    var s, m, t := Products(p, q), MinorsOf(p, q), Mixed(p, q);
    TimesCommutes(q.x, p.z);
    TimesCommutes(Times(s.yy, m.xz), s.yy);
    TimesCommutes(Times(s.xx, m.xz), s.xx);
    TimesCommutes(Times(s.zz, m.xz), s.zz);
    TimesCommutes(Times(s.zz, m.xz), s.xx);
    TimesCommutes(t, s.xz);
    TimesCommutes(t, s.zz);
    One(p.y, q.y, p.x, q.z, p.z, q.x);
    One(p.y, q.y, Times(p.y, p.x), Times(q.y, q.z), Times(p.y, p.z), Times(q.y, q.x));
    One(p.x, q.x, p.x, q.z, p.z, q.x);
    One(p.x, q.x, Times(p.x, p.x), Times(q.x, q.z), Times(p.x, p.z), Times(q.x, q.x));
    One(p.z, q.z, p.x, q.z, p.z, q.x);
    One(p.z, q.z, Times(p.z, p.x), Times(q.z, q.z), Times(p.z, p.z), Times(q.z, q.x));
    One(p.x, q.x, Times(p.z, p.x), Times(q.z, q.z), Times(p.z, p.z), Times(q.z, q.x));
    Two(p.x, q.z, p.z, q.x, Times(p.x, p.z), Times(q.y, q.y), Times(p.y, p.y), Times(q.x, q.z));
    One(p.z, q.z, Times(p.x, p.z), Times(q.y, q.y), Times(p.y, p.y), Times(q.x, q.z));
  }

  lemma {:induction false} TableOfSquares(p: Point, q: Point)
    ensures var s, c, d := Products(p, q), CubicsOf(p), CubicsOf(q);
            var xy, yz, xz := Squares(p.x, p.y, q.x, q.y), Squares(p.y, p.z, q.y, q.z), Squares(p.x, p.z, q.x, q.z);
            && Times(xy, s.xx) == Times(c.xxx, d.xyy) - Times(c.xyy, d.xxx)
            && Times(xy, s.zz) == Times(c.xxz, d.yyz) - Times(c.yyz, d.xxz)
            && Times(yz, s.xx) == Times(c.xyy, d.xzz) - Times(c.xzz, d.xyy)
            && Times(yz, s.zz) == Times(c.yyz, d.zzz) - Times(c.zzz, d.yyz)
            && Times(yz, s.xz) == Times(c.xyy, d.zzz) - Times(c.xzz, d.yyz) + Times(c.yyz, d.xzz) - Times(c.zzz, d.xyy)
            && Times(xz, s.xx) == Times(c.xxx, d.xzz) - Times(c.xzz, d.xxx)
            && Times(xz, s.zz) == Times(c.xxz, d.zzz) - Times(c.zzz, d.xxz)
            && Times(xz, s.xz) == Times(c.xxx, d.zzz) - Times(c.xzz, d.xxz) + Times(c.xxz, d.xzz) - Times(c.zzz, d.xxx)
  {
    hide Times;
    CubicForms(p);
    CubicForms(q);
    var s := Products(p, q);
    var xy, yz, xz := Squares(p.x, p.y, q.x, q.y), Squares(p.y, p.z, q.y, q.z), Squares(p.x, p.z, q.x, q.z);
    TimesCommutes(q.x, p.z);
    TimesCommutes(xy, s.xx);
    TimesCommutes(xy, s.zz);
    TimesCommutes(yz, s.xx);
    TimesCommutes(yz, s.zz);
    TimesCommutes(yz, s.xz);
    TimesCommutes(xz, s.xx);
    TimesCommutes(xz, s.zz);
    TimesCommutes(xz, s.xz);
    var a, b, c := Times(p.x, p.x), Times(p.y, p.y), Times(p.z, p.z);
    var a', b', c' := Times(q.x, q.x), Times(q.y, q.y), Times(q.z, q.z);
    One(p.x, q.x, a, b', b, a');
    One(p.z, q.z, a, b', b, a');
    One(p.x, q.x, b, c', c, b');
    One(p.z, q.z, b, c', c, b');
    Two(p.x, q.z, p.z, q.x, b, c', c, b');
    One(p.x, q.x, a, c', c, a');
    One(p.z, q.z, a, c', c, a');
    Two(p.x, q.z, p.z, q.x, a, c', c, a');
  }

  // ----- the terms of the regrouped determinant, by powers of a and b

  lemma {:induction false} Nothing(a: int, b: int)
    ensures Times(0, a) == 0 && Times(0, b) == 0
  {
    TimesIs(0, a);
    TimesIs(0, b);
  }

  /** u times the linear form x a + 3 z b. */
  lemma {:induction false} Linear(u: int, x: int, z: int, a: int, b: int)
    ensures Times(u, Times(x, a) + 3 * Times(z, b)) == Times(Times(u, x), a) + 3 * Times(Times(u, z), b)
    ensures 2 * Times(u, Times(x, a) + 3 * Times(z, b)) == Eval(Poly(0, 2 * Times(u, x), 6 * Times(u, z), 0, 0, 0, 0, 0), a, b)
  {
    hide Times;
    Nothing(a, b);
    Distribute(Times(x, a), 3 * Times(z, b), u);
    Multiples(Times(z, b), u);
    Swap(u, x, a);
    Swap(u, z, b);
    Multiples(Times(u, x), a);
    Multiples(Times(u, z), b);
  }

  /** The square of the linear form, times m; n and k are x m and z m. */
  lemma {:induction false} LinearSquare(x: int, z: int, m: int, a: int, b: int)
    ensures var t, n, k := Times(x, a) + 3 * Times(z, b), Times(x, m), Times(z, m);
            Times(Times(t, m), t) == Eval(Poly(0, 0, 0, Times(n, x), 6 * Times(n, z), 9 * Times(k, z), 0, 0), a, b)
  {
    hide Times;
    Nothing(a, b);
    var t, n, k := Times(x, a) + 3 * Times(z, b), Times(x, m), Times(z, m);
    Distribute(Times(x, a), 3 * Times(z, b), m);
    Multiples(Times(z, b), m);
    Swap(x, a, m);
    Swap(z, b, m);
    assert Times(t, m) == Times(n, a) + 3 * Times(k, b);
    Linear(Times(t, m), x, z, a, b);
    LinearTimes(n, k, x, a, b);
    LinearTimes(n, k, z, a, b);
    Swap(z, m, x);
    Swap(x, m, z);
    TimesCommutes(x, z);
    Distribute(Times(Times(n, x), a), 3 * Times(Times(k, x), b), a);
    Distribute(Times(Times(n, z), a), 3 * Times(Times(k, z), b), b);
    Multiples(Times(Times(k, x), b), a);
    Multiples(Times(Times(k, z), b), b);
    Swap(Times(k, x), a, b);
    Multiples(Times(n, z), a);
    Multiples(Times(Times(n, z), a), b);
    Multiples(Times(k, z), b);
    Multiples(Times(Times(k, z), b), b);
  }

  lemma {:induction false} LinearTimes(n: int, k: int, w: int, a: int, b: int)
    ensures Times(Times(n, a) + 3 * Times(k, b), w) == Times(Times(n, w), a) + 3 * Times(Times(k, w), b)
  {
    hide Times;
    Distribute(Times(n, a), 3 * Times(k, b), w);
    Multiples(Times(k, b), w);
    Swap(n, a, w);
    Swap(k, b, w);
  }

  /** u times the factor x a + 3 y b - z a^2. */
  lemma {:induction false} TimesCross(u: int, x: int, y: int, z: int, a: int, b: int)
    ensures Times(Cross(x, y, z, a, b), u) == Times(u, Cross(x, y, z, a, b))
    ensures Times(u, Cross(x, y, z, a, b)) == Times(Times(u, x), a) + 3 * Times(Times(u, y), b) - Times(Times(Times(u, z), a), a)
    ensures Times(u, Cross(x, y, z, a, b)) == Eval(Poly(0, Times(u, x), 3 * Times(u, y), -Times(u, z), 0, 0, 0, 0), a, b)
  {
    hide Times;
    Nothing(a, b);
    TimesCommutes(u, Cross(x, y, z, a, b));
    Linear(u, x, y, a, b);
    Distribute(Times(x, a) + 3 * Times(y, b), Times(Times(z, a), a), u);
    Swap(u, Times(z, a), a);
    Swap(u, z, a);
    Multiples(Times(u, y), b);
    Multiples(Times(u, z), a);
    Multiples(Times(Times(u, z), a), a);
  }

  /** u times the factor 3 x + z a. */
  lemma {:induction false} TimesSquare(u: int, x: int, z: int, a: int, b: int)
    ensures Times(u, Square(x, z, a)) == 3 * Times(u, x) + Times(Times(u, z), a)
    ensures Times(u, Square(x, z, a)) == Eval(Poly(3 * Times(u, x), Times(u, z), 0, 0, 0, 0, 0, 0), a, b)
  {
    hide Times;
    Nothing(a, b);
    Distribute(3 * x, Times(z, a), u);
    Multiples(x, u);
    Swap(u, z, a);
  }

  /** The product of both factors, times m. */
  lemma {:induction false} CrossSquare(x: int, y: int, z: int, m: int, a: int, b: int)
    ensures var cross, sq, n := Cross(x, y, z, a, b), Square(x, z, a), Times(y, m);
            Times(Times(cross, m), sq)
            == Eval(Poly(0, 3 * Times(Times(x, m), x), 9 * Times(n, x), -2 * Times(Times(z, m), x), 3 * Times(n, z), 0,
                         -Times(Times(z, m), z), 0), a, b)
  {
    hide Times, Cross, Square;
    Nothing(a, b);
    var cross, sq := Cross(x, y, z, a, b), Square(x, z, a);
    var xm, n, k := Times(x, m), Times(y, m), Times(z, m);
    TimesCommutes(x, m);
    TimesCommutes(y, m);
    TimesCommutes(z, m);
    TimesCross(m, x, y, z, a, b);
    var u := Times(cross, m);
    TimesSquare(u, x, z, a, b);
    CubicTimes(xm, n, k, x, a, b);
    CubicTimes(xm, n, k, z, a, b);
    Swap(x, m, z);
    Swap(z, m, x);
    TimesCommutes(x, z);
    var f, g, h := Times(Times(xm, z), a), Times(Times(n, z), b), Times(Times(Times(k, z), a), a);
    Distribute(f + 3 * g, h, a);
    Distribute(f, 3 * g, a);
    Multiples(g, a);
    Swap(Times(n, z), a, b);
    Multiples(Times(xm, x), a);
    Multiples(Times(n, x), b);
    Combine(-2, Times(k, x), 0, 0, a);
    Combine(-2, Times(Times(k, x), a), 0, 0, a);
    Multiples(Times(n, z), a);
    Multiples(Times(Times(n, z), a), b);
    Multiples(Times(k, z), a);
    Multiples(Times(Times(k, z), a), a);
    Multiples(Times(Times(Times(k, z), a), a), a);
  }

  lemma {:induction false} CubicTimes(u: int, n: int, k: int, w: int, a: int, b: int)
    ensures Times(Times(u, a) + 3 * Times(n, b) - Times(Times(k, a), a), w)
         == Times(Times(u, w), a) + 3 * Times(Times(n, w), b) - Times(Times(Times(k, w), a), a)
  {
    hide Times;
    Distribute(Times(u, a) + 3 * Times(n, b), Times(Times(k, a), a), w);
    LinearTimes(u, n, w, a, b);
    Swap(Times(k, a), a, w);
    Swap(k, a, w);
  }

  ghost function Plus2(f: Poly, g: Poly): Poly
  {
    Minus2(f, Minus2(Poly(0, 0, 0, 0, 0, 0, 0, 0), g))
  }

  lemma {:induction false} EvalPlus(f: Poly, g: Poly, a: int, b: int)
    ensures Eval(Plus2(f, g), a, b) == Eval(f, a, b) + Eval(g, a, b)
  {
    hide Times;
    var zero := Poly(0, 0, 0, 0, 0, 0, 0, 0);
    Nothing(a, b);
    assert Eval(zero, a, b) == 0;
    hide Eval;
    EvalMinus(zero, g, a, b);
    EvalMinus(f, Minus2(zero, g), a, b);
  }

  /** The determinant of p, q and the mirror image of their sum, by powers of a and b. */
  ghost function DetPoly(p: Point, q: Point): Poly
  {
    var s, m, k := Products(p, q), MinorsOf(p, q), Mixed(p, q);
    var s1, s2, s3 := Times(s.yz, m.yz), Times(s.xz, m.xz), Times(s.xy, m.xy);
    var xm, zm := Times(s.xx, m.xz), Times(s.zz, m.xz);
    Poly(3 * Times(Times(s.yy, m.xz), s.yy) + 3 * Times(s3, s.xx),
         2 * Times(k, s.xz) + 3 * Times(xm, s.xx) + Times(s3, s.zz) - Times(s1, s.xx),
         6 * Times(k, s.zz) + 9 * Times(s2, s.xx) - 3 * Times(s1, s.xz),
         Times(s1, s.zz) - Times(s2, s.xz) - 2 * Times(zm, s.xx),
         -3 * Times(s2, s.zz), -9 * Times(zm, s.zz), -Times(zm, s.zz), 0)
  }

  lemma {:induction false} Constant(f: Poly, k: int, a: int, b: int)
    ensures Eval(f.(c := f.c + k), a, b) == Eval(f, a, b) + k
  {
    hide Times;
  }

  /** The chord law: on the curve, p, q and the mirror image of their sum lie on a line. */
  lemma {:induction false} ChordLaw(p: Point, q: Point, a: int, b: int)
    ensures Det(p, q, Mirror(Sum(p, q, a, b)))
         == Times(Companion(p, a, b), Weierstrass(q, a, b)) - Times(Companion(q, a, b), Weierstrass(p, a, b))
  {
    hide Times, Eval, Mixed;
    assert Det(p, q, Mirror(Sum(p, q, a, b))) == Eval(DetPoly(p, q), a, b) by {
      hide Cross, Square;
      var s, m, k := Products(p, q), MinorsOf(p, q), Mixed(p, q);
      var s1, s2, s3 := Times(s.yz, m.yz), Times(s.xz, m.xz), Times(s.xy, m.xy);
      var xm, zm, r := Times(s.xx, m.xz), Times(s.zz, m.xz), Sum(p, q, a, b);
      var t, cross, sq := Times(s.xz, a) + 3 * Times(s.zz, b), Cross(s.xx, s.xz, s.zz, a, b), Square(s.xx, s.zz, a);
      ProductsTimesMinors(p, q);
      Multiples(r.y, m.xz);
      Assemble(s.xy, s.yz, m.yz, m.xz, m.xy, s.yy, t, cross, sq, k);
      Linear(k, s.xz, s.zz, a, b);
      LinearSquare(s.xz, s.zz, m.xz, a, b);
      CrossSquare(s.xx, s.xz, s.zz, m.xz, a, b);
      TimesSquare(s3, s.xx, s.zz, a, b);
      TimesCross(s1, s.xx, s.xz, s.zz, a, b);
      var f := Poly(0, 2 * Times(k, s.xz), 6 * Times(k, s.zz), 0, 0, 0, 0, 0);
      var g := Poly(0, 0, 0, Times(s2, s.xz), 6 * Times(s2, s.zz), 9 * Times(zm, s.zz), 0, 0);
      var h := Poly(0, 3 * Times(xm, s.xx), 9 * Times(s2, s.xx), -2 * Times(zm, s.xx), 3 * Times(s2, s.zz), 0, -Times(zm, s.zz), 0);
      var i := Poly(3 * Times(s3, s.xx), Times(s3, s.zz), 0, 0, 0, 0, 0, 0);
      var j := Poly(0, Times(s1, s.xx), 3 * Times(s1, s.xz), -Times(s1, s.zz), 0, 0, 0, 0);
      EvalMinus(f, g, a, b);
      EvalPlus(Minus2(f, g), h, a, b);
      EvalPlus(Plus2(Minus2(f, g), h), i, a, b);
      EvalMinus(Plus2(Plus2(Minus2(f, g), h), i), j, a, b);
      Constant(Minus2(Plus2(Plus2(Minus2(f, g), h), i), j), 3 * Times(Times(s.yy, m.xz), s.yy), a, b);
    }
    hide CubicsOf, Squares, MinorsOf, Products;
    CompanionTimesIs(p, q, a, b);
    CompanionTimesIs(q, p, a, b);
    EvalMinus(CompanionTimes(CubicsOf(p), CubicsOf(q)), CompanionTimes(CubicsOf(q), CubicsOf(p)), a, b);
    ProductsTimesMinors(p, q);
    Table(p, q);
    TableOfSquares(p, q);
    CubicsCommute(CubicsOf(p), CubicsOf(q));
    hide Companion, Weierstrass, Sum, Det, Mirror;
    assert DetPoly(p, q) == Minus2(CompanionTimes(CubicsOf(p), CubicsOf(q)), CompanionTimes(CubicsOf(q), CubicsOf(p)));
  }

  lemma {:induction false} CubicsCommute(c: Cubics, d: Cubics)
    ensures Times(d.xyy, c.yyz) == Times(c.yyz, d.xyy) && Times(d.xyy, c.xxx) == Times(c.xxx, d.xyy)
    ensures Times(d.xxz, c.yyz) == Times(c.yyz, d.xxz) && Times(d.xxz, c.xxx) == Times(c.xxx, d.xxz)
    ensures Times(d.xyy, c.xzz) == Times(c.xzz, d.xyy) && Times(d.xzz, c.yyz) == Times(c.yyz, d.xzz)
    ensures Times(d.xzz, c.xxx) == Times(c.xxx, d.xzz) && Times(d.xyy, c.zzz) == Times(c.zzz, d.xyy)
    ensures Times(d.zzz, c.xxx) == Times(c.xxx, d.zzz) && Times(d.zzz, c.yyz) == Times(c.yyz, d.zzz)
    ensures Times(d.xxz, c.xzz) == Times(c.xzz, d.xxz) && Times(d.xxz, c.zzz) == Times(c.zzz, d.xxz)
    ensures Times(d.xzz, c.xzz) == Times(c.xzz, d.xzz) && Times(d.xzz, c.zzz) == Times(c.zzz, d.xzz)
    ensures Times(d.zzz, c.xzz) == Times(c.xzz, d.zzz) && Times(d.zzz, c.zzz) == Times(c.zzz, d.zzz)
  {
    hide Times;
    TimesCommutes(d.xyy, c.yyz);
    TimesCommutes(d.xyy, c.xxx);
    TimesCommutes(d.xxz, c.yyz);
    TimesCommutes(d.xxz, c.xxx);
    TimesCommutes(d.xyy, c.xzz);
    TimesCommutes(d.xzz, c.yyz);
    TimesCommutes(d.xzz, c.xxx);
    TimesCommutes(d.xyy, c.zzz);
    TimesCommutes(d.zzz, c.xxx);
    TimesCommutes(d.zzz, c.yyz);
    TimesCommutes(d.xxz, c.xzz);
    TimesCommutes(d.xxz, c.zzz);
    TimesCommutes(d.xzz, c.xzz);
    TimesCommutes(d.xzz, c.zzz);
    TimesCommutes(d.zzz, c.xzz);
    TimesCommutes(d.zzz, c.zzz);
  }

  // ----- the tangent

  /** The derivatives of y^2 z - x^3 - a x z^2 - b z^3: the tangent at p. */
  ghost function Gradient(p: Point, a: int, b: int): Point
  {
    var zz := Times(p.z, p.z);
    Point(-3 * Times(p.x, p.x) - Times(zz, a), 2 * Times(p.y, p.z),
          Times(p.y, p.y) - 2 * Times(Times(p.x, p.z), a) - 3 * Times(zz, b))
  }

  ghost function Dot(p: Point, q: Point): int
  {
    Times(p.x, q.x) + Times(p.y, q.y) + Times(p.z, q.z)
  }

  /** The tangent law: the mirror image of a double lies on the tangent. */
  lemma {:induction false} TangentLaw(p: Point, a: int, b: int)
    ensures Dot(Gradient(p, a, b), Mirror(Sum(p, p, a, b))) == 0
  {
    hide Times, Minus, Cross;
    var s := Products(p, p);
    var plus, minus := Plus(s.yy, s.xz, s.zz, a, b), Minus(s.yy, s.xz, s.zz, a, b);
    var cross, sq := Cross(s.xx, s.xz, s.zz, a, b), Square(s.xx, s.zz, a);
    Commutes(p);
    Multiples(Times(p.x, p.z), a);
    var g := Gradient(p, a, b);
    assert s.xz == 2 * Times(p.x, p.z) && g == Point(-sq, s.yz, plus);
    hide Plus, Square, Gradient;
    Eliminate(plus, minus, cross, sq, s.xy, s.yz);
    TimesCommutes(plus, Times(s.yz, minus) + Times(s.xy, sq));
    TimesCommutes(-sq, Times(s.xy, plus) - Times(s.yz, cross));
  }

  lemma {:induction false} Eliminate(plus: int, minus: int, cross: int, sq: int, xy: int, yz: int)
    ensures Times(-sq, Times(xy, plus) - Times(yz, cross)) + Times(yz, -(Times(plus, minus) + Times(sq, cross)))
            + Times(plus, Times(yz, minus) + Times(xy, sq)) == 0
  {
    hide Times;
    Distribute(Times(xy, plus), Times(yz, cross), -sq);
    Multiples(sq, Times(xy, plus));
    Multiples(sq, Times(yz, cross));
    TimesCommutes(yz, -(Times(plus, minus) + Times(sq, cross)));
    Multiples(Times(plus, minus) + Times(sq, cross), yz);
    TimesCommutes(yz, Times(plus, minus) + Times(sq, cross));
    Distribute(Times(plus, minus), Times(sq, cross), yz);
    Distribute(Times(yz, minus), Times(xy, sq), plus);
    Swap(plus, yz, minus);
    Swap(plus, xy, sq);
    Swap(yz, plus, minus);
    Swap(yz, sq, cross);
    Swap(sq, xy, plus);
    Swap(sq, yz, cross);
    TimesCommutes(plus, yz);
    TimesCommutes(plus, xy);
    TimesCommutes(sq, xy);
    TimesCommutes(sq, yz);
    Swap(xy, plus, sq);
  }

  // ----- the laws of the program, on residues

  lemma {:induction false} CongDot(u: Point, q: Point, q': Point, m: nat)
    requires m > 0 && CongPoint(q, q', m)
    ensures Cong(Dot(u, q), Dot(u, q'), m)
  {
    CongRefl(u.x, m);
    CongRefl(u.y, m);
    CongRefl(u.z, m);
    hide Cong, Times;
    CongTimes(u.x, q.x, u.x, q'.x, m);
    CongTimes(u.y, q.y, u.y, q'.y, m);
    CongTimes(u.z, q.z, u.z, q'.z, m);
    CongAdd(Times(u.x, q.x), Times(u.x, q'.x), Times(u.y, q.y), Times(u.y, q'.y), m);
    CongAdd(Times(u.x, q.x) + Times(u.y, q.y), Times(u.x, q'.x) + Times(u.y, q'.y), Times(u.z, q.z), Times(u.z, q'.z), m);
  }

  lemma {:induction false} MirrorCong(p: Point, m: nat)
    requires m > 0
    ensures CongPoint(Mirror(Reduce(p, m)), Mirror(p), m)
  {
    ReduceCong(p, m);
    CongRefl(0, m);
    hide Cong, Mod;
    CongSub(0, 0, Mod(p.y, m), p.y, m);
  }

  /** A point of the curve modulo m, for the a of P-256. */
  ghost predicate OnCubic(p: Point, b: int, m: nat)
    requires m > 0
  {
    Mod(Weierstrass(p, -3, b), m) == 0
  }

  ghost predicate InLine(p: Point, q: Point, r: Point, m: nat)
    requires m > 0
  {
    Mod(Det(p, q, r), m) == 0
  }

  /**
   What `ProjAdd` leaves in its registers for two points of the curve modulo m: its mirror image lies on the
   line through them.
   */
  lemma {:induction false} SumOnChord(p: Point, q: Point, b: int, m: nat)
    requires m > 0
    ensures OnCubic(p, b, m) && OnCubic(q, b, m) ==> InLine(p, q, Mirror(AddPoints(p, q, b, m)), m)
  {
    hide Times, Sum, Weierstrass, Companion;
    var n := MinorsOf(p, q);
    var u, r := Point(n.yz, -n.xz, n.xy), Sum(p, q, -3, b);
    MirrorCong(r, m);
    CongDot(u, Mirror(Reduce(r, m)), Mirror(r), m);
    DotIsDet(p, q, Mirror(r));
    DotIsDet(p, q, Mirror(Reduce(r, m)));
    ChordLaw(p, q, -3, b);
    CongMod(Det(p, q, Mirror(Reduce(r, m))), Det(p, q, Mirror(r)), m);
    if OnCubic(p, b, m) && OnCubic(q, b, m) {
      Vanishes(Companion(p, -3, b), Weierstrass(q, -3, b), m);
      Vanishes(Companion(q, -3, b), Weierstrass(p, -3, b), m);
      hide Det, Mirror, Dot, Mod;
      BothVanish(Times(Companion(p, -3, b), Weierstrass(q, -3, b)), Times(Companion(q, -3, b), Weierstrass(p, -3, b)), m);
    }
  }

  /** What `ProjDouble` leaves in its registers: its mirror image lies on the tangent. */
  lemma {:induction false} DoubleOnTangent(p: Point, b: int, m: nat)
    requires m > 0
    ensures Mod(Dot(Gradient(p, -3, b), Mirror(AddPoints(p, p, b, m))), m) == 0
  {
    hide Times, Sum, Gradient;
    var u, r := Gradient(p, -3, b), Sum(p, p, -3, b);
    MirrorCong(r, m);
    CongDot(u, Mirror(Reduce(r, m)), Mirror(r), m);
    TangentLaw(p, -3, b);
    ModSmall(0, m);
    hide Dot, Mirror, Mod;
    CongMod(Dot(u, Mirror(Reduce(r, m))), Dot(u, Mirror(r)), m);
  }

  lemma {:induction false} CongMod(x: int, y: int, m: nat)
    requires m > 0 && Cong(x, y, m)
    ensures Mod(x, m) == Mod(y, m)
  {
  }

  lemma {:induction false} DotIsDet(p: Point, q: Point, r: Point)
    ensures var n := MinorsOf(p, q); Dot(Point(n.yz, -n.xz, n.xy), r) == Det(p, q, r)
  {
    hide Times;
    var n := MinorsOf(p, q);
    TimesCommutes(n.yz, r.x);
    TimesCommutes(n.xz, r.y);
    TimesCommutes(n.xy, r.z);
    Multiples(n.xz, r.y);
  }

  lemma {:induction false} Vanishes(u: int, w: int, m: nat)
    requires m > 0 && Mod(w, m) == 0
    ensures Mod(Times(u, w), m) == 0
  {
    hide Times, Mod;
    ModMulCommutes(u, w, m);
    ModMulReduced(w, u, m);
    TimesIs(0, u);
    ModSmall(0, m);
  }

  lemma {:induction false} BothVanish(u: int, v: int, m: nat)
    requires m > 0 && Mod(u, m) == 0 && Mod(v, m) == 0
    ensures Mod(u - v, m) == 0
  {
    CongSub(u, 0, v, 0, m);
  }
}
