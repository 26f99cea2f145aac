/**
 `p256sign`, and the round trip through `p256verify`.
 */
module Sign {
  import opened Accelerator
  import opened Modular
  import opened Projective
  import opened Groups
  import ModInverse
  import MulMod
  import ScalarMult
  import Verify

  // ----- multiples of an element of finite order

  lemma {:induction false} MultMult<G(!new)>(g: Group<G>, a: nat, b: nat, x: G)
    requires Abelian(g)
    ensures Times(a, b) >= 0 && Mult(g, Times(a, b), x) == Mult(g, a, Mult(g, b, x))
  {
    TimesMonotone(0, a, 0, b);
    if a == 0 {
      assert Times(0, b) == 0;
    } else {
      MultMult(g, a - 1, b, x);
      assert Times(a, b) == Times(a - 1, b) + b;
      hide Times;
      MultAdd(g, Times(a - 1, b), b, x);
    }
  }

  lemma {:induction false} MultZero<G(!new)>(g: Group<G>, k: nat)
    requires Abelian(g)
    ensures Mult(g, k, g.zero) == g.zero
  {
    if k > 0 {
      MultZero(g, k - 1);
    }
  }

  lemma Quotient(k: nat, n: nat) returns (q: nat)
    requires n > 0
    ensures k == Mod(k, n) + Times(q, n)
  {
    TimesAll();
    hide Times;
    q := k / n;
  }

  /** Multiples depend only on the scalar modulo the order. */
  lemma MultMod<G(!new)>(g: Group<G>, k: nat, n: nat, x: G)
    requires Abelian(g) && n > 0 && Mult(g, n, x) == g.zero
    ensures Mult(g, Mod(k, n), x) == Mult(g, k, x)
  {
    hide Mult, Mod, Times, Abelian;
    var q := Quotient(k, n);
    MultMult(g, q, n, x);
    MultZero(g, q);
    MultAdd(g, Mod(k, n), Times(q, n), x);
    ScalarMult.AddZero(g, Mult(g, Mod(k, n), x));
  }

  // ----- the signature equation

  /** k * s = r * d + msg modulo n, with s as the firmware computes it from k^-1. */
  lemma {:induction false} SignatureEquation(k: int, inv: int, d: int, r: int, msg: int, s: int, n: nat)
    requires n > 1 && ModMul(inv, k, n) == 1
    requires s == Mod(ModMul(msg, inv, n) + ModMul(r, ModMul(d, inv, n), n), n)
    ensures ModMul(k, s, n) == Mod(Times(r, d) + msg, n)
  {
    hide Times, Mod, Cong;
    SignedSum(inv, d, r, msg, n);
    CancelInverse(k, inv, Times(r, d) + msg, s, n);
  }

  /** The residues that the firmware adds up are those of (r * d + msg) / k. */
  lemma SignedSum(inv: int, d: int, r: int, msg: int, n: nat)
    requires n > 1
    ensures Cong(Mod(ModMul(msg, inv, n) + ModMul(r, ModMul(d, inv, n), n), n), Times(Times(r, d) + msg, inv), n)
  {
    CongRefl(r, n);
    hide Times, Mod, Cong;
    var u, v := ModMul(d, inv, n), Times(d, inv);
    var a, b := ModMul(msg, inv, n), ModMul(r, u, n);
    ModSelf(Times(msg, inv), n);
    ModSelf(v, n);
    ModSelf(Times(r, u), n);
    TimesIs(r, u);
    CongMul(r, r, u, v, n);
    CongTrans(b, r * u, r * v, n);
    CongAdd(a, Times(msg, inv), b, r * v, n);
    SumOfProducts(r, d, msg, inv);
    ModSelf(a + b, n);
    CongTrans(Mod(a + b, n), a + b, Times(msg, inv) + r * v, n);
  }

  lemma SumOfProducts(r: int, d: int, msg: int, inv: int)
    ensures Times(msg, inv) + r * Times(d, inv) == Times(Times(r, d) + msg, inv)
  {
    TimesAll();
    hide Times;
    assert r * (d * inv) == (r * d) * inv;
    assert (r * d + msg) * inv == (r * d) * inv + msg * inv;
  }

  /** From s = e / k to k * s = e. */
  lemma CancelInverse(k: int, inv: int, e: int, s: int, n: nat)
    requires n > 1 && ModMul(inv, k, n) == 1 && Cong(s, Times(e, inv), n)
    ensures ModMul(k, s, n) == Mod(e, n)
  {
    ModMulCommutes(k, s, n);
    assert Cong(k, k, n);
    ModMulCong(s, k, Times(e, inv), k, n);
    hide Times, Mod;
    assert ModMul(Times(e, inv), k, n) == ModMul(ModMul(e, inv, n), k, n) by { ModMulReduced(Times(e, inv), k, n); }
    ModMulAssoc(e, inv, k, n);
    ModMulUnit(e, n);
  }

  lemma ModMulUnit(e: int, n: nat)
    requires n > 1
    ensures ModMul(e, 1, n) == Mod(e, n)
  {
    TimesAll();
    hide Times;
    assert Times(e, 1) == e;
  }

  /** The inverse of k, by Fermat's theorem. */
  lemma FermatInverse(k: nat, n: nat)
    requires n > 2 && ModInverse.Fermat(n) && 0 < k < n
    ensures ModMul(PowMod(k, n - 2, n), k, n) == 1
  {
    assert ModInverse.FermatPower(k, n) == ModMul(PowMod(k, n - 2, n), k, n);
  }

  /** The masks that the shares of k make use of are units modulo p. */
  ghost predicate Serve(k: int, rnd: int, masks: seq<Word>)
    requires |masks| == 513
  {
    ScalarMult.MasksServe(ScalarMult.Share0(k, rnd), ScalarMult.Share1(rnd), masks, 256)
  }

  /** One zero mask in the place that matters destroys even the computation of 1 * G. */
  lemma ZeroMaskFails(masks: seq<Word>)
    requires |masks| == 513 && masks[511] == 0
    ensures !Serve(1, 0, masks)
  {
    ModSmall(1, MulMod.N);
    ModSmall(0, MulMod.N);
    ModSmall(0, MulMod.P);
    hide Mod;
    assert ScalarMult.Bit(1, 0) && !ScalarMult.Bit(0, 0);
    assert !ScalarMult.RoundServes(ScalarMult.Share0(1, 0), ScalarMult.Share1(0), masks, 255);
  }

  /**
   `p256sign`, for all masks: r is the affine x-coordinate of k * G modulo n if the masks serve and
   zero otherwise, and s satisfies the ECDSA signature equation k * s = r * d + msg modulo n.
   */
  method P256Sign<G(!new)>(msg: Word, k: Word, d: Word, rnd: Word, masks: seq<Word>, ghost c: Curve<G>, ghost g: G)
    returns (sigR: nat, sigS: nat, ghost x: nat, ghost y: nat)
    requires 0 < k < MulMod.N && |masks| == 513 && ModInverse.Fermat(MulMod.N)
    requires Implements(c, CURVE_B, MulMod.P) && Mult(c.group, MulMod.N, g) == c.group.zero
    requires ScalarMult.Represents(c, Point(Verify.GX, Verify.GY, 1), g)
    ensures if Serve(k, rnd, masks) then ScalarMult.AffineOf(c, Mult(c.group, k, g), x, y) else x == 0 && y == 0
    ensures sigR < MulMod.N && sigS < MulMod.N && sigR == Mod(x, MulMod.N) && x < MulMod.P && y < MulMod.P
    ensures ModMul(k, sigS, MulMod.N) == Mod(Times(sigR, d) + msg, MulMod.N)
  {
    hide ScalarMult.Represents, ScalarMult.AffineOf, Implements, Mult, Mod, Times, ModMul, PowMod, MulMod.Reducible,
         ModInverse.Fermat, ScalarMult.MasksServe;
    assert Reduce(Point(Verify.GX, Verify.GY, 1), MulMod.P) == Point(Verify.GX, Verify.GY, 1) by {
      ReducedMod(Point(Verify.GX, Verify.GY, 1), MulMod.P);
    }
    var r11, r12;
    r11, r12 := ScalarMult.ScalarMultInternal(k, rnd, Verify.GX, Verify.GY, masks, c, g);
    x, y := r11, r12;
    var r28, r29 := MulMod.SetupP256NandMuLow();
    var r1 := ModInverse.ModInv(k, r28, r29);
    FermatInverse(k, r29);
    var r19 := MulMod.MulMod(d, r1, r28, r29);
    ModSmall(r11, r29);
    sigR := AddM(r11, 0, r29);                          // addm r24, r11, r31
    r19 := MulMod.MulMod(sigR, r19, r28, r29);
    var r0 := r19;
    r19 := MulMod.MulMod(msg, r1, r28, r29);
    ModSmall((r19 as int) + (r0 as int), r29);
    sigS := AddM(r19, r0, r29);                         // addm r0, r19, r0
    SignatureEquation(k, r1, d, sigR, msg, sigS, r29);
  }

  // ----- the round trip

  /** The verifier's scalars combine to (r * d + msg) * w. */
  lemma ScalarsCombine(d: int, r: int, msg: int, w: int, n: nat)
    requires n > 1
    ensures Mod(Times(ModMul(r, w, n), d) + ModMul(msg, w, n), n) == ModMul(w, Times(r, d) + msg, n)
  {
    hide Times;
    TimesIs(ModMul(r, w, n), d);
    ModSelf(Times(r, w), n);
    ModSelf(Times(msg, w), n);
    assert Cong(d, d, n);
    assert Cong(Times(ModMul(r, w, n), d) + ModMul(msg, w, n), Times(w, Times(r, d) + msg), n) by {
      hide Cong;
      CongMul(ModMul(r, w, n), Times(r, w), d, d, n);
      CongAdd(ModMul(r, w, n) * d, Times(r, w) * d, ModMul(msg, w, n), Times(msg, w), n);
      Recombine(r, w, d, msg);
    }
  }

  /** For a signature they recombine to k: (r * w) * d + msg * w = k modulo n. */
  lemma ScalarsRecombine(k: nat, d: int, r: int, msg: int, s: int, w: int, n: nat)
    requires n > 1 && k < n && ModMul(w, s, n) == 1
    requires ModMul(k, s, n) == Mod(Times(r, d) + msg, n)
    ensures ModMul(w, Times(r, d) + msg, n) == k
  {
    var e := Times(r, d) + msg;
    ModSelf(e, n);
    hide Times, Mod;
    ModMulReduced(w, e, n);
    ModMulAssoc(w, k, s, n);
    ModMulCommutes(w, k, n);
    ModMulAssoc(k, w, s, n);
    ModMulOne(k, n);
  }

  lemma Recombine(r: int, w: int, d: int, msg: int)
    ensures Times(r, w) * d + Times(msg, w) == Times(w, Times(r, d) + msg)
  {
    TimesAll();
    hide Times;
    assert (r * w) * d == w * (r * d);
    assert w * (r * d + msg) == w * (r * d) + w * msg;
  }

  /** The point that the verifier computes, as a multiple of G. */
  lemma ClaimedMultiple<G(!new)>(c: Curve<G>, d: nat, r: int, msg: int, w: int, g: G)
    requires Abelian(c.group) && Mult(c.group, MulMod.N, g) == c.group.zero
    ensures Verify.Claimed(c, r, msg, w, Mult(c.group, d, g), g) == Mult(c.group, ModMul(w, Times(r, d) + msg, MulMod.N), g)
  {
    hide Mult, ModMul, Mod, Times, Abelian;
    var u2, u1 := ModMul(r, w, MulMod.N), ModMul(msg, w, MulMod.N);
    MultMult(c.group, u2, d, g);
    MultAdd(c.group, Times(u2, d), u1, g);
    MultMod(c.group, Times(u2, d) + u1, MulMod.N, g);
    ScalarsCombine(d, r, msg, w, MulMod.N);
  }

  /** The point that the verifier computes from a signature is the point that the signer chose. */
  lemma ClaimedIsChosen<G(!new)>(c: Curve<G>, k: nat, d: nat, r: int, msg: int, s: int, w: int, g: G)
    requires Abelian(c.group) && Mult(c.group, MulMod.N, g) == c.group.zero && k < MulMod.N
    requires ModMul(w, s, MulMod.N) == 1 && ModMul(k, s, MulMod.N) == Mod(Times(r, d) + msg, MulMod.N)
    ensures Verify.Claimed(c, r, msg, w, Mult(c.group, d, g), g) == Mult(c.group, k, g)
  {
    hide Mult, ModMul, Mod, Times, Abelian;
    ClaimedMultiple(c, d, r, msg, w, g);
    ScalarsRecombine(k, d, r, msg, s, w, MulMod.N);
  }

  /** The element g has order exactly n. */
  ghost predicate OrderN<G>(g: Group<G>, x: G)
  {
    && Mult(g, MulMod.N, x) == g.zero
    && forall k: nat | 0 < k < MulMod.N :: Mult(g, k, x) != g.zero
  }

  /** A product with a unit vanishes exactly when the other factor does. */
  lemma UnitTimes(w: int, s: int, e: int, n: nat)
    requires n > 1 && ModMul(w, s, n) == 1
    ensures ModMul(w, e, n) == 0 <==> Mod(e, n) == 0
  {
    hide Mod, Times;
    ModSmall(0, n);
    TimesIs(s, 0);
    TimesIs(w, 0);
    if ModMul(w, e, n) == 0 {
      ModMulCommutes(w, s, n);
      ModMulAssoc(s, w, e, n);
      ModMulCommutes(1, e, n);
      ModMulUnit(e, n);
    }
    if Mod(e, n) == 0 {
      ModMulCommutes(w, e, n);
      ModMulReduced(e, w, n);
      TimesIs(0, w);
    }
  }

  /**
   When verification ends: for the key d * G and s in range, the sum is finite exactly when r * d + msg
   is not divisible by n.
   */
  lemma FiniteIff<G(!new)>(c: Curve<G>, d: nat, r: int, msg: int, s: Word, g: G)
    requires Abelian(c.group) && OrderN(c.group, g) && Verify.Prime(MulMod.N) && 0 < s < MulMod.N
    ensures Verify.FiniteSum(c, r, s, msg, Mult(c.group, d, g), g) <==> Mod(Times(r, d) + msg, MulMod.N) != 0
  {
    hide Mult, ModMul, Mod, Times, Abelian, Verify.Prime, Verify.Claimed;
    var q, e := Mult(c.group, d, g), Times(r, d) + msg;
    ScalarMult.MultNone(c.group, g);
    forall w | 0 <= w < MulMod.N && ModMul(w, s, MulMod.N) == 1
      ensures Verify.Claimed(c, r, msg, w, q, g) == c.group.zero <==> Mod(e, MulMod.N) == 0
    {
      ClaimedMultiple(c, d, r, msg, w, g);
      UnitTimes(w, s, e, MulMod.N);
    }
    var w := Verify.InverseExists(s, MulMod.N);
  }

  /** For the key 1 * G, r = n - 1 and the message 1 verification does not end, whatever s in range is. */
  lemma NeutralExample<G(!new)>(c: Curve<G>, s: Word, g: G)
    requires Abelian(c.group) && OrderN(c.group, g) && Verify.Prime(MulMod.N) && 0 < s < MulMod.N
    ensures !Verify.FiniteSum(c, MulMod.N - 1, s, 1, Mult(c.group, 1, g), g)
  {
    TimesIs(MulMod.N - 1, 1);
    ModSmall(MulMod.N, MulMod.N);
    hide Mult, Mod, Times, Abelian, Verify.Prime, Verify.FiniteSum, OrderN;
    FiniteIff(c, 1, MulMod.N - 1, 1, s, g);
  }

  /** x = X * Z^(p-2) is the affine coordinate when Z is not zero. */
  lemma AffineByFermat(x: nat, t: Point, p: nat)
    requires p > 2 && ModInverse.Fermat(p) && Reduced(t, p) && t.z != 0
    requires x == ModMul(t.x, PowMod(t.z, p - 2, p), p)
    ensures ModMul(x, t.z, p) == t.x
  {
    hide ModMul, PowMod, ModInverse.Fermat;
    FermatInverse(t.z, p);
    ModMulAssoc(t.x, PowMod(t.z, p - 2, p), t.z, p);
    ModMulOne(t.x, p);
  }

  /** The affine form of an element other than the neutral one is its x-coordinate. */
  lemma AffineHasX<G(!new)>(c: Curve<G>, e: G, x: int, y: int) returns (t: Point)
    requires ModInverse.Fermat(MulMod.P) && Verify.ZeroAtInfinity(c) && e != c.group.zero
    requires ScalarMult.AffineOf(c, e, x, y)
    ensures ScalarMult.Represents(c, t, e) && t.z != 0 && 0 <= x < MulMod.P && ModMul(x, t.z, MulMod.P) == t.x
  {
    hide ModInverse.Fermat, ModMul, PowMod;
    t :| ScalarMult.Represents(c, t, e)
         && x == ModMul(t.x, PowMod(t.z, MulMod.P - 2, MulMod.P), MulMod.P)
         && y == ModMul(t.y, PowMod(t.z, MulMod.P - 2, MulMod.P), MulMod.P);
    AffineByFermat(x, t, MulMod.P);
  }

  /** A signature that satisfies the signature equation matches exactly when the coordinate is r itself. */
  lemma MatchesIff<G(!new)>(c: Curve<G>, k: nat, d: nat, sigR: nat, msg: int, sigS: Word, g: G, t: Point, x: nat)
    requires Verify.Prime(MulMod.N) && Verify.Prime(MulMod.P) && Verify.Proportional(c) && Abelian(c.group)
    requires Mult(c.group, MulMod.N, g) == c.group.zero && k < MulMod.N && sigR < MulMod.N && 0 < sigS < MulMod.N
    requires ModMul(k, sigS, MulMod.N) == Mod(Times(sigR, d) + msg, MulMod.N)
    requires ScalarMult.Represents(c, t, Mult(c.group, k, g)) && t.z != 0 && x < MulMod.P && ModMul(x, t.z, MulMod.P) == t.x
    ensures Verify.Matches(c, sigR, sigS, msg, Mult(c.group, d, g), g) <==> sigR == x
  {
    hide Verify.Prime, Verify.Claimed, ModMul, Mod, Times, Mult, Abelian, ScalarMult.Represents;
    var q := Mult(c.group, d, g);
    if sigR == x {
      var w := Verify.InverseExists(sigS, MulMod.N);
      ClaimedIsChosen(c, k, d, sigR, msg, sigS, w, g);
      assert Verify.HasX(c, Verify.Claimed(c, sigR, msg, w, q, g), sigR);
    }
    if Verify.Matches(c, sigR, sigS, msg, q, g) {
      var w :| 0 <= w < MulMod.N && ModMul(w, sigS, MulMod.N) == 1
               && Verify.HasX(c, Verify.Claimed(c, sigR, msg, w, q, g), sigR);
      ClaimedIsChosen(c, k, d, sigR, msg, sigS, w, g);
      Verify.XUnique(c, Mult(c.group, k, g), t, x, sigR);
    }
  }

  /** No representative has X = Y = 0, as none on the curve has. */
  ghost predicate NoOrigin<G(!new)>(c: Curve<G>)
  {
    forall t, e :: ScalarMult.Represents(c, t, e) ==> t.x != 0 || t.y != 0
  }

  /** (0, 0), which the firmware computes from destroyed points, is the affine form of no finite point. */
  lemma OriginIsNoPoint<G(!new)>(c: Curve<G>, e: G)
    requires ModInverse.Fermat(MulMod.P) && Verify.ZeroAtInfinity(c) && NoOrigin(c) && e != c.group.zero
    ensures !ScalarMult.AffineOf(c, e, 0, 0)
  {
    hide ModInverse.Fermat, ModMul, PowMod;
    forall t | ScalarMult.Represents(c, t, e) && 0 == ModMul(t.x, PowMod(t.z, MulMod.P - 2, MulMod.P), MulMod.P)
      ensures 0 != ModMul(t.y, PowMod(t.z, MulMod.P - 2, MulMod.P), MulMod.P)
    {
      AffineByFermat(0, t, MulMod.P);
      ScalarMult.ProductVanishes(t.z, 0);
      ModMulCommutes(t.z, 0, MulMod.P);
      if 0 == ModMul(t.y, PowMod(t.z, MulMod.P - 2, MulMod.P), MulMod.P) {
        AffineByFermat(0, t.(x := t.y), MulMod.P);
      }
    }
  }

  /**
   Signing and then verifying, for all masks: the signature made for the key d is accepted under tame
   coordinates that represent d * G, as all reduced ones are, exactly when the masks serve, r and s are not zero, the coordinates
   satisfy the curve equation, as those of a public key do, and the x-coordinate of k * G is below the
   group order. The verifier compares that coordinate with r without reducing it. It always ends.
   */
  method SignThenVerify<G(!new)>(msg: Word, k: Word, d: Word, rnd: Word, masks: seq<Word>, kx: Word, ky: Word,
                                 ghost c: Curve<G>, ghost g: G)
    returns (sigR: nat, sigS: nat, v: Verify.Verdict)
    requires 0 < k < MulMod.N && |masks| == 513
    requires Verify.Prime(MulMod.N) && Verify.Prime(MulMod.P)
    requires ModInverse.Fermat(MulMod.N) && ModInverse.Fermat(MulMod.P)
    requires Implements(c, CURVE_B, MulMod.P) && Verify.ZeroAtInfinity(c) && Verify.Proportional(c)
    requires OrderN(c.group, g) && ScalarMult.Represents(c, Point(Verify.GX, Verify.GY, 1), g)
    requires ScalarMult.Represents(c, Reduce(Point(kx, ky, 1), MulMod.P), Mult(c.group, d, g))
    ensures Verify.Tame(kx, ky) ==> v != Verify.Undecided
    ensures sigR == 0 || sigS == 0 || (!Verify.NoBorrow(kx) && Verify.OnCurve(kx, ky)) ==> v == Verify.Rejected
    ensures !Serve(k, rnd, masks) ==> sigR == 0
    ensures Serve(k, rnd, masks) ==>
              exists x, y :: ScalarMult.AffineOf(c, Mult(c.group, k, g), x, y) && sigR == Mod(x, MulMod.N)
                && (Verify.Tame(kx, ky) ==> (v == Verify.Accepted <==> sigR != 0 && sigS != 0 && Verify.OnCurve(kx, ky) && x < MulMod.N))
  {
    hide ScalarMult.Represents, ScalarMult.AffineOf, Implements, Mult, Mod, Times, ModMul, PowMod, ModInverse.Fermat,
         Verify.Prime, Verify.OnCurve, Verify.NoBorrow, Verify.Claimed, Verify.Matches, Verify.Proportional,
         Verify.ZeroAtInfinity, ScalarMult.MasksServe, Reduce, Serve;
    ghost var x, y;
    sigR, sigS, x, y := P256Sign(msg, k, d, rnd, masks, c, g);
    ScalarMult.ImpliesAbelian(c);
    ModSmall(x, MulMod.N);
    ghost var q := Mult(c.group, d, g);
    forall w | 0 <= w < MulMod.N && ModMul(w, sigS, MulMod.N) == 1
      ensures Verify.Claimed(c, sigR, msg, w, q, g) == Mult(c.group, k, g) != c.group.zero
    {
      ClaimedIsChosen(c, k, d, sigR, msg, sigS, w, g);
    }
    v := Verify.EcdsaVerify(msg, sigR, sigS, kx, ky, c, q, g);
    if Serve(k, rnd, masks) {
      ghost var t := AffineHasX(c, Mult(c.group, k, g), x, y);
      if sigS != 0 {
        MatchesIff(c, k, d, sigR, msg, sigS, g, t, x);
      }
    }
  }
}
