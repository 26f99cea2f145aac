/**
 The firmware's modular multiplication: a 256 x 256 -> 512 bit product followed by a Barrett
 reduction with one and a half correction steps.
 */
module MulMod {
  import opened Accelerator
  import opened Modular

  /** The P-256 field prime, 2^256 - 2^224 + 2^192 + 2^96 - 1. */
  const P: nat := 0xffffffff_00000001_00000000_00000000_00000000_ffffffff_ffffffff_ffffffff
  /** The order of the P-256 group. */
  const N: nat := 0xffffffff_00000000_ffffffff_ffffffff_bce6faad_a7179e84_f3b9cac2_fc632551
  /** The low words of floor(2^512 / p) and floor(2^512 / n). */
  const MU_P: nat := 0x00000000_ffffffff_fffffffe_fffffffe_fffffffe_ffffffff_00000000_00000003
  const MU_N: nat := 0x00000000_ffffffff_fffffffe_ffffffff_43190552_df1a6c21_012ffd85_eedf9bfe

  /** The two states of r29 (the modulus) and r28 (the low Barrett word) that the setup routines establish. */
  predicate Loaded(m: nat, muLow: nat)
  {
    (m == P && muLow == MU_P) || (m == N && muLow == MU_N)
  }

  // ----- the setup routines: half-word moves over a register of all ones

  method LoadP() returns (r29: Word)
    ensures r29 == P
  {
    var h: Halves := AllOnes();
    h := h[13 := 0x0000];
    h := h[12 := 0x0001];
    h := h[11 := 0x0000];
    h := h[10 := 0x0000];
    h := h[9 := 0x0000];
    h := h[8 := 0x0000];
    h := h[7 := 0x0000];
    h := h[6 := 0x0000];
    assert h == [0xffff, 0xffff, 0xffff, 0xffff, 0xffff, 0xffff, 0x0000, 0x0000,
                 0x0000, 0x0000, 0x0000, 0x0000, 0x0001, 0x0000, 0xffff, 0xffff];
    r29 := Value(h);
  }

  method LoadMuP() returns (r28: Word)
    ensures r28 == MU_P
  {
    var h: Halves := AllOnes();
    h := h[15 := 0x0000];
    h := h[14 := 0x0000];
    h := h[10 := 0xfffe];
    h := h[8 := 0xfffe];
    h := h[6 := 0xfffe];
    h := h[3 := 0x0000];
    h := h[2 := 0x0000];
    h := h[1 := 0x0000];
    h := h[0 := 0x0003];
    assert h == [0x0003, 0x0000, 0x0000, 0x0000, 0xffff, 0xffff, 0xfffe, 0xffff,
                 0xfffe, 0xffff, 0xfffe, 0xffff, 0xffff, 0xffff, 0x0000, 0x0000];
    r28 := Value(h);
  }

  method LoadN() returns (r29: Word)
    ensures r29 == N
  {
    var h: Halves := AllOnes();
    h := h[13 := 0x0000];
    h := h[12 := 0x0000];
    h := h[7 := 0xbce6];
    h := h[6 := 0xfaad];
    h := h[5 := 0xa717];
    h := h[4 := 0x9e84];
    h := h[3 := 0xf3b9];
    h := h[2 := 0xcac2];
    h := h[1 := 0xfc63];
    h := h[0 := 0x2551];
    assert h == [0x2551, 0xfc63, 0xcac2, 0xf3b9, 0x9e84, 0xa717, 0xfaad, 0xbce6,
                 0xffff, 0xffff, 0xffff, 0xffff, 0x0000, 0x0000, 0xffff, 0xffff];
    r29 := Value(h);
  }

  method LoadMuN() returns (r28: Word)
    ensures r28 == MU_N
  {
    var h: Halves := AllOnes();
    h := h[15 := 0x0000];
    h := h[14 := 0x0000];
    h := h[10 := 0xfffe];
    h := h[7 := 0x4319];
    h := h[6 := 0x0552];
    h := h[5 := 0xdf1a];
    h := h[4 := 0x6c21];
    h := h[3 := 0x012f];
    h := h[2 := 0xfd85];
    h := h[1 := 0xeedf];
    h := h[0 := 0x9bfe];
    assert h == [0x9bfe, 0xeedf, 0xfd85, 0x012f, 0x6c21, 0xdf1a, 0x0552, 0x4319,
                 0xffff, 0xffff, 0xfffe, 0xffff, 0xffff, 0xffff, 0x0000, 0x0000];
    r28 := Value(h);
  }

  /** `SetupP256PandMuLow` loads p and its Barrett constant. */
  method SetupP256PandMuLow() returns (r28: Word, r29: Word)
    ensures r29 == P && Loaded(r29, r28)
  {
    r29 := LoadP();
    r28 := LoadMuP();
  }

  /** `SetupP256NandMuLow` loads the group order and its Barrett constant. */
  method SetupP256NandMuLow() returns (r28: Word, r29: Word)
    ensures r29 == N && Loaded(r29, r28)
  {
    r29 := LoadN();
    r28 := LoadMuN();
  }

  // ----- the double-width product

  /** The eight-instruction product block: four half-register products and two carried additions. */
  method MulWide(x: Word, y: Word) returns (lo: Word, hi: Word)
    ensures hi * W + lo == Times(x, y) <= (W - 1) * (W - 1)
  {
    hide Times;
    Schoolbook(Hi(x), Lo(x), Hi(y), Lo(y), B128);
    TimesBound(x, y, W);
    lo := Mul128(Lo(x), Lo(y));                       // mul128 lo, xl, yl
    hi := Mul128(Hi(x), Hi(y));                       // mul128 hi, xu, yu
    var mid := Mul128(Hi(x), Lo(y));                  // mul128 mid, xu, yl
    var s := Add(lo, Lo(mid) * B128, false);          // add  lo, lo, mid << 128
    var t := Add(hi, Hi(mid), s.1);                   // addc hi, hi, mid >> 128
    lo, hi := s.0, t.0;
    mid := Mul128(Lo(x), Hi(y));                      // mul128 mid, xl, yu
    s := Add(lo, Lo(mid) * B128, false);
    t := Add(hi, Hi(mid), s.1);
    lo, hi := s.0, t.0;
  }

  // ----- the Barrett estimate, as mathematics

  /**
   2h + muLow is floor(4h^2 / m), and the remainder of that division is at most h. The last
   condition is what makes one and a half correction steps enough.
   */
  ghost predicate BarrettConstant(m: int, muLow: int, h: int)
  {
    && (2 * h + muLow) * m <= 4 * h * h < (2 * h + muLow + 1) * m
    && 4 * h * h - (2 * h + muLow) * m <= h
  }

  lemma LoadedIsBarrett(m: nat, muLow: nat)
    requires Loaded(m, muLow)
    ensures BarrettConstant(m, muLow, HALF)
  {
  }

  /** The quotient estimate: floor(floor(x / 2^255) * mu / 2^257). */
  ghost function Estimate(x: nat, muLow: nat): (q3: nat)
    ensures q3 * (2 * W) <= Times(x / HALF, W + muLow) < (q3 + 1) * (2 * W)
  {
    TimesMonotone(0, x / HALF, 0, W + muLow);
    Times(x / HALF, W + muLow) / (2 * W)
  }

  /**
   The error analysis, for any half-word h: the estimate q3 of x / m is never too large and
   leaves a remainder below m + 2h.
   */
  lemma BarrettError(x: int, m: int, muLow: int, h: int, q1: int, x0: int, q3: int, d: int)
    requires h > 0 && m > 0 && BarrettConstant(m, muLow, h)
    requires x == q1 * h + x0 && 0 <= x0 < h && 0 <= q1 < 4 * h
    requires Times(q1, 2 * h + muLow) == q3 * (4 * h) + d && 0 <= d < 4 * h
    ensures 0 <= x - Times(q3, m) < m + 2 * h
  {
    TimesAll();
    hide Times;
    var mu := 2 * h + muLow;
    var e, r := 4 * h * h - mu * m, x - q3 * m;
    ScaledError(x, m, mu, h, q1, x0, q3, d);
    ScaledTerms(x0, q1, e, d, m, h);
    FromScaled(r, m + 2 * h, 4 * h);
  }

  lemma ScaledError(x: int, m: int, mu: int, h: int, q1: int, x0: int, q3: int, d: int)
    requires x == q1 * h + x0 && q1 * mu == q3 * (4 * h) + d
    ensures (x - q3 * m) * (4 * h) == x0 * (4 * h) + q1 * (4 * h * h - mu * m) + d * m
  {
    assert (q1 * h) * (4 * h) == q1 * (4 * h * h);
    calc {
      (q3 * m) * (4 * h);
      (q3 * (4 * h)) * m;
      (q1 * mu - d) * m;
      (q1 * mu) * m - d * m;
      q1 * (mu * m) - d * m;
    }
    assert q1 * (4 * h * h - mu * m) == q1 * (4 * h * h) - q1 * (mu * m);
  }

  lemma Ordered(x: int, y: int, u: int, v: int)
    requires 0 <= x <= y && 0 <= u <= v
    ensures 0 <= x * u <= y * v
  {
    MulMono(0, x, u);
    MulMono(x, y, u);
    MulMono(u, v, y);
  }

  lemma ScaledTerms(x0: int, q1: int, e: int, d: int, m: int, h: int)
    requires h > 0 && m > 0 && 0 <= e <= h && 0 <= x0 < h && 0 <= q1 < 4 * h && 0 <= d < 4 * h
    ensures 0 <= x0 * (4 * h) + q1 * e + d * m < (m + 2 * h) * (4 * h)
  {
    ScaledBound(x0, q1, e, d, m, h, 4 * h);
  }

  lemma ScaledBound(x0: int, q1: int, e: int, d: int, m: int, h: int, k: int)
    requires h > 0 && m > 0 && k > 0 && 0 <= e <= h && 0 <= x0 < h && 0 <= q1 < k && 0 <= d < k
    ensures 0 <= x0 * k + q1 * e + d * m < (m + 2 * h) * k
  {
    Ordered(x0, h - 1, k, k);
    Ordered(q1, k, e, h);
    Ordered(d, k, m, m);
    Distribute(m, h, k);
  }

  lemma Distribute(m: int, h: int, k: int)
    ensures (h - 1) * k == h * k - k && (m + 2 * h) * k == k * m + h * k + k * h
  {
  }

  /** The estimate is never too large, and the remainder it leaves is below m + 2^256. */
  lemma BarrettBound(x: nat, m: nat, muLow: nat)
    requires Loaded(m, muLow) && x < W * W
    ensures 0 <= x - Times(Estimate(x, muLow), m) < m + W
    ensures Estimate(x, muLow) < 2 * W
  {
    hide Estimate, Times, BarrettConstant;
    LoadedIsBarrett(m, muLow);
    var q1, q3 := x / HALF, Estimate(x, muLow);
    BarrettError(x, m, muLow, HALF, q1, x % HALF, q3, Times(q1, W + muLow) - q3 * (2 * W));
    if q3 >= 2 * W {
      TimesMonotone(2 * W, q3, HALF, m);
      TimesIs(2 * W, HALF);
      assert false;
    }
  }

  /**
   The inputs for which one and a half correction steps are enough: the estimate fits in a
   register, or the wrapped estimate happens to be repaired by the `sell` subtraction.
   */
  ghost predicate Reducible(x: nat, m: nat, muLow: nat)
  {
    var q3 := Estimate(x, muLow);
    q3 < W || m <= x - Times(q3, m) < W
  }

  /** A product with one reduced factor is reducible: all calls in the firmware are of this kind. */
  lemma ReducedFactor(x: Word, y: Word, m: nat, muLow: nat)
    requires Loaded(m, muLow) && (x < m || y < m)
    ensures 0 <= Times(x, y) && Reducible(Times(x, y), m, muLow)
  {
    hide Estimate, Times;
    TimesBound(x, y, W);
    BarrettBound(Times(x, y), m, muLow);
    var q3 := Estimate(Times(x, y), muLow);
    ReducedProduct(x, y, m, W);
    if q3 >= W {
      TimesMonotone(W, q3, m, m);
      assert false;
    }
  }

  lemma ReducedProduct(x: int, y: int, m: int, w: int)
    requires 0 <= x < w && 0 <= y < w && (x < m || y < m)
    ensures Times(x, y) < Times(w, m)
  {
    TimesAll();
    hide Times;
    if x < m {
      TimesMonotone(x, m - 1, y, w);
      assert (m - 1) * w == w * m - w;
    } else {
      TimesMonotone(x, w, y, m - 1);
      assert w * (m - 1) == w * m - w;
    }
  }

  // ----- the correction steps

  /** `sell r21; sub r21; addm r19`: from the two-word remainder to the returned register. */
  function Correct(r20: Word, r22: Word, m: Word): (r19: nat)
    ensures HALF < m ==> r19 < m
  {
    var s: Word := if r20 % 2 == 1 then m else 0;
    AddM(Sub(r22, s, false).0, 0, m)
  }

  /** The remainder is corrected exactly when it was computed from an estimate that fits. */
  lemma CorrectFits(r: nat, m: Word)
    requires HALF < m && r < m + W
    ensures Correct(r / W, r % W, m) == Mod(r, m)
  {
    hide Mod;
    ModSmall(r, m);
  }

  /** When the estimate wrapped around, the high word is off by m and the selection bit is inverted. */
  lemma CorrectWrapped(r: nat, m: Word)
    requires HALF < m && m % 2 == 1 && r < m + W && r / W + m < W
    ensures Correct(r / W + m, r % W, m) == Mod(r, m) <==> m <= r < W
  {
    hide Mod;
    ModSmall(r, m);
  }

  // ----- the routine

  /** floor(x / 2^255) has one bit more than a register: r21 and the top bit of the product. */
  lemma QuotientDigits(x: nat, lo: Word, hi: Word)
    requires x == hi * W + lo
    ensures Rshi255(hi, 0) == if hi >= HALF then 1 else 0
    ensures x / HALF == Rshi255(hi, 0) * W + Rshi255(lo, hi)
  {
    assert x / HALF == 2 * hi + lo / HALF;
  }

  /** The product of that 257-bit number with 2^256 + muLow, from the product of the low parts. */
  lemma HighWord(top: nat, r21: nat, muLow: nat, lo: nat, hi: nat)
    requires top <= 1 && Times(r21, muLow) == hi * W + lo
    ensures Times(top * W + r21, W + muLow) == (top * W + hi + r21 + (if top == 1 then muLow else 0)) * W + lo
  {
    Schoolbook(top, r21, 1, muLow, W);
    hide Times;
    TimesBit(top, muLow, r21);
  }

  /** The second block of `MulMod`: the quotient estimate, truncated to a register. */
  method QuotientEstimate(ghost x: nat, r19: Word, r20: Word, r28: Word) returns (r21: Word)
    requires x == r20 * W + r19
    ensures r21 == Estimate(x, r28) % W
  {
    hide Times, Estimate;
    QuotientDigits(x, r19, r20);
    var r22 := if r20 >= HALF then r28 else 0;         // selm r22, r28, r31
    r21 := Rshi255(r19, r20);                          // rshi r21, r19, r20 >> 255
    var r23, r24 := MulWide(r21, r28);
    var r25 := Rshi255(r20, 0);                        // rshi r25, r20, r31 >> 255
    HighWord(r25, r21, r28, r23, r24);
    hide Rshi255;
    var s := Add(r24, r21, false);                     // add  r24, r24, r21
    var t := Add(r25, 0, s.1);                         // addc r25, r25, r31
    s := Add(s.0, r22, false);                         // add  r24, r24, r22
    t := Add(t.0, 0, s.1);                             // addc r25, r25, r31
    assert t.0 * W + s.0 == r25 * W + r24 + r21 + r22;
    EstimateFromHigh(x, r28, t.0 * W + s.0, r23);
    r21 := Rshi1(s.0, t.0);                            // rshi r21, r24, r25 >> 1
  }

  /** Halving the high words of the scaled quotient gives the estimate. */
  lemma EstimateFromHigh(x: nat, muLow: nat, high: nat, low: nat)
    requires low < W && Times(x / HALF, W + muLow) == high * W + low
    ensures Estimate(x, muLow) == high / 2
  {
    hide Times;
  }

  lemma TimesBit(bit: int, y: int, z: int)
    requires 0 <= bit <= 1
    ensures Times(bit, y) == (if bit == 1 then y else 0) && Times(bit, 1) == bit && Times(z, 1) == z
  {
    TimesAll();
    hide Times;
  }

  /** The third block of `MulMod`: x - m * r21 as a two-word number. */
  method WideRemainder(ghost x: nat, r19: Word, r20: Word, r21: Word, r29: Word) returns (hi: Word, lo: Word)
    requires x == r20 * W + r19 && Times(r29, r21) <= x
    ensures x - Times(r29, r21) == hi * W + lo
  {
    hide Times;
    var r22, r23 := MulWide(r29, r21);
    var d := Sub(r19, r22, false);                     // sub  r22, r19, r22
    var e := Sub(r20, r23, d.1);                       // subb r20, r20, r23
    lo, hi := d.0, e.0;
  }

  /** The quotient register when the estimate does not fit. */
  lemma WrappedQuotient(q3: int, m: int, w: int)
    requires w <= q3 && 0 <= m
    ensures Times(m, q3 - w) == Times(q3, m) - m * w && Times(m, q3) == Times(q3, m) && 0 <= Times(m, q3 - w)
  {
    TimesAll();
    hide Times;
  }

  /** The register estimate, wrapped or not, does not exceed the quotient. */
  lemma RemainderFits(x: nat, m: Word, muLow: Word)
    requires Loaded(m, muLow) && x < W * W
    ensures 0 <= Times(m, Estimate(x, muLow) % W) <= x
    ensures var q3, r := Estimate(x, muLow), x - Times(Estimate(x, muLow), m);
            && 0 <= r < m + W && q3 < 2 * W
            && x - Times(m, q3 % W) == if q3 < W then r else r + m * W
  {
    hide Estimate, Times;
    var q3 := Estimate(x, muLow);
    BarrettBound(x, m, muLow);
    TimesCommutes(m, q3);
    TimesMonotone(0, m, 0, q3 % W);
    if q3 >= W {
      WrappedQuotient(q3, m, W);
      assert q3 % W == q3 - W;
    }
  }

  /** The corrected remainder is the residue if and only if the product is reducible. */
  lemma Corrected(x: nat, m: Word, muLow: Word, hi: Word, lo: Word)
    requires Loaded(m, muLow) && x < W * W && x - Times(m, Estimate(x, muLow) % W) == hi * W + lo
    ensures Correct(hi, lo, m) < m && (Correct(hi, lo, m) == Mod(x, m) <==> Reducible(x, m, muLow))
  {
    hide Estimate, Times, Correct, Mod;
    var q3 := Estimate(x, muLow);
    var r := x - Times(q3, m);
    RemainderFits(x, m, muLow);
    ModTimes(r, q3, m);
    if q3 < W {
      assert hi == r / W && lo == r % W;
      CorrectFits(r, m);
    } else {
      assert hi == r / W + m && lo == r % W;
      CorrectWrapped(r, m);
    }
  }

  /**
   `MulMod`: for every pair of 256-bit operands the result is the product modulo m exactly when
   the Barrett estimate is reducible; in particular whenever one operand is already reduced.
   */
  method MulMod(r24: Word, r25: Word, r28: Word, r29: Word) returns (r19: Word)
    requires Loaded(r29, r28)
    ensures r19 < r29
    ensures 0 <= Times(r24, r25)
    ensures r19 == ModMul(r24, r25, r29) <==> Reducible(Times(r24, r25), r29, r28)
    ensures r24 < r29 || r25 < r29 ==> r19 == ModMul(r24, r25, r29)
  {
    hide Estimate, Times, Correct, Mod;
    TimesBound(r24, r25, W);
    ghost var x: nat := Times(r24, r25);
    var r20;
    r19, r20 := MulWide(r24, r25);
    var r21 := QuotientEstimate(x, r19, r20, r28);
    var r22;
    RemainderFits(x, r29, r28);
    r20, r22 := WideRemainder(x, r19, r20, r21, r29);
    Corrected(x, r29, r28, r20, r22);
    if r24 < r29 || r25 < r29 {
      ReducedFactor(r24, r25, r29, r28);
    }
    r19 := Correct(r20, r22, r29);
  }

  /** Two unreduced operands can defeat the correction: (2^256 - 1)^2 modulo p comes out wrong. */
  lemma UnreducedSquareFails()
    ensures Times(W - 1, W - 1) >= 0 && !Reducible(Times(W - 1, W - 1), P, MU_P)
  {
    TimesAll();
    hide Times;
  }
}
