/**
 The two inversion routines of the firmware: `ModInvVar`, a binary extended GCD, and `ModInv`,
 which raises its input to the power m - 2.
 */
module ModInverse {
  import opened Accelerator
  import opened Modular
  import MulMod
  import Projective

  // ----- ModInvVar

  /** Registers r2, r3, r4 and r5 of the binary extended GCD. */
  datatype Euclid = Euclid(R: nat, S: nat, U: nat, V: nat)

  /** R * a = U and S * a = V modulo m, and (U, V) has the common divisors of (a, m). */
  ghost predicate EuclidInv(e: Euclid, a: int, m: nat)
  {
    && 0 < m < W && m % 2 == 1
    && e.R < m && e.S < m && 0 < e.U < W && 0 < e.V < W
    && Cong(Times(e.R, a), e.U, m) && Cong(Times(e.S, a), e.V, m)
    && SameDivisors(e.U, e.V, a, m)
  }

  /** x / 2 modulo an odd m: shift, or add m first through the 257-bit carry. */
  function Halve(x: Word, m: Word): (r: Word)
    requires m % 2 == 1
    ensures 2 * r == if x % 2 == 0 then x else x + m
  {
    hide Rshi1;
    if x % 2 == 0 then
      Rshi1(x, 0)                                     // rshi r2, r2, r31 >> 1
    else
      var s := Add(m, x, false);                      // add  r2, r7, r2
      var carry := Add(0, 0, s.1).0;                  // addc r6, r31, r31
      Rshi1(s.0, carry)                               // rshi r2, r2, r6 >> 1
  }

  /** One pass of the loop; `Done` when the subtraction would leave V at zero. */
  datatype Pass = Again(e: Euclid) | Done(R: nat)

  function Step(e: Euclid, m: Word): (r: Pass)
    requires m % 2 == 1 && e.R < m && e.S < m && e.U < W && e.V < W
  {
    if e.U % 2 == 0 then
      Again(e.(U := Rshi1(e.U, 0), R := Halve(e.R, m)))
    else if e.V % 2 == 0 then
      Again(e.(V := Rshi1(e.V, 0), S := Halve(e.S, m)))
    else if Sub(e.V, e.U, false).1 then               // cmp r5, r4; bnc
      Again(e.(R := SubM(e.R, e.S, m), U := Sub(e.U, e.V, false).0))
    else if e.V == e.U then
      Done(e.R)
    else
      Again(e.(S := SubM(e.S, e.R, m), V := Sub(e.V, e.U, false).0))
  }

  lemma CancelTwo(x: int, y: int, m: int)
    requires m > 0 && m % 2 == 1 && Cong(2 * x, 2 * y, m)
    ensures Cong(x, y, m)
  {
    hide Cong, Times;
    var k := CongWitness(2 * x, 2 * y, m);
    assert k * m == Times(k, m) by { TimesIs(k, m); }
    ParityTimes(k, m);
    TwiceTimes(k / 2, m);
    assert x == y + Times(k / 2, m);
    TimesIs(k / 2, m);
    CongFrom(x, y, k / 2, m);
  }

  /** Halving one side of the relation R * a = U. */
  lemma HalveCong(R: int, U: int, R': int, a: int, m: int)
    requires m > 0 && m % 2 == 1 && Cong(Times(R, a), 2 * U, m) && (2 * R' == R || 2 * R' == R + m)
    ensures Cong(Times(R', a), U, m)
  {
    hide Times;
    TwiceTimes(R', a);
    TimesPlus(R, m, a);
    TimesIs(m, a);
    assert Cong(Times(2 * R', a), Times(R, a), m) by {
      if 2 * R' == R + m {
        CongFrom(Times(2 * R', a), Times(R, a), a, m);
      }
    }
    CancelTwo(Times(R', a), U, m);
  }

  lemma AddModulus(x: int, a: int, m: int)
    requires m > 0
    ensures Cong(Times(x + m, a), Times(x, a), m)
  {
    hide Times;
    TimesPlus(x, m, a);
    TimesIs(m, a);
    hide Cong;
    CongFrom(Times(x + m, a), Times(x, a), a, m);
  }

  /** Subtracting one relation from the other. */
  lemma SubCong(R: int, S: int, U: int, V: int, R': int, a: int, m: int)
    requires m > 0 && Cong(Times(R, a), U, m) && Cong(Times(S, a), V, m) && (R' == R - S || R' == R - S + m)
    ensures Cong(Times(R', a), U - V, m)
  {
    hide Times, Cong;
    CongSub(Times(R, a), U, Times(S, a), V, m);
    TimesPlus(R - S, S, a);
    assert Cong(Times(R - S, a), U - V, m);
    if R' == R - S + m {
      AddModulus(R - S, a, m);
      CongTrans(Times(R', a), Times(R - S, a), U - V, m);
    }
  }

  lemma SwapDivisors(x: int, y: int, a: int, m: int)
    requires SameDivisors(x, y, a, m)
    ensures SameDivisors(y, x, a, m)
  {
  }

  /** Halving an even U keeps the common divisors: they divide the odd m. */
  lemma HalveDivisors(U: int, V: int, a: int, m: int)
    requires m % 2 == 1 && SameDivisors(2 * U, V, a, m)
    ensures SameDivisors(U, V, a, m)
  {
    hide Divides;
    forall d
      ensures Divides(d, U) && Divides(d, V) <==> Divides(d, a) && Divides(d, m)
    {
      if Divides(d, U) && Divides(d, V) {
        DividesDouble(d, U);
      } else if Divides(d, a) && Divides(d, m) {
        assert Divides(d, 2 * U);
        OddDivisor(d, m);
        DividesHalf(d, U);
      }
    }
  }

  lemma SubDivisors(U: int, V: int, a: int, m: int)
    requires SameDivisors(U, V, a, m)
    ensures SameDivisors(U - V, V, a, m)
  {
    hide Divides;
    forall d
      ensures Divides(d, U - V) && Divides(d, V) <==> Divides(d, a) && Divides(d, m)
    {
      if Divides(d, U - V) && Divides(d, V) {
        DividesSum(d, U - V, V);
        assert U - V + V == U;
      } else if Divides(d, a) && Divides(d, m) {
        DividesSum(d, U, V);
      }
    }
  }

  /** One pass shrinks U + V and keeps the relations, or ends with U and V equal. */
  ghost predicate GoodPass(e: Euclid, pass: Pass, a: int, m: Word)
  {
    match pass
    case Again(f) => EuclidInv(f, a, m) && f.U + f.V < e.U + e.V
    case Done(R) => e.U == e.V && R == e.R
  }

  lemma HalvePass(e: Euclid, a: int, m: Word)
    requires EuclidInv(e, a, m) && e.U % 2 == 0
    ensures GoodPass(e, Step(e, m), a, m)
  {
    hide Times, Cong, SameDivisors;
    HalveCong(e.R, e.U / 2, Halve(e.R, m), a, m);
    HalveDivisors(e.U / 2, e.V, a, m);
    hide Halve;
  }

  lemma HalveOtherPass(e: Euclid, a: int, m: Word)
    requires EuclidInv(e, a, m) && e.U % 2 == 1 && e.V % 2 == 0
    ensures GoodPass(e, Step(e, m), a, m)
  {
    hide Times, Cong, SameDivisors;
    HalveCong(e.S, e.V / 2, Halve(e.S, m), a, m);
    SwapDivisors(e.U, e.V, a, m);
    HalveDivisors(e.V / 2, e.U, a, m);
    SwapDivisors(e.V / 2, e.U, a, m);
    hide Halve;
  }

  lemma SubtractPass(e: Euclid, a: int, m: Word)
    requires EuclidInv(e, a, m) && e.U % 2 == 1 && e.V % 2 == 1
    ensures GoodPass(e, Step(e, m), a, m)
  {
    hide Times, Cong, SameDivisors;
    if e.V < e.U {
      SubCong(e.R, e.S, e.U, e.V, SubM(e.R, e.S, m), a, m);
      SubDivisors(e.U, e.V, a, m);
    } else {
      SubCong(e.S, e.R, e.V, e.U, SubM(e.S, e.R, m), a, m);
      SwapDivisors(e.U, e.V, a, m);
      SubDivisors(e.V, e.U, a, m);
      SwapDivisors(e.V - e.U, e.U, a, m);
    }
  }

  /** Every pass of the loop is good. */
  lemma StepKeeps(e: Euclid, a: int, m: Word)
    requires EuclidInv(e, a, m)
    ensures GoodPass(e, Step(e, m), a, m)
  {
    hide Step, GoodPass;
    if e.U % 2 == 0 {
      HalvePass(e, a, m);
    } else if e.V % 2 == 0 {
      HalveOtherPass(e, a, m);
    } else {
      SubtractPass(e, a, m);
    }
  }

  lemma EqualIsGcd(g: int, a: int, m: int)
    requires g > 0 && SameDivisors(g, g, a, m)
    ensures IsGcd(g, a, m)
  {
    TimesAll();
    hide Times;
    assert g == Times(g, 1);
  }

  lemma StartInv(a: int, m: Word)
    requires m > 1 && m % 2 == 1 && 0 < a < W
    ensures EuclidInv(Euclid(0, 1, m, a), a, m)
  {
    assert Times(0, a) == 0 && Times(1, a) == a;
    CongFrom(m, 0, 1, m);
  }

  /**
   `ModInvVar`, for every odd modulus and every non-zero operand, reduced or not: the result
   times a is the greatest common divisor of a and m, modulo m; an inverse exactly when that
   divisor is one.
   */
  method ModInvVar(r0: Word, r7: Word) returns (r1: nat, ghost g: nat)
    requires r7 > 1 && r7 % 2 == 1 && r0 > 0
    ensures r1 < r7 && IsGcd(g, r0, r7) && Cong(Times(r1, r0), g, r7)
  {
    hide Times, Cong, SameDivisors, IsGcd;
    var e := Euclid(0, 1, r7, r0);
    StartInv(r0, r7);
    var pass := Step(e, r7);
    StepKeeps(e, r0, r7);
    while pass.Again?
      invariant EuclidInv(e, r0, r7) && pass == Step(e, r7)
      decreases e.U + e.V
    {
      StepKeeps(e, r0, r7);
      e := pass.e;
      pass := Step(e, r7);
    }
    StepKeeps(e, r0, r7);
    EqualIsGcd(e.U, r0, r7);
    g := e.U;
    r1 := AddM(pass.R, 0, r7);                        // addm r1, r2, r31
  }

  /** The same loop as a proof that Bezout coefficients exist. */
  lemma BezoutWitness(a: Word, m: Word) returns (r1: nat, g: nat)
    requires m > 1 && m % 2 == 1 && a > 0
    ensures r1 < m && IsGcd(g, a, m) && Cong(Times(r1, a), g, m)
  {
    StartInv(a, m);
    r1, g := BezoutFrom(Euclid(0, 1, m, a), a, m);
  }

  lemma BezoutFrom(e: Euclid, a: int, m: Word) returns (r1: nat, g: nat)
    requires EuclidInv(e, a, m)
    ensures r1 < m && IsGcd(g, a, m) && Cong(Times(r1, a), g, m)
    decreases e.U + e.V
  {
    hide Times, Cong, SameDivisors, IsGcd;
    StepKeeps(e, a, m);
    match Step(e, m)
    case Again(f) =>
      r1, g := BezoutFrom(f, a, m);
    case Done(R) =>
      EqualIsGcd(e.U, a, m);
      r1, g := e.R, e.U;
  }

  /** k passes of the loop, as long as it does not end. */
  ghost function Passes(e: Euclid, m: Word, k: nat): (r: Pass)
    requires m % 2 == 1 && e.R < m && e.S < m && e.U < W && e.V < W
    ensures r.Again? ==> r.e.R < m && r.e.S < m && r.e.U < W && r.e.V < W
  {
    if k == 0 then Again(e)
    else
      match Passes(e, m, k - 1)
      case Again(f) => Step(f, m)
      case Done(R) => Done(R)
  }

  /** For a zero operand the loop never ends: V stays zero, hence even, and U stays odd. */
  lemma {:induction false} DivergesOnZero(m: Word, k: nat)
    requires m > 1 && m % 2 == 1
    ensures Passes(Euclid(0, 1, m, 0), m, k).Again?
    ensures Passes(Euclid(0, 1, m, 0), m, k).e.U == m && Passes(Euclid(0, 1, m, 0), m, k).e.V == 0
  {
    hide Step;
    if k > 0 {
      DivergesOnZero(m, k - 1);
      ZeroPass(Passes(Euclid(0, 1, m, 0), m, k - 1).e, m);
    }
  }

  lemma ZeroPass(e: Euclid, m: Word)
    requires m % 2 == 1 && e.R < m && e.S < m && e.U == m && e.V == 0
    ensures Step(e, m).Again? && Step(e, m).e.U == m && Step(e, m).e.V == 0
  {
    hide Halve;
  }

  // ----- ModInv

  lemma Pow2Register()
    ensures Pow2(0) == 1 && Pow2(256) == W
  {
    assert Pow2(1) == 2;
    hide Pow2;
    Pow2Square(1, 2);
    Pow2Square(2, 0x4);
    Pow2Square(4, 0x10);
    Pow2Square(8, 0x100);
    Pow2Square(16, 0x1_0000);
    Pow2Square(32, 0x1_0000_0000);
    Pow2Square(64, 0x1_00000000_00000000);
    Pow2Square(128, B128);
  }

  /** Doubling 256 times shifts a number by one whole register. */
  lemma ShiftedOut(e: nat)
    ensures Times(e, Pow2(0)) == e && Times(e, Pow2(256)) == e * W
  {
    hide Pow2;
    Pow2Register();
    TimesIs(e, 1);
    TimesIs(e, W);
  }

  /** `ModInv`: square-and-multiply over the 256 bits of m - 2, most significant first. */
  method ModInv(r0: Word, r28: Word, r29: Word) returns (r1: Word)
    requires MulMod.Loaded(r29, r28)
    ensures r1 == PowMod(r0, r29 - 2, r29)
  {
    hide Times, Pow2, PowMod, ModMul, MulMod.Reducible;
    var r2 := Sub(r29, 2, false).0;                   // stmod r2; subi r2, r2, #2
    ghost var e: nat := r2;
    ghost var top := 0;
    ShiftedOut(e);
    PowModZero(r0, r29);
    r1 := 1;                                          // mov r1, r30
    for i := 0 to 256
      invariant Times(e, Pow2(i)) == top * W + r2
      invariant top >= 0 && r1 < r29 && r1 == PowMod(r0, top, r29)
    {
      PowModDouble(r0, top, r29);
      Projective.ShiftOne(e, i);
      var r3 := MulMod.MulMod(r1, r1, r28, r29);
      var s := Add(r2, r2, false);                    // add r2, r2, r2
      r2 := s.0;
      if s.1 {                                        // selc r1, r1, r3; bnc nomul
        r1 := MulMod.MulMod(r3, r0, r28, r29);
        top := 2 * top + 1;
      } else {
        r1 := r3;
        top := 2 * top;
      }
    }
  }

  ghost function FermatPower(a: int, m: nat): int
    requires m > 1
  {
    PowMod(a, m - 1, m)
  }

  /** Fermat's little theorem for m, which holds when m is prime. */
  ghost predicate Fermat(m: nat)
    requires m > 1
  {
    forall a | 0 < a < m :: FermatPower(a, m) == 1
  }

  /** Inverses modulo m are unique among the residues. */
  lemma InverseUnique(a: int, x: nat, y: nat, m: nat)
    requires m > 1 && x < m && y < m && ModMul(x, a, m) == 1 == ModMul(y, a, m)
    ensures x == y
  {
    hide ModMul;
    ModMulOne(x, m);
    ModMulCommutes(y, a, m);
    ModMulAssoc(x, a, y, m);
    ModMulOne(y, m);
  }

  /** For a prime modulus the power m - 2 and the binary GCD give the same inverse. */
  lemma InversesAgree(a: nat, r1: nat, m: nat)
    requires m > 2 && Fermat(m) && 0 < a < m
    requires r1 < m && ModMul(r1, a, m) == 1
    ensures r1 == PowMod(a, m - 2, m)
  {
    hide ModMul;
    assert FermatPower(a, m) == ModMul(PowMod(a, m - 2, m), a, m);
    InverseUnique(a, r1, PowMod(a, m - 2, m), m);
  }
}
