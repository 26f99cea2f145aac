/**
 256-bit integers as eight 32-bit digits, least significant first, and as 32 bytes, most
 significant first.
 */
module P256Int {
  import opened Modular
  import MulMod

  const NDIGITS: nat := 8
  const NBYTES: nat := 32
  const RADIX: nat := 0x1_0000_0000

  type Digit = x: int | 0 <= x < 0x1_0000_0000
  type Byte = x: int | 0 <= x < 256

  /** The digits of the group order minus two. */
  function NMinusTwo(): seq<Digit>
  {
    [0xfc63254f, 0xf3b9cac2, 0xa7179e84, 0xbce6faad, 0xffffffff, 0xffffffff, 0, 0xffffffff]
  }

  ghost function Weight(k: nat): (w: nat)
    ensures w > 0
  {
    if k == 0 then 1 else RADIX * Weight(k - 1)
  }

  /** The number in the first n digits. */
  ghost function Low(a: seq<Digit>, n: nat): (v: nat)
    requires n <= |a|
  {
    if n == 0 then 0 else TimesIs(a[n - 1], Weight(n - 1)); Low(a, n - 1) + Times(a[n - 1], Weight(n - 1))
  }

  ghost function Value(a: seq<Digit>): nat { Low(a, |a|) }

  lemma {:induction false} LowBound(a: seq<Digit>, n: nat)
    requires n <= |a|
    ensures Low(a, n) < Weight(n)
  {
    TimesAll();
    hide Times;
    if n > 0 {
      LowBound(a, n - 1);
      TimesMonotone(a[n - 1], RADIX - 1, Weight(n - 1), Weight(n - 1));
      assert Times(RADIX - 1, Weight(n - 1)) == RADIX * Weight(n - 1) - Weight(n - 1);
    }
  }

  /** The first n digits decide the number. */
  lemma {:induction false} LowSame(a: seq<Digit>, b: seq<Digit>, n: nat)
    requires n <= |a| && n <= |b| && a[..n] == b[..n]
    ensures Low(a, n) == Low(b, n)
  {
    if n > 0 {
      assert a[..n][..n - 1] == b[..n][..n - 1];
      assert a[..n][n - 1] == b[..n][n - 1];
      assert a[..n - 1] == b[..n - 1];
      LowSame(a, b, n - 1);
    }
  }

  lemma EightDigits()
    ensures Weight(8) == 0x1_00000000_00000000_00000000_00000000_00000000_00000000_00000000_00000000
    ensures Value(NMinusTwo()) == MulMod.N - 2
  {
    TimesAll();
    hide Times;
    assert Weight(0) == 1;
    assert Weight(1) == RADIX;
    assert Weight(2) == RADIX * RADIX;
    assert Weight(3) == RADIX * (RADIX * RADIX);
    assert Weight(4) == RADIX * Weight(3);
    assert Weight(5) == RADIX * Weight(4);
    assert Weight(6) == RADIX * Weight(5);
    assert Weight(7) == RADIX * Weight(6);
    assert Weight(8) == RADIX * Weight(7);
    var a := NMinusTwo();
    assert Low(a, 0) == 0;
    assert Low(a, 1) == Low(a, 0) + Times(a[0], Weight(0));
    assert Low(a, 2) == Low(a, 1) + Times(a[1], Weight(1));
    assert Low(a, 3) == Low(a, 2) + Times(a[2], Weight(2));
    assert Low(a, 4) == Low(a, 3) + Times(a[3], Weight(3));
    assert Low(a, 5) == Low(a, 4) + Times(a[4], Weight(4));
    assert Low(a, 6) == Low(a, 5) + Times(a[5], Weight(5));
    assert Low(a, 7) == Low(a, 6) + Times(a[6], Weight(6));
    assert Low(a, 8) == Low(a, 7) + Times(a[7], Weight(7));
  }

  // ----- comparison and addition

  /** One digit of a subtraction: x - y with the borrow, split into borrow and digit. */
  lemma BorrowStep(x: int, y: int, borrow: int, w: int, low: int)
    requires w > 0 && 0 <= low < w
    ensures var t := borrow + x - y;
            var digit, borrow' := t % RADIX, t / RADIX;
            && Times(borrow, w) + low + Times(x, w) - Times(y, w) == Times(borrow', RADIX * w) + (Times(digit, w) + low)
            && 0 <= Times(digit, w) + low < RADIX * w
            && (Times(digit, w) + low == 0 <==> digit == 0 && low == 0)
  {
    TimesAll();
    hide Times;
    var t := borrow + x - y;
    var digit, borrow' := t % RADIX, t / RADIX;
    assert t == borrow' * RADIX + digit;
    assert Times(t, w) == Times(borrow, w) + Times(x, w) - Times(y, w);
    assert Times(borrow' * RADIX + digit, w) == Times(borrow', RADIX * w) + Times(digit, w);
    TimesMonotone(digit, RADIX - 1, w, w);
    assert Times(RADIX - 1, w) == RADIX * w - w;
    assert digit >= 1 ==> Times(digit, w) >= w by { if digit >= 1 { TimesMonotone(1, digit, w, w); } }
  }

  /** `fips_p256_cmp`: the sign of the difference. */
  method Cmp(a: seq<Digit>, b: seq<Digit>) returns (r: int)
    requires |a| == NDIGITS && |b| == NDIGITS
    ensures r == if Value(a) < Value(b) then -1 else if Value(a) == Value(b) then 0 else 1
  {
    hide Times, Weight;
    WeightZero();
    var notzero, borrow := false, 0;
    ghost var low := 0;
    for i := 0 to NDIGITS
      invariant -1 <= borrow <= 0 && 0 <= low < Weight(i)
      invariant Low(a, i) - Low(b, i) == Times(borrow, Weight(i)) + low
      invariant notzero <==> low != 0
    {
      BorrowStep(a[i], b[i], borrow, Weight(i), low);
      WeightNext(i);
      var t := borrow + a[i] - b[i];
      low := Times(t % RADIX, Weight(i)) + low;
      notzero := notzero || t % RADIX != 0;
      borrow := t / RADIX;
    }
    BorrowSign(borrow, Weight(NDIGITS));
    r := if borrow == -1 then -1 else if notzero then 1 else 0;      // (int)borrow | notzero
  }

  lemma WeightZero()
    ensures Weight(0) == 1 && Times(0, Weight(0)) == 0
  {
  }

  lemma WeightNext(i: nat)
    ensures Weight(i + 1) == RADIX * Weight(i)
  {
  }

  lemma BorrowSign(borrow: int, w: nat)
    requires -1 <= borrow <= 0
    ensures Times(borrow, w) == if borrow == -1 then -(w as int) else 0
  {
  }

  lemma TimesShift(q: int, w: int)
    ensures Times(q * RADIX, w) == Times(q, RADIX * w)
  {
    TimesIs(q * RADIX, w);
    TimesIs(q, RADIX * w);
  }

  lemma CarryParts(t: int, q: int, r: int, w: int)
    requires t == q * RADIX + r
    ensures Times(t, w) == Times(q, RADIX * w) + Times(r, w)
  {
    hide Times;
    TimesPlus(q * RADIX, r, w);
    TimesShift(q, w);
  }

  lemma CarryStep(x: int, carry: int, w: int)
    requires w > 0
    ensures var t := carry + x;
            Times(carry, w) + Times(x, w) == Times(t / RADIX, RADIX * w) + Times(t % RADIX, w)
  {
    hide Times;
    var t := carry + x;
    var q, r := t / RADIX, t % RADIX;
    TimesPlus(carry, x, w);
    CarryParts(t, q, r, w);
  }

  /** `fips_p256_add_d`: exact addition of a digit, with the carry out; b may be a itself. */
  method AddD(a: array<Digit>, d: Digit, b: array<Digit>) returns (carry: int)
    requires a.Length == NDIGITS && b.Length == NDIGITS
    modifies b
    ensures 0 <= carry <= 1
    ensures Value(b[..]) + Times(carry, Weight(NDIGITS)) == old(Value(a[..])) + d
  {
    hide Times, Weight;
    carry := d;
    CarryStart(d);
    ghost var before := a[..];
    for i := 0 to NDIGITS
      invariant 0 <= carry < RADIX && (i > 0 ==> carry <= 1)
      invariant forall j | i <= j < NDIGITS :: a[j] == before[j]
      invariant Low(b[..], i) + Times(carry, Weight(i)) == Low(before, i) + d
    {
      CarryStep(a[i], carry, Weight(i));
      WeightNext(i);
      ghost var was := b[..];
      carry := carry + a[i];
      b[i] := carry % RADIX;
      assert b[..][..i] == was[..i];
      LowSame(b[..], was, i);
      carry := carry / RADIX;
    }
  }

  lemma CarryStart(d: int)
    ensures Times(d, Weight(0)) == d
  {
    TimesAll();
    hide Times;
  }

  // ----- bytes

  /** The number in the first n bytes, most significant first. */
  ghost function BigEndian(s: seq<Byte>, n: nat): (v: nat)
    requires n <= |s|
  {
    if n == 0 then 0 else 256 * BigEndian(s, n - 1) + s[n - 1]
  }

  ghost function Bytes(s: seq<Byte>): nat { BigEndian(s, |s|) }

  /** The digit in the four bytes from `at` on. */
  function DigitAt(s: seq<Byte>, at: nat): (d: Digit)
    requires at + 4 <= |s|
  {
    (s[at] as int) * 0x1000000 + (s[at + 1] as int) * 0x10000 + (s[at + 2] as int) * 0x100 + (s[at + 3] as int)
  }

  lemma FourBytes(s: seq<Byte>, at: nat)
    requires at + 4 <= |s|
    ensures BigEndian(s, at + 4) == RADIX * BigEndian(s, at) + DigitAt(s, at)
  {
    assert BigEndian(s, at + 4) == 256 * BigEndian(s, at + 3) + s[at + 3];
    assert BigEndian(s, at + 3) == 256 * BigEndian(s, at + 2) + s[at + 2];
    assert BigEndian(s, at + 2) == 256 * BigEndian(s, at + 1) + s[at + 1];
    assert BigEndian(s, at + 1) == 256 * BigEndian(s, at) + s[at];
  }

  /** Digits from position k on, as a number: the part that the first 4 * (8 - k) bytes carry. */
  ghost function High(a: seq<Digit>, k: nat): (v: nat)
    requires k <= |a|
    decreases |a| - k
  {
    if k == |a| then 0 else RADIX * High(a, k + 1) + a[k]
  }

  lemma {:induction false} HighLow(a: seq<Digit>, k: nat)
    requires k <= |a|
    ensures Value(a) == Times(High(a, k), Weight(k)) + Low(a, k)
    decreases |a| - k
  {
    TimesAll();
    hide Times;
    if k < |a| {
      HighLow(a, k + 1);
      var h, w := High(a, k + 1), Weight(k);
      assert Times(h, RADIX * w) + Times(a[k], w) == Times(RADIX * h + a[k], w);
    }
  }

  /** Digit 8 - 1 - j comes from the bytes 4 * j on. */
  ghost predicate SameNumber(s: seq<Byte>, a: seq<Digit>)
  {
    |s| == NBYTES && |a| == NDIGITS && forall i | 0 <= i < NDIGITS :: a[i] == DigitAt(s, 28 - 4 * i)
  }

  lemma {:induction false} SameHigh(s: seq<Byte>, a: seq<Digit>, k: nat)
    requires SameNumber(s, a) && k <= NDIGITS
    ensures High(a, k) == BigEndian(s, 32 - 4 * k)
    decreases NDIGITS - k
  {
    if k < NDIGITS {
      SameHigh(s, a, k + 1);
      FourBytes(s, 28 - 4 * k);
    }
  }

  lemma SameValue(s: seq<Byte>, a: seq<Digit>)
    requires SameNumber(s, a)
    ensures Value(a) == Bytes(s)
  {
    SameHigh(s, a, 0);
    HighLow(a, 0);
    CarryStart(High(a, 0));
  }

  /** `fips_p256_from_bin`. */
  method FromBin(src: seq<Byte>, dst: array<Digit>)
    requires |src| == NBYTES && dst.Length == NDIGITS
    modifies dst
    ensures SameNumber(src, dst[..]) && Value(dst[..]) == Bytes(src)
  {
    var i, p := NDIGITS, 0;
    while i > 0
      invariant 0 <= i <= NDIGITS && p == 32 - 4 * i
      invariant forall j | i <= j < NDIGITS :: dst[j] == DigitAt(src, 28 - 4 * j)
    {
      i := i - 1;
      dst[i] := DigitAt(src, p);
      p := p + 4;
    }
    SameValue(src, dst[..]);
  }

  /** `fips_p256_to_bin`. */
  method ToBin(src: seq<Digit>, dst: array<Byte>)
    requires |src| == NDIGITS && dst.Length == NBYTES
    modifies dst
    ensures SameNumber(dst[..], src) && Bytes(dst[..]) == Value(src)
  {
    var i, p := NDIGITS, 0;
    while i > 0
      invariant 0 <= i <= NDIGITS && p == 32 - 4 * i
      invariant forall j | i <= j < NDIGITS :: DigitAt(dst[..], 28 - 4 * j) == src[j]
    {
      i := i - 1;
      var digit := src[i];
      ghost var was := dst[..];
      dst[p], dst[p + 1], dst[p + 2], dst[p + 3] := digit / 0x1000000, digit / 0x10000 % 256, digit / 0x100 % 256, digit % 256;
      DigitBytes(digit);
      assert DigitAt(dst[..], p) == digit;
      forall j | i < j < NDIGITS ensures DigitAt(dst[..], 28 - 4 * j) == src[j] {
        assert DigitAt(was, 28 - 4 * j) == src[j];
      }
      p := p + 4;
    }
    SameValue(dst[..], src);
  }

  lemma DigitBytes(d: Digit)
    ensures (d / 0x1000000) * 0x1000000 + (d / 0x10000 % 256) * 0x10000 + (d / 0x100 % 256) * 0x100 + d % 256 == d
    ensures d / 0x1000000 < 256
  {
    var a, b, c := d / 0x100, d / 0x100 / 0x100, d / 0x100 / 0x100 / 0x100;
    assert d == 0x100 * a + d % 256 && a == 0x100 * b + a % 256 && b == 0x100 * c + b % 256;
    assert d / 0x10000 == b && d / 0x1000000 == c;
  }

  /** Byte strings of one length are determined by their number. */
  lemma {:induction false} BytesInjective(s: seq<Byte>, t: seq<Byte>, n: nat)
    requires n <= |s| && n <= |t| && BigEndian(s, n) == BigEndian(t, n)
    ensures s[..n] == t[..n]
  {
    if n > 0 {
      assert s[n - 1] == t[n - 1] && BigEndian(s, n - 1) == BigEndian(t, n - 1);
      BytesInjective(s, t, n - 1);
      assert s[..n] == s[..n - 1] + [s[n - 1]] && t[..n] == t[..n - 1] + [t[n - 1]];
    }
  }

  // ----- key selection

  /** The byte string is accepted, and k is its key. */
  ghost predicate KeyIs(keyBytes: seq<Byte>, k: int)
  {
    |keyBytes| == NBYTES && Bytes(keyBytes) <= MulMod.N - 2 && k == Bytes(keyBytes) + 1
  }

  /** `fips_p256_key_from_bytes` without a public key: accepted exactly for numbers up to n - 2. */
  method KeyFromBytes(keyBytes: seq<Byte>, d: array<Digit>) returns (ok: bool)
    requires |keyBytes| == NBYTES && d.Length == NDIGITS
    modifies d
    ensures ok <==> Bytes(keyBytes) <= MulMod.N - 2
    ensures ok ==> KeyIs(keyBytes, Value(d[..])) && 1 <= Value(d[..]) <= MulMod.N - 1
    ensures !ok ==> d[..] == old(d[..]) && forall k :: !KeyIs(keyBytes, k)
  {
    hide Times, Weight, Low, BigEndian;
    EightDigits();
    var key := new Digit[NDIGITS](_ => 0);
    FromBin(keyBytes, key);
    var c := Cmp(NMinusTwo(), key[..]);
    if c < 0 { return false; }
    var carry := AddD(key, 1, d);
    NoCarry(carry, Value(d[..]), Bytes(keyBytes) + 1, Weight(NDIGITS));
    return true;
  }

  lemma NoCarry(carry: int, v: int, total: int, w: int)
    requires 0 <= carry <= 1 && 0 <= v && v + Times(carry, w) == total && total < w
    ensures v == total
  {
  }

  /** A key comes from one byte string only. */
  lemma KeysOneToOne(s: seq<Byte>, t: seq<Byte>, k: int)
    requires KeyIs(s, k) && KeyIs(t, k)
    ensures s == t
  {
    BytesInjective(s, t, NBYTES);
    assert s[..NBYTES] == s && t[..NBYTES] == t;
  }

  /** The 32 bytes of a number. */
  ghost function ToBytes(v: nat, n: nat): (s: seq<Byte>)
    ensures |s| == n
  {
    if n == 0 then [] else ToBytes(v / 256, n - 1) + [v % 256]
  }

  ghost function Pow256(n: nat): (w: nat) { if n == 0 then 1 else 256 * Pow256(n - 1) }

  lemma {:induction false} ToBytesValue(v: nat, n: nat)
    requires v < Pow256(n)
    ensures Bytes(ToBytes(v, n)) == v
  {
    if n > 0 {
      ToBytesValue(v / 256, n - 1);
      var s, t := ToBytes(v, n), ToBytes(v / 256, n - 1);
      BigEndianPrefix(s, t, n - 1);
    }
  }

  lemma {:induction false} BigEndianPrefix(s: seq<Byte>, t: seq<Byte>, n: nat)
    requires n <= |s| && n <= |t| && s[..n] == t[..n]
    ensures BigEndian(s, n) == BigEndian(t, n)
  {
    if n > 0 {
      assert s[..n][n - 1] == t[..n][n - 1];
      assert s[..n - 1] == s[..n][..n - 1] && t[..n - 1] == t[..n][..n - 1];
      BigEndianPrefix(s, t, n - 1);
    }
  }

  /** Every scalar in [1, n - 1] is the key of some byte string. */
  lemma KeysOnto(k: nat)
    requires 1 <= k <= MulMod.N - 1
    ensures KeyIs(ToBytes(k - 1, NBYTES), k)
  {
    Pow256Register();
    hide Pow256;
    ToBytesValue(k - 1, NBYTES);
  }

  lemma Pow256Register()
    ensures Pow256(NBYTES) == 0x1_00000000_00000000_00000000_00000000_00000000_00000000_00000000_00000000
  {
    assert Pow256(1) == 0x100;
    hide Pow256;
    Pow256Square(1, 0x100);
    Pow256Square(2, 0x1_0000);
    Pow256Square(4, 0x1_0000_0000);
    Pow256Square(8, 0x1_00000000_00000000);
    Pow256Square(16, 0x1_00000000_00000000_00000000_00000000);
  }

  lemma {:induction false} Pow256Add(j: nat, k: nat)
    ensures Pow256(j + k) == Times(Pow256(j), Pow256(k))
  {
    TimesAll();
    hide Times;
    if k > 0 {
      Pow256Add(j, k - 1);
    }
  }

  lemma Pow256Square(k: nat, v: nat)
    requires Pow256(k) == v
    ensures Pow256(2 * k) == v * v
  {
    TimesAll();
    hide Times;
    Pow256Add(k, k);
    assert k + k == 2 * k;
  }
}
