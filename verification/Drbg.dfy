/**
 The HMAC-based deterministic random bit generator (section 10.1.2 of NIST SP 800-90A), with HMAC
 left as a parameter, and the selection of scalars by rejection.
 */
module Drbg {
  import opened P256Int
  import Modular
  import MulMod

  type Block = s: seq<Byte> | |s| == 32
    witness [0, 0, 0, 0, 0, 0, 0, 0, 0, 0, 0, 0, 0, 0, 0, 0, 0, 0, 0, 0, 0, 0, 0, 0, 0, 0, 0, 0, 0, 0, 0, 0]

  /** A keyed hash: key and message to 32 bytes. */
  type Hmac = (seq<Byte>, seq<Byte>) -> Block

  const MAX_OUTPUT: nat := 937
  const RESEED_LIMIT: nat := 10000

  // ----- the generator of the standard

  datatype Secret = Secret(K: Block, V: Block)

  /** HMAC_DRBG_Update. */
  ghost function Updated(h: Hmac, s: Secret, data: seq<Byte>): Secret
  {
    var K := h(s.K, s.V + [0] + data);
    var V := h(K, s.V);
    if data == [] then Secret(K, V)
    else
      var K' := h(K, V + [1] + data);
      Secret(K', h(K', V))
  }

  /** V after k rounds of output generation. */
  ghost function Rounds(h: Hmac, s: Secret, k: nat): (v: Block)
  {
    if k == 0 then s.V else h(s.K, Rounds(h, s, k - 1))
  }

  /** The concatenation of the first k output blocks. */
  ghost function Blocks(h: Hmac, s: Secret, k: nat): (out: seq<Byte>)
    ensures |out| == 32 * k
  {
    if k == 0 then [] else Blocks(h, s, k - 1) + Rounds(h, s, k)
  }

  /** The secret from which output is generated: after the optional additional input. */
  ghost function Primed(h: Hmac, s: Secret, input: seq<Byte>): Secret
  {
    if input == [] then s else Updated(h, s, input)
  }

  function BlockCount(n: nat): (k: nat)
    ensures n <= 32 * k && (k > 0 ==> 32 * (k - 1) < n)
  {
    (n + 31) / 32
  }

  /** HMAC_DRBG_Generate: the requested bytes, and the secret afterwards. */
  ghost function Generated(h: Hmac, s: Secret, n: nat, input: seq<Byte>): (r: (seq<Byte>, Secret))
    ensures |r.0| == n
  {
    var p := Primed(h, s, input);
    var k := BlockCount(n);
    (Blocks(h, p, k)[..n], Updated(h, Secret(p.K, Rounds(h, p, k)), input))
  }

  // ----- what the definitions amount to

  /** Additional input comes first: the output is that of the generator updated with it. */
  lemma InputFirst(h: Hmac, s: Secret, n: nat, input: seq<Byte>)
    ensures input != [] ==> Generated(h, s, n, input).0 == Generated(h, Updated(h, s, input), n, []).0
  {
    hide Updated, Blocks;
  }

  /** Without output, the secret is updated with the additional input before and after, or once without it. */
  lemma NoOutput(h: Hmac, s: Secret, input: seq<Byte>)
    ensures Generated(h, s, 0, input) == ([], Updated(h, if input == [] then s else Updated(h, s, input), input))
  {
    hide Updated;
  }

  /** The secret once the next block has been put out. */
  ghost function Advanced(h: Hmac, s: Secret): Secret
  {
    Secret(s.K, h(s.K, s.V))
  }

  /** One block of output is the hash of V, and the rest comes from the generator that keeps it as its V. */
  lemma BlockFirst(h: Hmac, s: Secret, n: nat)
    ensures Generated(h, s, n + 32, []).0 == h(s.K, s.V) + Generated(h, Advanced(h, s), n, []).0
    ensures Generated(h, s, n + 32, []).1 == Generated(h, Advanced(h, s), n, []).1
  {
    hide Updated;
    var k := BlockCount(n);
    assert BlockCount(n + 32) == k + 1;
    RoundsFirst(h, s, k);
    BlocksFirst(h, s, k);
    hide Blocks, Rounds;
    assert (h(s.K, s.V) + Blocks(h, Advanced(h, s), k))[..n + 32] == h(s.K, s.V) + Blocks(h, Advanced(h, s), k)[..n];
  }

  lemma {:induction false} RoundsFirst(h: Hmac, s: Secret, k: nat)
    ensures Rounds(h, s, k + 1) == Rounds(h, Advanced(h, s), k)
  {
    if k > 0 {
      RoundsFirst(h, s, k - 1);
    } else {
      assert Rounds(h, s, 1) == h(s.K, Rounds(h, s, 0));
    }
  }

  lemma {:induction false} BlocksFirst(h: Hmac, s: Secret, k: nat)
    ensures Blocks(h, s, k + 1) == h(s.K, s.V) + Blocks(h, Advanced(h, s), k)
  {
    if k == 0 {
      OneBlock(h, s);
    } else {
      BlocksFirst(h, s, k - 1);
      RoundsFirst(h, s, k);
    }
  }

  /** A short output is a prefix of a longer one, as long as it ends in the same block. */
  lemma Prefix(h: Hmac, s: Secret, n: nat, k: nat, input: seq<Byte>)
    requires 32 * k < n <= 32 * (k + 1)
    ensures Generated(h, s, n, input).0 == Generated(h, s, 32 * (k + 1), input).0[..n]
    ensures Generated(h, s, n, input).1 == Generated(h, s, 32 * (k + 1), input).1
  {
    hide Updated, Blocks, Rounds, Primed;
    assert BlockCount(n) == k + 1 == BlockCount(32 * (k + 1));
  }

  /** After whole blocks, the last of them is V when the additional input comes again. */
  lemma InputLast(h: Hmac, s: Secret, k: nat, input: seq<Byte>)
    ensures var (out, after) := Generated(h, s, 32 * (k + 1), input);
            var K := if input == [] then s.K else Updated(h, s, input).K;
            after == Updated(h, Secret(K, out[32 * k..]), input)
  {
    hide Updated, Rounds;
    var p := Primed(h, s, input);
    assert BlockCount(32 * (k + 1)) == k + 1;
    assert Blocks(h, p, k + 1) == Blocks(h, p, k) + Rounds(h, p, k + 1);
    hide Blocks;
    assert Generated(h, s, 32 * (k + 1), input).0 == Blocks(h, p, k + 1);
    assert Blocks(h, p, k + 1)[32 * k..] == Rounds(h, p, k + 1);
  }

  /** The byte of a message, or a mark where it ends before. */
  function ByteOr(m: seq<Byte>, i: nat, mark: Byte): Byte
  {
    if i < |m| then m[i] else mark
  }

  /** A hash that tells length, the bytes behind the first 32, and the front of the message and of the key. */
  function Telling(k: seq<Byte>, m: seq<Byte>): Block
  {
    [|m| % 256, ByteOr(m, 32, 255), ByteOr(m, 33, 254), ByteOr(m, 0, 0), ByteOr(m, 1, 0), ByteOr(m, 2, 0),
     ByteOr(k, 0, 0), ByteOr(k, 1, 0), ByteOr(k, 2, 0), ByteOr(k, 3, 0), ByteOr(k, 4, 0), ByteOr(k, 5, 0),
     ByteOr(k, 6, 0), ByteOr(k, 7, 0), ByteOr(k, 8, 0), 0, 0, 0, 0, 0, 0, 0, 0, 0, 0, 0, 0, 0, 0, 0, 0, 0]
  }

  /** The part of a block that the hash fills. */
  ghost function Front(b: Block): (f: seq<Byte>)
    ensures |f| == 15
  {
    b[..15]
  }

  lemma TellingFront(k: Block, m: seq<Byte>)
    requires |m| >= 32
    ensures Front(Telling(k, m)) == [|m| % 256, ByteOr(m, 32, 255), ByteOr(m, 33, 254)] + m[..3] + k[..9]
  {
  }

  /** What the update function hashes, seen at the hash that tells it: tag 0 first, then tag 1 if there is data. */
  lemma UpdateTells(s: Secret, data: seq<Byte>)
    ensures data == [] ==>
              && Front(Updated(Telling, s, data).K) == [33, 0, 254] + s.V[..3] + s.K[..9]
              && Front(Updated(Telling, s, data).V) == [32, 255, 254] + s.V[..3] + [33, 0, 254] + s.V[..3] + s.K[..3]
    ensures data != [] ==>
              var n := (33 + |data|) % 256;
              && Front(Updated(Telling, s, data).K) == [n, 1, data[0], 32, 255, 254, n, 0, data[0]] + s.V[..3] + s.K[..3]
              && Front(Updated(Telling, s, data).V) == [32, 255, 254, 32, 255, 254, n, 1, data[0], 32, 255, 254, n, 0, data[0]]
  {
    hide Telling, ByteOr, Front;
    Tagged(s.K, s.V, 0, data);
    if data != [] {
      var K := Telling(s.K, s.V + [0] + data);
      var V := Telling(K, s.V);
      Tagged(K, V, 1, data);
      FrontPart(K);
      FrontPart(V);
      var n, d := (33 + |data|) % 256, data[0];
      assert V[..3] == [32, 255, 254];
      assert K[..9] == [n, 0, d] + s.V[..3] + s.K[..3] && K[..3] == [n, 0, d];
      assert [32, 255, 254] + V[..3] + [n, 1, d] + V[..3] + K[..3] == [32, 255, 254, 32, 255, 254, n, 1, d, 32, 255, 254, n, 0, d];
    }
  }

  lemma FrontPart(b: Block)
    ensures b[..3] == Front(b)[..3] && b[..9] == Front(b)[..9]
  {
  }

  /** One pass of the update function. */
  lemma Tagged(K: Block, V: Block, tag: Byte, data: seq<Byte>)
    ensures var K', n := Telling(K, V + [tag] + data), (33 + |data|) % 256;
            var d := if data == [] then 254 else data[0];
            && Front(K') == [n, tag, d] + V[..3] + K[..9]
            && Front(Telling(K', V)) == [32, 255, 254] + V[..3] + [n, tag, d] + V[..3] + K[..3]
  {
    hide Telling;
    var m := V + [tag] + data;
    assert m[..3] == V[..3] && m[32] == tag && (data != [] ==> m[33] == data[0]);
    TellingFront(K, m);
    FrontPart(Telling(K, m));
    TellingFront(Telling(K, m), V);
  }

  class Drbg {
    const hmac: Hmac
    var K: Block
    var V: Block
    var reseedCounter: nat

    ghost function State(): Secret
      reads this
    {
      Secret(K, V)
    }

    /** `DRBG_init`: fixed start values, then a reseed with the entropy. */
    constructor (hmac: Hmac, seed: seq<Byte>)
      ensures this.hmac == hmac && reseedCounter == 1
      ensures State() == Updated(hmac, Secret(seq(32, _ => 0), seq(32, _ => 1)), seed)
    {
      this.hmac := hmac;
      K, V := seq(32, _ => 0), seq(32, _ => 1);
      reseedCounter := 1;
      new;
      Update(seed);
    }

    method UpdateKV(tag: Byte, data: seq<Byte>)
      modifies this`K, this`V
      ensures K == hmac(old(K), old(V) + [tag] + data) && V == hmac(K, old(V))
    {
      K := hmac(K, V + [tag] + data);
      V := hmac(K, V);
    }

    /** `DRBG_update`. */
    method Update(data: seq<Byte>)
      modifies this`K, this`V
      ensures State() == Updated(hmac, old(State()), data)
    {
      UpdateKV(0, data);
      if |data| == 0 { return; }
      UpdateKV(1, data);
    }

    /** `DRBG_reseed`. */
    method Reseed(data: seq<Byte>)
      modifies this
      ensures State() == Updated(hmac, old(State()), data) && reseedCounter == 1
    {
      Update(data);
      reseedCounter := 1;
    }

    /** `DRBG_generate`. */
    method Generate(n: nat, input: seq<Byte>) returns (rc: int, out: seq<Byte>)
      modifies this
      ensures rc == if n > MAX_OUTPUT then 1 else if old(reseedCounter) >= RESEED_LIMIT then 2 else 0
      ensures rc != 0 ==> State() == old(State()) && reseedCounter == old(reseedCounter) && out == []
      ensures rc == 0 ==> out == Generated(hmac, old(State()), n, input).0 && State() == Generated(hmac, old(State()), n, input).1
      ensures rc == 0 ==> reseedCounter == old(reseedCounter) + 1
    {
      out := [];
      if n > MAX_OUTPUT { return 1, []; }
      if reseedCounter >= RESEED_LIMIT { return 2, []; }
      if |input| > 0 {
        Update(input);
      }
      ghost var p := State();
      var left := n;
      ghost var k := 0;
      while left > 0
        invariant 0 <= left <= n && K == p.K && reseedCounter == old(reseedCounter) && V == Rounds(hmac, p, k)
        invariant 0 <= k && n - left <= 32 * k && (left > 0 ==> n - left == 32 * k)
        invariant left == 0 ==> k == BlockCount(n)
        invariant |out| == n - left && out == Blocks(hmac, p, k)[..n - left]
      {
        var m := if left > 32 then 32 else left;
        V := hmac(K, V);
        ghost var before := Blocks(hmac, p, k);
        assert Blocks(hmac, p, k + 1) == before + V;
        assert out == before;
        out := out + V[..m];
        left := left - m;
        k := k + 1;
      }
      assert out == Blocks(hmac, p, k)[..n];
      Update(input);
      reseedCounter := reseedCounter + 1;
      rc := 0;
    }
  }

  // ----- picking a scalar

  /** Four bytes as the processor stores a digit: least significant first. */
  function LittleDigit(s: seq<Byte>, at: nat): (d: Digit)
    requires at + 4 <= |s|
  {
    (s[at] as int) + (s[at + 1] as int) * 0x100 + (s[at + 2] as int) * 0x10000 + (s[at + 3] as int) * 0x1000000
  }

  function Digits(s: seq<Byte>): (a: seq<Digit>)
    requires |s| == 32
    ensures |a| == NDIGITS
  {
    [LittleDigit(s, 0), LittleDigit(s, 4), LittleDigit(s, 8), LittleDigit(s, 12),
     LittleDigit(s, 16), LittleDigit(s, 20), LittleDigit(s, 24), LittleDigit(s, 28)]
  }

  /** The bytes of the generator are taken as a number with the least significant byte first. */
  lemma DigitsLittleEndian(s: seq<Byte>, reversed: seq<Byte>)
    requires |s| == 32 == |reversed| && forall i | 0 <= i < 32 :: reversed[i] == s[31 - i]
    ensures Value(Digits(s)) == Bytes(reversed)
  {
    forall i | 0 <= i < NDIGITS
      ensures Digits(s)[i] == DigitAt(reversed, 28 - 4 * i)
    {
      assert Digits(s)[i] == LittleDigit(s, 4 * i);
    }
    hide Digits, Value, Bytes;
    SameValue(reversed, Digits(s));
  }

  /** The j-th candidate that the generator would deliver. */
  ghost function Candidate(h: Hmac, s: Secret, data: seq<Byte>, j: nat): (v: nat)
  {
    Value(Digits(Generated(h, SecretAfter(h, s, data, j), 32, data).0))
  }

  ghost function SecretAfter(h: Hmac, s: Secret, data: seq<Byte>, j: nat): Secret
  {
    if j == 0 then s else Generated(h, SecretAfter(h, s, data, j - 1), 32, data).1
  }

  /** The first candidate is the hash of V after the update with the data, least significant byte first. */
  lemma FirstCandidate(h: Hmac, s: Secret, data: seq<Byte>, reversed: seq<Byte>)
    requires var t := if data == [] then s else Updated(h, s, data);
             |reversed| == 32 && forall i | 0 <= i < 32 :: reversed[i] == h(t.K, t.V)[31 - i]
    ensures Candidate(h, s, data, 0) == Bytes(reversed)
  {
    hide Updated, Digits, Value, Bytes;
    var t := Primed(h, s, data);
    OneBlock(h, t);
    assert BlockCount(32) == 1;
    hide Blocks, Rounds;
    assert Generated(h, s, 32, data).0 == h(t.K, t.V);
    DigitsLittleEndian(h(t.K, t.V), reversed);
  }

  /** Every other candidate is the first one of the generator after a draw. */
  lemma {:induction false} NextCandidate(h: Hmac, s: Secret, data: seq<Byte>, j: nat)
    ensures SecretAfter(h, s, data, j + 1) == SecretAfter(h, Generated(h, s, 32, data).1, data, j)
    ensures Candidate(h, s, data, j + 1) == Candidate(h, Generated(h, s, 32, data).1, data, j)
  {
    hide Generated, Digits, Value;
    if j > 0 {
      NextCandidate(h, s, data, j - 1);
    } else {
      assert SecretAfter(h, s, data, 1) == Generated(h, SecretAfter(h, s, data, 0), 32, data).1;
    }
  }

  /** Candidate j is the first one that is at most n - 2. */
  ghost predicate FirstAccepted(h: Hmac, s: Secret, data: seq<Byte>, j: nat)
  {
    && Candidate(h, s, data, j) <= MulMod.N - 2
    && forall i: nat | i < j :: Candidate(h, s, data, i) > MulMod.N - 2
  }

  /** What the local variable holds after so many draws: the last candidate, or what lay on the stack. */
  ghost function Leftover(h: Hmac, s: Secret, data: seq<Byte>, stack: seq<Digit>, draws: nat): nat
  {
    if draws == 0 then Value(stack) else Candidate(h, s, data, draws - 1)
  }

  /**
   `fips_p256_pick`: ends after at most 10000 - reseed_counter draws; on success the scalar is one
   more than the first acceptable candidate, hence in [1, n - 1]. On failure the output is one more than
   the rejected candidate left behind, or than what lay on the stack.
   */
  method Pick(drbg: Drbg, data: seq<Byte>, stack: seq<Digit>, output: array<Digit>) returns (rc: int, ghost draws: nat)
    requires output.Length == NDIGITS && |stack| == NDIGITS
    modifies drbg, output
    ensures draws <= if old(drbg.reseedCounter) < RESEED_LIMIT then RESEED_LIMIT - old(drbg.reseedCounter) else 0
    ensures drbg.reseedCounter == old(drbg.reseedCounter) + draws
    ensures drbg.State() == SecretAfter(drbg.hmac, old(drbg.State()), data, draws)
    ensures rc == 0 ==> draws > 0 && FirstAccepted(drbg.hmac, old(drbg.State()), data, draws - 1)
    ensures rc == 0 ==> Value(output[..]) == Candidate(drbg.hmac, old(drbg.State()), data, draws - 1) + 1
    ensures rc == 0 ==> 1 <= Value(output[..]) <= MulMod.N - 1
    ensures rc != 0 ==> rc == 2 && drbg.reseedCounter >= RESEED_LIMIT
    ensures rc != 0 ==> forall i: nat | i < draws :: Candidate(drbg.hmac, old(drbg.State()), data, i) > MulMod.N - 2
    ensures rc != 0 ==>
              Value(output[..]) == Modular.Mod(Leftover(drbg.hmac, old(drbg.State()), data, stack, draws) + 1, Weight(NDIGITS))
  {
    hide Generated, Value, Digits;
    EightDigits();
    ghost var s := drbg.State();
    var tmp := new Digit[NDIGITS](i requires 0 <= i < NDIGITS => stack[i]);
    assert tmp[..] == stack;
    rc := 0;
    draws := 0;
    var again := true;
    while again
      invariant draws >= 0 && drbg.reseedCounter == old(drbg.reseedCounter) + draws
      invariant draws > 0 ==> drbg.reseedCounter <= RESEED_LIMIT
      invariant drbg.State() == SecretAfter(drbg.hmac, s, data, draws)
      invariant forall i: nat | i < (if again || rc != 0 then draws else draws - 1) ::
                  Candidate(drbg.hmac, s, data, i) > MulMod.N - 2
      invariant again ==> rc == 0
      invariant rc != 0 ==> rc == 2 && drbg.reseedCounter >= RESEED_LIMIT
      invariant !again && rc == 0 ==> draws > 0 && Value(tmp[..]) <= MulMod.N - 2
      invariant Value(tmp[..]) == Leftover(drbg.hmac, s, data, stack, draws)
      decreases again, RESEED_LIMIT - drbg.reseedCounter
    {
      var out;
      rc, out := drbg.Generate(32, data);
      if rc == 0 {
        draws := draws + 1;
        var digits := Digits(out);
        forall i | 0 <= i < NDIGITS { tmp[i] := digits[i]; }
        assert tmp[..] == digits;
        var c := Cmp(tmp[..], NMinusTwo());
        again := c > 0;
      } else {
        again := false;
      }
    }
    var carry := AddD(tmp, 1, output);
    SumWraps(carry, tmp[..], output[..]);
    if rc == 0 {
      SmallSum(carry, tmp[..], output[..]);
    }
  }

  ghost predicate AlwaysZero(h: Hmac)
  {
    forall k, m :: h(k, m) == [0, 0, 0, 0, 0, 0, 0, 0, 0, 0, 0, 0, 0, 0, 0, 0, 0, 0, 0, 0, 0, 0, 0, 0, 0, 0, 0, 0, 0, 0, 0, 0]
  }

  /** With a hash that is always zero the first candidate is zero, and the scalar picked is 1. */
  lemma PicksOne(h: Hmac, s: Secret, data: seq<Byte>)
    requires AlwaysZero(h)
    ensures Candidate(h, s, data, 0) == 0 && FirstAccepted(h, s, data, 0)
  {
    hide Generated, Digits, AlwaysZero, Value;
    ZeroOutput(h, s, data);
    ZeroValue(Generated(h, s, 32, data).0);
  }

  lemma ZeroValue(out: seq<Byte>)
    requires |out| == 32 && forall i | 0 <= i < 32 :: out[i] == 0
    ensures Value(Digits(out)) == 0
  {
    assert forall i | 0 <= i < NDIGITS :: Digits(out)[i] == 0;
    hide Digits;
    ZeroDigits(Digits(out), NDIGITS);
  }

  lemma ZeroOutput(h: Hmac, s: Secret, data: seq<Byte>)
    requires AlwaysZero(h)
    ensures forall i | 0 <= i < 32 :: Generated(h, s, 32, data).0[i] == 0
  {
    hide Updated;
    var p := Primed(h, s, data);
    OneBlock(h, p);
    hide Primed, Blocks, Rounds;
    assert BlockCount(32) == 1;
  }

  lemma OneBlock(h: Hmac, p: Secret)
    ensures Blocks(h, p, 1) == h(p.K, p.V)
  {
    assert Blocks(h, p, 1) == Blocks(h, p, 0) + Rounds(h, p, 1);
    assert Rounds(h, p, 1) == h(p.K, Rounds(h, p, 0));
  }

  lemma {:induction false} ZeroDigits(a: seq<Digit>, n: nat)
    requires n <= |a| && forall i | 0 <= i < |a| :: a[i] == 0
    ensures Low(a, n) == 0
  {
    if n > 0 {
      ZeroDigits(a, n - 1);
      Modular.TimesIs(0, Weight(n - 1));
    }
  }

  lemma SumWraps(carry: int, a: seq<Digit>, b: seq<Digit>)
    requires 0 <= carry <= 1 && |b| == NDIGITS
    requires Value(b) + Modular.Times(carry, Weight(NDIGITS)) == Value(a) + 1
    ensures Value(b) == Modular.Mod(Value(a) + 1, Weight(NDIGITS))
  {
    LowBound(b, NDIGITS);
    Modular.TimesIs(carry, Weight(NDIGITS));
    hide Value;
    Modular.DivModUnique(Value(a) + 1, carry, Value(b), Weight(NDIGITS));
  }

  lemma SmallSum(carry: int, a: seq<Digit>, b: seq<Digit>)
    requires 0 <= carry <= 1 && Value(a) <= MulMod.N - 2
    requires Value(b) + Modular.Times(carry, Weight(NDIGITS)) == Value(a) + 1
    ensures Value(b) == Value(a) + 1
  {
    EightDigits();
    hide Value;
    NoCarry(carry, Value(b), Value(a) + 1, Weight(NDIGITS));
  }
}
