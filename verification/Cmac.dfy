/**
 CMAC with AES-128 as computed by `cmac.c`, against RFC 4493. The block cipher under the given key is
 a parameter, and so is which of its calls the hardware lets fail.
 */
module Cmac {

  type Block = s: seq<bv8> | |s| == 16 witness [0, 0, 0, 0, 0, 0, 0, 0, 0, 0, 0, 0, 0, 0, 0, 0]

  type Cipher = Block -> Block

  ghost const Zero: Block := [0, 0, 0, 0, 0, 0, 0, 0, 0, 0, 0, 0, 0, 0, 0, 0]

  // ----- doubling in GF(2^128)

  function Mask(j: nat): bv8
    requires j < 8
  {
    match j
    case 0 => 0x01 case 1 => 0x02 case 2 => 0x04 case 3 => 0x08
    case 4 => 0x10 case 5 => 0x20 case 6 => 0x40 case 7 => 0x80
  }

  function Bit(b: bv8, j: nat): bool
    requires j < 8
  {
    b & Mask(j) != 0
  }

  /** A block read as a polynomial over GF(2) of degree at most 127, the most significant bit first. */
  ghost function Coefficient(block: Block, k: nat): bool
  {
    k < 128 && Bit(block[15 - k / 8], k % 8)
  }

  /** The coefficients of x^128 + x^7 + x^2 + x + 1. */
  ghost predicate InModulus(k: nat)
  {
    k == 0 || k == 1 || k == 2 || k == 7 || k == 128
  }

  /** x * f == g + q * (x^128 + x^7 + x^2 + x + 1), coefficient by coefficient. */
  ghost predicate TimesX(f: Block, g: Block, q: bool)
  {
    forall k {:trigger Coefficient(g, k)} :: 0 <= k <= 128 ==>
      (k > 0 && Coefficient(f, k - 1)) == (Coefficient(g, k) != (q && InModulus(k)))
  }

  function ShiftedByte(b: bv8, below: bv8): bv8
  {
    (b << 1) | (below >> 7)
  }

  ghost function Shifted(f: Block): Block
  {
    seq(16, i requires 0 <= i < 16 => ShiftedByte(f[i], if i < 15 then f[i + 1] else 0))
  }

  /** `(L << 1) XOR const_Rb` where the most significant bit says so: section 2.3 of RFC 4493. */
  ghost function Doubled(f: Block): Block
  {
    if Bit(f[0], 7) then Shifted(f)[15 := Shifted(f)[15] ^ 0x87] else Shifted(f)
  }

  lemma ShiftedBits(b: bv8, below: bv8, j: nat)
    requires j < 8
    ensures Bit(ShiftedByte(b, below), j) == if j > 0 then Bit(b, j - 1) else Bit(below, 7)
  {
    match j
    case 0 => case 1 => case 2 => case 3 => case 4 => case 5 => case 6 => case 7 =>
  }

  lemma FeedbackBits(b: bv8, j: nat)
    requires j < 8
    ensures Bit(b ^ 0x87, j) == (Bit(b, j) != InModulus(j))
  {
    match j
    case 0 => case 1 => case 2 => case 3 => case 4 => case 5 => case 6 => case 7 =>
  }

  lemma SameBits(a: bv8, b: bv8)
    requires forall j :: 0 <= j < 8 ==> Bit(a, j) == Bit(b, j)
    ensures a == b
  {
    assert Bit(a, 0) == Bit(b, 0) && Bit(a, 1) == Bit(b, 1) && Bit(a, 2) == Bit(b, 2) && Bit(a, 3) == Bit(b, 3);
    assert Bit(a, 4) == Bit(b, 4) && Bit(a, 5) == Bit(b, 5) && Bit(a, 6) == Bit(b, 6) && Bit(a, 7) == Bit(b, 7);
  }

  lemma SameCoefficients(f: Block, g: Block)
    requires forall k :: 0 <= k < 128 ==> Coefficient(f, k) == Coefficient(g, k)
    ensures f == g
  {
    hide Bit;
    forall i | 0 <= i < 16
      ensures f[i] == g[i]
    {
      forall j | 0 <= j < 8
        ensures Bit(f[i], j) == Bit(g[i], j)
      {
        assert Coefficient(f, 8 * (15 - i) + j) == Coefficient(g, 8 * (15 - i) + j);
      }
      SameBits(f[i], g[i]);
    }
  }

  lemma ShiftedCoefficient(f: Block, k: nat)
    requires k < 128
    ensures Coefficient(Shifted(f), k) == (k > 0 && Coefficient(f, k - 1))
  {
    assert !Bit(0, 7);
    hide Bit, ShiftedByte;
    var i, j := 15 - k / 8, k % 8;
    var below := if i < 15 then f[i + 1] else 0;
    assert Shifted(f)[i] == ShiftedByte(f[i], below);
    ShiftedBits(f[i], below, j);
    if j > 0 {
      assert (k - 1) / 8 == k / 8 && (k - 1) % 8 == j - 1;
    } else if k > 0 {
      assert (k - 1) / 8 == k / 8 - 1 && (k - 1) % 8 == 7;
    }
  }

  lemma DoubledCoefficient(f: Block, k: nat)
    requires k <= 128
    ensures (k > 0 && Coefficient(f, k - 1)) == (Coefficient(Doubled(f), k) != (Coefficient(f, 127) && InModulus(k)))
  {
    hide Bit, Shifted;
    if k < 128 {
      ShiftedCoefficient(f, k);
      if k < 8 {
        FeedbackBits(Shifted(f)[15], k);
      }
    }
  }

  /** Doubling is multiplication by x in GF(2^128), and nothing else is. */
  lemma DoublingIsTimesX(f: Block, g: Block, q: bool)
    ensures TimesX(f, g, q) <==> g == Doubled(f) && q == Coefficient(f, 127)
  {
    assert !Coefficient(g, 128);
    hide Coefficient, Doubled;
    forall k | 0 <= k <= 128
      ensures (k > 0 && Coefficient(f, k - 1)) == (Coefficient(Doubled(f), k) != (Coefficient(f, 127) && InModulus(k)))
    {
      DoubledCoefficient(f, k);
    }
    if TimesX(f, g, q) {
      assert q == Coefficient(f, 127);
      forall k | 0 <= k < 128
        ensures Coefficient(g, k) == Coefficient(Doubled(f), k)
      {
        DoubledCoefficient(f, k);
      }
      SameCoefficients(g, Doubled(f));
    }
  }

  // ----- the message authentication code of section 2.4 of RFC 4493

  function Plus(a: bv8, b: bv8): bv8
  {
    a ^ b
  }

  ghost function Xor(a: Block, b: Block): Block
  {
    seq(16, i requires 0 <= i < 16 => Plus(a[i], b[i]))
  }

  /** One bit set behind the message, then zeros. */
  ghost function Padded(last: seq<bv8>): Block
    requires |last| < 16
  {
    seq(16, i requires 0 <= i < 16 => if i < |last| then last[i] else if i == |last| then 0x80 else 0)
  }

  ghost function Subkey1(aes: Cipher): Block
  {
    Doubled(aes(Zero))
  }

  ghost function Subkey2(aes: Cipher): Block
  {
    Doubled(Subkey1(aes))
  }

  /** Cipher block chaining over whole blocks. */
  ghost function Chain(aes: Cipher, x: Block, blocks: seq<bv8>): Block
    requires |blocks| % 16 == 0
    decreases |blocks|
  {
    if blocks == [] then x else Chain(aes, aes(Xor(x, blocks[..16])), blocks[16..])
  }

  /** The number of blocks before the last one. */
  function Heads(n: nat): (h: nat)
    ensures n > 0 ==> 16 * h < n <= 16 * (h + 1)
    ensures n == 0 ==> h == 0
  {
    if n == 0 then 0 else (n - 1) / 16
  }

  ghost function LastBlock(aes: Cipher, last: seq<bv8>): Block
    requires |last| <= 16
  {
    if |last| == 16 then Xor(last, Subkey1(aes)) else Xor(Padded(last), Subkey2(aes))
  }

  ghost function Mac(aes: Cipher, message: seq<bv8>): Block
  {
    var h := 16 * Heads(|message|);
    aes(Xor(LastBlock(aes, message[h..]), Chain(aes, Zero, message[..h])))
  }

  // ----- what the definitions amount to

  /** The subkeys are K1 = x * L and K2 = x^2 * L for the encryption L of the zero block. */
  lemma SubkeysAreMultiples(aes: Cipher)
    ensures TimesX(aes(Zero), Subkey1(aes), Coefficient(aes(Zero), 127))
    ensures TimesX(Subkey1(aes), Subkey2(aes), Coefficient(Subkey1(aes), 127))
  {
    hide TimesX, Coefficient, Doubled;
    DoublingIsTimesX(aes(Zero), Subkey1(aes), Coefficient(aes(Zero), 127));
    DoublingIsTimesX(Subkey1(aes), Subkey2(aes), Coefficient(Subkey1(aes), 127));
  }

  /** Blocks are added as polynomials. */
  lemma XorAdds(a: Block, b: Block, k: nat)
    ensures Coefficient(Xor(a, b), k) == (Coefficient(a, k) != Coefficient(b, k))
  {
    if k < 128 {
      var i, j := 15 - k / 8, k % 8;
      XorBits(a[i], b[i], j);
      hide Plus, Bit;
      assert Xor(a, b)[i] == Plus(a[i], b[i]);
    }
  }

  lemma XorBits(a: bv8, b: bv8, j: nat)
    requires j < 8
    ensures Bit(Plus(a, b), j) == (Bit(a, j) != Bit(b, j))
  {
    MaskAdds(a, b, Mask(j));
    MaskSelects(a, j);
    MaskSelects(b, j);
    hide Mask;
  }

  lemma MaskAdds(a: bv8, b: bv8, m: bv8)
    ensures Plus(a, b) & m == Plus(a & m, b & m)
  {
  }

  lemma MaskSelects(a: bv8, j: nat)
    requires j < 8
    ensures Mask(j) != 0 && (a & Mask(j) == 0 || a & Mask(j) == Mask(j))
  {
    match j
    case 0 => case 1 => case 2 => case 3 => case 4 => case 5 => case 6 => case 7 =>
  }

  lemma XorZero(a: Block)
    ensures Xor(a, Zero) == a && Xor(Zero, a) == a
  {
    forall i | 0 <= i < 16
      ensures Plus(a[i], Zero[i]) == a[i] && Plus(Zero[i], a[i]) == a[i]
    {
      assert Zero[i] == 0;
      XorByte(a[i], 0, 0);
      XorByte(0, a[i], 0);
    }
    hide Plus;
  }

  /** The last bytes of a message, then one bit, then zeros. */
  ghost predicate IsPadding(last: seq<bv8>, block: Block)
    requires |last| < 16
  {
    last <= block && block[|last|] == 0x80 && forall i | |last| < i < 16 :: block[i] == 0
  }

  lemma PaddingUnique(last: seq<bv8>, block: Block)
    requires |last| < 16 && IsPadding(last, block)
    ensures block == Padded(last)
  {
    assert forall i | 0 <= i < |last| :: block[i] == last[i];
  }

  /** A message of one whole block is masked with K1, and the result is encrypted. */
  lemma OneWholeBlock(aes: Cipher, m: Block)
    ensures Mac(aes, m) == aes(Xor(m, Subkey1(aes)))
  {
    hide Xor, Subkey1, Subkey2;
    assert m[0..] == m && m[..0] == [];
    XorZero(LastBlock(aes, m));
  }

  /** A message shorter than one block is padded and masked with K2. */
  lemma OnePartialBlock(aes: Cipher, m: seq<bv8>, block: Block)
    requires |m| < 16 && IsPadding(m, block)
    ensures Mac(aes, m) == aes(Xor(block, Subkey2(aes)))
  {
    PaddingUnique(m, block);
    hide Xor, Subkey1, Subkey2, Padded;
    assert m[0..] == m && m[..0] == [];
    XorZero(LastBlock(aes, m));
  }

  /** A whole block in front of at least one more is encrypted and added to the block behind it. */
  lemma WholeBlockInFront(aes: Cipher, block: Block, next: Block, rest: seq<bv8>)
    ensures Mac(aes, block + next + rest) == Mac(aes, Xor(aes(block), next) + rest)
  {
    hide Xor, Subkey1, Subkey2, Padded;
    var m, m' := block + next + rest, Xor(aes(block), next) + rest;
    var h := 16 * Heads(|m'|);
    assert 16 * Heads(|m|) == h + 16;
    assert m[..16] == block;
    XorZero(block);
    if rest == [] {
      assert h == 0 && m[16..] == next && m'[0..] == Xor(aes(block), next) && m'[..0] == [] && block + [] == block;
      ChainFront(aes, Zero, block, []);
      FoldMasked(aes(block), next, Subkey1(aes));
      XorZero(Xor(Xor(aes(block), next), Subkey1(aes)));
    } else {
      XorZero(Xor(aes(block), next));
      FrontChain(aes, block, next, rest[..h - 16]);
      assert m[..h + 16] == block + next + rest[..h - 16];
      assert m'[..h] == Xor(aes(block), next) + rest[..h - 16];
      assert m[h + 16..] == rest[h - 16..] == m'[h..];
    }
  }

  lemma FrontChain(aes: Cipher, block: Block, next: Block, blocks: seq<bv8>)
    requires |blocks| % 16 == 0
    ensures Chain(aes, Zero, block + next + blocks) == Chain(aes, Zero, Xor(aes(block), next) + blocks)
  {
    hide Xor, Chain;
    XorZero(block);
    XorZero(Xor(aes(block), next));
    assert block + (next + blocks) == block + next + blocks;
    ChainFront(aes, Zero, block, next + blocks);
    ChainFront(aes, aes(block), next, blocks);
    ChainFront(aes, Zero, Xor(aes(block), next), blocks);
  }

  lemma ChainFront(aes: Cipher, x: Block, block: Block, blocks: seq<bv8>)
    requires |blocks| % 16 == 0
    ensures Chain(aes, x, block + blocks) == Chain(aes, aes(Xor(x, block)), blocks)
  {
    assert (block + blocks)[..16] == block && (block + blocks)[16..] == blocks;
  }

  lemma FoldMasked(x: Block, m: Block, k: Block)
    ensures Xor(Xor(m, k), x) == Xor(Xor(x, m), k)
  {
    AddedWhole(x, m, k);
  }

  /** A whole block in front of a partial one is encrypted and added to the padded and masked block. */
  lemma PartialBlockBehind(aes: Cipher, block: Block, last: seq<bv8>, padded: Block)
    requires 0 < |last| < 16 && IsPadding(last, padded)
    ensures Mac(aes, block + last) == aes(Xor(Xor(aes(block), padded), Subkey2(aes)))
  {
    PaddingUnique(last, padded);
    hide Xor, Subkey1, Subkey2, Padded, IsPadding;
    var m := block + last;
    assert m[..16] == block && m[16..] == last && block + [] == block;
    XorZero(block);
    ChainFront(aes, Zero, block, []);
    assert Chain(aes, aes(block), []) == aes(block);
    hide Chain;
    assert Heads(|m|) == 1;
    FoldMasked(aes(block), padded, Subkey2(aes));
  }

  // ----- the loops of `cmac.c`

  lemma {:induction false} ChainAppend(aes: Cipher, x: Block, blocks: seq<bv8>, block: Block)
    requires |blocks| % 16 == 0
    ensures Chain(aes, x, blocks + block) == aes(Xor(Chain(aes, x, blocks), block))
    decreases |blocks|
  {
    if blocks == [] {
      assert blocks + block == block;
      assert block[..16] == block && block[16..] == [];
    } else {
      assert (blocks + block)[..16] == blocks[..16];
      assert (blocks + block)[16..] == blocks[16..] + block;
      ChainAppend(aes, aes(Xor(x, blocks[..16])), blocks[16..], block);
    }
  }

  /** The accumulator with a piece of the message added at its front. */
  ghost function Added(x: Block, piece: seq<bv8>): Block
    requires |piece| <= 16
  {
    seq(16, i requires 0 <= i < 16 => if i < |piece| then Plus(x[i], piece[i]) else x[i])
  }

  lemma XorByte(x: bv8, m: bv8, k: bv8)
    ensures Plus(Plus(x, m), k) == Plus(Plus(m, k), x)
    ensures Plus(x, 0) == x
  {
  }

  lemma AddedWhole(x: Block, m: Block, k: Block)
    ensures Added(x, m) == Xor(x, m)
    ensures Xor(Added(x, m), k) == Xor(Xor(m, k), x)
  {
    hide Plus;
    forall i | 0 <= i < 16
      ensures Xor(Added(x, m), k)[i] == Xor(Xor(m, k), x)[i]
    {
      XorByte(x[i], m[i], k[i]);
    }
  }

  lemma AddedPart(x: Block, m: seq<bv8>, k: Block)
    requires |m| < 16
    ensures var y := Added(x, m);
            Xor(y[|m| := Plus(y[|m|], 0x80)], k) == Xor(Xor(Padded(m), k), x)
  {
    hide Plus;
    var y := Added(x, m);
    forall i | 0 <= i < 16
      ensures Xor(y[|m| := Plus(y[|m|], 0x80)], k)[i] == Xor(Xor(Padded(m), k), x)[i]
    {
      XorByte(x[i], Padded(m)[i], k[i]);
    }
  }

  /** One byte of the shift: the sixteen-bit accumulator carries the top bit of the byte below. */
  lemma ShiftStep(carry: bv16, below: bv8, b: bv8)
    requires carry == (below >> 7) as bv16
    ensures var accu := carry | ((b as bv16) << 1);
            && (accu & 0xff) as bv8 == ShiftedByte(b, below)
            && accu >> 8 == (b >> 7) as bv16
  {
  }

  /** `_ls1`. */
  method LeftShift(input: array<bv8>, output: array<bv8>)
    requires input.Length == 16 == output.Length && input != output
    modifies output
    ensures output[..] == Doubled(input[..])
  {
    hide ShiftedByte;
    var accu: bv16 := 0;
    var i := 15;
    ghost var below: bv8 := 0;
    while i >= 0
      invariant -1 <= i <= 15
      invariant below == (if i < 15 then input[i + 1] else 0)
      invariant accu == (below >> 7) as bv16
      invariant forall k :: i < k < 16 ==> output[k] == Shifted(input[..])[k]
    {
      ShiftStep(accu, below, input[i]);
      accu := accu | ((input[i] as bv16) << 1);
      output[i] := (accu & 0xff) as bv8;
      accu := accu >> 8;
      below := input[i];
      i := i - 1;
    }
    assert output[..] == Shifted(input[..]);
    TopBit(input[0]);
    if accu != 0 {
      output[15] := output[15] ^ 0x87;
    }
  }

  lemma TopBit(b: bv8)
    ensures Bit(b, 7) <==> (b >> 7) as bv16 != 0
  {
  }

  /** `_xor`. */
  method XorInto(inout: array<bv8>, input: array<bv8>)
    requires inout.Length == 16 == input.Length && inout != input
    modifies inout
    ensures inout[..] == Xor(old(inout[..]), input[..])
  {
    hide Plus;
    for i := 0 to 16
      invariant forall k :: 0 <= k < i ==> inout[k] == Plus(old(inout[k]), input[k])
      invariant forall k :: i <= k < 16 ==> inout[k] == old(inout[k])
    {
      inout[i] := Plus(inout[i], input[i]);
    }
  }

  /** Calls of the block function for n bytes of data: one for the subkeys, one for each block. */
  function Calls(n: nat): (calls: nat)
    ensures n == 0 ==> calls == 1
    ensures n > 0 ==> 16 * (calls - 2) < n <= 16 * (calls - 1)
  {
    if n == 0 then 1 else Heads(n) + 2
  }

  /** What `fips_cmac_generate` leaves in the accumulator. */
  ghost function Computed(aes: Cipher, data: seq<bv8>): Block
  {
    if data == [] then Zero else Mac(aes, data)
  }

  /**
   The accumulator when i bytes, in whole blocks, lie behind: the chain over them, until the last
   block has been processed.
   */
  ghost predicate Progress(aes: Cipher, data: seq<bv8>, i: nat, accu: Block)
  {
    && i % 16 == 0
    && (i < |data| ==> accu == Chain(aes, Zero, data[..i]))
    && (i >= |data| ==> accu == Computed(aes, data) && (data != [] ==> i == 16 * (Heads(|data|) + 1)))
  }

  /** What the body of the chunk loop adds up before it calls the block function. */
  ghost function Chunk(aes: Cipher, data: seq<bv8>, i: nat, x: Block): Block
    requires i < |data|
  {
    var piece := data[i..if i + 16 < |data| then i + 16 else |data|];
    var y := Added(x, piece);
    if |piece| != 16 then Xor(y[|piece| := Plus(y[|piece|], 0x80)], Subkey2(aes))
    else if i + 16 == |data| then Xor(y, Subkey1(aes))
    else y
  }

  lemma ProgressStart(aes: Cipher, data: seq<bv8>)
    ensures Progress(aes, data, 0, Zero)
  {
    assert data[..0] == [];
    assert Chain(aes, Zero, []) == Zero;
    assert |data| == 0 ==> data == [];
  }

  lemma ProgressEnd(aes: Cipher, data: seq<bv8>, i: nat, accu: Block)
    requires Progress(aes, data, i, accu) && i >= |data|
    ensures accu == Computed(aes, data)
  {
  }

  lemma ChunkStep(aes: Cipher, data: seq<bv8>, i: nat, x: Block)
    requires i < |data| && Progress(aes, data, i, x)
    ensures Progress(aes, data, i + 16, aes(Chunk(aes, data, i, x)))
  {
    hide Plus, Xor, Added, Padded, Subkey1, Subkey2, Chain;
    if i + 16 < |data| {
      var m := data[i..i + 16];
      AddedWhole(x, m, Zero);
      ChainAppend(aes, Zero, data[..i], m);
      assert data[..i] + m == data[..i + 16];
    } else {
      assert i == 16 * Heads(|data|);
      var m := data[i..];
      assert data[i..|data|] == m;
      if |m| == 16 {
        AddedWhole(x, m, Subkey1(aes));
      } else {
        AddedPart(x, m, Subkey2(aes));
      }
    }
  }

  /**
   `fips_cmac_generate`: succeeds exactly when no call of the cipher fails, and then the tag is the
   code of RFC 4493 for every message that is not empty. On failure the caller's tag is untouched.
   */
  method Generate(aes: Cipher, initOk: bool, blockOk: nat -> bool, data: seq<bv8>, tag: array<bv8>)
    returns (ok: bool)
    requires tag.Length == 16
    modifies tag
    ensures ok <==> initOk && forall c :: 0 <= c < Calls(|data|) ==> blockOk(c)
    ensures tag[..] == if ok then Computed(aes, data) else old(tag[..])
  {
    hide Plus, Xor, Added, Padded, Chain, Doubled, Mac, Computed, Progress, Chunk, Calls, Subkey1, Subkey2;
    if !initOk {
      return false;
    }
    if !blockOk(0) {
      return false;
    }
    var K1, K2 := Subkeys(aes);
    var accu := ZeroBlock();
    var i, calls := 0, 1;
    ProgressStart(aes, data);
    while i < |data|
      invariant fresh(accu) && fresh(K1) && fresh(K2) && accu != K1 && accu != K2
      invariant accu.Length == K1.Length == K2.Length == 16
      invariant K1[..] == Subkey1(aes) && K2[..] == Subkey2(aes)
      invariant tag[..] == old(tag[..])
      invariant Progress(aes, data, i, accu[..])
      invariant i == 16 * (calls - 1)
      invariant forall c :: 0 <= c < calls ==> blockOk(c)
    {
      ghost var x := accu[..];
      AddChunk(aes, data, i, accu, K1, K2);
      if !blockOk(calls) {
        return false;
      }
      Encrypt(aes, accu);
      ChunkStep(aes, data, i, x);
      calls := calls + 1;
      i := i + 16;
    }
    ProgressEnd(aes, data, i, accu[..]);
    CopyBlock(tag, accu);
    ok := true;
  }

  /** The two subkeys, from the encryption of the zero block. */
  method Subkeys(aes: Cipher) returns (K1: array<bv8>, K2: array<bv8>)
    ensures fresh(K1) && fresh(K2) && K1.Length == 16 == K2.Length
    ensures K1[..] == Subkey1(aes) && K2[..] == Subkey2(aes)
  {
    hide Doubled;
    var accu := ZeroBlock();
    Encrypt(aes, accu);
    K1 := ZeroBlock();
    LeftShift(accu, K1);
    K2 := ZeroBlock();
    LeftShift(K1, K2);
  }

  method ZeroBlock() returns (block: array<bv8>)
    ensures fresh(block) && block.Length == 16 && block[..] == Zero
  {
    block := new bv8[16](_ => 0);
  }

  method CopyBlock(target: array<bv8>, from: array<bv8>)
    requires target.Length == 16 == from.Length
    modifies target
    ensures target[..] == old(from[..])
  {
    forall k | 0 <= k < 16 { target[k] := from[k]; }
  }

  /** The block function, in place. */
  method Encrypt(aes: Cipher, block: array<bv8>)
    requires block.Length == 16
    modifies block
    ensures block[..] == aes(old(block[..]))
  {
    var out := aes(block[..]);
    forall k | 0 <= k < 16 { block[k] := out[k]; }
  }

  /** The body of the chunk loop up to the call of the block function. */
  method AddChunk(ghost aes: Cipher, data: seq<bv8>, i: nat, accu: array<bv8>, K1: array<bv8>, K2: array<bv8>)
    requires i < |data|
    requires accu.Length == K1.Length == K2.Length == 16 && accu != K1 && accu != K2
    requires K1[..] == Subkey1(aes) && K2[..] == Subkey2(aes)
    modifies accu
    ensures accu[..] == Chunk(aes, data, i, old(accu[..]))
  {
    hide Plus, Xor, Subkey1, Subkey2;
    ghost var x := accu[..];
    var j := 0;
    while j < 16 && i + j < |data|
      invariant 0 <= j <= 16 && i + j <= |data|
      invariant accu[..] == Added(x, data[i..i + j])
    {
      accu[j] := Plus(accu[j], data[i + j]);
      j := j + 1;
    }
    if j != 16 {
      accu[j] := Plus(accu[j], 0x80);
      XorInto(accu, K2);
    } else {
      if i + j == |data| {
        XorInto(accu, K1);
      }
    }
  }

  /** On the empty message the chunk loop does not run: the tag is zero under every key. */
  lemma EmptyMessage(aes: Cipher)
    ensures Computed(aes, []) == Mac(aes, []) <==> aes(Xor(Padded([]), Subkey2(aes))) == Zero
  {
    assert Mac(aes, []) == aes(Xor(LastBlock(aes, []), Zero));
    var last := LastBlock(aes, []);
    forall i | 0 <= i < 16
      ensures Xor(last, Zero)[i] == last[i]
    {
      XorByte(last[i], 0, 0);
    }
    assert Xor(last, Zero) == last;
  }

  lemma DoubledZero()
    ensures Doubled(Zero) == Zero
  {
    assert ShiftedByte(0, 0) == 0 && !Bit(0, 7);
    hide ShiftedByte, Bit;
    forall i | 0 <= i < 16
      ensures Shifted(Zero)[i] == Zero[i]
    {
      assert Zero[i] == 0 && (i < 15 ==> Zero[i + 1] == 0);
    }
  }

  lemma PadRemains()
    ensures Xor(Padded([]), Zero) != Zero
  {
    assert Plus(0x80, 0) != 0;
    hide Plus;
    assert Xor(Padded([]), Zero)[0] == Plus(0x80, 0);
    assert Zero[0] == 0;
  }

  /** With the identity as the cipher the empty message gets a tag that is not the code's. */
  lemma EmptyMessageDiffers()
    ensures exists aes: Cipher :: Computed(aes, []) != Mac(aes, [])
  {
    var aes: Cipher := (b: Block) => b;
    EmptyMessage(aes);
    DoubledZero();
    PadRemains();
    hide Doubled, Xor, Padded, Mac, Computed;
    assert Subkey2(aes) == Zero;
    assert Computed(aes, []) != Mac(aes, []);
  }

  /**
   `fips_cmac_verify`: compares as many bytes as the caller gives, so a shorter code is accepted when
   it is a prefix of the tag, and a longer one is compared with what lies behind the tag on the stack.
   */
  method Verify(aes: Cipher, initOk: bool, blockOk: nat -> bool, data: seq<bv8>, mac: seq<bv8>, beyond: seq<bv8>)
    returns (ok: bool)
    requires |mac| <= 16 + |beyond|
    ensures ok <==>
              && initOk && (forall c :: 0 <= c < Calls(|data|) ==> blockOk(c))
              && mac == (Computed(aes, data) + beyond)[..|mac|]
  {
    var tag := ZeroBlock();
    var generated := Generate(aes, initOk, blockOk, data, tag);
    if !generated {
      return false;
    }
    hide Computed;
    ok := SamePrefix(tag[..] + beyond, mac);
  }

  /** The comparison in fixed time: differences are gathered over all bytes of the code. */
  method SamePrefix(tag: seq<bv8>, mac: seq<bv8>) returns (same: bool)
    requires |mac| <= |tag|
    ensures same <==> mac == tag[..|mac|]
  {
    hide Gathered;
    var differences: bv8 := 0;
    for i := 0 to |mac|
      invariant differences == 0 <==> forall k :: 0 <= k < i ==> tag[k] == mac[k]
    {
      differences := Gathered(differences, tag[i], mac[i]);
    }
    same := differences == 0;
  }

  function Gathered(d: bv8, a: bv8, b: bv8): (r: bv8)
    ensures r == 0 <==> d == 0 && a == b
  {
    d | (a ^ b)
  }
}
