/**
 Semantics of the accelerator instructions used by the P-256 firmware. The instruction set is not
 documented in the repository; these definitions are the stated reading of each mnemonic.
 Registers hold naturals below 2^256. Flags are the carry (or borrow) and the most and least
 significant bit of the last flag-setting result.
 */
module Accelerator {
  import opened Modular

  const B128: nat := 0x1_00000000_00000000_00000000_00000000
  const HALF: nat := 0x80000000_00000000_00000000_00000000_00000000_00000000_00000000_00000000
  const W: nat := 0x1_00000000_00000000_00000000_00000000_00000000_00000000_00000000_00000000

  /** A 256-bit register value. */
  type Word = x: nat | x < W

  /** A 128-bit half register. */
  type Half = x: nat | x < B128

  function Lo(x: Word): (r: Half) { x % B128 }
  function Hi(x: Word): (r: Half) { x / B128 }

  /** `mul128`: the exact product of two half registers. */
  function Mul128(x: Half, y: Half): (r: Word)
    ensures r == Times(x, y) <= (B128 - 1) * (B128 - 1)
  {
    TimesBound(x, y, B128);
    TimesIs(x, y);
    x * y
  }

  /** `add` and `addc`: sum modulo 2^256 and the carry out. */
  function Add(x: Word, y: Word, carry: bool): (r: (Word, bool))
    ensures r.0 + (if r.1 then W else 0) == x + y + (if carry then 1 else 0)
  {
    var s := x + y + if carry then 1 else 0;
    if s >= W then (s - W, true) else (s, false)
  }

  /** `sub`, `subb` and `cmp`: difference modulo 2^256 and the borrow out. */
  function Sub(x: Word, y: Word, borrow: bool): (r: (Word, bool))
    ensures r.0 == x - y - (if borrow then 1 else 0) + (if r.1 then W else 0)
  {
    var d := x - y - if borrow then 1 else 0;
    if d < 0 then (d + W, true) else (d, false)
  }

  /** `addm`: add, then one conditional correction by the loaded modulus; 2^256 is dropped. */
  function AddM(x: Word, y: Word, m: Word): (r: Word)
    ensures x + y < 2 * m ==> r < m
    ensures x + y < W + m ==> r == if x + y >= m then x + y - m else x + y
  {
    var s := if x + y >= m then x + y - m else x + y;
    if s >= W then s - W else s
  }

  /** `subm`: subtract, then one conditional correction by the loaded modulus; a remaining borrow is dropped. */
  function SubM(x: Word, y: Word, m: Word): (r: Word)
    ensures x < m && y < m ==> r < m
    ensures y <= x + m ==> r == if x < y then x - y + m else x - y
  {
    var d := if x < y then x - y + m else x - y;
    if d < 0 then d + W else d
  }

  /** `rshi` by 255: the number hi:lo shifted right, truncated to a register. */
  function Rshi255(lo: Word, hi: Word): (r: Word) { ((hi * W + lo) / HALF) % W }

  /** `rshi` by 1. */
  function Rshi1(lo: Word, hi: Word): (r: Word)
    ensures hi <= 1 ==> 2 * r <= hi * W + lo <= 2 * r + 1
  {
    ((hi * W + lo) / 2) % W
  }

  /** A register as sixteen half-words, least significant first: the view that `movi` works on. */
  type Halves = h: seq<nat> | |h| == 16 && forall i | 0 <= i < 16 :: h[i] < 0x10000
    witness [0, 0, 0, 0, 0, 0, 0, 0, 0, 0, 0, 0, 0, 0, 0, 0]

  /** `subi rX, r31, #1`: all bits set. */
  function AllOnes(): (h: Halves)
  {
    [0xffff, 0xffff, 0xffff, 0xffff, 0xffff, 0xffff, 0xffff, 0xffff,
     0xffff, 0xffff, 0xffff, 0xffff, 0xffff, 0xffff, 0xffff, 0xffff]
  }

  function Value(h: Halves): (r: Word)
  {
    h[0] + h[1] * 0x1_0000 +
    h[2] * 0x1_0000_0000 + h[3] * 0x1_0000_0000_0000 +
    h[4] * 0x1_0000_0000_0000_0000 + h[5] * 0x1_0000_0000_0000_0000_0000 +
    h[6] * 0x1_0000_0000_0000_0000_0000_0000 + h[7] * 0x1_0000_0000_0000_0000_0000_0000_0000 +
    h[8] * 0x1_0000_0000_0000_0000_0000_0000_0000_0000 + h[9] * 0x1_0000_0000_0000_0000_0000_0000_0000_0000_0000 +
    h[10] * 0x1_0000_0000_0000_0000_0000_0000_0000_0000_0000_0000 + h[11] * 0x1_0000_0000_0000_0000_0000_0000_0000_0000_0000_0000_0000 +
    h[12] * 0x1_0000_0000_0000_0000_0000_0000_0000_0000_0000_0000_0000_0000 + h[13] * 0x1_0000_0000_0000_0000_0000_0000_0000_0000_0000_0000_0000_0000_0000 +
    h[14] * 0x1_0000_0000_0000_0000_0000_0000_0000_0000_0000_0000_0000_0000_0000_0000 + h[15] * 0x1_0000_0000_0000_0000_0000_0000_0000_0000_0000_0000_0000_0000_0000_0000_0000
  }
}
