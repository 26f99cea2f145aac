/**
 The ASN.1 writer of the firmware: a buffer with a moving end, elements written in place, and
 sequences closed in place by moving their contents down to the header.
 */
module Asn1 {
  import opened Modular
  import opened P256Int
  import opened Der

  const SEQ_SMALL: nat := 2

  class Writer {
    const p: array<Byte>
    var n: nat

    ghost predicate Valid()
      reads this
    {
      n <= p.Length
    }

    constructor (p: array<Byte>)
      ensures this.p == p && n == 0 && Valid()
    {
      this.p, n := p, 0;
    }

    /** `*p++ = b`. */
    method Put(b: Byte)
      requires n < p.Length
      modifies this, p
      ensures n == old(n) + 1 && p[..n] == old(p[..n]) + [b]
    {
      p[n] := b;
      n := n + 1;
    }

    method PutAll(s: seq<Byte>)
      requires n + |s| <= p.Length
      modifies this, p
      ensures n == old(n) + |s| && p[..n] == old(p[..n]) + s
    {
      for i := 0 to |s|
        invariant n == old(n) + i && n <= p.Length && p[..n] == old(p[..n]) + s[..i]
      {
        Put(s[i]);
        assert s[..i + 1] == s[..i] + [s[i]];
      }
    }

    /** `asn1_p256_int`; `beyond` is the byte that lies behind the local array on the stack. */
    method P256Integer(src: seq<Digit>, beyond: Byte)
      requires Valid() && |src| == NDIGITS && n + 35 <= p.Length
      modifies this, p
      ensures Valid() && n <= old(n) + 35
      ensures p[..n] == old(p[..n]) + StackInt(Value(src), beyond)
    {
      hide Low, Weight, StackInt;
      var bn := new Byte[NBYTES](_ => 0);
      ToBin(src, bn);
      var i := LeadingZeros(bn);
      Stripped(bn[..], i, beyond);
      PutStripped(bn[..], i, beyond);
    }

    /** The tag, the length, a zero where the top bit is set, and the bytes from the first that is not zero on. */
    method PutStripped(bn: seq<Byte>, i: nat, beyond: Byte)
      requires Valid() && |bn| == NBYTES && i <= NBYTES && n + 35 <= p.Length
      modifies this, p
      ensures Valid() && n <= old(n) + 35 && p[..n] == old(p[..n]) + (IntHeader(bn, i, beyond) + bn[i..])
    {
      var top := if i < NBYTES then bn[i] else beyond;
      Put(T_INT);
      if top >= 128 {                                   // bn[i] & 0x80
        Put(NBYTES - i + 1);
        Put(0);
      } else {
        Put(NBYTES - i);
      }
      PutAll(bn[i..]);
    }

    method LeadingZeros(bn: array<Byte>) returns (i: nat)
      requires bn.Length == NBYTES
      ensures i <= NBYTES && (forall j | 0 <= j < i :: bn[j] == 0) && (i < NBYTES ==> bn[i] > 0)
    {
      i := 0;
      while i < NBYTES && bn[i] == 0
        invariant i <= NBYTES && forall j | 0 <= j < i :: bn[j] == 0
      {
        i := i + 1;
      }
    }

    /** `asn1_int`: a 32-bit number; clz decides how many bytes it takes. */
    method Integer(val: nat)
      requires Valid() && val < 0x1_0000_0000 && n + 7 <= p.Length
      modifies this, p
      ensures Valid() && p[..n] == old(p[..n]) + IntBytes(val)
    {
      hide IntBytes, BitLength;
      Put(T_INT);
      if val == 0 {
        Put(1);
        Put(0);
        ZeroInt();
      } else {
        PositiveInt(val);
        PutPositive(val, BitLength(val));
      }
    }

    method PutPositive(val: nat, nbits: nat)
      requires Valid() && 0 < val < 0x1_0000_0000 && nbits == BitLength(val) && n + 6 <= p.Length
      modifies this, p
      ensures Valid() && p[..n] == old(p[..n]) + (LengthOctets(nbits) + Base256(val))
    {
      hide Base256, BitLength;
      var nbytes := (nbits + 7) / 8;
      ByteLength(val);
      AtMostFour(val);
      if nbits % 8 == 0 {
        Put(nbytes + 1);
        Put(0);
      } else {
        Put(nbytes);
      }
      PutBytes(val, nbytes);
    }

    /** The bytes of a number, the most significant one first. */
    method PutBytes(val: nat, count: nat)
      requires Valid() && 0 < val < 0x1_0000_0000 && count == |Base256(val)| <= 4 && n + count <= p.Length
      modifies this, p
      ensures Valid() && n == old(n) + count && p[..n] == old(p[..n]) + Base256(val)
    {
      hide Base256, ByteOf;
      ghost var b := Base256(val);
      var nbytes := count;
      while nbytes > 0
        invariant 0 <= nbytes <= |b| && n == old(n) + |b| - nbytes
        invariant n + nbytes <= p.Length && p[..n] == old(p[..n]) + b[..|b| - nbytes]
      {
        nbytes := nbytes - 1;
        ByteAt(val, nbytes);
        ghost var x := |b| - 1 - nbytes;
        Put(ByteOf(val, nbytes));
        assert b[..x + 1] == b[..x] + [b[x]];
      }
      assert b[..|b|] == b;
    }

    /** `asn1_seq`: close a sequence at `at` whose contents were written behind l reserved bytes. */
    method Seq(at: nat, tag: Byte, l: nat, size: nat) returns (total: nat)
      requires at + l + size <= p.Length && at + 1 + |LenBytes(size)| + size <= p.Length
      modifies p
      ensures var h := 1 + |LenBytes(size)|;
              && total == h + size
              && p[at..at + h] == [tag] + LenBytes(size)
              && p[at + h..at + h + size] == (if h <= l then old(p[at + l..at + l + size]) else old(p[at + h..at + h + size]))
              && p[..at] == old(p[..at])
    {
      hide LenBytes;
      var h := 1 + |LenBytes(size)|;
      PutHeader(at, [tag] + LenBytes(size));
      assert p[at + h..] == old(p[at + h..]);
      if h < l {
        assert p[at + l..at + l + size] == old(p[at + l..at + l + size]);
        MoveDown(at + h, at + l, size, at);
      } else {
        assert p[at + h..at + h + size] == old(p[at + h..])[..size];
      }
      total := h + size;
    }

    method PutHeader(at: nat, header: seq<Byte>)
      requires at + |header| <= p.Length
      modifies p
      ensures p[..at] == old(p[..at]) && p[at..at + |header|] == header
      ensures forall i :: at + |header| <= i < p.Length ==> p[i] == old(p[i])
    {
      forall i | 0 <= i < |header| { p[at + i] := header[i]; }
    }

    /** memmove towards lower addresses. */
    method MoveDown(to: nat, from: nat, size: nat, ghost at: nat)
      requires at <= to < from && from + size <= p.Length
      modifies p
      ensures p[..at] == old(p[..at]) && p[at..to] == old(p[at..to])
      ensures p[to..to + size] == old(p[from..from + size])
    {
      ghost var body := p[from..from + size];
      for i := 0 to size
        invariant forall k :: 0 <= k < to ==> p[k] == old(p[k])
        invariant forall k :: to <= k < to + i ==> p[k] == body[k - to]
        invariant forall k :: from + i <= k < from + size ==> p[k] == body[k - from]
      {
        p[to + i] := p[from + i];
      }
    }

    /** SEQ_END for a sequence opened at `at`: what was written behind the reserved header becomes its contents. */
    method CloseSeq(at: nat, tag: Byte, l: nat)
      requires Valid() && at + l <= n && n - at - l < 0x10000
      requires 1 + |LenBytes(n - at - l)| <= l
      modifies this, p
      ensures Valid() && n <= old(n) && p[..n] == old(p[..at]) + Tlv(tag, old(p[at + l..n]))
    {
      var size := n - at - l;
      ghost var front, body := p[..at], p[at + l..n];
      assert Tlv(tag, body) == [tag] + LenBytes(size) + body;
      hide LenBytes, Tlv;
      ghost var h := 1 + |LenBytes(size)|;
      var total := Seq(at, tag, l, size);
      n := at + total;
      Join(p[..], at, at + h, n, front, [tag] + LenBytes(size), body);
    }

    /** `asn1_sig`; the bytes behind the local array may differ between the two calls. */
    method Signature(r: seq<Digit>, s: seq<Digit>, beyondR: Byte, beyondS: Byte)
      requires Valid() && |r| == NDIGITS && |s| == NDIGITS && n + 72 <= p.Length
      modifies this, p
      ensures Valid() && p[..n] == old(p[..n]) + SigWritten(Value(r), Value(s), beyondR, beyondS)
    {
      hide Low, Weight, StackInt;
      var at := n;
      n := n + SEQ_SMALL;
      ghost var open := p[..n];
      P256Integer(r, beyondR);
      P256Integer(s, beyondS);
      ghost var body := StackInt(Value(r), beyondR) + StackInt(Value(s), beyondS);
      assert p[..n] == open + body;
      assert p[at + SEQ_SMALL..n] == body;
      assert p[..at] == p[..n][..at] == open[..at];
      CloseSeq(at, T_SEQ, SEQ_SMALL);
    }
  }

  /** An INTEGER as `asn1_p256_int` writes it: zero has no byte of its own unless the stray one is negative. */
  function StackInt(v: nat, beyond: Byte): (s: seq<Byte>)
  {
    if v > 0 || beyond >= 128 then IntBytes(v) else [T_INT, 0]
  }

  function SigWritten(r: nat, s: nat, beyondR: Byte, beyondS: Byte): (b: seq<Byte>)
  {
    Tlv(T_SEQ, StackInt(r, beyondR) + StackInt(s, beyondS))
  }

  function IntHeader(bn: seq<Byte>, i: nat, beyond: Byte): (s: seq<Byte>)
    requires |bn| == NBYTES && i <= NBYTES
  {
    if (if i < NBYTES then bn[i] else beyond) >= 128 then [T_INT, NBYTES - i + 1, 0] else [T_INT, NBYTES - i]
  }

  lemma Stripped(bn: seq<Byte>, i: nat, beyond: Byte)
    requires |bn| == NBYTES && i <= NBYTES && (forall j | 0 <= j < i :: bn[j] == 0) && (i < NBYTES ==> bn[i] > 0)
    ensures IntHeader(bn, i, beyond) + bn[i..] == StackInt(Bytes(bn), beyond)
  {
    Significant(bn, i);
    hide Base256, IntBytes, BigEndian;
    if i < NBYTES {
      IntBodyIs(bn[i..], Bytes(bn));
    } else {
      ZeroInt();
      assert bn[i..] == [];
    }
  }

  lemma Join(s: seq<Byte>, i: nat, j: nat, n: nat, a: seq<Byte>, b: seq<Byte>, c: seq<Byte>)
    requires i <= j <= n <= |s| && s[..i] == a && s[i..j] == b && s[j..n] == c
    ensures s[..n] == a + (b + c)
  {
  }

  /** Leading zero bytes do not count. */
  lemma {:induction false} SkipZeros(s: seq<Byte>, i: nat, n: nat)
    requires i <= n <= |s| && forall j | 0 <= j < i :: s[j] == 0
    ensures BigEndian(s, n) == BigEndian(s[i..], n - i)
  {
    if n > i {
      SkipZeros(s, i, n - 1);
    } else if n > 0 {
      SkipZeros(s, i - 1, n - 1);
      assert BigEndian(s, n) == 256 * BigEndian(s, n - 1) + s[n - 1];
      AllZeros(s, n);
    }
  }

  lemma {:induction false} AllZeros(s: seq<Byte>, n: nat)
    requires n <= |s| && forall j | 0 <= j < n :: s[j] == 0
    ensures BigEndian(s, n) == 0
  {
    if n > 0 {
      AllZeros(s, n - 1);
    }
  }

  /** Stripping the leading zeros leaves the representation of the number. */
  lemma Significant(s: seq<Byte>, i: nat)
    requires |s| == NBYTES && i <= NBYTES && (forall j | 0 <= j < i :: s[j] == 0) && (i < NBYTES ==> s[i] > 0)
    ensures Bytes(s) == 0 <==> i == NBYTES
    ensures i < NBYTES ==> Base256(Bytes(s)) == s[i..]
  {
    if i == NBYTES {
      AllZeros(s, NBYTES);
    } else {
      SkipZeros(s, i, NBYTES);
      NonZero(s[i..]);
      Base256Unique(s[i..]);
    }
  }

  lemma IntBodyIs(s: seq<Byte>, v: nat)
    requires Base256(v) == s && |s| <= 32
    ensures IntBytes(v) == if s[0] >= 128 then [T_INT, |s| + 1, 0] + s else [T_INT, |s|] + s
  {
  }

  /** 32 - clz: how many bits a number takes. */
  function BitLength(v: nat): (b: nat)
    requires v > 0
    ensures b > 0 && Pow2(b - 1) <= v < Pow2(b)
  {
    if v == 1 then 1 else 1 + BitLength(v / 2)
  }

  lemma {:induction false} Pow2Monotone(j: nat, k: nat)
    requires j <= k
    ensures Pow2(j) <= Pow2(k)
  {
    if j < k {
      Pow2Monotone(j, k - 1);
    }
  }

  lemma BitRange(v: nat, k: nat)
    requires v > 0
    ensures v < Pow2(k) <==> BitLength(v) <= k
  {
    var b := BitLength(v);
    hide BitLength;
    if b <= k {
      Pow2Monotone(b, k);
    } else {
      Pow2Monotone(k, b - 1);
    }
  }

  lemma BitLengthHalf(v: nat)
    requires v > 1
    ensures BitLength(v) == 1 + BitLength(v / 2)
  {
  }

  /** Dropping a byte drops eight bits. */
  lemma BitLengthByte(v: nat)
    requires v >= 256
    ensures BitLength(v) == 8 + BitLength(v / 256)
  {
    hide BitLength;
    var v1, v2, v3, v4 := v / 2, v / 4, v / 8, v / 16;
    BitLengthHalf(v);
    BitLengthHalf(v1);
    assert v1 / 2 == v2;
    BitLengthHalf(v2);
    assert v2 / 2 == v3;
    BitLengthHalf(v3);
    assert v3 / 2 == v4;
    BitLengthHalf(v4);
    assert v4 / 2 == v / 32;
    BitLengthHalf(v / 32);
    assert v / 32 / 2 == v / 64;
    BitLengthHalf(v / 64);
    assert v / 64 / 2 == v / 128;
    BitLengthHalf(v / 128);
    assert v / 128 / 2 == v / 256;
  }

  /** The byte count computed from the bit count, and when a leading zero is needed. */
  lemma {:induction false} ByteLength(v: nat)
    requires v > 0
    ensures |Base256(v)| == (BitLength(v) + 7) / 8
    ensures Base256(v)[0] >= 128 <==> BitLength(v) % 8 == 0
  {
    hide BitLength;
    if v < 256 {
      assert Pow2(4) == 16;
      assert Pow2(7) == 0x80 && Pow2(8) == 0x100;
      hide Pow2;
      BitRange(v, 7);
      BitRange(v, 8);
    } else {
      BitLengthByte(v);
      ByteLength(v / 256);
    }
  }

  /** The length of the contents, and the leading zero where the top bit is set. */
  function LengthOctets(nbits: nat): (s: seq<int>)
  {
    if nbits % 8 == 0 then [(nbits + 7) / 8 + 1, 0] else [(nbits + 7) / 8]
  }

  lemma PositiveInt(val: nat)
    requires 0 < val < 0x1_0000_0000
    ensures IntBytes(val) == [T_INT] + (LengthOctets(BitLength(val)) + Base256(val))
  {
    hide IntBytes, BitLength, Base256;
    ByteLength(val);
    AtMostFour(val);
    IntBodyIs(Base256(val), val);
  }

  lemma AtMostFour(v: nat)
    requires v < 0x1_0000_0000
    ensures |Base256(v)| <= 4
  {
    SmallBase(v);
  }

  lemma ZeroInt()
    ensures IntBytes(0) == [T_INT, 1, 0]
  {
    assert Base256(0) == [0];
  }

  lemma ByteAt(v: nat, k: nat)
    requires v < 0x1_0000_0000 && k < |Base256(v)| <= 4
    ensures Base256(v)[|Base256(v)| - 1 - k] == ByteOf(v, k)
  {
    SmallBase(v);
  }

  /** `val >> (k * 8)`, truncated to a byte. */
  function ByteOf(v: nat, k: nat): (b: Byte)
    requires k < 4
  {
    (if k == 0 then v else if k == 1 then v / 0x100 else if k == 2 then v / 0x10000 else v / 0x1000000) % 256
  }

  lemma BaseStep(v: nat)
    ensures Base256(v) == if v < 256 then [v] else Base256(v / 256) + [v % 256]
  {
  }

  /** The bytes of a number below 2^32. */
  lemma SmallBase(v: nat)
    requires v < 0x1_0000_0000
    ensures v < 0x100 ==> Base256(v) == [ByteOf(v, 0)]
    ensures 0x100 <= v < 0x10000 ==> Base256(v) == [ByteOf(v, 1), ByteOf(v, 0)]
    ensures 0x10000 <= v < 0x1000000 ==> Base256(v) == [ByteOf(v, 2), ByteOf(v, 1), ByteOf(v, 0)]
    ensures 0x1000000 <= v ==> Base256(v) == [ByteOf(v, 3), ByteOf(v, 2), ByteOf(v, 1), ByteOf(v, 0)]
  {
    var v1, v2, v3 := v / 256, v / 256 / 256, v / 256 / 256 / 256;
    assert v / 0x10000 == v2 && v / 0x1000000 == v3 && v3 < 256;
    BaseStep(v);
    BaseStep(v1);
    BaseStep(v2);
    BaseStep(v3);
    hide Base256;
  }

  /**
   `asn1_sigp`: at most 72 bytes, and they parse back to r and s exactly when neither of these is written
   without contents.
   */
  method SigP(buf: array<Byte>, r: seq<Digit>, s: seq<Digit>, beyondR: Byte, beyondS: Byte) returns (n: nat)
    requires |r| == NDIGITS && |s| == NDIGITS && buf.Length >= 72
    modifies buf
    ensures n <= 72 && buf[..n] == SigWritten(Value(r), Value(s), beyondR, beyondS)
    ensures ParseSig(buf[..n]) == if (Value(r) > 0 || beyondR >= 128) && (Value(s) > 0 || beyondS >= 128)
                                  then Some((Value(r), Value(s))) else None
  {
    hide Low, Weight, SigWritten, ParseSig;
    var w := new Writer(buf);
    w.Signature(r, s, beyondR, beyondS);
    n := w.n;
    SigFacts(r, s, beyondR, beyondS);
  }

  lemma SigFacts(r: seq<Digit>, s: seq<Digit>, beyondR: Byte, beyondS: Byte)
    requires |r| == NDIGITS && |s| == NDIGITS
    ensures |SigWritten(Value(r), Value(s), beyondR, beyondS)| <= 72
    ensures ParseSig(SigWritten(Value(r), Value(s), beyondR, beyondS))
         == if (Value(r) > 0 || beyondR >= 128) && (Value(s) > 0 || beyondS >= 128) then Some((Value(r), Value(s))) else None
  {
    EightDigits();
    Pow256Register();
    LowBound(r, NDIGITS);
    LowBound(s, NDIGITS);
    hide Low, Weight, Pow256;
    SigLength(Value(r), Value(s));
    WrittenParses(Value(r), Value(s), beyondR, beyondS);
  }

  lemma WrittenParses(r: nat, s: nat, beyondR: Byte, beyondS: Byte)
    requires |IntBytes(r) + IntBytes(s)| <= 70
    ensures |SigWritten(r, s, beyondR, beyondS)| <= 72
    ensures ParseSig(SigWritten(r, s, beyondR, beyondS))
         == if (r > 0 || beyondR >= 128) && (s > 0 || beyondS >= 128) then Some((r, s)) else None
  {
    hide IntBody, ParseIntBody;
    var first, second := StackInt(r, beyondR), StackInt(s, beyondS);
    TlvParses(T_SEQ, first + second, []);
    assert SigWritten(r, s, beyondR, beyondS) + [] == SigWritten(r, s, beyondR, beyondS);
    StackIntParses(r, beyondR, second);
    StackIntParses(s, beyondS, []);
    assert second + [] == second;
    hide StackInt, ParseTlv, ParseInt, Tlv;
  }

  lemma StackIntParses(v: nat, beyond: Byte, rest: seq<Byte>)
    requires |IntBytes(v)| <= 70
    ensures 2 <= |StackInt(v, beyond)| <= |IntBytes(v)|
    ensures ParseInt(StackInt(v, beyond) + rest) == if v > 0 || beyond >= 128 then Some((v, rest)) else None
  {
    if v > 0 || beyond >= 128 {
      IntBytesParses(v, rest);
    } else {
      ZeroInt();
      var s := [T_INT, 0] + rest;
      assert s[1..][0] == 0;
      assert ParseTlv(T_INT, s) == Some((s[2..2], s[2..]));
    }
  }
}
