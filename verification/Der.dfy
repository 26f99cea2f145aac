/**
 DER as ITU-T X.690 defines it (sections 8.1.3, 8.3 and 10.1): minimal lengths and integers, a strict
 parser, and the proof that encoding and parsing are inverse.
 */
module Der {
  import opened P256Int

  const T_INT: Byte := 0x02
  const T_SEQ: Byte := 0x30

  datatype Option<T> = None | Some(value: T)

  // ----- encoding

  /** The length octets; sizes from 65536 on are truncated, as the firmware does. */
  function LenBytes(size: nat): (s: seq<Byte>)
    ensures 1 <= |s| <= 3
  {
    if size < 128 then [size]
    else if size < 256 then [0x81, size]
    else [0x82, size / 256 % 256, size % 256]
  }

  function Tlv(tag: Byte, body: seq<Byte>): (s: seq<Byte>)
  {
    [tag] + LenBytes(|body|) + body
  }

  /** The bytes of a number without leading zeros, most significant first. */
  function Base256(v: nat): (s: seq<Byte>)
    ensures |s| > 0 && (v > 0 ==> s[0] > 0)
  {
    if v < 256 then [v] else Base256(v / 256) + [v % 256]
  }

  /** The contents octets of a non-negative INTEGER. */
  function IntBody(v: nat): (s: seq<Byte>)
    ensures |s| > 0 && s[0] < 128
  {
    if Base256(v)[0] >= 128 then [0] + Base256(v) else Base256(v)
  }

  function IntBytes(v: nat): (s: seq<Byte>) { Tlv(T_INT, IntBody(v)) }

  /** An ECDSA signature: the sequence of two integers. */
  function SigBytes(r: nat, s: nat): (b: seq<Byte>) { Tlv(T_SEQ, IntBytes(r) + IntBytes(s)) }

  // ----- parsing

  /** A definite length in its minimal form: the length and the number of octets it takes. */
  function ParseLen(s: seq<Byte>): (r: Option<(nat, nat)>)
    ensures r.Some? ==> 1 <= r.value.1 <= |s|
  {
    if |s| >= 1 && s[0] < 128 then Some((s[0], 1))
    else if |s| >= 2 && s[0] == 0x81 && s[1] >= 128 then Some((s[1], 2))
    else if |s| >= 3 && s[0] == 0x82 && s[1] > 0 then Some(((s[1] as int) * 256 + (s[2] as int), 3))
    else None
  }

  /** One element with the given tag: its contents, and what follows. */
  function ParseTlv(tag: Byte, s: seq<Byte>): (r: Option<(seq<Byte>, seq<Byte>)>)
  {
    if |s| == 0 || s[0] != tag then None
    else
      match ParseLen(s[1..])
      case None => None
      case Some((len, n)) =>
        if 1 + n + len <= |s| then Some((s[1 + n..1 + n + len], s[1 + n + len..])) else None
  }

  /** The contents of a non-negative INTEGER in its minimal form. */
  ghost function ParseIntBody(s: seq<Byte>): (r: Option<nat>)
  {
    if |s| == 0 || s[0] >= 128 || (|s| > 1 && s[0] == 0 && s[1] < 128) then None else Some(Bytes(s))
  }

  ghost function ParseInt(s: seq<Byte>): (r: Option<(nat, seq<Byte>)>)
  {
    match ParseTlv(T_INT, s)
    case None => None
    case Some((body, rest)) =>
      match ParseIntBody(body)
      case None => None
      case Some(v) => Some((v, rest))
  }

  /** A signature and nothing else. */
  ghost function ParseSig(s: seq<Byte>): (r: Option<(nat, nat)>)
  {
    match ParseTlv(T_SEQ, s)
    case None => None
    case Some((body, rest)) =>
      if rest != [] then None else
      match ParseInt(body)
      case None => None
      case Some((r, more)) =>
        match ParseInt(more)
        case None => None
        case Some((s, end)) => if end == [] then Some((r, s)) else None
  }

  // ----- integers

  lemma {:induction false} Base256Value(v: nat)
    ensures Bytes(Base256(v)) == v
  {
    if v >= 256 {
      Base256Value(v / 256);
      var s, t := Base256(v), Base256(v / 256);
      BigEndianPrefix(s, t, |t|);
      assert BigEndian(s, |s|) == 256 * BigEndian(s, |t|) + s[|t|];
    } else {
      assert BigEndian([v], 1) == 256 * BigEndian([v], 0) + v;
    }
  }

  /** A byte string without leading zero is the representation of its number. */
  lemma {:induction false} Base256Unique(s: seq<Byte>)
    requires |s| > 0 && (|s| == 1 || s[0] > 0)
    ensures Base256(Bytes(s)) == s
  {
    var n := |s|;
    assert BigEndian(s, n) == 256 * BigEndian(s, n - 1) + s[n - 1];
    if n == 1 {
      assert BigEndian(s, 0) == 0;
    } else {
      var t := s[..n - 1];
      Base256Unique(t);
      BigEndianPrefix(s, t, n - 1);
      NonZero(t);
    }
  }

  lemma {:induction false} NonZero(s: seq<Byte>)
    requires |s| > 0 && s[0] > 0
    ensures Bytes(s) > 0
  {
    var n := |s|;
    assert BigEndian(s, n) == 256 * BigEndian(s, n - 1) + s[n - 1];
    if n > 1 {
      NonZero(s[..n - 1]);
      BigEndianPrefix(s, s[..n - 1], n - 1);
    }
  }

  lemma {:induction false} LeadingZero(s: seq<Byte>, n: nat)
    requires n <= |s|
    ensures BigEndian([0] + s, n + 1) == BigEndian(s, n)
  {
    if n > 0 {
      LeadingZero(s, n - 1);
    } else {
      assert BigEndian([0] + s, 1) == 256 * BigEndian([0] + s, 0) + ([0] + s)[0];
    }
  }

  /** Parsing the contents of an encoded integer gives back the integer. */
  lemma IntBodyParses(v: nat)
    ensures ParseIntBody(IntBody(v)) == Some(v)
  {
    Base256Value(v);
    LeadingZero(Base256(v), |Base256(v)|);
    assert |[0] + Base256(v)| == |Base256(v)| + 1;
    BaseMinimal(v);
  }

  lemma BaseMinimal(v: nat)
    ensures |Base256(v)| > 1 ==> Base256(v)[0] > 0
  {
  }

  /** Minimal contents are the encoding of what they parse to. */
  lemma IntBodyUnique(s: seq<Byte>)
    requires ParseIntBody(s).Some?
    ensures IntBody(ParseIntBody(s).value) == s
  {
    if |s| > 1 && s[0] == 0 {
      var t := s[1..];
      assert s == [0] + t;
      LeadingZero(t, |t|);
      Base256Unique(t);
    } else {
      Base256Unique(s);
    }
  }

  /** The contents are the shortest ones: no shorter byte string with a clear top bit has the value. */
  lemma {:induction false} IntBodyShortest(v: nat, s: seq<Byte>)
    requires |s| > 0 && s[0] < 128 && Bytes(s) == v
    ensures |IntBody(v)| <= |s| && IntBody(v)[0] < 128 && Bytes(IntBody(v)) == v
    decreases |s|
  {
    IntBodyParses(v);
    hide IntBody;
    if |s| > 1 && s[0] == 0 && s[1] < 128 {
      assert s == [0] + s[1..];
      LeadingZero(s[1..], |s| - 1);
      IntBodyShortest(v, s[1..]);
    } else {
      IntBodyUnique(s);
    }
  }

  // ----- elements

  /** The definite forms of a length, minimal or not: one octet, or a count and as many octets. */
  ghost function LenValue(s: seq<Byte>): (r: Option<nat>)
  {
    if |s| == 1 && s[0] < 128 then Some(s[0])
    else if |s| > 1 && s[0] == 127 + |s| then Some(Bytes(s[1..]))
    else None
  }

  /** The length octets are the shortest definite form of every size below 65536. */
  lemma LenShortest(size: nat, s: seq<Byte>)
    requires size < 0x10000 && LenValue(s) == Some(size)
    ensures LenValue(LenBytes(size)) == Some(size) && |LenBytes(size)| <= |s|
  {
    LenValues(size);
    hide LenBytes;
    if |s| == 2 {
      assert BigEndian(s[1..], 1) == 256 * BigEndian(s[1..], 0) + s[1];
    }
  }

  lemma LenValues(size: nat)
    requires size < 0x10000
    ensures LenValue(LenBytes(size)) == Some(size) && |LenBytes(size)| == if size < 128 then 1 else if size < 256 then 2 else 3
  {
    if size >= 128 {
      var t := LenBytes(size)[1..];
      assert BigEndian(t, 1) == 256 * BigEndian(t, 0) + t[0];
      if |t| == 2 {
        assert BigEndian(t, 2) == 256 * BigEndian(t, 1) + t[1];
      }
    }
  }

  lemma LenParses(size: nat, rest: seq<Byte>)
    requires size < 0x10000
    ensures ParseLen(LenBytes(size) + rest) == Some((size, |LenBytes(size)|))
  {
  }

  /** The length octets are right exactly for sizes below 65536. */
  lemma LenExact(size: nat)
    ensures (exists n :: ParseLen(LenBytes(size)) == Some((size, n))) <==> size < 0x10000
  {
    if size < 0x10000 {
      LenParses(size, []);
      assert LenBytes(size) + [] == LenBytes(size);
    }
  }

  lemma TlvParses(tag: Byte, body: seq<Byte>, rest: seq<Byte>)
    requires |body| < 0x10000
    ensures ParseTlv(tag, Tlv(tag, body) + rest) == Some((body, rest))
  {
    var s, n := Tlv(tag, body) + rest, |LenBytes(|body|)|;
    assert s[1..] == LenBytes(|body|) + (body + rest);
    LenParses(|body|, body + rest);
    assert s[1 + n..1 + n + |body|] == body;
    assert s[1 + n + |body|..] == rest;
  }

  /** An element in minimal form is the encoding of its contents. */
  lemma TlvUnique(tag: Byte, s: seq<Byte>)
    requires ParseTlv(tag, s).Some?
    ensures var (body, rest) := ParseTlv(tag, s).value; s == Tlv(tag, body) + rest && |body| < 0x10000
  {
    var (len, n) := ParseLen(s[1..]).value;
    var body, rest := s[1 + n..1 + n + len], s[1 + n + len..];
    assert LenBytes(len) == s[1..1 + n];
    assert s == [s[0]] + s[1..1 + n] + body + rest;
  }

  lemma IntBytesParses(v: nat, rest: seq<Byte>)
    requires |IntBody(v)| < 0x10000
    ensures ParseInt(IntBytes(v) + rest) == Some((v, rest))
  {
    TlvParses(T_INT, IntBody(v), rest);
    IntBodyParses(v);
  }

  lemma IntBytesUnique(s: seq<Byte>)
    requires ParseInt(s).Some?
    ensures var (v, rest) := ParseInt(s).value; s == IntBytes(v) + rest
  {
    TlvUnique(T_INT, s);
    IntBodyUnique(ParseTlv(T_INT, s).value.0);
  }

  /** Parsing an encoded signature gives back r and s. */
  lemma SigParses(r: nat, s: nat)
    requires |IntBytes(r) + IntBytes(s)| < 0x10000
    ensures ParseSig(SigBytes(r, s)) == Some((r, s))
  {
    hide IntBody;
    var body := IntBytes(r) + IntBytes(s);
    TlvParses(T_SEQ, body, []);
    assert SigBytes(r, s) + [] == SigBytes(r, s);
    IntBytesParses(r, IntBytes(s));
    IntBytesParses(s, []);
    assert IntBytes(s) + [] == IntBytes(s);
  }

  /** The encoding is canonical: nothing else parses to the same pair. */
  lemma SigUnique(b: seq<Byte>)
    requires ParseSig(b).Some?
    ensures SigBytes(ParseSig(b).value.0, ParseSig(b).value.1) == b
  {
    hide ParseTlv, Tlv, IntBody, ParseIntBody;
    TlvUnique(T_SEQ, b);
    var (body, rest) := ParseTlv(T_SEQ, b).value;
    IntBytesUnique(body);
    var (r, more) := ParseInt(body).value;
    IntBytesUnique(more);
    var (s, end) := ParseInt(more).value;
    assert IntBytes(s) + [] == IntBytes(s);
    assert Tlv(T_SEQ, body) + [] == Tlv(T_SEQ, body);
  }

  /** The smallest signature with a number that needs a leading zero, octet by octet. */
  lemma SigExample()
    ensures SigBytes(1, 128) == [0x30, 7, 0x02, 1, 1, 0x02, 2, 0, 0x80]
  {
    assert Base256(1) == [1] && Base256(128) == [128];
    assert IntBytes(1) == [0x02, 1, 1];
    assert IntBytes(128) == [0x02, 2, 0, 128];
  }

  lemma {:induction false} Base256Length(v: nat, n: nat)
    requires n > 0 && v < Pow256(n)
    ensures |Base256(v)| <= n
  {
    if v >= 256 {
      Base256Length(v / 256, n - 1);
    }
  }

  /** A signature over 256-bit numbers takes at most 72 bytes. */
  lemma SigLength(r: nat, s: nat)
    requires r < Pow256(32) && s < Pow256(32)
    ensures |IntBytes(r) + IntBytes(s)| <= 70 && |SigBytes(r, s)| <= 72
  {
    Base256Length(r, 32);
    Base256Length(s, 32);
  }
}
