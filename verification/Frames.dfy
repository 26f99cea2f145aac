/**
 The U2F HID transport: frames, their reassembly into messages, channel locking and allocation,
 and the fragmentation of responses (FIDO U2F HID Protocol, section 2.5.4).
 */
module Frames {

  type Byte = x: int | 0 <= x < 256

  const INIT_DATA: nat := 57
  const CONT_DATA: nat := 59
  /** The largest message: one INIT frame and 39 CONT frames. */
  const MAX_BCNT: nat := 57 + 39 * 59
  const CID_BROADCAST: nat := 0xffffffff

  /**
   A 64-byte report: the channel, the byte that holds type and command or the sequence number, and
   59 bytes that an INIT frame reads as length and data and a CONT frame as data.
   */
  datatype Frame = Frame(cid: nat, head: Byte, rest: seq<Byte>) {
    ghost predicate Valid() { cid <= CID_BROADCAST && |rest| == CONT_DATA }
    predicate IsInit() { head >= 0x80 }
    function Cmd(): nat { head % 0x80 }
    function Len(): nat
      requires |rest| == CONT_DATA
    {
      (rest[0] as int) * 256 + (rest[1] as int)
    }
    /** The message bytes in the frame. */
    function Data(): (d: seq<Byte>)
      requires |rest| == CONT_DATA
      ensures |d| == if IsInit() then INIT_DATA else CONT_DATA
    {
      if IsInit() then rest[2..] else rest
    }
  }

  /** A message: channel, command and contents. */
  datatype Message = Message(cid: nat, cmd: nat, data: seq<Byte>)

  function Zeros(n: nat): (z: seq<Byte>)
    ensures |z| == n
  {
    seq(n, _ => 0)
  }

  /** How many CONT frames a message of this length needs: `num_cont_frames`. */
  function ContCount(len: nat): (n: nat)
    ensures n > 0 ==> INIT_DATA + CONT_DATA * (n - 1) < len
    ensures len <= INIT_DATA + CONT_DATA * n
    ensures len <= MAX_BCNT ==> n <= 39
  {
    if len > INIT_DATA then (len - INIT_DATA + 58) / CONT_DATA else 0
  }

  /** `init_frame`: command, length and the first 57 bytes, padded with zeros. */
  function InitFrame(cid: nat, cmd: nat, data: seq<Byte>): (f: Frame)
    requires cmd < 128 && |data| < 0x10000
    ensures |f.rest| == CONT_DATA && f.cid == cid && f.IsInit() && f.Cmd() == cmd && f.Len() == |data|
  {
    var chunk := if |data| >= INIT_DATA then data[..INIT_DATA] else data + Zeros(INIT_DATA - |data|);
    Frame(cid, 0x80 + cmd, [|data| / 256, |data| % 256] + chunk)
  }

  /** `cont_frame`: sequence number and the bytes from 57 + 59 * i on, padded with zeros. */
  function ContFrame(cid: nat, data: seq<Byte>, i: nat): (f: Frame)
    requires i < 128 && INIT_DATA + CONT_DATA * i <= |data|
    ensures |f.rest| == CONT_DATA && f.cid == cid && !f.IsInit() && f.head == i
  {
    var at := INIT_DATA + CONT_DATA * i;
    var left := |data| - at;
    Frame(cid, i, if left >= CONT_DATA then data[at..at + CONT_DATA] else data[at..] + Zeros(CONT_DATA - left))
  }

  /** The first n + 1 frames of a message. */
  function FirstFrames(m: Message, n: nat): (fs: seq<Frame>)
    requires m.cmd < 128 && |m.data| <= MAX_BCNT && n <= ContCount(|m.data|)
    ensures |fs| == n + 1
  {
    if n == 0 then [InitFrame(m.cid, m.cmd, m.data)]
    else FirstFrames(m, n - 1) + [ContFrame(m.cid, m.data, n - 1)]
  }

  /** All frames of a message. */
  function Fragment(m: Message): (fs: seq<Frame>)
    requires m.cmd < 128 && |m.data| <= MAX_BCNT
  {
    FirstFrames(m, ContCount(|m.data|))
  }

  // ----- reassembly, as a relation between frames and messages

  /** The message bytes in a sequence of frames, in order. */
  ghost function Payload(fs: seq<Frame>): (p: seq<Byte>)
    requires forall f | f in fs :: |f.rest| == CONT_DATA
  {
    if fs == [] then [] else Payload(fs[..|fs| - 1]) + fs[|fs| - 1].Data()
  }

  /** An INIT frame for (cid, cmd, len) followed by CONT frames of that channel, numbered from 0. */
  ghost predicate Opening(fs: seq<Frame>, cid: nat, cmd: nat, len: nat)
  {
    && |fs| > 0
    && (forall f | f in fs :: f.cid == cid && |f.rest| == CONT_DATA)
    && fs[0].IsInit() && fs[0].Cmd() == cmd && fs[0].Len() == len
    && forall j | 1 <= j < |fs| :: fs[j].head == j - 1 && !fs[j].IsInit()
  }

  /** The frames carry exactly the message: all of its frames, and no more. */
  ghost predicate Assembles(fs: seq<Frame>, m: Message)
  {
    && Opening(fs, m.cid, m.cmd, |m.data|)
    && |fs| == 1 + ContCount(|m.data|)
    && |m.data| <= |Payload(fs)| && Payload(fs)[..|m.data|] == m.data
  }

  lemma {:induction false} PayloadLength(fs: seq<Frame>, cid: nat, cmd: nat, len: nat)
    requires Opening(fs, cid, cmd, len)
    ensures |Payload(fs)| == INIT_DATA + CONT_DATA * (|fs| - 1)
  {
    var init := fs[..|fs| - 1];
    if |fs| == 1 {
      assert init == [];
      assert Payload(fs) == Payload([]) + fs[0].Data();
    } else {
      PayloadLength(init, cid, cmd, len);
    }
  }

  lemma PayloadSnoc(fs: seq<Frame>, f: Frame)
    requires |f.rest| == CONT_DATA && forall g | g in fs :: |g.rest| == CONT_DATA
    ensures Payload(fs + [f]) == Payload(fs) + f.Data()
  {
    assert (fs + [f])[..|fs|] == fs;
  }

  lemma OpeningSnoc(fs: seq<Frame>, f: Frame, cid: nat, cmd: nat, len: nat)
    requires Opening(fs, cid, cmd, len)
    requires f.cid == cid && |f.rest| == CONT_DATA && !f.IsInit() && f.head == |fs| - 1
    ensures Opening(fs + [f], cid, cmd, len)
  {
  }

  lemma {:induction false} FirstFramesOpen(m: Message, n: nat)
    requires m.cmd < 128 && |m.data| <= MAX_BCNT && n <= ContCount(|m.data|)
    ensures Opening(FirstFrames(m, n), m.cid, m.cmd, |m.data|)
  {
    hide InitFrame, ContFrame, ContCount;
    if n > 0 {
      FirstFramesOpen(m, n - 1);
      hide Opening;
      OpeningSnoc(FirstFrames(m, n - 1), ContFrame(m.cid, m.data, n - 1), m.cid, m.cmd, |m.data|);
    }
  }

  ghost predicate ZerosFrom(p: seq<Byte>, n: nat)
  {
    forall i | n <= i < |p| :: p[i] == 0
  }

  /** The first n + 1 frames carry the first 57 + 59 * n bytes, or all of them and zeros behind. */
  ghost predicate Carries(p: seq<Byte>, data: seq<Byte>, sent: nat)
  {
    if |data| >= sent then p == data[..sent] else |p| >= |data| && p[..|data|] == data && ZerosFrom(p, |data|)
  }

  lemma ChunkCarries(p: seq<Byte>, data: seq<Byte>, at: nat, chunk: seq<Byte>)
    requires |data| >= at && p == data[..at] && |chunk| == CONT_DATA
    requires if |data| - at >= CONT_DATA then chunk == data[at..at + CONT_DATA]
             else chunk[..|data| - at] == data[at..] && ZerosFrom(chunk, |data| - at)
    ensures Carries(p + chunk, data, at + CONT_DATA)
  {
    if |data| - at >= CONT_DATA {
      assert data[..at] + data[at..at + CONT_DATA] == data[..at + CONT_DATA];
    } else {
      assert (p + chunk)[..|data|] == p + chunk[..|data| - at];
      assert data[..at] + data[at..] == data;
    }
  }

  lemma {:induction false} FirstFramesCarry(m: Message, n: nat)
    requires m.cmd < 128 && |m.data| <= MAX_BCNT && n <= ContCount(|m.data|)
    ensures Opening(FirstFrames(m, n), m.cid, m.cmd, |m.data|)
    ensures Carries(Payload(FirstFrames(m, n)), m.data, INIT_DATA + CONT_DATA * n)
  {
    hide ContCount, Opening, Payload, Carries, ContFrame, InitFrame;
    FirstFramesOpen(m, n);
    if n == 0 {
      InitCarries(m);
    } else {
      FirstFramesCarry(m, n - 1);
      OpeningWidths(FirstFrames(m, n - 1), m.cid, m.cmd, |m.data|);
      var f := ContFrame(m.cid, m.data, n - 1);
      PayloadSnoc(FirstFrames(m, n - 1), f);
      ContCarries(Payload(FirstFrames(m, n - 1)), m.cid, m.data, n - 1);
    }
  }

  lemma ContCarries(p: seq<Byte>, cid: nat, data: seq<Byte>, i: nat)
    requires i < 128 && INIT_DATA + CONT_DATA * i <= |data| && Carries(p, data, INIT_DATA + CONT_DATA * i)
    ensures Carries(p + ContFrame(cid, data, i).Data(), data, INIT_DATA + CONT_DATA * (i + 1))
  {
    var f := ContFrame(cid, data, i);
    ChunkCarries(p, data, INIT_DATA + CONT_DATA * i, f.rest);
  }

  lemma OpeningWidths(fs: seq<Frame>, cid: nat, cmd: nat, len: nat)
    requires Opening(fs, cid, cmd, len)
    ensures forall f | f in fs :: |f.rest| == CONT_DATA
  {
  }

  lemma InitCarries(m: Message)
    requires m.cmd < 128 && |m.data| <= MAX_BCNT
    ensures Carries(Payload([InitFrame(m.cid, m.cmd, m.data)]), m.data, INIT_DATA)
  {
    var f := InitFrame(m.cid, m.cmd, m.data);
    PayloadOne(f);
    hide Payload;
    InitDataCarries(m);
  }

  lemma PayloadOne(f: Frame)
    requires |f.rest| == CONT_DATA
    ensures Payload([f]) == f.Data()
  {
    PayloadSnoc([], f);
    assert [] + [f] == [f];
  }

  lemma InitDataCarries(m: Message)
    requires m.cmd < 128 && |m.data| <= MAX_BCNT
    ensures Carries(InitFrame(m.cid, m.cmd, m.data).Data(), m.data, INIT_DATA)
  {
  }

  /** Fragmenting a message yields frames that carry exactly that message, and zeros behind it. */
  lemma FragmentAssembles(m: Message)
    requires m.cmd < 128 && |m.data| <= MAX_BCNT
    ensures Assembles(Fragment(m), m) && ZerosFrom(Payload(Fragment(m)), |m.data|)
  {
    FirstFramesCarry(m, ContCount(|m.data|));
  }
}
