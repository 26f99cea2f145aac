/**
 Properties of the transport over whole runs.
 */
module TransportRuns {
  import opened Frames
  import opened Transport

  /** A received frame, and what the command handler would reply if the frame completes a request. */
  datatype Input = Input(f: Frame, reply: Reply)

  ghost predicate ValidInputs(ins: seq<Input>)
  {
    forall i | 0 <= i < |ins| :: ins[i].f.Valid()
  }

  ghost function Run(s: State, ins: seq<Input>): (r: State)
    requires Inv(s) && ValidInputs(ins)
    ensures Inv(r)
  {
    if ins == [] then s
    else
      var before := Run(s, ins[..|ins| - 1]);
      var last := ins[|ins| - 1];
      StepKeepsInv(before, last.f, last.reply);
      Step(before, last.f, last.reply).s
  }

  /** The messages dispatched during a run, in order. */
  ghost function Dispatched(s: State, ins: seq<Input>): (ms: seq<Message>)
    requires Inv(s) && ValidInputs(ins)
  {
    if ins == [] then []
    else
      var last := ins[|ins| - 1];
      Dispatched(s, ins[..|ins| - 1]) + Step(Run(s, ins[..|ins| - 1]), last.f, last.reply).msgs
  }

  /** The frames of one channel, in the order of arrival. */
  ghost function OfChannel(ins: seq<Input>, cid: nat): (fs: seq<Frame>)
  {
    if ins == [] then []
    else OfChannel(ins[..|ins| - 1], cid) + if ins[|ins| - 1].f.cid == cid then [ins[|ins| - 1].f] else []
  }

  // ----- isolation

  /** A frame of another channel changes nothing but the channel allocator while a transaction is pending. */
  lemma OtherChannelStep(s: State, f: Frame, reply: Reply)
    requires Inv(s) && f.Valid() && s.pending.cid != 0 && f.cid != s.pending.cid
    ensures Step(s, f, reply).s == s.(next := Step(s, f, reply).s.next) && Step(s, f, reply).msgs == []
  {
    hide InitFrame;
  }

  /** Frames of other channels never change a pending transaction, its bytes or the lock. */
  lemma {:induction false} OtherChannels(s: State, ins: seq<Input>)
    requires Inv(s) && ValidInputs(ins) && s.pending.cid != 0
    requires forall i | 0 <= i < |ins| :: ins[i].f.cid != s.pending.cid
    ensures Run(s, ins) == s.(next := Run(s, ins).next) && Dispatched(s, ins) == []
  {
    if ins != [] {
      var before, last := ins[..|ins| - 1], ins[|ins| - 1];
      OtherChannels(s, before);
      OtherChannelStep(Run(s, before), last.f, last.reply);
    }
  }

  // ----- reassembly: everything that is dispatched was sent

  /**
   The pending transaction is the tail of its channel's traffic: the last seqno + 1 frames of the
   channel open the message, and the receive buffer holds their bytes in order.
   */
  ghost predicate Reassembling(s: State, fs: seq<Frame>)
    requires Inv(s)
  {
    s.pending.cid != 0 ==>
      && |fs| > s.pending.seqno
      && var tail := fs[|fs| - s.pending.seqno - 1..];
         && Opening(tail, s.pending.cid, s.pending.cmd, s.pending.bcnt)
         && s.rx[..INIT_DATA + CONT_DATA * s.pending.seqno] == Payload(tail)
  }

  /** A dispatched message is carried by the last frames of its channel. */
  ghost predicate FromTail(fs: seq<Frame>, m: Message)
  {
    exists k :: 0 <= k < |fs| && Assembles(fs[k..], m)
  }

  /** One step on the channel of the frame keeps the reassembly invariant. */
  lemma InitReassembles(s: State, f: Frame, reply: Reply, fs: seq<Frame>)
    requires Inv(s) && f.Valid() && f.IsInit() && f.Cmd() != CMD_INIT && f.cid != 0 && f.cid != CID_BROADCAST
    requires s.lock == 0 || s.lock == f.cid
    ensures Inv(InitStep(s, f, reply).s)
    ensures InitStep(s, f, reply).s.pending.cid == f.cid ==> Reassembling(InitStep(s, f, reply).s, fs + [f])
    ensures forall m | m in InitStep(s, f, reply).msgs :: m.cid == f.cid && FromTail(fs + [f], m)
  {
    hide Fragment, InitFrame;
    StepKeepsInv(s, f, reply);
    PayloadOne(f);
    var all := fs + [f];
    assert all[|fs|..] == [f];
    var o := InitStep(s, f, reply);
    if s.pending.cid == 0 && f.Len() <= MAX_BCNT {
      assert Opening([f], f.cid, f.Cmd(), f.Len());
      if f.Len() <= INIT_DATA {
        var m := Message(f.cid, f.Cmd(), f.Data()[..f.Len()]);
        assert Blit(s.rx, 0, f.Data()[..f.Len()])[..f.Len()] == m.data;
        assert o.msgs == [m];
        assert Assembles(all[|fs|..], m);
      } else {
        assert o.s.rx[..INIT_DATA] == f.Data();
      }
    }
  }

  lemma ContReassembles(s: State, f: Frame, reply: Reply, fs: seq<Frame>)
    requires Inv(s) && f.Valid() && !f.IsInit() && f.cid == s.pending.cid && f.cid != 0
    requires Reassembling(s, fs)
    ensures Inv(ContStep(s, f, reply).s)
    ensures ContStep(s, f, reply).s.pending.cid != 0 ==> Reassembling(ContStep(s, f, reply).s, fs + [f])
    ensures forall m | m in ContStep(s, f, reply).msgs :: m.cid == f.cid && FromTail(fs + [f], m)
  {
    hide Fragment, InitFrame, Payload;
    StepKeepsInv(s, f, reply);
    var p := s.pending;
    var k := |fs| - p.seqno - 1;
    if p.seqno == f.head {
      var all := fs + [f];
      assert all[k..] == fs[k..] + [f];
      OpeningSnoc(fs[k..], f, p.cid, p.cmd, p.bcnt);
      PayloadSnoc(fs[k..], f);
      var at := INIT_DATA + CONT_DATA * p.seqno;
      var rx := Blit(s.rx, at, f.Data());
      assert rx[..at + CONT_DATA] == s.rx[..at] + f.Data();
      assert rx[..at + CONT_DATA] == Payload(all[k..]);
      if at + CONT_DATA >= p.bcnt {
        var m := Message(p.cid, p.cmd, rx[..p.bcnt]);
        assert ContStep(s, f, reply).msgs == [m];
        assert rx[..p.bcnt] == Payload(all[k..])[..p.bcnt];
        assert ContCount(p.bcnt) == p.seqno + 1;
        assert Assembles(all[k..], m);
      }
    }
  }

  /**
   Over every run from an idle state: the pending transaction is the tail of its channel's traffic,
   and each message dispatched by the next frame is carried by the last frames of its channel.
   */
  lemma {:induction false} RunReassembles(s: State, ins: seq<Input>)
    requires Inv(s) && s.pending.cid == 0 && ValidInputs(ins)
    ensures var r := Run(s, ins); Reassembling(r, OfChannel(ins, r.pending.cid))
    ensures ins != [] ==>
              var last := ins[|ins| - 1];
              var msgs := Step(Run(s, ins[..|ins| - 1]), last.f, last.reply).msgs;
              forall m | m in msgs :: m.cid == last.f.cid && FromTail(OfChannel(ins, m.cid), m)
  {
    if ins != [] {
      var before, last := ins[..|ins| - 1], ins[|ins| - 1];
      RunReassembles(s, before);
      var r, f := Run(s, before), last.f;
      RunLast(s, ins);
      hide Run, Step, FromTail, Reassembling, OfChannel, Inv;
      StepReassembles(r, f, last.reply, OfChannel(before, r.pending.cid), OfChannel(before, f.cid));
      OfChannelLast(ins, f.cid);
      OfChannelLast(ins, r.pending.cid);
      var r' := Step(r, f, last.reply).s;
      if r'.pending.cid == 0 {
        IdleReassembles(r', OfChannel(ins, 0));
      }
    }
  }

  lemma IdleReassembles(s: State, fs: seq<Frame>)
    requires Inv(s) && s.pending.cid == 0
    ensures Reassembling(s, fs)
  {
  }

  lemma RunLast(s: State, ins: seq<Input>)
    requires Inv(s) && ValidInputs(ins) && ins != []
    ensures var last := ins[|ins| - 1]; Run(s, ins) == Step(Run(s, ins[..|ins| - 1]), last.f, last.reply).s
  {
  }

  lemma OfChannelLast(ins: seq<Input>, cid: nat)
    requires ins != []
    ensures var before, f := OfChannel(ins[..|ins| - 1], cid), ins[|ins| - 1].f;
            OfChannel(ins, cid) == if f.cid == cid then before + [f] else before
  {
  }

  lemma StepReassembles(r: State, f: Frame, reply: Reply, pendingFrames: seq<Frame>, channelFrames: seq<Frame>)
    requires Inv(r) && f.Valid() && Reassembling(r, pendingFrames)
    requires f.cid == r.pending.cid ==> pendingFrames == channelFrames
    ensures Inv(Step(r, f, reply).s)
    ensures Step(r, f, reply).s.pending.cid != 0 && Step(r, f, reply).s.pending.cid == f.cid ==>
              Reassembling(Step(r, f, reply).s, channelFrames + [f])
    ensures Step(r, f, reply).s.pending.cid != 0 && Step(r, f, reply).s.pending.cid != f.cid ==>
              Step(r, f, reply).s.pending.cid == r.pending.cid && Reassembling(Step(r, f, reply).s, pendingFrames)
    ensures forall m | m in Step(r, f, reply).msgs :: m.cid == f.cid && FromTail(channelFrames + [f], m)
  {
    hide Fragment, InitFrame, FromTail;
    StepKeepsInv(r, f, reply);
    if r.pending.cid != 0 && f.cid != r.pending.cid {
      OtherChannelStep(r, f, reply);
    } else if f.cid != 0 && f.cid != CID_BROADCAST && (r.lock == 0 || r.lock == f.cid) && !(f.IsInit() && f.Cmd() == CMD_INIT) {
      if f.IsInit() {
        InitReassembles(r, f, reply, channelFrames);
      } else if r.pending.cid == f.cid {
        ContReassembles(r, f, reply, channelFrames);
      }
    }
  }

  // ----- completeness: everything that is sent is dispatched

  /** A channel that may send now: a proper channel, nothing pending, and no foreign lock. */
  ghost predicate MaySend(s: State, cid: nat)
  {
    Inv(s) && s.pending.cid == 0 && (s.lock == 0 || s.lock == cid) && 0 < cid < CID_BROADCAST
  }

  ghost predicate Sendable(m: Message)
  {
    m.cmd < 128 && m.cmd != CMD_INIT && |m.data| <= MAX_BCNT
  }

  /** After the first k frames of the message, with k less than all of them. */
  ghost predicate Underway(s: State, fs: seq<Frame>, k: nat, m: Message)
    requires Assembles(fs, m) && 1 <= k < |fs|
  {
    && Inv(s) && s.pending == Pending(m.cid, m.cmd, k - 1, |m.data|)
    && (forall f | f in fs[..k] :: |f.rest| == CONT_DATA)
    && s.rx[..INIT_DATA + CONT_DATA * (k - 1)] == Payload(fs[..k])
  }

  lemma OpensUnderway(s: State, fs: seq<Frame>, m: Message, reply: Reply)
    requires MaySend(s, m.cid) && Sendable(m) && Assembles(fs, m) && |fs| > 1
    ensures fs[0].Valid()
    ensures Underway(Step(s, fs[0], reply).s, fs, 1, m) && Step(s, fs[0], reply).msgs == []
  {
    hide Fragment, InitFrame;
    var f := fs[0];
    StepKeepsInv(s, f, reply);
    PayloadOne(f);
    assert fs[..1] == [f];
    assert Blit(s.rx, 0, f.Data())[..INIT_DATA] == f.Data();
  }

  lemma PayloadPrefix(fs: seq<Frame>, k: nat)
    requires k < |fs| && forall f | f in fs :: |f.rest| == CONT_DATA
    ensures Payload(fs[..k + 1]) == Payload(fs[..k]) + fs[k].Data()
  {
    assert fs[..k + 1] == fs[..k] + [fs[k]];
    PayloadSnoc(fs[..k], fs[k]);
  }

  lemma ContinuesUnderway(s: State, fs: seq<Frame>, k: nat, m: Message, reply: Reply)
    requires Sendable(m) && Assembles(fs, m) && 1 <= k < |fs| && Underway(s, fs, k, m)
    requires m.cid < CID_BROADCAST
    ensures fs[k].Valid()
    ensures k + 1 < |fs| ==> Underway(Step(s, fs[k], reply).s, fs, k + 1, m) && Step(s, fs[k], reply).msgs == []
    ensures k + 1 == |fs| ==> Step(s, fs[k], reply).msgs == [m]
  {
    hide Fragment, InitFrame, Payload;
    var f, at := fs[k], INIT_DATA + CONT_DATA * (k - 1);
    assert f in fs && !f.IsInit() && f.head == k - 1;
    StepKeepsInv(s, f, reply);
    PayloadPrefix(fs, k);
    var rx := Blit(s.rx, at, f.Data());
    assert rx[..at + CONT_DATA] == s.rx[..at] + f.Data() == Payload(fs[..k + 1]);
    assert Step(s, f, reply) == ContStep(s, f, reply);
    if k + 1 == |fs| {
      assert fs[..k + 1] == fs;
      assert at + CONT_DATA >= |m.data|;
      assert rx[..|m.data|] == Payload(fs)[..|m.data|];
    } else {
      assert at + CONT_DATA < |m.data|;
    }
  }

  /** While the message is underway, frames of other channels may come in between. */
  lemma {:induction false} StaysUnderway(s: State, ins: seq<Input>, fs: seq<Frame>, m: Message)
    requires MaySend(s, m.cid) && Sendable(m) && Assembles(fs, m) && ValidInputs(ins)
    requires ins != [] && ins[0].f.cid == m.cid
    requires OfChannel(ins, m.cid) < fs
    ensures 1 <= |OfChannel(ins, m.cid)|
    ensures Underway(Run(s, ins), fs, |OfChannel(ins, m.cid)|, m) && Dispatched(s, ins) == []
  {
    hide Run, OfChannel, Step, Underway, Assembles, Inv;
    var before, last := ins[..|ins| - 1], ins[|ins| - 1];
    OfChannelLast(ins, m.cid);
    RunLast(s, ins);
    if |ins| == 1 {
      assert before == [];
      RunNothing(s, m.cid);
      assert last.f == fs[0];
      OpensUnderway(s, fs, m, last.reply);
    } else {
      assert OfChannel(before, m.cid) <= OfChannel(ins, m.cid);
      StaysUnderway(s, before, fs, m);
      var k := |OfChannel(before, m.cid)|;
      if last.f.cid == m.cid {
        assert fs[k] == last.f;
        ContinuesUnderway(Run(s, before), fs, k, m, last.reply);
      } else {
        UnderwayDespite(Run(s, before), fs, k, m, last.f, last.reply);
      }
    }
  }

  lemma RunNothing(s: State, cid: nat)
    requires Inv(s)
    ensures Run(s, []) == s && OfChannel([], cid) == []
  {
  }

  lemma UnderwayDespite(s: State, fs: seq<Frame>, k: nat, m: Message, f: Frame, reply: Reply)
    requires Assembles(fs, m) && 1 <= k < |fs| && Underway(s, fs, k, m) && m.cid != 0
    requires f.Valid() && f.cid != m.cid
    ensures Underway(Step(s, f, reply).s, fs, k, m) && Step(s, f, reply).msgs == []
  {
    hide Step;
    OtherChannelStep(s, f, reply);
    StepKeepsInv(s, f, reply);
  }

  /**
   A message whose frames arrive in order is dispatched exactly once, at its last frame, with
   exactly its bytes, whatever other channels send after its first frame.
   */
  lemma {:induction false} Delivered(s: State, ins: seq<Input>, fs: seq<Frame>, m: Message)
    requires MaySend(s, m.cid) && Sendable(m) && Assembles(fs, m) && ValidInputs(ins)
    requires ins != [] && ins[0].f.cid == m.cid && ins[|ins| - 1].f.cid == m.cid
    requires OfChannel(ins, m.cid) == fs
    ensures Dispatched(s, ins) == [m]
  {
    var before, last := ins[..|ins| - 1], ins[|ins| - 1];
    OfChannelLast(ins, m.cid);
    if |ins| == 1 {
      assert before == [];
      assert fs == [last.f];
      SingleDelivered(s, last.f, m, last.reply);
    } else {
      OfChannelHead(before, m.cid);
      StaysUnderway(s, before, fs, m);
      ContinuesUnderway(Run(s, before), fs, |fs| - 1, m, last.reply);
    }
  }

  lemma {:induction false} OfChannelHead(ins: seq<Input>, cid: nat)
    requires ins != [] && ins[0].f.cid == cid
    ensures OfChannel(ins, cid) != []
  {
    if |ins| > 1 {
      OfChannelHead(ins[..|ins| - 1], cid);
    } else {
      assert ins[..0] == [];
    }
  }

  lemma SingleDelivered(s: State, f: Frame, m: Message, reply: Reply)
    requires MaySend(s, m.cid) && Sendable(m) && Assembles([f], m) && f.Valid()
    ensures Step(s, f, reply).msgs == [m]
  {
    hide Fragment, InitFrame;
    PayloadOne(f);
    var d := f.Data()[..f.Len()];
    assert Blit(s.rx, 0, d)[..f.Len()] == d;
  }

  // ----- responses

  lemma {:induction false} OfOneChannel(ins: seq<Input>, fs: seq<Frame>, cid: nat)
    requires |ins| == |fs| && forall i | 0 <= i < |ins| :: ins[i].f == fs[i] && fs[i].cid == cid
    ensures OfChannel(ins, cid) == fs
  {
    if ins != [] {
      var n := |ins| - 1;
      OfOneChannel(ins[..n], fs[..n], cid);
      assert fs[..n] + [fs[n]] == fs;
    }
  }

  /**
   The frames that `u2fhid_response_msg` sends, fed to the reassembly of another transport, give
   back exactly the response.
   */
  lemma ResponseRoundTrip(s: State, ins: seq<Input>, m: Message)
    requires MaySend(s, m.cid) && Sendable(m) && ValidInputs(ins)
    requires |ins| == |Fragment(m)| && forall i | 0 <= i < |ins| :: ins[i].f == Fragment(m)[i]
    ensures Dispatched(s, ins) == [m]
  {
    hide Fragment;
    FragmentAssembles(m);
    var fs := Fragment(m);
    assert forall i | 0 <= i < |fs| :: fs[i] in fs;
    OfOneChannel(ins, fs, m.cid);
    Delivered(s, ins, fs, m);
  }

  /** A completed PING is answered with the frames of the same message; other commands by their reply. */
  lemma Responses(s: State, f: Frame, reply: Reply, m: Message)
    requires Inv(s) && f.Valid() && Step(s, f, reply).msgs == [m]
    ensures m.cmd == CMD_PING ==> Step(s, f, reply).sent == Fragment(m)
    ensures m.cmd == CMD_MSG || m.cmd == CMD_SYSINFO ==> Step(s, f, reply).sent == Fragment(m.(data := reply))
    ensures m.cmd in {CMD_LOCK, CMD_WINK, CMD_PROMPT} ==> Step(s, f, reply).sent == Fragment(m.(data := []))
    ensures Step(s, f, reply).s.pending.cid == 0 && Step(s, f, reply).s.timeout == 0
  {
    hide Fragment, InitFrame;
  }

  // ----- errors

  /** The host is sent one frame on the channel: an error with the code. */
  ghost predicate IsError(sent: seq<Frame>, cid: nat, code: nat)
  {
    && |sent| == 1 && sent[0].Valid() && sent[0].cid == cid
    && sent[0].IsInit() && sent[0].Cmd() == CMD_ERROR && sent[0].Len() == 1 && sent[0].Data()[0] == code
  }

  /** A frame that gets past the checks of its channel and is not the INIT command. */
  predicate Ordinary(f: Frame)
  {
    f.cid != 0 && (f.cid == CID_BROADCAST ==> f.Cmd() == CMD_INIT) && !(f.IsInit() && f.Cmd() == CMD_INIT)
  }

  predicate LockedOut(s: State, f: Frame)
  {
    s.lock != 0 && f.cid != s.lock
  }

  predicate Served(cmd: nat)
  {
    cmd == CMD_MSG || cmd == CMD_SYSINFO || cmd == CMD_PING || cmd == CMD_LOCK || cmd == CMD_WINK || cmd == CMD_PROMPT
  }

  lemma ErrorFrameIs(cid: nat, code: nat)
    requires code < 256 && cid <= CID_BROADCAST
    ensures forall c :: IsError([ErrorFrame(cid, code)], cid, c) <==> c == code
  {
  }

  /** Answers to commands are no errors. */
  lemma NoError(m: Message, cid: nat)
    requires m.cmd < 128 && m.cmd != CMD_ERROR && |m.data| <= MAX_BCNT
    ensures forall code :: !IsError(Fragment(m), cid, code)
  {
    FragmentAssembles(m);
    hide Fragment, Payload;
  }

  lemma DispatchErrors(s: State, reply: Reply, code: nat)
    requires |s.rx| == MAX_BCNT && s.pending.bcnt <= MAX_BCNT && s.pending.cmd < 128 && s.pending.cid <= CID_BROADCAST
    ensures IsError(Dispatch(s, reply).sent, s.pending.cid, code) <==> code == ERR_INVALID_CMD && !Served(s.pending.cmd)
    ensures Dispatch(s, reply).msgs == [Message(s.pending.cid, s.pending.cmd, s.rx[..s.pending.bcnt])]
  {
    hide Fragment, InitFrame, IsError, ErrorFrame;
    var cid, cmd := s.pending.cid, s.pending.cmd;
    if Served(cmd) {
      NoError(Message(cid, cmd, reply), cid);
      NoError(Message(cid, cmd, s.rx[..s.pending.bcnt]), cid);
      NoError(Message(cid, cmd, []), cid);
    } else {
      ErrorFrameIs(cid, ERR_INVALID_CMD);
    }
  }

  /** Which error is sent, and when: on the channel of the frame, for every state and every frame. */
  ghost predicate ErrorDue(s: State, f: Frame, msgs: seq<Message>, code: nat)
    requires f.Valid()
  {
    || (code == ERR_INVALID_CID && (f.cid == 0 || (f.cid == CID_BROADCAST && f.Cmd() != CMD_INIT)))
    || (Ordinary(f)
        && (|| (code == ERR_CHANNEL_BUSY && (LockedOut(s, f) || (f.IsInit() && s.pending.cid != 0 && f.cid != s.pending.cid)))
            || (code == ERR_INVALID_SEQ && !LockedOut(s, f) && f.cid == s.pending.cid && (f.IsInit() || f.head != s.pending.seqno))
            || (code == ERR_INVALID_LEN && !LockedOut(s, f) && f.IsInit() && s.pending.cid == 0 && f.Len() > MAX_BCNT)
            || (code == ERR_INVALID_CMD && msgs != [] && !Served(msgs[0].cmd))))
  }

  lemma InitErrors(s: State, f: Frame, reply: Reply, code: nat)
    requires Inv(s) && f.Valid() && Ordinary(f) && f.IsInit() && !LockedOut(s, f)
    ensures IsError(InitStep(s, f, reply).sent, f.cid, code) <==> ErrorDue(s, f, InitStep(s, f, reply).msgs, code)
  {
    hide IsError, ErrorFrame, Dispatch, Blit;
    ErrorFrameIs(f.cid, ERR_CHANNEL_BUSY);
    ErrorFrameIs(f.cid, ERR_INVALID_SEQ);
    ErrorFrameIs(f.cid, ERR_INVALID_LEN);
    NothingIsNoError(f.cid, code);
    if s.pending.cid == 0 && f.Len() <= INIT_DATA {
      var rx := Blit(s.rx, 0, f.Data()[..f.Len()]);
      DispatchErrors(s.(timeout := f.cid, pending := Pending(f.cid, f.Cmd(), 0, f.Len()), rx := rx), reply, code);
    }
  }

  lemma ContErrors(s: State, f: Frame, reply: Reply, code: nat)
    requires Inv(s) && f.Valid() && Ordinary(f) && !f.IsInit() && !LockedOut(s, f)
    ensures IsError(ContStep(s, f, reply).sent, f.cid, code) <==> ErrorDue(s, f, ContStep(s, f, reply).msgs, code)
  {
    hide IsError, ErrorFrame, Dispatch, Blit;
    ErrorFrameIs(f.cid, ERR_INVALID_SEQ);
    NothingIsNoError(f.cid, code);
    var p := s.pending;
    if p.cid == f.cid && p.seqno == f.head {
      var at := INIT_DATA + CONT_DATA * p.seqno;
      DispatchErrors(s.(timeout := p.cid, rx := Blit(s.rx, at, f.Data()), pending := p.(seqno := p.seqno + 1)), reply, code);
    }
  }

  lemma NothingIsNoError(cid: nat, code: nat)
    ensures !IsError([], cid, code)
  {
  }

  /** Every frame is answered with exactly the error that is due, if one is. */
  lemma StepErrors(s: State, f: Frame, reply: Reply, code: nat)
    requires Inv(s) && f.Valid()
    ensures IsError(Step(s, f, reply).sent, f.cid, code) <==> ErrorDue(s, f, Step(s, f, reply).msgs, code)
  {
    hide IsError, ErrorFrame, InitStep, ContStep, Inv;
    ErrorFrameIs(f.cid, ERR_INVALID_CID);
    ErrorFrameIs(f.cid, ERR_CHANNEL_BUSY);
    if Ordinary(f) && !LockedOut(s, f) {
      if f.IsInit() {
        InitErrors(s, f, reply, code);
      } else {
        ContErrors(s, f, reply, code);
      }
    } else if f.cid != 0 && f.IsInit() && f.Cmd() == CMD_INIT {
      InitAnswered(s, f, reply);
      InitIsNoError(Step(s, f, reply).sent, f.cid, code);
    }
  }

  lemma InitIsNoError(sent: seq<Frame>, cid: nat, code: nat)
    requires |sent| == 1 && sent[0].Cmd() == CMD_INIT
    ensures !IsError(sent, cid, code)
  {
  }

  /** An error leaves the state alone, but a wrong frame of the pending channel ends its transaction. */
  lemma ErrorEffect(s: State, f: Frame, reply: Reply, code: nat)
    requires Inv(s) && f.Valid() && IsError(Step(s, f, reply).sent, f.cid, code) && code != ERR_INVALID_CMD
    ensures Step(s, f, reply).msgs == []
    ensures Step(s, f, reply).s == if code == ERR_INVALID_SEQ then s.(timeout := 0, pending := NONE_PENDING) else s
  {
    StepErrors(s, f, reply, code);
    hide IsError, ErrorFrame, Blit, Dispatch;
  }

  // ----- locking

  /** Under a lock only the holder is served, and only a LOCK of the holder changes the lock. */
  lemma LockedStep(s: State, f: Frame, reply: Reply)
    requires Inv(s) && f.Valid() && s.lock != 0
    ensures f.cid != s.lock ==> Step(s, f, reply).msgs == []
    ensures forall m | m in Step(s, f, reply).msgs :: m.cid == s.lock
    ensures Step(s, f, reply).s.lock != s.lock ==> exists m :: m in Step(s, f, reply).msgs && m.cmd == CMD_LOCK
  {
    hide Fragment, InitFrame;
    var o := Step(s, f, reply);
    if o.s.lock != s.lock {
      assert o.msgs[0].cmd == CMD_LOCK;
    }
  }

  /** As long as the holder of the lock is silent, nothing is dispatched and the lock stays. */
  lemma {:induction false} LockExcludes(s: State, ins: seq<Input>)
    requires Inv(s) && ValidInputs(ins) && s.lock != 0
    requires forall i | 0 <= i < |ins| :: ins[i].f.cid != s.lock
    ensures Dispatched(s, ins) == [] && Run(s, ins).lock == s.lock
  {
    if ins != [] {
      var before, last := ins[..|ins| - 1], ins[|ins| - 1];
      LockExcludes(s, before);
      hide Step;
      LockedStep(Run(s, before), last.f, last.reply);
      assert last.f.cid != s.lock;
    }
  }

  /** A LOCK with data follows its first byte; an empty LOCK follows the byte left in the buffer. */
  lemma LockDuration(s: State, f: Frame, reply: Reply, m: Message)
    requires Inv(s) && f.Valid() && Step(s, f, reply).msgs == [m] && m.cmd == CMD_LOCK
    ensures Step(s, f, reply).s.lock == if (if |m.data| > 0 then m.data[0] else s.rx[0]) == 0 then 0 else m.cid
  {
    hide Fragment, InitFrame;
    if f.IsInit() && f.Len() == 0 {
      assert Blit(s.rx, 0, f.Data()[..0]) == s.rx;
    }
  }

  // ----- channel allocation

  /** Channel ids run through 1 .. 2^32 - 2. */
  const PERIOD: nat := 0xfffffffe

  predicate Allocates(f: Frame)
  {
    f.cid == CID_BROADCAST && f.IsInit() && f.Cmd() == CMD_INIT
  }

  ghost function Allocations(ins: seq<Input>): (n: nat)
  {
    if ins == [] then 0 else Allocations(ins[..|ins| - 1]) + if Allocates(ins[|ins| - 1].f) then 1 else 0
  }

  /** The channel id in an answer to the INIT command, least significant byte first. */
  function AnsweredCid(f: Frame): nat
    requires |f.rest| == CONT_DATA
  {
    (f.rest[10] as int) + (f.rest[11] as int) * 0x100 + (f.rest[12] as int) * 0x10000 + (f.rest[13] as int) * 0x1000000
  }

  /** The ids go round: 1 to 2^32 - 2. */
  function Slot(n: nat): (id: nat)
    ensures 0 < id < CID_BROADCAST
  {
    1 + n % PERIOD
  }

  lemma AllocationsLast(ins: seq<Input>)
    requires ins != [] && ValidInputs(ins)
    ensures var before, last := ins[..|ins| - 1], ins[|ins| - 1];
            && last.f.Valid() && ValidInputs(before)
            && Allocations(ins) == Allocations(before) + if Allocates(last.f) then 1 else 0
  {
    hide Allocates;
  }

  /** After n allocations from the initial state the next id is 1 + n modulo 2^32 - 2. */
  lemma {:induction false} NextCid(s: State, ins: seq<Input>)
    requires Inv(s) && s.next == INITIAL_CID && ValidInputs(ins)
    ensures Run(s, ins).next == Slot(Allocations(ins))
  {
    if ins != [] {
      hide Step, Run, Inv, Allocations, Allocates, ValidInputs, Slot;
      var before, last := ins[..|ins| - 1], ins[|ins| - 1];
      AllocationsLast(ins);
      NextCid(s, before);
      RunLast(s, ins);
      StepNext(Run(s, before), last.f, last.reply);
      NextSlot(Allocations(before), Run(s, before).next, Run(s, ins).next);
    } else {
      RunNothing(s, 0);
    }
  }

  lemma NextSlot(n: nat, id: nat, next: nat)
    requires id == Slot(n)
    ensures next == (if id == CID_BROADCAST - 1 then 1 else id + 1) <==> next == Slot(n + 1)
  {
    assert (n + 1) % PERIOD == if n % PERIOD == PERIOD - 1 then 0 else n % PERIOD + 1;
  }

  lemma StepNext(s: State, f: Frame, reply: Reply)
    requires Inv(s) && f.Valid()
    ensures Step(s, f, reply).s.next == if !Allocates(f) then s.next else if s.next == CID_BROADCAST - 1 then 1 else s.next + 1
  {
    hide Fragment, InitFrame;
  }

  /** The n-th allocation of a run answers with id 1 + n modulo 2^32 - 2, never 0 or broadcast. */
  lemma AllocatedCid(s: State, ins: seq<Input>, f: Frame, reply: Reply)
    requires Inv(s) && s.next == INITIAL_CID && ValidInputs(ins) && f.Valid() && Allocates(f)
    ensures var sent := Step(Run(s, ins), f, reply).sent;
            |sent| == 1 && |sent[0].rest| == CONT_DATA && AnsweredCid(sent[0]) == Slot(Allocations(ins))
            && 0 < AnsweredCid(sent[0]) < CID_BROADCAST
  {
    NextCid(s, ins);
    InitAnswered(Run(s, ins), f, reply);
  }

  /**
   The INIT command is answered at once, whatever is pending or locked, by one frame on its own channel: the nonce,
   a channel id that is new on broadcast and the channel's own otherwise, the version and the capabilities.
   A transaction of the channel is given up.
   */
  lemma InitAnswered(s: State, f: Frame, reply: Reply)
    requires Inv(s) && f.Valid() && f.cid != 0 && f.IsInit() && f.Cmd() == CMD_INIT
    ensures var o := Step(s, f, reply);
            && |o.sent| == 1 && o.sent[0].Valid() && o.sent[0].cid == f.cid && o.msgs == []
            && o.sent[0].IsInit() && o.sent[0].Cmd() == CMD_INIT && o.sent[0].Len() == 17
            && o.sent[0].Data()[..8] == f.Data()[..8]
            && AnsweredCid(o.sent[0]) == (if f.cid == CID_BROADCAST then s.next else f.cid)
            && o.sent[0].Data()[12..17] == [2, 0, 0, 0, 3] && ZerosFrom(o.sent[0].Data(), 17)
            && o.s.pending == (if f.cid == s.pending.cid then NONE_PENDING else s.pending) && o.s.lock == s.lock && o.s.rx == s.rx
  {
    FourBytes(s.next);
    FourBytes(f.cid);
    var g := Step(s, f, reply).sent[0];
    var cid := if f.cid == CID_BROADCAST then s.next else f.cid;
    assert g.rest[2..] == f.rest[2..10] + [cid % 256, cid / 0x100 % 256, cid / 0x10000 % 256, cid / 0x1000000 % 256]
                          + [2, 0, 0, 0, 3] + Zeros(40);
    assert f.Data()[..8] == f.rest[2..10];
  }

  lemma FourBytes(p: nat)
    requires p < 0x1_0000_0000
    ensures p == p % 256 + (p / 0x100 % 256) * 0x100 + (p / 0x10000 % 256) * 0x10000 + (p / 0x1000000 % 256) * 0x1000000
  {
    var a, b, c := p / 0x100, p / 0x100 / 0x100, p / 0x100 / 0x100 / 0x100;
    assert p == 0x100 * a + p % 256 && a == 0x100 * b + a % 256 && b == 0x100 * c + b % 256;
    assert p / 0x10000 == b && p / 0x1000000 == c;
  }

  lemma SlotsDiffer(i: nat, j: nat)
    requires i < j < i + PERIOD
    ensures Slot(i) != Slot(j)
  {
  }

  lemma {:induction false} AllocationsGrow(ins: seq<Input>, ins': seq<Input>)
    requires ins <= ins'
    ensures Allocations(ins) <= Allocations(ins')
  {
    if |ins| < |ins'| {
      AllocationsGrow(ins, ins'[..|ins'| - 1]);
    } else {
      assert ins == ins';
    }
  }

  /** In every run, two allocations less than 2^32 - 2 allocations apart answer with different ids. */
  lemma AllocatedDistinct(s: State, first: seq<Input>, f: Frame, reply: Reply, later: seq<Input>, f': Frame, reply': Reply)
    requires Inv(s) && s.next == INITIAL_CID && ValidInputs(first) && ValidInputs(later)
    requires f.Valid() && Allocates(f) && f'.Valid() && Allocates(f')
    requires first + [Input(f, reply)] <= later && Allocations(later) < Allocations(first) + PERIOD
    ensures var sent, sent' := Step(Run(s, first), f, reply).sent, Step(Run(s, later), f', reply').sent;
            |sent| == 1 == |sent'| && |sent[0].rest| == CONT_DATA == |sent'[0].rest| && AnsweredCid(sent[0]) != AnsweredCid(sent'[0])
  {
    AllocatedCid(s, first, f, reply);
    AllocatedCid(s, later, f', reply');
    assert (first + [Input(f, reply)])[..|first|] == first;
    assert Allocations(first + [Input(f, reply)]) == Allocations(first) + 1;
    AllocationsGrow(first + [Input(f, reply)], later);
    hide *;
    SlotsDiffer(Allocations(first), Allocations(later));
  }
}
