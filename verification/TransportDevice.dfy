/**
 The transport as it runs: static variables and buffers updated frame by frame, proved against the
 state machine.
 */
module TransportDevice {
  import opened Frames
  import opened Transport

  /** The frames that get out when the USB driver takes so many before it reports an error. */
  function Taken(fs: seq<Frame>, takes: nat): (r: seq<Frame>)
  {
    if takes < |fs| then fs[..takes] else fs
  }

  /** State and dispatched messages are those of the machine, and so are the frames as far as they get out. */
  ghost predicate Follows(o: Out, s: State, sent: seq<Frame>, msgs: seq<Message>, takes: nat)
  {
    s == o.s && msgs == o.msgs && sent == Taken(o.sent, takes)
  }

  lemma {:induction false} FirstOf(m: Message, n: nat, i: nat)
    requires m.cmd < 128 && |m.data| <= MAX_BCNT && i <= n <= ContCount(|m.data|)
    ensures FirstFrames(m, i) == FirstFrames(m, n)[..i + 1]
  {
    hide InitFrame, ContFrame, ContCount;
    if i < n {
      FirstOf(m, n - 1, i);
      NextFrame(m, n);
    } else {
      hide FirstFrames;
    }
  }

  lemma FirstFrame(m: Message)
    requires m.cmd < 128 && |m.data| <= MAX_BCNT
    ensures FirstFrames(m, 0) == [InitFrame(m.cid, m.cmd, m.data)]
  {
    hide InitFrame, ContFrame, ContCount;
  }

  lemma NextFrame(m: Message, n: nat)
    requires m.cmd < 128 && |m.data| <= MAX_BCNT && 0 < n <= ContCount(|m.data|)
    ensures FirstFrames(m, n) == FirstFrames(m, n - 1) + [ContFrame(m.cid, m.data, n - 1)]
  {
    hide InitFrame, ContFrame, ContCount;
  }

  lemma NoneTaken(m: Message)
    requires m.cmd < 128 && |m.data| <= MAX_BCNT
    ensures Taken(Fragment(m), 0) == []
  {
    hide InitFrame, ContFrame, ContCount, FirstFrames;
  }

  lemma SomeTaken(m: Message, i: nat, takes: nat)
    requires m.cmd < 128 && |m.data| <= MAX_BCNT && i <= ContCount(|m.data|)
    requires i < takes && (i == ContCount(|m.data|) || i + 1 == takes)
    ensures Taken(Fragment(m), takes) == FirstFrames(m, i)
  {
    hide InitFrame, ContFrame, ContCount, FirstFrames;
    FirstOf(m, ContCount(|m.data|), i);
  }

  class Device {
    var nextCid: nat
    var lockCid: nat
    var timeoutCid: nat
    var pending: Pending
    const rx: array<Byte>

    ghost function View(): State
      reads this, rx
    {
      State(nextCid, lockCid, timeoutCid, pending, rx[..])
    }

    ghost predicate Valid()
      reads this, rx
    {
      Inv(View())
    }

    constructor ()
      ensures Valid() && Initial(View()) && fresh(rx)
    {
      nextCid, lockCid, timeoutCid, pending := INITIAL_CID, 0, 0, NONE_PENDING;
      rx := new Byte[MAX_BCNT](_ => 0);
    }

    method ClearPending()
      modifies this`pending
      ensures pending == NONE_PENDING
    {
      pending := Pending(0, 0, 0, 0);
    }

    method CancelTimeout()
      modifies this`timeoutCid
      ensures timeoutCid == 0
    {
      if timeoutCid != 0 {
        timeoutCid := 0;
      }
    }

    /** memcpy into the receive buffer. */
    method CopyIn(at: nat, data: seq<Byte>)
      requires at + |data| <= rx.Length
      modifies rx
      ensures rx[..] == Blit(old(rx[..]), at, data)
    {
      for i := 0 to |data|
        invariant rx[..at] == old(rx[..at]) && rx[at..at + i] == data[..i] && rx[at + i..] == old(rx[at + i..])
      {
        rx[at + i] := data[i];
        assert data[..i + 1] == data[..i] + [data[i]];
        assert rx[at..at + i + 1] == rx[at..at + i] + [data[i]];
      }
      assert rx[..] == rx[..at] + rx[at..at + |data|] + rx[at + |data|..];
    }

    /** `consume_frame`: true when the message is complete. */
    method ConsumeFrame(f: Frame) returns (last: bool)
      requires rx.Length == MAX_BCNT && f.Valid() && !f.IsInit()
      requires INIT_DATA + CONT_DATA * pending.seqno < pending.bcnt <= MAX_BCNT
      modifies this`pending, rx
      ensures pending == old(pending).(seqno := old(pending).seqno + 1)
      ensures rx[..] == Blit(old(rx[..]), INIT_DATA + CONT_DATA * old(pending).seqno, f.Data())
      ensures last <==> INIT_DATA + CONT_DATA * pending.seqno >= pending.bcnt
    {
      var received := INIT_DATA + CONT_DATA * pending.seqno;
      CopyIn(received, f.rest);
      received := received + CONT_DATA;
      pending := pending.(seqno := pending.seqno + 1);
      last := received >= pending.bcnt;
    }

    /** The sending half of `u2fhid_response_msg`; the frame counter is 8 bits wide, and an error ends the loop. */
    method SendResponse(cid: nat, cmd: nat, tx: seq<Byte>, takes: nat) returns (sent: seq<Frame>)
      requires cmd < 128 && |tx| <= MAX_BCNT
      ensures sent == Taken(Fragment(Message(cid, cmd, tx)), takes)
    {
      hide InitFrame, ContFrame, ContCount, FirstFrames, Fragment, Taken;
      var contFrames := NumContFrames(|tx|);
      ghost var m := Message(cid, cmd, tx);
      FirstFrame(m);
      if takes == 0 {
        NoneTaken(m);
        return [];
      }
      sent := [InitFrame(cid, cmd, tx)];
      var i := 0;
      while i < contFrames
        invariant i <= contFrames == ContCount(|tx|) && sent == FirstFrames(m, i) && i < takes
      {
        if i + 1 == takes { break; }
        NextFrame(m, i + 1);
        sent := sent + [ContFrame(cid, tx, i)];
        i := i + 1;
      }
      SomeTaken(m, i, takes);
    }

    /** The number of continuation frames, in 8 bits. */
    method NumContFrames(len: nat) returns (n: nat)
      requires len <= MAX_BCNT
      ensures n == ContCount(len)
    {
      n := (if len > INIT_DATA then (len - INIT_DATA + 58) / CONT_DATA else 0) % 256;
    }

    /** `u2fhid_cmd_lock`. */
    method CmdLock(cid: nat, duration: Byte)
      modifies this`lockCid
      ensures lockCid == if duration == 0 then 0 else cid
    {
      if duration == 0 {
        lockCid := 0;
      } else {
        lockCid := cid;
      }
    }

    /** `u2fhid_response_msg`. */
    method ResponseMsg(reply: Reply, takes: nat) returns (sent: seq<Frame>, ghost msgs: seq<Message>)
      requires rx.Length == MAX_BCNT && pending.bcnt <= MAX_BCNT && pending.cmd < 128
      modifies this`timeoutCid, this`lockCid, this`pending
      ensures Follows(Dispatch(old(View()), reply), View(), sent, msgs, takes)
    {
      hide Fragment;
      CancelTimeout();
      var cid, cmd := pending.cid, pending.cmd;
      var tx: seq<Byte> := [];
      msgs := [Message(cid, cmd, rx[..pending.bcnt])];
      if cmd == CMD_MSG || cmd == CMD_SYSINFO {
        tx := reply;
      } else if cmd == CMD_PING {
        tx := rx[..pending.bcnt];
      } else if cmd == CMD_LOCK {
        CmdLock(cid, rx[0]);
      } else if cmd != CMD_WINK && cmd != CMD_PROMPT {
        sent := Taken([ErrorFrame(cid, ERR_INVALID_CMD)], takes);
        ClearPending();
        return;
      }
      sent := SendResponse(cid, cmd, tx, takes);
      ClearPending();
    }

    /** `u2fhid_cmd_init`. */
    method CmdInit(f: Frame, takes: nat) returns (sent: seq<Frame>)
      requires f.Valid() && nextCid < CID_BROADCAST
      modifies this`nextCid
      ensures Follows(InitCommand(old(View()), f), View(), sent, [], takes)
    {
      var proposed := f.cid;
      if f.cid == CID_BROADCAST {
        proposed := nextCid;
        nextCid := nextCid + 1;
        if nextCid == CID_BROADCAST {
          nextCid := 1;
        }
      }
      var id := [proposed % 256, proposed / 0x100 % 256, proposed / 0x10000 % 256, proposed / 0x1000000 % 256];
      sent := Taken([InitFrame(f.cid, CMD_INIT, f.rest[2..10] + id + [2, 0, 0, 0, 3])], takes);
    }

    /** The INIT branch of the frame handler. */
    method ProcessInit(f: Frame, reply: Reply, takes: nat) returns (sent: seq<Frame>, ghost msgs: seq<Message>)
      requires Valid() && f.Valid() && f.IsInit() && f.Cmd() != CMD_INIT
      modifies this, rx
      ensures Follows(InitStep(old(View()), f, reply), View(), sent, msgs, takes)
    {
      hide Fragment, InitFrame, Blit;
      if f.cid != pending.cid && pending.cid != 0 { return Taken([ErrorFrame(f.cid, ERR_CHANNEL_BUSY)], takes), []; }
      if pending.cid != 0 {
        CancelTimeout();
        ClearPending();
        return Taken([ErrorFrame(f.cid, ERR_INVALID_SEQ)], takes), [];
      }
      if f.Len() > MAX_BCNT { return Taken([ErrorFrame(f.cid, ERR_INVALID_LEN)], takes), []; }
      timeoutCid := f.cid;
      pending := Pending(f.cid, f.Cmd(), 0, f.Len());
      if f.Len() <= INIT_DATA {
        CopyIn(0, f.Data()[..f.Len()]);
        sent, msgs := ResponseMsg(reply, takes);
      } else {
        CopyIn(0, f.Data());
        sent, msgs := [], [];
      }
    }

    /** The CONT branch of the frame handler. */
    method ProcessCont(f: Frame, reply: Reply, takes: nat) returns (sent: seq<Frame>, ghost msgs: seq<Message>)
      requires Valid() && f.Valid() && !f.IsInit()
      modifies this, rx
      ensures Follows(ContStep(old(View()), f, reply), View(), sent, msgs, takes)
    {
      hide Fragment, InitFrame, Blit;
      if pending.cid == 0 || pending.cid != f.cid { return [], []; }
      if pending.seqno != f.head {
        CancelTimeout();
        ClearPending();
        return Taken([ErrorFrame(f.cid, ERR_INVALID_SEQ)], takes), [];
      }
      timeoutCid := pending.cid;
      var last := ConsumeFrame(f);
      sent, msgs := [], [];
      if last {
        sent, msgs := ResponseMsg(reply, takes);
      }
    }

    /** `u2fhid_process_frame`: one frame of the state machine. */
    method ProcessFrame(f: Frame, reply: Reply, takes: nat) returns (sent: seq<Frame>, ghost msgs: seq<Message>)
      requires Valid() && f.Valid()
      modifies this, rx
      ensures Valid() && Follows(Step(old(View()), f, reply), View(), sent, msgs, takes)
    {
      StepKeepsInv(View(), f, reply);
      hide InitStep, ContStep, InitFrame, InitCommand;
      if f.cid == 0 { return Taken([ErrorFrame(f.cid, ERR_INVALID_CID)], takes), []; }
      if f.cid == CID_BROADCAST && f.Cmd() != CMD_INIT { return Taken([ErrorFrame(f.cid, ERR_INVALID_CID)], takes), []; }
      if f.IsInit() && f.Cmd() == CMD_INIT {
        if f.cid == pending.cid {
          CancelTimeout();
          ClearPending();
        }
        sent := CmdInit(f, takes);
        msgs := [];
        return;
      }
      if lockCid > 0 && f.cid != lockCid { return Taken([ErrorFrame(f.cid, ERR_CHANNEL_BUSY)], takes), []; }
      if f.IsInit() {
        sent, msgs := ProcessInit(f, reply, takes);
      } else {
        sent, msgs := ProcessCont(f, reply, takes);
      }
    }
  }
}
