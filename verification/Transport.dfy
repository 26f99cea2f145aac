/**
 The frame-by-frame state machine of the U2F HID transport.
 */
module Transport {
  import opened Frames

  const CMD_PING: nat := 0x01
  const CMD_MSG: nat := 0x03
  const CMD_LOCK: nat := 0x04
  const CMD_SYSINFO: nat := 0x05
  const CMD_INIT: nat := 0x06
  const CMD_PROMPT: nat := 0x07
  const CMD_WINK: nat := 0x08
  const CMD_ERROR: nat := 0x3f

  const ERR_INVALID_CMD: nat := 0x01
  const ERR_INVALID_LEN: nat := 0x03
  const ERR_INVALID_SEQ: nat := 0x04
  const ERR_CHANNEL_BUSY: nat := 0x06
  const ERR_INVALID_CID: nat := 0x0b

  /** State of a multi-packet transaction; the channel is 0 when there is none. */
  datatype Pending = Pending(cid: nat, cmd: nat, seqno: nat, bcnt: nat)

  const NONE_PENDING: Pending := Pending(0, 0, 0, 0)

  datatype State = State(next: nat, lock: nat, timeout: nat, pending: Pending, rx: seq<Byte>)

  /** The result of a frame: the new state, the frames sent back and the messages dispatched. */
  datatype Out = Out(s: State, sent: seq<Frame>, msgs: seq<Message>)

  /** What a command handler writes as its response (MSG and SYSINFO). */
  type Reply = r: seq<Byte> | |r| <= MAX_BCNT

  /** Bytes copied into a buffer, as memcpy does. */
  function Blit(buf: seq<Byte>, at: nat, data: seq<Byte>): (r: seq<Byte>)
    requires at + |data| <= |buf|
    ensures |r| == |buf|
  {
    buf[..at] + data + buf[at + |data|..]
  }

  /** `u2fhid_err`. */
  function ErrorFrame(cid: nat, code: nat): (f: Frame)
    requires code < 256
    ensures f.cid == cid && |f.rest| == CONT_DATA
  {
    InitFrame(cid, CMD_ERROR, [code])
  }

  /** The state invariant between frames. */
  ghost predicate Inv(s: State)
  {
    && |s.rx| == MAX_BCNT
    && 1 <= s.next < CID_BROADCAST
    && s.timeout == s.pending.cid
    && s.pending.cid != CID_BROADCAST && s.lock != CID_BROADCAST
    && (s.pending.cid == 0 ==> s.pending == NONE_PENDING)
    && (s.pending.cid != 0 ==>
        && s.pending.cmd < 128 && s.pending.cmd != CMD_INIT
        && INIT_DATA + CONT_DATA * s.pending.seqno < s.pending.bcnt <= MAX_BCNT)
    && (s.lock != 0 && s.pending.cid != 0 ==> s.lock == s.pending.cid)
  }

  const INITIAL_CID: nat := 1

  ghost predicate Initial(s: State)
  {
    s.next == INITIAL_CID && s.lock == 0 && s.timeout == 0 && s.pending == NONE_PENDING && |s.rx| == MAX_BCNT
  }

  /** `u2fhid_cmd_init`: answers with the nonce and a channel id, allocating one on broadcast. */
  function InitCommand(s: State, f: Frame): (o: Out)
    requires |f.rest| == CONT_DATA && s.next < CID_BROADCAST
  {
    var proposed := if f.cid == CID_BROADCAST then s.next else f.cid;
    var next := if f.cid != CID_BROADCAST then s.next else if s.next + 1 == CID_BROADCAST then 1 else s.next + 1;
    var id := [proposed % 256, proposed / 0x100 % 256, proposed / 0x10000 % 256, proposed / 0x1000000 % 256];
    Out(s.(next := next), [InitFrame(f.cid, CMD_INIT, f.rest[2..10] + id + [2, 0, 0, 0, 3])], [])
  }

  /** `u2fhid_response_msg`: the pending request is complete; dispatch it and fragment the response. */
  function Dispatch(s: State, reply: Reply): (o: Out)
    requires |s.rx| == MAX_BCNT && s.pending.bcnt <= MAX_BCNT && s.pending.cmd < 128
  {
    var cid, cmd := s.pending.cid, s.pending.cmd;
    var data := s.rx[..s.pending.bcnt];
    var idle := s.(timeout := 0, pending := NONE_PENDING);
    var msg := Message(cid, cmd, data);
    if cmd == CMD_MSG || cmd == CMD_SYSINFO then Out(idle, Fragment(Message(cid, cmd, reply)), [msg])
    else if cmd == CMD_PING then Out(idle, Fragment(msg), [msg])
    else if cmd == CMD_LOCK then
      Out(idle.(lock := if s.rx[0] == 0 then 0 else cid), Fragment(Message(cid, cmd, [])), [msg])
    else if cmd == CMD_WINK || cmd == CMD_PROMPT then Out(idle, Fragment(Message(cid, cmd, [])), [msg])
    else Out(idle, [ErrorFrame(cid, ERR_INVALID_CMD)], [msg])
  }

  /** An INIT frame that is not the INIT command. */
  function InitStep(s: State, f: Frame, reply: Reply): (o: Out)
    requires Inv(s) && f.Valid() && f.IsInit() && f.Cmd() != CMD_INIT
  {
    if f.cid != s.pending.cid && s.pending.cid != 0 then Out(s, [ErrorFrame(f.cid, ERR_CHANNEL_BUSY)], [])
    else if s.pending.cid != 0 then
      Out(s.(timeout := 0, pending := NONE_PENDING), [ErrorFrame(f.cid, ERR_INVALID_SEQ)], [])
    else if f.Len() > MAX_BCNT then Out(s, [ErrorFrame(f.cid, ERR_INVALID_LEN)], [])
    else
      var begun := s.(timeout := f.cid, pending := Pending(f.cid, f.Cmd(), 0, f.Len()));
      if f.Len() <= INIT_DATA then Dispatch(begun.(rx := Blit(s.rx, 0, f.Data()[..f.Len()])), reply)
      else Out(begun.(rx := Blit(s.rx, 0, f.Data())), [], [])
  }

  /** A CONT frame. */
  function ContStep(s: State, f: Frame, reply: Reply): (o: Out)
    requires Inv(s) && f.Valid() && !f.IsInit()
  {
    if s.pending.cid == 0 || s.pending.cid != f.cid then Out(s, [], [])
    else if s.pending.seqno != f.head then
      Out(s.(timeout := 0, pending := NONE_PENDING), [ErrorFrame(f.cid, ERR_INVALID_SEQ)], [])
    else
      var at := INIT_DATA + CONT_DATA * s.pending.seqno;
      var got := s.(timeout := s.pending.cid, rx := Blit(s.rx, at, f.Data()), pending := s.pending.(seqno := s.pending.seqno + 1));
      if at + CONT_DATA >= s.pending.bcnt then Dispatch(got, reply) else Out(got, [], [])
  }

  /** `u2fhid_process_frame`. */
  function Step(s: State, f: Frame, reply: Reply): (o: Out)
    requires Inv(s) && f.Valid()
  {
    if f.cid == 0 then Out(s, [ErrorFrame(f.cid, ERR_INVALID_CID)], [])
    else if f.cid == CID_BROADCAST && f.Cmd() != CMD_INIT then Out(s, [ErrorFrame(f.cid, ERR_INVALID_CID)], [])
    else if f.IsInit() && f.Cmd() == CMD_INIT then
      InitCommand(if f.cid == s.pending.cid then s.(timeout := 0, pending := NONE_PENDING) else s, f)
    else if s.lock > 0 && f.cid != s.lock then Out(s, [ErrorFrame(f.cid, ERR_CHANNEL_BUSY)], [])
    else if f.IsInit() then InitStep(s, f, reply)
    else ContStep(s, f, reply)
  }

  /** Every frame keeps the invariant: in particular every copy into the receive buffer is in bounds. */
  lemma StepKeepsInv(s: State, f: Frame, reply: Reply)
    requires Inv(s) && f.Valid()
    ensures Inv(Step(s, f, reply).s)
  {
    hide Fragment, InitFrame;
  }
}
