/**
 The SPI device's command memory: a 512-byte ring filled by the SPI host, a queue of end pointers with
 one entry per command, and `get_received_data`, which takes out one command. Pointers are registers
 of ten bits: nine bits of address and one bit that flips on every lap.
 */
module SpiFifo {

  newtype Byte = x: int | 0 <= x < 256

  const RING: nat := 512
  const LAPS: nat := 1024

  /** All bytes of a list of commands, in order. */
  ghost function Flat(commands: seq<seq<Byte>>): (s: seq<Byte>)
  {
    if commands == [] then [] else commands[0] + Flat(commands[1..])
  }

  lemma {:induction false} FlatAppend(commands: seq<seq<Byte>>, last: seq<Byte>)
    ensures Flat(commands + [last]) == Flat(commands) + last
  {
    if commands == [] {
      assert commands + [last] == [last];
      assert Flat([last]) == last + Flat([]);
    } else {
      assert (commands + [last])[1..] == commands[1..] + [last];
      FlatAppend(commands[1..], last);
    }
  }

  /** The register of a position in the stream, and the cell of the ring that a register points to. */
  function Reg(position: nat): (reg: nat)
    ensures reg < LAPS
  {
    position % LAPS
  }

  function Address(reg: nat): (a: nat)
    ensures a < RING
  {
    reg % RING
  }

  function Lap(reg: nat): nat
    requires reg < LAPS
  {
    reg / RING
  }

  lemma OneLap(x: nat)
    ensures Reg(x + LAPS) == Reg(x) && Address(x + RING) == Address(x)
  {
    Remainder(x + LAPS, x / LAPS + 1, x % LAPS, LAPS);
    Remainder(x + RING, x / RING + 1, x % RING, RING);
  }

  lemma Remainder(x: int, q: int, r: int, m: int)
    requires 0 <= r < m && x == q * m + r
    ensures x % m == r
  {
    var k := q - x / m;
    assert k * m == x % m - r;
    assert k >= 1 ==> k * m >= m;
    assert k <= -1 ==> k * m <= -m;
  }

  lemma {:induction false} Periodic(x: nat, laps: nat)
    ensures Reg(x + LAPS * laps) == Reg(x)
    ensures Address(x + RING * laps) == Address(x)
  {
    hide Reg, Address;
    if laps > 0 {
      Periodic(x, laps - 1);
      OneLap(x + LAPS * (laps - 1));
      OneLap(x + RING * (laps - 1));
    }
  }

  lemma SameRegister(position: nat, n: nat)
    ensures Reg(Reg(position) + n) == Reg(position + n)
  {
    Periodic(Reg(position) + n, position / LAPS);
  }

  lemma DistanceFrom(r: nat, n: nat)
    requires r < LAPS && n <= RING
    ensures var w := Reg(r + n);
            n == (if Address(r) < Address(w) then Address(w) - Address(r)
                  else if Lap(r) != Lap(w) then RING - Address(r) + Address(w)
                  else 0)
  {
    if r + n < LAPS {
      assert Reg(r + n) == r + n;
    } else {
      assert Reg(r + n) == r + n - LAPS;
    }
  }

  /**
   The registers of two unbounded positions at most one ring apart give back their distance, by
   exactly the case distinction the driver makes. In particular the lap bits tell an empty ring from
   a full one, and need not be looked at when the addresses are in order.
   */
  lemma Distance(position: nat, n: nat)
    requires n <= RING
    ensures var r, w := Reg(position), Reg(position + n);
            n == (if Address(r) < Address(w) then Address(w) - Address(r)
                  else if Lap(r) != Lap(w) then RING - Address(r) + Address(w)
                  else 0)
  {
    hide *;
    SameRegister(position, n);
    DistanceFrom(Reg(position), n);
  }

  lemma SameCell(position: nat, k: nat)
    ensures Address(position + k) == Address(Address(Reg(position)) + k)
  {
    var r := Reg(position);
    Periodic(r + k, 2 * (position / LAPS));
    Periodic(Address(r) + k, r / RING);
  }

  lemma AddressWraps(x: nat)
    requires x < LAPS
    ensures Address(x) == if x < RING then x else x - RING
  {
  }

  function Min(a: nat, b: nat): nat
  {
    if a < b then a else b
  }

  class Sps {
    const cmdBuf: array<Byte>
    var rptr: nat
    var addrFifo: seq<nat>

    // The position of the read pointer in the stream of all bytes ever received, and the commands
    // received and not yet taken out.
    ghost var position: nat
    ghost var pending: seq<seq<Byte>>

    /** The registers and the ring represent the pending commands. */
    ghost predicate Valid()
      reads this, cmdBuf
    {
      && cmdBuf.Length == RING
      && rptr == Reg(position)
      && |addrFifo| == |pending|
      && |Flat(pending)| <= RING
      && Ends(addrFifo, position, pending)
      && Holds(cmdBuf[..], position, Flat(pending))
    }

    constructor ()
      ensures Valid() && pending == [] && fresh(cmdBuf)
    {
      cmdBuf := new Byte[RING](_ => 0);
      rptr, addrFifo := 0, [];
      position, pending := 0, [];
    }

    /**
     The SPI host sends one command and ends its transaction; the hardware stores the bytes behind
     those stored before and queues the new end. A command that does not fit overflows the memory,
     and is refused here.
     */
    method HostCommand(bytes: seq<Byte>) returns (stored: bool)
      requires Valid()
      modifies this, cmdBuf
      ensures Valid()
      ensures stored <==> |Flat(old(pending))| + |bytes| <= RING
      ensures pending == (if stored then old(pending) + [bytes] else old(pending))
    {
      hide Reg, Address;
      ghost var before := Flat(pending);
      var start := if addrFifo == [] then rptr else addrFifo[|addrFifo| - 1];
      LastEnd(addrFifo, position, pending);
      assert start == Reg(position + |before|);
      var used := Used();
      stored := used + |bytes| <= RING;
      if !stored {
        return;
      }
      for k := 0 to |bytes|
        invariant unchanged(this)
        invariant Holds(cmdBuf[..], position, before + bytes[..k])
      {
        var at := Address(Address(start) + k);
        SameCell(position + |before|, k);
        assert at == Address(position + |before| + k);
        HoldsStep(cmdBuf[..], position, before + bytes[..k], bytes[k]);
        cmdBuf[at] := bytes[k];
        assert before + bytes[..k + 1] == (before + bytes[..k]) + [bytes[k]];
      }
      assert bytes[..|bytes|] == bytes;
      var end := Reg(start + |bytes|);
      SameRegister(position + |before|, |bytes|);
      assert end == Reg(position + (|before| + |bytes|));
      EndsAppend(addrFifo, position, pending, bytes);
      FlatAppend(pending, bytes);
      addrFifo := addrFifo + [end];
      pending := pending + [bytes];
    }

    /** How many bytes of the ring the hardware still has to keep. */
    method Used() returns (n: nat)
      requires Valid()
      ensures n == |Flat(pending)|
    {
      hide Reg, Address;
      var w := if addrFifo == [] then rptr else addrFifo[|addrFifo| - 1];
      LastEnd(addrFifo, position, pending);
      Distance(position, |Flat(pending)|);
      n := if Address(rptr) < Address(w) then Address(w) - Address(rptr)
           else if Lap(rptr) != Lap(w) then RING - Address(rptr) + Address(w)
           else 0;
    }

    /**
     `get_received_data`: the oldest command, cut to the caller's buffer, and nothing when there is
     none. The whole command leaves the ring, whether or not all of it was returned.
     */
    method GetReceivedData(readBuffer: array<Byte>) returns (length: nat)
      requires Valid() && readBuffer != cmdBuf
      modifies this, readBuffer
      ensures Valid()
      ensures old(pending) == [] ==> length == 0 && pending == []
      ensures old(pending) != [] ==>
                && pending == old(pending)[1..]
                && length == Min(readBuffer.Length, |old(pending)[0]|)
                && readBuffer[..length] == old(pending)[0][..length]
      ensures length <= readBuffer.Length && readBuffer[length..] == old(readBuffer[length..])
    {
      hide Reg, Address;
      if addrFifo == [] {
        return 0;
      }
      var reg := addrFifo[0];
      ghost var command := pending[0];
      ghost var rest := pending[1..];
      ghost var was := readBuffer[..];
      assert Flat(pending) == command + Flat(rest);
      assert reg == Reg(position + |command|);
      EndsRest(addrFifo, position, pending);
      HoldsRest(cmdBuf[..], position, command, Flat(rest));
      hide Flat, Ends, Holds, Copied;
      Distance(position, |command|);
      length := CopyOut(readBuffer, reg, |command|);
      CopiedIsPrefix(readBuffer[..], was, cmdBuf[..], position, Flat(pending), length);
      addrFifo := addrFifo[1..];
      rptr := reg;
      position := position + |command|;
      pending := rest;
    }

    /** The copying part of `get_received_data`, for a command of n bytes ending at register reg. */
    method CopyOut(readBuffer: array<Byte>, reg: nat, ghost n: nat) returns (length: nat)
      requires cmdBuf.Length == RING && readBuffer != cmdBuf && rptr < LAPS && reg < LAPS
      requires n == (if Address(rptr) < Address(reg) then Address(reg) - Address(rptr)
                     else if Lap(rptr) != Lap(reg) then RING - Address(rptr) + Address(reg)
                     else 0)
      modifies readBuffer
      ensures length == Min(readBuffer.Length, n)
      ensures Copied(readBuffer[..], old(readBuffer[..]), cmdBuf[..], Address(rptr), length)
    {
      hide Address, Copied;
      ghost var was := readBuffer[..];
      CopyNone(was, cmdBuf[..], Address(rptr));
      var startAddr, endAddr := Address(rptr), Address(reg);
      length := 0;
      if startAddr < endAddr {
        length := Min(readBuffer.Length, endAddr - startAddr);
        var tgt := 0;
        for idx := startAddr to endAddr
          invariant unchanged(cmdBuf)
          invariant tgt == idx - startAddr <= length
          invariant Copied(readBuffer[..], was, cmdBuf[..], startAddr, tgt)
        {
          if tgt >= length { break; }
          AddressWraps(startAddr + tgt);
          CopyStep(readBuffer[..], was, cmdBuf[..], startAddr, tgt);
          readBuffer[tgt] := cmdBuf[idx];
          tgt := tgt + 1;
        }
      } else if Lap(reg) != Lap(rptr) {
        length := Min(readBuffer.Length, RING - startAddr + endAddr);
        var tgt := 0;
        for idx := startAddr to RING
          invariant unchanged(cmdBuf)
          invariant tgt == idx - startAddr <= length
          invariant Copied(readBuffer[..], was, cmdBuf[..], startAddr, tgt)
        {
          if tgt >= length { break; }
          AddressWraps(startAddr + tgt);
          CopyStep(readBuffer[..], was, cmdBuf[..], startAddr, tgt);
          readBuffer[tgt] := cmdBuf[idx];
          tgt := tgt + 1;
        }
        for idx := 0 to endAddr
          invariant unchanged(cmdBuf)
          invariant tgt <= length && (tgt < length ==> tgt == RING - startAddr + idx)
          invariant Copied(readBuffer[..], was, cmdBuf[..], startAddr, tgt)
        {
          if tgt >= length { break; }
          AddressWraps(startAddr + tgt);
          CopyStep(readBuffer[..], was, cmdBuf[..], startAddr, tgt);
          readBuffer[tgt] := cmdBuf[idx];
          tgt := tgt + 1;
        }
      }
    }
  }

  /** Every queued end is the register of the position where its command ends. */
  ghost predicate Ends(fifo: seq<nat>, position: nat, commands: seq<seq<Byte>>)
    decreases commands
  {
    && |fifo| == |commands|
    && (commands != [] ==>
          && fifo[0] == Reg(position + |commands[0]|)
          && Ends(fifo[1..], position + |commands[0]|, commands[1..]))
  }

  /** The ring holds these bytes from this position on. */
  ghost predicate Holds(ring: seq<Byte>, position: nat, bytes: seq<Byte>)
  {
    && |ring| == RING
    && forall k :: 0 <= k < |bytes| ==> ring[Address(position + k)] == bytes[k]
  }

  /** The first n bytes of the buffer come from the ring at this address; the others are untouched. */
  ghost predicate Copied(buffer: seq<Byte>, was: seq<Byte>, ring: seq<Byte>, start: nat, n: nat)
  {
    && |ring| == RING && n <= |buffer| == |was|
    && (forall k :: 0 <= k < n ==> buffer[k] == ring[Address(start + k)])
    && (forall k :: n <= k < |buffer| ==> buffer[k] == was[k])
  }

  lemma {:induction false} LastEnd(fifo: seq<nat>, position: nat, commands: seq<seq<Byte>>)
    requires Ends(fifo, position, commands)
    ensures (if fifo == [] then Reg(position) else fifo[|fifo| - 1]) == Reg(position + |Flat(commands)|)
    decreases commands
  {
    hide Reg;
    if fifo != [] {
      LastEnd(fifo[1..], position + |commands[0]|, commands[1..]);
      assert position + |commands[0]| + |Flat(commands[1..])| == position + |Flat(commands)|;
    }
  }

  lemma {:induction false} EndsAppend(fifo: seq<nat>, position: nat, commands: seq<seq<Byte>>, last: seq<Byte>)
    requires Ends(fifo, position, commands)
    ensures Ends(fifo + [Reg(position + (|Flat(commands)| + |last|))], position, commands + [last])
    decreases commands
  {
    hide Reg;
    var end := Reg(position + (|Flat(commands)| + |last|));
    if commands == [] {
      assert (commands + [last])[1..] == [];
    } else {
      EndsAppend(fifo[1..], position + |commands[0]|, commands[1..], last);
      assert (commands + [last])[1..] == commands[1..] + [last];
      assert (fifo + [end])[1..] == fifo[1..] + [end];
    }
  }

  lemma EndsRest(fifo: seq<nat>, position: nat, commands: seq<seq<Byte>>)
    requires Ends(fifo, position, commands) && commands != []
    ensures Ends(fifo[1..], position + |commands[0]|, commands[1..])
  {
  }

  /** Positions less than a ring apart lie in different cells. */
  lemma CellsDiffer(position: nat, i: nat, j: nat)
    requires i < j < i + RING
    ensures Address(position + i) != Address(position + j)
  {
    var a, b := (position + i) / RING, (position + j) / RING;
    assert j - i == RING * (b - a) + Address(position + j) - Address(position + i);
  }

  lemma HoldsStep(ring: seq<Byte>, position: nat, bytes: seq<Byte>, next: Byte)
    requires Holds(ring, position, bytes) && |bytes| < RING
    ensures Holds(ring[Address(position + |bytes|) := next], position, bytes + [next])
  {
    hide Address;
    var ring' := ring[Address(position + |bytes|) := next];
    forall k | 0 <= k < |bytes|
      ensures ring'[Address(position + k)] == bytes[k]
    {
      CellsDiffer(position, k, |bytes|);
    }
  }

  lemma HoldsRest(ring: seq<Byte>, position: nat, command: seq<Byte>, rest: seq<Byte>)
    requires Holds(ring, position, command + rest)
    ensures Holds(ring, position + |command|, rest)
  {
    forall k | 0 <= k < |rest|
      ensures ring[Address(position + |command| + k)] == rest[k]
    {
      assert (command + rest)[|command| + k] == rest[k];
    }
  }

  lemma CopyNone(was: seq<Byte>, ring: seq<Byte>, start: nat)
    requires |ring| == RING
    ensures Copied(was, was, ring, start, 0)
  {
  }

  lemma CopyStep(buffer: seq<Byte>, was: seq<Byte>, ring: seq<Byte>, start: nat, n: nat)
    requires n < |buffer| && Copied(buffer, was, ring, start, n)
    ensures Copied(buffer[n := ring[Address(start + n)]], was, ring, start, n + 1)
  {
    hide Address;
  }

  lemma CopiedIsPrefix(buffer: seq<Byte>, was: seq<Byte>, ring: seq<Byte>, position: nat, bytes: seq<Byte>, n: nat)
    requires Holds(ring, position, bytes)
    requires n <= |bytes| && Copied(buffer, was, ring, Address(Reg(position)), n)
    ensures buffer[..n] == bytes[..n]
    ensures buffer[n..] == was[n..]
  {
    forall k | 0 <= k < n
      ensures buffer[k] == bytes[k]
    {
      SameCell(position, k);
    }
  }

  // ----- runs

  datatype Event = Host(bytes: seq<Byte>) | Receive(capacity: nat)

  /** One command as returned, with the size of the buffer it was returned in. */
  datatype Reading = Reading(bytes: seq<Byte>, capacity: nat)

  /** The readings are the commands in order, each cut to its buffer. */
  ghost predicate InOrder(readings: seq<Reading>, commands: seq<seq<Byte>>)
  {
    && |readings| <= |commands|
    && forall i :: 0 <= i < |readings| ==>
         readings[i].bytes == commands[i][..Min(readings[i].capacity, |commands[i]|)]
  }

  ghost function Bytes(readings: seq<Reading>): (s: seq<seq<Byte>>)
    ensures |s| == |readings|
    ensures forall i :: 0 <= i < |s| ==> s[i] == readings[i].bytes
  {
    seq(|readings|, i requires 0 <= i < |readings| => readings[i].bytes)
  }

  /** Nothing is lost exactly when no buffer was smaller than the command it received. */
  lemma LosslessIff(readings: seq<Reading>, commands: seq<seq<Byte>>)
    requires InOrder(readings, commands)
    ensures Bytes(readings) + commands[|readings|..] == commands
       <==> forall i :: 0 <= i < |readings| ==> |commands[i]| <= readings[i].capacity
  {
    var all := Bytes(readings) + commands[|readings|..];
    if forall i :: 0 <= i < |readings| ==> |commands[i]| <= readings[i].capacity {
      forall i | 0 <= i < |commands|
        ensures all[i] == commands[i]
      {
        assert i < |readings| ==> |commands[i]| <= readings[i].capacity;
      }
    }
    if all == commands {
      forall i | 0 <= i < |readings|
        ensures |commands[i]| <= readings[i].capacity
      {
        assert Bytes(readings)[i] == all[i];
      }
    }
  }

  /** The commands the ring took in, and what was read of them. */
  datatype History = History(commands: seq<seq<Byte>>, readings: seq<Reading>)

  /** A plain queue of commands: one event appends a command that fits, or takes the oldest one. */
  ghost function Served(h: History, event: Event): (h': History)
    requires InOrder(h.readings, h.commands)
    ensures InOrder(h'.readings, h'.commands)
  {
    var n := |h.readings|;
    match event
    case Host(bytes) =>
      if |Flat(h.commands[n..])| + |bytes| <= RING then h.(commands := h.commands + [bytes]) else h
    case Receive(capacity) =>
      if n == |h.commands| then h
      else h.(readings := h.readings + [Reading(h.commands[n][..Min(capacity, |h.commands[n]|)], capacity)])
  }

  /** The plain queue under a run of events: what the ring has to look like from outside. */
  ghost function Queue(events: seq<Event>): (h: History)
    ensures InOrder(h.readings, h.commands)
    decreases |events|
  {
    if events == [] then History([], [])
    else
      Served(Queue(events[..|events| - 1]), events[|events| - 1])
  }

  ghost function Sent(commands: seq<seq<Byte>>): (events: seq<Event>)
    ensures |events| == |commands|
  {
    seq(|commands|, i requires 0 <= i < |commands| => Host(commands[i]))
  }

  /** Receive calls with buffers that hold the whole ring. */
  ghost function Taken(n: nat): (events: seq<Event>)
    ensures |events| == n
  {
    seq(n, i requires 0 <= i < n => Receive(RING))
  }

  lemma {:induction false} QueueSends(commands: seq<seq<Byte>>)
    requires |Flat(commands)| <= RING
    ensures Queue(Sent(commands)) == History(commands, [])
  {
    var n := |commands| - 1;
    if n >= 0 {
      assert commands[..n] + [commands[n]] == commands;
      FlatAppend(commands[..n], commands[n]);
      QueueSends(commands[..n]);
      assert Sent(commands)[..n] == Sent(commands[..n]);
      assert commands[..n][0..] == commands[..n];
    }
  }

  /** What the host sends and the ring can hold comes back, command by command and in order. */
  lemma {:induction false} QueueDelivers(commands: seq<seq<Byte>>, n: nat)
    requires |Flat(commands)| <= RING && n <= |commands|
    ensures Queue(Sent(commands) + Taken(n)).commands == commands
    ensures Bytes(Queue(Sent(commands) + Taken(n)).readings) == commands[..n]
  {
    hide Served, Sent, Flat, Bytes, InOrder;
    var events := Sent(commands) + Taken(n);
    if n == 0 {
      assert events == Sent(commands);
      QueueSends(commands);
    } else {
      QueueDelivers(commands, n - 1);
      assert events[..|events| - 1] == Sent(commands) + Taken(n - 1) && events[|events| - 1] == Receive(RING);
      hide Taken;
      FlatHolds(commands, n - 1);
      TakesNext(Queue(Sent(commands) + Taken(n - 1)), commands, n - 1);
    }
  }

  lemma TakesNext(h: History, commands: seq<seq<Byte>>, n: nat)
    requires InOrder(h.readings, h.commands) && h.commands == commands && n < |commands| && |commands[n]| <= RING
    requires Bytes(h.readings) == commands[..n]
    ensures Served(h, Receive(RING)).commands == commands && Bytes(Served(h, Receive(RING)).readings) == commands[..n + 1]
  {
    assert |h.readings| == n;
    var r := Reading(commands[n], RING);
    assert commands[n][..Min(RING, |commands[n]|)] == commands[n];
    assert Served(h, Receive(RING)).readings == h.readings + [r];
    assert Bytes(h.readings + [r]) == Bytes(h.readings) + [commands[n]];
  }

  lemma {:induction false} FlatHolds(commands: seq<seq<Byte>>, i: nat)
    requires i < |commands|
    ensures |commands[i]| <= |Flat(commands)|
  {
    if i > 0 {
      FlatHolds(commands[1..], i - 1);
    }
  }

  /**
   Every run from the start looks like the plain queue: the commands come out in order, none twice and
   none skipped, each cut to its buffer; what has not come out is still in the ring; and no byte is
   lost exactly when every buffer was large enough.
   */
  method Run(events: seq<Event>) returns (readings: seq<Reading>, commands: seq<seq<Byte>>)
    ensures History(commands, readings) == Queue(events)
    ensures Bytes(readings) + commands[|readings|..] == commands
       <==> forall i :: 0 <= i < |readings| ==> |commands[i]| <= readings[i].capacity
  {
    hide Flat, Ends, Holds, InOrder, Bytes;
    var sps := new Sps();
    readings, commands := [], [];
    for e := 0 to |events|
      invariant sps.Valid() && fresh(sps) && fresh(sps.cmdBuf)
      invariant |readings| <= |commands|
      invariant History(commands, readings) == Queue(events[..e])
      invariant sps.pending == commands[|readings|..]
    {
      assert events[..e + 1][..e] == events[..e];
      assert Queue(events[..e + 1]) == Served(History(commands, readings), events[e]);
      match events[e]
      case Host(bytes) =>
        var stored := sps.HostCommand(bytes);
        if stored {
          commands := commands + [bytes];
        }
      case Receive(capacity) =>
        var buffer := new Byte[capacity](_ => 0);
        var empty := sps.addrFifo == [];
        var length := sps.GetReceivedData(buffer);
        if !empty {
          readings := readings + [Reading(buffer[..length], capacity)];
        }
    }
    assert events[..|events|] == events;
    LosslessIff(readings, commands);
  }
}
