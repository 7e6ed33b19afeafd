/**
  Moving bytes through the serial device (PciSioSerialDxe/SerialIo.c).
 */
module SerialIo {
  import opened Uefi
  import opened SerialFifo
  import opened SerialRounds
  import opened Uart

  /** What software loopback leaves behind: everything moves when it fits,
      otherwise Receive is filled and one byte is lost. */
  function LoopedReceive(r: seq<u8>, t: seq<u8>): seq<u8>
    requires |r| <= CAPACITY
  {
    if |r| + |t| <= CAPACITY then r + t else r + t[..CAPACITY - |r|]
  }

  function LoopedTransmit(r: seq<u8>, t: seq<u8>): seq<u8>
    requires |r| <= CAPACITY
  {
    if |r| + |t| <= CAPACITY then [] else t[CAPACITY - |r| + 1..]
  }

  /** The part of a buffer that gets queued: the first byte is dropped when the
      transmit queue was full before the write. */
  function Queued(queuedBefore: nat, buffer: seq<u8>): seq<u8> {
    if queuedBefore == CAPACITY && buffer != [] then buffer[1..] else buffer
  }

  /** The queues after a buffer has been queued for transmission. */
  function Accepted(q: Queues, buffer: seq<u8>): Queues {
    q.(pending := q.pending + Queued(|q.pending|, buffer))
  }

  /** In software loopback the bytes that fit are received and the rest is lost,
      although the write succeeds unless the timeout is zero. */
  predicate LoopedWrite(timeout: nat, q: Queues, buffer: seq<u8>, status: Status, written: nat, q': Queues)
    requires |q.received| <= CAPACITY
  {
    var room := CAPACITY - |q.received|;
    && (status == Success <==> |buffer| <= room || timeout > 0)
    && (status == Timeout ==> written == room)
    && q'.received == q.received + buffer[..Min(|buffer|, room)]
  }

  /** On the hardware exactly the bytes reported as written have been sent, in order,
      behind what was pending.  After a timeout, in which the line was looked at all the
      time and the transmitter was last seen busy, the next one is left in the queue,
      alone once a byte has been written. */
  ghost predicate WiredWrite(timeout: nat, s: Seen, q: Queues, buffer: seq<u8>, status: Status, written: nat, s': Seen, q': Queues)
    requires status == Timeout ==> written < |buffer|
  {
    && Moved(s, Accepted(q, if status == Timeout then buffer[..written + 1] else buffer), s', q')
    && (buffer != [] ==> (status == Success <==> q'.pending == []))
    && (status == Timeout ==>
          && GaveUp(timeout, s, s') && !s'.lsr.thre
          && (written > 0 ==>
                && q'.pending == [buffer[written]]
                && s'.sent == s.sent + q.pending + Queued(|q.pending|, buffer[..written])))
  }

  /** The first n bytes of a buffer have been written, since s0 and q0. */
  ghost predicate WrittenSoFar(loopback: bool, s0: Seen, q0: Queues, buffer: seq<u8>, n: nat, s: Seen, q: Queues) {
    && n <= |buffer|
    && if loopback then |q0.received| <= CAPACITY && q.received == q0.received + buffer[..Min(n, CAPACITY - |q0.received|)]
       else Moved(s0, Accepted(q0, buffer[..n]), s, q)
  }

  lemma NothingWritten(loopback: bool, s0: Seen, q0: Queues, buffer: seq<u8>)
    requires |q0.received| <= CAPACITY
    ensures WrittenSoFar(loopback, s0, q0, buffer, 0, s0, q0)
  {
    MovedNothing(s0, q0);
    hide Moved;
    assert q0.received + buffer[..0] == q0.received;
    assert q0.pending + Queued(|q0.pending|, buffer[..0]) == q0.pending;
  }

  lemma NextWritten(loopback: bool, s0: Seen, q0: Queues, buffer: seq<u8>, n: nat, s1: Seen, q1: Queues, s: Seen, q: Queues)
    requires WrittenSoFar(loopback, s0, q0, buffer, n, s1, q1) && n < |buffer|
    requires q1.pending == if n == 0 then q0.pending else []
    requires loopback ==> q.received == if |q1.received| < CAPACITY then q1.received + [buffer[n]] else q1.received
    requires !loopback ==> Moved(s1, Accepted(q1, [buffer[n]]), s, q)
    ensures WrittenSoFar(loopback, s0, q0, buffer, n + 1, s, q)
    ensures loopback ==> (|q1.received| < CAPACITY <==> n < CAPACITY - |q0.received|)
  {
    if loopback {
      NextLooped(q0.received, buffer, n, CAPACITY - |q0.received|);
    } else {
      NextAccepted(s0, q0, buffer, n, s1, q1);
      hide Moved, Accepted;
      MovedOn(s0, Accepted(q0, buffer[..n + 1]), s1, Accepted(q1, [buffer[n]]), s, q);
    }
  }

  /** One more byte queued, for what is sent later as for what is pending now. */
  lemma NextAccepted(s0: Seen, q0: Queues, buffer: seq<u8>, n: nat, s1: Seen, q1: Queues)
    requires n < |buffer| && Moved(s0, Accepted(q0, buffer[..n]), s1, q1)
    requires q1.pending == if n == 0 then q0.pending else []
    ensures Moved(s0, Accepted(q0, buffer[..n + 1]), s1, Accepted(q1, [buffer[n]]))
  {
    hide Kept;
    NextQueued(|q0.pending|, buffer, n);
    var more := Queued(|q1.pending|, [buffer[n]]);
    hide Queued;
    assert s1.sent + (q1.pending + more) == (s1.sent + q1.pending) + more;
    assert s0.sent + (q0.pending + (Queued(|q0.pending|, buffer[..n]) + more))
           == (s0.sent + (q0.pending + Queued(|q0.pending|, buffer[..n]))) + more;
  }

  lemma NextQueued(queued: nat, buffer: seq<u8>, n: nat)
    requires n < |buffer|
    ensures Queued(queued, buffer[..n + 1])
            == Queued(queued, buffer[..n]) + Queued(if n == 0 then queued else 0, [buffer[n]])
  {
    assert buffer[..n + 1] == buffer[..n] + [buffer[n]];
    if n > 0 && queued == CAPACITY {
      assert buffer[..n + 1][1..] == buffer[..n][1..] + [buffer[n]];
    }
  }

  lemma WriteTimedOut(timeout: nat, s0: Seen, q0: Queues, buffer: seq<u8>, n: nat, s1: Seen, q1: Queues, s: Seen, q: Queues)
    requires n < |buffer| && WrittenSoFar(false, s0, q0, buffer, n, s1, q1) && WrittenSoFar(false, s0, q0, buffer, n + 1, s, q)
    requires q1.pending == if n == 0 then q0.pending else []
    requires Moved(s1, Accepted(q1, [buffer[n]]), s, q) && q.pending != [] && GaveUp(timeout, s1, s) && !s.lsr.thre
    ensures WiredWrite(timeout, s0, q0, buffer, Timeout, n, s, q)
  {
    hide Kept;
    if n > 0 {
      assert Queued(0, [buffer[n]]) == [buffer[n]];
      hide Queued;
      LeftPending(s1.sent, s.sent, q.pending, buffer[n]);
      assert s1.sent + [] == s1.sent;
      assert s0.sent + (q0.pending + Queued(|q0.pending|, buffer[..n])) == s0.sent + q0.pending + Queued(|q0.pending|, buffer[..n]);
    }
  }

  lemma WriteSucceeded(timeout: nat, s0: Seen, q0: Queues, buffer: seq<u8>, s: Seen, q: Queues)
    requires WrittenSoFar(false, s0, q0, buffer, |buffer|, s, q) && (buffer != [] ==> q.pending == [])
    ensures WiredWrite(timeout, s0, q0, buffer, Success, |buffer|, s, q)
  {
    hide Moved, Accepted;
    assert buffer[..|buffer|] == buffer;
  }

  lemma WriteLooped(timeout: nat, s0: Seen, q0: Queues, buffer: seq<u8>, status: Status, n: nat, s: Seen, q: Queues)
    requires WrittenSoFar(true, s0, q0, buffer, if status == Timeout then n + 1 else n, s, q)
    requires if status == Timeout then timeout == 0 && n == CAPACITY - |q0.received| && n < |buffer|
             else status == Success && n == |buffer| && (n <= CAPACITY - |q0.received| || timeout > 0)
    ensures LoopedWrite(timeout, q0, buffer, status, n, q)
  {}

  /** n bytes have moved from the transmit to the receive queue. */
  predicate MovedSoFar(r0: seq<u8>, t0: seq<u8>, n: nat, r: seq<u8>, t: seq<u8>) {
    n <= |t0| && r == r0 + t0[..n] && t == t0[n..]
  }

  lemma MoveNext(r0: seq<u8>, t0: seq<u8>, n: nat, r: seq<u8>, t: seq<u8>, byte: u8, t': seq<u8>)
    requires MovedSoFar(r0, t0, n, r, t) && t == [byte] + t'
    ensures MovedSoFar(r0, t0, n + 1, r + [byte], t')
    ensures |r0| + n == CAPACITY ==> r == LoopedReceive(r0, t0) && t' == LoopedTransmit(r0, t0)
  {
    assert t0[n] == t[0];
    assert t0[..n + 1] == t0[..n] + [byte];
    assert t' == t[1..];
  }

  lemma MovedAll(r0: seq<u8>, t0: seq<u8>, n: nat, r: seq<u8>)
    requires MovedSoFar(r0, t0, n, r, []) && |r| <= CAPACITY
    ensures |r0| + |t0| <= CAPACITY && r == LoopedReceive(r0, t0) && LoopedTransmit(r0, t0) == []
  {
    assert t0[..n] == t0;
  }

  lemma NothingMoved(r0: seq<u8>, t0: seq<u8>)
    ensures MovedSoFar(r0, t0, 0, r0, t0)
  {
    assert r0 + t0[..0] == r0;
  }

  const STALL_INTERVAL: nat := 10

  /** The line has been looked at until the timeout. */
  predicate GaveUp(timeout: nat, s: Seen, s': Seen) { STALL_INTERVAL * (s'.readings - s.readings) >= timeout }

  lemma GaveUpLater(timeout: nat, s: Seen, s1: Seen, s2: Seen)
    requires s.readings <= s1.readings && GaveUp(timeout, s1, s2)
    ensures GaveUp(timeout, s, s2)
  {}

  class SerialDev {
    const receive: Fifo
    const transmit: Fifo
    const uart: Registers
    var loopback: bool
    var flowControl: bool
    const halfHandshake: bool

    constructor (uart: Registers, loopback: bool, flowControl: bool, halfHandshake: bool)
      ensures Valid() && Received() == [] && Pending() == []
      ensures this.uart == uart && this.loopback == loopback
      ensures this.flowControl == flowControl && this.halfHandshake == halfHandshake
      ensures fresh(receive) && fresh(receive.data) && fresh(transmit) && fresh(transmit.data)
    {
      var r := new Fifo();
      var t := new Fifo();
      receive, transmit, this.uart := r, t, uart;
      this.loopback, this.flowControl, this.halfHandshake := loopback, flowControl, halfHandshake;
    }

    ghost predicate Valid()
      reads this, receive, transmit
    {
      && receive != transmit && receive.data != transmit.data
      && receive.Valid() && transmit.Valid()
    }

    ghost function Received(): seq<u8>
      requires Valid()
      reads this, receive, transmit, receive.data
    {
      receive.Contents()
    }

    ghost function Pending(): seq<u8>
      requires Valid()
      reads this, receive, transmit, transmit.data
    {
      transmit.Contents()
    }

    ghost function Both(): Queues
      requires Valid()
      reads this, receive, transmit, receive.data, transmit.data
    {
      Queues(Received(), Pending())
    }

    function Setting(): Config
      reads this
    {
      Config(flowControl, halfHandshake)
    }

    /** What the register accesses so far tell. */
    function Told(): Seen
      reads this, uart
    {
      SeeAll(NOTHING_SEEN, uart.trace)
    }

    /** The software loopback loop of SerialReceiveTransmit. */
    method LoopBack() returns (status: Status)
      requires Valid()
      modifies receive, receive.data, transmit
      ensures Valid()
      ensures status == if |old(Received())| + |old(Pending())| <= CAPACITY then Success else OutOfResources
      ensures Received() == LoopedReceive(old(Received()), old(Pending()))
      ensures Pending() == LoopedTransmit(old(Received()), old(Pending()))
    {
      hide MovedSoFar, LoopedReceive, LoopedTransmit, Ring;
      ghost var r0, t0, n := Received(), Pending(), 0;
      NothingMoved(r0, t0);
      var again := true;
      while again
        invariant Valid() && n <= |t0| && MovedSoFar(r0, t0, n, Received(), Pending())
        invariant !again ==> Pending() == []
        decreases |Pending()|, again
      {
        var full := receive.Full();
        var empty := transmit.Empty();
        if !empty {
          var lost := MoveOne(full, r0, t0, n);
          if lost {
            return OutOfResources;
          }
          n := n + 1;
        }
        empty := transmit.Empty();
        again := !empty;
      }
      MovedAll(r0, t0, n, Received());
      return Success;
    }

    /** The loop body for a nonempty transmit queue: a full receive queue costs a byte. */
    method MoveOne(full: bool, ghost r0: seq<u8>, ghost t0: seq<u8>, ghost n: nat) returns (lost: bool)
      requires Valid() && Pending() != [] && (full <==> |Received()| == CAPACITY)
      requires MovedSoFar(r0, t0, n, Received(), Pending()) && |r0| <= CAPACITY
      modifies receive, receive.data, transmit
      ensures Valid() && lost == full && n < |t0| && |Pending()| < |old(Pending())|
      ensures !lost ==> MovedSoFar(r0, t0, n + 1, Received(), Pending())
      ensures lost ==>
                && |r0| + |t0| > CAPACITY
                && Received() == LoopedReceive(r0, t0) && Pending() == LoopedTransmit(r0, t0)
    {
      ghost var r, t := Received(), Pending();
      var removed, byte := transmit.Remove();
      MoveNext(r0, t0, n, r, t, byte, Pending());
      if full {
        return true;
      }
      hide LoopedReceive, LoopedTransmit;
      var added := receive.Add(byte);
      return false;
    }

    /** Takes in one byte when the line has one and the queue has room; an
        erroneous byte is read and thrown away. */
    method TakeIn(lsr: Lsr) returns (byte: u8)
      requires Valid() && |Received()| < CAPACITY
      modifies uart`trace, receive, receive.data
      ensures Valid() && Pending() == old(Pending())
      ensures Received() == if Erroneous(lsr) then old(Received()) else old(Received()) + [byte]
      ensures uart.trace == old(uart.trace) + TakeEvents(Setting(), old(Both()), Round(lsr, byte, []))
    {
      ghost var was, q := uart.trace, Both();
      byte := uart.ReadRbr();
      hide Erroneous;
      if Erroneous(lsr) {
        assert uart.trace == was + ([RbrRead(byte)] + []);
        return;
      }
      var added := receive.Add(byte);
      var full := receive.Full();
      if flowControl && !halfHandshake && full {
        uart.SetRts(false);
        assert uart.trace == was + ([RbrRead(byte)] + [RtsSet(false)]);
      } else {
        assert uart.trace == was + ([RbrRead(byte)] + []);
      }
    }

    /** The wait for clear-to-send. */
    method AwaitCts() returns (msrs: seq<Msr>)
      modifies uart`trace
      ensures CtsWait(Setting(), msrs) && uart.trace == old(uart.trace) + MsrReads(msrs)
    {
      var timeOut := 0;
      var msr := uart.ReadMsr();
      msrs := [msr];
      while msr.dcd && msr.cts == halfHandshake
        invariant |msrs| == timeOut + 1 && timeOut <= 5 && msrs[timeOut] == msr
        invariant forall k :: 0 <= k < timeOut ==> !Clears(Setting(), msrs[k])
        invariant uart.trace == old(uart.trace) + MsrReads(msrs)
        decreases 5 - timeOut
      {
        timeOut := timeOut + 1;
        if timeOut > 5 {
          break;
        }
        ghost var before := msrs;
        msr := uart.ReadMsr();
        msrs := msrs + [msr];
        assert MsrReads(msrs) == MsrReads(before) + [MsrRead(msr)];
      }
    }

    /** Puts one pending byte on the wire if flow control lets it pass. */
    method SendOne() returns (msrs: seq<Msr>)
      requires Valid() && Pending() != []
      modifies uart`trace, transmit
      ensures Valid() && Received() == old(Received())
      ensures flowControl ==> CtsWait(Setting(), msrs)
      ensures Pending() == if LetsPass(Setting(), msrs) then old(Pending())[1..] else old(Pending())
      ensures uart.trace == old(uart.trace) + SendEvents(Setting(), old(Pending())[0], msrs)
    {
      hide CtsWait;
      ghost var was, byte := uart.trace, Pending()[0];
      if !flowControl {
        PutOut();
        return [];
      }
      if halfHandshake {
        uart.SetRts(false);
      }
      ghost var lowered := uart.trace;
      msrs := AwaitCts();
      WaitIsNotEmpty(msrs);
      ghost var waited := uart.trace;
      var msr := msrs[|msrs| - 1];
      if !msr.dcd || msr.cts != halfHandshake {
        PutOut();
      }
      ghost var tried := uart.trace;
      if halfHandshake {
        uart.SetRts(true);
      }
      Joined(was, lowered, waited, tried, uart.trace, If(halfHandshake, RtsSet(false)), MsrReads(msrs),
             If(LetsPass(Setting(), msrs), ThrWritten(byte)), If(halfHandshake, RtsSet(true)));
    }

    lemma WaitIsNotEmpty(msrs: seq<Msr>)
      requires CtsWait(Setting(), msrs)
      ensures msrs != []
    {}

    method PutOut()
      requires Valid() && Pending() != []
      modifies uart`trace, transmit
      ensures Valid() && Received() == old(Received()) && Pending() == old(Pending())[1..]
      ensures uart.trace == old(uart.trace) + [ThrWritten(old(Pending())[0])]
    {
      var removed, byte := transmit.Remove();
      uart.WriteThr(byte);
    }

    /** One round of the hardware loop. */
    method ExchangeOnce(receiveFull: bool) returns (lsr: Lsr, receiveFull': bool, ghost round: Round)
      requires Valid() && (receiveFull ==> |Received()| == CAPACITY)
      modifies uart, receive, receive.data, transmit
      ensures Valid() && (receiveFull' ==> |Received()| == CAPACITY)
      ensures round.lsr == lsr && (lsr.thre ==> uart.patience < old(uart.patience))
      ensures Possible(Setting(), old(Both()), round) && Both() == RoundAfter(Setting(), old(Both()), round)
      ensures uart.trace == old(uart.trace) + RoundEvents(Setting(), old(Both()), round)
    {
      hide TakeEvents, SendEvents, LetsPass, CtsWait, Erroneous, Ring, RoundEvents, RoundAfter, Possible;
      receiveFull' := receiveFull;
      ghost var was, q := uart.trace, Both();
      lsr := uart.ReadLsr();
      if lsr.dr && !receiveFull {
        receiveFull' := receive.Full();
        if !receiveFull' {
          var byte := TakeIn(lsr);
          round := Round(lsr, byte, []);
          TakenRound(Setting(), q, round, was, was + [LsrRead(lsr)], uart.trace, Both());
          return;
        }
      }
      var empty := transmit.Empty();
      round := Round(lsr, 0, []);
      if lsr.thre && !empty {
        var msrs := SendOne();
        round := Round(lsr, 0, msrs);
        SentRound(Setting(), q, round, was, was + [LsrRead(lsr)], uart.trace, Both());
      } else {
        QuietRound(Setting(), q, round, was);
      }
    }

    /** SerialReceiveTransmit on the hardware: the loop runs for as many rounds as the line
        lets it, and each round does what SerialRounds says: bytes leave in order and none
        is lost, invented or taken back, and what arrives is queued in order. */
    method Exchange() returns (ghost rounds: seq<Round>)
      requires Valid()
      modifies uart, receive, receive.data, transmit
      ensures Valid()
      ensures Ends(Setting(), old(Both()), rounds)
      ensures Played(Setting(), old(Both()), old(uart.trace), rounds, Both(), uart.trace)
      ensures Exchanged(Setting(), old(Told()), old(Both()), Told(), Both())
    {
      hide RoundEvents, RoundAfter, Possible, SeeAll, Played, Ends, Exchanged, Ring;
      ghost var c, q0, was := Setting(), Both(), uart.trace;
      var receiveFull := receive.Full();
      if flowControl && !halfHandshake && !receiveFull {
        uart.SetRts(true);
      }
      assert uart.trace == was + Opening(c, q0);
      hide Opening;
      NothingPlayed(c, q0, was);
      rounds := [];
      var again := true;
      while again
        invariant Valid() && (receiveFull ==> |Received()| == CAPACITY)
        invariant Played(c, q0, was, rounds, Both(), uart.trace)
        invariant again ==> rounds == [] || (rounds[|rounds| - 1].lsr.thre && Pending() != [])
        invariant !again ==> Ends(c, q0, rounds)
        decreases if again then uart.patience + 1 else 0
      {
        ghost var round, q1, t1 := Round(Lsr(false, false, false, false, false, false, false), 0, []), Both(), uart.trace;
        var lsr;
        lsr, receiveFull, round := ExchangeOnce(receiveFull);
        var empty := transmit.Empty();
        again := lsr.thre && !empty;
        OneMoreRound(c, q0, was, rounds, q1, t1, round, Both(), uart.trace);
        rounds := rounds + [round];
      }
      PlayedMoves(c, q0, was, rounds, Both(), uart.trace);
    }

    /** What every call of the driver leaves in place: in software loopback nothing
        is pending, and full-handshake flow control has stopped the peer before the
        queue overflows. */
    ghost predicate Ready()
      requires Valid()
      reads this, receive, transmit, receive.data, transmit.data, uart
    {
      && (loopback ==> Pending() == [])
      && (!loopback ==> StoppedWhenFull())
    }

    ghost predicate StoppedWhenFull()
      requires Valid()
      reads this, receive, transmit, receive.data, uart
    {
      FullHandshake(Setting()) && |Received()| == CAPACITY ==> !Told().rts
    }

    /** SerialReceiveTransmit. */
    method ReceiveTransmit() returns (status: Status)
      requires Valid() && (!loopback ==> StoppedWhenFull())
      modifies uart, receive, receive.data, transmit
      ensures Valid()
      ensures loopback ==>
                && status == (if |old(Received())| + |old(Pending())| <= CAPACITY then Success else OutOfResources)
                && Received() == LoopedReceive(old(Received()), old(Pending()))
                && Pending() == LoopedTransmit(old(Received()), old(Pending()))
                && uart.trace == old(uart.trace)
      ensures !loopback ==>
                && status == Success && Ready()
                && Exchanged(Setting(), old(Told()), old(Both()), Told(), Both())
    {
      hide LoopedReceive, LoopedTransmit, SeeAll, Moved;
      if loopback {
        status := LoopBack();
      } else {
        ghost var rounds := Exchange();
        status := Success;
      }
    }

    /** The retry loop of SerialWrite for the byte just queued. */
    method Flush(timeout: nat) returns (done: bool)
      requires Valid() && (if loopback then |Pending()| == 1 else StoppedWhenFull())
      modifies uart, receive, receive.data, transmit
      ensures Valid() && Ready() && (done ==> Pending() == [])
      ensures loopback ==>
                && (done <==> |old(Received())| < CAPACITY || timeout > 0)
                && Pending() == [] && uart.trace == old(uart.trace)
                && Received() == if |old(Received())| < CAPACITY then old(Received()) + old(Pending()) else old(Received())
      ensures !loopback ==>
                && (!done ==> Pending() != [] && GaveUp(timeout, old(Told()), Told()) && !Told().lsr.thre)
                && Moved(old(Told()), old(Both()), Told(), Both())
    {
      hide Moved, LoopedReceive, LoopedTransmit, SeeAll, Ring, FullHandshake;
      ghost var s0, q0 := Told(), Both();
      if loopback {
        OneByte(q0.received, q0.pending);
      }
      var status := ReceiveTransmit();
      var empty := transmit.Empty();
      var elapsed := 0;
      while status != Success || !empty
        invariant Valid() && Ready() && (empty <==> Pending() == [])
        invariant loopback ==>
                    && (status == Success <==> |q0.received| < CAPACITY || elapsed > 0)
                    && uart.trace == old(uart.trace)
                    && Received() == if |q0.received| < CAPACITY then q0.received + q0.pending else q0.received
        invariant !loopback ==>
                    && status == Success && Moved(s0, q0, Told(), Both())
                    && STALL_INTERVAL * (Told().readings - s0.readings) > elapsed && (empty || !Told().lsr.thre)
        invariant loopback ==> elapsed == 0 || timeout > 0
        decreases timeout - elapsed
      {
        if elapsed >= timeout {
          return false;
        }
        elapsed := elapsed + STALL_INTERVAL;
        ghost var s1, q1 := Told(), Both();
        status := ReceiveTransmit();
        if loopback {
          NothingToMove(q1.received);
        } else {
          MovedOn(s0, q0, s1, q1, Told(), Both());
        }
        empty := transmit.Empty();
      }
      return true;
    }

    /** One round of SerialWrite.  The status of SerialFifoAdd is ignored, so a byte
        that finds the transmit queue full is dropped. */
    method WriteByte(byte: u8, timeout: nat) returns (done: bool)
      requires Valid() && Ready()
      modifies uart, receive, receive.data, transmit, transmit.data
      ensures Valid() && Ready() && (done ==> Pending() == [])
      ensures loopback ==>
                && (done <==> |old(Received())| < CAPACITY || timeout > 0)
                && uart.trace == old(uart.trace)
                && Received() == if |old(Received())| < CAPACITY then old(Received()) + [byte] else old(Received())
      ensures !loopback ==>
                && (!done ==> Pending() != [] && GaveUp(timeout, old(Told()), Told()) && !Told().lsr.thre)
                && Moved(old(Told()), Accepted(old(Both()), [byte]), Told(), Both())
    {
      hide Moved, SeeAll, Ring, FullHandshake;
      ghost var q := Both();
      var added := transmit.Add(byte);
      assert Both() == Accepted(q, [byte]);
      done := Flush(timeout);
    }

    /** SerialWrite. */
    method Write(buffer: seq<u8>, timeout: nat) returns (status: Status, written: nat)
      requires Valid() && Ready()
      modifies uart, receive, receive.data, transmit, transmit.data
      ensures Valid() && Ready()
      ensures status == Success || (status == Timeout && written < |buffer|)
      ensures status == Success ==> written == |buffer|
      ensures if loopback then LoopedWrite(timeout, old(Both()), buffer, status, written, Both()) && uart.trace == old(uart.trace)
              else WiredWrite(timeout, old(Told()), old(Both()), buffer, status, written, Told(), Both())
    {
      hide WrittenSoFar, SeeAll, GaveUp, Moved, Accepted, LoopedWrite, WiredWrite, Ring, FullHandshake;
      ghost var s0, q0 := Told(), Both();
      written := 0;
      NothingWritten(loopback, s0, q0, buffer);
      while written < |buffer|
        invariant written <= |buffer| && Valid() && Ready()
        invariant Pending() == if written == 0 then q0.pending else []
        invariant WrittenSoFar(loopback, s0, q0, buffer, written, Told(), Both())
        invariant loopback ==> uart.trace == old(uart.trace) && (written <= CAPACITY - |q0.received| || timeout > 0)
      {
        ghost var s1, q1 := Told(), Both();
        var done := WriteByte(buffer[written], timeout);
        NextWritten(loopback, s0, q0, buffer, written, s1, q1, Told(), Both());
        if !done {
          if loopback {
            WriteLooped(timeout, s0, q0, buffer, Timeout, written, Told(), Both());
          } else {
            WriteTimedOut(timeout, s0, q0, buffer, written, s1, q1, Told(), Both());
          }
          return Timeout, written;
        }
        written := written + 1;
      }
      if loopback {
        WriteLooped(timeout, s0, q0, buffer, Success, written, Told(), Both());
      } else {
        WriteSucceeded(timeout, s0, q0, buffer, Told(), Both());
      }
      return Success, written;
    }

    /** The wait of SerialRead for one byte. */
    method ReadByte(timeout: nat) returns (got: bool, byte: u8)
      requires Valid() && Ready()
      modifies uart, receive, receive.data, transmit
      ensures Valid() && Ready() && (!got ==> Received() == [])
      ensures loopback ==> uart.trace == old(uart.trace) && old(Received()) == (if got then [byte] else []) + Received()
      ensures !loopback ==>
                && Moved(old(Told()), old(Both()), Told(), Queues((if got then [byte] else []) + Received(), Pending()))
                && (!got ==> GaveUp(timeout, old(Told()), Told()))
    {
      hide Moved, LoopedReceive, LoopedTransmit, SeeAll, Ring, FullHandshake;
      ghost var s0, q0 := Told(), Both();
      MovedNothing(s0, q0);
      var status;
      var elapsed := 0;
      status, byte := receive.Remove();
      while status != Success
        invariant Valid() && Ready() && (status != Success ==> Received() == [])
        invariant loopback ==>
                    uart.trace == old(uart.trace) && q0.received == (if status == Success then [byte] else []) + Received()
        invariant !loopback ==>
                    && Moved(s0, q0, Told(), Queues((if status == Success then [byte] else []) + Received(), Pending()))
                    && STALL_INTERVAL * (Told().readings - s0.readings) >= elapsed
        decreases timeout - elapsed
      {
        if elapsed >= timeout {
          return false, 0;
        }
        elapsed := elapsed + STALL_INTERVAL;
        ghost var s1, q1 := Told(), Both();
        NothingToMove(q1.received);
        var ignored := ReceiveTransmit();
        if !loopback {
          MovedOn(s0, q0, s1, q1, Told(), Both());
        }
        status, byte := receive.Remove();
      }
      return true, byte;
    }

    /** SerialRead: the oldest bytes, in order; a timeout returns what there was.  On the
        hardware, what was read and what is still queued is what was queued or arrived. */
    method Read(size: nat, timeout: nat) returns (status: Status, out: seq<u8>)
      requires Valid() && Ready()
      modifies uart, receive, receive.data, transmit
      ensures Valid() && Ready()
      ensures |out| <= size && status == if |out| == size then Success else Timeout
      ensures status == Timeout ==> Received() == []
      ensures loopback ==> uart.trace == old(uart.trace) && old(Received()) == out + Received()
      ensures !loopback ==>
                && Moved(old(Told()), old(Both()), Told(), Queues(out + Received(), Pending()))
                && (0 < size ==> old(Told().readings) < Told().readings)
                && (status == Timeout ==> GaveUp(timeout, old(Told()), Told()))
    {
      hide Moved, LoopedReceive, LoopedTransmit, SeeAll, GaveUp, Ring, FullHandshake;
      ghost var s0, q0 := Told(), Both();
      MovedNothing(s0, q0);
      out := [];
      assert [] + q0.received == q0.received;
      if size == 0 {
        return Success, out;
      }
      status := Pump();
      if status.IsError() {
        return DeviceError, out;
      }
      assert [] + Received() == Received();
      while |out| < size
        invariant |out| <= size && Valid() && Ready()
        invariant loopback ==> uart.trace == old(uart.trace) && q0.received == out + Received()
        invariant !loopback ==>
                    Moved(s0, q0, Told(), Queues(out + Received(), Pending())) && s0.readings < Told().readings
      {
        ghost var s1, q1 := Told(), Both();
        var got, byte := ReadByte(timeout);
        ghost var taken := if got then [byte] else [];
        Behind(out, taken, Received());
        if !loopback {
          MovedBehind(s0, q0, s1, out, q1, Told(), taken, Both());
          if !got {
            GaveUpLater(timeout, s0, s1, Told());
          }
        }
        out := if got then out + [byte] else out;
        assert got || out + taken == out;
        if !got {
          return Timeout, out;
        }
      }
      ghost var s1, q1 := Told(), Both();
      var ignored := Pump();
      if !loopback {
        assert Queues([] + Received(), Pending()) == Both() && out + [] == out;
        MovedBehind(s0, q0, s1, out, q1, Told(), [], Both());
      }
      return Success, out;
    }

    /** SerialReceiveTransmit between calls: in software loopback there is nothing to do. */
    method Pump() returns (status: Status)
      requires Valid() && Ready()
      modifies uart, receive, receive.data, transmit
      ensures Valid() && Ready() && status == Success
      ensures loopback ==> Received() == old(Received()) && uart.trace == old(uart.trace)
      ensures !loopback ==>
                Moved(old(Told()), old(Both()), Told(), Both()) && old(Told().readings) < Told().readings
    {
      NothingToMove(Received());
      hide Moved, LoopedReceive, LoopedTransmit, SeeAll, Ring, FullHandshake;
      status := ReceiveTransmit();
    }
  }

  /** Bytes already read stay in front of what moves later. */
  lemma MovedBehind(s0: Seen, q0: Queues, s1: Seen, out: seq<u8>, q1: Queues, s2: Seen, taken: seq<u8>, q2: Queues)
    requires Moved(s0, q0, s1, Queues(out + q1.received, q1.pending))
    requires Moved(s1, q1, s2, Queues(taken + q2.received, q2.pending))
    ensures Moved(s0, q0, s2, Queues((out + taken) + q2.received, q2.pending)) && s1.readings <= s2.readings
  {
    KeptBehind(s0.arrived, q0.received, s1.arrived, out, q1.received, s2.arrived, taken + q2.received);
    Behind(out, taken, q2.received);
    hide Kept;
  }

  lemma PlayedMoves(c: Config, q: Queues, t: seq<Event>, rounds: seq<Round>, q': Queues, t': seq<Event>)
    requires Played(c, q, t, rounds, q', t') && Ends(c, q, rounds)
    ensures Exchanged(c, SeeAll(NOTHING_SEEN, t), q, SeeAll(NOTHING_SEEN, t'), q')
  {
    hide SeeAll, Opening, Events, After, Rounds, Ends, Exchanged;
    ExchangeMoves(c, q, rounds, SeeAll(NOTHING_SEEN, t));
    SeeInParts(NOTHING_SEEN, t, Opening(c, q) + Events(c, q, rounds));
  }

  /** The accesses of one attempt to send, piece by piece. */
  lemma Joined(was: seq<Event>, lowered: seq<Event>, waited: seq<Event>, tried: seq<Event>, now: seq<Event>,
               first: seq<Event>, second: seq<Event>, third: seq<Event>, fourth: seq<Event>)
    requires lowered == was + first && waited == lowered + second && tried == waited + third && now == tried + fourth
    ensures now == was + (first + second + third + fourth)
  {}

  /** One byte was queued on an empty queue, and something is still pending. */
  lemma LeftPending(s1: seq<u8>, sent: seq<u8>, pending: seq<u8>, byte: u8)
    requires s1 <= sent && pending != [] && sent + pending == s1 + [byte]
    ensures pending == [byte] && sent == s1
  {
    assert |sent| == |s1|;
    assert (sent + pending)[|sent|..] == pending;
  }

  lemma Behind(a: seq<u8>, b: seq<u8>, c: seq<u8>)
    ensures a + (b + c) == (a + b) + c
  {}

  lemma OneByte(r: seq<u8>, t: seq<u8>)
    requires |r| <= CAPACITY && |t| == 1
    ensures LoopedReceive(r, t) == (if |r| < CAPACITY then r + t else r) && LoopedTransmit(r, t) == []
  {}

  lemma NothingToMove(r: seq<u8>)
    requires |r| <= CAPACITY
    ensures LoopedReceive(r, []) == r && LoopedTransmit(r, []) == []
  {}

  lemma NextLooped(r0: seq<u8>, buffer: seq<u8>, n: nat, room: nat)
    requires n < |buffer|
    ensures r0 + buffer[..Min(n + 1, room)] ==
            if n < room then r0 + buffer[..Min(n, room)] + [buffer[n]] else r0 + buffer[..Min(n, room)]
  {}

  lemma KeptBehind(a0: seq<u8>, r0: seq<u8>, a1: seq<u8>, out: seq<u8>, r1: seq<u8>, a2: seq<u8>, r2: seq<u8>)
    requires Kept(a0, r0, a1, out + r1) && Kept(a1, r1, a2, r2)
    ensures Kept(a0, r0, a2, out + r2)
  {
    var k :| a2 == a1 + k && r2 == r1 + k;
    assert out + r2 == (out + r1) + k;
    KeptMore(a0, r0, a1, out + r1, a2, out + r2);
  }

  /** In software loopback with empty queues, writing and then reading as many bytes
      gives the same bytes back if and only if they fit the queue. */
  method LoopbackRoundTrip(dev: SerialDev, buffer: seq<u8>, timeout: nat) returns (written: Status, read: Status, out: seq<u8>)
    requires dev.Valid() && dev.loopback && dev.Received() == [] && dev.Pending() == [] && timeout > 0
    modifies dev.uart, dev.receive, dev.receive.data, dev.transmit, dev.transmit.data
    ensures written == Success
    ensures out == buffer[..Min(|buffer|, CAPACITY)] && dev.Valid() && dev.Received() == []
    ensures read == Success <==> |buffer| <= CAPACITY
    ensures out == buffer <==> |buffer| <= CAPACITY
  {
    hide SeeAll, Ring;
    var n;
    written, n := dev.Write(buffer, timeout);
    assert dev.Received() == buffer[..Min(|buffer|, CAPACITY)];
    read, out := dev.Read(|buffer|, timeout);
  }
}
