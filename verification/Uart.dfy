/**
  The UART registers the serial driver works on.  What the status registers say and
  which bytes arrive is up to the line; the UART keeps a trace of every access, and
  all that left, arrived or was read can be told from the trace alone.
 */
module Uart {
  import opened Uefi

  /** The line status and modem status bits the driver looks at. */
  datatype Lsr = Lsr(dr: bool, oe: bool, pe: bool, fe: bool, bi: bool, thre: bool, fifoe: bool)
  datatype Msr = Msr(cts: bool, dcd: bool)

  /** One access: a status reading, a byte read from the receive buffer register or
      written to the transmit holding register, and request-to-send switched. */
  datatype Event = LsrRead(lsr: Lsr) | MsrRead(msr: Msr) | RbrRead(byte: u8) | ThrWritten(byte: u8) | RtsSet(on: bool)

  /** The byte announced by this line status is broken. */
  predicate Erroneous(lsr: Lsr) { lsr.fifoe || lsr.pe || lsr.fe || lsr.bi }

  /** What a trace tells: the last line status and how many there were, the bytes sent,
      the bytes that arrived unbroken, and request-to-send. */
  datatype Seen = Seen(lsr: Lsr, readings: nat, sent: seq<u8>, arrived: seq<u8>, rts: bool)

  const NOTHING_SEEN: Seen := Seen(Lsr(false, false, false, false, false, false, false), 0, [], [], false)

  function See(s: Seen, e: Event): Seen {
    match e
    case LsrRead(lsr) => s.(lsr := lsr, readings := s.readings + 1)
    case MsrRead(_) => s
    case RbrRead(byte) => if Erroneous(s.lsr) then s else s.(arrived := s.arrived + [byte])
    case ThrWritten(byte) => s.(sent := s.sent + [byte])
    case RtsSet(on) => s.(rts := on)
  }

  function SeeAll(s: Seen, trace: seq<Event>): Seen {
    if trace == [] then s else See(SeeAll(s, trace[..|trace| - 1]), trace[|trace| - 1])
  }

  lemma {:induction false} SeeInParts(s: Seen, first: seq<Event>, second: seq<Event>)
    ensures SeeAll(s, first + second) == SeeAll(SeeAll(s, first), second)
  {
    if second == [] {
      assert first + second == first;
    } else {
      assert (first + second)[..|first + second| - 1] == first + second[..|second| - 1];
      SeeInParts(s, first, second[..|second| - 1]);
    }
  }

  lemma SeeOne(s: Seen, e: Event)
    ensures SeeAll(s, [e]) == See(s, e)
  {
    assert [e][..0] == [];
  }

  lemma SeeNothing(s: Seen)
    ensures SeeAll(s, []) == s
  {}

  class Registers {
    var trace: seq<Event>
    /** How many more line status readings in a row may find the transmitter ready. */
    var patience: nat

    constructor ()
      ensures trace == []
    {
      trace := [];
      patience := *;
    }

    /** READ_LSR.  The transmitter reports busy eventually. */
    method ReadLsr() returns (lsr: Lsr)
      modifies this
      ensures trace == old(trace) + [LsrRead(lsr)]
      ensures lsr.thre ==> patience < old(patience)
    {
      lsr := *;
      if patience == 0 {
        lsr := lsr.(thre := false);
      }
      if lsr.thre {
        patience := patience - 1;
      } else {
        patience := *;
      }
      trace := trace + [LsrRead(lsr)];
    }

    /** READ_MSR. */
    method ReadMsr() returns (msr: Msr)
      modifies this`trace
      ensures trace == old(trace) + [MsrRead(msr)]
    {
      msr := *;
      trace := trace + [MsrRead(msr)];
    }

    /** READ_RBR. */
    method ReadRbr() returns (byte: u8)
      modifies this`trace
      ensures trace == old(trace) + [RbrRead(byte)]
    {
      byte := *;
      trace := trace + [RbrRead(byte)];
    }

    /** WRITE_THR. */
    method WriteThr(byte: u8)
      modifies this`trace
      ensures trace == old(trace) + [ThrWritten(byte)]
    {
      trace := trace + [ThrWritten(byte)];
    }

    /** READ_MCR, a change of Rts, and WRITE_MCR. */
    method SetRts(on: bool)
      modifies this`trace
      ensures trace == old(trace) + [RtsSet(on)]
    {
      trace := trace + [RtsSet(on)];
    }
  }
}
