/**
  The 17-slot ring buffers of the serial driver (PciSioSerialDxe/SerialIo.c).
 */
module SerialFifo {
  import opened Uefi

  const FIFO_SIZE: nat := 17
  const CAPACITY: nat := 16

  /** The queue a ring stands for, oldest byte first. */
  function Ring(slots: seq<u8>, head: nat, tail: nat): (s: seq<u8>)
    requires |slots| == FIFO_SIZE && head < FIFO_SIZE && tail < FIFO_SIZE
    ensures |s| <= CAPACITY && |s| == if head <= tail then tail - head else FIFO_SIZE - head + tail
  {
    if head <= tail then slots[head..tail] else slots[head..] + slots[..tail]
  }

  function Next(i: nat): nat
    requires i < FIFO_SIZE
  {
    if i == FIFO_SIZE - 1 then 0 else i + 1
  }

  lemma RingAdd(slots: seq<u8>, head: nat, tail: nat, byte: u8)
    requires |slots| == FIFO_SIZE && head < FIFO_SIZE && tail < FIFO_SIZE && Next(tail) != head
    ensures Ring(slots[tail := byte], head, Next(tail)) == Ring(slots, head, tail) + [byte]
  {
    var after := slots[tail := byte];
    if head > tail {
      assert after[head..] == slots[head..];
      assert after[..tail + 1] == slots[..tail] + [byte];
    } else if tail == FIFO_SIZE - 1 {
      assert after[head..] == slots[head..tail] + [byte];
      assert after[..0] == [];
    } else {
      assert after[head..tail + 1] == slots[head..tail] + [byte];
    }
  }

  lemma RingRemove(slots: seq<u8>, head: nat, tail: nat)
    requires |slots| == FIFO_SIZE && head < FIFO_SIZE && tail < FIFO_SIZE && head != tail
    ensures Ring(slots, head, tail) == [slots[head]] + Ring(slots, Next(head), tail)
  {
    if head < tail {
      TakeFirst(slots, head, tail);
    } else if head == FIFO_SIZE - 1 {
      TakeFirst(slots, head, FIFO_SIZE);
    } else {
      TakeFirst(slots, head, FIFO_SIZE);
      assert ([slots[head]] + slots[head + 1..]) + slots[..tail] == [slots[head]] + (slots[head + 1..] + slots[..tail]);
    }
  }

  lemma TakeFirst(slots: seq<u8>, head: nat, end: nat)
    requires head < end <= |slots|
    ensures slots[head..end] == [slots[head]] + slots[head + 1..end]
    ensures end == |slots| ==> slots[head..] == [slots[head]] + slots[head + 1..]
  {
  }

  /** SERIAL_DEV_FIFO: one slot always stays unused. */
  class Fifo {
    var head: nat
    var tail: nat
    const data: array<u8>

    constructor ()
      ensures Valid() && Contents() == [] && fresh(data)
    {
      head, tail := 0, 0;
      data := new u8[FIFO_SIZE](_ => 0);
    }

    ghost predicate Valid()
      reads this
    {
      data.Length == FIFO_SIZE && head < FIFO_SIZE && tail < FIFO_SIZE
    }

    ghost function Contents(): (s: seq<u8>)
      requires Valid()
      reads this, data
      ensures |s| <= CAPACITY
    {
      Ring(data[..], head, tail)
    }

    /** SerialFifoFull. */
    method Full() returns (full: bool)
      requires Valid()
      ensures full <==> |Contents()| == CAPACITY
    {
      full := (tail + 1) % FIFO_SIZE == head;
    }

    /** SerialFifoEmpty. */
    method Empty() returns (empty: bool)
      requires Valid()
      ensures empty <==> Contents() == []
    {
      empty := head == tail;
    }

    /** SerialFifoAdd: appends unless 16 bytes are queued. */
    method Add(byte: u8) returns (status: Status)
      requires Valid()
      modifies this, data
      ensures Valid()
      ensures status == if |old(Contents())| == CAPACITY then OutOfResources else Success
      ensures Contents() == if status == Success then old(Contents()) + [byte] else old(Contents())
    {
      var full := Full();
      if full {
        return OutOfResources;
      }
      RingAdd(data[..], head, tail, byte);
      ghost var slots := data[..];
      hide Ring;
      data[tail] := byte;
      assert data[..] == slots[tail := byte];
      tail := (tail + 1) % FIFO_SIZE;
      return Success;
    }

    /** SerialFifoRemove: takes the oldest byte. */
    method Remove() returns (status: Status, byte: u8)
      requires Valid()
      modifies this
      ensures Valid()
      ensures status == if old(Contents()) == [] then OutOfResources else Success
      ensures if status == Success then old(Contents()) == [byte] + Contents() else Contents() == old(Contents())
    {
      var empty := Empty();
      if empty {
        return OutOfResources, 0;
      }
      RingRemove(data[..], head, tail);
      hide Ring;
      byte := data[head];
      head := (head + 1) % FIFO_SIZE;
      return Success, byte;
    }
  }
}
