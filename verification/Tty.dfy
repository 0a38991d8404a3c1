/** The terminal driver: a transmit ring and a receive ring between processes and the
    UART. */
module Tty {
  import opened Base

  const DEV_BUFF_SIZE := 128
  const SPECIAL_CTRL_C := 3
  const RET_SPECIAL_CHAR := -3

  // ----- rings

  /** The slot of the i-th byte of a ring. */
  function At(head: nat, i: nat): (j: nat)
    ensures j < 128
  {
    (head + i) % 128
  }

  /** The bytes of a ring, oldest first. */
  function Queue(buf: seq<Byte>, head: nat, size: nat): (q: seq<Byte>)
    requires |buf| == 128
    ensures |q| == size
    ensures forall i :: 0 <= i < size ==> q[i] == buf[At(head, i)]
  {
    seq(size, i requires 0 <= i => buf[At(head, i)])
  }

  ghost predicate RingOk(head: nat, tail: nat, size: int) {
    head < 128 && tail < 128 && 0 <= size <= 128 && tail == (head + size) % 128
  }

  lemma {:induction false} StoreAtTail(buf: seq<Byte>, head: nat, tail: nat, size: nat, c: Byte)
    requires |buf| == 128 && RingOk(head, tail, size)
    ensures size < 128 ==> Queue(buf[tail := c], head, size + 1) == Queue(buf, head, size) + [c]
    ensures size < 128 ==> RingOk(head, (tail + 1) % 128, size + 1)
    ensures size == 128 ==> Queue(buf[tail := c], head, size) == [c] + Queue(buf, head, size)[1..]
  {
  }

  lemma {:induction false} NextSlot(head: nat, i: nat)
    ensures At((head + 1) % 128, i) == At(head, i + 1)
  {
  }

  lemma {:induction false} RingNext(head: nat, tail: nat, size: nat)
    requires RingOk(head, tail, size) && size > 0
    ensures RingOk((head + 1) % 128, tail, size - 1)
  {
  }

  lemma {:induction false} TakeHead(buf: seq<Byte>, head: nat, tail: nat, size: nat)
    requires |buf| == 128 && RingOk(head, tail, size) && size > 0
    ensures RingOk((head + 1) % 128, tail, size - 1)
    ensures Queue(buf, head, size) == [buf[head]] + Queue(buf, (head + 1) % 128, size - 1)
  {
    RingNext(head, tail, size);
    var q := [buf[head]] + Queue(buf, (head + 1) % 128, size - 1);
    forall i | 0 <= i < size
      ensures q[i] == Queue(buf, head, size)[i]
    {
      if i > 0 {
        NextSlot(head, i - 1);
      }
    }
  }

  /** Handing over the oldest byte keeps the order of all bytes. */
  lemma {:induction false} HandOver(buf: seq<Byte>, head: nat, tail: nat, size: nat, wire: seq<Byte>)
    requires |buf| == 128 && RingOk(head, tail, size) && size > 0
    ensures RingOk((head + 1) % 128, tail, size - 1)
    ensures wire + [buf[head]] + Queue(buf, (head + 1) % 128, size - 1) == wire + Queue(buf, head, size)
  {
    TakeHead(buf, head, tail, size);
  }

  lemma {:induction false} TakeTail(buf: seq<Byte>, head: nat, tail: nat, size: nat, c: Byte)
    requires |buf| == 128 && RingOk(head, tail, size) && size > 0
    ensures var t := if tail == 0 then 127 else tail - 1;
      && RingOk(head, t, size - 1)
      && Queue(buf[t := c], head, size - 1) == Queue(buf, head, size)[..size - 1]
      && buf[t] == Queue(buf, head, size)[size - 1]
  {
  }

  // ----- transmitting

  /** How many of the waiting bytes a UART with room for some can take. */
  function Sendable(size: int, room: nat): (n: nat) {
    if size <= 0 then 0 else if size < room then size else room
  }

  class Transmitter {
    const buf: array<Byte>
    var size: int
    var head: nat
    var tail: nat
    var txIntr: bool
    ghost var wire: seq<Byte>      // bytes handed to the UART
    ghost var accepted: seq<Byte>  // all messages accepted, one after the other

    ghost predicate Shape()
      reads this
    {
      buf.Length == 128 && head < 128 && tail < 128 && size <= 128
    }

    ghost function Queued(): (q: seq<Byte>)
      requires Shape() && size >= 0
      reads this, buf
    {
      Queue(buf[..], head, size)
    }

    /** Bytes leave in the order in which they were accepted, and the UART interrupts
        exactly while some are waiting. */
    ghost predicate Valid()
      reads this, buf
    {
      && Shape() && RingOk(head, tail, size)
      && accepted == wire + Queued()
      && txIntr == (size > 0)
    }

    constructor ()
      ensures Valid() && fresh(buf) && accepted == []
    {
      buf := new Byte[128](_ => 0);
      size, head, tail, txIntr, wire, accepted := 0, 0, 0, false, [], [];
    }

    /** Hands bytes to the UART until it has taken `room` of them and is full, or none are
        left. */
    method WriteUart(room: nat)
      requires Shape()
      modifies this`size, this`head, this`txIntr, this`wire
      ensures Shape() && |wire| + size == |old(wire)| + old(size)
      ensures |wire| == |old(wire)| + Sendable(old(size), room) && txIntr == (size > 0)
      ensures RingOk(old(head), tail, old(size)) && accepted == old(wire + Queued()) ==> Valid()
      ensures old(wire) <= wire
    {
      var rc, sent := 0, 0;
      ghost var good := RingOk(head, tail, size) && accepted == wire + Queued();
      while size > 0
        invariant Shape() && |wire| + size == |old(wire)| + old(size) && old(wire) <= wire
        invariant 0 <= sent == |wire| - |old(wire)| && (if old(size) < 0 then sent == 0 else size >= 0)
        invariant good ==> RingOk(head, tail, size) && accepted == wire + Queued()
        invariant rc == 0 && |wire| <= |old(wire)| + room
        decreases size
      {
        rc := if sent == room then -1 else 0;
        if rc == -1 {
          txIntr := true;
          break;
        }
        if good {
          HandOver(buf[..], head, tail, size, wire);
        }
        wire := wire + [buf[head]];
        head := (head + 1) % DEV_BUFF_SIZE;
        size := size - 1;
        sent := sent + 1;
      }
      if rc == 0 {
        txIntr := false;
      }
    }

    /** Queues a message that fits. */
    method WriteBuff(msg: seq<Byte>, len: int)
      requires Shape() && len <= |msg|
      modifies this`size, this`tail, buf
      ensures Shape() && size == (if len > 128 - old(size) then old(size) else old(size) + len)
      ensures RingOk(head, old(tail), old(size)) && 0 <= len <= 128 - old(size) ==>
        RingOk(head, tail, size) && Queued() == old(Queued()) + msg[..len]
    {
      if len > DEV_BUFF_SIZE - size {
        return;
      }
      var i := 0;
      ghost var good := RingOk(head, tail, size) && 0 <= len;
      while i < len
        invariant 0 <= i && (i <= len || i == 0) && Shape() && size == old(size)
        invariant good ==> RingOk(head, tail, size + i) && Queue(buf[..], head, size + i) == old(Queued()) + msg[..i]
      {
        if good {
          StoreAtTail(buf[..], head, tail, size + i, msg[i]);
        }
        ghost var before := buf[..];
        buf[tail] := msg[i];
        assert buf[..] == before[tail := msg[i]];
        tail := (tail + 1) % DEV_BUFF_SIZE;
        i := i + 1;
        assert msg[..i] == msg[..i - 1] + [msg[i - 1]];
      }
      size := size + len;
    }

    /** Accepts a message whole, or says to try again, or that it can never fit. The order
        of bytes is kept exactly when the length is not negative: a negative length makes
        the driver forget bytes that were queued. */
    method Write(msg: seq<Byte>, len: int, room: nat) returns (rc: int)
      requires Valid() && len <= |msg|
      modifies this, buf
      ensures rc == if len > 128 then -2 else if len > 128 - old(size) then -1 else 0
      ensures Valid() <==> 0 <= len
      ensures rc != 0 ==> wire == old(wire) && accepted == old(accepted) && Queued() == old(Queued())
      ensures rc == 0 && 0 <= len ==> accepted == old(accepted) + msg[..len] && old(wire) <= wire
      ensures rc == 0 && 0 <= len ==> |wire| == |old(wire)| + Sendable(old(size) + len, room)
    {
      if len > DEV_BUFF_SIZE {
        return -2;
      }
      if len > DEV_BUFF_SIZE - size {
        return -1;
      }
      WriteBuff(msg, len);
      if len >= 0 {
        accepted := accepted + msg[..len];
        assert accepted == wire + Queued();
      }
      WriteUart(room);
      assert |accepted| == |wire| + size - (if len < 0 then len else 0);
      return 0;
    }
  }

  // ----- receiving

  /** The queue after a character arrives: appended if there is room; otherwise it takes
      the place of the oldest one. */
  function Arrive(q: seq<Byte>, c: Byte): (q': seq<Byte>)
    requires |q| <= 128
    ensures |q'| <= 128
  {
    if |q| < 128 then q + [c] else [c] + q[1..]
  }

  /** The characters a receive interrupt takes: up to and including the first Ctrl-C. */
  function Taken(input: seq<Byte>): (n: nat)
    ensures n <= |input|
    ensures n > 0 || input == []
    ensures forall i :: 0 <= i < n - 1 ==> input[i] != 3
    ensures n < |input| ==> input[n - 1] == 3
  {
    if input == [] then 0
    else if input[0] == 3 then 1
    else
      assert forall i :: 0 <= i < |input| - 1 ==> input[1..][i] == input[i + 1];
      1 + Taken(input[1..])
  }

  function ArriveAll(q: seq<Byte>, cs: seq<Byte>): (q': seq<Byte>)
    requires |q| <= 128
    ensures |q'| <= 128
  {
    if cs == [] then q else Arrive(ArriveAll(q, cs[..|cs| - 1]), cs[|cs| - 1])
  }

  /** Arrivals that find room are queued in order. */
  lemma {:induction false} RoomKeepsOrder(q: seq<Byte>, cs: seq<Byte>)
    requires |q| + |cs| <= 128
    ensures ArriveAll(q, cs) == q + cs
  {
    if cs != [] {
      var n := |cs| - 1;
      RoomKeepsOrder(q, cs[..n]);
      assert cs == cs[..n] + [cs[n]];
    }
  }

  /** When arrivals do not all find room, the first ones fill it, and the last of all takes
      the place of the oldest character: it is the next one to be read. */
  lemma {:induction false} LastOvertakes(q: seq<Byte>, cs: seq<Byte>)
    requires |q| <= 128 < |q| + |cs|
    ensures ArriveAll(q, cs) == [cs[|cs| - 1]] + (q + cs)[1..128]
  {
    var n := |cs| - 1;
    if |q| + n <= 128 {
      RoomKeepsOrder(q, cs[..n]);
      assert (q + cs[..n])[1..] == (q + cs)[1..128];
    } else {
      LastOvertakes(q, cs[..n]);
      assert (q + cs[..n])[1..128] == (q + cs)[1..128];
    }
  }

  /** Taking back the character that arrived last gives the queue as it was before,
      exactly when there was room for it. */
  lemma {:induction false} TakeBack(q: seq<Byte>, c: Byte)
    requires |q| <= 128
    ensures Arrive(q, c)[..|Arrive(q, c)| - 1] == q <==> |q| < 128
  {
  }

  class Receiver {
    const buf: array<Byte>
    var size: nat
    var head: nat
    var tail: nat

    ghost predicate Valid()
      reads this
    {
      buf.Length == 128 && RingOk(head, tail, size)
    }

    ghost function Received(): (q: seq<Byte>)
      requires Valid()
      reads this, buf
      ensures |q| == size <= 128
    {
      Queue(buf[..], head, size)
    }

    constructor ()
      ensures Valid() && fresh(buf) && Received() == []
    {
      buf := new Byte[128](_ => 0);
      size, head, tail := 0, 0, 0;
    }

    method Store(c: Byte)
      requires Valid()
      modifies this`size, this`tail, buf
      ensures Valid() && Received() == Arrive(old(Received()), c)
    {
      StoreAtTail(buf[..], head, tail, size, c);
      buf[tail] := c;
      assert buf[..] == old(buf[..])[tail := c];
      if size < DEV_BUFF_SIZE {
        tail := (tail + 1) % DEV_BUFF_SIZE;
        size := size + 1;
      }
    }

    /** Takes the characters the UART has, stopping after a Ctrl-C. */
    method ReadUart(input: seq<Byte>) returns (rc: int, n: nat)
      requires Valid()
      modifies this`size, this`tail, buf
      ensures Valid() && n == Taken(input) && Received() == ArriveAll(old(Received()), input[..n])
      ensures rc == if input == [] then -1 else if input[n - 1] == SPECIAL_CTRL_C then RET_SPECIAL_CHAR else 0
    {
      n := 0;
      if input == [] {
        return -1, 0;
      }
      while true
        invariant n < |input| && Valid()
        invariant Received() == ArriveAll(old(Received()), input[..n])
        invariant Taken(input) == n + Taken(input[n..])
        decreases |input| - n
      {
        var c := input[n];
        Store(c);
        assert input[..n + 1][..n] == input[..n] && input[n..][1..] == input[n + 1..];
        n := n + 1;
        if c == SPECIAL_CTRL_C {
          return RET_SPECIAL_CHAR, n;
        }
        if n == |input| {
          return 0, n;
        }
      }
    }

    method Read() returns (rc: int, c: Byte)
      requires Valid()
      modifies this`size, this`head
      ensures Valid()
      ensures old(size) == 0 ==> rc == -1 && Received() == old(Received())
      ensures old(size) > 0 ==> rc == 0 && old(Received()) == [c] + Received()
    {
      if size == 0 {
        return -1, 0;
      }
      TakeHead(buf[..], head, tail, size);
      c := buf[head];
      head := (head + 1) % DEV_BUFF_SIZE;
      size := size - 1;
      return 0, c;
    }

    method ReadTail() returns (rc: int, c: Byte)
      requires Valid()
      modifies this`size, this`tail, buf
      ensures Valid()
      ensures old(size) == 0 ==> rc == -1 && Received() == old(Received())
      ensures old(size) > 0 ==> rc == 0 && old(Received()) == Received() + [c]
    {
      if size == 0 {
        return -1, 0;
      }
      TakeTail(buf[..], head, tail, size, 0);
      tail := if tail == 0 then DEV_BUFF_SIZE - 1 else tail - 1;
      c := buf[tail];
      buf[tail] := 0;
      assert buf[..] == old(buf[..])[tail := 0];
      size := size - 1;
      return 0, c;
    }
  }
}
