/**
  The receiving side of an established TCP connection: `TCPSocket::recv_packet` accepts segments in order only and
  hands their payloads to the bounded receive queue of `IPSocket`.
 */
module TcpReceive {
  import opened Helpers

  const QUEUE_CAPACITY: nat := 16
  const MAX_OOO_PACKETS: nat := 8

  // ---------------------------------------------------------------- the ring buffer

  class CircularQueue<T(0)> {
    const storage: array<T>
    var front: nat
    var back: nat
    var size: nat
    ghost var contents: seq<T>

    /** From front to back, once around the ring, lie the elements of `contents`. */
    ghost predicate Valid()
      reads this, storage
    {
      && |contents| == size <= storage.Length && front < storage.Length
      && (size > 0 ==> back == InRing(front + size - 1, storage.Length))
      && forall i :: 0 <= i < size ==> storage[InRing(front + i, storage.Length)] == contents[i]
    }

    constructor (capacity: nat)
      requires capacity > 0
      ensures Valid() && fresh(storage) && storage.Length == capacity && contents == []
    {
      storage := new T[capacity];
      front, back, size, contents := 0, 0, 0, [];
    }

    method PushBack(elem: T) returns (ok: bool)
      requires Valid()
      modifies this, storage
      ensures Valid() && ok == (|old(contents)| < storage.Length)
      ensures contents == if ok then old(contents) + [elem] else old(contents)
    {
      if size == storage.Length {
        return false;
      }
      if size == 0 {
        front, back := 0, 0;
      } else {
        back := NextInRing(back, storage.Length);
      }
      storage[back] := elem;
      size, contents := size + 1, contents + [elem];
      ok := true;
    }

    method PopFront() returns (elem: T)
      requires Valid() && size > 0
      modifies this
      ensures Valid() && elem == old(contents)[0] && contents == old(contents)[1..]
    {
      elem := storage[front];
      size, contents := size - 1, contents[1..];
      if size == 0 {
        front, back := 0, 0;
      } else {
        ghost var was := front;
        front := NextInRing(front, storage.Length);
        forall i | 0 <= i < size ensures storage[InRing(front + i, storage.Length)] == contents[i] {
          assert storage[InRing(was + (i + 1), storage.Length)] == old(contents)[i + 1];
        }
      }
    }
  }

  // ---------------------------------------------------------------- segments and the stream they are cut from

  /** A sequence number: a position modulo 2^32. */
  function Wrap(x: nat): nat { x % MAX }

  lemma {:induction false} WrapAdd(x: nat, n: nat)
    ensures Wrap(Wrap(x) + n) == Wrap(x + n)
  {
  }

  datatype Segment = Segment(sequence: nat, payload: seq<Byte>, fin: bool, rst: bool)

  ghost predicate CutAt(seg: Segment, stream: seq<Byte>, first: nat, o: nat) {
    && !seg.fin && !seg.rst && o + |seg.payload| <= |stream| && seg.payload == stream[o..o + |seg.payload|]
    && seg.sequence == Wrap(first + o)
  }

  /** The segment carries some stretch of the stream under the right sequence number. */
  ghost predicate CutFrom(seg: Segment, stream: seq<Byte>, first: nat) { exists o :: CutAt(seg, stream, first, o) }

  /** In a stream shorter than the sequence space a sequence number tells the position. */
  lemma {:induction false} SequenceTellsOffset(first: nat, a: nat, b: nat)
    requires a < MAX && b < MAX && Wrap(first + a) == Wrap(first + b)
    ensures a == b
  {
  }

  lemma {:induction false} PrefixGrows(a: seq<Byte>, b: seq<Byte>, stream: seq<Byte>)
    requires a <= stream && |a| + |b| <= |stream| && b == stream[|a|..|a| + |b|]
    ensures a + b <= stream
  {
    assert stream[..|a| + |b|] == a + b;
  }

  /** The number behind n more bytes and a FIN differs from that behind the FIN alone, unless there are no bytes. */
  lemma {:induction false} FinTells(first: nat, k: nat, n: nat)
    requires k + n < MAX
    ensures Wrap(Wrap(first + k) + n + 1) == Wrap(first + (k + n) + 1)
    ensures Wrap(first + (k + n) + 1) == Wrap(first + k + 1) <==> n == 0
  {
    hide Wrap;
    WrapAdd(first + k, n + 1);
    assert first + k + (n + 1) == (first + 1) + (k + n) && first + k + 1 == (first + 1) + k;
    if Wrap((first + 1) + (k + n)) == Wrap((first + 1) + k) { SequenceTellsOffset(first + 1, k + n, k); }
  }

  ghost function Flat(payloads: seq<seq<Byte>>): seq<Byte> {
    if payloads == [] then [] else Flat(payloads[..|payloads| - 1]) + payloads[|payloads| - 1]
  }

  lemma {:induction false} FlatFirst(payloads: seq<seq<Byte>>)
    requires payloads != []
    ensures Flat(payloads) == payloads[0] + Flat(payloads[1..])
  {
    var n := |payloads| - 1;
    if n > 0 {
      FlatFirst(payloads[..n]);
      assert payloads[..n][1..] == payloads[1..][..n - 1];
    } else {
      assert payloads[..0] == [] && payloads[1..] == [];
    }
  }

  // ---------------------------------------------------------------- the length checks

  /** The length of the payload as the code computes it from the length of the packet, which includes 20 bytes of IPv4
      header, and the data offset, in words: 32-bit arithmetic. */
  function PayloadLength(length: nat, dataOffset: nat): nat { (length - 20 - 4 * dataOffset) % MAX }

  /** Where the payload begins in the packet. */
  function PayloadStart(dataOffset: nat): nat { 20 + 4 * dataOffset }

  /** The two checks; the second compares a number of words with a number of bytes. */
  predicate PassesChecks(length: nat, dataOffset: nat) { length >= 20 + 20 && length >= 20 + dataOffset }

  /** The payload lies in the packet, behind both headers. */
  predicate InPacket(length: nat, dataOffset: nat) {
    20 + 20 <= PayloadStart(dataOffset) && PayloadStart(dataOffset) + PayloadLength(length, dataOffset) <= length
  }

  /** For what passes the checks that holds if and only if the offset is at least the five words of the header and the
      header fits. */
  lemma {:induction false} PayloadInPacket(length: nat, dataOffset: nat)
    requires length < 0x1_0000 && dataOffset < 16 && PassesChecks(length, dataOffset)
    ensures InPacket(length, dataOffset) <==> 5 <= dataOffset && 20 + 4 * dataOffset <= length
  {
    var n := length - 20 - 4 * dataOffset;
    if n < 0 {
      assert n % MAX == n + MAX;
    }
  }

  /** Two packets that pass the checks: one whose header counts as payload, and one whose payload length wraps. */
  lemma ChecksMiss()
    ensures PassesChecks(40, 0) && PayloadStart(0) == 20 && PayloadLength(40, 0) == 20 && !InPacket(40, 0)
    ensures PassesChecks(40, 15) && PayloadStart(15) == 80 && PayloadLength(40, 15) == MAX - 40 && !InPacket(40, 15)
  {
    assert (40 - 20 - 60) % MAX == MAX - 40;
  }

  // ---------------------------------------------------------------- the connection

  datatype State = Established | CloseWait | Closed

  /** The readers were given all that was taken if and only if no read was too short. */
  ghost predicate Given(taken: seq<Byte>, delivered: seq<Byte>, short: bool) {
    |delivered| <= |taken| && (delivered == taken <==> !short) && (|delivered| == |taken| <==> !short)
  }

  class Connection {
    var state: State
    var ack: nat
    var ooo: nat
    var acksForced: nat
    const queue: CircularQueue<seq<Byte>>
    ghost var accepted: seq<Byte>
    ghost var taken: seq<Byte>
    ghost var delivered: seq<Byte>
    ghost var short: bool

    /** What was taken out of the queue and what is still in it is all that was accepted. */
    ghost predicate Valid()
      reads this, queue, queue.storage
    {
      queue.Valid() && queue.storage.Length == QUEUE_CAPACITY && accepted == taken + Flat(queue.contents) && Given(taken, delivered, short)
    }

    /** All that was accepted is a prefix of the stream, and the next byte expected is the one behind it. */
    ghost predicate InStep(stream: seq<Byte>, first: nat)
      reads this
    {
      state == Established && accepted <= stream && ack == Wrap(first + |accepted|)
    }

    constructor (first: nat)
      ensures Valid() && fresh(queue) && fresh(queue.storage) && queue.contents == [] && accepted == [] && taken == [] && delivered == [] && !short
      ensures ooo == 0 && forall stream :: InStep(stream, first)
    {
      state, ack, ooo, acksForced := Established, Wrap(first), 0, 0;
      accepted, taken, delivered, short := [], [], [], false;
      queue := new CircularQueue<seq<Byte>>(QUEUE_CAPACITY);
    }

    /** `IPSocket::recv_packet`: drops the payload when the queue is full. */
    method Enqueue(payload: seq<Byte>) returns (ok: bool)
      requires Valid()
      modifies this`accepted, queue, queue.storage
      ensures Valid() && ok == (|old(queue.contents)| < QUEUE_CAPACITY) && taken == old(taken)
      ensures queue.contents == if ok then old(queue.contents) + [payload] else old(queue.contents)
      ensures accepted == if ok then old(accepted) + payload else old(accepted)
    {
      hide Given;
      if queue.size == queue.storage.Length {
        return false;
      }
      ok := queue.PushBack(payload);
      accepted := accepted + payload;
      assert queue.contents[..|queue.contents| - 1] == old(queue.contents);
    }

    /** A segment arrives in the Established state. */
    method Receive(seg: Segment)
      requires Valid() && state == Established
      modifies this`state, this`ack, this`ooo, this`acksForced, this`accepted, queue, queue.storage
      ensures Valid() && taken == old(taken)
      ensures seg.rst ==> state == Closed && accepted == old(accepted)
      ensures !seg.rst && seg.sequence != old(ack) ==>
        state == Established && ack == old(ack) && accepted == old(accepted) && ooo == old(ooo) + 1
      ensures !seg.rst && seg.sequence == old(ack) ==>
        var fits := seg.payload == [] || |old(queue.contents)| < QUEUE_CAPACITY;
        && ooo == 0 && accepted == (if fits then old(accepted) + seg.payload else old(accepted))
        && ack == (if seg.fin then Wrap(seg.sequence + |seg.payload| + 1)
                   else if fits then Wrap(seg.sequence + |seg.payload|) else old(ack))
        && state == (if seg.fin then CloseWait else Established)
        && queue.contents == if fits && seg.payload != [] then old(queue.contents) + [seg.payload] else old(queue.contents)
    {
      hide Wrap, Flat, Given;
      if seg.rst {
        state := Closed;
        return;
      }
      if seg.sequence != ack {
        ooo := ooo + 1;
        if ooo > MAX_OOO_PACKETS { acksForced := acksForced + 1; }
        return;
      }
      ooo := 0;
      var ok := true;
      if |seg.payload| != 0 {
        ok := Enqueue(seg.payload);
      }
      if seg.fin {
        ack := Wrap(seg.sequence + |seg.payload| + 1);
        state := CloseWait;
      } else if ok {
        ack := Wrap(seg.sequence + |seg.payload|);
      }
    }

    /** A segment of the stream, however late, repeated or out of order, and whether or not there is room for it,
        keeps the receiver in step. */
    method ReceiveInStep(seg: Segment, ghost stream: seq<Byte>, ghost first: nat)
      requires Valid() && InStep(stream, first) && |stream| < MAX && CutFrom(seg, stream, first)
      modifies this`state, this`ack, this`ooo, this`acksForced, this`accepted, queue, queue.storage
      ensures Valid() && InStep(stream, first) && old(accepted) <= accepted && taken == old(taken)
      ensures old(CutAt(seg, stream, first, |accepted|)) && |old(queue.contents)| < QUEUE_CAPACITY ==>
        accepted == old(accepted) + seg.payload
    {
      hide Wrap, Flat, Given, CircularQueue.Valid;
      ghost var o :| CutAt(seg, stream, first, o);
      ghost var k := |accepted|;
      if seg.sequence == ack {
        SequenceTellsOffset(first, o, k);
        PrefixGrows(accepted, seg.payload, stream);
      }
      WrapAdd(first + o, |seg.payload|);
      assert CutAt(seg, stream, first, k) ==> seg.sequence == ack;
      Receive(seg);
    }

    /** The last segment of a stream: it is acknowledged together with its payload, which is right exactly when the
        payload was not dropped. */
    method ReceiveFin(seg: Segment, ghost stream: seq<Byte>, ghost first: nat)
      requires Valid() && InStep(stream, first) && |stream| < MAX
      requires seg.fin && CutAt(seg.(fin := false), stream, first, |accepted|)
      modifies this`state, this`ack, this`ooo, this`acksForced, this`accepted, queue, queue.storage
      ensures Valid() && state == CloseWait && old(accepted) <= accepted <= stream && taken == old(taken)
      ensures ack == Wrap(first + |accepted| + 1) <==> seg.payload == [] || |old(queue.contents)| < QUEUE_CAPACITY
    {
      hide Wrap, Flat, Given, CircularQueue.Valid;
      ghost var k, n := |accepted|, |seg.payload|;
      PrefixGrows(accepted, seg.payload, stream);
      FinTells(first, k, n);
      Receive(seg);
    }

    /** `recvfrom`: takes the oldest payload out of the queue and gives the reader its first `len` bytes. The rest of it
        is dropped. `None` stands for waiting. */
    method Take(len: nat) returns (r: Option<seq<Byte>>)
      requires Valid()
      modifies this`taken, this`delivered, this`short, queue
      ensures Valid() && accepted == old(accepted) && (r.None? <==> old(queue.contents) == [])
      ensures r.None? ==> taken == old(taken) && delivered == old(delivered) && short == old(short) && queue.contents == []
      ensures r.Some? ==>
        var payload := old(queue.contents)[0];
        && queue.contents == old(queue.contents)[1..] && taken == old(taken) + payload
        && r.value == (if len < |payload| then payload[..len] else payload) && delivered == old(delivered) + r.value
        && short == (old(short) || len < |payload|)
    {
      if queue.size == 0 {
        return None;
      }
      FlatFirst(queue.contents);
      var payload := queue.PopFront();
      var bytes := if len < |payload| then payload[..len] else payload;
      taken, delivered, short := taken + payload, delivered + bytes, short || len < |payload|;
      r := Some(bytes);
    }
  }

  datatype Event = Arrive(seg: Segment) | Read(len: nat)

  /** Over any sequence of arrivals and reads, what was taken out of the queue and what waits in it is a prefix of the
      stream, and the acknowledgement number is that of the byte behind it. */
  method Session(c: Connection, events: seq<Event>, ghost stream: seq<Byte>, ghost first: nat)
    requires c.Valid() && c.InStep(stream, first) && |stream| < MAX
    requires forall i :: 0 <= i < |events| && events[i].Arrive? ==> CutFrom(events[i].seg, stream, first)
    modifies c, c.queue, c.queue.storage
    ensures c.Valid() && c.InStep(stream, first) && c.taken + Flat(c.queue.contents) <= stream
    ensures c.ack == Wrap(first + |c.taken| + |Flat(c.queue.contents)|)
    ensures !c.short <==> c.delivered + Flat(c.queue.contents) == c.accepted
    ensures (forall i :: 0 <= i < |events| && events[i].Read? ==> events[i].len >= |stream|) && !old(c.short) ==> !c.short
  {
    hide Wrap;
    for i := 0 to |events|
      invariant c.Valid() && c.InStep(stream, first)
      invariant (forall j :: 0 <= j < i && events[j].Read? ==> events[j].len >= |stream|) && !old(c.short) ==> !c.short
    {
      match events[i]
      case Arrive(seg) =>
        c.ReceiveInStep(seg, stream, first);
      case Read(len) =>
        if c.queue.contents != [] { FlatFirst(c.queue.contents); }
        var r := c.Take(len);
    }
  }

  /** A read shorter than a payload: of the stream 1, 2, 3 the reader gets 1 and 3. */
  method ShortRead() returns (got: seq<Byte>)
    ensures got == [1, 3] && !(got <= [1, 2, 3])
  {
    hide Flat, Given;
    var c := new Connection(0);
    assert c.InStep([], 0);
    c.Receive(Segment(0, [1, 2], false, false));
    c.Receive(Segment(2, [3], false, false));
    assert c.queue.contents == [[1, 2], [3]];
    var x := c.Take(1);
    var y := c.Take(1);
    got := x.value + y.value;
    assert got[1] != [1, 2, 3][1];
  }
}
