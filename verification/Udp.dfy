/** kernel/network/udp.c and udp_recvfrom of kernel/socket.c: datagrams framed into a byte ring. */
module Udp {
  import opened Bytes
  import opened RingBuffers

  /** sizeof(struct sockaddr_in): family, address, port and two bytes of padding. */
  const SOCKADDR_IN: nat := 12

  /** What the ring keeps of one received datagram. */
  datatype Datagram = Datagram(from: seq<byte>, payload: seq<byte>)

  predicate WellFormed(d: Datagram) {
    |d.from| == SOCKADDR_IN && SOCKADDR_IN + |d.payload| < U32_END
  }

  predicate AllWellFormed(q: seq<Datagram>) {
    forall k :: 0 <= k < |q| ==> WellFormed(q[k])
  }

  function Frame(d: Datagram): (s: seq<byte>)
    requires WellFormed(d)
  {
    FromU32(SOCKADDR_IN + |d.payload|) + d.from + d.payload
  }

  function Frames(q: seq<Datagram>): (s: seq<byte>)
    requires AllWellFormed(q)
  {
    if q == [] then [] else Frame(q[0]) + Frames(q[1..])
  }

  lemma {:induction false} FramesAppend(q: seq<Datagram>, d: Datagram)
    requires WellFormed(d) && AllWellFormed(q)
    ensures Frames(q + [d]) == Frames(q) + Frame(d)
  {
    if q == [] {
      assert Frames([d]) == Frame(d) + Frames([]);
    } else {
      FramesAppend(q[1..], d);
      assert (q + [d])[1..] == q[1..] + [d];
    }
  }

  lemma NoFrames()
    ensures Frames([]) == []
  {
  }

  /** The first frame, cut into the pieces udp_recvfrom reads. */
  lemma FrameHead(q: seq<Datagram>)
    requires q != [] && AllWellFormed(q)
    ensures Frames(q) == FromU32(SOCKADDR_IN + |q[0].payload|) + (q[0].from + (q[0].payload + Frames(q[1..])))
    ensures |Frames(q)| == |Frame(q[0])| + |Frames(q[1..])|
  {
  }

  /** The framing can be undone in one way only, so the ring's bytes determine the queue. */
  lemma {:induction false} FramesInjective(p: seq<Datagram>, q: seq<Datagram>)
    requires AllWellFormed(p)
    requires AllWellFormed(q)
    requires Frames(p) == Frames(q)
    ensures p == q
  {
    if p != [] && q != [] {
      FrameHead(p);
      FrameHead(q);
      var (a, b) := (p[0], q[0]);
      var (p', q') := (Frames(p[1..]), Frames(q[1..]));
      CutAt(FromU32(SOCKADDR_IN + |a.payload|), a.from + (a.payload + p'), FromU32(SOCKADDR_IN + |b.payload|),
          b.from + (b.payload + q'));
      CutAt(a.from, a.payload + p', b.from, b.payload + q');
      CutAt(a.payload, p', b.payload, q');
      FramesInjective(p[1..], q[1..]);
    }
  }

  lemma RegroupFrame(w: seq<byte>, a: seq<byte>, b: seq<byte>, c: seq<byte>)
    ensures w + a + b + c == w + (a + b + c)
  {
  }

  datatype Received = Data(bytes: seq<byte>, from: seq<byte>) | WouldBlock | BadFd

  /** Abstract arrival: a datagram is queued when its whole frame fits, otherwise dropped. */
  function Arrive(q: seq<Datagram>, capacity: nat, d: Datagram): (r: seq<Datagram>)
    requires WellFormed(d) && AllWellFormed(q)
    ensures AllWellFormed(r)
  {
    if |Frames(q)| + |Frame(d)| <= capacity then q + [d] else q
  }

  /** Big-endian u16 of the network header. */
  function Net16(s: seq<byte>, at: nat): (v: nat)
    requires at + 2 <= |s|
    ensures v < U16_END
  {
    0x100 * s[at] as int + s[at + 1] as int
  }

  /** A UDP packet as it is on the wire (RFC 768): both ports and the length, most significant byte first. */
  function UdpPacket(srcPort: nat, dstPort: nat, length: nat, x: byte, y: byte, payload: seq<byte>): seq<byte>
    requires srcPort < 0x1_0000 && dstPort < 0x1_0000 && length < 0x1_0000
  {
    [srcPort / 256, srcPort % 256, dstPort / 256, dstPort % 256, length / 256, length % 256, x, y] + payload
  }

  /** Its fields read back, and every packet with a whole header is one. */
  lemma PacketFields(srcPort: nat, dstPort: nat, length: nat, x: byte, y: byte, payload: seq<byte>)
    requires srcPort < 0x1_0000 && dstPort < 0x1_0000 && length < 0x1_0000
    ensures var packet := UdpPacket(srcPort, dstPort, length, x, y, payload);
            && Net16(packet, 0) == srcPort && Net16(packet, 2) == dstPort && Net16(packet, 4) == length
            && |packet| == 8 + |payload| && packet[8..] == payload
  {
  }

  lemma PacketOf(packet: seq<byte>)
    requires |packet| >= 8
    ensures packet == UdpPacket(Net16(packet, 0), Net16(packet, 2), Net16(packet, 4), packet[6], packet[7], packet[8..])
  {
  }

  /** The sockaddr_in handed to receivers: family and padding as found, address and port set. */
  function SockAddrIn(stack: seq<byte>, ip: seq<byte>, port: nat): (s: seq<byte>)
    requires |stack| == SOCKADDR_IN && |ip| == 4 && port < U16_END
    ensures |s| == SOCKADDR_IN && s[4..8] == ip && U16(s, 8) == port
  {
    stack[..4] + ip + FromU16(port) + stack[10..]
  }

  class UdpConnection {
    var incomingPort: nat
    var outgoingPort: nat
    var dead: bool
    var incoming: RingBuffer
    ghost var queue: seq<Datagram>

    /** The ring always holds whole frames: exactly those of the queued datagrams. */
    ghost predicate Valid()
      reads this, incoming, incoming.buffer
    {
      && incomingPort < U16_END && outgoingPort < U16_END
      && incoming.Valid() && 0 < incoming.buffer.Length < U32_END
      && AllWellFormed(queue)
      && incoming.Contents() == Frames(queue)
    }

    /** udp_connect. */
    constructor (outgoing: nat)
      requires outgoing < U16_END
      ensures Valid() && fresh(incoming) && fresh(incoming.buffer)
      ensures queue == [] && !dead && incomingPort == 1337 && outgoingPort == outgoing
      ensures incoming.buffer.Length == 8192
    {
      incomingPort, outgoingPort, dead := 1337, outgoing, false;
      incoming := new RingBuffer(8192);
      queue := [];
    }

    /** handle_udp has all it needs to deliver the packet here. */
    predicate Addressed(packet: seq<byte>)
      reads this
    {
      && 8 <= |packet| && Net16(packet, 4) == |packet|
      && !dead && Net16(packet, 0) == outgoingPort && Net16(packet, 2) == incomingPort
    }

    /** Writes the three parts of a frame one after the other. */
    method Enqueue(d: Datagram)
      requires Valid() && WellFormed(d) && |Frames(queue)| + |Frame(d)| <= incoming.buffer.Length - 1
      modifies `queue, incoming`writePtr, incoming.buffer
      ensures Valid() && queue == old(queue) + [d]
    {
      FramesAppend(queue, d);
      var head := FromU32(SOCKADDR_IN + |d.payload|);
      ghost var was := incoming.Contents();
      incoming.WriteWhole(head);
      incoming.WriteWhole(d.from);
      incoming.WriteWhole(d.payload);
      RegroupFrame(was, head, d.from, d.payload);
      queue := queue + [d];
    }

    /** handle_udp. The family and the padding of the address it builds on its stack are not set:
        `stack` is what they happen to hold. */
    method HandleUdp(packet: seq<byte>, srcIp: seq<byte>, stack: seq<byte>)
      requires Valid() && |srcIp| == 4 && |stack| == SOCKADDR_IN
      modifies `queue, incoming`writePtr, incoming.buffer
      ensures Valid()
      ensures queue == if Addressed(packet)
                       then Arrive(old(queue), incoming.buffer.Length - 1,
                                   Datagram(SockAddrIn(stack, srcIp, outgoingPort), packet[8..]))
                       else old(queue)
      ensures |packet| < 8 ==> queue == old(queue)
      ensures forall src: nat, dst: nat, length: nat, x: byte, y: byte, d: seq<byte> ::
                src < 0x1_0000 && dst < 0x1_0000 && length < 0x1_0000
                    && packet == UdpPacket(src, dst, length, x, y, d) ==>
                  if !dead && src == outgoingPort && dst == incomingPort && length == 8 + |d|
                     && old(|incoming.Contents()|) + 4 + 12 + |d| <= incoming.buffer.Length - 1
                  then queue == old(queue) + [Datagram(SockAddrIn(stack, srcIp, src), d)]
                  else queue == old(queue)
    {
      hide Net16, SockAddrIn, UdpPacket;
      forall src: nat, dst: nat, length: nat, x: byte, y: byte, d: seq<byte>
             | src < 0x1_0000 && dst < 0x1_0000 && length < 0x1_0000 && packet == UdpPacket(src, dst, length, x, y, d)
        ensures |packet| == 8 + |d| && Net16(packet, 0) == src && Net16(packet, 2) == dst && Net16(packet, 4) == length
        ensures packet[8..] == d
      {
        PacketFields(src, dst, length, x, y, d);
      }
      if |packet| < 8 { return; }
      var srcPort, dstPort, length := Net16(packet, 0), Net16(packet, 2), Net16(packet, 4);
      if length < 8 || length != |packet| { return; }
      if dead || incomingPort != dstPort || outgoingPort != srcPort { return; }
      var len := length - 8 + SOCKADDR_IN;
      if incoming.Unused() < len + 4 { return; }
      Enqueue(Datagram(SockAddrIn(stack, srcIp, srcPort), packet[8..]));
    }

    /** udp_recvfrom: the oldest datagram, cut to `len`; what does not fit is discarded. */
    method RecvFrom(len: nat) returns (r: Received)
      requires Valid()
      modifies `queue, incoming`readPtr
      ensures Valid()
      ensures dead ==> r == BadFd && queue == old(queue)
      ensures !dead && old(queue) == [] ==> r == WouldBlock && queue == []
      ensures !dead && old(queue) != [] ==>
                && queue == old(queue)[1..]
                && r == Data(old(queue)[0].payload[..Min(len, |old(queue)[0].payload|)], old(queue)[0].from)
    {
      hide Frames, Frame, U32, FromU32;
      if dead { return BadFd; }
      NoFrames();
      if queue != [] { FrameHead(queue); }
      var header := incoming.Read(4);
      if |header| == 0 { return WouldBlock; }
      ghost var (d, later) := (queue[0], Frames(queue[1..]));
      CutAt(header, incoming.Contents(), FromU32(SOCKADDR_IN + |d.payload|), d.from + (d.payload + later));
      var packetLength := U32(header, 0);
      var from := incoming.Read(SOCKADDR_IN);
      CutAt(from, incoming.Contents(), d.from, d.payload + later);
      var rest := packetLength - SOCKADDR_IN;
      var bytes := TakePayload(rest, Min(rest, len), d.payload, later);
      queue := queue[1..];
      return Data(bytes, from);
    }

    /** The end of udp_recvfrom: hands out `toRead` of the `rest` payload bytes and drops the others. */
    method TakePayload(rest: nat, toRead: nat, ghost payload: seq<byte>, ghost later: seq<byte>)
      returns (bytes: seq<byte>)
      requires incoming.Valid() && incoming.Contents() == payload + later
      requires rest == |payload| && toRead <= rest
      modifies incoming`readPtr
      ensures incoming.Valid() && incoming.Contents() == later && bytes == payload[..toRead]
    {
      assert payload + later == payload[..toRead] + (payload[toRead..] + later);
      bytes := incoming.Read(toRead);
      CutAt(bytes, incoming.Contents(), payload[..toRead], payload[toRead..] + later);
      var tail := incoming.Read(rest - toRead);
      CutAt(tail, incoming.Contents(), payload[toRead..], later);
    }

    /** udp_close. */
    method Close()
      requires Valid()
      modifies `dead
      ensures Valid() && dead
    {
      dead := true;
    }
  }

  /** One thing that can happen to an open socket. */
  datatype Event = Packet(d: Datagram) | Recv(len: nat)

  /** The queue, every datagram ever accepted, every one taken out, and what the receivers asked for and got. */
  datatype History = History(queue: seq<Datagram>, accepted: seq<Datagram>, taken: seq<Datagram>, asked: seq<nat>,
          got: seq<seq<byte>>)

  ghost function Step(h: History, capacity: nat, e: Event): History
    requires AllWellFormed(h.queue)
    requires e.Packet? ==> WellFormed(e.d)
  {
    match e
    case Packet(d) =>
      var q := Arrive(h.queue, capacity, d);
      h.(queue := q, accepted := if q == h.queue then h.accepted else h.accepted + [d])
    case Recv(len) =>
      if h.queue == [] then h else
      var d := h.queue[0];
      h.(queue := h.queue[1..], taken := h.taken + [d], asked := h.asked + [len],
          got := h.got + [d.payload[..Min(len, |d.payload|)]])
  }

  ghost function Run(events: seq<Event>, capacity: nat): (h: History)
    requires forall e :: e in events && e.Packet? ==> WellFormed(e.d)
    ensures AllWellFormed(h.queue)
    decreases |events|
  {
    if events == [] then History([], [], [], [], []) else
    Step(Run(events[..|events| - 1], capacity), capacity, events[|events| - 1])
  }

  /** Nothing accepted is lost, repeated or reordered, and the ring is never over-full. */
  ghost predicate InOrder(h: History, capacity: nat) {
    && AllWellFormed(h.queue)
    && h.accepted == h.taken + h.queue
    && |Frames(h.queue)| <= capacity
    && |h.got| == |h.taken| == |h.asked|
    && forall k :: 0 <= k < |h.got| ==> h.got[k] == h.taken[k].payload[..Min(h.asked[k], |h.taken[k].payload|)]
  }

  lemma StepInOrder(h: History, capacity: nat, e: Event)
    requires InOrder(h, capacity) && (e.Packet? ==> WellFormed(e.d))
    ensures InOrder(Step(h, capacity, e), capacity)
  {
    match e
    case Packet(d) =>
      FramesAppend(h.queue, d);
      assert h.taken + (h.queue + [d]) == h.accepted + [d];
    case Recv(_) =>
      if h.queue != [] {
        FrameHead(h.queue);
        assert h.taken + [h.queue[0]] + h.queue[1..] == h.accepted;
      }
  }

  /** For every interleaving: receives see the accepted datagrams in order, each cut to the length asked for. */
  lemma {:induction false} DatagramsInOrder(events: seq<Event>, capacity: nat)
    requires forall e :: e in events && e.Packet? ==> WellFormed(e.d)
    ensures InOrder(Run(events, capacity), capacity)
    decreases |events|
  {
    if events != [] {
      var before, e := events[..|events| - 1], events[|events| - 1];
      DatagramsInOrder(before, capacity);
      StepInOrder(Run(before, capacity), capacity, e);
    }
  }
}
