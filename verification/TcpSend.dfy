/** Send safety of the TCP endpoint: the window bound, and the byte stream put on the wire. */
module TcpSend {
  import opened Bytes
  import opened Tcp
  import opened TcpReceive

  /** All payload bytes of the segments, in the order they were sent. */
  ghost function Payloads(sent: seq<Segment>): seq<byte> {
    if sent == [] then [] else Payloads(sent[..|sent| - 1]) + sent[|sent| - 1].payload
  }

  /** The sequence number of every data segment is its place in the stream (the SYN was 0), and
      none carries more than 1000 bytes: the segments tile the sequence range. */
  ghost predicate Numbered(sent: seq<Segment>) {
    forall k :: 0 <= k < |sent| && sent[k].payload != [] ==>
                  sent[k].seqNum == 1 + |Payloads(sent[..k])| && |sent[k].payload| <= MAX_PAYLOAD
  }

  lemma SentOne(sent: seq<Segment>, s: Segment)
    requires Numbered(sent)
    requires s.payload != [] ==> s.seqNum == 1 + |Payloads(sent)| && |s.payload| <= MAX_PAYLOAD
    ensures Numbered(sent + [s]) && Payloads(sent + [s]) == Payloads(sent) + s.payload
  {
    var all := sent + [s];
    assert all[..|sent|] == sent;
    forall k | 0 <= k < |all| && all[k].payload != []
      ensures all[k].seqNum == 1 + |Payloads(all[..k])| && |all[k].payload| <= MAX_PAYLOAD
    {
      if k < |sent| { assert all[..k] == sent[..k]; }
    }
  }

  /** Room in the peer's window, negative once it has been overrun. */
  ghost function Left(c: Conn): int {
    c.sndUna + c.sndWnd - c.sndMax
  }

  /** How many of `n` bytes send_tcp_packet puts out when `left` are allowed. */
  ghost function Sent(left: int, n: nat): nat
    decreases n
  {
    if left == 0 then 0
    else if n <= MAX_PAYLOAD then n
    else MAX_PAYLOAD + Sent(left - MAX_PAYLOAD, n - MAX_PAYLOAD)
  }

  /** It checks only that the window is not closed, once per 1000 bytes: everything goes out unless
      the window is used up exactly at a multiple of 1000. */
  lemma {:induction false} SentExact(left: int, n: nat)
    ensures Sent(left, n) == if 0 <= left < n && left % MAX_PAYLOAD == 0 then left else n
    decreases n
  {
    if left != 0 && n > MAX_PAYLOAD { SentExact(left - MAX_PAYLOAD, n - MAX_PAYLOAD); }
  }

  /** A connection whose segments so far number the stream up to snd_nxt. */
  ghost predicate Sending(c: Conn) {
    c.sndNxt == c.sndMax && Numbered(c.sent) && c.sndNxt == 1 + |Payloads(c.sent)|
  }

  /** d is c after sending `bytes`, and nothing but the send counters and the log has changed. */
  ghost predicate Emitted(c: Conn, bytes: seq<byte>, d: Conn) {
    && Sending(d) && c.sent <= d.sent && Payloads(d.sent) == Payloads(c.sent) + bytes
    && d.sndMax == c.sndMax + |bytes|
    && d == c.(sndNxt := d.sndNxt, sndMax := d.sndMax, sent := d.sent, shouldSendAck := d.shouldSendAck)
  }

  lemma SendOneEmits(c: Conn, payload: seq<byte>)
    requires Sending(c) && 0 < |payload| <= MAX_PAYLOAD
    ensures Emitted(c, payload, SendOne(c, payload))
  {
    SentOne(c.sent, Segment(c.sndNxt, c.rcvNxt, false, true, false, RCV_WND, payload));
  }

  lemma EmittedTwice(c: Conn, a: seq<byte>, d: Conn, b: seq<byte>, e: Conn)
    requires Emitted(c, a, d) && Emitted(d, b, e)
    ensures Emitted(c, a + b, e)
  {
    assert Payloads(c.sent) + a + b == Payloads(c.sent) + (a + b);
  }

  lemma WindowClosed(c: Conn)
    requires -U16_END < Left(c) < U16_END && !c.state.Closed?
    ensures CanSend(c) == 0 <==> Left(c) == 0
    ensures Left(c) >= 0 ==> CanSend(c) == Left(c)
  {
  }

  lemma Unfold(c: Conn, payload: seq<byte>)
    requires |payload| > MAX_PAYLOAD && CanSend(c) != 0
    ensures SendPacket(c, payload) == SendPacket(SendOne(c, payload[..MAX_PAYLOAD]), payload[MAX_PAYLOAD..])
  {
    assert SendPacket(c, payload[..MAX_PAYLOAD]) == (true, SendOne(c, payload[..MAX_PAYLOAD]));
  }

  /** send_tcp_packet put out the first Sent(...) bytes, and reports whether that was everything. */
  ghost predicate Outcome(c: Conn, payload: seq<byte>) {
    var n := Sent(Left(c), |payload|);
    && n <= |payload| && SendPacket(c, payload).0 == (n == |payload|)
    && Emitted(c, payload[..n], SendPacket(c, payload).1)
  }

  lemma OutcomeShort(c: Conn, payload: seq<byte>)
    requires Sending(c) && CanSend(c) != 0 && Left(c) != 0 && 0 < |payload| <= MAX_PAYLOAD
    ensures Outcome(c, payload)
  {
    SendOneEmits(c, payload);
    assert payload[..|payload|] == payload;
  }

  lemma OutcomeLong(c: Conn, payload: seq<byte>)
    requires Sending(c) && CanSend(c) != 0 && Left(c) != 0 && |payload| > MAX_PAYLOAD
    requires Outcome(SendOne(c, payload[..MAX_PAYLOAD]), payload[MAX_PAYLOAD..])
    ensures Outcome(c, payload)
  {
    var first, rest := payload[..MAX_PAYLOAD], payload[MAX_PAYLOAD..];
    SendOneEmits(c, first);
    Unfold(c, payload);
    var d := SendOne(c, first);
    var n := Sent(Left(c) - MAX_PAYLOAD, |payload| - MAX_PAYLOAD);
    assert Left(d) == Left(c) - MAX_PAYLOAD;
    EmittedTwice(c, first, d, rest[..n], SendPacket(d, rest).1);
    PrefixJoin(payload, MAX_PAYLOAD, n);
  }

  /** send_tcp_packet on any payload and any window: what went out, under which numbers. */
  lemma {:induction false} SendPacketExact(c: Conn, payload: seq<byte>)
    requires Sending(c) && !c.state.Closed? && payload != []
    requires Left(c) < U16_END && Left(c) - |payload| >= -U16_END
    ensures Outcome(c, payload)
    decreases |payload|
  {
    WindowClosed(c);
    if Left(c) == 0 {
    } else if |payload| <= MAX_PAYLOAD {
      OutcomeShort(c, payload);
    } else {
      SendOneEmits(c, payload[..MAX_PAYLOAD]);
      SendPacketExact(SendOne(c, payload[..MAX_PAYLOAD]), payload[MAX_PAYLOAD..]);
      OutcomeLong(c, payload);
    }
  }

  /** snd_max is inside the window the peer last announced (section 3.8.6 of RFC 9293). */
  ghost predicate InWindow(c: Conn) {
    c.sndUna <= c.sndMax <= c.sndUna + c.sndWnd && c.sndWnd < U16_END
  }

  /** An accepted segment keeps the bound exactly when its right edge is not behind snd_max. There is
      no record of which segment last updated the window, so a reordered older one can be behind. */
  lemma ArriveWindowExact(c: Conn, s: Segment)
    requires RingsOk(c) && c.state.Established? && InWindow(c) && c.sndNxt == c.sndMax
    requires Accepts(c, s) && s.window < U16_END
    ensures
      var d := Receive(c, s);
      && (InWindow(d) <==> c.sndMax <= s.ackNum + s.window)
      && c.sndUna <= d.sndUna == s.ackNum && d.sndNxt == d.sndMax == c.sndMax
      && (d.state.Established? && !InWindow(d) ==> 0 < CanSend(d) == U16_END + s.ackNum + s.window - c.sndMax)
  {
  }

  /** A bare acknowledgement or window update. */
  ghost predicate PureAck(c: Conn, s: Segment) {
    !s.syn && !s.fin && s.payload == [] && s.window < U16_END && s.seqNum == c.rcvNxt && s.ackNum == c.sndUna
  }

  /** A peer that only ever moves its right edge forward is not enough: two window updates delivered
      in the wrong order, with a write that fills the larger window between them, overrun it. */
  lemma ReorderedUpdatesOverrun(c: Conn, older: Segment, newer: Segment, data: seq<byte>)
    requires Ready(c) && c.noDelay && PureAck(c, older) && PureAck(c, newer)
    requires c.sndMax <= older.ackNum + older.window < newer.ackNum + newer.window
    requires |data| >= newer.window
    ensures
      var d := Receive(c, newer);
      RingsOk(d) && RingsOk(Write(d, data).1) && !InWindow(Receive(Write(d, data).1, older))
  {
    var d := Receive(c, newer);
    assert d == c.(sndWnd := newer.window);
    WriteNoDelay(d, data);
    WriteKeeps(d, data);
    ArriveWindowExact(Write(d, data).1, older);
  }

  /** Everything handed to the connection that has been sent or still waits in the outgoing ring. */
  ghost function Stream(c: Conn): seq<byte> {
    Payloads(c.sent) + c.outgoing
  }

  /** A payload that fits the window goes out whole. */
  lemma SendInside(c: Conn, payload: seq<byte>)
    requires Sending(c) && InWindow(c) && !c.state.Closed? && 0 < |payload| <= Left(c)
    ensures SendPacket(c, payload).0 && Emitted(c, payload, SendPacket(c, payload).1)
  {
    SendPacketExact(c, payload);
    SentExact(Left(c), |payload|);
    assert payload[..|payload|] == payload;
  }

  lemma MovedToWire(p: seq<byte>, ring: seq<byte>, n: nat)
    requires n <= |ring|
    ensures p + ring[..n] + ring[n..] == p + ring
  {
    assert ring[..n] + ring[n..] == ring;
  }

  /** tcp_sync_buffer moves the front of the ring to the wire, as much as the window allows. */
  lemma SyncExact(c: Conn)
    requires Sending(c) && InWindow(c) && !c.state.Closed? && c.outgoing != []
    ensures
      var n := Min(Left(c), |c.outgoing|);
      && SyncBuffer(c).0 == (n == |c.outgoing|)
      && Emitted(c.(outgoing := c.outgoing[n..]), c.outgoing[..n], SyncBuffer(c).1)
      && Stream(SyncBuffer(c).1) == Stream(c)
  {
    WindowClosed(c);
    var n := Min(Left(c), |c.outgoing|);
    var c' := c.(outgoing := c.outgoing[n..]);
    assert SyncBuffer(c).1 == SendPacket(c', c.outgoing[..n]).1;
    if n == 0 {
      assert Emitted(c', c.outgoing[..0], c');
    } else {
      SendInside(c', c.outgoing[..n]);
    }
    MovedToWire(Payloads(c.sent), c.outgoing, n);
  }

  /** tcp_write finds no room in the ring, empties the ring first, and then sends a length it had
      computed before. */
  ghost predicate Fallback(c: Conn, n: nat)
    requires RingsOk(c)
  {
    var len := Min(n, Left(c));
    !c.noDelay && Room(c.outSize, |c.outgoing|) < len && 0 < |c.outgoing| <= Left(c)
  }

  /** The window left for that length once the ring is out. */
  ghost function Rest(c: Conn): int {
    Left(c) - |c.outgoing|
  }

  /** The connection tcp_write is called on in a run: established, inside its window. */
  ghost predicate Ready(c: Conn) {
    RingsOk(c) && c.state.Established? && Sending(c) && InWindow(c)
  }

  lemma WriteNoDelay(c: Conn, data: seq<byte>)
    requires Ready(c) && c.noDelay
    ensures
      var n := Min(|data|, Left(c));
      if n == 0 then Write(c, data) == (WouldBlock, c)
      else Write(c, data).0 == Count.Bytes(n) && Emitted(c, data[..n], Write(c, data).1)
  {
    WindowClosed(c);
    var n := Min(|data|, Left(c));
    if n != 0 { SendInside(c, data[..n]); }
  }

  /** The buffered write either queues the bytes, or waits, or takes the fallback. */
  lemma WriteBuffered(c: Conn, data: seq<byte>)
    requires Ready(c) && !c.noDelay && !Fallback(c, |data|)
    ensures
      var n := Min(|data|, Left(c));
      var (r, d) := Write(c, data);
      if n == 0 then r == WouldBlock && d == c
      else if n <= Room(c.outSize, |c.outgoing|) then r == Count.Bytes(n) && d == c.(outgoing := c.outgoing + data[..n])
      else r == Count.Bytes(0) && d == SyncBuffer(c).1
  {
    WindowClosed(c);
    if c.outgoing != [] { SyncExact(c); }
  }

  lemma WriteFallback(c: Conn, data: seq<byte>)
    requires Ready(c) && Fallback(c, |data|)
    ensures
      var len := Min(|data|, Left(c));
      var m := Sent(Rest(c), len);
      && m <= len && Write(c, data).0 == (if m == len then Count.Bytes(len) else WouldBlock)
      && Emitted(c.(outgoing := []), c.outgoing + data[..m], Write(c, data).1)
  {
    WindowClosed(c);
    SyncExact(c);
    var (all, c') := SyncBuffer(c);
    var len := Min(|data|, Left(c));
    var m := Sent(Rest(c), len);
    assert c.outgoing[|c.outgoing|..] == [] && c.outgoing[..|c.outgoing|] == c.outgoing;
    assert Left(c') == Rest(c);
    SendPacketExact(c', data[..len]);
    assert data[..len][..m] == data[..m];
    EmittedTwice(c.(outgoing := []), c.outgoing, c', data[..m], Write(c, data).1);
  }

  /** tcp_write stays inside the window, exactly: unless its fallback sends past it, which happens
      when what is left after the ring is neither enough nor a multiple of 1000. */
  lemma WriteWindowExact(c: Conn, data: seq<byte>)
    requires Ready(c)
    ensures InWindow(Write(c, data).1)
       <==> (Fallback(c, |data|) ==> Min(|data|, Left(c)) <= Rest(c) || Rest(c) % MAX_PAYLOAD == 0)
  {
    if Fallback(c, |data|) {
      WriteFallback(c, data);
      SentExact(Rest(c), Min(|data|, Left(c)));
    } else if c.noDelay {
      WriteNoDelay(c, data);
    } else {
      WriteBuffered(c, data);
      if c.outgoing != [] { SyncExact(c); }
    }
  }

  ghost function AcceptedBytes(r: Count, data: seq<byte>): seq<byte> {
    if r.Bytes? && r.n <= |data| then data[..r.n] else []
  }

  /** Bytes of a write went out although the write was refused. */
  ghost predicate SentButRefused(c: Conn, n: nat)
    requires RingsOk(c)
  {
    Fallback(c, n) && 0 < Rest(c) < Min(n, Left(c)) && Rest(c) % MAX_PAYLOAD == 0
  }

  /** Whatever the write reports, its effect on the stream is the bytes it reports as accepted. */
  ghost predicate WriteIsHonest(c: Conn, data: seq<byte>)
    requires RingsOk(c)
  {
    Stream(Write(c, data).1) == Stream(c) + AcceptedBytes(Write(c, data).0, data)
  }

  /** A write without delay goes out ahead of the bytes that wait in the ring. That changes the stream unless
      one of the two is empty, or they happen to read the same in either order. */
  ghost predicate Overtakes(c: Conn, data: seq<byte>) {
    var n := Min(|data|, Left(c));
    c.noDelay && 0 <= n && data[..n] + c.outgoing != c.outgoing + data[..n]
  }

  lemma HonestNoDelay(c: Conn, data: seq<byte>)
    requires Ready(c) && c.noDelay
    ensures Sending(Write(c, data).1) && (WriteIsHonest(c, data) <==> !Overtakes(c, data))
  {
    hide Write, Numbered, Payloads;
    WriteNoDelay(c, data);
    var n := Min(|data|, Left(c));
    var p, a, b := Payloads(c.sent), c.outgoing, data[..n];
    if n == 0 {
      assert b + a == a == a + b;
      assert Stream(c) + [] == Stream(c);
    } else {
      assert Stream(Write(c, data).1) == p + b + a;
      SameBehind(p, b, a);
    }
  }

  lemma SameBehind(p: seq<byte>, a: seq<byte>, b: seq<byte>)
    ensures p + a + b == p + b + a <==> a + b == b + a
  {
    assert p + a + b == p + (a + b) && p + b + a == p + (b + a);
    if p + a + b == p + b + a { CutAt(p, a + b, p, b + a); }
  }

  lemma HonestBuffered(c: Conn, data: seq<byte>)
    requires Ready(c) && !c.noDelay && !Fallback(c, |data|)
    ensures Sending(Write(c, data).1) && WriteIsHonest(c, data)
  {
    WriteBuffered(c, data);
    var (r, d) := Write(c, data);
    var n := Min(|data|, Left(c));
    if n == 0 {
      assert Stream(d) + [] == Stream(c);
    } else if n <= Room(c.outSize, |c.outgoing|) {
      assert Payloads(c.sent) + (c.outgoing + data[..n]) == Stream(c) + data[..n];
    } else {
      if c.outgoing != [] { SyncExact(c); }
      assert Stream(d) + data[..0] == Stream(c);
    }
  }

  lemma HonestFallback(c: Conn, data: seq<byte>)
    requires Ready(c) && Fallback(c, |data|)
    ensures Sending(Write(c, data).1) && (WriteIsHonest(c, data) <==> !SentButRefused(c, |data|))
  {
    WriteFallback(c, data);
    var len := Min(|data|, Left(c));
    SentExact(Rest(c), len);
    var m := Sent(Rest(c), len);
    var d := Write(c, data).1;
    assert Stream(d) == Payloads(c.sent) + c.outgoing + data[..m];
    if m != len && m > 0 { assert |Stream(d)| > |Stream(c)|; }
  }

  /** What tcp_write reports as accepted is exactly what joins the stream, unless its fallback fills
      the window at a multiple of 1000 part way through, or it overtakes bytes in the ring. */
  lemma WriteStreamExact(c: Conn, data: seq<byte>)
    requires Ready(c)
    ensures WriteIsHonest(c, data) <==> !SentButRefused(c, |data|) && !Overtakes(c, data)
    ensures Sending(Write(c, data).1)
  {
    if Fallback(c, |data|) {
      HonestFallback(c, data);
    } else if c.noDelay {
      HonestNoDelay(c, data);
    } else {
      HonestBuffered(c, data);
    }
  }

  /** Every byte ever accepted by the writes of a run. */
  ghost function Accepted(w: World, events: seq<Event>): seq<byte>
    requires RingsOk(w.c)
    decreases |events|
  {
    if events == [] then [] else
    var before, e := events[..|events| - 1], events[|events| - 1];
    var c := Run(w, before).c;
    Accepted(w, before) + if e.WriteSome? then AcceptedBytes(Write(c, e.data).0, e.data) else []
  }

  /** The step keeps what the exact conditions above ask for: right edges not behind snd_max, no fallback
      that overruns the window or refuses bytes it has sent, no write that overtakes others. */
  ghost predicate Careful(c: Conn, e: Event)
    requires RingsOk(c)
  {
    match e
    case Arrive(s) => Accepts(c, s) ==> s.window < U16_END && c.sndMax <= s.ackNum + s.window
    case WriteSome(data) =>
      c.state.Established? && Ready(c) ==>
        && !Overtakes(c, data)
        && (Fallback(c, |data|) ==> Min(|data|, Left(c)) <= Rest(c) || Rest(c) == 0)
    case _ => true
  }

  ghost predicate CarefulRun(w: World, events: seq<Event>)
    requires RingsOk(w.c)
  {
    forall k :: 0 <= k < |events| ==> Careful(Run(w, events[..k]).c, events[k])
  }

  /** What a careful run keeps about sending. */
  ghost predicate SendInv(c: Conn, accepted: seq<byte>) {
    match c.state
    case Listen => c.sndNxt == c.sndMax == 0 && Numbered(c.sent) && Payloads(c.sent) == c.outgoing == accepted == []
    case SynSent => Sending(c) && Payloads(c.sent) == c.outgoing == accepted == []
    case SynReceived => Sending(c) && Payloads(c.sent) == c.outgoing == accepted == []
    case Established => Ready(c) && Stream(c) == accepted
    case _ => Numbered(c.sent) && Payloads(c.sent) <= accepted
  }

  lemma SendEmptySends(c: Conn, syn: bool, ack: bool, fin: bool)
    requires Numbered(c.sent)
    ensures
      var d := SendEmpty(c, syn, ack, fin);
      Numbered(d.sent) && Payloads(d.sent) == Payloads(c.sent) && (Sending(c) && !syn && !fin ==> Sending(d))
  {
    SentOne(c.sent, Segment(c.sndNxt, if ack then c.rcvNxt else 0, syn, ack, fin, RCV_WND, []));
  }

  lemma OpeningSendInv(c: Conn, s: Segment, accepted: seq<byte>)
    requires RingsOk(c) && SendInv(c, accepted) && Accepts(c, s) && Opening(c.state) && Careful(c, Arrive(s))
    ensures SendInv(Receive(c, s), accepted)
  {
    var c' := TakeHeader(Adopt(c, s), s);
    if c.state.Listen? {
      SendEmptySends(c'.(state := SynReceived), true, true, false);
    } else {
      SendEmptySends(c'.(state := Established), false, true, false);
    }
  }

  lemma SynReceivedSendInv(c: Conn, s: Segment, accepted: seq<byte>)
    requires RingsOk(c) && SendInv(c, accepted) && Accepts(c, s) && c.state.SynReceived? && Careful(c, Arrive(s))
    ensures SendInv(Receive(c, s), accepted)
  {
  }

  lemma EstablishedSendInv(c: Conn, s: Segment, accepted: seq<byte>)
    requires RingsOk(c) && SendInv(c, accepted) && Careful(c, Arrive(s)) && Accepts(c, s)
    requires c.state.Established?
    ensures SendInv(Receive(c, s), accepted)
  {
    if s.fin {
      SendEmptySends(TakeHeader(c, s).(state := CloseWait), false, true, false);
    } else {
      var d := Receive(c, s);
      ReceiveRings(c, s);
      assert d.sent == c.sent && d.outgoing == c.outgoing;
    }
  }

  /** After ESTABLISHED the endpoint only acknowledges: the data it has sent stays as it is. */
  lemma EndedLog(c: Conn, s: Segment)
    requires RingsOk(c) && Numbered(c.sent) && Ended(c.state)
    ensures Numbered(Dispatch(c, s).sent) && Payloads(Dispatch(c, s).sent) == Payloads(c.sent)
  {
    hide Numbered, Payloads, SendEmpty;
    match c.state {
      case FinWait1 => SendEmptySends(c.(state := if s.ack then TimeWait else Closing), false, true, false);
      case FinWait2 => SendEmptySends(c.(state := Closed), false, true, false);
      case _ =>
    }
  }

  lemma EndedSendInv(c: Conn, s: Segment, accepted: seq<byte>)
    requires RingsOk(c) && SendInv(c, accepted) && Ended(c.state) && Accepts(c, s)
    ensures SendInv(Receive(c, s), accepted)
  {
    EndedLog(TakeHeader(c, s), s);
    ReceiveEnded(c, s);
  }

  lemma ReceiveSendInv(c: Conn, s: Segment, accepted: seq<byte>)
    requires RingsOk(c) && SendInv(c, accepted) && Careful(c, Arrive(s))
    ensures SendInv(Receive(c, s), accepted)
  {
    if !Accepts(c, s) {
    } else if c.state.Established? {
      EstablishedSendInv(c, s, accepted);
    } else if Ended(c.state) {
      EndedSendInv(c, s, accepted);
    } else if c.state.SynReceived? {
      SynReceivedSendInv(c, s, accepted);
    } else {
      OpeningSendInv(c, s, accepted);
    }
  }

  lemma WriteSendInv(c: Conn, data: seq<byte>, accepted: seq<byte>)
    requires RingsOk(c) && SendInv(c, accepted) && Careful(c, WriteSome(data))
    ensures SendInv(Write(c, data).1, accepted + AcceptedBytes(Write(c, data).0, data))
  {
    if c.state.Established? {
      WriteKeeps(c, data);
      WriteStreamExact(c, data);
      WriteWindowExact(c, data);
    } else {
      assert accepted + [] == accepted;
    }
  }

  lemma CloseEstablished(c: Conn, accepted: seq<byte>)
    requires RingsOk(c) && SendInv(c, accepted) && c.state.Established?
    ensures SendInv(Close(c), accepted)
  {
    if c.outgoing != [] { SyncExact(c); }
    var d := SyncBuffer(c).1;
    SyncKeeps(c);
    hide SyncBuffer;
    SendEmptySends(Strip(d).(state := FinWait1), false, true, true);
  }

  lemma CloseSendInv(c: Conn, accepted: seq<byte>)
    requires RingsOk(c) && SendInv(c, accepted)
    ensures SendInv(Close(c), accepted)
  {
    match c.state {
      case Established => CloseEstablished(c, accepted);
      case CloseWait => SendEmptySends(c.(state := LastAck), false, false, true);
      case SynReceived => SendEmptySends(c.(state := FinWait1), false, false, true);
      case _ =>
    }
  }

  lemma FlushSendInv(c: Conn, accepted: seq<byte>)
    requires RingsOk(c) && SendInv(c, accepted)
    ensures SendInv(FlushBuffers(c), accepted)
  {
    if c.state.Established? && c.outgoing != [] {
      SyncKeeps(c);
      SyncExact(c);
    }
  }

  lemma FlushAcksSendInv(c: Conn, accepted: seq<byte>)
    requires RingsOk(c) && SendInv(c, accepted)
    ensures SendInv(FlushAcks(c), accepted)
  {
    SendEmptySends(c.(shouldSendAck := false), false, true, false);
  }

  lemma StepSendInv(w: World, e: Event, accepted: seq<byte>)
    requires RingsOk(w.c) && SendInv(w.c, accepted) && Careful(w.c, e)
    ensures SendInv(Step(w, e).c, accepted + if e.WriteSome? then AcceptedBytes(Write(w.c, e.data).0, e.data) else [])
  {
    assert accepted + [] == accepted;
    match e {
      case Arrive(s) => ReceiveSendInv(w.c, s, accepted);
      case ReadSome(len) =>
      case WriteSome(data) => WriteSendInv(w.c, data, accepted);
      case SetNoDelay(on) =>
      case Flush => FlushSendInv(w.c, accepted);
      case FlushAck => FlushAcksSendInv(w.c, accepted);
      case CloseIt => CloseSendInv(w.c, accepted);
    }
  }

  /** Send safety over every careful run: the data on the wire is the accepted bytes in order, in
      segments of at most 1000 bytes numbered by their place, and while ESTABLISHED nothing is missing
      (it is sent or in the ring) and snd_max stays inside the window. */
  lemma {:induction false} SendSafety(w: World, events: seq<Event>)
    requires RingsOk(w.c) && Start(w) && CarefulRun(w, events)
    ensures SendInv(Run(w, events).c, Accepted(w, events))
    decreases |events|
  {
    if events == [] {
      if w.c.state.SynSent? {
        SendEmptySends(Conn(SynSent, 0, 0, 0, OUT_SIZE - 1, 0, [], IN_SIZE, [], OUT_SIZE, w.c.noDelay, false, []),
            true, false, false);
      }
    } else {
      var n := |events| - 1;
      var before := events[..n];
      forall k | 0 <= k < n ensures Careful(Run(w, before[..k]).c, before[k]) {
        assert before[..k] == events[..k];
      }
      SendSafety(w, before);
      StepSendInv(Run(w, before), events[n], Accepted(w, before));
    }
  }

  /** What Careful asks of a write is exactly that it stays inside the window and is honest. */
  lemma CarefulWriteExact(c: Conn, data: seq<byte>)
    requires Ready(c)
    ensures Careful(c, WriteSome(data)) <==> InWindow(Write(c, data).1) && WriteIsHonest(c, data)
  {
    hide Write, Ready, Stream;
    ReadyFacts(c);
    WriteWindowExact(c, data);
    WriteStreamExact(c, data);
  }

  lemma ReadyFacts(c: Conn)
    requires Ready(c)
    ensures RingsOk(c) && c.state.Established? && Left(c) >= 0
  {
  }

  lemma AcceptedSnoc(w: World, events: seq<Event>, e: Event)
    requires RingsOk(w.c)
    ensures Accepted(w, events + [e])
         == Accepted(w, events) + if e.WriteSome? then AcceptedBytes(Write(Run(w, events).c, e.data).0, e.data) else []
  {
    hide Run, AcceptedBytes;
    assert (events + [e])[..|events|] == events;
  }

  // Order, for callers that switch the option.

  /** TCP_NODELAY is switched on only while nothing waits in the ring. */
  ghost predicate SwitchesEmpty(w: World, events: seq<Event>)
    requires RingsOk(w.c)
  {
    forall k :: 0 <= k < |events| && events[k] == SetNoDelay(true) ==> Run(w, events[..k]).c.outgoing == []
  }

  lemma StepNoDelayRing(w: World, e: Event)
    requires RingsOk(w.c) && (w.c.noDelay ==> w.c.outgoing == []) && (e == SetNoDelay(true) ==> w.c.outgoing == [])
    ensures var c := Step(w, e).c; c.noDelay ==> c.outgoing == []
  {
    match e {
      case Arrive(s) => ReceiveKeepsRing(w.c, s);
      case WriteSome(data) => WriteKeepsRing(w.c, data);
      case Flush => SyncKeeps(w.c);
      case CloseIt => SyncKeeps(w.c);
      case _ =>
    }
  }

  lemma ReceiveKeepsRing(c: Conn, s: Segment)
    requires RingsOk(c)
    ensures Receive(c, s).noDelay == c.noDelay && (Receive(c, s).outgoing == c.outgoing || Receive(c, s).outgoing == [])
  {
  }

  lemma WriteKeepsRing(c: Conn, data: seq<byte>)
    requires RingsOk(c)
    ensures Write(c, data).1.noDelay == c.noDelay && (c.noDelay ==> Write(c, data).1.outgoing == c.outgoing)
  {
    var len := Min(|data|, CanSend(c));
    SyncKeeps(c);
    SendPacketKeeps(c, data[..len]);
    SendPacketKeeps(SyncBuffer(c).1, data[..len]);
  }

  lemma {:induction false} NoDelayRing(w: World, events: seq<Event>)
    requires RingsOk(w.c) && Start(w) && SwitchesEmpty(w, events)
    ensures var c := Run(w, events).c; c.noDelay ==> c.outgoing == []
    decreases |events|
  {
    hide Step;
    if events != [] {
      var n := |events| - 1;
      var before := events[..n];
      forall k | 0 <= k < n && before[k] == SetNoDelay(true) ensures Run(w, before[..k]).c.outgoing == [] {
        assert before[..k] == events[..k];
      }
      NoDelayRing(w, before);
      StepNoDelayRing(Run(w, before), events[n]);
    }
  }

  /** In such a run no write overtakes another. */
  lemma NeverOvertakes(w: World, events: seq<Event>, data: seq<byte>)
    requires RingsOk(w.c) && Start(w) && SwitchesEmpty(w, events)
    ensures !Overtakes(Run(w, events).c, data)
  {
    hide Run, SwitchesEmpty;
    NoDelayRing(w, events);
  }

  // Progress.

  /** The bytes of a buffered write that the window allows do not fit the ring, and the ring is empty, or does
      not fit the window, or leaves the window to close part way. */
  ghost predicate Stalls(c: Conn, n: nat)
    requires RingsOk(c)
  {
    var len := Min(n, Left(c));
    && !c.noDelay && Room(c.outSize, |c.outgoing|) < len
    && (c.outgoing == [] || |c.outgoing| > Left(c) || (Rest(c) < len && Rest(c) % MAX_PAYLOAD == 0))
  }

  /** With an open window a write accepts nothing exactly in that case. */
  lemma WriteNothingExact(c: Conn, data: seq<byte>)
    requires Ready(c) && Left(c) > 0 && data != []
    ensures AcceptedBytes(Write(c, data).0, data) == [] <==> Stalls(c, |data|)
  {
    hide Write, SyncBuffer, Sending;
    if Fallback(c, |data|) {
      WriteFallback(c, data);
      SentExact(Rest(c), Min(|data|, Left(c)));
    } else if c.noDelay {
      WriteNoDelay(c, data);
    } else {
      WriteBuffered(c, data);
    }
  }

  /** On an empty ring such a write changes nothing, so that trying again does not help. */
  lemma WriteStuck(c: Conn, data: seq<byte>)
    requires Ready(c) && !c.noDelay && c.outgoing == [] && Room(c.outSize, 0) < Min(|data|, Left(c))
    ensures Write(c, data) == (Count.Bytes(0), c)
  {
    WindowClosed(c);
  }
}
