/** The control segments of the TCP endpoint and the states it goes through: what is answered to a SYN and to a
    FIN, what a close sends, and how both closing exchanges end (section 3.10 of RFC 9293). */
module TcpControl {
  import opened Bytes
  import opened Tcp
  import opened TcpReceive

  /** The next segment in order, acknowledging something between snd_una and snd_max. */
  ghost predicate NextInOrder(c: Conn, s: Segment) {
    s.seqNum == c.rcvNxt && c.sndUna <= s.ackNum <= c.sndMax
  }

  /** The sequence numbers SYN and FIN of a segment take up. */
  ghost function Flags(s: Segment): nat {
    (if s.syn then 1 else 0) + (if s.fin then 1 else 0)
  }

  /** d has sent one segment more than c: without data, in turn, acknowledging everything before ackNum. */
  ghost predicate Answers(c: Conn, d: Conn, syn: bool, ackNum: nat) {
    d.sent == c.sent + [Segment(c.sndNxt, ackNum, syn, true, false, 65535, [])] && d.rcvNxt == ackNum
  }

  /** d has sent nothing and is where c was. */
  ghost predicate Silent(c: Conn, d: Conn) {
    d.sent == c.sent && d.state == c.state && d.sndNxt == c.sndNxt
  }

  // Arriving segments.

  /** LISTEN: a SYN is answered by SYN and ACK of it. */
  lemma ListenExact(w: World, s: Segment)
    requires RingsOk(w.c) && w.c.state.Listen?
    ensures
      var c, d := w.c, Step(w, Arrive(s)).c;
      if s.syn && c.sndUna <= s.ackNum <= c.sndMax
      then d.state.SynReceived? && Answers(c, d, true, s.seqNum + Flags(s)) && d.sndNxt == c.sndNxt + 1
      else Silent(c, d)
  {
  }

  /** SYN_SENT: SYN and ACK are answered by ACK. */
  lemma SynSentExact(w: World, s: Segment)
    requires RingsOk(w.c) && w.c.state.SynSent?
    ensures
      var c, d := w.c, Step(w, Arrive(s)).c;
      if s.syn && s.ack && c.sndUna <= s.ackNum <= c.sndMax
      then d.state.Established? && Answers(c, d, false, s.seqNum + Flags(s)) && d.sndNxt == c.sndNxt
      else Silent(c, d)
  {
  }

  lemma SynReceivedExact(w: World, s: Segment)
    requires RingsOk(w.c) && w.c.state.SynReceived?
    ensures
      var c, d := w.c, Step(w, Arrive(s)).c;
      if s.ack && NextInOrder(c, s)
      then d.state.Established? && d.sent == c.sent && d.sndNxt == c.sndNxt
      else Silent(c, d)
  {
  }

  /** ESTABLISHED: a FIN is answered by its ACK, and this end waits for its own close. */
  lemma EstablishedExact(w: World, s: Segment)
    requires RingsOk(w.c) && w.c.state.Established?
    ensures
      var c, d := w.c, Step(w, Arrive(s)).c;
      if s.fin && NextInOrder(c, s)
      then d.state.CloseWait? && Answers(c, d, false, s.seqNum + Flags(s)) && d.sndNxt == c.sndNxt
      else Silent(c, d)
  {
  }

  /** FIN_WAIT_1: an ACK leads to FIN_WAIT_2, a FIN to CLOSING, both to TIME_WAIT; a FIN is answered by its ACK. */
  lemma FinWait1Exact(w: World, s: Segment)
    requires RingsOk(w.c) && w.c.state.FinWait1?
    ensures
      var c, d := w.c, Step(w, Arrive(s)).c;
      if !NextInOrder(c, s) || !(s.ack || s.fin) then Silent(c, d)
      else if !s.fin then d.state.FinWait2? && d.sent == c.sent && d.sndNxt == c.sndNxt
      else
        && (if s.ack then d.state.TimeWait? else d.state.Closing?)
        && Answers(c, d, false, s.seqNum + Flags(s)) && d.sndNxt == c.sndNxt
  {
  }

  /** FIN_WAIT_2: the FIN is answered by its ACK, and the connection is gone. */
  lemma FinWait2Exact(w: World, s: Segment)
    requires RingsOk(w.c) && w.c.state.FinWait2?
    ensures
      var c, d := w.c, Step(w, Arrive(s)).c;
      if s.fin && NextInOrder(c, s)
      then d.state.Closed? && Answers(c, d, false, s.seqNum + Flags(s)) && d.sndNxt == c.sndNxt
      else Silent(c, d)
  {
  }

  /** CLOSE_WAIT, CLOSING, TIME_WAIT and CLOSED: no segment moves the connection. */
  lemma QuietExact(w: World, s: Segment)
    requires RingsOk(w.c)
    requires w.c.state.CloseWait? || w.c.state.Closing? || w.c.state.TimeWait? || w.c.state.Closed?
    ensures Silent(w.c, Step(w, Arrive(s)).c)
  {
  }

  lemma LastAckExact(w: World, s: Segment)
    requires RingsOk(w.c) && w.c.state.LastAck?
    ensures
      var c, d := w.c, Step(w, Arrive(s)).c;
      if s.ack && NextInOrder(c, s) then d.state.Closed? && d.sent == c.sent && d.sndNxt == c.sndNxt else Silent(c, d)
  {
  }

  /** All of them at once. */
  lemma ArriveExact(w: World, s: Segment)
    requires RingsOk(w.c)
    ensures
      var c, d := w.c, Step(w, Arrive(s)).c;
      d.sent == c.sent || exists syn: bool, ackNum: nat :: Answers(c, d, syn, ackNum)
    ensures !Opening(w.c.state) ==> Step(w, Arrive(s)).c.sndNxt == w.c.sndNxt
  {
    hide Step, Answers;
    match w.c.state {
      case Listen => ListenExact(w, s);
      case SynSent => SynSentExact(w, s);
      case SynReceived => SynReceivedExact(w, s);
      case Established => EstablishedExact(w, s);
      case FinWait1 => FinWait1Exact(w, s);
      case FinWait2 => FinWait2Exact(w, s);
      case LastAck => LastAckExact(w, s);
      case _ => QuietExact(w, s);
    }
  }

  /** What is taken of any segment: window and acknowledgement if it is in order, and otherwise nothing; before
      the handshake is under way rcv_nxt is set by whatever arrives. */
  lemma HeaderExact(w: World, s: Segment)
    requires RingsOk(w.c) && !w.c.state.Closed?
    ensures
      var c, d := w.c, Step(w, Arrive(s)).c;
      var opening := c.state.Listen? || c.state.SynSent?;
      var taken := c.sndUna <= s.ackNum <= c.sndMax && (opening || s.seqNum == c.rcvNxt);
      && d.sndUna == (if taken then s.ackNum else c.sndUna) && d.sndWnd == (if taken then s.window else c.sndWnd)
      && (!taken ==> d == c.(rcvNxt := if opening then s.seqNum else c.rcvNxt))
  {
  }

  // Closing.

  /** A FIN without data, in turn; with an acknowledgement or without. */
  ghost predicate IsFin(f: Segment, seqNum: nat, ack: bool, rcvNxt: nat) {
    f == Segment(seqNum, if ack then rcvNxt else 0, false, ack, true, 65535, [])
  }

  /** The segment says what has been received, and carries neither SYN nor FIN. */
  ghost predicate Reports(f: Segment, rcvNxt: nat) {
    !f.syn && !f.fin && f.ack && f.ackNum == rcvNxt && f.window == 65535
  }

  /** What d has sent after c. */
  ghost function News(c: Conn, d: Conn): seq<Segment>
    requires c.sent <= d.sent
  {
    d.sent[|c.sent|..]
  }

  lemma {:induction false} PacketReports(c: Conn, payload: seq<byte>)
    ensures
      var d := SendPacket(c, payload).1;
      && c.sent <= d.sent && d.rcvNxt == c.rcvNxt && (forall f :: f in News(c, d) ==> Reports(f, c.rcvNxt))
      && (c.shouldSendAck && !d.shouldSendAck ==> News(c, d) != [])
    decreases |payload|
  {
    if CanSend(c) != 0 && |payload| > MAX_PAYLOAD {
      PacketReports(c, payload[..MAX_PAYLOAD]);
      var d := SendPacket(c, payload[..MAX_PAYLOAD]).1;
      PacketReports(d, payload[MAX_PAYLOAD..]);
      var e := SendPacket(d, payload[MAX_PAYLOAD..]).1;
      assert News(c, e) == News(c, d) + News(d, e);
    }
  }

  lemma SyncReports(c: Conn)
    ensures
      var d := SyncBuffer(c).1;
      && c.sent <= d.sent && d.rcvNxt == c.rcvNxt && (forall f :: f in News(c, d) ==> Reports(f, c.rcvNxt))
      && (c.shouldSendAck && !d.shouldSendAck ==> News(c, d) != [])
  {
    hide SendPacket;
    if !c.state.Closed? && c.outgoing != [] {
      var len := Min(CanSend(c), |c.outgoing|);
      PacketReports(c.(outgoing := c.outgoing[len..]), c.outgoing[..len]);
    }
  }

  lemma WriteReports(c: Conn, data: seq<byte>)
    requires RingsOk(c)
    ensures
      var d := Write(c, data).1;
      && c.sent <= d.sent && d.rcvNxt == c.rcvNxt && (forall f :: f in News(c, d) ==> Reports(f, c.rcvNxt))
      && (c.shouldSendAck && !d.shouldSendAck ==> News(c, d) != [])
  {
    hide SendPacket, SyncBuffer;
    var len := Min(|data|, CanSend(c));
    PacketReports(c, data[..len]);
    SyncReports(c);
    var d := SyncBuffer(c).1;
    PacketReports(d, data[..len]);
    var e := SendPacket(d, data[..len]).1;
    assert News(c, e) == News(c, d) + News(d, e);
  }

  /** A close in ESTABLISHED: what the window allows of the ring, then one FIN with an ACK. */
  lemma CloseEstablished(w: World)
    requires RingsOk(w.c) && w.c.state.Established?
    ensures
      var c, d := w.c, Step(w, CloseIt).c;
      && d.state.FinWait1? && |d.sent| > |c.sent| && c.sent <= d.sent && d.sndNxt > 0
      && IsFin(d.sent[|d.sent| - 1], d.sndNxt - 1, true, c.rcvNxt)
      && (forall k :: |c.sent| <= k < |d.sent| - 1 ==> Reports(d.sent[k], c.rcvNxt))
      && (c.outgoing == [] ==> |d.sent| == |c.sent| + 1 && d.sndNxt == c.sndNxt + 1)
  {
    hide SendPacket, SyncBuffer;
    SyncReports(w.c);
    SyncKeeps(w.c);
    EmptyRing(w.c);
    var e, d := SyncBuffer(w.c).1, Step(w, CloseIt).c;
    assert d.sent == e.sent + [d.sent[|e.sent|]];
    forall k | |w.c.sent| <= k < |e.sent| ensures Reports(d.sent[k], w.c.rcvNxt) {
      assert d.sent[k] == News(w.c, e)[k - |w.c.sent|];
    }
  }

  lemma EmptyRing(c: Conn)
    ensures c.outgoing == [] ==> SyncBuffer(c).1 == c
  {
  }

  /** A close in SYN_RECEIVED or CLOSE_WAIT: one FIN, without an ACK. */
  lemma CloseOthers(w: World)
    requires RingsOk(w.c) && (w.c.state.SynReceived? || w.c.state.CloseWait?)
    ensures
      var c, d := w.c, Step(w, CloseIt).c;
      && (if c.state.SynReceived? then d.state.FinWait1? else d.state.Closed?)
      && |d.sent| == |c.sent| + 1 && c.sent <= d.sent
      && IsFin(d.sent[|c.sent|], c.sndNxt, false, c.rcvNxt) && d.sndNxt == c.sndNxt + 1
  {
  }

  /** In every other state a close sends nothing. Only SYN_SENT is left, for CLOSED. */
  lemma CloseQuiet(w: World)
    requires RingsOk(w.c) && !(w.c.state.SynReceived? || w.c.state.Established? || w.c.state.CloseWait?)
    ensures var c, d := w.c, Step(w, CloseIt).c;
            d.sent == c.sent && d.sndNxt == c.sndNxt && d.state == if c.state.SynSent? then Closed else c.state
  {
  }

  // The remaining events.

  /** Writes and flushes send segments that report what was received, with data or without; they move nothing but
      connections that wait for the end. */
  lemma OthersExact(w: World, e: Event)
    requires RingsOk(w.c) && !e.Arrive? && !e.CloseIt?
    ensures
      var c, d := w.c, Step(w, e).c;
      && c.sent <= d.sent && d.rcvNxt == c.rcvNxt && d.sndUna == c.sndUna
      && (forall f :: f in News(c, d) ==> Reports(f, c.rcvNxt))
      && (c.shouldSendAck && !d.shouldSendAck ==> News(c, d) != [])
      && d.state == (if e.Flush? && (c.state.TimeWait? || c.state.FinWait2?) then Closed else c.state)
      && (!c.state.Established? ==> d.sndNxt == c.sndNxt)
  {
    hide SendPacket, SyncBuffer;
    match e {
      case WriteSome(data) =>
        WriteReports(w.c, data);
        WriteKeeps(w.c, data);
        WriteUna(w.c, data);
      case Flush =>
        SyncReports(w.c);
        SyncKeeps(w.c);
        SyncUna(w.c);
      case _ =>
    }
  }

  lemma SyncUna(c: Conn)
    ensures SyncBuffer(c).1.sndUna == c.sndUna
  {
    hide SendPacket;
    if !c.state.Closed? && c.outgoing != [] {
      var len := Min(CanSend(c), |c.outgoing|);
      SendPacketKeeps(c.(outgoing := c.outgoing[len..]), c.outgoing[..len]);
    }
  }

  lemma WriteUna(c: Conn, data: seq<byte>)
    requires RingsOk(c)
    ensures Write(c, data).1.sndUna == c.sndUna
  {
    hide SendPacket, SyncBuffer;
    var len := Min(|data|, CanSend(c));
    SyncUna(c);
    SendPacketKeeps(c, data[..len]);
    SendPacketKeeps(SyncBuffer(c).1, data[..len]);
  }

  /** An acknowledgement that is due is sent, and says what has been received. */
  lemma DueAckSent(w: World)
    requires RingsOk(w.c) && !w.c.state.Closed?
    ensures
      var c, d := w.c, Step(w, FlushAck).c;
      if c.shouldSendAck
      then d.sent == c.sent + [Segment(c.sndNxt, c.rcvNxt, false, true, false, 65535, [])] && !d.shouldSendAck
      else d == c
  {
  }

  // The start.

  /** A connection made by connect has sent its SYN and nothing else; one made for a SYN has sent nothing. */
  lemma StartExact(w: World)
    requires Start(w)
    ensures RingsOk(w.c) && w.c.incoming == w.c.outgoing == w.read == []
    ensures w.c.inSize == 4194240 && w.c.outSize == 8192 && w.c.sndUna == 0 && w.c.rcvNxt == 0
    ensures
      || (w.c.state.SynSent? && w.c.sent == [Segment(0, 0, true, false, false, 65535, [])]
          && w.c.sndNxt == w.c.sndMax == 1 && w.c.sndWnd == 8191)
      || (w.c.state.Listen? && w.c.sent == [] && w.c.sndNxt == w.c.sndMax == w.c.sndWnd == 0)
  {
  }

  /** Outside ESTABLISHED nothing can be written. */
  lemma WriteRefused(c: Conn, data: seq<byte>)
    requires RingsOk(c) && !c.state.Established?
    ensures Write(c, data) == (NotConnected, c)
  {
  }
}
