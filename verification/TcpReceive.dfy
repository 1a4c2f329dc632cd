/** Receive safety of the TCP endpoint over every run, and exactly which peers it needs. */
module TcpReceive {
  import opened Bytes
  import opened Tcp

  /** The other end: its initial sequence number, the bytes it sends, and whether it ever puts
      data on the segment that carries its FIN. */
  datatype Peer = Peer(irs: nat, stream: seq<byte>, dataOnFin: bool)

  /** Some segment the peer may have sent at some time (section 3.3.2 of RFC 9293): the SYN at irs,
      byte k of the stream at irs + 1 + k, the FIN after the last byte. */
  ghost predicate FromPeer(p: Peer, s: Segment) {
    var k := if s.syn then 0 else s.seqNum - p.irs - 1;
    && (s.syn ==> s.seqNum == p.irs)
    && 0 <= k
    && (if k == |p.stream| + 1 then s.payload == [] && !s.fin
        else k + |s.payload| <= |p.stream| && s.payload == p.stream[k..k + |s.payload|])
    && (s.fin ==> k + |s.payload| == |p.stream|)
    && (s.fin && s.payload != [] ==> p.dataOnFin)
  }

  datatype Event = Arrive(s: Segment) | ReadSome(len: nat) | WriteSome(data: seq<byte>) | SetNoDelay(on: bool)
                 | Flush | FlushAck | CloseIt

  /** The connection together with everything its reader has been given so far. */
  datatype World = World(c: Conn, read: seq<byte>)

  ghost function Received(w: World): seq<byte> {
    w.read + w.c.incoming
  }

  lemma SendPacketKeeps(c: Conn, payload: seq<byte>)
    ensures
      var d := SendPacket(c, payload).1;
      && d.state == c.state && d.rcvNxt == c.rcvNxt && d.sndUna == c.sndUna && d.sndWnd == c.sndWnd
      && d.incoming == c.incoming && d.inSize == c.inSize && d.outgoing == c.outgoing && d.outSize == c.outSize
      && d.noDelay == c.noDelay
    decreases |payload|
  {
    if CanSend(c) != 0 && |payload| > MAX_PAYLOAD {
      SendPacketKeeps(c, payload[..MAX_PAYLOAD]);
      SendPacketKeeps(SendPacket(c, payload[..MAX_PAYLOAD]).1, payload[MAX_PAYLOAD..]);
    }
  }

  lemma SyncKeeps(c: Conn)
    ensures
      var d := SyncBuffer(c).1;
      && d.state == c.state && d.rcvNxt == c.rcvNxt && d.incoming == c.incoming && d.inSize == c.inSize
      && d.outSize == c.outSize && |d.outgoing| <= |c.outgoing| && d.noDelay == c.noDelay
  {
    if !c.state.Closed? && c.outgoing != [] {
      var len := Min(CanSend(c), |c.outgoing|);
      SendPacketKeeps(c.(outgoing := c.outgoing[len..]), c.outgoing[..len]);
    }
  }

  lemma WriteKeeps(c: Conn, data: seq<byte>)
    requires RingsOk(c)
    ensures
      var d := Write(c, data).1;
      && d.state == c.state && d.rcvNxt == c.rcvNxt && d.incoming == c.incoming && d.inSize == c.inSize
      && RingsOk(d)
  {
    var len := Min(|data|, CanSend(c));
    SendPacketKeeps(c, data[..len]);
    SyncKeeps(c);
    SendPacketKeeps(SyncBuffer(c).1, data[..len]);
  }

  lemma DispatchRings(c: Conn, s: Segment)
    requires RingsOk(c)
    ensures RingsOk(Dispatch(c, s))
  {
  }

  lemma ReceiveRings(c: Conn, s: Segment)
    requires RingsOk(c)
    ensures RingsOk(Receive(c, s))
  {
    DispatchRings(TakeHeader(Adopt(c, s), s), s);
    hide Dispatch;
  }

  lemma CloseRings(c: Conn)
    requires RingsOk(c)
    ensures RingsOk(Close(c))
    ensures Close(c).incoming == [] || Close(c).incoming == c.incoming
    ensures !Close(c).state.SynReceived? && !Close(c).state.Established?
  {
    SyncKeeps(c);
  }

  /** One event. A closed connection is no longer found, so segments for it change nothing. */
  ghost function Step(w: World, e: Event): (v: World)
    requires RingsOk(w.c)
    ensures RingsOk(v.c)
  {
    match e
    case Arrive(s) => ReceiveRings(w.c, s); if w.c.state.Closed? then w else w.(c := Receive(w.c, s))
    case ReadSome(len) => var (out, c) := Read(w.c, len); World(c, w.read + out)
    case WriteSome(data) => WriteKeeps(w.c, data); w.(c := Write(w.c, data).1)
    case SetNoDelay(on) => w.(c := w.c.(noDelay := on))
    case Flush => SyncKeeps(w.c); w.(c := FlushBuffers(w.c))
    case FlushAck => w.(c := FlushAcks(w.c))
    case CloseIt => CloseRings(w.c); w.(c := Close(w.c))
  }

  ghost function Run(w: World, events: seq<Event>): (v: World)
    requires RingsOk(w.c)
    ensures RingsOk(v.c)
    decreases |events|
  {
    if events == [] then w else Step(Run(w, events[..|events| - 1]), events[|events| - 1])
  }

  ghost predicate Start(w: World) {
    w.read == [] && (w.c == Active(w.c.noDelay) || w.c == Passive(w.c.noDelay, w.c.shouldSendAck))
  }

  ghost predicate PeerEvents(p: Peer, events: seq<Event>) {
    forall k :: 0 <= k < |events| && events[k].Arrive? ==> FromPeer(p, events[k].s)
  }

  /** The step takes a FIN that carries data before the connection is established. */
  ghost predicate TakesDataFin(c: Conn, e: Event) {
    e.Arrive? && Accepts(c, e.s) && (Opening(c.state) || c.state.SynReceived?) && e.s.fin && e.s.payload != []
  }

  /** How many sequence numbers rcv_nxt is ahead of the data: the FINs counted during the handshake. A
      segment that arrives before the handshake is under way starts the count anew. */
  ghost function StepShift(c: Conn, e: Event, d: nat): nat {
    if e.Arrive? && Accepts(c, e.s) && (Opening(c.state) || c.state.SynReceived?) then
      (if c.state.SynReceived? then d else 0) + (if e.s.fin then 1 else 0)
    else d
  }

  /** Whether one of them carried data. */
  ghost predicate StepLate(c: Conn, e: Event, late: bool) {
    if e.Arrive? && Accepts(c, e.s) && (Opening(c.state) || c.state.SynReceived?) then
      (c.state.SynReceived? && late) || TakesDataFin(c, e)
    else late
  }

  ghost function Shift(w: World, events: seq<Event>): nat
    requires RingsOk(w.c)
    decreases |events|
  {
    if events == [] then 0
    else StepShift(Run(w, events[..|events| - 1]).c, events[|events| - 1], Shift(w, events[..|events| - 1]))
  }

  ghost predicate DataFinTaken(w: World, events: seq<Event>)
    requires RingsOk(w.c)
    decreases |events|
  {
    events != [] && StepLate(Run(w, events[..|events| - 1]).c, events[|events| - 1],
        DataFinTaken(w, events[..|events| - 1]))
  }

  /** The bytes are those of the peer's stream from `d` on; they start late exactly if a FIN with data
      was taken too early. */
  ghost predicate PieceAt(p: Peer, got: seq<byte>, d: nat, late: bool) {
    got == [] || (d + |got| <= |p.stream| && got == p.stream[d..d + |got|] && (d != 0 <==> late))
  }

  /** rcv_nxt counts `d` more than the data received. */
  ghost predicate Shifted(p: Peer, w: World, d: nat, late: bool) {
    var n := |Received(w)|;
    && w.c.rcvNxt == p.irs + 1 + d + n && d + n <= |p.stream| + 1
    && (if late then d != 0 else d == 0 || d == |p.stream| + 1)
  }

  ghost predicate InvAt(p: Peer, w: World, d: nat, late: bool) {
    && PieceAt(p, Received(w), d, late)
    && (Opening(w.c.state) || w.c.state.SynReceived? ==> Received(w) == [])
    && (w.c.state.SynReceived? || w.c.state.Established? ==> Shifted(p, w, d, late))
  }

  /** In ESTABLISHED a segment without FIN is taken whole or not at all. */
  lemma DataTaken(c: Conn, s: Segment)
    requires RingsOk(c) && c.state.Established? && Accepts(c, s) && !s.fin
    ensures
      var c' := Receive(c, s);
      && c'.state.Established?
      && ((c'.incoming == c.incoming && c'.rcvNxt == c.rcvNxt + (if s.syn then 1 else 0))
          || (c'.incoming == c.incoming + s.payload && s.payload != []
              && c'.rcvNxt == c.rcvNxt + (if s.syn then 1 else 0) + |s.payload|))
  {
  }

  lemma DataExtends(p: Peer, w: World, s: Segment, d: nat, late: bool)
    requires RingsOk(w.c) && InvAt(p, w, d, late) && w.c.state.Established?
    requires FromPeer(p, s) && Accepts(w.c, s) && !s.fin
    ensures InvAt(p, w.(c := Receive(w.c, s)), d, late)
  {
    hide Receive, PieceAt;
    var v := w.(c := Receive(w.c, s));
    var n := |Received(w)|;
    DataTaken(w.c, s);
    if v.c.incoming != w.c.incoming {
      assert Received(v) == Received(w) + s.payload;
      assert s.payload == p.stream[d + n..d + n + |s.payload|];
      PieceMore(p, Received(w), s.payload, d, late);
    } else {
      assert Received(v) == Received(w);
    }
  }

  lemma PieceMore(p: Peer, got: seq<byte>, more: seq<byte>, d: nat, late: bool)
    requires PieceAt(p, got, d, late) && d + |got| + |more| <= |p.stream| && (d != 0 <==> late)
    requires more == p.stream[d + |got|..d + |got| + |more|]
    ensures PieceAt(p, got + more, d, late)
  {
    if got == [] {
      assert got + more == more;
    } else {
      SliceJoin(p.stream, d, d + |got|, d + |got| + |more|);
    }
  }

  /** Before ESTABLISHED no data is taken; SYN and FIN are counted. */
  lemma HandshakeTaken(c: Conn, s: Segment)
    requires RingsOk(c) && Accepts(c, s) && (Opening(c.state) || c.state.SynReceived?)
    ensures
      var c' := Receive(c, s);
      && c'.incoming == c.incoming && c'.rcvNxt == s.seqNum + (if s.fin then 1 else 0) + (if s.syn then 1 else 0)
      && (c'.state == c.state || (Opening(c.state) && s.syn && (c'.state.SynReceived? || c'.state.Established?))
          || (c.state.SynReceived? && c'.state.Established?))
  {
  }

  /** Handshake: a FIN on the way shifts by one what is taken for the next byte. */
  lemma HandshakeInv(p: Peer, w: World, s: Segment, d: nat, late: bool)
    requires RingsOk(w.c) && FromPeer(p, s) && InvAt(p, w, d, late) && Accepts(w.c, s)
    requires Opening(w.c.state) || w.c.state.SynReceived?
    ensures InvAt(p, w.(c := Receive(w.c, s)), StepShift(w.c, Arrive(s), d), StepLate(w.c, Arrive(s), late))
  {
    hide Receive;
    HandshakeTaken(w.c, s);
  }

  /** Every segment of the peer keeps the invariant, whatever it finds the connection doing. */
  lemma ReceiveInv(p: Peer, w: World, s: Segment, d: nat, late: bool)
    requires RingsOk(w.c) && FromPeer(p, s) && InvAt(p, w, d, late)
    ensures InvAt(p, w.(c := Receive(w.c, s)), StepShift(w.c, Arrive(s), d), StepLate(w.c, Arrive(s), late))
  {
    var v := w.(c := Receive(w.c, s));
    if !Accepts(w.c, s) {
    } else if Opening(w.c.state) || w.c.state.SynReceived? {
      HandshakeInv(p, w, s, d, late);
    } else if w.c.state.Established? {
      if s.fin { assert v.c.incoming == w.c.incoming; } else { DataExtends(p, w, s, d, late); }
    } else {
      ReceiveEnded(w.c, s);
      hide Receive;
      Dropped(p, w, v, d, late);
    }
  }

  lemma StepInv(p: Peer, w: World, e: Event, d: nat, late: bool)
    requires RingsOk(w.c) && InvAt(p, w, d, late) && (e.Arrive? ==> FromPeer(p, e.s))
    ensures InvAt(p, Step(w, e), StepShift(w.c, e, d), StepLate(w.c, e, late))
  {
    hide Receive, InvAt, StepShift, StepLate;
    if e.Arrive? {
      if w.c.state.Closed? { ClosedInv(p, w, e.s, d, late); } else { ReceiveInv(p, w, e.s, d, late); }
    } else {
      OtherInv(p, w, e, d, late);
    }
  }

  lemma ClosedInv(p: Peer, w: World, s: Segment, d: nat, late: bool)
    requires RingsOk(w.c) && InvAt(p, w, d, late) && w.c.state.Closed?
    ensures InvAt(p, w, StepShift(w.c, Arrive(s), d), StepLate(w.c, Arrive(s), late))
  {
  }

  lemma OtherInv(p: Peer, w: World, e: Event, d: nat, late: bool)
    requires RingsOk(w.c) && InvAt(p, w, d, late) && !e.Arrive?
    ensures InvAt(p, Step(w, e), StepShift(w.c, e, d), StepLate(w.c, e, late))
  {
    hide Receive, Write, SyncBuffer, PieceAt;
    var v := Step(w, e);
    match e {
      case ReadSome(len) => assert Received(v) == Received(w);
      case WriteSome(data) => WriteKeeps(w.c, data);
      case SetNoDelay(on) => assert Received(v) == Received(w);
      case Flush => SyncKeeps(w.c); Dropped(p, w, v, d, late);
      case FlushAck =>
      case CloseIt => CloseRings(w.c); Dropped(p, w, v, d, late);
    }
  }

  /** Freeing the ring leaves what was read, still a piece of the stream from the same place. */
  lemma Dropped(p: Peer, w: World, v: World, d: nat, late: bool)
    requires PieceAt(p, Received(w), d, late) && v.read == w.read
    requires v.c.incoming == w.c.incoming || v.c.incoming == []
    ensures PieceAt(p, Received(v), d, late)
  {
    if v.c.incoming == [] && Received(w) != [] {
      assert Received(v) == w.read == Received(w)[..|w.read|] == p.stream[d..d + |w.read|];
    }
  }

  /** Over every run of every peer the invariant holds with exactly these two. */
  lemma {:induction false} RunInv(p: Peer, w: World, events: seq<Event>)
    requires RingsOk(w.c) && Start(w) && PeerEvents(p, events)
    ensures InvAt(p, Run(w, events), Shift(w, events), DataFinTaken(w, events))
    decreases |events|
  {
    hide Step;
    if events != [] {
      var before, e := events[..|events| - 1], events[|events| - 1];
      RunInv(p, w, before);
      StepInv(p, Run(w, before), e, Shift(w, before), DataFinTaken(w, before));
    }
  }

  /** Reception, exactly, over every run of every peer. What has been received is the peer's stream from
      position Shift on, which is the beginning if and only if no FIN with data was taken before
      ESTABLISHED; and while ESTABLISHED, rcv_nxt is the number of the next byte of the stream if and
      only if nothing was shifted. */
  lemma ReceptionExact(p: Peer, w: World, events: seq<Event>)
    requires RingsOk(w.c) && Start(w) && PeerEvents(p, events)
    ensures
      var v, d := Run(w, events), Shift(w, events);
      var got := Received(v);
      && (got != [] ==>
            && d + |got| <= |p.stream| && got == p.stream[d..d + |got|]
            && (d == 0 <==> !DataFinTaken(w, events)))
      && (v.c.state.Established? ==> (v.c.rcvNxt == p.irs + 1 + |got| <==> d == 0))
      && (v.c.state.Established? && got != [] ==> (v.c.rcvNxt == p.irs + 1 + |got| <==> !DataFinTaken(w, events)))
  {
    hide Run, Shift, DataFinTaken, PeerEvents;
    RunInv(p, w, events);
  }

  lemma {:induction false} NoDataFin(w: World, events: seq<Event>)
    requires RingsOk(w.c) && forall k :: 0 <= k < |events| ==> !TakesDataFin(Run(w, events[..k]).c, events[k])
    ensures !DataFinTaken(w, events)
    decreases |events|
  {
    hide Step;
    if events != [] {
      var n := |events| - 1;
      var before := events[..n];
      forall k | 0 <= k < n ensures !TakesDataFin(Run(w, before[..k]).c, before[k]) {
        assert before[..k] == events[..k];
      }
      NoDataFin(w, before);
    }
  }

  /** Receive safety: in every run that takes no FIN with data before ESTABLISHED, the bytes read and those
      waiting are a prefix of the peer's stream. */
  lemma RunIsPrefix(p: Peer, w: World, events: seq<Event>)
    requires RingsOk(w.c) && Start(w) && PeerEvents(p, events)
    requires forall k :: 0 <= k < |events| ==> !TakesDataFin(Run(w, events[..k]).c, events[k])
    ensures Received(Run(w, events)) <= p.stream
  {
    hide Run, Shift, DataFinTaken, PeerEvents;
    NoDataFin(w, events);
    ReceptionExact(p, w, events);
  }

  ghost predicate Constant(s: seq<byte>) {
    forall i, j :: 0 <= i < |s| && 0 <= j < |s| ==> s[i] == s[j]
  }

  /** A stream that is not constant changes between some two neighbours. */
  lemma {:induction false} Changes(s: seq<byte>, i: nat, j: nat) returns (t: nat)
    requires i < j < |s| && s[i] != s[j]
    ensures t + 1 < |s| && s[t] != s[t + 1]
    decreases j - i
  {
    if s[i] != s[i + 1] { t := i; } else { t := Changes(s, i + 1, j); }
  }

  /** A peer that puts its whole stream on its FIN, and repeats bytes 1, 2, ... one at a time. */
  ghost function LateRun(p: Peer, m: nat): seq<Event>
    requires m < |p.stream|
  {
    if m == 0 then
      [Arrive(Segment(p.irs, 0, true, false, false, 1000, [])),
       Arrive(Segment(p.irs + 1, 1, false, true, true, 1000, p.stream))]
    else
      LateRun(p, m - 1) + [Arrive(Segment(p.irs + 1 + m, 1, false, true, false, 1000, [p.stream[m]]))] + [ReadSome(1)]
  }

  lemma {:induction false} LateRunFromPeer(p: Peer, m: nat)
    requires m < |p.stream| && p.dataOnFin
    ensures PeerEvents(p, LateRun(p, m))
  {
    if m == 0 {
      assert p.stream[0..|p.stream|] == p.stream;
    } else {
      LateRunFromPeer(p, m - 1);
      assert p.stream[m..m + 1] == [p.stream[m]];
    }
  }

  lemma RunSnoc(w: World, events: seq<Event>, e: Event)
    requires RingsOk(w.c)
    ensures Run(w, events + [e]) == Step(Run(w, events), e)
  {
    assert (events + [e])[..|events|] == events;
  }

  /** After LateRun(p, m): m bytes read, the first of them byte 1 of the stream. */
  ghost predicate LateBy1(p: Peer, w: World, m: nat)
    requires m < |p.stream|
  {
    && w.c.state == Established && w.c.rcvNxt == p.irs + 2 + m && w.c.sndUna == 1 && w.c.sndMax == 1
    && w.c.inSize == IN_SIZE && w.c.incoming == [] && w.read == p.stream[1..1 + m]
  }

  lemma LateSyn(irs: nat)
    ensures
      var c := Receive(Passive(false, false), Segment(irs, 0, true, false, false, 1000, []));
      && c.state == SynReceived && c.rcvNxt == irs + 1 && c.sndUna == 0 && c.sndMax == 1
      && c.inSize == IN_SIZE && c.incoming == []
  {
  }

  lemma LateFin(c: Conn, irs: nat, payload: seq<byte>)
    requires RingsOk(c) && c.state == SynReceived && c.rcvNxt == irs + 1 && c.sndUna == 0 && c.sndMax == 1
    ensures
      Receive(c, Segment(irs + 1, 1, false, true, true, 1000, payload))
          == c.(state := Established, sndWnd := 1000, sndUna := 1, rcvNxt := irs + 2)
  {
  }

  lemma LateStart(p: Peer)
    requires |p.stream| > 0
    ensures LateBy1(p, Run(World(Passive(false, false), []), LateRun(p, 0)), 0)
  {
    var w0, e1, e2 := World(Passive(false, false), []), LateRun(p, 0)[0], LateRun(p, 0)[1];
    RunSnoc(w0, [], e1);
    RunSnoc(w0, [] + [e1], e2);
    assert [] + [e1] + [e2] == LateRun(p, 0);
    LateSyn(p.irs);
    LateFin(Step(w0, e1).c, p.irs, p.stream);
  }

  lemma LateData(p: Peer, w: World, m: nat)
    requires 0 < m < |p.stream| && RingsOk(w.c) && LateBy1(p, w, m - 1)
    ensures
      var v := Step(w, Arrive(Segment(p.irs + 1 + m, 1, false, true, false, 1000, [p.stream[m]])));
      v.c.incoming == [p.stream[m]] && LateBy1(p, Step(v, ReadSome(1)), m)
  {
    assert p.stream[1..1 + m] == p.stream[1..m] + [p.stream[m]];
  }

  /** The passive side drops the data on the FIN but counts the FIN: from then on it takes byte 1
      of the stream for byte 0. */
  lemma {:induction false} LateRunShifts(p: Peer, m: nat)
    requires m < |p.stream|
    ensures LateBy1(p, Run(World(Passive(false, false), []), LateRun(p, m)), m)
  {
    var w0 := World(Passive(false, false), []);
    if m == 0 {
      LateStart(p);
    } else {
      LateRunShifts(p, m - 1);
      var before := LateRun(p, m - 1);
      var data := Arrive(Segment(p.irs + 1 + m, 1, false, true, false, 1000, [p.stream[m]]));
      RunSnoc(w0, before, data);
      RunSnoc(w0, before + [data], ReadSome(1));
      LateData(p, Run(w0, before), m);
    }
  }

  lemma PeerIsSafe(p: Peer, w: World, events: seq<Event>)
    requires (!p.dataOnFin || Constant(p.stream)) && Start(w) && PeerEvents(p, events)
    ensures Received(Run(w, events)) <= p.stream
  {
    hide Run, Shift, DataFinTaken;
    ReceptionExact(p, w, events);
    if !p.dataOnFin { RunIsPrefix(p, w, events); }
  }

  lemma LateRunBreaks(p: Peer) returns (w: World, events: seq<Event>)
    requires p.dataOnFin && !Constant(p.stream)
    ensures Start(w) && PeerEvents(p, events) && !(Received(Run(w, events)) <= p.stream)
  {
    hide Run, PeerEvents, LateRun;
    var i, j :| 0 <= i < |p.stream| && 0 <= j < |p.stream| && p.stream[i] != p.stream[j];
    var t := Changes(p.stream, Min(i, j), Max(i, j));
    w, events := World(Passive(false, false), []), LateRun(p, t + 1);
    LateRunFromPeer(p, t + 1);
    LateRunShifts(p, t + 1);
    assert Received(Run(w, events))[t] == p.stream[t + 1];
  }

  /** Receive safety, exactly: for every run (loss, duplication, reordering, reads, writes, closes)
      the received bytes are a prefix of the peer's stream if and only if the peer keeps data off
      its FIN segment or all its bytes are the same. */
  lemma ReceiveSafetyExact(p: Peer)
    ensures (forall w, events :: Start(w) && PeerEvents(p, events) ==> Received(Run(w, events)) <= p.stream)
       <==> (!p.dataOnFin || Constant(p.stream))
  {
    hide Run, PeerEvents, Constant, Received;
    if !p.dataOnFin || Constant(p.stream) {
      forall w, events | Start(w) && PeerEvents(p, events)
        ensures Received(Run(w, events)) <= p.stream
      {
        PeerIsSafe(p, w, events);
      }
    } else {
      var w, events := LateRunBreaks(p);
    }
  }

  /** The connection has been through ESTABLISHED or was given up before. */
  ghost predicate Ended(s: State) {
    !Opening(s) && !s.SynReceived? && !s.Established?
  }

  lemma ReceiveEnded(c: Conn, s: Segment)
    requires RingsOk(c) && Ended(c.state)
    ensures Ended(Receive(c, s).state)
    ensures Receive(c, s).incoming == c.incoming || Receive(c, s).incoming == []
  {
  }

  /** Once ESTABLISHED is left nothing more is received, and it is never entered again. */
  lemma NothingAfterEstablished(w: World, e: Event)
    requires RingsOk(w.c) && Ended(w.c.state)
    ensures Ended(Step(w, e).c.state) && Received(Step(w, e)) <= Received(w)
  {
    match e {
      case Arrive(s) => ReceiveEnded(w.c, s);
      case ReadSome(len) => assert Received(Step(w, e)) == Received(w);
      case WriteSome(data) => WriteKeeps(w.c, data);
      case SetNoDelay(on) =>
      case Flush => SyncKeeps(w.c);
      case FlushAck =>
      case CloseIt => CloseRings(w.c);
    }
  }

  /** The same over whole runs: whatever comes after, the reader only gets what was there when ESTABLISHED
      was left. */
  lemma {:induction false} NothingEverAfter(w: World, events: seq<Event>, more: seq<Event>)
    requires RingsOk(w.c) && Ended(Run(w, events).c.state)
    ensures Ended(Run(w, events + more).c.state) && Received(Run(w, events + more)) <= Received(Run(w, events))
    decreases |more|
  {
    hide Run, Received;
    if more == [] {
      assert events + more == events;
    } else {
      var init, e := more[..|more| - 1], more[|more| - 1];
      NothingEverAfter(w, events, init);
      RunSnoc(w, events + init, e);
      assert events + more == events + init + [e];
      NothingAfterEstablished(Run(w, events + init), e);
    }
  }
}
