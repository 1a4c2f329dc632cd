/** Runs of the TCP endpoint, from the handshake on, in which sending goes wrong. */
module TcpSendRuns {
  import opened Bytes
  import opened Tcp
  import opened TcpReceive
  import opened TcpSend
  import opened TcpEnd

  /** The peer's answer to our SYN, with its window. */
  function SynAck(irs: nat, window: nat): Segment {
    Segment(irs, 1, true, true, false, window, [])
  }

  /** A connection just established by connect. */
  lemma JustOpened(irs: nat, window: nat, nd: bool) returns (c: Conn)
    requires 0 < window < U16_END
    ensures RingsOk(Active(nd)) && c == Run(World(Active(nd), []), [Arrive(SynAck(irs, window))]).c
    ensures Ready(c) && c.noDelay == nd && c.outgoing == [] && c.outSize == OUT_SIZE
    ensures c.sndUna == 1 && c.sndMax == 1 && c.sndWnd == window && c.rcvNxt == irs + 1
  {
    hide Receive, SendInv, CarefulRun, Ready;
    var w, e := World(Active(nd), []), Arrive(SynAck(irs, window));
    OpenedFields(irs, window, nd);
    RunSnoc(w, [], e);
    assert [] + [e] == [e];
    c := Receive(Active(nd), SynAck(irs, window));
    CarefulOpening(irs, window, nd);
    SendSafety(w, [e]);
    EstablishedIsReady(c, Accepted(w, [e]));
  }

  lemma OpenedFields(irs: nat, window: nat, nd: bool)
    ensures RingsOk(Active(nd))
    ensures
      var c := Receive(Active(nd), SynAck(irs, window));
      && c.state.Established? && c.noDelay == nd && c.outgoing == [] && c.outSize == OUT_SIZE
      && c.sndUna == 1 && c.sndMax == 1 && c.sndWnd == window && c.rcvNxt == irs + 1
  {
  }

  lemma CarefulOpening(irs: nat, window: nat, nd: bool)
    requires 0 < window < U16_END && RingsOk(Active(nd))
    ensures CarefulRun(World(Active(nd), []), [Arrive(SynAck(irs, window))])
  {
    hide Step;
    var w, run := World(Active(nd), []), [Arrive(SynAck(irs, window))];
    forall k | 0 <= k < |run| ensures Careful(Run(w, run[..k]).c, run[k]) {
      assert run[..k] == [];
    }
  }

  lemma EstablishedIsReady(c: Conn, accepted: seq<byte>)
    requires SendInv(c, accepted) && c.state.Established?
    ensures Ready(c)
  {
  }

  /** And with bytes in its ring. */
  lemma Buffered(c: Conn, data: seq<byte>)
    requires Ready(c) && !c.noDelay && c.outgoing == [] && c.outSize == OUT_SIZE && 0 < |data| <= Left(c)
             && |data| < OUT_SIZE
    ensures Write(c, data).1 == c.(outgoing := data) && Ready(c.(outgoing := data))
  {
    WindowClosed(c);
    assert data[..|data|] == data;
  }

  /** A window of 6500, 5000 bytes in the ring, then a write of 4000: snd_max ends beyond the window. */
  lemma FallbackOverruns(irs: nat, a: seq<byte>, b: seq<byte>)
    requires |a| == 5000 && |b| == 4000
    ensures
      var w := World(Active(false), []);
      RingsOk(w.c) && Start(w) && !InWindow(Run(w, [Arrive(SynAck(irs, 6500)), WriteSome(a), WriteSome(b)]).c)
  {
    hide Receive, Write, Ready, InWindow;
    var w, e := World(Active(false), []), Arrive(SynAck(irs, 6500));
    var c := JustOpened(irs, 6500, false);
    Buffered(c, a);
    RunSnoc(w, [e], WriteSome(a));
    RunSnoc(w, [e] + [WriteSome(a)], WriteSome(b));
    assert [e] + [WriteSome(a)] + [WriteSome(b)] == [e, WriteSome(a), WriteSome(b)];
    ReadyFacts(c.(outgoing := a));
    WriteWindowExact(c.(outgoing := a), b);
  }

  /** With a window of 6000 the last write is refused although 1000 of its bytes have gone out. */
  lemma FallbackRefuses(irs: nat, a: seq<byte>, b: seq<byte>)
    requires |a| == 5000 && |b| == 4000
    ensures
      var w := World(Active(false), []);
      && RingsOk(w.c) && Start(w)
      && var c := Run(w, [Arrive(SynAck(irs, 6000)), WriteSome(a)]).c;
         SentButRefused(c, |b|) && !WriteIsHonest(c, b)
  {
    hide Receive, Write, Ready, WriteIsHonest;
    var w, e := World(Active(false), []), Arrive(SynAck(irs, 6000));
    var c := JustOpened(irs, 6000, false);
    Buffered(c, a);
    RunSnoc(w, [e], WriteSome(a));
    assert [e] + [WriteSome(a)] == [e, WriteSome(a)];
    ReadyFacts(c.(outgoing := a));
    WriteStreamExact(c.(outgoing := a), b);
  }

  /** Window updates of 3000 and 2000 delivered in the wrong order around a write of 3000. */
  lemma ReorderedRunOverruns(irs: nat, data: seq<byte>)
    requires |data| == 3000
    ensures
      var w := World(Active(true), []);
      var newer := Segment(irs + 1, 1, false, true, false, 3000, []);
      var older := newer.(window := 2000);
      && RingsOk(w.c) && Start(w)
      && !InWindow(Run(w, [Arrive(SynAck(irs, 1000)), Arrive(newer), WriteSome(data), Arrive(older)]).c)
  {
    hide Write, Ready, InWindow;
    var w, e := World(Active(true), []), Arrive(SynAck(irs, 1000));
    var newer := Segment(irs + 1, 1, false, true, false, 3000, []);
    var older := newer.(window := 2000);
    var c := JustOpened(irs, 1000, true);
    ReadyFacts(c);
    ReorderedUpdatesOverrun(c, older, newer, data);
    RunSnoc(w, [e], Arrive(newer));
    RunSnoc(w, [e] + [Arrive(newer)], WriteSome(data));
    RunSnoc(w, [e] + [Arrive(newer)] + [WriteSome(data)], Arrive(older));
    assert [e] + [Arrive(newer)] + [WriteSome(data)] + [Arrive(older)]
           == [e, Arrive(newer), WriteSome(data), Arrive(older)];
    WriteKeeps(Receive(c, newer), data);
  }

  /** After these events the connection is c and the writes have accepted acc. */
  ghost predicate At(w: World, events: seq<Event>, c: Conn, acc: seq<byte>) {
    RingsOk(w.c) && Run(w, events).c == c && Accepted(w, events) == acc
  }

  lemma AtWrite(w: World, events: seq<Event>, c: Conn, acc: seq<byte>, data: seq<byte>)
    requires At(w, events, c, acc) && RingsOk(c)
    ensures At(w, events + [WriteSome(data)], Write(c, data).1, acc + AcceptedBytes(Write(c, data).0, data))
  {
    hide Run, Accepted, AcceptedBytes, Write;
    RunSnoc(w, events, WriteSome(data));
    AcceptedSnoc(w, events, WriteSome(data));
  }

  lemma AtOther(w: World, events: seq<Event>, c: Conn, acc: seq<byte>, e: Event)
    requires At(w, events, c, acc) && RingsOk(c) && !e.WriteSome?
    ensures At(w, events + [e], Step(Run(w, events), e).c, acc)
  {
    hide Run, Accepted, Step;
    RunSnoc(w, events, e);
    AcceptedSnoc(w, events, e);
    assert acc + [] == acc;
  }

  /** A connection just established, nothing accepted or sent. */
  lemma AtOpened(irs: nat, window: nat, nd: bool) returns (w: World, c: Conn)
    requires 0 < window < U16_END
    ensures w == World(Active(nd), []) && At(w, [Arrive(SynAck(irs, window))], c, []) && Start(w)
    ensures Ready(c) && RingsOk(c) && c.noDelay == nd && c.outgoing == [] && c.outSize == OUT_SIZE
            && Payloads(c.sent) == []
    ensures Left(c) == window && c.sndUna == c.sndMax == 1 && c.rcvNxt == irs + 1
  {
    hide Receive, Ready, Accepted;
    w := World(Active(nd), []);
    var e := Arrive(SynAck(irs, window));
    c := JustOpened(irs, window, nd);
    ReadyFacts(c);
    OpenedSent(irs, window, nd);
    RunSnoc(w, [], e);
    AcceptedSnoc(w, [], e);
    NoneAccepted(w);
    assert [] + [e] == [e];
  }

  lemma NoneAccepted(w: World)
    requires RingsOk(w.c)
    ensures Accepted(w, []) == []
  {
  }

  lemma OpenedSent(irs: nat, window: nat, nd: bool)
    ensures RingsOk(Active(nd)) && Payloads(Receive(Active(nd), SynAck(irs, window)).sent) == []
  {
    var sent := Receive(Active(nd), SynAck(irs, window)).sent;
    SentOne([], sent[0]);
    SentOne([] + [sent[0]], sent[1]);
    assert sent == [] + [sent[0]] + [sent[1]];
  }

  /** A write that fits the ring waits there. */
  lemma AtBuffered(w: World, events: seq<Event>, c: Conn, acc: seq<byte>, data: seq<byte>)
    requires At(w, events, c, acc) && Ready(c) && !c.noDelay && 0 < |data| <= Left(c)
             && |data| <= Room(c.outSize, |c.outgoing|)
    ensures At(w, events + [WriteSome(data)], c.(outgoing := c.outgoing + data), acc + data)
    ensures Ready(c.(outgoing := c.outgoing + data))
  {
    hide Run, Accepted;
    WindowClosed(c);
    AtWrite(w, events, c, acc, data);
    assert data[..|data|] == data;
  }

  /** A buffered write, TCP_NODELAY, another write and a flush: the second write is on the wire first. */
  lemma OptionReorders(irs: nat, a: seq<byte>, b: seq<byte>)
    requires 0 < |a| && 0 < |b| && |a| + |b| <= 5000
    ensures
      var w := World(Active(false), []);
      && RingsOk(w.c) && Start(w)
      && var run := [Arrive(SynAck(irs, 5000)), WriteSome(a), SetNoDelay(true), WriteSome(b), Flush];
         Accepted(w, run) == a + b && Payloads(Run(w, run).c.sent) == b + a
  {
    hide Receive, Write, Ready, Run, Accepted, Payloads, FlushBuffers;
    var e, f, n, g := Arrive(SynAck(irs, 5000)), WriteSome(a), SetNoDelay(true), WriteSome(b);
    var w, c := AtOpened(irs, 5000, false);
    AtBuffered(w, [e], c, [], a);
    assert [] + a == a && c.outgoing + a == a;
    var c1 := c.(outgoing := a);
    ReadyOption(c1);
    var c2 := c1.(noDelay := true);
    AtOther(w, [e] + [f], c1, a, n);
    SentAhead(c2, b);
    AtWrite(w, [e] + [f] + [n], c2, a, b);
    AtOther(w, [e] + [f] + [n] + [g], Write(c2, b).1, a + b, Flush);
    assert [e] + [f] + [n] + [g] + [Flush] == [e, f, n, g, Flush];
    assert [] + b + a == b + a;
  }

  /** The option keeps the connection ready. */
  lemma ReadyOption(c: Conn)
    requires Ready(c)
    ensures Ready(c.(noDelay := true)) && RingsOk(c)
  {
  }

  /** A write without delay, and then the ring. */
  lemma SentAhead(c: Conn, b: seq<byte>)
    requires Ready(c) && c.noDelay && c.outgoing != [] && 0 < |b| && |b| + |c.outgoing| <= Left(c)
    ensures RingsOk(c)
    ensures var (r, d) := Write(c, b);
            && r == Count.Bytes(|b|) && AcceptedBytes(r, b) == b && RingsOk(d) && d.state.Established?
            && Payloads(FlushBuffers(d).sent) == Payloads(c.sent) + b + c.outgoing
  {
    hide Write, SyncBuffer, Numbered, Payloads;
    WriteNoDelay(c, b);
    WriteKeeps(c, b);
    assert b[..|b|] == b;
    var d := Write(c, b).1;
    SyncExact(d);
    assert d.outgoing[..|d.outgoing|] == c.outgoing;
  }

  /** A write of more than the ring holds, with nothing in the ring and the window open: however often it is
      tried, and whatever is flushed in between, nothing is accepted and nothing changes. */
  lemma {:induction false} StuckForever(irs: nat, window: nat, events: seq<Event>)
    requires 8192 <= window < U16_END
    requires forall k :: 0 <= k < |events| ==>
             events[k] == Flush || (events[k].WriteSome? && |events[k].data| >= 8192)
    ensures
      var w, e := World(Active(false), []), Arrive(SynAck(irs, window));
      RingsOk(w.c) && Start(w) && At(w, [e] + events, Run(w, [e]).c, [])
    decreases |events|
  {
    hide Receive, Write, Ready, Run, Accepted, FlushBuffers, Payloads;
    var w, c := AtOpened(irs, window, false);
    var e := Arrive(SynAck(irs, window));
    if events == [] {
      assert [e] + events == [e];
    } else {
      var before, last := events[..|events| - 1], events[|events| - 1];
      StuckForever(irs, window, before);
      assert [e] + events == [e] + before + [last];
      if last.WriteSome? {
        WriteStuck(c, last.data);
        AtWrite(w, [e] + before, c, [], last.data);
      } else {
        ReadyFacts(c);
        StuckFlush(c);
        AtOther(w, [e] + before, c, [], last);
      }
    }
  }

  lemma StuckFlush(c: Conn)
    requires c.outgoing == [] && c.state.Established?
    ensures FlushBuffers(c) == c
  {
  }

  /** A window of 1000 and two writes of 800: all 1600 bytes are accepted, the close sends 1000 of them and the
      FIN, and nothing that happens later brings the others to the wire. */
  lemma LostAtClose(irs: nat, a: seq<byte>, b: seq<byte>, more: seq<Event>)
    requires |a| == |b| == 800
    ensures
      var w := World(Active(false), []);
      && RingsOk(w.c) && Start(w)
      && var run := [Arrive(SynAck(irs, 1000)), WriteSome(a), WriteSome(b)];
         Accepted(w, run) == a + b && Payloads(Run(w, run + [CloseIt] + more).c.sent) == (a + b)[..1000]
  {
    hide Receive, Write, Ready, Run, Accepted, Payloads, Close, Left;
    var e, f, g := Arrive(SynAck(irs, 1000)), WriteSome(a), WriteSome(b);
    var w, c := AtOpened(irs, 1000, false);
    AtBuffered(w, [e], c, [], a);
    assert [] + a == a && c.outgoing + a == a;
    var c1 := c.(outgoing := a);
    SameLeft(c, c1);
    AtBuffered(w, [e] + [f], c1, a, b);
    var c2 := c.(outgoing := a + b);
    assert c1.(outgoing := c1.outgoing + b) == c2;
    SameLeft(c, c2);
    ReadyFacts(c2);
    var run := [e, f, g];
    assert [e] + [f] + [g] == run;
    CloseExact(c2);
    RunSnoc(w, run, CloseIt);
    SentEver(w, run + [CloseIt], more);
    assert [] + (a + b)[..1000] == (a + b)[..1000];
  }

  lemma SameLeft(c: Conn, d: Conn)
    requires d == c.(outgoing := d.outgoing)
    ensures Left(d) == Left(c)
  {
  }

  /** Bytes that wait in the ring when the peer's FIN arrives never go out. */
  lemma LostAtFin(irs: nat, a: seq<byte>, more: seq<Event>)
    requires 0 < |a| <= 1000
    ensures
      var w := World(Active(false), []);
      && RingsOk(w.c) && Start(w)
      && var run := [Arrive(SynAck(irs, 1000)), WriteSome(a)];
         var fin := Arrive(Segment(irs + 1, 1, false, true, true, 1000, []));
         Accepted(w, run) == a && Payloads(Run(w, run + [fin] + more).c.sent) == []
  {
    hide Receive, Write, Ready, Run, Accepted, Payloads, Left;
    var e, f := Arrive(SynAck(irs, 1000)), WriteSome(a);
    var s := Segment(irs + 1, 1, false, true, true, 1000, []);
    var w, c := AtOpened(irs, 1000, false);
    AtBuffered(w, [e], c, [], a);
    assert [] + a == a && c.outgoing + a == a;
    var c1 := c.(outgoing := a);
    ReadyFacts(c1);
    var run := [e, f];
    assert [e] + [f] == run;
    FinTaken(c1, s);
    RunSnoc(w, run, Arrive(s));
    SentEver(w, run + [Arrive(s)], more);
  }
}
