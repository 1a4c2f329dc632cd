/** Whole runs of the TCP endpoint: how often it sends a FIN, which segments acknowledge, and how both closing
    exchanges go. */
module TcpClosing {
  import opened Bytes
  import opened Tcp
  import opened TcpReceive
  import opened TcpControl

  /** States in which a close sends a FIN. */
  ghost predicate Closable(s: State) {
    s.SynReceived? || s.Established? || s.CloseWait?
  }

  /** The run has a close in such a state. */
  ghost predicate HasClosed(w: World, events: seq<Event>)
    requires RingsOk(w.c)
  {
    exists k :: 0 <= k < |events| && events[k].CloseIt? && Closable(Run(w, events[..k]).c.state)
  }

  /** Segment k is the one FIN sent, and takes the last sequence number. */
  ghost predicate FinAt(c: Conn, k: nat) {
    && k < |c.sent| && c.sent[k].fin && c.sent[k].seqNum + 1 == c.sndNxt
    && forall j :: 0 <= j < |c.sent| && j != k ==> !c.sent[j].fin
  }

  ghost predicate NoFin(sent: seq<Segment>) {
    forall j :: 0 <= j < |sent| ==> !sent[j].fin
  }

  ghost predicate FinInv(c: Conn, closed: bool) {
    if closed then
      && (exists k :: FinAt(c, k))
      && (c.state.FinWait1? || c.state.FinWait2? || c.state.Closing? || c.state.TimeWait? || c.state.Closed?)
    else
      && NoFin(c.sent)
      && (c.state.Listen? || c.state.SynSent? || Closable(c.state) || c.state.Closed?)
  }

  /** Arriving segments are answered with ACK and without FIN, and number nothing once the handshake is over. */
  lemma ArriveNews(w: World, s: Segment)
    requires RingsOk(w.c)
    ensures
      var c, d := w.c, Step(w, Arrive(s)).c;
      && c.sent <= d.sent && (forall f :: f in News(c, d) ==> f.ack && !f.fin)
      && (!Opening(c.state) ==> d.sndNxt == c.sndNxt)
  {
    hide Step;
    ArriveExact(w, s);
  }

  lemma FinKept(c: Conn, d: Conn, closed: bool)
    requires c.sent <= d.sent && (forall f :: f in News(c, d) ==> !f.fin)
    requires if closed then (exists k :: FinAt(c, k)) && d.sndNxt == c.sndNxt else NoFin(c.sent)
    ensures if closed then exists k :: FinAt(d, k) else NoFin(d.sent)
  {
    forall j | |c.sent| <= j < |d.sent| ensures !d.sent[j].fin { assert d.sent[j] == News(c, d)[j - |c.sent|]; }
    if closed {
      var k: nat :| FinAt(c, k);
      assert FinAt(d, k);
    }
  }

  lemma FinArrive(w: World, s: Segment, closed: bool)
    requires RingsOk(w.c) && FinInv(w.c, closed)
    ensures FinInv(Step(w, Arrive(s)).c, closed)
  {
    hide Step, FinAt, NoFin, News;
    var d := Step(w, Arrive(s)).c;
    ArriveNews(w, s);
    FinKept(w.c, d, closed);
    match w.c.state {
      case Listen => ListenExact(w, s);
      case SynSent => SynSentExact(w, s);
      case SynReceived => SynReceivedExact(w, s);
      case Established => EstablishedExact(w, s);
      case FinWait1 => FinWait1Exact(w, s);
      case FinWait2 => FinWait2Exact(w, s);
      case _ => QuietExact(w, s);
    }
  }

  lemma FinOther(w: World, e: Event, closed: bool)
    requires RingsOk(w.c) && FinInv(w.c, closed) && !e.Arrive? && !e.CloseIt?
    ensures FinInv(Step(w, e).c, closed)
  {
    hide Step, FinAt, NoFin;
    var d := Step(w, e).c;
    OthersExact(w, e);
    FinKept(w.c, d, closed);
  }

  lemma FinClose(w: World, closed: bool)
    requires RingsOk(w.c) && FinInv(w.c, closed)
    ensures FinInv(Step(w, CloseIt).c, closed || Closable(w.c.state))
  {
    hide Step;
    var c, d := w.c, Step(w, CloseIt).c;
    if c.state.Established? {
      CloseEstablished(w);
      assert FinAt(d, |d.sent| - 1);
    } else if Closable(c.state) {
      CloseOthers(w);
      assert FinAt(d, |c.sent|);
    } else {
      CloseQuiet(w);
      FinKept(c, d, closed);
    }
  }

  lemma ClosedMore(w: World, events: seq<Event>, e: Event)
    requires RingsOk(w.c)
    ensures HasClosed(w, events + [e]) == (HasClosed(w, events) || (e.CloseIt? && Closable(Run(w, events).c.state)))
  {
    hide Run;
    var all := events + [e];
    assert all[..|events|] == events;
    forall k | 0 <= k < |events| ensures all[..k] == events[..k] && all[k] == events[k] {}
    if HasClosed(w, events) {
      var k :| 0 <= k < |events| && events[k].CloseIt? && Closable(Run(w, events[..k]).c.state);
      assert all[k].CloseIt? && Closable(Run(w, all[..k]).c.state);
    }
  }

  /** Over every run exactly one FIN is sent if the connection was closed in SYN_RECEIVED, ESTABLISHED or
      CLOSE_WAIT, and it has the last sequence number; none if it was not. */
  lemma {:induction false} OneFin(w: World, events: seq<Event>)
    requires RingsOk(w.c) && Start(w)
    ensures FinInv(Run(w, events).c, HasClosed(w, events))
    decreases |events|
  {
    hide Step, HasClosed, FinInv;
    if events == [] {
      FinStart(w);
    } else {
      var before, e := events[..|events| - 1], events[|events| - 1];
      assert before + [e] == events;
      OneFin(w, before);
      ClosedMore(w, before, e);
      var v, closed := Run(w, before), HasClosed(w, before);
      if e.Arrive? { FinArrive(v, e.s, closed); } else if e.CloseIt? { FinClose(v, closed); } else { FinOther(v, e,
          closed); }
    }
  }

  lemma FinStart(w: World)
    requires RingsOk(w.c) && Start(w)
    ensures FinInv(w.c, HasClosed(w, []))
  {
  }

  // Acknowledgements.

  /** A close that sends its FIN without an acknowledgement. */
  ghost predicate BareClose(w: World, events: seq<Event>)
    requires RingsOk(w.c)
  {
    exists k :: 0 <= k < |events| && events[k].CloseIt? && Bare(Run(w, events[..k]).c.state)
  }

  ghost predicate Bare(s: State) {
    s.SynReceived? || s.CloseWait?
  }

  /** A segment other than a SYN has no acknowledgement. */
  ghost predicate Unacknowledging(sent: seq<Segment>) {
    exists j :: 0 <= j < |sent| && !sent[j].ack && !sent[j].syn
  }

  lemma AckKept(c: Conn, d: Conn)
    requires c.sent <= d.sent && forall f :: f in News(c, d) ==> f.ack
    ensures Unacknowledging(d.sent) == Unacknowledging(c.sent)
  {
    forall j | |c.sent| <= j < |d.sent| ensures d.sent[j].ack { assert d.sent[j] == News(c, d)[j - |c.sent|]; }
    if Unacknowledging(c.sent) {
      var j :| 0 <= j < |c.sent| && !c.sent[j].ack && !c.sent[j].syn;
      assert d.sent[j] == c.sent[j];
    }
  }

  lemma AckStep(w: World, e: Event)
    requires RingsOk(w.c)
    ensures Unacknowledging(Step(w, e).c.sent) == (Unacknowledging(w.c.sent) || (e.CloseIt? && Bare(w.c.state)))
  {
    hide Step;
    var c, d := w.c, Step(w, e).c;
    if e.Arrive? {
      ArriveNews(w, e.s);
      AckKept(c, d);
    } else if !e.CloseIt? {
      OthersExact(w, e);
      AckKept(c, d);
    } else if c.state.Established? {
      CloseEstablished(w);
      forall f | f in News(c, d) ensures f.ack {}
      AckKept(c, d);
    } else if Bare(c.state) {
      CloseOthers(w);
      assert !d.sent[|c.sent|].ack;
    } else {
      CloseQuiet(w);
      AckKept(c, d);
    }
  }

  lemma BareMore(w: World, events: seq<Event>, e: Event)
    requires RingsOk(w.c)
    ensures BareClose(w, events + [e]) == (BareClose(w, events) || (e.CloseIt? && Bare(Run(w, events).c.state)))
  {
    hide Run;
    var all := events + [e];
    assert all[..|events|] == events;
    forall k | 0 <= k < |events| ensures all[..k] == events[..k] && all[k] == events[k] {}
    if BareClose(w, events) {
      var k :| 0 <= k < |events| && events[k].CloseIt? && Bare(Run(w, events[..k]).c.state);
      assert all[k].CloseIt? && Bare(Run(w, all[..k]).c.state);
    }
  }

  /** Every segment after the first SYN has to carry an acknowledgement (section 3.10.7.4 of RFC 9293 drops those
      that do not). Over every run this holds if and only if the connection is not closed in SYN_RECEIVED or
      CLOSE_WAIT. */
  lemma {:induction false} AlwaysAcknowledging(w: World, events: seq<Event>)
    requires RingsOk(w.c) && Start(w)
    ensures Unacknowledging(Run(w, events).c.sent) <==> BareClose(w, events)
    decreases |events|
  {
    hide Step, BareClose, Unacknowledging;
    if events == [] {
      AckStart(w);
    } else {
      var before, e := events[..|events| - 1], events[|events| - 1];
      assert before + [e] == events;
      AlwaysAcknowledging(w, before);
      BareMore(w, before, e);
      AckStep(Run(w, before), e);
    }
  }

  lemma AckStart(w: World)
    requires RingsOk(w.c) && Start(w)
    ensures !Unacknowledging(w.c.sent) && !BareClose(w, [])
  {
  }

  /** Only a FIN takes a due acknowledgement along. */
  lemma DueArrive(w: World, s: Segment)
    requires RingsOk(w.c) && w.c.state.Established?
    ensures var c, d := w.c, Step(w, Arrive(s)).c;
            if s.fin && NextInOrder(c, s) then !d.shouldSendAck
            else
              && (c.shouldSendAck ==> d.shouldSendAck)
              && (NextInOrder(c, s) && 0 < |s.payload| < c.inSize - |c.incoming| ==>
                    d.incoming == c.incoming + s.payload && d.shouldSendAck)
  {
  }

  /** Once data has been taken its acknowledgement is due, and stays so until a segment has said it. */
  lemma DueUntilSent(w: World, e: Event)
    requires RingsOk(w.c) && w.c.state.Established? && w.c.shouldSendAck && !Step(w, e).c.shouldSendAck
    ensures var c, d := w.c, Step(w, e).c;
            c.sent <= d.sent && exists f :: f in News(c, d) && f.ack && c.rcvNxt <= f.ackNum
  {
    hide Step;
    var c, d := w.c, Step(w, e).c;
    if e.Arrive? {
      EstablishedExact(w, e.s);
      DueArrive(w, e.s);
      assert d.sent[|c.sent|] == News(c, d)[0];
    } else if e.CloseIt? {
      CloseEstablished(w);
      assert d.sent[|d.sent| - 1] == News(c, d)[|News(c, d)| - 1];
    } else {
      OthersExact(w, e);
      assert News(c, d)[0] in News(c, d);
    }
  }

  // The closing exchanges.

  /** This end first: FIN_WAIT_1, FIN_WAIT_2 with the ACK, and gone with the peer's FIN, which is acknowledged. */
  lemma OursFirst(w: World, a: Segment, b: Segment)
    requires RingsOk(w.c) && w.c.state.Established? && a.ack && !a.fin && b.fin
    requires var v1 := Step(w, CloseIt); NextInOrder(v1.c, a) && NextInOrder(Step(v1, Arrive(a)).c, b)
    ensures
      var v1 := Step(w, CloseIt);
      var v2 := Step(v1, Arrive(a));
      var v3 := Step(v2, Arrive(b));
      && v1.c.state.FinWait1? && v2.c.state.FinWait2? && v3.c.state.Closed?
      && v2.c.sent == v1.c.sent && Answers(v2.c, v3.c, false, b.seqNum + Flags(b))
  {
    hide Step, Answers;
    CloseEstablished(w);
    FinWait1Exact(Step(w, CloseIt), a);
    FinWait2Exact(Step(Step(w, CloseIt), Arrive(a)), b);
  }

  /** This end first, FIN and ACK of the peer in one segment: TIME_WAIT, and gone with the next flush. */
  lemma OursFirstAtOnce(w: World, a: Segment)
    requires RingsOk(w.c) && w.c.state.Established? && a.ack && a.fin && NextInOrder(Step(w, CloseIt).c, a)
    ensures
      var v1 := Step(w, CloseIt);
      var v2 := Step(v1, Arrive(a));
      && v1.c.state.FinWait1? && v2.c.state.TimeWait? && Step(v2, Flush).c.state.Closed?
      && Answers(v1.c, v2.c, false, a.seqNum + Flags(a))
  {
    hide Step, Answers;
    CloseEstablished(w);
    FinWait1Exact(Step(w, CloseIt), a);
    OthersExact(Step(Step(w, CloseIt), Arrive(a)), Flush);
  }

  /** The peer first: CLOSE_WAIT with its FIN acknowledged, and gone with our close, which sends one FIN. LAST_ACK
      is never waited in. */
  lemma PeerFirst(w: World, a: Segment)
    requires RingsOk(w.c) && w.c.state.Established? && a.fin && NextInOrder(w.c, a)
    ensures
      var v1 := Step(w, Arrive(a));
      var v2 := Step(v1, CloseIt);
      && v1.c.state.CloseWait? && v2.c.state.Closed?
      && Answers(w.c, v1.c, false, a.seqNum + Flags(a))
      && |v2.c.sent| == |v1.c.sent| + 1 && IsFin(v2.c.sent[|v1.c.sent|], w.c.sndNxt, false, v1.c.rcvNxt)
  {
    hide Step, Answers;
    EstablishedExact(w, a);
    CloseOthers(Step(w, Arrive(a)));
  }

  /** Data on a FIN is not taken, not even in ESTABLISHED: the answer acknowledges the whole segment if and only if
      it carries none. */
  lemma FinDataExact(w: World, s: Segment)
    requires RingsOk(w.c) && w.c.state.Established? && s.fin && NextInOrder(w.c, s)
    ensures
      var c, d := w.c, Step(w, Arrive(s)).c;
      && d.incoming == c.incoming && Ended(d.state)
      && (Answers(c, d, false, s.seqNum + |s.payload| + Flags(s)) <==> s.payload == [])
  {
    EstablishedExact(w, s);
  }

  /** FINs that cross lead to CLOSING, and from there nowhere: section 3.10.7.4 of RFC 9293 goes on to TIME_WAIT
      with the ACK of our FIN. */
  lemma {:induction false} ClosingForever(w: World, events: seq<Event>)
    requires RingsOk(w.c) && w.c.state.Closing?
    ensures Run(w, events).c.state.Closing?
    decreases |events|
  {
    hide Step;
    if events != [] {
      var before, e := events[..|events| - 1], events[|events| - 1];
      ClosingForever(w, before);
      var v := Run(w, before);
      if e.Arrive? { QuietExact(v, e.s); } else if e.CloseIt? { CloseQuiet(v); } else { OthersExact(v, e); }
    }
  }

  /** An ACK in FIN_WAIT_1 acknowledges our FIN if and only if it acknowledges everything sent; the state is left
      either way. */
  lemma FinAcknowledgedExact(w: World, s: Segment)
    requires RingsOk(w.c) && w.c.state.FinWait1? && s.ack && NextInOrder(w.c, s)
    ensures
      var c, d := w.c, Step(w, Arrive(s)).c;
      && (d.state.FinWait2? || d.state.TimeWait?) && d.sndNxt == c.sndNxt
      && (d.sndUna == d.sndNxt <==> s.ackNum == c.sndNxt)
  {
    hide Step;
    FinWait1Exact(w, s);
    HeaderExact(w, s);
  }

  /** The same for our SYN: ESTABLISHED is entered whether it is acknowledged or not. */
  lemma SynAcknowledgedExact(w: World, s: Segment)
    requires RingsOk(w.c) && (w.c.state.SynReceived? || w.c.state.SynSent?) && s.ack && NextInOrder(w.c, s)
    requires w.c.state.SynSent? ==> s.syn
    ensures
      var c, d := w.c, Step(w, Arrive(s)).c;
      d.state.Established? && d.sndNxt == c.sndNxt && (d.sndUna == d.sndNxt <==> s.ackNum == c.sndNxt)
  {
    hide Step;
    if w.c.state.SynSent? { SynSentExact(w, s); } else { SynReceivedExact(w, s); }
    HeaderExact(w, s);
  }

  // Runs from the start in which these fail.

  /** A SYN, and an ACK of nothing: ESTABLISHED with our SYN not acknowledged. */
  lemma UnacknowledgedSyn(irs: nat)
    ensures
      var w := World(Passive(false, false), []);
      var syn, ack := Segment(irs, 0, true, false, false, 1000, []), Segment(irs + 1, 0, false, true, false, 1000, []);
      && RingsOk(w.c) && Start(w)
      && var c := Run(w, [Arrive(syn), Arrive(ack)]).c;
         c.state.Established? && c.sndUna == 0 && c.sndNxt == 1
  {
    hide Step;
    var w := World(Passive(false, false), []);
    var syn, ack := Segment(irs, 0, true, false, false, 1000, []), Segment(irs + 1, 0, false, true, false, 1000, []);
    PassiveSyn(irs);
    RunTwo(w, Arrive(syn), Arrive(ack));
    SynAcknowledgedExact(Step(w, Arrive(syn)), ack);
    HeaderExact(Step(w, Arrive(syn)), ack);
  }

  lemma PassiveSyn(irs: nat)
    ensures
      var w, syn := World(Passive(false, false), []), Segment(irs, 0, true, false, false, 1000, []);
      && RingsOk(w.c) && Start(w)
      && var c := Step(w, Arrive(syn)).c;
         c.state.SynReceived? && c.sndUna == 0 && c.sndNxt == 1 && c.sndMax == 1 && c.rcvNxt == irs + 1
  {
  }

  lemma RunTwo(w: World, a: Event, b: Event)
    requires RingsOk(w.c)
    ensures Run(w, [a, b]) == Step(Step(w, a), b)
  {
    hide Step;
    RunSnoc(w, [], a);
    RunSnoc(w, [a], b);
    assert [] + [a] == [a] && [a] + [b] == [a, b];
  }

  /** A connection opened and closed, and an ACK that was on its way before our FIN: FIN_WAIT_2 with the FIN not
      acknowledged, and with the next flush the connection is gone. */
  lemma UnacknowledgedFin(irs: nat)
    ensures
      var w := World(Active(false), []);
      var syn, ack := Segment(irs, 1, true, true, false, 1000, []), Segment(irs + 1, 1, false, true, false, 1000, []);
      && RingsOk(w.c) && Start(w)
      && var v := Step(Run(w, [Arrive(syn), CloseIt]), Arrive(ack));
         v.c.state.FinWait2? && v.c.sndUna == 1 && v.c.sndNxt == 2 && Step(v, Flush).c.state.Closed?
  {
    hide Step;
    var w := World(Active(false), []);
    var syn, ack := Segment(irs, 1, true, true, false, 1000, []), Segment(irs + 1, 1, false, true, false, 1000, []);
    ActiveOpened(irs);
    RunTwo(w, Arrive(syn), CloseIt);
    var v := Step(Step(w, Arrive(syn)), CloseIt);
    CloseEstablished(Step(w, Arrive(syn)));
    FinWait1Exact(v, ack);
    HeaderExact(v, ack);
    OthersExact(Step(v, Arrive(ack)), Flush);
  }

  lemma ActiveOpened(irs: nat)
    ensures
      var w, syn := World(Active(false), []), Segment(irs, 1, true, true, false, 1000, []);
      && RingsOk(w.c) && Start(w)
      && var c := Step(w, Arrive(syn)).c;
         && c.state.Established? && c.outgoing == [] && c.sndUna == 1 && c.sndNxt == 1 && c.sndMax == 1
         && c.rcvNxt == irs + 1
         && var d := Step(Step(w, Arrive(syn)), CloseIt).c;
            d.sndUna == 1 && d.sndMax == 2 && d.rcvNxt == irs + 1
  {
  }

  /** A connection opened, closed by the peer and then by this end: its FIN acknowledges nothing. */
  lemma UnacknowledgingFin(irs: nat)
    ensures
      var w := World(Active(false), []);
      var syn, fin := Segment(irs, 1, true, true, false, 1000, []), Segment(irs + 1, 1, false, true, true, 1000, []);
      RingsOk(w.c) && Start(w) && Unacknowledging(Run(w, [Arrive(syn), Arrive(fin), CloseIt]).c.sent)
  {
    hide Step, Unacknowledging;
    var w := World(Active(false), []);
    var syn, fin := Segment(irs, 1, true, true, false, 1000, []), Segment(irs + 1, 1, false, true, true, 1000, []);
    var events := [Arrive(syn), Arrive(fin), CloseIt];
    ActiveOpened(irs);
    RunTwo(w, Arrive(syn), Arrive(fin));
    EstablishedExact(Step(w, Arrive(syn)), fin);
    assert events[..2] == [Arrive(syn), Arrive(fin)] && events[2].CloseIt?;
    assert Bare(Run(w, events[..2]).c.state);
    AlwaysAcknowledging(w, events);
  }
}
