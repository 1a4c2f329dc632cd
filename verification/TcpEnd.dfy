/** What becomes of accepted bytes when a TCP connection leaves ESTABLISHED. */
module TcpEnd {
  import opened Bytes
  import opened Tcp
  import opened TcpReceive
  import opened TcpSend

  /** tcp_close sends what the window allows and drops the rest of the ring: all that was accepted is on the
      wire if and only if the window holds the ring. */
  lemma CloseExact(c: Conn)
    requires Ready(c)
    ensures
      var d, n := Close(c), Min(Left(c), |c.outgoing|);
      && 0 <= n && Payloads(d.sent) == Payloads(c.sent) + c.outgoing[..n] && Numbered(d.sent) && Ended(d.state)
      && (Payloads(d.sent) == Stream(c) <==> |c.outgoing| <= Left(c))
  {
    hide Numbered, Payloads, SyncBuffer, SendEmpty;
    var n, d := Min(Left(c), |c.outgoing|), SyncBuffer(c).1;
    SyncKeeps(c);
    if c.outgoing != [] { SyncExact(c); } else { EmptySync(c); }
    SendEmptySends(Strip(d).(state := FinWait1), false, true, true);
    assert Close(c) == SendEmpty(Strip(d).(state := FinWait1), false, true, true);
    ClosedState(c);
    if n == |c.outgoing| { assert c.outgoing[..n] == c.outgoing; }
  }

  lemma EmptySync(c: Conn)
    requires c.outgoing == []
    ensures SyncBuffer(c).1 == c && Payloads(c.sent) + c.outgoing == Payloads(c.sent)
  {
  }

  lemma ClosedState(c: Conn)
    requires RingsOk(c) && c.state.Established?
    ensures Close(c).state.FinWait1?
  {
    SyncKeeps(c);
  }

  /** The peer's FIN: the connection leaves ESTABLISHED with its ring as it is. */
  lemma FinTaken(c: Conn, s: Segment)
    requires Ready(c) && Accepts(c, s) && s.fin
    ensures var d := Receive(c, s); Payloads(d.sent) == Payloads(c.sent) && Numbered(d.sent) && Ended(d.state)
  {
    hide Numbered, Payloads;
    SendEmptySends(TakeHeader(c, s).(state := CloseWait), false, true, false);
  }

  /** No event after that puts data on the wire. */
  lemma EndedStep(w: World, e: Event)
    requires RingsOk(w.c) && Ended(w.c.state) && Numbered(w.c.sent)
    ensures var c := Step(w, e).c; Ended(c.state) && Numbered(c.sent) && Payloads(c.sent) == Payloads(w.c.sent)
  {
    hide Numbered, Payloads, SendEmpty, Dispatch;
    NothingAfterEstablished(w, e);
    match e {
      case Arrive(s) => EndedLog(TakeHeader(w.c, s), s);
      case FlushAck => SendEmptySends(w.c.(shouldSendAck := false), false, true, false);
      case CloseIt => SendEmptySends(w.c.(state := LastAck), false, false, true);
      case _ =>
    }
  }

  lemma {:induction false} SentEver(w: World, events: seq<Event>, more: seq<Event>)
    requires RingsOk(w.c) && Ended(Run(w, events).c.state) && Numbered(Run(w, events).c.sent)
    ensures
      var c := Run(w, events + more).c;
      Ended(c.state) && Numbered(c.sent) && Payloads(c.sent) == Payloads(Run(w, events).c.sent)
    decreases |more|
  {
    hide Run, Step, Numbered, Payloads;
    if more == [] {
      assert events + more == events;
    } else {
      var init, e := more[..|more| - 1], more[|more| - 1];
      SentEver(w, events, init);
      RunSnoc(w, events + init, e);
      assert events + more == events + init + [e];
      EndedStep(Run(w, events + init), e);
    }
  }

  /** The only ways out of ESTABLISHED. */
  lemma LeavesBy(w: World, e: Event)
    requires RingsOk(w.c) && w.c.state.Established? && !Step(w, e).c.state.Established?
    ensures e.CloseIt? || (e.Arrive? && Accepts(w.c, e.s) && e.s.fin)
  {
    match e {
      case WriteSome(data) => WriteKeeps(w.c, data);
      case Flush => SyncKeeps(w.c);
      case _ =>
    }
  }

  /** Over every careful run, all bytes accepted before the connection left ESTABLISHED are on the wire in the
      end, however long one waits, if and only if the ring was empty then; or, at a close, the window held it. */
  lemma LeavingExact(w: World, events: seq<Event>, e: Event, more: seq<Event>)
    requires RingsOk(w.c) && Start(w) && CarefulRun(w, events)
    requires Run(w, events).c.state.Established? && !Step(Run(w, events), e).c.state.Established?
    ensures
      var c := Run(w, events).c;
      Payloads(Run(w, events + [e] + more).c.sent) == Accepted(w, events)
      <==> |c.outgoing| <= if e.CloseIt? then Left(c) else 0
  {
    hide Run, Accepted, CarefulRun, Payloads, Numbered, Receive, Close, SyncBuffer;
    var c := Run(w, events).c;
    SendSafety(w, events);
    LeavesBy(Run(w, events), e);
    RunSnoc(w, events, e);
    if e.CloseIt? { CloseExact(c); } else { FinTaken(c, e.s); }
    SentEver(w, events + [e], more);
    if c.outgoing == [] { assert Stream(c) == Payloads(c.sent); }
  }
}
