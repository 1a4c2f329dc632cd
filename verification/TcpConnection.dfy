/** struct TcpConnection and the code that updates it: kernel/network/tcp.c and kernel/socket.c. */
module TcpConnections {
  import opened Bytes
  import opened RingBuffers
  import opened Tcp

  const IPPROTO_TCP := 0
  const TCP_NODELAY := 0
  const SIZEOF_INT := 4

  datatype OptionResult = OptionSet | InvalidLength | BadPointer | NoSuchOption

  class TcpConnection {
    var state: State
    var sndUna: nat
    var sndNxt: nat
    var sndMax: nat
    var sndWnd: nat
    var rcvNxt: nat
    var noDelay: bool
    var shouldSendAck: bool
    var incoming: RingBuffer
    var outgoing: RingBuffer
    /** What has been handed to the network layer. */
    ghost var sent: seq<Segment>

    ghost predicate RingsValid()
      reads this, incoming, outgoing
    {
      && incoming != outgoing && incoming.buffer != outgoing.buffer
      && incoming.Valid() && outgoing.Valid()
      && incoming.buffer.Length < U32_END && outgoing.buffer.Length < U32_END
    }

    /** The connection as the value the protocol functions work on. */
    ghost function View(): (c: Conn)
      requires RingsValid()
      reads this, incoming, outgoing, incoming.buffer, outgoing.buffer
    {
      Conn(state, sndUna, sndNxt, sndMax, sndWnd, rcvNxt,
           incoming.Contents(), incoming.buffer.Length, outgoing.Contents(), outgoing.buffer.Length,
           noDelay, shouldSendAck, sent)
    }

    ghost predicate Valid()
      reads this, incoming, outgoing, incoming.buffer, outgoing.buffer
    {
      RingsValid() && RingsOk(View())
    }

    ghost function Footprint(): set<object>
      reads this, incoming, outgoing
    {
      {this, incoming, outgoing, incoming.buffer, outgoing.buffer}
    }

    /** tcp_connect_to_listen. */
    constructor Accepting(nd: bool, ack: bool)
      ensures Valid() && fresh(Footprint()) && View() == Passive(nd, ack)
    {
      state, noDelay, shouldSendAck := Listen, nd, ack;
      sndUna, sndNxt, sndMax, sndWnd, rcvNxt := 0, 0, 0, 0, 0;
      incoming := new RingBuffer(RCV_WND * 64);
      outgoing := new RingBuffer(8192);
      sent := [];
    }

    /** tcp_connect, up to the SYN. */
    constructor Connecting(nd: bool)
      ensures Valid() && fresh(Footprint()) && View() == Active(nd)
    {
      hide SendEmpty;
      state, noDelay, shouldSendAck := SynSent, nd, false;
      sndUna, sndNxt, sndMax, rcvNxt := 0, 0, 0, 0;
      incoming := new RingBuffer(RCV_WND * 64);
      outgoing := new RingBuffer(8192);
      sent := [];
      sndWnd := 8191;
      new;
      SendEmptyPayload(true, false, false);
    }

    /** tcp_send_empty_payload. */
    method SendEmptyPayload(syn: bool, ack: bool, fin: bool)
      requires RingsValid()
      modifies `sndNxt, `sndMax, `shouldSendAck, `sent
      ensures RingsValid() && View() == SendEmpty(old(View()), syn, ack, fin)
    {
      sent := sent + [Segment(sndNxt, if ack then rcvNxt else 0, syn, ack, fin, RCV_WND, [])];
      if ack { shouldSendAck := false; }
      sndNxt := sndNxt + if syn then 1 else 0;
      sndNxt := sndNxt + if fin then 1 else 0;
      sndMax := Max(sndNxt, sndMax);
    }

    /** tcp_strip_connection; also what tcp_remove_connection does to the rings. */
    method StripConnection()
      requires RingsValid()
      modifies incoming, outgoing
      ensures RingsValid() && View() == Strip(old(View()))
      ensures fresh(incoming.buffer) && fresh(outgoing.buffer)
    {
      incoming.Free();
      outgoing.Free();
    }

    /** tcp_destroy_connection. */
    method DestroyConnection()
      requires RingsValid()
      modifies `state, incoming, outgoing
      ensures RingsValid() && View() == Destroy(old(View()))
      ensures fresh(incoming.buffer) && fresh(outgoing.buffer)
    {
      state := Closed;
      StripConnection();
    }

    /** The ESTABLISHED case of handle_tcp. */
    method TakePayload(payload: seq<byte>)
      requires Valid() && state == Established
      modifies `rcvNxt, `shouldSendAck, incoming`writePtr, incoming.buffer
      ensures Valid()
      ensures View() == if 0 < |payload| <= Room(old(View()).inSize, |old(View()).incoming|)
                        then old(View()).(incoming := old(View()).incoming + payload,
                                          rcvNxt := old(rcvNxt) + |payload|, shouldSendAck := true)
                        else old(View())
    {
      if |payload| > 0 {
        if |payload| > incoming.Unused() { return; }
        var rc := incoming.Write(payload);
        assert payload[..rc] == payload;
        rcvNxt := rcvNxt + rc;
        shouldSendAck := true;
      }
    }

    /** The states of the handshake in handle_tcp. */
    method DispatchOpening(s: Segment)
      requires Valid() && (Opening(state) || state.SynReceived?)
      modifies `state, `sndNxt, `sndMax, `shouldSendAck, `sent
      ensures Valid() && View() == Dispatch(old(View()), s)
    {
      match state {
        case Listen =>
          if s.syn {
            state := SynReceived;
            SendEmptyPayload(true, true, false);
          }
        case SynReceived =>
          if s.ack { state := Established; }
        case SynSent =>
          if s.ack && s.syn {
            state := Established;
            SendEmptyPayload(false, true, false);
          }
      }
    }

    /** The FIN_WAIT1 case of handle_tcp. */
    method DispatchFinWait1(s: Segment)
      requires Valid() && state.FinWait1?
      modifies `state, `sndNxt, `sndMax, `shouldSendAck, `sent
      ensures Valid() && View() == Dispatch(old(View()), s)
    {
      hide SendEmpty;
      if s.ack && s.fin {
        state := TimeWait;
        SendEmptyPayload(false, true, false);
      } else if s.ack {
        state := FinWait2;
      } else if s.fin {
        state := Closing;
        SendEmptyPayload(false, true, false);
      }
    }

    /** The cases of handle_tcp that can end the connection. */
    method DispatchLast(s: Segment)
      requires Valid() && (state.FinWait2? || state.LastAck?)
      modifies `state, `sndNxt, `sndMax, `shouldSendAck, `sent, incoming, outgoing
      ensures Valid() && View() == Dispatch(old(View()), s)
    {
      if state == LastAck {
        if s.ack { DestroyConnection(); }
      } else if s.fin {
        state := Closed;
        SendEmptyPayload(false, true, false);
        DestroyConnection();
      }
    }

    /** The switch of handle_tcp. */
    method DispatchSegment(s: Segment)
      requires Valid()
      modifies this, incoming, outgoing, incoming.buffer
      ensures Valid() && View() == Dispatch(old(View()), s)
      ensures incoming == old(incoming) && outgoing == old(outgoing)
    {
      match state {
        case Listen => DispatchOpening(s);
        case SynReceived => DispatchOpening(s);
        case SynSent => DispatchOpening(s);
        case Established =>
          if s.fin {
            state := CloseWait;
            SendEmptyPayload(false, true, false);
          } else {
            TakePayload(s.payload);
          }
        case FinWait1 => DispatchFinWait1(s);
        case LastAck => DispatchLast(s);
        case FinWait2 => DispatchLast(s);
        case _ =>
      }
    }

    /** Window, acknowledgement and the numbers of SYN and FIN, before the switch of handle_tcp. */
    method UpdateFromHeader(s: Segment)
      requires Valid()
      modifies `sndWnd, `sndUna, `rcvNxt
      ensures Valid() && View() == TakeHeader(old(View()), s)
    {
      sndWnd := s.window;
      sndUna := s.ackNum;
      rcvNxt := rcvNxt + if s.fin then 1 else 0;
      rcvNxt := rcvNxt + if s.syn then 1 else 0;
    }

    /** handle_tcp, for a segment whose checksum is right and whose connection this is. */
    method HandleTcp(s: Segment)
      requires Valid()
      modifies this, incoming, outgoing, incoming.buffer
      ensures Valid() && View() == Receive(old(View()), s)
      ensures incoming == old(incoming) && outgoing == old(outgoing)
    {
      if state == Listen || state == SynSent { rcvNxt := s.seqNum; }
      if s.ackNum > sndMax { return; }
      if s.ackNum < sndUna { return; }
      if rcvNxt != s.seqNum { return; }
      assert View() == Adopt(old(View()), s);
      UpdateFromHeader(s);
      DispatchSegment(s);
    }

    /** tcp_can_send. */
    function TcpCanSend(): (n: nat)
      requires RingsValid()
      reads this, incoming, outgoing, incoming.buffer, outgoing.buffer
      ensures n < U16_END && (state == Closed ==> n == 0)
      ensures state != Closed ==> (sndUna + sndWnd - sndMax - n) % U16_END == 0
      ensures state != Closed && 0 <= sndUna + sndWnd - sndMax < U16_END ==> n == sndUna + sndWnd - sndMax
      ensures state != Closed && -U16_END < sndUna + sndWnd - sndMax < 0 ==> n == U16_END - (sndMax - sndUna - sndWnd)
    {
      if state == Closed then 0 else (sndUna + sndWnd - sndMax) % U16_END
    }

    lemma CanSendOfView()
      requires RingsValid()
      ensures TcpCanSend() == CanSend(View())
    {
    }

    /** send_tcp_packet. */
    method SendTcpPacket(payload: seq<byte>) returns (ok: bool)
      requires RingsValid()
      modifies `sndNxt, `sndMax, `shouldSendAck, `sent
      ensures RingsValid() && (ok, View()) == SendPacket(old(View()), payload)
      decreases |payload|
    {
      hide TcpConnection.TcpCanSend, CanSend;
      CanSendOfView();
      if TcpCanSend() == 0 { return false; }
      var len := Min(1000, |payload|);
      if |payload| > len {
        ok := SendTcpPacket(payload[..len]);
        if !ok { return false; }
        ok := SendTcpPacket(payload[len..]);
        return ok;
      }
      sent := sent + [Segment(sndNxt, rcvNxt, false, true, false, RCV_WND, payload)];
      shouldSendAck := false;
      sndNxt := sndNxt + |payload|;
      sndMax := Max(sndNxt, sndMax);
      return true;
    }

    /** tcp_sync_buffer. */
    method TcpSyncBuffer() returns (all: bool)
      requires RingsValid()
      modifies `sndNxt, `sndMax, `shouldSendAck, `sent, outgoing`readPtr
      ensures RingsValid() && (all, View()) == SyncBuffer(old(View()))
    {
      hide TcpConnection.TcpCanSend, CanSend;
      CanSendOfView();
      if state == Closed { return false; }
      var used := outgoing.Used();
      if used == 0 { return false; }
      var len := Min(TcpCanSend(), used);
      ghost var ring := outgoing.Contents();
      var buffer := outgoing.Read(len);
      CutAt(buffer, outgoing.Contents(), ring[..len], ring[len..]);
      var ok := SendTcpPacket(buffer);
      return len >= used;
    }

    /** tcp_write. */
    method TcpWrite(data: seq<byte>) returns (r: Count)
      requires Valid()
      modifies `sndNxt, `sndMax, `shouldSendAck, `sent, outgoing`readPtr, outgoing`writePtr, outgoing.buffer
      ensures RingsValid() && (r, View()) == Write(old(View()), data)
    {
      hide TcpConnection.TcpCanSend, CanSend;
      CanSendOfView();
      if state != Established { return NotConnected; }
      var canSend := TcpCanSend();
      if !(if noDelay then canSend != 0 else outgoing.Unused() > 0 || canSend != 0) { return WouldBlock; }
      var len := Min(|data|, canSend);
      if len == 0 { return WouldBlock; }
      if noDelay {
        var ok := SendTcpPacket(data[..len]);
        return if ok then Count.Bytes(len) else WouldBlock;
      }
      if outgoing.Unused() < len {
        var all := TcpSyncBuffer();
        if !all { return Count.Bytes(0); }
        var ok := SendTcpPacket(data[..len]);
        return if ok then Count.Bytes(len) else WouldBlock;
      }
      outgoing.WriteWhole(data[..len]);
      return Count.Bytes(len);
    }

    /** setsockopt on the connection; `readable` says whether the option's value is the caller's memory. It does
        not look at the ring, which may hold bytes of earlier writes. */
    method Setsockopt(level: int, option: int, length: nat, readable: bool, value: int) returns (r: OptionResult)
      requires Valid()
      modifies `noDelay
      ensures r == if level != IPPROTO_TCP || option != TCP_NODELAY then NoSuchOption
                   else if length != SIZEOF_INT then InvalidLength
                   else if !readable then BadPointer else OptionSet
      ensures Valid() && View() == if r == OptionSet then old(View()).(noDelay := value != 0) else old(View())
    {
      if level == IPPROTO_TCP {
        if option != TCP_NODELAY { return NoSuchOption; }
        if length != SIZEOF_INT { return InvalidLength; }
        if !readable { return BadPointer; }
        noDelay := value != 0;
        return OptionSet;
      }
      return NoSuchOption;
    }

    /** tcp_read: the bytes copied out, or the reason there are none. */
    method TcpRead(len: nat) returns (out: seq<byte>, r: Count)
      requires Valid()
      modifies incoming`readPtr
      ensures Valid() && (out, View()) == Read(old(View()), len)
      ensures r == if out == [] && len > 0 then (if state == Established then WouldBlock else NotConnected)
                   else Count.Bytes(|out|)
    {
      ghost var ring := incoming.Contents();
      out := incoming.Read(len);
      CutAt(out, incoming.Contents(), ring[..|out|], ring[|out|..]);
      if |out| == 0 && len > 0 {
        return out, if state != Established then NotConnected else WouldBlock;
      }
      return out, Count.Bytes(|out|);
    }

    /** tcp_close_connection. */
    method TcpCloseConnection()
      requires RingsValid()
      modifies `state, `sndNxt, `sndMax, `shouldSendAck, `sent, incoming, outgoing
      ensures RingsValid() && View() == CloseConnection(old(View()))
    {
      match state {
        case CloseWait =>
          state := LastAck;
          SendEmptyPayload(false, false, true);
          DestroyConnection();
        case Established =>
          state := FinWait1;
          SendEmptyPayload(false, true, true);
        case SynReceived =>
          state := FinWait1;
          SendEmptyPayload(false, false, true);
        case SynSent =>
          DestroyConnection();
        case _ =>
      }
    }

    /** tcp_close. */
    method TcpClose()
      requires RingsValid()
      modifies `state, `sndNxt, `sndMax, `shouldSendAck, `sent, incoming, outgoing
      ensures RingsValid() && View() == Close(old(View()))
    {
      if state == Closed { return; }
      if state == Established {
        var all := TcpSyncBuffer();
        StripConnection();
      }
      TcpCloseConnection();
    }

    /** The body of the loops of tcp_flush_buffers and tcp_flush_acks for this connection. */
    method TcpFlushBuffers()
      requires RingsValid()
      modifies `state, `sndNxt, `sndMax, `shouldSendAck, `sent, incoming, outgoing
      ensures RingsValid() && View() == FlushBuffers(old(View()))
    {
      if state == TimeWait || state == FinWait2 {
        DestroyConnection();
      } else if state == Established {
        var all := TcpSyncBuffer();
      }
    }

    method TcpFlushAcks()
      requires RingsValid()
      modifies `sndNxt, `sndMax, `shouldSendAck, `sent
      ensures RingsValid() && View() == FlushAcks(old(View()))
    {
      if state == Closed || !shouldSendAck { return; }
      shouldSendAck := false;
      SendEmptyPayload(false, true, false);
    }
  }
}
