/** One TCP endpoint: kernel/network/tcp.c and the TCP part of kernel/socket.c as functions of the
    connection's fields. The class in TcpConnection.dfy is the code; it is proved equal to these. */
module Tcp {
  import opened Bytes

  datatype State = Closed | Listen | SynSent | SynReceived | Established | CloseWait
                 | FinWait1 | Closing | LastAck | FinWait2 | TimeWait

  datatype Segment = Segment(seqNum: nat, ackNum: nat, syn: bool, ack: bool, fin: bool, window: nat, payload: seq<byte>)

  const RCV_WND: nat := 65535
  const IN_SIZE: nat := RCV_WND * 64
  const OUT_SIZE: nat := 8192
  const MAX_PAYLOAD: nat := 1000

  /** The fields of struct TcpConnection the protocol reads; `sent` is what went to the network. */
  datatype Conn = Conn(
    state: State,
    sndUna: nat, sndNxt: nat, sndMax: nat, sndWnd: nat,
    rcvNxt: nat,
    incoming: seq<byte>, inSize: nat,
    outgoing: seq<byte>, outSize: nat,
    noDelay: bool, shouldSendAck: bool,
    sent: seq<Segment>)

  /** ringbuffer_unused of a ring of `size` bytes holding `used`. */
  function Room(size: nat, used: nat): nat
    requires size == 0 || used < size
  {
    if size == 0 then U32_END - 1 else size - 1 - used
  }

  predicate Opening(s: State) {
    s.Listen? || s.SynSent?
  }

  predicate RingsOk(c: Conn) {
    && |c.incoming| <= (if c.inSize == 0 then 0 else c.inSize - 1)
    && |c.outgoing| <= (if c.outSize == 0 then 0 else c.outSize - 1)
    && (Opening(c.state) || c.state.SynReceived? || c.state.Established? ==> c.inSize > 0 && c.outSize > 0)
  }

  /** tcp_send_empty_payload. */
  function SendEmpty(c: Conn, syn: bool, ack: bool, fin: bool): Conn {
    var s := Segment(c.sndNxt, if ack then c.rcvNxt else 0, syn, ack, fin, RCV_WND, []);
    var nxt := c.sndNxt + (if syn then 1 else 0) + (if fin then 1 else 0);
    c.(shouldSendAck := c.shouldSendAck && !ack, sndNxt := nxt, sndMax := Max(nxt, c.sndMax), sent := c.sent + [s])
  }

  /** ringbuffer_free of both rings. */
  function Strip(c: Conn): Conn {
    c.(incoming := [], inSize := 0, outgoing := [], outSize := 0)
  }

  /** tcp_destroy_connection. */
  function Destroy(c: Conn): Conn {
    Strip(c.(state := Closed))
  }

  /** The segment passes the three checks before anything but the initial rcv_nxt is touched. */
  predicate Accepts(c: Conn, s: Segment) {
    && c.sndUna <= s.ackNum <= c.sndMax
    && (Opening(c.state) || c.rcvNxt == s.seqNum)
  }

  /** rcv_nxt is overwritten by any segment before the handshake is under way. */
  function Adopt(c: Conn, s: Segment): Conn {
    if Opening(c.state) then c.(rcvNxt := s.seqNum) else c
  }

  /** Window, acknowledgement and the sequence numbers of SYN and FIN. */
  function TakeHeader(c: Conn, s: Segment): Conn {
    c.(sndWnd := s.window, sndUna := s.ackNum,
       rcvNxt := c.rcvNxt + (if s.fin then 1 else 0) + (if s.syn then 1 else 0))
  }

  /** The switch over the connection's state. */
  function Dispatch(c: Conn, s: Segment): Conn
    requires RingsOk(c)
  {
    match c.state
    case Listen => if s.syn then SendEmpty(c.(state := SynReceived), true, true, false) else c
    case SynReceived => if s.ack then c.(state := Established) else c
    case SynSent => if s.ack && s.syn then SendEmpty(c.(state := Established), false, true, false) else c
    case Established =>
      if s.fin then SendEmpty(c.(state := CloseWait), false, true, false)
      else if 0 < |s.payload| <= Room(c.inSize, |c.incoming|) then
        c.(incoming := c.incoming + s.payload, rcvNxt := c.rcvNxt + |s.payload|, shouldSendAck := true)
      else c
    case FinWait1 =>
      if s.ack && s.fin then SendEmpty(c.(state := TimeWait), false, true, false)
      else if s.ack then c.(state := FinWait2)
      else if s.fin then SendEmpty(c.(state := Closing), false, true, false)
      else c
    case LastAck => if s.ack then Destroy(c) else c
    case FinWait2 => if s.fin then Destroy(SendEmpty(c.(state := Closed), false, true, false)) else c
    case _ => c
  }

  /** handle_tcp on the connection the segment belongs to. */
  function Receive(c: Conn, s: Segment): Conn
    requires RingsOk(c)
  {
    if Accepts(c, s) then Dispatch(TakeHeader(Adopt(c, s), s), s) else Adopt(c, s)
  }

  /** tcp_can_send: a u16, so a negative difference wraps. */
  function CanSend(c: Conn): nat {
    if c.state.Closed? then 0 else (c.sndUna + c.sndWnd - c.sndMax) % U16_END
  }

  function SendOne(c: Conn, payload: seq<byte>): Conn {
    var s := Segment(c.sndNxt, c.rcvNxt, false, true, false, RCV_WND, payload);
    var nxt := c.sndNxt + |payload|;
    c.(shouldSendAck := false, sndNxt := nxt, sndMax := Max(nxt, c.sndMax), sent := c.sent + [s])
  }

  /** send_tcp_packet: false when the window closes, possibly after some of it went out. */
  function SendPacket(c: Conn, payload: seq<byte>): (bool, Conn)
    decreases |payload|
  {
    if CanSend(c) == 0 then (false, c)
    else if |payload| > MAX_PAYLOAD then
      var (ok, c') := SendPacket(c, payload[..MAX_PAYLOAD]);
      if ok then SendPacket(c', payload[MAX_PAYLOAD..]) else (false, c')
    else (true, SendOne(c, payload))
  }

  /** tcp_sync_buffer: true when the whole outgoing ring went out. */
  function SyncBuffer(c: Conn): (bool, Conn) {
    if c.state.Closed? || c.outgoing == [] then (false, c) else
    var len := Min(CanSend(c), |c.outgoing|);
    (len == |c.outgoing|, SendPacket(c.(outgoing := c.outgoing[len..]), c.outgoing[..len]).1)
  }

  datatype Count = Bytes(n: nat) | NotConnected | WouldBlock

  /** tcp_can_write. */
  predicate CanWrite(c: Conn)
    requires RingsOk(c)
  {
    c.state.Established? && (CanSend(c) != 0 || (!c.noDelay && Room(c.outSize, |c.outgoing|) > 0))
  }

  /** tcp_write. */
  function Write(c: Conn, data: seq<byte>): (Count, Conn)
    requires RingsOk(c)
  {
    if !c.state.Established? then (NotConnected, c)
    else if !CanWrite(c) then (WouldBlock, c)
    else
      var len := Min(|data|, CanSend(c));
      if len == 0 then (WouldBlock, c)
      else if c.noDelay then
        var (ok, c') := SendPacket(c, data[..len]);
        (if ok then Bytes(len) else WouldBlock, c')
      else if Room(c.outSize, |c.outgoing|) < len then
        var (all, c') := SyncBuffer(c);
        if !all then (Bytes(0), c')
        else
          var (ok, c'') := SendPacket(c', data[..len]);
          (if ok then Bytes(len) else WouldBlock, c'')
      else (Bytes(len), c.(outgoing := c.outgoing + data[..len]))
  }

  /** tcp_read: the bytes handed out and the connection without them. */
  function Read(c: Conn, len: nat): (seq<byte>, Conn) {
    var n := Min(len, |c.incoming|);
    (c.incoming[..n], c.(incoming := c.incoming[n..]))
  }

  /** tcp_close_connection. */
  function CloseConnection(c: Conn): Conn {
    match c.state
    case CloseWait => Destroy(SendEmpty(c.(state := LastAck), false, false, true))
    case Established => SendEmpty(c.(state := FinWait1), false, true, true)
    case SynReceived => SendEmpty(c.(state := FinWait1), false, false, true)
    case SynSent => Destroy(c)
    case _ => c
  }

  /** tcp_close. */
  function Close(c: Conn): Conn {
    if c.state.Established? then CloseConnection(Strip(SyncBuffer(c).1)) else CloseConnection(c)
  }

  /** One connection's turn in tcp_flush_buffers. */
  function FlushBuffers(c: Conn): Conn {
    match c.state
    case TimeWait => Destroy(c)
    case FinWait2 => Destroy(c)
    case Established => SyncBuffer(c).1
    case _ => c
  }

  /** One connection's turn in tcp_flush_acks. */
  function FlushAcks(c: Conn): Conn {
    if c.state.Closed? || !c.shouldSendAck then c else SendEmpty(c.(shouldSendAck := false), false, true, false)
  }

  /** What tcp_connect_to_listen creates for a SYN; it does not set should_send_ack. */
  function Passive(noDelay: bool, shouldSendAck: bool): Conn {
    Conn(Listen, 0, 0, 0, 0, 0, [], IN_SIZE, [], OUT_SIZE, noDelay, shouldSendAck, [])
  }

  /** The connection after tcp_connect has sent its SYN. */
  function Active(noDelay: bool): Conn {
    SendEmpty(Conn(SynSent, 0, 0, 0, OUT_SIZE - 1, 0, [], IN_SIZE, [], OUT_SIZE, noDelay, false, []), true, false,
        false)
  }
}
