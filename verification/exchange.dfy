/**
 * The master's point-to-point exchanges (master/src/pmlin-master.c:124-278):
 * `PMLIN_send_message`, `PMLIN_send_cmd_message`, `PMLIN_receive_message`.
 * Each one sends a break, writes a frame, reads back a fixed number of bytes
 * (its own echo plus whatever the slave appended) and classifies the result.
 */
module Exchange {
  import opened Protocol
  import opened Codes
  import opened Crc
  import opened Wrappers

  const BreakLen: nat := 1
  const CrcLen: nat := 1
  const AckLen: nat := 1

  /** The local buffer of send_message and receive_message: `1+HEADER_LEN+255+1`. */
  const FrameBufferSize: nat := 1 + HeaderLen + 255 + 1
  /** The local buffer of send_cmd_message, also the number of bytes it reads. */
  const CmdBufferSize: nat := BreakLen + HeaderLen + CmdMsgLen + CrcLen + CmdRespLen + CrcLen
  /** Offset of the slave's command response in what the master reads back. */
  const CmdRespOffset: nat := BreakLen + HeaderLen + CmdMsgLen + CrcLen

  /**
   * What the master puts on the line after the break: a whole frame
   * (send_message, send_cmd_message) or only a header and its CRC
   * (receive_message). `Wire` gives the bytes; it is injective, so a bus
   * that answers requests is as general as one that answers bytes.
   */
  datatype Request =
    | Message(msgType: u8, id: u8, payload: seq<byte>)
    | Poll(msgType: u8, id: u8)

  /** The header byte of a request: message type in the top three bits, id below. */
  function HeaderOf(q: Request): byte {
    MakeHeader(q.msgType as byte, q.id as byte)
  }

  function Wire(q: Request): (w: seq<byte>)
    ensures |w| >= 2 && w[0] == HeaderOf(q)
  {
    match q
    case Message(_, _, p) => Frame(HeaderOf(q), p)
    case Poll(_, _) => [HeaderOf(q), Crc8(CrcInit, HeaderOf(q))]
  }

  /**
   * The serial line as seen by the master. For the k-th exchange, given the
   * request written after the break and the number of bytes requested, it
   * yields the bytes the read callback delivered.
   */
  type Bus = (nat, Request, nat) -> seq<byte>

  /** One completed break/write/read cycle. */
  datatype Transfer = Transfer(request: Request, requested: nat, received: seq<byte>)

  /**
   * The registered transport: whether `PMLIN_initialize_master` ran, the
   * bus, and how many exchanges it has carried so far.
   */
  datatype Link = Link(initialized: bool, bus: Bus, count: nat)

  /** The bytes the next read delivers: the bus's answer, cut at the requested length. */
  function Delivered(link: Link, q: Request, requested: nat): (got: seq<byte>)
    ensures |got| <= requested
  {
    var reply := link.bus(link.count, q, requested);
    if |reply| <= requested then reply else reply[..requested]
  }

  /**
   * Break, write `q`, read at most `requested` bytes. The read callback
   * never returns more than requested (master/src/pmlin-master.h:182): the
   * buffer it fills has no room for more.
   */
  function Transact(link: Link, q: Request, requested: nat): (r: (Link, Transfer))
    ensures r.0 == link.(count := link.count + 1)
    ensures r.1 == Transfer(q, requested, Delivered(link, q, requested))
  {
    (link.(count := link.count + 1), Transfer(q, requested, Delivered(link, q, requested)))
  }

  function Zeros(n: nat): (z: seq<byte>)
    ensures |z| == n && forall i | 0 <= i < n :: z[i] == 0
  {
    seq(n, _ => 0)
  }

  /**
   * The local buffer after the read: the first bytes are what was received,
   * the rest keeps what the buffer held before. Bytes the C code never
   * initialised are modelled as zero.
   */
  function Overlay(before: seq<byte>, got: seq<byte>): (buf: seq<byte>)
    requires |got| <= |before|
    ensures |buf| == |before|
    ensures forall i | 0 <= i < |got| :: buf[i] == got[i]
    ensures forall i | |got| <= i < |before| :: buf[i] == before[i]
  {
    got + before[|got|..]
  }

  /** Wire frame after the break: header, header CRC, payload, payload CRC. */
  function Frame(header: byte, payload: seq<byte>): (f: seq<byte>)
    ensures |f| == |payload| + 3
    ensures f[0] == header && f[2..|payload| + 2] == payload
  {
    [header, Crc8(CrcInit, header)] + payload + [Fold(CrcInit, payload)]
  }

  /** The frame assembly loop of send_message / send_cmd_message. */
  method EncodeFrame(header: byte, payload: seq<byte>) returns (buf: seq<byte>)
    ensures |buf| == |payload| + 3
    ensures DecodeFrame(buf) == Some(FrameContent(SplitHeader(header), payload))
  {
    buf := [header, Crc8(CrcInit, header)];
    var crc := CrcInit;
    var j := 0;
    while j < |payload|
      invariant 0 <= j <= |payload|
      invariant buf == [header, Crc8(CrcInit, header)] + payload[..j]
      invariant crc == Fold(CrcInit, payload[..j])
    {
      var b := payload[j];
      FoldSnoc(CrcInit, payload[..j], b);
      assert payload[..j + 1] == payload[..j] + [b];
      crc := Crc8(crc, b);
      buf := buf + [b];
      j := j + 1;
    }
    assert payload[..j] == payload;
    buf := buf + [crc];
    assert buf == Frame(header, payload);
    DecodeEncode(header, payload);
  }

  /** What a receiver recovers from a frame. */
  datatype FrameContent = FrameContent(header: Header, payload: seq<byte>)

  /**
   * The receiver's view of a frame, as the slave checks it: the header
   * and its CRC must fold to zero, and so must payload and trailer.
   */
  function DecodeFrame(bytes: seq<byte>): (r: Option<FrameContent>)
    ensures r.Some? ==> |bytes| >= 3 && |r.value.payload| == |bytes| - 3
  {
    if |bytes| < 3 then None
    else if Fold(CrcInit, bytes[..2]) != 0 then None
    else if Fold(CrcInit, bytes[2..]) != 0 then None
    else Some(FrameContent(SplitHeader(bytes[0]), bytes[2..|bytes| - 1]))
  }

  /** Decoding an encoded frame gives back its header and payload. */
  lemma DecodeEncode(header: byte, payload: seq<byte>)
    ensures DecodeFrame(Frame(header, payload)) == Some(FrameContent(SplitHeader(header), payload))
  {
    var f := Frame(header, payload);
    assert f[..2] == [header] + [Crc8(CrcInit, header)];
    assert Fold(CrcInit, [header]) == Crc8(CrcInit, header) by {
      FoldSnoc(CrcInit, [], header);
      assert [] + [header] == [header];
    }
    TrailerChecksToZero(CrcInit, [header]);
    assert f[2..] == payload + [Fold(CrcInit, payload)];
    TrailerChecksToZero(CrcInit, payload);
    assert f[2..|f| - 1] == payload;
  }

  /** A frame whose trailer differs from the payload's CRC is rejected. */
  lemma DecodeRejectsBadTrailer(header: byte, payload: seq<byte>, trailer: byte)
    requires trailer != Fold(CrcInit, payload)
    ensures DecodeFrame([header, Crc8(CrcInit, header)] + payload + [trailer]).None?
  {
    var f := [header, Crc8(CrcInit, header)] + payload + [trailer];
    assert f[2..] == payload + [trailer];
    TrailerZeroIff(CrcInit, payload, trailer);
  }

  /**
   * The outcome of one call: the link afterwards, the result code, what
   * was copied to the caller, and the exchanges the call performed (none
   * when the master was not initialised, otherwise one).
   */
  datatype Reply = Reply(link: Link, status: Status, data: seq<byte>, trace: seq<Transfer>)

  /** The link after the exchanges of `trace`. */
  function After(link: Link, trace: seq<Transfer>): Link {
    link.(count := link.count + |trace|)
  }

  // ---------------------------------------------------------------------
  // send_message
  // ---------------------------------------------------------------------

  /** Classification of send_message from the number of bytes read and the last one. */
  function SendStatus(len: nat, got: seq<byte>): Status {
    if |got| == len + HeaderLen + CrcLen + 1 then NoRespError
    else if |got| != BreakLen + HeaderLen + len + CrcLen + AckLen then TimeoutError
    else if got[len + 4] != AckChar then NoAckError
    else Ok
  }

  /**
   * `PMLIN_send_message`. The local buffer holds 259 bytes but the read
   * asks for `len + 5`, so a 255-byte payload would overflow it: that length
   * is excluded here.
   */
  function SendMessage(link: Link, id: u8, msgType: u8, payload: seq<byte>): (r: Reply)
    requires |payload| + 5 <= FrameBufferSize
    ensures r.link == After(link, r.trace) && r.data == []
    ensures !link.initialized ==> r.status == NotInitializedError && r.trace == []
    ensures link.initialized ==>
      && |r.trace| == 1
      && r.trace[0].request == Message(msgType, id, payload)
      && r.trace[0].requested == |payload| + 5
      && r.trace[0].received == Delivered(link, r.trace[0].request, r.trace[0].requested)
      && r.status == SendStatus(|payload|, r.trace[0].received)
    ensures r.status in {Ok, NoRespError, TimeoutError, NoAckError, NotInitializedError}
  {
    if !link.initialized then Reply(link, NotInitializedError, [], [])
    else
      var (link', t) := Transact(link, Message(msgType, id, payload),
        BreakLen + HeaderLen + |payload| + CrcLen + AckLen);
      Reply(link', SendStatus(|payload|, t.received), [], [t])
  }

  /** The read length of send_message fits its buffer exactly when the payload is at most 254 bytes. */
  lemma SendReadFitsBuffer(len: nat)
    ensures BreakLen + HeaderLen + len + CrcLen + AckLen <= FrameBufferSize <==> len <= 254
  {
  }

  /** The four outcomes of an initialised send_message, each with its condition. */
  lemma SendStatusCases(len: nat, got: seq<byte>)
    requires |got| <= len + 5
    ensures SendStatus(len, got) == NoRespError <==> |got| == len + 4
    ensures SendStatus(len, got) == TimeoutError <==> |got| < len + 4
    ensures SendStatus(len, got) == NoAckError <==> |got| == len + 5 && got[len + 4] != AckChar
    ensures SendStatus(len, got) == Ok <==> |got| == len + 5 && got[len + 4] == AckChar
  {
  }

  /** Echoed bytes are never compared: only the count and the final byte matter. */
  lemma SendIgnoresEcho(len: nat, got1: seq<byte>, got2: seq<byte>)
    requires |got1| == |got2|
    requires |got1| == len + 5 ==> got1[len + 4] == got2[len + 4]
    ensures SendStatus(len, got1) == SendStatus(len, got2)
  {
  }

  /** A bus that only echoes the master's own break and frame means nobody answered. */
  lemma SendToSilentBus(brk: byte, header: byte, payload: seq<byte>)
    ensures SendStatus(|payload|, [brk] + Frame(header, payload)) == NoRespError
  {
  }

  /** An acknowledging slave: echo of break and frame followed by the ACK byte. */
  lemma SendAcknowledged(brk: byte, header: byte, payload: seq<byte>)
    ensures SendStatus(|payload|, [brk] + Frame(header, payload) + [AckChar]) == Ok
  {
    var got := [brk] + Frame(header, payload) + [AckChar];
    assert got[|payload| + 4] == AckChar;
  }

  // ---------------------------------------------------------------------
  // receive_message
  // ---------------------------------------------------------------------

  /**
   * The read buffer of receive_message after `got` was read into it;
   * `sent` is the header and header CRC it held before.
   */
  function ReceiveBuffer(sent: seq<byte>, got: seq<byte>): (buf: seq<byte>)
    requires |sent| == HeaderLen && |got| <= FrameBufferSize
    ensures |buf| == FrameBufferSize
  {
    Overlay(sent + Zeros(FrameBufferSize - HeaderLen), got)
  }

  /** Status and copied payload of receive_message, given what the read delivered. */
  datatype Received = Received(status: Status, data: seq<byte>)

  /**
   * The classification of receive_message: NO_RESP when exactly the
   * echo of break and header came back, TIMEOUT for any other short count,
   * then the CRC over bytes 3..len+3. The payload window is copied whatever
   * the outcome.
   */
  function ReceiveOutcome(sent: seq<byte>, len: nat, got: seq<byte>): (r: Received)
    requires |sent| == HeaderLen && len <= 255 && |got| <= len + 4
    ensures |r.data| == len
    ensures forall i | 0 <= i < len && 3 + i < |got| :: r.data[i] == got[3 + i]
    ensures r.status in {Ok, NoRespError, TimeoutError, CrcError}
    ensures r.status == NoRespError <==> |got| == 3
    ensures r.status == TimeoutError <==> |got| != 3 && |got| < len + 4
    ensures |got| == len + 4 ==> r.data == got[3..len + 3]
    ensures r.status == Ok <==>
      |got| == len + 4 && got[len + 3] == Fold(CrcInit, got[3..len + 3])
  {
    var buf := ReceiveBuffer(sent, got);
    var crc := Fold(CrcInit, buf[3..len + 4]);
    var data := buf[3..3 + len];
    ReceiveWindow(sent, len, got);
    ReceiveOkCondition(len, got, buf);
    var status :=
      if |got| == HeaderLen + 1 then NoRespError
      else if |got| != BreakLen + HeaderLen + len + CrcLen then TimeoutError
      else if crc != 0 then CrcError
      else Ok;
    Received(status, data)
  }

  /**
   * `PMLIN_receive_message`: writes only header and header CRC and reads
   * `len + 4` bytes back.
   */
  function ReceiveMessage(link: Link, id: u8, msgType: u8, len: nat): (r: Reply)
    requires len <= 255
    ensures r.link == After(link, r.trace)
    ensures !link.initialized ==> r.status == NotInitializedError && r.data == [] && r.trace == []
    ensures link.initialized ==>
      && |r.trace| == 1
      && r.trace[0].request == Poll(msgType, id)
      && r.trace[0].requested == len + 4
      && r.trace[0].received == Delivered(link, r.trace[0].request, r.trace[0].requested)
      && Received(r.status, r.data) == ReceiveOutcome(Wire(Poll(msgType, id)), len, r.trace[0].received)
    ensures r.status in {Ok, NoRespError, TimeoutError, CrcError, NotInitializedError}
  {
    if !link.initialized then Reply(link, NotInitializedError, [], [])
    else
      var (link', t) := Transact(link, Poll(msgType, id), BreakLen + HeaderLen + len + CrcLen);
      var out := ReceiveOutcome(Wire(Poll(msgType, id)), len, t.received);
      Reply(link', out.status, out.data, [t])
  }

  /** The payload window of the read buffer holds the received bytes that reached it. */
  lemma ReceiveWindow(sent: seq<byte>, len: nat, got: seq<byte>)
    requires |sent| == HeaderLen && len <= 255 && |got| <= len + 4
    ensures var data := ReceiveBuffer(sent, got)[3..3 + len];
      && (forall i | 0 <= i < len && 3 + i < |got| :: data[i] == got[3 + i])
      && (|got| == len + 4 ==> data == got[3..len + 3])
  {
    var buf := ReceiveBuffer(sent, got);
    assert forall i | 0 <= i < |got| :: buf[i] == got[i];
  }

  lemma ReceiveOkCondition(len: nat, got: seq<byte>, buf: seq<byte>)
    requires len <= 255 && |got| <= len + 4 && |buf| == FrameBufferSize
    requires forall i | 0 <= i < |got| :: buf[i] == got[i]
    ensures |got| == len + 4 ==>
      (Fold(CrcInit, buf[3..len + 4]) == 0 <==>
        buf[3..3 + len] == got[3..len + 3] && got[len + 3] == Fold(CrcInit, buf[3..3 + len]))
  {
    if |got| == len + 4 {
      assert buf[3..len + 4] == buf[3..3 + len] + [got[len + 3]];
      assert buf[3..3 + len] == got[3..len + 3];
      TrailerZeroIff(CrcInit, buf[3..3 + len], got[len + 3]);
    }
  }

  /** A slave answering with payload and its CRC is received intact. */
  lemma ReceiveRoundTrip(q: Request, payload: seq<byte>, brk: byte)
    requires q.Poll? && |payload| <= 255
    ensures var got := [brk] + Wire(q) + payload + [Fold(CrcInit, payload)];
      ReceiveOutcome(Wire(q), |payload|, got) == Received(Ok, payload)
  {
    var w := Wire(q);
    assert |w| == HeaderLen;
    var got := [brk] + w + payload + [Fold(CrcInit, payload)];
    assert |got| == |payload| + 4 && got[|payload| + 3] == Fold(CrcInit, payload);
    assert got[3..|payload| + 3] == payload;
  }

  // ---------------------------------------------------------------------
  // send_cmd_message
  // ---------------------------------------------------------------------

  /** The message type of commands, `MessageTypeCmd`, as an integer. */
  const CommandType: u8 := 7

  /** The request of a command to `id`. */
  function Command(id: u8, cmd: seq<byte>): Request {
    Message(CommandType, id, cmd)
  }

  /** The read buffer of send_cmd_message after `got` was read over the written frame. */
  function CmdBuffer(id: u8, cmd: seq<byte>, got: seq<byte>): (buf: seq<byte>)
    requires |cmd| == CmdMsgLen && |got| <= CmdBufferSize
    ensures |buf| == CmdBufferSize
  {
    Overlay(Wire(Command(id, cmd)) + Zeros(CmdBufferSize - (CmdMsgLen + 3)), got)
  }

  /**
   * What send_cmd_message copies to `resp`: bytes 9..13 of its buffer.
   * Those bytes lie past the written frame, so each is the received byte
   * when one arrived there and otherwise the buffer's initial zero.
   */
  function CmdResponse(got: seq<byte>): (resp: seq<byte>)
    ensures |resp| == CmdRespLen
    ensures forall i | 0 <= i < CmdRespLen ::
      resp[i] == if CmdRespOffset + i < |got| then got[CmdRespOffset + i] else 0
  {
    if |got| >= CmdRespOffset + CmdRespLen then got[CmdRespOffset..CmdRespOffset + CmdRespLen]
    else if |got| > CmdRespOffset then got[CmdRespOffset..] + Zeros(CmdRespOffset + CmdRespLen - |got|)
    else Zeros(CmdRespLen)
  }

  /** The response is the window of the C buffer that the code copies out. */
  lemma CmdResponseReadsBuffer(id: u8, cmd: seq<byte>, got: seq<byte>)
    requires |cmd| == CmdMsgLen && |got| <= CmdBufferSize
    ensures CmdResponse(got) == CmdBuffer(id, cmd, got)[CmdRespOffset..CmdRespOffset + CmdRespLen]
  {
  }

  /**
   * Classification of send_cmd_message. The C code folds the CRC over
   * buffer bytes 9..14; that check only decides when all 15 bytes arrived,
   * and then the buffer is exactly what was read (see `CmdStatusReadsBuffer`).
   */
  function CmdStatus(got: seq<byte>): Status {
    if |got| == CmdMsgLen + 3 + 1 then NoRespError
    else if |got| != CmdBufferSize then TimeoutError
    else if Fold(CrcInit, got[CmdRespOffset..]) != 0 then CrcError
    else Ok
  }

  /** The status as the C code computes it, from the read buffer. */
  lemma CmdStatusReadsBuffer(id: u8, cmd: seq<byte>, got: seq<byte>)
    requires |cmd| == CmdMsgLen && |got| == CmdBufferSize
    ensures CmdBuffer(id, cmd, got)[CmdRespOffset..] == got[CmdRespOffset..]
  {
    assert CmdBuffer(id, cmd, got) == got;
  }

  /** `PMLIN_send_cmd_message`: writes 8 bytes, reads 15, copies the response unconditionally. */
  function SendCmd(link: Link, id: u8, cmd: seq<byte>, respIn: seq<byte>): (r: Reply)
    requires |cmd| == CmdMsgLen && |respIn| == CmdRespLen
    ensures r.link == After(link, r.trace) && |r.data| == CmdRespLen
    ensures !link.initialized ==> r.status == NotInitializedError && r.data == respIn && r.trace == []
    ensures link.initialized ==>
      && |r.trace| == 1
      && r.trace[0].request == Command(id, cmd)
      && r.trace[0].requested == CmdBufferSize
      && r.trace[0].received == Delivered(link, r.trace[0].request, r.trace[0].requested)
      && r.status == CmdStatus(r.trace[0].received)
      && r.data == CmdResponse(r.trace[0].received)
    ensures r.status in {Ok, NoRespError, TimeoutError, CrcError, NotInitializedError}
  {
    if !link.initialized then Reply(link, NotInitializedError, respIn, [])
    else
      var (link', t) := Transact(link, Command(id, cmd), CmdBufferSize);
      Reply(link', CmdStatus(t.received), CmdResponse(t.received), [t])
  }

  /** An OK command exchange delivered all 15 bytes and a response whose trailer is its CRC. */
  lemma CmdOkMeansValidResponse(got: seq<byte>)
    ensures CmdStatus(got) == Ok <==>
      |got| == CmdBufferSize && CmdResponse(got) == got[9..14]
      && got[14] == Fold(CrcInit, got[9..14])
  {
    if |got| == CmdBufferSize {
      assert got[CmdRespOffset..] == got[9..14] + [got[14]];
      TrailerZeroIff(CrcInit, got[9..14], got[14]);
    }
  }

  /** A slave that answers a command with a response and its CRC is read back intact. */
  lemma CmdRoundTrip(id: u8, cmd: seq<byte>, resp: seq<byte>, brk: byte)
    requires |cmd| == CmdMsgLen && |resp| == CmdRespLen
    ensures var got := [brk] + Wire(Command(id, cmd)) + resp + [Fold(CrcInit, resp)];
      |got| == CmdBufferSize
      && CmdStatus(got) == Ok && CmdResponse(got) == resp
  {
    var got := [brk] + Wire(Command(id, cmd)) + resp + [Fold(CrcInit, resp)];
    assert got[9..14] == resp;
    assert got[14] == Fold(CrcInit, resp);
    CmdOkMeansValidResponse(got);
  }

  /** With only the master's own echo on the line, the command gets no response. */
  lemma CmdToSilentBus(id: u8, cmd: seq<byte>, brk: byte)
    requires |cmd| == CmdMsgLen
    ensures CmdStatus([brk] + Wire(Command(id, cmd))) == NoRespError
  {
  }
}
