/**
 * The slave side (slave/src/pmlin-slave.c): a state machine driven by
 * three interrupt handlers — byte received, transmit register empty,
 * timer tick. The globals become one `Slave` record; the device
 * callbacks become a `Device` value giving their answers, and every
 * callback the slave makes is recorded as an `Effect`.
 */
module Slave {
  import opened Protocol
  import opened Crc
  import opened Wrappers

  /** `PMLIN_BUFFER_SIZE`: the shared buffer for headers, commands and responses. */
  const BufferSize: nat := 8

  /** The answers `PMLIN_init_transfer` may give; anything else means ignore. */
  const InitIgnoreMsg: byte := 0
  const InitRxMsg: byte := 1
  const InitTxMsg: byte := 2

  /** The timer period before `PMLIN_set_timer_period` is called, in microseconds. */
  const DefaultTimerPeriod: nat := 1000

  /** The eleven states of `g_PMLIN_state`. */
  datatype Phase =
    | WaitBreak | RxHeader | RxMsg | TxMsg | RxCtrlMsg | TxCtrlResp
    | WaitRenumTimer | TxRenumConf | TxAck | CheckRxMsgCrc | CheckRxCtrlMsgCrc

  /**
   * The slave's globals. `slot` is the backoff time per random slot (the
   * compile-time constant derived from the baud rate), in timer units.
   */
  datatype Slave = Slave(
    phase: Phase,
    myId: nat,
    idx: nat,
    len: nat,
    verf: nat,
    crc: byte,
    timer: nat,
    period: nat,
    renumTo: nat,
    buffer: seq<byte>,
    msgType: byte,
    msgId: byte,
    deviceType: word,
    firmware: word,
    hardware: byte,
    slot: nat)

  /**
   * The ranges of the C variables, and the index bounds that keep every
   * buffer access in range: lengths are at most 5, and the index is at
   * most 5 in the two states that store received bytes. The transmit
   * handler may run in any state (its interrupt stays enabled across a
   * break), so the bound allows the index it advances.
   */
  predicate Valid(s: Slave) {
    && |s.buffer| == BufferSize
    && s.len <= CmdMsgLen && s.verf <= CmdMsgLen && s.idx <= CmdMsgLen + 1
    && (s.phase == RxHeader || s.phase == RxCtrlMsg ==> s.idx <= CmdMsgLen)
    && s.myId < 0x100 && s.renumTo < 0x100
    && s.timer < 0x1_0000 && s.period < 0x1_0000 && s.slot < 0x1_0000
  }

  /** What the device callbacks answer during one handler call. `random(k)` is the k-th `PMLIN_random()` of the call. */
  datatype Device = Device(
    transferKind: byte,
    moreExpected: bool,
    nextTx: Option<byte>,
    random: nat -> word,
    button: bool)

  /** A call the slave makes out of the protocol code. */
  datatype Effect =
    | EnableTx(on: bool)
    | InitTransfer(msgType: byte)
    | EndTransfer(msgType: byte)
    | HandleByte(b: byte)
    | GetByte
    | Indicator(enable: bool, lit: bool)
    | StoreId(id: byte)

  /** The slave after a handler, with the calls the handler made. */
  datatype Step = Step(slave: Slave, effects: seq<Effect>)

  /** No `PMLIN_store_id` call among the effects. */
  predicate NoStore(effects: seq<Effect>) {
    forall e | e in effects :: !e.StoreId?
  }

  /** The transmit handler also returns the byte to send. */
  datatype Sent = Sent(slave: Slave, effects: seq<Effect>, out: byte)

  // ---------------------------------------------------------------------
  // Start-up
  // ---------------------------------------------------------------------

  /** The globals' initial values (slave/src/pmlin-slave.c:40-63). */
  function PowerOn(slot: nat): (s: Slave)
    requires slot < 0x1_0000
    ensures Valid(s) && s.phase == WaitBreak && s.myId == 1
  {
    Slave(WaitBreak, 1, 0, 0, 0, 0, 0, DefaultTimerPeriod, 0, seq(BufferSize, _ => 0), 0, 0, 0, 0, 0, slot)
  }

  /** `PMLIN_initialize`: an id outside 1..31 becomes 1. The state is not touched. */
  function Initialize(s: Slave, id: u8, deviceType: word, firmware: word, hardware: byte): (r: Slave)
    requires Valid(s)
    ensures Valid(r)
    ensures 1 <= r.myId <= 31
    ensures r.myId == id <==> 1 <= id <= 31
    ensures r.phase == s.phase && r.buffer == s.buffer && r.crc == s.crc
    ensures r.deviceType == deviceType && r.firmware == firmware && r.hardware == hardware
  {
    var myId := if id < 1 || id > 31 then 1 else id;
    s.(myId := myId, deviceType := deviceType, firmware := firmware, hardware := hardware)
  }

  /** `PMLIN_set_timer_period`. */
  function SetTimerPeriod(s: Slave, period: nat): (r: Slave)
    requires Valid(s) && period < 0x1_0000
    ensures Valid(r) && r.period == period && r.phase == s.phase && r.myId == s.myId
  {
    s.(period := period)
  }

  // ---------------------------------------------------------------------
  // Header and message handling
  // ---------------------------------------------------------------------

  /**
   * `PMLIN_handle_id` (slave/src/pmlin-slave.c:95-117): a header for
   * another id sends the slave back to wait for a break; a command header
   * starts a 5-byte command; any other header is offered to
   * `init_transfer`, whose answer selects receiving, transmitting or
   * ignoring.
   */
  function HandleId(s: Slave, dev: Device): (r: Step)
    requires Valid(s)
    ensures Valid(r.slave) && r.slave.myId == s.myId && NoStore(r.effects)
  {
    var t := s.(idx := 0, crc := CrcInit, phase := WaitBreak);
    if s.myId != s.msgId as nat then Step(t, [])
    else if s.msgType == MessageTypeCmd then Step(t.(phase := RxCtrlMsg, len := CmdMsgLen), [])
    else if dev.transferKind == InitRxMsg then Step(t.(phase := RxMsg), [InitTransfer(s.msgType)])
    else if dev.transferKind == InitTxMsg then Step(t.(phase := TxMsg), [InitTransfer(s.msgType), EnableTx(true)])
    else Step(t, [InitTransfer(s.msgType)])
  }

  /**
   * `fill_buffer_with_random_data(5)`: the buffer is filled from index 4
   * down to 0, each with the low byte of the next random number.
   */
  function RandomFill(buffer: seq<byte>, random: nat -> word): (b: seq<byte>)
    requires |buffer| == BufferSize
    ensures |b| == BufferSize
    ensures forall i | 0 <= i < CmdRespLen :: b[i] == LowByte(random(CmdRespLen - 1 - i))
    ensures b[CmdRespLen..] == buffer[CmdRespLen..]
  {
    buffer[4 := LowByte(random(0))][3 := LowByte(random(1))][2 := LowByte(random(2))]
          [1 := LowByte(random(3))][0 := LowByte(random(4))]
  }

  /** The backoff before confirming a renumbering: a random slot count 0..31 times the slot time, in 16 bits. */
  function Backoff(r: word, slot: nat): (t: nat)
    ensures t <= 31 * slot && t < 0x1_0000
  {
    (((r & 0x1F) as nat) * slot) % 0x1_0000
  }

  /**
   * The INQUIRE response as slave/src/pmlin-slave.c:157-164 writes it over
   * the received command: type and firmware big-endian, the button in
   * bit 7 of byte 4. The hardware revision given to `PMLIN_initialize` is
   * never written, so bits 0-6 of byte 4 still hold the command's byte 4.
   * This is the response the model's slave sends.
   */
  function InquireResponseAsWritten(buffer: seq<byte>, deviceType: word, firmware: word, button: bool): (b: seq<byte>)
    requires |buffer| == BufferSize
    ensures |b| == BufferSize && b[CmdRespLen..] == buffer[CmdRespLen..]
    ensures ResponseType(b) == deviceType
    ensures b[FwVerMsbIdx] == HighByte(firmware) && b[FwVerLsbIdx] == LowByte(firmware)
    ensures (b[ButtonIdx] & ButtonMask != 0) == button
    ensures b[ButtonIdx] & HwRevMask == buffer[ButtonIdx] & HwRevMask
  {
    var b4 := if button then buffer[ButtonIdx] | ButtonMask else buffer[ButtonIdx] & !ButtonMask;
    buffer[DevTypeMsbIdx := HighByte(deviceType)][DevTypeLsbIdx := LowByte(deviceType)]
          [FwVerMsbIdx := HighByte(firmware)][FwVerLsbIdx := LowByte(firmware)][ButtonIdx := b4]
  }

  /**
   * A zeroed command buffer and hardware revision 5: the response reports
   * revision 0. Kept as the witness of the finding on the hardware
   * revision; `SlaveRun.MasterInquireRevisionZero` states the same of the
   * slave as a whole.
   */
  lemma HardwareRevisionDropped()
    ensures var b := InquireResponseAsWritten(seq(BufferSize, _ => 0), 0x0102, 0x0304, false);
      b[HwRevIdx] & HwRevMask != 5 & HwRevMask
  {
  }

  /**
   * The INQUIRE response with the hardware revision in bits 0-6 of byte 4,
   * as the response layout in includes/pmlin.h:83-87 lays it out: the
   * corrected response, which the slave of slave/src/pmlin-slave.c does
   * not send.
   */
  function InquireResponse(buffer: seq<byte>, deviceType: word, firmware: word, hardware: byte, button: bool): (b: seq<byte>)
    requires |buffer| == BufferSize
    ensures |b| == BufferSize && b[CmdRespLen..] == buffer[CmdRespLen..]
    ensures ResponseType(b) == deviceType
    ensures b[FwVerMsbIdx] == HighByte(firmware) && b[FwVerLsbIdx] == LowByte(firmware)
    ensures (b[ButtonIdx] & ButtonMask != 0) == button
    ensures b[HwRevIdx] & HwRevMask == hardware & HwRevMask
  {
    var b4 := (hardware & HwRevMask) | (if button then ButtonMask else 0);
    buffer[DevTypeMsbIdx := HighByte(deviceType)][DevTypeLsbIdx := LowByte(deviceType)]
          [FwVerMsbIdx := HighByte(firmware)][FwVerLsbIdx := LowByte(firmware)][ButtonIdx := b4]
  }

  /** PROBE (slave/src/pmlin-slave.c:136-142): answer with five random bytes. */
  function Probe(s: Slave, dev: Device): (r: Step)
    requires Valid(s)
    ensures Valid(r.slave) && r.slave.myId == s.myId && NoStore(r.effects)
    ensures r.slave.phase == TxCtrlResp && r.slave.len == CmdRespLen && r.effects == [EnableTx(true)]
    ensures forall i | 0 <= i < CmdRespLen :: r.slave.buffer[i] == LowByte(dev.random(CmdRespLen - 1 - i))
  {
    Step(s.(len := CmdRespLen, buffer := RandomFill(s.buffer, dev.random), phase := TxCtrlResp), [EnableTx(true)])
  }

  /**
   * RENUM (slave/src/pmlin-slave.c:143-150): remember the new id, prepare
   * five random bytes for the confirmation and wait a random backoff.
   */
  function Renum(s: Slave, dev: Device): (r: Step)
    requires Valid(s)
    ensures Valid(r.slave) && r.slave.myId == s.myId && NoStore(r.effects)
    ensures r.slave.renumTo == s.buffer[RenumIdIdx] as nat && r.slave.phase == WaitRenumTimer && r.effects == []
    ensures r.slave.timer <= 31 * s.slot
    ensures forall i | 0 <= i < CmdRespLen :: r.slave.buffer[i] == LowByte(dev.random(CmdRespLen - 1 - i))
  {
    Step(s.(renumTo := s.buffer[RenumIdIdx] as nat, buffer := RandomFill(s.buffer, dev.random),
            phase := WaitRenumTimer, timer := Backoff(dev.random(CmdRespLen), s.slot)), [])
  }

  /**
   * INQUIRE (slave/src/pmlin-slave.c:151-168): drive the indicator, then
   * answer with the device type, firmware version and button state over
   * the received command, as written (`InquireResponseAsWritten`).
   */
  function Inquire(s: Slave, dev: Device): (r: Step)
    requires Valid(s)
    ensures Valid(r.slave) && r.slave.myId == s.myId && NoStore(r.effects)
    ensures r.slave.phase == TxCtrlResp
    ensures r.effects == [Indicator(s.buffer[IndicatorIdx] & IndicatorEnableMask != 0,
                                    s.buffer[IndicatorIdx] & IndicatorCtrlMask != 0), EnableTx(true)]
    ensures ResponseType(r.slave.buffer) == s.deviceType
    ensures r.slave.buffer[FwVerMsbIdx] == HighByte(s.firmware) && r.slave.buffer[FwVerLsbIdx] == LowByte(s.firmware)
    ensures (r.slave.buffer[ButtonIdx] & ButtonMask != 0) == dev.button
    ensures r.slave.buffer[HwRevIdx] & HwRevMask == s.buffer[HwRevIdx] & HwRevMask
  {
    var ind := s.buffer[IndicatorIdx];
    Step(s.(buffer := InquireResponseAsWritten(s.buffer, s.deviceType, s.firmware, dev.button), phase := TxCtrlResp),
         [Indicator(ind & IndicatorEnableMask != 0, ind & IndicatorCtrlMask != 0), EnableTx(true)])
  }

  /**
   * `PMLIN_handle_message` (slave/src/pmlin-slave.c:124-177), entered once
   * a message's CRC checked out: a data message is acknowledged and handed
   * to `end_transfer`; a command is dispatched on its byte 0, and an
   * unknown command is dropped.
   */
  function HandleMessage(s: Slave, dev: Device): (r: Step)
    requires Valid(s)
    ensures Valid(r.slave) && r.slave.myId == s.myId && NoStore(r.effects)
  {
    var t := s.(idx := 0, crc := CrcInit);
    if s.phase == CheckRxMsgCrc then Step(t.(phase := TxAck), [EnableTx(true), EndTransfer(s.msgType)])
    else if s.phase != CheckRxCtrlMsgCrc then Step(t.(phase := WaitBreak), [])
    else if s.buffer[CmdIdx] == CmdProbe then Probe(t, dev)
    else if s.buffer[CmdIdx] == CmdRenum then Renum(t, dev)
    else if s.buffer[CmdIdx] == CmdInquire then Inquire(t, dev)
    else Step(t.(phase := WaitBreak), [])
  }

  // ---------------------------------------------------------------------
  // The three interrupt handlers
  // ---------------------------------------------------------------------

  /** The echo check that confirms a renumbering: all five bytes came back and now the CRC. */
  predicate Confirms(s: Slave, data: byte, brk: bool) {
    !brk && s.phase == TxRenumConf && s.verf >= s.len && data == s.crc
  }

  /** A header byte (slave/src/pmlin-slave.c:200-212): after two, the header CRC and the id decide. */
  function HeaderByte(s: Slave, data: byte, dev: Device): (r: Step)
    requires Valid(s) && s.phase == RxHeader
    ensures Valid(r.slave) && r.slave.myId == s.myId && NoStore(r.effects)
    ensures s.idx + 1 < HeaderLen ==>
      && r.effects == [] && r.slave.phase == RxHeader && r.slave.idx == s.idx + 1
      && r.slave.buffer[s.idx] == data && r.slave.crc == Crc8(s.crc, data)
    ensures s.idx + 1 >= HeaderLen && Crc8(s.crc, data) != 0 ==> r.effects == [] && r.slave.phase == WaitBreak
    ensures r.slave.phase != RxHeader && r.slave.phase != WaitBreak ==>
      && s.idx + 1 >= HeaderLen && Crc8(s.crc, data) == 0
      && SplitHeader(s.buffer[s.idx := data][0]).id as nat == s.myId
  {
    var t := s.(crc := Crc8(s.crc, data), buffer := s.buffer[s.idx := data], idx := s.idx + 1);
    if t.idx < HeaderLen then Step(t, [])
    else if t.crc != 0 then Step(t.(phase := WaitBreak), [])
    else
      var h := SplitHeader(t.buffer[0]);
      HandleId(t.(msgType := h.cls, msgId := h.id, phase := WaitBreak), dev)
  }

  /** A data-message byte (slave/src/pmlin-slave.c:213-217), handed to the device until it wants no more. */
  function DataByte(s: Slave, data: byte, dev: Device): (r: Step)
    requires Valid(s) && s.phase == RxMsg
    ensures Valid(r.slave) && r.slave.myId == s.myId && NoStore(r.effects)
    ensures r.effects == [HandleByte(data)] && r.slave.crc == Crc8(s.crc, data)
    ensures r.slave.phase == (if dev.moreExpected then RxMsg else CheckRxMsgCrc)
  {
    Step(s.(crc := Crc8(s.crc, data), phase := if dev.moreExpected then RxMsg else CheckRxMsgCrc), [HandleByte(data)])
  }

  /** A command byte (slave/src/pmlin-slave.c:218-223), stored until the command length is reached. */
  function CommandByte(s: Slave, data: byte): (r: Step)
    requires Valid(s) && s.phase == RxCtrlMsg
    ensures Valid(r.slave) && r.slave.myId == s.myId && NoStore(r.effects)
    ensures r.effects == [] && r.slave.crc == Crc8(s.crc, data)
    ensures r.slave.idx == s.idx + 1 && r.slave.buffer == s.buffer[s.idx := data]
    ensures r.slave.phase == CheckRxCtrlMsgCrc <==> s.idx + 1 >= s.len
  {
    var t := s.(crc := Crc8(s.crc, data), buffer := s.buffer[s.idx := data], idx := s.idx + 1);
    Step(if t.idx >= t.len then t.(phase := CheckRxCtrlMsgCrc) else t, [])
  }

  /** The trailer byte (slave/src/pmlin-slave.c:224-232): a nonzero CRC drops the message silently. */
  function TrailerByte(s: Slave, data: byte, dev: Device): (r: Step)
    requires Valid(s) && (s.phase == CheckRxMsgCrc || s.phase == CheckRxCtrlMsgCrc)
    ensures Valid(r.slave) && r.slave.myId == s.myId && NoStore(r.effects)
    ensures Crc8(s.crc, data) != 0 ==> r.effects == [] && r.slave.phase == WaitBreak
    ensures Crc8(s.crc, data) == 0 && s.phase == CheckRxMsgCrc ==>
      r.slave.phase == TxAck && r.effects == [EnableTx(true), EndTransfer(s.msgType)]
    ensures Crc8(s.crc, data) == 0 && s.phase == CheckRxCtrlMsgCrc ==>
      r.slave.phase == (if s.buffer[CmdIdx] == CmdProbe || s.buffer[CmdIdx] == CmdInquire then TxCtrlResp
                        else if s.buffer[CmdIdx] == CmdRenum then WaitRenumTimer
                        else WaitBreak)
  {
    var crc := Crc8(s.crc, data);
    if crc != 0 then Step(s.(crc := crc, phase := WaitBreak), []) else HandleMessage(s.(crc := crc), dev)
  }

  /**
   * An echoed byte of the renumbering confirmation
   * (slave/src/pmlin-slave.c:237-252): the five buffer bytes must come
   * back unchanged and then the CRC; only then is the new id taken and
   * stored.
   */
  function EchoByte(s: Slave, data: byte): (r: Step)
    requires Valid(s) && s.phase == TxRenumConf
    ensures Valid(r.slave)
    ensures r.slave.myId == (if s.verf >= s.len && data == s.crc then s.renumTo else s.myId)
    ensures r.effects == (if s.verf >= s.len && data == s.crc then [StoreId(s.renumTo as byte)] else [])
  {
    if s.verf < s.len then
      var t := s.(verf := s.verf + 1);
      Step(if data != s.buffer[s.verf] then t.(phase := WaitBreak) else t, [])
    else if data != s.crc then Step(s.(phase := WaitBreak), [])
    else Step(s.(myId := s.renumTo, phase := WaitBreak), [StoreId(s.renumTo as byte)])
  }

  /**
   * `PMLIN_UART_data_received_interrupt_handler`
   * (slave/src/pmlin-slave.c:192-257). A break restarts header reception
   * from any state, and the byte that came with it is header byte 0.
   */
  function OnByte(s: Slave, data: byte, brk: bool, dev: Device): (r: Step)
    requires Valid(s)
    ensures Valid(r.slave)
    ensures r.slave.myId == (if Confirms(s, data, brk) then s.renumTo else s.myId)
    ensures Confirms(s, data, brk) ==> r.effects == [StoreId(s.renumTo as byte)]
    ensures !Confirms(s, data, brk) ==> NoStore(r.effects)
  {
    var s := if brk then s.(phase := RxHeader, crc := CrcInit, idx := 0) else s;
    match s.phase
    case RxHeader => HeaderByte(s, data, dev)
    case RxMsg => DataByte(s, data, dev)
    case RxCtrlMsg => CommandByte(s, data)
    case CheckRxCtrlMsgCrc => TrailerByte(s, data, dev)
    case CheckRxMsgCrc => TrailerByte(s, data, dev)
    case WaitRenumTimer => Step(s.(phase := WaitBreak), [])
    case TxRenumConf => EchoByte(s, data)
    case _ => Step(s, [])
  }

  /** The next byte to send, if any: the device's in a data message, else the buffer's up to the length. */
  function NextTx(s: Slave, dev: Device): Option<byte>
    requires Valid(s)
  {
    if s.phase == TxMsg then dev.nextTx
    else if s.idx < s.len then Some(s.buffer[s.idx])
    else None
  }

  /** Once nothing is left the CRC goes out and transmission stops (slave/src/pmlin-slave.c:277-294). */
  function TxDone(s: Slave): (r: Sent)
    requires Valid(s)
    ensures Valid(r.slave) && r.slave.myId == s.myId && NoStore(r.effects) && r.out == s.crc
  {
    if s.phase == TxMsg then Sent(s.(phase := WaitBreak), [GetByte, EnableTx(false), EndTransfer(s.msgType)], s.crc)
    else if s.phase == TxCtrlResp then Sent(s.(phase := WaitBreak), [EnableTx(false)], s.crc)
    else Sent(s, [EnableTx(false)], s.crc)
  }

  /**
   * `PMLIN_UART_data_register_empty_interrupt_handler`
   * (slave/src/pmlin-slave.c:259-296): ACK once after a data message;
   * otherwise the next byte from the device or the buffer, and once they
   * are exhausted the running CRC, after which transmission stops.
   */
  function OnTxEmpty(s: Slave, dev: Device): (r: Sent)
    requires Valid(s)
    ensures Valid(r.slave) && r.slave.myId == s.myId && NoStore(r.effects)
  {
    if s.phase == TxAck then Sent(s.(phase := WaitBreak), [EnableTx(false)], AckChar)
    else match NextTx(s, dev)
      case None => TxDone(s)
      case Some(b) =>
        var t := if s.phase == TxMsg then s else s.(idx := s.idx + 1);
        Sent(t.(crc := Crc8(s.crc, b)), if s.phase == TxMsg then [GetByte] else [], b)
  }

  /**
   * `PMLIN_TIMER_interrupt_handler` (slave/src/pmlin-slave.c:298-313):
   * while waiting to confirm a renumbering, count the backoff down by one
   * period; when less than a period is left, start sending the
   * confirmation.
   */
  function OnTimer(s: Slave): (r: Step)
    requires Valid(s)
    ensures Valid(r.slave) && r.slave.myId == s.myId && NoStore(r.effects)
  {
    if s.phase != WaitRenumTimer then Step(s, [])
    else if s.timer >= s.period then Step(s.(timer := s.timer - s.period), [])
    else
      Step(s.(timer := 0, crc := CrcInit, idx := 0, len := CmdRespLen, verf := 0, phase := TxRenumConf), [EnableTx(true)])
  }

  // ---------------------------------------------------------------------
  // Properties of single handler calls
  // ---------------------------------------------------------------------

  /**
   * A break restarts header reception whatever the slave was doing: the
   * byte that came with it is stored as header byte 0 and checksummed
   * from the seed.
   */
  lemma BreakRestarts(s: Slave, data: byte, dev: Device)
    requires Valid(s)
    ensures OnByte(s, data, true, dev) ==
      Step(s.(phase := RxHeader, idx := 1, crc := Crc8(CrcInit, data), buffer := s.buffer[0 := data]), [])
  {
  }
}
