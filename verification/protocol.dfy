/**
 * Wire-level constants and layouts shared by master and slave
 * (includes/pmlin.h): address space, header bit layout, command and
 * INQUIRE response layouts, device declarations.
 */
module Protocol {

  /** `uint8_t`: bit-vector arithmetic wraps exactly like the C type. */
  type byte = bv8
  /** `uint16_t`, used for device types and firmware versions. */
  type word = bv16
  /** `uint8_t` where it is only compared, counted or used as an index: device ids, message types. */
  type u8 = x: int | 0 <= x < 0x100

  const MaxMessageTypes: nat := 8

  const BroadcastId: byte := 0
  const FirstDeviceId: byte := 1
  const ReservedId: byte := 31
  const MaxNumId: nat := 32

  const CrcInit: byte := 0xC5
  const AckChar: byte := 0x55
  const HeaderLen: nat := 2

  const MsgTypeMask: byte := 0xE0
  const MsgTypeBitPos: bv8 := 5
  const MsgIdMask: byte := 0x1F

  const MessageTypeCmd: byte := 7

  const CmdMsgLen: nat := 5
  const CmdIdx: nat := 0
  const CmdProbe: byte := 0
  const CmdRenum: byte := 1
  const CmdInquire: byte := 2
  const RenumIdIdx: nat := 1

  const IndicatorIdx: nat := 1
  const IndicatorEnableMask: byte := 0x01
  const IndicatorCtrlMask: byte := 0x02

  const CmdRespLen: nat := 5
  const DevTypeMsbIdx: nat := 0
  const DevTypeLsbIdx: nat := 1
  const FwVerMsbIdx: nat := 2
  const FwVerLsbIdx: nat := 3
  const HwRevIdx: nat := 4
  const HwRevMask: byte := 0x7F
  const ButtonIdx: nat := 4
  const ButtonMask: byte := 0x80

  const ReservedDeviceType: word := 0xFFFF

  const HostToSlave: byte := 0
  const SlaveToHost: byte := 1

  /** A decoded header byte: 3-bit message class, 5-bit device id. */
  datatype Header = Header(cls: byte, id: byte)

  /** `(class << 5) + id`, truncated to eight bits as the C assignment does. */
  function MakeHeader(cls: byte, id: byte): byte {
    (cls << MsgTypeBitPos) + id
  }

  /** Splits a header byte with the class and id masks. */
  function SplitHeader(h: byte): (r: Header)
    ensures r.cls < 8 && r.id < 32
    ensures MakeHeader(r.cls, r.id) == h
  {
    Header((h & MsgTypeMask) >> MsgTypeBitPos, h & MsgIdMask)
  }

  /** Splitting a header built from an in-range class and id gives them back. */
  lemma HeaderRoundTrip(cls: byte, id: byte)
    requires cls < 8 && id < 32
    ensures SplitHeader(MakeHeader(cls, id)) == Header(cls, id)
  {
  }

  /** The class and id masks are disjoint and together cover the byte; so are
      the hardware-revision and button masks sharing response byte 4. */
  lemma MasksPartitionByte()
    ensures MsgTypeMask & MsgIdMask == 0 && MsgTypeMask | MsgIdMask == 0xFF
    ensures HwRevMask & ButtonMask == 0 && HwRevMask | ButtonMask == 0xFF
  {
  }

  /** Usable device ids are the ones that are neither broadcast nor reserved. */
  predicate IsDeviceId(id: byte) {
    FirstDeviceId <= id < ReservedId
  }

  /** A request of the command class: sub-command at index 0, argument at index 1, the rest zero. */
  function CommandRequest(sub: byte, arg: byte): (r: seq<byte>)
    ensures |r| == CmdMsgLen
    ensures r[CmdIdx] == sub && r[RenumIdIdx] == arg
    ensures r[2..] == [0, 0, 0]
  {
    [sub, arg, 0, 0, 0]
  }

  /** The zero-filled request the master sends with `sub` at index 0. */
  function PlainCommand(sub: byte): seq<byte> {
    CommandRequest(sub, 0)
  }

  /** The RENUM request carrying the new id at index 1. */
  function RenumCommand(newId: byte): seq<byte> {
    CommandRequest(CmdRenum, newId)
  }

  /** The big-endian device type at the front of an INQUIRE response. */
  function ResponseType(resp: seq<byte>): word
    requires |resp| >= 2
  {
    ((resp[DevTypeMsbIdx] as word) << 8) | (resp[DevTypeLsbIdx] as word)
  }

  /** High and low byte of a 16-bit value, as the slave writes them. */
  function HighByte(w: word): byte {
    (w >> 8) as byte
  }

  function LowByte(w: word): byte {
    (w & 0xFF) as byte
  }

  /** What the slave writes at indices 0-1 the master reads back as the same type. */
  lemma ResponseTypeRoundTrip(w: word, rest: seq<byte>)
    ensures ResponseType([HighByte(w), LowByte(w)] + rest) == w
  {
  }

  /** One message slot of a device: direction and payload length (uint32_t). */
  datatype MessageDef = MessageDef(dir: byte, length: nat)

  /** A device declaration: id, 16-bit type and eight message slots. */
  datatype DeviceDecl = DeviceDecl(id: u8, deviceType: word, messages: seq<MessageDef>)

  predicate ValidDecl(d: DeviceDecl) {
    && |d.messages| == MaxMessageTypes
    && forall k | 0 <= k < |d.messages| :: d.messages[k].length < 0x1_0000_0000
  }
}
