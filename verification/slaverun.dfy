/**
 * Runs of the slave state machine (slave/src/pmlin-slave.c): the handlers
 * applied to whole frames, to a whole response and to a sequence of timer
 * ticks, and what a master on the other end of the line sees. A slave's
 * transmission is taken to finish before its echo is processed.
 */
module SlaveRun {
  import opened Protocol
  import opened Crc
  import opened Wrappers
  import opened Slave
  import Exchange
  import Codes

  // ---------------------------------------------------------------------
  // Runs
  // ---------------------------------------------------------------------

  /** What one byte without a break does to the slave. */
  type Receiver = (Slave, byte) -> Step

  /**
   * The receive handler with the device's answers `dev`. States outside
   * `Valid` are never reached (`Replay`); there a byte changes nothing.
   */
  function Recv(dev: Device): Receiver {
    (x: Slave, b: byte) => if Valid(x) then OnByte(x, b, false, dev) else Step(x, [])
  }

  /** One byte handed to a receiver. */
  function Deliver(step: Receiver, x: Slave, b: byte): Step {
    step(x, b)
  }

  /** A receiver applied to each byte in turn; the calls made are concatenated. */
  function Run(step: Receiver, s: Slave, bytes: seq<byte>): Step
    decreases |bytes|
  {
    if bytes == [] then Step(s, [])
    else
      var t := Deliver(step, s, bytes[0]);
      var r := Run(step, t.slave, bytes[1..]);
      Step(r.slave, t.effects + r.effects)
  }

  ghost predicate KeepsValid(step: Receiver) {
    forall x: Slave, b: byte | Valid(x) :: Valid(Deliver(step, x, b).slave)
  }

  lemma {:induction false} RunKeepsValid(step: Receiver, s: Slave, bytes: seq<byte>)
    requires KeepsValid(step) && Valid(s)
    ensures Valid(Run(step, s, bytes).slave)
    decreases |bytes|
  {
    if bytes != [] {
      var t := Deliver(step, s, bytes[0]);
      RunKeepsValid(step, t.slave, bytes[1..]);
    }
  }

  lemma RecvKeepsValid(dev: Device)
    ensures KeepsValid(Recv(dev))
  {
  }

  /** The receive handler applied to each byte in turn, none with a break. */
  function Feed(s: Slave, bytes: seq<byte>, dev: Device): (r: Step)
    requires Valid(s)
    ensures Valid(r.slave)
  {
    RecvKeepsValid(dev);
    RunKeepsValid(Recv(dev), s, bytes);
    Run(Recv(dev), s, bytes)
  }

  /** A frame as the slave hears it: the break arrives with the first byte. */
  function Hear(s: Slave, frame: seq<byte>, dev: Device): (r: Step)
    requires Valid(s) && |frame| > 0
    ensures Valid(r.slave)
  {
    var first := OnByte(s, frame[0], true, dev);
    var rest := Feed(first.slave, frame[1..], dev);
    Step(rest.slave, first.effects + rest.effects)
  }

  /** The bytes a slave puts on the line over several transmit interrupts. */
  datatype TxRun = TxRun(slave: Slave, effects: seq<Effect>, out: seq<byte>)

  /** What one transmit interrupt does to the slave. */
  type Sender = Slave -> Sent

  /** The transmit handler with the device's answers `dev`; outside `Valid` nothing happens. */
  function Send(dev: Device): Sender {
    (x: Slave) => if Valid(x) then OnTxEmpty(x, dev) else Sent(x, [], 0)
  }

  /** One transmit interrupt handled by a sender. */
  function Emit(send: Sender, x: Slave): Sent {
    send(x)
  }

  /** A sender called `n` times; the calls made and the bytes sent are concatenated. */
  function Pump(send: Sender, s: Slave, n: nat): (r: TxRun)
    ensures |r.out| == n
    decreases n
  {
    if n == 0 then TxRun(s, [], [])
    else
      var t := Emit(send, s);
      var r := Pump(send, t.slave, n - 1);
      TxRun(r.slave, t.effects + r.effects, [t.out] + r.out)
  }

  /** One more call of the sender, in front. */
  lemma PumpStep(send: Sender, s: Slave, n: nat)
    requires n > 0
    ensures var t := Emit(send, s); var r := Pump(send, t.slave, n - 1);
      Pump(send, s, n) == TxRun(r.slave, t.effects + r.effects, [t.out] + r.out)
  {
  }

  ghost predicate SendKeepsValid(send: Sender) {
    forall x: Slave | Valid(x) :: Valid(Emit(send, x).slave)
  }

  lemma {:induction false} PumpKeepsValid(send: Sender, s: Slave, n: nat)
    requires SendKeepsValid(send) && Valid(s)
    ensures Valid(Pump(send, s, n).slave)
    decreases n
  {
    if n > 0 {
      PumpKeepsValid(send, Emit(send, s).slave, n - 1);
    }
  }

  lemma SendKeeps(dev: Device)
    ensures SendKeepsValid(Send(dev))
  {
  }

  /** The transmit handler called `n` times. */
  function Transmit(s: Slave, n: nat, dev: Device): (r: TxRun)
    requires Valid(s)
    ensures Valid(r.slave) && |r.out| == n
  {
    SendKeeps(dev);
    PumpKeepsValid(Send(dev), s, n);
    Pump(Send(dev), s, n)
  }

  /** The timer handler called `n` times. */
  function Ticks(s: Slave, n: nat): (r: Step)
    requires Valid(s)
    ensures Valid(r.slave) && r.slave.myId == s.myId && NoStore(r.effects)
    decreases n
  {
    if n == 0 then Step(s, [])
    else
      var t := OnTimer(s);
      var r := Ticks(t.slave, n - 1);
      Step(r.slave, t.effects + r.effects)
  }

  /** One interrupt, with the device's answers during it. */
  datatype Event =
    | ByteIn(data: byte, brk: bool, dev: Device)
    | TxEmpty(dev: Device)
    | Tick

  /**
   * Any interleaving of interrupts keeps the slave's variables in range;
   * in particular the header and command stores stay inside the 8-byte
   * buffer, and the own id stays an 8-bit value.
   */
  function Replay(s: Slave, events: seq<Event>): (r: Slave)
    requires Valid(s)
    ensures Valid(r) && |r.buffer| == BufferSize && r.myId < 0x100
    decreases |events|
  {
    if events == [] then s
    else
      var r := Replay(s, events[..|events| - 1]);
      match events[|events| - 1]
      case ByteIn(data, brk, dev) => OnByte(r, data, brk, dev).slave
      case TxEmpty(dev) => OnTxEmpty(r, dev).slave
      case Tick => OnTimer(r).slave
  }

  // ---------------------------------------------------------------------
  // Runs of any receiver
  // ---------------------------------------------------------------------

  /** Feeding two pieces one after the other is feeding them joined. */
  lemma {:induction false} RunAppend(step: Receiver, s: Slave, a: seq<byte>, b: seq<byte>)
    ensures var r := Run(step, s, a); var t := Run(step, r.slave, b);
      Run(step, s, a + b) == Step(t.slave, r.effects + t.effects)
    decreases |a|
  {
    if a == [] {
      assert a + b == b;
    } else {
      assert (a + b)[0] == a[0] && (a + b)[1..] == a[1..] + b;
      var o := Deliver(step, s, a[0]);
      RunAppend(step, o.slave, a[1..], b);
      var r := Run(step, o.slave, a[1..]);
      var t := Run(step, r.slave, b);
      assert o.effects + (r.effects + t.effects) == (o.effects + r.effects) + t.effects;
    }
  }

  /** A byte heard while waiting for a break changes nothing. */
  ghost predicate IdleAt(step: Receiver, x: Slave, b: byte) {
    Deliver(step, x, b) == Step(x, [])
  }

  ghost predicate IgnoresWhenIdle(step: Receiver) {
    forall x: Slave, b: byte | Valid(x) && x.phase == WaitBreak :: IdleAt(step, x, b)
  }

  /** A command byte is stored and checksummed. */
  ghost predicate StoresAt(step: Receiver, x: Slave, b: byte)
    requires Valid(x) && x.phase == RxCtrlMsg
  {
    Deliver(step, x, b) == CommandByte(x, b)
  }

  ghost predicate StoresCommands(step: Receiver) {
    forall x: Slave, b: byte | Valid(x) && x.phase == RxCtrlMsg :: StoresAt(step, x, b)
  }

  /** A byte heard while sending the confirmation is checked against it. */
  ghost predicate ChecksAt(step: Receiver, x: Slave, b: byte)
    requires Valid(x) && x.phase == TxRenumConf
  {
    Deliver(step, x, b) == EchoByte(x, b)
  }

  ghost predicate ChecksEcho(step: Receiver) {
    forall x: Slave, b: byte | Valid(x) && x.phase == TxRenumConf :: ChecksAt(step, x, b)
  }

  /** Waiting for a break, the slave ignores every byte. */
  lemma {:induction false} IdleIgnores(step: Receiver, s: Slave, p: seq<byte>)
    requires IgnoresWhenIdle(step) && Valid(s) && s.phase == WaitBreak
    ensures Run(step, s, p) == Step(s, [])
    decreases |p|
  {
    if p != [] {
      assert IdleAt(step, s, p[0]);
      IdleIgnores(step, s, p[1..]);
    }
  }

  /** `p` written into `buffer` from index `at`. */
  function Store(buffer: seq<byte>, at: nat, p: seq<byte>): (r: seq<byte>)
    requires at + |p| <= |buffer|
    ensures |r| == |buffer| && r[at..at + |p|] == p
  {
    buffer[..at] + p + buffer[at + |p|..]
  }

  lemma StoreAppend(buffer: seq<byte>, at: nat, a: seq<byte>, q: seq<byte>)
    requires at + |a| + |q| <= |buffer|
    ensures Store(Store(buffer, at, a), at + |a|, q) == Store(buffer, at, a + q)
  {
  }

  lemma SliceCons(buffer: seq<byte>, i: nat, j: nat)
    requires i < j <= |buffer|
    ensures buffer[i..j] == [buffer[i]] + buffer[i + 1..j]
  {
  }

  /** The slave after the command bytes `p`: stored from its index on and checksummed. */
  function Collected(x: Slave, p: seq<byte>): (r: Slave)
    requires Valid(x) && x.idx + |p| <= x.len
    ensures Valid(r)
  {
    x.(idx := x.idx + |p|, crc := Fold(x.crc, p), buffer := Store(x.buffer, x.idx, p),
       phase := if x.idx + |p| < x.len then RxCtrlMsg else CheckRxCtrlMsgCrc)
  }

  /** One command byte is collecting that byte. */
  lemma CollectOne(x: Slave, b: byte)
    requires Valid(x) && x.phase == RxCtrlMsg && x.idx < x.len
    ensures CommandByte(x, b) == Step(Collected(x, [b]), [])
  {
    assert Store(x.buffer, x.idx, [b]) == x.buffer[x.idx := b];
    assert Fold(x.crc, [b]) == Crc8(Fold(x.crc, []), b);
  }

  /** Collecting two pieces one after the other is collecting them joined. */
  lemma CollectedAppend(x: Slave, a: seq<byte>, q: seq<byte>)
    requires Valid(x) && x.idx + |a| + |q| <= x.len
    ensures Collected(Collected(x, a), q) == Collected(x, a + q)
  {
    FoldAppend(x.crc, a, q);
    StoreAppend(x.buffer, x.idx, a, q);
  }

  /**
   * Command bytes are stored in order and checksummed, and the one that
   * reaches the command length moves on to the CRC check
   * (slave/src/pmlin-slave.c:218-223).
   */
  lemma {:induction false} CommandBytes(step: Receiver, x: Slave, p: seq<byte>)
    requires StoresCommands(step)
    requires Valid(x) && x.phase == RxCtrlMsg && x.idx < x.len && x.idx + |p| <= x.len
    ensures Run(step, x, p) == Step(Collected(x, p), [])
    decreases |p|
  {
    if p == [] {
      assert Store(x.buffer, x.idx, p) == x.buffer;
    } else {
      var b, q := p[0], p[1..];
      assert [b] + q == p;
      CommandStep(step, x, b, q);
      var y := Collected(x, [b]);
      if q != [] {
        CommandBytes(step, y, q);
        CollectedAppend(x, [b], q);
      }
    }
  }

  /** The first of several command bytes is collected, and the rest run from there. */
  lemma CommandStep(step: Receiver, x: Slave, b: byte, q: seq<byte>)
    requires StoresCommands(step)
    requires Valid(x) && x.phase == RxCtrlMsg && x.idx < x.len
    ensures Run(step, x, [b] + q) == Run(step, Collected(x, [b]), q)
  {
    CollectOne(x, b);
    assert StoresAt(step, x, b);
    var y := Collected(x, [b]);
    assert Deliver(step, x, b) == Step(y, []);
    assert ([b] + q)[0] == b && ([b] + q)[1..] == q;
    assert [] + Run(step, y, q).effects == Run(step, y, q).effects;
  }


  // ---------------------------------------------------------------------
  // One byte in a known state
  // ---------------------------------------------------------------------

  lemma RecvWhileIdle(dev: Device)
    ensures IgnoresWhenIdle(Recv(dev))
  {
  }

  lemma RecvStoresCommands(dev: Device)
    ensures StoresCommands(Recv(dev))
  {
  }

  lemma RecvChecksEcho(dev: Device)
    ensures ChecksEcho(Recv(dev))
  {
  }

  lemma ByteInHeader(s: Slave, b: byte, dev: Device)
    requires Valid(s) && s.phase == RxHeader
    ensures OnByte(s, b, false, dev) == HeaderByte(s, b, dev)
  {
  }

  lemma ByteInTrailer(s: Slave, b: byte, dev: Device)
    requires Valid(s) && (s.phase == CheckRxMsgCrc || s.phase == CheckRxCtrlMsgCrc)
    ensures OnByte(s, b, false, dev) == TrailerByte(s, b, dev)
  {
  }

  // ---------------------------------------------------------------------
  // Reception
  // ---------------------------------------------------------------------

  /** The slave after the break byte `h`. */
  function Started(s: Slave, h: byte): (r: Slave)
    requires Valid(s)
    ensures Valid(r) && r.phase == RxHeader && r.idx == 1 && r.myId == s.myId
  {
    s.(phase := RxHeader, idx := 1, crc := Crc8(CrcInit, h), buffer := s.buffer[0 := h])
  }

  /** The first two bytes of a frame are the header stage; the rest is fed to what it left. */
  lemma HearHeader(s: Slave, h: byte, c: byte, rest: seq<byte>, dev: Device)
    requires Valid(s)
    ensures var r := HeaderByte(Started(s, h), c, dev); var t := Feed(r.slave, rest, dev);
      Hear(s, [h, c] + rest, dev) == Step(t.slave, r.effects + t.effects)
  {
    BreakRestarts(s, h, dev);
    assert ([h, c] + rest)[1..] == [c] + rest;
    assert ([c] + rest)[1..] == rest;
    ByteInHeader(Started(s, h), c, dev);
  }

  /** A header that fails its CRC, or names another id, leaves the slave waiting for a break (slave/src/pmlin-slave.c:207-211, :97-98). */
  lemma HeaderRejected(s: Slave, h: byte, c: byte, dev: Device)
    requires Valid(s)
    requires c != Crc8(CrcInit, h) || SplitHeader(h).id as nat != s.myId
    ensures var r := HeaderByte(Started(s, h), c, dev);
      r.slave.phase == WaitBreak && r.slave.myId == s.myId && r.effects == []
  {
    Crc8ZeroIff(Crc8(CrcInit, h), c);
  }

  /** A command header for the slave's own id prepares a 5-byte command (slave/src/pmlin-slave.c:100-103). */
  lemma HeaderCommand(s: Slave, h: byte, c: byte, dev: Device)
    requires Valid(s)
    requires c == Crc8(CrcInit, h) && SplitHeader(h).id as nat == s.myId && SplitHeader(h).cls == MessageTypeCmd
    ensures HeaderByte(Started(s, h), c, dev) ==
      Step(s.(phase := RxCtrlMsg, idx := 0, len := CmdMsgLen, crc := CrcInit, buffer := s.buffer[0 := h][1 := c],
              msgType := MessageTypeCmd, msgId := SplitHeader(h).id), [])
  {
    Crc8ZeroIff(Crc8(CrcInit, h), c);
  }

  /**
   * Any other header for the slave's own id starts a transfer of that
   * class, and the device's answer picks the state
   * (slave/src/pmlin-slave.c:104-116).
   */
  lemma HeaderTransfer(s: Slave, h: byte, c: byte, dev: Device)
    requires Valid(s)
    requires c == Crc8(CrcInit, h) && SplitHeader(h).id as nat == s.myId && SplitHeader(h).cls != MessageTypeCmd
    ensures var r := HeaderByte(Started(s, h), c, dev);
      && |r.effects| > 0 && r.effects[0] == InitTransfer(SplitHeader(h).cls)
      && r.slave.idx == 0 && r.slave.crc == CrcInit
      && r.slave.phase == (if dev.transferKind == InitRxMsg then RxMsg
                           else if dev.transferKind == InitTxMsg then TxMsg
                           else WaitBreak)
  {
    var t := Started(s, h);
    Crc8ZeroIff(Crc8(CrcInit, h), c);
    assert t.idx + 1 == HeaderLen && Crc8(t.crc, c) == 0 && t.buffer[t.idx := c][0] == h;
  }

  /** A frame that fails the header check, or names another id, is ignored to its end. */
  lemma Ignored(s: Slave, frame: seq<byte>, dev: Device)
    requires Valid(s) && |frame| >= HeaderLen
    requires frame[1] != Crc8(CrcInit, frame[0]) || SplitHeader(frame[0]).id as nat != s.myId
    ensures var r := Hear(s, frame, dev);
      r.slave.phase == WaitBreak && r.slave.myId == s.myId && r.effects == []
  {
    var h, c := frame[0], frame[1];
    assert frame == [h, c] + frame[2..];
    HeaderRejected(s, h, c, dev);
    HearHeader(s, h, c, frame[2..], dev);
    RecvWhileIdle(dev);
    IdleIgnores(Recv(dev), HeaderByte(Started(s, h), c, dev).slave, frame[2..]);
  }

  /** The header of a request's frame splits back into the request's class and id. */
  lemma WireAddress(q: Exchange.Request)
    requires q.msgType < 8 && q.id < 32
    ensures var hd := SplitHeader(Exchange.Wire(q)[0]);
      hd.cls as nat == q.msgType && hd.id as nat == q.id
  {
    var cls, id := q.msgType as byte, q.id as byte;
    assert cls as nat == q.msgType && id as nat == q.id;
    HeaderRoundTrip(cls, id);
    assert Exchange.Wire(q)[0] == MakeHeader(cls, id);
  }

  /** A request the master addresses to another device leaves this slave idle. */
  lemma OtherIdIgnored(s: Slave, q: Exchange.Request, dev: Device)
    requires Valid(s) && q.msgType < 8 && q.id < 32 && q.id != s.myId
    ensures var r := Hear(s, Exchange.Wire(q), dev);
      r.slave.phase == WaitBreak && r.slave.myId == s.myId && r.effects == []
  {
    WireAddress(q);
    Ignored(s, Exchange.Wire(q), dev);
  }

  // ---------------------------------------------------------------------
  // A command arrives
  // ---------------------------------------------------------------------

  /** The slave once a whole command for it arrived and its checksum came out zero. */
  function Loaded(s: Slave, cmd: seq<byte>): (r: Slave)
    requires Valid(s) && |cmd| == CmdMsgLen
    ensures Valid(r)
  {
    s.(phase := CheckRxCtrlMsgCrc, idx := CmdMsgLen, len := CmdMsgLen, crc := 0, buffer := cmd + s.buffer[CmdMsgLen..],
       msgType := MessageTypeCmd, msgId := s.myId as byte)
  }

  /** The trailer byte of a message, checked against the running CRC (slave/src/pmlin-slave.c:224-232). */
  lemma TrailerChecked(z: Slave, f: byte, dev: Device)
    requires Valid(z) && z.phase == CheckRxCtrlMsgCrc
    ensures var r := Run(Recv(dev), z, [f]);
      && (f == z.crc ==> r == HandleMessage(z.(crc := 0), dev))
      && (f != z.crc ==> r.slave.phase == WaitBreak && r.slave.myId == z.myId && r.effects == [])
  {
    Crc8ZeroIff(z.crc, f);
    ByteInTrailer(z, f, dev);
    assert [f][1..] == [];
  }

  /** The five command bytes and the trailer after a command header. */
  lemma CommandFed(y: Slave, cmd: seq<byte>, f: byte, dev: Device)
    requires Valid(y) && y.phase == RxCtrlMsg && y.idx == 0 && y.len == CmdMsgLen && y.crc == CrcInit
    requires |cmd| == CmdMsgLen
    ensures var r := Feed(y, cmd + [f], dev);
      && (f == Fold(CrcInit, cmd) ==>
            r == HandleMessage(y.(phase := CheckRxCtrlMsgCrc, idx := CmdMsgLen, crc := 0,
                                  buffer := cmd + y.buffer[CmdMsgLen..]), dev))
      && (f != Fold(CrcInit, cmd) ==> r.slave.phase == WaitBreak && r.slave.myId == y.myId && r.effects == [])
  {
    RunAppend(Recv(dev), y, cmd, [f]);
    RecvStoresCommands(dev);
    CommandBytes(Recv(dev), y, cmd);
    var z := Collected(y, cmd);
    TrailerChecked(z, f, dev);
    assert Store(y.buffer, 0, cmd) == cmd + y.buffer[CmdMsgLen..];
  }

  /** A frame with a good command header for the slave's own id, five bytes and a trailer. */
  lemma CommandFrame(s: Slave, h: byte, c: byte, cmd: seq<byte>, f: byte, dev: Device)
    requires Valid(s) && |cmd| == CmdMsgLen
    requires c == Crc8(CrcInit, h) && SplitHeader(h).id as nat == s.myId && SplitHeader(h).cls == MessageTypeCmd
    ensures var r := Hear(s, [h, c] + (cmd + [f]), dev);
      && (f == Fold(CrcInit, cmd) ==> r == HandleMessage(Loaded(s, cmd), dev))
      && (f != Fold(CrcInit, cmd) ==> r.slave.phase == WaitBreak && r.slave.myId == s.myId && r.effects == [])
  {
    HearHeader(s, h, c, cmd + [f], dev);
    HeaderCommand(s, h, c, dev);
    var y := HeaderByte(Started(s, h), c, dev).slave;
    CommandFed(y, cmd, f, dev);
    assert y.buffer[CmdMsgLen..] == s.buffer[CmdMsgLen..];
  }

  /**
   * A command frame for the slave's own id with a good trailer reaches
   * `PMLIN_handle_message` with the five command bytes in the buffer
   * (slave/src/pmlin-slave.c:200-232).
   */
  lemma CommandArrives(s: Slave, cmd: seq<byte>, dev: Device)
    requires Valid(s) && s.myId < 32 && |cmd| == CmdMsgLen
    ensures Hear(s, Exchange.Wire(Exchange.Command(s.myId, cmd)), dev) == HandleMessage(Loaded(s, cmd), dev)
  {
    var q := Exchange.Command(s.myId, cmd);
    var w := Exchange.Wire(q);
    WireAddress(q);
    assert w == [w[0], w[1]] + (cmd + [Fold(CrcInit, cmd)]);
    CommandFrame(s, w[0], w[1], cmd, Fold(CrcInit, cmd), dev);
  }

  /** A command frame whose trailer does not check out is dropped without an answer. */
  lemma CorruptCommandDropped(s: Slave, cmd: seq<byte>, f: byte, dev: Device)
    requires Valid(s) && s.myId < 32 && |cmd| == CmdMsgLen && f != Fold(CrcInit, cmd)
    ensures var w := Exchange.Wire(Exchange.Command(s.myId, cmd));
      var r := Hear(s, w[..|w| - 1] + [f], dev);
      r.slave.phase == WaitBreak && r.slave.myId == s.myId && r.effects == []
  {
    var q := Exchange.Command(s.myId, cmd);
    var w := Exchange.Wire(q);
    WireAddress(q);
    assert w[..|w| - 1] + [f] == [w[0], w[1]] + (cmd + [f]);
    CommandFrame(s, w[0], w[1], cmd, f, dev);
  }

  // ---------------------------------------------------------------------
  // What a command does
  // ---------------------------------------------------------------------

  /** The five random bytes a PROBE answers with, and a RENUM confirms with. */
  predicate RandomBytes(b: seq<byte>, random: nat -> word)
    requires |b| >= CmdRespLen
  {
    forall i | 0 <= i < CmdRespLen :: b[i] == LowByte(random(CmdRespLen - 1 - i))
  }

  /** PROBE (slave/src/pmlin-slave.c:136-142): five random bytes are readied and transmission enabled. */
  lemma ProbeReadies(s: Slave, cmd: seq<byte>, dev: Device)
    requires Valid(s) && |cmd| == CmdMsgLen && cmd[CmdIdx] == CmdProbe
    ensures var r := HandleMessage(Loaded(s, cmd), dev);
      && r.effects == [EnableTx(true)]
      && r.slave.phase == TxCtrlResp && r.slave.idx == 0 && r.slave.len == CmdRespLen && r.slave.crc == CrcInit
      && RandomBytes(r.slave.buffer, dev.random)
  {
  }

  /**
   * RENUM (slave/src/pmlin-slave.c:143-150): the new id is byte 1 of the
   * command, five random bytes are readied for the confirmation, and the
   * backoff is at most 31 slots.
   */
  lemma RenumReadies(s: Slave, cmd: seq<byte>, dev: Device)
    requires Valid(s) && |cmd| == CmdMsgLen && cmd[CmdIdx] == CmdRenum
    ensures var r := HandleMessage(Loaded(s, cmd), dev);
      && r.effects == [] && r.slave.myId == s.myId
      && r.slave.phase == WaitRenumTimer && r.slave.renumTo == cmd[RenumIdIdx] as nat
      && r.slave.timer <= 31 * s.slot && r.slave.period == s.period
      && RandomBytes(r.slave.buffer, dev.random)
  {
  }

  /**
   * INQUIRE (slave/src/pmlin-slave.c:151-168): the indicator follows byte
   * 1 of the command; the answer carries the device type, the firmware
   * version and the button, while bits 0-6 of byte 4 still hold the
   * command's byte 4 instead of the hardware revision.
   */
  lemma InquireReadies(s: Slave, cmd: seq<byte>, dev: Device)
    requires Valid(s) && |cmd| == CmdMsgLen && cmd[CmdIdx] == CmdInquire
    ensures var r := HandleMessage(Loaded(s, cmd), dev); var b := r.slave.buffer;
      && r.effects == [Indicator(cmd[IndicatorIdx] & IndicatorEnableMask != 0, cmd[IndicatorIdx] & IndicatorCtrlMask != 0),
                       EnableTx(true)]
      && r.slave.phase == TxCtrlResp && r.slave.idx == 0 && r.slave.len == CmdMsgLen && r.slave.crc == CrcInit
      && ResponseType(b) == s.deviceType
      && b[FwVerMsbIdx] == HighByte(s.firmware) && b[FwVerLsbIdx] == LowByte(s.firmware)
      && (b[ButtonIdx] & ButtonMask != 0) == dev.button
      && b[HwRevIdx] & HwRevMask == cmd[HwRevIdx] & HwRevMask
  {
  }

  /** Any other command is dropped without an answer (slave/src/pmlin-slave.c:169-171). */
  lemma UnknownDropped(s: Slave, cmd: seq<byte>, dev: Device)
    requires Valid(s) && |cmd| == CmdMsgLen
    requires cmd[CmdIdx] != CmdProbe && cmd[CmdIdx] != CmdRenum && cmd[CmdIdx] != CmdInquire
    ensures var r := HandleMessage(Loaded(s, cmd), dev);
      r.effects == [] && r.slave.phase == WaitBreak && r.slave.myId == s.myId
  {
  }

  /** A data message with a good CRC is acknowledged and handed to `end_transfer` (slave/src/pmlin-slave.c:128-133). */
  lemma DataAcknowledged(s: Slave, dev: Device)
    requires Valid(s) && s.phase == CheckRxMsgCrc
    ensures var r := HandleMessage(s, dev);
      r.effects == [EnableTx(true), EndTransfer(s.msgType)] && r.slave.phase == TxAck
  {
  }

  // ---------------------------------------------------------------------
  // Sending the buffer
  // ---------------------------------------------------------------------

  /** The bytes a response leaves in the buffer, then their CRC. */
  function Response(x: Slave): seq<byte>
    requires Valid(x) && x.idx <= x.len
  {
    x.buffer[x.idx..x.len] + [Fold(x.crc, x.buffer[x.idx..x.len])]
  }

  /** The slave once its buffer is sent: a command response ends, a renumbering confirmation waits for its echo. */
  function Drained(x: Slave): (r: Slave)
    requires Valid(x) && x.idx <= x.len
    ensures Valid(r)
  {
    x.(idx := x.len, crc := Fold(x.crc, x.buffer[x.idx..x.len]),
       phase := if x.phase == TxCtrlResp then WaitBreak else x.phase)
  }

  /** One transmit interrupt of a response: the byte at the index, or the CRC once the buffer is exhausted. */
  ghost predicate SendsAt(send: Sender, x: Slave)
    requires Valid(x)
  {
    Emit(send, x) == if x.idx < x.len then Sent(x.(idx := x.idx + 1, crc := Crc8(x.crc, x.buffer[x.idx])), [], x.buffer[x.idx])
                     else Sent(if x.phase == TxCtrlResp then x.(phase := WaitBreak) else x, [EnableTx(false)], x.crc)
  }

  ghost predicate SendsBuffer(send: Sender) {
    forall x: Slave | Valid(x) && (x.phase == TxCtrlResp || x.phase == TxRenumConf) :: SendsAt(send, x)
  }


  lemma SendSendsBuffer(dev: Device)
    ensures SendsBuffer(Send(dev))
  {
  }

  /** Sending one buffer byte leaves the rest of the same response to send. */
  lemma SendOneMore(x: Slave, b: byte, y: Slave)
    requires Valid(x) && x.idx < x.len && b == x.buffer[x.idx]
    requires y == x.(idx := x.idx + 1, crc := Crc8(x.crc, b))
    ensures Drained(y) == Drained(x) && [b] + Response(y) == Response(x)
  {
    SliceCons(x.buffer, x.idx, x.len);
    FoldCons(x.crc, b, x.buffer[x.idx + 1..x.len]);
  }

  /** With bytes left, the first interrupt sends the byte at the index. */
  lemma BufferMore(send: Sender, x: Slave)
    requires SendsBuffer(send)
    requires Valid(x) && (x.phase == TxCtrlResp || x.phase == TxRenumConf) && x.idx < x.len
    ensures var y := x.(idx := x.idx + 1, crc := Crc8(x.crc, x.buffer[x.idx]));
      var r := Pump(send, y, x.len - x.idx);
      Pump(send, x, x.len - x.idx + 1) == TxRun(r.slave, r.effects, [x.buffer[x.idx]] + r.out)
  {
    var y := x.(idx := x.idx + 1, crc := Crc8(x.crc, x.buffer[x.idx]));
    assert SendsAt(send, x);
    assert Emit(send, x) == Sent(y, [], x.buffer[x.idx]);
    PumpStep(send, x, x.len - x.idx + 1);
    assert [] + Pump(send, y, x.len - x.idx).effects == Pump(send, y, x.len - x.idx).effects;
  }

  /** With no bytes left, the interrupt sends the CRC and transmission stops. */
  lemma BufferDone(send: Sender, x: Slave)
    requires SendsBuffer(send)
    requires Valid(x) && (x.phase == TxCtrlResp || x.phase == TxRenumConf) && x.idx == x.len
    ensures Pump(send, x, 1) == TxRun(Drained(x), [EnableTx(false)], Response(x))
  {
    var z := if x.phase == TxCtrlResp then x.(phase := WaitBreak) else x;
    assert SendsAt(send, x);
    assert Emit(send, x) == Sent(z, [EnableTx(false)], x.crc);
    PumpStep(send, x, 1);
    assert x.buffer[x.idx..x.len] == [];
    assert Drained(x) == z && Response(x) == [x.crc];
  }

  /**
   * Sending a command response or a renumbering confirmation
   * (slave/src/pmlin-slave.c:259-296): the buffer bytes from the index up
   * to the length, then their CRC, one per interrupt, and transmission
   * stops.
   */
  lemma {:induction false} BufferSent(send: Sender, x: Slave)
    requires SendsBuffer(send)
    requires Valid(x) && (x.phase == TxCtrlResp || x.phase == TxRenumConf) && x.idx <= x.len
    ensures Pump(send, x, x.len - x.idx + 1) == TxRun(Drained(x), [EnableTx(false)], Response(x))
    decreases x.len - x.idx
  {
    if x.idx < x.len {
      var b := x.buffer[x.idx];
      var y := x.(idx := x.idx + 1, crc := Crc8(x.crc, b));
      BufferMore(send, x);
      BufferSent(send, y);
      assert y.len - y.idx + 1 == x.len - x.idx;
      SendOneMore(x, b, y);
    } else {
      BufferDone(send, x);
    }
  }


  /** The transmit handler sends the buffer from the index on, then the CRC. */
  lemma ResponseSent(x: Slave, dev: Device)
    requires Valid(x) && (x.phase == TxCtrlResp || x.phase == TxRenumConf) && x.idx <= x.len
    ensures Transmit(x, x.len - x.idx + 1, dev) == TxRun(Drained(x), [EnableTx(false)], Response(x))
  {
    SendSendsBuffer(dev);
    BufferSent(Send(dev), x);
  }

  /**
   * After a data message checked out, the transmit handler sends the ACK
   * byte once and the slave goes back to waiting for a break
   * (slave/src/pmlin-slave.c:260-264); a second interrupt then sends
   * nothing new from the buffer.
   */
  lemma AckSent(x: Slave, dev: Device)
    requires Valid(x) && x.phase == TxAck
    ensures Transmit(x, 1, dev) == TxRun(x.(phase := WaitBreak), [EnableTx(false)], [AckChar])
  {
    assert Transmit(x, 1, dev) == Pump(Send(dev), x, 1);
  }

  // ---------------------------------------------------------------------
  // The renumbering backoff
  // ---------------------------------------------------------------------

  /** The slave once its backoff ran out: the confirmation is ready to send (slave/src/pmlin-slave.c:306-311). */
  function Armed(x: Slave): (r: Slave)
    requires Valid(x)
    ensures Valid(r)
  {
    x.(timer := 0, crc := CrcInit, idx := 0, len := CmdRespLen, verf := 0, phase := TxRenumConf)
  }

  /** Outside the backoff a tick does nothing (slave/src/pmlin-slave.c:300). */
  lemma {:induction false} TicksIdle(x: Slave, n: nat)
    requires Valid(x) && x.phase != WaitRenumTimer
    ensures Ticks(x, n) == Step(x, [])
    decreases n
  {
    if n > 0 {
      TicksIdle(x, n - 1);
    }
  }

  lemma PeelPeriod(j: nat, p: nat)
    requires j > 0
    ensures p <= j * p && (j - 1) * p == j * p - p
  {
  }

  /** While at least a period is left, each tick takes one period off the backoff (slave/src/pmlin-slave.c:302-304). */
  lemma {:induction false} Waiting(x: Slave, j: nat)
    requires Valid(x) && x.phase == WaitRenumTimer && j * x.period <= x.timer
    ensures Ticks(x, j) == Step(x.(timer := x.timer - j * x.period), [])
    decreases j
  {
    if j > 0 {
      PeelPeriod(j, x.period);
      var y := x.(timer := x.timer - x.period);
      Waiting(y, j - 1);
    }
  }

  /**
   * With a nonzero period, the confirmation is armed on tick `k + 1`
   * where `k` periods fit in the backoff, and transmission is enabled then
   * (slave/src/pmlin-slave.c:298-313).
   */
  lemma {:induction false} FiresAfter(x: Slave, k: nat)
    requires Valid(x) && x.phase == WaitRenumTimer
    requires k * x.period <= x.timer < k * x.period + x.period
    ensures Ticks(x, k + 1) == Step(Armed(x), [EnableTx(true)])
    decreases k
  {
    if k > 0 {
      PeelPeriod(k, x.period);
      var y := x.(timer := x.timer - x.period);
      assert OnTimer(x) == Step(y, []);
      FiresAfter(y, k - 1);
      assert Ticks(x, k + 1).effects == [] + Ticks(y, k).effects;
    } else {
      assert OnTimer(x) == Step(Armed(x), [EnableTx(true)]);
    }
  }

  lemma DivBounds(t: nat, p: nat)
    requires p > 0
    ensures (t / p) * p <= t < (t / p) * p + p
  {
  }

  /** The whole periods left in the backoff. */
  function Periods(x: Slave): nat
    requires x.period > 0
  {
    x.timer / x.period
  }

  /** In particular, the confirmation is armed on the tick after the whole periods run out. */
  lemma Fires(x: Slave)
    requires Valid(x) && x.phase == WaitRenumTimer && x.period > 0
    ensures Ticks(x, Periods(x) + 1) == Step(Armed(x), [EnableTx(true)])
  {
    DivBounds(x.timer, x.period);
    FiresAfter(x, Periods(x));
  }

  /** With a zero period the backoff never runs out, so the renumbering is never confirmed. */
  lemma {:induction false} ZeroPeriodNeverFires(x: Slave, n: nat)
    requires Valid(x) && x.phase == WaitRenumTimer && x.period == 0
    ensures Ticks(x, n) == Step(x, [])
    decreases n
  {
    if n > 0 {
      assert x.(timer := x.timer - x.period) == x;
      ZeroPeriodNeverFires(x, n - 1);
    }
  }

  /**
   * A byte heard during the backoff means another slave confirmed first:
   * the slave gives up and later ticks do nothing
   * (slave/src/pmlin-slave.c:233-236).
   */
  lemma BeatenToIt(x: Slave, b: byte, dev: Device, n: nat)
    requires Valid(x) && x.phase == WaitRenumTimer
    ensures var r := OnByte(x, b, false, dev);
      && r.slave.phase == WaitBreak && r.effects == [] && r.slave.myId == x.myId
      && Ticks(r.slave, n) == Step(r.slave, [])
  {
    TicksIdle(OnByte(x, b, false, dev).slave, n);
  }

  // ---------------------------------------------------------------------
  // The echo of the confirmation
  // ---------------------------------------------------------------------

  /** What the slave still expects to hear back: the rest of its five bytes, then their CRC. */
  function Expected(c: Slave): seq<byte>
    requires Valid(c) && c.verf <= c.len
  {
    c.buffer[c.verf..c.len] + [c.crc]
  }

  /** `e` begins with all of `want`. */
  predicate Echoes(e: seq<byte>, want: seq<byte>) {
    |e| >= |want| && e[..|want|] == want
  }

  lemma EchoesCons(e: seq<byte>, want: seq<byte>)
    requires |e| > 0 && |want| > 0 && e[0] == want[0]
    ensures Echoes(e, want) <==> Echoes(e[1..], want[1..])
  {
    if Echoes(e[1..], want[1..]) {
      assert e[..|want|] == [e[0]] + e[1..][..|want| - 1];
      assert want == [want[0]] + want[1..];
    }
  }

  /** The last echoed byte must be the CRC (slave/src/pmlin-slave.c:245-252). */
  lemma EchoLast(step: Receiver, c: Slave, e: seq<byte>)
    requires ChecksEcho(step) && IgnoresWhenIdle(step)
    requires Valid(c) && c.phase == TxRenumConf && c.verf == c.len && e != []
    ensures var r := Run(step, c, e); var ok := e[0] == c.crc;
      && r.slave.myId == (if ok then c.renumTo else c.myId)
      && r.effects == (if ok then [StoreId(c.renumTo as byte)] else [])
      && r.slave.phase == WaitBreak
  {
    assert ChecksAt(step, c, e[0]);
    if e[0] == c.crc {
      IdleIgnores(step, c.(myId := c.renumTo, phase := WaitBreak), e[1..]);
    } else {
      IdleIgnores(step, c.(phase := WaitBreak), e[1..]);
    }
  }

  /** An echoed buffer byte that differs ends the check (slave/src/pmlin-slave.c:239-243). */
  lemma EchoWrong(step: Receiver, c: Slave, e: seq<byte>)
    requires ChecksEcho(step) && IgnoresWhenIdle(step)
    requires Valid(c) && c.phase == TxRenumConf && c.verf < c.len && e != [] && e[0] != c.buffer[c.verf]
    ensures Run(step, c, e) == Step(c.(verf := c.verf + 1, phase := WaitBreak), [])
  {
    assert ChecksAt(step, c, e[0]);
    IdleIgnores(step, c.(verf := c.verf + 1, phase := WaitBreak), e[1..]);
  }

  /** An echoed buffer byte that matches moves the check on by one. */
  lemma EchoRight(step: Receiver, c: Slave, e: seq<byte>)
    requires ChecksEcho(step)
    requires Valid(c) && c.phase == TxRenumConf && c.verf < c.len && e != [] && e[0] == c.buffer[c.verf]
    ensures var d := c.(verf := c.verf + 1);
      && Run(step, c, e) == Run(step, d, e[1..])
      && (Echoes(e, Expected(c)) <==> Echoes(e[1..], Expected(d)))
      && (|e| >= |Expected(c)| <==> |e[1..]| >= |Expected(d)|)
  {
    var d := c.(verf := c.verf + 1);
    assert ChecksAt(step, c, e[0]);
    assert Expected(d) == Expected(c)[1..];
    EchoesCons(e, Expected(c));
  }

  /**
   * The echo check of the renumbering confirmation
   * (slave/src/pmlin-slave.c:237-253): the id changes, and is stored, if
   * and only if what comes back begins with exactly the bytes sent and
   * their CRC; once that many bytes came back, the slave waits for a
   * break either way.
   */
  lemma {:induction false} EchoRun(step: Receiver, c: Slave, e: seq<byte>)
    requires ChecksEcho(step) && IgnoresWhenIdle(step)
    requires Valid(c) && c.phase == TxRenumConf && c.verf <= c.len
    ensures var r := Run(step, c, e); var ok := Echoes(e, Expected(c));
      && r.slave.myId == (if ok then c.renumTo else c.myId)
      && r.effects == (if ok then [StoreId(c.renumTo as byte)] else [])
      && (|e| >= |Expected(c)| ==> r.slave.phase == WaitBreak)
    decreases |e|
  {
    var want := Expected(c);
    if e == [] {
    } else if c.verf == c.len {
      assert want == [c.crc];
      EchoLast(step, c, e);
    } else if e[0] != c.buffer[c.verf] {
      EchoWrong(step, c, e);
      assert want[0] == c.buffer[c.verf];
      assert |e| >= |want| ==> e[..|want|][0] == e[0];
      assert !Echoes(e, want);
    } else {
      var d := c.(verf := c.verf + 1);
      EchoRight(step, c, e);
      EchoRun(step, d, e[1..]);
    }
  }

  /** The echo check, on the bytes the slave hears. */
  lemma EchoChecked(c: Slave, e: seq<byte>, dev: Device)
    requires Valid(c) && c.phase == TxRenumConf && c.verf <= c.len
    ensures var r := Feed(c, e, dev); var ok := Echoes(e, Expected(c));
      && r.slave.myId == (if ok then c.renumTo else c.myId)
      && r.effects == (if ok then [StoreId(c.renumTo as byte)] else [])
      && (|e| >= |Expected(c)| ==> r.slave.phase == WaitBreak)
  {
    RecvChecksEcho(dev);
    RecvWhileIdle(dev);
    EchoRun(Recv(dev), c, e);
  }

  // ---------------------------------------------------------------------
  // Master and slave on one line
  // ---------------------------------------------------------------------

  /** A ready response of five bytes is sent as those bytes and their CRC. */
  lemma FiveSent(x: Slave, dev: Device)
    requires Valid(x) && (x.phase == TxCtrlResp || x.phase == TxRenumConf)
    requires x.idx == 0 && x.len == CmdRespLen && x.crc == CrcInit
    ensures var t := Transmit(x, CmdRespLen + 1, dev);
      && t.out == x.buffer[..CmdRespLen] + [Fold(CrcInit, x.buffer[..CmdRespLen])]
      && t.slave == Drained(x) && t.effects == [EnableTx(false)]
  {
    ResponseSent(x, dev);
    assert x.len - x.idx + 1 == CmdRespLen + 1;
    assert x.buffer[x.idx..x.len] == x.buffer[..CmdRespLen];
    assert Response(x) == x.buffer[..CmdRespLen] + [Fold(CrcInit, x.buffer[..CmdRespLen])];
  }

  /** The master reads back a reply that is five bytes and their CRC. */
  lemma MasterReads(id: u8, cmd: seq<byte>, out: seq<byte>, brk: byte)
    requires |cmd| == CmdMsgLen && |out| == CmdRespLen + 1 && out[CmdRespLen] == Fold(CrcInit, out[..CmdRespLen])
    ensures var got := [brk] + Exchange.Wire(Exchange.Command(id, cmd)) + out;
      Exchange.CmdStatus(got) == Codes.Ok && Exchange.CmdResponse(got) == out[..CmdRespLen]
  {
    var resp := out[..CmdRespLen];
    var w := Exchange.Wire(Exchange.Command(id, cmd));
    assert out == resp + [Fold(CrcInit, resp)];
    assert [brk] + w + out == [brk] + w + resp + [Fold(CrcInit, resp)];
    Exchange.CmdRoundTrip(id, cmd, resp, brk);
  }

  /** The answer to a PROBE, once it is dispatched. */
  lemma ProbeSent(s: Slave, cmd: seq<byte>, dev: Device)
    requires Valid(s) && |cmd| == CmdMsgLen && cmd[CmdIdx] == CmdProbe
    ensures var a := HandleMessage(Loaded(s, cmd), dev); var t := Transmit(a.slave, CmdRespLen + 1, dev);
      && a.effects == [EnableTx(true)] && t.slave.phase == WaitBreak && t.slave.myId == s.myId
      && RandomBytes(t.out, dev.random) && t.out[CmdRespLen] == Fold(CrcInit, t.out[..CmdRespLen])
  {
    var a := HandleMessage(Loaded(s, cmd), dev);
    ProbeReadies(s, cmd, dev);
    FiveSent(a.slave, dev);
    var t := Transmit(a.slave, CmdRespLen + 1, dev);
    assert t.out[..CmdRespLen] == a.slave.buffer[..CmdRespLen];
    RandomPrefix(t.out, a.slave.buffer, dev.random);
  }

  /** Random bytes stay random bytes when copied. */
  lemma RandomPrefix(b: seq<byte>, c: seq<byte>, random: nat -> word)
    requires |b| >= CmdRespLen && |c| >= CmdRespLen && b[..CmdRespLen] == c[..CmdRespLen]
    requires RandomBytes(c, random)
    ensures RandomBytes(b, random)
  {
    forall i | 0 <= i < CmdRespLen
      ensures b[i] == LowByte(random(CmdRespLen - 1 - i))
    {
      assert b[i] == b[..CmdRespLen][i];
    }
  }

  /** What the slave sends back to a PROBE for its id: five random bytes and their CRC. */
  lemma ProbeReply(s: Slave, cmd: seq<byte>, dev: Device)
    requires Valid(s) && s.myId < 32 && |cmd| == CmdMsgLen && cmd[CmdIdx] == CmdProbe
    ensures var a := Hear(s, Exchange.Wire(Exchange.Command(s.myId, cmd)), dev);
      var t := Transmit(a.slave, CmdRespLen + 1, dev);
      && a.effects == [EnableTx(true)] && t.slave.phase == WaitBreak && t.slave.myId == s.myId
      && RandomBytes(t.out, dev.random) && t.out[CmdRespLen] == Fold(CrcInit, t.out[..CmdRespLen])
  {
    CommandArrives(s, cmd, dev);
    ProbeSent(s, cmd, dev);
  }

  /**
   * A PROBE for the slave's id is answered with its five random bytes, and
   * the master's `PMLIN_send_cmd_message` reads them back with status OK
   * (slave/src/pmlin-slave.c:136-142).
   */
  lemma ProbeAnswered(s: Slave, cmd: seq<byte>, dev: Device, brk: byte)
    requires Valid(s) && s.myId < 32 && |cmd| == CmdMsgLen && cmd[CmdIdx] == CmdProbe
    ensures var w := Exchange.Wire(Exchange.Command(s.myId, cmd));
      var t := Transmit(Hear(s, w, dev).slave, CmdRespLen + 1, dev);
      var got := [brk] + w + t.out;
      Exchange.CmdStatus(got) == Codes.Ok && RandomBytes(Exchange.CmdResponse(got), dev.random)
  {
    ProbeReply(s, cmd, dev);
    var w := Exchange.Wire(Exchange.Command(s.myId, cmd));
    var out := Transmit(Hear(s, w, dev).slave, CmdRespLen + 1, dev).out;
    MasterReads(s.myId, cmd, out, brk);
  }

  /** The answer to an INQUIRE, once it is dispatched. */
  lemma InquireSent(s: Slave, cmd: seq<byte>, dev: Device)
    requires Valid(s) && |cmd| == CmdMsgLen && cmd[CmdIdx] == CmdInquire
    ensures var a := HandleMessage(Loaded(s, cmd), dev);
      var t := Transmit(a.slave, CmdRespLen + 1, dev); var resp := t.out[..CmdRespLen];
      && t.slave.phase == WaitBreak && t.out[CmdRespLen] == Fold(CrcInit, resp)
      && ResponseType(resp) == s.deviceType
      && resp[FwVerMsbIdx] == HighByte(s.firmware) && resp[FwVerLsbIdx] == LowByte(s.firmware)
      && (resp[ButtonIdx] & ButtonMask != 0) == dev.button
      && resp[HwRevIdx] & HwRevMask == cmd[HwRevIdx] & HwRevMask
  {
    InquireReadies(s, cmd, dev);
    var x := HandleMessage(Loaded(s, cmd), dev).slave;
    FiveSent(x, dev);
    assert ResponseType(x.buffer[..CmdRespLen]) == ResponseType(x.buffer);
  }

  /** What the slave sends back to an INQUIRE for its id. */
  lemma InquireReply(s: Slave, cmd: seq<byte>, dev: Device)
    requires Valid(s) && s.myId < 32 && |cmd| == CmdMsgLen && cmd[CmdIdx] == CmdInquire
    ensures var a := Hear(s, Exchange.Wire(Exchange.Command(s.myId, cmd)), dev);
      var t := Transmit(a.slave, CmdRespLen + 1, dev); var resp := t.out[..CmdRespLen];
      && t.slave.phase == WaitBreak && t.out[CmdRespLen] == Fold(CrcInit, resp)
      && ResponseType(resp) == s.deviceType
      && resp[FwVerMsbIdx] == HighByte(s.firmware) && resp[FwVerLsbIdx] == LowByte(s.firmware)
      && (resp[ButtonIdx] & ButtonMask != 0) == dev.button
      && resp[HwRevIdx] & HwRevMask == cmd[HwRevIdx] & HwRevMask
  {
    CommandArrives(s, cmd, dev);
    InquireSent(s, cmd, dev);
  }

  /**
   * An INQUIRE for the slave's id is answered, and the master reads back
   * the device type, the firmware version and the button
   * (slave/src/pmlin-slave.c:151-168). Where the hardware revision belongs
   * it reads the command's own bits.
   */
  lemma InquireAnswered(s: Slave, cmd: seq<byte>, dev: Device, brk: byte)
    requires Valid(s) && s.myId < 32 && |cmd| == CmdMsgLen && cmd[CmdIdx] == CmdInquire
    ensures var w := Exchange.Wire(Exchange.Command(s.myId, cmd));
      var t := Transmit(Hear(s, w, dev).slave, CmdRespLen + 1, dev);
      var got := [brk] + w + t.out; var resp := Exchange.CmdResponse(got);
      && Exchange.CmdStatus(got) == Codes.Ok
      && ResponseType(resp) == s.deviceType
      && resp[FwVerMsbIdx] == HighByte(s.firmware) && resp[FwVerLsbIdx] == LowByte(s.firmware)
      && (resp[ButtonIdx] & ButtonMask != 0) == dev.button
      && resp[HwRevIdx] & HwRevMask == cmd[HwRevIdx] & HwRevMask
  {
    InquireReply(s, cmd, dev);
    var w := Exchange.Wire(Exchange.Command(s.myId, cmd));
    var out := Transmit(Hear(s, w, dev).slave, CmdRespLen + 1, dev).out;
    MasterReads(s.myId, cmd, out, brk);
  }

  /**
   * The master's zero-filled INQUIRE is answered with revision bits 0,
   * whatever hardware revision the slave was initialised with.
   */
  lemma MasterInquireRevisionZero(s: Slave, dev: Device, brk: byte)
    requires Valid(s) && s.myId < 32
    ensures var w := Exchange.Wire(Exchange.Command(s.myId, PlainCommand(CmdInquire)));
      var t := Transmit(Hear(s, w, dev).slave, CmdRespLen + 1, dev);
      var got := [brk] + w + t.out;
      && Exchange.CmdStatus(got) == Codes.Ok
      && Exchange.CmdResponse(got)[HwRevIdx] & HwRevMask == 0
  {
    var cmd := PlainCommand(CmdInquire);
    assert cmd[HwRevIdx] == cmd[2..][2] == 0;
    InquireAnswered(s, cmd, dev, brk);
  }

  /** The slave after its backoff and its confirmation went out. */
  lemma ConfirmationSent(a: Slave, dev: Device)
    requires Valid(a) && a.phase == WaitRenumTimer && a.period > 0
    ensures var b := Ticks(a, Periods(a) + 1).slave; var t := Transmit(b, CmdRespLen + 1, dev);
      && b == Armed(a)
      && t.out == a.buffer[..CmdRespLen] + [Fold(CrcInit, a.buffer[..CmdRespLen])]
      && t.slave.phase == TxRenumConf && t.slave.verf == 0 && Expected(t.slave) == t.out
      && t.slave.renumTo == a.renumTo
  {
    Fires(a);
    FiveSent(Armed(a), dev);
    assert Drained(Armed(a)).buffer[0..CmdRespLen] == a.buffer[..CmdRespLen];
  }

  /** A RENUM for the slave's id leaves it in its backoff with the new id noted. */
  lemma RenumHeard(s: Slave, cmd: seq<byte>, dev: Device)
    requires Valid(s) && s.myId < 32 && |cmd| == CmdMsgLen && cmd[CmdIdx] == CmdRenum
    ensures var a := Hear(s, Exchange.Wire(Exchange.Command(s.myId, cmd)), dev).slave;
      && a.phase == WaitRenumTimer && a.period == s.period && a.myId == s.myId
      && a.renumTo == cmd[RenumIdIdx] as nat && a.renumTo as byte == cmd[RenumIdIdx]
  {
    CommandArrives(s, cmd, dev);
    RenumReadies(s, cmd, dev);
  }

  /**
   * A lone slave in its backoff: once the backoff runs out it sends its
   * confirmation, hears it back unchanged, and takes the new id.
   */
  lemma LoneConfirmation(a: Slave, dev: Device)
    requires Valid(a) && a.phase == WaitRenumTimer && a.period > 0
    ensures var b := Ticks(a, Periods(a) + 1).slave;
      var t := Transmit(b, CmdRespLen + 1, dev);
      var e := Feed(t.slave, t.out, dev);
      && t.out[CmdRespLen] == Fold(CrcInit, t.out[..CmdRespLen])
      && e.slave.myId == a.renumTo && e.effects == [StoreId(a.renumTo as byte)]
      && e.slave.phase == WaitBreak
  {
    ConfirmationSent(a, dev);
    var t := Transmit(Ticks(a, Periods(a) + 1).slave, CmdRespLen + 1, dev);
    EchoChecked(t.slave, t.out, dev);
    assert Echoes(t.out, Expected(t.slave));
  }

  /**
   * A lone slave renumbered: the master's RENUM reaches the slave, the
   * backoff runs out, the confirmation goes out and is read by the master
   * with status OK, the slave hears its own confirmation back, and then
   * takes and stores the new id (slave/src/pmlin-slave.c:143-150,
   * :233-253, :298-313).
   */
  lemma LoneSlaveRenumbered(s: Slave, cmd: seq<byte>, dev: Device, brk: byte)
    requires Valid(s) && s.myId < 32 && s.period > 0 && |cmd| == CmdMsgLen && cmd[CmdIdx] == CmdRenum
    ensures var w := Exchange.Wire(Exchange.Command(s.myId, cmd));
      var a := Hear(s, w, dev).slave;
      a.period > 0 &&
      var b := Ticks(a, Periods(a) + 1).slave;
      var t := Transmit(b, CmdRespLen + 1, dev);
      var e := Feed(t.slave, t.out, dev);
      && Exchange.CmdStatus([brk] + w + t.out) == Codes.Ok
      && e.slave.myId == cmd[RenumIdIdx] as nat && e.effects == [StoreId(cmd[RenumIdIdx])]
  {
    RenumHeard(s, cmd, dev);
    var w := Exchange.Wire(Exchange.Command(s.myId, cmd));
    var a := Hear(s, w, dev).slave;
    LoneConfirmation(a, dev);
    var t := Transmit(Ticks(a, Periods(a) + 1).slave, CmdRespLen + 1, dev);
    MasterReads(s.myId, cmd, t.out, brk);
  }

  // ---------------------------------------------------------------------
  // The own id
  // ---------------------------------------------------------------------

  /**
   * The `k`-th interrupt of `events` was a received byte that completed a
   * renumbering confirmation, and the own id at the end is the id that
   * confirmation took.
   */
  predicate TookIdAt(s: Slave, events: seq<Event>, k: nat)
    requires Valid(s) && k < |events|
  {
    && events[k].ByteIn?
    && Confirms(Replay(s, events[..k]), events[k].data, events[k].brk)
    && Replay(s, events).myId == Replay(s, events[..k]).renumTo
  }

  /**
   * Whatever interrupts arrive, the own id is either the one the slave
   * started with or the one taken by the last completed confirmation: no
   * other handler path writes it (slave/src/pmlin-slave.c:233-252).
   */
  lemma {:induction false} IdOnlyFromConfirmation(s: Slave, events: seq<Event>)
    requires Valid(s)
    ensures Replay(s, events).myId == s.myId || exists k: nat | k < |events| :: TookIdAt(s, events, k)
    decreases |events|
  {
    if events != [] {
      var n := |events| - 1;
      var pre := events[..n];
      var r := Replay(s, pre);
      IdOnlyFromConfirmation(s, pre);
      if events[n].ByteIn? && Confirms(r, events[n].data, events[n].brk) {
        assert TookIdAt(s, events, n);
      } else if r.myId != s.myId {
        assert Replay(s, events).myId == r.myId;
        var k: nat :| k < |pre| && TookIdAt(s, pre, k);
        assert pre[..k] == events[..k];
        assert TookIdAt(s, events, k);
      }
    }
  }
}
