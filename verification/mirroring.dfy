/**
 * Message mirroring (master/src/pmlin-master.c:288-319,
 * master/src/pmlin-master.h:61-68,141-148): a table of periodic transfers,
 * each driven by a 16-bit down-counter that `PMLIN_mirror_tick` advances
 * once per call.
 */
module Mirroring {
  import opened Protocol
  import opened Codes
  import opened Wrappers
  import opened Exchange
  import opened Directory

  /** `uint16_t` for the ticker fields; the one wrap-around is written out in `NextTicker`. */
  type u16 = x: int | 0 <= x < 0x1_0000

  /**
   * `PMLIN_mirror_def_t`. The C struct points at a caller buffer; here the
   * buffer is a value that a pass returns updated.
   */
  datatype Mirror = Mirror(
    deviceId: u8,
    messageType: u8,
    buffer: seq<byte>,
    period: u16,
    phase: u16,
    ticker: u16)

  /**
   * One step of the down-counter: decrement, or reload with `period - 1`
   * when it reached zero. A zero period reloads with 0xFFFF (uint16_t wrap).
   */
  function NextTicker(ticker: u16, period: u16): (t: u16)
    ensures 0 < period && ticker < period ==> t < period
    ensures 0 < ticker ==> t == ticker - 1
    ensures ticker == 0 && 0 < period ==> t == period - 1
    ensures ticker == 0 && period == 0 ==> t == 0xFFFF
  {
    if ticker != 0 then ticker - 1 else (period + 0xFFFF) % 0x1_0000
  }

  /** The ticker after `k` calls. */
  function TickerAfter(ticker: u16, period: u16, k: nat): u16 {
    if k == 0 then ticker else NextTicker(TickerAfter(ticker, period, k - 1), period)
  }

  /** `a` calls followed by `b` calls are `a + b` calls. */
  lemma {:induction false} TickerAfterCompose(ticker: u16, period: u16, a: nat, b: nat)
    ensures TickerAfter(ticker, period, a + b) == TickerAfter(TickerAfter(ticker, period, a), period, b)
  {
    if b > 0 {
      TickerAfterCompose(ticker, period, a, b - 1);
    }
  }

  /**
   * The first `period` calls from an in-range ticker `u`: the counter runs
   * down from `u - 1` to 0, reloads with `period - 1` and runs down to `u`.
   */
  lemma {:induction false} TickerInWindow(u: u16, period: u16, j: nat)
    requires 0 < period && u < period && j <= period
    ensures TickerAfter(u, period, j) == if j <= u then u - j else period + u - j
  {
    if j > 0 {
      TickerInWindow(u, period, j - 1);
    }
  }

  /** With a nonzero period the ticker repeats every `period` calls. */
  lemma TickerPeriodic(ticker: u16, period: u16, k: nat)
    requires 0 < period && ticker < period
    ensures TickerAfter(ticker, period, k) < period
    ensures TickerAfter(ticker, period, k + period) == TickerAfter(ticker, period, k)
  {
    TickerStaysInRange(ticker, period, k);
    TickerAfterCompose(ticker, period, k, period);
    TickerInWindow(TickerAfter(ticker, period, k), period, period);
  }

  /** The ticker contract of `PMLIN_mirror_def_t`: the counter stays in [0, period). */
  lemma {:induction false} TickerStaysInRange(ticker: u16, period: u16, k: nat)
    requires 0 < period && ticker < period
    ensures TickerAfter(ticker, period, k) < period
  {
    if k > 0 {
      TickerStaysInRange(ticker, period, k - 1);
    }
  }

  /** The entry transfers on call `c` (counted from 1) when the ticker then equals the phase. */
  predicate FiresOnCall(ticker: u16, period: u16, phase: u16, c: nat) {
    TickerAfter(ticker, period, c) == phase
  }

  /**
   * Inside the window of `period` calls after call `start`, the entry fires
   * on exactly one call: the one where the counter, run down from its value
   * after `start` calls, meets the phase.
   */
  lemma FiringCallInWindow(ticker: u16, period: u16, phase: u16, start: nat, c: nat)
    requires 0 < period && ticker < period && phase < period
    requires start < c <= start + period
    ensures var u := TickerAfter(ticker, period, start);
      FiresOnCall(ticker, period, phase, c) <==>
        c == start + (if phase < u then u - phase else period + u - phase)
  {
    TickerStaysInRange(ticker, period, start);
    WindowCall(ticker, period, start, c - start);
    TickerInWindow(TickerAfter(ticker, period, start), period, c - start);
  }

  /**
   * Within any `period` consecutive calls an entry with an in-range phase
   * transfers exactly once.
   */
  lemma ExactlyOncePerPeriod(ticker: u16, period: u16, phase: u16, start: nat)
    requires 0 < period && ticker < period && phase < period
    ensures exists c | start < c <= start + period :: FiresOnCall(ticker, period, phase, c)
    ensures forall c1, c2 |
      start < c1 <= start + period && start < c2 <= start + period
      && FiresOnCall(ticker, period, phase, c1) && FiresOnCall(ticker, period, phase, c2) :: c1 == c2
  {
    var u := TickerAfter(ticker, period, start);
    TickerStaysInRange(ticker, period, start);
    var c := start + if phase < u then u - phase else period + u - phase;
    FiringCallInWindow(ticker, period, phase, start, c);
    forall c1, c2 |
      start < c1 <= start + period && start < c2 <= start + period
      && FiresOnCall(ticker, period, phase, c1) && FiresOnCall(ticker, period, phase, c2)
      ensures c1 == c2
    {
      FiringCallInWindow(ticker, period, phase, start, c1);
      FiringCallInWindow(ticker, period, phase, start, c2);
    }
  }

  /** Call `start + j` seen from the ticker value after `start` calls. */
  lemma WindowCall(ticker: u16, period: u16, start: nat, j: nat)
    ensures TickerAfter(ticker, period, start + j) == TickerAfter(TickerAfter(ticker, period, start), period, j)
  {
    TickerAfterCompose(ticker, period, start, j);
  }

  /**
   * Starting from a zero ticker, as a freshly defined table does, the first
   * transfer happens on call `period - phase`, not on call `phase`.
   */
  lemma FiresFromZero(period: u16, phase: u16, c: nat)
    requires 0 < period && phase < period && 1 <= c <= period
    ensures FiresOnCall(0, period, phase, c) <==> c == period - phase
  {
    TickerInWindow(0, period, c);
  }

  /** With a zero period the reload wraps to 0xFFFF, so the entry fires only once every 65536 calls. */
  lemma ZeroPeriodReloadsToMax(ticker: u16)
    ensures NextTicker(0, 0) == 0xFFFF
    ensures ticker > 0 ==> NextTicker(ticker, 0) == ticker - 1
  {
  }

  /** The message slot a mirror entry uses, when its device is declared. */
  function SlotOf(dir: Directory, m: Mirror): (d: Option<MessageDef>)
    requires m.deviceId < MaxNumId && WellFormed(dir) && m.messageType < 8
    ensures d.Some? <==> dir[m.deviceId].Some?
  {
    match dir[m.deviceId]
    case None => None
    case Some(decl) => Some(decl.messages[m.messageType])
  }

  /**
   * What the caller must arrange for the entries of the table: ids and
   * types index the directory and the slot array, and each declared
   * transfer fits the entry's buffer and the 8-bit length argument. A send
   * of 255 bytes would overflow send_message's buffer, so it is excluded.
   */
  predicate ValidEntry(dir: Directory, m: Mirror) {
    && m.deviceId < MaxNumId && m.messageType < 8 && WellFormed(dir)
    && match SlotOf(dir, m)
       case None => true
       case Some(slot) =>
         && slot.length % 256 <= |m.buffer|
         && (slot.dir == HostToSlave ==> slot.length % 256 <= 254)
  }

  /** A transfer's effect: the link afterwards, its status and the entry's buffer afterwards. */
  datatype Moved = Moved(link: Link, status: Status, buffer: seq<byte>)

  /**
   * The transfer of a due entry, in the slot's direction (any direction
   * other than HOST_TO_SLAVE receives) with the slot's 32-bit length passed
   * as the 8-bit `len`. A receive copies into the buffer whatever the
   * outcome; a send leaves it alone.
   */
  function Move(link: Link, id: u8, msgType: u8, slot: MessageDef, buffer: seq<byte>): (r: Moved)
    requires slot.length % 256 <= |buffer|
    requires slot.dir == HostToSlave ==> slot.length % 256 <= 254
    ensures |r.buffer| == |buffer|
    ensures r.link.initialized == link.initialized && r.link.bus == link.bus
    ensures slot.dir == HostToSlave ==>
      var tx := SendMessage(link, id, msgType, buffer[..slot.length % 256]);
      && r.link == tx.link && r.status == tx.status && r.buffer == buffer
    ensures slot.dir != HostToSlave ==>
      var rx := ReceiveMessage(link, id, msgType, slot.length % 256);
      && r.link == rx.link && r.status == rx.status
      && r.buffer[..|rx.data|] == rx.data
      && r.buffer[|rx.data|..] == buffer[|rx.data|..]
  {
    var len := slot.length % 256;
    if slot.dir == HostToSlave then
      var tx := SendMessage(link, id, msgType, buffer[..len]);
      Moved(tx.link, tx.status, buffer)
    else
      var rx := ReceiveMessage(link, id, msgType, len);
      Moved(rx.link, rx.status, rx.data + buffer[|rx.data|..])
  }

  /** The result of serving one entry: the entry as updated, the link, and the transfer's status. */
  datatype Served = Served(entry: Mirror, link: Link, status: Status)

  /**
   * One iteration of the loop: advance the ticker and, when it meets the
   * phase and the device is declared, move the slot's message.
   */
  function Serve(dir: Directory, link: Link, m: Mirror): (r: Served)
    requires ValidEntry(dir, m)
    ensures r.entry == m.(ticker := NextTicker(m.ticker, m.period), buffer := r.entry.buffer)
    ensures r.link.initialized == link.initialized && r.link.bus == link.bus
    ensures (r.entry.ticker != m.phase || SlotOf(dir, m).None?) ==>
      r.link == link && r.entry.buffer == m.buffer && r.status == Ok
    ensures r.entry.ticker == m.phase && SlotOf(dir, m).Some? ==>
      Moved(r.link, r.status, r.entry.buffer)
        == Move(link, m.deviceId, m.messageType, SlotOf(dir, m).value, m.buffer)
  {
    var m' := m.(ticker := NextTicker(m.ticker, m.period));
    if m'.ticker != m.phase then Served(m', link, Ok)
    else match SlotOf(dir, m)
      case None => Served(m', link, Ok)
      case Some(slot) =>
        var mv := Move(link, m.deviceId, m.messageType, slot, m.buffer);
        Served(m'.(buffer := mv.buffer), mv.link, mv.status)
  }

  /** The result of a tick: the table, the link, the status and the failing device id. */
  datatype Tick = Tick(table: seq<Mirror>, link: Link, status: Status, failed: Option<u8>)

  predicate ValidTable(dir: Directory, table: seq<Mirror>) {
    |table| < 256 && forall i | 0 <= i < |table| :: ValidEntry(dir, table[i])
  }

  /** Serving an entry keeps what makes it valid: its id, type and buffer size. */
  lemma ValidTableUpdate(dir: Directory, table: seq<Mirror>, i: nat, e: Mirror)
    requires ValidTable(dir, table) && i < |table|
    requires e.deviceId == table[i].deviceId && e.messageType == table[i].messageType
    requires |e.buffer| == |table[i].buffer|
    ensures ValidTable(dir, table[i := e])
  {
    assert SlotOf(dir, e) == SlotOf(dir, table[i]);
  }

  /** A table that agrees with `table[i := e]` up to `i` agrees with `table` before `i` and holds `e` at `i`. */
  lemma PrefixThroughUpdate(table: seq<Mirror>, i: nat, e: Mirror, later: seq<Mirror>)
    requires i < |table| == |later|
    requires later[..i + 1] == table[i := e][..i + 1]
    ensures later[..i] == table[..i] && later[i] == e
  {
    assert later[..i + 1][..i] == later[..i];
    assert table[i := e][..i + 1][..i] == table[..i];
    assert later[..i + 1][i] == later[i];
  }

  /**
   * `PMLIN_mirror_tick` from entry `i` on. The first transfer that is not
   * OK ends the pass: its device id is reported and later entries are left
   * as they were. `TickFromStepsBeforeFailure` and `TickFromKeepsIdleBuffers`
   * state what happens to the entries before it.
   */
  function TickFrom(dir: Directory, link: Link, table: seq<Mirror>, i: nat): (r: Tick)
    requires ValidTable(dir, table) && i <= |table|
    ensures |r.table| == |table| && r.table[..i] == table[..i]
    ensures r.status == Ok <==> r.failed.None?
    ensures r.link.initialized == link.initialized && r.link.bus == link.bus
    ensures r.status == Ok ==>
      forall j | i <= j < |table| :: r.table[j].ticker == NextTicker(table[j].ticker, table[j].period)
    ensures r.status != Ok ==>
      exists j | i <= j < |table| ::
        && r.failed == Some(table[j].deviceId)
        && r.table[j].ticker == NextTicker(table[j].ticker, table[j].period)
        && r.table[j].ticker == table[j].phase
        && SlotOf(dir, table[j]).Some?
        && r.table[j + 1..] == table[j + 1..]
    decreases |table| - i
  {
    if i == |table| then Tick(table, link, Ok, None)
    else
      var s := Serve(dir, link, table[i]);
      var table' := table[i := s.entry];
      if s.status != Ok then
        assert table'[i + 1..] == table[i + 1..];
        Tick(table', s.link, s.status, Some(table[i].deviceId))
      else
        ValidTableUpdate(dir, table, i, s.entry);
        var rest := TickFrom(dir, s.link, table', i + 1);
        PrefixThroughUpdate(table, i, s.entry, rest.table);
        rest
  }

  /** An entry the pass does not transfer: its ticker misses the phase, or its device is undeclared. */
  predicate Idle(dir: Directory, m: Mirror)
    requires ValidEntry(dir, m)
  {
    NextTicker(m.ticker, m.period) != m.phase || SlotOf(dir, m).None?
  }

  /**
   * The pass from `i` stopped at entry `j`: it reported `j`'s device after
   * a due, declared transfer, the entries from `i` through `j` advanced
   * their tickers, and every later entry is as it was.
   */
  predicate FailedAt(dir: Directory, table: seq<Mirror>, r: Tick, i: nat, j: nat)
    requires ValidTable(dir, table)
  {
    && |r.table| == |table| && i <= j < |table|
    && r.failed == Some(table[j].deviceId)
    && (forall k | i <= k <= j :: r.table[k].ticker == NextTicker(table[k].ticker, table[k].period))
    && r.table[j].ticker == table[j].phase
    && SlotOf(dir, table[j]).Some?
    && r.table[j + 1..] == table[j + 1..]
  }

  /** A pass that fails has stopped at some entry, as `FailedAt` describes. */
  lemma {:induction false} TickFromStepsBeforeFailure(dir: Directory, link: Link, table: seq<Mirror>, i: nat)
    requires ValidTable(dir, table) && i <= |table|
    ensures var r := TickFrom(dir, link, table, i);
      r.status != Ok ==> exists j :: FailedAt(dir, table, r, i, j)
    decreases |table| - i
  {
    if i < |table| {
      var s := Serve(dir, link, table[i]);
      var table' := table[i := s.entry];
      var r := TickFrom(dir, link, table, i);
      if s.status != Ok {
        assert r.table == table';
        assert FailedAt(dir, table, r, i, i);
      } else {
        ValidTableUpdate(dir, table, i, s.entry);
        TickFromStepsBeforeFailure(dir, s.link, table', i + 1);
        assert r == TickFrom(dir, s.link, table', i + 1);
        if r.status != Ok {
          var j :| FailedAt(dir, table', r, i + 1, j);
          FailedEarlier(dir, table, s.entry, r, i, j);
        }
      }
    }
  }

  /** Stopping at `j` in a pass from `i + 1` over `table[i := e]`, where `e` stepped, is stopping at `j` from `i`. */
  lemma FailedEarlier(dir: Directory, table: seq<Mirror>, e: Mirror, r: Tick, i: nat, j: nat)
    requires ValidTable(dir, table) && i < |table| && ValidTable(dir, table[i := e])
    requires FailedAt(dir, table[i := e], r, i + 1, j)
    requires r.table[..i + 1] == table[i := e][..i + 1]
    requires e.ticker == NextTicker(table[i].ticker, table[i].period)
    ensures FailedAt(dir, table, r, i, j)
  {
    var t := table[i := e];
    assert r.table[i] == r.table[..i + 1][i] == e;
    assert t[j + 1..] == table[j + 1..];
    forall k | i <= k <= j
      ensures r.table[k].ticker == NextTicker(table[k].ticker, table[k].period)
    {
      if k > i {
        assert t[k] == table[k];
      }
    }
  }

  /** The link after serving the entries `ms` in order, each on the link the previous one left. */
  function LinkAfter(dir: Directory, link: Link, ms: seq<Mirror>): (l: Link)
    requires ValidTable(dir, ms)
    ensures l.initialized == link.initialized && l.bus == link.bus
    decreases |ms|
  {
    if ms == [] then link else LinkAfter(dir, Serve(dir, link, ms[0]).link, ms[1..])
  }

  /**
   * The pass from `i` served entry `k` on the link the entries `i` to
   * `k - 1` left, which produced `r`'s entry `k`, the status OK and the
   * link the next entry starts from.
   */
  ghost predicate ServedOk(dir: Directory, link: Link, table: seq<Mirror>, r: Tick, i: nat, k: nat)
    requires ValidTable(dir, table) && i <= k < |table| == |r.table|
  {
    Serve(dir, LinkAfter(dir, link, table[i..k]), table[k])
      == Served(r.table[k], LinkAfter(dir, link, table[i..k + 1]), Ok)
  }

  /**
   * The pass from `i` served the entries before `j` with OK, and serving
   * entry `j` produced `r`'s entry `j`, link and failing status.
   */
  ghost predicate StoppedAt(dir: Directory, link: Link, table: seq<Mirror>, r: Tick, i: nat, j: nat)
    requires ValidTable(dir, table)
  {
    && |r.table| == |table| && i <= j < |table| && r.status != Ok
    && (forall k | i <= k < j :: ServedOk(dir, link, table, r, i, k))
    && Serve(dir, LinkAfter(dir, link, table[i..j]), table[j]) == Served(r.table[j], r.link, r.status)
  }

  /**
   * Every entry of the pass is what `Serve` made of it on the link the
   * earlier entries left: all of them with OK when the pass succeeds,
   * ending on the link they all left; otherwise those up to the one that
   * failed, whose link and status the pass returns.
   */
  lemma {:induction false} TickFromServes(dir: Directory, link: Link, table: seq<Mirror>, i: nat)
    requires ValidTable(dir, table) && i <= |table|
    ensures var r := TickFrom(dir, link, table, i);
      && (r.status == Ok ==>
            && r.link == LinkAfter(dir, link, table[i..])
            && forall k | i <= k < |table| :: ServedOk(dir, link, table, r, i, k))
      && (r.status != Ok ==> exists j :: StoppedAt(dir, link, table, r, i, j))
    decreases |table| - i
  {
    if i < |table| {
      var s := Serve(dir, link, table[i]);
      var table' := table[i := s.entry];
      var r := TickFrom(dir, link, table, i);
      assert table[i..i] == [];
      if s.status != Ok {
        assert r.table == table' && r.status == s.status && r.link == s.link;
        assert StoppedAt(dir, link, table, r, i, i);
      } else {
        ValidTableUpdate(dir, table, i, s.entry);
        TickFromServes(dir, s.link, table', i + 1);
        assert r == TickFrom(dir, s.link, table', i + 1);
        ServedThrough(dir, link, s.link, table, table', r, i, i + 1);
      }
    }
  }

  /**
   * Entry `i` served with OK, leaving the link `l`, followed by the pass
   * from `i + 1` over the table `t` with entry `i` updated, is the pass
   * from `i` over `table`.
   */
  lemma ServedThrough(dir: Directory, link: Link, l: Link, table: seq<Mirror>, t: seq<Mirror>, r: Tick, i: nat, next: nat)
    requires ValidTable(dir, table) && i < |table| && next == i + 1 && Serve(dir, link, table[i]).status == Ok
    requires l == Serve(dir, link, table[i]).link
    requires t == table[i := Serve(dir, link, table[i]).entry] && ValidTable(dir, t)
    requires |r.table| == |table| && r.table[..next] == t[..next]
    requires r.status == Ok ==>
      && r.link == LinkAfter(dir, l, t[next..])
      && forall k | next <= k < |table| :: ServedOk(dir, l, t, r, next, k)
    requires r.status != Ok ==> exists j :: StoppedAt(dir, l, t, r, next, j)
    ensures r.status == Ok ==>
      && r.link == LinkAfter(dir, link, table[i..])
      && forall k | i <= k < |table| :: ServedOk(dir, link, table, r, i, k)
    ensures r.status != Ok ==> exists j :: StoppedAt(dir, link, table, r, i, j)
  {
    FirstServed(dir, link, table, t, r, i);
    if r.status == Ok {
      LinkAfterFirst(dir, link, table, t, i, |table|);
      assert t[i + 1..] == t[i + 1..|table|] && table[i..] == table[i..|table|];
      forall k | i + 1 <= k < |table|
        ensures ServedOk(dir, link, table, r, i, k)
      {
        LaterServed(dir, link, l, table, t, r, i, k);
      }
    } else {
      var j: nat :| StoppedAt(dir, l, t, r, i + 1, j);
      StoppedThrough(dir, link, l, table, t, r, i, j);
    }
  }

  /** Stopping at `j` in the pass from `i + 1` over `t` is stopping at `j` in the pass from `i` over `table`. */
  lemma StoppedThrough(dir: Directory, link: Link, l: Link, table: seq<Mirror>, t: seq<Mirror>, r: Tick, i: nat, j: nat)
    requires ValidTable(dir, table) && i < |table| && Serve(dir, link, table[i]).status == Ok
    requires l == Serve(dir, link, table[i]).link
    requires t == table[i := Serve(dir, link, table[i]).entry] && ValidTable(dir, t)
    requires |r.table| == |table| && ServedOk(dir, link, table, r, i, i)
    requires StoppedAt(dir, l, t, r, i + 1, j)
    ensures StoppedAt(dir, link, table, r, i, j)
  {
    forall k | i + 1 <= k < j
      ensures ServedOk(dir, link, table, r, i, k)
    {
      LaterServed(dir, link, l, table, t, r, i, k);
    }
    LinkAfterFirst(dir, link, table, t, i, j);
    assert t[j] == table[j];
  }

  /** Entry `i` itself was served with OK into `r`'s entry `i`. */
  lemma FirstServed(dir: Directory, link: Link, table: seq<Mirror>, t: seq<Mirror>, r: Tick, i: nat)
    requires ValidTable(dir, table) && i < |table| && Serve(dir, link, table[i]).status == Ok
    requires t == table[i := Serve(dir, link, table[i]).entry]
    requires |r.table| == |table| && r.table[..i + 1] == t[..i + 1]
    ensures ServedOk(dir, link, table, r, i, i)
  {
    assert r.table[i] == r.table[..i + 1][i] == t[i];
    assert table[i..i] == [];
    assert table[i..i + 1] == [table[i]] && table[i..i + 1][1..] == [];
  }

  /** An entry after `i` served in the pass from `i + 1` over `t` was served in the pass from `i` over `table`. */
  lemma LaterServed(dir: Directory, link: Link, l: Link, table: seq<Mirror>, t: seq<Mirror>, r: Tick, i: nat, k: nat)
    requires ValidTable(dir, table) && i < k < |table| == |r.table|
    requires l == Serve(dir, link, table[i]).link
    requires t == table[i := Serve(dir, link, table[i]).entry] && ValidTable(dir, t)
    requires ServedOk(dir, l, t, r, i + 1, k)
    ensures ServedOk(dir, link, table, r, i, k)
  {
    LinkAfterFirst(dir, link, table, t, i, k);
    LinkAfterFirst(dir, link, table, t, i, k + 1);
    assert t[k] == table[k];
  }

  /**
   * Serving `table[i..k]` is serving `table[i]` and then the rest, which
   * `t` holds unchanged.
   */
  lemma LinkAfterFirst(dir: Directory, link: Link, table: seq<Mirror>, t: seq<Mirror>, i: nat, k: nat)
    requires ValidTable(dir, table) && i < k <= |table| == |t| && ValidTable(dir, t)
    requires forall n | i < n < |table| :: t[n] == table[n]
    ensures LinkAfter(dir, link, table[i..k]) == LinkAfter(dir, Serve(dir, link, table[i]).link, t[i + 1..k])
  {
    assert table[i..k][0] == table[i] && table[i..k][1..] == table[i + 1..k] == t[i + 1..k];
  }

  /** An entry of the pass that was not due, or whose device is undeclared, keeps its buffer. */
  lemma {:induction false} TickFromKeepsIdleBuffers(dir: Directory, link: Link, table: seq<Mirror>, i: nat)
    requires ValidTable(dir, table) && i <= |table|
    ensures var r := TickFrom(dir, link, table, i);
      forall k | i <= k < |table| && Idle(dir, table[k]) :: r.table[k].buffer == table[k].buffer
    decreases |table| - i
  {
    if i < |table| {
      var s := Serve(dir, link, table[i]);
      var table' := table[i := s.entry];
      var r := TickFrom(dir, link, table, i);
      if s.status != Ok {
        assert r.table == table';
      } else {
        ValidTableUpdate(dir, table, i, s.entry);
        TickFromKeepsIdleBuffers(dir, s.link, table', i + 1);
        assert r == TickFrom(dir, s.link, table', i + 1);
        assert r.table[i] == r.table[..i + 1][i] == table'[i];
        assert forall k | i < k < |table| :: table'[k] == table[k];
      }
    }
  }

  /** `PMLIN_mirror_tick`: one pass over the whole table. */
  function MirrorTick(dir: Directory, link: Link, table: seq<Mirror>): (r: Tick)
    requires ValidTable(dir, table)
    ensures |r.table| == |table|
    ensures r.status == Ok <==> r.failed.None?
    ensures r.status == Ok ==>
      forall j | 0 <= j < |table| :: r.table[j].ticker == NextTicker(table[j].ticker, table[j].period)
    ensures r.status != Ok ==> exists j :: FailedAt(dir, table, r, 0, j)
    ensures forall k | 0 <= k < |table| && Idle(dir, table[k]) :: r.table[k].buffer == table[k].buffer
    ensures r.status == Ok ==>
      && r.link == LinkAfter(dir, link, table)
      && forall k | 0 <= k < |table| :: ServedOk(dir, link, table, r, 0, k)
    ensures r.status != Ok ==> exists j :: StoppedAt(dir, link, table, r, 0, j)
  {
    TickFromServes(dir, link, table, 0);
    assert table[0..] == table;
    TickFromStepsBeforeFailure(dir, link, table, 0);
    TickFromKeepsIdleBuffers(dir, link, table, 0);
    TickFrom(dir, link, table, 0)
  }

  /** Entries whose device is not declared never touch the link. */
  lemma UndeclaredEntrySkipped(dir: Directory, link: Link, m: Mirror)
    requires ValidEntry(dir, m) && SlotOf(dir, m).None?
    ensures Serve(dir, link, m) == Served(m.(ticker := NextTicker(m.ticker, m.period)), link, Ok)
  {
  }

  /** Without an initialised link, a due transfer to a declared device fails with NO_INITIALIZED. */
  lemma DueTransferNeedsLink(dir: Directory, link: Link, m: Mirror)
    requires ValidEntry(dir, m) && SlotOf(dir, m).Some? && !link.initialized
    requires NextTicker(m.ticker, m.period) == m.phase
    ensures Serve(dir, link, m).status == NotInitializedError
    ensures Serve(dir, link, m).entry.buffer == m.buffer
  {
  }
}
