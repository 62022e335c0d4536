/**
 * Automatic configuration, `PMLIN_auto_config_internal`
 * (master/src/pmlin-master.c:372-579). Three phases over the master's
 * per-id arrays `resp[]` and `type[]`:
 *   1. scan every id whose result is neither OK nor NO_RESP, renumber the
 *      first conflicting id into the first silent one and start over;
 *   2. move a device answering at an undeclared id to a declared id
 *      nobody answers at, as long as both kinds exist;
 *   3. swap two devices when one answers at an id declared with the other
 *      one's type.
 * The caller's `renum[]` records every id a renumbering touched.
 */
module AutoConfig {
  import opened Protocol
  import opened Codes
  import opened Wrappers
  import opened Exchange
  import opened Directory
  import opened Config

  /** The ids the loops visit: 1..30 (they run up to 31 and skip the reserved id). */
  predicate Visited(id: nat) {
    FirstDeviceId as nat <= id < MaxNumId && id != ReservedId as nat
  }

  /** A result that makes the scan probe the id again: anything but OK and NO_RESP. */
  predicate Rescan(s: Status) {
    s != Ok && s != NoRespError
  }

  predicate Silent(s: Status) {
    s == NoRespError
  }

  /** The master's arrays `resp[]` and `type[]`, indexed by id. Index 0 is never read. */
  datatype View = View(resp: seq<Status>, types: seq<word>)

  predicate ValidView(v: View) {
    |v.resp| == MaxNumId && |v.types| == MaxNumId
  }

  /** The arrays as the function sets them up: every id to be probed, every type reserved. */
  function InitialView(): (v: View)
    ensures ValidView(v)
    ensures forall id | 0 <= id < MaxNumId :: Rescan(v.resp[id]) && v.types[id] == ReservedDeviceType
  {
    View(seq(MaxNumId, _ => CrcError), seq(MaxNumId, _ => ReservedDeviceType))
  }

  // ---------------------------------------------------------------------
  // Scanning
  // ---------------------------------------------------------------------

  /** The exchanges the scan made with one id: PROBE and, when it was acknowledged, INQUIRE. */
  datatype Probing = Probing(probe: Transfer, inquire: Option<Transfer>)

  /**
   * What a probed id's exchanges mean for its entries: the result is the
   * PROBE status; INQUIRE follows exactly an acknowledged PROBE, and only
   * an acknowledged INQUIRE replaces the type, with the big-endian value
   * of its response.
   */
  predicate ProbedAs(id: u8, p: Probing, oldType: word, resp: Status, ty: word) {
    && IsCommand(p.probe, id, PlainCommand(CmdProbe))
    && resp == CmdStatus(p.probe.received)
    && (p.inquire.Some? <==> resp == Ok)
    && match p.inquire
       case None => ty == oldType
       case Some(q) =>
         && IsCommand(q, id, PlainCommand(CmdInquire))
         && ty == if CmdStatus(q.received) == Ok then ResponseType(CmdResponse(q.received)) else oldType
  }

  /** One id's turn in the scan loop. */
  datatype ScanStep = ScanStep(link: Link, resp: Status, ty: word, probing: Option<Probing>, trace: seq<Transfer>)

  /** PROBE `id`; when acknowledged, INQUIRE it and take the reported type if that is acknowledged too. */
  method ScanOne(link: Link, id: u8, oldType: word) returns (r: ScanStep)
    ensures r.link == After(link, r.trace)
    ensures r.resp in {Ok, NoRespError, TimeoutError, CrcError, NotInitializedError}
    ensures r.probing.Some? <==> link.initialized
    ensures !link.initialized ==> r.resp == NotInitializedError && r.ty == oldType && r.trace == []
    ensures r.probing.Some? ==> ProbedAs(id, r.probing.value, oldType, r.resp, r.ty)
  {
    var probe := SendCmd(link, id, PlainCommand(CmdProbe), Zeros(CmdRespLen));
    if !link.initialized {
      return ScanStep(probe.link, probe.status, oldType, None, probe.trace);
    }
    if probe.status != Ok {
      return ScanStep(probe.link, probe.status, oldType, Some(Probing(probe.trace[0], None)), probe.trace);
    }
    var inquire := SendCmd(probe.link, id, PlainCommand(CmdInquire), probe.data);
    var ty := if inquire.status == Ok then ResponseType(inquire.data) else oldType;
    r := ScanStep(inquire.link, probe.status, ty, Some(Probing(probe.trace[0], Some(inquire.trace[0]))), probe.trace + inquire.trace);
  }

  /**
   * The scan's effect on one id: a visited id that needed probing has the
   * result and type its exchanges gave (NO_INITIALIZED without exchanges
   * when the master is not initialised); every other id is untouched.
   */
  predicate ScannedId(initialized: bool, v: View, w: View, probings: seq<Option<Probing>>, id: nat)
    requires ValidView(v) && ValidView(w) && |probings| == MaxNumId && id < MaxNumId
  {
    if Visited(id) && Rescan(v.resp[id]) then
      && w.resp[id] in {Ok, NoRespError, TimeoutError, CrcError, NotInitializedError}
      && (probings[id].Some? <==> initialized)
      && (!initialized ==> w.resp[id] == NotInitializedError && w.types[id] == v.types[id])
      && (probings[id].Some? ==> ProbedAs(id as u8, probings[id].value, v.types[id], w.resp[id], w.types[id]))
    else
      w.resp[id] == v.resp[id] && w.types[id] == v.types[id] && probings[id].None?
  }

  datatype Scanned = Scanned(link: Link, view: View, probings: seq<Option<Probing>>, trace: seq<Transfer>)

  /** The scan loop (master/src/pmlin-master.c:390-417). */
  method Scan(link: Link, v: View) returns (r: Scanned)
    requires ValidView(v)
    ensures ValidView(r.view) && |r.probings| == MaxNumId
    ensures r.link == After(link, r.trace)
    ensures forall id | 0 <= id < MaxNumId :: ScannedId(link.initialized, v, r.view, r.probings, id)
    ensures !link.initialized ==> r.trace == []
  {
    var l := link;
    var w := v;
    var probings: seq<Option<Probing>> := seq(MaxNumId, _ => None);
    var trace: seq<Transfer> := [];
    var id: nat := FirstDeviceId as nat;
    assert ScannedId(link.initialized, v, w, probings, 0);
    while id < MaxNumId
      invariant 1 <= id <= MaxNumId
      invariant ValidView(w) && |probings| == MaxNumId
      invariant l == After(link, trace)
      invariant !link.initialized ==> trace == []
      invariant forall j | 0 <= j < id :: ScannedId(link.initialized, v, w, probings, j)
      invariant forall j | id <= j < MaxNumId :: w.resp[j] == v.resp[j] && w.types[j] == v.types[j] && probings[j].None?
    {
      var w', probings' := w, probings;
      if Visited(id) && Rescan(w.resp[id]) {
        var s := ScanOne(l, id as u8, w.types[id]);
        w' := View(w.resp[id := s.resp], w.types[id := s.ty]);
        probings' := probings[id := s.probing];
        trace := trace + s.trace;
        l := s.link;
      }
      assert ScannedId(link.initialized, v, w', probings', id);
      ScanStepKeeps(link.initialized, v, w, probings, w', probings', id);
      w, probings := w', probings';
      id := id + 1;
    }
    r := Scanned(l, w, probings, trace);
  }

  /**
   * The scan as the phases see it: probed ids end with a PROBE result
   * (NOT_INITIALIZED throughout when the master is not initialised),
   * every other id keeps its result.
   */
  method ScanResults(link: Link, v: View) returns (r: Scanned)
    requires ValidView(v)
    ensures ValidView(r.view)
    ensures r.link == After(link, r.trace)
    ensures forall id | 0 <= id < MaxNumId && !(Visited(id) && Rescan(v.resp[id])) :: r.view.resp[id] == v.resp[id]
    ensures forall id | 0 <= id < MaxNumId && Visited(id) && Rescan(v.resp[id]) ::
      r.view.resp[id] in {Ok, NoRespError, TimeoutError, CrcError, NotInitializedError}
    ensures !link.initialized ==> r.trace == []
    ensures !link.initialized ==>
      forall id | 0 <= id < MaxNumId && Visited(id) && Rescan(v.resp[id]) :: r.view.resp[id] == NotInitializedError
  {
    r := Scan(link, v);
    ScanSummary(link.initialized, v, r.view, r.probings);
  }

  /** Settling id `id` keeps what the loop knows about the ids before and after it. */
  lemma ScanStepKeeps(initialized: bool, v: View, w: View, probings: seq<Option<Probing>>,
                      w': View, probings': seq<Option<Probing>>, id: nat)
    requires ValidView(v) && ValidView(w) && ValidView(w') && |probings| == |probings'| == MaxNumId
    requires 1 <= id < MaxNumId
    requires forall j | 0 <= j < id :: ScannedId(initialized, v, w, probings, j)
    requires forall j | 0 <= j < MaxNumId && j != id ::
      w'.resp[j] == w.resp[j] && w'.types[j] == w.types[j] && probings'[j] == probings[j]
    requires forall j | id < j < MaxNumId :: w.resp[j] == v.resp[j] && w.types[j] == v.types[j] && probings[j].None?
    requires ScannedId(initialized, v, w', probings', id)
    ensures forall j | 0 <= j < id + 1 :: ScannedId(initialized, v, w', probings', j)
    ensures forall j | id + 1 <= j < MaxNumId :: w'.resp[j] == v.resp[j] && w'.types[j] == v.types[j] && probings'[j].None?
  {
    forall j | 0 <= j < id
      ensures ScannedId(initialized, v, w', probings', j)
    {
      assert ScannedId(initialized, v, w, probings, j);
    }
  }

  /** What the scan's per-id account says about the results alone. */
  lemma ScanSummary(initialized: bool, v: View, w: View, probings: seq<Option<Probing>>)
    requires ValidView(v) && ValidView(w) && |probings| == MaxNumId
    requires forall id | 0 <= id < MaxNumId :: ScannedId(initialized, v, w, probings, id)
    ensures forall id | 0 <= id < MaxNumId && !(Visited(id) && Rescan(v.resp[id])) :: w.resp[id] == v.resp[id]
    ensures forall id | 0 <= id < MaxNumId && Visited(id) && Rescan(v.resp[id]) ::
      w.resp[id] in {Ok, NoRespError, TimeoutError, CrcError, NotInitializedError}
    ensures !initialized ==>
      forall id | 0 <= id < MaxNumId && Visited(id) && Rescan(v.resp[id]) :: w.resp[id] == NotInitializedError
  {
    forall id | 0 <= id < MaxNumId
      ensures w.resp[id] == v.resp[id] || (Visited(id) && Rescan(v.resp[id]))
      ensures Visited(id) && Rescan(v.resp[id]) ==>
        w.resp[id] in {Ok, NoRespError, TimeoutError, CrcError, NotInitializedError}
        && (!initialized ==> w.resp[id] == NotInitializedError)
    {
      assert ScannedId(initialized, v, w, probings, id);
    }
  }

  // ---------------------------------------------------------------------
  // Searches
  // ---------------------------------------------------------------------

  /** The first visited id from `from` on whose result satisfies `p`; 0 when there is none. */
  function FirstWith(resp: seq<Status>, from: nat, p: Status -> bool): (c: nat)
    requires |resp| == MaxNumId && from >= 1
    ensures c == 0 || (from <= c && Visited(c) && p(resp[c]))
    ensures forall id | from <= id < MaxNumId && Visited(id) && (c == 0 || id < c) :: !p(resp[id])
    decreases MaxNumId - from
  {
    if from >= MaxNumId then 0
    else if Visited(from) && p(resp[from]) then from
    else FirstWith(resp, from + 1, p)
  }

  /** A renumbering the master performed: the device at `from` now answers at `to`. */
  datatype Renumbering = Renumbering(from: u8, to: u8)

  /** Whether some renumbering of `moves` started or ended at `id`. */
  function Touches(moves: seq<Renumbering>, id: nat): bool {
    if moves == [] then false
    else
      var m := moves[|moves| - 1];
      Touches(moves[..|moves| - 1], id) || m.from as nat == id || m.to as nat == id
  }

  /** The same, as a search over the list. */
  lemma {:induction false} TouchesMeans(moves: seq<Renumbering>, id: nat)
    ensures Touches(moves, id) <==> exists k | 0 <= k < |moves| :: moves[k].from as nat == id || moves[k].to as nat == id
  {
    if moves != [] {
      var init := moves[..|moves| - 1];
      TouchesMeans(init, id);
      if Touches(init, id) {
        var k :| 0 <= k < |init| && (init[k].from as nat == id || init[k].to as nat == id);
        assert moves[k] == init[k];
      }
      forall k | 0 <= k < |moves| - 1
        ensures moves[k] == init[k]
      {
      }
    }
  }

  /** Every renumbering goes between visited ids. */
  predicate ValidMoves(moves: seq<Renumbering>) {
    forall k | 0 <= k < |moves| :: Visited(moves[k].from as nat) && Visited(moves[k].to as nat)
  }

  /**
   * The caller's `renum[]` as the function keeps it: ids 1..31 hold
   * ID_RENUM_WARNING exactly when a renumbering touched them and OK
   * otherwise.
   */
  predicate Marked(renum: seq<Status>, moves: seq<Renumbering>)
    requires |renum| >= MaxNumId
  {
    forall id | 1 <= id < MaxNumId :: renum[id] == if Touches(moves, id) then IdRenumWarning else Ok
  }

  /** Marking both ends of one more renumbering keeps the marks. */
  lemma MarkedSnoc(renum: seq<Status>, moves: seq<Renumbering>, m: Renumbering)
    requires |renum| >= MaxNumId && Marked(renum, moves)
    requires Visited(m.from as nat) && Visited(m.to as nat)
    ensures Marked(renum[m.from := IdRenumWarning][m.to := IdRenumWarning], moves + [m])
  {
    assert (moves + [m])[..|moves|] == moves;
  }

  /** `renum` agrees with `before` outside ids 1..31. */
  predicate SameOutside(renum: seq<Status>, before: seq<Status>)
    requires |before| >= MaxNumId
  {
    && |renum| == |before| && renum[0] == before[0]
    && forall j | MaxNumId <= j < |before| :: renum[j] == before[j]
  }

  // ---------------------------------------------------------------------
  // Phase 1: id conflicts
  // ---------------------------------------------------------------------

  /** How a phase ended: it finished, the function returned a code, it dereferenced NULL, or fuel ran out. */
  datatype Stop = Finished | Return(status: Status) | NullDereference(id: u8) | OutOfFuel

  /** The state carried through the phases. */
  datatype Run = Run(link: Link, view: View, renum: seq<Status>, moves: seq<Renumbering>, trace: seq<Transfer>)

  /** Invariant of the carried state, relative to the caller's array `renum0`. */
  predicate Good(r: Run, renum0: seq<Status>)
    requires |renum0| >= MaxNumId
  {
    && ValidView(r.view) && ValidMoves(r.moves)
    && SameOutside(r.renum, renum0) && Marked(r.renum, r.moves)
  }

  /** No id is left for the scan: every visited result is OK or NO_RESP. */
  predicate Settled(resp: seq<Status>)
    requires |resp| == MaxNumId
  {
    forall id | 0 <= id < MaxNumId && Visited(id) :: !Rescan(resp[id])
  }

  /** Every visited id is still to be probed, as the function starts out. */
  predicate Unsettled(resp: seq<Status>)
    requires |resp| == MaxNumId
  {
    forall id | 0 <= id < MaxNumId && Visited(id) :: Rescan(resp[id])
  }

  /** The results phase 1 may stop with besides finishing. */
  predicate ConflictStop(s: Stop) {
    s in {Finished, OutOfFuel, Return(NoFreeIdError), Return(NoRespError), Return(TimeoutError),
          Return(CrcError), Return(NotInitializedError)}
  }

  /**
   * What `PMLIN_renum_id` leaves behind: RENUM attempts to `oldId`, all
   * but the last unacknowledged, and the last attempt's status as the
   * result; without initialisation no exchange and NOT_INITIALIZED.
   */
  predicate RenumberedAs(initialized: bool, trace: seq<Transfer>, oldId: u8, newId: byte, status: Status) {
    && RenumAttempts(trace, oldId, newId)
    && (!initialized ==> status == NotInitializedError && trace == [])
    && (initialized ==> trace != [] && status == CmdStatus(trace[|trace| - 1].received))
  }

  /** `t` ends with `u`. */
  ghost predicate EndsWith<T>(t: seq<T>, u: seq<T>) {
    |u| <= |t| && t[|t| - |u|..] == u
  }

  /** Whatever comes before keeps the ending. */
  lemma EndsWithAfter<T>(pre: seq<T>, t: seq<T>, u: seq<T>)
    requires EndsWith(t, u)
    ensures EndsWith(pre + t, u)
  {
    assert (pre + t)[|pre + t| - |u|..] == t[|t| - |u|..];
  }

  /**
   * `PMLIN_renum_id` as the phases use it (master/src/pmlin-master.c:321-336):
   * the attempts it makes, its result, and that without initialisation it
   * exchanges nothing.
   */
  method Renumber(link: Link, oldId: u8, newId: u8) returns (o: Outcome)
    ensures o.link == After(link, o.trace)
    ensures RenumberedAs(link.initialized, o.trace, oldId, newId as byte, o.status)
    ensures o.status in {Ok, NoRespError, TimeoutError, CrcError, NotInitializedError}
    ensures !link.initialized ==> o.status == NotInitializedError && o.trace == []
  {
    o := RenumId(link, oldId, newId as byte);
  }

  /**
   * How a phase-1 round ends, given what its scan `seen` found: without a
   * conflicting id it finishes; with one but no silent id it returns
   * NO_FREE_ID_ERROR; otherwise the first conflicting id is renumbered to
   * the first silent id after the scan's exchanges, and the round either
   * records that move, marks both ids for the next scan and goes again, or
   * returns the renumbering's failing code.
   */
  predicate RoundEnds(initialized: bool, seen: Scanned, moves: seq<Renumbering>, r: Run, stop: Stop, again: bool)
    requires ValidView(seen.view)
  {
    && |seen.trace| <= |r.trace| && r.trace[..|seen.trace|] == seen.trace
    && var c := FirstWith(seen.view.resp, 1, Rescan);
       var f := FirstWith(seen.view.resp, 1, Silent);
    && (c == 0 ==> stop == Finished && !again && r.trace == seen.trace)
    && (c != 0 && f == 0 ==> stop == Return(NoFreeIdError) && !again && r.trace == seen.trace)
    && (c != 0 && f != 0 ==>
         && (again || stop.Return?)
         && RenumberedAs(initialized, r.trace[|seen.trace|..], c as u8, f as byte, if again then Ok else stop.status))
    && (again ==>
         && c != 0 && f != 0 && stop == Finished
         && r.moves == moves + [Renumbering(c as u8, f as u8)]
         && r.view == View(seen.view.resp[f := CrcError][c := CrcError], seen.view.types))
    && (!again ==> r.view == seen.view && r.moves == moves)
  }

  /**
   * The second half of a phase-1 round (master/src/pmlin-master.c:423-472),
   * on the arrays the scan `seen` left: find the first conflicting and the
   * first silent id and renumber the one to the other.
   */
  method RenumberConflict(s: Run, seen: Scanned, renum0: seq<Status>) returns (r: Run, stop: Stop, again: bool)
    requires |renum0| >= MaxNumId && Good(s, renum0) && ValidView(seen.view)
    ensures Good(r, renum0)
    ensures |seen.trace| <= |r.trace| && r.link == After(seen.link, r.trace[|seen.trace|..])
    ensures again ==> |r.moves| == |s.moves| + 1 && r.moves[..|s.moves|] == s.moves
    ensures ConflictStop(stop) && stop != OutOfFuel
    ensures stop == Finished && !again ==> Settled(r.view.resp)
    ensures RoundEnds(seen.link.initialized, seen, s.moves, r, stop, again)
  {
    var scanned := s.(link := seen.link, view := seen.view, trace := seen.trace);
    assert seen.trace[|seen.trace|..] == [];
    var c := FirstWith(seen.view.resp, 1, Rescan);
    if c == 0 {
      return scanned, Finished, false;
    }
    var f := FirstWith(seen.view.resp, 1, Silent);
    if f == 0 {
      return scanned, Return(NoFreeIdError), false;
    }
    r, stop, again := RenumberFound(s, seen, c, f, renum0);
  }

  /**
   * The renumbering of a phase-1 round (master/src/pmlin-master.c:446-471):
   * the first conflicting id `c` becomes the first silent id `f`. On
   * success both are marked in `renum[]` and left as CRC errors for the
   * next scan, and the round goes again; otherwise its code is returned.
   */
  method RenumberFound(s: Run, seen: Scanned, c: nat, f: nat, renum0: seq<Status>) returns (r: Run, stop: Stop, again: bool)
    requires |renum0| >= MaxNumId && Good(s, renum0) && ValidView(seen.view)
    requires c == FirstWith(seen.view.resp, 1, Rescan) && c != 0
    requires f == FirstWith(seen.view.resp, 1, Silent) && f != 0
    ensures Good(r, renum0)
    ensures |seen.trace| <= |r.trace| && r.trace[..|seen.trace|] == seen.trace
    ensures r.link == After(seen.link, r.trace[|seen.trace|..])
    ensures again || stop.Return?
    ensures RenumberedAs(seen.link.initialized, r.trace[|seen.trace|..], c as u8, f as byte, if again then Ok else stop.status)
    ensures again ==>
      && stop == Finished && r.moves == s.moves + [Renumbering(c as u8, f as u8)] && r.moves[..|s.moves|] == s.moves
      && r.view == View(seen.view.resp[f := CrcError][c := CrcError], seen.view.types)
    ensures !again ==> r.view == seen.view && r.moves == s.moves && stop.Return? && ConflictStop(stop)
  {
    var o := Renumber(seen.link, c as u8, f as u8);
    assert (seen.trace + o.trace)[..|seen.trace|] == seen.trace && (seen.trace + o.trace)[|seen.trace|..] == o.trace;
    if o.status != Ok {
      return s.(link := o.link, view := seen.view, trace := seen.trace + o.trace), Return(o.status), false;
    }
    var m := Renumbering(c as u8, f as u8);
    r := Run(o.link,
      View(seen.view.resp[f := CrcError][c := CrcError], seen.view.types),
      s.renum[c := IdRenumWarning][f := IdRenumWarning],
      s.moves + [m],
      seen.trace + o.trace);
    RecordMove(s, r, m, renum0);
    stop, again := Finished, true;
  }

  /**
   * One round of phase 1 (master/src/pmlin-master.c:386-472): scan, then
   * renumber the first conflicting id to the first silent id. Without a
   * free id the function returns NO_FREE_ID_ERROR; a failed renumbering
   * returns its code; a successful one asks for another round (`again`).
   * `seen` is what the scan left in the arrays.
   */
  method ConflictRound(s: Run, renum0: seq<Status>) returns (r: Run, stop: Stop, again: bool, seen: Scanned)
    requires |renum0| >= MaxNumId && Good(s, renum0)
    ensures Good(r, renum0)
    ensures r.link == After(s.link, r.trace)
    ensures again ==> stop == Finished && |r.moves| == |s.moves| + 1 && r.moves[..|s.moves|] == s.moves
    ensures !again ==> r.moves == s.moves
    ensures ConflictStop(stop) && stop != OutOfFuel
    ensures stop == Finished && !again ==> Settled(r.view.resp)
    ensures !s.link.initialized && Unsettled(s.view.resp) ==>
      stop == Return(NoFreeIdError) && r.trace == [] && !again
    ensures ValidView(seen.view)
    ensures forall id | 0 <= id < MaxNumId && !(Visited(id) && Rescan(s.view.resp[id])) :: seen.view.resp[id] == s.view.resp[id]
    ensures RoundEnds(s.link.initialized, seen, s.moves, r, stop, again)
  {
    seen := ScanResults(s.link, s.view);
    r, stop, again := RenumberConflict(s, seen, renum0);
    if !s.link.initialized && Unsettled(s.view.resp) {
      assert FirstWith(seen.view.resp, 1, Silent) == 0;
    }
  }

  /** Recording one more renumbering in `renum[]` and the list of moves keeps the invariant. */
  lemma RecordMove(s: Run, r: Run, m: Renumbering, renum0: seq<Status>)
    requires |renum0| >= MaxNumId && Good(s, renum0) && ValidView(r.view)
    requires Visited(m.from as nat) && Visited(m.to as nat)
    requires r.renum == s.renum[m.from := IdRenumWarning][m.to := IdRenumWarning]
    requires r.moves == s.moves + [m]
    ensures Good(r, renum0) && r.moves[..|s.moves|] == s.moves
  {
    MarkedSnoc(s.renum, s.moves, m);
    assert r.moves[..|s.moves|] == s.moves;
  }

  /**
   * How phase 1 ended, read off the arrays its last scan left: it finished
   * exactly when no id conflicts; it returned NO_FREE_ID_ERROR exactly when
   * an id conflicts and none is silent; otherwise its exchanges end with
   * `last`, renumbering the first conflicting id to the first silent one,
   * and it returned that renumbering's failing code.
   */
  predicate ConflictsEnd(initialized: bool, r: Run, stop: Stop, last: seq<Transfer>)
    requires ValidView(r.view)
  {
    var c := FirstWith(r.view.resp, 1, Rescan);
    var f := FirstWith(r.view.resp, 1, Silent);
    && (stop == Finished <==> c == 0)
    && (stop == Return(NoFreeIdError) <==> c != 0 && f == 0)
    && (c != 0 && f != 0 ==> stop.Return? && RenumberedAs(initialized, last, c as u8, f as byte, stop.status))
  }

  /** A round that does not go again ends phase 1 as `ConflictsEnd` says. */
  lemma LastRound(initialized: bool, s: Run, seen: Scanned, r: Run, stop: Stop)
    requires ValidView(seen.view) && ValidView(r.view) && ConflictStop(stop)
    requires RoundEnds(initialized, seen, s.moves, r, stop, false)
    ensures ConflictsEnd(initialized, r, stop, r.trace[|seen.trace|..])
  {
    assert r.view == seen.view;
  }

  /** Reading `ConflictsEnd` back for NO_FREE_ID_ERROR. */
  lemma ConflictsEndMeans(initialized: bool, r: Run, stop: Stop, last: seq<Transfer>)
    requires ValidView(r.view) && ConflictsEnd(initialized, r, stop, last)
    ensures stop == Return(NoFreeIdError) ==>
      FirstWith(r.view.resp, 1, Rescan) != 0 && FirstWith(r.view.resp, 1, Silent) == 0
  {
  }

  /**
   * One round of phase 1 seen from the loop: a round that does not go
   * again ends the phase as `ConflictsEnd` says, with `final` the exchanges
   * of its renumbering.
   */
  method ConflictStep(s: Run, renum0: seq<Status>) returns (r: Run, stop: Stop, again: bool, final: seq<Transfer>)
    requires |renum0| >= MaxNumId && Good(s, renum0)
    ensures Good(r, renum0)
    ensures r.link == After(s.link, r.trace)
    ensures again ==> stop == Finished && |r.moves| == |s.moves| + 1 && r.moves[..|s.moves|] == s.moves
    ensures !again ==> r.moves == s.moves
    ensures ConflictStop(stop) && stop != OutOfFuel
    ensures stop == Finished && !again ==> Settled(r.view.resp)
    ensures !s.link.initialized && Unsettled(s.view.resp) ==>
      stop == Return(NoFreeIdError) && r.trace == [] && !again
    ensures !again ==> EndsWith(r.trace, final) && ConflictsEnd(s.link.initialized, r, stop, final)
  {
    var seen;
    r, stop, again, seen := ConflictRound(s, renum0);
    final := r.trace[|seen.trace|..];
    if !again {
      LastRound(s.link.initialized, s, seen, r, stop);
    }
  }

  /**
   * Phase 1 as a whole: rounds until one finds no conflict. Every restart
   * (`goto renum`) spends one unit of `fuel`. `last` holds the exchanges of
   * the renumbering that failed, if one did.
   */
  method ResolveConflicts(s: Run, renum0: seq<Status>, fuel: nat) returns (r: Run, stop: Stop, last: seq<Transfer>)
    requires |renum0| >= MaxNumId && Good(s, renum0)
    ensures Good(r, renum0)
    ensures r.link == After(s.link, r.trace)
    ensures |r.moves| >= |s.moves| && r.moves[..|s.moves|] == s.moves
    ensures ConflictStop(stop)
    ensures stop == Finished ==> Settled(r.view.resp)
    ensures EndsWith(r.trace, last)
    ensures stop != OutOfFuel ==> ConflictsEnd(s.link.initialized, r, stop, last)
    ensures !s.link.initialized && Unsettled(s.view.resp) ==>
      stop == Return(NoFreeIdError) && r.trace == [] && r.moves == s.moves
    decreases fuel
  {
    var next, st, again, final := ConflictStep(s, renum0);
    if !again {
      return next, st, final;
    }
    if fuel == 0 {
      return next, OutOfFuel, [];
    }
    var rest, st';
    rest, st', last := ResolveConflicts(next.(trace := []), renum0, fuel - 1);
    r := rest.(trace := next.trace + rest.trace);
    stop := st';
    assert r.moves[..|s.moves|] == s.moves by {
      assert r.moves[..|next.moves|][..|s.moves|] == r.moves[..|s.moves|];
    }
    EndsWithAfter(next.trace, rest.trace, last);
  }

  // ---------------------------------------------------------------------
  // Phase 2: devices at undeclared ids
  // ---------------------------------------------------------------------

  /** A device answers at an id nobody declared. */
  predicate IsExtra(dir: Directory, resp: seq<Status>, id: nat)
    requires |resp| == MaxNumId
  {
    Visited(id) && dir[id].None? && resp[id] == Ok
  }

  /** Nothing answers at a declared id. */
  predicate IsMissing(dir: Directory, resp: seq<Status>, id: nat)
    requires |resp| == MaxNumId
  {
    Visited(id) && dir[id].Some? && resp[id] == NoRespError
  }

  predicate NoExtraIn(dir: Directory, resp: seq<Status>, lo: nat, hi: nat)
    requires |resp| == MaxNumId
  {
    forall j: nat | lo <= j < hi :: !IsExtra(dir, resp, j)
  }

  predicate NoMissingIn(dir: Directory, resp: seq<Status>, lo: nat, hi: nat)
    requires |resp| == MaxNumId
  {
    forall j: nat | lo <= j < hi :: !IsMissing(dir, resp, j)
  }

  /**
   * What the pass has remembered on reaching `id`: the latest extra and
   * the latest missing id seen so far (0 for none), never both.
   */
  predicate Remembered(dir: Directory, resp: seq<Status>, id: nat, missing: nat, extra: nat)
    requires |resp| == MaxNumId
  {
    && 1 <= id <= MaxNumId
    && (extra == 0 ==> NoExtraIn(dir, resp, 1, id))
    && (extra != 0 ==> extra < id && IsExtra(dir, resp, extra) && NoExtraIn(dir, resp, extra + 1, id))
    && (missing == 0 ==> NoMissingIn(dir, resp, 1, id))
    && (missing != 0 ==> missing < id && IsMissing(dir, resp, missing) && NoMissingIn(dir, resp, missing + 1, id))
    && (extra == 0 || missing == 0)
  }

  /**
   * One pass of the extra/missing loop (master/src/pmlin-master.c:479-506):
   * it remembers the latest missing and extra ids and proposes moving the
   * extra device to the missing id as soon as it has seen one of each.
   */
  function FindMove(dir: Directory, resp: seq<Status>, id: nat, missing: nat, extra: nat): (r: Option<Renumbering>)
    requires |resp| == MaxNumId && Remembered(dir, resp, id, missing, extra)
    ensures r.Some? ==> IsExtra(dir, resp, r.value.from as nat) && IsMissing(dir, resp, r.value.to as nat)
    decreases MaxNumId - id
  {
    if id == MaxNumId then None
    else if !Visited(id) then FindMove(dir, resp, id + 1, missing, extra)
    else
      var missing' := if dir[id].Some? && resp[id] == NoRespError then id else missing;
      var extra' := if dir[id].None? && resp[id] == Ok then id else extra;
      if extra' != 0 && missing' != 0 then Some(Renumbering(extra' as u8, missing' as u8))
      else FindMove(dir, resp, id + 1, missing', extra')
  }

  /** The larger of two ids: where the pass stops once it has seen both. */
  function Later(a: nat, b: nat): nat {
    if a < b then b else a
  }

  /**
   * The pass finds nothing exactly when no extra or no missing id is left;
   * otherwise it stops at the first id `t` by which both kinds have been
   * seen and pairs the latest extra with the latest missing id up to `t`.
   */
  lemma {:induction false} FindMoveMeans(dir: Directory, resp: seq<Status>, id: nat, missing: nat, extra: nat)
    requires |resp| == MaxNumId && Remembered(dir, resp, id, missing, extra)
    ensures FindMove(dir, resp, id, missing, extra).None? <==>
      NoExtraIn(dir, resp, 1, MaxNumId) || NoMissingIn(dir, resp, 1, MaxNumId)
    ensures FindMove(dir, resp, id, missing, extra).Some? ==>
      var m := FindMove(dir, resp, id, missing, extra).value;
      var t := Later(m.from as nat, m.to as nat);
      && NoExtraIn(dir, resp, m.from as nat + 1, t + 1)
      && NoMissingIn(dir, resp, m.to as nat + 1, t + 1)
      && (NoExtraIn(dir, resp, 1, t) || NoMissingIn(dir, resp, 1, t))
    decreases MaxNumId - id
  {
    if id < MaxNumId {
      var missing' := if Visited(id) && dir[id].Some? && resp[id] == NoRespError then id else missing;
      var extra' := if Visited(id) && dir[id].None? && resp[id] == Ok then id else extra;
      assert Remembered(dir, resp, id + 1, missing', extra') || (extra' != 0 && missing' != 0);
      if !(extra' != 0 && missing' != 0) {
        FindMoveMeans(dir, resp, id + 1, missing', extra');
      }
    }
  }

  /** The whole pass finds nothing exactly when no extra or no missing id is left. */
  lemma FindMoveNone(dir: Directory, resp: seq<Status>)
    requires |resp| == MaxNumId
    ensures FindMove(dir, resp, 1, 0, 0).None? <==>
      NoExtraIn(dir, resp, 1, MaxNumId) || NoMissingIn(dir, resp, 1, MaxNumId)
  {
    FindMoveMeans(dir, resp, 1, 0, 0);
  }

  /** The ids with a device answering where nobody declared one. */
  function Extras(dir: Directory, resp: seq<Status>): set<nat>
    requires |resp| == MaxNumId
  {
    set id: nat | id < MaxNumId && IsExtra(dir, resp, id)
  }

  /** Moving an extra device to a missing id leaves one extra id fewer. */
  lemma MoveRemovesExtra(dir: Directory, resp: seq<Status>, m: Renumbering)
    requires |resp| == MaxNumId
    requires IsExtra(dir, resp, m.from as nat) && IsMissing(dir, resp, m.to as nat)
    ensures Extras(dir, resp[m.to := Ok][m.from := NoRespError]) == Extras(dir, resp) - {m.from as nat}
    ensures |Extras(dir, resp[m.to := Ok][m.from := NoRespError])| < |Extras(dir, resp)|
  {
    assert m.from as nat in Extras(dir, resp);
  }

  /** Every renumbering of `moves` from index `k` on went from an undeclared to a declared id. */
  predicate IntoDeclared(dir: Directory, moves: seq<Renumbering>, k: nat) {
    forall j | k <= j < |moves| ::
      moves[j].from < MaxNumId && moves[j].to < MaxNumId && dir[moves[j].from].None? && dir[moves[j].to].Some?
  }

  /** The property carries over from one more move to the moves after it. */
  lemma IntoDeclaredCons(dir: Directory, resp: seq<Status>, moves: seq<Renumbering>, k: nat)
    requires |resp| == MaxNumId
    requires k < |moves| && IsExtra(dir, resp, moves[k].from as nat) && IsMissing(dir, resp, moves[k].to as nat)
    requires IntoDeclared(dir, moves, k + 1)
    ensures IntoDeclared(dir, moves, k)
  {
  }

  /** The results phase 2 may stop with besides finishing. */
  predicate MoveStop(s: Stop) {
    s in {Finished, Return(NoRespError), Return(TimeoutError), Return(CrcError), Return(NotInitializedError)}
  }

  /**
   * The arrays after moving the device at `m.from` to `m.to`: the result
   * and type of `m.from` pass to `m.to`; `m.from` becomes silent with the
   * reserved type.
   */
  function MoveView(v: View, m: Renumbering): (w: View)
    requires ValidView(v) && m.from as nat < MaxNumId && m.to as nat < MaxNumId
    ensures ValidView(w)
    ensures w.resp[m.from] == NoRespError && w.types[m.from] == ReservedDeviceType
    ensures m.from != m.to ==> w.resp[m.to] == Ok && w.types[m.to] == v.types[m.from]
    ensures forall id | 0 <= id < MaxNumId && id != m.from as nat && id != m.to as nat ::
      w.resp[id] == v.resp[id] && w.types[id] == v.types[id]
  {
    View(v.resp[m.to := Ok][m.from := NoRespError], v.types[m.to := v.types[m.from]][m.from := ReservedDeviceType])
  }

  /**
   * The state after moving the extra device at `m.from` to the missing id
   * `m.to` (master/src/pmlin-master.c:497-504): the arrays as `MoveView`
   * says, both ids marked in `renum[]`, the move recorded.
   */
  function Moved(s: Run, m: Renumbering, link: Link): (r: Run)
    requires ValidView(s.view) && |s.renum| >= MaxNumId && m.from as nat < MaxNumId && m.to as nat < MaxNumId
    ensures r.view == MoveView(s.view, m) && r.link == link && r.trace == []
    ensures r.moves == s.moves + [m]
    ensures |r.renum| == |s.renum| && r.renum[m.from] == r.renum[m.to] == IdRenumWarning
    ensures forall id | 0 <= id < |s.renum| && id != m.from as nat && id != m.to as nat :: r.renum[id] == s.renum[id]
  {
    Run(link, MoveView(s.view, m), s.renum[m.from := IdRenumWarning][m.to := IdRenumWarning], s.moves + [m], [])
  }

  /** A move keeps the invariant, keeps every id settled and leaves one extra device fewer. */
  lemma MovedKeeps(dir: Directory, s: Run, m: Renumbering, link: Link, renum0: seq<Status>)
    requires |renum0| >= MaxNumId && Good(s, renum0) && Settled(s.view.resp)
    requires IsExtra(dir, s.view.resp, m.from as nat) && IsMissing(dir, s.view.resp, m.to as nat)
    ensures Good(Moved(s, m, link), renum0) && Settled(Moved(s, m, link).view.resp)
    ensures Moved(s, m, link).moves[..|s.moves|] == s.moves
    ensures |Extras(dir, Moved(s, m, link).view.resp)| < |Extras(dir, s.view.resp)|
  {
    RecordMove(s, Moved(s, m, link), m, renum0);
    MoveRemovesExtra(dir, s.view.resp, m);
  }

  /**
   * `ms` are the moves the pass chooses in turn from `v`: each is the one
   * `FindMove` proposes on the arrays the moves before it left.
   */
  predicate ChosenMoves(dir: Directory, v: View, ms: seq<Renumbering>)
    requires ValidView(v)
    decreases |ms|
  {
    ms != [] ==>
      && FindMove(dir, v.resp, 1, 0, 0) == Some(ms[0])
      && ChosenMoves(dir, MoveView(v, ms[0]), ms[1..])
  }

  /** The arrays after the moves `ms`, one after the other. */
  function Replay(v: View, ms: seq<Renumbering>): (w: View)
    requires ValidView(v) && forall k | 0 <= k < |ms| :: ms[k].from < MaxNumId && ms[k].to < MaxNumId
    ensures ValidView(w)
    decreases |ms|
  {
    if ms == [] then v else Replay(MoveView(v, ms[0]), ms[1..])
  }

  /** One more chosen move in front of chosen moves. */
  lemma ChosenCons(dir: Directory, v: View, ms: seq<Renumbering>)
    requires ValidView(v) && ms != [] && FindMove(dir, v.resp, 1, 0, 0) == Some(ms[0])
    requires ChosenMoves(dir, MoveView(v, ms[0]), ms[1..])
    ensures ChosenMoves(dir, v, ms)
  {
  }

  /** Replaying one more move in front of others. */
  lemma ReplayCons(v: View, ms: seq<Renumbering>)
    requires ValidView(v) && ms != [] && ValidMoves(ms)
    ensures Replay(v, ms) == Replay(MoveView(v, ms[0]), ms[1..])
  {
  }

  /** Appending `[x] + b` is appending `x`, then `b`. */
  lemma AppendCons<T>(a: seq<T>, x: T, b: seq<T>)
    ensures (a + [x]) + b == a + ([x] + b)
  {
  }

  /**
   * One round of phase 2 (master/src/pmlin-master.c:478-506): the pass
   * proposes a move or finds nothing (the phase finishes); a proposed move
   * is renumbered, and either the state becomes `Moved` and the phase goes
   * again, or the renumbering's failing code is returned.
   */
  method MoveRound(dir: Directory, s: Run, renum0: seq<Status>) returns (r: Run, stop: Stop, again: bool)
    requires |renum0| >= MaxNumId && Good(s, renum0) && Settled(s.view.resp)
    ensures Good(r, renum0) && Settled(r.view.resp)
    ensures r.link == After(s.link, r.trace)
    ensures stop == Finished <==> again || FindMove(dir, s.view.resp, 1, 0, 0).None?
    ensures FindMove(dir, s.view.resp, 1, 0, 0).None? ==> r == s.(trace := []) && !again
    ensures FindMove(dir, s.view.resp, 1, 0, 0).Some? ==>
      var m := FindMove(dir, s.view.resp, 1, 0, 0).value;
      && IsExtra(dir, s.view.resp, m.from as nat) && IsMissing(dir, s.view.resp, m.to as nat)
      && (again ==>
           && r.view == MoveView(s.view, m) && r.moves == s.moves + [m]
           && |Extras(dir, r.view.resp)| < |Extras(dir, s.view.resp)|)
      && (!again ==> r.view == s.view && r.moves == s.moves && stop.Return?
                     && RenumberedAs(s.link.initialized, r.trace, m.from, m.to as byte, stop.status))
    ensures !again ==> MovesEnd(dir, s.view.resp, s.link.initialized, stop, r.trace)
    ensures MoveStop(stop)
  {
    FindMoveNone(dir, s.view.resp);
    var found := FindMove(dir, s.view.resp, 1, 0, 0);
    if found.None? {
      return s.(trace := []), Finished, false;
    }
    var m := found.value;
    var o := Renumber(s.link, m.from, m.to);
    if o.status != Ok {
      return s.(link := o.link, trace := o.trace), Return(o.status), false;
    }
    MovedKeeps(dir, s, m, o.link, renum0);
    r := Moved(s, m, o.link).(trace := o.trace);
    stop, again := Finished, true;
  }

  /**
   * How phase 2 ends on the results `resp`: it finishes when the pass
   * proposes no move, and otherwise returns the failing code of
   * renumbering the move it proposes, whose exchanges are `last`.
   */
  predicate MovesEnd(dir: Directory, resp: seq<Status>, initialized: bool, stop: Stop, last: seq<Transfer>)
    requires |resp| == MaxNumId
  {
    match FindMove(dir, resp, 1, 0, 0)
    case None => stop == Finished
    case Some(m) => stop.Return? && RenumberedAs(initialized, last, m.from, m.to as byte, stop.status)
  }

  /**
   * Phase 2 (master/src/pmlin-master.c:474-507): while both an extra and
   * a missing id exist, renumber the extra device to the missing id and
   * swap their entries; a failed renumbering returns its code. The moves
   * made are the ones the pass chooses in turn, the arrays end as those
   * moves leave them, and the phase finishes exactly when the pass finds
   * nothing more; a failure comes from renumbering the move the pass
   * proposed last.
   */
  method MoveExtras(dir: Directory, s: Run, renum0: seq<Status>)
    returns (r: Run, stop: Stop, made: seq<Renumbering>, last: seq<Transfer>)
    requires |renum0| >= MaxNumId && Good(s, renum0) && Settled(s.view.resp)
    ensures Good(r, renum0) && Settled(r.view.resp)
    ensures r.link == After(s.link, r.trace)
    ensures r.moves == s.moves + made && |r.moves| >= |s.moves| && r.moves[..|s.moves|] == s.moves
    ensures IntoDeclared(dir, r.moves, |s.moves|)
    ensures MoveStop(stop)
    ensures stop == Finished ==> NoExtraIn(dir, r.view.resp, 1, MaxNumId) || NoMissingIn(dir, r.view.resp, 1, MaxNumId)
    ensures ChosenMoves(dir, s.view, made)
    ensures ValidMoves(made) && r.view == Replay(s.view, made)
    ensures EndsWith(r.trace, last)
    ensures MovesEnd(dir, r.view.resp, s.link.initialized, stop, last)
    decreases |Extras(dir, s.view.resp)|
  {
    var next, st, again := MoveRound(dir, s, renum0);
    FindMoveNone(dir, next.view.resp);
    if !again {
      assert next.moves == s.moves + [];
      return next, st, [], next.trace;
    }
    var m := FindMove(dir, s.view.resp, 1, 0, 0).value;
    var rest, more;
    rest, stop, more, last := MoveExtras(dir, next.(trace := []), renum0);
    r := rest.(trace := next.trace + rest.trace);
    assert next.link.initialized == s.link.initialized && r.view == rest.view;
    made := [m] + more;
    AppendCons(s.moves, m, more);
    assert r.moves[..|s.moves|] == s.moves && r.moves[|s.moves|] == m;
    IntoDeclaredCons(dir, s.view.resp, r.moves, |s.moves|);
    assert made[0] == m && made[1..] == more;
    ChosenCons(dir, s.view, made);
    ReplayCons(s.view, made);
    EndsWithAfter(next.trace, rest.trace, last);
  }

  // ---------------------------------------------------------------------
  // Phase 3: type conflicts
  // ---------------------------------------------------------------------

  /** An answering id is declared, with the type the device reported. */
  predicate Consistent(dir: Directory, v: View, id: nat)
    requires ValidView(v) && id < MaxNumId
  {
    v.resp[id] == Ok ==> dir[id].Some? && dir[id].value.deviceType == v.types[id]
  }

  /** The outcome of a search loop: nothing, an id, or an id whose NULL entry the loop dereferences. */
  datatype Search = NotFound | Found(id: u8) | Crash(id: u8)

  /**
   * The first type-conflict loop (master/src/pmlin-master.c:515-525): the
   * first visited answering id whose declared type differs from the
   * reported one. An answering id without a declaration is dereferenced.
   */
  function FindTypeConflict(dir: Directory, v: View, from: nat): (r: Search)
    requires ValidView(v) && 1 <= from <= MaxNumId
    ensures !r.NotFound? ==> from <= r.id as nat && Visited(r.id as nat) && v.resp[r.id] == Ok
    ensures r.Found? ==> dir[r.id].Some? && dir[r.id].value.deviceType != v.types[r.id]
    ensures r.Crash? ==> dir[r.id].None?
    ensures forall j | from <= j < MaxNumId && Visited(j) && (r.NotFound? || j < r.id as nat) :: Consistent(dir, v, j)
    decreases MaxNumId - from
  {
    if from == MaxNumId then NotFound
    else if Visited(from) && v.resp[from] == Ok then
      if dir[from].None? then Crash(from as u8)
      else if dir[from].value.deviceType != v.types[from] then Found(from as u8)
      else FindTypeConflict(dir, v, from + 1)
    else FindTypeConflict(dir, v, from + 1)
  }

  /**
   * The partner loop (master/src/pmlin-master.c:532-540): the first id
   * after the conflict, below the reserved id, whose reported type is
   * `want` and that is itself in conflict. It looks at the reported type
   * only, so an undeclared id with that type is dereferenced.
   */
  function FindPartner(dir: Directory, types: seq<word>, want: word, from: nat): (r: Search)
    requires |types| == MaxNumId && 1 <= from
    ensures !r.NotFound? ==> from <= r.id as nat < ReservedId as nat && types[r.id] == want
    ensures r.Found? ==> dir[r.id].Some? && dir[r.id].value.deviceType != want
    ensures r.Crash? ==> dir[r.id].None?
    ensures forall j | from <= j < ReservedId as nat && types[j] == want && (r.NotFound? || j < r.id as nat) ::
      dir[j].Some? && dir[j].value.deviceType == want
    decreases MaxNumId - from
  {
    if from >= ReservedId as nat then NotFound
    else if types[from] == want then
      if dir[from].None? then Crash(from as u8)
      else if dir[from].value.deviceType != types[from] then Found(from as u8)
      else FindPartner(dir, types, want, from + 1)
    else FindPartner(dir, types, want, from + 1)
  }

  /** The three exchanges of a swap: park `b` at id 0, move `a` to `b`, move the parked device to `a`. */
  datatype Swapped = Swapped(link: Link, status: Status, park: seq<Transfer>, move: seq<Transfer>, restore: seq<Transfer>)

  /** A RENUM run whose last attempt was acknowledged. */
  predicate Acknowledged(trace: seq<Transfer>) {
    trace != [] && CmdStatus(trace[|trace| - 1].received) == Ok
  }

  /**
   * What the three RENUM runs of a swap of `a` and `b` did: park `b` at
   * the broadcast id 0, move `a` to `b`, move the parked device to `a`;
   * each run starts only when the one before ended acknowledged, and the
   * result is the status of the last exchange, OK exactly when the third
   * run ended acknowledged.
   */
  predicate SwappedAs(initialized: bool, sw: Swapped, a: u8, b: u8) {
    && RenumAttempts(sw.park, b, BroadcastId)
    && RenumAttempts(sw.move, a, b as byte)
    && RenumAttempts(sw.restore, BroadcastId as u8, a as byte)
    && (!initialized ==> sw.status == NotInitializedError && sw.park == sw.move == sw.restore == [])
    && (initialized ==>
         && sw.park != []
         && (sw.move != [] <==> Acknowledged(sw.park))
         && (sw.restore != [] <==> Acknowledged(sw.move))
         && (sw.status == Ok <==> Acknowledged(sw.restore))
         && var all := sw.park + sw.move + sw.restore;
            sw.status == CmdStatus(all[|all| - 1].received))
  }

  /**
   * The swap of master/src/pmlin-master.c:549-566: renumber `b` to the
   * broadcast id 0, `a` to `b`, and 0 to `a`, each only when the previous
   * renumbering succeeded; the first failure is the result.
   */
  method SwapIds(link: Link, a: u8, b: u8) returns (r: Swapped)
    ensures r.link == After(link, r.park + r.move + r.restore)
    ensures SwappedAs(link.initialized, r, a, b)
    ensures r.status in {Ok, NoRespError, TimeoutError, CrcError, NotInitializedError}
  {
    var park := RenumId(link, b, BroadcastId);
    if park.status != Ok {
      assert park.trace + [] + [] == park.trace;
      return Swapped(park.link, park.status, park.trace, [], []);
    }
    var move := RenumId(park.link, a, b as byte);
    if move.status != Ok {
      assert park.trace + move.trace + [] == park.trace + move.trace;
      return Swapped(move.link, move.status, park.trace, move.trace, []);
    }
    var restore := RenumId(move.link, BroadcastId as u8, a as byte);
    r := Swapped(restore.link, restore.status, park.trace, move.trace, restore.trace);
  }

  /** The answering, declared ids whose reported type differs from the declared one. */
  function Mismatches(dir: Directory, v: View): set<nat>
    requires ValidView(v)
  {
    set id: nat | id < MaxNumId && Visited(id) && v.resp[id] == Ok && dir[id].Some? && dir[id].value.deviceType != v.types[id]
  }

  /** The type entries after swapping the devices at `a` and `b`: the two entries trade places. */
  function SwapTypes(types: seq<word>, a: nat, b: nat): (t: seq<word>)
    requires |types| == MaxNumId && a < MaxNumId && b < MaxNumId
  {
    types[b := types[a]][a := types[b]]
  }

  /**
   * The update as master/src/pmlin-master.c:570-572 writes it: the old
   * type of `b` passes through the 8-bit variable `tpy`, so `a` receives
   * only its low byte.
   */
  function SwapTypesAsWritten(types: seq<word>, a: nat, b: nat): (t: seq<word>)
    requires |types| == MaxNumId && a < MaxNumId && b < MaxNumId
  {
    var tpy: byte := (types[b] & 0xFF) as byte;
    types[b := types[a]][a := tpy as word]
  }

  /**
   * Cell by cell: `b` takes the type of `a`; `a` keeps the low byte of
   * the old type of `b` with a zero high byte; every other id keeps its
   * type.
   */
  lemma SwapAsWrittenCells(types: seq<word>, a: nat, b: nat)
    requires |types| == MaxNumId && a < MaxNumId && b < MaxNumId
    ensures var t := SwapTypesAsWritten(types, a, b);
      && |t| == MaxNumId
      && t[a] < 0x100 && t[a] & 0xFF == types[b] & 0xFF
      && (a != b ==> t[b] == types[a])
      && forall j | 0 <= j < MaxNumId && j != a && j != b :: t[j] == types[j]
  {
  }

  /** The situation after the searches chose `a` and its partner `b`. */
  predicate SwapCandidates(dir: Directory, v: View, a: nat, b: nat)
    requires ValidView(v)
  {
    && Visited(a) && a < b < ReservedId as nat
    && v.resp[a] == Ok && dir[a].Some? && dir[a].value.deviceType != v.types[a]
    && v.types[b] == dir[a].value.deviceType && dir[b].Some? && dir[b].value.deviceType != v.types[b]
  }

  /**
   * The corrected swap resolves the conflict at `a` and creates none: the
   * conflicting ids afterwards are among the ones before, without `a`.
   */
  lemma SwapResolves(dir: Directory, v: View, a: nat, b: nat)
    requires ValidView(v) && SwapCandidates(dir, v, a, b)
    ensures Consistent(dir, v.(types := SwapTypes(v.types, a, b)), a)
    ensures Mismatches(dir, v.(types := SwapTypes(v.types, a, b))) <= Mismatches(dir, v) - {a}
    ensures |Mismatches(dir, v.(types := SwapTypes(v.types, a, b)))| < |Mismatches(dir, v)|
  {
    var w := v.(types := SwapTypes(v.types, a, b));
    var before, after := Mismatches(dir, v), Mismatches(dir, w);
    assert a in before;
    assert after <= before - {a};
    assert |before - {a}| == |before| - 1;
    assert |after| <= |before - {a}| by {
      assert after + (before - {a} - after) == before - {a};
    }
  }

  /**
   * As written, the swap leaves `a` in conflict whenever its declared type
   * does not fit in a byte, although the right device now answers there.
   */
  lemma SwapAsWrittenKeepsConflict(dir: Directory, v: View, a: nat, b: nat)
    requires ValidView(v) && SwapCandidates(dir, v, a, b)
    requires dir[a].value.deviceType >= 0x100
    ensures !Consistent(dir, v.(types := SwapTypesAsWritten(v.types, a, b)), a)
  {
  }

  /** The 8-bit temporary loses nothing exactly when the partner's type fits in a byte. */
  lemma SwapAsWrittenAgrees(types: seq<word>, a: nat, b: nat)
    requires |types| == MaxNumId && a < MaxNumId && b < MaxNumId && a != b
    ensures SwapTypesAsWritten(types, a, b) == SwapTypes(types, a, b) <==> types[b] < 0x100
  {
    if types[b] >= 0x100 {
      assert SwapTypesAsWritten(types, a, b)[a] != types[b];
    }
  }

  /**
   * The partners left for the first conflict: the ids after it, below the
   * reserved id, that report the type declared for it.
   */
  function Backlog(dir: Directory, v: View): nat
    requires ValidView(v)
  {
    match FindTypeConflict(dir, v, 1)
    case Found(a) => |Partners(v.types, a as nat, dir[a].value.deviceType)|
    case _ => 0
  }

  /** The ids after `a`, below the reserved id, that report type `want`. */
  function Partners(types: seq<word>, a: nat, want: word): set<nat>
    requires |types| == MaxNumId
  {
    set j: nat | a < j < ReservedId as nat && types[j] == want
  }

  /**
   * A search from id 1 stops at `a` when every visited id before `a` is
   * consistent and `a` is an answering, declared id in conflict.
   */
  lemma FirstConflict(dir: Directory, v: View, a: nat)
    requires ValidView(v) && Visited(a) && v.resp[a] == Ok && dir[a].Some? && dir[a].value.deviceType != v.types[a]
    requires forall j | 1 <= j < a && Visited(j) :: Consistent(dir, v, j)
    ensures FindTypeConflict(dir, v, 1) == Found(a as u8)
  {
    assert !Consistent(dir, v, a);
  }

  /** A swap as written adds no conflict: only `b` could gain one, and it was already in conflict. */
  lemma SwapAsWrittenAddsNone(dir: Directory, v: View, a: nat, b: nat)
    requires ValidView(v) && SwapCandidates(dir, v, a, b)
    ensures Mismatches(dir, v.(types := SwapTypesAsWritten(v.types, a, b))) <= Mismatches(dir, v)
  {
    var w := v.(types := SwapTypesAsWritten(v.types, a, b));
    forall id | id in Mismatches(dir, w)
      ensures id in Mismatches(dir, v)
    {
      if id != a && id != b {
        assert w.types[id] == v.types[id];
      }
    }
  }

  /**
   * A swap as written whose declared type does not fit in a byte keeps
   * `a` the first conflict and takes `b` out of its partners.
   */
  lemma SwapAsWrittenStalls(dir: Directory, v: View, a: nat, b: nat)
    requires ValidView(v) && SwapCandidates(dir, v, a, b) && FindTypeConflict(dir, v, 1) == Found(a as u8)
    requires dir[a].value.deviceType >= 0x100
    ensures var w := v.(types := SwapTypesAsWritten(v.types, a, b));
      && FindTypeConflict(dir, w, 1) == Found(a as u8)
      && Partners(w.types, a, dir[a].value.deviceType) == Partners(v.types, a, dir[a].value.deviceType) - {b}
  {
    var w := v.(types := SwapTypesAsWritten(v.types, a, b));
    var want := dir[a].value.deviceType;
    assert w.types[a] != want;
    forall j | 1 <= j < a && Visited(j)
      ensures Consistent(dir, w, j)
    {
      assert Consistent(dir, v, j) && w.types[j] == v.types[j];
    }
    FirstConflict(dir, w, a);
    forall j: nat
      ensures j in Partners(w.types, a, want) <==> j in Partners(v.types, a, want) - {b}
    {
      if a < j < ReservedId as nat && j != b {
        assert w.types[j] == v.types[j];
      }
    }
  }

  /**
   * A swap as written makes progress: it leaves fewer conflicts, or as
   * many and fewer partners for the first conflict.
   */
  lemma SwapAsWrittenProgress(dir: Directory, v: View, a: nat, b: nat)
    requires ValidView(v) && SwapCandidates(dir, v, a, b) && FindTypeConflict(dir, v, 1) == Found(a as u8)
    ensures var w := v.(types := SwapTypesAsWritten(v.types, a, b));
      || |Mismatches(dir, w)| < |Mismatches(dir, v)|
      || (|Mismatches(dir, w)| == |Mismatches(dir, v)| && Backlog(dir, w) < Backlog(dir, v))
  {
    var w := v.(types := SwapTypesAsWritten(v.types, a, b));
    var want := dir[a].value.deviceType;
    if want < 0x100 {
      SwapAsWrittenAgrees(v.types, a, b);
      SwapResolves(dir, v, a, b);
    } else {
      assert b in Partners(v.types, a, want);
      SwapAsWrittenAddsNone(dir, v, a, b);
      SwapAsWrittenStalls(dir, v, a, b);
      SubsetSizes(Mismatches(dir, w), Mismatches(dir, v), Partners(w.types, a, want), Partners(v.types, a, want), b);
    }
  }

  /** A subset is no larger, and removing a member makes a set smaller. */
  lemma SubsetSizes<T>(sub: set<T>, sup: set<T>, less: set<T>, more: set<T>, x: T)
    requires sub <= sup && x in more && less == more - {x}
    ensures |sub| <= |sup| && |less| < |more|
  {
    assert sub + (sup - sub) == sup;
    assert more == less + {x};
  }

  /** What one swap as written does to the conflict it was chosen for, and that it makes progress. */
  lemma SwapAsWrittenRound(dir: Directory, v: View, a: nat, b: nat)
    requires ValidView(v) && SwapCandidates(dir, v, a, b) && FindTypeConflict(dir, v, 1) == Found(a as u8)
    ensures var w := v.(types := SwapTypesAsWritten(v.types, a, b));
      && (Consistent(dir, w, a) <==> dir[a].value.deviceType < 0x100)
      && (|| |Mismatches(dir, w)| < |Mismatches(dir, v)|
          || (|Mismatches(dir, w)| == |Mismatches(dir, v)| && Backlog(dir, w) < Backlog(dir, v)))
  {
    SwapAsWrittenProgress(dir, v, a, b);
    if dir[a].value.deviceType < 0x100 {
      SwapAsWrittenAgrees(v.types, a, b);
      SwapResolves(dir, v, a, b);
    } else {
      SwapAsWrittenKeepsConflict(dir, v, a, b);
    }
  }

  /** `trace` and `status` are the exchanges, in order, and the result of such a swap. */
  ghost predicate SwapTrace(initialized: bool, trace: seq<Transfer>, status: Status, a: u8, b: u8) {
    exists sw: Swapped :: SwappedAs(initialized, sw, a, b) && sw.status == status && trace == sw.park + sw.move + sw.restore
  }

  /** The swap as phase 3 sees it: its exchanges in order and its result. */
  method SwapDevices(link: Link, a: u8, b: u8) returns (o: Outcome)
    ensures o.link == After(link, o.trace)
    ensures SwapTrace(link.initialized, o.trace, o.status, a, b)
    ensures o.status in {Ok, NoRespError, TimeoutError, CrcError, NotInitializedError}
  {
    var sw := SwapIds(link, a, b);
    o := Outcome(sw.link, sw.status, sw.park + sw.move + sw.restore);
    assert SwappedAs(link.initialized, sw, a, b) && sw.status == o.status && o.trace == sw.park + sw.move + sw.restore;
  }

  /** A swap the master performed between a conflicting id and its partner. */
  datatype Exchanged = Exchanged(a: u8, b: u8)

  /** The results phase 3 may stop with besides finishing. */
  predicate TypeStop(s: Stop) {
    || s.Finished? || s.NullDereference?
    || s in {Return(TypeConflictError), Return(NoRespError), Return(TimeoutError), Return(CrcError), Return(NotInitializedError)}
  }

  /** What the two searches of a phase-3 round pick. */
  datatype Pick = AllConsistent | Dereferences(id: u8) | Unpaired(a: u8) | Pair(a: u8, b: u8)

  /**
   * The searches of one round (master/src/pmlin-master.c:512-545) on the
   * arrays `v`: every visited id is consistent; a NULL declaration is
   * dereferenced; the first conflict `a` has no partner, because every id
   * after it that reports the type declared for `a` is declared with that
   * type; or `a` and its first partner `b` are to be swapped.
   */
  function Choose(dir: Directory, v: View): (p: Pick)
    requires ValidView(v)
    ensures p.AllConsistent? <==> forall id | 0 <= id < MaxNumId && Visited(id) :: Consistent(dir, v, id)
    ensures p.Dereferences? ==> p.id as nat < MaxNumId && dir[p.id].None?
    ensures p.Unpaired? ==>
      && FindTypeConflict(dir, v, 1) == Found(p.a)
      && forall j | p.a as nat < j < ReservedId as nat && v.types[j] == dir[p.a].value.deviceType ::
           dir[j].Some? && dir[j].value.deviceType == v.types[j]
    ensures p.Pair? ==> FindTypeConflict(dir, v, 1) == Found(p.a) && SwapCandidates(dir, v, p.a as nat, p.b as nat)
  {
    match FindTypeConflict(dir, v, 1)
    case NotFound => AllConsistent
    case Crash(id) => Dereferences(id)
    case Found(a) =>
      match FindPartner(dir, v.types, dir[a].value.deviceType, a as nat + 1)
      case NotFound => Unpaired(a)
      case Crash(id) => Dereferences(id)
      case Found(b) => Pair(a, b)
  }

  /**
   * How a phase-3 round on the arrays `v` ends, by what its searches
   * pick: all consistent finishes without exchanges; a dereference or a
   * conflict without partner stops without exchanges, with
   * TYPE_CONFLICT_ERROR for the latter; a pair is swapped, and the round
   * either records the swap or returns the swap's failing code.
   */
  ghost predicate RoundPicks(dir: Directory, v: View, initialized: bool, trace: seq<Transfer>, stop: Stop, swapped: Option<Exchanged>)
    requires ValidView(v)
  {
    match Choose(dir, v)
    case AllConsistent => stop == Finished && swapped.None? && trace == []
    case Dereferences(id) => stop == NullDereference(id) && swapped.None? && trace == []
    case Unpaired(_) => stop == Return(TypeConflictError) && swapped.None? && trace == []
    case Pair(a, b) => PairEnds(initialized, trace, stop, swapped, a, b)
  }

  /**
   * How a round that swaps `a` and `b` ends: it records the swap exactly
   * when the round finishes, and otherwise returns the swap's failing code.
   */
  ghost predicate PairEnds(initialized: bool, trace: seq<Transfer>, stop: Stop, swapped: Option<Exchanged>, a: u8, b: u8) {
    && (swapped.Some? <==> stop == Finished)
    && (swapped.Some? ==> swapped.value == Exchanged(a, b))
    && (swapped.Some? || (stop.Return? && stop.status in {NoRespError, TimeoutError, CrcError, NotInitializedError}))
    && SwapTrace(initialized, trace, if swapped.Some? then Ok else stop.status, a, b)
  }

  /**
   * How phase 3 ends on its final arrays `v`: finished when all is
   * consistent, a dereference, TYPE_CONFLICT_ERROR for a conflict without
   * partner, or the failing code of the swap it chose, whose exchanges
   * are `last`.
   */
  ghost predicate TypesEnd(dir: Directory, v: View, initialized: bool, stop: Stop, last: seq<Transfer>)
    requires ValidView(v)
  {
    match Choose(dir, v)
    case AllConsistent => stop == Finished
    case Dereferences(id) => stop == NullDereference(id)
    case Unpaired(_) => stop == Return(TypeConflictError)
    case Pair(a, b) =>
      && stop.Return? && stop.status in {NoRespError, TimeoutError, CrcError, NotInitializedError}
      && SwapTrace(initialized, last, stop.status, a, b)
  }

  /** Reading `TypesEnd` back: which pick each way of stopping comes from. */
  lemma TypesEndMeans(dir: Directory, v: View, initialized: bool, stop: Stop, last: seq<Transfer>)
    requires ValidView(v) && TypesEnd(dir, v, initialized, stop, last)
    ensures stop == Finished <==> Choose(dir, v).AllConsistent?
    ensures stop == Return(TypeConflictError) <==> Choose(dir, v).Unpaired?
    ensures stop.NullDereference? <==> Choose(dir, v).Dereferences?
    ensures stop.NullDereference? ==> Choose(dir, v) == Dereferences(stop.id)
  {
  }

  /** A round that swaps nothing ends phase 3 as `TypesEnd` says. */
  lemma LastTypeRound(dir: Directory, v: View, initialized: bool, trace: seq<Transfer>, stop: Stop)
    requires ValidView(v) && TypeStop(stop) && RoundPicks(dir, v, initialized, trace, stop, None)
    ensures TypesEnd(dir, v, initialized, stop, trace)
  {
  }

  /**
   * One round of phase 3 (master/src/pmlin-master.c:509-573): find a
   * conflict, find a partner, swap the two devices and their types through
   * the 8-bit temporary. No conflict finishes the phase; no partner
   * returns TYPE_CONFLICT_ERROR; a failed renumbering returns its code; a
   * NULL declaration is dereferenced. A swap resolves the conflict exactly
   * when the declared type fits in a byte; otherwise the conflict stays
   * first and has one partner fewer.
   */
  method TypeRound(dir: Directory, s: Run) returns (r: Run, stop: Stop, swapped: Option<Exchanged>)
    requires ValidView(s.view)
    ensures r.view.resp == s.view.resp && ValidView(r.view) && r.renum == s.renum && r.moves == s.moves
    ensures r.link == After(s.link, r.trace)
    ensures TypeStop(stop)
    ensures swapped.Some? ==>
      && stop == Finished
      && SwapCandidates(dir, s.view, swapped.value.a as nat, swapped.value.b as nat)
      && r.view.types == SwapTypesAsWritten(s.view.types, swapped.value.a as nat, swapped.value.b as nat)
      && (Consistent(dir, r.view, swapped.value.a as nat) <==> dir[swapped.value.a].value.deviceType < 0x100)
      && (|| |Mismatches(dir, r.view)| < |Mismatches(dir, s.view)|
          || (|Mismatches(dir, r.view)| == |Mismatches(dir, s.view)| && Backlog(dir, r.view) < Backlog(dir, s.view)))
    ensures swapped.None? && stop == Finished ==> forall id | 0 <= id < MaxNumId && Visited(id) :: Consistent(dir, r.view, id)
    ensures stop.NullDereference? ==> stop.id as nat < MaxNumId && dir[stop.id].None?
    ensures swapped.None? ==> r.view == s.view
    ensures RoundPicks(dir, s.view, s.link.initialized, r.trace, stop, swapped)
  {
    match Choose(dir, s.view)
    case AllConsistent =>
      return s.(trace := []), Finished, None;
    case Dereferences(id) =>
      return s.(trace := []), NullDereference(id), None;
    case Unpaired(_) =>
      return s.(trace := []), Return(TypeConflictError), None;
    case Pair(a, b) =>
      r, stop, swapped := SwapPair(dir, s, a, b);
  }

  /**
   * The swap of a phase-3 round (master/src/pmlin-master.c:549-572): the
   * devices at `a` and `b` exchange ids; when that succeeds, the types
   * swap as the code writes it, and the round makes progress.
   */
  method SwapPair(dir: Directory, s: Run, a: u8, b: u8) returns (r: Run, stop: Stop, swapped: Option<Exchanged>)
    requires ValidView(s.view) && SwapCandidates(dir, s.view, a as nat, b as nat) && FindTypeConflict(dir, s.view, 1) == Found(a)
    ensures r.view.resp == s.view.resp && ValidView(r.view) && r.renum == s.renum && r.moves == s.moves
    ensures r.link == After(s.link, r.trace)
    ensures swapped.Some? ==>
      && r.view.types == SwapTypesAsWritten(s.view.types, a as nat, b as nat)
      && (Consistent(dir, r.view, a as nat) <==> dir[a].value.deviceType < 0x100)
      && (|| |Mismatches(dir, r.view)| < |Mismatches(dir, s.view)|
          || (|Mismatches(dir, r.view)| == |Mismatches(dir, s.view)| && Backlog(dir, r.view) < Backlog(dir, s.view)))
    ensures swapped.None? ==> r.view == s.view
    ensures PairEnds(s.link.initialized, r.trace, stop, swapped, a, b)
  {
    var sw := SwapDevices(s.link, a, b);
    if sw.status != Ok {
      return s.(link := sw.link, trace := sw.trace), Return(sw.status), None;
    }
    SwapAsWrittenRound(dir, s.view, a as nat, b as nat);
    r := s.(link := sw.link, view := s.view.(types := SwapTypesAsWritten(s.view.types, a as nat, b as nat)), trace := sw.trace);
    stop, swapped := Finished, Some(Exchanged(a, b));
  }

  /**
   * One round of phase 3 seen from the loop: a swap is the pair `Choose`
   * picks and makes progress; a round without a swap ends the phase as
   * `TypesEnd` says.
   */
  method TypeStep(dir: Directory, s: Run) returns (r: Run, stop: Stop, swapped: Option<Exchanged>)
    requires ValidView(s.view)
    ensures r.view.resp == s.view.resp && ValidView(r.view) && r.renum == s.renum && r.moves == s.moves
    ensures r.link == After(s.link, r.trace)
    ensures TypeStop(stop)
    ensures swapped.Some? ==>
      && stop == Finished
      && Choose(dir, s.view) == Pair(swapped.value.a, swapped.value.b)
      && r.view == s.view.(types := SwapTypesAsWritten(s.view.types, swapped.value.a as nat, swapped.value.b as nat))
      && (|| |Mismatches(dir, r.view)| < |Mismatches(dir, s.view)|
          || (|Mismatches(dir, r.view)| == |Mismatches(dir, s.view)| && Backlog(dir, r.view) < Backlog(dir, s.view)))
    ensures swapped.None? ==> r.view == s.view && TypesEnd(dir, s.view, s.link.initialized, stop, r.trace)
    ensures swapped.None? && stop == Finished ==> forall id | 0 <= id < MaxNumId && Visited(id) :: Consistent(dir, r.view, id)
    ensures stop.NullDereference? ==> stop.id as nat < MaxNumId && dir[stop.id].None?
  {
    r, stop, swapped := TypeRound(dir, s);
    if swapped.None? {
      LastTypeRound(dir, s.view, s.link.initialized, r.trace, stop);
    }
  }

  /**
   * `swaps` are the swaps the rounds choose in turn from `v`, each applied
   * to the types as written, and they lead to `w`.
   */
  predicate SwapsFrom(dir: Directory, v: View, swaps: seq<Exchanged>, w: View)
    requires ValidView(v)
    decreases |swaps|
  {
    if swaps == [] then w == v
    else
      && Choose(dir, v) == Pair(swaps[0].a, swaps[0].b)
      && SwapsFrom(dir, v.(types := SwapTypesAsWritten(v.types, swaps[0].a as nat, swaps[0].b as nat)), swaps[1..], w)
  }

  /**
   * Phase 3 as a whole: rounds until one ends without a swap. The swaps
   * made are the ones the rounds choose in turn, and the round on the
   * final arrays decides the result: finish when all is consistent,
   * TYPE_CONFLICT_ERROR for a conflict without partner, a dereference, or
   * the failing code of the swap it chose, whose exchanges end the trace
   * (`last`).
   */
  method ResolveTypes(dir: Directory, s: Run) returns (r: Run, stop: Stop, swaps: seq<Exchanged>, last: seq<Transfer>)
    requires ValidView(s.view)
    ensures r.view.resp == s.view.resp && ValidView(r.view) && r.renum == s.renum && r.moves == s.moves
    ensures r.link == After(s.link, r.trace)
    ensures TypeStop(stop)
    ensures stop == Finished ==> forall id | 0 <= id < MaxNumId && Visited(id) :: Consistent(dir, r.view, id)
    ensures stop.NullDereference? ==> stop.id as nat < MaxNumId && dir[stop.id].None?
    ensures SwapsInRange(swaps)
    ensures SwapsFrom(dir, s.view, swaps, r.view)
    ensures EndsWith(r.trace, last)
    ensures TypesEnd(dir, r.view, s.link.initialized, stop, last)
    decreases |Mismatches(dir, s.view)|, Backlog(dir, s.view)
  {
    var next, st, swapped := TypeStep(dir, s);
    if swapped.None? {
      assert next.trace[0..] == next.trace;
      return next, st, [], next.trace;
    }
    var rest, more;
    rest, stop, more, last := ResolveTypes(dir, next.(trace := []));
    r := rest.(trace := next.trace + rest.trace);
    swaps := [swapped.value] + more;
    ChosenSwaps(dir, s.view, swapped.value, more, rest.view);
    assert next.link.initialized == s.link.initialized;
    EndsWithAfter(next.trace, rest.trace, last);
  }

  /** Every swap is between a visited id and a later one below the reserved id. */
  predicate SwapsInRange(swaps: seq<Exchanged>) {
    forall k | 0 <= k < |swaps| :: Visited(swaps[k].a as nat) && swaps[k].a < swaps[k].b < ReservedId as nat
  }

  /** The swap a round chose, followed by the swaps chosen from the arrays it left. */
  lemma ChosenSwaps(dir: Directory, v: View, x: Exchanged, more: seq<Exchanged>, w: View)
    requires ValidView(v) && Choose(dir, v) == Pair(x.a, x.b)
    requires SwapsFrom(dir, v.(types := SwapTypesAsWritten(v.types, x.a as nat, x.b as nat)), more, w)
    ensures SwapsFrom(dir, v, [x] + more, w)
    ensures SwapsInRange([x] + more)
  {
    var swaps := [x] + more;
    assert swaps[0] == x && swaps[1..] == more;
    SwapsBetween(dir, v, swaps, w);
  }

  /** Every chosen swap is between a visited id and a later one below the reserved id. */
  lemma {:induction false} SwapsBetween(dir: Directory, v: View, swaps: seq<Exchanged>, w: View)
    requires ValidView(v) && SwapsFrom(dir, v, swaps, w)
    ensures SwapsInRange(swaps)
    decreases |swaps|
  {
    if swaps != [] {
      var x := swaps[0];
      assert Choose(dir, v) == Pair(x.a, x.b);
      assert SwapCandidates(dir, v, x.a as nat, x.b as nat);
      var rest := swaps[1..];
      SwapsBetween(dir, v.(types := SwapTypesAsWritten(v.types, x.a as nat, x.b as nat)), rest, w);
      forall k | 1 <= k < |swaps|
        ensures swaps[k] == rest[k - 1]
      {
      }
    }
  }

  // ---------------------------------------------------------------------
  // The 8-bit swap temporary, on two devices
  // ---------------------------------------------------------------------

  /** Eight unused message slots. */
  function NoMessages(): (ms: seq<MessageDef>)
    ensures |ms| == MaxMessageTypes
  {
    seq(MaxMessageTypes, _ => MessageDef(HostToSlave, 0))
  }

  /** Ids 1 and 2 declared with types 0x0102 and 0x0201. */
  function ExampleDir(): Directory {
    Empty()[1 := Some(DeviceDecl(1, 0x0102, NoMessages()))][2 := Some(DeviceDecl(2, 0x0201, NoMessages()))]
  }

  /** Both devices answer, each at the id declared for the other one. */
  function ExampleView(): (v: View)
    ensures ValidView(v)
  {
    View(seq(MaxNumId, i => if i == 1 || i == 2 then Ok else NoRespError),
         seq(MaxNumId, i => if i == 1 then 0x0201 else if i == 2 then 0x0102 else ReservedDeviceType))
  }

  /**
   * With the devices of ids 1 and 2 crossed, the phase swaps them. As
   * written, id 1 is then left with type 0x02, the next round finds it in
   * conflict again, finds no partner and returns TYPE_CONFLICT_ERROR,
   * although both devices now answer at their declared ids. With the
   * corrected update the next round finds no conflict.
   */
  lemma SwapAsWrittenExample()
    ensures FindTypeConflict(ExampleDir(), ExampleView(), 1) == Found(1)
    ensures FindPartner(ExampleDir(), ExampleView().types, 0x0102, 2) == Found(2)
    ensures var bad := ExampleView().(types := SwapTypesAsWritten(ExampleView().types, 1, 2));
      && FindTypeConflict(ExampleDir(), bad, 1) == Found(1)
      && FindPartner(ExampleDir(), bad.types, 0x0102, 2) == NotFound
    ensures FindTypeConflict(ExampleDir(), ExampleView().(types := SwapTypes(ExampleView().types, 1, 2)), 1) == NotFound
  {
    var dir, v := ExampleDir(), ExampleView();
    assert dir[1].Some? && dir[2].Some?;
    assert forall j | 0 <= j < MaxNumId && j != 1 && j != 2 :: dir[j].None?;
    FirstConflict(dir, v, 1);
    var bad := v.(types := SwapTypesAsWritten(v.types, 1, 2));
    FirstConflict(dir, bad, 1);
    NoPartner(dir, bad.types, 0x0102, 2);
    NoConflict(dir, v.(types := SwapTypes(v.types, 1, 2)), 1);
  }

  /** The partner search finds nothing when no id from `from` on reports `want`. */
  lemma {:induction false} NoPartner(dir: Directory, types: seq<word>, want: word, from: nat)
    requires |types| == MaxNumId && 1 <= from
    requires forall j | from <= j < ReservedId as nat :: types[j] != want
    ensures FindPartner(dir, types, want, from) == NotFound
    decreases MaxNumId - from
  {
    if from < ReservedId as nat {
      NoPartner(dir, types, want, from + 1);
    }
  }

  /** The conflict search finds nothing when every visited id from `from` on is consistent. */
  lemma {:induction false} NoConflict(dir: Directory, v: View, from: nat)
    requires ValidView(v) && 1 <= from <= MaxNumId
    requires forall j | from <= j < MaxNumId && Visited(j) :: Consistent(dir, v, j)
    ensures FindTypeConflict(dir, v, from) == NotFound
    decreases MaxNumId - from
  {
    if from < MaxNumId {
      NoConflict(dir, v, from + 1);
    }
  }

  // ---------------------------------------------------------------------
  // The whole function
  // ---------------------------------------------------------------------

  /** The codes `PMLIN_auto_config` returns after running all three phases to the end. */
  predicate Completed(stop: Stop) {
    stop in {Return(Ok), Return(IdRenumWarning), Return(TypeConflictWarning)}
  }

  /** Every code the function can return. */
  predicate AutoConfigCode(s: Status) {
    s in {Ok, IdRenumWarning, TypeConflictWarning, NoFreeIdError, TypeConflictError,
          NoRespError, TimeoutError, CrcError, NotInitializedError}
  }

  /** A stop with the status of a failed renumbering, which `ret` passes on unchanged. */
  predicate TransferStop(stop: Stop) {
    stop.Return? && stop.status in {NoRespError, TimeoutError, CrcError, NotInitializedError}
  }

  /** The exchange `t` is a RENUM command, to whichever id and with whichever new id. */
  predicate IsRenum(t: Transfer) {
    && t.request.Message? && t.request.msgType == CommandType && t.requested == CmdBufferSize
    && |t.request.payload| == CmdMsgLen && t.request.payload == RenumCommand(t.request.payload[RenumIdIdx])
  }

  /** `trace` ends with a RENUM exchange whose answer reads as `status`. */
  predicate RenumFailedLast(trace: seq<Transfer>, status: Status) {
    trace != [] && IsRenum(trace[|trace| - 1]) && CmdStatus(trace[|trace| - 1].received) == status
  }

  /** A renumbering that ends a trace and failed leaves its status on the trace's last exchange. */
  lemma RenumberedLast(trace: seq<Transfer>, last: seq<Transfer>, oldId: u8, newId: byte, status: Status)
    requires RenumberedAs(true, last, oldId, newId, status) && EndsWith(trace, last)
    ensures RenumFailedLast(trace, status)
  {
    assert IsCommand(last[|last| - 1], oldId, RenumCommand(newId));
    assert trace[|trace| - 1] == last[|last| - 1];
  }

  /** The last of a run of RENUM attempts is a RENUM command. */
  lemma AttemptsEndRenum(trace: seq<Transfer>, oldId: u8, newId: byte)
    requires RenumAttempts(trace, oldId, newId) && trace != []
    ensures IsRenum(trace[|trace| - 1])
  {
    assert IsCommand(trace[|trace| - 1], oldId, RenumCommand(newId));
  }

  /** The swap's status is that of its last RENUM, whichever of the three renumberings made it. */
  lemma SwappedLast(sw: Swapped, a: u8, b: u8)
    requires SwappedAs(true, sw, a, b)
    ensures RenumFailedLast(sw.park + sw.move + sw.restore, sw.status)
  {
    var all := sw.park + sw.move + sw.restore;
    if sw.restore != [] {
      assert all[|all| - 1] == sw.restore[|sw.restore| - 1];
      AttemptsEndRenum(sw.restore, BroadcastId as u8, a as byte);
    } else if sw.move != [] {
      assert all == sw.park + sw.move;
      AttemptsEndRenum(sw.move, a, b as byte);
    } else {
      assert all == sw.park;
      AttemptsEndRenum(sw.park, b, BroadcastId);
    }
  }

  /** A failed swap that ends a trace leaves its status on the trace's last exchange. */
  lemma SwapLast(trace: seq<Transfer>, last: seq<Transfer>, status: Status, a: u8, b: u8)
    requires SwapTrace(true, last, status, a, b) && EndsWith(trace, last)
    ensures RenumFailedLast(trace, status)
  {
    var sw: Swapped :| SwappedAs(true, sw, a, b) && sw.status == status && last == sw.park + sw.move + sw.restore;
    SwappedLast(sw, a, b);
    EndsWithLast(trace, last, status);
  }

  /** The ending carries over to any trace it ends. */
  lemma EndsWithLast(trace: seq<Transfer>, last: seq<Transfer>, status: Status)
    requires RenumFailedLast(last, status) && EndsWith(trace, last)
    ensures RenumFailedLast(trace, status)
  {
    assert trace[|trace| - 1] == last[|last| - 1];
  }

  /** Exchanges made before keep the ending. */
  lemma RenumFailedAfter(pre: seq<Transfer>, trace: seq<Transfer>, status: Status)
    requires RenumFailedLast(trace, status)
    ensures RenumFailedLast(pre + trace, status)
  {
    assert (pre + trace)[|pre + trace| - 1] == trace[|trace| - 1];
  }

  /** The caller's array with ids 1..31 reset to OK, as the function starts. */
  function ResetMarks(renum: seq<Status>): (marks: seq<Status>)
    requires |renum| >= MaxNumId
    ensures SameOutside(marks, renum) && Marked(marks, [])
  {
    seq(|renum|, i requires 0 <= i < |renum| => if 1 <= i < MaxNumId then Ok else renum[i])
  }

  /**
   * Phase 3 as the function's result sees it: what each way of stopping
   * says about the final arrays.
   */
  method SettleTypes(dir: Directory, s: Run) returns (r: Run, stop: Stop, swaps: seq<Exchanged>)
    requires ValidView(s.view)
    ensures r.view.resp == s.view.resp && ValidView(r.view) && r.renum == s.renum && r.moves == s.moves
    ensures r.link == After(s.link, r.trace)
    ensures TypeStop(stop)
    ensures stop == Finished ==> forall id | 0 <= id < MaxNumId && Visited(id) :: Consistent(dir, r.view, id)
    ensures stop == Return(TypeConflictError) ==> Choose(dir, r.view).Unpaired?
    ensures stop.NullDereference? ==> Choose(dir, r.view) == Dereferences(stop.id)
    ensures TransferStop(stop) && s.link.initialized ==> RenumFailedLast(r.trace, stop.status)
  {
    var last;
    r, stop, swaps, last := ResolveTypes(dir, s.(trace := []));
    TypesEndMeans(dir, r.view, s.link.initialized, stop, last);
    if TransferStop(stop) && s.link.initialized {
      var p := Choose(dir, r.view);
      SwapLast(r.trace, last, stop.status, p.a, p.b);
    }
  }

  /**
   * Phase 3 after phases 1 and 2 finished with `s`, and the code the
   * function then returns: TYPE_CONFLICT_WARNING if a swap happened, else
   * ID_RENUM_WARNING if any renumbering happened, else OK.
   */
  method TypePhase(dir: Directory, s: Run, renum0: seq<Status>) returns (r: Run, stop: Stop, swaps: seq<Exchanged>)
    requires |renum0| >= MaxNumId && Good(s, renum0) && Settled(s.view.resp)
    ensures Good(r, renum0) && r.moves == s.moves
    ensures r.link == After(s.link, r.trace)
    ensures stop != Finished && stop != Return(NoFreeIdError) && (stop.Return? ==> AutoConfigCode(stop.status))
    ensures Completed(stop) ==>
      && Settled(r.view.resp)
      && (forall id | 0 <= id < MaxNumId && Visited(id) :: Consistent(dir, r.view, id))
    ensures Completed(stop) ==> (stop == Return(Ok) <==> r.moves == [] && swaps == [])
    ensures Completed(stop) ==> (stop == Return(TypeConflictWarning) <==> swaps != [])
    ensures stop == Return(TypeConflictError) ==> Choose(dir, r.view).Unpaired?
    ensures stop.NullDereference? ==> Choose(dir, r.view) == Dereferences(stop.id)
    ensures TransferStop(stop) && s.link.initialized ==> RenumFailedLast(r.trace, stop.status)
  {
    var st;
    r, st, swaps := SettleTypes(dir, s);
    if st != Finished {
      return r, st, swaps;
    }
    var code := if swaps != [] then TypeConflictWarning else if r.moves != [] then IdRenumWarning else Ok;
    stop := Return(code);
  }

  /** Phases 2 and 3 after phase 1 finished with `s`, and the code the function then returns. */
  method LaterPhases(dir: Directory, s: Run, renum0: seq<Status>) returns (r: Run, stop: Stop, swaps: seq<Exchanged>)
    requires |renum0| >= MaxNumId && Good(s, renum0) && Settled(s.view.resp)
    ensures Good(r, renum0)
    ensures r.link == After(s.link, r.trace)
    ensures stop != Finished && stop != Return(NoFreeIdError) && (stop.Return? ==> AutoConfigCode(stop.status))
    ensures Completed(stop) ==>
      && Settled(r.view.resp)
      && (forall id | 0 <= id < MaxNumId && Visited(id) :: Consistent(dir, r.view, id))
    ensures Completed(stop) ==> (stop == Return(Ok) <==> r.moves == [] && swaps == [])
    ensures Completed(stop) ==> (stop == Return(TypeConflictWarning) <==> swaps != [])
    ensures stop == Return(TypeConflictError) ==> Choose(dir, r.view).Unpaired?
    ensures stop.NullDereference? ==> Choose(dir, r.view) == Dereferences(stop.id)
    ensures TransferStop(stop) && s.link.initialized ==> RenumFailedLast(r.trace, stop.status)
  {
    var r2, st2, _, last := MoveExtras(dir, s.(trace := []), renum0);
    if st2 != Finished {
      if s.link.initialized {
        var m := FindMove(dir, r2.view.resp, 1, 0, 0).value;
        RenumberedLast(r2.trace, last, m.from, m.to as byte, st2.status);
      }
      return r2, st2, [];
    }
    var r3, st3, sw := TypePhase(dir, r2, renum0);
    r, stop, swaps := r3.(trace := r2.trace + r3.trace), st3, sw;
    if TransferStop(stop) && s.link.initialized {
      RenumFailedAfter(r2.trace, r3.trace, stop.status);
    }
  }

  /**
   * Phase 1 from the state the function sets up (master/src/pmlin-master.c:372-472):
   * marks reset, every id to be probed. NO_FREE_ID_ERROR comes with
   * arrays holding a conflicting id and no silent one.
   */
  method ConflictPhase(link: Link, renum: seq<Status>, fuel: nat) returns (r: Run, stop: Stop)
    requires |renum| >= MaxNumId
    ensures Good(r, renum)
    ensures r.link == After(link, r.trace)
    ensures ConflictStop(stop)
    ensures stop == Finished ==> Settled(r.view.resp)
    ensures stop == Return(NoFreeIdError) ==>
      FirstWith(r.view.resp, 1, Rescan) != 0 && FirstWith(r.view.resp, 1, Silent) == 0
    ensures !link.initialized ==> stop == Return(NoFreeIdError) && r.trace == [] && r.moves == []
    ensures TransferStop(stop) ==> RenumFailedLast(r.trace, stop.status)
  {
    var s := Run(link, InitialView(), ResetMarks(renum), [], []);
    var last;
    r, stop, last := ResolveConflicts(s, renum, fuel);
    if stop != OutOfFuel {
      ConflictsEndMeans(link.initialized, r, stop, last);
      if TransferStop(stop) {
        RenumberedLast(r.trace, last, FirstWith(r.view.resp, 1, Rescan) as u8, FirstWith(r.view.resp, 1, Silent) as byte, stop.status);
      }
    }
  }

  /**
   * `PMLIN_auto_config_internal` (master/src/pmlin-master.c:372-579):
   * resets the marks and the arrays, then runs the three phases. Phase 1
   * restarts at most `fuel` times. After all three phases the result is
   * TYPE_CONFLICT_WARNING if a swap happened, else ID_RENUM_WARNING if a
   * renumbering happened, else OK, and then every visited id either
   * stays silent or answers and is declared with the reported type.
   * NO_FREE_ID_ERROR comes with arrays holding a conflicting id and no
   * silent one; TYPE_CONFLICT_ERROR and a dereference come with arrays on
   * which the phase-3 searches pick them. Any other error is the status of
   * the last exchange, a RENUM that failed, so NOT_INITIALIZED is never
   * returned.
   */
  method AutoConfigure(dir: Directory, link: Link, renum: seq<Status>, fuel: nat)
    returns (r: Run, stop: Stop, swaps: seq<Exchanged>)
    requires |renum| >= MaxNumId
    ensures SameOutside(r.renum, renum) && Marked(r.renum, r.moves) && ValidMoves(r.moves)
    ensures r.link == After(link, r.trace)
    ensures stop != Finished && (stop.Return? ==> AutoConfigCode(stop.status))
    ensures Completed(stop) ==>
      && ValidView(r.view) && Settled(r.view.resp)
      && (forall id | 0 <= id < MaxNumId && Visited(id) :: Consistent(dir, r.view, id))
    ensures Completed(stop) ==> (stop == Return(Ok) <==> r.moves == [] && swaps == [])
    ensures Completed(stop) ==> (stop == Return(TypeConflictWarning) <==> swaps != [])
    ensures !link.initialized ==> stop == Return(NoFreeIdError) && r.trace == [] && r.moves == []
    ensures stop == Return(NoFreeIdError) ==>
      ValidView(r.view) && FirstWith(r.view.resp, 1, Rescan) != 0 && FirstWith(r.view.resp, 1, Silent) == 0
    ensures stop == Return(TypeConflictError) ==> ValidView(r.view) && Choose(dir, r.view).Unpaired?
    ensures stop.NullDereference? ==> ValidView(r.view) && Choose(dir, r.view) == Dereferences(stop.id)
    ensures TransferStop(stop) ==> RenumFailedLast(r.trace, stop.status)
  {
    var r1, st1 := ConflictPhase(link, renum, fuel);
    if st1 != Finished {
      return r1, st1, [];
    }
    var r23, st23, sw := LaterPhases(dir, r1, renum);
    r, stop, swaps := r23.(trace := r1.trace + r23.trace), st23, sw;
    if TransferStop(stop) {
      RenumFailedAfter(r1.trace, r23.trace, stop.status);
    }
  }
}
