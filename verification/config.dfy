/**
 * Renumbering and configuration check (master/src/pmlin-master.c:321-363):
 * `PMLIN_renum_id` retries a RENUM command up to 1000 times;
 * `PMLIN_check_config_internal` probes and inquires every declared id.
 */
module Config {
  import opened Protocol
  import opened Codes
  import opened Wrappers
  import opened Exchange
  import opened Directory

  /** The retry budget of `PMLIN_renum_id`. */
  const RenumRetries: nat := 1000

  /** A logged exchange that is the command `cmd` to `id`, as send_cmd_message performs it. */
  predicate IsCommand(t: Transfer, id: u8, cmd: seq<byte>) {
    t.request == Command(id, cmd) && t.requested == CmdBufferSize
  }

  /** The outcome of a sequence of exchanges: the link afterwards, the result code, the exchanges. */
  datatype Outcome = Outcome(link: Link, status: Status, trace: seq<Transfer>)

  /**
   * Every exchange of `trace` is a RENUM command to `oldId` carrying
   * `newId`, and every one but the last was not acknowledged.
   */
  predicate RenumAttempts(trace: seq<Transfer>, oldId: u8, newId: byte) {
    && (forall j | 0 <= j < |trace| :: IsCommand(trace[j], oldId, RenumCommand(newId)))
    && (forall j | 0 <= j < |trace| - 1 :: CmdStatus(trace[j].received) != Ok)
  }

  /** A run of attempts whose last one failed, followed by one more attempt, is a run of attempts. */
  lemma RenumAttemptsSnoc(trace: seq<Transfer>, t: Transfer, oldId: u8, newId: byte)
    requires RenumAttempts(trace, oldId, newId)
    requires trace != [] ==> CmdStatus(trace[|trace| - 1].received) != Ok
    requires IsCommand(t, oldId, RenumCommand(newId))
    ensures RenumAttempts(trace + [t], oldId, newId)
  {
  }

  /**
   * `PMLIN_renum_id`: at most 1000 RENUM exchanges with `oldId`, each
   * carrying `newId`; OK as soon as one is acknowledged, otherwise the
   * error of the last attempt.
   */
  method RenumId(link: Link, oldId: u8, newId: byte) returns (r: Outcome)
    ensures r.link == After(link, r.trace)
    ensures RenumAttempts(r.trace, oldId, newId)
    ensures !link.initialized ==> r.status == NotInitializedError && r.trace == []
    ensures link.initialized ==>
      && 0 < |r.trace| <= RenumRetries
      && r.status == CmdStatus(r.trace[|r.trace| - 1].received)
      && (r.status != Ok ==> |r.trace| == RenumRetries)
  {
    var retry: nat := RenumRetries;
    var res := Ok;
    var l := link;
    var trace: seq<Transfer> := [];
    while retry > 0
      invariant retry <= RenumRetries
      invariant l == After(link, trace)
      invariant RenumAttempts(trace, oldId, newId)
      invariant |trace| == if link.initialized then RenumRetries - retry else 0
      invariant trace != [] ==> res == CmdStatus(trace[|trace| - 1].received) && res != Ok
      invariant !link.initialized && retry < RenumRetries ==> res == NotInitializedError
    {
      var c := SendCmd(l, oldId, RenumCommand(newId), Zeros(CmdRespLen));
      res := c.status;
      if c.trace != [] {
        RenumAttemptsSnoc(trace, c.trace[0], oldId, newId);
      }
      trace := trace + c.trace;
      l := c.link;
      if res == Ok {
        break;
      }
      retry := retry - 1;
    }
    r := Outcome(l, res, trace);
  }

  /** The declared ids among `lo..hi-1`, skipping the reserved id 31, in increasing order. */
  function DeclaredIn(dir: Directory, lo: nat, hi: nat): seq<u8>
    requires hi <= MaxNumId
    decreases hi - lo
  {
    if hi <= lo then []
    else
      var first := if lo != ReservedId as nat && dir[lo].Some? then [lo as u8] else [];
      first + DeclaredIn(dir, lo + 1, hi)
  }

  /** The ids `PMLIN_check_config_internal` visits. */
  function Declared(dir: Directory): seq<u8> {
    DeclaredIn(dir, FirstDeviceId as nat, MaxNumId)
  }

  /** Every visited id lies in `lo..hi-1`, is not 31 and is declared. */
  lemma {:induction false} DeclaredInSound(dir: Directory, lo: nat, hi: nat)
    requires hi <= MaxNumId
    ensures forall id <- DeclaredIn(dir, lo, hi) :: lo <= id < hi && id != ReservedId as int && dir[id].Some?
    decreases hi - lo
  {
    if lo < hi {
      DeclaredInSound(dir, lo + 1, hi);
    }
  }

  /** Every declared id of `lo..hi-1` other than 31 is visited. */
  lemma {:induction false} DeclaredInComplete(dir: Directory, lo: nat, hi: nat)
    requires hi <= MaxNumId
    ensures forall d | lo <= d < hi && d != ReservedId as int && dir[d].Some? :: d in DeclaredIn(dir, lo, hi)
    decreases hi - lo
  {
    if lo < hi {
      DeclaredInComplete(dir, lo + 1, hi);
    }
  }

  predicate Increasing(s: seq<u8>) {
    forall k | 0 <= k < |s| - 1 :: s[k] < s[k + 1]
  }

  /** The ids are visited in strictly increasing order. */
  lemma {:induction false} DeclaredInIncreasing(dir: Directory, lo: nat, hi: nat)
    requires hi <= MaxNumId
    ensures Increasing(DeclaredIn(dir, lo, hi))
    decreases hi - lo
  {
    if lo < hi {
      DeclaredInIncreasing(dir, lo + 1, hi);
      DeclaredInSound(dir, lo + 1, hi);
      var rest := DeclaredIn(dir, lo + 1, hi);
      var ids := DeclaredIn(dir, lo, hi);
      if lo != ReservedId as nat && dir[lo].Some? {
        assert ids == [lo as u8] + rest;
        forall k | 0 <= k < |ids| - 1
          ensures ids[k] < ids[k + 1]
        {
          assert ids[k + 1] == rest[k] && rest[k] in rest;
          if k > 0 {
            assert ids[k] == rest[k - 1];
          }
        }
      } else {
        assert ids == rest;
      }
    }
  }

  /** The outcome of the configuration check, with the id it last reported. */
  datatype Checked = Checked(link: Link, status: Status, reported: Option<u8>, trace: seq<Transfer>)

  /**
   * The PROBE/INQUIRE pair a passing device `id` leaves: both acknowledged,
   * and the big-endian type in the INQUIRE response is the declared one.
   */
  predicate PassedPair(dir: Directory, probe: Transfer, inquire: Transfer, id: u8) {
    && id < MaxNumId && dir[id].Some?
    && IsCommand(probe, id, PlainCommand(CmdProbe))
    && CmdStatus(probe.received) == Ok
    && IsCommand(inquire, id, PlainCommand(CmdInquire))
    && CmdStatus(inquire.received) == Ok
    && ResponseType(CmdResponse(inquire.received)) == dir[id].value.deviceType
  }

  /** `trace` read two entries at a time: one pair per key, in order, each accepted by `ok`. */
  predicate PairsMatch<T, K>(trace: seq<T>, keys: seq<K>, ok: (T, T, K) -> bool)
    decreases keys
  {
    if keys == [] then trace == []
    else
      && |trace| >= 2
      && ok(trace[0], trace[1], keys[0])
      && PairsMatch(trace[2..], keys[1..], ok)
  }

  /** The same condition, stated pair by pair. */
  lemma {:induction false} PairsMatchPairwise<T, K>(trace: seq<T>, keys: seq<K>, ok: (T, T, K) -> bool)
    ensures PairsMatch(trace, keys, ok) <==>
      && |trace| == 2 * |keys|
      && forall k | 0 <= k < |keys| :: ok(trace[2 * k], trace[2 * k + 1], keys[k])
    decreases keys
  {
    if keys != [] && |trace| >= 2 {
      PairsMatchPairwise(trace[2..], keys[1..], ok);
      if |trace| == 2 * |keys| {
        forall k | 1 <= k < |keys|
          ensures trace[2 * k] == trace[2..][2 * (k - 1)]
          ensures trace[2 * k + 1] == trace[2..][2 * (k - 1) + 1]
          ensures keys[k] == keys[1..][k - 1]
        {
        }
      }
    }
  }

  /** Once a prefix matches, the whole matches exactly when the rest does. */
  lemma {:induction false} PairsMatchAppend<T, K>(t1: seq<T>, k1: seq<K>, t2: seq<T>, k2: seq<K>, ok: (T, T, K) -> bool)
    requires PairsMatch(t1, k1, ok)
    ensures PairsMatch(t1 + t2, k1 + k2, ok) <==> PairsMatch(t2, k2, ok)
    decreases k1
  {
    if k1 == [] {
      assert t1 + t2 == t2 && k1 + k2 == k2;
    } else {
      PairsMatchAppend(t1[2..], k1[1..], t2, k2, ok);
      assert (t1 + t2)[2..] == t1[2..] + t2;
      assert (k1 + k2)[1..] == k1[1..] + k2;
      assert (t1 + t2)[0] == t1[0] && (t1 + t2)[1] == t1[1];
    }
  }

  /** The per-device test of the check, as a value. */
  function Passes(dir: Directory): (Transfer, Transfer, u8) -> bool {
    (probe: Transfer, inquire: Transfer, id: u8) => PassedPair(dir, probe, inquire, id)
  }

  /** `trace` is exactly one passing PROBE/INQUIRE pair per id of `ids`, in order. */
  predicate AllPassed(dir: Directory, trace: seq<Transfer>, ids: seq<u8>) {
    PairsMatch(trace, ids, Passes(dir))
  }

  /** A single pair accepted by `ok` matches its one key. */
  lemma SinglePair<T, K>(pair: seq<T>, key: K, ok: (T, T, K) -> bool)
    requires |pair| == 2 && ok(pair[0], pair[1], key)
    ensures PairsMatch(pair, [key], ok)
  {
    assert pair[2..] == [] && [key][1..] == [];
  }

  /**
   * One iteration of `PMLIN_check_config_internal` for a declared `id`:
   * PROBE, then INQUIRE, then compare the big-endian type in the response
   * with the declaration. Any failure ends the iteration with its code.
   */
  method CheckOne(dir: Directory, link: Link, id: u8) returns (r: Outcome)
    requires id < MaxNumId && dir[id].Some?
    ensures r.link == After(link, r.trace) && |r.trace| <= 2
    ensures r.status in {Ok, NoRespError, TimeoutError, CrcError, NotInitializedError, TypeConflictError}
    ensures r.status == Ok <==> |r.trace| == 2 && PassedPair(dir, r.trace[0], r.trace[1], id)
    ensures !link.initialized ==> r == Outcome(link, NotInitializedError, [])
  {
    var probe := SendCmd(link, id, PlainCommand(CmdProbe), Zeros(CmdRespLen));
    if probe.status != Ok {
      return Outcome(probe.link, probe.status, probe.trace);
    }
    var inquire := SendCmd(probe.link, id, PlainCommand(CmdInquire), probe.data);
    var pair := probe.trace + inquire.trace;
    if inquire.status != Ok {
      return Outcome(inquire.link, inquire.status, pair);
    }
    if ResponseType(inquire.data) != dir[id].value.deviceType {
      return Outcome(inquire.link, TypeConflictError, pair);
    }
    r := Outcome(inquire.link, Ok, pair);
  }

  /**
   * A check over `ids` that stopped at the `k`-th of them: it reported
   * that id, the first `k` ids passed `ok`, and at most one more pair was
   * exchanged.
   */
  predicate StoppedAt(ok: (Transfer, Transfer, u8) -> bool, ids: seq<u8>, r: Checked, k: nat) {
    && k < |ids| && r.reported == Some(ids[k])
    && 2 * k <= |r.trace| <= 2 * k + 2
    && PairsMatch(r.trace[..2 * k], ids[..k], ok)
  }

  /** The id the check reports after passing `ids`, starting from `reported`. */
  function LastReported(ids: seq<u8>, reported: Option<u8>): Option<u8> {
    if ids == [] then reported else Some(ids[|ids| - 1])
  }

  /**
   * What a check over `ids` with per-device test `ok`, started with
   * `reported`, promises: OK exactly when every id passed, the last id
   * reported on success, a stop at some id otherwise, and no exchange at
   * all without initialisation.
   */
  ghost predicate CheckSpec(ok: (Transfer, Transfer, u8) -> bool, link: Link, ids: seq<u8>, reported: Option<u8>, r: Checked) {
    && r.link == After(link, r.trace)
    && r.status in {Ok, NoRespError, TimeoutError, CrcError, NotInitializedError, TypeConflictError}
    && (r.status == Ok <==> PairsMatch(r.trace, ids, ok))
    && (r.status == Ok ==> r.reported == LastReported(ids, reported))
    && (r.status != Ok ==> exists k: nat :: StoppedAt(ok, ids, r, k))
    && (!link.initialized ==> r.trace == [] && (ids != [] ==> r.status == NotInitializedError))
  }

  /** A failed iteration at the first id ends the check there. */
  lemma CheckSpecFail(ok: (Transfer, Transfer, u8) -> bool, link: Link, id: u8, later: seq<u8>, reported: Option<u8>, one: Outcome)
    requires one.link == After(link, one.trace) && |one.trace| <= 2
    requires one.status in {NoRespError, TimeoutError, CrcError, NotInitializedError, TypeConflictError}
    requires !(|one.trace| == 2 && ok(one.trace[0], one.trace[1], id))
    requires !link.initialized ==> one == Outcome(link, NotInitializedError, [])
    ensures CheckSpec(ok, link, [id] + later, reported, Checked(one.link, one.status, Some(id), one.trace))
  {
    var ids := [id] + later;
    var r := Checked(one.link, one.status, Some(id), one.trace);
    assert StoppedAt(ok, ids, r, 0) by {
      assert r.trace[..0] == [] && ids[..0] == [];
    }
  }

  /** A passed iteration at the first id followed by a check of the rest is a check of all. */
  lemma CheckSpecCons(ok: (Transfer, Transfer, u8) -> bool, link: Link, id: u8, later: seq<u8>, reported: Option<u8>, one: Outcome, rest: Checked)
    requires link.initialized && one.link == After(link, one.trace)
    requires |one.trace| == 2 && PairsMatch(one.trace, [id], ok)
    requires CheckSpec(ok, one.link, later, Some(id), rest)
    ensures CheckSpec(ok, link, [id] + later, reported,
      Checked(rest.link, rest.status, rest.reported, one.trace + rest.trace))
  {
    var r := Checked(rest.link, rest.status, rest.reported, one.trace + rest.trace);
    PairsMatchAppend(one.trace, [id], rest.trace, later, ok);
    if rest.status != Ok {
      var k: nat :| StoppedAt(ok, later, rest, k);
      PairsMatchPrefixCons(one.trace, id, rest.trace, later, k, ok);
      assert StoppedAt(ok, [id] + later, r, k + 1);
    }
  }

  /** A matching prefix of the later pairs, behind one matching pair, is a matching prefix one longer. */
  lemma PairsMatchPrefixCons<T, K>(pair: seq<T>, key: K, trace: seq<T>, keys: seq<K>, k: nat, ok: (T, T, K) -> bool)
    requires |pair| == 2 && PairsMatch(pair, [key], ok)
    requires 2 * k <= |trace| && k <= |keys|
    requires PairsMatch(trace[..2 * k], keys[..k], ok)
    ensures PairsMatch((pair + trace)[..2 * (k + 1)], ([key] + keys)[..k + 1], ok)
  {
    assert (pair + trace)[..2 * (k + 1)] == pair + trace[..2 * k];
    assert ([key] + keys)[..k + 1] == [key] + keys[..k];
    PairsMatchAppend(pair, [key], trace[..2 * k], keys[..k], ok);
  }

  /**
   * `PMLIN_check_config_internal` from `id` on. Id 31 and undeclared ids
   * are skipped; a declared id goes to `CheckDeclared`.
   */
  method CheckFrom(dir: Directory, link: Link, id: nat, reported: Option<u8>) returns (r: Checked)
    requires id <= MaxNumId
    ensures CheckSpec(Passes(dir), link, DeclaredIn(dir, id, MaxNumId), reported, r)
    decreases MaxNumId - id, 1
  {
    if id == MaxNumId {
      r := Checked(link, Ok, reported, []);
      CheckSpecEmpty(Passes(dir), link, reported);
    } else if id == ReservedId as nat || dir[id].None? {
      DeclaredInStep(dir, id);
      r := CheckFrom(dir, link, id + 1, reported);
    } else {
      DeclaredInStep(dir, id);
      r := CheckDeclared(dir, link, id as u8, reported);
    }
  }

  /** No declared id left: the check passes without any exchange. */
  lemma CheckSpecEmpty(ok: (Transfer, Transfer, u8) -> bool, link: Link, reported: Option<u8>)
    ensures CheckSpec(ok, link, [], reported, Checked(link, Ok, reported, []))
  {
    assert After(link, []) == link;
  }

  /** One step of the id scan: `id` is skipped, or it heads the rest. */
  lemma DeclaredInStep(dir: Directory, id: nat)
    requires id < MaxNumId
    ensures id == ReservedId as nat || dir[id].None? ==> DeclaredIn(dir, id, MaxNumId) == DeclaredIn(dir, id + 1, MaxNumId)
    ensures id != ReservedId as nat && dir[id].Some? ==> DeclaredIn(dir, id, MaxNumId) == [id as u8] + DeclaredIn(dir, id + 1, MaxNumId)
  {
  }

  /**
   * One loop iteration for a declared `id`: it is reported, then checked
   * by `CheckOne`; a failure ends the check with its code, a pass goes on
   * with the next id.
   */
  method CheckDeclared(dir: Directory, link: Link, id: u8, reported: Option<u8>) returns (r: Checked)
    requires id < MaxNumId && id != ReservedId as nat && dir[id].Some?
    ensures CheckSpec(Passes(dir), link, [id] + DeclaredIn(dir, id + 1, MaxNumId), reported, r)
    decreases MaxNumId - id, 0
  {
    var one := CheckOne(dir, link, id);
    if one.status != Ok {
      CheckSpecFail(Passes(dir), link, id, DeclaredIn(dir, id + 1, MaxNumId), reported, one);
      return Checked(one.link, one.status, Some(id), one.trace);
    }
    SinglePair(one.trace, id, Passes(dir));
    var rest := CheckFrom(dir, one.link, id + 1, Some(id));
    CheckSpecCons(Passes(dir), link, id, DeclaredIn(dir, id + 1, MaxNumId), reported, one, rest);
    r := Checked(rest.link, rest.status, rest.reported, one.trace + rest.trace);
  }

  /**
   * `PMLIN_check_config`: OK exactly when every declared id in 1..30
   * answered PROBE and INQUIRE with its declared type. Otherwise the
   * check stopped at a declared id, which it reported, after every earlier
   * declared id passed. Ids are reported before they are probed, so an
   * uninitialised master reports the first declared id.
   */
  method CheckConfig(dir: Directory, link: Link) returns (r: Checked)
    ensures r.link == After(link, r.trace)
    ensures r.status in {Ok, NoRespError, TimeoutError, CrcError, NotInitializedError, TypeConflictError}
    ensures r.status == Ok <==> AllPassed(dir, r.trace, Declared(dir))
    ensures r.status == Ok ==> r.reported == LastReported(Declared(dir), None)
    ensures r.status != Ok ==> exists k: nat :: StoppedAt(Passes(dir), Declared(dir), r, k)
    ensures !link.initialized ==>
      && r.trace == []
      && (r.status == Ok <==> Declared(dir) == [])
      && (Declared(dir) != [] ==> r.status == NotInitializedError && r.reported == Some(Declared(dir)[0]))
  {
    r := CheckFrom(dir, link, FirstDeviceId as nat, None);
    if !link.initialized && r.status != Ok {
      var k: nat :| StoppedAt(Passes(dir), Declared(dir), r, k);
    }
  }
}
