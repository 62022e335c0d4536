/**
 * The master's device directory (master/src/pmlin-master.c:63,280-286):
 * thirty-two slots indexed by device id, each empty or holding the
 * declaration registered for that id.
 */
module Directory {
  import opened Protocol
  import opened Wrappers

  /** `g_PMLIN_id_to_device`: a declaration per id, `None` for NULL. */
  type Directory = s: seq<Option<DeviceDecl>> | |s| == MaxNumId witness Empty()

  function Empty(): (s: seq<Option<DeviceDecl>>)
    ensures |s| == MaxNumId && forall id | 0 <= id < MaxNumId :: s[id].None?
  {
    seq(MaxNumId, _ => None)
  }

  /**
   * What a caller may pass: every id indexes the directory, and the count
   * fits the `uint8_t num_devices` parameter.
   */
  predicate ValidDevices(devices: seq<DeviceDecl>) {
    && |devices| < 256
    && forall i | 0 <= i < |devices| :: devices[i].id < MaxNumId && ValidDecl(devices[i])
  }

  /** Reference meaning of the directory: the last declaration naming `id`, if any. */
  function Latest(devices: seq<DeviceDecl>, id: nat): (r: Option<DeviceDecl>)
    ensures r.Some? ==> r.value in devices && r.value.id == id
    ensures r.None? <==> forall i | 0 <= i < |devices| :: devices[i].id != id
  {
    if |devices| == 0 then None
    else if devices[|devices| - 1].id == id then Some(devices[|devices| - 1])
    else Latest(devices[..|devices| - 1], id)
  }

  /** A declaration that no later one overrides is the one the directory keeps. */
  lemma {:induction false} LatestIsLastDeclaration(devices: seq<DeviceDecl>, i: nat)
    requires i < |devices|
    requires forall j | i < j < |devices| :: devices[j].id != devices[i].id
    ensures Latest(devices, devices[i].id) == Some(devices[i])
  {
    if i < |devices| - 1 {
      LatestIsLastDeclaration(devices[..|devices| - 1], i);
    }
  }

  /**
   * `PMLIN_define_devices`: clears all 32 slots, then stores each
   * declaration at its own id, so a later duplicate id wins.
   */
  method DefineDevices(devices: seq<DeviceDecl>) returns (dir: Directory)
    requires ValidDevices(devices)
    ensures forall id | 0 <= id < MaxNumId :: dir[id] == Latest(devices, id)
  {
    var slots: seq<Option<DeviceDecl>> := [];
    var i := 0;
    while i < MaxNumId
      invariant 0 <= i <= MaxNumId && |slots| == i
      invariant forall id | 0 <= id < i :: slots[id].None?
    {
      slots := slots + [None];
      i := i + 1;
    }
    var j := 0;
    while j < |devices|
      invariant 0 <= j <= |devices| && |slots| == MaxNumId
      invariant forall id | 0 <= id < MaxNumId :: slots[id] == Latest(devices[..j], id)
    {
      var d := devices[j];
      assert devices[..j + 1][..j] == devices[..j];
      slots := slots[d.id := Some(d)];
      j := j + 1;
    }
    assert devices[..j] == devices;
    dir := slots;
  }

  /** Every occupied slot holds a declaration for that very id. */
  lemma SlotsMatchIds(devices: seq<DeviceDecl>, dir: Directory)
    requires ValidDevices(devices)
    requires forall id | 0 <= id < MaxNumId :: dir[id] == Latest(devices, id)
    ensures forall id | 0 <= id < MaxNumId && dir[id].Some? ::
      dir[id].value.id == id && dir[id].value in devices && ValidDecl(dir[id].value)
  {
  }

  /** A directory whose occupied slots hold well-formed declarations. */
  predicate WellFormed(dir: Directory) {
    forall id | 0 <= id < MaxNumId :: dir[id].Some? ==> ValidDecl(dir[id].value)
  }
}
