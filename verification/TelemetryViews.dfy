/** The views of recent telemetry: all of it, one device's, and a user's snapshot. */
module TelemetryViews {
  import opened Seqs
  import opened Domain
  import opened TelemetryLog
  import Devices

  function ForDevice(deviceId: string): Telemetry -> bool {
    (t: Telemetry) => t.deviceId == deviceId
  }

  function ForDevices(ids: set<string>): Telemetry -> bool {
    (t: Telemetry) => t.deviceId in ids
  }

  /** The owner of the first device with this id, or nobody. */
  function OwnerOf(devices: seq<Device>, deviceId: string): string {
    var i := FirstIndex(Devices.IdIs(deviceId), devices);
    if i < 0 then "" else devices[i].ownerId
  }

  function DeviceIds(devices: seq<Device>, owner: string): set<string> {
    set i | 0 <= i < |devices| && devices[i].ownerId == owner :: devices[i].id
  }

  function DeviceView(devices: seq<Device>, window: seq<Telemetry>, owner: string, deviceId: string, limit: int)
    : seq<Telemetry>
  {
    if OwnerOf(devices, deviceId) != owner then []
    else Limit(limit, Reverse(Filter(ForDevice(deviceId), window)))
  }

  /** What a filter over some devices returns: newest first, at most `limit`. */
  function DevicesView(window: seq<Telemetry>, ids: set<string>, limit: int): seq<Telemetry> {
    Limit(limit, Reverse(Filter(ForDevices(ids), window)))
  }

  function SnapshotView(devices: seq<Device>, window: seq<Telemetry>, owner: string): seq<Telemetry> {
    Reverse(DevicesView(window, DeviceIds(devices, owner), MAX_TELEMETRY))
  }

  lemma OwnedIsListed(devices: seq<Device>, owner: string, deviceId: string)
    requires Devices.DevicesInv(devices) && owner != ""
    ensures OwnerOf(devices, deviceId) == owner <==> deviceId in DeviceIds(devices, owner)
  {
    var i := FirstIndex(Devices.IdIs(deviceId), devices);
    if deviceId in DeviceIds(devices, owner) {
      var j :| 0 <= j < |devices| && devices[j].ownerId == owner && devices[j].id == deviceId;
      var distinct := Devices.Distinct(devices[i], devices[j]);
    }
  }

  /** A snapshot's telemetry is the window's records for the user's devices, oldest first:
      the two reversals cancel and the limit cuts nothing. */
  lemma SnapshotIsFilter(devices: seq<Device>, window: seq<Telemetry>, owner: string)
    requires |window| <= MAX_TELEMETRY
    ensures SnapshotView(devices, window, owner) == Filter(ForDevices(DeviceIds(devices, owner)), window)
  {
    var mine := Filter(ForDevices(DeviceIds(devices, owner)), window);
    FilterContents(ForDevices(DeviceIds(devices, owner)), window);
    ReverseAt(mine);
    ReverseTwice(mine);
  }

  /** The device view and the snapshot agree: restricting the snapshot to one device the
      user owns, newest first and limited, is that device's view; other devices' records
      are not in it. */
  lemma ViewsAgree(devices: seq<Device>, window: seq<Telemetry>, owner: string, deviceId: string, limit: int)
    requires Devices.DevicesInv(devices) && owner != ""
    requires |window| <= MAX_TELEMETRY
    ensures DeviceView(devices, window, owner, deviceId, limit)
         == Limit(limit, Reverse(Filter(ForDevice(deviceId), SnapshotView(devices, window, owner))))
  {
    var ids := DeviceIds(devices, owner);
    SnapshotIsFilter(devices, window, owner);
    OwnedIsListed(devices, owner, deviceId);
    if deviceId in ids {
      FilterFilter(ForDevices(ids), ForDevice(deviceId), window);
    } else {
      var mine := Filter(ForDevices(ids), window);
      FilterContents(ForDevices(ids), window);
      assert forall i :: 0 <= i < |mine| ==> mine[i] in mine;
      FilterNone(ForDevice(deviceId), mine);
    }
  }
}
