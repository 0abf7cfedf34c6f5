/** The three tables the core reads and writes (activation_codes, devices,
    watch_events), their rows as records, and the integrity constraints the
    migrations and the controllers together maintain. */
module Tables {
  import opened Common
  import opened Seqs
  import opened ActivationCodes

  /** The client-defined `metadata` JSON object, flattened to key/value pairs. */
  type Metadata = seq<(string, string)>

  /** One row of `devices` (the `$fillable` list of backend/app/Models/Device.php
      plus the row's id and creation time). */
  datatype Device = Device(
    id: nat,
    userId: nat,
    name: string,
    deviceUuid: string,
    browserType: Option<string>,
    browserVersion: Option<string>,
    os: Option<string>,
    activatedAt: Option<int>,
    lastSeenAt: Option<int>,
    isActive: bool,
    createdAt: int)

  /** One row of `watch_events` (the `$fillable` list of
      backend/app/Models/WatchEvent.php plus the row's id). */
  datatype WatchEvent = WatchEvent(
    id: nat,
    deviceId: nat,
    videoId: string,
    videoTitle: Option<string>,
    channelName: Option<string>,
    channelId: Option<string>,
    videoUrl: string,
    durationSeconds: Option<int>,
    watchDurationSeconds: Option<int>,
    watchedAt: int,
    thumbnailUrl: Option<string>,
    metadata: Option<Metadata>)

  /** Some device row has this id (the foreign keys of codes and events). */
  predicate HasDevice(devices: seq<Device>, id: nat) {
    exists k :: 0 <= k < |devices| && devices[k].id == id
  }

  /** `ActivationCode::where('code', value)->first()`. */
  function FindCode(codes: seq<ActivationCode>, value: string): Option<nat> {
    FirstIndex(codes, (c: ActivationCode) => c.code == value)
  }

  /** `Device::where('device_uuid', uuid)->first()`. */
  function FindDevice(devices: seq<Device>, uuid: string): Option<nat> {
    FirstIndex(devices, (d: Device) => d.deviceUuid == uuid)
  }

  /** The codes table: ids below the counter and increasing in row order,
      `code` unique, `used_at` set exactly when `device_id` is, and every bound
      device present. */
  ghost predicate CodesWellFormed(codes: seq<ActivationCode>, devices: seq<Device>, nextId: nat) {
    && (forall i :: 0 <= i < |codes| ==> codes[i].id < nextId)
    && (forall i, j :: 0 <= i < j < |codes| ==> codes[i].id < codes[j].id)
    && (forall i, j :: 0 <= i < j < |codes| ==> codes[i].code != codes[j].code)
    && (forall i :: 0 <= i < |codes| ==> (IsUsed(codes[i]) <==> codes[i].deviceId.Some?))
    && (forall i :: 0 <= i < |codes| && codes[i].deviceId.Some? ==> HasDevice(devices, codes[i].deviceId.value))
  }

  /** The devices table: ids below the counter and increasing, `device_uuid` unique. */
  ghost predicate DevicesWellFormed(devices: seq<Device>, nextId: nat) {
    && (forall i :: 0 <= i < |devices| ==> devices[i].id < nextId)
    && (forall i, j :: 0 <= i < j < |devices| ==> devices[i].id < devices[j].id)
    && (forall i, j :: 0 <= i < j < |devices| ==> devices[i].deviceUuid != devices[j].deviceUuid)
  }

  /** The events table: ids below the counter and increasing, every event on a device row. */
  ghost predicate EventsWellFormed(events: seq<WatchEvent>, devices: seq<Device>, nextId: nat) {
    && (forall i :: 0 <= i < |events| ==> events[i].id < nextId)
    && (forall i, j :: 0 <= i < j < |events| ==> events[i].id < events[j].id)
    && (forall i :: 0 <= i < |events| ==> HasDevice(devices, events[i].deviceId))
  }

  /** With unique uuids, looking up a device's uuid finds that device. */
  lemma FindDeviceOwnRow(devices: seq<Device>, nextId: nat, k: nat)
    requires DevicesWellFormed(devices, nextId) && k < |devices|
    ensures FindDevice(devices, devices[k].deviceUuid) == Some(k)
  {
  }

  /** Rewriting a code row without touching its code value changes no code lookup. */
  lemma FindCodeKept(codes: seq<ActivationCode>, k: nat, c: ActivationCode, value: string)
    requires k < |codes| && c.code == codes[k].code
    ensures FindCode(codes[k := c], value) == FindCode(codes, value)
  {
    FirstIndexPointwise(codes, codes[k := c], (x: ActivationCode) => x.code == value);
  }

  /** What no operation of the core does to the devices table: remove or
      reorder a row, or change a row's id, owner or uuid. */
  ghost predicate DevicesKept(before: seq<Device>, after: seq<Device>) {
    && |before| <= |after|
    && forall k :: 0 <= k < |before| ==>
         && after[k].id == before[k].id
         && after[k].userId == before[k].userId
         && after[k].deviceUuid == before[k].deviceUuid
  }

  /** A foreign key that was satisfied stays satisfied while devices are kept. */
  lemma HasDeviceKept(before: seq<Device>, after: seq<Device>, id: nat)
    requires DevicesKept(before, after) && HasDevice(before, id)
    ensures HasDevice(after, id)
  {
    var k :| 0 <= k < |before| && before[k].id == id;
    assert after[k].id == id;
  }

  /** All three tables together. */
  ghost predicate WellFormed(codes: seq<ActivationCode>, devices: seq<Device>, events: seq<WatchEvent>,
                             nextCodeId: nat, nextDeviceId: nat, nextEventId: nat) {
    && CodesWellFormed(codes, devices, nextCodeId)
    && DevicesWellFormed(devices, nextDeviceId)
    && EventsWellFormed(events, devices, nextEventId)
  }

  /** Rewriting one device row in place, keeping its id, owner and uuid, keeps
      every table well formed. */
  lemma DeviceUpdateWellFormed(codes: seq<ActivationCode>, devices: seq<Device>, events: seq<WatchEvent>,
                               nc: nat, nd: nat, ne: nat, j: nat, d: Device)
    requires WellFormed(codes, devices, events, nc, nd, ne)
    requires j < |devices|
    requires d.id == devices[j].id && d.userId == devices[j].userId && d.deviceUuid == devices[j].deviceUuid
    ensures WellFormed(codes, devices[j := d], events, nc, nd, ne)
    ensures DevicesKept(devices, devices[j := d])
    ensures HasDevice(devices[j := d], d.id)
  {
    var after := devices[j := d];
    assert after[j] == d;
    forall id | HasDevice(devices, id) ensures HasDevice(after, id) {
      HasDeviceKept(devices, after, id);
    }
  }

  /** Appending a device with the next id and a uuid no row has keeps every
      table well formed. */
  lemma DeviceAppendWellFormed(codes: seq<ActivationCode>, devices: seq<Device>, events: seq<WatchEvent>,
                               nc: nat, nd: nat, ne: nat, d: Device)
    requires WellFormed(codes, devices, events, nc, nd, ne)
    requires d.id == nd && FindDevice(devices, d.deviceUuid).None?
    ensures WellFormed(codes, devices + [d], events, nc, nd + 1, ne)
    ensures DevicesKept(devices, devices + [d])
    ensures HasDevice(devices + [d], d.id)
  {
    var after := devices + [d];
    assert after[|devices|] == d;
    forall id | HasDevice(devices, id) ensures HasDevice(after, id) {
      HasDeviceKept(devices, after, id);
    }
  }

  /** Appending an event with the next id on a present device keeps every
      table well formed. */
  lemma EventAppendWellFormed(codes: seq<ActivationCode>, devices: seq<Device>, events: seq<WatchEvent>,
                              nc: nat, nd: nat, ne: nat, e: WatchEvent)
    requires WellFormed(codes, devices, events, nc, nd, ne)
    requires e.id == ne && HasDevice(devices, e.deviceId)
    ensures WellFormed(codes, devices, events + [e], nc, nd, ne + 1)
  {
    assert (events + [e])[|events|] == e;
  }

  /** What no operation of the core does to a used code: change or delete it. */
  ghost predicate UsedCodesKept(before: seq<ActivationCode>, after: seq<ActivationCode>) {
    forall c :: c in before && IsUsed(c) ==> c in after
  }

  /** The database: one sequence per table in id order, and the next id of each. */
  class Database {
    var codes: seq<ActivationCode>
    var devices: seq<Device>
    var events: seq<WatchEvent>
    var nextCodeId: nat
    var nextDeviceId: nat
    var nextEventId: nat

    ghost predicate Valid()
      reads this
    {
      WellFormed(codes, devices, events, nextCodeId, nextDeviceId, nextEventId)
    }

    /** A freshly migrated, empty database. */
    constructor ()
      ensures Valid()
      ensures codes == [] && devices == [] && events == []
    {
      codes, devices, events := [], [], [];
      nextCodeId, nextDeviceId, nextEventId := 1, 1, 1;
    }
  }
}
