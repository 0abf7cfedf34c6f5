/** The device endpoints (backend/app/Http/Controllers/Api/DeviceController.php):
    redeem a code for a device and a token, heartbeat, list, deactivate. */
module DeviceRegistry {
  import opened Common
  import opened Seqs
  import opened ActivationCodes
  import opened Tables

  const InvalidCodeMessage := "Invalid activation code"
  const ExpiredCodeMessage := "Activation code has expired"
  const UsedCodeMessage := "Activation code has already been used"
  const DeviceNotFoundMessage := "Device not found"
  const DefaultDeviceName := "Browser Extension"
  const TokenPrefix := "device-token-"
  const MaxFieldLength: nat := 255

  /** The body of `POST /devices/activate`. */
  datatype ActivationRequest = ActivationRequest(
    code: Field<string>,
    deviceUuid: Field<string>,
    name: Field<string>,
    browserType: Field<string>,
    browserVersion: Field<string>,
    os: Field<string>)

  /** A personal access token minted for a user; `plainText` is the secret the
      token library draws, passed in. */
  datatype Token = Token(userId: nat, name: string, plainText: string)

  /** The successful response of `activate`. */
  datatype Activation = Activation(device: Device, token: Token)

  /** The validation rules of `activate`. */
  predicate ValidActivationRequest(q: ActivationRequest): (ok: bool)
    ensures ok ==> q.code.Given? && |q.code.value| == 12
    ensures ok ==> q.deviceUuid.Given? && 1 <= |q.deviceUuid.value| <= MaxFieldLength
    ensures ok ==> forall f :: f in [q.name, q.browserType, q.browserVersion, q.os] && f.Given? ==>
                                |f.value| <= MaxFieldLength
  {
    && RequiredString(q.code) && |q.code.value| == 12
    && RequiredString(q.deviceUuid) && MaxLength(q.deviceUuid.value, MaxFieldLength)
    && q.name.NullableAnd(s => MaxLength(s, MaxFieldLength))
    && q.browserType.NullableAnd(s => MaxLength(s, MaxFieldLength))
    && q.browserVersion.NullableAnd(s => MaxLength(s, MaxFieldLength))
    && q.os.NullableAnd(s => MaxLength(s, MaxFieldLength))
  }

  /** The 400 message for a code that is not valid: "expired" when `isExpired`,
      "already used" otherwise. */
  function RejectionMessage(c: ActivationCode, now: int): string {
    if IsExpired(c, now) then ExpiredCodeMessage else UsedCodeMessage
  }

  /** The 400 message names expiry exactly when the code has expired; an unused
      code at its expiry instant is reported as already used. */
  lemma RejectionMessageCases(c: ActivationCode, now: int)
    requires !IsValid(c, now)
    ensures RejectionMessage(c, now) == ExpiredCodeMessage <==> c.expiresAt < now
    ensures c.expiresAt == now && !IsUsed(c) ==> RejectionMessage(c, now) == UsedCodeMessage
  {
  }

  /** The reactivation update: active again, activated and seen now, every
      other column (owner, name, uuid, browser fields) as it was. */
  function Reactivated(d: Device, now: int): (r: Device)
    ensures r.isActive && r.activatedAt == Some(now) && r.lastSeenAt == Some(now)
    ensures r.id == d.id && r.userId == d.userId && r.deviceUuid == d.deviceUuid && r.name == d.name
    ensures r.browserType == d.browserType && r.browserVersion == d.browserVersion && r.os == d.os
    ensures r.createdAt == d.createdAt
  {
    d.(isActive := true, activatedAt := Some(now), lastSeenAt := Some(now))
  }

  /** `Device::create([...])` with every optional column read as `?? null`. */
  function NewDevice(id: nat, owner: nat, q: ActivationRequest, now: int): (r: Device)
    requires ValidActivationRequest(q)
    ensures r.id == id && r.userId == owner && q.deviceUuid == Given(r.deviceUuid)
    ensures r.name == if q.name.Given? then q.name.value else DefaultDeviceName
    ensures r.browserType == q.browserType.OrNull() && r.browserVersion == q.browserVersion.OrNull()
    ensures r.os == q.os.OrNull()
    ensures r.isActive && r.activatedAt == Some(now) && r.lastSeenAt == Some(now) && r.createdAt == now
  {
    Device(
      id, owner,
      if q.name.Given? then q.name.value else DefaultDeviceName,
      q.deviceUuid.value,
      q.browserType.OrNull(), q.browserVersion.OrNull(), q.os.OrNull(),
      Some(now), Some(now), true, now)
  }

  /** `Device::create([...])` as written: `$validated['browser_type']`,
      `['browser_version']` and `['os']` are read without `??`, and a key the
      request left out is missing from the validated array, which PHP reports
      as an error that ends the request with 500 before the row is inserted. */
  function NewDeviceAsWritten(id: nat, owner: nat, q: ActivationRequest, now: int): (r: Result<Device>)
    requires ValidActivationRequest(q)
    ensures r.Err? ==> r.failure == ServerError
    ensures r.Ok? ==> r.value == NewDevice(id, owner, q, now)
  {
    if q.browserType.Absent? || q.browserVersion.Absent? || q.os.Absent? then Err(ServerError)
    else Ok(NewDevice(id, owner, q, now))
  }

  /** As written, creating a device fails exactly when a browser field is left
      out, and otherwise builds the same row as the corrected `NewDevice`, which
      never fails and stores a left-out field as null. */
  lemma NewDeviceAsWrittenFailsOnOmittedField(id: nat, owner: nat, q: ActivationRequest, now: int)
    requires ValidActivationRequest(q)
    ensures NewDeviceAsWritten(id, owner, q, now).Err?
      <==> q.browserType.Absent? || q.browserVersion.Absent? || q.os.Absent?
    ensures NewDeviceAsWritten(id, owner, q, now).Ok? ==>
      NewDeviceAsWritten(id, owner, q, now).value == NewDevice(id, owner, q, now)
    ensures q.os.Absent? ==> NewDevice(id, owner, q, now).os.None?
  {
  }

  /** A request that leaves out `os` (the rule `nullable` admits it) gets 500
      as written, while the corrected row stores `os` as null. */
  lemma OmittedOsCounterexample()
    ensures
      var q := ActivationRequest(Given("ABCDEFGHJKLM"), Given("uuid-1"), Absent,
                                 Given("Chrome"), Given("120"), Absent);
      && ValidActivationRequest(q)
      && NewDeviceAsWritten(1, 7, q, 0) == Err(ServerError)
      && NewDevice(1, 7, q, 0).os.None? && NewDevice(1, 7, q, 0).userId == 7
  {
  }

  /** The code update: bound to the device and used now. */
  function Redeemed(c: ActivationCode, deviceId: nat, now: int): ActivationCode {
    c.(deviceId := Some(deviceId), usedAt := Some(now))
  }

  /** Redeeming an unused code for a present device keeps the codes table
      well formed (still unique, used exactly when bound) and every used code. */
  lemma RedeemWellFormed(codes: seq<ActivationCode>, devices: seq<Device>, nc: nat, k: nat, deviceId: nat, now: int)
    requires CodesWellFormed(codes, devices, nc)
    requires k < |codes| && !IsUsed(codes[k]) && HasDevice(devices, deviceId)
    ensures CodesWellFormed(codes[k := Redeemed(codes[k], deviceId, now)], devices, nc)
    ensures UsedCodesKept(codes, codes[k := Redeemed(codes[k], deviceId, now)])
  {
    var after := codes[k := Redeemed(codes[k], deviceId, now)];
    forall u | u in codes && IsUsed(u) ensures u in after {
      var m :| 0 <= m < |codes| && codes[m] == u;
      assert after[m] == u;
    }
  }

  /** The device half of `activate`: the device with the requested uuid is
      reactivated in place, or one new device is created for `owner`. */
  method UpsertDevice(db: Database, owner: nat, q: ActivationRequest, now: int) returns (device: Device)
    requires db.Valid() && ValidActivationRequest(q)
    modifies db
    ensures db.Valid()
    ensures db.codes == old(db.codes) && db.events == old(db.events)
    ensures db.nextCodeId == old(db.nextCodeId) && db.nextEventId == old(db.nextEventId)
    ensures DevicesKept(old(db.devices), db.devices)
    ensures HasDevice(db.devices, device.id)
    ensures
      var j := FindDevice(old(db.devices), q.deviceUuid.value);
      && (j.Some? ==>
            && device == Reactivated(old(db.devices)[j.value], now)
            && db.devices == old(db.devices)[j.value := device]
            && db.nextDeviceId == old(db.nextDeviceId))
      && (j.None? ==>
            && device == NewDevice(old(db.nextDeviceId), owner, q, now)
            && db.devices == old(db.devices) + [device]
            && db.nextDeviceId == old(db.nextDeviceId) + 1)
  {
    var existing := FindDevice(db.devices, q.deviceUuid.value);
    if existing.Some? {
      device := Reactivated(db.devices[existing.value], now);
      DeviceUpdateWellFormed(db.codes, db.devices, db.events, db.nextCodeId, db.nextDeviceId, db.nextEventId,
                             existing.value, device);
      db.devices := db.devices[existing.value := device];
    } else {
      device := NewDevice(db.nextDeviceId, owner, q, now);
      DeviceAppendWellFormed(db.codes, db.devices, db.events, db.nextCodeId, db.nextDeviceId, db.nextEventId,
                             device);
      db.devices := db.devices + [device];
      db.nextDeviceId := db.nextDeviceId + 1;
    }
  }

  /** `$device->user->createToken('device-token-' . $device->id)`. */
  function TokenFor(d: Device, plainText: string): (t: Token)
    ensures t.userId == d.userId && t.plainText == plainText
    ensures |t.name| > |TokenPrefix| && t.name[..|TokenPrefix|] == TokenPrefix
    ensures t.name[|TokenPrefix|..] == NatToString(d.id)
  {
    Token(d.userId, TokenPrefix + NatToString(d.id), plainText)
  }

  /** The digits after the prefix read back as the device id, so two devices
      never get tokens with the same name. */
  lemma TokenNamesDistinct(d1: Device, d2: Device, p1: string, p2: string)
    ensures DigitsValue(TokenFor(d1, p1).name[|TokenPrefix|..]) == d1.id
    ensures d1.id != d2.id ==> TokenFor(d1, p1).name != TokenFor(d2, p2).name
  {
    NatToStringValue(d1.id);
    NatToStringValue(d2.id);
    if TokenFor(d1, p1).name == TokenFor(d2, p2).name {
      assert NatToString(d1.id) == NatToString(d2.id);
    }
  }

  /** `POST /devices/activate`. Validation, then the code lookup (404) and its
      validity (400, "expired" or "already used"), all before any write. Then
      the device with that uuid is reactivated in place, keeping its owner, or
      one device is created for the code's owner; the code is bound to the
      device and marked used; a token is issued for the device's owner. */
  method Activate(db: Database, q: ActivationRequest, now: int, plainText: string)
    returns (r: Result<Activation>)
    requires db.Valid()
    modifies db
    ensures db.Valid()
    ensures db.events == old(db.events) && db.nextEventId == old(db.nextEventId)
    ensures db.nextCodeId == old(db.nextCodeId)
    ensures DevicesKept(old(db.devices), db.devices)
    ensures UsedCodesKept(old(db.codes), db.codes)
    ensures r.Err? ==>
      db.codes == old(db.codes) && db.devices == old(db.devices) && db.nextDeviceId == old(db.nextDeviceId)
    ensures !ValidActivationRequest(q) ==> r == Err(ValidationFailed)
    ensures ValidActivationRequest(q) && FindCode(old(db.codes), q.code.value).None? ==>
      r == Err(NotFound(InvalidCodeMessage))
    ensures ValidActivationRequest(q) && FindCode(old(db.codes), q.code.value).Some? ==>
      var c := old(db.codes)[FindCode(old(db.codes), q.code.value).value];
      && (!IsValid(c, now) ==> r == Err(BadRequest(RejectionMessage(c, now))))
      && (IsValid(c, now) ==> r.Ok?)
    ensures r.Ok? ==>
      var k := FindCode(old(db.codes), q.code.value).value;
      var j := FindDevice(old(db.devices), q.deviceUuid.value);
      var d := r.value.device;
      && ValidActivationRequest(q)
      && IsValid(old(db.codes)[k], now)
      && (j.Some? ==>
            && d == Reactivated(old(db.devices)[j.value], now)
            && db.devices == old(db.devices)[j.value := d]
            && db.nextDeviceId == old(db.nextDeviceId))
      && (j.None? ==>
            && d == NewDevice(old(db.nextDeviceId), old(db.codes)[k].userId, q, now)
            && db.devices == old(db.devices) + [d]
            && db.nextDeviceId == old(db.nextDeviceId) + 1)
      && db.codes == old(db.codes)[k := Redeemed(old(db.codes)[k], d.id, now)]
      && r.value.token == TokenFor(d, plainText)
  {
    if !ValidActivationRequest(q) {
      return Err(ValidationFailed);
    }
    var found := FindCode(db.codes, q.code.value);
    if found.None? {
      return Err(NotFound(InvalidCodeMessage));
    }
    var k := found.value;
    var c := db.codes[k];
    if !IsValid(c, now) {
      return Err(BadRequest(RejectionMessage(c, now)));
    }
    var device := UpsertDevice(db, c.userId, q, now);
    RedeemWellFormed(db.codes, db.devices, db.nextCodeId, k, device.id, now);
    db.codes := db.codes[k := Redeemed(c, device.id, now)];
    r := Ok(Activation(device, TokenFor(device, plainText)));
  }

  /** `POST /devices/heartbeat`: 404 for an unknown uuid; otherwise only that
      device's `last_seen_at` becomes now, whether or not it is active. */
  method Heartbeat(db: Database, uuid: Field<string>, now: int) returns (r: Result<Device>)
    requires db.Valid()
    modifies db
    ensures db.Valid()
    ensures db.codes == old(db.codes) && db.events == old(db.events)
    ensures db.nextCodeId == old(db.nextCodeId) && db.nextDeviceId == old(db.nextDeviceId)
    ensures db.nextEventId == old(db.nextEventId)
    ensures DevicesKept(old(db.devices), db.devices)
    ensures !RequiredString(uuid) ==> r == Err(ValidationFailed)
    ensures RequiredString(uuid) && FindDevice(old(db.devices), uuid.value).None? ==>
      r == Err(NotFound(DeviceNotFoundMessage))
    ensures RequiredString(uuid) && FindDevice(old(db.devices), uuid.value).Some? ==>
      var j := FindDevice(old(db.devices), uuid.value).value;
      && r == Ok(old(db.devices)[j].(lastSeenAt := Some(now)))
      && db.devices == old(db.devices)[j := r.value]
    ensures r.Err? ==> db.devices == old(db.devices)
  {
    if !RequiredString(uuid) {
      return Err(ValidationFailed);
    }
    var found := FindDevice(db.devices, uuid.value);
    if found.None? {
      return Err(NotFound(DeviceNotFoundMessage));
    }
    var device := db.devices[found.value].(lastSeenAt := Some(now));
    DeviceUpdateWellFormed(db.codes, db.devices, db.events, db.nextCodeId, db.nextDeviceId, db.nextEventId,
                           found.value, device);
    db.devices := db.devices[found.value := device];
    r := Ok(device);
  }

  /** One element of the `index` response: the device and `watch_events_count`. */
  datatype DeviceView = DeviceView(device: Device, watchEventsCount: nat)

  /** The caller's rows of `devices`. */
  function OwnedDevices(devices: seq<Device>, user: nat): seq<Device> {
    Filter(devices, (d: Device) => d.userId == user)
  }

  /** `withCount('watchEvents')`: the number of events recorded by device `id`. */
  function EventCount(events: seq<WatchEvent>, id: nat): nat {
    |Filter(events, (e: WatchEvent) => e.deviceId == id)|
  }

  function DevicesOf(views: seq<DeviceView>): seq<Device> {
    seq(|views|, i requires 0 <= i < |views| => views[i].device)
  }

  /** `GET /devices`: the caller's devices, newest `created_at` first, each
      with its number of watch events. */
  function Index(devices: seq<Device>, events: seq<WatchEvent>, user: nat): (r: seq<DeviceView>)
    ensures multiset(DevicesOf(r)) == multiset(OwnedDevices(devices, user))
    ensures forall i :: 0 <= i < |r| ==> r[i].device in devices && r[i].device.userId == user
    ensures forall d :: d in devices && d.userId == user ==> d in DevicesOf(r)
    ensures forall i, j :: 0 <= i < j < |r| ==> r[i].device.createdAt >= r[j].device.createdAt
    ensures forall i :: 0 <= i < |r| ==> r[i].watchEventsCount == EventCount(events, r[i].device.id)
  {
    var sorted := SortDesc(OwnedDevices(devices, user), (d: Device) => d.createdAt);
    OwnedDevicesMembership(devices, user, sorted);
    CountedViews(events, sorted)
  }

  /** The `withCount('watchEvents')` of `index` over the sorted rows. */
  function CountedViews(events: seq<WatchEvent>, sorted: seq<Device>): (r: seq<DeviceView>)
    ensures DevicesOf(r) == sorted
    ensures forall i :: 0 <= i < |r| ==> r[i].watchEventsCount == EventCount(events, r[i].device.id)
  {
    var r := seq(|sorted|, i requires 0 <= i < |sorted| => DeviceView(sorted[i], EventCount(events, sorted[i].id)));
    assert DevicesOf(r) == sorted;
    r
  }

  /** A permutation of the caller's devices holds exactly the caller's devices. */
  lemma OwnedDevicesMembership(devices: seq<Device>, user: nat, perm: seq<Device>)
    requires multiset(perm) == multiset(OwnedDevices(devices, user))
    ensures forall d :: d in perm <==> d in devices && d.userId == user
  {
    var owned := OwnedDevices(devices, user);
    forall d ensures d in perm <==> d in devices && d.userId == user {
      assert d in perm <==> d in multiset(perm);
      assert d in owned <==> d in multiset(owned);
      if d in devices && d.userId == user {
        var i :| 0 <= i < |devices| && devices[i] == d;
      }
    }
  }

  /** `$request->user()->devices()->findOrFail($id)`. */
  function FindOwnedDevice(devices: seq<Device>, user: nat, id: nat): Option<nat> {
    FirstIndex(devices, (d: Device) => d.id == id && d.userId == user)
  }

  /** `DELETE /devices/{id}`: only the caller's device is found (404 otherwise);
      it is deactivated and nothing else changes. */
  method Destroy(db: Database, user: nat, id: nat) returns (r: Result<()>)
    requires db.Valid()
    modifies db
    ensures db.Valid()
    ensures db.codes == old(db.codes) && db.events == old(db.events)
    ensures db.nextCodeId == old(db.nextCodeId) && db.nextDeviceId == old(db.nextDeviceId)
    ensures db.nextEventId == old(db.nextEventId)
    ensures DevicesKept(old(db.devices), db.devices)
    ensures FindOwnedDevice(old(db.devices), user, id).None? ==>
      r == Err(ModelNotFound) && db.devices == old(db.devices)
    ensures FindOwnedDevice(old(db.devices), user, id).Some? ==>
      var k := FindOwnedDevice(old(db.devices), user, id).value;
      && r == Ok(())
      && db.devices == old(db.devices)[k := old(db.devices)[k].(isActive := false)]
  {
    var found := FindOwnedDevice(db.devices, user, id);
    if found.None? {
      return Err(ModelNotFound);
    }
    var device := db.devices[found.value].(isActive := false);
    DeviceUpdateWellFormed(db.codes, db.devices, db.events, db.nextCodeId, db.nextDeviceId, db.nextEventId,
                           found.value, device);
    db.devices := db.devices[found.value := device];
    r := Ok(());
  }
}
