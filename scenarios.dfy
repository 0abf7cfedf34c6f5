/** Request sequences across the endpoints: what one request leaves behind
    decides how the next one is answered. */
module Scenarios {
  import opened Common
  import opened ActivationCodes
  import opened Tables
  import DeviceRegistry
  import EventIngestor

  /** A used code is refused: the activation is 400 with the expiry or
      "already used" message, and no table changes. */
  method ActivateWithUsedCode(db: Database, q: DeviceRegistry.ActivationRequest, k: nat, now: int, plainText: string)
    returns (r: Result<DeviceRegistry.Activation>)
    requires db.Valid() && DeviceRegistry.ValidActivationRequest(q)
    requires k < |db.codes| && FindCode(db.codes, q.code.value) == Some(k) && IsUsed(db.codes[k])
    modifies db
    ensures db.Valid()
    ensures db.codes == old(db.codes) && db.devices == old(db.devices) && db.events == old(db.events)
    ensures r == Err(BadRequest(if old(db.codes)[k].expiresAt < now then DeviceRegistry.ExpiredCodeMessage
                                else DeviceRegistry.UsedCodeMessage))
  {
    r := DeviceRegistry.Activate(db, q, now, plainText);
  }

  /** A code redeems once: a well-formed request with a valid code
      succeeds, and the same request again, at any later time, is refused
      with 400 and changes nothing. */
  method ActivateTwice(db: Database, q: DeviceRegistry.ActivationRequest, now: int, later: int,
                       firstToken: string, secondToken: string)
    returns (first: Result<DeviceRegistry.Activation>, second: Result<DeviceRegistry.Activation>)
    requires db.Valid() && DeviceRegistry.ValidActivationRequest(q)
    requires FindCode(db.codes, q.code.value).Some? && IsValid(db.codes[FindCode(db.codes, q.code.value).value], now)
    modifies db
    ensures db.Valid()
    ensures first.Ok?
    ensures second.Err? && second.failure.HttpStatus() == 400
    ensures
      var c := old(db.codes)[FindCode(old(db.codes), q.code.value).value];
      second == Err(BadRequest(if c.expiresAt < later then DeviceRegistry.ExpiredCodeMessage
                               else DeviceRegistry.UsedCodeMessage))
  {
    var k := FindCode(db.codes, q.code.value).value;
    first := DeviceRegistry.Activate(db, q, now, firstToken);
    FindCodeKept(old(db.codes), k, db.codes[k], q.code.value);
    second := ActivateWithUsedCode(db, q, k, later, secondToken);
  }

  /** Deactivation stops ingestion: once the owner deactivates a device, a
      push for its uuid is refused (422 for a malformed event, else 403) and
      no event is recorded. */
  method DeactivateThenStore(db: Database, user: nat, id: nat, rules: EventIngestor.Rules,
                             e: EventIngestor.EventInput, now: int)
    returns (deactivated: Result<()>, stored: Result<WatchEvent>)
    requires db.Valid()
    requires DeviceRegistry.FindOwnedDevice(db.devices, user, id).Some?
    modifies db
    ensures db.Valid()
    ensures deactivated == Ok(())
    ensures stored == Err(ValidationFailed) || stored == Err(Forbidden(EventIngestor.InactiveDeviceMessage))
    ensures db.events == old(db.events)
  {
    var k := DeviceRegistry.FindOwnedDevice(db.devices, user, id).value;
    var uuid := db.devices[k].deviceUuid;
    deactivated := DeviceRegistry.Destroy(db, user, id);
    FindDeviceOwnRow(db.devices, db.nextDeviceId, k);
    stored := EventIngestor.Store(db, rules, Given(uuid), e, now);
  }
}
