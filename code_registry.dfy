/** The activation-code endpoints
    (backend/app/Http/Controllers/Api/ActivationCodeController.php): generate a
    fresh code, list the caller's codes, delete an unused one. */
module CodeRegistry {
  import opened Common
  import opened Seqs
  import opened ActivationCodes
  import opened Tables

  const CodeLength: nat := 12
  const DefaultTtlHours: int := 24
  const MinTtlHours: int := 1
  const MaxTtlHours: int := 168
  const SecondsPerHour: int := 3600

  const CannotDeleteUsedMessage := "Cannot delete a used activation code"

  /** What one call of `Str::random(12)` returns: twelve ASCII letters and digits. */
  predicate IsRandomDraw(d: string) {
    |d| == CodeLength && forall i :: 0 <= i < |d| ==> IsAlphaNumeric(d[i])
  }

  /** `ActivationCode::where('code', value)->exists()`. */
  predicate CodeExists(codes: seq<ActivationCode>, value: string) {
    exists i :: 0 <= i < |codes| && codes[i].code == value
  }

  /** The rule `nullable|integer|min:1|max:168` on `expires_in_hours`. */
  predicate ValidTtl(requested: Field<int>): (ok: bool)
    ensures ok <==> requested.Given? ==> MinTtlHours <= requested.value <= MaxTtlHours
  {
    requested.NullableAnd(h => MinTtlHours <= h <= MaxTtlHours)
  }

  /** `$validated['expires_in_hours'] ?? 24` once the rule has passed. */
  function TtlHours(requested: Field<int>): (hours: int)
    requires ValidTtl(requested)
    ensures MinTtlHours <= hours <= MaxTtlHours
    ensures !requested.Given? ==> hours == DefaultTtlHours
  {
    if requested.Given? then requested.value else DefaultTtlHours
  }

  /** The do-while loop of `generate`: upper-case one random draw after another
      until one is not a stored code. `draws` is the part of the random stream
      this request reads, and it holds some draw that does not collide. */
  method PickUnusedCode(codes: seq<ActivationCode>, draws: seq<string>) returns (code: string, tries: nat)
    requires forall d :: d in draws ==> IsRandomDraw(d)
    requires exists k :: 0 <= k < |draws| && !CodeExists(codes, Upper(draws[k]))
    ensures 1 <= tries <= |draws|
    ensures code == Upper(draws[tries - 1])
    ensures !CodeExists(codes, code)
    ensures forall j :: 0 <= j < tries - 1 ==> CodeExists(codes, Upper(draws[j]))
    ensures |code| == CodeLength && NoLowerCase(code)
  {
    ghost var unused :| 0 <= unused < |draws| && !CodeExists(codes, Upper(draws[unused]));
    code := Upper(draws[0]);
    tries := 1;
    while CodeExists(codes, code)
      invariant 1 <= tries <= unused + 1
      invariant code == Upper(draws[tries - 1])
      invariant forall j :: 0 <= j < tries - 1 ==> CodeExists(codes, Upper(draws[j]))
      decreases |draws| - tries
    {
      code := Upper(draws[tries]);
      tries := tries + 1;
    }
    assert draws[tries - 1] in draws;
    UpperHasNoLowerCase(draws[tries - 1]);
  }

  /** `POST /activation-codes`: validate the TTL, draw a code no row holds,
      insert it for the caller, unused and unbound, expiring TTL hours from now. */
  method Generate(db: Database, user: nat, expiresInHours: Field<int>, draws: seq<string>, now: int)
    returns (r: Result<ActivationCode>)
    requires db.Valid()
    requires forall d :: d in draws ==> IsRandomDraw(d)
    requires exists k :: 0 <= k < |draws| && !CodeExists(db.codes, Upper(draws[k]))
    modifies db
    ensures db.Valid()
    ensures db.devices == old(db.devices) && db.events == old(db.events)
    ensures db.nextDeviceId == old(db.nextDeviceId) && db.nextEventId == old(db.nextEventId)
    ensures UsedCodesKept(old(db.codes), db.codes)
    ensures !ValidTtl(expiresInHours) ==> r == Err(ValidationFailed)
    ensures ValidTtl(expiresInHours) ==> r.Ok?
    ensures r.Err? ==> db.codes == old(db.codes) && db.nextCodeId == old(db.nextCodeId)
    ensures r.Ok? ==>
      && db.codes == old(db.codes) + [r.value]
      && r.value.id == old(db.nextCodeId)
      && db.nextCodeId == old(db.nextCodeId) + 1
      && r.value.userId == user
      && r.value.deviceId.None? && r.value.usedAt.None?
      && r.value.expiresAt == now + TtlHours(expiresInHours) * SecondsPerHour
      && r.value.createdAt == now
      && |r.value.code| == CodeLength && NoLowerCase(r.value.code)
      && !CodeExists(old(db.codes), r.value.code)
      && IsValid(r.value, now)
  {
    if !ValidTtl(expiresInHours) {
      return Err(ValidationFailed);
    }
    var hours := TtlHours(expiresInHours);
    var code, _ := PickUnusedCode(db.codes, draws);
    var created := ActivationCode(db.nextCodeId, user, code, None, now + hours * SecondsPerHour, None, now);
    db.codes := db.codes + [created];
    db.nextCodeId := db.nextCodeId + 1;
    r := Ok(created);
  }

  /** One element of the `index` response: the row, its eagerly loaded device,
      and the three flags computed at `now`. */
  datatype CodeView = CodeView(
    code: ActivationCode,
    device: Option<Device>,
    isValid: bool,
    isExpired: bool,
    isUsed: bool)

  /** The caller's rows of `activation_codes`. */
  function OwnedCodes(codes: seq<ActivationCode>, user: nat): seq<ActivationCode> {
    Filter(codes, (c: ActivationCode) => c.userId == user)
  }

  /** The `device` relation: the device row the code is bound to, if any. */
  function BoundDevice(devices: seq<Device>, deviceId: Option<nat>): (d: Option<Device>)
    ensures d.Some? ==> deviceId.Some? && d.value in devices && d.value.id == deviceId.value
    ensures d.None? ==> deviceId.None? || !HasDevice(devices, deviceId.value)
  {
    if deviceId.None? then None
    else
      match FirstIndex(devices, (x: Device) => x.id == deviceId.value)
      case None => None
      case Some(k) => Some(devices[k])
  }

  function ListEntry(devices: seq<Device>, now: int, c: ActivationCode): CodeView {
    CodeView(c, BoundDevice(devices, c.deviceId), IsValid(c, now), IsExpired(c, now), IsUsed(c))
  }

  function CodesOf(views: seq<CodeView>): seq<ActivationCode> {
    seq(|views|, i requires 0 <= i < |views| => views[i].code)
  }

  /** `GET /activation-codes`: the caller's codes, newest `created_at` first,
      each with the model's three flags. */
  function Index(codes: seq<ActivationCode>, devices: seq<Device>, user: nat, now: int): (r: seq<CodeView>)
    ensures multiset(CodesOf(r)) == multiset(OwnedCodes(codes, user))
    ensures forall i :: 0 <= i < |r| ==> r[i].code in codes && r[i].code.userId == user
    ensures forall c :: c in codes && c.userId == user ==> c in CodesOf(r)
    ensures forall i, j :: 0 <= i < j < |r| ==> r[i].code.createdAt >= r[j].code.createdAt
    ensures forall i :: 0 <= i < |r| ==>
      && r[i].isValid == IsValid(r[i].code, now)
      && r[i].isExpired == IsExpired(r[i].code, now)
      && r[i].isUsed == IsUsed(r[i].code)
      && r[i].device == BoundDevice(devices, r[i].code.deviceId)
  {
    var sorted := SortDesc(OwnedCodes(codes, user), (c: ActivationCode) => c.createdAt);
    OwnedCodesMembership(codes, user, sorted);
    ListEntries(devices, now, sorted)
  }

  /** The `map` of `index` over the sorted rows. */
  function ListEntries(devices: seq<Device>, now: int, sorted: seq<ActivationCode>): (r: seq<CodeView>)
    ensures CodesOf(r) == sorted
    ensures forall i :: 0 <= i < |r| ==> r[i] == ListEntry(devices, now, sorted[i])
  {
    var r := seq(|sorted|, i requires 0 <= i < |sorted| => ListEntry(devices, now, sorted[i]));
    assert CodesOf(r) == sorted;
    r
  }

  /** A permutation of the caller's codes holds exactly the caller's codes. */
  lemma OwnedCodesMembership(codes: seq<ActivationCode>, user: nat, perm: seq<ActivationCode>)
    requires multiset(perm) == multiset(OwnedCodes(codes, user))
    ensures forall c :: c in perm <==> c in codes && c.userId == user
  {
    var owned := OwnedCodes(codes, user);
    forall c ensures c in perm <==> c in codes && c.userId == user {
      assert c in perm <==> c in multiset(perm);
      assert c in owned <==> c in multiset(owned);
      if c in codes && c.userId == user {
        var i :| 0 <= i < |codes| && codes[i] == c;
      }
    }
  }

  /** `$request->user()->activationCodes()->findOrFail($id)`. */
  function FindOwnedCode(codes: seq<ActivationCode>, user: nat, id: nat): Option<nat> {
    FirstIndex(codes, (c: ActivationCode) => c.id == id && c.userId == user)
  }

  /** Row `k` removed, the rest in order. */
  function RemoveAt<T>(s: seq<T>, k: nat): seq<T>
    requires k < |s|
  {
    s[..k] + s[k + 1..]
  }

  /** `DELETE /activation-codes/{id}`: only the caller's code is found; a used
      code is refused with 400; otherwise exactly that row is deleted, whether
      or not it has expired. */
  method Destroy(db: Database, user: nat, id: nat) returns (r: Result<()>)
    requires db.Valid()
    modifies db
    ensures db.Valid()
    ensures db.devices == old(db.devices) && db.events == old(db.events)
    ensures db.nextCodeId == old(db.nextCodeId)
    ensures db.nextDeviceId == old(db.nextDeviceId) && db.nextEventId == old(db.nextEventId)
    ensures UsedCodesKept(old(db.codes), db.codes)
    ensures FindOwnedCode(old(db.codes), user, id).None? ==> r == Err(ModelNotFound)
    ensures FindOwnedCode(old(db.codes), user, id).Some? ==>
      var k := FindOwnedCode(old(db.codes), user, id).value;
      && (IsUsed(old(db.codes)[k]) ==> r == Err(BadRequest(CannotDeleteUsedMessage)))
      && (!IsUsed(old(db.codes)[k]) ==> r == Ok(()) && db.codes == RemoveAt(old(db.codes), k))
    ensures r.Err? ==> db.codes == old(db.codes)
    ensures r.Ok? ==> forall c :: c in db.codes <==> c in old(db.codes) && c.id != id
  {
    var found := FindOwnedCode(db.codes, user, id);
    if found.None? {
      return Err(ModelNotFound);
    }
    var k := found.value;
    if IsUsed(db.codes[k]) {
      return Err(BadRequest(CannotDeleteUsedMessage));
    }
    ghost var before := db.codes;
    db.codes := RemoveAt(db.codes, k);
    RemoveAtKeepsOthers(before, k);
    RemoveAtWellFormed(before, db.devices, db.nextCodeId, k);
    r := Ok(());
  }

  /** Where each row of `RemoveAt(s, k)` came from. */
  lemma RemoveAtIndex<T>(s: seq<T>, k: nat)
    requires k < |s|
    ensures |RemoveAt(s, k)| == |s| - 1
    ensures forall i :: 0 <= i < k ==> RemoveAt(s, k)[i] == s[i]
    ensures forall i :: k <= i < |s| - 1 ==> RemoveAt(s, k)[i] == s[i + 1]
  {
  }

  /** Removing row `k` of a well-formed codes table keeps it well formed and
      removes exactly the rows with that row's id. */
  lemma RemoveAtKeepsOthers(codes: seq<ActivationCode>, k: nat)
    requires k < |codes|
    requires forall i, j :: 0 <= i < j < |codes| ==> codes[i].id < codes[j].id
    ensures forall c :: c in RemoveAt(codes, k) <==> c in codes && c.id != codes[k].id
  {
    var rest := RemoveAt(codes, k);
    RemoveAtIndex(codes, k);
    forall c ensures c in rest <==> c in codes && c.id != codes[k].id {
      if c in rest {
        var i :| 0 <= i < |rest| && rest[i] == c;
        if i < k {
          assert codes[i] == c;
        } else {
          assert codes[i + 1] == c;
        }
      }
      if c in codes && c.id != codes[k].id {
        var i :| 0 <= i < |codes| && codes[i] == c;
        if i < k {
          assert rest[i] == c;
        } else {
          assert rest[i - 1] == c;
        }
      }
    }
  }

  /** Removing a row keeps the codes table well formed. */
  lemma RemoveAtWellFormed(codes: seq<ActivationCode>, devices: seq<Device>, nextId: nat, k: nat)
    requires k < |codes| && CodesWellFormed(codes, devices, nextId)
    ensures CodesWellFormed(RemoveAt(codes, k), devices, nextId)
  {
    var rest := RemoveAt(codes, k);
    RemoveAtIndex(codes, k);
    assert forall i :: 0 <= i < |rest| ==> rest[i] == codes[if i < k then i else i + 1];
  }
}
