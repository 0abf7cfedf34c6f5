/** The watch-event endpoints (backend/app/Http/Controllers/Api/WatchEventController.php):
    record one event, record a batch, and the owner-scoped history query. */
module EventIngestor {
  import opened Common
  import opened Seqs
  import opened Tables

  const MaxTextLength: nat := 255
  const MaxUrlLength: nat := 500
  const MaxBatchSize: nat := 100
  const DefaultPerPage: nat := 20
  /** `Model::$perPage`, what `paginate` falls back to when handed 0. */
  const ModelPerPage: nat := 15
  const UnknownDeviceMessage := "Device not found. Please activate your device first."
  const UnknownBatchDeviceMessage := "Device not found."
  const InactiveDeviceMessage := "Device is not active."

  /** The framework's `url` rule and the `date` rule together with the parse
      that the `datetime` cast applies to the stored value. */
  datatype Rules = Rules(isUrl: string -> bool, parseDate: string -> Option<int>)

  /** One event of a request body, key by key. */
  datatype EventInput = EventInput(
    videoId: Field<string>,
    videoTitle: Field<string>,
    channelName: Field<string>,
    channelId: Field<string>,
    videoUrl: Field<string>,
    durationSeconds: Field<int>,
    watchDurationSeconds: Field<int>,
    watchedAt: Field<string>,
    thumbnailUrl: Field<string>,
    metadata: Field<Metadata>)

  /** The per-event validation rules, shared by `store` and `events.*` of `storeBatch`. */
  predicate ValidEvent(rules: Rules, e: EventInput): (ok: bool)
    ensures ok ==> e.videoId.Given? && 1 <= |e.videoId.value| <= MaxTextLength
    ensures ok ==> e.videoUrl.Given? && 1 <= |e.videoUrl.value| <= MaxUrlLength && rules.isUrl(e.videoUrl.value)
    ensures ok ==> forall f :: f in [e.videoTitle, e.channelName, e.channelId] && f.Given? ==>
                                |f.value| <= MaxTextLength
    ensures ok && e.durationSeconds.Given? ==> e.durationSeconds.value >= 0
    ensures ok && e.watchDurationSeconds.Given? ==> e.watchDurationSeconds.value >= 0
    ensures ok && e.watchedAt.Given? ==> rules.parseDate(e.watchedAt.value).Some?
    ensures ok && e.thumbnailUrl.Given? ==> rules.isUrl(e.thumbnailUrl.value)
  {
    && RequiredString(e.videoId) && MaxLength(e.videoId.value, MaxTextLength)
    && e.videoTitle.NullableAnd(s => MaxLength(s, MaxTextLength))
    && e.channelName.NullableAnd(s => MaxLength(s, MaxTextLength))
    && e.channelId.NullableAnd(s => MaxLength(s, MaxTextLength))
    && RequiredString(e.videoUrl) && rules.isUrl(e.videoUrl.value) && MaxLength(e.videoUrl.value, MaxUrlLength)
    && e.durationSeconds.NullableAnd(n => n >= 0)
    && e.watchDurationSeconds.NullableAnd(n => n >= 0)
    && e.watchedAt.NullableAnd(s => rules.parseDate(s).Some?)
    && e.thumbnailUrl.NullableAnd(rules.isUrl)
  }

  /** `watched_at ?? now()`: the given instant, or the request time. */
  function WatchedAt(rules: Rules, e: EventInput, now: int): int
    requires ValidEvent(rules, e)
  {
    if e.watchedAt.Given? then rules.parseDate(e.watchedAt.value).value else now
  }

  /** `WatchEvent::create([...])` with every optional column read as `?? null`,
      the way `storeBatch` builds each row. */
  function EventFromInput(id: nat, deviceId: nat, rules: Rules, e: EventInput, now: int): (r: WatchEvent)
    requires ValidEvent(rules, e)
    ensures r.id == id && r.deviceId == deviceId
    ensures e.videoId == Given(r.videoId) && e.videoUrl == Given(r.videoUrl)
    ensures e.watchedAt.Given? ==> Some(r.watchedAt) == rules.parseDate(e.watchedAt.value)
    ensures !e.watchedAt.Given? ==> r.watchedAt == now
    ensures r.videoTitle == e.videoTitle.OrNull() && r.channelName == e.channelName.OrNull()
    ensures r.channelId == e.channelId.OrNull() && r.thumbnailUrl == e.thumbnailUrl.OrNull()
    ensures r.durationSeconds == e.durationSeconds.OrNull()
    ensures r.watchDurationSeconds == e.watchDurationSeconds.OrNull()
    ensures r.metadata == e.metadata.OrNull()
    ensures r.durationSeconds.Some? ==> r.durationSeconds.value >= 0
    ensures r.watchDurationSeconds.Some? ==> r.watchDurationSeconds.value >= 0
  {
    WatchEvent(
      id, deviceId, e.videoId.value,
      e.videoTitle.OrNull(), e.channelName.OrNull(), e.channelId.OrNull(),
      e.videoUrl.value,
      e.durationSeconds.OrNull(), e.watchDurationSeconds.OrNull(),
      WatchedAt(rules, e, now),
      e.thumbnailUrl.OrNull(), e.metadata.OrNull())
  }

  /** `WatchEvent::create([...])` as `store` writes it: seven optional keys are
      read as `$validated['key']` without `??`. A key the request left out is
      missing from the validated array, which PHP reports as an error that
      ends the request with 500 before the row is inserted. */
  function EventFromInputAsWritten(id: nat, deviceId: nat, rules: Rules, e: EventInput, now: int): (r: Result<WatchEvent>)
    requires ValidEvent(rules, e)
    ensures r.Err? ==> r.failure == ServerError
    ensures r.Ok? ==> r.value == EventFromInput(id, deviceId, rules, e, now)
  {
    if || e.videoTitle.Absent? || e.channelName.Absent? || e.channelId.Absent?
       || e.durationSeconds.Absent? || e.watchDurationSeconds.Absent?
       || e.thumbnailUrl.Absent? || e.metadata.Absent?
    then Err(ServerError)
    else Ok(EventFromInput(id, deviceId, rules, e, now))
  }

  /** As written, `store` fails exactly when one of the seven keys is left out,
      and otherwise builds the row `storeBatch` builds. */
  lemma EventFromInputAsWrittenFailsOnOmittedField(id: nat, deviceId: nat, rules: Rules, e: EventInput, now: int)
    requires ValidEvent(rules, e)
    ensures EventFromInputAsWritten(id, deviceId, rules, e, now).Err? <==>
      || e.videoTitle.Absent? || e.channelName.Absent? || e.channelId.Absent?
      || e.durationSeconds.Absent? || e.watchDurationSeconds.Absent?
      || e.thumbnailUrl.Absent? || e.metadata.Absent?
    ensures EventFromInputAsWritten(id, deviceId, rules, e, now).Ok? ==>
      EventFromInputAsWritten(id, deviceId, rules, e, now).value == EventFromInput(id, deviceId, rules, e, now)
  {
  }

  /** The payload the extension's background script posts: `channel_id`,
      `duration_seconds`, `watch_duration_seconds` and `thumbnail_url` come
      from properties the content script never sets, so JSON serialisation
      drops those keys; `metadata` keeps only `userAgent`, its `browser` key
      being unset as well. The rules admit it; as written the request ends in
      500, while the corrected row stores the four columns as null. */
  lemma ExtensionPayloadCounterexample(rules: Rules, now: int)
    requires rules.isUrl("https://www.youtube.com/watch?v=abc")
    requires rules.parseDate("2025-11-02T10:00:00.000Z") == Some(1762077600)
    ensures
      var e := EventInput(Given("abc"), Given("A video"), Given("A channel"), Absent,
                          Given("https://www.youtube.com/watch?v=abc"), Absent, Absent,
                          Given("2025-11-02T10:00:00.000Z"), Absent, Given([("userAgent", "Mozilla/5.0")]));
      && ValidEvent(rules, e)
      && EventFromInputAsWritten(1, 1, rules, e, now) == Err(ServerError)
      && var row := EventFromInput(1, 1, rules, e, now);
         row.channelId.None? && row.durationSeconds.None? && row.watchDurationSeconds.None?
         && row.thumbnailUrl.None?
         && row.watchedAt == 1762077600
  {
  }

  /** `POST /watch-events`. Validation first (422), then the device by uuid
      (404 unknown, 403 inactive), all before any write; then one event is
      appended for that device and only its `last_seen_at` becomes now. */
  method Store(db: Database, rules: Rules, uuid: Field<string>, e: EventInput, now: int)
    returns (r: Result<WatchEvent>)
    requires db.Valid()
    modifies db
    ensures db.Valid()
    ensures db.codes == old(db.codes) && db.nextCodeId == old(db.nextCodeId)
    ensures db.nextDeviceId == old(db.nextDeviceId)
    ensures DevicesKept(old(db.devices), db.devices)
    ensures r.Err? ==>
      db.devices == old(db.devices) && db.events == old(db.events) && db.nextEventId == old(db.nextEventId)
    ensures !(RequiredString(uuid) && ValidEvent(rules, e)) ==> r == Err(ValidationFailed)
    ensures RequiredString(uuid) && ValidEvent(rules, e) ==>
      var j := FindDevice(old(db.devices), uuid.value);
      && (j.None? ==> r == Err(NotFound(UnknownDeviceMessage)))
      && (j.Some? && !old(db.devices)[j.value].isActive ==> r == Err(Forbidden(InactiveDeviceMessage)))
      && (j.Some? && old(db.devices)[j.value].isActive ==>
            && r == Ok(EventFromInput(old(db.nextEventId), old(db.devices)[j.value].id, rules, e, now))
            && db.events == old(db.events) + [r.value]
            && db.nextEventId == old(db.nextEventId) + 1
            && db.devices == old(db.devices)[j.value := old(db.devices)[j.value].(lastSeenAt := Some(now))])
  {
    if !(RequiredString(uuid) && ValidEvent(rules, e)) {
      return Err(ValidationFailed);
    }
    var found := FindDevice(db.devices, uuid.value);
    if found.None? {
      return Err(NotFound(UnknownDeviceMessage));
    }
    var device := db.devices[found.value];
    if !device.isActive {
      return Err(Forbidden(InactiveDeviceMessage));
    }
    var event := EventFromInput(db.nextEventId, device.id, rules, e, now);
    assert HasDevice(db.devices, device.id);
    EventAppendWellFormed(db.codes, db.devices, db.events, db.nextCodeId, db.nextDeviceId, db.nextEventId, event);
    db.events := db.events + [event];
    db.nextEventId := db.nextEventId + 1;
    var seen := device.(lastSeenAt := Some(now));
    DeviceUpdateWellFormed(db.codes, db.devices, db.events, db.nextCodeId, db.nextDeviceId, db.nextEventId,
                           found.value, seen);
    db.devices := db.devices[found.value := seen];
    r := Ok(event);
  }

  /** The validation of `storeBatch`: the uuid, 1 to 100 events, every one valid. */
  predicate ValidBatch(rules: Rules, uuid: Field<string>, events: Field<seq<EventInput>>): (ok: bool)
    ensures ok ==> uuid.Given? && uuid.value != ""
    ensures ok ==> events.Given? && 1 <= |events.value| <= MaxBatchSize
    ensures ok <==> RequiredString(uuid) && events.Given? && 1 <= |events.value| <= MaxBatchSize
                    && forall e :: e in events.value ==> ValidEvent(rules, e)
  {
    && RequiredString(uuid)
    && events.Given? && 1 <= |events.value| <= MaxBatchSize
    && forall i :: 0 <= i < |events.value| ==> ValidEvent(rules, events.value[i])
  }

  /** The rows the insert loop of `storeBatch` creates, one per input in input
      order, with consecutive ids from `firstId`. */
  function BatchEvents(firstId: nat, deviceId: nat, rules: Rules, inputs: seq<EventInput>, now: int): (r: seq<WatchEvent>)
    requires forall i :: 0 <= i < |inputs| ==> ValidEvent(rules, inputs[i])
    ensures |r| == |inputs|
    ensures forall i :: 0 <= i < |r| ==> r[i].id == firstId + i && r[i].deviceId == deviceId
    ensures forall i :: 0 <= i < |r| ==> inputs[i].videoId == Given(r[i].videoId)
  {
    seq(|inputs|, i requires 0 <= i < |inputs| => EventFromInput(firstId + i, deviceId, rules, inputs[i], now))
  }

  /** Each row of a batch is the row built from its own input. */
  lemma BatchEventsAt(firstId: nat, deviceId: nat, rules: Rules, inputs: seq<EventInput>, now: int, i: nat)
    requires forall k :: 0 <= k < |inputs| ==> ValidEvent(rules, inputs[k])
    requires i < |inputs|
    ensures BatchEvents(firstId, deviceId, rules, inputs, now)[i] == EventFromInput(firstId + i, deviceId, rules, inputs[i], now)
  {
  }

  /** A batch is recorded event by event: the rows of `inputs + [e]` are the
      rows of `inputs` followed by the one row of `e`. */
  lemma BatchEventsSnoc(firstId: nat, deviceId: nat, rules: Rules, inputs: seq<EventInput>, e: EventInput, now: int)
    requires forall k :: 0 <= k < |inputs| ==> ValidEvent(rules, inputs[k])
    requires ValidEvent(rules, e)
    ensures forall k :: 0 <= k < |inputs + [e]| ==> ValidEvent(rules, (inputs + [e])[k])
    ensures BatchEvents(firstId, deviceId, rules, inputs + [e], now)
         == BatchEvents(firstId, deviceId, rules, inputs, now) + [EventFromInput(firstId + |inputs|, deviceId, rules, e, now)]
  {
    var all := inputs + [e];
    assert forall k :: 0 <= k < |all| ==> ValidEvent(rules, all[k]) by {
      forall k | 0 <= k < |all| ensures ValidEvent(rules, all[k]) {
        if k < |inputs| { assert all[k] == inputs[k]; }
      }
    }
    var lhs := BatchEvents(firstId, deviceId, rules, all, now);
    var rhs := BatchEvents(firstId, deviceId, rules, inputs, now) + [EventFromInput(firstId + |inputs|, deviceId, rules, e, now)];
    assert |lhs| == |rhs|;
    forall k | 0 <= k < |lhs| ensures lhs[k] == rhs[k] {
      if k < |inputs| {
        assert all[k] == inputs[k];
      }
    }
  }

  /** A batch of one records the row that a single, corrected `store` records. */
  lemma BatchOfOneIsStore(firstId: nat, deviceId: nat, rules: Rules, e: EventInput, now: int)
    requires ValidEvent(rules, e)
    ensures BatchEvents(firstId, deviceId, rules, [e], now) == [EventFromInput(firstId, deviceId, rules, e, now)]
  {
    BatchEventsAt(firstId, deviceId, rules, [e], now, 0);
  }

  /** The `foreach` of `storeBatch`: one insert per input, in input order. */
  method AppendEvents(db: Database, deviceId: nat, rules: Rules, inputs: seq<EventInput>, now: int)
    requires db.Valid() && HasDevice(db.devices, deviceId)
    requires forall k :: 0 <= k < |inputs| ==> ValidEvent(rules, inputs[k])
    modifies db
    ensures db.Valid()
    ensures db.codes == old(db.codes) && db.devices == old(db.devices)
    ensures db.nextCodeId == old(db.nextCodeId) && db.nextDeviceId == old(db.nextDeviceId)
    ensures db.events == old(db.events) + BatchEvents(old(db.nextEventId), deviceId, rules, inputs, now)
    ensures db.nextEventId == old(db.nextEventId) + |inputs|
  {
    var i := 0;
    while i < |inputs|
      invariant 0 <= i <= |inputs|
      invariant db.codes == old(db.codes) && db.devices == old(db.devices)
      invariant db.nextCodeId == old(db.nextCodeId) && db.nextDeviceId == old(db.nextDeviceId)
      invariant db.nextEventId == old(db.nextEventId) + i
      invariant db.events == old(db.events) + BatchEvents(old(db.nextEventId), deviceId, rules, inputs[..i], now)
      invariant db.Valid()
    {
      var event := EventFromInput(db.nextEventId, deviceId, rules, inputs[i], now);
      EventAppendWellFormed(db.codes, db.devices, db.events, db.nextCodeId, db.nextDeviceId, db.nextEventId, event);
      BatchEventsSnoc(old(db.nextEventId), deviceId, rules, inputs[..i], inputs[i], now);
      assert inputs[..i + 1] == inputs[..i] + [inputs[i]];
      db.events := db.events + [event];
      db.nextEventId := db.nextEventId + 1;
      i := i + 1;
    }
    assert inputs[..i] == inputs;
  }

  /** `POST /watch-events/batch`. All validation happens before any lookup or
      write, so one bad element records nothing; then 404 or 403 as for
      `store`; then one event per element in input order, the count of
      recorded events, and one `last_seen_at` update. */
  method StoreBatch(db: Database, rules: Rules, uuid: Field<string>, events: Field<seq<EventInput>>, now: int)
    returns (r: Result<nat>)
    requires db.Valid()
    modifies db
    ensures db.Valid()
    ensures db.codes == old(db.codes) && db.nextCodeId == old(db.nextCodeId)
    ensures db.nextDeviceId == old(db.nextDeviceId)
    ensures DevicesKept(old(db.devices), db.devices)
    ensures r.Err? ==>
      db.devices == old(db.devices) && db.events == old(db.events) && db.nextEventId == old(db.nextEventId)
    ensures !ValidBatch(rules, uuid, events) ==> r == Err(ValidationFailed)
    ensures ValidBatch(rules, uuid, events) ==>
      var j := FindDevice(old(db.devices), uuid.value);
      && (j.None? ==> r == Err(NotFound(UnknownBatchDeviceMessage)))
      && (j.Some? && !old(db.devices)[j.value].isActive ==> r == Err(Forbidden(InactiveDeviceMessage)))
      && (j.Some? && old(db.devices)[j.value].isActive ==>
            && r == Ok(|events.value|)
            && db.events == old(db.events)
                 + BatchEvents(old(db.nextEventId), old(db.devices)[j.value].id, rules, events.value, now)
            && db.nextEventId == old(db.nextEventId) + |events.value|
            && db.devices == old(db.devices)[j.value := old(db.devices)[j.value].(lastSeenAt := Some(now))])
  {
    if !ValidBatch(rules, uuid, events) {
      return Err(ValidationFailed);
    }
    var found := FindDevice(db.devices, uuid.value);
    if found.None? {
      return Err(NotFound(UnknownBatchDeviceMessage));
    }
    var device := db.devices[found.value];
    if !device.isActive {
      return Err(Forbidden(InactiveDeviceMessage));
    }
    assert HasDevice(db.devices, device.id);
    var inputs := events.value;
    AppendEvents(db, device.id, rules, inputs, now);
    var seen := device.(lastSeenAt := Some(now));
    DeviceUpdateWellFormed(db.codes, db.devices, db.events, db.nextCodeId, db.nextDeviceId, db.nextEventId,
                           found.value, seen);
    db.devices := db.devices[found.value := seen];
    r := Ok(|inputs|);
  }

  /** The filters of `GET /watch-events`; each applies only when its key is
      present. `from` and `to` are already read as instants. */
  datatype EventQuery = EventQuery(
    deviceId: Option<nat>,
    from: Option<int>,
    to: Option<int>,
    search: Option<string>)

  /** The event was recorded by one of the user's devices (`whereHas('device', ...)`). */
  predicate OwnedBy(devices: seq<Device>, user: nat, e: WatchEvent) {
    exists k :: 0 <= k < |devices| && devices[k].id == e.deviceId && devices[k].userId == user
  }

  /** `like '%term%'` on a nullable column under a case-insensitive collation. */
  predicate LikeTerm(column: Option<string>, term: string) {
    column.Some? && Contains(Lower(column.value), Lower(term))
  }

  /** The `where` clauses of `index`. */
  predicate Matches(devices: seq<Device>, user: nat, q: EventQuery, e: WatchEvent): (ok: bool)
    ensures ok ==> exists d :: d in devices && d.id == e.deviceId && d.userId == user
    ensures ok && q.deviceId.Some? ==> e.deviceId == q.deviceId.value
    ensures ok && q.from.Some? ==> q.from.value <= e.watchedAt
    ensures ok && q.to.Some? ==> e.watchedAt <= q.to.value
    ensures ok && q.search.Some? ==>
      || (e.videoTitle.Some? && Contains(Lower(e.videoTitle.value), Lower(q.search.value)))
      || (e.channelName.Some? && Contains(Lower(e.channelName.value), Lower(q.search.value)))
  {
    && OwnedBy(devices, user, e)
    && (q.deviceId.Some? ==> e.deviceId == q.deviceId.value)
    && (q.from.Some? ==> e.watchedAt >= q.from.value)
    && (q.to.Some? ==> e.watchedAt <= q.to.value)
    && (q.search.Some? ==> LikeTerm(e.videoTitle, q.search.value) || LikeTerm(e.channelName, q.search.value))
  }

  /** `get('per_page', 20)` handed to `paginate`, which falls back to the
      model's page size for 0. */
  function PerPage(perPage: Option<nat>): (n: nat)
    ensures n >= 1
    ensures perPage.None? ==> n == DefaultPerPage
    ensures perPage.Some? && perPage.value >= 1 ==> n == perPage.value
  {
    match perPage
    case None => DefaultPerPage
    case Some(n) => if n == 0 then ModelPerPage else n
  }

  /** The current page the paginator resolves: `page` when it is an integer of
      at least 1, otherwise 1. */
  function CurrentPage(page: Option<int>): (p: nat)
    ensures p >= 1
    ensures page.Some? && page.value >= 1 ==> p == page.value
  {
    if page.Some? && page.value >= 1 then page.value else 1
  }

  function WatchedAtKey(e: WatchEvent): int {
    e.watchedAt
  }

  /** Every matching event, newest `watched_at` first. */
  function Results(devices: seq<Device>, events: seq<WatchEvent>, user: nat, q: EventQuery): (r: seq<WatchEvent>)
    ensures SortedDesc(r, WatchedAtKey)
    ensures forall e :: e in r <==> e in events && Matches(devices, user, q, e)
  {
    var p := (e: WatchEvent) => Matches(devices, user, q, e);
    FilterExact(events, p);
    var r := SortDesc(Filter(events, p), WatchedAtKey);
    assert forall e :: e in r <==> e in multiset(r);
    assert forall e :: e in events <==> e in multiset(events);
    r
  }

  /** The results hold each matching event as often as the table does, and no other. */
  lemma ResultsCount(devices: seq<Device>, events: seq<WatchEvent>, user: nat, q: EventQuery, e: WatchEvent)
    ensures multiset(Results(devices, events, user, q))[e] == if Matches(devices, user, q, e) then multiset(events)[e] else 0
  {
    FilterExact(events, (e: WatchEvent) => Matches(devices, user, q, e));
  }

  /** The JSON of a length-aware paginator: the total, the page size, the
      current page and its rows. */
  datatype EventPage = EventPage(total: nat, perPage: nat, currentPage: nat, data: seq<WatchEvent>)

  /** `GET /watch-events`: one page of the caller's matching events, newest
      first; `perPage` and `page` are the `per_page` and `page` parameters. */
  function Index(devices: seq<Device>, events: seq<WatchEvent>, user: nat, q: EventQuery,
                 perPage: Option<nat>, page: Option<int>): (r: EventPage)
    ensures r.perPage == PerPage(perPage) && r.currentPage == CurrentPage(page)
    ensures r.total == |Results(devices, events, user, q)|
    ensures |r.data| <= r.perPage
    ensures Offset(r.perPage, r.currentPage) >= r.total ==> r.data == []
    ensures Offset(r.perPage, r.currentPage) < r.total ==>
      |r.data| == if Offset(r.perPage, r.currentPage) + r.perPage <= r.total then r.perPage
                  else r.total - Offset(r.perPage, r.currentPage)
    ensures forall e :: e in r.data ==> e in events && Matches(devices, user, q, e)
    ensures SortedDesc(r.data, WatchedAtKey)
    ensures forall i :: 0 <= i < |r.data| ==>
      && Offset(r.perPage, r.currentPage) + i < r.total
      && r.data[i] == Results(devices, events, user, q)[Offset(r.perPage, r.currentPage) + i]
  {
    var all := Results(devices, events, user, q);
    var data := PageOf(all, PerPage(perPage), CurrentPage(page));
    PageOfSortedDesc(all, WatchedAtKey, PerPage(perPage), CurrentPage(page));
    EventPage(|all|, PerPage(perPage), CurrentPage(page), data)
  }

  /** Earlier pages hold newer events: every row of page `p1` was watched no
      earlier than every row of a later page `p2`. */
  lemma EarlierPagesAreNewer(devices: seq<Device>, events: seq<WatchEvent>, user: nat, q: EventQuery,
                             perPage: Option<nat>, p1: int, p2: int)
    requires 1 <= p1 < p2
    ensures forall x, y :: x in Index(devices, events, user, q, perPage, Some(p1)).data
                        && y in Index(devices, events, user, q, perPage, Some(p2)).data
                        ==> x.watchedAt >= y.watchedAt
  {
    var all := Results(devices, events, user, q);
    var n := PerPage(perPage);
    assert Index(devices, events, user, q, perPage, Some(p1)).data == PageOf(all, n, p1);
    assert Index(devices, events, user, q, perPage, Some(p2)).data == PageOf(all, n, p2);
    PagesOrdered(all, WatchedAtKey, n, p1, p2);
  }

  /** Paging loses nothing: every matching event of the caller is on some page. */
  lemma EveryMatchIsOnSomePage(devices: seq<Device>, events: seq<WatchEvent>, user: nat, q: EventQuery,
                               perPage: Option<nat>, e: WatchEvent)
    requires e in events && Matches(devices, user, q, e)
    ensures exists p :: p >= 1 && e in Index(devices, events, user, q, perPage, Some(p)).data
  {
    var all := Results(devices, events, user, q);
    var t :| 0 <= t < |all| && all[t] == e;
    var n := PerPage(perPage);
    var p := PageOfCovers(all, n, t);
    assert e in Index(devices, events, user, q, perPage, Some(p)).data;
  }
}
