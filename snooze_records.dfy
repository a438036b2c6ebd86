/**
 * The value-level part of the snooze registry: the record kept per snoozed
 * setting, the validation of a snooze request, the minutes-left figure shown
 * by the list command, and the specification functions that the methods of
 * SnoozeManager.SnoozeSettingManager are proved against.
 *
 * A JavaScript `Map<string, SnoozedSetting>` is described by two values: a
 * `map` from setting name to record, and the sequence of its keys in insertion
 * order (the order in which `values()` yields them).
 */
module SnoozeRecords {

  datatype Option<+T> = None | Some(value: T)

  datatype Result<+R, +E> = Success(value: R) | Failure(error: E)

  /** A configuration value: opaque JSON data, compared only for equality. */
  type Value

  /** One pending override: `SnoozedSetting` in the extension. */
  datatype Record = Record(setting: string, originalValue: Value, snoozedValue: Value, expiresAt: int)

  /** Why a snooze request stopped. `Cancelled` is the silent return on an empty or dismissed prompt. */
  datatype Error = Cancelled | UnknownSetting | InvalidJson | InvalidDuration

  /** One line of the list command: the setting, its override and the whole minutes left. */
  datatype Row = Row(setting: string, snoozedValue: Value, minutesLeft: int)

  /** Milliseconds per minute (`60 * 1000`). */
  const MinuteMs: int := 60 * 1000

  /** An input box answer that JavaScript treats as truthy: given and not the empty string. */
  predicate Given(input: Option<string>) {
    input.Some? && input.value != ""
  }

  predicate Expired(r: Record, now: int) {
    r.expiresAt <= now
  }

  predicate Distinct(keys: seq<string>) {
    forall i, j :: 0 <= i < j < |keys| ==> keys[i] != keys[j]
  }

  /** Every record's setting holds the record's snoozed value in `live`. */
  ghost predicate SyncedWith(live: map<string, Value>, entries: map<string, Record>) {
    forall k :: k in entries ==> k in live && live[k] == entries[k].snoozedValue
  }

  /** `order` lists each key of `entries` exactly once, and each record is filed under its own setting. */
  ghost predicate WellFormed(order: seq<string>, entries: map<string, Record>) {
    && Distinct(order)
    && (forall k :: k in order <==> k in entries)
    && (forall k :: k in entries ==> entries[k].setting == k)
  }

  // ---------------------------------------------------------------------------
  // Snooze request
  // ---------------------------------------------------------------------------

  /**
   * The record a snooze request creates, or why it stops. The checks come in the
   * order the extension asks for its inputs: setting name, known setting, new value,
   * valid JSON, duration, positive integer duration. `parseJson` and `parseInt`
   * stand for `JSON.parse` and `parseInt(_, 10)`; None is a throw or NaN.
   */
  function Request(live: map<string, Value>, nameInput: Option<string>, valueInput: Option<string>,
                   durationInput: Option<string>, parseJson: string -> Option<Value>,
                   parseInt: string -> Option<int>, now: int): (r: Result<Record, Error>)
    ensures r.Success? <==>
              && Given(nameInput) && nameInput.value in live
              && Given(valueInput) && parseJson(valueInput.value).Some?
              && Given(durationInput) && parseInt(durationInput.value).Some?
              && parseInt(durationInput.value).value > 0
    ensures r.Success? ==>
              && r.value.setting == nameInput.value
              && r.value.originalValue == live[nameInput.value]
              && r.value.snoozedValue == parseJson(valueInput.value).value
              && r.value.expiresAt == now + parseInt(durationInput.value).value * MinuteMs
              && r.value.expiresAt >= now + MinuteMs
    ensures r == Failure(UnknownSetting) <==> Given(nameInput) && nameInput.value !in live
    ensures r == Failure(InvalidJson) <==>
              && Given(nameInput) && nameInput.value in live
              && Given(valueInput) && parseJson(valueInput.value).None?
    ensures r == Failure(InvalidDuration) <==>
              && Given(nameInput) && nameInput.value in live
              && Given(valueInput) && parseJson(valueInput.value).Some?
              && Given(durationInput)
              && (parseInt(durationInput.value).None? || parseInt(durationInput.value).value <= 0)
  {
    if !Given(nameInput) then Failure(Cancelled)
    else if nameInput.value !in live then Failure(UnknownSetting)
    else if !Given(valueInput) then Failure(Cancelled)
    else if parseJson(valueInput.value).None? then Failure(InvalidJson)
    else if !Given(durationInput) then Failure(Cancelled)
    else
      var duration := parseInt(durationInput.value);
      if duration.None? || duration.value <= 0 then Failure(InvalidDuration)
      else
        var name := nameInput.value;
        Success(Record(name, live[name], parseJson(valueInput.value).value, now + duration.value * MinuteMs))
  }

  // ---------------------------------------------------------------------------
  // Listing
  // ---------------------------------------------------------------------------

  /** `ceil(max(0, expiresAt - now) / 60000)`: the whole minutes, rounded up, until the record expires. */
  function MinutesLeft(expiresAt: int, now: int): (minutes: int)
    ensures minutes >= 0
    ensures minutes == 0 <==> expiresAt <= now
    ensures expiresAt > now ==> (minutes - 1) * MinuteMs < expiresAt - now <= minutes * MinuteMs
  {
    var timeLeft := if expiresAt - now > 0 then expiresAt - now else 0;
    (timeLeft + MinuteMs - 1) / MinuteMs
  }

  /** The rows the list command shows, one per record in the order given. */
  function Rows(records: seq<Record>, now: int): (rows: seq<Row>)
    ensures |rows| == |records|
    ensures forall i :: 0 <= i < |records| ==>
              rows[i].setting == records[i].setting && rows[i].snoozedValue == records[i].snoozedValue
    ensures forall i :: 0 <= i < |records| ==>
              rows[i].minutesLeft == MinutesLeft(records[i].expiresAt, now)
    ensures forall i :: 0 <= i < |records| ==>
              rows[i].minutesLeft >= 0 && (rows[i].minutesLeft == 0 <==> Expired(records[i], now))
  {
    seq(|records|, i requires 0 <= i < |records| =>
      Row(records[i].setting, records[i].snoozedValue, MinutesLeft(records[i].expiresAt, now)))
  }

  // ---------------------------------------------------------------------------
  // The map's values, and the keys a sweep removes or keeps
  // ---------------------------------------------------------------------------

  /** `Array.from(map.values())`: the records of `keys`, in that order. */
  function Values(keys: seq<string>, entries: map<string, Record>): (records: seq<Record>)
    requires forall k :: k in keys ==> k in entries
    ensures |records| == |keys|
    ensures forall i :: 0 <= i < |keys| ==> records[i] == entries[keys[i]]
  {
    if keys == [] then []
    else Values(keys[..|keys| - 1], entries) + [entries[keys[|keys| - 1]]]
  }

  /** The keys of `keys`, in order, whose record has expired at `now` (when `expired`) or not (otherwise). */
  function KeysBy(keys: seq<string>, entries: map<string, Record>, now: int, expired: bool): seq<string>
    requires forall k :: k in keys ==> k in entries
  {
    if keys == [] then []
    else
      var k := keys[|keys| - 1];
      var rest := KeysBy(keys[..|keys| - 1], entries, now, expired);
      if Expired(entries[k], now) == expired then rest + [k] else rest
  }

  /** The records of `entries` still pending at `now`. */
  function Keep(entries: map<string, Record>, now: int): map<string, Record> {
    map k | k in entries && !Expired(entries[k], now) :: entries[k]
  }

  /** The records of `entries` due at `now`. */
  function Due(entries: map<string, Record>, now: int): map<string, Record> {
    map k | k in entries && Expired(entries[k], now) :: entries[k]
  }

  /** The records filed under the keys of `keys`. */
  function Pick(keys: seq<string>, entries: map<string, Record>): map<string, Record> {
    map k | k in keys && k in entries :: entries[k]
  }

  /** The keys of `keys` not in `gone`, in order: what `Map.delete` of each of `gone` leaves. */
  function Without(keys: seq<string>, gone: set<string>): seq<string> {
    if keys == [] then []
    else
      var k := keys[|keys| - 1];
      var rest := Without(keys[..|keys| - 1], gone);
      if k in gone then rest else rest + [k]
  }

  // ---------------------------------------------------------------------------
  // Writes to the configuration store
  // ---------------------------------------------------------------------------

  /** The configuration after writing back the original value of every record in `records`. */
  function Restore(live: map<string, Value>, records: map<string, Record>): map<string, Value> {
    map k | k in live.Keys + records.Keys :: if k in records then records[k].originalValue else live[k]
  }

  /** The configuration after writing the snoozed value of every record in `records`. */
  function Apply(live: map<string, Value>, records: map<string, Record>): map<string, Value> {
    map k | k in live.Keys + records.Keys :: if k in records then records[k].snoozedValue else live[k]
  }

  // ---------------------------------------------------------------------------
  // Loading the persisted array
  // ---------------------------------------------------------------------------

  /** The map that loading `stored` at `now` builds: pending records by setting, a later one replacing an earlier one. */
  function LoadMap(stored: seq<Record>, now: int): map<string, Record> {
    if stored == [] then map[]
    else
      var r := stored[|stored| - 1];
      var m := LoadMap(stored[..|stored| - 1], now);
      if Expired(r, now) then m else m[r.setting := r]
  }

  /** The insertion order of that map: a setting takes the place of its first pending record. */
  function LoadOrder(stored: seq<Record>, now: int): seq<string> {
    if stored == [] then []
    else
      var r := stored[|stored| - 1];
      var o := LoadOrder(stored[..|stored| - 1], now);
      if Expired(r, now) || r.setting in o then o else o + [r.setting]
  }

  /** Loading one more stored record: the map and order grow as `Map.set` grows them. */
  lemma LoadOneMore(stored: seq<Record>, i: int, now: int)
    requires 0 <= i < |stored|
    ensures var r := stored[i];
            LoadMap(stored[..i + 1], now) == (if Expired(r, now) then LoadMap(stored[..i], now) else LoadMap(stored[..i], now)[r.setting := r])
    ensures var r := stored[i];
            LoadOrder(stored[..i + 1], now) ==
              (if Expired(r, now) || r.setting in LoadOrder(stored[..i], now) then LoadOrder(stored[..i], now)
               else LoadOrder(stored[..i], now) + [r.setting])
  {
    assert stored[..i + 1][..i] == stored[..i];
  }

  /** No record after position `i` of `stored` is a pending record for the same setting. */
  ghost predicate LastPending(stored: seq<Record>, i: int, now: int)
    requires 0 <= i < |stored|
  {
    forall j :: i < j < |stored| ==> stored[j].setting != stored[i].setting || Expired(stored[j], now)
  }

  // ---------------------------------------------------------------------------
  // Lemmas
  // ---------------------------------------------------------------------------

  /** A key is selected by KeysBy exactly when it is one of `keys` with the requested expiry; a selection of distinct keys is distinct. */
  lemma {:induction false} KeysByMembers(keys: seq<string>, entries: map<string, Record>, now: int, expired: bool)
    requires forall k :: k in keys ==> k in entries
    ensures forall k :: k in KeysBy(keys, entries, now, expired) <==> k in keys && Expired(entries[k], now) == expired
    ensures Distinct(keys) ==> Distinct(KeysBy(keys, entries, now, expired))
  {
    if keys != [] {
      var init := keys[..|keys| - 1];
      assert keys == init + [keys[|keys| - 1]];
      KeysByMembers(init, entries, now, expired);
    }
  }

  /** Deleting the due keys from the insertion order leaves the pending keys in their order. */
  lemma {:induction false} WithoutDue(keys: seq<string>, entries: map<string, Record>, now: int, gone: set<string>)
    requires forall k :: k in keys ==> k in entries
    requires forall k :: k in keys ==> (k in gone <==> Expired(entries[k], now))
    ensures Without(keys, gone) == KeysBy(keys, entries, now, false)
  {
    if keys != [] {
      var init := keys[..|keys| - 1];
      assert keys == init + [keys[|keys| - 1]];
      WithoutDue(init, entries, now, gone);
    }
  }

  /** Deleting one more key from what `Without` left is deleting it along with the others. */
  lemma {:induction false} WithoutOneMore(keys: seq<string>, gone: set<string>, k: string)
    ensures Without(Without(keys, gone), {k}) == Without(keys, gone + {k})
  {
    if keys != [] {
      var init := keys[..|keys| - 1];
      var last := keys[|keys| - 1];
      WithoutOneMore(init, gone, k);
      var w := Without(init, gone);
      if last !in gone {
        assert (w + [last])[..|w + [last]| - 1] == w;
      }
    }
  }

  /** Deleting nothing leaves the order as it is. */
  lemma {:induction false} WithoutNothing(keys: seq<string>)
    ensures Without(keys, {}) == keys
  {
    if keys != [] {
      var init := keys[..|keys| - 1];
      WithoutNothing(init);
      assert keys == init + [keys[|keys| - 1]];
    }
  }

  /** Picking one more key adds its record. */
  lemma PickOneMore(keys: seq<string>, entries: map<string, Record>, k: string)
    requires k in entries
    ensures Pick(keys + [k], entries) == Pick(keys, entries)[k := entries[k]]
  {
  }

  /** Writing one more original value back is one more map update. */
  lemma RestoreOneMore(live: map<string, Value>, records: map<string, Record>, r: Record)
    ensures Restore(live, records[r.setting := r]) == Restore(live, records)[r.setting := r.originalValue]
  {
  }

  /** Applying one more snoozed value is one more map update. */
  lemma ApplyOneMore(live: map<string, Value>, records: map<string, Record>, r: Record)
    ensures Apply(live, records[r.setting := r]) == Apply(live, records)[r.setting := r.snoozedValue]
  {
  }

  /** The map and order built by loading agree: the order lists each loaded key once and each record sits under its setting. */
  lemma {:induction false} LoadedWellFormed(stored: seq<Record>, now: int)
    ensures WellFormed(LoadOrder(stored, now), LoadMap(stored, now))
  {
    if stored != [] {
      LoadedWellFormed(stored[..|stored| - 1], now);
    }
  }

  /**
   * Loading keeps exactly the pending stored records, the last one per setting:
   * every loaded record is a pending stored record filed under its own setting,
   * and the last pending stored record of each setting is the one loaded.
   */
  lemma {:induction false} LoadMapKeepsLastPending(stored: seq<Record>, now: int)
    ensures forall k :: k in LoadMap(stored, now) ==>
              LoadMap(stored, now)[k] in stored && LoadMap(stored, now)[k].setting == k && !Expired(LoadMap(stored, now)[k], now)
    ensures forall i :: 0 <= i < |stored| && !Expired(stored[i], now) && LastPending(stored, i, now) ==>
              stored[i].setting in LoadMap(stored, now) && LoadMap(stored, now)[stored[i].setting] == stored[i]
  {
    if stored != [] {
      var init := stored[..|stored| - 1];
      var r := stored[|stored| - 1];
      LoadMapKeepsLastPending(init, now);
      assert stored == init + [r];
      forall i | 0 <= i < |stored| && !Expired(stored[i], now) && LastPending(stored, i, now)
        ensures stored[i].setting in LoadMap(stored, now) && LoadMap(stored, now)[stored[i].setting] == stored[i]
      {
        if i < |init| {
          assert LastPending(init, i, now);
          assert stored[i].setting != r.setting || Expired(r, now);
        }
      }
    }
  }

  /** Loading the saved records of distinct `keys` at `now` builds the map of those still pending. */
  lemma {:induction false} LoadMapValues(keys: seq<string>, entries: map<string, Record>, now: int)
    requires forall k :: k in keys ==> k in entries && entries[k].setting == k
    ensures LoadMap(Values(keys, entries), now) == Keep(Pick(keys, entries), now)
  {
    if keys != [] {
      var init := keys[..|keys| - 1];
      var k := keys[|keys| - 1];
      var vs := Values(keys, entries);
      var r := entries[k];
      assert vs == Values(init, entries) + [r];
      assert vs[..|vs| - 1] == Values(init, entries);
      LoadMapValues(init, entries, now);
      var before := Keep(Pick(init, entries), now);
      assert LoadMap(vs, now) == if Expired(r, now) then before else before[k := r];
      assert keys == init + [k];
      PickOneMore(init, entries, k);
      KeepOneMore(Pick(init, entries), r, now);
    }
  }

  /** Keeping the pending records of a map with one more record: that record joins them exactly when it is pending. */
  lemma KeepOneMore(m: map<string, Record>, r: Record, now: int)
    requires r.setting in m ==> m[r.setting] == r
    ensures Keep(m[r.setting := r], now) == if Expired(r, now) then Keep(m, now) else Keep(m, now)[r.setting := r]
  {
  }

  /** Loading the saved records of distinct `keys` at `now` orders the pending ones as `keys` does. */
  lemma {:induction false} LoadOrderValues(keys: seq<string>, entries: map<string, Record>, now: int)
    requires Distinct(keys)
    requires forall k :: k in keys ==> k in entries && entries[k].setting == k
    ensures LoadOrder(Values(keys, entries), now) == KeysBy(keys, entries, now, false)
  {
    if keys != [] {
      var init := keys[..|keys| - 1];
      var k := keys[|keys| - 1];
      var vs := Values(keys, entries);
      assert vs == Values(init, entries) + [entries[k]];
      assert vs[..|vs| - 1] == Values(init, entries);
      LoadOrderValues(init, entries, now);
      KeysByMembers(init, entries, now, false);
      assert k !in init;
    }
  }

  /**
   * Save then load at `now` gives back exactly the records that are still pending,
   * in their insertion order: the same map and order a sweep at `now` leaves.
   */
  lemma SaveLoadRoundTrip(order: seq<string>, entries: map<string, Record>, now: int)
    requires WellFormed(order, entries)
    ensures LoadMap(Values(order, entries), now) == Keep(entries, now)
    ensures LoadOrder(Values(order, entries), now) == KeysBy(order, entries, now, false)
  {
    LoadMapValues(order, entries, now);
    LoadOrderValues(order, entries, now);
    assert Pick(order, entries) == entries;
  }

  /**
   * What a sweep at `now` leaves: the pending records with their order, every due
   * setting back at its original value, every other setting as it was; and when
   * nothing is due, everything as it was.
   */
  lemma SweepOutcome(live: map<string, Value>, order: seq<string>, entries: map<string, Record>, now: int)
    requires WellFormed(order, entries)
    ensures WellFormed(KeysBy(order, entries, now, false), Keep(entries, now))
    ensures SyncedWith(live, entries) ==> SyncedWith(Restore(live, Due(entries, now)), Keep(entries, now))
    ensures forall k :: k in entries && Expired(entries[k], now) ==>
              k !in Keep(entries, now) && k in Restore(live, Due(entries, now)) &&
              Restore(live, Due(entries, now))[k] == entries[k].originalValue
    ensures forall k :: k in live && k !in Due(entries, now) ==>
              k in Restore(live, Due(entries, now)) && Restore(live, Due(entries, now))[k] == live[k]
    ensures KeysBy(order, entries, now, true) == [] ==>
              Keep(entries, now) == entries && KeysBy(order, entries, now, false) == order &&
              Restore(live, Due(entries, now)) == live
  {
    KeysByMembers(order, entries, now, true);
    KeysByMembers(order, entries, now, false);
    if KeysBy(order, entries, now, true) == [] {
      assert Due(entries, now) == map[];
      WithoutNothing(order);
      WithoutDue(order, entries, now, {});
    }
  }

  /**
   * The due keys a sweep collects in its first loop are those of the due records;
   * deleting them from the map and its order leaves the pending records in order.
   */
  lemma SweepSplit(order: seq<string>, entries: map<string, Record>, now: int)
    requires WellFormed(order, entries)
    ensures Pick(KeysBy(order, entries, now, true), entries) == Due(entries, now)
    ensures entries - (set k | k in KeysBy(order, entries, now, true)) == Keep(entries, now)
    ensures Without(order, set k | k in KeysBy(order, entries, now, true)) == KeysBy(order, entries, now, false)
  {
    KeysByMembers(order, entries, now, true);
    WithoutDue(order, entries, now, set k | k in KeysBy(order, entries, now, true));
  }

  /** Writing back the same originals twice leaves the configuration as writing them once. */
  lemma RestoreIdempotent(live: map<string, Value>, records: map<string, Record>)
    ensures Restore(Restore(live, records), records) == Restore(live, records)
  {
  }
}
