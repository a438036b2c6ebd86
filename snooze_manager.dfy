/**
 * The snooze registry itself: the extension's `SnoozeSettingManager`, with the
 * configuration store and the persisted blob it writes made into fields.
 *
 * - `entries` and `order` are the `snoozedSettings` map and its insertion order;
 * - `live` is the global configuration, a setting absent from it being one that
 *   `get` reports as undefined;
 * - `persisted` is the `snoozedSettings` array kept in the extension's global state.
 *
 * Every operation takes the current time `now` as a parameter.
 */
module SnoozeManager {
  import opened SnoozeRecords

  class SnoozeSettingManager {
    var entries: map<string, Record>
    var order: seq<string>
    var live: map<string, Value>
    var persisted: seq<Record>

    /** The map and its insertion order agree, and each record sits under its own setting. */
    ghost predicate Valid()
      reads this
    {
      WellFormed(order, entries)
    }

    /** Every snoozed setting currently holds its snoozed value in the configuration. */
    ghost predicate Synced()
      reads this
    {
      SyncedWith(live, entries)
    }

    /** Creating the manager loads what was persisted, re-applying the overrides still pending at `now`. */
    constructor (live: map<string, Value>, persisted: seq<Record>, now: int)
      ensures Valid() && Synced()
      ensures entries == LoadMap(persisted, now) && order == LoadOrder(persisted, now)
      ensures this.live == Apply(live, entries) && this.persisted == persisted
    {
      this.live := live;
      this.persisted := persisted;
      entries := map[];
      order := [];
      new;
      Load(now);
    }

    /** Writes the record's original value back to the configuration. */
    method RestoreOriginal(r: Record)
      modifies this`live
      ensures live == old(live)[r.setting := r.originalValue]
    {
      live := live[r.setting := r.originalValue];
    }

    /** Writes the record's snoozed value to the configuration. */
    method ApplySnoozed(r: Record)
      modifies this`live
      ensures live == old(live)[r.setting := r.snoozedValue]
    {
      live := live[r.setting := r.snoozedValue];
    }

    /** Overwrites the persisted array with the map's records in insertion order. */
    method Save()
      requires Valid()
      modifies this`persisted
      ensures persisted == Values(order, entries)
    {
      persisted := Values(order, entries);
    }

    /**
     * Replaces the map with the persisted records still pending at `now`, a later
     * record for a setting replacing an earlier one, and applies each one kept.
     * Records already due are dropped without being restored.
     */
    method Load(now: int)
      modifies this
      ensures Valid() && Synced()
      ensures entries == LoadMap(persisted, now) && order == LoadOrder(persisted, now)
      ensures live == Apply(old(live), entries) && persisted == old(persisted)
    {
      var stored := persisted;
      entries := map[];
      order := [];
      var i := 0;
      while i < |stored|
        invariant 0 <= i <= |stored| && persisted == stored
        invariant entries == LoadMap(stored[..i], now) && order == LoadOrder(stored[..i], now)
        invariant live == Apply(old(live), entries)
      {
        var r := stored[i];
        LoadOneMore(stored, i, now);
        LoadedWellFormed(stored[..i], now);
        if r.expiresAt > now {
          ApplyOneMore(old(live), entries, r);
          if r.setting !in entries {
            order := order + [r.setting];
          }
          entries := entries[r.setting := r];
          ApplySnoozed(r);
        }
        i := i + 1;
      }
      assert stored[..i] == stored;
      LoadedWellFormed(stored, now);
    }

    /** Deletes each of `keys` from the map, as the second loop of the sweep does with `Map.delete`. */
    method DeleteAll(keys: seq<string>)
      modifies this`entries, this`order
      ensures entries == old(entries) - (set k | k in keys)
      ensures order == Without(old(order), set k | k in keys)
    {
      ghost var gone: set<string> := {};
      WithoutNothing(order);
      var j := 0;
      while j < |keys|
        invariant 0 <= j <= |keys|
        invariant gone == set k | k in keys[..j]
        invariant entries == old(entries) - gone
        invariant order == Without(old(order), gone)
      {
        var key := keys[j];
        assert keys[..j + 1] == keys[..j] + [key];
        WithoutOneMore(old(order), gone, key);
        entries := entries - {key};
        order := Without(order, {key});
        gone := gone + {key};
        j := j + 1;
      }
      assert keys[..j] == keys;
    }

    /**
     * Restores and removes every record due at `now`, reporting the removed settings
     * in insertion order; persists the map only when something was removed.
     */
    method CleanupExpired(now: int) returns (removed: seq<string>)
      requires Valid()
      modifies this
      ensures Valid() && (old(Synced()) ==> Synced())
      ensures removed == KeysBy(old(order), old(entries), now, true)
      ensures entries == Keep(old(entries), now)
      ensures order == KeysBy(old(order), old(entries), now, false)
      ensures live == Restore(old(live), Due(old(entries), now))
      ensures persisted == if removed == [] then old(persisted) else Values(order, entries)
      ensures removed == [] ==> entries == old(entries) && order == old(order) && live == old(live)
      ensures forall k :: k in old(entries) && Expired(old(entries)[k], now) ==>
                k !in entries && k in live && live[k] == old(entries)[k].originalValue
      ensures forall k :: k in old(entries) && !Expired(old(entries)[k], now) ==>
                k in entries && entries[k] == old(entries)[k] &&
                (k in old(live) ==> k in live && live[k] == old(live)[k])
    {
      var expiredSettings: seq<string> := [];
      var i := 0;
      while i < |order|
        invariant 0 <= i <= |order|
        invariant entries == old(entries) && order == old(order) && persisted == old(persisted)
        invariant expiredSettings == KeysBy(order[..i], entries, now, true)
        invariant live == Restore(old(live), Pick(expiredSettings, entries))
      {
        var key := order[i];
        assert order[..i + 1][..i] == order[..i];
        if entries[key].expiresAt <= now {
          RestoreOneMore(old(live), Pick(expiredSettings, entries), entries[key]);
          PickOneMore(expiredSettings, entries, key);
          expiredSettings := expiredSettings + [key];
          RestoreOriginal(entries[key]);
        }
        i := i + 1;
      }
      assert order[..i] == order;
      SweepSplit(order, entries, now);
      SweepOutcome(old(live), order, entries, now);

      DeleteAll(expiredSettings);

      if |expiredSettings| > 0 {
        Save();
      }
      removed := expiredSettings;
    }

    /**
     * The snooze command once its three prompts are answered. Stops without any
     * change when a prompt is empty or dismissed, the setting is unknown, the value
     * is not JSON or the duration is not a positive integer; otherwise records the
     * current value as the original, applies the new value and persists the map.
     */
    method Snooze(nameInput: Option<string>, valueInput: Option<string>, durationInput: Option<string>,
                  parseJson: string -> Option<Value>, parseInt: string -> Option<int>, now: int)
      returns (outcome: Result<Record, Error>)
      requires Valid()
      modifies this
      ensures Valid() && (old(Synced()) ==> Synced())
      ensures outcome == Request(old(live), nameInput, valueInput, durationInput, parseJson, parseInt, now)
      ensures outcome.Failure? ==>
                entries == old(entries) && order == old(order) && live == old(live) && persisted == old(persisted)
      ensures outcome.Success? ==>
                && entries == old(entries)[outcome.value.setting := outcome.value]
                && order == (if outcome.value.setting in old(entries) then old(order) else old(order) + [outcome.value.setting])
                && live == old(live)[outcome.value.setting := outcome.value.snoozedValue]
                && persisted == Values(order, entries)
      ensures outcome.Success? && old(Synced()) && outcome.value.setting in old(entries) ==>
                outcome.value.originalValue == old(entries)[outcome.value.setting].snoozedValue
    {
      ghost var expected := Request(live, nameInput, valueInput, durationInput, parseJson, parseInt, now);
      if !Given(nameInput) {
        return Failure(Cancelled);
      }
      var settingName := nameInput.value;
      if settingName !in live {
        return Failure(UnknownSetting);
      }
      var currentValue := live[settingName];

      if !Given(valueInput) {
        return Failure(Cancelled);
      }
      var parsedValue := parseJson(valueInput.value);
      if parsedValue.None? {
        return Failure(InvalidJson);
      }

      if !Given(durationInput) {
        return Failure(Cancelled);
      }
      var duration := parseInt(durationInput.value);
      if duration.None? || duration.value <= 0 {
        return Failure(InvalidDuration);
      }

      var record := Record(settingName, currentValue, parsedValue.value, now + duration.value * MinuteMs);
      assert expected == Success(record);
      if settingName !in entries {
        order := order + [settingName];
      }
      entries := entries[settingName := record];
      ApplySnoozed(record);
      Save();
      outcome := Success(record);
    }

    /** The list command's rows, in insertion order; each reports the live value while the registry is synced. */
    function List(now: int): (rows: seq<Row>)
      reads this
      requires Valid()
      ensures |rows| == |order|
      ensures forall i :: 0 <= i < |order| ==>
                && rows[i].setting == order[i]
                && rows[i].snoozedValue == entries[order[i]].snoozedValue
                && rows[i].minutesLeft == MinutesLeft(entries[order[i]].expiresAt, now)
                && rows[i].minutesLeft >= 0
                && (rows[i].minutesLeft == 0 <==> Expired(entries[order[i]], now))
      ensures Synced() ==> forall i :: 0 <= i < |order| ==> rows[i].snoozedValue == live[order[i]]
    {
      Rows(Values(order, entries), now)
    }

    /** Writes back the original value of every record, leaving the map as it is (the loop of `deactivate`). */
    method RestoreAll()
      requires Valid()
      modifies this`live
      ensures live == Restore(old(live), entries)
    {
      var i := 0;
      while i < |order|
        invariant 0 <= i <= |order|
        invariant live == Restore(old(live), Pick(order[..i], entries))
      {
        var key := order[i];
        assert order[..i + 1] == order[..i] + [key];
        RestoreOneMore(old(live), Pick(order[..i], entries), entries[key]);
        PickOneMore(order[..i], entries, key);
        RestoreOriginal(entries[key]);
        i := i + 1;
      }
      assert order[..i] == order;
      assert Pick(order, entries) == entries;
    }

    /**
     * The clear command. With nothing snoozed, or without a "Yes", nothing changes;
     * on "Yes" every original value is written back, the map is emptied and the
     * empty array is persisted.
     */
    method Clear(confirmed: bool)
      requires Valid()
      modifies this
      ensures Valid() && (old(Synced()) ==> Synced())
      ensures old(entries) == map[] || !confirmed ==>
                entries == old(entries) && order == old(order) && live == old(live) && persisted == old(persisted)
      ensures old(entries) != map[] && confirmed ==>
                live == Restore(old(live), old(entries)) && entries == map[] && order == [] && persisted == []
    {
      if entries == map[] {
        return;
      }
      if confirmed {
        RestoreAll();
        entries := map[];
        order := [];
        Save();
      }
    }
  }
}
