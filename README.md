# Snooze Setting: a Dafny model of the snooze registry

The VS Code extension "Snooze Setting" lets a user override one configuration
setting for a number of minutes. When the time is up, the original value comes
back. All of its logic is in the class `SnoozeSettingManager` in
`src/extension.ts`. This project models that class and proves what its
operations do.

The manager's state has three parts, and each is a field of the Dafny class
`SnoozeManager.SnoozeSettingManager`:

- `entries` and `order` model the `snoozedSettings` JavaScript `Map`. `entries`
  maps each setting name to its record (`SnoozedSetting`: setting, original
  value, snoozed value, expiry in milliseconds). `order` lists the keys in
  insertion order. `Map.set` on a key that is already present keeps its
  position, and `Map.delete` removes the key from the order.
- `live` is the global configuration. A setting missing from it is one that
  `get` reports as `undefined`. `update(..., Global)` is a map update.
- `persisted` is the `snoozedSettings` array in the extension's global state.

Operations (class `SnoozeManager.SnoozeSettingManager`):

- **Snooze** is the snooze command after its three prompts. It stops, and
  changes nothing, when:
  - a prompt is empty or dismissed;
  - the setting is unknown;
  - the value is not JSON;
  - the duration is not a positive integer.
  Otherwise it records the current value as the original, sets the expiry to
  `now + minutes * 60000`, applies the new value and persists the map. Its
  result is the specification function `SnoozeRecords.Request`.
- **CleanupExpired** is the periodic sweep. It has the source's two loops: the
  first collects and restores the due records, and the second (`DeleteAll`)
  deletes them. It persists only when something was removed.
- **Load** (run by the constructor) keeps the stored records still pending at
  `now`, with the last one winning per setting, and re-applies their values.
  Records already due are dropped without being restored. **Save** overwrites
  the array with the map's records in insertion order.
- **List** gives the list command's rows. **Clear** is the clear command: when
  the map is empty, or there is no "Yes", nothing changes. **RestoreAll** is
  the loop in `deactivate`, which Clear also runs.

`Synced()` states the registry's invariant: every snoozed setting holds its
snoozed value in the configuration. Snooze and the sweep preserve it, and
Load and a confirmed Clear establish it. `RestoreAll` (deactivation) leaves
the map in place, so afterwards the invariant need not hold.

The module `SnoozeRecords` holds the value-level definitions: the record, the
request validation, the minutes-left figure, and the functions the methods are
proved against. It also holds the lemmas about them, such as the save/load
round trip and what a sweep leaves.

Points where the code's behaviour deserves a note:

- The sweep writes the array only when at least one record was removed.
- Clear on an empty registry neither asks nor persists.
- The only value check is `JSON.parse`.
- Load drops records that are already due without writing back their original
  value. The model keeps this behaviour. The configuration can then stay at a
  stale override, for example after the editor closed without `deactivate`.

## Model

| member | source | states |
|---|---|---|
| SnoozeRecords.Request | src/extension.ts:84-136 | a request succeeds exactly when all three inputs are given, the setting is known, the value parses and the duration parses to a positive integer; on success the record holds the current live value as original, the parsed value, and expires `minutes * 60000` ms (at least one minute) after `now`; `UnknownSetting` exactly when a given name is not in the configuration; `InvalidJson` exactly when name and setting pass and the given value does not parse, `InvalidDuration` exactly when all earlier checks pass and the given duration is not a positive integer (the first failing check decides the error) |
| SnoozeRecords.MinutesLeft | src/extension.ts:157-158 | the minutes-left figure is never negative, is 0 exactly when the record is due, and otherwise is the ceiling of the remaining milliseconds over 60000 (bounded on both sides), hence at least 1 |
| SnoozeRecords.Rows | src/extension.ts:154-161 | one row per record in the given order with its setting, snoozed value and minutes left equal to `MinutesLeft` of its expiry (so non-negative and 0 exactly for due records) |
| SnoozeRecords.Values | src/extension.ts:38-41 | the saved array has one record per key, the i-th being the record of the i-th key in insertion order |
| SnoozeRecords.KeysByMembers | src/extension.ts:58-63 | the keys the sweep collects are exactly the keys whose record has (or has not) expired, and they are distinct |
| SnoozeRecords.WithoutDue | src/extension.ts:65-67 | deleting the due keys one by one from the insertion order leaves the pending keys in their order |
| SnoozeRecords.LoadedWellFormed | src/extension.ts:30-35 | the map built by loading and its insertion order agree: each loaded setting appears once, under its own name |
| SnoozeRecords.LoadMapKeepsLastPending | src/extension.ts:25-35 | every loaded record is a pending stored record filed under its setting, and for each setting the last pending stored record is the one loaded (a later duplicate overrides an earlier one) |
| SnoozeRecords.LoadMapValues | src/extension.ts:30-40 | loading the saved records of a registry at `now` gives the map of those records still pending |
| SnoozeRecords.LoadOrderValues | src/extension.ts:30-40 | loading the saved records of distinct keys at `now` lists the pending keys in their original order |
| SnoozeRecords.SaveLoadRoundTrip | src/extension.ts:25-41 | save followed by load at `now` yields exactly the pending records and their order, which are the map and order a sweep at `now` leaves |
| SnoozeRecords.SweepSplit | src/extension.ts:56-67 | the collected due keys pick out exactly the due records; deleting them leaves exactly the pending records and the pending keys in order |
| SnoozeRecords.SweepOutcome | src/extension.ts:54-70 | after a sweep the pending records stay well formed; every due setting holds its original value and is gone from the map; every other setting keeps its value; the synced invariant is preserved; with nothing due nothing changes |
| SnoozeRecords.RestoreIdempotent | src/extension.ts:20-23 | writing back the same original values twice leaves the configuration as writing them once |
| SnoozeManager.SnoozeSettingManager.constructor | src/extension.ts:14-18 | a new manager holds the loaded map and order, the configuration with the pending overrides applied, and is valid and synced |
| SnoozeManager.SnoozeSettingManager.RestoreOriginal | src/extension.ts:20-23 | writes the record's original value to its setting and nothing else |
| SnoozeManager.SnoozeSettingManager.ApplySnoozed | src/extension.ts:43-46 | writes the record's snoozed value to its setting and nothing else |
| SnoozeManager.SnoozeSettingManager.Save | src/extension.ts:38-41 | the persisted array becomes the map's records in insertion order |
| SnoozeManager.SnoozeSettingManager.Load | src/extension.ts:25-36 | the map and order become those loaded from the persisted array at `now`, the configuration gets each kept record's snoozed value, the array is untouched, and the registry is valid and synced |
| SnoozeManager.SnoozeSettingManager.DeleteAll | src/extension.ts:65-67 | removes exactly the given keys from the map and from its insertion order |
| SnoozeManager.SnoozeSettingManager.CleanupExpired | src/extension.ts:54-75 | returns the due keys in insertion order; the map keeps exactly the pending records in their order; every due setting is restored to its original value and others keep theirs; the array is rewritten only when something was removed; validity and the synced invariant are preserved |
| SnoozeManager.SnoozeSettingManager.Snooze | src/extension.ts:77-146 | the outcome is `Request` on the configuration before the call; on failure map, order, configuration and array are unchanged; on success the record replaces any earlier one for the setting (keeping its position), the configuration holds the new value, the array equals the map's values, and a re-snooze captures the previous override, not the first original |
| SnoozeManager.SnoozeSettingManager.List | src/extension.ts:148-164 | one row per snoozed setting in insertion order with its snoozed value and minutes left equal to `MinutesLeft` of its expiry (0 exactly when due); while synced each row's value is the live configuration value |
| SnoozeManager.SnoozeSettingManager.RestoreAll | src/extension.ts:215-221 | every snoozed setting gets its original value back, other settings keep theirs, and the map is left as it is |
| SnoozeManager.SnoozeSettingManager.Clear | src/extension.ts:166-185 | with an empty map or no confirmation nothing changes; on confirmation every original value is restored, map and order are emptied and the empty array is persisted |

## Left out

- The editor's user interface: input boxes, information, warning and error
  messages, and every message string (including `toLocaleTimeString`). The
  answers to the prompts and to the confirmation are parameters.
- Command registration, `context.subscriptions` and the no-op test command in
  `activate`. They are host plumbing.
- The one-minute `setInterval` timer. The sweep is a method called with an
  explicit time.
- Snooze: the promise handling in `snoozeSetting` and `clearSnoozedSettings`.
  The model runs a snooze in one step. In the source, `snoozeSetting` reads the
  current value (src/extension.ts:88), then waits on two prompts, and only then
  reads the clock (line 130) and records the override. Other commands can run
  while those prompts are open. One example: a clear confirmed in that window
  restores the setting and empties the map. The snooze then completes and records
  the earlier override as the "original". The model cannot reach that state.
- `Date.now()`. Every operation takes `now` as a parameter.
- `JSON.parse`, `JSON.stringify` and `parseInt`. They are abstract function
  parameters that return a value or fail. The persisted array is assumed to
  hold records unchanged, so the JSON encoding of the global state is not
  modelled.
- The configuration's scopes (default, user, workspace). `get` and
  `update(..., Global)` are modelled on one map. `update` is not awaited in the
  source and is modelled as an immediate write.
- The read of `snoozeSetting.defaultDuration`. It only fills in the duration
  prompt, and the model takes the prompt's answer.
- JavaScript numbers: times and durations are unbounded integers, so the model
  has no floating-point rounding for very large durations.
- The `if (snoozeManager)` guard in `deactivate`. `RestoreAll` is a method of an
  existing manager.
