# Event simplification model (donkey-see-donkey-do)

donkey-see-donkey-do records mouse, keyboard and screen-state activity as a list of
timestamped events. It then simplifies that list with passes that collapse low-level
pairs into higher-level events. This project models the event types and their merge
helpers (`donkey_see_donkey_do/events.py`) and the four simplification passes
(`donkey_see_donkey_do/simplify.py`), and proves what the passes keep, merge and drop.

- `wrappers.dfy`: `Option` and `Result`.
- `events.dfy` (module `Events`):
  - the `Event` datatype with its six kinds: state snapshot, mouse button, click,
    scroll, keyboard and write. A click counts as a mouse-button event
    (`IsMouseButton`), as `ClickEvent` subclasses `MouseButtonEvent` in the source;
  - the pure helpers `LastTimestampOrFirst` and `FromMouseButtonEvent`;
  - the action and button validators;
  - the classes `ClickEvent`, `ScrollEvent` and `WriteEvent`, whose methods update
    their fields in place as `update_with` and `append` do;
  - the `Events` list wrapper class.
- `simplify.dfy` (module `Simplify`): the four passes as methods with loops. Each
  keeps its output list (`newEvents`, `reversedSavedEvents`), overwrites the last
  element on a merge and appends otherwise, as the source does. Each method is proved
  equal to a recursive definition of its result, passed through the `Events` list's
  validation. Lemmas state properties of that definition: length, what is preserved,
  no-op inputs, idempotence, and where merges happen. Further lemmas show that
  validation commutes with each definition, so these properties also hold for what
  the pass returns.

Modelling choices:
- Timestamps are integers (microseconds). `max_seconds` is in the same unit.
- The Euclidean test `distance <= max_pixels` is written as
  `max_pixels >= 0 && dx*dx + dy*dy <= max_pixels*max_pixels` (`WithinPixels`).
  This is the same test for every integer `max_pixels`.
- Screenshots are opaque values (an image id or a path).
- Keys are a character or a named special key.
- Events inside the lists are immutable values. No pass can therefore change the
  events it is given. The one pass that mutates an event, the multi-click pass,
  builds a fresh `ClickEvent` object (from `from_mouse_button_event` or `copy()`)
  and calls `UpdateWith` on it. The pass methods have no `modifies` clause, so they
  cannot change any object that existed before the call.
- The passes take and return the event sequence that an `Events` object wraps. Each
  pass builds its result with `Events.FromIterable`, as the source does.

What the code does, modelled as written:
- `Events.from_iterable` validates each event against the event union
  (events.py:322). The union is tried in the order state snapshot, click, mouse
  button, scroll, keyboard, write, and the first kind that fits is stored. A plain
  mouse-button event whose action is "click" fits the click kind, so it comes back as
  a click event with one click and no last timestamp (`Validated`). Every other
  event fits its own kind first and is unchanged. `append` and `extend` do not
  validate. All four passes return through `from_iterable`, so an unmerged plain
  click leaves every pass as a click event.
- No pass reorders events. A release stamped before its press still merges, because
  only `release - press <= max_seconds` is checked.
- `ClickEvent.from_mouse_button_event` does not check the action. Given a click
  event, it resets `n_clicks` to 1 and drops `last_timestamp`.
- `simplify.py` holds only these four passes. There is no generic merge engine, no
  pass-list driver, and no write-merge or scroll-merge pass.
- The multi-click pass scans right to left. A merged click keeps the location and
  button of the earlier event and may join the event before it in turn.
- The multi-click pass is not idempotent. A merged click sits at the earlier click's
  location, so it can be close enough to the next event when the later click was
  not. A second run then merges again; `MultiClicksNotIdempotent` gives such an input.
- The thresholds keep the source's defaults, in microseconds: 0.2 s and 5 px for
  press-then-release, 0.4 s and 5 px for multi-clicks, 0.15 s for key press-then-release.

## Model

| member | source | states |
|---|---|---|
| `Events.LastTimestampOrFirst` | donkey_see_donkey_do/events.py:182-185 | the end of an event: its `last_timestamp` when present, else its `timestamp` (same for scroll and write, lines 213-216 and 288-291) |
| `Events.MaxOf` | donkey_see_donkey_do/events.py:203 | `max` of a non-empty list: an element of the list and at least every element |
| `Events.EndCandidates` | donkey_see_donkey_do/events.py:197-201 | both timestamps first, then each present last timestamp, and nothing else (two to four candidates) |
| `Events.MergedLastTimestamp` | donkey_see_donkey_do/events.py:197-203 | the max over both timestamps and the present last-timestamps equals the latest of both starts and both ends |
| `Events.FromMouseButtonEvent` | donkey_see_donkey_do/events.py:172-180 | for any mouse-button event (action not checked): a click with action "click", `n_clicks = 1`, no last timestamp, and timestamp, screenshot, location and button copied |
| `Events.FromMouseButtonEventIgnoresAction` | donkey_see_donkey_do/events.py:172-180 | the action is not checked: any action, or a click with any count and last timestamp, at the same time and place gives the same click; converting twice equals converting once |
| `Events.MergedClick` | donkey_see_donkey_do/events.py:187-204 | merged click: counts add; timestamp is the min; end is the max of both starts and both ends; `timestamp <= end`; location, button and screenshot of the first |
| `Events.SingleKeyWrite` | donkey_see_donkey_do/events.py:273-277 | a write with `keys == [key]`, the keyboard event's timestamp and screenshot, no last timestamp |
| `Events.ActionIsValidValue` | donkey_see_donkey_do/events.py:122-128 | accepted iff the lower-cased value is "press", "release" or "click"; the accepted action's name is the lower-cased value; otherwise an invalid-action error carrying the original value |
| `Events.ActionValidationIgnoresCase` | donkey_see_donkey_do/events.py:125-126 | a value and its lower-cased form are accepted alike, as the same action |
| `Events.ActionNameRoundTrip` | donkey_see_donkey_do/events.py:122-128 | the stored name of each action is accepted back as that action |
| `Events.ButtonIsConvertedToMouseButton` | donkey_see_donkey_do/events.py:135-154 | plain strings, any case: "left" to Left, "middle"/"center" to Middle, "right" to Right, each iff; anything else is an unrecognised-button error |
| `Events.ClickEvent.Copy` | donkey_see_donkey_do/events.py:167-170 | a new click object holding exactly the given click event |
| `Events.ClickEvent.UpdateWith` | donkey_see_donkey_do/events.py:187-204 | in place: `n_clicks` adds `other.n_clicks`, timestamp becomes the min, last timestamp the max of all candidates; location, button, screenshot unchanged; the new value is `MergedClick(old value, other)` |
| `Events.ScrollEvent.Copy` | donkey_see_donkey_do/events.py:207-211 | a new scroll object holding exactly the given scroll event |
| `Events.ScrollEvent.UpdateWith` | donkey_see_donkey_do/events.py:218-235 | in place: scroll becomes `(dx1+dx2, dy1+dy2)`; timestamps combine as for clicks, so `timestamp <= end`; location and screenshot unchanged |
| `Events.WriteEvent.FromKeyboardEvent` | donkey_see_donkey_do/events.py:273-277 | a new write holding `SingleKeyWrite` of the keyboard event |
| `Events.WriteEvent.FromRawKey` | donkey_see_donkey_do/events.py:280-286 | one key yields `keys == [key]`, a sequence yields exactly that sequence; stamped with the given clock reading |
| `Events.WriteEvent.Append` | donkey_see_donkey_do/events.py:302-319 | in place: keys become old keys followed by `other.keys` (lengths add); timestamps combine as for clicks; screenshot unchanged |
| `Events.ListIndex` | donkey_see_donkey_do/events.py:342-346 | a Python subscript: valid iff `-len <= i < len`, negative counts from the end |
| `Events.Validated` | donkey_see_donkey_do/events.py:322-331 | the event as validation stores it: no plain click survives, and a plain click becomes a click event with one click and no last timestamp; timestamp, whether it is a mouse-button event, action, button, location and screenshot are kept; every event other than a plain click is unchanged |
| `Events.ValidatedIdempotent` | donkey_see_donkey_do/events.py:322-331 | validating a validated event changes nothing |
| `Events.ValidatedAll` | donkey_see_donkey_do/events.py:329-331 | validation of a whole list keeps its length, and each position holds the validated event of that position |
| `Events.ValidatedAllIdempotent` | donkey_see_donkey_do/events.py:329-331 | validating a validated list changes nothing |
| `Events.ValidatedAllAppend` | donkey_see_donkey_do/events.py:329-331 | validating a concatenation is concatenating the validated parts |
| `Events.Events.constructor` | donkey_see_donkey_do/events.py:325-326 | `Events()` holds the empty list |
| `Events.Events.FromIterable` | donkey_see_donkey_do/events.py:328-331 | holds the given events in their order, each as validation stores it (`ValidatedAll`) |
| `Events.Events.Length` | donkey_see_donkey_do/events.py:333-334 | the number of events held |
| `Events.Events.Append` | donkey_see_donkey_do/events.py:336-337 | the list becomes old items followed by the item; `Length()` grows by one |
| `Events.Events.Extend` | donkey_see_donkey_do/events.py:339-340 | the list becomes old items followed by the new ones; `Length()` grows by their number |
| `Events.Events.Get` | donkey_see_donkey_do/events.py:342-343 | the item at the index, negative from the end; none (an index error) outside `-len <= i < len` |
| `Events.Events.Delete` | donkey_see_donkey_do/events.py:345-346 | removes exactly the indexed item, negative from the end; out of range reports failure and changes nothing |
| `Simplify.WithoutSupersededSnapshots` | donkey_see_donkey_do/simplify.py:11-23 | the input minus each snapshot whose successor is a snapshot; never longer; first event's kind and last event are kept |
| `Simplify.DropConsecutiveStateSnapshots` | donkey_see_donkey_do/simplify.py:11-23 | the right-to-left loop returns exactly `ValidatedAll(WithoutSupersededSnapshots(events))` |
| `Simplify.NoConsecutiveSnapshotsUnchanged` | donkey_see_donkey_do/simplify.py:14-21 | an input with no two adjacent snapshots (empty, one snapshot, isolated snapshots) comes back unchanged |
| `Simplify.NoConsecutiveSnapshotsInResult` | donkey_see_donkey_do/simplify.py:14-21 | the output has no two adjacent snapshots |
| `Simplify.DropConsecutiveStateSnapshotsIdempotent` | donkey_see_donkey_do/simplify.py:11-23 | running the pass twice gives the same as once |
| `Simplify.WithoutSupersededSnapshotsValidated` | donkey_see_donkey_do/simplify.py:23 | validation, which keeps every event's kind, commutes with dropping superseded snapshots |
| `Simplify.DropConsecutiveStateSnapshotsIdempotentAsReturned` | donkey_see_donkey_do/simplify.py:11-23 | running the pass on what it returned returns the same list |
| `Simplify.NonSnapshotsKept` | donkey_see_donkey_do/simplify.py:20-21 | the non-snapshot events of the output are those of the input, in order |
| `Simplify.SnapshotRunKeepsLast` | tests/test_simplify.py:145-153 | three snapshots collapse to the last |
| `Simplify.WithinPixels` | donkey_see_donkey_do/simplify.py:43 | Euclidean distance at most `max_pixels`: then each axis differs by at most `max_pixels`, and a location is within any non-negative limit of itself |
| `Simplify.PressThenRelease` | donkey_see_donkey_do/simplify.py:35-44 | the merge test: only plain mouse-button events pair (a click event's action is always "click"), a press followed by a release, same button as the click made from the press, release at most `max_seconds` after the press, within `max_pixels` on each axis |
| `Simplify.PressReleaseAsClicks` | donkey_see_donkey_do/simplify.py:33-49 | the pass's result, defined left to right; empty exactly when the input is |
| `Simplify.ConvertMousePressThenReleaseToClick` | donkey_see_donkey_do/simplify.py:26-49 | the left-to-right loop returns exactly `ValidatedAll(PressReleaseAsClicks(events))`: each press directly followed by a same-button release within both limits becomes `FromMouseButtonEvent(press)`; limits default to 0.2 s and 5 px |
| `Simplify.PressReleaseAsClicksLength` | donkey_see_donkey_do/simplify.py:33-49 | output length is input length minus the number of adjacent press/release pairs in the input (pairs never overlap) |
| `Simplify.NoPressReleasePairUnchanged` | donkey_see_donkey_do/simplify.py:35-47 | an input with no mergeable pair (press/press, release/release, other button, too late, too far, something between) comes back unchanged |
| `Simplify.NoPressReleasePairInResult` | donkey_see_donkey_do/simplify.py:35-47 | the output has no mergeable press/release pair left |
| `Simplify.ConvertMousePressThenReleaseIdempotent` | donkey_see_donkey_do/simplify.py:26-49 | running the pass twice gives the same as once |
| `Simplify.PressReleaseAsClicksValidated` | donkey_see_donkey_do/simplify.py:49 | validation commutes with the pass: plain clicks never pair, and the pass's own clicks are already click events |
| `Simplify.ConvertMousePressThenReleaseIdempotentAsReturned` | donkey_see_donkey_do/simplify.py:26-49 | running the pass on what it returned returns the same list |
| `Simplify.PressReleaseAsClicksSplit` | donkey_see_donkey_do/simplify.py:34-47 | when no pair straddles a split, the pass acts on each half separately |
| `Simplify.PressReleaseBecomesClick` | donkey_see_donkey_do/simplify.py:35-45 | a mergeable press/release anywhere becomes the click of the press (its timestamp, location, button, screenshot, one click, no last timestamp), with the rest converted independently |
| `Simplify.InterveningEventBlocksClick` | tests/test_simplify.py:273-286 | a non-mouse event between a press and its release keeps all three |
| `Simplify.ClicksJoin` | donkey_see_donkey_do/simplify.py:61-70 | the join test: both sides are genuine clicks (each counts at least one), of the same button once made click events, the later starting at most `max_seconds` after the earlier, within `max_pixels` on each axis |
| `Simplify.MultiClicks` | donkey_see_donkey_do/simplify.py:59-86 | the right-to-left merge of joining clicks; never longer than the input, empty iff the input is |
| `Simplify.AsClick` | donkey_see_donkey_do/simplify.py:71-78 | a click event is used as it is; any other mouse-button event becomes a click with its timestamp, screenshot, location and button, one click and no last timestamp; a click action keeps its click count |
| `Simplify.ConvertMouseClicksToMultiClick` | donkey_see_donkey_do/simplify.py:52-86 | the loop, mutating fresh `ClickEvent` objects only, returns exactly `ValidatedAll(MultiClicks(events))`; limits default to 0.4 s and 5 px |
| `Simplify.JoinedClicks` | donkey_see_donkey_do/simplify.py:61-82 | a join yields a click whose count is the sum (plain click = 1), timestamp the min, end the max of all starts and ends, at the earlier event's location and button |
| `Simplify.TotalClicksPreserved` | donkey_see_donkey_do/simplify.py:71-82 | the total click count of the output equals that of the input |
| `Simplify.NonClicksKept` | donkey_see_donkey_do/simplify.py:83-86 | events other than clicks pass through, in order |
| `Simplify.MultiClicksValidated` | donkey_see_donkey_do/simplify.py:86 | validation commutes with the pass: a plain click and its click event join the same neighbours and merge to the same click |
| `Simplify.ClicksJoinValidated` | donkey_see_donkey_do/simplify.py:61-77 | validating either event changes neither the join test nor the click it is merged as |
| `Simplify.ClicksUnderValidation` | donkey_see_donkey_do/simplify.py:86 | validation keeps the total click count and every event that is not a click |
| `Simplify.MultiClicksAsReturned` | donkey_see_donkey_do/simplify.py:52-86 | what the pass returns has the input's total click count and its non-click events in order |
| `Simplify.ThreeClicksSumUp` | donkey_see_donkey_do/simplify.py:61-82 | clicks counting 2, 7 and 1 within the limits become one click counting 10, starting at the first and ending at the last |
| `Simplify.MultiClicksNotIdempotent` | donkey_see_donkey_do/simplify.py:59-86 | clicks at x = 8, 4 and 10 give two events after one run and one after a second run |
| `Simplify.KeyPressThenRelease` | donkey_see_donkey_do/simplify.py:96-103 | the merge test: a key press followed by a key release, at most `max_seconds` apart, and the write made from the press holds exactly the released key |
| `Simplify.KeyPressReleaseAsWrites` | donkey_see_donkey_do/simplify.py:94-109 | the pass's result, defined left to right; empty exactly when the input is |
| `Simplify.ConvertKeyPressThenReleaseToWrite` | donkey_see_donkey_do/simplify.py:89-109 | the left-to-right loop returns exactly `ValidatedAll(KeyPressReleaseAsWrites(events))`: each key press directly followed by a release of the same key within the limit becomes `SingleKeyWrite(press)`; the limit defaults to 0.15 s |
| `Simplify.KeyPressReleaseAsWritesLength` | donkey_see_donkey_do/simplify.py:94-109 | output length is input length minus the number of adjacent key press/release pairs |
| `Simplify.NoKeyPressReleasePairUnchanged` | donkey_see_donkey_do/simplify.py:96-107 | an input with no mergeable key pair comes back unchanged |
| `Simplify.NoKeyPressReleasePairInResult` | donkey_see_donkey_do/simplify.py:96-107 | the output has no mergeable key press/release pair left |
| `Simplify.ConvertKeyPressThenReleaseIdempotent` | donkey_see_donkey_do/simplify.py:89-109 | running the pass twice gives the same as once |
| `Simplify.KeyPressReleaseAsWritesValidated` | donkey_see_donkey_do/simplify.py:109 | validation, which leaves keyboard and write events alone, commutes with the pass |
| `Simplify.ConvertKeyPressThenReleaseIdempotentAsReturned` | donkey_see_donkey_do/simplify.py:89-109 | running the pass on what it returned returns the same list |
| `Simplify.KeyPressReleaseAsWritesSplit` | donkey_see_donkey_do/simplify.py:95-107 | when no pair straddles a split, the pass acts on each half separately |
| `Simplify.KeyPressReleaseBecomesWrite` | donkey_see_donkey_do/simplify.py:96-105 | a mergeable key press/release anywhere becomes the one-key write of the press, with the rest converted independently |

## Left out

- JSON and image plumbing (`model_json_dumps`, `model_json_loads`, base64 and PNG
  encoding): serialization, outside the simplification logic.
- `convert_location_to_point`: it depends on the external `Point` type. Locations are
  integer pairs here.
- `convert_keys_to_keystopress` and the external `KeysToPress` type: keys are a plain
  sequence.
- Foreign-library mappings: `pynput_button`, `pyautogui_button`, `pynput_key`,
  `pyautogui_key`, `pyautogui_keys`, and the pyautogui/pynput constants and
  `MouseButton` pass-through of the button validator. Only the plain-string subset is
  modelled.
- Events.ActionIsValidValue: lower-casing is ASCII only, where Python's `str.lower` is
  Unicode-aware.
- Events.ButtonIsConvertedToMouseButton: lower-casing is ASCII only, as above.
- Keys: a multi-character string used as one key is not modelled; a key is one
  character or a named special key.
- The default timestamp `datetime.now`: it becomes a parameter, `now`, of `FromRawKey`.
  Elsewhere timestamps are always given.
- Real datetimes and float thresholds: timestamps are integer microseconds, so the
  float rounding of `total_seconds()` is not modelled.
- `Events.__iter__`, `__getitem__` with a slice and `__delitem__` with a slice: the
  wrapper exposes its sequence `items`; only integer subscripts are modelled.
- Object identity: output lists hold values, so the sharing of event objects between
  the input and output lists is not modelled. No pass writes to an input event in
  the source either.
- pydantic field validation on construction, such as `PositiveInt` and the
  `Literal` action fields: these become the types `PositiveInt`, `KeyAction` and a
  fixed click action. The union choice of the list's validation is modelled
  (`Validated`). The copies of event objects that validation may make fall under
  object identity above.
- `donkey_see_donkey_do/recorder.py` (input listeners, background scheduling,
  screenshots) and `donkey_see_donkey_do/actions.py` (replay): I/O and concurrency,
  and `actions.py` uses names that `events.py` does not define. They are not part of
  this model.
