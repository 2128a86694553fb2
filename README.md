# Lucky wheel (돌림판) — a verified model

A weighted spinning wheel picks a lunch menu. Each entry has a name and a
count, and the count is its weight. Entries are drawn as sectors in
insertion order, and each sector is sized by its share of the total count.

A spin follows these steps:
- it starts at a fixed speed;
- on request, it decelerates over 12 500 ms;
- the winner is the entry under the 12 o'clock marker: the first entry
  whose cumulative share reaches the pointer's position on the wheel.

The same logic exists twice:
- The `WheelModel` class (`src/models/WheelModel.js`) is modelled by the
  class `Wheel.WheelModel`.
- An older standalone page script (`src/main.js`) keeps the same state in
  globals. It is modelled by the class `StandalonePage.Page`.

The two copies share these modules:
- `Menus`: the entry list, its total and the list operations, as functions
  on sequences with their invariants.
- `Pointer`: the pointer fraction and the first-match search over prefix
  sums.
- `Spin`: the spin state machine, as one animation frame `Tick` and a
  `Frame`/`Run` of frames.
- `JsText`: the JavaScript `trim()` and `parseInt` that the page applies to
  its form fields.

Each class method changes its fields in place. Each method is proved
against these shared functions, so the two copies can be compared directly.

Conventions and abstractions:
- **Angles are in turns.** They are exact reals, and 1 turn is 2π radians.
  The pointer sits at `PointerTurn = 3/4`. JavaScript's `%` truncates toward
  zero, so the stored angle lies in (-1, 1).
  - The test `adjustedAngle <= angleSum` is the same in turns.
  - The model also states it as `f * total <= Prefix(i + 1)` over the
    integer counts.
- **Speed and decay are parameters.** `Spin.Physics` carries two values:
  - `v0` is the initial 0.05 rad/ms expressed in turns per ms.
  - `decay(elapsed)` stands for `Math.exp(-0.24 * elapsed / 1000)`.
- **Timestamps are integer milliseconds.** `null`/`undefined` is `None`.
  The source's falsy tests (`!decelerationStartTime`,
  `_lastTimestamp || timestamp`, `!lastTime`) are modelled exactly by
  `Spin.Truthy`, which treats a timestamp of 0 as unset.
- **A count is an integer.** `None` stands for `NaN` where a count is parsed.

Two dt rules are compared in `Spin.Rule`:
- **`WhileSpinning`:** `WheelModel` writes `_lastTimestamp` only in frames
  where the wheel spins, and never resets it.
- **`EveryFrame`:** the page writes `lastTime` in every frame.

`Spin.RestartGap` proves the consequence. In the first frame of a new spin,
the class measures dt across the whole idle period, while the page measures
it from the previous frame.

Three behaviours of the code are worth knowing:
- When a deceleration ends, the code keeps the last decayed speed; it never
  sets it to 0 (`Spin.BrakeStops`).
- `startDeceleration` returns `false` when the wheel is already
  decelerating.
- Entries are addressed by their index in the list; they carry no id.

## Model

| member | source | states |
|---|---|---|
| Menus.ReduceCounts | src/models/WheelModel.js:89-91 | the `reduce` over the counts from `acc` equals `acc` plus the sum of all counts |
| Menus.AddAccepted | src/models/WheelModel.js:46 | the guard of `addMenu`: the name is non-empty and not blank after `trim()`, and the count is a number (not `NaN`) of at least 1; `StandalonePage.FormMatchesModel` relates it to the page's check, and `AddMenu` appends only what it accepts, which keeps every count at least 1 |
| Menus.RemoveAt | src/models/WheelModel.js:83 | `splice(index, 1)` gives one entry fewer; the entries before the index stay, and those after it move down one place in order; all counts stay at least 1 |
| Menus.Increased | src/models/WheelModel.js:61 | `count++` raises only that entry's count by one and keeps its name; every other entry and the length are unchanged; all counts stay at least 1 |
| Menus.Decreased | src/models/WheelModel.js:70-72 | from a count of 2 or more, only that count drops by one; from a count of 1 the entry is removed exactly as by `RemoveAt` (the decrement reaches 0 < 1); all counts stay at least 1 |
| Menus.SumBound | src/models/WheelModel.js:89-91 | with counts of at least 1, the total is at least the number of entries, and it is 0 exactly when the list is empty |
| Menus.SumRemoveAt | src/models/WheelModel.js:83 | removing an entry lowers the total by exactly its count |
| Menus.SumWithCount | src/models/WheelModel.js:61 | setting one count to `c` changes the total by `c` minus the old count |
| Menus.PrefixIncreasing | src/models/WheelModel.js:185-192 | with counts of at least 1, the running sums `angleSum` strictly increase along the list |
| Pointer.TruncMod1 | src/models/WheelModel.js:152 | `x % (one turn)` lies strictly between -1 and 1, has the sign of `x`, and differs from `x` by a whole number of turns |
| Pointer.PointerFraction | src/models/WheelModel.js:181-182 | for any angle up to 1¾ turns, `adjustedAngle` is in [0, 1) turn, and equals `1 + 3/4 - angle` reduced by whole turns |
| Pointer.CoverFrom | src/models/WheelModel.js:185-193 | the search from `i` returns the first index `j >= i` whose running sum reaches `x`, and no earlier running sum does; `None` only when no running sum after `i` reaches `x` |
| Pointer.Winner | src/models/WheelModel.js:175-193 | the entry `updateResult` reports: none for an empty list, otherwise the entry `Cover` picks for the pointer fraction of the angle; a winner is always one of the entries; `WinnerExists`, `CoverInterval` and `CoverBoundary` say which entry it is and that it always exists |
| Pointer.CoverExists | src/models/WheelModel.js:185-193 | with exact arithmetic and counts of at least 1, a non-empty list always has a covering entry for a fraction of at most one turn |
| Pointer.WinnerExists | src/models/WheelModel.js:175-193 | a non-empty list always yields a winner for every stored angle in (-1, 1) |
| Pointer.CoverFromInterval | src/models/WheelModel.js:186-191 | the search from 0 ends at `i` exactly when `x` lies in `(Prefix(i), Prefix(i+1)]`, closed at 0 for the first entry; both directions |
| Pointer.CoverInterval | src/models/WheelModel.js:186-191 | entry `i` wins exactly when `f * total` lies in its range of cumulative weight |
| Pointer.CoverBoundary | src/models/WheelModel.js:189 | a fraction exactly on the upper boundary of entry `k` goes to `k`, not to the next entry (the test is `<=`) |
| Pointer.ShareStep | src/models/WheelModel.js:187-188 | adding `count / total` to the share of the first `k` entries gives the share of the first `k + 1` |
| Pointer.ShareTest | src/models/WheelModel.js:189 | `f <= share(k)` holds exactly when `f * total <= Prefix(k)`, so the loop's test on shares is the test on integer weights |
| Pointer.CoverWithinShares | src/models/WheelModel.js:185-193 | the winning entry's sector starts at or before the pointer fraction and ends at or after it |
| Pointer.PointerInSector | src/main.js:120-124 | the 12 o'clock position, plus some whole turns, lies inside the sector `[angle + share(i), angle + share(i+1)]` in which the winner `i` is drawn |
| Pointer.TwoEntryExample | src/models/WheelModel.js:185-193 | for entries weighted 1 and 3, fraction 0.1 and the boundary 0.25 go to the first, 0.5 to the second; at angle 0 the second entry wins |
| Spin.Tick | src/models/WheelModel.js:126-152 | a frame of an idle wheel changes nothing; a frame keeps the invariants: decelerating only while spinning, a latched start only while decelerating, and the angle within one turn |
| Spin.Brake | src/models/WheelModel.js:129-148 | the deceleration block never turns the wheel; a latched start is never moved and lies less than 12 500 ms before the frame while the wheel decelerates; once the start is cleared both flags are off; the invariants are kept (`BrakeLatches`, `BrakeContinues` and `BrakeStops` give each case) |
| Spin.Dt | src/models/WheelModel.js:151 | `timestamp - (last \|\| timestamp)`: the gap since the recorded timestamp, or 0 when none is recorded or it is the falsy 0 (the page's `!lastTime` reset at src/main.js:203-204 gives the same); `RestartGap` compares the two copies' values |
| Spin.StartSpin | src/models/WheelModel.js:104-107 | the new motion of a successful `startSpin`: spinning, not decelerating, speed `v0`, no start; the angle is untouched and the invariants are kept |
| Spin.StartDeceleration | src/models/WheelModel.js:117-118 | the new motion of a successful `startDeceleration`: decelerating with no start yet; the angle and the speed are untouched, and a spinning wheel keeps the invariants |
| Spin.PageSpinClick | src/main.js:229-239 | the page's spin handler on the motion state; the angle is untouched and the invariants are kept; `ClickMatchesModel` proves it equals the class's `startSpin`/`startDeceleration` dispatch |
| Spin.Frame | src/models/WheelModel.js:125-153 | one frame under either dt rule: an idle wheel keeps its motion, and under the class's rule the whole frame is a no-op; the page's rule (src/main.js:202-223), or any spinning frame, records `now` as the last timestamp; the invariants are kept; `FrameIdempotent`, `RunStops` and `RestartGap` are proved about it |
| Spin.SpinningFrame | src/models/WheelModel.js:151-152 | a spinning, not decelerating frame keeps both flags and the speed, and advances the angle by `speed * dt`, wrapped |
| Spin.BrakeLatches | src/models/WheelModel.js:130-138 | the first decelerating frame latches its own timestamp as the start, and runs at `v0 * decay(0)` |
| Spin.BrakeContinues | src/models/WheelModel.js:134-138 | before 12 500 ms have elapsed, a decelerating frame keeps the start, and the speed becomes `v0 * decay(elapsed)` |
| Spin.BrakeStops | src/models/WheelModel.js:141-147 | at 12 500 ms or more, both flags and the start are cleared; the speed keeps its last decayed value, and the angle still advances with it |
| Spin.FrameIdempotent | src/models/WheelModel.js:125-153 | a second frame with the same timestamp changes nothing more, under either dt rule |
| Spin.TickForward | src/models/WheelModel.js:151-152 | with non-negative speed, decay and dt, the speed stays non-negative and the angle stays in [0, 1) turn |
| Spin.RunIdle | src/models/WheelModel.js:126 | any number of frames leaves an idle wheel idle and unchanged; under the class's rule even the timestamp is unchanged |
| Spin.RunStops | src/models/WheelModel.js:129-147 | after any run of frames, a latched deceleration is still spinning exactly when no frame was 12 500 ms or more after its start; it then still decelerates from that start, and otherwise both flags and the start are cleared |
| Spin.RunEveryFrameLast | src/main.js:203-205 | under the page's rule, the timestamp after a run is that of its last frame |
| Spin.RestartGap | src/models/WheelModel.js:151-153 | after a stop and some idle frames, the class measures the first spinning frame's dt from its last spinning frame; the page measures it from the last idle frame |
| Spin.ClickMatchesModel | src/main.js:229-239 | the page's spin button starts a spin when the class's `startSpin` guard holds, decelerates when `startDeceleration`'s guard holds, and otherwise does nothing |
| JsText.Trim | src/main.js:22 | `trim()` returns a contiguous slice of the input, and everything cut from both ends is white space; the result neither starts nor ends with white space; it is empty exactly when the input is white space only |
| JsText.ParseInt | src/main.js:23 | `parseInt` reads a number only if a decimal digit follows the leading white space, and a negative number only if the first non-space character is `-`; the lemmas below give the value read for a decimal numeral with optional leading white space and `-`, and for the examples `+5`, `007` and `0x1F` |
| JsText.ParseDecimal | src/main.js:23 | `parseInt` of a decimal numeral followed by any text that does not continue it (no digit, and no `x`/`X` after a lone `0`) is that number, so `"12abc"` reads 12 |
| JsText.ParseNegativeDecimal | src/main.js:23 | `parseInt` of `-` and a numeral is the negated number |
| StandalonePage.NegativeCountRejected | src/main.js:23-24 | a count typed as `-` and a numeral is always rejected by the count check, `-0` included (its value is not at least 1) |
| JsText.ParsePlusSign | src/main.js:23 | an explicit `+` is skipped: `+5` reads 5 |
| JsText.ParseLeadingZeros | src/main.js:23 | leading zeros do not change the value: `007` reads 7 |
| JsText.ParseHex | src/main.js:23 | a `0x` prefix switches to radix 16: `0x1F` reads 31 |
| JsText.ParseSkipsSpace | src/main.js:23 | leading white space does not change what `parseInt` reads |
| JsText.NoDigitIsNaN | src/main.js:23 | text without a decimal digit parses to `NaN` (`None`) |
| StandalonePage.NoDigitCountRejected | src/main.js:23-24 | a count typed without any decimal digit is never accepted by the form check |
| StandalonePage.FormAccepted | src/main.js:22-24 | the page's form check: the trimmed name is not empty, and `parseInt` of the count text is a number of at least 1; `FormMatchesModel`, `NegativeCountRejected` and `NoDigitCountRejected` are proved about it |
| StandalonePage.FormMatchesModel | src/main.js:22-24 | the page accepts a form exactly when the class's `addMenu` accepts the trimmed name and the parsed count |
| Wheel.WheelModel.constructor | src/models/WheelModel.js:4-15 | an empty list, an idle wheel at angle 0 and speed 0, no deceleration start and no previous timestamp |
| Wheel.WheelModel.AddMenu | src/models/WheelModel.js:45-55 | returns true exactly when the name is non-empty and not blank and the count is a number of at least 1; then exactly that entry is appended at the end, otherwise the list is unchanged |
| Wheel.WheelModel.IncreaseMenuCount | src/models/WheelModel.js:58-64 | returns true exactly for an index in range; the list is then `Increased` at that index, otherwise it is unchanged |
| Wheel.WheelModel.DecreaseMenuCount | src/models/WheelModel.js:67-77 | returns true exactly for an index in range; the list is then `Decreased` at that index (an entry removed when its count falls below 1), otherwise it is unchanged |
| Wheel.WheelModel.RemoveMenu | src/models/WheelModel.js:80-86 | returns true exactly for an index in range; the list is then `RemoveAt` that index, otherwise it is unchanged; the invariant is kept |
| Wheel.WheelModel.GetTotalMenuCount | src/models/WheelModel.js:89-91 | the total is the sum of all counts (0 for an empty list, by `SumBound`) |
| Wheel.WheelModel.GetMenus | src/models/WheelModel.js:94-96 | returns a copy of the list as it is at the time of the call |
| Wheel.WheelModel.StartSpin | src/models/WheelModel.js:101-111 | succeeds exactly when the list is non-empty and no spin is running; it then sets spinning, clears decelerating, sets the speed to `v0` and clears the start; otherwise nothing changes |
| Wheel.WheelModel.StartDeceleration | src/models/WheelModel.js:114-122 | succeeds exactly when spinning and not yet decelerating; it then sets decelerating and clears the start, leaving the angle and speed alone; otherwise nothing changes |
| Wheel.WheelModel.Update | src/models/WheelModel.js:125-159 | returns false and changes nothing when idle; otherwise the state and `_lastTimestamp` become one `WhileSpinning` frame of the old ones, and the result is the entry under the pointer |
| Wheel.WheelModel.UpdateResult | src/models/WheelModel.js:175-194 | the loop reports no entry for an empty list, and otherwise exactly the first entry whose running share reaches the pointer fraction |
| StandalonePage.Page.constructor | src/main.js:2-16 | the page globals start with no entries, an idle wheel at angle 0, no start, no `lastTime` and the initial result text (`lastTime`, declared at src/main.js:201, starts as `null`) |
| StandalonePage.Page.AddMenu | src/main.js:19-32 | when the form is accepted, appends the trimmed name with the parsed count and resets the fields to `""` and `"1"`; otherwise the list and the fields are unchanged |
| StandalonePage.Page.IncreaseClick | src/main.js:53-57 | ▲ of row `index` is `Increased` at that index |
| StandalonePage.Page.DecreaseClick | src/main.js:63-70 | ▼ of row `index` is `Decreased` at that index: decrement, and removal once the count is below 1 |
| StandalonePage.Page.DeleteClick | src/main.js:76-80 | the delete button of row `index` is `RemoveAt` that index |
| StandalonePage.Page.SpinClick | src/main.js:229-239 | idle with no entries: no change; idle otherwise: spinning, not decelerating, speed `v0`; spinning and not decelerating: decelerating; already decelerating: no change |
| StandalonePage.Page.Turn | src/main.js:206-223 | the `isSpinning` block is exactly one `Tick` with the frame's dt |
| StandalonePage.Page.Animate | src/main.js:202-227 | every frame refreshes `lastTime`, and the state becomes one `EveryFrame` frame of the old; the result box then names the entry under the pointer, or "no entry" for an empty list |
| StandalonePage.Page.UpdateResult | src/main.js:181-198 | "no entry" for an empty list; otherwise some entry always matches, and the box shows the first entry whose running share reaches the pointer fraction |

## Left out

- The `on`/`trigger` callback registry (src/models/WheelModel.js:28-40) and the notifications the methods emit are not modelled. This is dynamic dispatch into view code. `Update` and `UpdateResult` return the entry that would be published instead.
- Canvas drawing (`drawWheel`, `drawPointer`), the DOM work of `updateMenuList` (list items, buttons, the `toFixed` percentage text) and the spin button's label are not modelled. These are presentation only. The views WheelView.js and MenuView.js are not part of this model.
- The random HSL colour of each entry is not modelled. It is nondeterministic and presentation only.
- `requestAnimationFrame` scheduling is not modelled. Frames are calls with a timestamp, or a `Run` over a sequence of timestamps.
- `Math.exp`, π and floating-point rounding are not modelled. The decay factor and the initial speed are parameters, and angles are exact reals in turns. In floating point, the last running sum can fall just short of a full turn, so no winner is reported; this cannot happen in exact arithmetic, which is why `WinnerExists` has no floating-point counterpart.
- `getCurrentAngle` and `getSpinningState` are not modelled. They are plain reads of the `currentAngle` field and of the two flags.
- Wheel.WheelModel.AddMenu takes a string name and an integer-or-`NaN` count. Its only caller passes these, after trimming and `parseInt`. Non-string names and fractional counts that other callers could pass are not modelled.
- JsText.ParseInt models only the digits, sign, white space and `0x` prefix of `parseInt`. Results beyond the range of integers that doubles represent exactly are not modelled.
- StandalonePage.Page.IncreaseClick, DecreaseClick and DeleteClick require a valid row index. Each button is created for a rendered row, and the list is re-rendered after every change, so a button always refers to an existing row.
- Wheel.WheelModel.GetMenus: in the source, `[...this.menus]` is a shallow copy whose entry objects are shared with the model, so a later `count++`/`count--` also changes the counts in an array returned earlier (only `push` and `splice` leave it alone). The model's value snapshot drops this aliasing; no caller keeps a snapshot across an update.
