# ScheduleApp scheduling core, in Dafny

This project models the scheduling core of the `ScheduleApp` class in
`app.js`, a client-side day planner. The modelled parts are:

- the duration parser `parseTimeString`, which reads tokens such as `1時間30分`, `90分`, `1.5時間` or `2`;
- the memo compiler `parseTodoMemo`, which turns one `<title> <duration>` line into one task, and the recompile in `updateTodosFromMemo`;
- the first-fit placement `findAvailablePosition` and the render pass, which places every unplaced task and lays out its box;
- the duration label of a box;
- the drag gesture of `attachDragEvents`: press, snapped and clamped moves, and a release that commits the new start;
- `deleteTodo`.

Units. One hour is 60 px on the grid, so the model works in whole minutes, and minutes equal pixels.
- A duration is a number of minutes. The source's hours are that number divided by 60.
- A start is `Option<int>`: `None` for `startTime === null`, otherwise minutes after midnight.
- A task placed at offset `pos` starts at `StartAt(wake, pos) = wake * 60 + pos`.
- The parser's totals are exact rationals `num / den`. `Math.round(x / 15) * 15` is written as integer floor division (`Grid.RoundToStep`).

Modules, leaf first:
- `Grid`: the 15-minute step, rounding, snapping.
- `Text`: JavaScript whitespace, `trim`, `split('\n')`, `lastIndexOf`, decimal numerals.
- `Duration`: the parser and the label.
- `Tasks`: the task record, the palette, `deleteTodo`'s filter.
- `Memo`: the compiler and its round trip.
- `Placement`: the position search and the render pass as functions.
- `Drag`: the move arithmetic and the gesture state machine.
- `App`: the classes `ScheduleApp` (fields `todos`, `memoText`, `wakeTime`, `sleepTime`, `colorIndex`) and `DragHandler` (one box's closure state). Their methods are proved against the functions of the other modules.

The source has no memo writer: app.js never turns tasks back into memo text. The round-trip lemmas use a writer that the model itself defines:
- `Duration.MemoToken` writes a duration as `{h}時間{m}分`, `{h}時間` or `{m}分`, the same split as the box label;
- `Memo.MemoLine` writes `title + ' ' + token`;
- `Memo.MemoOf` writes one such line per entry.

With this writer, the lemmas show that `parseTodoMemo` loses nothing: every list of entries it can produce is the compilation of some memo text.

The mouse handlers (app.js:339-372) run the same gesture logic as the touch handlers. The table cites the touch handlers once for both. The differences between the two are listed under "## Left out":
- `mousedown` also calls `preventDefault`;
- `mousemove` and `mouseup` listen on `document`, not on the box.

Points of app.js that the model keeps as written:
- A memo line is split at its last ASCII space, `lastIndexOf(' ')` (app.js:60), and not at other whitespace.
- `deleteTodo` removes the record from the list (app.js:182).
- The position search stops at the last offset where the task still ends by `sleepTime` (app.js:269, 272).
- The rounding step is 15 minutes (app.js:44).
- Any positive total below 7.5 minutes rounds to 0, fractional totals from decimal hours included (`0.12時間` is 7.2 minutes). It makes `parseTimeString` return 0 rather than `null` (app.js:41-44). `parseTodoMemo` then drops the line through its `duration > 0` test (app.js:68).

## Model

| member | source | states |
|---|---|---|
| Grid.RoundToStep | app.js:44 | `Math.round(num / den / 15) * 15` in integer arithmetic; the result is a multiple of 15, and `Grid.RoundToStepNearest` shows it is the nearest one |
| Grid.RoundToStepNearest | app.js:44 | `Math.round(x / 15) * 15` of `num / den` is within half a step of `x` (ties go up) and is non-negative for non-negative `x` |
| Grid.MaxOffset | app.js:269 | the placement bound `maxPosition` (the same expression is the drag bound `maxTop`, app.js:321): the last offset at which the task still ends by `sleepTime`; `Placement.FindPositionSpec` and `Drag.CommitsInRange` use it as the upper limit |
| Grid.Snap | app.js:318-319 | the snapped top is a multiple of 15 within half a step of the raw top |
| Grid.SnapIdempotent | app.js:318-319 | snapping a snapped top changes nothing |
| Grid.SnapOfMultiple | app.js:318-319 | a multiple of 15 snaps to itself |
| Text.Trim | app.js:56 | `trim` drops exactly a leading and a trailing run of whitespace; what it keeps is a slice that neither starts nor ends with whitespace |
| Text.IsSpace | app.js:56 | the whitespace set of `trim`, and also of the parser's `\s`: ECMAScript WhiteSpace and LineTerminator. `Text.Trim` and `Duration.SpaceRun` are stated in terms of it |
| Text.TrimIdempotent | app.js:56 | trimming a trimmed string changes nothing |
| Text.SplitLines | app.js:52 | `split('\n')` gives at least one line, no line holds a line feed, and joining the lines gives the memo back |
| Text.SplitJoin | app.js:52 | splitting undoes joining for lines without line feeds |
| Text.LastIndexOf | app.js:60 | `lastIndexOf` is the position of an occurrence with none after it, or -1 when the character does not occur at all |
| Text.NatStr | app.js:240 | the decimal numeral of a template string is non-empty digits with no leading zero, and its value is the number |
| Text.DigitsValue | app.js:30 | `parseInt` of a run of ASCII digits, read most significant first; `Text.NatStr` shows that it inverts the decimal rendering of a number |
| Duration.NumeralValue | app.js:26 | `parseFloat` of a captured `w.f` (also at app.js:37), exactly `value(w f) / 10^len(f)`, with a positive denominator; `Duration.DecimalHours` gives its value for a decimal token |
| Duration.DigitRun | app.js:20 | `\d+` taken greedily: the length of the longest run of ASCII digits from `i`, with every character in it a digit and the next one not |
| Duration.SpaceRun | app.js:20 | `\s*` taken greedily: the length of the longest run of whitespace from `i`, with every character in it whitespace and the next one not |
| Duration.NumeralAt | app.js:35 | `\d+(?:\.\d+)?` anchored at `i` (also the capture of app.js:20): a match is a well-formed numeral that ends inside the string, after `i` |
| Duration.HourAt | app.js:20 | `(\d+(?:\.\d+)?)\s*時間` anchored at `i`; a match is a well-formed numeral |
| Duration.MinuteAt | app.js:21 | `(\d+)\s*分` anchored at `i`, with `parseInt` of its digits; `Duration.MinutesOnly` gives its value |
| Duration.HourFrom | app.js:20 | the leftmost match of `(\d+(?:\.\d+)?)\s*時間`; a match is a well-formed numeral. `Duration.HoursOnly` and `Duration.DecimalHours` give its value |
| Duration.MinuteFrom | app.js:21 | the leftmost match of `(\d+)\s*分`, read with `parseInt`; `Duration.MinutesOnly` and `Duration.HoursAndMinutes` give its value |
| Duration.NumberFrom | app.js:35 | the leftmost match of `(\d+(?:\.\d+)?)`, which starts at the first digit; a match is a well-formed numeral, and `Duration.BareNumber` gives its value |
| Duration.TotalMinutes | app.js:20-39 | `totalMinutes` before rounding, as an exact ratio with a positive denominator; its value for each pattern is stated by the lemmas in the rows below |
| Duration.ParseTimeString | app.js:16-48 | every result is a multiple of 15 minutes, i.e. of 0.25 h |
| Duration.ParseTimeStringSpec | app.js:16-48 | `null` exactly for the empty string and a zero total; otherwise the multiple of 15 nearest the total, ties up |
| Duration.NoDigitNoDuration | app.js:20-41 | a string without an ASCII digit matches no pattern and gives `null` |
| Duration.HoursAndMinutes | app.js:20-31 | `{D}時間{E}分` totals D hours plus E minutes |
| Duration.HoursOnly | app.js:20-27 | `{D}時間` totals D hours |
| Duration.MinutesOnly | app.js:21-31 | `{E}分` totals E minutes |
| Duration.DecimalHours | app.js:20-27 | `{D}.{F}時間` totals the decimal D.F hours |
| Duration.BareNumber | app.js:34-39 | with neither unit, a bare number counts as hours |
| Duration.ExampleHoursAndMinutes | app.js:16-48 | `"1時間30分"` gives 90 minutes (1.5 h) |
| Duration.ExampleMinutes | app.js:16-48 | `"90分"` gives 90 minutes |
| Duration.ExampleDecimalHours | app.js:16-48 | `"1.5時間"` gives 90 minutes |
| Duration.ExampleBareNumber | app.js:16-48 | `"2"` gives 120 minutes |
| Duration.ExampleNoDigits | app.js:16-48 | `"abc"` gives `null` |
| Duration.ExampleZeroMinutes | app.js:16-48 | `"0分"` gives `null` |
| Duration.ExampleRoundsToZero | app.js:16-48 | `"5分"` gives 0, not `null` |
| Duration.DurationLabel | app.js:236-245 | the box's duration text `{h}h{m}m`, `{h}h` or `{m}m`; `Duration.LabelUnits` gives its last unit and `Duration.TokenRoundTrip` shows that its hour/minute split loses nothing |
| Duration.LabelUnits | app.js:236-245 | the label ends in `h` exactly for a positive whole number of hours and in `m` otherwise |
| Duration.TokenRoundTrip | app.js:236-245 | the label's hour/minute split, written by the model's `Duration.MemoToken` with `時間`/`分`, parses back to the same duration for every duration the parser produces |
| Tasks.ColorOf | app.js:74 | the colour slot is always a valid palette index |
| Tasks.ColorOfIsMod | app.js:74 | the slot of counter `c` is `c % colors.length` |
| Tasks.ColorCycle | app.js:74 | colours repeat after ten tasks, and ten consecutive tasks get ten different colours |
| Tasks.PaletteDistinct | app.js:8-9 | the palette constant `Tasks.Palette` holds ten pairwise distinct classes |
| Tasks.Without | app.js:182 | after the filter, a task remains exactly when it was present and its id differs |
| Tasks.WithoutConcat | app.js:182 | the filter keeps the order of the remaining tasks |
| Tasks.WithoutAbsent | app.js:182 | deleting an id nobody has changes nothing |
| Tasks.DeleteIdempotent | app.js:182 | deleting twice is deleting once |
| Memo.ParseLine | app.js:56-68 | the `forEach` callback on one line; the three rows below state that it drops lines with no space, splits at the last space, and keeps only valid entries |
| Memo.SplitAt | app.js:63-68 | the two trimmed substrings on either side of the space at `k`, and the `title && duration && duration > 0` test; `Memo.ParseLineSplit` and `Memo.ParseLineValid` state what it returns for the last space |
| Memo.ParseLineNoSpace | app.js:60-61 | a trimmed line without an ASCII space is dropped |
| Memo.LastSpaceFound | app.js:60 | `lastIndexOf(' ')` finds the last space |
| Memo.ParseLineSplit | app.js:55-68 | a line is split at the last space of its trimmed text |
| Memo.ParseLineValid | app.js:63-68 | an accepted line has a non-empty trimmed title and a positive quarter-hour duration |
| Memo.ParsedLinesAt | app.js:52-55 | the callback reads line `index` of the split memo |
| Memo.CompileFrom | app.js:55-78 | the `forEach` from line `i` on, one task per accepted line; the origin, order, completeness and exactness lemmas below characterise it |
| Memo.Compile | app.js:51-81 | `parseTodoMemo` of a memo; `Memo.CompileWellFormed` and `Memo.MemoRoundTrip` state its shape and its round trip |
| Memo.CompileFromOrigin | app.js:55-76 | every task comes from an accepted line, carries its title and duration, is unplaced and has the next colour |
| Memo.CompileFromOrder | app.js:55-76 | ids strictly increase along the output |
| Memo.CompileFromComplete | app.js:55-76 | every accepted line yields a task |
| Memo.CompileExact | app.js:51-81 | the output is exactly the accepted lines in line order |
| Memo.ParsedLinesValid | app.js:56-68 | every parsed line that is kept is a valid entry |
| Memo.CompileWellFormed | app.js:68-76 | the tasks are unplaced, with trimmed non-empty titles and positive quarter-hour durations; task k has colour `(c0 + k) % 10`; ids are pairwise distinct |
| Memo.CompileFromIgnoresBase | app.js:70 | only the ids depend on `Date.now()` |
| Memo.ColorsDependOnlyOnText | app.js:173-174 | after the counter reset, titles, durations and colours depend only on the memo text |
| Memo.LineRoundTrip | app.js:55-68 | a line written by the model's `Memo.MemoLine` from a valid title and duration parses back to that title and duration |
| Memo.MemoSplits | app.js:52 | a memo written by the model's `Memo.MemoOf` splits back into its lines |
| Memo.MemoRoundTrip | app.js:51-81 | compiling the memo that the model's writer `Memo.MemoOf` makes from valid entries gives those entries back, in order, numbered from the id base and coloured from the counter |
| Placement.Overlaps | app.js:283 | the overlap test: true unless the new task ends by the other's start or starts at or after its end; `Placement.OverlapsMeansSharedMinute` gives its meaning |
| Placement.OverlapsMeansSharedMinute | app.js:283 | the overlap test holds exactly when the two non-empty half-open intervals share a minute |
| Placement.OverlapExamples | app.js:283 | touching intervals do not overlap; intervals sharing half an hour do |
| Placement.StartAt | app.js:273 | `wakeTime + pos / 60` in minutes, `wake * 60 + pos` (also the start written at app.js:221); `App.BoxOf` shows the box top converts back to it |
| Placement.Blocks | app.js:277-287 | one iteration of the inner loop: another task, already placed, whose interval overlaps the candidate |
| Placement.FreeAt | app.js:277-287 | the inner loop ends with `hasOverlap` false: no task of the list blocks the candidate |
| Placement.SearchFrom | app.js:272-291 | the scan returns the first free candidate, or none when every candidate is taken |
| Placement.Search | app.js:272-292 | the outer loop from offset 0 up to `maxPosition`; `Placement.FindPositionSpec` states that it finds the first free candidate or reports that there is none |
| Placement.FindPosition | app.js:267-295 | `findAvailablePosition`; `Placement.FindPositionSpec` characterises it as the first free candidate, or else 0 |
| Placement.FindPositionSpec | app.js:267-295 | the position is a multiple of 15: the smallest free one when one exists, otherwise 0 |
| Placement.EmptyDayPlacesAtTop | app.js:267-295 | with no other placed task the position is 0 |
| Placement.PlaceTask | app.js:213-222 | `createTodoBox`'s placement step for one task; the stage lemmas below say that it writes only a missing start |
| Placement.Stage | app.js:197-200 | the list after the `forEach` has created the first `k` boxes, of unchanged length; `Placement.StageFacts` and `Placement.StageStable` state what they placed |
| Placement.Rendered | app.js:197-200 | the list after `renderTodos`; the render lemmas below state that every task is placed, nothing else changes, and no freshly placed task overlaps an earlier one |
| Placement.StageFacts | app.js:213-222 | after k boxes, the first k tasks are placed, the rest are untouched, and only null starts were written |
| Placement.StageStable | app.js:213-222 | a placed task keeps its start for the rest of the pass |
| Placement.RenderPlacesAll | app.js:197-222 | after the render pass every task is placed and nothing but null starts changed |
| Placement.RenderIdentity | app.js:213-215 | rendering a fully placed list changes nothing |
| Placement.RenderIdempotent | app.js:197-222 | rendering twice is rendering once |
| Placement.RenderNoOverlap | app.js:213-222 | a task placed by a successful scan overlaps no task placed before it |
| Placement.TwoHourTasks | app.js:197-222 | two unplaced one-hour tasks go to the top of the day and right after it |
| Drag.ClampTop | app.js:321-322 | the clamp lies in [0, max(0, maxTop)] and keeps values already inside |
| Drag.MoveTop | app.js:314-322 | the snapped and clamped top of a move; `Drag.MoveTopBounds`, `Drag.MoveTopIdempotent` and `Drag.SmallMoveSnapsBack` give its properties |
| Drag.MoveTopBounds | app.js:314-322 | a move lands in [0, max(0, maxTop)] on the grid (or at the bound); negative raw tops give 0; tops past a grid bound give maxTop |
| Drag.MoveTopIdempotent | app.js:314-322 | when maxTop is on the 15-minute grid (as it is for every parsed duration) or negative, re-applying the move to a resolved top leaves it unchanged |
| Drag.SmallMoveSnapsBack | app.js:314-322 | a pointer movement under half a step leaves a grid top in place |
| Drag.OnPress | app.js:304-309 | a press starts a gesture at the pointer and remembers the top |
| Drag.OnMove | app.js:311-325 | a move while dragging sets the resolved top; otherwise it is ignored |
| Drag.OnRelease | app.js:327-336 | a release ends the gesture and commits the top; while idle it commits nothing |
| Drag.IdleIgnores | app.js:311-336 | without a press, moves and releases change nothing and commit nothing |
| Drag.CommitsInRange | app.js:311-336 | in a day with room for the task (`maxTop >= 0`), a gesture on a box that starts inside the day (`0 <= top <= maxTop`) keeps the box there, and every top it commits lies in [0, maxTop] |
| Drag.PressMoveRelease | app.js:304-336 | press, move, release commits exactly the resolved top of the move |
| App.BoxOf | app.js:213-222 | the box top converts back to the task's start, `(wake + pos/60 - wake) * 60 = pos`; height, id, title and colour are the task's |
| App.BoxLabel | app.js:236-245 | the box's duration text, `Duration.DurationLabel` of its height; `Duration.LabelUnits` gives its last unit |
| App.Commit | app.js:333-334 | a release writes `wake * 60 + top` as the dragged task's start; `App.CommitMovesOne` shows that it changes only that task |
| App.CommitMovesOne | app.js:333-334 | a commit writes only the dragged task's start, and its next box is drawn at the committed top |
| App.DeleteKeepsPlacement | app.js:181-185 | deleting from a rendered list moves no remaining task |
| App.ScheduleApp.constructor | app.js:3-10 | no tasks, an empty memo, a day from 6 to 23, counter 0 |
| App.ScheduleApp.ParseLineAt | app.js:56-68 | the callback on line `index`: an empty line, or one with no ASCII space, gives nothing; otherwise the line is split at its last space; and a kept entry has a non-empty trimmed title and a positive quarter-hour duration |
| App.ScheduleApp.CompileLines | app.js:55-78 | the loop returns the compiled tasks and advances the counter once per task |
| App.ScheduleApp.ParseTodoMemo | app.js:51-81 | the result is the compiled memo, and `colorIndex` ends at its start plus the task count |
| App.ScheduleApp.FindAvailablePosition | app.js:267-295 | the nested loops compute the first-fit position |
| App.ScheduleApp.RenderTodos | app.js:197-222 | the list becomes the rendered list, every task is placed, and box j is task j's box |
| App.ScheduleApp.UpdateTodosFromMemo | app.js:168-178 | the memo is kept, the counter is reset, and the tasks are replaced by the rendered compilation |
| App.ScheduleApp.DeleteTodo | app.js:181-185 | the tasks become the rendered filtered list |
| App.DragHandler.constructor | app.js:298-302 | a handler made for a placed task starts idle, with `startY` and `startTop` 0, and with the box at that task's rendered top (`BoxOf(task, wake).top`, app.js:216-221); it records the task's index, id and duration |
| App.DragHandler.MaxTop | app.js:321 | `maxTop`, read from the app's current wake and sleep times when the event arrives; `Drag.CommitsInRange` bounds the committed tops by it |
| App.DragHandler.Press | app.js:304-309 | the state becomes `OnPress` of the old state |
| App.DragHandler.Move | app.js:311-325 | the state becomes `OnMove` of the old state, with the bound of the moment |
| App.DragHandler.Release | app.js:327-336 | the state becomes `OnRelease` of the old state, and the committed top becomes the task's start |

## Left out

- DOM work is not modelled: creating elements, classes, styles, `innerHTML`, removing boxes, and registering listeners. A box is the value `App.Box`; its text is `App.BoxLabel`.
- `localStorage` load and save, JSON and logging are browser I/O.
- `saveToStorage` calls are left out of the operations.
- The one-second clock display and `renderTimeGrid` are left out: they share no state with the core.
- `Date.now()` is a clock call. The model reads it once per parse, as the parameter `idBase`, and gives line `index` the id `idBase + index`. The source reads the clock again for every accepted line (app.js:70), so one parse can mix several readings.
- Memo.CompileExact: the claim that `id - idBase` is the line index relies on the single clock reading. In the source the id is `Date.now() + index` with the clock read again at each accepted line.
- Memo.CompileFromOrder: in the source, ids within one parse strictly increase only while the clock does not go backwards.
- The `null` returns when the memo input or the grid element is missing are DOM lookups and are left out.
- Text is the Dafny `string` type, a sequence of Unicode scalar values. JavaScript indexes UTF-16 code units instead. The ASCII-space positions and the substrings agree for every well-formed string. A memo holding a lone surrogate cannot be written in the model.
- IEEE-754 doubles are not modelled: totals are exact rationals, and hours are whole minutes.
- Fractional pointer coordinates and `parseInt` of a fractional `style.top` are not modelled. Pointer positions and tops are integers.
- Browser event dispatch is not modelled: `passive`, `preventDefault` on `mousedown`, `zIndex`, and the split into touch and mouse listeners. The mouse listeners for move and release sit on `document` rather than on the box.
- The wake and sleep `<input>` handlers are left out. They only re-read a number and re-render.
- A task's colour is recorded as its palette slot `i`, which stands for the class `Palette[i]`, not as the class string itself.
- App.DragHandler.Release: the source writes to the task object its closure captured. The model writes to the task at the handler's index when that task still has the handler's id. Object identity and listeners left over from earlier renders are not modelled.
- App.ScheduleApp.CompileLines: the `forEach` loop receives the parsed lines as a ghost parameter. This only keeps the proof small; the loop itself still parses each line.
