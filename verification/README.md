# Arimac canvas carousel, modelled in Dafny

This project models the logic of the Arimac canvas module, a three.js
carousel of diamonds driven from React. It covers seven parts.

- **Tween engine** (`Tweening`, `ShapeTree`, `Easing`).
  - A queue of animation tasks over nested number trees.
  - `getObjectValues` / `setObjectValues` read and write those trees.
  - The easing table.
  - `update`, the per-frame step, which interpolates or completes every live task and emits `onUpdate`/`onComplete` callbacks.
  - `animate`, `animateObject` and `animateAllObjects`.
  - The abort handle.
- **Eighteen-slot carousel** (`Layout`, `Scroll`).
  - `toIndex` modulo 18 and the ellipse points.
  - The clamped `interpolate`, `getScale`, and the bracket search of `getRotation` over the `locks` table.
  - The scroll controller: wheel accumulation and its debounce timer, the directional snap and the damped follower of the render loop.
  - The slot it reports, the click offset, `addScroll`, and the restore slots of `activeDiamond`.
  - The guards of `useCanvas`.
- **Nine-diamond predecessor** (`Selection`).
  - Its `toIndex` modulo 9 and the context setters.
  - The click test and the shift permutations of `selectDiamond`, `onFloat` and `activeDiamond`.
  - The visibility test.
- **Pointer dispatcher** (`Pointer`).
  - The mapping to normalised device coordinates.
  - The click/focus/blur transition of `trigger`, with the ray-cast result as an `Option<Obj>`.
- **Hue loader** (`Hue`, `HueInput`).
  - `toHSL`, `toRGB`/`hue2rgb` and the hue rotation.
  - The pixel loop of `createCanvas` over the RGBA bytes.
  - The `source#degrees` split of `loadAsync`, with `parseInt` as section 19.2.5 of ECMAScript 2023 defines it.
- **Keyboard dispatch** (`Keyboard`): the application's `onEvent` as a map from key events to context calls.
- **Shared helpers** (`JsMath`): JavaScript's `Math.floor`, `Math.ceil`, `Math.round` and the truncating `%`.

How the model represents the running program:

- Module globals become explicit state records: `Tween`, `Wheel`, `Canvas` and `Ui`.
- `performance.now()` becomes a time parameter.
- The debounce `setTimeout` becomes an explicit `TimerFired` event, carrying the number of the timer that fires.
- Callbacks become emitted event values, in order.
- `cos`, `sin`, `sqrt` and `2^x` come in as a record of functions (`Transcendentals`) and are not interpreted.
- `update` and its loop take the easing table as a function from a name and a ratio to an optional value (`Easer`). `Tweening.Eases` is the module's own table over `Transcendentals`. The facts about `update` hold for any table, so they also hold for that one.
- Numbers are exact reals.

## Model

| member | source | states |
|---|---|---|
| JsMath.Floor | src/canvas/Canvas.js:247 | `Math.floor` is the greatest integer not above its argument |
| JsMath.Ceil | src/canvas/Canvas.js:246 | `Math.ceil` is the least integer not below its argument |
| JsMath.Round | src/canvas/Canvas.js:234 | `Math.round` lands within half a unit, halves going up |
| JsMath.Rem | src/canvas/Canvas.js:22 | the truncating `%` takes the dividend's sign, stays below the divisor in size, and differs from the dividend by a multiple of the divisor |
| JsMath.WrapIndex | src/canvas/Canvas.js:20-23 | `((i % n) + n) % n` is the never-negative residue of `i`, also for negative `i` |
| ShapeTree.GetObjectValues | src/canvas/modules/Tween.js:2-29 | the read succeeds exactly when every path of the template exists in the object, and the result has exactly the template's keys at every level |
| ShapeTree.GetCopiesLeaves | src/canvas/modules/Tween.js:14-22 | every number the template names is copied from the object at the same path |
| ShapeTree.SetObjectValues | src/canvas/modules/Tween.js:32-53 | the write succeeds exactly when every inner node of the input meets an object node; at the top level, keys the input does not name keep their values and named numbers are replaced (ShapeTree.PutKeepsOthers states the frame at every depth) |
| ShapeTree.PutKeepsOthers | src/canvas/modules/Tween.js:32-53 | at every depth, a number of the object keeps its value unless the input names a number on its path, so writing `{x, z}` onto a position keeps its `y` |
| ShapeTree.PutWritesLeaves | src/canvas/modules/Tween.js:42-48 | every number of the input lands on the object at the same path |
| ShapeTree.ReadAfterWrite | src/canvas/modules/Tween.js:2-53 | reading back through a template just written returns the written tree |
| ShapeTree.WriteAfterRead | src/canvas/modules/Tween.js:2-53 | writing back what was just read leaves the object unchanged |
| ShapeTree.PutSelf | src/canvas/modules/Tween.js:32-53 | writing an object onto itself changes nothing |
| ShapeTree.CompatibleReadsSelf | src/canvas/modules/Tween.js:171 | a task's starting `current`, read from `from` through the shape of `to`, is `from` itself |
| Easing.LookupName | src/canvas/modules/Tween.js:63-88 | every curve is found under its own name, so no two curves share a key |
| Easing.NameLookup | src/canvas/modules/Tween.js:63-88 | a name the table finds is the key of the curve found |
| Easing.KnownNamesEase | src/canvas/modules/Tween.js:133 | the easing call yields a value exactly for the table's names, whatever the ratio |
| Easing.PolynomialEndpoints | src/canvas/modules/Tween.js:67-87 | every polynomial and "back" curve maps 0 to 0 and 1 to 1 |
| Easing.InOutMeetAtHalf | src/canvas/modules/Tween.js:69-87 | each in-out polynomial or back curve has its two formulas meet at 0.5, value 0.5 |
| Easing.OutQuadAtHalf | src/canvas/modules/Tween.js:68 | `out-quad` at 0.5 is 0.75 |
| Tweening.Eases | src/canvas/modules/Tween.js:133 | `easings[name](x)` gives a value exactly for the names the table holds as its own keys, and is `undefined` (a throw) otherwise |
| Tweening.Live | src/canvas/modules/Tween.js:123 | the filter keeps exactly the tasks that are neither completed nor aborted, and keeps ids distinct |
| Tweening.InterpLeaf | src/canvas/modules/Tween.js:135-153 | each number of the new state is `from + (to - from) * frame` at its own path |
| Tweening.InterpStart | src/canvas/modules/Tween.js:148-150 | at frame 0 the interpolation is `from` |
| Tweening.InterpEnd | src/canvas/modules/Tween.js:148-150 | at frame 1 the interpolation is `to` |
| Tweening.Process | src/canvas/modules/Tween.js:125-166 | the loop keeps one task per input task and stops exactly at a task whose easing call throws |
| Tweening.ProcessStopsAtThrow | src/canvas/modules/Tween.js:125-166 | the task whose easing throws, and every later task, are left untouched |
| Tweening.ProcessKeepsIdentity | src/canvas/modules/Tween.js:125-166 | the loop changes no task's id, endpoints, stamp, duration, easing or target |
| Tweening.ProcessEventIds | src/canvas/modules/Tween.js:157-164 | every callback of the pass belongs to a task of the queue it ran over |
| Tweening.Update | src/canvas/modules/Tween.js:119-167 | `update` stamps the instance and advances exactly the filtered tasks, keeping the queue well formed |
| Tweening.UpdateSilentOnSettled | src/canvas/modules/Tween.js:123 | a completed or aborted task gets no callback and leaves the queue |
| Tweening.UpdateAt | src/canvas/modules/Tween.js:125-166 | the `i`-th filtered task, once reached, is advanced by the loop body and gets exactly that body's callbacks |
| Tweening.UpdateInterpolates | src/canvas/modules/Tween.js:129-157 | before its time is up, a task's state is the interpolation at the eased, unclamped ratio, and its one callback is `onUpdate` with that state; this holds whenever the frame reaches the task, even if a later task throws |
| Tweening.UpdateCompletes | src/canvas/modules/Tween.js:158-165 | once its time is up, the task is marked completed and gets `onUpdate(to)` and then `onComplete(to)` |
| Tweening.UpdateCompletesOnce | src/canvas/modules/Tween.js:158-165 | one `update` gives a task at most one `onComplete`, and the task is settled afterwards |
| Tweening.UpdateSilentFromThrow | src/canvas/modules/Tween.js:125-166 | when an easing call throws at or before a task's place in the filtered queue, that task gets no callback in this `update` |
| Tweening.SettledStaysSilent | src/canvas/modules/Tween.js:123 | a settled task receives no callback in any later run of frames |
| Tweening.CompleteAtMostOnce | src/canvas/modules/Tween.js:123-165 | across any run of frames a task's `onComplete` fires at most once |
| Tweening.Animate | src/canvas/modules/Tween.js:169-192 | `animate` appends exactly one task, stamped now, whose easing defaults to `out-sine`, and emits `onStart(current)` then `onUpdate(from)` |
| Tweening.AnimateObject | src/canvas/modules/Tween.js:194-221 | the task starts from the target's values at the paths `to` names, and its first write-back leaves the target unchanged |
| Tweening.AnimateAllObjects | src/canvas/modules/Tween.js:223-227 | one handle per input, in input order, each task aimed at its input's target and values; when an input's read fails, the tasks of the inputs before it stay queued and the error names the failing input |
| Tweening.Abort | src/canvas/modules/Tween.js:188-190 | abort only flags the task: the queue keeps its length, every task with the handle's id is the same task flagged aborted, and every other task is unchanged |
| Tweening.AbortSilences | src/canvas/modules/Tween.js:123 | after abort no `update` calls the task's callbacks, and the first one drops it |
| Tweening.UnknownEasingThrowsAtUpdate | src/canvas/modules/Tween.js:119-133 | an unknown easing name that is not an inherited `Object.prototype` method is accepted by `animate` whatever else is queued, and the first `update` on any later frame before the duration is up throws, at that task or at an earlier one in the queue |
| Layout.ToIndex | src/canvas/Canvas.js:20-23 | the slot lies in `[0, 18)` and is congruent to the index modulo 18 |
| Layout.ToIndexPeriodic | src/canvas/Canvas.js:20-23 | a slot is its own slot, and a whole turn changes nothing |
| Layout.EllipsePoints | src/canvas/Canvas.js:26-48 | one point per diamond, each at angle `i*2π/n + π/180*(rotation+10)` on the ellipse |
| Layout.AngleShift | src/canvas/Canvas.js:33-39 | turning by `360/n` degrees puts every diamond on its successor's angle |
| Layout.ScrollStepIsOneSlot | src/canvas/Canvas.js:213 | one wheel step of 200 turns the ellipse by exactly one of the 18 slots |
| Layout.Clamp01 | src/canvas/Canvas.js:160 | the factor is clamped into `[0, 1]` and left alone inside it |
| Layout.Interpolate | src/canvas/Canvas.js:159-166 | a value exists exactly when the array is non-empty |
| Layout.InterpolateEnds | src/canvas/Canvas.js:159-166 | factor 0 or below gives the first sample, 1 or above the last |
| Layout.InterpolateSample | src/canvas/Canvas.js:159-166 | factor `k/(n-1)` gives sample `k` exactly |
| Layout.InterpolateInRange | src/canvas/Canvas.js:159-166 | the result lies between the smallest and largest sample |
| Layout.Scale | src/canvas/Canvas.js:182-185 | the scale is never below 0.06 |
| Layout.ScaleSymmetricMonotone | src/canvas/Canvas.js:182-185 | the scale depends only on `abs(x)`, does not grow with it, and is linear before the floor |
| Layout.LocksShape | src/canvas/Canvas.js:169-179 | the lock points rise strictly and mirror around the middle one |
| Layout.FindBracket | src/canvas/Canvas.js:190-192 | the search gives the first bracket holding the position, or -1 |
| Layout.FindBracketInside | src/canvas/Canvas.js:190-192 | a bracket is found exactly when the position lies between the outer lock points |
| Layout.BracketFactorRange | src/canvas/Canvas.js:194-200 | inside the table the bracket formula is positive, so the `\|\|` fallback never fires |
| Layout.RotationFactorCases | src/canvas/Canvas.js:188-200 | left of the table the factor is 0, right of it 1, inside it the first bracket's formula |
| Layout.RotationFactorContinuous | src/canvas/Canvas.js:190-199 | at a lock point both adjacent bracket formulas agree |
| Layout.RotationFactorMonotone | src/canvas/Canvas.js:188-200 | the factor never decreases as the position moves right |
| Layout.GetRotation | src/canvas/Canvas.js:188-207 | a rotation exists exactly when every sample column is non-empty |
| Layout.GetRotationOutside | src/canvas/Canvas.js:188-207 | outside the table a diamond takes the first or last sample of each column |
| Scroll.OnWheel | src/canvas/Canvas.js:131-152 | an event is ignored without a context or while active, locked or not ready; otherwise it adds the delta, sets the direction "down" exactly for a positive delta, and restarts the timer |
| Scroll.WheelEvent | src/canvas/Canvas.js:131-152 | the handler steps the wheel as `Scroll.OnWheel` does, and when it accepts the event its `onRotate` reports the slot of the unchanged final value |
| Scroll.WheelsAccumulate | src/canvas/Canvas.js:131-152 | a burst of events sums its deltas, takes the last direction and leaves only the last timer live |
| Scroll.StaleTimerIgnored | src/canvas/Canvas.js:144-151 | only the last timer of a burst snaps; the cleared ones do nothing |
| Scroll.SnapStep | src/canvas/Canvas.js:243-247 | "up" rounds up onto a step within one step, and any other direction, even none, rounds down |
| Scroll.SnapStepUnique | src/canvas/Canvas.js:243-247 | the snapped step is the only multiple of the step in its window |
| Scroll.SnapIdempotent | src/canvas/Canvas.js:243-247 | a value on a step stays there in either direction |
| Scroll.Snap | src/canvas/Canvas.js:239-251 | the snap puts the value on a step and makes the final value equal to it |
| Scroll.TimerFired | src/canvas/Canvas.js:146-151 | only the live timer stops scrolling and snaps, and the snap reports the slot it lands on to the context; a cleared one changes nothing |
| Scroll.SnapGuardsActivation | src/canvas/Canvas.js:277-280 | while the snap runs `setActive` is refused, and once a snap animation completes it is accepted |
| Scroll.DampApproaches | src/canvas/Canvas.js:349 | with a factor in `[0, 1]` the final value moves towards the scroll value without overshooting, and the gap shrinks by `1 - factor` |
| Scroll.Report | src/canvas/Canvas.js:234 | the reported slot lies in `[0, 18)` |
| Scroll.ReportInitial | src/canvas/Canvas.js:65-75 | the initial scroll value reports the context's initial rotation |
| Scroll.ReportStep | src/canvas/Canvas.js:234 | scrolling back `k` whole slots moves the reported slot `k` forward |
| Scroll.SetScroll | src/canvas/Canvas.js:119-126 | the stored index lies in `[0, 9)` and is congruent to the rotation modulo 9 |
| Scroll.ContentRepeats | src/canvas/Canvas.js:123 | diamonds nine slots apart show the same content item |
| Scroll.ReportScroll | src/canvas/Canvas.js:233-236 | a context, when there is one, learns the final value and its slot and keeps its flags |
| Scroll.Rotate | src/canvas/Canvas.js:209-237 | the context changes only while scrolling, then learns the final value and its slot |
| Scroll.PoseOf | src/canvas/Canvas.js:219-230 | a diamond is visible exactly in front of `z = -0.1`, and takes the scale and tilt of its position |
| Scroll.PosesShift | src/canvas/Canvas.js:213-231 | one slot of scrolling gives every diamond its neighbour's pose |
| Scroll.ClickOffset | src/canvas/Canvas.js:386-394 | the offset is congruent to `diamond - rotation` modulo 18 and equals it when at most 4 away |
| Scroll.ClickFrontIsShort | src/canvas/Canvas.js:386-394 | a diamond within four slots is reached the short way |
| Scroll.OnClick | src/canvas/Canvas.js:371-396 | a click is ignored while locked, active or scrolling; it activates exactly the current diamond, and otherwise scrolls by -200 per slot of offset |
| Scroll.AddScroll | src/canvas/Canvas.js:290-327 | the wheel always turns to scrolling; unless locked, the context locks and both scroll values animate by the offset |
| Scroll.ShiftKeepsGap | src/canvas/Canvas.js:298-317 | both scroll values ride the same eased frame, so their gap is the same at every frame |
| Scroll.ShiftComplete | src/canvas/Canvas.js:318-325 | on completion scrolling stops, the context unlocks, the wheel snaps and the context learns the snapped value and its slot |
| Scroll.ClickBringsToFront | src/canvas/Canvas.js:371-396 | after the click's shift completes and snaps, the context's rotation is the clicked diamond and a second click on it asks to open it; the guarded `setActive` refuses while the snap animation runs and opens it once that animation completes |
| Scroll.AddIndex | src/canvas/Canvas.js:109-110 | `addIndex` is ignored while locked, active or not ready, and otherwise is a wheel event of -200 per slot, whose `onRotate` reports the current slot |
| Scroll.AddIndexMovesSlot | src/canvas/Canvas.js:109-110 | from a snapped carousel, `addIndex(k)` and its timer move the reported slot `k` forward, and the context's rotation is that slot |
| Scroll.SetActive | src/canvas/Canvas.js:114-115 | `setActive` is refused while locked, scrolling or snapping |
| Scroll.RestoreSlotsDistinct | src/canvas/Canvas.js:471-473 | the nine restore slots name nine different diamonds, and slot 4 is the current one |
| Scroll.RestoreSlots | src/canvas/Canvas.js:471-477 | the restore table lists nine distinct diamonds with the current one in the middle |
| Selection.ToIndex | src/components/Canvas.js:18-21 | the index lies in `[0, 9)` and is congruent to its argument modulo 9 |
| Selection.SameResidue | src/components/Canvas.js:18-21 | two integers share an index exactly when they differ by a multiple of 9 |
| Selection.SetIndex | src/components/Canvas.js:46-47 | a no-op while locked or active, otherwise stores the wrapped index |
| Selection.AddIndex | src/components/Canvas.js:52-53 | a no-op while locked or active, otherwise moves the index by the offset, wrapping |
| Selection.SetActive | src/components/Canvas.js:57 | a no-op while locked |
| Selection.AddIndexComposes | src/components/Canvas.js:52-53 | two moves make one move by their sum, and nine steps return to the start |
| Selection.ShiftPermutes | src/components/Canvas.js:201 | `i -> toIndex(index + i)` is one-to-one and onto the nine points |
| Selection.FloatOrderPermutes | src/components/Canvas.js:182 | the float order `toIndex(i - 4)` is one-to-one |
| Selection.OnClick | src/components/Canvas.js:114-129 | a click activates when `toIndex(9 - d)` is the index, and otherwise requests index `9 - d` |
| Selection.ClickOpensFront | src/components/Canvas.js:114-129 | a click opens exactly the diamond at shift 0, and any other click brings the clicked diamond there |
| Selection.ActiveMoves | src/components/Canvas.js:225-281 | the front diamond `toIndex(9 - index)` is at shift 0; each of the other eight moves to its own non-front shifted point of the chosen set |
| Selection.ActiveGuard | src/components/Canvas.js:221-223 | only a ready context proceeds, and it is then locked |
| Selection.SelectTargets | src/components/Canvas.js:191-216 | only a ready, inactive, unlocked context moves, each diamond to its shifted point |
| Selection.VisibleShape | src/components/Canvas.js:212 | a diamond is hidden exactly behind `z = -34` between `x = -38` and `38`; the test is mirror-symmetric |
| Pointer.NdcRange | src/canvas/modules/EventLoader.js:18-19 | a point in the window maps into `[-1, 1]` on both axes, edge to edge, with y flipped |
| Pointer.Trigger | src/canvas/modules/EventLoader.js:16-54 | clicks keep the focus; a move focuses a new object, with a blur of the old one first; a miss blurs and clears the focus |
| Pointer.TriggerTracks | src/canvas/modules/EventLoader.js:25-53 | each event keeps focus and blur callbacks alternating and the focus equal to the last one focused |
| Pointer.TracksFocus | src/canvas/modules/EventLoader.js:32-36 | focusing while nothing is focused extends an in-step trace and makes the object the focused one |
| Pointer.TracksBlur | src/canvas/modules/EventLoader.js:48-53 | blurring the focused object extends an in-step trace and leaves nothing focused |
| Pointer.RunAlternates | src/canvas/modules/EventLoader.js:16-54 | from the start, focus and blur alternate starting with focus, and an object is focused exactly when focuses exceed blurs by one |
| Hue.HslOf | src/canvas/modules/HueLoader.js:78-107 | equal channels give hue and saturation 0 and the channel as lightness |
| Hue.ToHsl | src/canvas/modules/HueLoader.js:83-85 | equal bytes give hue and saturation 0 and lightness `r/255` |
| Hue.HslRange | src/canvas/modules/HueLoader.js:78-107 | the hue lies in `[0, 1)`, saturation and lightness in `[0, 1]`, and the lightness is the mean of the extremes |
| Hue.Wrap01 | src/canvas/modules/HueLoader.js:117-118 | a hue within one unit of `[0, 1]` is shifted by at most one unit into it |
| Hue.Hue2RgbBetween | src/canvas/modules/HueLoader.js:116-123 | `hue2rgb` returns a value between `p` and `q` |
| Hue.ToRgb | src/canvas/modules/HueLoader.js:113-114 | zero saturation gives three equal channels `round(l * 255)` |
| Hue.ChannelsRoundTrip | src/canvas/modules/HueLoader.js:77-129 | over exact reals, channels converted to HSL and back are unchanged |
| Hue.RgbRoundTrip | src/canvas/modules/HueLoader.js:77-135 | colour bytes survive `toRGB(toHSL(r, g, b))` unchanged |
| Hue.TurnAgrees | src/canvas/modules/HueLoader.js:63 | for a non-negative rotation the written `% 1` and the floor wrap agree, so the hue stays in `[0, 1)` |
| Hue.Turn | src/canvas/modules/HueLoader.js:63 | the corrected turned hue always lies in `[0, 1)` |
| Hue.FullTurns | src/canvas/modules/HueLoader.js:63 | whole turns leave a hue where it is |
| Hue.Clamp | src/canvas/modules/HueLoader.js:67-69 | the pixel array stores a byte, and a byte unchanged |
| Hue.RecolourPixels | src/canvas/modules/HueLoader.js:55-70 | the loop keeps the length and the bytes; each colour byte takes its pixel's new channel and each alpha byte is kept |
| Hue.RotatePixels | src/canvas/modules/HueLoader.js:55-70 | the hue rotation rewrites only the colour bytes of each pixel; alpha bytes are untouched |
| Hue.PixelAgrees | src/canvas/modules/HueLoader.js:55-70 | for a rotation that is not negative, or not a number, the corrected pixel is the written one |
| Hue.FullTurnKeepsImage | src/canvas/modules/HueLoader.js:55-70 | a rotation by whole turns leaves every byte as it was |
| Hue.NaNRotationGreys | src/canvas/modules/HueLoader.js:61-65 | a rotation that is not a number keeps grey pixels and greys every other pixel to its smallest channel |
| Hue.NegativeTurnMiscolours | src/canvas/modules/HueLoader.js:63 | as written, a -300 degree turn of (255, 128, 128) gives (255, 255, 1), not the (255, 255, 128) of the same angle as +60 |
| HueInput.TrimStart | src/canvas/modules/HueLoader.js:12 | `parseInt` drops exactly the leading white space |
| HueInput.ParseNeedsDigit | src/canvas/modules/HueLoader.js:12 | a text with no decimal digit is not a number, since hex digits are read only after `0x` |
| HueInput.ParseMinus | src/canvas/modules/HueLoader.js:12 | a leading minus sign negates whatever unsigned number follows it |
| HueInput.ParseNumeral | src/canvas/modules/HueLoader.js:12 | `parseInt` reads back every integer numeral |
| HueInput.Source | src/canvas/modules/HueLoader.js:11 | the source is the text before the first `#`, and has no `#` |
| HueInput.Tag | src/canvas/modules/HueLoader.js:12 | there is a tag exactly when the input has a `#`; it is the `#`-free text after the first one |
| HueInput.Rotation | src/canvas/modules/HueLoader.js:12 | an absent or empty tag reads as rotation 0 |
| HueInput.TagAfterHash | src/canvas/modules/HueLoader.js:11-12 | splitting `a#b` on `#`, with no `#` in either part, gives back `a` and `b` |
| HueInput.LoadRoundTrip | src/canvas/modules/HueLoader.js:11-12 | an untagged source loads unrotated, and `source#n` loads `source` rotated by `n` |
| Keyboard.OnEvent | src/App.js:8-27 | nothing happens while locked, not ready, or for an event other than a key down |
| Keyboard.KeyDispatch | src/App.js:12-26 | the left keys move forward, the right keys move back, space opens only when inactive and escape closes only when active, and other keys do nothing |
| Keyboard.SpaceThenEscape | src/App.js:19-25 | on a settled carousel, space opens the front diamond and escape restores the context |
| Keyboard.ArrowsCancel | src/App.js:13-18 | ArrowLeft moves the context's rotation one slot forward after the snap, and ArrowRight then returns it |

## Left out

- Rendering, the DOM and React: `renderer.render`, cursor styles, resize handling, listener registration, and the effects that wire the context.
  - React's batching of state updates is also left out. The model applies each setter at once.
  - So `onSnap`'s first `setScroll` with an undefined rotation is not modelled: its second `setScroll`, with the snapped slot, overwrites it in the same handler.
  - Selection.AddIndex: the `addIndex` of src/components/Canvas.js:52-53 reads `index` from the render that created it, and two calls before a re-render both start from that stale value. The model reads the current index.
- Asset, scene and galaxy loading, and image I/O: the image cache and element, and canvas and texture creation in `loadAsync` and `createCanvas`.
  - The pixel loop is modelled over the byte sequence `getImageData` returns.
- The hover animations of `onFocus` and `onBlur`, and `isGlowing`; the float loop's stagger timers and its endless re-scheduling.
  - Only the order the diamonds start in is modelled.
- The snap's per-diamond `animateObject` calls and their `onUpdate` abort when scrolling resumes. Their `onComplete`, which resets `isSnapping`, is the separate event `Scroll.SnapSettled`.
- The animation targets `activeDiamond` reads from `points.json`. The restore table holds diamond numbers only, not their saved poses.
- `setup.json` is not part of this model. The snap step, ellipse, damping factor and timer delay are parameters; the step must be positive.
  - The slot report always divides by 200, so the lemmas that follow a scroll to a slot fix the step at 200 (`Scroll.SlotScroll`).
- Scroll.AddIndexMovesSlot: holds for the snap step 200 only, the step the slot report assumes.
- Scroll.ClickBringsToFront: holds for the snap step 200 only, the step the slot report and the click offset assume.
- The shift's per-frame `onUpdate` reports are not modelled one by one: `Scroll.ShiftKeepsGap` covers the values, and `Scroll.ShiftComplete` the report left at the end.
- Floating-point arithmetic: all numbers are exact reals. `cos`, `sin`, `sqrt` and `2^x` are uninterpreted parameters, so the sine, exponential and circular easings are only named.
  - For the same reason `parseInt` of very long numerals is exact, not rounded to a double.
- JavaScript's `undefined` and `NaN` as values:
  - a tree read of a missing path is an error value
  - `interpolate` of an empty array is `None`
  - a `NaN` rotation is `None`, with `hue2rgb`'s comparisons all false for it
- Tweening.Animate: rejects `from` and `to` of different shapes, where JavaScript would go on interpolating `undefined` to `NaN`.
- Tweening.Update: assumes every task was stamped no later than the frame, as `performance.now()` guarantees; callbacks that schedule new tasks during an `update` are not modelled.
- Tweening.UpdateCompletes: a completed task's `current` is not set to `to`, as in the source; only the callbacks carry `to`.
- Tweening.AnimateObject: the `target.source || target` indirection is not modelled. The target's own values are read and written.
- Tweening.Eases: the table holds only its own keys. `easings[name]` also finds the methods the object inherits from `Object.prototype` (`Easing.Inherited`): `constructor` eases linearly, `hasOwnProperty`, `isPrototypeOf` and `propertyIsEnumerable` give a frame of 0, and `toString`, `toLocaleString`, `valueOf`, `__lookupGetter__` and `__lookupSetter__` give `NaN` values. The model treats those names as missing, so they throw.
- Easing.KnownNamesEase: states the table's own keys only; the inherited `Object.prototype` methods of `Easing.Inherited` also give a frame in JavaScript.
- Tweening.UnknownEasingThrowsAtUpdate: excludes the inherited names of `Easing.Inherited`, which JavaScript calls without throwing.
- Pointer.Ndc: requires a positive window width and height, as a real window has.
- Hue.RotatePixels: requires the data length to be a multiple of four bytes and every item to be a byte, as `getImageData` returns.
- Hue.RotatePixels: uses the corrected `Hue.Pixel`. For a negative rotation its bytes are not those of `createCanvas` as written (see Findings). `Hue.PixelAgrees` proves them equal for every other rotation.
- Hue.FullTurnKeepsImage: holds for the corrected pixel. As written, whole turns keep the image for `k >= 0`, by `Hue.PixelAgrees`; a negative whole turn leaves the written hue in `(-1, 0]`, outside the range the corrected proof covers.
- Scroll.ClickOffset: for raw offsets of 5 to 8 slots the wrap goes the long way round (offset 5 scrolls 13 slots back). The model states congruence for all offsets and the short way only within four slots. The diamonds that far round lie behind the ellipse.
- The initial context index 0 does not match the initial rotation 17 (`17 mod 9 = 8`) until the first `setScroll`; the model keeps both initial values as written.
- `addScroll` sets `isScrolling` before its locked check, so a locked call leaves the wheel scrolling; the model keeps this.

## Findings

| source | as written | input that shows it | evidently intended | confidence | as-written member | corrected member |
|---|---|---|---|---|---|---|
| src/canvas/modules/HueLoader.js:63 | `h = (h + rotation / 360) % 1` keeps the sign of a negative sum, giving a hue in `(-1, 0]`; `hue2rgb` only adds one unit to `t`, so `t = h - 1/3` can stay negative | pixel (255, 128, 128) with input `image.png#-300`: as written it becomes (255, 255, 1); turning by +60 degrees, the same angle, gives (255, 255, 128) | wrap the turned hue into `[0, 1)` with a floor, so that every rotation congruent modulo 360 gives the same colour | not executed | Hue.NegativeTurnMiscolours | Hue.Turn |

The as-written rotation is `Hue.TurnAsWritten` inside `Hue.PixelAsWritten`. The corrected `Hue.Turn` and `Hue.Pixel` are proved to agree with it for non-negative rotations (`Hue.TurnAgrees`). They are also invariant under whole turns (`Hue.FullTurns`, `Hue.FullTurnKeepsImage`). `Hue.RotatePixels` uses the corrected pixel.
