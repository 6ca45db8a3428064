# Allelo board presentation model

A Dafny model of the presentation core of the Allelo board web component
(`allelo-board.js`). The board draws Go-like stones as GPU-rendered discs on a
`W` by `H` grid, animates a newly placed stone growing in and captured stones
shrinking out, keeps an SVG "leaf" overlay in step with the board, and reports
clicks to registered listeners as 1-based board coordinates. The older
single-phase renderer `PuyoGoBoard` (`puyo-go.js`) is modelled as well. It only
grows the new stone.

The modules follow the program's structure:

- `Geometry` (`geometry.dfy`) covers the cell-index formulas `xyToPoint` and
  `pointToXy`, the click-coordinate formula of `clickHandler`, the leaf ids the
  element creates, and the nominal stone radius `stoneSize`.
- `Listeners` (`listeners.dfy`) covers `indexOf` and `removeElement` on a
  handler list.
- `Animation` (`animation.dfy`) covers the frame and phase logic of
  `drawStone`:
  - the working copy with recoloured captures;
  - the per-tick frame of the grow, decline and immediate draws;
  - the "draw, then go on iff elapsed ≤ 500 ms" rule;
  - the order: grow or immediate draw, then `updateLeaves`, then decline.

  `Timeline` is the reference schedule of one `drawStone` call. The lemmas
  about `Timeline` state what the source promises.
- `Allelo` (`allelo_board.dfy`) holds the class `AlleloBoard`:
  - its listener registry, a `map` from event type to an ordered handler
    list;
  - its leaf overlay, a `seq` of `Hidden`/`Dark`/`Light`;
  - the methods `AddEventListener`, `RemoveEventListener`, `ClickHandler`,
    `UpdateLeaves` and `DrawStone`.
- `PuyoGo` (`puyo_go.dfy`) holds the class `PuyoGoBoard`, the `addStone`
  frame loop and its radius schedule.

Outside effects become data:

- The clock (`Date.now()`) is a parameter: the sequence of readings, taken in
  order.
- Each GPU upload is recorded as a `Draw` event holding the per-cell radii.
- Each `updateLeaves` call inside `drawStone` is recorded as a `Refresh` event.
- Listener calls are returned as `Call(handler, x, y)` values, in order.
- `requestAnimationFrame` becomes the loop going on to the next reading.

A phase whose readings run out leaves the call pending: `completed` is false.
Radii are exact `real`s. Indices are unbounded integers. JavaScript's `%` is
modelled by `JsRem`, whose remainder takes the sign of the dividend.

Two points of behaviour, where the model follows the code:

- Capture colour. The code writes every removed stone into the working copy as
  `-color`, unless the added index is itself among the removed ones, in which
  case it writes `color` (`Animation.WorkingCopy`). If callers pass the placed
  stone's colour as `color`, each removed stone is drawn in its own colour
  while it shrinks. Whether it is instead meant to take the capturing stone's
  colour depends on what callers pass, and that caller code is not part of this
  model, so it stays an open question.
- Overlay timing. The code calls `updateLeaves(boardState)` once, after the
  grow phase (or the immediate draw) and before the decline phase, not at the
  end of the animation (`Animation.TimelineRefreshesOnce`).

## Model

| member | source | states |
|---|---|---|
| Geometry.JsRem | allelo-board.js:99 | JavaScript `%` for a positive divisor: the result lies in [0, b) for a non-negative dividend and in (-b, 0] for a negative one, and it is the dividend minus the divisor times the quotient truncated toward zero |
| Geometry.XyToPoint | allelo-board.js:94-96 | definition; properties in `Geometry.XyToPointInRange` and `Geometry.XyToPointInjective` |
| Geometry.XyToPointInRange | allelo-board.js:94-96 | every on-board coordinate 1 ≤ x ≤ W, 1 ≤ y ≤ H lands in [0, W·H) |
| Geometry.XyToPointInjective | allelo-board.js:94-96 | two on-board coordinates with the same index are equal, so `xyToPoint` is one-to-one on the board |
| Geometry.PointToXy | allelo-board.js:98-102 | `pointToXy` as written: `xyToPoint(pointToXy(p)) == p` for every p, and for p ≥ 0 the second component lies in 1..W |
| Geometry.PointToXyMisplacesCell | allelo-board.js:98-102 | cell (3, 2) of a 3-wide board has index 5, and `pointToXy` sends 5 to (0, 3), which is off the board |
| Geometry.PointToXyIntended | allelo-board.js:98-102 | with floor division for the row, the pair still undoes `xyToPoint`, and for p ≥ 0 the column lies in 1..W and the row is ≥ 1 |
| Geometry.PointToXyIntendedInverse | allelo-board.js:94-102 | the corrected inverse sends `xyToPoint(x, y)` back to (x, y) on the board and maps every index in [0, W·H) onto the board |
| Geometry.LeafIds | allelo-board.js:386-389 | the leaf ids made by the row-by-row, then column-by-column loop are exactly 0, 1, …, W·H − 1 in creation order, W·H of them |
| Geometry.ClickCoordinate | allelo-board.js:208-209 | definition; properties in `Geometry.ClickCoordinateInRange` and `Geometry.ClickCoordinateEdges` |
| Geometry.ClickCoordinateInRange | allelo-board.js:208-209 | an offset 0 ≤ off < size maps to a coordinate in 1..n |
| Geometry.ClickCoordinateEdges | allelo-board.js:208-209 | offset 0 maps to 1; offset size − 1 maps to n when there is at least one pixel per cell; offset size maps to n + 1, since the mapping does not clamp |
| Geometry.StoneSize | allelo-board.js:89 | twice the radius is at most the cell width and at most the cell height, and equals one of them; non-negative canvas sizes give a non-negative radius |
| Listeners.IndexOf | allelo-board.js:2 | the result is −1 iff the element is absent; otherwise it is the first position holding the element |
| Listeners.RemoveElement | allelo-board.js:1-7 | an absent element leaves the list unchanged; otherwise the list loses exactly one copy of the element (one fewer entry, multiset less one copy) |
| Listeners.RemoveElementPositions | allelo-board.js:1-7 | the removed copy is the first occurrence: the entries before it stay in place and none of them is the element, and the entries after it shift down by one |
| Listeners.RemoveElementUndoesAppend | allelo-board.js:1-7 | removing an element just appended to a list that did not hold it gives back the list |
| Allelo.AddThenRemoveRestores | allelo-board.js:187-203 | registering a handler that was not registered for a type and then removing it restores that type's list |
| Allelo.AlleloBoard.constructor | allelo-board.js:89 | a new board has the given dimensions, the `stoneSize` radius and no listeners; every leaf starts hidden, as the element creates each leaf with display none (line 392) |
| Allelo.AlleloBoard.AddEventListener | allelo-board.js:187-192 | the handler is appended at the end of the type's list, which is created if missing; every other type is unchanged |
| Allelo.AlleloBoard.RemoveEventListener | allelo-board.js:194-203 | an unregistered type changes nothing; a given handler loses its first occurrence (`RemoveElement`); an omitted handler empties the type's list; other types are unchanged |
| Allelo.AlleloBoard.ClickHandler | allelo-board.js:205-215 | every "click" listener is called once, in registration order, with the same (x, y) given by the click mapping; no calls when none is registered |
| Allelo.AlleloBoard.UpdateLeaves | allelo-board.js:175-185 | the overlay becomes `Overlay(state, W·H)`, which depends on the snapshot alone |
| Allelo.AlleloBoard.DrawStone | allelo-board.js:107-173 | the events and completion are those of `Timeline` for the caller's snapshot; `boardState` is only read; the overlay is refreshed from the snapshot once the grow phase (or immediate draw) is over and is untouched otherwise |
| Animation.LeafOf | allelo-board.js:178-183 | one leaf is dark iff its value is > 0, light iff < 0, hidden iff = 0 |
| Animation.Overlay | allelo-board.js:175-185 | for each i in [0, W·H): leaf i is dark iff `state[i] > 0`, light iff `state[i] < 0`, hidden iff `state[i] == 0` or the snapshot is shorter than i + 1 |
| Animation.OverlayIsPointwise | allelo-board.js:175-185 | leaf i depends only on `state[i]` |
| Animation.GrowFactor | allelo-board.js:127 | `min(t/500, 1)` is at most 1, is 1 from t = 500 on, and is ≥ 0 for t ≥ 0 |
| Animation.GrowFactorMonotone | allelo-board.js:127 | the grow factor is non-decreasing in elapsed time |
| Animation.DeclineFactor | allelo-board.js:158 | `max((500 − t)/500, 0)` is ≥ 0, is 0 from t = 500 on, and is at most 1 for t ≥ 0 |
| Animation.DeclineFactorMonotone | allelo-board.js:158 | the decline factor is non-increasing in elapsed time |
| Animation.FrameAt | allelo-board.js:125-161 | definition of the data one tick uploads, for the grow tick (lines 125-130), the immediate draw (lines 142-145) and the decline tick (lines 156-161); properties in `Animation.GrowFrameEntries`, `Animation.DeclineFrameEntries` and `Animation.ComputeFrame` |
| Animation.ComputeFrame | allelo-board.js:125-130 | the filled buffer has one entry per cell, entry i being the working-copy value times that cell's radius at the tick's elapsed time |
| Animation.Ticks | allelo-board.js:133-137 | definition; properties in `Animation.TicksSpec` and `Animation.TicksNonDecreasing` |
| Animation.TicksSpec | allelo-board.js:122-139 | a phase takes one reading per frame and at least one if any is left; frame j is at `clock[from + j] − start`; every frame but the last is at ≤ 500 ms; the phase ends on a frame past 500 ms or when the readings run out |
| Animation.TicksNonDecreasing | allelo-board.js:126 | with readings that never go back, successive elapsed times never go back |
| Animation.PhaseRun | allelo-board.js:122-171 | the schedule of both the grow phase (lines 122-140) and the decline phase (lines 151-171): a phase with no start reading draws nothing and does not finish; otherwise it uses the start reading plus one reading per frame, within the clock |
| Animation.RunPhase | allelo-board.js:122-171 | the grow loop (lines 122-140) and, as `DrawStone` runs it again, the decline loop (lines 151-171): the loop that reads the start time and re-arms the tick computes exactly `PhaseRun`: its frames, the next unread reading, and whether it finished |
| Animation.PhaseRunFrame | allelo-board.js:124-138 | frame j is the tick at `clock[k + 1 + j] − clock[k]`; every frame but the last is within 500 ms; the last frame of a finished phase is past 500 ms |
| Animation.GrowEndsAtFullSize | allelo-board.js:127-136 | a finished grow phase has at least one frame, and its last frame shows the added stone at full radius |
| Animation.DeclineEndsAtZero | allelo-board.js:158-167 | a finished decline phase has at least one frame, and its last frame shows every removed stone at radius 0 |
| Animation.Recolour | allelo-board.js:110-120 | definition; properties in `Animation.WorkingCopy` |
| Animation.WorkingCopy | allelo-board.js:110-120 | the copy has the snapshot's length; cells not removed keep their value; every removed cell holds `color` if the added index is among the removed ones and `-color` otherwise |
| Animation.GrowFrameEntries | allelo-board.js:128-130 | a grow tick shows every cell at full radius except the added one, which is scaled by `min(t/500, 1)` and is full from t = 500 on |
| Animation.DeclineFrameEntries | allelo-board.js:159-161 | a decline tick shows the removed cells scaled by `max((500 − t)/500, 0)`, which is 0 from t = 500 on, and every other cell at full radius |
| Animation.GrowRun | allelo-board.js:121-148 | definition of the grow-or-immediate branch; properties in `Animation.TimelineGrowFrames`, `Animation.TimelineImmediateDraw`, `Animation.GrowEndsAtFullSize` and `Animation.TimelineRefreshesOnce` |
| Animation.Timeline | allelo-board.js:107-173 | definition; properties in `Animation.TimelineRefreshesOnce`, `Animation.TimelineGrowFrames`, `Animation.TimelineImmediateDraw`, `Animation.TimelineNoDeclineWithoutRemovals` and `Animation.TimelineDeclineFrames` |
| Animation.TimelineRefreshesOnce | allelo-board.js:121-172 | `updateLeaves` runs once, with the caller's snapshot, right after the last grow (or immediate) frame, and never if that phase does not finish; a call completes only if it got that far; the trace holds only the grow frames, that refresh and the decline frames |
| Animation.TimelineGrowFrames | allelo-board.js:121-140 | trace entry j is grow frame j at the time since the grow phase began; every frame but the last is at ≤ 500 ms and the last of a finished grow is past 500 ms |
| Animation.TimelineImmediateDraw | allelo-board.js:141-149 | with no added stone, one frame at full radius is drawn, then the overlay is refreshed |
| Animation.TimelineNoDeclineWithoutRemovals | allelo-board.js:150 | without removed indices nothing follows the refresh, and a finished grow completes the call |
| Animation.TimelineDeclineFrames | allelo-board.js:150-172 | after the refresh, trace entries are the decline frames at the time since the decline began; every frame but the last is at ≤ 500 ms and the last frame of a completed call is past 500 ms |
| PuyoGo.Delta | puyo-go.js:82 | definition of `deltaStone`; properties in `PuyoGo.StoneAtSteps` |
| PuyoGo.StoneAt | puyo-go.js:82-83 | definition; properties in `PuyoGo.StoneAtSteps` and `PuyoGo.StoneAtWithinSize` |
| PuyoGo.StoneAtSteps | puyo-go.js:82-83 | the first frame draws the stone at `stoneSize/50`, each later frame adds exactly `deltaStone`, and the values strictly increase for a positive radius |
| PuyoGo.StoneAtWithinSize | puyo-go.js:93-96 | for a positive radius, the value of frame n is within `stoneSize` iff n < 50 |
| PuyoGo.Reschedules | puyo-go.js:93-96 | definition; properties in `PuyoGo.ZeroSizeReschedulesForever` |
| PuyoGo.ReschedulesGuarded | puyo-go.js:93-96 | definition; properties in `PuyoGo.ReschedulesGuardedBounded` |
| PuyoGo.ZeroSizeReschedulesForever | puyo-go.js:93-96 | with `stoneSize == 0` the source's test re-arms the step after every frame |
| PuyoGo.ReschedulesGuardedBounded | puyo-go.js:93-96 | the guarded test agrees with the source's for a positive radius and allows at most 50 frames for every radius |
| PuyoGo.Frame | puyo-go.js:87-90 | definition; properties in `PuyoGo.FramesEntries` and `PuyoGo.PuyoGoBoard.Step` |
| PuyoGo.Frames | puyo-go.js:84-98 | definition of the frames `addStone` draws; properties in `PuyoGo.FramesEntries` and `PuyoGo.PuyoGoBoard.AddStone` |
| PuyoGo.FramesEntries | puyo-go.js:87-90 | each frame has `boardState.length` entries: the stone at `index` at `boardState[index]·newStone`, every other cell at `boardState[i]·stoneSize`; for a positive radius `newStone ≤ stoneSize` in every frame and equals it in the last |
| PuyoGo.PuyoGoBoard.constructor | puyo-go.js:77 | the radius is `min(width/W, height/H)/2`, the same formula as `Geometry.StoneSize` |
| PuyoGo.PuyoGoBoard.Step | puyo-go.js:87-90 | one step fills a fresh buffer as `Frame` at the current `newStone` |
| PuyoGo.PuyoGoBoard.AddStone | puyo-go.js:80-99 | 50 frames for a positive radius, one frame otherwise; frame n is `Frame` at `newStone = (n + 1)·stoneSize/50`; `boardState` is only read |

## Left out

- WebGL: shader compilation, buffers, uniforms and the fragment shader's per-pixel disc rendering. They are foreign API calls and float GPU code, so a frame is recorded as the data it uploads.
- The DOM and the custom-element lifecycle. This covers the shadow root, SVG leaf creation, canvas intersection drawing, attribute callbacks, `getBoundingClientRect` and `offsetWidth`. The click handler takes the pointer offset and the surface size as inputs instead.
- `Date.now`, `requestAnimationFrame`, Promises and `async` are replaced by a sequence of clock readings, so the model does not interleave two concurrent `drawStone` calls.
- `Float32Array` rounding. Radii are exact reals.
- `puyoRemoveStones` is empty in the source, so there is nothing to model.
- The test harness pages depend on code that is not part of this model.
- Listeners.RemoveElement: modelled as a function on the list value that `RemoveEventListener` stores back. The in-place `splice` is not modelled, and neither is the aliasing of that array with one `clickHandler` may be iterating.
- Allelo.AlleloBoard.ClickHandler: requires a surface of positive size. JavaScript would divide by zero and produce an infinite or NaN coordinate.
- Allelo.AlleloBoard.ClickHandler: listeners are returned as calls, not run. A listener that throws (there is no try/catch, so later listeners would not run) or that changes the registry during dispatch is not modelled.
- Allelo.AlleloBoard.AddEventListener: event types are plain map keys. Names that collide with properties JavaScript objects inherit, such as "toString", are not modelled.
- Allelo.AlleloBoard.DrawStone: requires every removed index to be below the snapshot's length, because a larger index would grow the JavaScript array. A negative removed index sets a property rather than an element, so it changes no cell.
- Allelo.AlleloBoard.DrawStone: cell values are reals and the added index is an integer or absent. NaN values and non-integer indices are not modelled.
- Allelo.AlleloBoard.DrawStone: a phase that runs out of clock readings reports `completed = false` rather than staying pending forever.
- PuyoGo.PuyoGoBoard.AddStone: re-arms only while the stone still grows (`newStone <= stoneSize && deltaStone > 0`). For `stoneSize == 0` it therefore draws one frame, where the source draws forever (see Findings).
- PuyoGo.PuyoGoBoard.AddStone: the frame count of 50 and the last frame's radius equal to `stoneSize` are exact-arithmetic values. In the source's double arithmetic `stoneSize * 0.02` is inexact and `newStone += deltaStone` drifts, so the source can stop one frame early, with the last stone below `stoneSize`. For example, `stoneSize = 15` gives 49 frames ending at about 14.7. The same caveat applies to PuyoGo.FramesEntries and PuyoGo.StoneAtWithinSize.

## Findings

| source | as written | input that shows it | evidently intended | confidence | as-written member | corrected member |
|---|---|---|---|---|---|---|
| allelo-board.js:98-102 | `pointToXy` takes the row as `p % W`, so its first component is `p − (p % W)·W` | W = 3, p = 5 (the cell (3, 2)) gives (0, 3), which is off the board | row `floor(p / W)`, making `pointToXy` the inverse of `xyToPoint` on the board | high, not executed | Geometry.PointToXy, Geometry.PointToXyMisplacesCell | Geometry.PointToXyIntended, Geometry.PointToXyIntendedInverse |
| puyo-go.js:82-96 | the step re-arms while `newStone <= stoneSize`, and `newStone` grows by `stoneSize * 0.02` | a canvas of zero width or height gives `stoneSize = 0`: each test reads 0 ≤ 0, so frames are requested forever | stop once the stone stops growing, at most 50 frames | medium, not executed | PuyoGo.Reschedules, PuyoGo.ZeroSizeReschedulesForever | PuyoGo.ReschedulesGuarded, PuyoGo.ReschedulesGuardedBounded, PuyoGo.PuyoGoBoard.AddStone |
