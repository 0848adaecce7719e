/**
 * The drag resolver of `attachDragEvents`: a press records the pointer and
 * the box's top, each move puts the box at the snapped and clamped
 * `startTop + delta`, and a release ends the gesture and commits the top as
 * the task's new start. Touch and mouse handlers share this logic.
 */
module Drag {
  import opened Grid

  /** `Math.max(0, Math.min(n, maxTop))`: `n` clamped into [0, maxTop], and 0 when maxTop < 0. */
  function ClampTop(n: int, maxTop: int): (r: int)
    ensures r >= 0 && (maxTop >= 0 ==> r <= maxTop)
    ensures 0 <= n <= maxTop ==> r == n
    ensures n < 0 || maxTop < 0 ==> r == 0
    ensures 0 <= maxTop < n ==> r == maxTop
  {
    var m := if n < maxTop then n else maxTop;
    if 0 < m then m else 0
  }

  /**
   * The new top of a move: `startTop + deltaY` snapped to the nearest
   * multiple of 15 (`Math.round(newTop / 15) * 15`) and then clamped.
   */
  function MoveTop(startTop: int, delta: int, maxTop: int): int
  {
    ClampTop(Snap(startTop + delta), maxTop)
  }

  /**
   * A move always lands inside [0, max(0, maxTop)], on the grid unless it is
   * held at an off-grid bottom bound; a raw position below the top of the
   * day lands at 0, one past the bottom at `maxTop`.
   */
  lemma MoveTopBounds(startTop: int, delta: int, maxTop: int)
    ensures var r := MoveTop(startTop, delta, maxTop);
      && r >= 0 && (maxTop >= 0 ==> r <= maxTop)
      && (r % Step == 0 || r == maxTop)
      && (startTop + delta < 0 ==> r == 0)
      && (maxTop >= 0 && maxTop % Step == 0 && startTop + delta > maxTop ==> r == maxTop)
  {
    var n := startTop + delta;
    var s := Snap(n);
    if n < 0 {
      assert s <= 0 by {
        DistinctMultiples(s, 0);
      }
    }
    if maxTop >= 0 && maxTop % Step == 0 && n > maxTop {
      assert s >= maxTop by {
        DistinctMultiples(s, maxTop);
      }
    }
  }

  /** Two multiples of the step are equal or at least a step apart. */
  lemma DistinctMultiples(a: int, b: int)
    requires a % Step == 0 && b % Step == 0
    ensures a == b || a - b >= Step || b - a >= Step
  {
    var q := (a - b) / Step;
    assert a - b == Step * q;
  }

  /** Re-applying a move with no pointer movement to a resolved top leaves it where it is. */
  lemma MoveTopIdempotent(startTop: int, delta: int, maxTop: int)
    requires maxTop < 0 || maxTop % Step == 0
    ensures var r := MoveTop(startTop, delta, maxTop);
      MoveTop(r, 0, maxTop) == r
  {
    var r := MoveTop(startTop, delta, maxTop);
    MoveTopBounds(startTop, delta, maxTop);
    SnapOfMultiple(r);
  }

  /** A pointer that moves by less than half a step leaves a grid top where it was. */
  lemma SmallMoveSnapsBack(startTop: int, delta: int, maxTop: int)
    requires startTop % Step == 0 && 0 <= startTop <= maxTop
    requires -2 * delta < Step && 2 * delta < Step
    ensures MoveTop(startTop, delta, maxTop) == startTop
  {
    var s := Snap(startTop + delta);
    DistinctMultiples(s, startTop);
  }

  // ---- The gesture state machine ---------------------------------------------

  /**
   * The closure state of one box's handlers (`isDragging`, `startY`,
   * `startTop`) and the box's current `style.top`.
   */
  datatype Gesture = Gesture(dragging: bool, startY: int, startTop: int, top: int)

  /** Pointer events: touchstart/mousedown, touchmove/mousemove, touchend/mouseup. */
  datatype Event = Press(y: int) | Move(y: int) | Release

  /** A press starts a gesture at pointer `y`, remembering the current top (`parseInt(top) || 0`). */
  function OnPress(g: Gesture, y: int): (r: Gesture)
    ensures r.dragging && r.startY == y && r.startTop == g.top && r.top == g.top
  {
    Gesture(true, y, g.top, g.top)
  }

  /** A move while dragging puts the box at the resolved top; otherwise it is ignored. */
  function OnMove(g: Gesture, y: int, maxTop: int): (r: Gesture)
    ensures !g.dragging ==> r == g
    ensures g.dragging ==> r == g.(top := MoveTop(g.startTop, y - g.startY, maxTop))
  {
    if !g.dragging then g else g.(top := MoveTop(g.startTop, y - g.startY, maxTop))
  }

  /**
   * A release while dragging ends the gesture and commits the current top;
   * otherwise it is ignored and commits nothing.
   */
  function OnRelease(g: Gesture): (r: (Gesture, Option<int>))
    ensures !r.0.dragging
    ensures !g.dragging ==> r == (g, None)
    ensures g.dragging ==> r.1 == Some(g.top) && r.0 == g.(dragging := false)
  {
    if !g.dragging then (g, None) else (g.(dragging := false), Some(g.top))
  }

  /** One event, with the drag bound `maxTop` of the moment it arrives. */
  function StepEvent(g: Gesture, e: Event, maxTop: int): (Gesture, Option<int>)
  {
    match e
    case Press(y) => (OnPress(g, y), None)
    case Move(y) => (OnMove(g, y, maxTop), None)
    case Release => OnRelease(g)
  }

  /** A stream of events: the final state and the tops committed, in order. */
  function Run(g: Gesture, events: seq<Event>, maxTop: int): (Gesture, seq<int>)
    decreases |events|
  {
    if events == [] then (g, [])
    else
      var step := StepEvent(g, events[0], maxTop);
      var rest := Run(step.0, events[1..], maxTop);
      (rest.0, (if step.1.Some? then [step.1.value] else []) + rest.1)
  }

  /** Without a press, an idle box ignores every move and release and commits nothing. */
  lemma {:induction false} IdleIgnores(g: Gesture, events: seq<Event>, maxTop: int)
    requires !g.dragging
    requires forall k :: 0 <= k < |events| ==> !events[k].Press?
    ensures Run(g, events, maxTop) == (g, [])
    decreases |events|
  {
    if events != [] {
      assert StepEvent(g, events[0], maxTop) == (g, None);
      IdleIgnores(g, events[1..], maxTop);
      var empty: seq<int> := [];
      assert empty + empty == empty;
    }
  }

  /**
   * Within a day that has room for the task (maxTop >= 0), a gesture whose
   * box starts inside the day keeps it there and commits only tops inside
   * [0, maxTop].
   */
  lemma {:induction false} CommitsInRange(g: Gesture, events: seq<Event>, maxTop: int)
    requires 0 <= g.top <= maxTop
    ensures 0 <= Run(g, events, maxTop).0.top <= maxTop
    ensures forall k :: 0 <= k < |Run(g, events, maxTop).1| ==> 0 <= Run(g, events, maxTop).1[k] <= maxTop
    decreases |events|
  {
    if events != [] {
      var g1 := StepEvent(g, events[0], maxTop).0;
      assert 0 <= g1.top <= maxTop by {
        if events[0].Move? && g.dragging {
          MoveTopBounds(g.startTop, events[0].y - g.startY, maxTop);
        }
      }
      CommitsInRange(g1, events[1..], maxTop);
    }
  }

  /** A press, one move and a release commit exactly the resolved top of that move. */
  lemma PressMoveRelease(g: Gesture, y0: int, y1: int, maxTop: int)
    ensures Run(g, [Press(y0), Move(y1), Release], maxTop)
      == (Gesture(false, y0, g.top, MoveTop(g.top, y1 - y0, maxTop)), [MoveTop(g.top, y1 - y0, maxTop)])
  {
    var top := MoveTop(g.top, y1 - y0, maxTop);
    var g1 := Gesture(true, y0, g.top, g.top);
    var g2 := g1.(top := top);
    var g3 := g2.(dragging := false);
    assert Run(g3, [], maxTop) == (g3, []);
    assert [Release][1..] == [];
    assert [top] + [] == [top];
    assert Run(g2, [Release], maxTop) == (g3, [top]);
    assert [Move(y1), Release][1..] == [Release];
    var none: seq<int> := [];
    assert none + [top] == [top];
    assert Run(g1, [Move(y1), Release], maxTop) == (g3, [top]);
    assert [Press(y0), Move(y1), Release][1..] == [Move(y1), Release];
  }
}
