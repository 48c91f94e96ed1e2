/**
 * The drag state machine of `mouse` and `motion`. Rotation is kept as
 * integer pixel sums; the source's angles are half of them, in degrees.
 */
module Interaction {

  // GLUT's button and button-state codes.
  const LEFT_BUTTON: int := 0
  const DOWN: int := 0

  /**
   * `pitchPixels` accumulates vertical motion (the rotation about x,
   * `angleX`), `yawPixels` horizontal motion (about y, `angleY`).
   */
  datatype DragState = DragState(dragging: bool, lastX: int, lastY: int, pitchPixels: int, yawPixels: int)

  /** At start-up: not dragging, anchor (0, 0), no rotation. */
  const INITIAL: DragState := DragState(false, 0, 0, 0, 0)

  /** The source's angle in degrees: 0.5 degrees per pixel. */
  function Degrees(pixels: int): (d: real)
    ensures 2.0 * d == pixels as real
  {
    pixels as real / 2.0
  }

  /** `mouse(button, state, x, y)`. */
  function Button(s: DragState, button: int, state: int, x: int, y: int): DragState {
    if button != LEFT_BUTTON then s
    else if state == DOWN then s.(dragging := true, lastX := x, lastY := y)
    else s.(dragging := false)
  }

  /** `motion(x, y)`: the new state and whether a redraw is requested. */
  function Motion(s: DragState, x: int, y: int): (DragState, bool) {
    if !s.dragging then (s, false)
    else (s.(yawPixels := s.yawPixels + (x - s.lastX), pitchPixels := s.pitchPixels + (y - s.lastY),
             lastX := x, lastY := y), true)
  }

  datatype PointerEvent = Press(button: int, state: int, x: int, y: int) | Move(x: int, y: int)

  /** The state after a sequence of pointer callbacks. */
  function Replay(s: DragState, events: seq<PointerEvent>): DragState
    decreases |events|
  {
    if events == [] then s
    else
      var s' := match events[0]
        case Press(b, st, x, y) => Button(s, b, st, x, y)
        case Move(x, y) => Motion(s, x, y).0;
      Replay(s', events[1..])
  }

  predicate AllMoves(events: seq<PointerEvent>) {
    forall k :: 0 <= k < |events| ==> events[k].Move?
  }

  /** A left press starts a drag anchored at the pointer, keeping the rotation. */
  lemma PressAnchors(s: DragState, x: int, y: int)
    ensures Button(s, LEFT_BUTTON, DOWN, x, y)
         == DragState(true, x, y, s.pitchPixels, s.yawPixels)
  {
  }

  /** Any other state of the left button ends the drag and keeps everything else. */
  lemma ReleaseStops(s: DragState, state: int, x: int, y: int)
    requires state != DOWN
    ensures Button(s, LEFT_BUTTON, state, x, y) == s.(dragging := false)
  {
  }

  /** Motion redraws exactly while dragging, and changes nothing otherwise. */
  lemma MotionRedrawsWhileDragging(s: DragState, x: int, y: int)
    ensures Motion(s, x, y).1 <==> s.dragging
    ensures !s.dragging ==> Motion(s, x, y).0 == s
    ensures s.dragging ==> Motion(s, x, y).0.dragging && Motion(s, x, y).0.lastX == x && Motion(s, x, y).0.lastY == y
  {
  }

  /**
   * The angles in degrees as `motion` updates them: while dragging, each
   * grows by half a degree per pixel the pointer moved since the anchor.
   */
  lemma MotionDegrees(s: DragState, x: int, y: int)
    requires s.dragging
    ensures Degrees(Motion(s, x, y).0.yawPixels) == Degrees(s.yawPixels) + (x - s.lastX) as real * 0.5
    ensures Degrees(Motion(s, x, y).0.pitchPixels) == Degrees(s.pitchPixels) + (y - s.lastY) as real * 0.5
  {
  }

  /** While not dragging, any amount of motion changes nothing. */
  lemma {:induction false} IdleIgnoresMotion(s: DragState, moves: seq<PointerEvent>)
    requires !s.dragging && AllMoves(moves)
    ensures Replay(s, moves) == s
  {
    if moves != [] {
      IdleIgnoresMotion(s, moves[1..]);
    }
  }

  /**
   * The drag telescopes: after motion events while dragging, the rotation has
   * grown by the last position minus the anchor, and the anchor is the last
   * position.
   */
  lemma {:induction false} DragTelescopes(s: DragState, moves: seq<PointerEvent>)
    requires s.dragging && AllMoves(moves) && |moves| > 0
    ensures var last := moves[|moves| - 1];
      Replay(s, moves) == DragState(true, last.x, last.y,
        s.pitchPixels + (last.y - s.lastY), s.yawPixels + (last.x - s.lastX))
    decreases |moves|
  {
    if |moves| > 1 {
      DragTelescopes(Motion(s, moves[0].x, moves[0].y).0, moves[1..]);
    }
  }

  /** A whole drag: press at (x0, y0), then move; the rotation grows by the final position minus (x0, y0). */
  lemma PressAndDrag(s: DragState, x0: int, y0: int, moves: seq<PointerEvent>)
    requires AllMoves(moves) && |moves| > 0
    ensures var last, r := moves[|moves| - 1], Replay(s, [Press(LEFT_BUTTON, DOWN, x0, y0)] + moves);
      && r.yawPixels == s.yawPixels + (last.x - x0)
      && r.pitchPixels == s.pitchPixels + (last.y - y0)
  {
    assert ([Press(LEFT_BUTTON, DOWN, x0, y0)] + moves)[1..] == moves;
    DragTelescopes(Button(s, LEFT_BUTTON, DOWN, x0, y0), moves);
  }

  /** Releasing the left button and then moving leaves the rotation where it was. */
  lemma ReleaseThenMove(s: DragState, state: int, x: int, y: int, moves: seq<PointerEvent>)
    requires state != DOWN && AllMoves(moves)
    ensures Replay(s, [Press(LEFT_BUTTON, state, x, y)] + moves) == s.(dragging := false)
  {
    assert ([Press(LEFT_BUTTON, state, x, y)] + moves)[1..] == moves;
    IdleIgnoresMotion(s.(dragging := false), moves);
  }

  /** Buttons other than the left one are ignored. */
  lemma OtherButtonsIgnored(s: DragState, button: int, state: int, x: int, y: int, rest: seq<PointerEvent>)
    requires button != LEFT_BUTTON
    ensures Replay(s, [Press(button, state, x, y)] + rest) == Replay(s, rest)
  {
    assert ([Press(button, state, x, y)] + rest)[1..] == rest;
  }
}
