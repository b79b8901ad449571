/**
 * The gesture classifier of the swipe deck: the arithmetic that the card's
 * `panmove` and `panend` handlers perform on the drag deltas reported by the
 * pan recogniser. Deltas, rotations and opacities are modelled as `real`.
 */
module Gesture {

  /** A release whose horizontal distance exceeds this commits the card. */
  const COMMIT_THRESHOLD: real := 110.0
  /** During a drag the card is rotated by dx / ROTATION_DIVISOR degrees. */
  const ROTATION_DIVISOR: real := 18.0
  /** A label reaches full opacity once the drag covers this distance. */
  const OPACITY_DIVISOR: real := 120.0
  /** A committed card leaves the screen rotated by this many degrees. */
  const EXIT_ROTATION: real := 30.0

  function Abs(x: real): real { if x < 0.0 then -x else x }

  function Min(a: real, b: real): real { if a <= b then a else b }

  /** What the card shows while it is being dragged. */
  datatype Feedback = Feedback(
    translateX: real,
    translateY: real,
    rotation: real,
    likeOpacity: real,
    dislikeOpacity: real)

  /** The rest position a card snaps back to: no transform, both labels hidden. */
  function Rest(): Feedback { Feedback(0.0, 0.0, 0.0, 0.0, 0.0) }

  /** Where a committed card is sent: off-screen horizontally, with a fixed tilt. */
  datatype Exit = Exit(x: real, y: real, rotation: real)

  /** The outcome of releasing a dragged card. */
  datatype Release =
    | Commit(isLike: bool, exit: Exit)
    | SnapBack(visual: Feedback)

  /**
   * Feedback for one `panmove` sample: the card follows the finger, rotates
   * with the horizontal delta, and shows the label of the side it is
   * dragged towards, with an opacity that grows with the distance and
   * saturates at 1.
   */
  function DragFeedback(dx: real, dy: real): (f: Feedback)
    ensures f.translateX == dx && f.translateY == dy
    ensures f.rotation * ROTATION_DIVISOR == dx
    ensures 0.0 <= f.likeOpacity <= 1.0 && 0.0 <= f.dislikeOpacity <= 1.0
    ensures f.likeOpacity > 0.0 <==> dx > 0.0
    ensures f.dislikeOpacity > 0.0 <==> dx < 0.0
    ensures f.likeOpacity == 0.0 || f.dislikeOpacity == 0.0
    ensures f.likeOpacity == 1.0 <==> dx >= OPACITY_DIVISOR
    ensures f.dislikeOpacity == 1.0 <==> dx <= -OPACITY_DIVISOR
    ensures 0.0 < dx < OPACITY_DIVISOR ==> f.likeOpacity * OPACITY_DIVISOR == dx
    ensures -OPACITY_DIVISOR < dx < 0.0 ==> f.dislikeOpacity * OPACITY_DIVISOR == -dx
  {
    Feedback(
      dx,
      dy,
      dx / ROTATION_DIVISOR,
      if dx > 0.0 then Min(dx / OPACITY_DIVISOR, 1.0) else 0.0,
      if dx < 0.0 then Min(-dx / OPACITY_DIVISOR, 1.0) else 0.0)
  }

  /**
   * The exit trajectory shared by a drag that commits and a button swipe:
   * one viewport width to the right for a like, to the left for a dislike,
   * rotated by the exit angle in the same direction.
   */
  function ExitTrajectory(isLike: bool, dy: real, width: real): (e: Exit)
    requires width > 0.0
    ensures Abs(e.x) == width && (e.x > 0.0 <==> isLike)
    ensures Abs(e.rotation) == EXIT_ROTATION && (e.rotation > 0.0 <==> isLike)
    ensures e.y == dy
  {
    Exit(if isLike then width else -width, dy, if isLike then EXIT_ROTATION else -EXIT_ROTATION)
  }

  /** The trajectory of a button swipe: the same as a drag's, with no vertical offset. */
  function ButtonExit(isLike: bool, width: real): (e: Exit)
    requires width > 0.0
    ensures Abs(e.x) == width && (e.x > 0.0 <==> isLike)
    ensures Abs(e.rotation) == EXIT_ROTATION && (e.rotation > 0.0 <==> isLike)
    ensures e.y == 0.0
  {
    ExitTrajectory(isLike, 0.0, width)
  }

  /**
   * The `panend` decision: a release farther than the threshold commits in
   * the direction of the drag; anything else snaps the card back to rest.
   */
  function Classify(dx: real, dy: real, width: real): (r: Release)
    requires width > 0.0
    ensures r.Commit? <==> Abs(dx) > COMMIT_THRESHOLD
    ensures r.Commit? ==> (r.isLike <==> dx > 0.0) && r.exit == ExitTrajectory(r.isLike, dy, width)
    ensures r.SnapBack? ==> r.visual == Rest()
  {
    if Abs(dx) > COMMIT_THRESHOLD then
      var isLike := dx > 0.0;
      Commit(isLike, ExitTrajectory(isLike, dy, width))
    else
      SnapBack(Rest())
  }

  /**
   * Dragging to the left is the mirror image of dragging to the right: the
   * labels swap, the rotation changes sign, and a release commits in the
   * opposite direction along the mirrored trajectory.
   */
  lemma Mirror(dx: real, dy: real, width: real)
    requires width > 0.0
    ensures var f, g := DragFeedback(dx, dy), DragFeedback(-dx, dy);
      g.translateX == -f.translateX && g.translateY == f.translateY && g.rotation == -f.rotation &&
      g.likeOpacity == f.dislikeOpacity && g.dislikeOpacity == f.likeOpacity
    ensures var r, s := Classify(dx, dy, width), Classify(-dx, dy, width);
      (r.Commit? <==> s.Commit?) &&
      (r.Commit? ==>
        s.isLike == !r.isLike && s.exit == Exit(-r.exit.x, r.exit.y, -r.exit.rotation))
  {
  }

  /**
   * At the deltas of a release that commits, the drag feedback shows the
   * label of the committing direction at more than nine tenths of full
   * opacity and hides the label of the other direction.
   */
  lemma CommitFollowsVisibleLabel(dx: real, dy: real, width: real)
    requires width > 0.0
    requires Classify(dx, dy, width).Commit?
    ensures var f := DragFeedback(dx, dy);
      if Classify(dx, dy, width).isLike then f.likeOpacity > 0.9 && f.dislikeOpacity == 0.0
      else f.dislikeOpacity > 0.9 && f.likeOpacity == 0.0
  {
  }

  /**
   * A button swipe sends the card along exactly the trajectory of a drag
   * in the same direction that commits with no vertical offset.
   */
  lemma ButtonSwipeIsForcedCommit(dx: real, width: real)
    requires width > 0.0 && Abs(dx) > COMMIT_THRESHOLD
    ensures Classify(dx, 0.0, width) == Commit(dx > 0.0, ButtonExit(dx > 0.0, width))
  {
  }
}
