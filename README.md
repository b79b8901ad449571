# Paws & Preferences: the swipe deck, modelled in Dafny

Paws & Preferences is a single-page widget. It deals twelve cat photographs as a stack of cards. The user drags a card (or presses a button) to like or dislike it. The page keeps the liked images and a history of decisions for undo, shows a progress counter and bar, and shows a summary of the liked images once every card has been decided. This project models the two parts of `script.js` that hold logic, and proves properties of them:

- **`gesture.dfy`, module `Gesture`** models the gesture classifier, which is pure arithmetic on the drag deltas. While a card is dragged (`panmove`), it rotates by `dx / 18` degrees. The LIKE label fades in as `min(dx / 120, 1)` for drags to the right, and the NOPE label does the same for drags to the left. On release (`panend`), a drag with `|dx| > 110` commits: a drag to the right is a like and one to the left a dislike. The committed card leaves one viewport width off-screen with a tilt of ±30°, keeping the drag's vertical offset. Any other release snaps the card back to rest with both labels hidden. A button swipe uses the same trajectory with no vertical offset. Deltas, rotations and opacities are `real`s, and the viewport width is a positive parameter.
- **`deck.dfy`, module `Deck`** models the page state as a value: `catImages`, `liked`, `historyStack`, `currentIndex`, and whether the summary is showing. It defines one specification function per state change: `Commit` (the body of the callback that finalises a swipe), `Undo` (`undoLast`) and `Initial` (`restartAll` and `buildImageList`). `Progress` (`updateProgress`) is the view of the count that the progress counter and bar display. The lemmas in this module state the invariant and the commit/undo round trip.
- **`swiper.dfy`, module `App`** holds the class `Swiper`. Its fields are the page's module-level variables, and its methods are the page's handlers. `CommitCard`, `PanEnd`, `SwipeTopCard`, `UndoLast` and `RestartAll` are each proved against their `Deck` function. `BuildImageList` is a loop, as in the page, and is proved to fill `catImages` with the given images and leave the other fields alone. The progress display is `Deck.Progress` applied to the object's `currentIndex`.

The invariant (`Deck.Valid`) has four parts:

- The history has one entry per decided card.
- The liked list is exactly the images of the liked history entries, in the order they were decided. This is a sequence equality, which is stronger than equal multisets.
- The summary shows only when the count has reached the size of the deck.
- The deck never holds fewer than twelve images.

`Initial`, `Commit` and `Undo` all keep it.

Undo follows the code rather than the intended design. It does not restore `catImages`: it appends the undone image to it, so every undo with a non-empty history grows the deck by one image (script.js:150). An undo with an empty history returns early and changes nothing (script.js:142). The round trip of a commit followed by an undo therefore holds for `liked`, the history and `currentIndex`, while `catImages` ends up one image longer. One consequence is proved in `Deck.RedecideLastCardAfterUndo`: if the last card is decided, undone and decided again, the summary no longer appears, because the count now falls one short of the grown deck.

## Model

| member | source | states |
|---|---|---|
| `Gesture.DragFeedback` | script.js:65-74 | The card follows the drag and rotates by dx/18. Both label opacities lie in [0,1]. The like label is non-zero iff dx > 0 and the dislike label iff dx < 0, so the two are never both non-zero. Below 120 units, a label's opacity is the drag distance divided by 120. A label is fully opaque iff the drag covers at least 120 units its way. |
| `Gesture.ExitTrajectory` | script.js:84-88 | A committed card moves exactly one viewport width off-screen: to the right iff it is a like. It is rotated 30° in the same direction and keeps the drag's vertical offset. |
| `Gesture.ButtonExit` | script.js:124-128 | A button swipe moves exactly one viewport width off-screen with no vertical offset: to the right iff it is a like. It is rotated 30° in the same direction. |
| `Gesture.Classify` | script.js:76-105 | A release commits iff \|dx\| > 110, and the commit is a like iff dx > 0, along the exit trajectory for its direction. Otherwise the card snaps back to the rest tuple: no offset, no rotation, both labels at 0. |
| `Gesture.Mirror` | script.js:65-88 | Mirroring dx swaps the two labels and negates the rotation. A release still commits or snaps back as before, but in the opposite direction along the mirrored trajectory. |
| `Gesture.CommitFollowsVisibleLabel` | script.js:72-85 | At the deltas of a release that commits, the drag feedback shows the label of the committing direction above 0.9 opacity and hides the other label. |
| `Gesture.ButtonSwipeIsForcedCommit` | script.js:121-128 | A button swipe leaves along exactly the trajectory of a committing drag in the same direction with dy = 0. |
| `Deck.LastIndexOf` | script.js:146 | Gives -1 iff the image is absent. Otherwise it gives a position holding the image, with no copy of the image after it. |
| `Deck.RemoveAt` | script.js:147 | Removing one position shortens the list by one. Elements before the position keep their place, and elements after it move up by one. |
| `Deck.Initial` | script.js:179-187 | A restart leaves liked and history empty, the count at 0 and the summary hidden. The deck is the twelve fresh images, and the state satisfies the invariant. |
| `Deck.Commit` | script.js:91-98 | A commit never changes the deck itself. It appends the image to liked iff it is a like, otherwise liked is unchanged. It pushes exactly (image, isLike) onto the history, keeping the older entries, and adds one to the count. In a valid state, the summary then shows iff the count has reached the deck size. |
| `Deck.Undo` | script.js:141-156 | With an empty history, undo changes nothing. Otherwise it pops the last entry, appends its image to the deck, sets the count to max(0, count - 1) and hides the summary. For a like whose image is listed, it removes exactly one copy, the last one, leaving the rest in order. Otherwise liked is unchanged. |
| `Deck.Decisions` | script.js:93-94 | The decisions a run of commits pushes: one per step. |
| `Deck.DecisionsAt` | script.js:93-94 | Each step of a run pushes the image at the step's card index, with the step's direction. |
| `Deck.Progress` | script.js:159-164 | The counter lies in 1..12. While fewer than twelve cards are decided it equals the count + 1, and from then on it stays at 12, however large the deck has grown. The bar lies in [0,100] and starts at 0. Below twelve decided cards it is exactly count / 12 × 100 percent, and it is full iff at least twelve cards are decided. |
| `Deck.LikedUrlsSnoc` | script.js:93-94 | Pushing a decision onto the history extends the liked images of the history by its image iff it was a like. |
| `Deck.RemoveLastOccurrence` | script.js:145-148 | Removing the last occurrence of an image takes out exactly one copy (as multisets) and keeps every other element in order. No copy of the image stays after the removed position. |
| `Deck.CommitPreservesValid` | script.js:91-98 | A commit keeps the invariant. |
| `Deck.UndoDropsNewestLike` | script.js:143-148 | In a valid state, undoing a like removes exactly the final entry of the liked list. |
| `Deck.UndoPreservesValid` | script.js:141-155 | Undo keeps the invariant. |
| `Deck.CommitThenUndo` | script.js:143-152 | A commit followed by an undo restores liked, the history and the count exactly and hides the summary. The deck ends up as the old deck plus the decided image. |
| `Deck.RedecideLastCardAfterUndo` | script.js:150 | Deciding the last card shows the summary. After undoing that decision and deciding the card again, all card positions are decided but the summary stays hidden. |
| `Deck.RunHistory` | script.js:93-94 | After any run of commits, the history is the old history followed by the run's decisions, in order. |
| `Deck.RunCommits` | script.js:91-98 | After any run of commits, the count has grown by the run's length and the history by exactly the run's decisions. The deck is unchanged and the invariant still holds. The summary shows iff it showed before or the count has reached the deck size. |
| `Deck.Exhaustion` | script.js:96-98 | From a fresh deck, the summary shows iff at least twelve cards have been decided. The history is then exactly the run's decisions. The liked list, which the summary lists, is the images of the liked steps, in the order they were liked. |
| `Deck.SummaryMeansFullProgress` | script.js:159-163 | While the summary shows, the bar is at 100 percent and the counter reads 12. |
| `Deck.ProgressMonotone` | script.js:159-163 | Neither the counter nor the bar goes backwards as the count grows. |
| `App.Swiper.constructor` | script.js:205-208 | The first page load yields the restart state, which satisfies the invariant. |
| `App.Swiper.BuildImageList` | script.js:32-38 | The loop fills the deck with the twelve given images in order and changes nothing else. |
| `App.Swiper.CommitCard` | script.js:129-137 | The swipe callback changes the state exactly as `Deck.Commit` does and keeps the invariant. |
| `App.Swiper.PanEnd` | script.js:76-106 | A release is classified by `Gesture.Classify`. A commit records the decision as `Deck.Commit` does, and a snap-back leaves the state unchanged. The invariant is kept. |
| `App.Swiper.SwipeTopCard` | script.js:121-138 | With no top card, nothing changes and no trajectory is produced. Otherwise the card leaves along the button trajectory and the decision is recorded as `Deck.Commit` does. |
| `App.Swiper.UndoLast` | script.js:141-156 | Undo changes the state exactly as `Deck.Undo` does and keeps the invariant. |
| `App.Swiper.RestartAll` | script.js:179-187 | A restart yields the fresh state for the new images, which satisfies the invariant. |
| `App.LikeThenUndo` | script.js:141-156 | A like followed by an undo on the controller restores liked, the history and the count. The deck grows by the liked image. |

## Left out

- Building and rendering the page (`createCard`'s elements, `renderCards`, the image list of `showSummary`, CSS transitions and class toggles) is presentation. The summary panel is modelled only as the boolean `summaryShown`.
- Pan recognition by the Hammer.js library (recogniser set-up, pan threshold 6, `panstart`) is a foreign library. The model takes the deltas `dx` and `dy` as inputs.
- There is no separate dragging state in the page: whether a gesture is in progress, and rejecting a second one, is left to the pan recogniser. The model has no Idle/Dragging states, and `PanEnd` is the only entry point for a drag.
- The summary panel starts hidden on the first page load. That comes from the page's markup, which is not part of this model; `script.js` itself sets it only on undo, restart and a finished deck. The constructor of `Swiper` assumes it.
- The 260 ms `setTimeout` delay before a swipe is recorded is not modelled. The callback body is one atomic step (`CommitCard`), and overlapping timers are not modelled.
- Which card is on top (`querySelector(".card")` and `dataset.index`) depends on the order of the page's elements. The card index is a parameter, and `SwipeTopCard` takes the top card as an optional index.
- Image addresses are generated from the clock and a random number. They are an input sequence of twelve opaque strings.
- The dark-mode toggle and its persisted flag (script.js:190-197) are storage plumbing with no logic.
- JavaScript's floating-point arithmetic is not modelled. Rotation, opacity and percentage use exact `real` arithmetic, so rounding is not captured.
