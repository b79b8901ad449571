/**
 * The swipe page's controller: the module-level variables of the page as
 * the fields of one object, and the handlers that change them as methods.
 * Each handler that changes the decisions is proved against the matching
 * function of module Deck; the progress display is Deck.Progress of the
 * object's `currentIndex`.
 */
module App {
  import Gesture
  import opened Deck

  datatype Option<T> = None | Some(value: T)

  class Swiper {
    var catImages: seq<Url>
    var liked: seq<Url>
    var historyStack: seq<Decision>
    var currentIndex: nat
    var summaryShown: bool

    /** The value of the page's state. */
    function State(): Deck.State
      reads this
    {
      Deck.State(catImages, liked, historyStack, currentIndex, summaryShown)
    }

    ghost predicate Valid()
      reads this
    {
      Deck.Valid(State())
    }

    /** The first page load: build the image list; nothing decided yet, summary hidden. */
    constructor (urls: seq<Url>)
      requires |urls| == TOTAL_CATS
      ensures State() == Initial(urls)
      ensures Valid()
    {
      catImages := [];
      liked := [];
      historyStack := [];
      currentIndex := 0;
      summaryShown := false;
      new;
      BuildImageList(urls);
    }

    /** `buildImageList`: refill the deck with twelve freshly generated addresses, one at a time. */
    method BuildImageList(urls: seq<Url>)
      requires |urls| == TOTAL_CATS
      modifies this
      ensures catImages == urls
      ensures liked == old(liked) && historyStack == old(historyStack)
      ensures currentIndex == old(currentIndex) && summaryShown == old(summaryShown)
    {
      catImages := [];
      var i := 0;
      while i < TOTAL_CATS
        invariant 0 <= i <= TOTAL_CATS
        invariant catImages == urls[..i]
        invariant liked == old(liked) && historyStack == old(historyStack)
        invariant currentIndex == old(currentIndex) && summaryShown == old(summaryShown)
      {
        catImages := catImages + [urls[i]];
        i := i + 1;
      }
    }

    /**
     * The callback that finalises a swipe of card `idx` once its exit
     * animation is over; the timer is not modelled, the update is atomic.
     */
    method CommitCard(idx: nat, isLike: bool)
      requires idx < |catImages|
      modifies this
      ensures State() == Commit(old(State()), idx, isLike)
      ensures old(Valid()) ==> Valid()
    {
      ghost var before := State();
      var url := catImages[idx];
      if isLike {
        liked := liked + [url];
      }
      historyStack := historyStack + [Decision(url, isLike)];
      currentIndex := currentIndex + 1;
      if currentIndex >= |catImages| {
        summaryShown := true;
      }
      if Deck.Valid(before) {
        CommitPreservesValid(before, idx, isLike);
      }
    }

    /**
     * The `panend` handler of card `idx`: classify the release, and on a
     * commit send the card off and record the decision; on a snap-back the
     * state is untouched.
     */
    method PanEnd(idx: nat, dx: real, dy: real, width: real) returns (r: Gesture.Release)
      requires width > 0.0 && idx < |catImages|
      modifies this
      ensures r == Gesture.Classify(dx, dy, width)
      ensures r.Commit? ==> State() == Commit(old(State()), idx, r.isLike)
      ensures r.SnapBack? ==> State() == old(State())
      ensures old(Valid()) ==> Valid()
    {
      r := Gesture.Classify(dx, dy, width);
      if r.Commit? {
        CommitCard(idx, r.isLike);
      }
    }

    /**
     * `swipeTopCard`, the like and dislike buttons: with no card on the
     * table nothing happens; otherwise the top card `top` leaves along the
     * button trajectory and the decision is recorded.
     */
    method SwipeTopCard(top: Option<nat>, isLike: bool, width: real) returns (exit: Option<Gesture.Exit>)
      requires width > 0.0
      requires top.Some? ==> top.value < |catImages|
      modifies this
      ensures top.None? ==> exit.None? && State() == old(State())
      ensures top.Some? ==>
        exit == Some(Gesture.ButtonExit(isLike, width)) && State() == Commit(old(State()), top.value, isLike)
      ensures old(Valid()) ==> Valid()
    {
      if top.None? {
        return None;
      }
      exit := Some(Gesture.ButtonExit(isLike, width));
      CommitCard(top.value, isLike);
    }

    /** `undoLast`. */
    method UndoLast()
      modifies this
      ensures State() == Undo(old(State()))
      ensures old(Valid()) ==> Valid()
    {
      ghost var before := State();
      if |historyStack| == 0 {
        return;
      }
      var last := historyStack[|historyStack| - 1];
      historyStack := historyStack[..|historyStack| - 1];
      if last.liked {
        var k := LastIndexOf(liked, last.url);
        if k != -1 {
          liked := liked[..k] + liked[k + 1..];
        }
      }
      catImages := catImages + [last.url];
      currentIndex := Max(0, currentIndex - 1);
      summaryShown := false;
      assert State() == Undo(before);
      if Deck.Valid(before) {
        UndoPreservesValid(before);
      }
    }

    /** `restartAll`: forget every decision and deal a fresh deck. */
    method RestartAll(urls: seq<Url>)
      requires |urls| == TOTAL_CATS
      modifies this
      ensures State() == Initial(urls)
      ensures Valid()
    {
      liked := [];
      currentIndex := 0;
      historyStack := [];
      BuildImageList(urls);
      summaryShown := false;
    }
  }

  /**
   * A client of the controller: a like followed by an undo gives back the
   * liked list, the history and the count, while the deck grows by the
   * image that was liked.
   */
  method LikeThenUndo(s: Swiper, idx: nat)
    requires idx < |s.catImages|
    modifies s
    ensures s.liked == old(s.liked) && s.historyStack == old(s.historyStack)
    ensures s.currentIndex == old(s.currentIndex)
    ensures s.catImages == old(s.catImages) + [old(s.catImages[idx])]
  {
    ghost var before := s.State();
    s.CommitCard(idx, true);
    s.UndoLast();
    CommitThenUndo(before, idx, true);
  }
}
