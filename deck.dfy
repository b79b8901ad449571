/**
 * The deck and its decision history as a value: the four module-level
 * variables of the swipe page (`catImages`, `liked`, `historyStack`,
 * `currentIndex`) plus whether the summary panel is showing. The functions
 * here are the specifications the imperative controller in module App is
 * proved against, and the lemmas state what the page promises about them.
 */
module Deck {

  /** The number of images in a fresh deck. */
  const TOTAL_CATS: nat := 12

  /** An image address; the model never looks inside one. */
  type Url = string

  /** One entry of the undo history: which image, and whether it was liked. */
  datatype Decision = Decision(url: Url, liked: bool)

  datatype State = State(
    catImages: seq<Url>,
    liked: seq<Url>,
    history: seq<Decision>,
    currentIndex: nat,
    summaryShown: bool)

  /** One decision of a run of commits: the index of the card and its direction. */
  datatype Step = Step(idx: nat, isLike: bool)

  function Max(a: int, b: int): int { if a >= b then a else b }

  /** The images of the liked entries of a history, oldest first. */
  function LikedUrls(h: seq<Decision>): seq<Url>
  {
    if h == [] then []
    else LikedUrls(h[..|h| - 1]) + (if h[|h| - 1].liked then [h[|h| - 1].url] else [])
  }

  /**
   * The array method `lastIndexOf`: the position of the last occurrence of
   * `x` in `s`, or -1 when there is none.
   */
  function LastIndexOf<T(==)>(s: seq<T>, x: T): (r: int)
    ensures -1 <= r < |s|
    ensures r == -1 <==> x !in s
    ensures r >= 0 ==> s[r] == x && x !in s[r + 1..]
  {
    if s == [] then -1
    else if s[|s| - 1] == x then |s| - 1
    else
      assert s == s[..|s| - 1] + [s[|s| - 1]];
      LastIndexOf(s[..|s| - 1], x)
  }

  /** `splice(i, 1)`: drop the element at position `i`, keeping the others in order. */
  function RemoveAt<T>(s: seq<T>, i: nat): (r: seq<T>)
    requires i < |s|
    ensures |r| == |s| - 1
    ensures forall j :: 0 <= j < i ==> r[j] == s[j]
    ensures forall j :: i <= j < |r| ==> r[j] == s[j + 1]
  {
    s[..i] + s[i + 1..]
  }

  /**
   * The invariant every reachable state keeps: one history entry per
   * decided card, the liked list is exactly the liked history entries in
   * the order they were decided, the summary only shows once every card
   * position has been passed, and the deck never shrinks below a full one.
   */
  predicate Valid(d: State)
  {
    && |d.history| == d.currentIndex
    && d.liked == LikedUrls(d.history)
    && (d.summaryShown ==> d.currentIndex >= |d.catImages|)
    && |d.catImages| >= TOTAL_CATS
  }

  /** The state `restartAll` (and the first page load) produces from freshly generated addresses. */
  function Initial(urls: seq<Url>): (d: State)
    requires |urls| == TOTAL_CATS
    ensures Valid(d)
    ensures d.liked == [] && d.history == [] && d.currentIndex == 0 && !d.summaryShown
    ensures d.catImages == urls && |d.catImages| == TOTAL_CATS
  {
    State(urls, [], [], 0, false)
  }

  /**
   * The body of the callback that finalises a swipe of card `idx`: record
   * a like, push the decision, count the card, and show the summary once
   * the count reaches the deck size.
   */
  function Commit(d: State, idx: nat, isLike: bool): (e: State)
    requires idx < |d.catImages|
    ensures e.catImages == d.catImages
    ensures isLike ==> e.liked == d.liked + [d.catImages[idx]]
    ensures !isLike ==> e.liked == d.liked
    ensures |e.history| == |d.history| + 1 && e.history[..|d.history|] == d.history
    ensures e.history[|d.history|] == Decision(d.catImages[idx], isLike)
    ensures e.currentIndex == d.currentIndex + 1
    ensures Valid(d) ==> (e.summaryShown <==> e.currentIndex >= |e.catImages|)
  {
    var url := d.catImages[idx];
    var count := d.currentIndex + 1;
    State(
      d.catImages,
      if isLike then d.liked + [url] else d.liked,
      d.history + [Decision(url, isLike)],
      count,
      if count >= |d.catImages| then true else d.summaryShown)
  }

  /**
   * `undoLast`: with an empty history nothing happens; otherwise the last
   * decision is popped, a like is withdrawn from the liked list (its last
   * occurrence), the image is appended to the deck again, the count goes
   * down by one but not below zero, and the summary is hidden.
   */
  function Undo(d: State): (e: State)
    ensures d.history == [] ==> e == d
    ensures d.history != [] ==> var last := d.history[|d.history| - 1];
      && e.history == d.history[..|d.history| - 1]
      && e.catImages == d.catImages + [last.url]
      && e.currentIndex == (if d.currentIndex == 0 then 0 else d.currentIndex - 1)
      && !e.summaryShown
      && (!last.liked || last.url !in d.liked ==> e.liked == d.liked)
      && (last.liked && last.url in d.liked ==>
            multiset(e.liked) == multiset(d.liked) - multiset{last.url} &&
            exists k :: 0 <= k <= |e.liked| && d.liked == e.liked[..k] + [last.url] + e.liked[k..] &&
                        last.url !in e.liked[k..])
  {
    if d.history == [] then d
    else
      var last := d.history[|d.history| - 1];
      var k := LastIndexOf(d.liked, last.url);
      State(
        d.catImages + [last.url],
        if last.liked && k != -1 then RemoveLastOccurrence(d.liked, last.url); RemoveAt(d.liked, k) else d.liked,
        d.history[..|d.history| - 1],
        Max(0, d.currentIndex - 1),
        false)
  }

  /** The cards of a run of commits all lie within a deck of `n` cards. */
  predicate StepsFit(steps: seq<Step>, n: nat)
  {
    forall i :: 0 <= i < |steps| ==> steps[i].idx < n
  }

  /** The decisions a run of commits pushes onto the history, in order. */
  function Decisions(cat: seq<Url>, steps: seq<Step>): (h: seq<Decision>)
    requires StepsFit(steps, |cat|)
    ensures |h| == |steps|
    decreases |steps|
  {
    if steps == [] then []
    else
      assert StepsFit(steps[1..], |cat|) by {
        forall i | 0 <= i < |steps[1..]| ensures steps[1..][i].idx < |cat| {
          assert steps[1..][i] == steps[i + 1];
        }
      }
      [Decision(cat[steps[0].idx], steps[0].isLike)] + Decisions(cat, steps[1..])
  }

  /** Step `i` of a run pushes the image at its card index with its direction. */
  lemma DecisionsAt(cat: seq<Url>, steps: seq<Step>, i: nat)
    requires StepsFit(steps, |cat|) && i < |steps|
    ensures Decisions(cat, steps)[i] == Decision(cat[steps[i].idx], steps[i].isLike)
    decreases i
  {
    if i > 0 {
      assert StepsFit(steps[1..], |cat|) by {
        forall j | 0 <= j < |steps[1..]| ensures steps[1..][j].idx < |cat| {
          assert steps[1..][j] == steps[j + 1];
        }
      }
      DecisionsAt(cat, steps[1..], i - 1);
    }
  }

  /** The state after committing the given cards one after another. */
  function Run(d: State, steps: seq<Step>): State
    requires StepsFit(steps, |d.catImages|)
    decreases |steps|
  {
    if steps == [] then d
    else Run(Commit(d, steps[0].idx, steps[0].isLike), steps[1..])
  }

  /** The progress indicator: the counter text and the width of the bar in percent. */
  datatype ProgressView = ProgressView(counter: int, percent: real)

  /**
   * `updateProgress`: the counter shows the position of the card being
   * decided, capped at twelve (not at the current deck size), and the bar
   * fills in proportion to the decided cards, capped at 100 percent.
   */
  function Progress(currentIndex: nat): (p: ProgressView)
    ensures 1 <= p.counter <= TOTAL_CATS
    ensures currentIndex < TOTAL_CATS ==> p.counter == currentIndex + 1
    ensures currentIndex >= TOTAL_CATS ==> p.counter == TOTAL_CATS
    ensures 0.0 <= p.percent <= 100.0
    ensures p.percent == 100.0 <==> currentIndex >= TOTAL_CATS
    ensures currentIndex == 0 ==> p.percent == 0.0
    ensures currentIndex < TOTAL_CATS ==> p.percent * TOTAL_CATS as real == currentIndex as real * 100.0
  {
    var total := TOTAL_CATS;
    var percent := (currentIndex as real / total as real) * 100.0;
    ProgressView(
      if currentIndex + 1 <= total then currentIndex + 1 else total,
      if percent <= 100.0 then percent else 100.0)
  }

  // ---------------------------------------------------------------------
  // Properties of the operations
  // ---------------------------------------------------------------------

  /** Appending one decision extends the liked list by its image exactly when it was a like. */
  lemma LikedUrlsSnoc(h: seq<Decision>, x: Decision)
    ensures LikedUrls(h + [x]) == LikedUrls(h) + (if x.liked then [x.url] else [])
  {
    assert (h + [x])[..|h|] == h;
  }

  /**
   * Removing the last occurrence of `x` takes out exactly one copy of `x`
   * and leaves every other element in its order, and no copy of `x` stays
   * after the removed position.
   */
  lemma RemoveLastOccurrence<T>(s: seq<T>, x: T)
    requires x in s
    ensures var k := LastIndexOf(s, x);
      0 <= k && s == RemoveAt(s, k)[..k] + [x] + RemoveAt(s, k)[k..] &&
      x !in RemoveAt(s, k)[k..] &&
      multiset(RemoveAt(s, k)) == multiset(s) - multiset{x}
  {
  }

  /** A commit keeps the invariant. */
  lemma CommitPreservesValid(d: State, idx: nat, isLike: bool)
    requires Valid(d) && idx < |d.catImages|
    ensures Valid(Commit(d, idx, isLike))
  {
    LikedUrlsSnoc(d.history, Decision(d.catImages[idx], isLike));
  }

  /**
   * In a valid state the like that undo withdraws is always the final
   * entry of the liked list, so undo simply drops that entry.
   */
  lemma UndoDropsNewestLike(d: State)
    requires Valid(d) && d.history != []
    ensures var last := d.history[|d.history| - 1];
      Undo(d).liked == (if last.liked then d.liked[..|d.liked| - 1] else d.liked)
  {
    var h := d.history;
    var last := h[|h| - 1];
    assert h == h[..|h| - 1] + [last];
    LikedUrlsSnoc(h[..|h| - 1], last);
    if last.liked {
      var k := LastIndexOf(d.liked, last.url);
      assert d.liked[|d.liked| - 1] == last.url;
      assert k == |d.liked| - 1;
    }
  }

  /** Undo keeps the invariant. */
  lemma UndoPreservesValid(d: State)
    requires Valid(d)
    ensures Valid(Undo(d))
  {
    if d.history != [] {
      var h := d.history;
      var last := h[|h| - 1];
      assert h == h[..|h| - 1] + [last];
      LikedUrlsSnoc(h[..|h| - 1], last);
      UndoDropsNewestLike(d);
    }
  }

  /**
   * Undo reverses a commit in the liked list, the history and the count,
   * and hides the summary; the deck itself is not restored but grows by
   * the image that was decided.
   */
  lemma CommitThenUndo(d: State, idx: nat, isLike: bool)
    requires idx < |d.catImages|
    ensures var u := Undo(Commit(d, idx, isLike));
      && u.liked == d.liked
      && u.history == d.history
      && u.currentIndex == d.currentIndex
      && u.catImages == d.catImages + [d.catImages[idx]]
      && !u.summaryShown
  {
    var e := Commit(d, idx, isLike);
    var url := d.catImages[idx];
    assert e.history[|e.history| - 1] == Decision(url, isLike);
    assert e.history[..|e.history| - 1] == d.history;
    if isLike {
      var k := LastIndexOf(e.liked, url);
      assert e.liked[|d.liked|] == url;
      assert k == |d.liked|;
      assert RemoveAt(e.liked, k) == d.liked;
    }
  }

  /**
   * Because undo appends the image to the deck, re-deciding the final card
   * after undoing it no longer shows the summary, although every card
   * position has again been decided.
   */
  lemma RedecideLastCardAfterUndo(d: State, idx: nat, isLike: bool, again: bool)
    requires Valid(d) && idx < |d.catImages| && d.currentIndex + 1 == |d.catImages|
    ensures Commit(d, idx, isLike).summaryShown
    ensures var e := Commit(Undo(Commit(d, idx, isLike)), idx, again);
      !e.summaryShown && |e.history| == |d.catImages|
  {
    CommitThenUndo(d, idx, isLike);
  }

  /** A run of commits pushes exactly its decisions onto the history, in order. */
  lemma {:induction false} RunHistory(d: State, steps: seq<Step>)
    requires StepsFit(steps, |d.catImages|)
    ensures Run(d, steps).history == d.history + Decisions(d.catImages, steps)
    decreases |steps|
  {
    if steps != [] {
      var x := Decision(d.catImages[steps[0].idx], steps[0].isLike);
      var c := Commit(d, steps[0].idx, steps[0].isLike);
      assert c.history == d.history + [x];
      assert StepsFit(steps[1..], |c.catImages|) by {
        forall i | 0 <= i < |steps[1..]| ensures steps[1..][i].idx < |c.catImages| {
          assert steps[1..][i] == steps[i + 1];
        }
      }
      RunHistory(c, steps[1..]);
      assert Decisions(d.catImages, steps) == [x] + Decisions(d.catImages, steps[1..]);
    }
  }

  /**
   * A run of commits counts every card, keeps the deck and the invariant,
   * and leaves the summary showing exactly when it was showing before or
   * the count has reached the deck size.
   */
  lemma {:induction false} RunCommits(d: State, steps: seq<Step>)
    requires StepsFit(steps, |d.catImages|)
    ensures var e := Run(d, steps);
      && e.catImages == d.catImages
      && e.currentIndex == d.currentIndex + |steps|
      && e.history == d.history + Decisions(d.catImages, steps)
      && (Valid(d) ==> Valid(e))
      && (e.summaryShown <==> d.summaryShown || (steps != [] && d.currentIndex + |steps| >= |d.catImages|))
    decreases |steps|
  {
    if steps != [] {
      var c := Commit(d, steps[0].idx, steps[0].isLike);
      if Valid(d) {
        CommitPreservesValid(d, steps[0].idx, steps[0].isLike);
      }
      assert StepsFit(steps[1..], |c.catImages|) by {
        forall i | 0 <= i < |steps[1..]| ensures steps[1..][i].idx < |c.catImages| {
          assert steps[1..][i] == steps[i + 1];
        }
      }
      RunCommits(c, steps[1..]);
    }
    RunHistory(d, steps);
  }

  /**
   * From a fresh deck, the summary shows exactly once all twelve cards
   * have been decided; the history is the run's decisions in order, and
   * the liked list, which the summary shows, is the images of the liked
   * ones among them, in the order they were liked.
   */
  lemma Exhaustion(urls: seq<Url>, steps: seq<Step>)
    requires |urls| == TOTAL_CATS && StepsFit(steps, TOTAL_CATS)
    ensures var e := Run(Initial(urls), steps);
      && (e.summaryShown <==> |steps| >= TOTAL_CATS)
      && e.currentIndex == |steps|
      && e.history == Decisions(urls, steps)
      && e.liked == LikedUrls(Decisions(urls, steps))
  {
    RunCommits(Initial(urls), steps);
  }

  /** Whenever the summary shows, the progress bar is full and the counter reads the deck size. */
  lemma SummaryMeansFullProgress(d: State)
    requires Valid(d) && d.summaryShown
    ensures Progress(d.currentIndex).percent == 100.0
    ensures Progress(d.currentIndex).counter == TOTAL_CATS
  {
  }

  /** The counter and the bar never go backwards as cards are decided. */
  lemma ProgressMonotone(i: nat, j: nat)
    requires i <= j
    ensures Progress(i).counter <= Progress(j).counter
    ensures Progress(i).percent <= Progress(j).percent
  {
  }
}
