/**
 * Page acquisition in `scrape_section` (myproject/scraper.py:145-198): the check of
 * the page title for a redirect or error page, and the scroll loop that waits for
 * lazily loaded cards until the page height stops growing.
 */
module Acquisition {
  import opened Strings
  import opened Page

  /** Ten unchanged height readings in a row end the scroll loop. */
  const MaxScrollAttempts: nat := 10

  /** The lowercased title names a throttling, redirect or error page. */
  predicate IsBlockedTitle(title: string) {
    var t := Lower(title);
    Contains(t, "too many") || Contains(t, "redirect") || Contains(t, "error")
  }

  /**
   * The page yields no records: the navigation finished and its title is blocked.
   * A page-load timeout skips the check and the page is still scraped.
   */
  predicate IsBlocked(nav: Navigation) {
    nav.Loaded? && IsBlockedTitle(nav.title)
  }

  lemma {:induction false} LowerIdempotent(s: string)
    ensures Lower(Lower(s)) == Lower(s)
  {
    forall i | 0 <= i < |s| ensures Lower(Lower(s))[i] == Lower(s)[i] {
      var c := s[i];
      assert Lower(s)[i] == LowerChar(c);
    }
  }

  /** The title check ignores letter case. */
  lemma BlockedTitleIgnoresCase(title: string)
    ensures IsBlockedTitle(Lower(title)) == IsBlockedTitle(title)
  {
    LowerIdempotent(title);
  }

  /** The title that divan.ru serves when it throttles a client is recognised. */
  lemma ThrottlePageIsBlocked()
    ensures IsBlockedTitle("429 Too Many Requests")
  {
    var title := "429 Too Many Requests";
    var t := Lower(title);
    assert t[4..12] == "too many" by {
      assert title[4..12] == "Too Many";
    }
    assert OccursAt(t, "too many", 4);
    ContainsAt(t, "too many");
  }

  /** The height known before reading `j`: the first height, or reading `j - 1`. */
  function Prev(initial: int, heights: seq<int>, j: nat): int
    requires j <= |heights|
  {
    if j == 0 then initial else heights[j - 1]
  }

  /** Reading `j` is unchanged: it equals the height known before it. */
  predicate Unchanged(initial: int, heights: seq<int>, j: nat)
    requires j < |heights|
  {
    heights[j] == Prev(initial, heights, j)
  }

  /** The number of unchanged readings at the end of the first `i` readings. */
  function UnchangedRun(initial: int, heights: seq<int>, i: nat): nat
    requires i <= |heights|
  {
    if i == 0 then 0
    else if Unchanged(initial, heights, i - 1) then UnchangedRun(initial, heights, i - 1) + 1
    else 0
  }

  /** `UnchangedRun` counts exactly the consecutive unchanged readings just before `i`. */
  lemma {:induction false} UnchangedRunMeans(initial: int, heights: seq<int>, i: nat, n: nat)
    requires i <= |heights|
    ensures UnchangedRun(initial, heights, i) >= n <==>
      n <= i && forall j :: i - n <= j < i ==> Unchanged(initial, heights, j)
  {
    if i > 0 && n > 0 {
      UnchangedRunMeans(initial, heights, i - 1, n - 1);
    }
  }

  /**
   * The scroll loop over the successive height readings `heights` taken after each
   * scroll to the bottom, starting from `initialHeight`. The counter counts unchanged
   * readings and is reset by a change, which also becomes the new known height.
   * `consumed` readings are used; the loop has finished (`attempts` reached the cap)
   * exactly when the last ten of them were unchanged, and not before; when it has not,
   * all the given readings were used.
   */
  method ScrollUntilStable(initialHeight: int, heights: seq<int>)
    returns (consumed: nat, lastHeight: int, attempts: nat)
    ensures consumed <= |heights|
    ensures lastHeight == Prev(initialHeight, heights, consumed)
    ensures attempts == UnchangedRun(initialHeight, heights, consumed) && attempts <= MaxScrollAttempts
    ensures forall i :: 0 <= i < consumed ==> UnchangedRun(initialHeight, heights, i) < MaxScrollAttempts
    ensures attempts < MaxScrollAttempts ==> consumed == |heights|
  {
    lastHeight := initialHeight;
    attempts := 0;
    consumed := 0;
    while attempts < MaxScrollAttempts && consumed < |heights|
      invariant consumed <= |heights|
      invariant lastHeight == Prev(initialHeight, heights, consumed)
      invariant attempts == UnchangedRun(initialHeight, heights, consumed) && attempts <= MaxScrollAttempts
      invariant forall i :: 0 <= i < consumed ==> UnchangedRun(initialHeight, heights, i) < MaxScrollAttempts
      decreases |heights| - consumed
    {
      var newHeight := heights[consumed];
      if newHeight == lastHeight {
        attempts := attempts + 1;
      } else {
        attempts := 0;
        lastHeight := newHeight;
      }
      consumed := consumed + 1;
    }
  }

  /** When the loop finishes, its last ten readings all equal the height before them. */
  lemma FinishedMeansTenUnchanged(initial: int, heights: seq<int>, consumed: nat)
    requires consumed <= |heights|
    requires UnchangedRun(initial, heights, consumed) == MaxScrollAttempts
    ensures consumed >= MaxScrollAttempts
    ensures forall j :: consumed - MaxScrollAttempts <= j < consumed ==> Unchanged(initial, heights, j)
  {
    UnchangedRunMeans(initial, heights, consumed, MaxScrollAttempts);
  }
}
