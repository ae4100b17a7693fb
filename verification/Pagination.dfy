/** Incremental paging of the filtered lectures: `lastPage`,
    `visibleLectures` and the step the scroll sentinel triggers. */
module Pagination {

  const PAGE_SIZE: nat := 100

  function Min(a: int, b: int): int { if a <= b then a else b }

  /** `Math.ceil(n / PAGE_SIZE)`: the fewest pages that hold n lectures. */
  function LastPage(n: nat): (r: nat)
    ensures n <= r * PAGE_SIZE
    ensures r > 0 ==> (r - 1) * PAGE_SIZE < n
  {
    (n + PAGE_SIZE - 1) / PAGE_SIZE
  }

  /** `filtered.slice(0, page * PAGE_SIZE)`: the first `page` pages. */
  function VisibleLectures<T>(filtered: seq<T>, page: nat): (r: seq<T>)
    ensures r <= filtered
    ensures |r| == Min(|filtered|, page * PAGE_SIZE)
  {
    filtered[..Min(|filtered|, page * PAGE_SIZE)]
  }

  /** `setPage(prev => Math.min(lastPage, prev + 1))`. */
  function NextPage(page: nat, lastPage: nat): (r: nat)
    ensures r <= lastPage
    ensures page < lastPage ==> r == page + 1
    ensures page >= lastPage ==> r == lastPage
  {
    Min(lastPage, page + 1)
  }

  /** The page after k sentinel intersections, starting from `page`. */
  function AfterSteps(page: nat, lastPage: nat, k: nat): nat
    decreases k
  {
    if k == 0 then page else AfterSteps(NextPage(page, lastPage), lastPage, k - 1)
  }

  /** Starting from any page up to the last, k intersections advance the
      page by k, stopping at the last page. */
  lemma {:induction false} AfterStepsClosedForm(page: nat, lastPage: nat, k: nat)
    requires page <= lastPage
    ensures AfterSteps(page, lastPage, k) == Min(lastPage, page + k)
    decreases k
  {
    if k > 0 {
      AfterStepsClosedForm(NextPage(page, lastPage), lastPage, k - 1);
    }
  }

  /** At the last page an intersection is a no-op. */
  lemma StepAtLastPageIsNoOp(lastPage: nat)
    ensures NextPage(lastPage, lastPage) == lastPage
  {
  }

  /** After a reset to page 1, once the sentinel has been reached
      `lastPage - 1` times every filtered lecture is visible, and the page
      never passes the last page. */
  lemma AllVisibleAfterEnoughSteps<T>(filtered: seq<T>, k: nat)
    requires k + 1 >= LastPage(|filtered|)
    ensures VisibleLectures(filtered, AfterSteps(1, LastPage(|filtered|), k)) == filtered
  {
    var last := LastPage(|filtered|);
    if last == 0 {
      assert |filtered| == 0;
    } else {
      AfterStepsClosedForm(1, last, k);
      assert AfterSteps(1, last, k) == last;
    }
  }

  /** A step never hides a lecture that was visible: the visible list only
      grows, and at or beyond the last page it is the whole filtered list. */
  lemma VisibleGrowsWithStep<T>(filtered: seq<T>, page: nat)
    ensures var next := NextPage(page, LastPage(|filtered|));
      VisibleLectures(filtered, page) <= VisibleLectures(filtered, next)
  {
    var last := LastPage(|filtered|);
    if page >= last {
      assert page * PAGE_SIZE >= last * PAGE_SIZE;
    }
  }

  /** When nothing matches, the first intersection drops the page to 0. */
  lemma EmptyResultDropsPageToZero(page: nat)
    ensures NextPage(page, LastPage(0)) == 0
  {
  }
}
