/*
 * A model of the invoice list's pagination control
 * (app/ui/invoices/pagination.tsx): the fixed-width page-window
 * calculator `generateFixedPagination`, and the small predicates the
 * control uses to enable its arrows and mark the active page.
 *
 * Page numbers are JavaScript numbers in the source; here they are
 * unbounded integers: the model takes page numbers as whole numbers, and
 * fractional values read from the query string are not covered.
 */
module Pagination {

  /** One entry of the page list: a page number, or the '...' sentinel. */
  datatype Token = Page(n: int) | Ellipsis

  datatype Option<T> = None | Some(value: T)

  /** Which of the three window placements the truncating branch picks. */
  datatype Regime = NearStart | NearEnd | Centred

  /** The contiguous run of pages shown between page 1 and the last page. */
  datatype Window = Window(start: int, end: int)

  // ---------------------------------------------------------------------
  // Arithmetic helpers
  // ---------------------------------------------------------------------

  function Min(a: int, b: int): (r: int)
    ensures r <= a && r <= b
    ensures r == a || r == b
  {
    if a <= b then a else b
  }

  /**
   * `Math.floor(x / 2)` on an integer `x`. JavaScript divides exactly and
   * rounds down, also for negative `x`; Dafny's `/` with a positive divisor
   * rounds down as well, which the contract pins to the definition of floor.
   */
  function FloorHalf(x: int): (r: int)
    ensures 2 * r <= x < 2 * r + 2
  {
    x / 2
  }

  // ---------------------------------------------------------------------
  // Specification of generateFixedPagination
  // ---------------------------------------------------------------------

  /** The pages `lo, lo + 1, ..., hi`, in order; empty when `hi < lo`. */
  function PageRun(lo: int, hi: int): (r: seq<Token>)
    ensures |r| == if hi < lo then 0 else hi - lo + 1
    decreases hi - lo
  {
    if hi < lo then [] else PageRun(lo, hi - 1) + [Page(hi)]
  }

  /** The `k`-th entry of a run is page `lo + k`. */
  lemma {:induction false} PageRunAt(lo: int, hi: int)
    ensures forall k :: 0 <= k < |PageRun(lo, hi)| ==> PageRun(lo, hi)[k] == Page(lo + k)
    decreases hi - lo
  {
    if lo <= hi {
      PageRunAt(lo, hi - 1);
    }
  }

  /** Pushing the next page onto a list that ends in a run extends the run. */
  lemma PushExtendsRun(prefix: seq<Token>, lo: int, hi: int)
    requires lo <= hi + 1
    ensures prefix + PageRun(lo, hi) + [Page(hi + 1)] == prefix + PageRun(lo, hi + 1)
  {
    assert PageRun(lo, hi + 1) == PageRun(lo, hi) + [Page(hi + 1)];
  }

  /** The regime chosen from where `currentPage` falls relative to the budget. */
  function RegimeOf(currentPage: int, totalPages: int, maxButtons: int): Regime
  {
    if currentPage <= FloorHalf(maxButtons) then NearStart
    else if currentPage > totalPages - FloorHalf(maxButtons) then NearEnd
    else Centred
  }

  /** The middle window `[start, end]` of the truncating branch. */
  function WindowOf(currentPage: int, totalPages: int, maxButtons: int): (w: Window)
    ensures 4 <= maxButtons < totalPages ==> 2 <= w.start <= w.end <= totalPages - 1
  {
    match RegimeOf(currentPage, totalPages, maxButtons)
    case NearStart => Window(2, maxButtons - 2)
    case NearEnd => Window(totalPages - (maxButtons - 3), totalPages - 1)
    case Centred =>
      Window(currentPage - FloorHalf(maxButtons - 4), currentPage + FloorHalf(maxButtons - 4))
  }

  /**
   * The truncated list: page 1, an ellipsis when pages lie between 1 and the
   * window, the window, an ellipsis when pages lie between the window and
   * the last page, and the last page.
   */
  function Truncated(w: Window, totalPages: int): (r: seq<Token>)
    ensures |r| >= 2 && r[0] == Page(1) && r[|r| - 1] == Page(totalPages)
  {
    [Page(1)]
    + (if w.start > 2 then [Ellipsis] else [])
    + PageRun(w.start, w.end)
    + (if w.end < totalPages - 1 then [Ellipsis] else [])
    + [Page(totalPages)]
  }

  /**
   * What generateFixedPagination returns. Total: the source validates
   * nothing, so every input has a value. Note that the no-truncation test
   * compares against the raw budget, while the window uses the budget
   * clamped to `totalPages`.
   */
  function FixedPagination(currentPage: int, totalPages: int, maxVisibleButtons: int): (r: seq<Token>)
    ensures |r| >= 1 && r[0] == Page(1)
  {
    var maxButtons := Min(maxVisibleButtons, totalPages);
    if totalPages <= maxVisibleButtons then
      [Page(1)] + PageRun(2, totalPages)
    else
      Truncated(WindowOf(currentPage, totalPages, maxButtons), totalPages)
  }

  // ---------------------------------------------------------------------
  // generateFixedPagination itself: a list grown by push in two loops
  // ---------------------------------------------------------------------

  method GenerateFixedPagination(currentPage: int, totalPages: int, maxVisibleButtons: int)
    returns (pages: seq<Token>)
    ensures pages == FixedPagination(currentPage, totalPages, maxVisibleButtons)
  {
    pages := [];
    var maxButtons := Min(maxVisibleButtons, totalPages);

    pages := pages + [Page(1)];

    if totalPages <= maxVisibleButtons {
      var i := 2;
      while i <= totalPages
        invariant 2 <= i && (i <= totalPages + 1 || i == 2)
        invariant pages == [Page(1)] + PageRun(2, i - 1)
      {
        PushExtendsRun([Page(1)], 2, i - 1);
        pages := pages + [Page(i)];
        i := i + 1;
      }
      assert i - 1 == totalPages || PageRun(2, i - 1) == [] == PageRun(2, totalPages);
    } else {
      var start: int;
      var end: int;

      if currentPage <= FloorHalf(maxButtons) {
        start := 2;
        end := maxButtons - 2;
      } else if currentPage > totalPages - FloorHalf(maxButtons) {
        start := totalPages - (maxButtons - 3);
        end := totalPages - 1;
      } else {
        start := currentPage - FloorHalf(maxButtons - 4);
        end := currentPage + FloorHalf(maxButtons - 4);
      }

      assert Window(start, end) == WindowOf(currentPage, totalPages, maxButtons);

      ghost var lead: seq<Token> := if start > 2 then [Ellipsis] else [];
      if start > 2 {
        pages := pages + [Ellipsis];
      }

      assert pages == [Page(1)] + lead + PageRun(start, start - 1);
      var i := start;
      while i <= end
        invariant start <= i && (i <= end + 1 || i == start)
        invariant pages == [Page(1)] + lead + PageRun(start, i - 1)
      {
        PushExtendsRun([Page(1)] + lead, start, i - 1);
        pages := pages + [Page(i)];
        i := i + 1;
      }
      assert i - 1 == end || PageRun(start, i - 1) == [] == PageRun(start, end);

      ghost var trail: seq<Token> := if end < totalPages - 1 then [Ellipsis] else [];
      if end < totalPages - 1 {
        pages := pages + [Ellipsis];
      }

      pages := pages + [Page(totalPages)];
      assert pages == [Page(1)] + lead + PageRun(start, end) + trail + [Page(totalPages)];
      assert pages == Truncated(Window(start, end), totalPages);
    }
  }

  // ---------------------------------------------------------------------
  // What a well-formed page list is
  // ---------------------------------------------------------------------

  /**
   * A page list for `total` pages: it starts at page 1 and ends at the last
   * page; every page it shows exists; pages increase strictly; two pages
   * side by side are consecutive; an ellipsis sits between two pages and
   * stands for at least one omitted page.
   */
  predicate WellFormed(ts: seq<Token>, total: int)
  {
    && |ts| >= 1 && ts[0] == Page(1) && ts[|ts| - 1] == Page(total)
    && (forall i :: 0 <= i < |ts| && ts[i].Page? ==> 1 <= ts[i].n <= total)
    && (forall i, j :: 0 <= i < j < |ts| && ts[i].Page? && ts[j].Page? ==> ts[i].n < ts[j].n)
    && (forall i :: 0 < i < |ts| && ts[i - 1].Page? && ts[i].Page? ==> ts[i].n == ts[i - 1].n + 1)
    && (forall i :: 0 <= i < |ts| && ts[i] == Ellipsis ==>
          && 0 < i < |ts| - 1
          && ts[i - 1].Page? && ts[i + 1].Page?
          && ts[i + 1].n >= ts[i - 1].n + 2)
  }

  predicate Shown(ts: seq<Token>, p: int)
  {
    Page(p) in ts
  }

  /** Page `p` lies strictly inside the gap some ellipsis of `ts` stands for. */
  predicate Elided(ts: seq<Token>, p: int)
  {
    exists i :: 0 < i < |ts| - 1 && ts[i] == Ellipsis && ts[i - 1].Page? && ts[i + 1].Page?
                && ts[i - 1].n < p < ts[i + 1].n
  }

  /** Every page from 1 to `total` is either shown or stood for by an ellipsis. */
  predicate AccountsForAll(ts: seq<Token>, total: int)
  {
    forall p :: 1 <= p <= total ==> Shown(ts, p) || Elided(ts, p)
  }

  lemma NoAdjacentEllipses(ts: seq<Token>, total: int)
    requires WellFormed(ts, total)
    ensures forall i :: 0 < i < |ts| && ts[i - 1] == Ellipsis ==> ts[i] != Ellipsis
  {
  }

  // ---------------------------------------------------------------------
  // Properties of the calculator
  // ---------------------------------------------------------------------

  /** Without truncation the list is exactly pages 1..totalPages. */
  lemma NoTruncationListsEveryPage(currentPage: int, totalPages: int, maxVisibleButtons: int)
    requires 1 <= totalPages <= maxVisibleButtons
    ensures var r := FixedPagination(currentPage, totalPages, maxVisibleButtons);
      && |r| == totalPages
      && (forall k :: 0 <= k < |r| ==> r[k] == Page(k + 1))
      && Ellipsis !in r
  {
    var r := FixedPagination(currentPage, totalPages, maxVisibleButtons);
    assert r == [Page(1)] + PageRun(2, totalPages);
    PageRunAt(2, totalPages);
    forall k | 0 <= k < |r| ensures r[k] == Page(k + 1) {
      if k > 0 {
        assert r[k] == PageRun(2, totalPages)[k - 1];
      }
    }
  }

  /** With no pages at all the list is just page 1. */
  lemma NoPagesShowsPageOne(currentPage: int, totalPages: int, maxVisibleButtons: int)
    requires totalPages <= 0 && totalPages <= maxVisibleButtons
    ensures FixedPagination(currentPage, totalPages, maxVisibleButtons) == [Page(1)]
  {
  }

  /**
   * When truncating, the clamped budget is the budget itself, and the list
   * runs from page 1 to the last page.
   */
  lemma TruncatedEnds(currentPage: int, totalPages: int, maxVisibleButtons: int)
    requires totalPages > maxVisibleButtons
    ensures Min(maxVisibleButtons, totalPages) == maxVisibleButtons
    ensures var r := FixedPagination(currentPage, totalPages, maxVisibleButtons);
      r[0] == Page(1) && r[|r| - 1] == Page(totalPages)
  {
  }

  /** Index-by-index description of a truncated list with a non-empty window. */
  lemma TruncatedAt(w: Window, totalPages: int)
    requires 2 <= w.start <= w.end <= totalPages - 1
    ensures var r := Truncated(w, totalPages);
      var a := if w.start > 2 then 1 else 0;
      var b := if w.end < totalPages - 1 then 1 else 0;
      var m := w.end - w.start + 1;
      && |r| == 2 + a + m + b
      && r[0] == Page(1)
      && (a == 1 ==> r[1] == Ellipsis)
      && (forall i :: 1 + a <= i < 1 + a + m ==> r[i] == Page(w.start + i - 1 - a))
      && (b == 1 ==> r[1 + a + m] == Ellipsis)
      && r[|r| - 1] == Page(totalPages)
  {
    var r := Truncated(w, totalPages);
    var lead: seq<Token> := if w.start > 2 then [Ellipsis] else [];
    var run := PageRun(w.start, w.end);
    var trail: seq<Token> := if w.end < totalPages - 1 then [Ellipsis] else [];
    assert r == [Page(1)] + lead + run + trail + [Page(totalPages)];
    PageRunAt(w.start, w.end);
    var a := |lead|;
    forall i | 1 + a <= i < 1 + a + |run| ensures r[i] == Page(w.start + i - 1 - a) {
      assert r[i] == run[i - 1 - a];
    }
  }

  /** The page shown at each index of a truncated list, from where it sits. */
  lemma TruncatedPageAt(w: Window, totalPages: int)
    requires 2 <= w.start <= w.end <= totalPages - 1
    ensures var r := Truncated(w, totalPages);
      var a := if w.start > 2 then 1 else 0;
      forall i :: 0 <= i < |r| && r[i].Page? ==>
        && (i == 0 ==> r[i].n == 1)
        && (i == |r| - 1 ==> r[i].n == totalPages)
        && (0 < i < |r| - 1 ==> r[i].n == w.start + i - 1 - a && w.start <= r[i].n <= w.end)
  {
    TruncatedAt(w, totalPages);
  }

  lemma TruncatedOrdered(w: Window, totalPages: int)
    requires 2 <= w.start <= w.end <= totalPages - 1
    ensures var r := Truncated(w, totalPages);
      && (forall i :: 0 <= i < |r| && r[i].Page? ==> 1 <= r[i].n <= totalPages)
      && (forall i, j :: 0 <= i < j < |r| && r[i].Page? && r[j].Page? ==> r[i].n < r[j].n)
  {
    TruncatedPageAt(w, totalPages);
  }

  lemma TruncatedContiguous(w: Window, totalPages: int)
    requires 2 <= w.start <= w.end <= totalPages - 1
    ensures var r := Truncated(w, totalPages);
      forall i :: 0 < i < |r| && r[i - 1].Page? && r[i].Page? ==> r[i].n == r[i - 1].n + 1
  {
    TruncatedAt(w, totalPages);
    TruncatedPageAt(w, totalPages);
  }

  lemma TruncatedGaps(w: Window, totalPages: int)
    requires 2 <= w.start <= w.end <= totalPages - 1
    ensures var r := Truncated(w, totalPages);
      forall i :: 0 <= i < |r| && r[i] == Ellipsis ==>
        && 0 < i < |r| - 1
        && r[i - 1].Page? && r[i + 1].Page?
        && r[i + 1].n >= r[i - 1].n + 2
  {
    TruncatedAt(w, totalPages);
  }

  lemma TruncatedCovers(w: Window, totalPages: int)
    requires 2 <= w.start <= w.end <= totalPages - 1
    ensures AccountsForAll(Truncated(w, totalPages), totalPages)
  {
    var r := Truncated(w, totalPages);
    TruncatedAt(w, totalPages);
    var a := if w.start > 2 then 1 else 0;
    var m := w.end - w.start + 1;
    forall p | 1 <= p <= totalPages ensures Shown(r, p) || Elided(r, p) {
      if p == 1 {
        assert r[0] == Page(p);
      } else if p < w.start {
        assert r[1] == Ellipsis && r[0] == Page(1) && r[2] == Page(w.start);
      } else if p <= w.end {
        assert r[1 + a + (p - w.start)] == Page(p);
      } else if p < totalPages {
        var i := 1 + a + m;
        assert r[i] == Ellipsis && r[i - 1] == Page(w.end) && r[i + 1] == Page(totalPages);
      } else {
        assert r[|r| - 1] == Page(p);
      }
    }
  }

  lemma TruncatedWellFormed(w: Window, totalPages: int)
    requires 2 <= w.start <= w.end <= totalPages - 1
    ensures WellFormed(Truncated(w, totalPages), totalPages)
    ensures AccountsForAll(Truncated(w, totalPages), totalPages)
  {
    TruncatedOrdered(w, totalPages);
    TruncatedContiguous(w, totalPages);
    TruncatedGaps(w, totalPages);
    TruncatedCovers(w, totalPages);
  }

  lemma NoTruncationWellFormed(currentPage: int, totalPages: int, maxVisibleButtons: int)
    requires 1 <= totalPages <= maxVisibleButtons
    ensures WellFormed(FixedPagination(currentPage, totalPages, maxVisibleButtons), totalPages)
    ensures AccountsForAll(FixedPagination(currentPage, totalPages, maxVisibleButtons), totalPages)
  {
    var r := FixedPagination(currentPage, totalPages, maxVisibleButtons);
    NoTruncationListsEveryPage(currentPage, totalPages, maxVisibleButtons);
    forall p | 1 <= p <= totalPages ensures Shown(r, p) {
      assert r[p - 1] == Page(p);
    }
  }

  /**
   * For any budget of at least 4 buttons the list is well formed: ordered,
   * in range, contiguous between ellipses, each ellipsis standing for a
   * non-empty gap, and every page either shown or elided. This holds for
   * every `currentPage`: one outside the page range falls into the
   * near-start or near-end regime.
   */
  lemma WellFormedOutput(currentPage: int, totalPages: int, maxVisibleButtons: int)
    requires 1 <= totalPages && 4 <= maxVisibleButtons
    ensures WellFormed(FixedPagination(currentPage, totalPages, maxVisibleButtons), totalPages)
    ensures AccountsForAll(FixedPagination(currentPage, totalPages, maxVisibleButtons), totalPages)
  {
    if totalPages <= maxVisibleButtons {
      NoTruncationWellFormed(currentPage, totalPages, maxVisibleButtons);
    } else {
      TruncatedWellFormed(WindowOf(currentPage, totalPages, maxVisibleButtons), totalPages);
    }
  }

  /** The calculator never puts two ellipses side by side. */
  lemma OutputHasNoAdjacentEllipses(currentPage: int, totalPages: int, maxVisibleButtons: int)
    requires 1 <= totalPages && 4 <= maxVisibleButtons
    ensures var r := FixedPagination(currentPage, totalPages, maxVisibleButtons);
      forall i :: 0 < i < |r| && r[i - 1] == Ellipsis ==> r[i] != Ellipsis
  {
    var r := FixedPagination(currentPage, totalPages, maxVisibleButtons);
    WellFormedOutput(currentPage, totalPages, maxVisibleButtons);
    NoAdjacentEllipses(r, totalPages);
  }

  /**
   * When truncating, an ellipsis appears only right after page 1 or right
   * before the last page: after page 1 exactly when the window starts past
   * page 2, before the last page exactly when it ends before the page
   * before last.
   */
  lemma EllipsisPlacement(currentPage: int, totalPages: int, maxVisibleButtons: int)
    requires 4 <= maxVisibleButtons < totalPages
    ensures var r := FixedPagination(currentPage, totalPages, maxVisibleButtons);
      var w := WindowOf(currentPage, totalPages, maxVisibleButtons);
      && |r| >= 3
      && (r[1] == Ellipsis <==> w.start > 2)
      && (r[|r| - 2] == Ellipsis <==> w.end < totalPages - 1)
      && (forall i :: 0 <= i < |r| && r[i] == Ellipsis ==> i == 1 || i == |r| - 2)
  {
    var w := WindowOf(currentPage, totalPages, maxVisibleButtons);
    TruncatedAt(w, totalPages);
  }

  /** With the current page in range, the window (or an end page) holds it. */
  lemma WindowHoldsCurrentPage(currentPage: int, totalPages: int, maxButtons: int)
    requires 4 <= maxButtons < totalPages
    requires 1 <= currentPage <= totalPages
    ensures var w := WindowOf(currentPage, totalPages, maxButtons);
      currentPage == 1 || currentPage == totalPages || w.start <= currentPage <= w.end
  {
  }

  /** For any budget of at least 4, in particular 5, the current page is listed. */
  lemma CurrentPageShown(currentPage: int, totalPages: int, maxVisibleButtons: int)
    requires 1 <= currentPage <= totalPages && 4 <= maxVisibleButtons
    ensures Page(currentPage) in FixedPagination(currentPage, totalPages, maxVisibleButtons)
  {
    var r := FixedPagination(currentPage, totalPages, maxVisibleButtons);
    if totalPages <= maxVisibleButtons {
      NoTruncationListsEveryPage(currentPage, totalPages, maxVisibleButtons);
      assert r[currentPage - 1] == Page(currentPage);
    } else {
      var w := WindowOf(currentPage, totalPages, maxVisibleButtons);
      WindowHoldsCurrentPage(currentPage, totalPages, maxVisibleButtons);
      TruncatedAt(w, totalPages);
      var a := if w.start > 2 then 1 else 0;
      if currentPage == 1 {
        assert r[0] == Page(currentPage);
      } else if currentPage == totalPages {
        assert r[|r| - 1] == Page(currentPage);
      } else {
        assert r[1 + a + (currentPage - w.start)] == Page(currentPage);
      }
    }
  }

  /**
   * Length of the list. Without truncation it has one token per page. When
   * truncating it has exactly `maxVisibleButtons` tokens for an odd budget;
   * for an even budget the centred window is one page wider than the
   * budget leaves room for, so that regime yields one token more.
   */
  lemma Width(currentPage: int, totalPages: int, maxVisibleButtons: int)
    requires 1 <= totalPages && 4 <= maxVisibleButtons
    ensures var r := FixedPagination(currentPage, totalPages, maxVisibleButtons);
      |r| == if totalPages <= maxVisibleButtons then totalPages
             else if maxVisibleButtons % 2 == 1
                     || RegimeOf(currentPage, totalPages, maxVisibleButtons) != Centred
             then maxVisibleButtons
             else maxVisibleButtons + 1
  {
    if totalPages > maxVisibleButtons {
      TruncatedAt(WindowOf(currentPage, totalPages, maxVisibleButtons), totalPages);
    }
  }

  /** The budget the control uses, 5, gives a list of exactly 5 tokens once truncating. */
  lemma FixedWidthAtFive(currentPage: int, totalPages: int)
    requires 1 <= totalPages
    ensures |FixedPagination(currentPage, totalPages, 5)| == if totalPages > 5 then 5 else totalPages
  {
    Width(currentPage, totalPages, 5);
  }

  /**
   * The whole behaviour at the budget the control uses, 5, once truncating:
   * near the start pages 1-3 then the last page, near the end page 1 then
   * the last three pages, otherwise page 1, the current page and the last
   * page, each gap marked by an ellipsis.
   */
  lemma TruncatedAtFive(currentPage: int, totalPages: int)
    requires totalPages > 5
    ensures FixedPagination(currentPage, totalPages, 5) ==
      if currentPage <= 2 then
        [Page(1), Page(2), Page(3), Ellipsis, Page(totalPages)]
      else if currentPage > totalPages - 2 then
        [Page(1), Ellipsis, Page(totalPages - 2), Page(totalPages - 1), Page(totalPages)]
      else
        [Page(1), Ellipsis, Page(currentPage), Ellipsis, Page(totalPages)]
  {
    var w := WindowOf(currentPage, totalPages, 5);
    assert FixedPagination(currentPage, totalPages, 5) == Truncated(w, totalPages);
    if currentPage <= 2 {
      assert w == Window(2, 3);
      assert PageRun(2, 3) == [Page(2), Page(3)];
    } else if currentPage > totalPages - 2 {
      assert w == Window(totalPages - 2, totalPages - 1);
      assert PageRun(totalPages - 2, totalPages - 1) == [Page(totalPages - 2), Page(totalPages - 1)];
    } else {
      assert w == Window(currentPage, currentPage);
      assert PageRun(currentPage, currentPage) == [Page(currentPage)];
    }
  }

  /** Concrete lists for the budget of 5: few pages, and each of the three regimes. */
  lemma ExampleFewPages()
    ensures FixedPagination(1, 3, 5) == [Page(1), Page(2), Page(3)]
  {
    assert PageRun(2, 3) == [Page(2), Page(3)];
  }

  lemma ExampleNearStart()
    ensures FixedPagination(1, 10, 5) == [Page(1), Page(2), Page(3), Ellipsis, Page(10)]
  {
    TruncatedAtFive(1, 10);
  }

  lemma ExampleNearEnd()
    ensures FixedPagination(10, 10, 5) == [Page(1), Ellipsis, Page(8), Page(9), Page(10)]
  {
    TruncatedAtFive(10, 10);
  }

  lemma ExampleCentred()
    ensures FixedPagination(5, 10, 5) == [Page(1), Ellipsis, Page(5), Ellipsis, Page(10)]
    ensures FixedPagination(6, 20, 5) == [Page(1), Ellipsis, Page(6), Ellipsis, Page(20)]
  {
    TruncatedAtFive(5, 10);
    TruncatedAtFive(6, 20);
  }

  /** A page beyond the last, as an unclamped query string can give, lists no current page. */
  lemma ExamplePageBeyondLast()
    ensures FixedPagination(99, 10, 5) == [Page(1), Ellipsis, Page(8), Page(9), Page(10)]
  {
    TruncatedAtFive(99, 10);
  }

  /**
   * Why the budget must be at least 4: with 3 buttons the centred window
   * is empty and the two ellipses end up side by side.
   */
  lemma BudgetThreeDoubleEllipsis()
    ensures FixedPagination(2, 4, 3) == [Page(1), Ellipsis, Ellipsis, Page(4)]
    ensures !WellFormed(FixedPagination(2, 4, 3), 4)
  {
    var r := FixedPagination(2, 4, 3);
    assert WindowOf(2, 4, 3) == Window(3, 1);
    assert PageRun(3, 1) == [];
    assert r == [Page(1), Ellipsis, Ellipsis, Page(4)];
    assert r[1] == Ellipsis && !r[2].Page?;
  }

  // ---------------------------------------------------------------------
  // The control around the list: arrows, active page, links
  // ---------------------------------------------------------------------

  predicate PrevDisabled(currentPage: int)
  {
    currentPage <= 1
  }

  function PrevTarget(currentPage: int): int
  {
    currentPage - 1
  }

  predicate NextDisabled(currentPage: int, totalPages: int)
  {
    currentPage >= totalPages
  }

  function NextTarget(currentPage: int): int
  {
    currentPage + 1
  }

  /** Strict equality of the current page with a token: '...' is never active. */
  predicate IsActive(currentPage: int, t: Token)
  {
    t == Page(currentPage)
  }

  /** A page token links to its page; the ellipsis gets no page ('#'). */
  function LinkTarget(t: Token): Option<int>
  {
    match t
    case Page(n) => Some(n)
    case Ellipsis => None
  }

  /**
   * With the current page in range, each arrow is disabled exactly when
   * the page it would lead to does not exist, and otherwise leads to the
   * neighbouring page on its side.
   */
  lemma ArrowsDisabledExactlyAtTheEdges(currentPage: int, totalPages: int)
    requires 1 <= currentPage <= totalPages
    ensures PrevDisabled(currentPage) <==> currentPage == 1
    ensures PrevDisabled(currentPage) <==> !(1 <= PrevTarget(currentPage) <= totalPages)
    ensures !PrevDisabled(currentPage) ==> PrevTarget(currentPage) + 1 == currentPage
    ensures NextDisabled(currentPage, totalPages) <==> currentPage == totalPages
    ensures NextDisabled(currentPage, totalPages) <==> !(1 <= NextTarget(currentPage) <= totalPages)
    ensures !NextDisabled(currentPage, totalPages) ==> NextTarget(currentPage) == currentPage + 1
  {
  }

  /** Exactly one entry of the list is marked active. */
  lemma ExactlyOneActive(currentPage: int, totalPages: int, maxVisibleButtons: int)
    requires 1 <= currentPage <= totalPages && 4 <= maxVisibleButtons
    ensures var r := FixedPagination(currentPage, totalPages, maxVisibleButtons);
      && (exists i :: 0 <= i < |r| && IsActive(currentPage, r[i]))
      && (forall i, j ::
            0 <= i < |r| && 0 <= j < |r| && IsActive(currentPage, r[i]) && IsActive(currentPage, r[j])
            ==> i == j)
  {
    var r := FixedPagination(currentPage, totalPages, maxVisibleButtons);
    CurrentPageShown(currentPage, totalPages, maxVisibleButtons);
    WellFormedOutput(currentPage, totalPages, maxVisibleButtons);
    var k :| 0 <= k < |r| && r[k] == Page(currentPage);
    assert IsActive(currentPage, r[k]);
  }

  /**
   * The control does not clamp the page it reads from the query string: a
   * current page outside `[1, totalPages]` is not listed, so no entry is
   * marked active.
   */
  lemma OutOfRangePageNotActive(currentPage: int, totalPages: int, maxVisibleButtons: int)
    requires 1 <= totalPages && 4 <= maxVisibleButtons
    requires currentPage < 1 || currentPage > totalPages
    ensures var r := FixedPagination(currentPage, totalPages, maxVisibleButtons);
      forall i :: 0 <= i < |r| ==> !IsActive(currentPage, r[i])
  {
    WellFormedOutput(currentPage, totalPages, maxVisibleButtons);
  }

  /** Every link in the list leads to an existing page; only the ellipsis has none. */
  lemma LinksLeadToPages(currentPage: int, totalPages: int, maxVisibleButtons: int)
    requires 1 <= totalPages && 4 <= maxVisibleButtons
    ensures var r := FixedPagination(currentPage, totalPages, maxVisibleButtons);
      forall i :: 0 <= i < |r| ==>
        && (LinkTarget(r[i]).None? <==> r[i] == Ellipsis)
        && (LinkTarget(r[i]).Some? ==> 1 <= LinkTarget(r[i]).value <= totalPages)
  {
    WellFormedOutput(currentPage, totalPages, maxVisibleButtons);
  }
}
