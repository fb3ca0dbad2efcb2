# Pagination window calculator

A Dafny model of the invoice list's pagination control in
`app/ui/invoices/pagination.tsx`. The control asks `generateFixedPagination`
for the list of buttons to show, given the current page, the number of
pages and a button budget (5 in the control). Each entry is a page number
or the `'...'` placeholder. Around that list the control draws a previous
and a next arrow and highlights the active page.

Everything lives in one module, `Pagination` (`pagination.dfy`):

- `Token = Page(n) | Ellipsis` replaces the source's `number | string`
  entries.
- `FixedPagination` is the specification: a total function of the three
  inputs, defined from `RegimeOf` (which of the three window placements
  applies), `WindowOf` (the window `[start, end]`) and `Truncated`.
- `GenerateFixedPagination` is the source function as it is written. It
  grows a list with pushes in two loops and picks `start`/`end` in an
  if-chain. It is proved to return exactly `FixedPagination`.
- The lemmas state what the list means. Without truncation it is every
  page, 1 to `totalPages`. With truncation:
  - it starts at 1 and ends at `totalPages`;
  - it is strictly increasing and within range;
  - neighbouring pages in it are consecutive;
  - each ellipsis sits between two pages and stands for at least one
    omitted page;
  - every page is either shown or covered by an ellipsis;
  - the length is exactly the budget for odd budgets of at least 5.
- When `1 <= currentPage <= totalPages`, the current page is shown and is
  the only active entry. The control does not clamp the page it reads from
  the query string, and a page outside that range is neither shown nor
  active: with 10 pages, page 99 gives `[1, …, 8, 9, 10]`
  (`ExamplePageBeyondLast`).
- `PrevDisabled`, `PrevTarget`, `NextDisabled`, `NextTarget`, `IsActive` and
  `LinkTarget` model the expressions the control passes to the arrows and
  the page buttons.

Two behaviours of the code are worth knowing. Both are proved, and neither
affects the control, whose budget is 5:

- The budget counts the first and last page buttons as well. With an odd
  budget of at least 5 the truncated list has exactly that many entries.
  With an even budget of at least 4 the centred window is one page too
  wide, so the list gets one extra entry (`Width`).
- The window arithmetic needs a budget of at least 4. With a budget of 3,
  the centred case yields an empty window and two ellipses side by side
  (`BudgetThreeDoubleEllipsis`). The well-formedness lemmas that cover
  truncation therefore require `maxVisibleButtons >= 4`. They hold for any
  `currentPage`: a page outside the range falls into the near-start or
  near-end placement.

`Math.floor(x / 2)` on integers is `FloorHalf`. Dafny's `/` with a positive
divisor also rounds down, negative `x` included, and `FloorHalf`'s contract
states floor directly.

## Model

| member | source | states |
|---|---|---|
| `Pagination.GenerateFixedPagination` | app/ui/invoices/pagination.tsx:116-160 | the push-based procedure, with its two loops and the start/end if-chain, returns exactly the list `FixedPagination` specifies, for every input |
| `Pagination.FixedPagination` | app/ui/invoices/pagination.tsx:116-160 | every result, on any input, is non-empty and begins with page 1 |
| `Pagination.Min` | app/ui/invoices/pagination.tsx:122 | the clamped budget is the smaller of budget and page count |
| `Pagination.FloorHalf` | app/ui/invoices/pagination.tsx:134-142 | the result `r` is the floor of `x / 2`, meaning `2r <= x < 2r + 2`, negative `x` included |
| `Pagination.PageRun` | app/ui/invoices/pagination.tsx:149-151 | the run from `lo` to `hi` has `hi - lo + 1` entries, or none when `hi < lo` |
| `Pagination.PageRunAt` | app/ui/invoices/pagination.tsx:149-151 | entry `k` of the run from `lo` is page `lo + k` |
| `Pagination.PushExtendsRun` | app/ui/invoices/pagination.tsx:149-151 | a helper for the loop proof in `GenerateFixedPagination`, not a property of the source: it unfolds `PageRun` one step under a prefix, so pushing page `hi + 1` after the run `lo..hi` gives the run `lo..hi + 1` |
| `Pagination.RegimeOf` | app/ui/invoices/pagination.tsx:134-143 | no contract of its own: it picks which branch of the start/end if-chain applies (near the start, near the end, or centred); `WindowOf` and `Width` are stated in terms of it |
| `Pagination.WindowOf` | app/ui/invoices/pagination.tsx:131-143 | with a budget of at least 4 and more pages than that, the window is non-empty and lies strictly between page 1 and the last page: `2 <= start <= end <= totalPages - 1` |
| `Pagination.Truncated` | app/ui/invoices/pagination.tsx:145-157 | the truncated list begins with page 1 and ends with the last page |
| `Pagination.TruncatedAt` | app/ui/invoices/pagination.tsx:145-157 | index by index: page 1, an ellipsis exactly when `start > 2`, pages `start..end`, an ellipsis exactly when `end < totalPages - 1`, then the last page; the length is the sum of these parts |
| `Pagination.NoTruncationListsEveryPage` | app/ui/invoices/pagination.tsx:124-129 | when `1 <= totalPages <= budget`, the list is exactly pages 1 to `totalPages` in order, with no ellipsis |
| `Pagination.NoPagesShowsPageOne` | app/ui/invoices/pagination.tsx:124-129 | with no pages (`totalPages <= 0`, within the budget) the list is just page 1 |
| `Pagination.TruncatedEnds` | app/ui/invoices/pagination.tsx:122-157 | when `totalPages` exceeds the budget, the clamped budget equals the budget, and the list begins with page 1 and ends with page `totalPages`, for any current page |
| `Pagination.TruncatedPageAt` | app/ui/invoices/pagination.tsx:145-157 | each page entry of a truncated list has a value fixed by its position: 1 first, `totalPages` last, and `start + offset` in between, inside the window |
| `Pagination.TruncatedOrdered` | app/ui/invoices/pagination.tsx:134-157 | every page of a truncated list lies in `[1, totalPages]`, and pages strictly increase along the list |
| `Pagination.TruncatedContiguous` | app/ui/invoices/pagination.tsx:145-157 | two pages side by side in a truncated list are consecutive numbers |
| `Pagination.TruncatedGaps` | app/ui/invoices/pagination.tsx:145-155 | an ellipsis is never first or last, sits between two pages, and those pages differ by at least 2, so the gap is not empty |
| `Pagination.TruncatedCovers` | app/ui/invoices/pagination.tsx:145-157 | every page from 1 to `totalPages` is either shown or lies strictly inside the gap of some ellipsis |
| `Pagination.TruncatedWellFormed` | app/ui/invoices/pagination.tsx:134-157 | a truncated list with a proper window is well formed and accounts for every page |
| `Pagination.NoTruncationWellFormed` | app/ui/invoices/pagination.tsx:126-129 | the untruncated list is well formed and shows every page |
| `Pagination.WellFormedOutput` | app/ui/invoices/pagination.tsx:116-160 | for `totalPages >= 1`, a budget of at least 4 and any current page, the list is well formed: it starts at 1 and ends at `totalPages`, pages are in range and strictly increasing, neighbouring pages are consecutive, each ellipsis marks a non-empty gap, and every page is shown or elided |
| `Pagination.NoAdjacentEllipses` | app/ui/invoices/pagination.tsx:145-155 | a well-formed list never has two ellipses side by side |
| `Pagination.OutputHasNoAdjacentEllipses` | app/ui/invoices/pagination.tsx:145-155 | for `totalPages >= 1`, a budget of at least 4 and any current page, the calculator's list never has two ellipses side by side |
| `Pagination.EllipsisPlacement` | app/ui/invoices/pagination.tsx:145-155 | when truncating, the entry after page 1 is an ellipsis if and only if `start > 2`, the entry before the last page is an ellipsis if and only if `end < totalPages - 1`, and no ellipsis appears anywhere else |
| `Pagination.WindowHoldsCurrentPage` | app/ui/invoices/pagination.tsx:134-143 | with the current page in range and a budget of at least 4, the current page is 1, is `totalPages`, or lies inside the window |
| `Pagination.CurrentPageShown` | app/ui/invoices/pagination.tsx:116-160 | with `1 <= currentPage <= totalPages` and a budget of at least 4 (so also the control's 5), `Page(currentPage)` appears in the list |
| `Pagination.Width` | app/ui/invoices/pagination.tsx:116-158 | the length is `totalPages` without truncation; with truncation it is exactly the budget when the budget is odd or the window is not centred, and budget + 1 for an even budget with a centred window |
| `Pagination.FixedWidthAtFive` | app/ui/invoices/pagination.tsx:116-158 | at the control's budget of 5 (line 13), the list has exactly 5 entries when `totalPages > 5`, and `totalPages` entries otherwise |
| `Pagination.TruncatedAtFive` | app/ui/invoices/pagination.tsx:134-157 | at budget 5 with more than 5 pages, the list is exactly `[1,2,3,…,N]` near the start, `[1,…,N-2,N-1,N]` near the end, and `[1,…,c,…,N]` otherwise |
| `Pagination.ExampleFewPages` | app/ui/invoices/pagination.tsx:126-129 | `(1, 3, 5)` gives `[1, 2, 3]` |
| `Pagination.ExampleNearStart` | app/ui/invoices/pagination.tsx:134-136 | `(1, 10, 5)` gives `[1, 2, 3, …, 10]` |
| `Pagination.ExampleNearEnd` | app/ui/invoices/pagination.tsx:137-139 | `(10, 10, 5)` gives `[1, …, 8, 9, 10]` |
| `Pagination.ExampleCentred` | app/ui/invoices/pagination.tsx:140-143 | `(5, 10, 5)` gives `[1, …, 5, …, 10]` and `(6, 20, 5)` gives `[1, …, 6, …, 20]` |
| `Pagination.ExamplePageBeyondLast` | app/ui/invoices/pagination.tsx:137-139 | `(99, 10, 5)` gives `[1, …, 8, 9, 10]`: an unclamped page beyond the last falls into the near-end window and is not listed |
| `Pagination.BudgetThreeDoubleEllipsis` | app/ui/invoices/pagination.tsx:141-155 | with a budget of 3, `(2, 4, 3)` gives `[1, …, …, 4]`, which is not well formed, so the budget-of-4 precondition cannot be dropped |
| `Pagination.PrevDisabled` | app/ui/invoices/pagination.tsx:28 | no contract of its own: the test `currentPage <= 1`; `ArrowsDisabledExactlyAtTheEdges` states what it means |
| `Pagination.PrevTarget` | app/ui/invoices/pagination.tsx:27 | no contract of its own: the page `currentPage - 1` the previous arrow links to; `ArrowsDisabledExactlyAtTheEdges` states what it means |
| `Pagination.NextDisabled` | app/ui/invoices/pagination.tsx:46 | no contract of its own: the test `currentPage >= totalPages`; `ArrowsDisabledExactlyAtTheEdges` states what it means |
| `Pagination.NextTarget` | app/ui/invoices/pagination.tsx:45 | no contract of its own: the page `currentPage + 1` the next arrow links to; `ArrowsDisabledExactlyAtTheEdges` states what it means |
| `Pagination.IsActive` | app/ui/invoices/pagination.tsx:37 | no contract of its own: strict equality of the current page with an entry, so the ellipsis is never active; `ExactlyOneActive` and `OutOfRangePageNotActive` state what it means |
| `Pagination.LinkTarget` | app/ui/invoices/pagination.tsx:35 | no contract of its own: a page entry links to its page and the ellipsis to no page (`'#'`); `LinksLeadToPages` states what it means |
| `Pagination.ArrowsDisabledExactlyAtTheEdges` | app/ui/invoices/pagination.tsx:25-47 | with the current page in range: the previous arrow is disabled exactly on page 1, the next arrow exactly on the last page; each is disabled exactly when its target is not a page; an enabled arrow leads to the neighbouring page |
| `Pagination.ExactlyOneActive` | app/ui/invoices/pagination.tsx:32-39 | with the current page in range and a budget of at least 4, exactly one entry of the list is marked active |
| `Pagination.OutOfRangePageNotActive` | app/ui/invoices/pagination.tsx:11-37 | for `totalPages >= 1` and a budget of at least 4, a current page below 1 or above `totalPages` (the control does not clamp it) matches no entry, so nothing is marked active |
| `Pagination.LinksLeadToPages` | app/ui/invoices/pagination.tsx:35 | in a list for `totalPages >= 1`, only the ellipsis entries have no link, and every link leads to a page in `[1, totalPages]` |

## Left out

- Rendering is left out: the JSX markup, the `clsx` class names, the icons, and the bodies of `PaginationNumber` and `PaginationArrow`. They are presentation only.
- `usePathname`, `useSearchParams` and `Link` are not modelled. They are framework calls whose behaviour is not visible here.
- `createPageURL` is left out. It is string templating over `URLSearchParams`. The model keeps only which page a button leads to (`LinkTarget`, `PrevTarget`, `NextTarget`), not the URL text.
- Reading `currentPage` from the query string is left out. That step (`Number(...) || 1`) depends on JavaScript's string-to-number conversion. The model takes `currentPage` as a given integer.
- Page numbers are unbounded integers. JavaScript numbers are doubles, so the model does not cover fractional or non-finite inputs, or counts beyond 2^53.
- The function is modelled for every integer input, but each property is proved on its own domain:
  - `TruncatedEnds` holds for any input with more pages than the budget.
  - `NoTruncationListsEveryPage` and `NoTruncationWellFormed` hold for `1 <= totalPages <= budget`, at any budget.
  - `NoPagesShowsPageOne` holds for `totalPages <= 0` within the budget.
  - `WellFormedOutput`, `OutputHasNoAdjacentEllipses`, `Width` and `LinksLeadToPages` hold for `totalPages >= 1` and a budget of at least 4, for any current page.
  - `EllipsisPlacement` holds when truncating, that is for `4 <= budget < totalPages`, for any current page.
  - `CurrentPageShown` and `ExactlyOneActive` additionally need `1 <= currentPage <= totalPages`. `OutOfRangePageNotActive` covers the other current pages.
  - `ArrowsDisabledExactlyAtTheEdges` needs `1 <= currentPage <= totalPages`.
  - Below a budget of 4 the list can be malformed; `BudgetThreeDoubleEllipsis` shows this.
- Idempotence gets no lemma. A Dafny function gives the same result for the same arguments by definition.
- `RegimeOf`, `PrevDisabled`, `PrevTarget`, `NextDisabled`, `NextTarget`, `IsActive` and `LinkTarget` carry no contract of their own. `RegimeOf` is the branch test of the start/end if-chain, and each of the others is the one-line expression from the source. What they mean is stated in `WindowOf`, `Width`, `ArrowsDisabledExactlyAtTheEdges`, `ExactlyOneActive`, `OutOfRangePageNotActive` and `LinksLeadToPages`.
