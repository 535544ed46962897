# Pagination estimator of the specification-sheet PDF renderer

The renderer turns an HTML specification sheet into a PDF by printing it in a
headless browser, then drops the blank pages the browser leaves at the end.
To know how many pages to keep, it runs a small script inside the page before
printing. The script walks every `.frame-19` container in document order.
In each container it picks the child `DIV`s whose trimmed text is not empty
(the *sections*). For each section it updates two variables:

- `usedHeight`: the pixels taken on the current page;
- `lastPage`: the number of the current page.

For each section it also decides whether to force a page break before it.
The constants are:

- page height 1122 (A4 at 96 DPI);
- first-page offset 250;
- margin 130;
- padding 40, added to every measured height.

A section of effective height `h` is placed in one of three ways:

- **Oversized** (`h >= 1122`): the page counter advances by `ceil(h / 1122)`.
  The used height becomes `h % 1122`, and a break is always forced.
- **New page** (`usedHeight + h + 130 >= 1122`): the page counter advances by
  one and the used height becomes `h`. A break is forced unless the section
  is the first of its container.
- **Fits**: the used height grows by `h`.

The state carries over from one container to the next. The script returns
the final page counter.

On the host side, the C# code uses that number when it is positive. Otherwise
it falls back to the PDF's physical page count. It then keeps pages `1..N`.

The Dafny model:

- `geometry.dfy` (`Geometry`) holds the constants and `CeilDiv`, the integer
  ceiling that stands in for `Math.ceil`.
- `sections.dfy` (`Sections`) models the section filter. `IsSection` is the
  filter predicate (a `DIV` whose text is not blank after JavaScript's `trim`,
  modelled by `TrimStart` and `TrimEnd`). It also adds the `+ 40` padding.
- `estimator.dfy` (`Estimator`) holds the three-way test `Classify`, the
  per-section step `Place` and two folds: `RunFrame` over one container and
  `Run` over all containers. Both are defined by recursion on the prefix, so
  a section's index is the length of the prefix before it. `Estimate` is the
  script's return value.
- `estimator_loop.dfy` (`EstimatorLoop`) holds the script as written: two
  nested loops that update the two variables in place. It is proved equal to
  the fold.
- `estimator_properties.dfy` (`EstimatorProperties`) holds the lemmas about
  the fold: what the break flags mean, the carry-over between containers,
  monotonicity, single-page documents, and lower and upper bounds on the
  estimate.
- `render.dfy` (`Render`) models the fallback, the page trimming and the two
  composed.

The input to the model is the measured height of each section, taken after
the script has styled it, as a natural number of pixels.

Two facts follow from the proofs:

- The estimate is always at least 1. So the `lastValidPage <= 0` fallback
  cannot be reached through the estimator's arithmetic.
- The estimate has room for all the content (`CapacityBound`) unless some
  section's effective height is an exact multiple of 1122. In that case the
  oversized branch sets `usedHeight` to 0 on a page that is actually full.
  The next section can then be stacked onto that page, so the estimate falls
  short of the content. `ExactMultipleUndercounts` shows the concrete case: a
  frame with measured heights `[2204, 950]` has estimate 3, but its content
  needs more than 3 pages. Trimming then keeps pages 1..3 and drops the
  fourth page, which holds the second section.

## Model

| member | source | states |
|---|---|---|
| Geometry.CeilDiv | InProcessPdfRender.cs:43 | the result is the least page count whose total height covers the section: `q * 1122 >= h` and `(q - 1) * 1122 < h`, and at least 1 for a non-empty height |
| Geometry.CeilDivFloor | InProcessPdfRender.cs:43-45 | the ceiling and the remainder are consistent: for a height with no remainder the ceiling is the exact quotient; otherwise it is one more, and `(ceil - 1) * 1122 + h % 1122 == h` |
| Sections.TrimStart | InProcessPdfRender.cs:33 | drops exactly the leading ECMAScript white space: the result is a suffix of the text, everything before it is white space, and it is empty or starts with a character that is not white space |
| Sections.TrimEnd | InProcessPdfRender.cs:33 | drops exactly the trailing ECMAScript white space: the result is a prefix of the text, everything after it is white space, and it is empty or ends with a character that is not white space |
| Sections.TrimEmptyIff | InProcessPdfRender.cs:33 | a child's trimmed text is empty exactly when every character of it is JavaScript white space |
| Sections.SelectSections | InProcessPdfRender.cs:32-33 | every selected child is a DIV with non-blank text and one of the frame's children, and every such child is selected |
| Sections.SelectSectionsAppend | InProcessPdfRender.cs:32-33 | selection distributes over concatenation, so the retained children keep their document order |
| Sections.SectionHeights | InProcessPdfRender.cs:32-39 | one measured height per selected section of a frame, the `i`-th being the height of the `i`-th selected section |
| Sections.DocumentHeights | InProcessPdfRender.cs:29-39 | one height list per frame, in document order, each being that frame's selected-section heights |
| Sections.EffectiveHeight | InProcessPdfRender.cs:39 | a section is charged at least the 40-pixel padding |
| Estimator.Place | InProcessPdfRender.cs:41-56 | after any section the used height is below the page height and the page counter has not decreased; the counter stays put exactly when `used + h + 130 < 1122`, and then `h` is stacked with no break; an oversized section always gets a break, advances the counter by `CeilDiv(h, 1122)` and leaves `h % 1122`; a section moved to the next page advances it by exactly 1, leaves exactly `h`, and gets a break exactly when its index is not 0; a break always goes with a new page; no section advances the counter by more than its own page count |
| Estimator.RunFrame | InProcessPdfRender.cs:35-57 | one flag per section of the frame, the page counter does not decrease over a frame, and the used-height bound is kept |
| Estimator.Run | InProcessPdfRender.cs:29-58 | one flag list per frame, each as long as its frame; the page counter does not decrease over the document; the used-height bound is kept |
| Estimator.Estimate | InProcessPdfRender.cs:24-60 | the returned last page is at least 1 for every input |
| Estimator.EstimateDocument | InProcessPdfRender.cs:22-61 | the estimate for a whole document, from its frames' children, is at least 1 |
| EstimatorLoop.EstimateLastPage | InProcessPdfRender.cs:22-61 | the nested-loop script returns exactly the fold's estimate (so at least 1) and exactly the fold's break flags, one per selected section of every frame |
| EstimatorProperties.FrameBreakAt | InProcessPdfRender.cs:35-51 | within a frame, the flag of section `j` is the decision taken for it from the state the frame's first `j` sections leave, and that decision yields the state after `j + 1` sections |
| EstimatorProperties.RunBreaksAt | InProcessPdfRender.cs:29-58 | the flags of frame `f` are those of that frame run alone from the state the earlier frames leave |
| EstimatorProperties.BreakFlagAt | InProcessPdfRender.cs:29-56 | the flag of every section of every frame is the step's decision from the state just before it, and the step yields the state just after it |
| EstimatorProperties.StateCarriesAcrossFrames | InProcessPdfRender.cs:25-29 | the first frame starts from page 1 with 250 pixels used, and every later frame starts exactly where the previous one ended, with no reset |
| EstimatorProperties.FirstSectionBreak | InProcessPdfRender.cs:42-49 | the first section of any frame, including a later one, gets a break exactly when it is oversized |
| EstimatorProperties.BreakIffNewPage | InProcessPdfRender.cs:42-55 | past the first section of a frame, a break is marked exactly before the sections that advance the page counter |
| EstimatorProperties.FramePrefixMonotone | InProcessPdfRender.cs:35-57 | the page counter after a prefix of a frame is no greater than after the whole frame |
| EstimatorProperties.RunPrefixMonotone | InProcessPdfRender.cs:29-58 | the page counter after a prefix of the frames is no greater than after all of them |
| EstimatorProperties.BeforeWithinEstimate | InProcessPdfRender.cs:25-57 | before every section the counter lies between 1 and the final estimate, and the used height is below the page height |
| EstimatorProperties.OversizedSectionPages | InProcessPdfRender.cs:42-46 | an oversized section makes the estimate at least its starting page plus `ceil(h / 1122)`; a section taller than two pages makes it at least 4 |
| EstimatorProperties.FrameStaysOnPage | InProcessPdfRender.cs:48-55 | from a state with room for the margin, a frame leaves the page unchanged exactly when the used height, all its sections and the margin fit on the page; then the sections are stacked and none gets a break |
| EstimatorProperties.RunStaysOnPage | InProcessPdfRender.cs:29-58 | the same across any number of frames |
| EstimatorProperties.OnePageIff | InProcessPdfRender.cs:24-60 | the estimate is 1 exactly when `250 + (sum of effective heights) + 130 < 1122`, and then no break is marked |
| EstimatorProperties.PlaceAdvances | InProcessPdfRender.cs:42-56 | unless the height is an exact multiple of the page height, placing a section moves the bottom of the used content down by at least the section's height |
| EstimatorProperties.FrameAdvances | InProcessPdfRender.cs:35-57 | the same over a frame, by at least the sum of its sections |
| EstimatorProperties.RunAdvances | InProcessPdfRender.cs:29-58 | the same over a document |
| EstimatorProperties.CapacityBound | InProcessPdfRender.cs:24-60 | with no section an exact multiple of the page height, `250 + (sum of effective heights) < estimate * 1122` |
| EstimatorProperties.ExactMultipleUndercounts | InProcessPdfRender.cs:42-55 | for measured heights `[2204, 950]` the estimate is 3, but 3 pages are less than the offset plus the content |
| EstimatorProperties.FramePagesBound | InProcessPdfRender.cs:35-57 | over a frame the counter advances by at most the sum of `ceil(h / 1122)` over its sections |
| EstimatorProperties.RunPagesBound | InProcessPdfRender.cs:29-58 | the same over a document |
| EstimatorProperties.UpperBound | InProcessPdfRender.cs:24-60 | the estimate is at most 1 plus the sum of `ceil(h / 1122)` over all sections |
| Render.LastValidPage | InProcessPdfRender.cs:76-79 | the page count is the estimate when it is positive and the physical page count otherwise; it is positive exactly when one of the two is |
| Render.TrimPdf | InProcessPdfRender.cs:86-99 | trimming succeeds exactly when `1 <= N <= page count`; it then yields exactly the first `N` pages, in order and unchanged, and they followed by the dropped pages give the original; otherwise it yields the matching error |
| Render.RenderSpecificationSheet | InProcessPdfRender.cs:75-83 | the fallback is never taken: the output is the first `Estimate` pages of the rendered PDF when the PDF has that many pages, and an out-of-range error naming the estimate otherwise |
| Render.FallbackKeepsEveryPage | InProcessPdfRender.cs:76-107 | on the fallback path, a non-empty rendered PDF is kept whole |

## Left out

- Browser lifecycle and I/O are not modelled. This covers creating and
  launching the browser, setting the content, print-media emulation, printing
  to PDF and closing (InProcessPdfRender.cs:11-16, 64-73). The printed PDF is
  a parameter of `RenderSpecificationSheet`.
- The DOM mutations other than the break flag are not modelled: removing the
  `.divider` elements and the background and padding assignments
  (InProcessPdfRender.cs:19, 30, 36-37). The measured heights are taken as
  inputs, measured after that styling. The break flags are returned instead
  of being written to `style.pageBreakBefore`.
- `document.querySelectorAll('.frame-19')` is not modelled. The document is
  given as the list of matching containers, already in document order.
  Nesting of containers is not modelled.
- The PDF library (reader, writer, merger, page count) is not modelled
  (InProcessPdfRender.cs:86-108). A PDF is a sequence of abstract pages and
  its page count is the sequence's length. What the merger does for a page
  number outside the document is the library's behaviour. The model reduces
  it to an error value.
- Heights are natural numbers, not floating-point values. `Math.ceil` on a
  double quotient is integer ceiling division, and `%` on doubles is `%` on
  naturals.
- Render.LastValidPage: the 32-bit width of C#'s `int` is not modelled. The
  estimate is an unbounded natural. A count beyond `int`'s range would need
  more than two billion pages; the model does not represent the conversion of
  the script's result to `int` failing.
- Program.cs is not part of this model. It installs the browser, scans the
  directory, reads and writes files and writes to the console.
