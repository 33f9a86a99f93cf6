# Slide deck PDF export, modelled in Dafny

The slide deck component renders five slide cards in a container and offers a
"Download PDF" action. That action, `handleExport`, walks the container's
children in index order. It skips an absent child. For a present child it
captures the element as a PNG image with html2canvas. For every present child
at an index above 0 it first adds a page to the jsPDF document. Then it draws the image
over the whole 842×595 pt landscape page. At the end it saves the document as
`english-literature-benefits.pdf`. An `isExporting` flag is set at the start
and cleared in a `finally` block. The deck also gives each slide the id
`"slide-" + (index + 1)` and shows the badge made by replacing `"slide-"`
with `"#"` in that id.

Modules, one per part of the component:

- `Options` (options.dfy): the `Option` and `Result` values used throughout.
- `SlideIds` (slide_ids.dfy): decimal rendering of numbers, slide ids,
  first-occurrence string replacement (without the `$` patterns), badges, and the `chunkedSlides` mapping.
- `PdfDocument` (pdf.dfy): pages and placed images as values, and a class
  `Pdf`. It keeps an append-only `pages` sequence and a `current` page
  index. It has the jsPDF constructor, `addPage`, the page-size getters and
  `addImage`.
- `ExportSpec` (export_spec.dfy): a pure reference definition of the export
  loop. `Run` gives the document after the first n children, or the index
  whose capture failed. `Visited` lists the children handed to the rasterizer.
  The lemmas give the page layout, page count, full-bleed placement, ordering
  and the failure case.
- `Deck` (slide_deck.dfy): the class `SlideDeck` with the `isExporting` flag,
  the files downloaded so far, and a ghost trace of observable events
  (flag writes, document creation, rasterizer calls, downloads).
  `HandleExport` and its loop `ExportChildren` are proved against `Run`
  and `CaptureTrace`.

The deck container is a parameter, `Option<seq<Option<Element>>>`.
`None` stands for a null `deckRef.current`; a `None` child stands for an
absent child. html2canvas together with `toDataURL("image/png")` is one
total function parameter, `Element -> Option<ImageData>`; `None` means the
capture threw. Each `await` is an ordinary sequential step. The thrown
exception becomes the `Failed(index)` outcome, reached after the `finally`
block has cleared the flag.

One consequence of the code differs from the design intent of "one page per
present panel", and the model follows the code. A new page is keyed on the
loop index `i > 0`, not on the number of images already placed. So when child
0 is absent, the first page stays blank, and the page count is 1 plus the
number of present children at index 1 or above (`RunPageCount`,
`RunFirstPage`). A container with no children still saves a one-page blank
document (`Run` at n = 0).

## Model

| member | source | states |
|---|---|---|
| SlideIds.Decimal | components/SlideDeck.tsx:68 | the text `${index + 1}` is a non-empty string of decimal digits with no leading zero (it starts with '0' only for 0) |
| SlideIds.ParseDecimalOfDecimal | components/SlideDeck.tsx:68 | reading the decimal text back gives the number, so the rendering is injective |
| SlideIds.SlideIdPosition | components/SlideDeck.tsx:68 | every id starts with "slide-" and the digits after it read as the 1-based position |
| SlideIds.SlideId | components/SlideDeck.tsx:68 | an id is "slide-" followed by decimal digits; with `SlideIdPosition` those digits read as the 1-based position |
| SlideIds.SlideIdsDistinct | components/SlideDeck.tsx:66-69 | slides at different positions get different ids |
| SlideIds.ChunkedSlides | components/SlideDeck.tsx:65-70 | the mapping keeps the length, order and content of every record and attaches id `SlideId(k)` to record k |
| SlideIds.ChunkedSlidesIdsDistinct | components/SlideDeck.tsx:124-125 | the ids of the chunked deck are pairwise distinct, as their use as React keys needs |
| SlideIds.IndexFrom | components/SlideDeck.tsx:128 | returns the first position at or after `from` where the pattern occurs (nothing matches before it), or None when it occurs nowhere |
| SlideIds.Replace | components/SlideDeck.tsx:128 | replacing a string pattern leaves a string without it unchanged, and otherwise swaps its first occurrence, wherever it is, for the replacement and keeps the text around it |
| SlideIds.Badge | components/SlideDeck.tsx:128 | an id without "slide-" is shown unchanged, and an id starting with "slide-" is shown as "#" followed by the rest; with `BadgeOfSlide` the badge of slide k is "#" + (k + 1) |
| SlideIds.BadgeOfSlide | components/SlideDeck.tsx:128 | the badge of slide k is "#" followed by the decimal text of k + 1 |
| PdfDocument.Pdf.constructor | components/SlideDeck.tsx:77 | a new landscape 842×595 document has exactly one blank page, and it is current |
| PdfDocument.Pdf.AddPage | components/SlideDeck.tsx:93 | appends one blank page of the fixed format and makes it current; earlier pages are unchanged |
| PdfDocument.Pdf.PageSize | components/SlideDeck.tsx:96-97 | the current page's width and height are 842 and 595 |
| PdfDocument.Pdf.AddImage | components/SlideDeck.tsx:98 | draws the image with the given rectangle on the current (last) page only; the page count and every other page are unchanged |
| ExportSpec.Place | components/SlideDeck.tsx:92-98 | placing a capture never leaves the document without pages; `RunShape` and `ShapedAppend` state the page it fills |
| ExportSpec.Step | components/SlideDeck.tsx:80-98 | one iteration keeps at least one page when it succeeds; `RunFailure` states when it fails and `RunShape` what it draws |
| ExportSpec.Run | components/SlideDeck.tsx:77-99 | a successful run over any prefix of the children keeps at least one page; its layout, page count, full-bleed placement and failure case are stated by `RunShape`, `RunPageCount`, `RunFullBleed` and `RunFailure`, and `ExportChildren` is proved equal to it |
| ExportSpec.VisitedFacts | components/SlideDeck.tsx:79-83 | the children passed to the rasterizer are exactly the present ones below n, in strictly increasing index order |
| ExportSpec.RunShape | components/SlideDeck.tsx:77-99 | a successful run's pages: page 0 is blank exactly when child 0 is absent; the j-th present child's image is alone on page j + (0 if child 0 is present, else 1); there are no other pages |
| ExportSpec.ShapedAppend | components/SlideDeck.tsx:92-98 | a present child after index 0 appends exactly one page holding only its image |
| ExportSpec.VisitedCount | components/SlideDeck.tsx:79-83 | the number of children passed to the rasterizer is the number of present children |
| ExportSpec.RunPageCount | components/SlideDeck.tsx:77-94 | page count is 1 with no children, and 1 + (present children at index 1 or above) otherwise |
| ExportSpec.RunFullBleed | components/SlideDeck.tsx:96-98 | every page is 842×595, holds at most one image, and every image covers (0, 0) to (width, height) of its page |
| ExportSpec.RunFirstPage | components/SlideDeck.tsx:79-98 | the first page holds an image if and only if child 0 is present, and is blank otherwise |
| ExportSpec.VisitedAllPresent | components/SlideDeck.tsx:79-83 | with every child present, the visited indices are 0, 1, ..., n - 1 |
| ExportSpec.RunAllPresent | components/SlideDeck.tsx:79-99 | with all n >= 1 children present and captured, there are exactly n pages and page k holds child k's image alone |
| ExportSpec.RunFailure | components/SlideDeck.tsx:85-89 | a run fails if and only if some present child's capture fails, and it reports the first such index |
| ExportSpec.RunFailureSticks | components/SlideDeck.tsx:85-89 | after a failed capture no later child changes the outcome: the run stays failed at that index |
| Deck.CaptureTraceIsVisited | components/SlideDeck.tsx:79-85 | the rasterizer calls recorded by the loop are exactly the visited indices, in order |
| Deck.CaptureTraceBelow | components/SlideDeck.tsx:79-85 | after the first n children, only present children below n were captured, each once, in increasing index order |
| Deck.SlideDeck.constructor | components/SlideDeck.tsx:63 | the component starts with `isExporting` false, no download and no events |
| Deck.SlideDeck.SetIsExporting | components/SlideDeck.tsx:74 | sets the flag and records the write; the downloads are unchanged |
| Deck.SlideDeck.Save | components/SlideDeck.tsx:101 | records one download of the document's current pages under the given name; the flag is unchanged |
| Deck.SlideDeck.PlaceImage | components/SlideDeck.tsx:92-98 | the document afterwards is `Place` of the document before: a new page when i > 0, then the full-page image on the current page |
| Deck.SlideDeck.ExportChildren | components/SlideDeck.tsx:79-99 | on success the document equals `Run` over all children and the capture trace covers all present children; on a failed capture at k it returns k, `Run` fails at k, and only children up to k were captured; the flag and downloads are unchanged |
| Deck.SlideDeck.HandleExport | components/SlideDeck.tsx:72-105 | a null container changes nothing (the flag is never set, no document, no download). Otherwise the trace is: flag set true, new document, the captures, then on success one download of `Run`'s pages named english-literature-benefits.pdf, and finally flag set false. A failed capture at k ends with the flag set false, no download, and no capture after k. The flag is false when the call settles |

## Left out

- React plumbing (lines 61-64, the `useMemo` wrapper at 65 and 70, and 107-141): `useRef`, `useState`, `useMemo`, `useCallback`, JSX rendering, and the button's disabled state and label. Only the flag's value and writes are modelled; the mapping inside `useMemo` (66-69) is `ChunkedSlides`.
- Static slide content (lines 7-59): titles, highlights and bullets have no behaviour. `ChunkedSlides` takes any list of records.
- html2canvas and toDataURL internals (lines 85-90): the white background, scale 2, CORS and PNG encoding are a foreign library. They are one abstract, possibly failing function from element to image data.
- jsPDF serialisation and the browser download (lines 77 and 101): the document is its list of pages, and saving records the name and the pages.
- Failures of `new jsPDF(...)`, `addPage`, `addImage` or `save` are not modelled. Only the capture can fail: a throw from html2canvas or from `toDataURL` is the rasterizer's `None` case. The other failures would reach the caller through the same `finally` path.
- The container is a snapshot taken when the handler starts. The code re-reads `deckRef.current.children` at every iteration, so a DOM change during an `await` is not modelled.
- Asynchrony: each `await` is a sequential step. Re-entrant calls while `isExporting` is true are not modelled; the code leaves that guard to the disabled button.
- SlideIds.Replace: does not expand the `$&`, `$$`, `` $` `` and `$'` patterns that `String.prototype.replace` interprets in the replacement string; the replacement used by the badge, "#", contains none, so the badge text is unaffected.
- Decimal: JavaScript number formatting is modelled for natural numbers only. Slide positions are natural numbers.
