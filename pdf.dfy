/**
 * The PDF document the export assembles, kept abstract: an append-only list of
 * fixed-size landscape pages, each holding the images drawn on it, and a
 * current page that new images go to.
 */
module PdfDocument {

  /** Width and height, in points, of the landscape page format [842, 595]. */
  const PAGE_WIDTH := 842
  const PAGE_HEIGHT := 595

  /** The embeddable encoding of one captured bitmap (a PNG data URL). */
  type ImageData = string

  /** An image drawn on a page at (x, y) with size w by h, in the named format. */
  datatype PlacedImage = PlacedImage(data: ImageData, format: string, x: int, y: int, w: int, h: int)

  datatype Page = Page(width: int, height: int, images: seq<PlacedImage>)

  /** A freshly created page: the fixed format and nothing drawn on it. */
  const BLANK_PAGE := Page(PAGE_WIDTH, PAGE_HEIGHT, [])

  /** The page with img drawn on top of what it already holds. */
  function WithImage(page: Page, img: PlacedImage): Page
  {
    page.(images := page.images + [img])
  }

  class Pdf {
    var pages: seq<Page>
    var current: nat

    /** There is always a page, the current page is the last one, and every page has the fixed format. */
    ghost predicate Valid()
      reads this
    {
      |pages| >= 1 && current == |pages| - 1 &&
      forall p :: 0 <= p < |pages| ==> pages[p].width == PAGE_WIDTH && pages[p].height == PAGE_HEIGHT
    }

    /** new jsPDF("landscape", "pt", [842, 595]): a document with one blank page. */
    constructor ()
      ensures Valid() && pages == [BLANK_PAGE]
    {
      pages := [BLANK_PAGE];
      current := 0;
    }

    /** addPage(): appends a blank page of the same format and makes it current. */
    method AddPage()
      requires Valid()
      modifies this
      ensures Valid() && pages == old(pages) + [BLANK_PAGE]
    {
      pages := pages + [BLANK_PAGE];
      current := |pages| - 1;
    }

    /** pageSize.getWidth() and getHeight(): the size of the current page. */
    method PageSize() returns (w: int, h: int)
      requires Valid()
      ensures w == PAGE_WIDTH && h == PAGE_HEIGHT
      ensures w == pages[|pages| - 1].width && h == pages[|pages| - 1].height
    {
      w := pages[current].width;
      h := pages[current].height;
    }

    /** addImage(data, format, x, y, w, h): draws the image on the current page only. */
    method AddImage(data: ImageData, format: string, x: int, y: int, w: int, h: int)
      requires Valid()
      modifies this
      ensures Valid() && |pages| == |old(pages)|
      ensures pages == old(pages)[|pages| - 1 := WithImage(old(pages)[|pages| - 1], PlacedImage(data, format, x, y, w, h))]
    {
      pages := pages[current := WithImage(pages[current], PlacedImage(data, format, x, y, w, h))];
    }
  }
}
