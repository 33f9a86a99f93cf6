/**
 * A pure reference for what the export loop does to the document: the state
 * after visiting the first n children of the deck container, and lemmas on
 * the page layout, the order of images and the failure case that follow from
 * the loop's rules.
 */
module ExportSpec {
  import opened Options
  import opened PdfDocument

  /** A rendered slide element of the deck container, seen only as a handle. */
  datatype Element = Element(handle: nat)

  /** html2canvas followed by toDataURL("image/png"): an image, or None when capture fails. */
  type Rasterizer = Element -> Option<ImageData>

  /** The file name the export saves under. */
  const FILE_NAME := "english-literature-benefits.pdf"

  /** The image call addImage(data, "PNG", 0, 0, pageWidth, pageHeight) makes on page. */
  function FullBleed(data: ImageData, page: Page): PlacedImage
  {
    PlacedImage(data, "PNG", 0, 0, page.width, page.height)
  }

  /** A page carrying exactly one full-page image. */
  function ImagePage(data: ImageData): Page
  {
    Page(PAGE_WIDTH, PAGE_HEIGHT, [PlacedImage(data, "PNG", 0, 0, PAGE_WIDTH, PAGE_HEIGHT)])
  }

  /** Draws a full-page image on the last (current) page. */
  function DrawOnLast(pages: seq<Page>, data: ImageData): (r: seq<Page>)
    requires |pages| >= 1
  {
    pages[|pages| - 1 := WithImage(pages[|pages| - 1], FullBleed(data, pages[|pages| - 1]))]
  }

  /**
   * One iteration of the loop at index i: an absent child is skipped; otherwise
   * the child is captured, a failing capture aborts with i, and a successful one
   * adds a page first when i > 0 and then draws the image on the current page.
   */
  function Step(pages: seq<Page>, i: nat, child: Option<Element>, rasterize: Rasterizer): (r: Result<seq<Page>, nat>)
    requires |pages| >= 1
    ensures r.Ok? ==> |r.value| >= 1
  {
    match child
    case None => Ok(pages)
    case Some(e) =>
      match rasterize(e)
      case None => Err(i)
      case Some(data) => Ok(Place(pages, i, data))
  }

  /** Lines 92-98 for a captured child at index i: a new page when i > 0, then the image on the current page. */
  function Place(pages: seq<Page>, i: nat, data: ImageData): (r: seq<Page>)
    requires |pages| >= 1
    ensures |r| >= 1
  {
    DrawOnLast(if i > 0 then pages + [BLANK_PAGE] else pages, data)
  }

  /** The document after the loop has visited the first n children, or the index whose capture failed. */
  function Run(children: seq<Option<Element>>, rasterize: Rasterizer, n: nat): (r: Result<seq<Page>, nat>)
    requires n <= |children|
    ensures r.Ok? ==> |r.value| >= 1
    decreases n
  {
    if n == 0 then Ok([BLANK_PAGE])
    else
      match Run(children, rasterize, n - 1)
      case Err(k) => Err(k)
      case Ok(pages) => Step(pages, n - 1, children[n - 1], rasterize)
  }

  /** The indices below n whose child is present, in increasing order: the children handed to the rasterizer. */
  function Visited(children: seq<Option<Element>>, n: nat): seq<nat>
    requires n <= |children|
    decreases n
  {
    if n == 0 then []
    else Visited(children, n - 1) + (if children[n - 1].Some? then [n - 1] else [])
  }

  /** Visited lists only present children below n, strictly increasing, and misses none of them. */
  lemma {:induction false} VisitedFacts(children: seq<Option<Element>>, n: nat)
    requires n <= |children|
    ensures var r := Visited(children, n);
      (forall j :: 0 <= j < |r| ==> r[j] < n && children[r[j]].Some?) &&
      (forall j, k :: 0 <= j < k < |r| ==> r[j] < r[k]) &&
      (forall i :: 0 <= i < n && children[i].Some? ==> i in r)
    decreases n
  {
    if n > 0 {
      VisitedFacts(children, n - 1);
    }
  }

  /** Number of present children in s. */
  function Present(s: seq<Option<Element>>): nat
    decreases |s|
  {
    if s == [] then 0 else Present(s[..|s| - 1]) + (if s[|s| - 1].Some? then 1 else 0)
  }

  /** 0 when child 0 exists and its image sits on the first page, 1 when the first page stays blank. */
  function Offset(children: seq<Option<Element>>, n: nat): nat
    requires n <= |children|
  {
    if n > 0 && children[0].Some? then 0 else 1
  }

  /** The capture of child index succeeds. */
  predicate Captures(children: seq<Option<Element>>, rasterize: Rasterizer, i: nat)
  {
    i < |children| && children[i].Some? && rasterize(children[i].value).Some?
  }

  /** The capture of child index fails. */
  predicate Fails(children: seq<Option<Element>>, rasterize: Rasterizer, i: nat)
  {
    i < |children| && children[i].Some? && rasterize(children[i].value).None?
  }

  /**
   * The whole layout of a document after visiting n children: the first page is
   * blank exactly when child 0 is absent, and the j-th visited child's image
   * fills page j + Offset, alone on that page; there are no other pages.
   */
  ghost predicate Shaped(children: seq<Option<Element>>, rasterize: Rasterizer, n: nat, ps: seq<Page>)
    requires n <= |children|
  {
    var v, off := Visited(children, n), Offset(children, n);
    |ps| == |v| + off &&
    (off == 1 ==> ps[0] == BLANK_PAGE) &&
    forall j :: 0 <= j < |v| ==>
      Captures(children, rasterize, v[j]) && ps[j + off] == ImagePage(rasterize(children[v[j]].value).value)
  }

  /** A successful run has the layout Shaped describes. */
  lemma {:induction false} RunShape(children: seq<Option<Element>>, rasterize: Rasterizer, n: nat)
    requires n <= |children| && Run(children, rasterize, n).Ok?
    ensures Shaped(children, rasterize, n, Run(children, rasterize, n).value)
    decreases n
  {
    if n > 0 {
      RunShape(children, rasterize, n - 1);
      var ps := Run(children, rasterize, n - 1).value;
      match children[n - 1]
      case None =>
        assert Visited(children, n) == Visited(children, n - 1);
      case Some(e) =>
        var data := rasterize(e).value;
        assert WithImage(BLANK_PAGE, FullBleed(data, BLANK_PAGE)) == ImagePage(data);
        if n - 1 > 0 {
          assert DrawOnLast(ps + [BLANK_PAGE], data) == ps + [ImagePage(data)];
          ShapedAppend(children, rasterize, n - 1, ps, data);
        } else {
          assert ps == [BLANK_PAGE];
          assert DrawOnLast(ps, data) == [ImagePage(data)];
          assert Visited(children, 1) == [0];
        }
    }
  }

  /** Visiting a present child after index 0 appends one image page to a shaped document. */
  lemma {:induction false} ShapedAppend(children: seq<Option<Element>>, rasterize: Rasterizer, m: nat, ps: seq<Page>, data: ImageData)
    requires 1 <= m < |children| && Shaped(children, rasterize, m, ps)
    requires children[m].Some? && rasterize(children[m].value) == Some(data)
    ensures Shaped(children, rasterize, m + 1, ps + [ImagePage(data)])
  {
    var v, off := Visited(children, m), Offset(children, m);
    var ps' := ps + [ImagePage(data)];
    assert Visited(children, m + 1) == v + [m];
    assert Offset(children, m + 1) == off;
    forall j | 0 <= j < |v| + 1
      ensures Captures(children, rasterize, (v + [m])[j])
      ensures ps'[j + off] == ImagePage(rasterize(children[(v + [m])[j]].value).value)
    {
      if j < |v| {
        assert (v + [m])[j] == v[j];
      }
    }
  }

  /** The number of pages is one plus the number of present children after index 0. */
  lemma {:induction false} RunPageCount(children: seq<Option<Element>>, rasterize: Rasterizer, n: nat)
    requires n <= |children| && Run(children, rasterize, n).Ok?
    ensures n == 0 ==> |Run(children, rasterize, n).value| == 1
    ensures n >= 1 ==> |Run(children, rasterize, n).value| == 1 + Present(children[1..n])
  {
    RunShape(children, rasterize, n);
    VisitedCount(children, n);
    if n >= 1 {
      PresentSplitFirst(children[..n]);
      assert children[..n][1..] == children[1..n];
    }
  }

  /** The visited indices are as many as the present children. */
  lemma {:induction false} VisitedCount(children: seq<Option<Element>>, n: nat)
    requires n <= |children|
    ensures |Visited(children, n)| == Present(children[..n])
    decreases n
  {
    if n > 0 {
      VisitedCount(children, n - 1);
      assert children[..n][..n - 1] == children[..n - 1];
    }
  }

  /** Counting the present children splits into the first one and the rest. */
  lemma {:induction false} PresentSplitFirst(s: seq<Option<Element>>)
    requires |s| >= 1
    ensures Present(s) == (if s[0].Some? then 1 else 0) + Present(s[1..])
    decreases |s|
  {
    if |s| > 1 {
      PresentSplitFirst(s[..|s| - 1]);
      assert s[..|s| - 1][1..] == s[1..][..|s| - 2];
    } else {
      assert s[..|s| - 1] == [];
      assert s[1..] == [];
    }
  }

  /**
   * Every page has the fixed format and holds at most one image, and every
   * image covers its page from (0, 0) to (width, height).
   */
  lemma {:induction false} RunFullBleed(children: seq<Option<Element>>, rasterize: Rasterizer, n: nat)
    requires n <= |children| && Run(children, rasterize, n).Ok?
    ensures var ps := Run(children, rasterize, n).value;
      forall p :: 0 <= p < |ps| ==>
        ps[p].width == PAGE_WIDTH && ps[p].height == PAGE_HEIGHT && |ps[p].images| <= 1 &&
        forall img :: img in ps[p].images ==> img.x == 0 && img.y == 0 && img.w == ps[p].width && img.h == ps[p].height
  {
    RunShape(children, rasterize, n);
    var ps, off := Run(children, rasterize, n).value, Offset(children, n);
    forall p | 0 <= p < |ps|
      ensures ps[p].width == PAGE_WIDTH && ps[p].height == PAGE_HEIGHT && |ps[p].images| <= 1
      ensures forall img :: img in ps[p].images ==> img.x == 0 && img.y == 0 && img.w == ps[p].width && img.h == ps[p].height
    {
      var v := Visited(children, n);
      assert |ps| == |v| + off;
      if p >= off {
        var j := p - off;
        assert Captures(children, rasterize, v[j]) && ps[j + off] == ImagePage(rasterize(children[v[j]].value).value);
      } else {
        assert p == 0 && ps[0] == BLANK_PAGE;
      }
    }
  }

  /** With at least one child, the first page holds an image exactly when child 0 is present. */
  lemma {:induction false} RunFirstPage(children: seq<Option<Element>>, rasterize: Rasterizer, n: nat)
    requires 1 <= n <= |children| && Run(children, rasterize, n).Ok?
    ensures |Run(children, rasterize, n).value[0].images| == 1 <==> children[0].Some?
    ensures children[0].None? ==> Run(children, rasterize, n).value[0] == BLANK_PAGE
  {
    RunShape(children, rasterize, n);
    if children[0].Some? {
      VisitedFacts(children, n);
      var v := Visited(children, n);
      assert 0 in v;
      assert v[0] == 0;
    }
  }

  /** When every child is present, visiting n children lists exactly 0, 1, ..., n - 1. */
  lemma {:induction false} VisitedAllPresent(children: seq<Option<Element>>, n: nat)
    requires n <= |children|
    requires forall i :: 0 <= i < n ==> children[i].Some?
    ensures Visited(children, n) == seq(n, i => i)
    decreases n
  {
    if n > 0 {
      VisitedAllPresent(children, n - 1);
      assert seq(n - 1, i => i) + [n - 1] == seq(n, i => i);
    }
  }

  /** When all n >= 1 children are present and captured, there are n pages and page k holds child k's image. */
  lemma {:induction false} RunAllPresent(children: seq<Option<Element>>, rasterize: Rasterizer, n: nat)
    requires 1 <= n <= |children| && Run(children, rasterize, n).Ok?
    requires forall i :: 0 <= i < n ==> children[i].Some?
    ensures var ps := Run(children, rasterize, n).value;
      |ps| == n &&
      forall k :: 0 <= k < n ==> Captures(children, rasterize, k) && ps[k] == ImagePage(rasterize(children[k].value).value)
  {
    RunShape(children, rasterize, n);
    VisitedAllPresent(children, n);
    var v := Visited(children, n);
    forall k | 0 <= k < n
      ensures Captures(children, rasterize, k)
      ensures Run(children, rasterize, n).value[k] == ImagePage(rasterize(children[k].value).value)
    {
      assert v[k] == k;
    }
  }

  /** A run fails exactly when some visited child's capture fails, and it reports the first such index. */
  lemma {:induction false} RunFailure(children: seq<Option<Element>>, rasterize: Rasterizer, n: nat)
    requires n <= |children|
    ensures Run(children, rasterize, n).Err? <==> exists k :: 0 <= k < n && Fails(children, rasterize, k)
    ensures Run(children, rasterize, n).Err? ==>
      var k := Run(children, rasterize, n).error;
      k < n && Fails(children, rasterize, k) && forall j :: 0 <= j < k ==> !Fails(children, rasterize, j)
    decreases n
  {
    if n > 0 {
      RunFailure(children, rasterize, n - 1);
      if Run(children, rasterize, n - 1).Ok? && Fails(children, rasterize, n - 1) {
        assert Run(children, rasterize, n) == Err(n - 1);
      }
    }
  }

  /** Once a run has failed, visiting more children keeps the same failure. */
  lemma {:induction false} RunFailureSticks(children: seq<Option<Element>>, rasterize: Rasterizer, m: nat, n: nat)
    requires m <= n <= |children| && Run(children, rasterize, m).Err?
    ensures Run(children, rasterize, n) == Run(children, rasterize, m)
    decreases n
  {
    if n > m {
      RunFailureSticks(children, rasterize, m, n - 1);
    }
  }
}
