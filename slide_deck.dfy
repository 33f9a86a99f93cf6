/**
 * The slide deck component's export handler: the isExporting flag, the
 * browser downloads it triggers, and the loop that captures each child of the
 * deck container and assembles the PDF.
 */
module Deck {
  import opened Options
  import opened PdfDocument
  import opened ExportSpec

  /** A file handed to the browser's download: its name and the saved document's pages. */
  datatype SavedFile = SavedFile(name: string, pages: seq<Page>)

  /** How a call of the handler settles. */
  datatype ExportOutcome =
    | NoContainer             // the container reference was null: returned at once
    | Completed(file: SavedFile)
    | Failed(index: nat)      // capturing the child at index threw; the promise rejects

  /** What the outside world observes, in order. */
  datatype Event =
    | FlagSet(value: bool)    // setIsExporting(value)
    | NewDocument             // new jsPDF(...)
    | Rasterized(index: nat)  // html2canvas called on the child at index
    | Downloaded(file: SavedFile)

  /** The Rasterized events of visiting the first n children: one per present child, in index order. */
  function CaptureTrace(children: seq<Option<Element>>, n: nat): seq<Event>
    requires n <= |children|
    decreases n
  {
    if n == 0 then []
    else CaptureTrace(children, n - 1) + (if children[n - 1].Some? then [Rasterized(n - 1)] else [])
  }

  /** The capture trace names exactly the visited indices, in the same order. */
  lemma {:induction false} CaptureTraceIsVisited(children: seq<Option<Element>>, n: nat)
    requires n <= |children|
    ensures |CaptureTrace(children, n)| == |Visited(children, n)|
    ensures forall j :: 0 <= j < |Visited(children, n)| ==> CaptureTrace(children, n)[j] == Rasterized(Visited(children, n)[j])
    decreases n
  {
    if n > 0 {
      CaptureTraceIsVisited(children, n - 1);
    }
  }

  /** Visiting the first n children hands only children below n to the rasterizer, each once, in increasing order. */
  lemma {:induction false} CaptureTraceBelow(children: seq<Option<Element>>, n: nat)
    requires n <= |children|
    ensures forall j :: 0 <= j < |CaptureTrace(children, n)| ==>
      CaptureTrace(children, n)[j].Rasterized? && CaptureTrace(children, n)[j].index < n &&
      children[CaptureTrace(children, n)[j].index].Some?
    ensures forall j, k :: 0 <= j < k < |CaptureTrace(children, n)| ==>
      CaptureTrace(children, n)[j].index < CaptureTrace(children, n)[k].index
  {
    CaptureTraceIsVisited(children, n);
    VisitedFacts(children, n);
  }

  class SlideDeck {
    var isExporting: bool
    var downloads: seq<SavedFile>
    ghost var trace: seq<Event>

    /** The component mounts idle: useState(false), nothing downloaded yet. */
    constructor ()
      ensures !isExporting && downloads == [] && trace == []
    {
      isExporting := false;
      downloads := [];
      trace := [];
    }

    /** setIsExporting(value). */
    method SetIsExporting(value: bool)
      modifies this
      ensures isExporting == value && downloads == old(downloads)
      ensures trace == old(trace) + [FlagSet(value)]
    {
      isExporting := value;
      trace := trace + [FlagSet(value)];
    }

    /** pdf.save(name): the browser downloads the document as it stands. */
    method Save(pdf: Pdf, name: string) returns (file: SavedFile)
      modifies this
      ensures file == SavedFile(name, pdf.pages)
      ensures isExporting == old(isExporting)
      ensures downloads == old(downloads) + [file] && trace == old(trace) + [Downloaded(file)]
    {
      file := SavedFile(name, pdf.pages);
      downloads := downloads + [file];
      trace := trace + [Downloaded(file)];
    }

    /** Draws the capture of child i: a new page first when i > 0, then a full-page image. */
    method PlaceImage(pdf: Pdf, i: nat, data: ImageData)
      requires pdf.Valid()
      modifies pdf
      ensures pdf.Valid() && pdf.pages == Place(old(pdf.pages), i, data)
    {
      if i > 0 {
        pdf.AddPage();
      }
      var pageWidth, pageHeight := pdf.PageSize();
      pdf.AddImage(data, "PNG", 0, 0, pageWidth, pageHeight);
    }

    /**
     * The for loop of handleExport (lines 79-99) on a fresh document: visits the
     * children in index order, skips absent ones, captures each present one and
     * places its image. Returns the index whose capture threw, or None when every
     * capture succeeded.
     */
    method ExportChildren(pdf: Pdf, children: seq<Option<Element>>, rasterize: Rasterizer) returns (thrown: Option<nat>)
      requires pdf.Valid() && pdf.pages == [BLANK_PAGE]
      modifies this, pdf
      ensures pdf.Valid()
      ensures isExporting == old(isExporting) && downloads == old(downloads)
      ensures thrown.None? ==>
        Run(children, rasterize, |children|) == Ok(pdf.pages) &&
        trace == old(trace) + CaptureTrace(children, |children|)
      ensures thrown.Some? ==>
        Run(children, rasterize, |children|) == Err(thrown.value) && thrown.value < |children| &&
        trace == old(trace) + CaptureTrace(children, thrown.value + 1)
    {
      for i := 0 to |children|
        invariant pdf.Valid()
        invariant Run(children, rasterize, i) == Ok(pdf.pages)
        invariant isExporting == old(isExporting) && downloads == old(downloads)
        invariant trace == old(trace) + CaptureTrace(children, i)
      {
        var slideElement := children[i];
        if slideElement.None? {
          continue;
        }
        trace := trace + [Rasterized(i)];
        var canvas := rasterize(slideElement.value);
        if canvas.None? {
          RunFailureSticks(children, rasterize, i + 1, |children|);
          return Some(i);
        }
        PlaceImage(pdf, i, canvas.value);
      }
      return None;
    }

    /**
     * handleExport. container is deckRef.current (None for null) with its
     * children (None for an absent child); rasterize stands for html2canvas
     * and toDataURL.
     */
    method HandleExport(container: Option<seq<Option<Element>>>, rasterize: Rasterizer) returns (outcome: ExportOutcome)
      modifies this
      ensures container.None? ==>
        outcome == NoContainer && isExporting == old(isExporting) &&
        downloads == old(downloads) && trace == old(trace)
      ensures container.Some? ==>
        var children := container.value;
        !isExporting &&
        match Run(children, rasterize, |children|)
        case Ok(pages) =>
          var file := SavedFile(FILE_NAME, pages);
          outcome == Completed(file) && downloads == old(downloads) + [file] &&
          trace == old(trace) + [FlagSet(true), NewDocument] + CaptureTrace(children, |children|)
                   + [Downloaded(file), FlagSet(false)]
        case Err(k) =>
          outcome == Failed(k) && k < |children| && downloads == old(downloads) &&
          trace == old(trace) + [FlagSet(true), NewDocument] + CaptureTrace(children, k + 1)
                   + [FlagSet(false)]
    {
      if container.None? {
        return NoContainer;
      }
      var children := container.value;
      SetIsExporting(true);
      var pdf := new Pdf();
      trace := trace + [NewDocument];
      ghost var begun := trace;
      assert begun == old(trace) + [FlagSet(true), NewDocument];
      var thrown := ExportChildren(pdf, children, rasterize);
      ghost var events := CaptureTrace(children, if thrown.Some? then thrown.value + 1 else |children|);
      assert trace == begun + events;
      if thrown.Some? {
        // the exception passes through the finally block and the promise rejects
        SetIsExporting(false);
        assert trace == begun + events + [FlagSet(false)];
        return Failed(thrown.value);
      }
      var file := Save(pdf, FILE_NAME);
      SetIsExporting(false);
      assert trace == begun + events + [Downloaded(file), FlagSet(false)];
      return Completed(file);
    }
  }
}
