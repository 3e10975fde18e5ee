/**
 * `createPDF`: walk the image list in order, wait for each image to decode,
 * put it on a page of its own, and save the document. The decoder is a
 * parameter: `Some(size)` is `onload`, `None` is `onerror`.
 */
module PdfBuild {
  import opened Wrappers
  import opened Layout
  import opened ImageList

  /** A pixel count of a decoded image. */
  type Pixels = n: int | n > 0 witness 1

  /** `img.width` and `img.height` once the image has loaded. */
  datatype Dims = Dims(width: Pixels, height: Pixels)

  /** The page size the document reports; one size for every page. */
  datatype PageSize = PageSize(width: real, height: real)

  predicate PositivePage(page: PageSize) {
    page.width > 0.0 && page.height > 0.0
  }

  /** One `addImage` call: which URL was drawn, and where. */
  datatype Drawn = Drawn(src: Url, at: Placement)

  /** A document under construction: what was drawn on each page, page by page. */
  datatype Pdf = Pdf(pages: seq<seq<Drawn>>)

  /** The outcome of one click on the convert button. */
  datatype Outcome = Aborted | Saved(doc: Pdf, fileName: string)

  /** The fixed name `createPDF` saves under. */
  const FileName: string := "converted-images.pdf"

  /** `new jsPDF(...)` opens with one blank page. */
  function NewPdf(): Pdf {
    Pdf([[]])
  }

  /** `pdf.addPage()` */
  function AddPage(doc: Pdf): Pdf {
    Pdf(doc.pages + [[]])
  }

  /** `pdf.addImage(...)`: draws on the last page. */
  function AddImage(doc: Pdf, d: Drawn): Pdf
    requires |doc.pages| > 0
  {
    var n := |doc.pages| - 1;
    Pdf(doc.pages[..n] + [doc.pages[n] + [d]])
  }

  /** The letterbox placement of a decoded image on the page. */
  function PlaceOnPage(dims: Dims, page: PageSize): Placement
    requires PositivePage(page)
  {
    Place(dims.width as real, dims.height as real, page.width, page.height)
  }

  /**
   * The `for` loop from index `i` on: a failed decode rejects the awaited
   * promise and ends the whole build without saving; otherwise every image
   * but the first opens a new page and is drawn on it.
   */
  function Loop(images: seq<Url>, decode: Url -> Option<Dims>, page: PageSize, i: nat, doc: Pdf): Outcome
    requires i <= |images| && PositivePage(page) && |doc.pages| > 0
    decreases |images| - i
  {
    if i == |images| then Saved(doc, FileName)
    else
      match decode(images[i])
      case None => Aborted
      case Some(dims) =>
        var onPage := if i > 0 then AddPage(doc) else doc;
        Loop(images, decode, page, i + 1, AddImage(onPage, Drawn(images[i], PlaceOnPage(dims, page))))
  }

  /**
   * What the loop has done after its first `i` rounds: one page per image so
   * far (the initial blank page before the first), page `k` showing exactly
   * image `k` at its letterbox placement.
   */
  ghost predicate DrawnSoFar(images: seq<Url>, decode: Url -> Option<Dims>, page: PageSize, i: nat, doc: Pdf)
    requires PositivePage(page)
  {
    && i <= |images|
    && |doc.pages| == (if i == 0 then 1 else i)
    && (i == 0 ==> doc.pages[0] == [])
    && forall k :: 0 <= k < i ==>
         decode(images[k]).Some? && doc.pages[k] == [Drawn(images[k], PlaceOnPage(decode(images[k]).value, page))]
  }

  /** The loop invariant carried to the end of the list. */
  lemma {:induction false} LoopResult(images: seq<Url>, decode: Url -> Option<Dims>, page: PageSize, i: nat, doc: Pdf)
    requires PositivePage(page)
    requires DrawnSoFar(images, decode, page, i, doc)
    ensures var r := Loop(images, decode, page, i, doc);
      && (r.Aborted? <==> exists k :: i <= k < |images| && decode(images[k]).None?)
      && (r.Saved? ==> r.fileName == FileName && DrawnSoFar(images, decode, page, |images|, r.doc))
    decreases |images| - i
  {
    if i < |images| {
      match decode(images[i])
      case None =>
      case Some(dims) =>
        var onPage := if i > 0 then AddPage(doc) else doc;
        var next := AddImage(onPage, Drawn(images[i], PlaceOnPage(dims, page)));
        assert DrawnSoFar(images, decode, page, i + 1, next) by {
          forall k | 0 <= k < i
            ensures next.pages[k] == doc.pages[k]
          {
          }
        }
        LoopResult(images, decode, page, i + 1, next);
    }
  }

  /**
   * `createPDF` on a snapshot of the list. It aborts, saving nothing, exactly
   * when some image fails to decode. Otherwise it saves one page per image,
   * in list order, page `k` showing image `k` alone; an empty list saves the
   * single blank page the document starts with.
   */
  function CreatePdf(images: seq<Url>, decode: Url -> Option<Dims>, page: PageSize): (r: Outcome)
    requires PositivePage(page)
    ensures r.Aborted? <==> exists k :: 0 <= k < |images| && decode(images[k]).None?
    ensures r.Saved? ==> r.fileName == FileName
    ensures r.Saved? ==> |r.doc.pages| == (if |images| == 0 then 1 else |images|)
    ensures r.Saved? && |images| == 0 ==> r.doc.pages == [[]]
    ensures r.Saved? ==> forall k :: 0 <= k < |images| ==>
              decode(images[k]).Some? && r.doc.pages[k] == [Drawn(images[k], PlaceOnPage(decode(images[k]).value, page))]
  {
    LoopResult(images, decode, page, 0, NewPdf());
    Loop(images, decode, page, 0, NewPdf())
  }

  /** `disabled={images.length === 0 || isGenerating}` on the convert button, negated. */
  predicate ConvertEnabled(images: seq<Url>, isGenerating: bool) {
    |images| > 0 && !isGenerating
  }

  /**
   * Through the enabled button every saved page shows exactly one image and
   * no blank page is saved.
   */
  lemma EnabledConversionHasNoBlankPage(images: seq<Url>, decode: Url -> Option<Dims>, page: PageSize, isGenerating: bool)
    requires PositivePage(page)
    requires ConvertEnabled(images, isGenerating)
    ensures var r := CreatePdf(images, decode, page);
      r.Saved? ==> |r.doc.pages| == |images| && forall k :: 0 <= k < |r.doc.pages| ==> |r.doc.pages[k]| == 1
  {
  }

  /** Every image drawn fits its page and is centred on it. */
  lemma SavedPagesFitAndCentre(images: seq<Url>, decode: Url -> Option<Dims>, page: PageSize)
    requires PositivePage(page)
    ensures var r := CreatePdf(images, decode, page);
      r.Saved? ==> forall k, d :: 0 <= k < |r.doc.pages| && d in r.doc.pages[k] ==>
        && 0.0 <= d.at.x && d.at.x + d.at.width + d.at.x == page.width
        && 0.0 <= d.at.y && d.at.y + d.at.height + d.at.y == page.height
  {
  }
}
