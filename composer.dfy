/** The page composer of services/pdfGenerator.ts: generateFlashcardPDF and drawCard,
    drawing into an abstract multi-page document. */
module Composer {
  import opened Types
  import opened Geometry
  import opened Pagination
  import opened Mirror
  import opened TextFit

  /** What drawCard puts on a page. A cell frame stands for the background fill,
      the corner circle and, when enabled, the dashed cut line; a text block stands
      for the one centred, multi-line text call. */
  datatype DrawOp =
    | CellFrame(x: real, y: real, w: real, h: real, isFront: bool, cutLine: bool)
    | TextBlock(lines: seq<string>, font: PdfFont, halves: nat, centerX: real, startY: real)

  type Page = seq<DrawOp>

  /** The settings that stay fixed during one generation run. */
  datatype Style = Style(showCutLines: bool, font: PdfFont, wrap: Wrapper)

  /** The pages with ops appended to the last (current) page. */
  function AppendToLast(pages: seq<Page>, ops: seq<DrawOp>): (r: seq<Page>)
    requires |pages| > 0
    ensures |r| == |pages| && r[..|r| - 1] == pages[..|pages| - 1] && r[|r| - 1] == pages[|pages| - 1] + ops
  {
    pages[..|pages| - 1] + [pages[|pages| - 1] + ops]
  }

  /** A jsPDF document: a list of pages; drawing always goes to the last page. */
  class Document {
    var pages: seq<Page>

    /** A new document has one blank page. */
    constructor ()
      ensures pages == [[]]
    {
      pages := [[]];
    }

    method AddPage()
      modifies this
      ensures pages == old(pages) + [[]]
    {
      pages := pages + [[]];
    }

    method Draw(ops: seq<DrawOp>)
      requires |pages| > 0
      modifies this
      ensures pages == AppendToLast(old(pages), ops)
    {
      pages := AppendToLast(pages, ops);
    }
  }

  /** The ops drawCard emits for one cell: always the frame, and a text block
      unless the text is empty. */
  function CardOps(x: real, y: real, w: real, h: real, text: string, style: Style, isFront: bool): seq<DrawOp>
  {
    var frame := CellFrame(x, y, w, h, isFront, style.showCutLines);
    if text == "" then [frame]
    else
      var halves := FittedHalves(style.wrap, style.font, text, w, h);
      var lines := WrapAt(style.wrap, style.font, text, w, halves);
      [frame, TextBlock(lines, style.font, halves, x + w / 2.0, StartY(y, h, BlockHeight(|lines|, halves), halves))]
  }

  lemma AppendTwice(pages: seq<Page>, a: seq<DrawOp>, b: seq<DrawOp>)
    requires |pages| > 0
    ensures AppendToLast(AppendToLast(pages, a), b) == AppendToLast(pages, a + b)
  {
    var n := |pages|;
    var once := AppendToLast(pages, a);
    assert once[..n - 1] == pages[..n - 1];
    assert once[n - 1] + b == pages[n - 1] + (a + b);
  }

  lemma AppendNothing(pages: seq<Page>)
    requires |pages| > 0
    ensures AppendToLast(pages, []) == pages
  {
    assert pages[|pages| - 1] + [] == pages[|pages| - 1];
    assert pages == pages[..|pages| - 1] + [pages[|pages| - 1]];
  }

  /** The document after the first k passes of the page loop. */
  function PagesSoFar(cards: seq<Flashcard>, mode: MirrorMode, style: Style, k: nat): seq<Page>
  {
    if k == 0 then [[]] else PagePairs(cards, mode, style, k)
  }

  lemma AppendAfter(prefix: seq<Page>, last: Page, ops: seq<DrawOp>)
    ensures AppendToLast(prefix + [last], ops) == prefix + [last + ops]
  {
    assert (prefix + [last])[..|prefix|] == prefix;
  }

  /** drawCard, restricted to what reaches the document. */
  method DrawCard(doc: Document, x: real, y: real, w: real, h: real, text: string, style: Style, isFront: bool)
    requires |doc.pages| > 0
    modifies doc
    ensures doc.pages == AppendToLast(old(doc.pages), CardOps(x, y, w, h, text, style, isFront))
  {
    doc.Draw([CellFrame(x, y, w, h, isFront, style.showCutLines)]);
    if text != "" {
      var fontSize, textLines, totalBlockHeight := FitText(style.wrap, style.font, text, w, h);
      var startY := StartY(y, h, totalBlockHeight, fontSize);
      var frame := CellFrame(x, y, w, h, isFront, style.showCutLines);
      var block := TextBlock(textLines, style.font, fontSize, x + w / 2.0, startY);
      assert CardOps(x, y, w, h, text, style, isFront) == [frame] + [block];
      AppendTwice(old(doc.pages), [frame], [block]);
      doc.Draw([TextBlock(textLines, style.font, fontSize, x + w / 2.0, startY)]);
    }
  }

  /** The front ops of the first k cards of a page, one cell per card in slot order. */
  function FrontOps(items: seq<Flashcard>, k: nat, style: Style): seq<DrawOp>
    requires k <= |items|
  {
    if k == 0 then []
    else FrontOps(items, k - 1, style) +
         CardOps(CellX(k - 1), CellY(k - 1), CellWidth(), CellHeight(), items[k - 1].front, style, true)
  }

  /** The back ops of the first k slots of a back page; empty slots draw nothing. */
  function BackOps(slots: seq<Slot>, k: nat, style: Style): seq<DrawOp>
    requires k <= |slots|
  {
    if k == 0 then []
    else BackOps(slots, k - 1, style) +
         match slots[k - 1]
         case None => []
         case Some(card) => CardOps(CellX(k - 1), CellY(k - 1), CellWidth(), CellHeight(), card.back, style, false)
  }

  /** The back slot array of page p: the padded front slots, mirrored. */
  function BackSlots(cards: seq<Flashcard>, p: nat, mode: MirrorMode): seq<Slot>
  {
    Mirrored(PageSlots(cards, p), mode, ROWS, COLS)
  }

  function FrontPage(cards: seq<Flashcard>, p: nat, style: Style): Page
  {
    FrontOps(PageItems(cards, p), |PageItems(cards, p)|, style)
  }

  function BackPage(cards: seq<Flashcard>, p: nat, mode: MirrorMode, style: Style): Page
  {
    BackOps(BackSlots(cards, p, mode), ITEMS_PER_PAGE, style)
  }

  /** The first k front/back page pairs. */
  function PagePairs(cards: seq<Flashcard>, mode: MirrorMode, style: Style, k: nat): seq<Page>
  {
    if k == 0 then []
    else PagePairs(cards, mode, style, k - 1) + [FrontPage(cards, k - 1, style), BackPage(cards, k - 1, mode, style)]
  }

  /** The finished document. With no cards the loop never runs and the document
      keeps its initial blank page. */
  function DocumentPages(cards: seq<Flashcard>, mode: MirrorMode, style: Style): seq<Page>
  {
    if |cards| == 0 then [[]] else PagePairs(cards, mode, style, PageCount(|cards|))
  }

  lemma AppendTwo<T>(s: seq<T>, a: T, b: T)
    ensures s + [a] + [b] == s + [a, b]
  {
  }

  /** pageItems.forEach on the front page: one cell per card, in slot order. */
  method DrawFronts(doc: Document, pageItems: seq<Flashcard>, style: Style)
    requires |doc.pages| > 0
    modifies doc
    ensures doc.pages == AppendToLast(old(doc.pages), FrontOps(pageItems, |pageItems|, style))
  {
    AppendNothing(doc.pages);
    var index := 0;
    while index < |pageItems|
      invariant 0 <= index <= |pageItems|
      invariant doc.pages == AppendToLast(old(doc.pages), FrontOps(pageItems, index, style))
    {
      var card := pageItems[index];
      var x, y := CellX(index), CellY(index);
      AppendTwice(old(doc.pages), FrontOps(pageItems, index, style),
                  CardOps(x, y, CellWidth(), CellHeight(), card.front, style, true));
      DrawCard(doc, x, y, CellWidth(), CellHeight(), card.front, style, true);
      index := index + 1;
    }
  }

  /** mirroredSlots.forEach on the back page: empty slots are skipped. */
  method DrawBacks(doc: Document, mirroredSlots: seq<Slot>, style: Style)
    requires |doc.pages| > 0
    modifies doc
    ensures doc.pages == AppendToLast(old(doc.pages), BackOps(mirroredSlots, |mirroredSlots|, style))
  {
    AppendNothing(doc.pages);
    var index := 0;
    while index < |mirroredSlots|
      invariant 0 <= index <= |mirroredSlots|
      invariant doc.pages == AppendToLast(old(doc.pages), BackOps(mirroredSlots, index, style))
    {
      match mirroredSlots[index] {
        case None =>
          assert BackOps(mirroredSlots, index, style) + [] == BackOps(mirroredSlots, index, style);
        case Some(card) =>
          var x, y := CellX(index), CellY(index);
          AppendTwice(old(doc.pages), BackOps(mirroredSlots, index, style),
                      CardOps(x, y, CellWidth(), CellHeight(), card.back, style, false));
          DrawCard(doc, x, y, CellWidth(), CellHeight(), card.back, style, false);
      }
      index := index + 1;
    }
  }

  /** The front half of one pass of the page loop: the cards of page pageIdx on
      the initial page when pageIdx is 0, on a new page otherwise. */
  method DrawFrontPage(doc: Document, cards: seq<Flashcard>, pageIdx: nat, pageItems: seq<Flashcard>, style: Style)
    requires pageItems == PageItems(cards, pageIdx)
    requires pageIdx == 0 ==> doc.pages == [[]]
    modifies doc
    ensures pageIdx == 0 ==> doc.pages == [FrontPage(cards, pageIdx, style)]
    ensures pageIdx > 0 ==> doc.pages == old(doc.pages) + [FrontPage(cards, pageIdx, style)]
  {
    if pageIdx > 0 {
      doc.AddPage();
    }
    ghost var prefix := if pageIdx > 0 then old(doc.pages) else [];
    assert doc.pages == prefix + [[]];
    DrawFronts(doc, pageItems, style);
    AppendAfter(prefix, [], FrontOps(pageItems, |pageItems|, style));
    assert [] + FrontPage(cards, pageIdx, style) == FrontPage(cards, pageIdx, style);
  }

  /** The back half of one pass of the page loop: a new page with the page's slots
      padded to nine and mirrored. */
  method DrawBackPage(doc: Document, cards: seq<Flashcard>, pageIdx: nat, pageItems: seq<Flashcard>,
                      mirrorMode: MirrorMode, style: Style)
    requires pageItems == PageItems(cards, pageIdx)
    modifies doc
    ensures doc.pages == old(doc.pages) + [BackPage(cards, pageIdx, mirrorMode, style)]
  {
    doc.AddPage();
    var fullPageSlots := PadSlots(pageItems, ITEMS_PER_PAGE);
    var mirroredSlots := GetMirroredLayout(fullPageSlots, mirrorMode, ROWS, COLS);
    assert mirroredSlots == BackSlots(cards, pageIdx, mirrorMode);
    DrawBacks(doc, mirroredSlots, style);
    AppendAfter(old(doc.pages), [], BackOps(mirroredSlots, |mirroredSlots|, style));
    assert [] + BackPage(cards, pageIdx, mirrorMode, style) == BackPage(cards, pageIdx, mirrorMode, style);
  }

  /** One pass of the page loop of generateFlashcardPDF: the front page of page pair
      pageIdx, then its back page. */
  method DrawPagePair(doc: Document, cards: seq<Flashcard>, pageIdx: nat, mirrorMode: MirrorMode, style: Style)
    requires pageIdx < PageCount(|cards|)
    requires doc.pages == PagesSoFar(cards, mirrorMode, style, pageIdx)
    modifies doc
    ensures doc.pages == PagesSoFar(cards, mirrorMode, style, pageIdx + 1)
  {
    var pageStartIndex := pageIdx * ITEMS_PER_PAGE;
    var pageItems := cards[pageStartIndex..Min(pageStartIndex + ITEMS_PER_PAGE, |cards|)];
    assert pageItems == PageItems(cards, pageIdx);
    ghost var done := PagePairs(cards, mirrorMode, style, pageIdx);
    DrawFrontPage(doc, cards, pageIdx, pageItems, style);
    assert doc.pages == done + [FrontPage(cards, pageIdx, style)];
    DrawBackPage(doc, cards, pageIdx, pageItems, mirrorMode, style);
    AppendTwo(done, FrontPage(cards, pageIdx, style), BackPage(cards, pageIdx, mirrorMode, style));
  }

  /** generateFlashcardPDF, without the final save. */
  method GenerateFlashcardPdf(cards: seq<Flashcard>, mirrorMode: MirrorMode, showCutLines: bool, font: FontName, wrap: Wrapper)
    returns (doc: Document)
    ensures fresh(doc)
    ensures doc.pages == DocumentPages(cards, mirrorMode, Style(showCutLines, PdfFontFor(font), wrap))
  {
    doc := new Document();
    var pdfFont := PdfFontFor(font);
    var style := Style(showCutLines, pdfFont, wrap);
    var totalPages := PageCount(|cards|);
    var pageIdx := 0;
    while pageIdx < totalPages
      invariant 0 <= pageIdx <= totalPages
      invariant doc.pages == PagesSoFar(cards, mirrorMode, style, pageIdx)
    {
      DrawPagePair(doc, cards, pageIdx, mirrorMode, style);
      pageIdx := pageIdx + 1;
    }
  }
}
