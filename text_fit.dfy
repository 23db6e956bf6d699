/** Font selection and the shrink-to-fit text loop of drawCard in services/pdfGenerator.ts. */
module TextFit {
  import opened Types

  /** The two standard PDF font families the generator draws with. */
  datatype PdfFont = Helvetica | Times

  /** Serif display fonts are drawn in Times, every other font in Helvetica. */
  function PdfFontFor(font: FontName): (f: PdfFont)
    ensures f == Times <==> (font == PlayfairDisplay || font == Merriweather)
  {
    if font == PlayfairDisplay || font == Merriweather then Times
    else if font == Inter || font == Roboto || font == Montserrat || font == OpenSans then Helvetica
    else Helvetica
  }

  /** Line breaking with the font's real metrics (jsPDF's splitTextToSize): the
      lines of a text set in a font at a size, in half points, within a width in mm.
      Nothing is assumed about it. */
  type Wrapper = (PdfFont, nat, real, string) -> seq<string>

  /** Font sizes are counted in half points: the loop starts at 14 pt and stops below 6 pt. */
  const MAX_HALVES: nat := 28
  const MIN_HALVES: nat := 12
  const TEXT_PADDING: real := 6.0
  const LINE_SPACING: real := 1.2
  const PT_TO_MM: real := 0.3528
  const BASELINE: real := 0.8

  function PointSize(halves: nat): real { halves as real / 2.0 }

  /** Height in mm of a block of lineCount lines at the given size. */
  function BlockHeight(lineCount: nat, halves: nat): real
  {
    lineCount as real * (PointSize(halves) * PT_TO_MM * LINE_SPACING)
  }

  /** The lines of text at the given size, wrapped to the cell width less the padding. */
  function WrapAt(wrap: Wrapper, font: PdfFont, text: string, w: real, halves: nat): seq<string>
  {
    wrap(font, halves, w - TEXT_PADDING * 2.0, text)
  }

  /** The wrapped block fits the cell height less the padding. */
  predicate Fits(wrap: Wrapper, font: PdfFont, text: string, w: real, h: real, halves: nat)
  {
    BlockHeight(|WrapAt(wrap, font, text, w, halves)|, halves) <= h - TEXT_PADDING * 2.0
  }

  /** The size the loop ends on when it is at size k. */
  function FitFrom(wrap: Wrapper, font: PdfFont, text: string, w: real, h: real, k: nat): nat
    decreases k
  {
    if k < MIN_HALVES then k
    else if Fits(wrap, font, text, w, h, k) then k
    else FitFrom(wrap, font, text, w, h, k - 1)
  }

  /** The font size drawCard settles on. */
  function FittedHalves(wrap: Wrapper, font: PdfFont, text: string, w: real, h: real): nat
  {
    FitFrom(wrap, font, text, w, h, MAX_HALVES)
  }

  lemma {:induction false} FitFromIsLargestFit(wrap: Wrapper, font: PdfFont, text: string, w: real, h: real, k: nat)
    requires k >= MIN_HALVES - 1
    ensures var r := FitFrom(wrap, font, text, w, h, k);
            MIN_HALVES - 1 <= r <= k &&
            (r >= MIN_HALVES ==> Fits(wrap, font, text, w, h, r)) &&
            forall j :: r < j <= k ==> !Fits(wrap, font, text, w, h, j)
    decreases k
  {
    if k >= MIN_HALVES && !Fits(wrap, font, text, w, h, k) {
      FitFromIsLargestFit(wrap, font, text, w, h, k - 1);
    }
  }

  /** The fitted size is the largest of 14, 13.5, ..., 6 pt whose block fits;
      when none fits it is 5.5 pt. */
  lemma FittedHalvesIsLargestFit(wrap: Wrapper, font: PdfFont, text: string, w: real, h: real)
    ensures var r := FittedHalves(wrap, font, text, w, h);
            MIN_HALVES - 1 <= r <= MAX_HALVES &&
            (r >= MIN_HALVES ==> Fits(wrap, font, text, w, h, r)) &&
            (forall j :: r < j <= MAX_HALVES ==> !Fits(wrap, font, text, w, h, j)) &&
            (r == MIN_HALVES - 1 <==> forall j :: MIN_HALVES <= j <= MAX_HALVES ==> !Fits(wrap, font, text, w, h, j))
  {
    FitFromIsLargestFit(wrap, font, text, w, h, MAX_HALVES);
  }

  /** The shrink loop of drawCard, then the final recomputation of the lines and the
      block height at the chosen size. */
  method FitText(wrap: Wrapper, font: PdfFont, text: string, w: real, h: real)
    returns (fontSize: nat, textLines: seq<string>, totalBlockHeight: real)
    ensures fontSize == FittedHalves(wrap, font, text, w, h)
    ensures MIN_HALVES - 1 <= fontSize <= MAX_HALVES
    ensures fontSize >= MIN_HALVES ==> Fits(wrap, font, text, w, h, fontSize)
    ensures forall j :: fontSize < j <= MAX_HALVES ==> !Fits(wrap, font, text, w, h, j)
    ensures textLines == WrapAt(wrap, font, text, w, fontSize)
    ensures totalBlockHeight == BlockHeight(|textLines|, fontSize)
  {
    var maxTextWidth := w - TEXT_PADDING * 2.0;
    var maxTextHeight := h - TEXT_PADDING * 2.0;
    fontSize := MAX_HALVES;
    textLines := [];
    totalBlockHeight := 0.0;
    while fontSize >= MIN_HALVES
      invariant MIN_HALVES - 1 <= fontSize <= MAX_HALVES
      invariant FitFrom(wrap, font, text, w, h, fontSize) == FittedHalves(wrap, font, text, w, h)
    {
      textLines := wrap(font, fontSize, maxTextWidth, text);
      totalBlockHeight := BlockHeight(|textLines|, fontSize);
      if totalBlockHeight <= maxTextHeight {
        break;
      }
      fontSize := fontSize - 1;
    }
    textLines := wrap(font, fontSize, maxTextWidth, text);
    totalBlockHeight := BlockHeight(|textLines|, fontSize);
    FittedHalvesIsLargestFit(wrap, font, text, w, h);
  }

  /** Height in mm from the top of the text block to the first baseline. */
  function Ascent(halves: nat): real { PointSize(halves) * PT_TO_MM * BASELINE }

  /** Baseline of the first line: the block of height `block` is centred in the cell
      [y, y + h], with equal space above and below. */
  function StartY(y: real, h: real, block: real, halves: nat): (s: real)
    ensures (s - Ascent(halves)) - y == (y + h) - ((s - Ascent(halves)) + block)
  {
    y + (h - block) / 2.0 + PointSize(halves) * PT_TO_MM * BASELINE
  }
}
