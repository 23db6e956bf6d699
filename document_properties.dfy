/** What the generated document looks like: page count and order, one cell per card
    on both sides, and no drawing for empty slots or empty text. */
module DocumentProperties {
  import opened Types
  import opened Geometry
  import opened Pagination
  import opened Mirror
  import opened TextFit
  import opened Composer

  /** The first k page pairs hold 2k pages. */
  lemma {:induction false} PagePairsLength(cards: seq<Flashcard>, mode: MirrorMode, style: Style, k: nat)
    ensures |PagePairs(cards, mode, style, k)| == 2 * k
  {
    if k > 0 {
      PagePairsLength(cards, mode, style, k - 1);
    }
  }

  /** Pass k - 1 of the page loop adds its front and back pages after the earlier ones. */
  lemma PagePairsStep(cards: seq<Flashcard>, mode: MirrorMode, style: Style, k: nat)
    requires k > 0
    ensures |PagePairs(cards, mode, style, k)| == 2 * k
    ensures PagePairs(cards, mode, style, k)[2 * k - 2] == FrontPage(cards, k - 1, style)
    ensures PagePairs(cards, mode, style, k)[2 * k - 1] == BackPage(cards, k - 1, mode, style)
    ensures forall i :: 0 <= i < 2 * k - 2 ==> PagePairs(cards, mode, style, k)[i] == PagePairs(cards, mode, style, k - 1)[i]
  {
    PagePairsLength(cards, mode, style, k - 1);
  }

  /** In the first k page pairs, the front of pair p is at 2p and its back at 2p + 1. */
  lemma {:induction false} PagePairAt(cards: seq<Flashcard>, mode: MirrorMode, style: Style, k: nat, p: nat)
    requires p < k
    ensures |PagePairs(cards, mode, style, k)| == 2 * k
    ensures PagePairs(cards, mode, style, k)[2 * p] == FrontPage(cards, p, style)
    ensures PagePairs(cards, mode, style, k)[2 * p + 1] == BackPage(cards, p, mode, style)
  {
    PagePairsStep(cards, mode, style, k);
    if p < k - 1 {
      PagePairAt(cards, mode, style, k - 1, p);
    }
  }

  /** The first k page pairs: front of pair p at 2p, its back at 2p + 1. */
  lemma PagePairsShape(cards: seq<Flashcard>, mode: MirrorMode, style: Style, k: nat)
    ensures |PagePairs(cards, mode, style, k)| == 2 * k
    ensures forall p :: 0 <= p < k ==>
              PagePairs(cards, mode, style, k)[2 * p] == FrontPage(cards, p, style) &&
              PagePairs(cards, mode, style, k)[2 * p + 1] == BackPage(cards, p, mode, style)
  {
    PagePairsLength(cards, mode, style, k);
    forall p | 0 <= p < k
      ensures PagePairs(cards, mode, style, k)[2 * p] == FrontPage(cards, p, style)
      ensures PagePairs(cards, mode, style, k)[2 * p + 1] == BackPage(cards, p, mode, style)
    {
      PagePairAt(cards, mode, style, k, p);
    }
  }

  /** n cards give 2 * ceil(n / 9) pages in the order front 0, back 0, front 1, ...;
      with no cards the document is the single blank page it was created with. */
  lemma DocumentShape(cards: seq<Flashcard>, mode: MirrorMode, style: Style)
    ensures |cards| == 0 ==> DocumentPages(cards, mode, style) == [[]]
    ensures |cards| > 0 ==> |DocumentPages(cards, mode, style)| == 2 * PageCount(|cards|)
    ensures forall p :: 0 <= p < PageCount(|cards|) ==>
              DocumentPages(cards, mode, style)[2 * p] == FrontPage(cards, p, style) &&
              DocumentPages(cards, mode, style)[2 * p + 1] == BackPage(cards, p, mode, style)
  {
    PagePairsShape(cards, mode, style, PageCount(|cards|));
  }

  /** Number of cell frames among the ops. */
  function FrameCount(ops: seq<DrawOp>): nat
  {
    if ops == [] then 0 else FrameCount(ops[..|ops| - 1]) + (if ops[|ops| - 1].CellFrame? then 1 else 0)
  }

  /** Number of text blocks among the ops. */
  function TextCount(ops: seq<DrawOp>): nat
  {
    if ops == [] then 0 else TextCount(ops[..|ops| - 1]) + (if ops[|ops| - 1].TextBlock? then 1 else 0)
  }

  lemma {:induction false} CountsAppend(a: seq<DrawOp>, b: seq<DrawOp>)
    ensures FrameCount(a + b) == FrameCount(a) + FrameCount(b)
    ensures TextCount(a + b) == TextCount(a) + TextCount(b)
    decreases |b|
  {
    if b == [] {
      assert a + b == a;
    } else {
      CountsAppend(a, b[..|b| - 1]);
      assert (a + b)[..|a + b| - 1] == a + b[..|b| - 1];
    }
  }

  /** One cell frame per drawn card, and a text block only when its text is not empty. */
  lemma CardOpsCounts(x: real, y: real, w: real, h: real, text: string, style: Style, isFront: bool)
    ensures FrameCount(CardOps(x, y, w, h, text, style, isFront)) == 1
    ensures TextCount(CardOps(x, y, w, h, text, style, isFront)) == if text == "" then 0 else 1
  {
    var ops := CardOps(x, y, w, h, text, style, isFront);
    assert ops[0].CellFrame?;
    var first := ops[..1];
    assert first[..0] == [];
    assert FrameCount(first) == 1 && TextCount(first) == 0;
    if text != "" {
      assert |ops| == 2 && ops[1].TextBlock?;
      assert ops[..|ops| - 1] == first;
    } else {
      assert ops == first;
    }
  }

  /** Number of cards whose front text is not empty. */
  function FrontsWithText(items: seq<Flashcard>): nat
  {
    if items == [] then 0 else FrontsWithText(items[..|items| - 1]) + (if items[|items| - 1].front != "" then 1 else 0)
  }

  /** Number of filled slots whose back text is not empty. */
  function BacksWithText(slots: seq<Slot>): nat
  {
    if slots == [] then 0
    else BacksWithText(slots[..|slots| - 1]) +
         (if slots[|slots| - 1].Some? && slots[|slots| - 1].value.back != "" then 1 else 0)
  }

  lemma {:induction false} FrontOpsCounts(items: seq<Flashcard>, k: nat, style: Style)
    requires k <= |items|
    ensures FrameCount(FrontOps(items, k, style)) == k
    ensures TextCount(FrontOps(items, k, style)) == FrontsWithText(items[..k])
  {
    if k > 0 {
      FrontOpsCounts(items, k - 1, style);
      var card := CardOps(CellX(k - 1), CellY(k - 1), CellWidth(), CellHeight(), items[k - 1].front, style, true);
      CountsAppend(FrontOps(items, k - 1, style), card);
      CardOpsCounts(CellX(k - 1), CellY(k - 1), CellWidth(), CellHeight(), items[k - 1].front, style, true);
      assert items[..k][..k - 1] == items[..k - 1];
    }
  }

  lemma {:induction false} BackOpsCounts(slots: seq<Slot>, k: nat, style: Style)
    requires k <= |slots|
    ensures FrameCount(BackOps(slots, k, style)) == FilledCount(slots[..k])
    ensures TextCount(BackOps(slots, k, style)) == BacksWithText(slots[..k])
  {
    if k > 0 {
      BackOpsCounts(slots, k - 1, style);
      assert slots[..k][..k - 1] == slots[..k - 1];
      match slots[k - 1]
      case None =>
        assert BackOps(slots, k, style) == BackOps(slots, k - 1, style) + [];
        CountsAppend(BackOps(slots, k - 1, style), []);
      case Some(c) =>
        var card := CardOps(CellX(k - 1), CellY(k - 1), CellWidth(), CellHeight(), c.back, style, false);
        CountsAppend(BackOps(slots, k - 1, style), card);
        CardOpsCounts(CellX(k - 1), CellY(k - 1), CellWidth(), CellHeight(), c.back, style, false);
    }
  }

  /** The front page draws a frame only for the cards actually present, and the back
      page draws exactly as many frames: empty slots draw nothing on either side. */
  lemma PageFrames(cards: seq<Flashcard>, p: nat, mode: MirrorMode, style: Style)
    ensures FrameCount(FrontPage(cards, p, style)) == |PageItems(cards, p)|
    ensures FrameCount(BackPage(cards, p, mode, style)) == |PageItems(cards, p)|
  {
    var items := PageItems(cards, p);
    FrontOpsCounts(items, |items|, style);
    var slots := PageSlots(cards, p);
    var back := BackSlots(cards, p, mode);
    BackOpsCounts(back, ITEMS_PER_PAGE, style);
    assert back[..ITEMS_PER_PAGE] == back;
    MirroredPermutes(slots, mode, ROWS, COLS);
    FilledCountMultiset(slots);
    FilledCountMultiset(back);
    PadSlotsFilled(items, ITEMS_PER_PAGE);
  }

  /** Text blocks are drawn only for cards whose text on that side is not empty. */
  lemma PageTexts(cards: seq<Flashcard>, p: nat, mode: MirrorMode, style: Style)
    ensures TextCount(FrontPage(cards, p, style)) == FrontsWithText(PageItems(cards, p))
    ensures TextCount(BackPage(cards, p, mode, style)) == BacksWithText(BackSlots(cards, p, mode))
  {
    var items := PageItems(cards, p);
    FrontOpsCounts(items, |items|, style);
    assert items[..|items|] == items;
    var back := BackSlots(cards, p, mode);
    BackOpsCounts(back, ITEMS_PER_PAGE, style);
    assert back[..ITEMS_PER_PAGE] == back;
  }

  /** On a 3 x 3 sheet, the back slot k shows front slot SlotTarget(k). */
  lemma BackSlotsAt(cards: seq<Flashcard>, p: nat, mode: MirrorMode, k: nat)
    requires k < ITEMS_PER_PAGE
    ensures |BackSlots(cards, p, mode)| == ITEMS_PER_PAGE
    ensures SlotTarget(mode, ROWS, COLS, k) < ITEMS_PER_PAGE
    ensures BackSlots(cards, p, mode)[k] == PageSlots(cards, p)[SlotTarget(mode, ROWS, COLS, k)]
  {
    PageSlotsAt(cards, p, k);
  }

  /** The horizontal and vertical targets of the nine slots of a sheet. */
  lemma SheetTargets()
    ensures SlotTarget(Horizontal, ROWS, COLS, 0) == 2 && SlotTarget(Horizontal, ROWS, COLS, 1) == 1
    ensures SlotTarget(Horizontal, ROWS, COLS, 2) == 0 && SlotTarget(Horizontal, ROWS, COLS, 3) == 5
    ensures SlotTarget(Horizontal, ROWS, COLS, 4) == 4 && SlotTarget(Horizontal, ROWS, COLS, 5) == 3
    ensures SlotTarget(Horizontal, ROWS, COLS, 6) == 8 && SlotTarget(Horizontal, ROWS, COLS, 7) == 7
    ensures SlotTarget(Horizontal, ROWS, COLS, 8) == 6
    ensures SlotTarget(Vertical, ROWS, COLS, 0) == 6 && SlotTarget(Vertical, ROWS, COLS, 1) == 7
    ensures SlotTarget(Vertical, ROWS, COLS, 2) == 8 && SlotTarget(Vertical, ROWS, COLS, 3) == 3
    ensures SlotTarget(Vertical, ROWS, COLS, 4) == 4 && SlotTarget(Vertical, ROWS, COLS, 5) == 5
    ensures SlotTarget(Vertical, ROWS, COLS, 6) == 0 && SlotTarget(Vertical, ROWS, COLS, 7) == 1
    ensures SlotTarget(Vertical, ROWS, COLS, 8) == 2
  {
  }

  /** Ten cards, flipped on the short edge: two sheets; each back row is its front row
      reversed, and the tenth card sits in the top-right cell of the second back. */
  lemma TenCardsHorizontal(cards: seq<Flashcard>)
    requires |cards| == 10
    ensures PageCount(|cards|) == 2
    ensures BackSlots(cards, 0, Horizontal) ==
              [Some(cards[2]), Some(cards[1]), Some(cards[0]),
               Some(cards[5]), Some(cards[4]), Some(cards[3]),
               Some(cards[8]), Some(cards[7]), Some(cards[6])]
    ensures BackSlots(cards, 1, Horizontal) == [None, None, Some(cards[9]), None, None, None, None, None, None]
  {
    SheetTargets();
    forall p, k | 0 <= p < 2 && 0 <= k < ITEMS_PER_PAGE
      ensures BackSlots(cards, p, Horizontal)[k] == PageSlots(cards, p)[SlotTarget(Horizontal, ROWS, COLS, k)]
      ensures PageSlots(cards, p)[k] == if 9 * p + k < 10 then Some(cards[9 * p + k]) else None
    {
      BackSlotsAt(cards, p, Horizontal, k);
      PageSlotsAt(cards, p, k);
    }
  }

  /** Nine cards, flipped on the long edge: one sheet whose back has the rows in
      reverse order and each row's cells in their front order. */
  lemma NineCardsVertical(cards: seq<Flashcard>)
    requires |cards| == 9
    ensures PageCount(|cards|) == 1
    ensures BackSlots(cards, 0, Vertical) ==
              [Some(cards[6]), Some(cards[7]), Some(cards[8]),
               Some(cards[3]), Some(cards[4]), Some(cards[5]),
               Some(cards[0]), Some(cards[1]), Some(cards[2])]
  {
    SheetTargets();
    forall k | 0 <= k < ITEMS_PER_PAGE
      ensures BackSlots(cards, 0, Vertical)[k] == PageSlots(cards, 0)[SlotTarget(Vertical, ROWS, COLS, k)]
      ensures PageSlots(cards, 0)[k] == Some(cards[k])
    {
      BackSlotsAt(cards, 0, Vertical, k);
      PageSlotsAt(cards, 0, k);
    }
  }
}
