/** Splitting the card list into pages of nine slots (services/pdfGenerator.ts). */
module Pagination {
  import opened Types
  import opened Geometry

  /** Math.ceil(n / 9): the fewest pages that hold n cards. */
  function PageCount(n: nat): (p: nat)
    ensures p * ITEMS_PER_PAGE >= n
    ensures p > 0 ==> (p - 1) * ITEMS_PER_PAGE < n
    ensures p == 0 <==> n == 0
  {
    (n + ITEMS_PER_PAGE - 1) / ITEMS_PER_PAGE
  }

  function Min(a: nat, b: nat): nat { if a <= b then a else b }

  /** cards.slice(9p, 9p + 9): the cards of page p, in order. */
  function PageItems(cards: seq<Flashcard>, p: nat): (items: seq<Flashcard>)
    ensures |items| == if p * ITEMS_PER_PAGE < |cards| then Min(ITEMS_PER_PAGE, |cards| - p * ITEMS_PER_PAGE) else 0
    ensures forall i :: 0 <= i < |items| ==> items[i] == cards[p * ITEMS_PER_PAGE + i]
  {
    cards[Min(p * ITEMS_PER_PAGE, |cards|)..Min(p * ITEMS_PER_PAGE + ITEMS_PER_PAGE, |cards|)]
  }

  /** The items followed by empty slots up to the given size. */
  function PadSlots(items: seq<Flashcard>, size: nat): seq<Slot>
  {
    seq(size, i requires 0 <= i < size => if i < |items| then Some(items[i]) else None)
  }

  /** The front slot array of page p. */
  function PageSlots(cards: seq<Flashcard>, p: nat): seq<Slot>
  {
    PadSlots(PageItems(cards, p), ITEMS_PER_PAGE)
  }

  /** Slot i of page p holds card 9p + i when there is one, and is empty otherwise. */
  lemma PageSlotsAt(cards: seq<Flashcard>, p: nat, i: nat)
    requires i < ITEMS_PER_PAGE
    ensures |PageSlots(cards, p)| == ITEMS_PER_PAGE
    ensures PageSlots(cards, p)[i] ==
              if p * ITEMS_PER_PAGE + i < |cards| then Some(cards[p * ITEMS_PER_PAGE + i]) else None
  {
  }

  /** Number of non-empty slots. */
  function FilledCount(slots: seq<Slot>): nat
  {
    if slots == [] then 0 else FilledCount(slots[..|slots| - 1]) + (if slots[|slots| - 1].Some? then 1 else 0)
  }

  lemma {:induction false} FilledCountMultiset(slots: seq<Slot>)
    ensures FilledCount(slots) + multiset(slots)[None] == |slots|
  {
    if slots != [] {
      FilledCountMultiset(slots[..|slots| - 1]);
      assert slots == slots[..|slots| - 1] + [slots[|slots| - 1]];
    }
  }

  /** Padding keeps every item and adds only empty slots. */
  lemma {:induction false} PadSlotsFilled(items: seq<Flashcard>, size: nat)
    requires |items| <= size
    ensures FilledCount(PadSlots(items, size)) == |items|
    decreases size
  {
    if size > 0 {
      assert PadSlots(items, size)[..size - 1] ==
             PadSlots(if |items| == size then items[..size - 1] else items, size - 1);
      PadSlotsFilled(if |items| == size then items[..size - 1] else items, size - 1);
    }
  }

  /** The last page holds n mod 9 cards, or 9 when n is a non-zero multiple of 9. */
  lemma LastPageFilled(cards: seq<Flashcard>)
    requires |cards| > 0
    ensures var last := PageCount(|cards|) - 1;
            FilledCount(PageSlots(cards, last)) ==
              if |cards| % ITEMS_PER_PAGE == 0 then ITEMS_PER_PAGE else |cards| % ITEMS_PER_PAGE
  {
    var last := PageCount(|cards|) - 1;
    PadSlotsFilled(PageItems(cards, last), ITEMS_PER_PAGE);
  }

  /** Every card lands in exactly one slot: card k is at slot k mod 9 of page k / 9. */
  lemma CardPlacement(cards: seq<Flashcard>, k: nat)
    requires k < |cards|
    ensures k / ITEMS_PER_PAGE < PageCount(|cards|)
    ensures PageSlots(cards, k / ITEMS_PER_PAGE)[k % ITEMS_PER_PAGE] == Some(cards[k])
  {
    PageSlotsAt(cards, k / ITEMS_PER_PAGE, k % ITEMS_PER_PAGE);
  }
}
