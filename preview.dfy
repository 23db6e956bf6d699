/** The on-screen preview: the first sheet's nine front slots and, beside them, the
    nine back slots rearranged by the preview's own copy of the mirror loop. */
module Preview {
  import opened Types
  import opened Mirror
  import opened Pagination
  import Geometry
  import Composer

  /** The preview grid is always 3 x 3. */
  const GRID_ROWS: nat := 3
  const GRID_COLS: nat := 3
  const GRID_SIZE: nat := 9

  /** The first nine cards, padded with empty slots up to nine. */
  function PreviewGridItems(cards: seq<Flashcard>): (g: seq<Slot>)
    ensures |g| == GRID_SIZE
    ensures forall i :: 0 <= i < GRID_SIZE ==> g[i] == if i < |cards| then Some(cards[i]) else None
  {
    var previewCards := cards[..Min(GRID_SIZE, |cards|)];
    seq(|previewCards|, i requires 0 <= i < |previewCards| => Some(previewCards[i])) +
    seq(GRID_SIZE - |previewCards|, _ => None)
  }

  /** The preview shows exactly the first sheet the generator prints. */
  lemma PreviewIsFirstPage(cards: seq<Flashcard>)
    ensures PreviewGridItems(cards) == PageSlots(cards, 0)
  {
    var g := PreviewGridItems(cards);
    var s := PageSlots(cards, 0);
    forall i | 0 <= i < GRID_SIZE
      ensures g[i] == s[i]
    {
      PageSlotsAt(cards, 0, i);
    }
  }

  /** The preview's back grid is the back of the first printed sheet. */
  lemma PreviewMatchesFirstBack(cards: seq<Flashcard>, mode: MirrorMode)
    ensures Mirrored(PreviewGridItems(cards), mode, GRID_ROWS, GRID_COLS) == Composer.BackSlots(cards, 0, mode)
  {
    PreviewIsFirstPage(cards);
    assert GRID_ROWS == Geometry.ROWS && GRID_COLS == Geometry.COLS;
  }

  /** The preview's inline mirror loop over the 3 x 3 grid. */
  method PreviewMirror(gridItems: seq<Slot>, mode: MirrorMode) returns (mirroredSlots: seq<Slot>)
    requires |gridItems| == GRID_SIZE
    ensures mirroredSlots == Mirrored(gridItems, mode, GRID_ROWS, GRID_COLS)
  {
    var a := new Slot[GRID_SIZE](_ => None);
    ghost var done := 0;
    for r := 0 to 3
      invariant done == r * 3
      invariant forall k :: 0 <= k < a.Length ==> a[k] == Written(gridItems, mode, 3, 3, done, k)
    {
      for c := 0 to 3
        invariant done == r * 3 + c
        invariant forall k :: 0 <= k < a.Length ==> a[k] == Written(gridItems, mode, 3, 3, done, k)
      {
        var origIdx := r * 3 + c;
        var targetIdx := origIdx;
        if mode == Vertical {
          targetIdx := ((3 - 1) - r) * 3 + c;
        } else if mode == Horizontal {
          targetIdx := (r * 3) + ((3 - 1) - c);
        }
        SlotTargetOfCell(mode, 3, 3, r, c);
        assert targetIdx == SlotTarget(mode, 3, 3, done);
        ghost var before := a[..];
        a[targetIdx] := gridItems[origIdx];
        forall k | 0 <= k < a.Length
          ensures a[k] == Written(gridItems, mode, 3, 3, done + 1, k)
        {
          WriteStep(gridItems, mode, 3, 3, done, k);
          if k != targetIdx {
            assert a[k] == before[k];
          }
        }
        done := done + 1;
      }
    }
    mirroredSlots := a[..];
    forall k | 0 <= k < GRID_SIZE
      ensures mirroredSlots[k] == Mirrored(gridItems, mode, 3, 3)[k]
    {
      WrittenAll(gridItems, mode, 3, 3, k);
    }
  }

  /** Where the preview puts front cell (r, c) on the back, for each mode. */
  lemma PreviewPlacement(gridItems: seq<Slot>, mode: MirrorMode, r: nat, c: nat)
    requires |gridItems| == GRID_SIZE && r < 3 && c < 3
    ensures mode == Vertical ==> Mirrored(gridItems, mode, 3, 3)[(2 - r) * 3 + c] == gridItems[r * 3 + c]
    ensures mode == Horizontal ==> Mirrored(gridItems, mode, 3, 3)[r * 3 + (2 - c)] == gridItems[r * 3 + c]
    ensures mode == NoMirror ==> Mirrored(gridItems, mode, 3, 3)[r * 3 + c] == gridItems[r * 3 + c]
  {
    MirroredAt(gridItems, mode, 3, 3, r, c);
  }

  /** Position of the first x in s, or -1 when s does not contain x. */
  function IndexOf<T(==)>(s: seq<T>, x: T): (i: int)
    ensures -1 <= i < |s|
    ensures i == -1 <==> x !in s
    ensures 0 <= i ==> s[i] == x && forall j :: 0 <= j < i ==> s[j] != x
  {
    if s == [] then -1
    else if s[0] == x then 0
    else
      var i := IndexOf(s[1..], x);
      if i == -1 then -1 else i + 1
  }

  /** What a back cell of the preview shows: a placeholder for an empty slot, or the
      card's back with the 1-based number of the front cell it came from. */
  datatype BackCellView = Placeholder | Shown(text: string, number: Option<nat>)

  /** No card occurs twice among the filled slots. */
  predicate DistinctCards(slots: seq<Slot>)
  {
    forall i, j :: 0 <= i < j < |slots| && slots[i].Some? ==> slots[i] != slots[j]
  }

  /** Cards with pairwise different ids fill the preview with distinct slots. */
  lemma DistinctIdsDistinctCards(cards: seq<Flashcard>)
    requires forall i, j :: 0 <= i < j < |cards| ==> cards[i].id != cards[j].id
    ensures DistinctCards(PreviewGridItems(cards))
  {
  }

  /** One back cell of the preview: the whole mirror is recomputed, the slot idx is
      read from it, and its label is found by searching the front grid. */
  method PreviewBackCell(gridItems: seq<Slot>, mode: MirrorMode, idx: nat) returns (view: BackCellView)
    requires |gridItems| == GRID_SIZE && idx < GRID_SIZE
    ensures view.Placeholder? <==> Mirrored(gridItems, mode, 3, 3)[idx].None?
    ensures view.Shown? ==> view.text == Mirrored(gridItems, mode, 3, 3)[idx].value.back
    ensures view.Shown? && DistinctCards(gridItems) ==>
              view.number == Some(SlotTarget(mode, 3, 3, idx) + 1)
  {
    var mirroredSlots := PreviewMirror(gridItems, mode);
    var item := mirroredSlots[idx];
    var originalIndex := IndexOf(gridItems, item);
    match item
    case None =>
      view := Placeholder;
    case Some(card) =>
      var number := if originalIndex != -1 then Some((originalIndex + 1) as nat) else None;
      view := Shown(card.back, number);
      if DistinctCards(gridItems) {
        var t := SlotTarget(mode, 3, 3, idx);
        assert gridItems[t] == item;
        assert originalIndex == t;
      }
  }

  /** The nine back cells of the preview, in slot order. */
  method PreviewBackGrid(gridItems: seq<Slot>, mode: MirrorMode) returns (views: seq<BackCellView>)
    requires |gridItems| == GRID_SIZE
    ensures |views| == GRID_SIZE
    ensures forall idx :: 0 <= idx < GRID_SIZE ==>
              (views[idx].Placeholder? <==> Mirrored(gridItems, mode, 3, 3)[idx].None?)
    ensures forall idx :: 0 <= idx < GRID_SIZE && views[idx].Shown? ==>
              views[idx].text == Mirrored(gridItems, mode, 3, 3)[idx].value.back
    ensures DistinctCards(gridItems) ==>
              forall idx :: 0 <= idx < GRID_SIZE && views[idx].Shown? ==>
                views[idx].number == Some(SlotTarget(mode, 3, 3, idx) + 1)
  {
    views := [];
    for idx := 0 to GRID_SIZE
      invariant |views| == idx
      invariant forall i :: 0 <= i < idx ==>
                  (views[i].Placeholder? <==> Mirrored(gridItems, mode, 3, 3)[i].None?)
      invariant forall i :: 0 <= i < idx && views[i].Shown? ==>
                  views[i].text == Mirrored(gridItems, mode, 3, 3)[i].value.back
      invariant DistinctCards(gridItems) ==>
                  forall i :: 0 <= i < idx && views[i].Shown? ==>
                    views[i].number == Some(SlotTarget(mode, 3, 3, i) + 1)
    {
      var view := PreviewBackCell(gridItems, mode, idx);
      views := views + [view];
    }
  }
}
