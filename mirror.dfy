/** Index arithmetic on row-major grids. */
module GridIndex {

  lemma MulMonotone(a: nat, b: nat, k: nat)
    requires a <= b
    ensures a * k <= b * k
  {
    assert b * k == a * k + (b - a) * k;
  }

  /** The cell (r, c) of a rows x cols grid has a row-major index below rows * cols. */
  lemma FlatBound(r: nat, c: nat, rows: nat, cols: nat)
    requires r < rows && c < cols
    ensures r * cols + c < rows * cols
  {
    MulMonotone(r + 1, rows, cols);
  }

  /** Splitting a row-major index back into its row and column. */
  lemma FlatDivMod(r: nat, c: nat, cols: nat)
    requires c < cols
    ensures (r * cols + c) / cols == r && (r * cols + c) % cols == c
  {
    var x := r * cols + c;
    var q, m := x / cols, x % cols;
    assert x == q * cols + m;
    if q > r {
      MulMonotone(r + 1, q, cols);
      assert false;
    } else if q < r {
      MulMonotone(q + 1, r, cols);
      assert false;
    }
  }

  /** An index below rows * cols has its row below rows and its column below cols. */
  lemma DivBound(k: nat, rows: nat, cols: nat)
    requires k < rows * cols
    ensures cols > 0 && k / cols < rows && k % cols < cols
    ensures k == (k / cols) * cols + k % cols
  {
    if cols > 0 && k / cols >= rows {
      MulMonotone(rows, k / cols, cols);
      assert false;
    }
  }
}

/** The back-page permutation of services/pdfGenerator.ts (getMirroredLayout). */
module Mirror {
  import opened Types
  import opened GridIndex

  /** The index the cell (r, c) is written to on the back page. */
  function TargetIndex(mode: MirrorMode, rows: nat, cols: nat, r: nat, c: nat): (t: nat)
    requires r < rows && c < cols
    ensures t < rows * cols
  {
    var newRow := if mode == Vertical then (rows - 1) - r else r;
    var newCol := if mode == Horizontal then (cols - 1) - c else c;
    FlatBound(newRow, newCol, rows, cols);
    newRow * cols + newCol
  }

  /** TargetIndex on a row-major index. */
  function SlotTarget(mode: MirrorMode, rows: nat, cols: nat, k: nat): (t: nat)
    requires k < rows * cols
    ensures t < rows * cols
  {
    DivBound(k, rows, cols);
    TargetIndex(mode, rows, cols, k / cols, k % cols)
  }

  /** Mirroring a cell twice leads back to it. */
  lemma SlotTargetInvolution(mode: MirrorMode, rows: nat, cols: nat, k: nat)
    requires k < rows * cols
    ensures SlotTarget(mode, rows, cols, SlotTarget(mode, rows, cols, k)) == k
  {
    DivBound(k, rows, cols);
    var r, c := k / cols, k % cols;
    var newRow := if mode == Vertical then (rows - 1) - r else r;
    var newCol := if mode == Horizontal then (cols - 1) - c else c;
    var t := newRow * cols + newCol;
    assert SlotTarget(mode, rows, cols, k) == t;
    FlatDivMod(newRow, newCol, cols);
    assert SlotTarget(mode, rows, cols, t) == TargetIndex(mode, rows, cols, newRow, newCol);
    assert TargetIndex(mode, rows, cols, newRow, newCol) == r * cols + c;
  }

  /** Every index of the grid is the target of exactly one cell. */
  lemma SlotTargetBijective(mode: MirrorMode, rows: nat, cols: nat)
    ensures forall j, k ::
              0 <= j < rows * cols && 0 <= k < rows * cols &&
              SlotTarget(mode, rows, cols, j) == SlotTarget(mode, rows, cols, k)
              ==> j == k
    ensures forall t :: 0 <= t < rows * cols ==>
              SlotTarget(mode, rows, cols, SlotTarget(mode, rows, cols, t)) == t
  {
    forall j, k | 0 <= j < rows * cols && 0 <= k < rows * cols &&
                  SlotTarget(mode, rows, cols, j) == SlotTarget(mode, rows, cols, k)
      ensures j == k
    {
      SlotTargetInvolution(mode, rows, cols, j);
      SlotTargetInvolution(mode, rows, cols, k);
    }
    forall t | 0 <= t < rows * cols
      ensures SlotTarget(mode, rows, cols, SlotTarget(mode, rows, cols, t)) == t
    {
      SlotTargetInvolution(mode, rows, cols, t);
    }
  }

  /** The back-page slot array: index k shows the cell that is mirrored onto k.
      Indices from rows * cols on are never written and stay empty. */
  function Mirrored(items: seq<Slot>, mode: MirrorMode, rows: nat, cols: nat): (result: seq<Slot>)
    requires rows * cols <= |items|
  {
    seq(|items|, k requires 0 <= k < |items| =>
      if k < rows * cols then items[SlotTarget(mode, rows, cols, k)] else None)
  }

  /** What the back page holds once the cells with row-major index below `done` are written. */
  ghost function Written(items: seq<Slot>, mode: MirrorMode, rows: nat, cols: nat, done: nat, k: nat): Slot
    requires rows * cols <= |items| && k < |items|
  {
    if k < rows * cols && SlotTarget(mode, rows, cols, k) < done
    then items[SlotTarget(mode, rows, cols, k)]
    else None
  }

  /** The row-major index of (r, c) is mirrored to TargetIndex(r, c). */
  lemma SlotTargetOfCell(mode: MirrorMode, rows: nat, cols: nat, r: nat, c: nat)
    requires r < rows && c < cols
    ensures r * cols + c < rows * cols
    ensures SlotTarget(mode, rows, cols, r * cols + c) == TargetIndex(mode, rows, cols, r, c)
  {
    FlatBound(r, c, rows, cols);
    FlatDivMod(r, c, cols);
  }

  /** Writing the cell with row-major index o changes exactly the slot it is mirrored to. */
  lemma WriteStep(items: seq<Slot>, mode: MirrorMode, rows: nat, cols: nat, o: nat, k: nat)
    requires rows * cols <= |items| && o < rows * cols && k < |items|
    ensures Written(items, mode, rows, cols, o + 1, k) ==
              if k == SlotTarget(mode, rows, cols, o) then items[o]
              else Written(items, mode, rows, cols, o, k)
  {
    SlotTargetInvolution(mode, rows, cols, o);
    if k < rows * cols {
      SlotTargetInvolution(mode, rows, cols, k);
    }
  }

  /** Once every cell is written, the array is the mirrored slot array. */
  lemma WrittenAll(items: seq<Slot>, mode: MirrorMode, rows: nat, cols: nat, k: nat)
    requires rows * cols <= |items| && k < |items|
    ensures Written(items, mode, rows, cols, rows * cols, k) == Mirrored(items, mode, rows, cols)[k]
  {
  }

  /** The cell (r, c) of the front lands at TargetIndex(r, c) of the back. */
  lemma MirroredAt(items: seq<Slot>, mode: MirrorMode, rows: nat, cols: nat, r: nat, c: nat)
    requires rows * cols <= |items| && r < rows && c < cols
    ensures r * cols + c < rows * cols
    ensures Mirrored(items, mode, rows, cols)[TargetIndex(mode, rows, cols, r, c)] == items[r * cols + c]
  {
    SlotTargetOfCell(mode, rows, cols, r, c);
    SlotTargetInvolution(mode, rows, cols, r * cols + c);
  }

  /** Mirroring twice gives back the written part of the slot array. */
  lemma {:induction false} MirroredTwice(items: seq<Slot>, mode: MirrorMode, rows: nat, cols: nat)
    requires rows * cols <= |items|
    ensures var twice := Mirrored(Mirrored(items, mode, rows, cols), mode, rows, cols);
            |twice| == |items| &&
            forall k :: 0 <= k < |items| ==> twice[k] == if k < rows * cols then items[k] else None
  {
    var once := Mirrored(items, mode, rows, cols);
    forall k | 0 <= k < rows * cols
      ensures Mirrored(once, mode, rows, cols)[k] == items[k]
    {
      SlotTargetInvolution(mode, rows, cols, k);
    }
  }

  /** getMirroredLayout is an involution on a full grid. */
  lemma MirroredInvolution(items: seq<Slot>, mode: MirrorMode, rows: nat, cols: nat)
    requires rows * cols == |items|
    ensures Mirrored(Mirrored(items, mode, rows, cols), mode, rows, cols) == items
  {
    MirroredTwice(items, mode, rows, cols);
  }

  /** With 'none' the back page equals the front page. */
  lemma MirroredNone(items: seq<Slot>, rows: nat, cols: nat)
    requires rows * cols == |items|
    ensures Mirrored(items, NoMirror, rows, cols) == items
  {
    forall k | 0 <= k < |items|
      ensures Mirrored(items, NoMirror, rows, cols)[k] == items[k]
    {
      DivBound(k, rows, cols);
    }
  }

  /** The elements of s in reverse order. */
  function Reverse<T>(s: seq<T>): (r: seq<T>)
    ensures |r| == |s| && forall i :: 0 <= i < |s| ==> r[i] == s[|s| - 1 - i]
  {
    if s == [] then [] else [s[|s| - 1]] + Reverse(s[..|s| - 1])
  }

  lemma {:induction false} ReversePermutes<T>(s: seq<T>)
    ensures multiset(Reverse(s)) == multiset(s)
  {
    if s != [] {
      ReversePermutes(s[..|s| - 1]);
      assert s == s[..|s| - 1] + [s[|s| - 1]];
    }
  }

  /** Below the first row, the horizontal target of k is shifted by one row. */
  lemma HorizontalShift(rows: nat, cols: nat, k: nat)
    requires rows >= 1 && cols <= k < rows * cols
    ensures k - cols < (rows - 1) * cols
    ensures SlotTarget(Horizontal, rows, cols, k) == cols + SlotTarget(Horizontal, rows - 1, cols, k - cols)
  {
    assert rows * cols == (rows - 1) * cols + cols;
    DivBound(k - cols, rows - 1, cols);
    var q, m := (k - cols) / cols, (k - cols) % cols;
    assert k == (q + 1) * cols + m;
    FlatDivMod(q + 1, m, cols);
  }

  /** Above the last row, the vertical target of k is one row further down. */
  lemma VerticalShift(rows: nat, cols: nat, k: nat)
    requires rows >= 1 && k < (rows - 1) * cols
    ensures k < rows * cols
    ensures SlotTarget(Vertical, rows, cols, k) == cols + SlotTarget(Vertical, rows - 1, cols, k)
  {
    assert rows * cols == (rows - 1) * cols + cols;
    DivBound(k, rows - 1, cols);
  }

  /** On the last row, the vertical target of k lies in the first row. */
  lemma VerticalLastRow(rows: nat, cols: nat, k: nat)
    requires rows >= 1 && (rows - 1) * cols <= k < rows * cols
    ensures SlotTarget(Vertical, rows, cols, k) == k - (rows - 1) * cols
  {
    assert rows * cols == (rows - 1) * cols + cols;
    FlatDivMod(rows - 1, k - (rows - 1) * cols, cols);
  }

  /** Horizontal mirroring reverses the first row and mirrors the remaining rows. */
  lemma HorizontalSplit(items: seq<Slot>, rows: nat, cols: nat)
    requires rows >= 1 && rows * cols == |items|
    ensures cols <= |items| && (rows - 1) * cols == |items| - cols
    ensures Mirrored(items, Horizontal, rows, cols) ==
            Reverse(items[..cols]) + Mirrored(items[cols..], Horizontal, rows - 1, cols)
  {
    assert rows * cols == (rows - 1) * cols + cols;
    var lhs := Mirrored(items, Horizontal, rows, cols);
    var rhs := Reverse(items[..cols]) + Mirrored(items[cols..], Horizontal, rows - 1, cols);
    forall k | 0 <= k < |items|
      ensures lhs[k] == rhs[k]
    {
      if k < cols {
        FlatDivMod(0, k, cols);
      } else {
        HorizontalShift(rows, cols, k);
      }
    }
  }

  /** Vertical mirroring puts the mirrored lower rows first and the first row last. */
  lemma VerticalSplit(items: seq<Slot>, rows: nat, cols: nat)
    requires rows >= 1 && rows * cols == |items|
    ensures cols <= |items| && (rows - 1) * cols == |items| - cols
    ensures Mirrored(items, Vertical, rows, cols) ==
            Mirrored(items[cols..], Vertical, rows - 1, cols) + items[..cols]
  {
    assert rows * cols == (rows - 1) * cols + cols;
    var lhs := Mirrored(items, Vertical, rows, cols);
    var rhs := Mirrored(items[cols..], Vertical, rows - 1, cols) + items[..cols];
    forall k | 0 <= k < |items|
      ensures lhs[k] == rhs[k]
    {
      if k < (rows - 1) * cols {
        VerticalShift(rows, cols, k);
      } else {
        VerticalLastRow(rows, cols, k);
      }
    }
  }

  /** On a full grid the back page holds exactly the slots of the front page. */
  lemma {:induction false} MirroredPermutes(items: seq<Slot>, mode: MirrorMode, rows: nat, cols: nat)
    requires rows * cols == |items|
    ensures multiset(Mirrored(items, mode, rows, cols)) == multiset(items)
    decreases rows
  {
    if mode == NoMirror {
      MirroredNone(items, rows, cols);
    } else if rows > 0 {
      HorizontalSplit(items, rows, cols);
      VerticalSplit(items, rows, cols);
      MirroredPermutes(items[cols..], mode, rows - 1, cols);
      assert items == items[..cols] + items[cols..];
      if mode == Horizontal {
        ReversePermutes(items[..cols]);
      }
    } else {
      assert items == [];
    }
  }

  /** getMirroredLayout: fills a fresh all-empty array with nested loops over rows and columns. */
  method GetMirroredLayout(items: seq<Slot>, mode: MirrorMode, rows: nat, cols: nat) returns (result: seq<Slot>)
    requires rows * cols <= |items|
    ensures result == Mirrored(items, mode, rows, cols)
  {
    var a := new Slot[|items|](_ => None);
    ghost var done := 0;
    var r := 0;
    while r < rows
      invariant 0 <= r <= rows && done == r * cols
      invariant forall k :: 0 <= k < a.Length ==> a[k] == Written(items, mode, rows, cols, done, k)
    {
      var c := 0;
      while c < cols
        invariant 0 <= c <= cols && done == r * cols + c
        invariant forall k :: 0 <= k < a.Length ==> a[k] == Written(items, mode, rows, cols, done, k)
      {
        var originalIndex := r * cols + c;
        SlotTargetOfCell(mode, rows, cols, r, c);
        var item := items[originalIndex];
        var targetIndex := TargetIndex(mode, rows, cols, r, c);
        ghost var before := a[..];
        a[targetIndex] := item;
        forall k | 0 <= k < a.Length
          ensures a[k] == Written(items, mode, rows, cols, done + 1, k)
        {
          WriteStep(items, mode, rows, cols, done, k);
          if k != targetIndex {
            assert a[k] == before[k];
          }
        }
        done := done + 1;
        c := c + 1;
      }
      assert done == (r + 1) * cols;
      r := r + 1;
    }
    result := a[..];
    forall k | 0 <= k < |items|
      ensures result[k] == Mirrored(items, mode, rows, cols)[k]
    {
      WrittenAll(items, mode, rows, cols, k);
    }
  }
}
