/** Turning the rows of a spreadsheet's first sheet into cards: column A is the
    front, column B the back, the first row is a header when there is more than one. */
module ExcelParser {
  import opened Types

  /** A cell as the parser sees it: falsy (absent, empty, zero, false) or a truthy
      value together with its string form. */
  datatype Cell = Falsy | Truthy(text: string)

  /** A row of the sheet; None where the row is missing. */
  type Row = Option<seq<Cell>>

  /** Cell i of a row; cells past the end of the row are absent. */
  function CellAt(cells: seq<Cell>, i: nat): Cell
  {
    if i < |cells| then cells[i] else Falsy
  }

  /** The string a card takes from a cell: its text when truthy, empty otherwise. */
  function CellText(cell: Cell): string
  {
    match cell
    case Falsy => ""
    case Truthy(t) => t
  }

  /** A row yields a card when it exists and one of its first two cells is truthy. */
  predicate KeepsRow(row: Row)
  {
    row.Some? && (CellAt(row.value, 0).Truthy? || CellAt(row.value, 1).Truthy?)
  }

  /** Row 0 is skipped as a header only when the sheet has more than one row. */
  function StartRow(rows: seq<Row>): (s: nat)
    ensures s <= |rows|
    ensures s == 1 <==> |rows| > 1
    ensures s == 0 <==> |rows| <= 1
  {
    if |rows| > 1 then 1 else 0
  }

  function DigitChar(d: nat): char
    requires d < 10
  {
    "0123456789"[d]
  }

  /** Decimal form of n, most significant digit first, no leading zeros. */
  function NatToString(n: nat): (s: string)
    ensures 1 <= |s|
    ensures n < 10 <==> |s| == 1
    ensures forall k :: 0 <= k < |s| ==> '0' <= s[k] <= '9'
    ensures |s| > 1 ==> s[0] != '0'
  {
    if n < 10 then [DigitChar(n)] else NatToString(n / 10) + [DigitChar(n % 10)]
  }

  lemma DigitCharInjective(d: nat, e: nat)
    requires d < 10 && e < 10 && DigitChar(d) == DigitChar(e)
    ensures d == e
  {
  }

  /** Different numbers have different decimal forms. */
  lemma {:induction false} NatToStringInjective(a: nat, b: nat)
    requires NatToString(a) == NatToString(b)
    ensures a == b
    decreases a
  {
    var sa, sb := NatToString(a), NatToString(b);
    if a < 10 {
      DigitCharInjective(a, b);
    } else {
      assert sa == NatToString(a / 10) + [DigitChar(a % 10)];
      assert sb == NatToString(b / 10) + [DigitChar(b % 10)];
      assert sa[..|sa| - 1] == NatToString(a / 10);
      assert sb[..|sb| - 1] == NatToString(b / 10);
      NatToStringInjective(a / 10, b / 10);
      DigitCharInjective(a % 10, b % 10);
    }
  }

  /** The id of the card made from row i. */
  function CardId(i: nat): string
  {
    "card-" + NatToString(i)
  }

  lemma CardIdInjective(i: nat, j: nat)
    requires CardId(i) == CardId(j)
    ensures i == j
  {
    assert CardId(i)[5..] == NatToString(i);
    assert CardId(j)[5..] == NatToString(j);
    NatToStringInjective(i, j);
  }

  /** The card made from row i. */
  function CardOf(cells: seq<Cell>, i: nat): Flashcard
  {
    Flashcard(CardId(i), CellText(CellAt(cells, 0)), CellText(CellAt(cells, 1)))
  }

  /** The cards made from rows lo .. hi - 1, in row order. */
  function CardsBetween(rows: seq<Row>, lo: nat, hi: nat): (cards: seq<Flashcard>)
    requires lo <= hi <= |rows|
    ensures |cards| <= hi - lo
    decreases hi
  {
    if hi == lo then []
    else CardsBetween(rows, lo, hi - 1) + (if KeepsRow(rows[hi - 1]) then [CardOf(rows[hi - 1].value, hi - 1)] else [])
  }

  /** The indices of the rows lo .. hi - 1 that yield a card, in row order. */
  function KeptRows(rows: seq<Row>, lo: nat, hi: nat): (kept: seq<nat>)
    requires lo <= hi <= |rows|
    ensures forall j :: 0 <= j < |kept| ==> lo <= kept[j] < hi
    decreases hi
  {
    if hi == lo then []
    else KeptRows(rows, lo, hi - 1) + (if KeepsRow(rows[hi - 1]) then [hi - 1] else [])
  }

  /** The cards of a whole sheet. */
  function ParsedCards(rows: seq<Row>): seq<Flashcard>
  {
    CardsBetween(rows, StartRow(rows), |rows|)
  }

  /** Card j is made from the j-th kept row. */
  lemma {:induction false} CardsOfKeptRows(rows: seq<Row>, lo: nat, hi: nat)
    requires lo <= hi <= |rows|
    ensures |CardsBetween(rows, lo, hi)| == |KeptRows(rows, lo, hi)|
    ensures forall j :: 0 <= j < |KeptRows(rows, lo, hi)| ==>
              KeepsRow(rows[KeptRows(rows, lo, hi)[j]]) &&
              CardsBetween(rows, lo, hi)[j] == CardOf(rows[KeptRows(rows, lo, hi)[j]].value, KeptRows(rows, lo, hi)[j])
    decreases hi
  {
    if hi > lo {
      CardsOfKeptRows(rows, lo, hi - 1);
    }
  }

  /** The kept rows are in strictly increasing order and are exactly the rows in
      lo .. hi - 1 that yield a card. */
  lemma {:induction false} KeptRowsExact(rows: seq<Row>, lo: nat, hi: nat)
    requires lo <= hi <= |rows|
    ensures forall j1, j2 :: 0 <= j1 < j2 < |KeptRows(rows, lo, hi)| ==>
              KeptRows(rows, lo, hi)[j1] < KeptRows(rows, lo, hi)[j2]
    ensures forall i :: lo <= i < hi ==> (KeepsRow(rows[i]) <==> i in KeptRows(rows, lo, hi))
    decreases hi
  {
    if hi > lo {
      KeptRowsExact(rows, lo, hi - 1);
    }
  }

  /** A row past the header yields a card exactly when it is kept, and that card is
      the one carrying the row's id. */
  lemma ParsedRow(rows: seq<Row>, i: nat)
    requires StartRow(rows) <= i < |rows|
    ensures KeepsRow(rows[i]) <==> exists j :: 0 <= j < |ParsedCards(rows)| && ParsedCards(rows)[j].id == CardId(i)
    ensures forall j :: 0 <= j < |ParsedCards(rows)| && ParsedCards(rows)[j].id == CardId(i) ==>
              KeepsRow(rows[i]) && ParsedCards(rows)[j] == CardOf(rows[i].value, i)
  {
    var lo, hi := StartRow(rows), |rows|;
    var cards, kept := ParsedCards(rows), KeptRows(rows, lo, hi);
    CardsOfKeptRows(rows, lo, hi);
    KeptRowsExact(rows, lo, hi);
    if KeepsRow(rows[i]) {
      var j :| 0 <= j < |kept| && kept[j] == i;
      assert cards[j].id == CardId(i);
    }
    forall j | 0 <= j < |cards| && cards[j].id == CardId(i)
      ensures KeepsRow(rows[i]) && cards[j] == CardOf(rows[i].value, i)
    {
      CardIdInjective(kept[j], i);
    }
  }

  /** No two cards of one sheet share an id. */
  lemma ParsedIdsUnique(rows: seq<Row>)
    ensures forall j1, j2 :: 0 <= j1 < j2 < |ParsedCards(rows)| ==> ParsedCards(rows)[j1].id != ParsedCards(rows)[j2].id
  {
    var lo, hi := StartRow(rows), |rows|;
    var cards, kept := ParsedCards(rows), KeptRows(rows, lo, hi);
    CardsOfKeptRows(rows, lo, hi);
    KeptRowsExact(rows, lo, hi);
    forall j1, j2 | 0 <= j1 < j2 < |cards|
      ensures cards[j1].id != cards[j2].id
    {
      if cards[j1].id == cards[j2].id {
        CardIdInjective(kept[j1], kept[j2]);
      }
    }
  }

  /** With more than one row the header never becomes a card; a single row is data. */
  lemma HeaderRow(rows: seq<Row>)
    ensures |rows| > 1 ==> forall c :: c in ParsedCards(rows) ==> c.id != CardId(0)
    ensures |rows| == 1 ==> ParsedCards(rows) == if KeepsRow(rows[0]) then [CardOf(rows[0].value, 0)] else []
  {
    if |rows| > 1 {
      var kept := KeptRows(rows, 1, |rows|);
      CardsOfKeptRows(rows, 1, |rows|);
      KeptRowsExact(rows, 1, |rows|);
      forall c | c in ParsedCards(rows)
        ensures c.id != CardId(0)
      {
        var j :| 0 <= j < |ParsedCards(rows)| && ParsedCards(rows)[j] == c;
        if c.id == CardId(0) {
          CardIdInjective(kept[j], 0);
        }
      }
    }
  }

  /** The row loop: rows from the start row on are turned into cards and pushed in order. */
  method ParseRows(rows: seq<Row>) returns (cards: seq<Flashcard>)
    ensures cards == ParsedCards(rows)
  {
    cards := [];
    var startRow := if |rows| > 1 then 1 else 0;
    var i := startRow;
    while i < |rows|
      invariant startRow <= i <= |rows|
      invariant cards == CardsBetween(rows, startRow, i)
    {
      var row := rows[i];
      if row.Some? && (CellAt(row.value, 0).Truthy? || CellAt(row.value, 1).Truthy?) {
        var front := if CellAt(row.value, 0).Truthy? then CellAt(row.value, 0).text else "";
        var back := if CellAt(row.value, 1).Truthy? then CellAt(row.value, 1).text else "";
        cards := cards + [Flashcard("card-" + NatToString(i), front, back)];
      }
      i := i + 1;
    }
  }
}
