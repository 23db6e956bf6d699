# Flashcard layout engine, modelled in Dafny

This project models the core of a flashcard app. The app reads a spreadsheet of
terms and definitions and prints them as double-sided A4-landscape sheets:

- Every sheet holds a 3 x 3 grid of cards.
- The front page shows the terms and the back page shows the definitions.
- The back page is mirrored so that each definition ends up behind its term when the
  sheet is printed duplex. Flipping on the short edge reverses every row
  (`horizontal`). Flipping on the long edge reverses the row order (`vertical`).
  `none` keeps the layout.
- Each card's text is shrunk from 14 pt in half-point steps until the wrapped block
  fits the cell, and it is then centred vertically.
- An on-screen preview shows the first sheet and repeats the mirror logic inline.

Modules, one per area of the program:

- `Types`: cards, mirror modes, font names and grid slots (`Option<Flashcard>`).
- `GridIndex`, `Mirror`: row-major indices, and the `getMirroredLayout` permutation as
  a function (`Mirrored`) and as the nested loop over an array
  (`GetMirroredLayout`).
- `Geometry`: page, margin and cell dimensions in millimetres, and where slot `i` is drawn.
- `TextFit`: the font mapping, the shrink-to-fit loop (`FitText`) and the vertical
  centring (`StartY`). Font sizes are counted in half points (28 = 14 pt).
- `Pagination`: page count, page slices and padding to nine slots.
- `Composer`: the document as a `class Document` whose `pages` the drawing methods
  extend. `GenerateFlashcardPdf` is proved to produce exactly `DocumentPages`.
- `DocumentProperties`: page count, page order, and frame and text counts of that document.
- `Preview`: the preview grid, its inline mirror loop and the back-cell numbering.
- `ExcelParser`: the row-to-card loop of the spreadsheet import.

Behaviour of the code worth knowing:

- With no cards the generator still saves its one initial blank page. `DocumentShape` states `[[]]`.
- The front page draws a cell only for cards that are present. Empty slots
  get no frame on either side (`PageFrames`).
- When no size from 14 pt down to 6 pt fits, the loop ends at 5.5 pt, one step below
  the stated minimum (`FittedHalvesIsLargestFit`).
- Only the empty string is skipped when drawing text. Text made only of spaces is
  still fitted and drawn (`CardOpsCounts`).

## Model

| member | source | states |
|---|---|---|
| Mirror.TargetIndex | services/pdfGenerator.ts:191-203 | the target of cell (r, c) lies inside the grid, for each of the three modes |
| Mirror.SlotTarget | services/pdfGenerator.ts:188-203 | the target of a row-major index lies inside the grid |
| Mirror.SlotTargetInvolution | services/pdfGenerator.ts:193-203 | mirroring an index twice gives the index back |
| Mirror.SlotTargetBijective | services/pdfGenerator.ts:186-207 | no two cells are written to the same slot, and every slot is written by exactly one cell |
| Mirror.Mirrored | services/pdfGenerator.ts:184-208 | defines the back-page slot array: index k below rows * cols holds the item of the cell mirrored onto k, later indices stay empty |
| Mirror.MirroredAt | services/pdfGenerator.ts:188-205 | the item of front cell (r, c) ends up at index TargetIndex(r, c) of the result |
| Mirror.MirroredTwice | services/pdfGenerator.ts:184-208 | applying the layout twice restores the first rows * cols slots and leaves the rest empty |
| Mirror.MirroredInvolution | services/pdfGenerator.ts:184-208 | on a full grid, applying the layout twice gives the input back |
| Mirror.MirroredNone | services/pdfGenerator.ts:191-205 | mode `none` leaves the slots unchanged |
| Mirror.Reverse | services/pdfGenerator.ts:200-202 | element i of the result is element n - 1 - i of the input |
| Mirror.ReversePermutes | services/pdfGenerator.ts:200-202 | reversing keeps the same elements |
| Mirror.HorizontalShift | services/pdfGenerator.ts:201-202 | below the first row, the horizontal target moves down exactly one row with its cell |
| Mirror.VerticalShift | services/pdfGenerator.ts:196-197 | above the last row, the vertical target is one row lower than in the grid without the last row |
| Mirror.VerticalLastRow | services/pdfGenerator.ts:196-197 | the last row is sent to the first row, column kept |
| Mirror.HorizontalSplit | services/pdfGenerator.ts:198-203 | horizontal mirroring is the first row reversed followed by the other rows mirrored |
| Mirror.VerticalSplit | services/pdfGenerator.ts:193-197 | vertical mirroring is the other rows mirrored followed by the first row |
| Mirror.MirroredPermutes | services/pdfGenerator.ts:184-208 | on a full grid the result holds exactly the input's slots, as a multiset: no card lost or duplicated |
| Mirror.GetMirroredLayout | services/pdfGenerator.ts:178-209 | the nested loop over a fresh array filled with empties returns exactly `Mirrored` |
| Geometry.ContentWidth | services/pdfGenerator.ts:29 | defines the printable width: page width less both margins |
| Geometry.ContentHeight | services/pdfGenerator.ts:30 | defines the printable height: page height less both margins |
| Geometry.CellWidth | services/pdfGenerator.ts:28-31 | the three columns split the 277 mm content width evenly and have positive width |
| Geometry.CellHeight | services/pdfGenerator.ts:28-32 | the three rows split the 190 mm content height evenly and have positive height |
| Geometry.SlotRow | services/pdfGenerator.ts:54 | defines the row of slot i as i / 3 |
| Geometry.SlotCol | services/pdfGenerator.ts:55 | defines the column of slot i as i mod 3 |
| Geometry.CellX | services/pdfGenerator.ts:57 | defines the left edge of slot i's cell: margin plus column times cell width |
| Geometry.CellY | services/pdfGenerator.ts:58 | defines the top edge of slot i's cell: margin plus row times cell height |
| Geometry.SlotRowCol | services/pdfGenerator.ts:54-55 | slot i < 9 names a distinct (row, column) pair of the 3 x 3 grid |
| Geometry.CellInsideContent | services/pdfGenerator.ts:54-58 | every cell lies within the margins of the page |
| Geometry.CellsDisjoint | services/pdfGenerator.ts:54-58 | no point belongs to two cells |
| Geometry.ColumnAt | services/pdfGenerator.ts:55-57 | every horizontal position inside the margins lies in the strip of exactly the column returned |
| Geometry.RowAt | services/pdfGenerator.ts:54-58 | every vertical position inside the margins lies in the strip of exactly the row returned |
| Geometry.SlotAt | services/pdfGenerator.ts:54-58 | every point of the content area lies in a cell: the grid has no gaps |
| TextFit.PdfFontFor | services/pdfGenerator.ts:34-40 | Playfair Display and Merriweather map to Times, and every other font maps to Helvetica |
| TextFit.BlockHeight | services/pdfGenerator.ts:151-152 | defines the block height: line count times size in pt times 0.3528 times 1.2 |
| TextFit.WrapAt | services/pdfGenerator.ts:134-149 | defines the wrapped lines: the line breaker applied at the cell width less twice the 6 mm padding, at the given size |
| TextFit.Fits | services/pdfGenerator.ts:149-154 | defines fitting: the block wrapped at the size is no taller than the cell height less twice the 6 mm padding |
| TextFit.FitFrom | services/pdfGenerator.ts:147-159 | defines the size the loop ends on from size k: k itself when below 6 pt or when it fits, else the result from the next smaller size |
| TextFit.FittedHalves | services/pdfGenerator.ts:138-159 | defines the chosen size as the loop's end from 14 pt |
| TextFit.FitFromIsLargestFit | services/pdfGenerator.ts:147-159 | starting from size k, the loop stops at the largest size ≤ k that fits, or one step below 6 pt |
| TextFit.FittedHalvesIsLargestFit | services/pdfGenerator.ts:138-159 | the chosen size is the largest of 14, 13.5, ..., 6 pt whose wrapped block fits the padded cell height; it is 5.5 pt exactly when none fits |
| TextFit.FitText | services/pdfGenerator.ts:133-167 | the loop with `break` and the final recompute return the largest fitting size, the lines wrapped at that size and their block height |
| TextFit.Ascent | services/pdfGenerator.ts:172 | defines the baseline shift: size in pt times 0.3528 times 0.8 |
| TextFit.StartY | services/pdfGenerator.ts:169-172 | without the baseline shift, the block leaves equal space above and below it in the cell |
| Pagination.PageCount | services/pdfGenerator.ts:42-43 | ceil(n / 9): enough pages for all cards, one fewer would not be, and zero pages exactly when there are no cards |
| Pagination.PageItems | services/pdfGenerator.ts:46-47 | page p holds the cards 9p, 9p + 1, ..., up to nine of them, clipped at the end of the list |
| Pagination.PadSlots | services/pdfGenerator.ts:67 | defines the padded slot array: the items in order, then empty slots up to the size |
| Pagination.PageSlots | services/pdfGenerator.ts:67 | defines page p's front slots: its cards padded to nine |
| Pagination.PageSlotsAt | services/pdfGenerator.ts:67 | slot i of page p holds card 9p + i when it exists and is empty otherwise |
| Pagination.FilledCountMultiset | services/pdfGenerator.ts:67 | the filled slots plus the empty slots make up all slots |
| Pagination.PadSlotsFilled | services/pdfGenerator.ts:67 | padding keeps every card of the page and adds only empties |
| Pagination.LastPageFilled | services/pdfGenerator.ts:43-47 | the last page holds n mod 9 cards, or 9 when n is a multiple of 9 |
| Pagination.CardPlacement | services/pdfGenerator.ts:42-67 | card k is on page k / 9 in slot k mod 9, and that page is printed |
| Composer.CardOps | services/pdfGenerator.ts:88-176 | defines what one card draws: its frame, then a centred text block at the fitted size unless the text is empty |
| Composer.FrontOps | services/pdfGenerator.ts:53-61 | defines the front page's drawing: the first k cards in slot order, each at its cell |
| Composer.BackOps | services/pdfGenerator.ts:72-82 | defines the back page's drawing: the filled slots among the first k, each at its cell, empty slots drawing nothing |
| Composer.BackSlots | services/pdfGenerator.ts:67-70 | defines page p's back slots: its padded front slots, mirrored on the 3 x 3 grid |
| Composer.FrontPage | services/pdfGenerator.ts:53-61 | defines front page p: the front ops of all its cards |
| Composer.BackPage | services/pdfGenerator.ts:72-82 | defines back page p: the back ops of its nine mirrored slots |
| Composer.PagePairs | services/pdfGenerator.ts:45-83 | defines the pages of the first k passes: each pass's front page followed by its back page |
| Composer.PagesSoFar | services/pdfGenerator.ts:45-83 | defines the document after k passes: the initial blank page before any pass, the page pairs after |
| Composer.DocumentPages | services/pdfGenerator.ts:13-83 | defines the finished document: one blank page for no cards, else the pages of all ceil(n / 9) passes |
| Composer.AppendToLast | services/pdfGenerator.ts:60-81 | drawing adds ops to the current last page and leaves the earlier pages alone |
| Composer.Document.constructor | services/pdfGenerator.ts:13-17 | a new document has one blank page |
| Composer.Document.AddPage | services/pdfGenerator.ts:50-64 | adding a page appends one blank page |
| Composer.Document.Draw | services/pdfGenerator.ts:108-174 | drawing appends to the last page only |
| Composer.DrawCard | services/pdfGenerator.ts:88-176 | the card adds its frame and, when its text is not empty, one text block at the fitted size, centred horizontally and vertically |
| Composer.DrawFronts | services/pdfGenerator.ts:53-61 | the front page gets one card per present item, in slot order, at the item's cell |
| Composer.DrawBacks | services/pdfGenerator.ts:72-82 | the back page gets one card per filled mirrored slot at that slot's cell; empty slots are skipped |
| Composer.DrawFrontPage | services/pdfGenerator.ts:49-61 | the front page of the pass is drawn on the initial page for pass 0 and on a newly added page otherwise, and holds exactly the page's front cards |
| Composer.DrawBackPage | services/pdfGenerator.ts:63-82 | a new page is added holding exactly the mirrored back cards of the page |
| Composer.DrawPagePair | services/pdfGenerator.ts:45-83 | one pass of the page loop adds this pair's front page and its mirrored back page, the front going on the initial page when it is the first pass |
| Composer.GenerateFlashcardPdf | services/pdfGenerator.ts:11-86 | the finished document is exactly `DocumentPages` of the cards, mode, cut-line switch and mapped font |
| DocumentProperties.PagePairsLength | services/pdfGenerator.ts:45-83 | each pass of the page loop adds two pages |
| DocumentProperties.PagePairsStep | services/pdfGenerator.ts:45-83 | pass k - 1 keeps the earlier pages and appends its front page and then its back page |
| DocumentProperties.PagePairAt | services/pdfGenerator.ts:45-83 | in the document after k passes, page 2p is the front and page 2p + 1 the back of page pair p |
| DocumentProperties.PagePairsShape | services/pdfGenerator.ts:45-83 | after k passes there are 2k pages, alternating front and back, pair by pair |
| DocumentProperties.DocumentShape | services/pdfGenerator.ts:13-83 | n > 0 cards give 2 * ceil(n / 9) pages ordered front 0, back 0, front 1, ...; no cards give the single blank page |
| DocumentProperties.CountsAppend | services/pdfGenerator.ts:53-82 | frame and text-block counts add up over concatenated ops |
| DocumentProperties.CardOpsCounts | services/pdfGenerator.ts:108-129 | each drawn card has exactly one frame, plus one text block exactly when its text is not the empty string |
| DocumentProperties.FrontOpsCounts | services/pdfGenerator.ts:53-61 | the first k front cards give k frames and one text block per non-empty front |
| DocumentProperties.BackOpsCounts | services/pdfGenerator.ts:72-82 | the first k back slots give one frame per filled slot and one text block per non-empty back |
| DocumentProperties.PageFrames | services/pdfGenerator.ts:53-82 | front and back of a page each show as many cells as the page has cards |
| DocumentProperties.PageTexts | services/pdfGenerator.ts:53-129 | text is drawn only for the cards whose text on that side is not empty |
| DocumentProperties.BackSlotsAt | services/pdfGenerator.ts:67-70 | back slot k of a sheet shows the front slot that is mirrored onto k |
| DocumentProperties.SheetTargets | services/pdfGenerator.ts:193-203 | on the 3 x 3 sheet, horizontal mirroring sends slots 0..8 to 2, 1, 0, 5, 4, 3, 8, 7, 6 and vertical to 6, 7, 8, 3, 4, 5, 0, 1, 2 |
| DocumentProperties.TenCardsHorizontal | services/pdfGenerator.ts:42-203 | ten cards with horizontal flipping make two sheets; the backs reverse each row, and the tenth card is top-right on the second back |
| DocumentProperties.NineCardsVertical | services/pdfGenerator.ts:42-197 | nine cards with vertical flipping make one sheet whose back has the rows in reverse order |
| Preview.PreviewGridItems | components/PreviewGrid.tsx:13-15 | nine slots: slot i holds card i when there is one and is empty otherwise |
| Preview.PreviewIsFirstPage | components/PreviewGrid.tsx:13-15 | the preview grid is exactly the generator's first page of slots |
| Preview.PreviewMatchesFirstBack | components/PreviewGrid.tsx:96-118 | the preview's back grid is exactly the generator's first back page |
| Preview.PreviewMirror | components/PreviewGrid.tsx:97-118 | the inline 3 x 3 loop computes exactly `getMirroredLayout(gridItems, mode, 3, 3)` |
| Preview.PreviewPlacement | components/PreviewGrid.tsx:102-116 | vertical sends (r, c) to (2 - r, c), horizontal to (r, 2 - c), and none leaves it in place |
| Preview.IndexOf | components/PreviewGrid.tsx:121 | the first position holding x, or -1 exactly when x occurs nowhere |
| Preview.DistinctIdsDistinctCards | components/PreviewGrid.tsx:13-15 | cards with distinct ids fill distinct preview slots |
| Preview.PreviewBackCell | components/PreviewGrid.tsx:96-146 | an empty mirrored slot shows a placeholder; a filled one shows the card's back text, and with distinct cards its number is the 1-based front cell it came from |
| Preview.PreviewBackGrid | components/PreviewGrid.tsx:96-149 | the nine back cells, each as `PreviewBackCell` states |
| ExcelParser.StartRow | utils/excelParser.ts:29 | processing starts at row 1 exactly when the sheet has more than one row |
| ExcelParser.NatToString | utils/excelParser.ts:35 | decimal digits with no leading zero; a single digit exactly when n < 10 |
| ExcelParser.NatToStringInjective | utils/excelParser.ts:35 | different row numbers have different decimal forms |
| ExcelParser.CardIdInjective | utils/excelParser.ts:35 | different rows give different `card-i` ids |
| ExcelParser.CellAt | utils/excelParser.ts:33-37 | defines cell i of a row: past the end of a short row the cell is absent, so falsy, and its side of the card is empty |
| ExcelParser.CellText | utils/excelParser.ts:36-37 | defines a card side: the cell's string form when truthy, else the empty string |
| ExcelParser.KeepsRow | utils/excelParser.ts:33 | defines the row filter: the row exists and its first or second cell is truthy |
| ExcelParser.CardId | utils/excelParser.ts:35 | defines the id of row i as card- followed by i in decimal |
| ExcelParser.CardOf | utils/excelParser.ts:34-38 | defines the card of row i: its id, cell 0 as front and cell 1 as back |
| ExcelParser.ParsedCards | utils/excelParser.ts:29-40 | defines the sheet's cards: those of the rows from the start row to the end |
| ExcelParser.CardsBetween | utils/excelParser.ts:31-40 | the rows lo .. hi - 1 give at most hi - lo cards |
| ExcelParser.KeptRows | utils/excelParser.ts:31-33 | the kept row indices lie in lo .. hi - 1 |
| ExcelParser.CardsOfKeptRows | utils/excelParser.ts:31-40 | card j is made from the j-th kept row, with that row's id and its first two cells as front and back |
| ExcelParser.KeptRowsExact | utils/excelParser.ts:31-33 | the kept rows are strictly increasing, which keeps the row order, and a row is kept exactly when it exists and one of its first two cells is truthy |
| ExcelParser.ParsedRow | utils/excelParser.ts:29-40 | a row past the header yields a card exactly when it is kept, and the card with its id has the row's texts |
| ExcelParser.ParsedIdsUnique | utils/excelParser.ts:35 | no two cards of one sheet share an id |
| ExcelParser.HeaderRow | utils/excelParser.ts:29 | with more than one row the header never becomes a card; a single row is treated as data |
| ExcelParser.ParseRows | utils/excelParser.ts:21-40 | the push loop returns exactly the cards of the rows from the start row on |

## Left out

- Drawing details: fill colours, the corner circles, line width and dash pattern, and
  text colour are folded into one `CellFrame` op per card. The final `doc.save` is
  not modelled either.
- jsPDF's `splitTextToSize`: the line breaking depends on font metrics. It is a
  function parameter (`TextFit.Wrapper`) about which nothing is assumed.
- Floating point: lengths and font sizes are exact reals. The comparison
  `totalBlockHeight <= maxTextHeight` is therefore exact rather than rounded.
- Spreadsheet reading: `FileReader`, `XLSX.read`, `sheet_to_json` and the Promise
  wrapper are I/O and library code. Their output is the input sequence of rows.
- JavaScript truthiness of cell values: each cell is `Falsy` or `Truthy` with its string form.
- Mirror.GetMirroredLayout: requires a slot array of at least rows * cols entries, as every
  call site passes. The JavaScript behaviour for shorter arrays, reading `undefined`
  and growing the result, is not modelled.
- Preview.PreviewBackCell: `indexOf` compares card objects by reference. The model compares
  card values. The number is stated for grids whose cards are distinct, which holds for
  parsed cards (`ExcelParser.ParsedIdsUnique`, then `Preview.DistinctIdsDistinctCards`).
- React rendering: JSX, CSS classes, the mirror-mode indicator and the front-cell number
  shown next to each term are not modelled.
- The caller in App.tsx returns early with no cards (App.tsx:30) and fixes the mode to
  `horizontal` (App.tsx:14). The model covers every card list and every mode.
